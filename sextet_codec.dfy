/** Passwords as character strings: decoding a password into its sextets and
    encoding sextets into a password of either dialect, with the layout the
    kana/full-width dialect prints. */
module SextetCodec {
  import opened Common
  import opened Alphabets
  import opened FormatEngine

  // ---------------------------------------------------------------------
  // Decoding

  /** The alphabet positions of the characters of `t`, in order; a character
      that is not in the alphabet contributes nothing. */
  function Lookup(a: string, t: string): (r: seq<int>)
    ensures |r| <= |t|
    ensures forall k | 0 <= k < |r| :: 0 <= r[k] < |a|
  {
    if t == [] then []
    else
      var k := IndexOf(a, t[0]);
      (if k < 0 then [] else [k]) + Lookup(a, t[1..])
  }

  lemma {:induction false} LookupAppend(a: string, x: string, y: string)
    ensures Lookup(a, x + y) == Lookup(a, x) + Lookup(a, y)
  {
    if x != [] {
      assert (x + y)[1..] == x[1..] + y;
      LookupAppend(a, x[1..], y);
    } else {
      assert x + y == y;
    }
  }

  /** decode: the sextets of a password read in the dialect, after the
      dialect's normalisation; unknown characters (spaces, line breaks, ...)
      are skipped. */
  function Decoded(v: Variant, password: string): (r: seq<int>)
    ensures AllSextets(r) && |r| <= |password|
  {
    Lookup(PasswordChars(v), NormalizePassword(v, password))
  }

  /** decode as the program runs it: one pass over the normalised password. */
  method Decode(v: Variant, password: string) returns (result: seq<int>)
    ensures result == Decoded(v, password)
  {
    var normalized := NormalizePassword(v, password);
    var chars := PasswordChars(v);
    result := [];
    var i := 0;
    while i < |normalized|
      invariant 0 <= i <= |normalized|
      invariant result == Lookup(chars, normalized[..i])
    {
      var ch := normalized[i];
      var sextet := IndexOf(chars, ch);
      assert normalized[..i + 1] == normalized[..i] + [ch];
      LookupAppend(chars, normalized[..i], [ch]);
      if sextet >= 0 {
        result := result + [sextet];
      }
      i := i + 1;
    }
    assert normalized[..|normalized|] == normalized;
  }

  /** The sextet one character stands for in the dialect, if any. */
  function DecodeChar(v: Variant, c: char): Option<int> {
    var k := IndexOf(PasswordChars(v), NormalizeChar(v, c));
    if k < 0 then None else Some(k)
  }

  /** The sextet of a character is the position of its normalised form in the
      dialect's alphabet, and there is none exactly when the normalised form
      is not a symbol of it. */
  lemma DecodeCharMeaning(v: Variant, c: char)
    ensures DecodeChar(v, c).Some? <==> NormalizeChar(v, c) in PasswordChars(v)
    ensures DecodeChar(v, c).Some? ==>
              IsSextet(DecodeChar(v, c).value)
              && PasswordChars(v)[DecodeChar(v, c).value] == NormalizeChar(v, c)
  {
    IndexOfFirst(PasswordChars(v), NormalizeChar(v, c));
  }

  /** Decoding a one-character password gives the character's sextet, or
      nothing. */
  lemma DecodeOneChar(v: Variant, c: char)
    ensures Decoded(v, [c]) == (if DecodeChar(v, c).Some? then [DecodeChar(v, c).value] else [])
  {
    assert NormalizePassword(v, [c]) == [NormalizeChar(v, c)];
  }

  lemma NormalizeAppend(v: Variant, x: string, y: string)
    ensures NormalizePassword(v, x + y) == NormalizePassword(v, x) + NormalizePassword(v, y)
  {
  }

  /** Decoding works character by character: the decoding of a concatenation
      is the concatenation of the decodings. */
  lemma DecodedAppend(v: Variant, x: string, y: string)
    ensures Decoded(v, x + y) == Decoded(v, x) + Decoded(v, y)
  {
    NormalizeAppend(v, x, y);
    LookupAppend(PasswordChars(v), NormalizePassword(v, x), NormalizePassword(v, y));
  }

  /** The space and every control character (the C0 controls, tab and line
      breaks included, DEL and the C1 controls) stand for no sextet in either
      dialect. */
  lemma BlankIsSkipped(v: Variant, c: char)
    requires c <= ' ' || '\U{7F}' <= c <= '\U{9F}'
    ensures DecodeChar(v, c) == None
  {
    assert NormalizeChar(v, c) == c;
    IndexOfFirst(PasswordChars(v), c);
    match v
    case Puyo20th =>
      Pp7Pieces();
    case Pppp =>
      PpppPieces();
      SymbolPiece();
  }

  /** Inserting a character that stands for no sextet, such as a space or a
      line break, anywhere in a password does not change its decoding. */
  lemma DecodedSkips(v: Variant, x: string, c: char, y: string)
    requires DecodeChar(v, c) == None
    ensures Decoded(v, x + [c] + y) == Decoded(v, x + y)
  {
    var dx := Decoded(v, x);
    calc {
      Decoded(v, x + [c] + y);
      { DecodedAppend(v, x + [c], y); }
      Decoded(v, x + [c]) + Decoded(v, y);
      { DecodedAppend(v, x, [c]); DecodeOneChar(v, c); }
      (dx + []) + Decoded(v, y);
      { assert dx + [] == dx; }
      dx + Decoded(v, y);
      { DecodedAppend(v, x, y); }
      Decoded(v, x + y);
    }
  }

  /** The symbol of sextet k decodes to k. */
  lemma DecodeSymbol(v: Variant, k: int)
    requires IsSextet(k)
    ensures DecodeChar(v, PasswordChars(v)[k]) == Some(k)
    ensures Decoded(v, [PasswordChars(v)[k]]) == [k]
  {
    NormalizeKeepsSymbols(v, PasswordChars(v)[k]);
    IndexOfSymbol(v, k);
    DecodeOneChar(v, PasswordChars(v)[k]);
  }

  // ---------------------------------------------------------------------
  // Encoding

  /** The dialect's symbols for a sextet sequence (charAt for each sextet). */
  function Spell(v: Variant, s: seq<int>): (t: string)
    requires AllSextets(s)
    ensures |t| == |s|
  {
    seq(|s|, i requires 0 <= i < |s| => PasswordChars(v)[s[i]])
  }

  /** Spelling a sequence and decoding the spelling gives the sequence back. */
  lemma {:induction false} SpellRoundTrip(v: Variant, s: seq<int>)
    requires AllSextets(s)
    ensures Decoded(v, Spell(v, s)) == s
    decreases |s|
  {
    if s != [] {
      var init, c := s[..|s| - 1], PasswordChars(v)[Last(s)];
      calc {
        Decoded(v, Spell(v, s));
        { SpellSnoc(v, s); }
        Decoded(v, Spell(v, init) + [c]);
        { DecodedAppend(v, Spell(v, init), [c]); }
        Decoded(v, Spell(v, init)) + Decoded(v, [c]);
        { SpellRoundTrip(v, init); DecodeSymbol(v, Last(s)); }
        init + [Last(s)];
        { SplitLast(s); }
        s;
      }
    }
  }

  lemma SpellSnoc(v: Variant, s: seq<int>)
    requires AllSextets(s) && s != []
    ensures Spell(v, s) == Spell(v, s[..|s| - 1]) + [PasswordChars(v)[Last(s)]]
  {
    var t, u := Spell(v, s), Spell(v, s[..|s| - 1]) + [PasswordChars(v)[Last(s)]];
    forall i | 0 <= i < |s|
      ensures t[i] == u[i]
    {
      if i < |s| - 1 {
        assert u[i] == Spell(v, s[..|s| - 1])[i];
      }
    }
  }

  /** A character a regular expression's `.` does not match. */
  predicate LineTerminator(c: char) {
    c == '\n' || c == '\r' || c == '\U{2028}' || c == '\U{2029}'
  }

  predicate NoLineTerminator(t: string) {
    forall i | 0 <= i < |t| :: !LineTerminator(t[i])
  }

  /** The global replace of four arbitrary characters by themselves and a
      space: scanning from the left, each four characters free of line
      terminators get a space after them; elsewhere the scan moves on by one
      character. */
  function SpaceEveryFour(t: string): (r: string)
    ensures |r| >= |t|
  {
    if |t| >= 4 && NoLineTerminator(t[..4]) then t[..4] + [' '] + SpaceEveryFour(t[4..])
    else if t == [] then []
    else [t[0]] + SpaceEveryFour(t[1..])
  }

  /** The global replace of fourteen arbitrary characters and a space by the
      fourteen characters and a line break, scanning in the same way. */
  function BreakEveryFourteen(t: string): (r: string)
    ensures |r| == |t|
  {
    if |t| >= 15 && NoLineTerminator(t[..14]) && t[14] == ' ' then
      t[..14] + ['\n'] + BreakEveryFourteen(t[15..])
    else if t == [] then []
    else [t[0]] + BreakEveryFourteen(t[1..])
  }

  /** The printed layout of a kana/full-width password: groups of four
      symbols separated by spaces, three groups to a line. */
  function Layout(t: string): string {
    BreakEveryFourteen(SpaceEveryFour(t))
  }

  /** The space-inserting replace adds only spaces. */
  lemma {:induction false} SpaceEveryFourChars(t: string)
    ensures forall c | c in SpaceEveryFour(t) :: c in t || c == ' '
  {
    if |t| >= 4 && NoLineTerminator(t[..4]) {
      SpaceEveryFourChars(t[4..]);
      assert t == t[..4] + t[4..];
    } else if t != [] {
      SpaceEveryFourChars(t[1..]);
      assert t == [t[0]] + t[1..];
    }
  }

  /** The line-breaking replace only turns spaces into line breaks. */
  lemma {:induction false} BreakEveryFourteenChars(t: string)
    ensures forall c | c in BreakEveryFourteen(t) :: c in t || c == '\n'
  {
    if |t| >= 15 && NoLineTerminator(t[..14]) && t[14] == ' ' {
      BreakEveryFourteenChars(t[15..]);
      assert t == t[..15] + t[15..];
    } else if t != [] {
      BreakEveryFourteenChars(t[1..]);
      assert t == [t[0]] + t[1..];
    }
  }

  lemma {:induction false} SpaceEveryFourDecodes(v: Variant, t: string)
    ensures Decoded(v, SpaceEveryFour(t)) == Decoded(v, t)
  {
    if |t| >= 4 && NoLineTerminator(t[..4]) {
      SpaceEveryFourDecodes(v, t[4..]);
      BlankIsSkipped(v, ' ');
      DecodedSkips(v, t[..4], ' ', SpaceEveryFour(t[4..]));
      DecodedAppend(v, t[..4], SpaceEveryFour(t[4..]));
      DecodedAppend(v, t[..4], t[4..]);
      assert t == t[..4] + t[4..];
    } else if t != [] {
      SpaceEveryFourDecodes(v, t[1..]);
      DecodedAppend(v, [t[0]], SpaceEveryFour(t[1..]));
      DecodedAppend(v, [t[0]], t[1..]);
      assert t == [t[0]] + t[1..];
    }
  }

  lemma {:induction false} BreakEveryFourteenDecodes(v: Variant, t: string)
    ensures Decoded(v, BreakEveryFourteen(t)) == Decoded(v, t)
  {
    if |t| >= 15 && NoLineTerminator(t[..14]) && t[14] == ' ' {
      BreakEveryFourteenDecodes(v, t[15..]);
      BreakStep(v, t[..14], t[15..], BreakEveryFourteen(t[15..]));
      assert t == t[..14] + [' '] + t[15..];
    } else if t != [] {
      BreakEveryFourteenDecodes(v, t[1..]);
      DecodedAppend(v, [t[0]], BreakEveryFourteen(t[1..]));
      DecodedAppend(v, [t[0]], t[1..]);
      assert t == [t[0]] + t[1..];
    }
  }

  lemma BreakStep(v: Variant, x: string, y: string, z: string)
    requires Decoded(v, z) == Decoded(v, y)
    ensures Decoded(v, x + ['\n'] + z) == Decoded(v, x + [' '] + y)
  {
    BlankIsSkipped(v, ' ');
    BlankIsSkipped(v, '\n');
    DecodedSkips(v, x, '\n', z);
    DecodedSkips(v, x, ' ', y);
    DecodedAppend(v, x, z);
    DecodedAppend(v, x, y);
  }

  /** The layout changes nothing a decoder reads, and adds only spaces and
      line breaks. */
  lemma LayoutKeepsSextets(v: Variant, t: string)
    ensures Decoded(v, Layout(t)) == Decoded(v, t)
    ensures forall c | c in Layout(t) :: c in t || c == ' ' || c == '\n'
  {
    SpaceEveryFourDecodes(v, t);
    BreakEveryFourteenDecodes(v, SpaceEveryFour(t));
    SpaceEveryFourChars(t);
    BreakEveryFourteenChars(SpaceEveryFour(t));
  }

  lemma {:induction false} SpaceEveryFourShort(u: string)
    requires |u| < 4
    ensures SpaceEveryFour(u) == u
  {
    if u != [] {
      SpaceEveryFourShort(u[1..]);
    }
  }

  /** Spacing a run of symbols: every fifth position holds a space, and
      every other position j holds symbol j - j / 5. */
  lemma {:induction false} SpaceEveryFourShape(u: string)
    requires NoLineTerminator(u)
    ensures |SpaceEveryFour(u)| == |u| + |u| / 4
    ensures forall j | 0 <= j < |SpaceEveryFour(u)| ::
      SpaceEveryFour(u)[j] == if j % 5 == 4 then ' ' else u[j - j / 5]
  {
    if |u| < 4 {
      SpaceEveryFourShort(u);
    } else {
      SpaceEveryFourShape(u[4..]);
      assert NoLineTerminator(u[..4]);
      SpacedShape(u, u[4..], SpaceEveryFour(u[4..]), SpaceEveryFour(u));
    }
  }

  // One step of the spacing: four symbols, a space, then the spaced rest.
  lemma SpacedShape(u: string, w: string, rest: string, t: string)
    requires |u| >= 4 && w == u[4..] && t == u[..4] + [' '] + rest
    requires |rest| == |w| + |w| / 4
    requires forall j | 0 <= j < |rest| :: rest[j] == if j % 5 == 4 then ' ' else w[j - j / 5]
    ensures |t| == |u| + |u| / 4
    ensures forall j | 0 <= j < |t| :: t[j] == if j % 5 == 4 then ' ' else u[j - j / 5]
  {
    forall j | 5 <= j < |t|
      ensures t[j] == if j % 5 == 4 then ' ' else u[j - j / 5]
    {
      assert t[j] == rest[j - 5];
      assert (j - 5) % 5 == j % 5 && (j - 5) / 5 == j / 5 - 1;
    }
  }

  lemma {:induction false} BreakEveryFourteenShort(t: string)
    requires |t| < 15
    ensures BreakEveryFourteen(t) == t
  {
    if t != [] {
      BreakEveryFourteenShort(t[1..]);
    }
  }

  /** Breaking lines in a string with a space at every fifth position: the
      space at each position 15 k + 14 becomes a line break, every other
      character stays. */
  lemma {:induction false} BreakEveryFourteenShape(t: string)
    requires NoLineTerminator(t)
    requires forall j | 0 <= j < |t| && j % 5 == 4 :: t[j] == ' '
    ensures |BreakEveryFourteen(t)| == |t|
    ensures forall j | 0 <= j < |t| ::
      BreakEveryFourteen(t)[j] == if j % 15 == 14 then '\n' else t[j]
  {
    if |t| < 15 {
      BreakEveryFourteenShort(t);
    } else {
      var rest := t[15..];
      assert t[14] == ' ';
      assert NoLineTerminator(t[..14]);
      forall j | 0 <= j < |rest| && j % 5 == 4
        ensures rest[j] == ' '
      {
        assert rest[j] == t[j + 15];
      }
      BreakEveryFourteenShape(rest);
      var l := BreakEveryFourteen(t);
      assert l == t[..14] + ['\n'] + BreakEveryFourteen(rest);
      forall j | 15 <= j < |t|
        ensures l[j] == if j % 15 == 14 then '\n' else t[j]
      {
        assert l[j] == BreakEveryFourteen(rest)[j - 15];
      }
    }
  }

  /** The printed layout of a run of symbols: every fifth position holds a
      separator, a line break at each position 15 k + 14 and a space
      elsewhere; every other position j holds symbol j - j / 5. */
  lemma LayoutShape(u: string)
    requires NoLineTerminator(u)
    ensures |Layout(u)| == |u| + |u| / 4
    ensures forall j | 0 <= j < |Layout(u)| ::
      Layout(u)[j] == if j % 5 != 4 then u[j - j / 5] else if j % 15 == 14 then '\n' else ' '
  {
    var t := SpaceEveryFour(u);
    SpaceEveryFourShape(u);
    forall j | 0 <= j < |t|
      ensures !LineTerminator(t[j])
    {
    }
    BreakEveryFourteenShape(t);
    forall j | 0 <= j < |t| && j % 15 == 14
      ensures j % 5 == 4
    {
      assert j == 5 * (3 * (j / 15) + 2) + 4;
    }
  }

  /** normalizeSextetSequence of the dialect: the identity for the ASCII
      dialect, the run-length re-encoder for the kana/full-width one. */
  function NormalizedSextets(v: Variant, s: seq<int>): (r: seq<int>)
    requires AllSextets(s) && HasFieldData(s)
    ensures AllSextets(r) && (v == Pppp ==> r == s)
  {
    match v
    case Pppp => s
    case Puyo20th => Reencoded(s)
  }

  /** encode: the dialect's normalised sequence spelled out; the
      kana/full-width password is printed in its layout. A sequence without
      field data is re-encoded by the program as [-1, NaN, 2], whose spelling
      is the alphabet's symbols 0 and 2. */
  function Encode(v: Variant, s: seq<int>): (t: string)
    requires AllSextets(s)
  {
    match v
    case Pppp => Spell(Pppp, s)
    case Puyo20th =>
      if HasFieldData(s) then Layout(Spell(Puyo20th, Reencoded(s)))
      else Layout(Spell(Puyo20th, [0, 2]))
  }

  /** Decoding an encoded password gives the dialect's normalised sequence:
      the sequence itself in the ASCII dialect, its re-encoding in the
      kana/full-width one. */
  lemma EncodeRoundTrip(v: Variant, s: seq<int>)
    requires AllSextets(s) && HasFieldData(s)
    ensures Decoded(v, Encode(v, s)) == NormalizedSextets(v, s)
  {
    if v == Puyo20th {
      KanaEncodeRoundTrip(s);
    } else {
      SpellRoundTrip(v, NormalizedSextets(v, s));
    }
  }

  /** The kana/full-width encoder lays out the spelling of the re-encoded
      sequence, and that password decodes back to the re-encoded sequence. */
  lemma KanaEncodeRoundTrip(s: seq<int>)
    requires AllSextets(s) && HasFieldData(s)
    ensures Decoded(Puyo20th, Encode(Puyo20th, s)) == Reencoded(s)
  {
    SpellRoundTrip(Puyo20th, Reencoded(s));
    LayoutKeepsSextets(Puyo20th, Spell(Puyo20th, Reencoded(s)));
  }

  /** A kana/full-width password without field data decodes to [0, 2]. */
  lemma EncodeWithoutFieldData(s: seq<int>)
    requires AllSextets(s) && !HasFieldData(s)
    ensures Decoded(Puyo20th, Encode(Puyo20th, s)) == [0, 2]
  {
    SpellRoundTrip(Puyo20th, [0, 2]);
    LayoutKeepsSextets(Puyo20th, Spell(Puyo20th, [0, 2]));
  }
}
