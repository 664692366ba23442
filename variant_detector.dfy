/** Which dialect a password is written in: the dialect whose alphabet
    reads a format discriminator (PLAIN or RLE) in the password's last
    recognised character. */
module VariantDetector {
  import opened Common
  import opened Alphabets
  import opened FormatEngine
  import opened SextetCodec

  /** The position of the last character of `p` that stands for a sextet in
      the dialect, or -1 when there is none. */
  function LastRecognized(v: Variant, p: string): (k: int)
    ensures -1 <= k < |p|
    ensures k >= 0 ==> DecodeChar(v, p[k]).Some?
    decreases |p|
  {
    if p == [] then -1
    else if DecodeChar(v, Last(p)).Some? then |p| - 1
    else LastRecognized(v, p[..|p| - 1])
  }

  /** No character after the last recognised one is recognised. */
  lemma {:induction false} AfterLastRecognized(v: Variant, p: string, j: int)
    requires LastRecognized(v, p) < j < |p|
    ensures DecodeChar(v, p[j]).None?
    decreases |p|
  {
    var init := p[..|p| - 1];
    if j < |p| - 1 {
      assert init[j] == p[j];
      AfterLastRecognized(v, init, j);
    }
  }

  /** The last sextet a dialect decodes from a password is the one its last
      recognised character stands for. */
  lemma {:induction false} LastOfDecoded(v: Variant, p: string)
    ensures Decoded(v, p) == [] <==> LastRecognized(v, p) == -1
    ensures LastRecognized(v, p) >= 0 ==>
      Last(Decoded(v, p)) == DecodeChar(v, p[LastRecognized(v, p)]).value
    decreases |p|
  {
    if p != [] {
      var q, c := p[..|p| - 1], Last(p);
      if DecodeChar(v, c).None? {
        DecodedDropsUnrecognized(v, p);
        LastOfDecoded(v, q);
        var k := LastRecognized(v, q);
        if k >= 0 {
          assert p[k] == q[k];
        }
      } else {
        DecodedSnoc(v, p);
        DecodeOneChar(v, c);
      }
    }
  }

  // An unrecognised last character adds nothing to the decoding.
  lemma DecodedDropsUnrecognized(v: Variant, p: string)
    requires p != [] && DecodeChar(v, Last(p)).None?
    ensures Decoded(v, p) == Decoded(v, p[..|p| - 1])
    ensures LastRecognized(v, p) == LastRecognized(v, p[..|p| - 1])
  {
    DecodedSnoc(v, p);
    DecodeOneChar(v, Last(p));
  }

  lemma DecodedSnoc(v: Variant, p: string)
    requires p != []
    ensures Decoded(v, p) == Decoded(v, p[..|p| - 1]) + Decoded(v, [Last(p)])
  {
    SplitLast(p);
    DecodedAppend(v, p[..|p| - 1], [Last(p)]);
  }

  /** The dialect reads a PLAIN or RLE discriminator at the end of the
      password. */
  predicate Discriminated(v: Variant, p: string) {
    GetFormat(Decoded(v, p)).Some?
  }

  /** The dialect getPasswordDecoder settles on. Both dialects are judged by
      their last recognised character; the one whose judging character comes
      later in the password wins, and the kana/full-width dialect wins when
      both are judged by the same character. */
  function DetectedVariant(p: string): (r: Option<Variant>)
    ensures r.Some? ==> Discriminated(r.value, p)
    ensures r.None? <==> !Discriminated(Puyo20th, p) && !Discriminated(Pppp, p)
    ensures forall v | Discriminated(v, p) && !Discriminated(Other(v), p) :: r == Some(v)
  {
    var for20th := Discriminated(Puyo20th, p);
    var forPppp := Discriminated(Pppp, p);
    if for20th && (!forPppp || LastRecognized(Pppp, p) <= LastRecognized(Puyo20th, p)) then
      Some(Puyo20th)
    else if forPppp then Some(Pppp)
    else None
  }

  /** Reading a discriminator does not make a dialect the detected one. Both
      dialects read one in "Ａあ": the ASCII dialect decodes it to [0] and the
      kana/full-width dialect to [40, 0]. The kana/full-width dialect is
      detected, because its judging character comes later. */
  lemma LaterJudgeWins()
    ensures Decoded(Pppp, "Ａあ") == [0] && Decoded(Puyo20th, "Ａあ") == [40, 0]
    ensures Discriminated(Pppp, "Ａあ") && DetectedVariant("Ａあ") == Some(Puyo20th)
  {
    ExampleAsciiDecoding();
    ExampleKanaDecoding();
    ExampleJudges();
  }

  lemma ExampleAsciiDecoding()
    ensures Decoded(Pppp, "Ａあ") == [0]
  {
    FullWidthAAndHiraganaA();
    DecodedPair(Pppp, 'Ａ', 'あ');
  }

  lemma ExampleKanaDecoding()
    ensures Decoded(Puyo20th, "Ａあ") == [40, 0]
  {
    FullWidthAAndHiraganaA();
    DecodedPair(Puyo20th, 'Ａ', 'あ');
  }

  // A two-character password decodes character by character.
  lemma DecodedPair(v: Variant, a: char, b: char)
    ensures Decoded(v, [a, b]) == Decoded(v, [a]) + Decoded(v, [b])
    ensures Decoded(v, [a]) == if DecodeChar(v, a).Some? then [DecodeChar(v, a).value] else []
    ensures Decoded(v, [b]) == if DecodeChar(v, b).Some? then [DecodeChar(v, b).value] else []
  {
    assert [a, b] == [a] + [b];
    DecodedAppend(v, [a], [b]);
    DecodeOneChar(v, a);
    DecodeOneChar(v, b);
  }

  lemma ExampleJudges()
    ensures LastRecognized(Pppp, "Ａあ") == 0 && LastRecognized(Puyo20th, "Ａあ") == 1
  {
    FullWidthAAndHiraganaA();
    assert "Ａあ"[..1] == ['Ａ'];
    assert ['Ａ'][..0] == [];
  }

  // What each dialect reads from the two characters of the example above.
  lemma FullWidthAAndHiraganaA()
    ensures DecodeChar(Pppp, 'Ａ') == Some(0) && DecodeChar(Pppp, 'あ') == None
    ensures DecodeChar(Puyo20th, 'Ａ') == Some(40) && DecodeChar(Puyo20th, 'あ') == Some(0)
  {
    assert NormalizeChar(Pppp, 'Ａ') == 'A' == CharPppp[0];
    IndexOfSymbol(Pppp, 0);
    assert NormalizeChar(Pppp, 'あ') == 'あ';
    PpppPieces();
    SymbolPiece();
    IndexOfFirst(CharPppp, 'あ');
    assert NormalizeChar(Puyo20th, 'Ａ') == 'Ａ' == CharPp7[40];
    IndexOfSymbol(Puyo20th, 40);
    assert NormalizeChar(Puyo20th, 'あ') == 'あ' == CharPp7[0];
    IndexOfSymbol(Puyo20th, 0);
  }

  /** A dialect is judged by a character at position i: it is discriminated
      exactly when that character stands for PLAIN or RLE. */
  lemma JudgedAt(v: Variant, p: string)
    requires LastRecognized(v, p) >= 0
    ensures var x := DecodeChar(v, p[LastRecognized(v, p)]).value;
      Discriminated(v, p) <==> x == 0 || x == 2
  {
    LastOfDecoded(v, p);
  }

  /** getPasswordDecoder as the program runs it: a backward scan that stops
      at the first character settling the question. */
  method GetPasswordDecoder(password: string) returns (decoder: Option<Variant>)
    ensures decoder == DetectedVariant(password)
  {
    var isNotForPuyo20th, isNotForPppp := false, false;
    var i := |password| - 1;
    while i >= 0
      invariant -1 <= i < |password|
      invariant isNotForPuyo20th <==> LastRecognized(Puyo20th, password) > i
      invariant isNotForPuyo20th ==> !Discriminated(Puyo20th, password)
      invariant isNotForPppp <==> LastRecognized(Pppp, password) > i
      invariant isNotForPppp ==> !Discriminated(Pppp, password)
    {
      var ch := password[i];
      if !isNotForPuyo20th {
        var decoded := Decode(Puyo20th, [ch]);
        ScanStep(Puyo20th, password, i);
        if |decoded| > 0 {
          var sextet := decoded[0];
          if sextet == 0 || sextet == 2 {
            return Some(Puyo20th);
          }
          isNotForPuyo20th := true;
        }
      }
      if !isNotForPppp {
        var decoded := Decode(Pppp, [ch]);
        ScanStep(Pppp, password, i);
        if |decoded| > 0 {
          var sextet := decoded[0];
          if sextet == 0 || sextet == 2 {
            return Some(Pppp);
          }
          isNotForPppp := true;
        }
      }
      if isNotForPuyo20th && isNotForPppp {
        return None;
      }
      i := i - 1;
    }
    if !isNotForPuyo20th {
      ScanEnd(Puyo20th, password);
    }
    if !isNotForPppp {
      ScanEnd(Pppp, password);
    }
    return None;
  }

  // What the backward scan learns from position i about a dialect that has
  // not been judged at a later position.
  lemma ScanStep(v: Variant, p: string, i: int)
    requires 0 <= i < |p| && LastRecognized(v, p) <= i
    ensures Decoded(v, [p[i]]) == [] ==> LastRecognized(v, p) < i
    ensures Decoded(v, [p[i]]) != [] ==> LastRecognized(v, p) == i
    ensures Decoded(v, [p[i]]) != [] ==>
      (Discriminated(v, p) <==> Decoded(v, [p[i]])[0] == 0 || Decoded(v, [p[i]])[0] == 2)
  {
    DecodeOneChar(v, p[i]);
    if LastRecognized(v, p) < i {
      AfterLastRecognized(v, p, i);
    }
    LastOfDecoded(v, p);
  }

  lemma ScanEnd(v: Variant, p: string)
    requires LastRecognized(v, p) < 0
    ensures !Discriminated(v, p)
  {
    LastOfDecoded(v, p);
  }

  /** When dialect w recognises every character dialect v recognises, w is
      judged no earlier than v in the backward scan. */
  lemma JudgedNoLater(v: Variant, w: Variant, p: string)
    requires forall j | 0 <= j < |p| :: DecodeChar(v, p[j]).Some? ==> DecodeChar(w, p[j]).Some?
    ensures LastRecognized(v, p) <= LastRecognized(w, p)
  {
    var k := LastRecognized(v, p);
    if k > LastRecognized(w, p) {
      AfterLastRecognized(w, p, k);
    }
  }
}
