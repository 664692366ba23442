/** Translating a password into the other dialect: detect the dialect it is
    written in, decode it there and encode the sextets in the other one. */
module Translator {
  import opened Common
  import opened Alphabets
  import opened FormatEngine
  import opened SextetCodec
  import opened VariantDetector

  /** transpilePassword without the page: the translated password, or the
      error shown when no dialect recognises the password. */
  function Transpile(password: string): (r: Result<string, Error>)
    ensures r.Failure? <==> DetectedVariant(password).None?
    ensures r.Failure? ==> r.error == UnrecognizedPassword
  {
    match DetectedVariant(password)
    case None => Failure(UnrecognizedPassword)
    case Some(decoder) => Success(Encode(Other(decoder), Decoded(decoder, password)))
  }

  /** The ASCII discriminator symbols read as the full-width capitals A and C
      in the kana/full-width dialect, which are not discriminators there. */
  lemma AsciiDiscriminatorsInKana()
    ensures DecodeChar(Puyo20th, CharPppp[0]) == Some(40)
    ensures DecodeChar(Puyo20th, CharPppp[2]) == Some(42)
  {
    assert CharPppp[0] == 'A' && CharPppp[2] == 'C';
    assert CharPp7[40] == 'Ａ' && CharPp7[42] == 'Ｃ';
    DecodeSymbol(Puyo20th, 40);
    DecodeSymbol(Puyo20th, 42);
  }

  /** An ASCII password ending in a discriminator is detected as ASCII. */
  lemma SpelledAsciiDetected(s: seq<int>)
    requires AllSextets(s) && GetFormat(s).Some?
    ensures DetectedVariant(Spell(Pppp, s)) == Some(Pppp)
  {
    var out, x := Spell(Pppp, s), Last(s);
    SpellRoundTrip(Pppp, s);
    assert Discriminated(Pppp, out);
    assert x == 0 || x == 2;
    assert Last(out) == CharPppp[x];
    KanaReadsNoDiscriminator(out, x);
    assert Other(Pppp) == Puyo20th;
  }

  lemma KanaReadsNoDiscriminator(out: string, x: int)
    requires |out| > 0 && (x == 0 || x == 2) && Last(out) == CharPppp[x]
    ensures !Discriminated(Puyo20th, out)
  {
    AsciiDiscriminatorsInKana();
    var k := LastRecognized(Puyo20th, out);
    assert k == |out| - 1;
    JudgedAt(Puyo20th, out);
  }

  /** Every character of a laid-out kana/full-width spelling is a kana or
      full-width symbol, a space or a line break. */
  lemma KanaLayoutChars(r: seq<int>)
    requires AllSextets(r)
    ensures forall c | c in Layout(Spell(Puyo20th, r)) ::
      DecodeChar(Puyo20th, c).Some? || c == ' ' || c == '\n'
  {
    var t := Spell(Puyo20th, r);
    LayoutKeepsSextets(Puyo20th, t);
    forall c | c in t
      ensures DecodeChar(Puyo20th, c).Some?
    {
      var i :| 0 <= i < |t| && t[i] == c;
      DecodeSymbol(Puyo20th, r[i]);
    }
  }

  /** A kana/full-width password ending in a discriminator is detected as
      kana/full-width, whatever the ASCII dialect reads in its spaces and
      line breaks. */
  lemma SpelledKanaDetected(r: seq<int>)
    requires AllSextets(r) && GetFormat(r).Some?
    ensures DetectedVariant(Layout(Spell(Puyo20th, r))) == Some(Puyo20th)
  {
    var out := Layout(Spell(Puyo20th, r));
    SpellRoundTrip(Puyo20th, r);
    LayoutKeepsSextets(Puyo20th, Spell(Puyo20th, r));
    KanaLayoutChars(r);
    BlankIsSkipped(Pppp, ' ');
    BlankIsSkipped(Pppp, '\n');
    forall j | 0 <= j < |out| && DecodeChar(Pppp, out[j]).Some?
      ensures DecodeChar(Puyo20th, out[j]).Some?
    {
      assert out[j] in out;
    }
    JudgedNoLater(Pppp, Puyo20th, out);
  }

  /** A translated password is detected as written in the other dialect. */
  lemma TranspileDetectsTarget(password: string)
    requires Transpile(password).Success?
    ensures DetectedVariant(Transpile(password).value) == Some(Other(DetectedVariant(password).value))
  {
    var v := DetectedVariant(password).value;
    var s := Decoded(v, password);
    if v == Puyo20th {
      SpelledAsciiDetected(s);
    } else if HasFieldData(s) {
      SpelledKanaDetected(Reencoded(s));
    } else {
      SpelledKanaDetected([0, 2]);
    }
  }

  /** A translated password decodes, in the other dialect, to the sextets of
      the original: unchanged into the ASCII dialect, re-encoded into the
      kana/full-width one. The re-encoding keeps the playfield: its plain
      working sequence, and for a PLAIN or odd-length RLE original the cell
      count and rule, are those of the original. */
  lemma TranspileKeepsSextets(password: string)
    requires Transpile(password).Success?
    ensures var v := DetectedVariant(password).value;
      var s := Decoded(v, password);
      var t := Decoded(Other(v), Transpile(password).value);
      HasFieldData(s) ==> t == NormalizedSextets(Other(v), s) && PlainWorking(t) == PlainWorking(s)
    ensures var v := DetectedVariant(password).value;
      var s := Decoded(v, password);
      var t := Decoded(Other(v), Transpile(password).value);
      HasFieldData(s) && (GetFormat(s) == Some(Rle) ==> |s| % 2 == 1) ==>
        CellCount(t) == CellCount(s) && GetRuleFromCellCount(t) == GetRuleFromCellCount(s)
  {
    var v := DetectedVariant(password).value;
    var s := Decoded(v, password);
    if HasFieldData(s) {
      EncodeRoundTrip(Other(v), s);
      if GetFormat(s) == Some(Rle) ==> |s| % 2 == 1 {
        ReencodedKeepsCellCount(s);
      }
    }
  }

  /** Translating a password and translating the result back gives a
      password of the original dialect that decodes to the re-encoding of the
      original sextets; a password already in re-encoded form comes back
      with the same sextets. */
  lemma TranspileTwice(password: string)
    requires Transpile(password).Success?
    ensures var v := DetectedVariant(password).value;
      var s := Decoded(v, password);
      var back := Transpile(Transpile(password).value);
      HasFieldData(s) ==> back.Success? && Decoded(v, back.value) == Reencoded(s)
  {
    var v := DetectedVariant(password).value;
    var s := Decoded(v, password);
    var out := Transpile(password).value;
    if HasFieldData(s) {
      TranspileDetectsTarget(password);
      EncodeRoundTrip(Other(v), s);
      var t := Decoded(Other(v), out);
      assert t == NormalizedSextets(Other(v), s);
      if v == Puyo20th {
        EncodeRoundTrip(Puyo20th, s);
        assert Decoded(Puyo20th, Encode(Puyo20th, t)) == Reencoded(t);
        ReencodedIdempotent(s);
      } else {
        EncodeRoundTrip(Pppp, t);
      }
    }
  }
}
