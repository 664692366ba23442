/** The two password dialects, their 64-symbol alphabets and the per-character
    spelling normalisers applied before a password is looked up. */
module Alphabets {

  /** Puyo20th: the kana/full-width dialect (Puyo Puyo 7 and Puyo Puyo!! 20th).
      Pppp: the ASCII dialect (Puyo Puyo Puzzle Pop). */
  datatype Variant = Puyo20th | Pppp

  /** The ASCII alphabet. It is one string in the program; here it is spelled
      as four consecutive pieces (upper case, lower case, digits, symbols) so
      that each piece can be reasoned about on its own. */
  const CharPppp: string :=
    "ABCDEFGHJKLMNPQRSTUVWXYZ" + "adefghijmnrty" + "0123456789" + "!#$%&*+-/=<>?@\\^~"

  /** The kana/full-width alphabet: 40 hiragana, then 24 full-width capitals. */
  const CharPp7: string :=
    "あいうえおかきくけこさしすせそたちつてとなにのはひふへほまみむも"
    + "やゆよらりるろを" + "ＡＢＣＤＥＦＧＨＩＪＫＬＭＮＰＲＳＴＵＶＷＸＹＺ"

  function PasswordChars(v: Variant): (a: string)
    ensures |a| == 64
  {
    match v
    case Puyo20th => CharPp7
    case Pppp => CharPppp
  }

  /** The target dialect of a translation. */
  function Other(v: Variant): (w: Variant)
    ensures w != v
  {
    match v
    case Puyo20th => Pppp
    case Pppp => Puyo20th
  }

  /** String.prototype.indexOf for one character: the first position of `c`
      in `a`, or -1. */
  function IndexOf(a: string, c: char): (r: int)
    ensures -1 <= r < |a|
  {
    if a == [] then -1
    else if a[0] == c then 0
    else
      var k := IndexOf(a[1..], c);
      if k < 0 then -1 else k + 1
  }

  /** IndexOf finds the first occurrence, and gives -1 exactly when there is
      none. */
  lemma {:induction false} IndexOfFirst(a: string, c: char)
    ensures IndexOf(a, c) >= 0 ==> a[IndexOf(a, c)] == c && c !in a[..IndexOf(a, c)]
    ensures IndexOf(a, c) < 0 <==> c !in a
  {
    if a != [] && a[0] != c {
      IndexOfFirst(a[1..], c);
      var k := IndexOf(a[1..], c);
      if k >= 0 {
        assert a[..k + 1] == [a[0]] + a[1..][..k];
      }
    }
  }

  // ---------------------------------------------------------------------
  // Facts about the two literal alphabets, piece by piece.

  lemma PpppPieces()
    ensures forall i | 0 <= i < 23 :: CharPppp[i] < CharPppp[i + 1]
    ensures forall i | 24 <= i < 36 :: CharPppp[i] < CharPppp[i + 1]
    ensures forall i | 37 <= i < 46 :: CharPppp[i] < CharPppp[i + 1]
    ensures forall i | 0 <= i < 24 :: 'A' <= CharPppp[i] <= 'Z'
    ensures forall i | 24 <= i < 37 :: 'a' <= CharPppp[i] <= 'z'
    ensures forall i | 37 <= i < 47 :: '0' <= CharPppp[i] <= '9'
  {
    UpperPiece();
    LowerPiece();
    DigitPiece();
  }

  lemma UpperPiece()
    ensures forall i | 0 <= i < 23 :: CharPppp[i] < CharPppp[i + 1]
    ensures forall i | 0 <= i < 24 :: 'A' <= CharPppp[i] <= 'Z'
  {}

  lemma LowerPiece()
    ensures forall i | 24 <= i < 36 :: CharPppp[i] < CharPppp[i + 1]
    ensures forall i | 24 <= i < 37 :: 'a' <= CharPppp[i] <= 'z'
  {}

  lemma DigitPiece()
    ensures forall i | 37 <= i < 46 :: CharPppp[i] < CharPppp[i + 1]
    ensures forall i | 37 <= i < 47 :: '0' <= CharPppp[i] <= '9'
  {}

  lemma SymbolPiece()
    ensures forall i | 47 <= i < 64 :: '!' <= CharPppp[i] <= '~'
    ensures forall i | 47 <= i < 64 ::
      !('A' <= CharPppp[i] <= 'Z') && !('a' <= CharPppp[i] <= 'z') && !('0' <= CharPppp[i] <= '9')
    ensures forall i, j | 47 <= i < j < 64 :: CharPppp[i] != CharPppp[j]
  {}

  lemma Pp7Pieces()
    ensures forall i | 0 <= i < 63 :: CharPp7[i] < CharPp7[i + 1]
    ensures forall i | 0 <= i < 40 :: 'あ' <= CharPp7[i] <= 'を'
    ensures forall i | 40 <= i < 64 :: 'Ａ' <= CharPp7[i] <= 'Ｚ'
  {
    Pp7KanaIncreasing();
    Pp7LatinIncreasing();
    Pp7Ranges();
  }

  lemma Pp7KanaIncreasing()
    ensures forall i | 0 <= i < 40 :: CharPp7[i] < CharPp7[i + 1]
  {}

  lemma Pp7LatinIncreasing()
    ensures forall i | 40 <= i < 63 :: CharPp7[i] < CharPp7[i + 1]
  {}

  lemma Pp7Ranges()
    ensures forall i | 0 <= i < 40 :: 'あ' <= CharPp7[i] <= 'を'
    ensures forall i | 40 <= i < 64 :: 'Ａ' <= CharPp7[i] <= 'Ｚ'
  {}

  /** A sequence whose neighbours increase strictly on [lo, hi) is strictly
      increasing on that whole range. */
  lemma {:induction false} IncreasingOn(a: string, lo: int, hi: int)
    requires 0 <= lo <= hi <= |a|
    requires forall i | lo <= i < hi - 1 :: a[i] < a[i + 1]
    ensures forall i, j | lo <= i < j < hi :: a[i] < a[j]
    decreases hi - lo
  {
    if hi - lo > 1 {
      IncreasingOn(a, lo + 1, hi);
      forall i, j | lo <= i < j < hi
        ensures a[i] < a[j]
      {
        if i == lo && j > lo + 1 {
          assert a[lo] < a[lo + 1];
        }
      }
    }
  }

  /** Each alphabet holds 64 distinct symbols, so a symbol's index is its
      sextet value. */
  lemma AlphabetDistinct(v: Variant)
    ensures forall i, j | 0 <= i < j < 64 :: PasswordChars(v)[i] != PasswordChars(v)[j]
  {
    match v
    case Puyo20th =>
      Pp7Pieces();
      IncreasingOn(CharPp7, 0, 64);
    case Pppp =>
      PpppPieces();
      SymbolPiece();
      IncreasingOn(CharPppp, 0, 24);
      IncreasingOn(CharPppp, 24, 37);
      IncreasingOn(CharPppp, 37, 47);
  }

  /** Looking up the k-th symbol gives back k. */
  lemma IndexOfSymbol(v: Variant, k: int)
    requires 0 <= k < 64
    ensures IndexOf(PasswordChars(v), PasswordChars(v)[k]) == k
  {
    AlphabetDistinct(v);
    IndexOfFirst(PasswordChars(v), PasswordChars(v)[k]);
  }

  /** Neither separator that the layout inserts belongs to an alphabet. */
  lemma SeparatorsNotSymbols(v: Variant)
    ensures ' ' !in PasswordChars(v) && '\n' !in PasswordChars(v)
  {
    match v
    case Puyo20th =>
      Pp7Pieces();
    case Pppp =>
      PpppPieces();
      SymbolPiece();
  }

  // ---------------------------------------------------------------------
  // Normalisers. Each source normaliser is a chain of global regular
  // expression replaces whose patterns are single-character classes, so
  // each replace is a map over the characters and the chain is their
  // composition.

  /** Puyo20th, first replace: a half-width Latin letter of [A-NPR-Z], matched
      case-insensitively, moves up by 0xFEE0 to its full-width form. */
  function WidenLatin(c: char): char {
    if ('A' <= c <= 'N') || c == 'P' || ('R' <= c <= 'Z')
       || ('a' <= c <= 'n') || c == 'p' || ('r' <= c <= 'z')
    then (c as int + 0xFEE0) as char
    else c
  }

  /** Puyo20th, second replace: a full-width small letter of [ａ-ｎｐｒ-ｚ] moves
      down by 0x20 to its full-width capital. */
  function CapitalizeFullWidth(c: char): char {
    if ('ａ' <= c <= 'ｎ') || c == 'ｐ' || ('ｒ' <= c <= 'ｚ')
    then (c as int - 0x20) as char
    else c
  }

  /** Pppp, first replace: a full-width letter, digit or symbol of the listed
      class moves down by 0xFEE0 to its half-width form. */
  function NarrowFullWidth(c: char): char {
    if c == '！' || ('＃' <= c <= '＆') || c == '＊' || c == '＋' || c == '－'
       || ('／' <= c <= '９') || ('＜' <= c <= 'Ｈ') || ('Ｊ' <= c <= 'Ｎ')
       || ('Ｐ' <= c <= 'Ｚ') || c == '＼' || c == '＾' || c == 'ａ'
       || ('ｄ' <= c <= 'ｊ') || c == 'ｍ' || c == 'ｎ' || c == 'ｒ' || c == 'ｔ'
       || c == 'ｙ' || c == '\U{FF5E}'
    then (c as int - 0xFEE0) as char
    else c
  }

  /** Pppp, second replace: the wave dash U+301C becomes the tilde. */
  function UnifyWaveDash(c: char): char {
    if c == '\U{301C}' then '~' else c
  }

  /** The dialect's normaliser applied to one character. */
  function NormalizeChar(v: Variant, c: char): char {
    match v
    case Puyo20th => CapitalizeFullWidth(WidenLatin(c))
    case Pppp => UnifyWaveDash(NarrowFullWidth(c))
  }

  /** normalizePassword of the dialect. */
  function NormalizePassword(v: Variant, password: string): string {
    seq(|password|, i requires 0 <= i < |password| => NormalizeChar(v, password[i]))
  }

  /** The kana/full-width normaliser folds case and width: a Latin letter
      other than O and Q, in half-width capital, half-width small or
      full-width small form, becomes the full-width capital; O and Q are left
      in every form. */
  lemma KanaNormalizerFoldsCase(c: char)
    requires 'A' <= c <= 'Z'
    ensures c != 'O' && c != 'Q' ==>
      var w := (c as int + 0xFEE0) as char;
      NormalizeChar(Puyo20th, c) == w
      && NormalizeChar(Puyo20th, (c as int + 0x20) as char) == w
      && NormalizeChar(Puyo20th, (c as int + 0xFEE0 + 0x20) as char) == w
    ensures c == 'O' || c == 'Q' ==>
      NormalizeChar(Puyo20th, c) == c
      && NormalizeChar(Puyo20th, (c as int + 0x20) as char) == (c as int + 0x20) as char
      && NormalizeChar(Puyo20th, (c as int + 0xFEE0 + 0x20) as char) == (c as int + 0xFEE0 + 0x20) as char
  {
  }

  /** The ASCII normaliser reads the full-width form of every symbol of its
      alphabet (code point plus 0xFEE0) as the symbol itself, and the wave
      dash U+301C as the tilde, the alphabet's last symbol. */
  lemma AsciiNormalizerNarrows(k: int)
    requires 0 <= k < 64
    ensures CharPppp[k] < '\U{80}'
    ensures NormalizeChar(Pppp, (CharPppp[k] as int + 0xFEE0) as char) == CharPppp[k]
    ensures NormalizeChar(Pppp, '\U{301C}') == CharPppp[63] == '~'
  {
    if k < 24 {
      UpperNarrows();
    } else if k < 37 {
      LowerNarrows();
    } else if k < 47 {
      DigitNarrows();
    }
    SymbolNarrows();
  }

  lemma UpperNarrows()
    ensures forall i | 0 <= i < 24 ::
      CharPppp[i] < '\U{80}' && NarrowFullWidth((CharPppp[i] as int + 0xFEE0) as char) == CharPppp[i]
  {}

  lemma LowerNarrows()
    ensures forall i | 24 <= i < 37 ::
      CharPppp[i] < '\U{80}' && NarrowFullWidth((CharPppp[i] as int + 0xFEE0) as char) == CharPppp[i]
  {}

  lemma DigitNarrows()
    ensures forall i | 37 <= i < 47 ::
      CharPppp[i] < '\U{80}' && NarrowFullWidth((CharPppp[i] as int + 0xFEE0) as char) == CharPppp[i]
  {}

  lemma SymbolNarrows()
    ensures forall i | 47 <= i < 64 ::
      CharPppp[i] < '\U{80}' && NarrowFullWidth((CharPppp[i] as int + 0xFEE0) as char) == CharPppp[i]
    ensures CharPppp[63] == '~'
  {}

  /** A symbol of the dialect's own alphabet is left as it is. */
  lemma NormalizeKeepsSymbols(v: Variant, c: char)
    requires c in PasswordChars(v)
    ensures NormalizeChar(v, c) == c
  {
    match v
    case Puyo20th => KanaKeepsSymbols(c);
    case Pppp => AsciiKeepsSymbols(c);
  }

  /** A kana symbol is left as it is by the kana normaliser. */
  lemma KanaKeepsSymbols(c: char)
    requires c in CharPp7
    ensures NormalizeChar(Puyo20th, c) == c
  {
    var i :| 0 <= i < 64 && CharPp7[i] == c;
    Pp7Ranges();
  }

  /** An ASCII symbol is left as it is by the ASCII normaliser. */
  lemma AsciiKeepsSymbols(c: char)
    requires c in CharPppp
    ensures NormalizeChar(Pppp, c) == c
  {
    var i :| 0 <= i < 64 && CharPppp[i] == c;
    PpppPieces();
    SymbolPiece();
  }

  /** Every character the kana normaliser rewrites lands in the kana alphabet. */
  lemma KanaLandsInAlphabet(c: char)
    ensures NormalizeChar(Puyo20th, c) == c || NormalizeChar(Puyo20th, c) in CharPp7
  {
  }

  /** Every character the ASCII normaliser rewrites lands in the ASCII alphabet. */
  lemma AsciiLandsInAlphabet(c: char)
    ensures NormalizeChar(Pppp, c) == c || NormalizeChar(Pppp, c) in CharPppp
  {
  }

  /** Normalising a character twice is normalising it once, in either dialect. */
  lemma NormalizeCharIdempotent(v: Variant, c: char)
    ensures NormalizeChar(v, NormalizeChar(v, c)) == NormalizeChar(v, c)
  {
    match v
    case Puyo20th => KanaCharIdempotent(c);
    case Pppp => AsciiCharIdempotent(c);
  }

  lemma KanaCharIdempotent(c: char)
    ensures NormalizeChar(Puyo20th, NormalizeChar(Puyo20th, c)) == NormalizeChar(Puyo20th, c)
  {
  }

  lemma AsciiCharIdempotent(c: char)
    ensures NormalizeChar(Pppp, NormalizeChar(Pppp, c)) == NormalizeChar(Pppp, c)
  {
  }

  /** normalizePassword is idempotent, character by character. */
  lemma NormalizeIdempotent(v: Variant, password: string)
    ensures NormalizePassword(v, NormalizePassword(v, password)) == NormalizePassword(v, password)
  {
    var once := NormalizePassword(v, password);
    forall i | 0 <= i < |password|
      ensures NormalizePassword(v, once)[i] == once[i]
    {
      NormalizeCharIdempotent(v, password[i]);
    }
  }

  /** The kana normalizePassword is idempotent. */
  lemma KanaPasswordIdempotent(password: string)
    ensures NormalizePassword(Puyo20th, NormalizePassword(Puyo20th, password))
         == NormalizePassword(Puyo20th, password)
  {
    NormalizeIdempotent(Puyo20th, password);
  }

  /** The ASCII normalizePassword is idempotent. */
  lemma AsciiPasswordIdempotent(password: string)
    ensures NormalizePassword(Pppp, NormalizePassword(Pppp, password))
         == NormalizePassword(Pppp, password)
  {
    NormalizeIdempotent(Pppp, password);
  }

  /** The kana normaliser leaves the separators alone. */
  lemma KanaKeepsSeparators()
    ensures NormalizeChar(Puyo20th, ' ') == ' ' && NormalizeChar(Puyo20th, '\n') == '\n'
  {
  }

  /** The ASCII normaliser leaves the separators alone. */
  lemma AsciiKeepsSeparators()
    ensures NormalizeChar(Pppp, ' ') == ' ' && NormalizeChar(Pppp, '\n') == '\n'
  {
  }
}
