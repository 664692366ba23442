/** Small shared vocabulary: optional values, results, the codec's error kinds
    and the notion of a sextet sequence. */
module Common {

  datatype Option<+T> = None | Some(value: T)

  datatype Result<+T, +E> = Success(value: T) | Failure(error: E)

  /** The three ways a password can be rejected. */
  datatype Error =
    | UnrecognizedPassword   // no dialect's discriminator was found
    | InvalidFormat          // the trailing sextet is neither PLAIN nor RLE
    | UnrecognizedRule       // the cell count matches no known rule

  /** A sextet is a 6-bit value, the index of a password character. */
  predicate IsSextet(x: int) {
    0 <= x < 64
  }

  predicate AllSextets(s: seq<int>) {
    forall i | 0 <= i < |s| :: IsSextet(s[i])
  }

  function Last<T>(s: seq<T>): T
    requires |s| > 0
  {
    s[|s| - 1]
  }

  /** A non-empty sequence is its front followed by its last element. */
  lemma SplitLast<T>(s: seq<T>)
    requires |s| > 0
    ensures s == s[..|s| - 1] + [Last(s)]
  {
  }
}
