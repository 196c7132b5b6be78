/** Character-wise string conversion shared by the voice matcher and the
    video list. `QString::toLower` is modelled as a map `f` applied to every
    character; conversions that change the length of a string are not
    modelled. */
module Text {

  function MapChars(f: char -> char, s: string): (r: string)
    ensures |r| == |s| && forall k :: 0 <= k < |s| ==> r[k] == f(s[k])
  {
    seq(|s|, k requires 0 <= k < |s| => f(s[k]))
  }

  /** Conversion works on each character alone, so it distributes over
      concatenation. */
  lemma MapCharsConcat(f: char -> char, a: string, b: string)
    ensures MapChars(f, a + b) == MapChars(f, a) + MapChars(f, b)
  {
  }
}
