/** Hash keys are rendered values; the slow forms compare the values themselves. */
module KeyRendering {
  import opened Values

  /** Two values render alike exactly when they compare equal. */
  predicate RendersLikeCompare(lib: Library, a: Value, b: Value) {
    Render(lib, a) == Render(lib, b) <==> Compare(lib, a, b) == 0
  }

  /** compare is symmetric about equality. */
  lemma CompareZeroSymmetric(lib: Library, a: Value, b: Value)
    ensures Compare(lib, a, b) == 0 <==> Compare(lib, b, a) == 0
  {
    CompareTextAntisymmetric(ToString(lib, a), ToString(lib, b));
  }

  /** Integers agree exactly when the conversion to float64 keeps the two apart, as it does
      for magnitudes up to 2^53. */
  lemma IntegersAgreeIff(lib: Library, i: Int64, j: Int64)
    ensures RendersLikeCompare(lib, Int(i), Int(j)) <==> (lib.intToFloat(i) == lib.intToFloat(j) ==> i == j)
  {
    if FormatInt(i) == FormatInt(j) {
      FormatIntInjective(i, j);
    }
  }

  /** Two texts agree exactly when they are not different spellings of one number. */
  lemma TextsAgreeIff(lib: Library, s: string, t: string)
    ensures RendersLikeCompare(lib, Text(s), Text(t))
       <==> (s != t && lib.parseFloat(s).Some? ==> lib.parseFloat(s) != lib.parseFloat(t))
  {
    CompareTextAntisymmetric(s, t);
  }

  /** An integer and a text spelling the same number differently compare equal but render apart. */
  lemma SpellingDisagrees(lib: Library, i: Int64, s: string)
    requires lib.parseFloat(s) == Some(lib.intToFloat(i)) && s != FormatInt(i)
    ensures !RendersLikeCompare(lib, Int(i), Text(s))
  {
  }
}
