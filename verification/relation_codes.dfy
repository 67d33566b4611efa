/** Integer encodings of per-attribute relations and the decoded connection
    categories. The enumeration module defining them is not part of this
    model, so the values below are fixed choices; the aggregation proofs
    use these values themselves. `CodeAssumptions` records the properties
    of them that the decoder's tests are designed around. */
module RelationCodes {

  /** The two values compare equal (a neutral factor of a product). */
  const EQUALITY: int := 1
  /** The two values share nothing (the absorbing factor of a product). */
  const DIFFERENCE: int := 0
  /** The second value contains the first. */
  const INCLUSION_IJ: int := 2
  /** The first value contains the second. */
  const INCLUSION_JI: int := 4
  /** The two values share some but not all points. */
  const OVERLAP: int := 3
  /** Both rules recommend the same thing. */
  const SAME_REC: int := 1
  /** The rules recommend different things. */
  const DIFF_REC: int := -1

  predicate Divides(d: int, p: int)
    requires d != 0
  {
    p % d == 0
  }

  predicate IsPrime(p: int) {
    p > 1 && forall d :: 1 < d < p ==> !Divides(d, p)
  }

  /** The properties of the chosen values that the decoder's zero, sign and
      divisibility tests are designed around. */
  lemma CodeAssumptions()
    ensures EQUALITY == 1 && DIFFERENCE == 0
    ensures SAME_REC == 1 && DIFF_REC == -1
    ensures IsPrime(OVERLAP)
    ensures INCLUSION_IJ > 1 && INCLUSION_JI > 1
    ensures !Divides(OVERLAP, INCLUSION_IJ) && !Divides(OVERLAP, INCLUSION_JI)
  {
  }

  /** The codes a value attribute can produce. */
  predicate IsValueCode(c: int) {
    c == EQUALITY || c == DIFFERENCE || c == INCLUSION_IJ || c == INCLUSION_JI || c == OVERLAP
  }

  /** The codes the recommendation attribute can produce. */
  predicate IsRecCode(c: int) {
    c == SAME_REC || c == DIFF_REC
  }

  /** The code of the same relation seen with its two arguments exchanged. */
  function Swap(c: int): int {
    if c == INCLUSION_IJ then INCLUSION_JI
    else if c == INCLUSION_JI then INCLUSION_IJ
    else c
  }

  /** Final relation between two rules of a rule set. `Error` is what the
      resolver answers while the product matrix has not been built. */
  datatype Connection =
    | Error
    | Reference
    | Disconnected
    | EqualSame
    | EqualDiff
    | OverlapSame
    | OverlapDiff
    | InclusionSame
    | InclusionDiff
}
