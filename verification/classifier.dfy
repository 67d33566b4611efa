/** The per-attribute relation classifier of a rule set: relation between
    two values of one attribute, between two intervals, and between two
    recommendations. */
module Classifier {
  import opened Outcomes
  import opened Values
  import opened RelationCodes

  function ClosedBoth(iv: Interval): bool {
    IsClosed(iv, LeftSide) && IsClosed(iv, RightSide)
  }

  function OpenBoth(iv: Interval): bool {
    !IsClosed(iv, LeftSide) && !IsClosed(iv, RightSide)
  }

  /** Classification of two intervals whose left bounds are ordered
      (`v1.left <= v2.left`); `ij` and `ji` are the inclusion codes in the
      orientation of the caller's original argument order. */
  function OrderedIntervalCode(v1: Interval, v2: Interval, ij: int, ji: int): int
    requires v1.left <= v2.left
  {
    if !Overlaps(v1, v2) then DIFFERENCE
    else if v1.left == v2.left then
      if v1.right == v2.right then
        if v1.closed == v2.closed then EQUALITY
        else if ClosedBoth(v1) then ji
        else if ClosedBoth(v2) then ij
        else if OpenBoth(v1) then ij
        else if OpenBoth(v2) then ji
        else OVERLAP
      else if IsClosed(v1, LeftSide) != IsClosed(v2, LeftSide) then OVERLAP
      else if v1.right < v2.right then ij
      else ji
    else if v1.right >= v2.right then ji
    else OVERLAP
  }

  /** Relation between two intervals. The arguments are first re-oriented so
      that the one with the smaller left bound comes first, exchanging the
      meaning of the two inclusion codes when they are swapped. */
  function IntervalIDC(a: Interval, b: Interval): (r: int)
    ensures IsValueCode(r)
    ensures r == DIFFERENCE <==> !Overlaps(a, b)
    ensures r == EQUALITY <==> a == b && Overlaps(a, b)
    // different left bounds: nesting or partial overlap
    ensures Overlaps(a, b) && a.left < b.left && a.right >= b.right ==> r == INCLUSION_JI
    ensures Overlaps(a, b) && b.left < a.left && b.right >= a.right ==> r == INCLUSION_IJ
    ensures Overlaps(a, b) && a.left < b.left && a.right < b.right ==> r == OVERLAP
    ensures Overlaps(a, b) && b.left < a.left && b.right < a.right ==> r == OVERLAP
    // the same left bound, different right bounds
    ensures (Overlaps(a, b) && a.left == b.left && a.right != b.right
             && IsClosed(a, LeftSide) != IsClosed(b, LeftSide)) ==> r == OVERLAP
    ensures (Overlaps(a, b) && a.left == b.left && a.right < b.right
             && IsClosed(a, LeftSide) == IsClosed(b, LeftSide)) ==> r == INCLUSION_IJ
    ensures (Overlaps(a, b) && a.left == b.left && a.right > b.right
             && IsClosed(a, LeftSide) == IsClosed(b, LeftSide)) ==> r == INCLUSION_JI
    // the same bounds, different closedness
    ensures (Overlaps(a, b) && a.left == b.left && a.right == b.right && a.closed != b.closed) ==>
              && (a.closed == Both ==> r == INCLUSION_JI)
              && (b.closed == Both ==> r == INCLUSION_IJ)
              && (a.closed == Neither ==> r == INCLUSION_IJ)
              && (b.closed == Neither ==> r == INCLUSION_JI)
              && ({a.closed, b.closed} == {LeftOnly, RightOnly} ==> r == OVERLAP)
  {
    if a.left > b.left then OrderedIntervalCode(b, a, INCLUSION_JI, INCLUSION_IJ)
    else OrderedIntervalCode(a, b, INCLUSION_IJ, INCLUSION_JI)
  }

  /** A closed interval strictly contains the open interval with the same
      bounds. */
  lemma ClosedIncludesOpen(lo: real, hi: real)
    requires lo < hi
    ensures IntervalIDC(Interval(lo, hi, Both), Interval(lo, hi, Neither)) == INCLUSION_JI
    ensures IntervalIDC(Interval(lo, hi, Neither), Interval(lo, hi, Both)) == INCLUSION_IJ
  {
  }

  /** Exchanging the arguments exchanges the two inclusion codes and keeps
      every other outcome. */
  lemma IntervalAntisymmetric(a: Interval, b: Interval)
    ensures IntervalIDC(b, a) == Swap(IntervalIDC(a, b))
  {
    OverlapsSymmetric(a, b);
  }

  /** For non-empty intervals, DIFFERENCE means exactly "no common point". */
  lemma IntervalDifferenceMeansDisjoint(a: ValidInterval, b: ValidInterval)
    requires NonEmpty(a) && NonEmpty(b)
    ensures IntervalIDC(a, b) == DIFFERENCE <==> !exists x :: Contains(a, x) && Contains(b, x)
  {
    OverlapsIffSharedPoint(a, b);
  }

  /** Python's `==` on two cell values of any types: NaN equals nothing,
      booleans compare with numbers as 0 and 1, other values of different
      types are unequal. */
  predicate PyEq(a: Value, b: Value) {
    match (a, b)
    case (Bool(x), Bool(y)) => x == y
    case (Num(x), Num(y)) => x == y
    case (Bool(x), Num(y)) => y == (if x then 1.0 else 0.0)
    case (Num(x), Bool(y)) => x == (if y then 1.0 else 0.0)
    case (Text(s), Text(t)) => s == t
    case (Iv(u), Iv(v)) => u == v
    case _ => false
  }

  /** Two values have the same runtime type (boolean and number subtypes of
      the array library already identified with the native ones). */
  predicate SameType(a: Value, b: Value) {
    || (a.Missing? && b.Missing?)
    || (a.Bool? && b.Bool?)
    || (a.Num? && b.Num?)
    || (a.Text? && b.Text?)
    || (a.Iv? && b.Iv?)
  }

  /** Relation between two values of one (non-recommendation) attribute.
      A missing value is treated as unconstrained and so includes the other. */
  function ValIDC(a: Value, b: Value): (r: Result<int>)
    ensures a.Missing? && b.Missing? ==> r == Ok(EQUALITY)
    ensures a.Missing? && !b.Missing? ==> r == Ok(INCLUSION_JI)
    ensures !a.Missing? && b.Missing? ==> r == Ok(INCLUSION_IJ)
    ensures r.Err? <==> !a.Missing? && !b.Missing? && !SameType(a, b)
    ensures r.Err? ==> r.error == TypeError
    ensures r.Ok? ==> IsValueCode(r.value)
    ensures SameType(a, b) && !a.Missing? && !a.Iv? ==>
              r == Ok(if a == b then EQUALITY else DIFFERENCE)
    ensures a.Iv? && b.Iv? ==> r == Ok(IntervalIDC(a.iv, b.iv))
  {
    if a.Missing? && b.Missing? then Ok(EQUALITY)
    else if a.Missing? then Ok(INCLUSION_JI)
    else if b.Missing? then Ok(INCLUSION_IJ)
    else if !SameType(a, b) then Err(TypeError)
    else if a.Iv? then Ok(IntervalIDC(a.iv, b.iv))
    else if a == b then Ok(EQUALITY)
    else Ok(DIFFERENCE)
  }

  /** The value classifier is antisymmetric: swapping the values swaps the
      inclusion direction, keeps every other code and keeps type errors. */
  lemma ValAntisymmetric(a: Value, b: Value)
    ensures ValIDC(a, b).Err? <==> ValIDC(b, a).Err?
    ensures ValIDC(a, b).Ok? ==> ValIDC(b, a) == Ok(Swap(ValIDC(a, b).value))
  {
    if a.Iv? && b.Iv? {
      IntervalAntisymmetric(a.iv, b.iv);
    }
  }

  /** Relation between two recommendations: the sign of the pair's product. */
  function RecIDC(a: Value, b: Value): (r: int)
    ensures IsRecCode(r)
    ensures r == SAME_REC <==> PyEq(a, b)
  {
    if PyEq(a, b) then SAME_REC else DIFF_REC
  }

  /** The recommendation relation does not depend on argument order. */
  lemma RecSymmetric(a: Value, b: Value)
    ensures RecIDC(a, b) == RecIDC(b, a)
  {
  }
}
