/** Typed cell values of a rule table: missing (NaN), booleans, numbers,
    strings and pandas-style numeric intervals with per-side closedness. */
module Values {

  /** The four closedness labels of a pandas interval. */
  datatype Closed = Both | LeftOnly | RightOnly | Neither

  datatype Side = LeftSide | RightSide

  datatype Interval = Interval(left: real, right: real, closed: Closed)

  /** pandas refuses to construct an interval whose left bound exceeds its right bound. */
  type ValidInterval = iv: Interval | iv.left <= iv.right witness Interval(0.0, 0.0, Both)

  /** A cell value. `Missing` stands for NaN (what the parser produces for
      '', '*' and 'nan'); `Text` holds strings such as recommendations. */
  datatype Value =
    | Missing
    | Bool(b: bool)
    | Num(x: real)
    | Text(s: string)
    | Iv(iv: ValidInterval)

  /** The interval is closed on `side`: its label names that side or both. */
  predicate IsClosed(iv: Interval, side: Side) {
    || iv.closed == Both
    || (side == LeftSide && iv.closed == LeftOnly)
    || (side == RightSide && iv.closed == RightOnly)
  }

  /** For an interval with distinct bounds, being closed on a side means
      holding that side's end point. */
  lemma ClosedEndPoint(iv: Interval, side: Side)
    requires iv.left < iv.right
    ensures IsClosed(iv, side) <==> Contains(iv, if side == LeftSide then iv.left else iv.right)
  {
  }

  /** The two sides' closedness determine the label, so the classifier's
      tests on the sides distinguish all four labels. */
  lemma ClosedSidesDetermineLabel(a: Interval, b: Interval)
    requires IsClosed(a, LeftSide) == IsClosed(b, LeftSide) && IsClosed(a, RightSide) == IsClosed(b, RightSide)
    ensures a.closed == b.closed
  {
  }

  /** pandas `Interval.overlaps`: each interval starts before the other ends,
      where touching end points count only when both of them are closed. */
  predicate Overlaps(a: Interval, b: Interval) {
    && (if IsClosed(a, LeftSide) && IsClosed(b, RightSide) then a.left <= b.right else a.left < b.right)
    && (if IsClosed(b, LeftSide) && IsClosed(a, RightSide) then b.left <= a.right else b.left < a.right)
  }

  /** Point membership: the set-theoretic reading of an interval. */
  predicate Contains(iv: Interval, x: real) {
    && (if IsClosed(iv, LeftSide) then iv.left <= x else iv.left < x)
    && (if IsClosed(iv, RightSide) then x <= iv.right else x < iv.right)
  }

  /** The interval holds at least one point. */
  predicate NonEmpty(iv: ValidInterval) {
    iv.left < iv.right || iv.closed == Both
  }

  /** `Overlaps` is exactly "the two point sets intersect" for non-empty
      intervals, so the classifier's DIFFERENCE outcome has a semantic reading. */
  lemma OverlapsIffSharedPoint(a: ValidInterval, b: ValidInterval)
    requires NonEmpty(a) && NonEmpty(b)
    ensures Overlaps(a, b) <==> exists x :: Contains(a, x) && Contains(b, x)
  {
    if Overlaps(a, b) {
      var lo := if a.left < b.left then b.left else a.left;
      var hi := if a.right < b.right then a.right else b.right;
      var x := if lo < hi then (lo + hi) / 2.0 else lo;
      assert Contains(a, x) && Contains(b, x);
    }
  }

  /** `Overlaps` does not depend on the order of its arguments. */
  lemma OverlapsSymmetric(a: Interval, b: Interval)
    ensures Overlaps(a, b) == Overlaps(b, a)
  {
  }
}
