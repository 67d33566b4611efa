/** A rule set: the rule table (row = rule, column 0 = recommendation) with
    its attribute names, counts, inter-difference tensor and product matrix.
    This module holds the from-scratch builders and the read-only queries. */
module RuleSets {
  import opened Outcomes
  import opened Values
  import opened RelationCodes
  import opened Aggregation
  import opened Tensors
  import opened Classification

  /** `m` counts attributes (recommendation included) and `n` rules. An
      empty `idm` or `pm` means "not built" (the length test of the source). */
  datatype RuleSet = RuleSet(rows: Table, names: seq<string>, m: nat, n: nat, idm: Tensor, pm: Matrix)

  /** The state after an operation, and the exception it raised if any. */
  datatype Step = Step(rs: RuleSet, raised: Option<Error>)

  /** An attribute given by position or by name. */
  datatype AttrRef = Index(i: int) | Name(s: string)

  predicate Distinct(names: seq<string>) {
    forall a, b :: 0 <= a < b < |names| ==> names[a] != names[b]
  }

  /** The two accepted names of the recommendation column. */
  predicate IsRecName(s: string) {
    s == "Rec" || s == "Recommendation"
  }

  /** The shape invariant every operation of the class relies on. */
  predicate WellShaped(rs: RuleSet) {
    && |rs.rows| == rs.n
    && Rect(rs.rows, rs.m)
    && |rs.names| == rs.m
    && Distinct(rs.names)
    && (rs.m > 0 ==> IsRecName(rs.names[0]))
    && (rs.n > 0 ==> rs.m > 0)
    && (rs.idm != [] ==> rs.n > 1 && Shaped(rs.idm, rs.m, rs.n))
    && (rs.pm != [] ==> rs.idm != [] && Square(rs.pm, rs.n))
  }

  /** The matrices, where built, agree with a full rebuild from the table. */
  predicate Consistent(rs: RuleSet) {
    && WellShaped(rs)
    && (rs.idm != [] ==> Classifies(rs.rows, rs.m) && IsRebuild(rs.idm, rs.rows, rs.m))
    && (rs.pm != [] ==> IsProductOf(rs.pm, rs.idm, rs.n))
  }

  /** The codes a full rebuild assigns to the pair `(i, j)`, by attribute. */
  function PairCodes(rows: Table, m: nat, i: nat, j: nat): (cs: seq<int>)
    ensures |cs| == m
    ensures forall k :: 0 <= k < m ==> cs[k] == CellCode(rows, k, i, j)
  {
    seq(m, k requires 0 <= k < m => CellCode(rows, k, i, j))
  }

  /** Builds the tensor from scratch when there are at least two rules;
      a type error stops the build with the cells written so far in place. */
  function BuildIDM(rs: RuleSet): (s: Step)
    requires WellShaped(rs)
    ensures s.rs == rs.(idm := s.rs.idm)
    ensures rs.n <= 1 ==> s == Step(rs, None)
    ensures rs.n > 1 ==> (s.raised.None? <==> Classifies(rs.rows, rs.m))
    ensures s.raised.Some? ==> s.raised.value == TypeError
    ensures rs.n > 1 ==> Shaped(s.rs.idm, rs.m, rs.n) && s.rs.idm != []
    ensures rs.n > 1 && s.raised.None? ==> IsRebuild(s.rs.idm, rs.rows, rs.m)
  {
    if rs.n > 1 then
      var f := Fill(Zeros(rs.m, rs.n), rs.rows, BuildOrder(rs.m, rs.n));
      BuildShape(rs.rows, rs.m, rs.n);
      BuildSucceeds(rs.rows, rs.m, rs.n);
      if f.ok then
        BuildRebuilds(rs.rows, rs.m, rs.n);
        Step(rs.(idm := f.t), None)
      else Step(rs.(idm := f.t), Some(TypeError))
    else Step(rs, None)
  }

  /** The full build keeps the shape of the zero tensor it starts from. */
  lemma BuildShape(rows: Table, m: nat, n: nat)
    requires m >= 1
    ensures Shaped(Fill(Zeros(m, n), rows, BuildOrder(m, n)).t, m, n)
  {
    var zero := Zeros(m, n);
    SameShapeShaped(zero, Fill(zero, rows, BuildOrder(m, n)).t, m, n);
  }

  /** The full build completes exactly when every pair classifies. */
  lemma BuildSucceeds(rows: Table, m: nat, n: nat)
    requires m >= 1 && |rows| == n
    ensures Fill(Zeros(m, n), rows, BuildOrder(m, n)).ok <==> Classifies(rows, m)
  {
    var cells := BuildOrder(m, n);
    if Fill(Zeros(m, n), rows, cells).ok {
      forall k, i, j | 0 <= k < m && 0 <= i < j < n
        ensures CellResult(rows, k, i, j).Ok?
      {
        assert Cell(k, i, j) in cells;
      }
    }
  }

  /** A completed full build is the rebuild of the table. */
  lemma BuildRebuilds(rows: Table, m: nat, n: nat)
    requires m >= 1 && |rows| == n
    requires Fill(Zeros(m, n), rows, BuildOrder(m, n)).ok
    ensures IsRebuild(Fill(Zeros(m, n), rows, BuildOrder(m, n)).t, rows, m)
  {
    var cells := BuildOrder(m, n);
    var zero := Zeros(m, n);
    var f := Fill(zero, rows, cells);
    BuildShape(rows, m, n);
    forall k, i, j | 0 <= k < m && 0 <= i < n && 0 <= j < n
      ensures f.t[k][i][j] == CellCode(rows, k, i, j)
    {
      if i >= j {
        assert Cell(k, i, j) !in cells;
      }
    }
  }

  /** Builds the product matrix from the tensor; reports `false` and changes
      nothing when the tensor is not built. */
  function BuildPM(rs: RuleSet): (r: (RuleSet, bool))
    requires WellShaped(rs)
    ensures r.1 <==> rs.idm != []
    ensures !r.1 ==> r.0 == rs
    ensures r.1 ==> r.0 == rs.(pm := r.0.pm) && IsProductOf(r.0.pm, rs.idm, rs.n)
  {
    if rs.idm != [] then (rs.(pm := PmOf(rs.idm, rs.n)), true) else (rs, false)
  }

  /** Re-synchronises matrices that exist with the table: the tensor is
      rebuilt, and the product matrix too when it exists. */
  function RecomputeM(rs: RuleSet): (s: Step)
    requires WellShaped(rs)
    ensures rs.idm == [] ==> s == Step(rs, None)
    ensures s.raised.None? ==> Consistent(s.rs)
    ensures s.raised.None? <==> rs.idm == [] || Classifies(rs.rows, rs.m)
    ensures s.rs.rows == rs.rows && s.rs.names == rs.names && s.rs.m == rs.m && s.rs.n == rs.n
  {
    if rs.idm != [] then
      var b := BuildIDM(rs);
      if b.raised.Some? then b
      else if b.rs.pm != [] then Step(BuildPM(b.rs).0, None)
      else b
    else Step(rs, None)
  }

  /** First position of `s` in `names`. */
  function IndexOf(names: seq<string>, s: string): (x: nat)
    requires s in names
    ensures x < |names| && names[x] == s
    ensures forall y :: 0 <= y < x ==> names[y] != s
  {
    if names[0] == s then 0 else 1 + IndexOf(names[1..], s)
  }

  /** The value a rule has for an attribute given by position or name. */
  function GetVal(rs: RuleSet, rule: int, attr: AttrRef): (r: Result<Value>)
    requires WellShaped(rs)
    ensures r.Err? ==> r.error == ValueError
    ensures r.Ok? <==> 0 <= rule < rs.n && (match attr
                         case Index(i) => 0 <= i < rs.m
                         case Name(s) => s in rs.names)
    ensures r.Ok? && attr.Index? ==> r.value == rs.rows[rule][attr.i]
    ensures r.Ok? && attr.Name? ==> exists x :: 0 <= x < rs.m && rs.names[x] == attr.s && r.value == rs.rows[rule][x]
  {
    if rule < 0 || rule >= rs.n then Err(ValueError)
    else match attr
      case Name(s) =>
        if s !in rs.names then Err(ValueError) else Ok(rs.rows[rule][IndexOf(rs.names, s)])
      case Index(i) =>
        if 0 <= i < rs.m then Ok(rs.rows[rule][i]) else Err(ValueError)
  }

  /** The connection between rules `r1` and `r2`, in either order. */
  function ConnectionOf(rs: RuleSet, r1: nat, r2: nat): (r: Result<Connection>)
    requires WellShaped(rs)
    ensures rs.pm == [] ==> r == Ok(Error)
    ensures rs.pm != [] && (r1 >= rs.n || r2 >= rs.n) ==> r == Err(ValueError)
    ensures rs.pm != [] && r1 < rs.n && r1 == r2 ==> r == Ok(Reference)
    ensures rs.pm != [] && r1 < rs.n && r2 < rs.n && r1 != r2 ==>
              r == Decode(rs.pm[if r1 < r2 then r1 else r2][if r1 < r2 then r2 else r1])
  {
    if |rs.pm| == 0 then Ok(Error)
    else if r1 >= rs.n || r2 >= rs.n then Err(ValueError)
    else if r1 == r2 then Ok(Reference)
    else
      var (a, b) := if r1 > r2 then (r2, r1) else (r1, r2);
      Decode(rs.pm[a][b])
  }

  /** The connection does not depend on the order of the two rules. */
  lemma ConnectionSymmetric(rs: RuleSet, r1: nat, r2: nat)
    requires WellShaped(rs)
    ensures ConnectionOf(rs, r1, r2) == ConnectionOf(rs, r2, r1)
  {
  }

  /** End-to-end correctness: on a consistent rule set with a built product
      matrix, the connection of two distinct rules never fails and is
      exactly the summary of their per-attribute relations. */
  lemma ConnectionCorrect(rs: RuleSet, r1: nat, r2: nat)
    requires Consistent(rs) && rs.pm != []
    requires r1 < rs.n && r2 < rs.n && r1 != r2
    ensures var (a, b) := if r1 < r2 then (r1, r2) else (r2, r1);
            ValidCodes(PairCodes(rs.rows, rs.m, a, b))
            && ConnectionOf(rs, r1, r2) == Ok(Summarize(PairCodes(rs.rows, rs.m, a, b)))
  {
    var (a, b) := if r1 < r2 then (r1, r2) else (r2, r1);
    RebuildCodesValid(rs.idm, rs.rows, rs.m, a, b);
    assert Codes(rs.idm, a, b) == PairCodes(rs.rows, rs.m, a, b);
    DecodeProduct(Codes(rs.idm, a, b));
  }
}
