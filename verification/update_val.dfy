/** Cell updates with incremental maintenance: `update_idm` reclassifies the
    pairs that involve one rule on one attribute, `update_pm` recomputes that
    rule's row and column of the product matrix, and `update_val` combines
    them with the table write. */
module CellUpdates {
  import opened Outcomes
  import opened Values
  import opened Aggregation
  import opened Tensors
  import opened Classification
  import opened RuleSets

  /** The tensor with the pairs that involve `rule` on layer `attr`
      reclassified in the source's order of the other rule, until the first
      type error. */
  function ReclassifyStar(idm: Tensor, rows: Table, m: nat, n: nat, rule: nat, attr: nat): (f: Filled)
    requires Shaped(idm, m, n) && rule < n && attr < m
    ensures Shaped(f.t, m, n)
    ensures f.ok <==> forall c :: c in StarCells(attr, rule, 0, n) ==> CellResult(rows, c.k, c.i, c.j).Ok?
    ensures forall k, i, j :: (0 <= k < m && 0 <= i < n && 0 <= j < n && Cell(k, i, j) !in StarCells(attr, rule, 0, n))
              ==> f.t[k][i][j] == idm[k][i][j]
    ensures f.ok ==> forall c :: c in StarCells(attr, rule, 0, n) ==>
              Fits(f.t, c) && f.t[c.k][c.i][c.j] == CellCode(rows, c.k, c.i, c.j)
    ensures forall k, i, j :: 0 <= k < m && 0 <= i < n && 0 <= j < n && i != rule && j != rule ==>
              f.t[k][i][j] == idm[k][i][j]
  {
    var f := Fill(idm, rows, StarCells(attr, rule, 0, n));
    StarShape(idm, rows, m, n, rule, attr);
    StarKeeps(idm, rows, m, n, rule, attr);
    StarCodes(idm, rows, m, n, rule, attr);
    StarAway(idm, rows, m, n, rule, attr);
    f
  }

  lemma StarAway(idm: Tensor, rows: Table, m: nat, n: nat, rule: nat, attr: nat)
    requires Shaped(idm, m, n) && rule < n && attr < m
    ensures var f := Fill(idm, rows, StarCells(attr, rule, 0, n));
            forall k, i, j :: 0 <= k < m && 0 <= i < n && 0 <= j < n && i != rule && j != rule ==>
              f.t[k][i][j] == idm[k][i][j]
  {
    var cells := StarCells(attr, rule, 0, n);
    StarKeeps(idm, rows, m, n, rule, attr);
    forall k, i, j | 0 <= k < m && 0 <= i < n && 0 <= j < n && i != rule && j != rule
      ensures Cell(k, i, j) !in cells
    {
    }
  }

  lemma StarShape(idm: Tensor, rows: Table, m: nat, n: nat, rule: nat, attr: nat)
    requires Shaped(idm, m, n) && rule < n && attr < m
    ensures Shaped(Fill(idm, rows, StarCells(attr, rule, 0, n)).t, m, n)
  {
    SameShapeShaped(idm, Fill(idm, rows, StarCells(attr, rule, 0, n)).t, m, n);
  }

  lemma StarKeeps(idm: Tensor, rows: Table, m: nat, n: nat, rule: nat, attr: nat)
    requires Shaped(idm, m, n) && rule < n && attr < m
    ensures var cells := StarCells(attr, rule, 0, n);
            var f := Fill(idm, rows, cells);
            forall k, i, j :: (0 <= k < m && 0 <= i < n && 0 <= j < n && Cell(k, i, j) !in cells)
              ==> f.t[k][i][j] == idm[k][i][j]
  {
    var cells := StarCells(attr, rule, 0, n);
    var f := Fill(idm, rows, cells);
    forall k, i, j | 0 <= k < m && 0 <= i < n && 0 <= j < n && Cell(k, i, j) !in cells
      ensures f.t[k][i][j] == idm[k][i][j]
    {
      assert Cell(k, i, j) !in Written(rows, cells);
    }
  }

  lemma StarCodes(idm: Tensor, rows: Table, m: nat, n: nat, rule: nat, attr: nat)
    requires Shaped(idm, m, n) && rule < n && attr < m
    ensures var cells := StarCells(attr, rule, 0, n);
            var f := Fill(idm, rows, cells);
            f.ok ==> forall c :: c in cells ==> Fits(f.t, c) && f.t[c.k][c.i][c.j] == CellCode(rows, c.k, c.i, c.j)
  {
    var cells := StarCells(attr, rule, 0, n);
    StarShape(idm, rows, m, n, rule, attr);
    var f := Fill(idm, rows, cells);
    if f.ok {
      forall c | c in cells
        ensures Fits(f.t, c) && f.t[c.k][c.i][c.j] == CellCode(rows, c.k, c.i, c.j)
      {
        assert c.k == attr && c.i < n && c.j < n;
      }
    }
  }

  /** Reclassifies, on layer `attr`, every pair that involves `rule`, in the
      source's order of the other rule; nothing happens while the tensor is
      not built. */
  function UpdateIdm(rs: RuleSet, rule: nat, attr: nat): (s: Step)
    requires |rs.rows| == rs.n && Rect(rs.rows, rs.m) && rule < rs.n && attr < rs.m
    requires rs.idm != [] ==> Shaped(rs.idm, rs.m, rs.n)
    ensures s.rs == rs.(idm := s.rs.idm)
    ensures rs.idm == [] ==> s == Step(rs, None)
    ensures s.raised.Some? ==> s.raised.value == TypeError
    ensures rs.idm != [] ==> var f := ReclassifyStar(rs.idm, rs.rows, rs.m, rs.n, rule, attr);
              s.rs.idm == f.t && (s.raised.None? <==> f.ok)
  {
    if rs.idm == [] then Step(rs, None)
    else
      var f := ReclassifyStar(rs.idm, rs.rows, rs.m, rs.n, rule, attr);
      if f.ok then Step(rs.(idm := f.t), None)
      else Step(rs.(idm := f.t), Some(TypeError))
  }

  /** Row and column `r` of `pm` recomputed as products over `t`. */
  function RefreshCross(pm: Matrix, t: Tensor, n: nat, r: nat): (u: Matrix)
    requires Square(pm, n) && Shaped(t, |t|, n)
    ensures Square(u, n)
    ensures forall i, j :: 0 <= i < n && 0 <= j < n ==>
              u[i][j] == if i == r || j == r then Product(Codes(t, i, j)) else pm[i][j]
  {
    seq(n, i requires 0 <= i < n =>
      seq(n, j requires 0 <= j < n => if i == r || j == r then Product(Codes(t, i, j)) else pm[i][j]))
  }

  /** Recomputes the row and the column of `rule` in the product matrix,
      when it is built. */
  function UpdatePm(rs: RuleSet, rule: nat): (r: RuleSet)
    requires rs.pm != [] ==> rs.idm != [] && Square(rs.pm, rs.n) && Shaped(rs.idm, |rs.idm|, rs.n)
    ensures r == rs.(pm := r.pm)
    ensures rs.pm == [] ==> r == rs
    ensures rs.pm != [] ==> Square(r.pm, rs.n)
    ensures rs.pm != [] ==> forall i, j :: 0 <= i < rs.n && 0 <= j < rs.n ==>
              r.pm[i][j] == if i == rule || j == rule then Product(Codes(rs.idm, i, j)) else rs.pm[i][j]
  {
    if rs.pm == [] then rs else rs.(pm := RefreshCross(rs.pm, rs.idm, rs.n, rule))
  }

  /** The rule set with the value of `rule` for attribute `attr` replaced
      by `v` and nothing else changed. */
  function WriteValue(rs: RuleSet, rule: nat, attr: nat, v: Value): (r: RuleSet)
    requires WellShaped(rs) && rule < rs.n && attr < rs.m
    ensures WellShaped(r) && r == rs.(rows := r.rows)
    ensures |r.rows| == rs.n && Rect(r.rows, rs.m)
    ensures r.rows[rule][attr] == v
    ensures forall q, k :: 0 <= q < rs.n && 0 <= k < rs.m && (q != rule || k != attr) ==> r.rows[q][k] == rs.rows[q][k]
  {
    rs.(rows := rs.rows[rule := rs.rows[rule][attr := v]])
  }

  /** Sets the value of `rule` for attribute `attr` and, when `update` holds,
      maintains the matrices incrementally. Indices are checked before
      anything is written; a type error during reclassification leaves the
      new value and the cells already rewritten in place. */
  function UpdateVal(rs: RuleSet, rule: nat, attr: nat, v: Value, update: bool): (s: Step)
    requires WellShaped(rs)
    ensures WellShaped(s.rs)
    ensures (s.rs.idm == []) == (rs.idm == []) && (s.rs.pm == []) == (rs.pm == [])
    ensures attr >= rs.m || rule >= rs.n ==> s == Step(rs, Some(ValueError))
    ensures attr < rs.m && rule < rs.n ==>
              && s.rs.rows == rs.rows[rule := rs.rows[rule][attr := v]]
              && s.rs.names == rs.names && s.rs.m == rs.m && s.rs.n == rs.n
              && (s.raised.Some? ==> s.raised.value == TypeError)
    ensures attr < rs.m && rule < rs.n && !update ==> s.raised.None? && s.rs.idm == rs.idm && s.rs.pm == rs.pm
    ensures attr < rs.m && rule < rs.n && s.raised.None? && rs.idm != [] ==>
              forall k, i, j :: 0 <= k < rs.m && 0 <= i < rs.n && 0 <= j < rs.n && i != rule && j != rule ==>
                s.rs.idm[k][i][j] == rs.idm[k][i][j]
    ensures attr < rs.m && rule < rs.n && s.raised.None? && rs.pm != [] ==>
              forall i, j :: 0 <= i < rs.n && 0 <= j < rs.n && i != rule && j != rule ==>
                s.rs.pm[i][j] == rs.pm[i][j]
    ensures attr < rs.m && rule < rs.n && rs.idm == [] ==> s.raised.None?
    ensures attr < rs.m && rule < rs.n && update && rs.idm != [] ==> (s.raised.None? <==>
              forall c :: c in StarCells(attr, rule, 0, rs.n) ==> CellResult(s.rs.rows, c.k, c.i, c.j).Ok?)
    ensures attr < rs.m && rule < rs.n && update && s.raised.None? && rs.idm != [] ==>
              forall c :: c in StarCells(attr, rule, 0, rs.n) ==>
                Fits(s.rs.idm, c) && s.rs.idm[c.k][c.i][c.j] == CellCode(s.rs.rows, c.k, c.i, c.j)
    ensures attr < rs.m && rule < rs.n && update && s.raised.None? && rs.pm != [] ==>
              forall i, j :: 0 <= i < rs.n && 0 <= j < rs.n && (i == rule || j == rule) ==>
                s.rs.pm[i][j] == Product(Codes(s.rs.idm, i, j))
  {
    if attr >= rs.m || rule >= rs.n then Step(rs, Some(ValueError))
    else
      var rs1 := WriteValue(rs, rule, attr, v);
      if !update then Step(rs1, None) else Maintain(rs1, rule, attr)
  }

  /** The incremental maintenance after a write: `update_idm` and then,
      unless it raised, `update_pm`. Only the pairs that involve `rule` can
      change, and the table and the matrices' built state are kept. */
  function Maintain(rs: RuleSet, rule: nat, attr: nat): (s: Step)
    requires WellShaped(rs) && rule < rs.n && attr < rs.m
    ensures WellShaped(s.rs) && s.rs == rs.(idm := s.rs.idm, pm := s.rs.pm)
    ensures (s.rs.idm == []) == (rs.idm == []) && (s.rs.pm == []) == (rs.pm == [])
    ensures s.raised.Some? ==> s.raised.value == TypeError
    ensures s.raised.None? && rs.idm != [] ==>
              forall k, i, j :: 0 <= k < rs.m && 0 <= i < rs.n && 0 <= j < rs.n && i != rule && j != rule ==>
                s.rs.idm[k][i][j] == rs.idm[k][i][j]
    ensures s.raised.None? && rs.pm != [] ==>
              forall i, j :: 0 <= i < rs.n && 0 <= j < rs.n && i != rule && j != rule ==>
                s.rs.pm[i][j] == rs.pm[i][j]
    ensures rs.idm == [] ==> s.raised.None?
    ensures rs.idm != [] ==> (s.raised.None? <==>
              forall c :: c in StarCells(attr, rule, 0, rs.n) ==> CellResult(rs.rows, c.k, c.i, c.j).Ok?)
    ensures s.raised.None? && rs.idm != [] ==> forall c :: c in StarCells(attr, rule, 0, rs.n) ==>
              Fits(s.rs.idm, c) && s.rs.idm[c.k][c.i][c.j] == CellCode(rs.rows, c.k, c.i, c.j)
    ensures s.raised.None? && rs.pm != [] ==>
              forall i, j :: 0 <= i < rs.n && 0 <= j < rs.n && (i == rule || j == rule) ==>
                s.rs.pm[i][j] == Product(Codes(s.rs.idm, i, j))
  {
    var s1 := UpdateIdm(rs, rule, attr);
    if s1.raised.Some? then s1
    else
      assert rs.idm != [] ==> Shaped(s1.rs.idm, |s1.rs.idm|, rs.n);
      Step(UpdatePm(s1.rs, rule), None)
  }

  /** A tensor cell's classification reads only the two values of its
      column in its two rows. */
  lemma CellReadsItsColumn(rows: Table, rows': Table, k: nat, i: nat, j: nat)
    requires |rows| == |rows'|
    requires forall r :: 0 <= r < |rows| ==> |rows[r]| == |rows'[r]|
    requires Readable(rows, Cell(k, i, j)) ==> rows[i][k] == rows'[i][k] && rows[j][k] == rows'[j][k]
    ensures CellResult(rows, k, i, j) == CellResult(rows', k, i, j)
    ensures CellCode(rows, k, i, j) == CellCode(rows', k, i, j)
  {
  }

  /** Outside the cells of one rule on one attribute, replacing that one
      value changes no classification. */
  lemma StarOutside(rows: Table, rows': Table, m: nat, rule: nat, attr: nat)
    requires Rect(rows, m) && |rows'| == |rows| && Rect(rows', m) && rule < |rows| && attr < m
    requires forall r, k :: 0 <= r < |rows| && 0 <= k < m && (r != rule || k != attr) ==> rows'[r][k] == rows[r][k]
    ensures forall k, i, j :: 0 <= k < m && 0 <= i < |rows| && 0 <= j < |rows| && Cell(k, i, j) !in StarCells(attr, rule, 0, |rows|)
              ==> CellCode(rows', k, i, j) == CellCode(rows, k, i, j) && CellResult(rows', k, i, j) == CellResult(rows, k, i, j)
  {
    var n := |rows|;
    var cells := StarCells(attr, rule, 0, n);
    forall k, i, j | 0 <= k < m && 0 <= i < n && 0 <= j < n && Cell(k, i, j) !in cells
      ensures CellCode(rows', k, i, j) == CellCode(rows, k, i, j)
      ensures CellResult(rows', k, i, j) == CellResult(rows, k, i, j)
    {
      if i < j {
        assert k != attr || (i != rule && j != rule);
      }
      CellReadsItsColumn(rows, rows', k, i, j);
    }
  }

  /** Rewriting the cells of one rule on one attribute turns a rebuild of
      the old table into a rebuild of the table with that value replaced. */
  lemma StarRebuild(rows: Table, rows': Table, m: nat, idm: Tensor, t: Tensor, rule: nat, attr: nat)
    requires Rect(rows, m) && |rows'| == |rows| && Rect(rows', m) && rule < |rows| && attr < m
    requires forall r, k :: 0 <= r < |rows| && 0 <= k < m && (r != rule || k != attr) ==> rows'[r][k] == rows[r][k]
    requires Classifies(rows, m) && IsRebuild(idm, rows, m) && Shaped(t, m, |rows|)
    requires forall c :: c in StarCells(attr, rule, 0, |rows|) ==> CellResult(rows', c.k, c.i, c.j).Ok?
    requires forall k, i, j :: (0 <= k < m && 0 <= i < |rows| && 0 <= j < |rows| && Cell(k, i, j) !in StarCells(attr, rule, 0, |rows|))
               ==> t[k][i][j] == idm[k][i][j]
    requires forall c :: c in StarCells(attr, rule, 0, |rows|) ==> t[c.k][c.i][c.j] == CellCode(rows', c.k, c.i, c.j)
    ensures Classifies(rows', m) && IsRebuild(t, rows', m)
  {
    var n := |rows|;
    var cells := StarCells(attr, rule, 0, n);
    StarOutside(rows, rows', m, rule, attr);
    forall k, i, j | 0 <= k < m && 0 <= i < j < n
      ensures CellResult(rows', k, i, j).Ok?
    {
      if Cell(k, i, j) !in cells {
        assert CellResult(rows, k, i, j).Ok?;
      }
    }
    forall k, i, j | 0 <= k < m && 0 <= i < n && 0 <= j < n
      ensures t[k][i][j] == CellCode(rows', k, i, j)
    {
      if Cell(k, i, j) !in cells {
        assert t[k][i][j] == idm[k][i][j];
      }
    }
  }

  /** Recomputing row and column `r` of a product matrix is exact when the
      tensor changed only in cells that involve `r`. */
  lemma CrossProduct(pm: Matrix, idm: Tensor, t: Tensor, m: nat, n: nat, r: nat)
    requires Shaped(idm, m, n) && Shaped(t, m, n) && IsProductOf(pm, idm, n)
    requires forall k, i, j :: 0 <= k < m && 0 <= i < n && 0 <= j < n && i != r && j != r ==> t[k][i][j] == idm[k][i][j]
    ensures IsProductOf(RefreshCross(pm, t, n, r), t, n)
  {
    forall i, j | 0 <= i < n && 0 <= j < n && i != r && j != r
      ensures Codes(t, i, j) == Codes(idm, i, j)
    {
    }
  }

  /** A successful reclassification of one rule's cells on one attribute
      yields a rebuild of the changed table, and the refreshed product
      matrix is the product of the new tensor. */
  lemma StarExact(rs: RuleSet, rows': Table, rule: nat, attr: nat)
    requires Consistent(rs) && rs.idm != [] && rule < rs.n && attr < rs.m
    requires |rows'| == rs.n && Rect(rows', rs.m)
    requires forall r, k :: 0 <= r < rs.n && 0 <= k < rs.m && (r != rule || k != attr) ==> rows'[r][k] == rs.rows[r][k]
    requires ReclassifyStar(rs.idm, rows', rs.m, rs.n, rule, attr).ok
    ensures var t := ReclassifyStar(rs.idm, rows', rs.m, rs.n, rule, attr).t;
            && Classifies(rows', rs.m) && IsRebuild(t, rows', rs.m)
            && (rs.pm != [] ==> IsProductOf(RefreshCross(rs.pm, t, rs.n, rule), t, rs.n))
  {
    var f := ReclassifyStar(rs.idm, rows', rs.m, rs.n, rule, attr);
    StarRebuild(rs.rows, rows', rs.m, rs.idm, f.t, rule, attr);
    if rs.pm != [] {
      CrossProduct(rs.pm, rs.idm, f.t, rs.m, rs.n, rule);
    }
  }

  /** Incremental maintenance is exact: after a successful update the
      tensor and the product matrix equal a full rebuild from the new table. */
  lemma UpdateValConsistent(rs: RuleSet, rule: nat, attr: nat, v: Value)
    requires Consistent(rs)
    ensures var s := UpdateVal(rs, rule, attr, v, true);
            s.raised.None? ==> Consistent(s.rs)
  {
    var s := UpdateVal(rs, rule, attr, v, true);
    if s.raised.None? && attr < rs.m && rule < rs.n && rs.idm != [] {
      var rows' := rs.rows[rule := rs.rows[rule][attr := v]];
      assert forall r, k :: 0 <= r < rs.n && 0 <= k < rs.m && (r != rule || k != attr) ==> rows'[r][k] == rs.rows[r][k];
      var f := ReclassifyStar(rs.idm, rows', rs.m, rs.n, rule, attr);
      StarExact(rs, rows', rule, attr);
      assert s.rs.rows == rows' && s.rs.idm == f.t;
      assert rs.pm != [] ==> s.rs.pm == RefreshCross(rs.pm, f.t, rs.n, rule);
    }
  }
}
