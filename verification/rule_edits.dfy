/** Adding and deleting rules with incremental maintenance of the tensor
    and the product matrix. */
module RuleEdits {
  import opened Outcomes
  import opened Values
  import opened Aggregation
  import opened Tensors
  import opened Classification
  import opened RuleSets

  /** Decimal rendering of a natural number (Python's `str` on an int). */
  function NatToString(x: nat): (s: string)
    ensures |s| >= 1
    ensures x >= 10 ==> |s| >= 2
    decreases x
  {
    if x < 10 then [Digit(x)] else NatToString(x / 10) + [Digit(x % 10)]
  }

  function Digit(d: nat): char
    requires d < 10
  {
    "0123456789"[d]
  }

  /** Different numbers have different renderings. */
  lemma {:induction false} NatToStringInjective(x: nat, y: nat)
    requires NatToString(x) == NatToString(y)
    ensures x == y
    decreases x
  {
    var s := NatToString(x);
    if x < 10 && y < 10 {
      assert "0123456789"[x] == "0123456789"[y];
    } else if x >= 10 && y >= 10 {
      assert NatToString(x / 10) == s[..|s| - 1] == NatToString(y / 10);
      NatToStringInjective(x / 10, y / 10);
      assert Digit(x % 10) == s[|s| - 1] == Digit(y % 10);
    }
  }

  /** The names given to the attributes of the first rule of an empty set. */
  function GeneratedNames(count: nat): (names: seq<string>)
    ensures |names| == count
    ensures forall i :: 0 <= i < count ==> names[i] == "Attr " + NatToString(i + 1)
  {
    seq(count, i requires 0 <= i < count => "Attr " + NatToString(i + 1))
  }

  /** The generated names never repeat and never name the recommendation. */
  lemma GeneratedNamesDistinct(count: nat)
    ensures Distinct(["Recommendation"] + GeneratedNames(count))
  {
    var names := ["Recommendation"] + GeneratedNames(count);
    forall a, b | 0 <= a < b < |names|
      ensures names[a] != names[b]
    {
      if a == 0 {
        assert names[b][0] == 'A';
      } else if names[a] == names[b] {
        var p := "Attr ";
        assert names[a] == p + NatToString(a);
        assert names[b] == p + NatToString(b);
        assert NatToString(a) == names[a][|p|..] == names[b][|p|..] == NatToString(b);
        NatToStringInjective(a, b);
      }
    }
  }

  /** Column `r` of `mx` replaced by the products over `t`. */
  function SetColumn(mx: Matrix, t: Tensor, n: nat, r: nat): (u: Matrix)
    requires Square(mx, n) && Shaped(t, |t|, n)
    ensures Square(u, n)
    ensures forall i, j :: 0 <= i < n && 0 <= j < n ==>
              u[i][j] == if j == r then Product(Codes(t, i, j)) else mx[i][j]
  {
    seq(n, i requires 0 <= i < n => seq(n, j requires 0 <= j < n => if j == r then Product(Codes(t, i, j)) else mx[i][j]))
  }

  /** The tensor grown by one zero row and column per layer, then the new
      last rule classified against every earlier rule, attribute by
      attribute, until the first type error. */
  function GrowAndClassify(idm: Tensor, rows: Table, m: nat, n: nat): (f: Filled)
    requires Shaped(idm, m, n) && |rows| == n + 1 && Rect(rows, m)
    ensures Shaped(f.t, m, n + 1)
    ensures f.ok <==> forall c :: c in NewRuleCells(0, m, n) ==> CellResult(rows, c.k, c.i, c.j).Ok?
    ensures forall k, i, j :: (0 <= k < m && 0 <= i < n + 1 && 0 <= j < n + 1
              && Cell(k, i, j) !in NewRuleCells(0, m, n)) ==>
              f.t[k][i][j] == if i < n && j < n then idm[k][i][j] else 0
    ensures f.ok ==> forall c :: c in NewRuleCells(0, m, n) ==>
              Fits(f.t, c) && f.t[c.k][c.i][c.j] == CellCode(rows, c.k, c.i, c.j)
  {
    var f := Fill(GrowTensor(idm, n), rows, NewRuleCells(0, m, n));
    GrowShape(idm, rows, m, n);
    GrowKeeps(idm, rows, m, n);
    GrowCodes(idm, rows, m, n);
    f
  }

  lemma GrowShape(idm: Tensor, rows: Table, m: nat, n: nat)
    requires Shaped(idm, m, n)
    ensures Shaped(Fill(GrowTensor(idm, n), rows, NewRuleCells(0, m, n)).t, m, n + 1)
  {
    var g := GrowTensor(idm, n);
    SameShapeShaped(g, Fill(g, rows, NewRuleCells(0, m, n)).t, m, n + 1);
  }

  lemma GrowKeeps(idm: Tensor, rows: Table, m: nat, n: nat)
    requires Shaped(idm, m, n)
    ensures var cells := NewRuleCells(0, m, n);
            var f := Fill(GrowTensor(idm, n), rows, cells);
            forall k, i, j :: (0 <= k < m && 0 <= i < n + 1 && 0 <= j < n + 1 && Cell(k, i, j) !in cells) ==>
              f.t[k][i][j] == if i < n && j < n then idm[k][i][j] else 0
  {
    var cells := NewRuleCells(0, m, n);
    var g := GrowTensor(idm, n);
    var f := Fill(g, rows, cells);
    forall k, i, j | 0 <= k < m && 0 <= i < n + 1 && 0 <= j < n + 1 && Cell(k, i, j) !in cells
      ensures f.t[k][i][j] == if i < n && j < n then idm[k][i][j] else 0
    {
      assert Cell(k, i, j) !in Written(rows, cells);
    }
  }

  lemma GrowCodes(idm: Tensor, rows: Table, m: nat, n: nat)
    requires Shaped(idm, m, n)
    ensures var cells := NewRuleCells(0, m, n);
            var f := Fill(GrowTensor(idm, n), rows, cells);
            f.ok ==> forall c :: c in cells ==> Fits(f.t, c) && f.t[c.k][c.i][c.j] == CellCode(rows, c.k, c.i, c.j)
  {
    var cells := NewRuleCells(0, m, n);
    GrowShape(idm, rows, m, n);
    var f := Fill(GrowTensor(idm, n), rows, cells);
    if f.ok {
      forall c | c in cells
        ensures Fits(f.t, c) && f.t[c.k][c.i][c.j] == CellCode(rows, c.k, c.i, c.j)
      {
        assert c.k < m && c.i < n && c.j == n;
      }
    }
  }

  /** Appends `row` to a non-empty rule set. When the tensor is built it is
      grown and the new rule classified (`GrowAndClassify`); on a type error
      the row stays in the table, the rule count is restored and the grown
      tensor keeps the cells written so far. When the product matrix is
      built it is grown and its new column computed. */
  function AppendRule(rs: RuleSet, row: seq<Value>): (s: Step)
    requires WellShaped(rs) && |row| == rs.m && rs.n > 0
    ensures s.rs.rows == rs.rows + [row] && s.rs.names == rs.names && s.rs.m == rs.m
    ensures s.raised.None? ==> s.rs.n == rs.n + 1 && WellShaped(s.rs)
    ensures s.raised.Some? ==> s.raised == Some(TypeError) && s.rs.n == rs.n && s.rs.pm == rs.pm
    ensures rs.idm == [] ==> s.raised.None? && s.rs.idm == [] && s.rs.pm == rs.pm
    ensures rs.idm != [] ==> var f := GrowAndClassify(rs.idm, rs.rows + [row], rs.m, rs.n);
              s.rs.idm == f.t && (s.raised.None? <==> f.ok)
    ensures rs.pm != [] && s.raised.None? ==> s.rs.pm == SetColumn(GrowMatrix(rs.pm, rs.n), s.rs.idm, rs.n + 1, rs.n)
  {
    var rows' := rs.rows + [row];
    if rs.idm == [] then Step(rs.(rows := rows', n := rs.n + 1), None)
    else
      var f := GrowAndClassify(rs.idm, rows', rs.m, rs.n);
      if !f.ok then Step(rs.(rows := rows', idm := f.t), Some(TypeError))
      else
        var pm' := if rs.pm == [] then [] else SetColumn(GrowMatrix(rs.pm, rs.n), f.t, rs.n + 1, rs.n);
        Step(rs.(rows := rows', n := rs.n + 1, idm := f.t, pm := pm'), None)
  }

  /** Adds a rule with recommendation `rec`. On an empty set the table is
      replaced by the single rule and the attributes are named
      "Recommendation", "Attr 1", ...; otherwise missing values fill the
      unspecified attributes, and a value list of the wrong length is
      refused before anything changes. */
  function AddRule(rs: RuleSet, rec: Value, vals: Option<seq<Value>>): (s: Step)
    requires WellShaped(rs)
    ensures rs.n == 0 ==> (s.raised.None? && s.rs.n == 1
              && s.rs.rows == [[rec] + (if vals.Some? then vals.value else [])]
              && s.rs.names == ["Recommendation"] + GeneratedNames(if vals.Some? then |vals.value| else 0))
    ensures rs.n > 0 && vals.Some? && |vals.value| != rs.m - 1 ==> s == Step(rs, Some(ValueError))
    ensures rs.n > 0 && vals.None? ==> s.rs.rows == rs.rows + [[rec] + seq(rs.m - 1, _ => Missing)]
    ensures rs.n > 0 && vals.Some? && |vals.value| == rs.m - 1 ==> s.rs.rows == rs.rows + [[rec] + vals.value]
    ensures rs.n > 0 && s.raised.None? ==> s.rs.n == rs.n + 1
    ensures rs.n > 0 && s.raised == Some(TypeError) ==> s.rs.n == rs.n && s.rs.rows == rs.rows + [s.rs.rows[rs.n]]
    ensures s.raised.None? ==> WellShaped(s.rs)
    ensures rs.n > 0 ==> s.rs.names == rs.names && s.rs.m == rs.m
                         && (s.rs.idm == []) == (rs.idm == []) && (s.rs.pm == []) == (rs.pm == [])
    ensures rs.n > 0 && (vals.None? || |vals.value| == rs.m - 1) && rs.idm == [] ==> s.raised.None?
    ensures rs.n > 0 && (vals.None? || |vals.value| == rs.m - 1) && rs.idm != [] ==> (s.raised.None? <==>
              forall c :: c in NewRuleCells(0, rs.m, rs.n) ==> CellResult(s.rs.rows, c.k, c.i, c.j).Ok?)
    ensures rs.n > 0 && s.raised.None? && rs.idm != [] ==>
              forall c :: c in NewRuleCells(0, rs.m, rs.n) ==>
                Fits(s.rs.idm, c) && s.rs.idm[c.k][c.i][c.j] == CellCode(s.rs.rows, c.k, c.i, c.j)
  {
    if rs.n == 0 then
      var vs := if vals.Some? then vals.value else [];
      var names := ["Recommendation"] + GeneratedNames(|vs|);
      GeneratedNamesDistinct(|vs|);
      Step(rs.(rows := [[rec] + vs], names := names, m := |names|, n := 1), None)
    else match vals
      case None => AppendRule(rs, [rec] + seq(rs.m - 1, _ => Missing))
      case Some(vs) =>
        if |vs| != rs.m - 1 then Step(rs, Some(ValueError)) else AppendRule(rs, [rec] + vs)
  }

  /** A product of codes that contains a zero is zero. */
  lemma {:induction false} ProductWithZero(cs: seq<int>, k: nat)
    requires k < |cs| && cs[k] == 0
    ensures Product(cs) == 0
  {
    if k > 0 {
      ProductWithZero(cs[1..], k - 1);
    }
  }

  /** The grown and filled tensor is a rebuild of the extended table. */
  lemma AppendRebuild(rows: Table, row: seq<Value>, m: nat, idm: Tensor, t: Tensor)
    requires Rect(rows, m) && |row| == m && Classifies(rows, m) && IsRebuild(idm, rows, m)
    requires var cells := NewRuleCells(0, m, |rows|);
             && Shaped(t, m, |rows| + 1)
             && (forall c :: c in cells ==> CellResult(rows + [row], c.k, c.i, c.j).Ok?)
             && (forall c :: c in cells ==> t[c.k][c.i][c.j] == CellCode(rows + [row], c.k, c.i, c.j))
             && (forall k, i, j :: (0 <= k < m && 0 <= i < |rows| + 1 && 0 <= j < |rows| + 1 && Cell(k, i, j) !in cells)
                   ==> t[k][i][j] == if i < |rows| && j < |rows| then idm[k][i][j] else 0)
    ensures Classifies(rows + [row], m) && IsRebuild(t, rows + [row], m)
  {
    var rows' := rows + [row];
    var n := |rows|;
    var cells := NewRuleCells(0, m, n);
    forall k, i, j | 0 <= k < m && 0 <= i < n && 0 <= j < n
      ensures CellResult(rows', k, i, j) == CellResult(rows, k, i, j)
    {
      assert rows'[i] == rows[i] && rows'[j] == rows[j];
    }
    forall k, i, j | 0 <= k < m && 0 <= i < j < n + 1
      ensures CellResult(rows', k, i, j).Ok?
    {
      if j == n {
        assert Cell(k, i, j) in cells;
      }
    }
    forall k, i, j | 0 <= k < m && 0 <= i < n + 1 && 0 <= j < n + 1
      ensures t[k][i][j] == CellCode(rows', k, i, j)
    {
      if i < j && j == n {
        assert Cell(k, i, j) in cells;
      }
    }
  }

  /** The grown product matrix with its new column recomputed is the
      product of the grown tensor, given that the new rule's row of the
      tensor holds zeros (it lies below the diagonal). */
  lemma AppendProduct(pm: Matrix, idm: Tensor, t: Tensor, m: nat, n: nat)
    requires m >= 1 && Shaped(idm, m, n) && Shaped(t, m, n + 1) && IsProductOf(pm, idm, n)
    requires forall k, i, j :: 0 <= k < m && 0 <= i < n && 0 <= j < n ==> t[k][i][j] == idm[k][i][j]
    requires forall j :: 0 <= j < n ==> t[0][n][j] == 0
    ensures IsProductOf(SetColumn(GrowMatrix(pm, n), t, n + 1, n), t, n + 1)
  {
    var u := SetColumn(GrowMatrix(pm, n), t, n + 1, n);
    forall i, j | 0 <= i < n + 1 && 0 <= j < n + 1
      ensures u[i][j] == Product(Codes(t, i, j))
    {
      if j < n && i < n {
        assert Codes(t, i, j) == Codes(idm, i, j);
      } else if j < n {
        ProductWithZero(Codes(t, i, j), 0);
      }
    }
  }

  /** A successful classification of a new last rule yields a rebuild of
      the extended table, and the grown product matrix with its new column
      computed is the product of the grown tensor. */
  lemma AppendExact(rs: RuleSet, row: seq<Value>)
    requires Consistent(rs) && |row| == rs.m && rs.n > 0 && rs.idm != []
    requires GrowAndClassify(rs.idm, rs.rows + [row], rs.m, rs.n).ok
    ensures var t := GrowAndClassify(rs.idm, rs.rows + [row], rs.m, rs.n).t;
            && Classifies(rs.rows + [row], rs.m) && IsRebuild(t, rs.rows + [row], rs.m)
            && (rs.pm != [] ==> IsProductOf(SetColumn(GrowMatrix(rs.pm, rs.n), t, rs.n + 1, rs.n), t, rs.n + 1))
  {
    var t := GrowAndClassify(rs.idm, rs.rows + [row], rs.m, rs.n).t;
    AppendRebuild(rs.rows, row, rs.m, rs.idm, t);
    if rs.pm != [] {
      AppendProductExact(rs.pm, rs.idm, rs.rows + [row], rs.m, rs.n);
    }
  }

  /** The product half of `AppendExact`: the grown tensor keeps the old
      pairs and holds zeros on the new rule's row, so the grown product
      matrix with its new column computed is its product. */
  lemma AppendProductExact(pm: Matrix, idm: Tensor, rows: Table, m: nat, n: nat)
    requires m >= 1 && Shaped(idm, m, n) && |rows| == n + 1 && Rect(rows, m) && IsProductOf(pm, idm, n)
    ensures var t := GrowAndClassify(idm, rows, m, n).t;
            IsProductOf(SetColumn(GrowMatrix(pm, n), t, n + 1, n), t, n + 1)
  {
    var t := GrowAndClassify(idm, rows, m, n).t;
    forall k, i, j | 0 <= k < m && 0 <= i < n && 0 <= j < n
      ensures t[k][i][j] == idm[k][i][j]
    {
      assert Cell(k, i, j) !in NewRuleCells(0, m, n);
    }
    forall j | 0 <= j < n
      ensures t[0][n][j] == 0
    {
      assert Cell(0, n, j) !in NewRuleCells(0, m, n);
    }
    AppendProduct(pm, idm, t, m, n);
  }

  /** Appending a rule keeps the matrices equal to a full rebuild: the old
      pairs keep their codes, the new column is freshly classified, and the
      new product column is computed from it. */
  lemma AppendRuleConsistent(rs: RuleSet, row: seq<Value>)
    requires Consistent(rs) && |row| == rs.m && rs.n > 0
    ensures var s := AppendRule(rs, row); s.raised.None? ==> Consistent(s.rs)
  {
    var s := AppendRule(rs, row);
    if s.raised.None? && rs.idm != [] {
      AppendExact(rs, row);
    }
  }

  /** Adding a rule keeps the matrices equal to a full rebuild. */
  lemma AddRuleConsistent(rs: RuleSet, rec: Value, vals: Option<seq<Value>>)
    requires Consistent(rs)
    ensures var s := AddRule(rs, rec, vals); s.raised.None? ==> Consistent(s.rs)
  {
    if rs.n > 0 {
      match vals
      case None => AppendRuleConsistent(rs, [rec] + seq(rs.m - 1, _ => Missing));
      case Some(vs) =>
        if |vs| == rs.m - 1 {
          AppendRuleConsistent(rs, [rec] + vs);
        }
    }
  }

  /** Deletes rule `rule`: an out-of-range index is refused before anything
      changes; otherwise the row is removed, the later rules move down by
      one, the rule's slices leave both rule axes of the built matrices, and
      both matrices become unbuilt when fewer than two rules remain. */
  function DeleteRule(rs: RuleSet, rule: int): (s: Step)
    requires WellShaped(rs)
    ensures WellShaped(s.rs)
    ensures rule < 0 || rule >= rs.n ==> s == Step(rs, Some(ValueError))
    ensures 0 <= rule < rs.n ==> (s.raised.None? && s.rs.n == rs.n - 1
              && s.rs.rows == RemoveAt(rs.rows, rule) && s.rs.names == rs.names && s.rs.m == rs.m)
    ensures 0 <= rule < rs.n && rs.n - 1 > 1 ==> (s.rs.idm == []) == (rs.idm == []) && (s.rs.pm == []) == (rs.pm == [])
    ensures 0 <= rule < rs.n && rs.n - 1 <= 1 ==> s.rs.idm == [] && s.rs.pm == []
    ensures 0 <= rule < rs.n && rs.n - 1 > 1 && rs.idm != [] ==>
              forall k, i, j :: 0 <= k < rs.m && 0 <= i < rs.n - 1 && 0 <= j < rs.n - 1 ==>
                s.rs.idm[k][i][j] == rs.idm[k][Shift(i, rule)][Shift(j, rule)]
    ensures 0 <= rule < rs.n && rs.n - 1 > 1 && rs.pm != [] ==>
              forall i, j :: 0 <= i < rs.n - 1 && 0 <= j < rs.n - 1 ==>
                s.rs.pm[i][j] == rs.pm[Shift(i, rule)][Shift(j, rule)]
  {
    if rule < 0 || rule >= rs.n then Step(rs, Some(ValueError))
    else
      var n' := rs.n - 1;
      var rows' := RemoveAt(rs.rows, rule);
      var rs1 := rs.(rows := rows', n := n');
      if rs.idm == [] then Step(rs1, None)
      else if n' > 1 then
        var pm' := if rs.pm == [] then [] else RemoveMatrixRule(rs.pm, rs.n, rule);
        Step(rs1.(idm := RemoveRule(rs.idm, rs.n, rule), pm := pm'), None)
      else Step(rs1.(idm := [], pm := []), None)
  }

  /** Removing a rule's slices from a rebuild gives a rebuild of the table
      without that rule. */
  lemma RemoveRebuild(rows: Table, m: nat, idm: Tensor, rule: nat)
    requires Rect(rows, m) && rule < |rows| && |rows| > 1
    requires Classifies(rows, m) && IsRebuild(idm, rows, m)
    ensures Classifies(RemoveAt(rows, rule), m)
    ensures IsRebuild(RemoveRule(idm, |rows|, rule), RemoveAt(rows, rule), m)
  {
    var rows' := RemoveAt(rows, rule);
    var n' := |rows| - 1;
    forall k, i, j | 0 <= k < m && 0 <= i < n' && 0 <= j < n'
      ensures CellResult(rows', k, i, j) == CellResult(rows, k, Shift(i, rule), Shift(j, rule))
    {
      assert rows'[i] == rows[Shift(i, rule)] && rows'[j] == rows[Shift(j, rule)];
    }
    forall k, i, j | 0 <= k < m && 0 <= i < j < n'
      ensures CellResult(rows', k, i, j).Ok?
    {
      assert Shift(i, rule) < Shift(j, rule);
    }
  }

  /** Removing a rule from a product matrix and from its tensor keeps the
      one the product of the other. */
  lemma RemoveProduct(pm: Matrix, idm: Tensor, m: nat, n: nat, rule: nat)
    requires Shaped(idm, m, n) && IsProductOf(pm, idm, n) && rule < n
    ensures IsProductOf(RemoveMatrixRule(pm, n, rule), RemoveRule(idm, n, rule), n - 1)
  {
    var t := RemoveRule(idm, n, rule);
    forall i, j | 0 <= i < n - 1 && 0 <= j < n - 1
      ensures Codes(t, i, j) == Codes(idm, Shift(i, rule), Shift(j, rule))
    {
    }
  }

  /** Deleting a rule keeps the matrices equal to a full rebuild. */
  lemma DeleteRuleConsistent(rs: RuleSet, rule: int)
    requires Consistent(rs)
    ensures var s := DeleteRule(rs, rule); s.raised.None? ==> Consistent(s.rs)
  {
    if 0 <= rule < rs.n && rs.idm != [] && rs.n - 1 > 1 {
      RemoveRebuild(rs.rows, rs.m, rs.idm, rule);
      if rs.pm != [] {
        RemoveProduct(rs.pm, rs.idm, rs.m, rs.n, rule);
      }
    }
  }
}
