/** Adding, deleting and renaming attributes with maintenance of the tensor
    and the product matrix. */
module AttrEdits {
  import opened Outcomes
  import opened Values
  import opened RelationCodes
  import opened Aggregation
  import opened Tensors
  import opened Classification
  import opened RuleSets
  import RuleEdits

  /** The layer the source appends for an attribute whose values are all
      missing: 1 on the pairs `i < j` with `i >= first`, 0 elsewhere. */
  function OnesLayer(n: nat, first: nat): (mx: Matrix)
    ensures Square(mx, n)
    ensures forall i, j :: 0 <= i < n && 0 <= j < n ==> mx[i][j] == if first <= i < j then 1 else 0
  {
    seq(n, i requires 0 <= i < n => seq(n, j requires 0 <= j < n => if first <= i < j then 1 else 0))
  }

  /** The table with one more column holding `col[r]` in row `r`. */
  function AppendColumn(rows: Table, col: seq<Value>): (rows': Table)
    requires |col| == |rows|
    ensures |rows'| == |rows|
    ensures forall r :: 0 <= r < |rows| ==> rows'[r] == rows[r] + [col[r]]
  {
    seq(|rows|, r requires 0 <= r < |rows| => rows[r] + [col[r]])
  }

  /** The tensor with one more layer, classified pair by pair from the
      table's new last column until the first type error. */
  function ClassifyColumn(idm: Tensor, rows: Table, m: nat, n: nat): (f: Filled)
    requires Shaped(idm, m, n) && |rows| == n && Rect(rows, m + 1)
    ensures Shaped(f.t, m + 1, n)
    ensures forall k, i, j :: 0 <= k < m && 0 <= i < n && 0 <= j < n ==> f.t[k][i][j] == idm[k][i][j]
    ensures f.ok <==> forall i, j :: 0 <= i < j < n ==> CellResult(rows, m, i, j).Ok?
    ensures forall i, j :: 0 <= j <= i < n ==> f.t[m][i][j] == 0
    ensures f.ok ==> forall i, j :: 0 <= i < j < n ==> f.t[m][i][j] == CellCode(rows, m, i, j)
  {
    var f := Fill(idm + [ZeroMatrix(n)], rows, PairsFrom(m, 0, n));
    ColumnShape(idm, rows, m, n);
    ColumnKeepsLayers(idm, rows, m, n);
    ColumnSucceeds(idm, rows, m, n);
    ColumnLowerZero(idm, rows, m, n);
    ColumnCodes(idm, rows, m, n);
    f
  }

  lemma ColumnShape(idm: Tensor, rows: Table, m: nat, n: nat)
    requires Shaped(idm, m, n)
    ensures Shaped(Fill(idm + [ZeroMatrix(n)], rows, PairsFrom(m, 0, n)).t, m + 1, n)
  {
    var t := idm + [ZeroMatrix(n)];
    SameShapeShaped(t, Fill(t, rows, PairsFrom(m, 0, n)).t, m + 1, n);
  }

  lemma ColumnKeepsLayers(idm: Tensor, rows: Table, m: nat, n: nat)
    requires Shaped(idm, m, n)
    ensures var f := Fill(idm + [ZeroMatrix(n)], rows, PairsFrom(m, 0, n));
            forall k, i, j :: 0 <= k < m && 0 <= i < n && 0 <= j < n ==> f.t[k][i][j] == idm[k][i][j]
  {
    var t := idm + [ZeroMatrix(n)];
    var cells := PairsFrom(m, 0, n);
    var f := Fill(t, rows, cells);
    forall k, i, j | 0 <= k < m && 0 <= i < n && 0 <= j < n
      ensures f.t[k][i][j] == idm[k][i][j]
    {
      assert Cell(k, i, j) !in cells;
      assert t[k] == idm[k];
    }
  }

  lemma ColumnSucceeds(idm: Tensor, rows: Table, m: nat, n: nat)
    ensures Fill(idm + [ZeroMatrix(n)], rows, PairsFrom(m, 0, n)).ok <==>
            forall i, j :: 0 <= i < j < n ==> CellResult(rows, m, i, j).Ok?
  {
    var cells := PairsFrom(m, 0, n);
    if Fill(idm + [ZeroMatrix(n)], rows, cells).ok {
      forall i, j | 0 <= i < j < n
        ensures CellResult(rows, m, i, j).Ok?
      {
        assert Cell(m, i, j) in cells;
      }
    }
  }

  lemma ColumnLowerZero(idm: Tensor, rows: Table, m: nat, n: nat)
    requires Shaped(idm, m, n)
    ensures var f := Fill(idm + [ZeroMatrix(n)], rows, PairsFrom(m, 0, n));
            forall i, j :: 0 <= j <= i < n ==> Fits(f.t, Cell(m, i, j)) && f.t[m][i][j] == 0
  {
    var t := idm + [ZeroMatrix(n)];
    var cells := PairsFrom(m, 0, n);
    ColumnShape(idm, rows, m, n);
    var f := Fill(t, rows, cells);
    forall i, j | 0 <= j <= i < n
      ensures Fits(f.t, Cell(m, i, j)) && f.t[m][i][j] == 0
    {
      assert Cell(m, i, j) !in cells;
      assert t[m][i][j] == 0;
    }
  }

  lemma ColumnCodes(idm: Tensor, rows: Table, m: nat, n: nat)
    requires Shaped(idm, m, n)
    ensures var f := Fill(idm + [ZeroMatrix(n)], rows, PairsFrom(m, 0, n));
            f.ok ==> forall i, j :: 0 <= i < j < n ==> Fits(f.t, Cell(m, i, j)) && f.t[m][i][j] == CellCode(rows, m, i, j)
  {
    var t := idm + [ZeroMatrix(n)];
    var cells := PairsFrom(m, 0, n);
    ColumnShape(idm, rows, m, n);
    var f := Fill(t, rows, cells);
    if f.ok {
      forall i, j | 0 <= i < j < n
        ensures Fits(f.t, Cell(m, i, j)) && f.t[m][i][j] == CellCode(rows, m, i, j)
      {
        assert Cell(m, i, j) in cells;
      }
    }
  }

  /** The rule set after `name` is appended with the all-missing column,
      the new layer filled with 1 on the pairs `i < j` with `i >= first`. */
  function AddMissingColumn(rs: RuleSet, name: string, first: nat): (rs': RuleSet)
    requires WellShaped(rs) && rs.n > 0 && name != "" && name !in rs.names
    ensures WellShaped(rs')
    ensures rs'.rows == AppendColumn(rs.rows, seq(rs.n, _ => Missing))
    ensures rs'.names == rs.names + [name] && rs'.m == rs.m + 1 && rs'.n == rs.n && rs'.pm == rs.pm
    ensures rs.idm == [] ==> rs'.idm == []
    ensures rs.idm != [] ==> rs'.idm == rs.idm + [OnesLayer(rs.n, first)]
  {
    var rows' := AppendColumn(rs.rows, seq(rs.n, _ => Missing));
    var idm' := if rs.idm == [] then [] else rs.idm + [OnesLayer(rs.n, first)];
    var names' := rs.names + [name];
    assert Distinct(names');
    rs.(rows := rows', names := names', m := rs.m + 1, idm := idm')
  }

  /** The outcome of appending `name` with the values `vs`: a type error
      among them leaves only the new column behind; otherwise the new layer
      holds their classification and the product matrix, when built, is
      recomputed. */
  function AddValuedColumn(rs: RuleSet, name: string, vs: seq<Value>): (s: Step)
    requires WellShaped(rs) && rs.n > 0 && name != "" && name !in rs.names && |vs| == rs.n
    ensures s.rs.rows == AppendColumn(rs.rows, vs)
    ensures s.raised.Some? ==> s.raised == Some(TypeError) && rs.idm != [] && s.rs == rs.(rows := s.rs.rows)
    ensures s.raised.None? ==> && WellShaped(s.rs) && s.rs.names == rs.names + [name]
                               && s.rs.m == rs.m + 1 && s.rs.n == rs.n
                               && (s.rs.idm == []) == (rs.idm == []) && (s.rs.pm == []) == (rs.pm == [])
    ensures rs.idm != [] ==> (s.raised.None? <==>
              forall i, j :: 0 <= i < j < rs.n ==> CellResult(s.rs.rows, rs.m, i, j).Ok?)
    ensures rs.idm != [] && s.raised.None? ==> s.rs.idm == ClassifyColumn(rs.idm, s.rs.rows, rs.m, rs.n).t
    ensures rs.idm != [] && s.raised.None? ==>
              && |s.rs.idm| == rs.m + 1
              && (forall k, i, j :: 0 <= k < rs.m && 0 <= i < rs.n && 0 <= j < rs.n ==> s.rs.idm[k][i][j] == rs.idm[k][i][j])
              && forall i, j :: 0 <= i < j < rs.n ==> s.rs.idm[rs.m][i][j] == CellCode(s.rs.rows, rs.m, i, j)
    ensures rs.pm != [] && s.raised.None? ==> IsProductOf(s.rs.pm, s.rs.idm, rs.n)
  {
    var rows' := AppendColumn(rs.rows, vs);
    var names' := rs.names + [name];
    assert Distinct(names');
    if rs.idm == [] then Step(rs.(rows := rows', names := names', m := rs.m + 1), None)
    else
      var f := ClassifyColumn(rs.idm, rows', rs.m, rs.n);
      if !f.ok then Step(rs.(rows := rows'), Some(TypeError))
      else
        var pm' := if rs.pm == [] then [] else PmOf(f.t, rs.n);
        Step(rs.(rows := rows', names := names', m := rs.m + 1, idm := f.t, pm := pm'), None)
  }

  /** `add_attr` with the all-missing layer filled from row `first` on: the
      source starts that loop at row 1 (`AddAttrAsWritten`); `AddAttr`
      starts it at row 0. */
  function AddAttrFrom(rs: RuleSet, name: string, vals: Option<seq<Value>>, first: nat): (s: Step)
    requires WellShaped(rs)
  {
    if rs.n == 0 || name == "" || name in rs.names then Step(rs, Some(ValueError))
    else match vals
      case None => Step(AddMissingColumn(rs, name, first), None)
      case Some(vs) => if |vs| != rs.n then Step(rs, Some(ValueError)) else AddValuedColumn(rs, name, vs)
  }

  /** `add_attr` as the source writes it. */
  function AddAttrAsWritten(rs: RuleSet, name: string, vals: Option<seq<Value>>): (s: Step)
    requires WellShaped(rs)
    ensures rs.n > 0 && name != "" && name !in rs.names && vals.None? && rs.idm != [] ==>
              s.raised.None? && s.rs.idm == rs.idm + [OnesLayer(rs.n, 1)] && s.rs.pm == rs.pm
  {
    AddAttrFrom(rs, name, vals, 1)
  }

  /** Adds attribute `name` (all missing, or the given values) at the end.
      A failed name or length check changes nothing; a type error among the
      given values leaves the new column in the table but the attribute
      count, the names and the matrices as they were. */
  function AddAttr(rs: RuleSet, name: string, vals: Option<seq<Value>>): (s: Step)
    requires WellShaped(rs)
    ensures rs.n == 0 || name == "" || name in rs.names ==> s == Step(rs, Some(ValueError))
    ensures vals.Some? && |vals.value| != rs.n ==> s == Step(rs, Some(ValueError))
    ensures s.raised.None? ==> && WellShaped(s.rs) && s.rs.n == rs.n && s.rs.m == rs.m + 1
                               && s.rs.names == rs.names + [name]
                               && s.rs.rows == AppendColumn(rs.rows, if vals.Some? then vals.value else seq(rs.n, _ => Missing))
    ensures s.raised == Some(TypeError) ==> && vals.Some? && rs.idm != []
                                            && s.rs == rs.(rows := AppendColumn(rs.rows, vals.value))
    ensures vals.None? && rs.n > 0 && name != "" && name !in rs.names ==> s.raised.None? && s.rs.pm == rs.pm
    ensures vals.None? && rs.n > 0 && name != "" && name !in rs.names ==>
              s.rs.idm == if rs.idm == [] then [] else rs.idm + [OnesLayer(rs.n, 0)]
    ensures vals.Some? && |vals.value| == rs.n && rs.n > 0 && name != "" && name !in rs.names ==>
              if rs.idm == [] then s.raised.None?
              else (s.raised.None? <==>
                forall i, j :: 0 <= i < j < rs.n ==> CellResult(AppendColumn(rs.rows, vals.value), rs.m, i, j).Ok?)
    ensures vals.Some? && s.raised.None? && rs.idm != [] ==>
              && |s.rs.idm| == rs.m + 1
              && (forall k, i, j :: 0 <= k < rs.m && 0 <= i < rs.n && 0 <= j < rs.n ==> s.rs.idm[k][i][j] == rs.idm[k][i][j])
              && forall i, j :: 0 <= i < j < rs.n ==> s.rs.idm[rs.m][i][j] == CellCode(s.rs.rows, rs.m, i, j)
    ensures vals.Some? && s.raised.None? && rs.pm != [] ==> IsProductOf(s.rs.pm, s.rs.idm, rs.n)
  {
    AddAttrFrom(rs, name, vals, 0)
  }

  /** Appending a last code multiplies the product by it. */
  lemma {:induction false} ProductAppend(cs: seq<int>, x: int)
    ensures Product(cs + [x]) == Product(cs) * x
  {
    if |cs| > 0 {
      assert (cs + [x])[1..] == cs[1..] + [x];
      ProductAppend(cs[1..], x);
    }
  }

  /** Appending an all-missing attribute keeps the matrices equal to a full
      rebuild: the new layer is EQUALITY on every pair, which leaves every
      product unchanged. */
  lemma AddMissingAttrConsistent(rs: RuleSet, name: string)
    requires Consistent(rs)
    ensures var s := AddAttr(rs, name, None); s.raised.None? ==> Consistent(s.rs)
  {
    var s := AddAttr(rs, name, None);
    if s.raised.None? && rs.idm != [] {
      MissingColumnRebuild(rs.idm, rs.rows, rs.m, rs.n);
      if rs.pm != [] {
        OnesProduct(rs.pm, rs.idm, rs.rows, rs.m, rs.n);
      }
    }
  }

  /** A rebuild of the table extended by the all-missing column is the old
      rebuild with the layer of ones on every pair `i < j`. */
  lemma MissingColumnRebuild(idm: Tensor, rows: Table, m: nat, n: nat)
    requires |rows| == n && m >= 1 && Rect(rows, m) && Classifies(rows, m) && IsRebuild(idm, rows, m)
    ensures var rows' := AppendColumn(rows, seq(n, _ => Missing));
            Classifies(rows', m + 1) && IsRebuild(idm + [OnesLayer(n, 0)], rows', m + 1)
  {
    var rows' := AppendColumn(rows, seq(n, _ => Missing));
    var t := idm + [OnesLayer(n, 0)];
    forall k, i, j | 0 <= k < m + 1 && 0 <= i < n && 0 <= j < n
      ensures CellResult(rows', k, i, j) == if k < m then CellResult(rows, k, i, j)
                                            else if i < j then Ok(EQUALITY) else Ok(0)
    {
      assert rows'[i] == rows[i] + [Missing] && rows'[j] == rows[j] + [Missing];
    }
    forall k, i, j | 0 <= k < m + 1 && 0 <= i < n && 0 <= j < n
      ensures t[k][i][j] == CellCode(rows', k, i, j)
    {
      if k < m {
        assert t[k] == idm[k];
      }
    }
  }

  /** Appending the layer of ones leaves the product of every pair
      unchanged: `i < j` multiplies by 1, and every other pair's product is
      already zero through its recommendation layer. */
  lemma OnesProduct(pm: Matrix, idm: Tensor, rows: Table, m: nat, n: nat)
    requires |rows| == n && m >= 1 && IsRebuild(idm, rows, m) && IsProductOf(pm, idm, n)
    ensures IsProductOf(pm, idm + [OnesLayer(n, 0)], n)
  {
    var t := idm + [OnesLayer(n, 0)];
    forall i, j | 0 <= i < n && 0 <= j < n
      ensures pm[i][j] == Product(Codes(t, i, j))
    {
      assert Codes(t, i, j) == Codes(idm, i, j) + [t[m][i][j]];
      ProductAppend(Codes(idm, i, j), t[m][i][j]);
      if j <= i {
        assert Codes(idm, i, j)[0] == CellCode(rows, 0, i, j) == 0;
        RuleEdits.ProductWithZero(Codes(idm, i, j), 0);
      }
    }
  }

  /** Appending an attribute with given values keeps the matrices equal to
      a full rebuild. */
  lemma AddValuedAttrConsistent(rs: RuleSet, name: string, vs: seq<Value>)
    requires Consistent(rs)
    ensures var s := AddAttr(rs, name, Some(vs)); s.raised.None? ==> Consistent(s.rs)
  {
    var s := AddAttr(rs, name, Some(vs));
    if s.raised.None? && rs.idm != [] {
      ColumnRebuild(rs.idm, rs.rows, vs, rs.m, rs.n);
    }
  }

  /** A completed classification of a new column extends a rebuild of the
      table to a rebuild of the table with that column. */
  lemma ColumnRebuild(idm: Tensor, rows: Table, col: seq<Value>, m: nat, n: nat)
    requires Rect(rows, m) && |rows| == n && |col| == n
    requires Classifies(rows, m) && IsRebuild(idm, rows, m)
    requires ClassifyColumn(idm, AppendColumn(rows, col), m, n).ok
    ensures Classifies(AppendColumn(rows, col), m + 1)
    ensures IsRebuild(ClassifyColumn(idm, AppendColumn(rows, col), m, n).t, AppendColumn(rows, col), m + 1)
  {
    var rows' := AppendColumn(rows, col);
    AppendColumnKeeps(rows, col, m);
    var f := ClassifyColumn(idm, rows', m, n);
    forall k, i, j | 0 <= k < m + 1 && 0 <= i < n && 0 <= j < n
      ensures f.t[k][i][j] == CellCode(rows', k, i, j)
    {
      if k < m {
        assert f.t[k][i][j] == idm[k][i][j];
      }
    }
  }

  /** Appending a column leaves the classification of the earlier columns
      as it was. */
  lemma AppendColumnKeeps(rows: Table, col: seq<Value>, m: nat)
    requires Rect(rows, m) && |col| == |rows|
    ensures forall k, i, j :: 0 <= k < m && 0 <= i < |rows| && 0 <= j < |rows| ==>
              CellResult(AppendColumn(rows, col), k, i, j) == CellResult(rows, k, i, j)
  {
    var rows' := AppendColumn(rows, col);
    forall k, i, j | 0 <= k < m && 0 <= i < |rows| && 0 <= j < |rows|
      ensures CellResult(rows', k, i, j) == CellResult(rows, k, i, j)
    {
      assert rows'[i][k] == rows[i][k] && rows'[j][k] == rows[j][k];
    }
  }

  /** The column `delete_attr` resolves a reference to, as the source
      writes it: position 0 and the two recommendation names are refused,
      other positions are checked against the table and other names are
      looked up. Nothing refuses a different name that column 0 may carry. */
  function ColumnToDeleteAsWritten(names: seq<string>, attr: AttrRef): (x: Result<nat>)
    ensures attr == Index(0) || attr == Name("Rec") || attr == Name("Recommendation") ==> x == Err(ValueError)
    ensures x.Err? ==> x.error == ValueError
    ensures x.Ok? <==> match attr
                         case Index(i) => 0 < i < |names|
                         case Name(nm) => !IsRecName(nm) && nm in names
    ensures x.Ok? ==> x.value < |names| && match attr
                        case Index(i) => i == x.value
                        case Name(nm) => names[x.value] == nm && forall y :: 0 <= y < x.value ==> names[y] != nm
  {
    if attr == Index(0) || attr == Name("Rec") || attr == Name("Recommendation") then Err(ValueError)
    else match attr
      case Index(i) => if i < 0 || i >= |names| then Err(ValueError) else Ok(i)
      case Name(nm) => if nm !in names then Err(ValueError) else Ok(IndexOf(names, nm))
  }

  /** The resolution the refusal message intends: whatever designates
      column 0 is refused, whatever that column is called, so the
      recommendation is never chosen for deletion. */
  function ColumnToDelete(names: seq<string>, attr: AttrRef): (x: Result<nat>)
    ensures x.Err? ==> x.error == ValueError
    ensures x.Ok? ==> 1 <= x.value < |names|
    ensures x.Ok? <==> match attr
                         case Index(i) => 0 < i < |names|
                         case Name(nm) => !IsRecName(nm) && nm in names && nm != names[0]
    ensures x.Ok? ==> match attr
                        case Index(i) => i == x.value
                        case Name(nm) => names[x.value] == nm
  {
    var y := ColumnToDeleteAsWritten(names, attr);
    if y.Ok? && y.value == 0 then Err(ValueError) else y
  }

  /** While column 0 carries one of the recommendation names, as the class
      invariant demands, the corrected resolution is the source's. */
  lemma ColumnToDeleteAgrees(names: seq<string>, attr: AttrRef)
    requires |names| > 0 ==> IsRecName(names[0])
    ensures ColumnToDelete(names, attr) == ColumnToDeleteAsWritten(names, attr)
  {
  }

  /** The column an attribute reference designates for deletion: position 0
      and the recommendation's names are refused, as are positions outside
      the table and unknown names. */
  function DeletableColumn(rs: RuleSet, attr: AttrRef): (x: Result<nat>)
    requires WellShaped(rs)
    ensures attr == Index(0) || attr == Name("Rec") || attr == Name("Recommendation") ==> x == Err(ValueError)
    ensures attr.Index? && (attr.i < 0 || attr.i >= rs.m) ==> x == Err(ValueError)
    ensures attr.Name? && attr.s !in rs.names ==> x == Err(ValueError)
    ensures x.Err? ==> x.error == ValueError
    ensures x.Ok? ==> 1 <= x.value < rs.m
    ensures x.Ok? ==> match attr
                        case Index(i) => i == x.value
                        case Name(nm) => rs.names[x.value] == nm
    ensures x == ColumnToDeleteAsWritten(rs.names, attr)
  {
    ColumnToDeleteAgrees(rs.names, attr);
    ColumnToDelete(rs.names, attr)
  }

  /** The rule set without column `x` (never the recommendation). */
  function RemoveColumn(rs: RuleSet, x: nat): (rs': RuleSet)
    requires WellShaped(rs) && 1 <= x < rs.m
    ensures WellShaped(rs')
    ensures rs'.names == RemoveAt(rs.names, x) && rs'.m == rs.m - 1 && rs'.n == rs.n
    ensures forall r :: 0 <= r < rs.n ==> rs'.rows[r] == RemoveAt(rs.rows[r], x)
    ensures rs.idm != [] ==> rs'.idm == RemoveAt(rs.idm, x)
    ensures rs.idm == [] ==> rs'.idm == []
    ensures rs.pm != [] ==> IsProductOf(rs'.pm, rs'.idm, rs.n)
    ensures rs.pm == [] ==> rs'.pm == []
  {
    var rows' := seq(rs.n, r requires 0 <= r < rs.n => RemoveAt(rs.rows[r], x));
    var idm' := if rs.idm == [] then [] else RemoveAt(rs.idm, x);
    var pm' := if rs.pm == [] then [] else PmOf(idm', rs.n);
    var names' := RemoveAt(rs.names, x);
    assert Distinct(names') by {
      forall a, b | 0 <= a < b < |names'|
        ensures names'[a] != names'[b]
      {
        assert Shift(a, x) < Shift(b, x);
      }
    }
    rs.(rows := rows', names := names', m := rs.m - 1, idm := idm', pm := pm')
  }

  /** Deletes an attribute given by position or name. The recommendation
      can never be deleted; unknown positions and names are refused;
      otherwise the column and its tensor layer go, and the product matrix,
      when built, is recomputed from the remaining layers. */
  function DeleteAttr(rs: RuleSet, attr: AttrRef): (s: Step)
    requires WellShaped(rs)
    ensures s.raised.None? <==> DeletableColumn(rs, attr).Ok?
    ensures s.raised.Some? ==> s == Step(rs, Some(ValueError))
    ensures s.raised.None? ==> s.rs == RemoveColumn(rs, DeletableColumn(rs, attr).value)
  {
    match DeletableColumn(rs, attr)
      case Err(e) => Step(rs, Some(e))
      case Ok(x) => Step(RemoveColumn(rs, x), None)
  }

  /** Removing a column keeps the matrices equal to a full rebuild. */
  lemma RemoveColumnConsistent(rs: RuleSet, x: nat)
    requires Consistent(rs) && 1 <= x < rs.m
    ensures Consistent(RemoveColumn(rs, x))
  {
    var rs' := RemoveColumn(rs, x);
    if rs.idm != [] {
      forall k, i, j | 0 <= k < rs.m - 1 && 0 <= i < rs.n && 0 <= j < rs.n
        ensures CellResult(rs'.rows, k, i, j) == CellResult(rs.rows, Shift(k, x), i, j)
      {
        assert rs'.rows[i][k] == rs.rows[i][Shift(k, x)];
        if i < j {
          assert rs'.rows[j][k] == rs.rows[j][Shift(k, x)];
        }
      }
    }
  }

  /** Deleting an attribute keeps a consistent rule set consistent. */
  lemma DeleteAttrConsistent(rs: RuleSet, attr: AttrRef)
    requires Consistent(rs)
    ensures Consistent(DeleteAttr(rs, attr).rs)
  {
    if DeletableColumn(rs, attr).Ok? {
      RemoveColumnConsistent(rs, DeletableColumn(rs, attr).value);
    }
  }

  /** Renames all attributes at once. Names must be non-empty and pairwise
      different, the first must be "Rec" or "Recommendation", and there must
      be exactly one per column; the matrices are never touched. */
  function UpdateAttr(rs: RuleSet, names: seq<string>): (s: Step)
    requires WellShaped(rs)
    ensures s.raised.None? <==> && "" !in names && Distinct(names) && |names| > 0
                                && IsRecName(names[0]) && |names| == rs.m
    ensures s.raised.None? ==> s.rs == rs.(names := names) && WellShaped(s.rs)
    ensures s.raised.Some? ==> s.rs == rs
    ensures |names| == 0 ==> s.raised == Some(IndexError)
    ensures |names| > 0 && s.raised.Some? ==> s.raised == Some(ValueError)
  {
    if "" in names || !Distinct(names) then Step(rs, Some(ValueError))
    else if |names| == 0 then Step(rs, Some(IndexError))
    else if !IsRecName(names[0]) || |names| != rs.m then Step(rs, Some(ValueError))
    else Step(rs.(names := names), None)
  }

  /** Renaming keeps a consistent rule set consistent. */
  lemma UpdateAttrConsistent(rs: RuleSet, names: seq<string>)
    requires Consistent(rs)
    ensures var s := UpdateAttr(rs, names); Consistent(s.rs)
  {
  }
}

/** The all-missing attribute layer as the source fills it, from row 1 on,
    against the corrected fill from row 0. */
module AddAttrFinding {
  import opened Outcomes
  import opened Values
  import opened RelationCodes
  import opened Aggregation
  import opened Tensors
  import opened Classification
  import opened RuleSets
  import opened AttrEdits

  /** For every consistent rule set with a built tensor, the source's fill
      leaves a 0 (DIFFERENCE) between rules 0 and 1 in the new layer, where
      a rebuild classifies the two missing values as EQUALITY; so the
      result is no longer consistent. */
  lemma AddAttrAsWrittenDiverges(rs: RuleSet, name: string)
    requires Consistent(rs) && rs.idm != []
    requires name != "" && name !in rs.names
    ensures var s := AddAttrAsWritten(rs, name, None);
            && s.raised.None?
            && s.rs.idm[rs.m][0][1] == DIFFERENCE
            && CellCode(s.rs.rows, rs.m, 0, 1) == EQUALITY
            && !Consistent(s.rs)
  {
    var s := AddAttrAsWritten(rs, name, None);
    assert s.rs.idm[rs.m] == OnesLayer(rs.n, 1);
    assert s.rs.rows[0][rs.m] == Missing && s.rs.rows[1][rs.m] == Missing;
  }

  /** Two rules that agree on their recommendation. */
  function TwinRules(): (rs: RuleSet)
    ensures Consistent(rs)
  {
    var rows := [[Text("a")], [Text("a")]];
    var idm := [[[0, 1], [0, 0]]];
    assert CellCode(rows, 0, 0, 1) == SAME_REC;
    assert Product(Codes(idm, 0, 1)) == 1;
    RuleSet(rows, ["Rec"], 1, 2, idm, [[0, 1], [0, 0]])
  }

  /** After an all-missing attribute is added and the product matrix is
      rebuilt, the source reports the twin rules as disconnected; the
      corrected fill reports them equal with the same recommendation. */
  lemma TwinRulesAfterAddAttr()
    ensures var s := AddAttrAsWritten(TwinRules(), "x", None);
            s.raised.None? && ConnectionOf(BuildPM(s.rs).0, 0, 1) == Ok(Disconnected)
    ensures var s := AddAttr(TwinRules(), "x", None);
            s.raised.None? && ConnectionOf(BuildPM(s.rs).0, 0, 1) == Ok(EqualSame)
  {
    var rs := TwinRules();
    var w := AddAttrAsWritten(rs, "x", None);
    assert Codes(w.rs.idm, 0, 1) == [1, 0];
    assert Product([1, 0]) == 0;
    var c := AddAttr(rs, "x", None);
    AddMissingAttrConsistent(rs, "x");
    assert Codes(c.rs.idm, 0, 1) == [1, 1];
    assert Product([1, 1]) == 1;
  }
}

/** `delete_attr` refuses the recommendation only by position 0 and by the
    two names "Rec" and "Recommendation", while the constructor accepts any
    name for column 0. */
module DeleteAttrFinding {
  import opened Outcomes
  import opened RuleSets
  import opened AttrEdits

  /** Whenever column 0 carries another name, deleting by that name
      resolves to column 0, the recommendation, where the corrected
      resolution refuses with `ValueError`. */
  lemma AsWrittenSelectsRecommendation(names: seq<string>)
    requires |names| > 0 && !IsRecName(names[0])
    ensures ColumnToDeleteAsWritten(names, Name(names[0])) == Ok(0)
    ensures ColumnToDelete(names, Name(names[0])) == Err(ValueError)
  {
  }

  /** A concrete table header of that kind: "Outcome" then "Color". */
  lemma OutcomeColumnDeleted()
    ensures ColumnToDeleteAsWritten(["Outcome", "Color"], Name("Outcome")) == Ok(0)
    ensures ColumnToDelete(["Outcome", "Color"], Name("Outcome")) == Err(ValueError)
  {
    AsWrittenSelectsRecommendation(["Outcome", "Color"]);
  }
}
