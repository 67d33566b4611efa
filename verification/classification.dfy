/** Classification of table cells into tensor codes: what every tensor cell
    should hold for a given table (the full-rebuild reference), and the
    sequential write loop the source runs, which stops at the first type
    error and leaves the cells written so far in place. */
module Classification {
  import opened Outcomes
  import opened Values
  import opened RelationCodes
  import opened Classifier
  import opened Aggregation
  import opened Tensors

  type Table = seq<seq<Value>>

  /** Every row has `m` attribute values (the recommendation included). */
  predicate Rect(rows: Table, m: nat) {
    forall r :: 0 <= r < |rows| ==> |rows[r]| == m
  }

  /** The cell `[k][i][j]` can be classified from the table. */
  predicate Readable(rows: Table, c: Cell) {
    c.i < c.j < |rows| && c.k < |rows[c.i]| && c.k < |rows[c.j]|
  }

  /** Classification of tensor cell `[k][i][j]` from the table: the
      recommendation relation on layer 0, the value relation on the other
      layers, and 0 off the upper triangle. */
  function CellResult(rows: Table, k: nat, i: nat, j: nat): Result<int> {
    if Readable(rows, Cell(k, i, j)) then
      if k == 0 then Ok(RecIDC(rows[i][0], rows[j][0])) else ValIDC(rows[i][k], rows[j][k])
    else Ok(0)
  }

  /** The code a full rebuild stores in cell `[k][i][j]`. */
  function CellCode(rows: Table, k: nat, i: nat, j: nat): int {
    match CellResult(rows, k, i, j)
    case Ok(v) => v
    case Err(_) => 0
  }

  /** Every cell of the upper triangle classifies without a type error. */
  predicate Classifies(rows: Table, m: nat) {
    forall k, i, j :: 0 <= k < m && 0 <= i < j < |rows| ==> CellResult(rows, k, i, j).Ok?
  }

  /** `t` is what a full rebuild from `rows` produces. */
  predicate IsRebuild(t: Tensor, rows: Table, m: nat) {
    && Shaped(t, m, |rows|)
    && forall k, i, j :: 0 <= k < m && 0 <= i < |rows| && 0 <= j < |rows| ==>
         t[k][i][j] == CellCode(rows, k, i, j)
  }

  /** The codes a rebuilt tensor holds for a pair `i < j` are codes the
      classifiers can produce, so the decoder accepts their product. */
  lemma RebuildCodesValid(t: Tensor, rows: Table, m: nat, i: nat, j: nat)
    requires Rect(rows, m) && m >= 1 && IsRebuild(t, rows, m) && Classifies(rows, m)
    requires i < j < |rows|
    ensures ValidCodes(Codes(t, i, j))
  {
    var cs := Codes(t, i, j);
    assert cs[0] == CellCode(rows, 0, i, j);
    forall k | 1 <= k < |cs|
      ensures IsValueCode(cs[k])
    {
      assert cs[k] == CellCode(rows, k, i, j);
      assert CellResult(rows, k, i, j).Ok?;
    }
  }

  /** Outcome of the write loop: the tensor as left behind, and whether the
      loop ran to completion. */
  datatype Filled = Filled(t: Tensor, ok: bool)

  /** The number of listed cells the write loop gets through: the position
      of the first cell whose classification raises, or all of them. */
  function Completed(rows: Table, cells: seq<Cell>): (p: nat)
    ensures p <= |cells|
    ensures forall q :: 0 <= q < p ==> CellResult(rows, cells[q].k, cells[q].i, cells[q].j).Ok?
    ensures p < |cells| ==> CellResult(rows, cells[p].k, cells[p].i, cells[p].j).Err?
  {
    if |cells| == 0 then 0
    else if CellResult(rows, cells[0].k, cells[0].i, cells[0].j).Err? then 0
    else 1 + Completed(rows, cells[1..])
  }

  /** `t` with every cell listed in `done` holding its code. */
  function Overwrite(t: Tensor, rows: Table, done: seq<Cell>): (u: Tensor)
    ensures SameShape(u, t)
    ensures forall c :: Fits(t, c) ==> Fits(u, c)
    ensures forall k, i, j :: 0 <= k < |t| && 0 <= i < |t[k]| && 0 <= j < |t[k][i]| ==>
              u[k][i][j] == if Cell(k, i, j) in done then CellCode(rows, k, i, j) else t[k][i][j]
  {
    seq(|t|, k requires 0 <= k < |t| =>
      seq(|t[k]|, i requires 0 <= i < |t[k]| =>
        seq(|t[k][i]|, j requires 0 <= j < |t[k][i]| =>
          if Cell(k, i, j) in done then CellCode(rows, k, i, j) else t[k][i][j])))
  }

  /** The listed cells the write loop stores before it stops: all of them
      when every one classifies, and otherwise those before the first cell
      whose classification raises. */
  function Written(rows: Table, cells: seq<Cell>): (done: seq<Cell>)
    ensures forall c :: c in done ==> c in cells && CellResult(rows, c.k, c.i, c.j).Ok?
    ensures (forall c :: c in cells ==> CellResult(rows, c.k, c.i, c.j).Ok?) <==> done == cells
  {
    var p := Completed(rows, cells);
    assert forall c :: c in cells[..p] ==> exists q :: 0 <= q < p && cells[q] == c;
    if p < |cells| then
      assert cells[p] in cells && cells[p] !in cells[..p];
      cells[..p]
    else
      assert forall c :: c in cells ==> exists q :: 0 <= q < |cells| && cells[q] == c;
      cells
  }

  /** Writes the classification of each listed cell in order, stopping at
      the first cell whose classification raises a type error: the cells
      written so far hold their codes and every other cell is as before. */
  function Fill(t: Tensor, rows: Table, cells: seq<Cell>): (f: Filled)
    ensures SameShape(f.t, t)
    ensures f.ok <==> forall c :: c in cells ==> CellResult(rows, c.k, c.i, c.j).Ok?
    ensures f.ok ==> Written(rows, cells) == cells
    ensures forall k, i, j :: 0 <= k < |t| && 0 <= i < |t[k]| && 0 <= j < |t[k][i]| ==>
              f.t[k][i][j] == if Cell(k, i, j) in Written(rows, cells) then CellCode(rows, k, i, j) else t[k][i][j]
  {
    var done := Written(rows, cells);
    Filled(Overwrite(t, rows, done), done == cells)
  }

  /** Cells `[k][i][j]` for `j` from `j0` up to `n - 1` (one row of a layer). */
  function RowPairs(k: nat, i: nat, j0: nat, n: nat): (cs: seq<Cell>)
    ensures forall c :: c in cs <==> c.k == k && c.i == i && j0 <= c.j < n
    decreases n - j0
  {
    if j0 >= n then [] else [Cell(k, i, j0)] + RowPairs(k, i, j0 + 1, n)
  }

  /** Cells `[k][i][j]` with `i0 <= i < j < n`, row by row. */
  function PairsFrom(k: nat, i0: nat, n: nat): (cs: seq<Cell>)
    ensures forall c :: c in cs <==> c.k == k && i0 <= c.i < c.j < n
    decreases n - i0
  {
    if i0 >= n then [] else RowPairs(k, i0, i0 + 1, n) + PairsFrom(k, i0 + 1, n)
  }

  /** The upper triangles of layers `k0` up to `m - 1`, layer by layer. */
  function LayersFrom(k0: nat, m: nat, n: nat): (cs: seq<Cell>)
    ensures forall c :: c in cs <==> k0 <= c.k < m && c.i < c.j < n
    decreases m - k0
  {
    if k0 >= m then [] else PairsFrom(k0, 0, n) + LayersFrom(k0 + 1, m, n)
  }

  /** The order of a full build: value layers 1..m-1 first, then the
      recommendation layer. */
  function BuildOrder(m: nat, n: nat): (cs: seq<Cell>)
    requires m >= 1
    ensures forall c :: c in cs <==> c.k < m && c.i < c.j < n
  {
    LayersFrom(1, m, n) + PairsFrom(0, 0, n)
  }

  /** The cells of layer `k` that involve rule `r`, visiting the other rules
      `i` from `i0` upwards: `[k][i][r]` for `i < r` and `[k][r][i]` for
      `i > r`. */
  function StarCells(k: nat, r: nat, i0: nat, n: nat): (cs: seq<Cell>)
    ensures forall c :: c in cs <==>
              c.k == k && i0 <= (if c.j == r then c.i else c.j) < n && ((c.j == r && c.i < r) || (c.i == r && r < c.j))
    decreases n - i0
  {
    if i0 >= n then []
    else if i0 < r then [Cell(k, i0, r)] + StarCells(k, r, i0 + 1, n)
    else if i0 > r then [Cell(k, r, i0)] + StarCells(k, r, i0 + 1, n)
    else StarCells(k, r, i0 + 1, n)
  }

  /** The cells a new last rule `r` needs, attribute by attribute from `k0`:
      `[k][i][r]` for every earlier rule `i`. */
  function NewRuleCells(k0: nat, m: nat, r: nat): (cs: seq<Cell>)
    ensures forall c :: c in cs <==> k0 <= c.k < m && c.j == r && c.i < r
    decreases m - k0
  {
    if k0 >= m then [] else StarCells(k0, r, 0, r + 1) + NewRuleCells(k0 + 1, m, r)
  }
}
