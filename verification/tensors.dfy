/** The two numeric structures of a rule set: the inter-difference tensor
    `idm[attribute][rule][rule]` and the product matrix `pm[rule][rule]`,
    with the reshaping operations the maintenance code applies to them. */
module Tensors {
  import opened Aggregation

  /** One position `[k][i][j]` of a tensor. */
  datatype Cell = Cell(k: nat, i: nat, j: nat)

  type Matrix = seq<seq<int>>
  type Tensor = seq<Matrix>

  predicate Square(mx: Matrix, n: nat) {
    |mx| == n && forall i :: 0 <= i < n ==> |mx[i]| == n
  }

  predicate Shaped(t: Tensor, m: nat, n: nat) {
    |t| == m && forall k :: 0 <= k < m ==> Square(t[k], n)
  }

  predicate Fits(t: Tensor, c: Cell) {
    c.k < |t| && c.i < |t[c.k]| && c.j < |t[c.k][c.i]|
  }

  predicate SameShape(t: Tensor, u: Tensor) {
    && |t| == |u|
    && forall k :: 0 <= k < |t| ==>
         && |t[k]| == |u[k]|
         && forall i :: 0 <= i < |t[k]| ==> |t[k][i]| == |u[k][i]|
  }

  /** Shape is carried over between tensors of the same shape. */
  lemma SameShapeShaped(t: Tensor, u: Tensor, m: nat, n: nat)
    requires SameShape(u, t) && Shaped(t, m, n)
    ensures Shaped(u, m, n)
  {
    forall k | 0 <= k < m
      ensures Square(u[k], n)
    {
      assert |u[k]| == |t[k]|;
      forall i | 0 <= i < n
        ensures |u[k][i]| == n
      {
        assert |u[k][i]| == |t[k][i]|;
      }
    }
  }

  function ZeroMatrix(n: nat): (mx: Matrix)
    ensures Square(mx, n)
    ensures forall i, j :: 0 <= i < n && 0 <= j < n ==> mx[i][j] == 0
  {
    seq(n, i => seq(n, j => 0))
  }

  function Zeros(m: nat, n: nat): (t: Tensor)
    ensures Shaped(t, m, n)
    ensures forall k, i, j :: 0 <= k < m && 0 <= i < n && 0 <= j < n ==> t[k][i][j] == 0
  {
    seq(m, k => ZeroMatrix(n))
  }

  /** Deletion of one position of a sequence, closing the gap. */
  function RemoveAt<T>(s: seq<T>, x: nat): (r: seq<T>)
    requires x < |s|
    ensures |r| == |s| - 1
    ensures forall y :: 0 <= y < |r| ==> r[y] == s[if y < x then y else y + 1]
  {
    s[..x] + s[x + 1..]
  }

  /** The position in the old numbering of position `y` after removing `x`. */
  function Shift(y: nat, x: nat): nat {
    if y < x then y else y + 1
  }

  /** Deletion of rule `r` from both rule axes of every layer. */
  function RemoveRule(t: Tensor, n: nat, r: nat): (u: Tensor)
    requires Shaped(t, |t|, n) && r < n
    ensures Shaped(u, |t|, n - 1)
    ensures forall k, i, j :: 0 <= k < |t| && 0 <= i < n - 1 && 0 <= j < n - 1 ==>
              u[k][i][j] == t[k][Shift(i, r)][Shift(j, r)]
  {
    seq(|t|, k requires 0 <= k < |t| => RemoveMatrixRule(t[k], n, r))
  }

  /** Deletion of rule `r` from both axes of a square matrix. */
  function RemoveMatrixRule(mx: Matrix, n: nat, r: nat): (u: Matrix)
    requires Square(mx, n) && r < n
    ensures Square(u, n - 1)
    ensures forall i, j :: 0 <= i < n - 1 && 0 <= j < n - 1 ==> u[i][j] == mx[Shift(i, r)][Shift(j, r)]
  {
    RemoveAt(seq(n, i requires 0 <= i < n => RemoveAt(mx[i], r)), r)
  }

  /** A square matrix grown by one zero row and one zero column. */
  function GrowMatrix(mx: Matrix, n: nat): (u: Matrix)
    requires Square(mx, n)
    ensures Square(u, n + 1)
    ensures forall i, j :: 0 <= i < n + 1 && 0 <= j < n + 1 ==>
              u[i][j] == if i < n && j < n then mx[i][j] else 0
  {
    seq(n + 1, i requires 0 <= i < n + 1 =>
      seq(n + 1, j requires 0 <= j < n + 1 => if i < n && j < n then mx[i][j] else 0))
  }

  /** Every layer grown by one zero row and one zero column. */
  function GrowTensor(t: Tensor, n: nat): (u: Tensor)
    requires Shaped(t, |t|, n)
    ensures Shaped(u, |t|, n + 1)
    ensures forall k, i, j :: 0 <= k < |t| && 0 <= i < n + 1 && 0 <= j < n + 1 ==>
              u[k][i][j] == if i < n && j < n then t[k][i][j] else 0
  {
    seq(|t|, k requires 0 <= k < |t| => GrowMatrix(t[k], n))
  }

  /** The codes of the pair `(i, j)` across all layers, in layer order. */
  function Codes(t: Tensor, i: nat, j: nat): (cs: seq<int>)
    requires forall k :: 0 <= k < |t| ==> i < |t[k]| && j < |t[k][i]|
    ensures |cs| == |t|
    ensures forall k :: 0 <= k < |t| ==> cs[k] == t[k][i][j]
  {
    seq(|t|, k requires 0 <= k < |t| => t[k][i][j])
  }

  /** `pm` holds, for every pair, the product over all layers of `t`. */
  predicate IsProductOf(pm: Matrix, t: Tensor, n: nat)
    requires Shaped(t, |t|, n)
  {
    Square(pm, n) && forall i, j :: 0 <= i < n && 0 <= j < n ==> pm[i][j] == Product(Codes(t, i, j))
  }

  /** The product over the layer axis (`np.prod(idm, axis=0)`). */
  function PmOf(t: Tensor, n: nat): (pm: Matrix)
    requires Shaped(t, |t|, n)
    ensures IsProductOf(pm, t, n)
  {
    seq(n, i requires 0 <= i < n => seq(n, j requires 0 <= j < n => Product(Codes(t, i, j))))
  }
}
