/** Integer matrices as sequences of rows, and the product both
    multiplication paths must compute. */
module Matrices {

  type Matrix = seq<seq<int>>

  /** The benchmark's dimensions: A is rowsA × colsA, B is colsA × colsB and
      the product C is rowsA × colsB. */
  datatype Dims = Dims(rowsA: nat, colsA: nat, colsB: nat)

  /** N_ROWS_A, N_COLS_A, N_COLS_B of both programs. */
  const Benchmark: Dims := Dims(50, 80, 50)

  predicate IsMatrix(m: Matrix, rows: nat, cols: nat) {
    |m| == rows && forall i :: 0 <= i < rows ==> |m[i]| == cols
  }

  /** A and B have the shapes the dimensions describe. */
  predicate Conforms(a: Matrix, b: Matrix, d: Dims) {
    IsMatrix(a, d.rowsA, d.colsA) && IsMatrix(b, d.colsA, d.colsB)
  }

  /** np.zeros((rows, cols)). */
  function Zeros(rows: nat, cols: nat): (z: Matrix)
    ensures IsMatrix(z, rows, cols)
    ensures forall i, j :: 0 <= i < rows && 0 <= j < cols ==> z[i][j] == 0
  {
    seq(rows, i requires 0 <= i < rows => seq(cols, j requires 0 <= j < cols => 0))
  }

  /** Dot product, accumulated in ascending index order: the sum of the first
      n - 1 terms, then the last term added. */
  function Dot(u: seq<int>, v: seq<int>): int
    requires |u| == |v|
    decreases |u|
  {
    if |u| == 0 then 0 else Dot(u[..|u| - 1], v[..|v| - 1]) + u[|u| - 1] * v[|v| - 1]
  }

  /** Every row of b has a column j. */
  predicate HasColumn(b: Matrix, j: int) {
    0 <= j && forall k :: 0 <= k < |b| ==> j < |b[k]|
  }

  /** Column j of b. */
  function Column(b: Matrix, j: int): (col: seq<int>)
    requires HasColumn(b, j)
    ensures |col| == |b|
    ensures forall k :: 0 <= k < |b| ==> col[k] == b[k][j]
  {
    seq(|b|, k requires 0 <= k < |b| => b[k][j])
  }

  /** Σ_k a[i][k] · b[k][j]: entry (i, j) of the product. */
  function Entry(a: Matrix, b: Matrix, i: int, j: int): int
    requires 0 <= i < |a|
    requires HasColumn(b, j)
    requires |a[i]| == |b|
  {
    Dot(a[i], Column(b, j))
  }

  /** The rowsA × colsB product of conforming a and b. */
  function Product(a: Matrix, b: Matrix, d: Dims): (c: Matrix)
    requires Conforms(a, b, d)
    ensures IsMatrix(c, d.rowsA, d.colsB)
    ensures forall i, j :: 0 <= i < d.rowsA && 0 <= j < d.colsB ==> c[i][j] == Entry(a, b, i, j)
  {
    seq(d.rowsA, i requires 0 <= i < d.rowsA =>
      seq(d.colsB, j requires 0 <= j < d.colsB => Entry(a, b, i, j)))
  }

  /** Two matrices of the same shape that agree on every cell are equal. */
  lemma MatrixExt(m: Matrix, n: Matrix, rows: nat, cols: nat)
    requires IsMatrix(m, rows, cols) && IsMatrix(n, rows, cols)
    requires forall i, j :: 0 <= i < rows && 0 <= j < cols ==> m[i][j] == n[i][j]
    ensures m == n
  {
    forall i | 0 <= i < rows ensures m[i] == n[i] {
    }
  }
}
