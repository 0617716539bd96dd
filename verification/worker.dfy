/** worker(A, B, C, rs, re, cs, ce): C[rs:re, cs:ce] = A[rs:re, :] @ B[:, cs:ce]. */
module Workers {
  import opened Regions
  import opened Matrices

  /** A[rs:re, :]. */
  function RowSlice(a: Matrix, rs: int, re: int): (s: Matrix)
    requires 0 <= rs <= re <= |a|
    ensures |s| == re - rs
    ensures forall t :: 0 <= t < re - rs ==> s[t] == a[rs + t]
  {
    a[rs..re]
  }

  /** B[:, cs:ce]. */
  function ColSlice(b: Matrix, cs: int, ce: int): (s: Matrix)
    requires 0 <= cs <= ce
    requires forall k :: 0 <= k < |b| ==> ce <= |b[k]|
    ensures |s| == |b|
    ensures forall k :: 0 <= k < |b| ==> s[k] == b[k][cs..ce]
  {
    seq(|b|, k requires 0 <= k < |b| => b[k][cs..ce])
  }

  /** C[rs:re, cs:ce] = block: the cells of the region take the block's
      values, all other cells keep theirs. */
  function Assign(c: Matrix, nCols: nat, r: Region, block: Matrix): (c': Matrix)
    requires IsMatrix(c, |c|, nCols)
    requires r.Within(|c|, nCols)
    requires IsMatrix(block, r.rowEnd - r.rowStart, r.colEnd - r.colStart)
    ensures IsMatrix(c', |c|, nCols)
    ensures forall i, j :: 0 <= i < |c| && 0 <= j < nCols && r.Contains(i, j) ==>
      c'[i][j] == block[i - r.rowStart][j - r.colStart]
    ensures forall i, j :: 0 <= i < |c| && 0 <= j < nCols && !r.Contains(i, j) ==> c'[i][j] == c[i][j]
  {
    seq(|c|, i requires 0 <= i < |c| =>
      seq(|c[i]|, j requires 0 <= j < |c[i]| =>
        if r.Contains(i, j) then block[i - r.rowStart][j - r.colStart] else c[i][j]))
  }

  /** Entry (t, u) of the block product is entry (rs + t, cs + u) of the
      full product: slicing rows of A and columns of B does not change the
      dot products. */
  lemma SliceEntry(a: Matrix, b: Matrix, d: Dims, r: Region, t: int, u: int)
    requires Conforms(a, b, d)
    requires r.Within(d.rowsA, d.colsB)
    requires 0 <= t < r.rowEnd - r.rowStart && 0 <= u < r.colEnd - r.colStart
    ensures Conforms(RowSlice(a, r.rowStart, r.rowEnd), ColSlice(b, r.colStart, r.colEnd),
                     Dims(r.rowEnd - r.rowStart, d.colsA, r.colEnd - r.colStart))
    ensures Entry(RowSlice(a, r.rowStart, r.rowEnd), ColSlice(b, r.colStart, r.colEnd), t, u) ==
            Entry(a, b, r.rowStart + t, r.colStart + u)
  {
    var bs := ColSlice(b, r.colStart, r.colEnd);
    assert Column(bs, u) == Column(b, r.colStart + u);
  }

  /** The region worker. Every cell of the region receives the dot product of
      the matching row of A and column of B; every other cell of C keeps its
      value. A and B are values and cannot change. */
  function Worker(a: Matrix, b: Matrix, c: Matrix, d: Dims, r: Region): (c': Matrix)
    requires Conforms(a, b, d)
    requires IsMatrix(c, d.rowsA, d.colsB)
    requires r.Within(d.rowsA, d.colsB)
    ensures IsMatrix(c', d.rowsA, d.colsB)
    ensures forall i, j :: 0 <= i < d.rowsA && 0 <= j < d.colsB ==>
      c'[i][j] == if r.Contains(i, j) then Entry(a, b, i, j) else c[i][j]
  {
    var blockDims := Dims(r.rowEnd - r.rowStart, d.colsA, r.colEnd - r.colStart);
    var rows := RowSlice(a, r.rowStart, r.rowEnd);
    var cols := ColSlice(b, r.colStart, r.colEnd);
    assert Conforms(rows, cols, blockDims);
    var block := Product(rows, cols, blockDims);
    var c' := Assign(c, d.colsB, r, block);
    assert forall i, j :: 0 <= i < d.rowsA && 0 <= j < d.colsB && r.Contains(i, j) ==>
      c'[i][j] == Entry(a, b, i, j) by {
      forall i, j | 0 <= i < d.rowsA && 0 <= j < d.colsB && r.Contains(i, j)
        ensures c'[i][j] == Entry(a, b, i, j)
      {
        SliceEntry(a, b, d, r, i - r.rowStart, j - r.colStart);
      }
    }
    c'
  }
}
