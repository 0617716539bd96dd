/** multiply_single: the sequential triple loop used as the reference
    result. */
module Single {
  import opened Matrices

  /** Cell (i1, j1) comes strictly before cell (i2, j2) in row-major order. */
  predicate Before(i1: int, j1: int, i2: int, j2: int) {
    i1 < i2 || (i1 == i2 && j1 < j2)
  }

  /** The innermost loop of multiply_single: the accumulator for cell
      (i, j) sums A[i][k] · B[k][j] for ascending k and ends with the
      cell's dot product. */
  method CellDot(a: Matrix, b: Matrix, d: Dims, i: nat, j: nat) returns (s: int)
    requires Conforms(a, b, d)
    requires i < d.rowsA && j < d.colsB
    ensures s == Entry(a, b, i, j)
  {
    s := 0;
    var k := 0;
    while k < d.colsA
      invariant 0 <= k <= d.colsA
      invariant s == Dot(a[i][..k], Column(b, j)[..k])
    {
      assert a[i][..k + 1][..k] == a[i][..k];
      assert Column(b, j)[..k + 1][..k] == Column(b, j)[..k];
      s := s + a[i][k] * b[k][j];
      k := k + 1;
    }
    assert a[i][..d.colsA] == a[i] && Column(b, j)[..d.colsA] == Column(b, j);
  }

  /** Row i's first j cells, left to right. */
  function RowCells(i: int, j: nat): (cells: seq<(int, int)>)
    ensures |cells| == j
  {
    seq(j, j' requires 0 <= j' < j => (i, j'))
  }

  /** The cells of rows 0 .. i - 1 of a cols-wide output, in the order the
      loops of multiply_single write them. */
  function RowMajor(i: nat, cols: nat): seq<(int, int)>
  {
    if i == 0 then [] else RowMajor(i - 1, cols) + RowCells(i - 1, cols)
  }

  /** Every earlier entry of the log comes before every later one. */
  predicate SortedLog(w: seq<(int, int)>) {
    forall p, q :: 0 <= p < q < |w| ==> Before(w[p].0, w[p].1, w[q].0, w[q].1)
  }

  /** The log of the loops when they stand at cell (i, j) is sorted in
      row-major order, precedes (i, j), and holds exactly the cells before
      (i, j). */
  lemma {:induction false} RowMajorLog(i: nat, j: nat, cols: nat)
    requires j <= cols
    ensures SortedLog(RowMajor(i, cols) + RowCells(i, j))
    ensures forall p :: 0 <= p < |RowMajor(i, cols) + RowCells(i, j)| ==>
      Before((RowMajor(i, cols) + RowCells(i, j))[p].0, (RowMajor(i, cols) + RowCells(i, j))[p].1, i, j)
    ensures forall i', j' :: (i', j') in RowMajor(i, cols) + RowCells(i, j) <==>
      0 <= i' && 0 <= j' < cols && Before(i', j', i, j)
    decreases i, j
  {
    var w := RowMajor(i, cols) + RowCells(i, j);
    if j > 0 {
      RowMajorLog(i, j - 1, cols);
      var w0 := RowMajor(i, cols) + RowCells(i, j - 1);
      assert RowCells(i, j) == RowCells(i, j - 1) + [(i, j - 1)];
      assert w == w0 + [(i, j - 1)];
    } else if i > 0 {
      RowMajorLog(i - 1, cols, cols);
      assert RowCells(i, j) == [];
      assert w == RowMajor(i - 1, cols) + RowCells(i - 1, cols);
    } else {
      assert w == [];
    }
  }

  /** The classic triple loop over a zero-filled rowsA × colsB array, with
      the innermost loop in CellDot. On return every cell holds its dot
      product; the ghost log of writes lists every output cell once, in
      row-major order. A and B are values and cannot change. */
  method MultiplySingle(a: Matrix, b: Matrix, d: Dims) returns (c: array2<int>, ghost writes: seq<(int, int)>)
    requires Conforms(a, b, d)
    ensures c.Length0 == d.rowsA && c.Length1 == d.colsB
    ensures forall i, j :: 0 <= i < d.rowsA && 0 <= j < d.colsB ==> c[i, j] == Entry(a, b, i, j)
    ensures SortedLog(writes)
    ensures forall i, j :: (i, j) in writes <==> 0 <= i < d.rowsA && 0 <= j < d.colsB
  {
    c := new int[d.rowsA, d.colsB]((i, j) => 0);
    writes := [];
    var i := 0;
    while i < d.rowsA
      invariant 0 <= i <= d.rowsA
      invariant forall i', j' :: 0 <= i' < i && 0 <= j' < d.colsB ==> c[i', j'] == Entry(a, b, i', j')
      invariant forall i', j' :: i <= i' < d.rowsA && 0 <= j' < d.colsB ==> c[i', j'] == 0
      invariant writes == RowMajor(i, d.colsB)
    {
      var j := 0;
      while j < d.colsB
        invariant 0 <= j <= d.colsB
        invariant forall i', j' :: 0 <= i' < d.rowsA && 0 <= j' < d.colsB ==>
          c[i', j'] == if Before(i', j', i, j) then Entry(a, b, i', j') else 0
        invariant writes == RowMajor(i, d.colsB) + RowCells(i, j)
      {
        var s := CellDot(a, b, d, i, j);
        c[i, j] := s;
        assert RowCells(i, j + 1) == RowCells(i, j) + [(i, j)];
        writes := writes + [(i, j)];
        j := j + 1;
      }
      i := i + 1;
    }
    RowMajorLog(d.rowsA, 0, d.colsB);
    assert writes == RowMajor(d.rowsA, d.colsB) + RowCells(d.rowsA, 0);
  }
}
