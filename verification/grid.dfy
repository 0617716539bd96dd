/** The region sequences the generators produce: an outer loop over row
    intervals and an inner loop over column intervals, yielding one region per
    pair, as `for rs in row_blocks: for cs in col_blocks: yield ...` does. */
module Grids {
  import opened Regions
  import opened Arith

  /** The regions yielded for one iteration of the outer loop. */
  function Band(rows: Interval, cols: seq<Interval>): (band: seq<Region>)
    ensures |band| == |cols|
    ensures forall b :: 0 <= b < |cols| ==> band[b] == Cross(rows, cols[b])
  {
    seq(|cols|, b requires 0 <= b < |cols| => Cross(rows, cols[b]))
  }

  /** All regions, row intervals outer, column intervals inner. */
  function Grid(rows: seq<Interval>, cols: seq<Interval>): seq<Region>
    decreases |rows|
  {
    if |rows| == 0 then [] else Band(rows[0], cols) + Grid(rows[1..], cols)
  }

  /** The grid has one region per (row interval, column interval) pair. */
  lemma {:induction false} GridLength(rows: seq<Interval>, cols: seq<Interval>)
    ensures |Grid(rows, cols)| == |rows| * |cols|
    decreases |rows|
  {
    if |rows| > 0 {
      GridLength(rows[1..], cols);
      MulStep(|rows|, |cols|);
    }
  }

  /** Row-major position of pair (a, b) in a grid of the given width. */
  function Position(a: int, b: int, width: int): int {
    a * width + b
  }

  /** Pair (a, b) sits at position a * |cols| + b: row intervals outer,
      column intervals inner. */
  lemma {:induction false} GridAt(rows: seq<Interval>, cols: seq<Interval>, a: int, b: int)
    requires 0 <= a < |rows| && 0 <= b < |cols|
    ensures 0 <= Position(a, b, |cols|) < |Grid(rows, cols)|
    ensures Grid(rows, cols)[Position(a, b, |cols|)] == Cross(rows[a], cols[b])
    decreases a
  {
    GridLength(rows, cols);
    var m := |cols|;
    if a > 0 {
      var rest := rows[1..];
      GridAt(rest, cols, a - 1, b);
      MulStep(a, m);
      assert rows[a] == rest[a - 1];
    }
    MulStep(|rows|, m);
    MulStep(a + 1, m);
    assert a * m + b < |rows| * m by {
      assert (a + 1) * m <= |rows| * m by {
        MulMonotone(a + 1, |rows|, m);
      }
    }
  }

  /** A grid of segments between cut points: pair (a, b) is the region
      between row cuts a, a + 1 and column cuts b, b + 1. */
  lemma SegmentGridAt(p: seq<int>, q: seq<int>, a: int, b: int)
    requires 0 <= a < |p| - 1 && 0 <= b < |q| - 1
    ensures |Grid(Segments(p), Segments(q))| == (|p| - 1) * (|q| - 1)
    ensures 0 <= Position(a, b, |q| - 1) < (|p| - 1) * (|q| - 1)
    ensures Grid(Segments(p), Segments(q))[Position(a, b, |q| - 1)] == Region(p[a], p[a + 1], q[b], q[b + 1])
  {
    GridLength(Segments(p), Segments(q));
    GridAt(Segments(p), Segments(q), a, b);
  }

  /** Every region of a grid spans a row interval and a column interval of it. */
  lemma {:induction false} GridMembers(rows: seq<Interval>, cols: seq<Interval>, p: int)
    requires 0 <= p < |Grid(rows, cols)|
    ensures exists a, b :: 0 <= a < |rows| && 0 <= b < |cols| && Grid(rows, cols)[p] == Cross(rows[a], cols[b])
    decreases |rows|
  {
    var m := |cols|;
    if p < m {
      assert Grid(rows, cols)[p] == Cross(rows[0], cols[p]);
    } else {
      var rest := rows[1..];
      GridMembers(rest, cols, p - m);
      var a, b :| 0 <= a < |rest| && 0 <= b < m && Grid(rest, cols)[p - m] == Cross(rest[a], cols[b]);
      assert Grid(rows, cols)[p] == Cross(rows[a + 1], cols[b]);
    }
  }

  /** Intervals inside [0, nRows) and [0, nCols) give regions that are slices
      of an nRows × nCols matrix. */
  lemma GridWithin(rows: seq<Interval>, cols: seq<Interval>, nRows: int, nCols: int)
    requires forall a :: 0 <= a < |rows| ==> 0 <= rows[a].lo <= rows[a].hi <= nRows
    requires forall b :: 0 <= b < |cols| ==> 0 <= cols[b].lo <= cols[b].hi <= nCols
    ensures AllWithin(Grid(rows, cols), nRows, nCols)
  {
    forall p | 0 <= p < |Grid(rows, cols)| ensures Grid(rows, cols)[p].Within(nRows, nCols) {
      GridMembers(rows, cols, p);
    }
  }

  /** Row intervals covering [lo, hi) and column intervals covering [0, nCols)
      give regions covering every cell of [lo, hi) × [0, nCols). */
  lemma {:induction false} GridCovers(rows: seq<Interval>, cols: seq<Interval>, lo: int, hi: int, nCols: int)
    requires CoversRange(rows, lo, hi) && CoversRange(cols, 0, nCols)
    ensures forall i, j :: lo <= i < hi && 0 <= j < nCols ==> Covered(Grid(rows, cols), i, j)
  {
    forall i, j | lo <= i < hi && 0 <= j < nCols ensures Covered(Grid(rows, cols), i, j) {
      assert HasIndex(rows, i) && HasIndex(cols, j);
      var a :| 0 <= a < |rows| && rows[a].Has(i);
      var b :| 0 <= b < |cols| && cols[b].Has(j);
      GridAt(rows, cols, a, b);
      assert Grid(rows, cols)[Position(a, b, |cols|)].Contains(i, j);
    }
  }

  /** A row chain over [lo, hi) and a column chain over [0, nCols) give
      non-empty regions inside [lo, hi) × [0, nCols). */
  lemma GridInBounds(rows: seq<Interval>, cols: seq<Interval>, lo: int, hi: int, nCols: int)
    requires 0 <= lo
    requires Chain(rows, lo, hi) && Chain(cols, 0, nCols)
    ensures forall p :: 0 <= p < |Grid(rows, cols)| ==>
      lo <= Grid(rows, cols)[p].rowStart && Grid(rows, cols)[p].InBounds(hi, nCols)
  {
    ChainOrdered(rows, lo, hi);
    ChainOrdered(cols, 0, nCols);
    forall p | 0 <= p < |Grid(rows, cols)|
      ensures lo <= Grid(rows, cols)[p].rowStart && Grid(rows, cols)[p].InBounds(hi, nCols)
    {
      GridMembers(rows, cols, p);
    }
  }

  /** The regions of one band are pairwise disjoint when the column
      intervals form a chain. */
  lemma BandDisjoint(row: Interval, cols: seq<Interval>, nCols: int)
    requires Chain(cols, 0, nCols)
    ensures PairwiseDisjoint(Band(row, cols))
  {
    ChainOrdered(cols, 0, nCols);
    var band := Band(row, cols);
    forall p, q | 0 <= p < q < |band| ensures Disjoint(band[p], band[q]) {
      assert cols[p].hi <= cols[q].lo;
    }
  }

  /** Regions ending at or above row mid never meet regions starting at or
      below it. */
  lemma RowsApart(upper: seq<Region>, lower: seq<Region>, mid: int)
    requires forall p :: 0 <= p < |upper| ==> upper[p].rowEnd <= mid
    requires forall q :: 0 <= q < |lower| ==> mid <= lower[q].rowStart
    ensures forall x, y :: x in upper && y in lower ==> Disjoint(x, y)
  {
    forall x, y | x in upper && y in lower ensures Disjoint(x, y) {
      var p :| 0 <= p < |upper| && upper[p] == x;
      var q :| 0 <= q < |lower| && lower[q] == y;
    }
  }

  /** Chained row and column intervals give pairwise-disjoint regions: two
      regions of one band differ in their column interval, and a band ends
      where the next band's rows begin. */
  lemma {:induction false} GridDisjoint(rows: seq<Interval>, cols: seq<Interval>, lo: int, hi: int, nCols: int)
    requires 0 <= lo
    requires Chain(rows, lo, hi) && Chain(cols, 0, nCols)
    ensures PairwiseDisjoint(Grid(rows, cols))
    decreases |rows|
  {
    if |rows| > 0 {
      var rest := rows[1..];
      var mid := rows[0].hi;
      var band := Band(rows[0], cols);
      var tail := Grid(rest, cols);
      assert Chain(rest, mid, hi);
      GridDisjoint(rest, cols, mid, hi, nCols);
      GridInBounds(rest, cols, mid, hi, nCols);
      BandDisjoint(rows[0], cols, nCols);
      RowsApart(band, tail, mid);
      DisjointAppend(band, tail);
      assert Grid(rows, cols) == band + tail;
    }
  }

  /** A row chain over [lo, hi) and a column chain over [0, nCols) produce a
      grid that tiles [lo, hi) × [0, nCols): non-empty in-bounds regions, no
      two overlapping, every cell covered. */
  lemma GridTiles(rows: seq<Interval>, cols: seq<Interval>, lo: int, hi: int, nCols: int)
    requires 0 <= lo
    requires Chain(rows, lo, hi) && Chain(cols, 0, nCols)
    ensures forall p :: 0 <= p < |Grid(rows, cols)| ==>
      lo <= Grid(rows, cols)[p].rowStart && Grid(rows, cols)[p].InBounds(hi, nCols)
    ensures PairwiseDisjoint(Grid(rows, cols))
    ensures forall i, j :: lo <= i < hi && 0 <= j < nCols ==> Covered(Grid(rows, cols), i, j)
  {
    GridInBounds(rows, cols, lo, hi, nCols);
    GridDisjoint(rows, cols, lo, hi, nCols);
    ChainCoversRange(rows, lo, hi);
    ChainCoversRange(cols, 0, nCols);
    GridCovers(rows, cols, lo, hi, nCols);
  }

  /** Row and column chains starting at 0 give a grid that tiles the whole
      nRows × nCols output. */
  lemma GridTilesOutput(rows: seq<Interval>, cols: seq<Interval>, nRows: int, nCols: int)
    requires Chain(rows, 0, nRows) && Chain(cols, 0, nCols)
    ensures Tiles(Grid(rows, cols), nRows, nCols)
  {
    GridTiles(rows, cols, 0, nRows, nCols);
  }
}
