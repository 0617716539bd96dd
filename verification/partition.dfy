/** The three partition generators: indices_cell, indices_row and
    indices_block, each yielding half-open regions (rs, re, cs, ce) of an
    nRows × nCols output. */
module Partition {
  import opened Outcomes
  import opened Regions
  import opened Grids
  import opened ArraySplit
  import opened Arith

  /** range(n) as unit intervals [i, i + 1). */
  function Units(n: nat): (units: seq<Interval>)
    ensures |units| == n
    ensures forall i :: 0 <= i < n ==> units[i] == Interval(i, i + 1)
  {
    seq(n, i requires 0 <= i < n => Interval(i, i + 1))
  }

  /** indices_cell: one 1 × 1 region per output cell, rows outer, columns inner. */
  function IndicesCell(nRows: nat, nCols: nat): (cells: seq<Region>)
    ensures |cells| == nRows * nCols
  {
    GridLength(Units(nRows), Units(nCols));
    Grid(Units(nRows), Units(nCols))
  }

  /** indices_row: one full-width region per output row. */
  function IndicesRow(nRows: nat, nCols: nat): (rows: seq<Region>)
    ensures |rows| == nRows
  {
    GridLength(Units(nRows), [Interval(0, nCols)]);
    Grid(Units(nRows), [Interval(0, nCols)])
  }

  /** (g[0], g[-1] + 1) for one array_split group; Python raises IndexError
      on an empty group, modelled as None. */
  function GroupBounds(group: seq<int>): (r: Option<Interval>)
    ensures r.None? <==> |group| == 0
  {
    if |group| == 0 then None else Some(Interval(group[0], group[|group| - 1] + 1))
  }

  /** The bounds of every group, or None as soon as one group is empty. */
  function AllBounds(groups: seq<seq<int>>): (r: Option<seq<Interval>>)
    ensures r.Some? ==> |r.value| == |groups|
    decreases |groups|
  {
    if |groups| == 0 then Some([])
    else match (GroupBounds(groups[0]), AllBounds(groups[1..]))
      case (Some(iv), Some(rest)) => Some([iv] + rest)
      case _ => None
  }

  /** indices_block: split the rows into kRows groups and the columns into
      kCols groups with np.array_split, and yield one region per pair of
      groups, row groups outer. None when a group is empty. */
  function IndicesBlock(nRows: nat, nCols: nat, kRows: nat, kCols: nat): (r: Option<seq<Region>>)
    requires kRows >= 1 && kCols >= 1
    ensures r.Some? ==> |r.value| == kRows * kCols
  {
    var rowBounds := AllBounds(Split(Range(0, nRows), kRows));
    var colBounds := AllBounds(Split(Range(0, nCols), kCols));
    if rowBounds.Some? && colBounds.Some? then
      GridLength(rowBounds.value, colBounds.value);
      Some(Grid(rowBounds.value, colBounds.value))
    else None
  }

  /** AllBounds succeeds exactly when no group is empty, and then holds each
      group's bounds. */
  lemma {:induction false} AllBoundsSome(groups: seq<seq<int>>)
    ensures AllBounds(groups).Some? <==> forall g :: 0 <= g < |groups| ==> |groups[g]| > 0
    ensures AllBounds(groups).Some? ==> forall g :: 0 <= g < |groups| ==>
      AllBounds(groups).value[g] == GroupBounds(groups[g]).value
    decreases |groups|
  {
    if |groups| > 0 {
      var rest := groups[1..];
      AllBoundsSome(rest);
      forall g | 1 <= g < |groups| ensures groups[g] == rest[g - 1] {
      }
    }
  }

  /** The bounds of the array_split groups of range(n) are the segments
      between consecutive division points, when none is empty. */
  lemma BlockBounds(n: nat, k: nat)
    requires 1 <= k <= n
    ensures AllBounds(Split(Range(0, n), k)) == Some(Segments(DivPoints(n, k)))
  {
    var groups := Split(Range(0, n), k);
    var points := DivPoints(n, k);
    SplitNonEmpty(Range(0, n), k);
    AllBoundsSome(groups);
    SplitRange(n, k);
    var bounds := AllBounds(groups).value;
    var segments := Segments(points);
    forall g | 0 <= g < k ensures bounds[g] == segments[g] {
      assert |groups[g]| > 0;
      RangeBounds(points[g], points[g + 1]);
    }
    assert bounds == segments;
  }

  /** A non-empty range(lo, hi) is bounded by [lo, hi). */
  lemma RangeBounds(lo: int, hi: int)
    requires lo < hi
    ensures GroupBounds(Range(lo, hi)) == Some(Interval(lo, hi))
  {
  }

  /** When n >= k the division points strictly increase, so the group
      bounds chain across [0, n). */
  lemma BlockChain(n: nat, k: nat)
    requires 1 <= k <= n
    ensures Chain(Segments(DivPoints(n, k)), 0, n)
  {
    var points := DivPoints(n, k);
    assert n / k >= 1 by {
      DivMod(n, k);
    }
    SegmentsChain(points);
  }

  /** Unit intervals chain across [0, n). */
  lemma UnitsChain(n: nat)
    ensures Chain(Units(n), 0, n)
  {
    assert Units(n) == Segments(Range(0, n + 1));
    SegmentsChain(Range(0, n + 1));
  }

  /** indices_cell yields exactly nRows * nCols regions, the cell (i, j) at
      position i * nCols + j as (i, i + 1, j, j + 1): row-major order. */
  lemma IndicesCellShape(nRows: nat, nCols: nat)
    ensures |IndicesCell(nRows, nCols)| == nRows * nCols
    ensures forall i, j :: 0 <= i < nRows && 0 <= j < nCols ==>
      0 <= Position(i, j, nCols) < nRows * nCols &&
      IndicesCell(nRows, nCols)[Position(i, j, nCols)] == Region(i, i + 1, j, j + 1)
  {
    GridLength(Units(nRows), Units(nCols));
    forall i, j | 0 <= i < nRows && 0 <= j < nCols
      ensures 0 <= Position(i, j, nCols) < nRows * nCols &&
        IndicesCell(nRows, nCols)[Position(i, j, nCols)] == Region(i, i + 1, j, j + 1)
    {
      GridAt(Units(nRows), Units(nCols), i, j);
    }
  }

  /** indices_row yields exactly nRows regions, row i as (i, i + 1, 0, nCols). */
  lemma IndicesRowShape(nRows: nat, nCols: nat)
    ensures |IndicesRow(nRows, nCols)| == nRows
    ensures forall i :: 0 <= i < nRows ==> IndicesRow(nRows, nCols)[i] == Region(i, i + 1, 0, nCols)
  {
    GridLength(Units(nRows), [Interval(0, nCols)]);
    forall i | 0 <= i < nRows ensures IndicesRow(nRows, nCols)[i] == Region(i, i + 1, 0, nCols) {
      GridAt(Units(nRows), [Interval(0, nCols)], i, 0);
      assert Position(i, 0, 1) == i;
    }
  }

  /** indices_block succeeds exactly when every row group and every column
      group is non-empty, that is when nRows >= kRows and nCols >= kCols. */
  lemma IndicesBlockDefined(nRows: nat, nCols: nat, kRows: nat, kCols: nat)
    requires kRows >= 1 && kCols >= 1
    ensures IndicesBlock(nRows, nCols, kRows, kCols).Some? <==> nRows >= kRows && nCols >= kCols
  {
    AllBoundsSome(Split(Range(0, nRows), kRows));
    AllBoundsSome(Split(Range(0, nCols), kCols));
    SplitNonEmpty(Range(0, nRows), kRows);
    SplitNonEmpty(Range(0, nCols), kCols);
  }

  /** indices_block yields kRows * kCols regions; row group a and column
      group b give region (p[a], p[a + 1], q[b], q[b + 1]) at position
      a * kCols + b, where p and q are the division points. */
  lemma IndicesBlockShape(nRows: nat, nCols: nat, kRows: nat, kCols: nat)
    requires 1 <= kRows <= nRows && 1 <= kCols <= nCols
    ensures IndicesBlock(nRows, nCols, kRows, kCols).Some?
    ensures |IndicesBlock(nRows, nCols, kRows, kCols).value| == kRows * kCols
    ensures forall a, b :: 0 <= a < kRows && 0 <= b < kCols ==>
      0 <= Position(a, b, kCols) < kRows * kCols &&
      IndicesBlock(nRows, nCols, kRows, kCols).value[Position(a, b, kCols)] ==
        Region(DivPoints(nRows, kRows)[a], DivPoints(nRows, kRows)[a + 1],
               DivPoints(nCols, kCols)[b], DivPoints(nCols, kCols)[b + 1])
  {
    BlockIsGrid(nRows, nCols, kRows, kCols);
    var p := DivPoints(nRows, kRows);
    var q := DivPoints(nCols, kCols);
    var rows := Segments(p);
    var cols := Segments(q);
    var blocks := IndicesBlock(nRows, nCols, kRows, kCols).value;
    assert blocks == Grid(rows, cols);
    GridLength(rows, cols);
    forall a, b | 0 <= a < kRows && 0 <= b < kCols
      ensures 0 <= Position(a, b, kCols) < kRows * kCols &&
        blocks[Position(a, b, kCols)] == Region(p[a], p[a + 1], q[b], q[b + 1])
    {
      SegmentGridAt(p, q, a, b);
    }
  }

  /** indices_cell tiles the nRows × nCols output. */
  lemma IndicesCellTiles(nRows: nat, nCols: nat)
    ensures Tiles(IndicesCell(nRows, nCols), nRows, nCols)
  {
    UnitsChain(nRows);
    UnitsChain(nCols);
    GridTilesOutput(Units(nRows), Units(nCols), nRows, nCols);
  }

  /** indices_row tiles the output when it has at least one column. */
  lemma IndicesRowTiles(nRows: nat, nCols: nat)
    requires nCols >= 1
    ensures Tiles(IndicesRow(nRows, nCols), nRows, nCols)
  {
    UnitsChain(nRows);
    assert Chain([Interval(0, nCols)][1..], nCols, nCols);
    GridTilesOutput(Units(nRows), [Interval(0, nCols)], nRows, nCols);
  }

  /** When every group is non-empty, indices_block is the grid of the
      segments between division points. */
  lemma BlockIsGrid(nRows: nat, nCols: nat, kRows: nat, kCols: nat)
    requires 1 <= kRows <= nRows && 1 <= kCols <= nCols
    ensures IndicesBlock(nRows, nCols, kRows, kCols) ==
      Some(Grid(Segments(DivPoints(nRows, kRows)), Segments(DivPoints(nCols, kCols))))
  {
    BlockBounds(nRows, kRows);
    BlockBounds(nCols, kCols);
  }

  /** indices_block tiles the output whenever it succeeds. */
  lemma IndicesBlockTiles(nRows: nat, nCols: nat, kRows: nat, kCols: nat)
    requires 1 <= kRows <= nRows && 1 <= kCols <= nCols
    ensures IndicesBlock(nRows, nCols, kRows, kCols).Some?
    ensures Tiles(IndicesBlock(nRows, nCols, kRows, kCols).value, nRows, nCols)
  {
    BlockIsGrid(nRows, nCols, kRows, kCols);
    BlockChain(nRows, kRows);
    BlockChain(nCols, kCols);
    GridTilesOutput(Segments(DivPoints(nRows, kRows)), Segments(DivPoints(nCols, kCols)), nRows, nCols);
  }
}
