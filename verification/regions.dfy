/** Regions of the output matrix and the tiling invariant that makes lock-free
    writes safe: every region is in bounds, no two regions overlap, and together
    they cover every output cell, so each cell belongs to exactly one region. */
module Regions {

  /** A half-open index range [lo, hi) along one axis. */
  datatype Interval = Interval(lo: int, hi: int) {
    predicate Has(x: int) {
      lo <= x < hi
    }
  }

  /** The tuple (rs, re, cs, ce) handed to a worker: rows [rs, re) and
      columns [cs, ce) of the output matrix. */
  datatype Region = Region(rowStart: int, rowEnd: int, colStart: int, colEnd: int) {
    predicate Contains(i: int, j: int) {
      rowStart <= i < rowEnd && colStart <= j < colEnd
    }

    /** A slice of an nRows × nCols matrix, possibly empty. */
    predicate Within(nRows: int, nCols: int) {
      0 <= rowStart <= rowEnd <= nRows && 0 <= colStart <= colEnd <= nCols
    }

    /** A non-empty slice of an nRows × nCols matrix: the region invariant. */
    predicate InBounds(nRows: int, nCols: int) {
      0 <= rowStart < rowEnd <= nRows && 0 <= colStart < colEnd <= nCols
    }
  }

  /** The region spanned by a row interval and a column interval. */
  function Cross(rows: Interval, cols: Interval): Region {
    Region(rows.lo, rows.hi, cols.lo, cols.hi)
  }

  predicate Disjoint(a: Region, b: Region) {
    a.rowEnd <= b.rowStart || b.rowEnd <= a.rowStart || a.colEnd <= b.colStart || b.colEnd <= a.colStart
  }

  predicate PairwiseDisjoint(rs: seq<Region>) {
    forall p, q :: 0 <= p < q < |rs| ==> Disjoint(rs[p], rs[q])
  }

  predicate Covered(rs: seq<Region>, i: int, j: int) {
    exists p :: 0 <= p < |rs| && rs[p].Contains(i, j)
  }

  predicate AllWithin(rs: seq<Region>, nRows: int, nCols: int) {
    forall p :: 0 <= p < |rs| ==> rs[p].Within(nRows, nCols)
  }

  predicate AllInBounds(rs: seq<Region>, nRows: int, nCols: int) {
    forall p :: 0 <= p < |rs| ==> rs[p].InBounds(nRows, nCols)
  }

  predicate CoversAll(rs: seq<Region>, nRows: int, nCols: int) {
    forall i, j :: 0 <= i < nRows && 0 <= j < nCols ==> Covered(rs, i, j)
  }

  /** The tiling invariant of a partition of an nRows × nCols output. */
  predicate Tiles(rs: seq<Region>, nRows: int, nCols: int) {
    AllInBounds(rs, nRows, nCols) && PairwiseDisjoint(rs) && CoversAll(rs, nRows, nCols)
  }

  /** How many regions of rs contain cell (i, j): the number of workers that write it. */
  function CoverCount(rs: seq<Region>, i: int, j: int): nat
    decreases |rs|
  {
    if |rs| == 0 then 0
    else CoverCount(rs[..|rs| - 1], i, j) + (if rs[|rs| - 1].Contains(i, j) then 1 else 0)
  }

  /** A cell is covered exactly when at least one region counts it. */
  lemma {:induction false} CoverCountPositive(rs: seq<Region>, i: int, j: int)
    ensures CoverCount(rs, i, j) >= 1 <==> Covered(rs, i, j)
    decreases |rs|
  {
    if |rs| > 0 {
      var init := rs[..|rs| - 1];
      CoverCountPositive(init, i, j);
      if Covered(init, i, j) {
        var p :| 0 <= p < |init| && init[p].Contains(i, j);
        assert rs[p] == init[p];
      }
      if Covered(rs, i, j) && !rs[|rs| - 1].Contains(i, j) {
        var p :| 0 <= p < |rs| && rs[p].Contains(i, j);
        assert init[p] == rs[p];
      }
    }
  }

  /** Pairwise disjoint regions count every cell at most once. */
  lemma {:induction false} DisjointCountsAtMostOnce(rs: seq<Region>, i: int, j: int)
    requires PairwiseDisjoint(rs)
    ensures CoverCount(rs, i, j) <= 1
    decreases |rs|
  {
    if |rs| > 0 {
      var init := rs[..|rs| - 1];
      assert PairwiseDisjoint(init) by {
        forall p, q | 0 <= p < q < |init| ensures Disjoint(init[p], init[q]) {
          assert init[p] == rs[p] && init[q] == rs[q];
        }
      }
      DisjointCountsAtMostOnce(init, i, j);
      CoverCountPositive(init, i, j);
    }
  }

  /** Two distinct regions that both contain a cell count it at least twice. */
  lemma {:induction false} OverlapCountsTwice(rs: seq<Region>, p: int, q: int, i: int, j: int)
    requires 0 <= p < q < |rs|
    requires rs[p].Contains(i, j) && rs[q].Contains(i, j)
    ensures CoverCount(rs, i, j) >= 2
    decreases |rs|
  {
    var init := rs[..|rs| - 1];
    if q == |rs| - 1 {
      assert init[p] == rs[p];
      CoverCountPositive(init, i, j);
    } else {
      assert init[p] == rs[p] && init[q] == rs[q];
      OverlapCountsTwice(init, p, q, i, j);
    }
  }

  /** Every cell of the output is written by exactly one region. */
  predicate ExactlyOnce(rs: seq<Region>, nRows: int, nCols: int) {
    forall i, j :: 0 <= i < nRows && 0 <= j < nCols ==> CoverCount(rs, i, j) == 1
  }

  /** The tiling invariant, restated cell by cell: in-bounds regions tile the
      output exactly when every cell is written by exactly one of them. */
  lemma TilesIffExactlyOnce(rs: seq<Region>, nRows: int, nCols: int)
    ensures Tiles(rs, nRows, nCols) <==> AllInBounds(rs, nRows, nCols) && ExactlyOnce(rs, nRows, nCols)
  {
    if Tiles(rs, nRows, nCols) {
      forall i, j | 0 <= i < nRows && 0 <= j < nCols ensures CoverCount(rs, i, j) == 1 {
        CoverCountPositive(rs, i, j);
        DisjointCountsAtMostOnce(rs, i, j);
      }
    }
    if AllInBounds(rs, nRows, nCols) && ExactlyOnce(rs, nRows, nCols) {
      forall i, j | 0 <= i < nRows && 0 <= j < nCols ensures Covered(rs, i, j) {
        CoverCountPositive(rs, i, j);
      }
      forall p, q | 0 <= p < q < |rs| ensures Disjoint(rs[p], rs[q]) {
        if !Disjoint(rs[p], rs[q]) {
          var i := if rs[p].rowStart < rs[q].rowStart then rs[q].rowStart else rs[p].rowStart;
          var j := if rs[p].colStart < rs[q].colStart then rs[q].colStart else rs[p].colStart;
          OverlapCountsTwice(rs, p, q, i, j);
        }
      }
    }
  }

  /** Covering is preserved by concatenation, from either side. */
  lemma CoveredAppend(a: seq<Region>, b: seq<Region>, i: int, j: int)
    ensures Covered(a + b, i, j) <==> Covered(a, i, j) || Covered(b, i, j)
  {
    if Covered(a, i, j) {
      var p :| 0 <= p < |a| && a[p].Contains(i, j);
      assert (a + b)[p] == a[p];
    }
    if Covered(b, i, j) {
      var p :| 0 <= p < |b| && b[p].Contains(i, j);
      assert (a + b)[|a| + p] == b[p];
    }
    if Covered(a + b, i, j) {
      var p :| 0 <= p < |a + b| && (a + b)[p].Contains(i, j);
      if p < |a| {
        assert a[p] == (a + b)[p];
      } else {
        assert b[p - |a|] == (a + b)[p];
      }
    }
  }

  /** Two pairwise-disjoint lists whose regions are mutually disjoint concatenate
      to a pairwise-disjoint list. */
  lemma DisjointAppend(a: seq<Region>, b: seq<Region>)
    requires PairwiseDisjoint(a) && PairwiseDisjoint(b)
    requires forall x, y :: x in a && y in b ==> Disjoint(x, y)
    ensures PairwiseDisjoint(a + b)
  {
    var ab := a + b;
    forall p, q | 0 <= p < q < |ab| ensures Disjoint(ab[p], ab[q]) {
      if q < |a| {
        assert ab[p] == a[p] && ab[q] == a[q];
      } else if p >= |a| {
        assert ab[p] == b[p - |a|] && ab[q] == b[q - |a|];
      } else {
        assert ab[p] == a[p] && ab[q] == b[q - |a|];
      }
    }
  }

  /** ivs are non-empty, consecutive intervals that partition [lo, hi) in
      ascending order: a one-dimensional tiling. */
  predicate Chain(ivs: seq<Interval>, lo: int, hi: int)
    decreases |ivs|
  {
    if |ivs| == 0 then lo == hi
    else ivs[0].lo == lo && ivs[0].lo < ivs[0].hi && Chain(ivs[1..], ivs[0].hi, hi)
  }

  /** The intervals of a chain lie inside its span, are non-empty and come in
      ascending, non-overlapping order. */
  lemma {:induction false} ChainOrdered(ivs: seq<Interval>, lo: int, hi: int)
    requires Chain(ivs, lo, hi)
    ensures lo <= hi
    ensures forall g :: 0 <= g < |ivs| ==> lo <= ivs[g].lo < ivs[g].hi <= hi
    ensures forall g, h :: 0 <= g < h < |ivs| ==> ivs[g].hi <= ivs[h].lo
    decreases |ivs|
  {
    if |ivs| > 0 {
      var rest := ivs[1..];
      ChainOrdered(rest, ivs[0].hi, hi);
      forall g | 0 <= g < |ivs| ensures lo <= ivs[g].lo < ivs[g].hi <= hi {
        if g > 0 {
          assert ivs[g] == rest[g - 1];
        }
      }
      forall g, h | 0 <= g < h < |ivs| ensures ivs[g].hi <= ivs[h].lo {
        assert ivs[h] == rest[h - 1];
        if g > 0 {
          assert ivs[g] == rest[g - 1];
        }
      }
    }
  }

  /** Every index of a chain's span falls in one of its intervals. */
  lemma {:induction false} ChainCovers(ivs: seq<Interval>, lo: int, hi: int, x: int)
    requires Chain(ivs, lo, hi) && lo <= x < hi
    ensures exists g :: 0 <= g < |ivs| && ivs[g].Has(x)
    decreases |ivs|
  {
    if !ivs[0].Has(x) {
      ChainCovers(ivs[1..], ivs[0].hi, hi, x);
      var g :| 0 <= g < |ivs[1..]| && ivs[1..][g].Has(x);
      assert ivs[g + 1] == ivs[1..][g];
    }
  }

  /** Some interval of ivs holds index x. */
  predicate HasIndex(ivs: seq<Interval>, x: int) {
    exists g :: 0 <= g < |ivs| && ivs[g].Has(x)
  }

  /** Every index of [lo, hi) falls in some interval of ivs. */
  predicate CoversRange(ivs: seq<Interval>, lo: int, hi: int) {
    forall x :: lo <= x < hi ==> HasIndex(ivs, x)
  }

  /** A chain covers its span. */
  lemma ChainCoversRange(ivs: seq<Interval>, lo: int, hi: int)
    requires Chain(ivs, lo, hi)
    ensures CoversRange(ivs, lo, hi)
  {
    forall x | lo <= x < hi ensures HasIndex(ivs, x) {
      ChainCovers(ivs, lo, hi, x);
    }
  }

  /** The intervals between consecutive points: [p0, p1), [p1, p2), ... */
  function Segments(points: seq<int>): (ivs: seq<Interval>)
    requires |points| >= 1
    ensures |ivs| == |points| - 1
  {
    seq(|points| - 1, g requires 0 <= g < |points| - 1 => Interval(points[g], points[g + 1]))
  }

  /** Strictly increasing points cut their span into a chain. */
  lemma {:induction false} SegmentsChain(points: seq<int>)
    requires |points| >= 1
    requires forall g :: 0 <= g < |points| - 1 ==> points[g] < points[g + 1]
    ensures Chain(Segments(points), points[0], points[|points| - 1])
    decreases |points|
  {
    if |points| > 1 {
      var rest := points[1..];
      assert Segments(points)[1..] == Segments(rest);
      SegmentsChain(rest);
    }
  }
}
