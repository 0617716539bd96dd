/** run_threaded: pick the partition generator by name, start one worker
    per region, join them all, and return C with the number of workers. The
    workers are modelled as a sequential fold over the regions; because each
    worker writes only its own region, any order gives the same C. */
module Threaded {
  import opened Outcomes
  import opened Regions
  import opened Grids
  import opened ArraySplit
  import opened Partition
  import opened Matrices
  import opened Workers
  import opened Schedule

  /** The 5 × 2 grid of indices_block. */
  const BlockRowGroups: nat := 5
  const BlockColGroups: nat := 2

  datatype RunError =
    | UnknownMode(mode: string)  // KeyError from the strategy dictionary
    | EmptyGroup                 // IndexError from rs[0] or cs[0] on an empty array_split group

  /** What run_threaded returns: the product and the number of threads. */
  datatype Outcome = Outcome(c: Matrix, workers: nat)

  predicate KnownMode(mode: string) {
    mode == "cell" || mode == "row" || mode == "block"
  }

  /** The strategy dictionary lookup followed by running the generator. */
  function Strategy(mode: string, d: Dims): (r: Result<seq<Region>, RunError>)
    ensures !KnownMode(mode) ==> r == Err(UnknownMode(mode))
    ensures mode == "cell" || mode == "row" ==> r.Ok?
    ensures r.Err? && KnownMode(mode) ==> mode == "block" && r.error == EmptyGroup
  {
    if mode == "cell" then Ok(IndicesCell(d.rowsA, d.colsB))
    else if mode == "row" then Ok(IndicesRow(d.rowsA, d.colsB))
    else if mode == "block" then
      match IndicesBlock(d.rowsA, d.colsB, BlockRowGroups, BlockColGroups)
      case Some(rs) => Ok(rs)
      case None => Err(EmptyGroup)
    else Err(UnknownMode(mode))
  }

  /** Applies the worker for every region, in sequence order. Cell (i, j)
      ends up with its dot product when some region covers it, and keeps its
      old value otherwise. */
  function ApplyAll(a: Matrix, b: Matrix, c: Matrix, d: Dims, rs: seq<Region>): (c': Matrix)
    requires Conforms(a, b, d)
    requires IsMatrix(c, d.rowsA, d.colsB)
    requires AllWithin(rs, d.rowsA, d.colsB)
    ensures IsMatrix(c', d.rowsA, d.colsB)
    ensures forall i, j :: 0 <= i < d.rowsA && 0 <= j < d.colsB ==>
      c'[i][j] == if Covered(rs, i, j) then Entry(a, b, i, j) else c[i][j]
    decreases |rs|
  {
    if |rs| == 0 then c
    else
      var rest := rs[1..];
      assert forall i, j :: Covered(rs, i, j) <==> rs[0].Contains(i, j) || Covered(rest, i, j) by {
        forall i, j ensures Covered(rs, i, j) <==> rs[0].Contains(i, j) || Covered(rest, i, j) {
          CoveredAppend([rs[0]], rest, i, j);
          assert [rs[0]] + rest == rs;
        }
      }
      ApplyAll(a, b, Worker(a, b, c, d, rs[0]), d, rest)
  }

  /** Every generated region is a slice of the output, and together the
      regions cover it, whatever the dimensions. */
  lemma StrategyCovers(mode: string, d: Dims)
    requires Strategy(mode, d).Ok?
    ensures AllWithin(Strategy(mode, d).value, d.rowsA, d.colsB)
    ensures CoversAll(Strategy(mode, d).value, d.rowsA, d.colsB)
  {
    var rs := Strategy(mode, d).value;
    if mode == "cell" {
      UnitsChain(d.rowsA);
      UnitsChain(d.colsB);
      ChainOrdered(Units(d.rowsA), 0, d.rowsA);
      ChainOrdered(Units(d.colsB), 0, d.colsB);
      ChainCoversRange(Units(d.rowsA), 0, d.rowsA);
      ChainCoversRange(Units(d.colsB), 0, d.colsB);
      GridWithin(Units(d.rowsA), Units(d.colsB), d.rowsA, d.colsB);
      GridCovers(Units(d.rowsA), Units(d.colsB), 0, d.rowsA, d.colsB);
    } else if mode == "row" {
      var cols := [Interval(0, d.colsB)];
      UnitsChain(d.rowsA);
      ChainOrdered(Units(d.rowsA), 0, d.rowsA);
      ChainCoversRange(Units(d.rowsA), 0, d.rowsA);
      assert CoversRange(cols, 0, d.colsB) by {
        forall y | 0 <= y < d.colsB ensures HasIndex(cols, y) {
          assert cols[0].Has(y);
        }
      }
      GridWithin(Units(d.rowsA), cols, d.rowsA, d.colsB);
      GridCovers(Units(d.rowsA), cols, 0, d.rowsA, d.colsB);
    } else {
      IndicesBlockDefined(d.rowsA, d.colsB, BlockRowGroups, BlockColGroups);
      IndicesBlockTiles(d.rowsA, d.colsB, BlockRowGroups, BlockColGroups);
      assert AllInBounds(rs, d.rowsA, d.colsB);
    }
  }

  /** run_threaded(mode) with A and B supplied by the caller. */
  function RunThreaded(mode: string, a: Matrix, b: Matrix, d: Dims): (r: Result<Outcome, RunError>)
    requires Conforms(a, b, d)
    ensures r.Ok? <==> Strategy(mode, d).Ok?
    ensures r.Ok? ==> r.value.c == Product(a, b, d)
    ensures r.Ok? ==> r.value.workers == |Strategy(mode, d).value|
    ensures r.Err? ==> r.error == Strategy(mode, d).error
  {
    match Strategy(mode, d)
    case Err(e) => Err(e)
    case Ok(rs) =>
      StrategyCovers(mode, d);
      var c := ApplyAll(a, b, Zeros(d.rowsA, d.colsB), d, rs);
      MatrixExt(c, Product(a, b, d), d.rowsA, d.colsB);
      Ok(Outcome(c, |rs|))
  }

  /** run_threaded fails only at the dictionary lookup (unknown mode) or,
      for block mode, when the output is too small to give every group an
      index. */
  lemma RunThreadedDefined(mode: string, a: Matrix, b: Matrix, d: Dims)
    requires Conforms(a, b, d)
    ensures RunThreaded(mode, a, b, d).Ok? <==>
      KnownMode(mode) && (mode == "block" ==> d.rowsA >= BlockRowGroups && d.colsB >= BlockColGroups)
    ensures !KnownMode(mode) ==> RunThreaded(mode, a, b, d) == Err(UnknownMode(mode))
  {
    IndicesBlockDefined(d.rowsA, d.colsB, BlockRowGroups, BlockColGroups);
  }

  /** The worker count: rowsA * colsB for cell mode, rowsA for row mode and
      5 * 2 for block mode. */
  lemma RunThreadedWorkers(mode: string, a: Matrix, b: Matrix, d: Dims)
    requires Conforms(a, b, d)
    requires RunThreaded(mode, a, b, d).Ok?
    ensures mode == "cell" ==> RunThreaded(mode, a, b, d).value.workers == d.rowsA * d.colsB
    ensures mode == "row" ==> RunThreaded(mode, a, b, d).value.workers == d.rowsA
    ensures mode == "block" ==> RunThreaded(mode, a, b, d).value.workers == BlockRowGroups * BlockColGroups
  {
    IndicesCellShape(d.rowsA, d.colsB);
    IndicesRowShape(d.rowsA, d.colsB);
    if mode == "block" {
      IndicesBlockDefined(d.rowsA, d.colsB, BlockRowGroups, BlockColGroups);
      IndicesBlockShape(d.rowsA, d.colsB, BlockRowGroups, BlockColGroups);
    }
  }

  /** Applying the same regions in any order gives the same matrix: the
      result depends only on which regions there are. */
  lemma ApplyAllOrderIndependent(a: Matrix, b: Matrix, c: Matrix, d: Dims, rs: seq<Region>, order: seq<Region>)
    requires Conforms(a, b, d)
    requires IsMatrix(c, d.rowsA, d.colsB)
    requires AllWithin(rs, d.rowsA, d.colsB)
    requires multiset(order) == multiset(rs)
    ensures AllWithin(order, d.rowsA, d.colsB)
    ensures ApplyAll(a, b, c, d, order) == ApplyAll(a, b, c, d, rs)
  {
    forall p | 0 <= p < |order| ensures order[p].Within(d.rowsA, d.colsB) {
      assert order[p] in multiset(rs);
    }
    forall i, j | 0 <= i < d.rowsA && 0 <= j < d.colsB ensures Covered(order, i, j) <==> Covered(rs, i, j) {
      if Covered(order, i, j) {
        var p :| 0 <= p < |order| && order[p].Contains(i, j);
        assert order[p] in multiset(rs);
        var q :| 0 <= q < |rs| && rs[q] == order[p];
      }
      if Covered(rs, i, j) {
        var q :| 0 <= q < |rs| && rs[q].Contains(i, j);
        assert rs[q] in multiset(order);
        var p :| 0 <= p < |order| && order[p] == rs[q];
      }
    }
    MatrixExt(ApplyAll(a, b, c, d, order), ApplyAll(a, b, c, d, rs), d.rowsA, d.colsB);
  }

  /** What the region worker writes into cell (i, j): the product entry. */
  function ProductValue(a: Matrix, b: Matrix, d: Dims): (Region, int, int) -> int {
    (r: Region, i: int, j: int) =>
      if Conforms(a, b, d) && 0 <= i < d.rowsA && 0 <= j < d.colsB then Entry(a, b, i, j) else 0
  }

  /** On pairwise-disjoint regions the fold of workers is an instance of the
      abstract thread fan-out, so every completion order of the threads gives
      the same matrix. */
  lemma WorkersScheduleIndependent(a: Matrix, b: Matrix, c: Matrix, d: Dims, rs: seq<Region>, perm: seq<int>)
    requires Conforms(a, b, d)
    requires IsMatrix(c, d.rowsA, d.colsB)
    requires AllWithin(rs, d.rowsA, d.colsB)
    requires PairwiseDisjoint(rs)
    requires IsPermutation(perm, |rs|)
    ensures ApplyAll(a, b, c, d, rs) == WriteAll(c, d.colsB, rs, ProductValue(a, b, d))
    ensures WriteAll(c, d.colsB, Reorder(rs, perm), ProductValue(a, b, d)) == ApplyAll(a, b, c, d, rs)
  {
    var f := ProductValue(a, b, d);
    var x := ApplyAll(a, b, c, d, rs);
    var y := WriteAll(c, d.colsB, rs, f);
    forall i, j | 0 <= i < d.rowsA && 0 <= j < d.colsB ensures x[i][j] == y[i][j] {
      if Covered(rs, i, j) {
        var q :| 0 <= q < |rs| && rs[q].Contains(i, j);
        assert y[i][j] == f(rs[q], i, j);
      }
    }
    MatrixExt(x, y, d.rowsA, d.colsB);
    ScheduleIndependent(c, d.colsB, rs, f, perm);
  }

  /** The main theorem: for every mode that run_threaded accepts, running the
      workers in any order, starting from the zero matrix, yields the full
      product A · B. */
  lemma AnyWorkerOrderComputesProduct(mode: string, a: Matrix, b: Matrix, d: Dims, order: seq<Region>)
    requires Conforms(a, b, d)
    requires Strategy(mode, d).Ok?
    requires multiset(order) == multiset(Strategy(mode, d).value)
    ensures AllWithin(order, d.rowsA, d.colsB)
    ensures ApplyAll(a, b, Zeros(d.rowsA, d.colsB), d, order) == Product(a, b, d)
  {
    var rs := Strategy(mode, d).value;
    StrategyCovers(mode, d);
    ApplyAllOrderIndependent(a, b, Zeros(d.rowsA, d.colsB), d, rs, order);
    assert RunThreaded(mode, a, b, d).value.c == ApplyAll(a, b, Zeros(d.rowsA, d.colsB), d, rs);
  }

  /** The unsynchronised threads compute the product: for every mode that
      run_threaded accepts and every order in which its threads complete,
      the writes of the region workers, applied to the zero matrix, yield
      A · B. Row mode with no columns yields only empty regions, which are
      disjoint as well. */
  lemma ThreadsComputeProduct(mode: string, a: Matrix, b: Matrix, d: Dims, perm: seq<int>)
    requires Conforms(a, b, d)
    requires Strategy(mode, d).Ok?
    requires IsPermutation(perm, |Strategy(mode, d).value|)
    ensures WriteAll(Zeros(d.rowsA, d.colsB), d.colsB, Reorder(Strategy(mode, d).value, perm), ProductValue(a, b, d))
      == Product(a, b, d)
  {
    var rs := Strategy(mode, d).value;
    var z := Zeros(d.rowsA, d.colsB);
    StrategyCovers(mode, d);
    if mode == "row" && d.colsB == 0 {
      IndicesRowShape(d.rowsA, d.colsB);
      assert PairwiseDisjoint(rs);
    } else {
      StrategyTiles(mode, d);
    }
    WorkersScheduleIndependent(a, b, z, d, rs, perm);
    assert RunThreaded(mode, a, b, d).value.c == ApplyAll(a, b, z, d, rs);
  }

  /** Every accepted mode partitions the output so that each cell is written
      by exactly one worker; this is what makes the unsynchronised writes
      safe. Row mode needs at least one column, or its regions are empty. */
  lemma StrategyTiles(mode: string, d: Dims)
    requires Strategy(mode, d).Ok?
    requires mode == "row" ==> d.colsB >= 1
    ensures Tiles(Strategy(mode, d).value, d.rowsA, d.colsB)
    ensures ExactlyOnce(Strategy(mode, d).value, d.rowsA, d.colsB)
  {
    var rs := Strategy(mode, d).value;
    if mode == "cell" {
      IndicesCellTiles(d.rowsA, d.colsB);
    } else if mode == "row" {
      IndicesRowTiles(d.rowsA, d.colsB);
    } else {
      IndicesBlockDefined(d.rowsA, d.colsB, BlockRowGroups, BlockColGroups);
      IndicesBlockTiles(d.rowsA, d.colsB, BlockRowGroups, BlockColGroups);
    }
    TilesIffExactlyOnce(rs, d.rowsA, d.colsB);
  }

  /** On the benchmark's 50 × 50 output, cell mode yields 2500 regions and
      row mode 50. */
  lemma BenchmarkCellAndRow()
    ensures |Strategy("cell", Benchmark).value| == 2500
    ensures |Strategy("row", Benchmark).value| == 50
  {
    IndicesCellShape(50, 50);
    IndicesRowShape(50, 50);
  }

  /** Block mode at any dimensions with enough rows and columns: the regions
      of indices_block with 5 row groups and 2 column groups. */
  lemma BlockShapeAt(d: Dims)
    requires d.rowsA >= BlockRowGroups && d.colsB >= BlockColGroups
    ensures Strategy("block", d).Ok?
    ensures |Strategy("block", d).value| == BlockRowGroups * BlockColGroups
    ensures forall a, b :: 0 <= a < BlockRowGroups && 0 <= b < BlockColGroups ==>
      0 <= Position(a, b, BlockColGroups) < BlockRowGroups * BlockColGroups &&
      Strategy("block", d).value[Position(a, b, BlockColGroups)] ==
        Region(DivPoints(d.rowsA, BlockRowGroups)[a], DivPoints(d.rowsA, BlockRowGroups)[a + 1],
               DivPoints(d.colsB, BlockColGroups)[b], DivPoints(d.colsB, BlockColGroups)[b + 1])
  {
    IndicesBlockShape(d.rowsA, d.colsB, BlockRowGroups, BlockColGroups);
  }

  /** numpy splits the benchmark's 50 rows into 5 groups of 10. */
  lemma BenchmarkRowPoints()
    ensures forall a :: 0 <= a <= 5 ==> DivPoints(50, 5)[a] == 10 * a
  {
    forall a | 0 <= a <= 5 ensures DivPoints(50, 5)[a] == 10 * a {
      DivPointsClosedForm(50, 5, a);
    }
  }

  /** numpy splits the benchmark's 50 columns into 2 groups of 25. */
  lemma BenchmarkColPoints()
    ensures forall b :: 0 <= b <= 2 ==> DivPoints(50, 2)[b] == 25 * b
  {
    forall b | 0 <= b <= 2 ensures DivPoints(50, 2)[b] == 25 * b {
      DivPointsClosedForm(50, 2, b);
    }
  }

  /** On the benchmark's 50 × 50 output, block mode yields 10 regions of
      10 × 25 cells, row groups outer, column groups inner. */
  lemma BenchmarkBlocks()
    ensures Strategy("block", Benchmark).Ok?
    ensures |Strategy("block", Benchmark).value| == 10
    ensures forall a, b :: 0 <= a < 5 && 0 <= b < 2 ==>
      Strategy("block", Benchmark).value[Position(a, b, 2)] == Region(10 * a, 10 * a + 10, 25 * b, 25 * b + 25)
  {
    BlockShapeAt(Benchmark);
    BenchmarkRowPoints();
    BenchmarkColPoints();
    var rows := DivPoints(50, 5);
    var cols := DivPoints(50, 2);
    var rs := Strategy("block", Benchmark).value;
    forall a, b | 0 <= a < 5 && 0 <= b < 2
      ensures rs[Position(a, b, 2)] == Region(10 * a, 10 * a + 10, 25 * b, 25 * b + 25)
    {
      assert rs[Position(a, b, 2)] == Region(rows[a], rows[a + 1], cols[b], cols[b + 1]);
    }
  }


  /** Every mode tiles the benchmark's 50 × 50 output. */
  lemma BenchmarkTiles(mode: string)
    requires KnownMode(mode)
    ensures Strategy(mode, Benchmark).Ok?
    ensures Tiles(Strategy(mode, Benchmark).value, 50, 50)
  {
    IndicesBlockDefined(50, 50, 5, 2);
    StrategyTiles(mode, Benchmark);
  }

  /** The worker counts the benchmark reports: 2500, 50 and 10. */
  lemma BenchmarkWorkers(a: Matrix, b: Matrix)
    requires Conforms(a, b, Benchmark)
    ensures RunThreaded("cell", a, b, Benchmark) == Ok(Outcome(Product(a, b, Benchmark), 2500))
    ensures RunThreaded("row", a, b, Benchmark) == Ok(Outcome(Product(a, b, Benchmark), 50))
    ensures RunThreaded("block", a, b, Benchmark) == Ok(Outcome(Product(a, b, Benchmark), 10))
  {
    RunThreadedDefined("cell", a, b, Benchmark);
    RunThreadedDefined("row", a, b, Benchmark);
    RunThreadedDefined("block", a, b, Benchmark);
    RunThreadedWorkers("cell", a, b, Benchmark);
    RunThreadedWorkers("row", a, b, Benchmark);
    RunThreadedWorkers("block", a, b, Benchmark);
  }
}
