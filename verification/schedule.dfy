/** The thread fan-out of run_threaded, abstracted from what each worker
    computes: worker r writes value f(r, i, j) into every cell (i, j) of its
    region, and the threads may finish in any order. With pairwise-disjoint
    regions no cell is written by two threads, so the final matrix is the
    same for every schedule, whatever the workers compute; with overlapping
    regions it is not. */
module Schedule {
  import opened Regions
  import opened Matrices

  /** perm lists each of 0 .. n - 1 exactly once: the order in which the n
      started threads complete. */
  predicate IsPermutation(perm: seq<int>, n: int) {
    && |perm| == n
    && (forall t :: 0 <= t < |perm| ==> 0 <= perm[t] < n)
    && (forall t, u :: 0 <= t < u < |perm| ==> perm[t] != perm[u])
    && (forall q :: 0 <= q < n ==> q in perm)
  }

  /** The regions in completion order. */
  function Reorder(rs: seq<Region>, perm: seq<int>): (order: seq<Region>)
    requires forall t :: 0 <= t < |perm| ==> 0 <= perm[t] < |rs|
    ensures |order| == |perm|
  {
    seq(|perm|, t requires 0 <= t < |perm| => rs[perm[t]])
  }

  /** One thread's write: the cells of r take f(r, i, j), every other cell
      keeps its value. */
  function WriteRegion(c: Matrix, nCols: nat, r: Region, f: (Region, int, int) -> int): (c': Matrix)
    requires IsMatrix(c, |c|, nCols)
    ensures IsMatrix(c', |c|, nCols)
  {
    seq(|c|, i requires 0 <= i < |c| =>
      seq(nCols, j requires 0 <= j < nCols => if r.Contains(i, j) then f(r, i, j) else c[i][j]))
  }

  /** A cell no region of rs covers lies neither in the first region nor in
      the rest. */
  lemma UncoveredSplit(rs: seq<Region>)
    requires |rs| > 0
    ensures forall i, j :: !Covered(rs, i, j) ==> !rs[0].Contains(i, j) && !Covered(rs[1..], i, j)
  {
    forall i, j | !Covered(rs, i, j) ensures !rs[0].Contains(i, j) && !Covered(rs[1..], i, j) {
      CoveredAppend([rs[0]], rs[1..], i, j);
      assert [rs[0]] + rs[1..] == rs;
    }
  }

  /** For pairwise-disjoint regions, the rest is pairwise disjoint and no
      cell of the first region is covered by the rest. */
  lemma DisjointSplit(rs: seq<Region>)
    requires |rs| > 0 && PairwiseDisjoint(rs)
    ensures PairwiseDisjoint(rs[1..])
    ensures forall i, j :: rs[0].Contains(i, j) ==> !Covered(rs[1..], i, j)
  {
    var rest := rs[1..];
    forall p, q | 0 <= p < q < |rest| ensures Disjoint(rest[p], rest[q]) {
      assert Disjoint(rs[p + 1], rs[q + 1]);
    }
    forall i, j, q | rs[0].Contains(i, j) && 0 <= q < |rest| ensures !rest[q].Contains(i, j) {
      assert Disjoint(rs[0], rs[q + 1]);
    }
  }

  /** The threads' writes, applied in sequence order. When the regions are
      pairwise disjoint, a cell of region rs[p] holds f(rs[p], i, j) and a
      cell outside every region keeps its value. */
  function WriteAll(c: Matrix, nCols: nat, rs: seq<Region>, f: (Region, int, int) -> int): (c': Matrix)
    requires IsMatrix(c, |c|, nCols)
    ensures IsMatrix(c', |c|, nCols)
    ensures PairwiseDisjoint(rs) ==> forall p, i, j :: 0 <= p < |rs| && 0 <= i < |c| && 0 <= j < nCols && rs[p].Contains(i, j) ==>
      c'[i][j] == f(rs[p], i, j)
    ensures forall i, j :: 0 <= i < |c| && 0 <= j < nCols && !Covered(rs, i, j) ==> c'[i][j] == c[i][j]
    decreases |rs|
  {
    if |rs| == 0 then c
    else
      var rest := rs[1..];
      var c1 := WriteRegion(c, nCols, rs[0], f);
      var c' := WriteAll(c1, nCols, rest, f);
      assert forall q :: 0 <= q < |rest| ==> rest[q] == rs[q + 1];
      UncoveredSplit(rs);
      if PairwiseDisjoint(rs) then
        DisjointSplit(rs);
        c'
      else
        c'
  }

  /** Reordering pairwise-disjoint regions keeps them pairwise disjoint. */
  lemma ReorderDisjoint(rs: seq<Region>, perm: seq<int>)
    requires PairwiseDisjoint(rs)
    requires IsPermutation(perm, |rs|)
    ensures PairwiseDisjoint(Reorder(rs, perm))
  {
    var order := Reorder(rs, perm);
    forall t, u | 0 <= t < u < |order| ensures Disjoint(order[t], order[u]) {
      if perm[t] < perm[u] {
        assert Disjoint(rs[perm[t]], rs[perm[u]]);
      } else {
        assert Disjoint(rs[perm[u]], rs[perm[t]]);
      }
    }
  }

  /** A reordering covers exactly the cells the original regions cover. */
  lemma ReorderCovered(rs: seq<Region>, perm: seq<int>, i: int, j: int)
    requires IsPermutation(perm, |rs|)
    ensures Covered(Reorder(rs, perm), i, j) <==> Covered(rs, i, j)
  {
    var order := Reorder(rs, perm);
    if Covered(rs, i, j) {
      var q :| 0 <= q < |rs| && rs[q].Contains(i, j);
      assert q in perm;
      var t :| 0 <= t < |perm| && perm[t] == q;
      assert order[t] == rs[q];
    }
    if Covered(order, i, j) {
      var t :| 0 <= t < |order| && order[t].Contains(i, j);
      assert rs[perm[t]].Contains(i, j);
    }
  }

  /** A cell written by region rs[q] holds f(rs[q], i, j) in every order. */
  lemma ReorderCell(c: Matrix, nCols: nat, rs: seq<Region>, f: (Region, int, int) -> int, perm: seq<int>, q: int, i: int, j: int)
    requires IsMatrix(c, |c|, nCols)
    requires PairwiseDisjoint(rs)
    requires IsPermutation(perm, |rs|)
    requires 0 <= q < |rs| && 0 <= i < |c| && 0 <= j < nCols && rs[q].Contains(i, j)
    ensures WriteAll(c, nCols, Reorder(rs, perm), f)[i][j] == f(rs[q], i, j)
  {
    var order := Reorder(rs, perm);
    ReorderDisjoint(rs, perm);
    assert q in perm;
    var t :| 0 <= t < |perm| && perm[t] == q;
    assert order[t] == rs[q];
  }

  /** With pairwise-disjoint regions, every completion order of the threads
      leaves the same matrix, whatever each worker writes. */
  lemma ScheduleIndependent(c: Matrix, nCols: nat, rs: seq<Region>, f: (Region, int, int) -> int, perm: seq<int>)
    requires IsMatrix(c, |c|, nCols)
    requires PairwiseDisjoint(rs)
    requires IsPermutation(perm, |rs|)
    ensures WriteAll(c, nCols, Reorder(rs, perm), f) == WriteAll(c, nCols, rs, f)
  {
    var x := WriteAll(c, nCols, Reorder(rs, perm), f);
    var y := WriteAll(c, nCols, rs, f);
    forall i, j | 0 <= i < |c| && 0 <= j < nCols ensures x[i][j] == y[i][j] {
      ReorderCovered(rs, perm, i, j);
      if Covered(rs, i, j) {
        var q :| 0 <= q < |rs| && rs[q].Contains(i, j);
        ReorderCell(c, nCols, rs, f, perm, q, i, j);
      }
    }
    MatrixExt(x, y, |c|, nCols);
  }

  /** Overlapping regions make the result depend on the schedule: on a 1 × 2
      matrix, regions (0, 1, 0, 1) and (0, 1, 0, 2) both write cell (0, 0),
      and whichever thread finishes last decides its value. */
  lemma OverlapOrderMatters()
    ensures
      var r1 := Region(0, 1, 0, 1);
      var r2 := Region(0, 1, 0, 2);
      var f := (r: Region, i: int, j: int) => r.colEnd;
      !PairwiseDisjoint([r1, r2]) &&
      WriteAll([[0, 0]], 2, [r1, r2], f)[0][0] == 2 &&
      WriteAll([[0, 0]], 2, [r2, r1], f)[0][0] == 1
  {
    var r1 := Region(0, 1, 0, 1);
    var r2 := Region(0, 1, 0, 2);
    var f := (r: Region, i: int, j: int) => r.colEnd;
    assert !Disjoint(r1, r2);
    var c1 := WriteRegion([[0, 0]], 2, r1, f);
    assert r1.Contains(0, 0) && f(r1, 0, 0) == 1;
    assert c1[0][0] == 1;
    var c2 := WriteRegion(c1, 2, r2, f);
    assert r2.Contains(0, 0) && f(r2, 0, 0) == 2;
    assert c2[0][0] == 2;
    assert [r1, r2][1..] == [r2];
    assert WriteAll([[0, 0]], 2, [r1, r2], f) == WriteAll(c1, 2, [r2], f);
    assert WriteAll(c1, 2, [r2], f) == WriteAll(c2, 2, [], f);
    var d1 := WriteRegion([[0, 0]], 2, r2, f);
    var d2 := WriteRegion(d1, 2, r1, f);
    assert d2[0][0] == 1;
    assert [r2, r1][1..] == [r1];
    assert WriteAll([[0, 0]], 2, [r2, r1], f) == WriteAll(d1, 2, [r1], f);
    assert WriteAll(d1, 2, [r1], f) == WriteAll(d2, 2, [], f);
  }
}
