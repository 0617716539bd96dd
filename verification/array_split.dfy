/** The sizing rule of np.array_split(range(n), k): k contiguous sections,
    the first n % k of them one element longer than the rest, cut at the
    cumulative sums of the section sizes. */
module ArraySplit {
  import opened Arith

  function Min(a: int, b: int): int {
    if a <= b then a else b
  }

  /** range(lo, hi) as the sequence of its elements. */
  function Range(lo: int, hi: int): (r: seq<int>)
    requires lo <= hi
    ensures |r| == hi - lo
    ensures forall t :: 0 <= t < |r| ==> r[t] == lo + t
  {
    seq(hi - lo, t requires 0 <= t < hi - lo => lo + t)
  }

  /** Section sizes for n elements in k sections: n / k + 1 for the first
      n % k sections, n / k for the others. */
  function SectionSizes(n: nat, k: nat): (sizes: seq<nat>)
    requires k >= 1
    ensures |sizes| == k
  {
    seq(k, g requires 0 <= g < k => if g < n % k then n / k + 1 else n / k)
  }

  function Sum(s: seq<nat>): nat
    decreases |s|
  {
    if |s| == 0 then 0 else Sum(s[..|s| - 1]) + s[|s| - 1]
  }

  /** Sections of sizes q + 1 (the first r of them) then q: the first g sizes
      add up to g * q + min(g, r). */
  lemma {:induction false} PrefixClosedForm(sizes: seq<nat>, q: nat, r: nat, g: nat)
    requires g <= |sizes|
    requires forall t :: 0 <= t < |sizes| ==> sizes[t] == if t < r then q + 1 else q
    ensures Sum(sizes[..g]) == g * q + Min(g, r)
    decreases g
  {
    if g > 0 {
      PrefixClosedForm(sizes, q, r, g - 1);
      assert sizes[..g][..g - 1] == sizes[..g - 1];
      MulStep(g, q);
    }
  }

  /** The closed form never passes n. */
  lemma ClosedFormBound(n: nat, k: nat, g: nat)
    requires 1 <= k && g <= k
    ensures g * (n / k) + Min(g, n % k) <= n
  {
    var q, r := n / k, n % k;
    DivMod(n, k);
    MulMonotone(g, k, q);
  }

  /** np.array_split's division points: the cumulative sums of the section
      sizes. They start at 0, end at n and step by one section size at a
      time. */
  function DivPoints(n: nat, k: nat): (points: seq<nat>)
    requires k >= 1
    ensures |points| == k + 1
    ensures points[0] == 0 && points[k] == n
    ensures forall g :: 0 <= g < k ==> points[g + 1] == points[g] + SectionSizes(n, k)[g]
    ensures forall g :: 0 <= g <= k ==> points[g] <= n
  {
    var sizes := SectionSizes(n, k);
    var points := seq(k + 1, g requires 0 <= g <= k => Sum(sizes[..g]));
    forall g | 0 <= g <= k ensures points[g] == g * (n / k) + Min(g, n % k) && points[g] <= n {
      PrefixClosedForm(sizes, n / k, n % k, g);
      ClosedFormBound(n, k, g);
    }
    assert points[k] == n by {
      DivMod(n, k);
    }
    forall g | 0 <= g < k ensures points[g + 1] == points[g] + sizes[g] {
      assert sizes[..g + 1][..g] == sizes[..g];
    }
    points
  }

  /** Division point g sits at g * (n / k) + min(g, n % k). */
  lemma DivPointsClosedForm(n: nat, k: nat, g: nat)
    requires 1 <= k && g <= k
    ensures DivPoints(n, k)[g] == g * (n / k) + Min(g, n % k)
  {
    PrefixClosedForm(SectionSizes(n, k), n / k, n % k, g);
  }

  /** np.array_split(xs, k): the k slices of xs between consecutive division
      points. */
  function Split<T>(xs: seq<T>, k: nat): (groups: seq<seq<T>>)
    requires k >= 1
    ensures |groups| == k
  {
    var points := DivPoints(|xs|, k);
    seq(k, g requires 0 <= g < k => xs[points[g]..points[g + 1]])
  }

  /** Joins the groups back together, in order. */
  function Concat<T>(groups: seq<seq<T>>): seq<T>
    decreases |groups|
  {
    if |groups| == 0 then [] else Concat(groups[..|groups| - 1]) + groups[|groups| - 1]
  }

  /** Section g holds n / k + 1 elements when g < n % k and n / k otherwise. */
  lemma SplitSizes<T>(xs: seq<T>, k: nat)
    requires k >= 1
    ensures forall g :: 0 <= g < k ==>
      |Split(xs, k)[g]| == (if g < |xs| % k then |xs| / k + 1 else |xs| / k)
  {
  }

  /** Sections never grow along the split, and any two differ in size by at
      most one. */
  lemma SplitBalanced<T>(xs: seq<T>, k: nat)
    requires k >= 1
    ensures forall g, h :: 0 <= g <= h < k ==>
      |Split(xs, k)[h]| <= |Split(xs, k)[g]| <= |Split(xs, k)[h]| + 1
  {
    SplitSizes(xs, k);
  }

  /** Every section is non-empty exactly when there are at least as many
      elements as sections. */
  lemma SplitNonEmpty<T>(xs: seq<T>, k: nat)
    requires k >= 1
    ensures (forall g :: 0 <= g < k ==> |Split(xs, k)[g]| > 0) <==> |xs| >= k
  {
    SplitSizes(xs, k);
    if |xs| >= k {
      DivAtLeastOne(|xs|, k);
      forall g | 0 <= g < k ensures |Split(xs, k)[g]| > 0 {
        assert |Split(xs, k)[g]| >= |xs| / k;
      }
    } else {
      SmallDivMod(|xs|, k);
      assert |Split(xs, k)[k - 1]| == 0;
    }
  }

  /** The sections, joined in order, give back xs: every element lands in
      exactly one section, and sections are contiguous. */
  lemma SplitConcat<T>(xs: seq<T>, k: nat)
    requires k >= 1
    ensures Concat(Split(xs, k)) == xs
  {
    var groups := Split(xs, k);
    var points := DivPoints(|xs|, k);
    SplitPrefixConcat(xs, k, k);
    assert groups[..k] == groups;
    assert xs[..points[k]] == xs;
  }

  /** A prefix of xs is a shorter prefix followed by the slice between. */
  lemma SliceJoin<T>(xs: seq<T>, a: nat, b: nat)
    requires a <= b <= |xs|
    ensures xs[..b] == xs[..a] + xs[a..b]
  {
  }

  lemma {:induction false} SplitPrefixConcat<T>(xs: seq<T>, k: nat, g: nat)
    requires 1 <= k && g <= k
    ensures Concat(Split(xs, k)[..g]) == xs[..DivPoints(|xs|, k)[g]]
    decreases g
  {
    var groups := Split(xs, k);
    var points := DivPoints(|xs|, k);
    if g > 0 {
      var a, b := points[g - 1], points[g];
      assert a <= b <= |xs|;
      SplitPrefixConcat(xs, k, g - 1);
      assert groups[..g][..g - 1] == groups[..g - 1];
      assert groups[g - 1] == xs[a..b];
      SliceJoin(xs, a, b);
    }
  }

  /** A slice of range(lo, hi) is again a range. */
  lemma RangeSlice(lo: int, hi: int, a: nat, b: nat)
    requires lo <= hi && a <= b <= hi - lo
    ensures Range(lo, hi)[a..b] == Range(lo + a, lo + b)
  {
  }

  /** Splitting range(n) gives the ranges between consecutive division points. */
  lemma SplitRange(n: nat, k: nat)
    requires k >= 1
    ensures forall g :: 0 <= g < k ==>
      Split(Range(0, n), k)[g] == Range(DivPoints(n, k)[g], DivPoints(n, k)[g + 1])
  {
    var points := DivPoints(n, k);
    forall g | 0 <= g < k ensures Split(Range(0, n), k)[g] == Range(points[g], points[g + 1]) {
      var a, b := points[g], points[g + 1];
      assert a <= b <= n;
      assert Split(Range(0, n), k)[g] == Range(0, n)[a..b];
      RangeSlice(0, n, a, b);
    }
  }
}
