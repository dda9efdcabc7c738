/** The second half of an epoch of `ipsr` (Src/main.cpp): samples that received
    votes take their projected normal, the squared changes of those samples are
    kept in a bounded min-heap holding the largest ones, and the mean of their
    roots decides whether the refinement has converged. */
module Convergence {
  import opened Geometry
  import opened Samples

  /** `ceil(n / 1000.0)`: the heap holds the largest thousandth of the samples. */
  function HeapCapacity(n: nat): (cap: nat)
    ensures n <= 1000 * cap
    ensures cap > 0 ==> 1000 * (cap - 1) < n
    ensures n >= 1 ==> cap >= 1
  {
    (n + 999) / 1000
  }

  predicate Sorted(h: seq<real>) {
    forall i, j :: 0 <= i < j < |h| ==> h[i] <= h[j]
  }

  /** `push`: the heap is kept as an ascending sequence, so its top (smallest
      element) is at the front. */
  function Insert(h: seq<real>, d: real): (r: seq<real>)
    requires Sorted(h)
    ensures Sorted(r)
    ensures |r| == |h| + 1
    ensures r[0] == d || (h != [] && r[0] == h[0])
  {
    if h == [] || d <= h[0] then
      SortedCons(d, h);
      [d] + h
    else
      var t := Insert(h[1..], d);
      SortedCons(h[0], t);
      [h[0]] + t
  }

  /** `push` adds the new value to the heap's contents and removes nothing. */
  lemma {:induction false} InsertAdds(h: seq<real>, d: real)
    requires Sorted(h)
    ensures multiset(Insert(h, d)) == multiset(h) + multiset{d}
  {
    if h != [] && d > h[0] {
      InsertAdds(h[1..], d);
      assert h == [h[0]] + h[1..];
    }
  }

  /** A value no larger than the front of a sorted sequence can go in front of it. */
  lemma SortedCons(a: real, t: seq<real>)
    requires Sorted(t)
    requires t != [] ==> a <= t[0]
    ensures Sorted([a] + t)
  {
  }

  /** One visit of the scan: push while the heap is below capacity; otherwise
      replace the top when the new difference is strictly larger. */
  function HeapStep(h: seq<real>, d: real, cap: nat): (r: seq<real>)
    requires Sorted(h) && |h| <= cap && 0 < cap
    ensures Sorted(r) && |r| <= cap
  {
    if |h| < cap then Insert(h, d)
    else if d > h[0] then Insert(h[1..], d)
    else h
  }

  /** The heap after the scan has visited the differences `ds` in order. */
  function HeapScan(ds: seq<real>, cap: nat): (h: seq<real>)
    requires 0 < cap || ds == []
    ensures Sorted(h) && |h| <= cap
  {
    if ds == [] then []
    else HeapStep(HeapScan(ds[..|ds| - 1], cap), ds[|ds| - 1], cap)
  }

  function Min(a: nat, b: nat): nat {
    if a <= b then a else b
  }

  /** `h` holds a largest `cap` of the values in `ds` (all of them when there are
      fewer), smallest first: no value left out exceeds the smallest kept one. */
  predicate IsTopK(h: seq<real>, cap: nat, ds: seq<real>) {
    Sorted(h)
    && multiset(h) <= multiset(ds)
    && |h| == Min(cap, |ds|)
    && forall x :: x in multiset(ds) - multiset(h) ==> h != [] && x <= h[0]
  }

  /** The bounded min-heap ends up holding exactly the largest `cap` differences. */
  lemma {:induction false} HeapScanIsTopK(ds: seq<real>, cap: nat)
    requires 0 < cap || ds == []
    ensures IsTopK(HeapScan(ds, cap), cap, ds)
  {
    if ds != [] {
      var pre := ds[..|ds| - 1];
      var d := ds[|ds| - 1];
      assert ds == pre + [d];
      HeapScanIsTopK(pre, cap);
      HeapStepKeepsTopK(HeapScan(pre, cap), d, cap, pre);
    }
  }

  /** One visit of the scan keeps the heap a top-`cap` selection. */
  lemma HeapStepKeepsTopK(h: seq<real>, d: real, cap: nat, pre: seq<real>)
    requires 0 < cap
    requires IsTopK(h, cap, pre)
    ensures IsTopK(HeapStep(h, d, cap), cap, pre + [d])
  {
    assert multiset(pre + [d]) == multiset(pre) + multiset{d};
    if |h| < cap {
      PushBelowCapacity(h, d, cap, pre);
    } else if d > h[0] {
      ReplaceTop(h, d, cap, pre);
    } else {
      assert multiset(pre + [d]) - multiset(h) == (multiset(pre) - multiset(h)) + multiset{d};
    }
  }

  /** Below capacity the heap holds every value seen so far, and pushing keeps it so. */
  lemma PushBelowCapacity(h: seq<real>, d: real, cap: nat, pre: seq<real>)
    requires 0 < cap && |h| < cap
    requires IsTopK(h, cap, pre)
    ensures IsTopK(Insert(h, d), cap, pre + [d])
  {
    assert multiset(pre + [d]) == multiset(pre) + multiset{d};
    SubMultisetSameSize(multiset(h), multiset(pre));
    InsertAdds(h, d);
    assert multiset(Insert(h, d)) == multiset(pre + [d]);
  }

  /** At capacity, a value larger than the top evicts the top; everything outside
      the heap, the evicted top as well, stays below the new top. */
  lemma ReplaceTop(h: seq<real>, d: real, cap: nat, pre: seq<real>)
    requires 0 < cap && |h| == cap
    requires IsTopK(h, cap, pre)
    requires d > h[0]
    ensures IsTopK(Insert(h[1..], d), cap, pre + [d])
  {
    var r := Insert(h[1..], d);
    InsertAdds(h[1..], d);
    var kept, all := multiset(h), multiset(pre);
    assert h == [h[0]] + h[1..];
    assert multiset(pre + [d]) == all + multiset{d};
    Evict(all, h[0], multiset(h[1..]), d);
    assert h[0] <= r[0] by {
      assert |h| > 1 ==> h[0] <= h[1];
    }
    assert multiset(pre + [d]) - multiset(r) == (all - kept) + multiset{h[0]};
    forall x | x in multiset(pre + [d]) - multiset(r)
      ensures x <= r[0]
    {
      if x != h[0] {
        assert x in all - kept;
      }
    }
  }

  /** Taking the top out of a kept part of `all` and adding `d` to both leaves
      the part kept inside, and puts the top among the values left out. */
  lemma Evict(all: multiset<real>, top: real, rest: multiset<real>, d: real)
    requires multiset{top} + rest <= all
    ensures rest + multiset{d} <= all + multiset{d}
    ensures (all + multiset{d}) - (rest + multiset{d}) == (all - (multiset{top} + rest)) + multiset{top}
  {
  }

  /** A sub-multiset of the same size is the whole multiset. */
  lemma SubMultisetSameSize<T>(a: multiset<T>, b: multiset<T>)
    requires a <= b && |a| == |b|
    ensures a == b
  {
    var rest := b - a;
    assert b == a + rest;
    assert |rest| == 0;
  }

  /** The squared changes of the samples whose projected normal is not (0,0,0), in
      sample order: the values the scan feeds to the heap. There is at most one per
      sample, and none is negative, so each has a real root. */
  function Diffs(pts: seq<Sample>, proj: seq<Vec3>): (r: seq<real>)
    requires |proj| == |pts|
    ensures |r| <= |pts|
    ensures forall j :: 0 <= j < |r| ==> r[j] >= 0.0
  {
    if pts == [] then []
    else
      var i := |pts| - 1;
      var rest := Diffs(pts[..i], proj[..i]);
      if proj[i] == Zero then rest
      else
        SquaredNormFacts(Sub(proj[i], pts[i].normal));
        rest + [SquaredNorm(Sub(proj[i], pts[i].normal))]
  }

  /** The sample list after the scan: a sample whose projected normal is (0,0,0)
      keeps its normal; every other sample takes its projected normal. */
  function Overwritten(pts: seq<Sample>, proj: seq<Vec3>): (r: seq<Sample>)
    requires |proj| == |pts|
    ensures |r| == |pts| && Positions(r) == Positions(pts)
    ensures forall i :: 0 <= i < |pts| && proj[i] == Zero ==> r[i] == pts[i]
    ensures forall i :: 0 <= i < |pts| && proj[i] != Zero ==> r[i].normal == proj[i]
  {
    seq(|pts|, i requires 0 <= i < |pts| => if proj[i] == Zero then pts[i] else pts[i].(normal := proj[i]))
  }

  /** With no projected normal at all, nothing is fed to the heap. */
  lemma {:induction false} NoVotesNoDiffs(pts: seq<Sample>, proj: seq<Vec3>)
    requires |proj| == |pts|
    requires forall i :: 0 <= i < |proj| ==> proj[i] == Zero
    ensures Diffs(pts, proj) == []
  {
    if pts != [] {
      var i := |pts| - 1;
      NoVotesNoDiffs(pts[..i], proj[..i]);
    }
  }

  /** Extending the scanned prefix by one sample feeds at most that sample's change. */
  lemma DiffsStep(pts: seq<Sample>, proj: seq<Vec3>, i: nat)
    requires |proj| == |pts| && i < |pts|
    ensures Diffs(pts[..i + 1], proj[..i + 1]) ==
      if proj[i] == Zero then Diffs(pts[..i], proj[..i])
      else Diffs(pts[..i], proj[..i]) + [SquaredNorm(Sub(proj[i], pts[i].normal))]
  {
    assert pts[..i + 1][..i] == pts[..i];
    assert proj[..i + 1][..i] == proj[..i];
  }

  /** The heap update for one difference, with `priority_queue` push, pop and top. */
  method Offer(heap: seq<real>, diff: real, cap: nat) returns (h: seq<real>)
    requires Sorted(heap) && |heap| <= cap && 0 < cap
    ensures h == HeapStep(heap, diff, cap)
  {
    h := heap;
    if |h| < cap {
      h := Insert(h, diff);
    } else if diff > h[0] {
      h := h[1..];
      h := Insert(h, diff);
    }
  }

  /** One visit of the scan: a sample whose projected normal is not (0,0,0) offers
      its squared change to the heap and takes the projected normal. */
  method Visit(pts: array<Sample>, proj: seq<Vec3>, i: nat, heap: seq<real>, cap: nat) returns (h: seq<real>)
    requires i < pts.Length == |proj|
    requires Sorted(heap) && |heap| <= cap && 0 < cap
    modifies pts
    ensures proj[i] == Zero ==> h == heap && pts[i] == old(pts[i])
    ensures proj[i] != Zero ==> h == HeapStep(heap, SquaredNorm(Sub(proj[i], old(pts[i]).normal)), cap)
    ensures proj[i] != Zero ==> pts[i] == old(pts[i]).(normal := proj[i])
    ensures forall j :: 0 <= j < pts.Length && j != i ==> pts[j] == old(pts[j])
  {
    h := heap;
    var isZero := Equals(proj[i], Zero);
    if !isZero {
      var diff := SquaredNorm(Sub(proj[i], pts[i].normal));
      h := Offer(h, diff, cap);
      pts[i] := pts[i].(normal := proj[i]);
    }
  }

  /** The scan over the samples, visiting each in order. */
  method ScanAndOverwrite(pts: array<Sample>, proj: seq<Vec3>) returns (heap: seq<real>)
    requires pts.Length == |proj|
    modifies pts
    ensures heap == HeapScan(Diffs(old(pts[..]), proj), HeapCapacity(pts.Length))
    ensures pts[..] == Overwritten(old(pts[..]), proj)
  {
    var cap := HeapCapacity(pts.Length);
    ghost var start := pts[..];
    ghost var after := Overwritten(start, proj);
    heap := [];
    for i := 0 to pts.Length
      invariant pts.Length > 0 ==> 0 < cap
      invariant heap == HeapScan(Diffs(start[..i], proj[..i]), cap)
      invariant forall j :: 0 <= j < i ==> pts[j] == after[j]
      invariant forall j :: i <= j < pts.Length ==> pts[j] == start[j]
    {
      DiffsStep(start, proj, i);
      ghost var ds := Diffs(start[..i], proj[..i]);
      assert proj[i] != Zero ==> (ds + [SquaredNorm(Sub(proj[i], start[i].normal))])[..|ds|] == ds;
      heap := Visit(pts, proj, i, heap, cap);
    }
    assert start[..pts.Length] == start;
    assert proj[..pts.Length] == proj;
  }

  /** The metric `ave_max_diff`: the mean of the roots of the heap's entries, or
      not-a-number when the heap is empty and the mean divides 0 by 0. */
  datatype Metric = Mean(value: real) | NotANumber

  /** The sum of the roots of the entries, in the order they are popped. */
  function SumRoots(h: seq<real>, sqrt: real -> real): real {
    if h == [] then 0.0 else sqrt(h[0]) + SumRoots(h[1..], sqrt)
  }

  /** Every entry's root lies in [lo, hi], so the sum lies between |h| lo and |h| hi. */
  lemma {:induction false} SumRootsBounds(h: seq<real>, sqrt: real -> real, lo: real, hi: real)
    requires forall i :: 0 <= i < |h| ==> lo <= sqrt(h[i]) <= hi
    ensures |h| as real * lo <= SumRoots(h, sqrt) <= |h| as real * hi
  {
    if h != [] {
      SumRootsBounds(h[1..], sqrt, lo, hi);
      assert (|h| - 1) as real * lo + lo == |h| as real * lo;
      assert (|h| - 1) as real * hi + hi == |h| as real * hi;
    }
  }

  /** The average loop: pop every entry, summing the roots, then divide by the
      number of entries, which is zero when no sample received a vote. */
  method Average(heap: seq<real>, sqrt: real -> real) returns (m: Metric)
    ensures heap == [] <==> m == NotANumber
    ensures heap != [] ==> m == Mean(SumRoots(heap, sqrt) / |heap| as real)
  {
    var size := |heap|;
    var h := heap;
    var ave := 0.0;
    while h != []
      invariant ave + SumRoots(h, sqrt) == SumRoots(heap, sqrt)
      decreases |h|
    {
      ave := ave + sqrt(h[0]);
      h := h[1..];
    }
    if size == 0 {
      m := NotANumber;
    } else {
      m := Mean(ave / size as real);
    }
  }

  /** The mean of roots lies within the bounds of the roots it averages. */
  lemma MeanBounds(h: seq<real>, sqrt: real -> real, lo: real, hi: real)
    requires h != []
    requires forall i :: 0 <= i < |h| ==> lo <= sqrt(h[i]) <= hi
    ensures lo <= SumRoots(h, sqrt) / |h| as real <= hi
  {
    SumRootsBounds(h, sqrt, lo, hi);
    QuotientBounds(SumRoots(h, sqrt), |h| as real, lo, hi);
  }

  lemma QuotientBounds(s: real, n: real, lo: real, hi: real)
    requires n > 0.0 && n * lo <= s <= n * hi
    ensures lo <= s / n <= hi
  {
    var q := s / n;
    assert q * n == s;
    assert (q - lo) * n == q * n - lo * n;
    NonNegativeFactor(q - lo, n);
    assert (hi - q) * n == hi * n - q * n;
    NonNegativeFactor(hi - q, n);
  }

  lemma NonNegativeFactor(a: real, b: real)
    requires b > 0.0 && a * b >= 0.0
    ensures a >= 0.0
  {
  }

  /** The threshold below which the refinement stops. */
  const Threshold: real := 0.175

  /** `ave_max_diff < 0.175`: false for not-a-number, as every ordered comparison
      with it is. */
  predicate Converged(m: Metric) {
    m.Mean? && m.value < Threshold
  }

  /** An empty heap never stops the loop; otherwise the loop stops when every root
      in the heap is at most some bound below the threshold, and goes on when every
      root is at least the threshold. */
  lemma ConvergedByRoots(h: seq<real>, sqrt: real -> real, lo: real, hi: real)
    requires forall i :: 0 <= i < |h| ==> lo <= sqrt(h[i]) <= hi
    ensures !Converged(NotANumber)
    ensures h != [] && hi < Threshold ==> Converged(Mean(SumRoots(h, sqrt) / |h| as real))
    ensures h != [] && lo >= Threshold ==> !Converged(Mean(SumRoots(h, sqrt) / |h| as real))
  {
    if h != [] {
      MeanBounds(h, sqrt, lo, hi);
    }
  }
}
