/** All three implementations driven side by side. */
module PercentileRuns {
  import opened Observations
  import opened Treap
  import opened TreapHeap
  import opened Histogram

  /** No recorded latency makes the histogram panic. */
  ghost predicate BinnableCalls(calls: seq<Call>, binWidth: int) {
    forall c :: c in calls && c.Record? ==> c.obs.latency > -binWidth
  }

  function Recorded(calls: seq<Call>): seq<Observation>
    decreases |calls|
  {
    if calls == [] then []
    else if calls[0].Record? then [calls[0].obs] + Recorded(calls[1..])
    else Recorded(calls[1..])
  }

  lemma {:induction false} RecordedIsBinnable(calls: seq<Call>, binWidth: int)
    requires BinnableCalls(calls, binWidth)
    ensures Binnable(Recorded(calls), binWidth)
    decreases |calls|
  {
    if calls != [] {
      assert calls[0] in calls && forall c :: c in calls[1..] ==> c in calls;
      RecordedIsBinnable(calls[1..], binWidth);
    }
  }

  /** Each bin receives its timestamps in order; different bins may be out of step. */
  ghost predicate BinwiseOrdered(s: seq<Observation>, binWidth: int, bins: nat)
    requires binWidth > 0 && bins > 0 && Binnable(s, binWidth)
  {
    forall i :: 0 <= i < bins ==> Ordered(InBin(s, i, binWidth, bins))
  }

  lemma {:induction false} InBinAppend(s: seq<Observation>, t: seq<Observation>, i: nat, binWidth: int, bins: nat)
    requires binWidth > 0 && bins > 0 && Binnable(s, binWidth) && Binnable(t, binWidth)
    ensures InBin(s + t, i, binWidth, bins) == InBin(s, i, binWidth, bins) + InBin(t, i, binWidth, bins)
    decreases |t|
  {
    if t == [] {
      assert s + t == s;
    } else {
      var init := t[..|t| - 1];
      assert (s + t)[..|s + t| - 1] == s + init;
      InBinAppend(s, init, i, binWidth, bins);
    }
  }

  lemma {:induction false} DropIsSuffix(ts: seq<int>, cutoff: int) returns (k: nat)
    ensures k <= |ts| && DropFront(ts, cutoff) == ts[k..]
    decreases |ts|
  {
    k := 0;
    if ts != [] && ts[0] <= cutoff {
      k := DropIsSuffix(ts[1..], cutoff);
      k := k + 1;
    }
  }

  lemma OrderedPrefix(x: seq<int>, y: seq<int>)
    requires Ordered(x + y)
    ensures Ordered(x)
  {
    assert forall i :: 0 <= i < |x| ==> x[i] == (x + y)[i];
  }

  lemma OrderedAfter(x: seq<int>, y: seq<int>, cutoff: int)
    requires Ordered(x + y)
    ensures Ordered(After(x, cutoff) + y)
  {
    OrderedPrefix(x, y);
    AlwaysExactIffOrdered(x);
    var k := DropIsSuffix(x, cutoff);
    assert DropFront(x, cutoff) == After(x, cutoff);
    assert x[k..] + y == (x + y)[k..];
  }

  /** What is held and what is still to come, in order per bin. */
  ghost predicate InOrder(s: seq<Observation>, calls: seq<Call>, binWidth: int, bins: nat)
    requires binWidth > 0 && bins > 0 && Binnable(s, binWidth) && BinnableCalls(calls, binWidth)
  {
    RecordedIsBinnable(calls, binWidth);
    BinwiseOrdered(s + Recorded(calls), binWidth, bins)
  }

  lemma RecordStaysInOrder(s: seq<Observation>, calls: seq<Call>, binWidth: int, bins: nat)
    requires binWidth > 0 && bins > 0 && Binnable(s, binWidth) && BinnableCalls(calls, binWidth)
    requires calls != [] && calls[0].Record? && InOrder(s, calls, binWidth, bins)
    ensures Binnable(s + [calls[0].obs], binWidth) && BinnableCalls(calls[1..], binWidth)
    ensures InOrder(s + [calls[0].obs], calls[1..], binWidth, bins)
  {
    hide BinwiseOrdered;
    assert calls[0] in calls;
    assert s + [calls[0].obs] + Recorded(calls[1..]) == s + Recorded(calls);
  }

  lemma QueryStaysInOrder(s: seq<Observation>, calls: seq<Call>, cutoff: int, binWidth: int, bins: nat)
    requires binWidth > 0 && bins > 0 && Binnable(s, binWidth) && BinnableCalls(calls, binWidth)
    requires calls != [] && calls[0].Query? && InOrder(s, calls, binWidth, bins)
    ensures Binnable(Live(s, cutoff), binWidth) && BinnableCalls(calls[1..], binWidth)
    ensures InOrder(Live(s, cutoff), calls[1..], binWidth, bins)
  {
    hide InBin, Live, Ordered, After;
    RecordedIsBinnable(calls, binWidth);
    LiveKeepsBinnable(s, cutoff, binWidth);
    var t := Recorded(calls);
    forall i | 0 <= i < bins
      ensures Ordered(InBin(Live(s, cutoff) + t, i, binWidth, bins))
    {
      InBinAppend(s, t, i, binWidth, bins);
      InBinAppend(Live(s, cutoff), t, i, binWidth, bins);
      ExpireBin(s, cutoff, i, binWidth, bins);
      OrderedAfter(InBin(s, i, binWidth, bins), InBin(t, i, binWidth, bins), cutoff);
    }
  }

  lemma NothingIsHidden(bins: seq<Bin>, s: seq<Observation>, calls: seq<Call>, cutoff: int, binWidth: int)
    requires binWidth > 0 && |bins| > 0 && Binnable(s, binWidth) && BinnableCalls(calls, binWidth)
    requires Holds(bins, s, binWidth) && InOrder(s, calls, binWidth, |bins|)
    ensures AllInFront(bins, cutoff)
  {
    hide InBin;
    RecordedIsBinnable(calls, binWidth);
    forall i | 0 <= i < |bins|
      ensures NothingHidden(bins[i].timestamps, cutoff)
    {
      InBinAppend(s, Recorded(calls), i, binWidth, |bins|);
      OrderedPrefix(InBin(s, i, binWidth, |bins|), InBin(Recorded(calls), i, binWidth, |bins|));
    }
  }

  lemma ExactIsBinnable(live: seq<Observation>, p: real, binWidth: int)
    requires Binnable(live, binWidth) && binWidth > 0 && 0.0 <= p <= 1.0
    ensures PercentileOf(live, p) > -binWidth
  {
    SortCounts(live, 0, binWidth, 1);
  }

  /** The three implementations hold the same observations, in separate objects. */
  ghost predicate Together(naive: NaiveWindowPercentile, tree: TreapWindowPercentile,
                           histogram: HistogramWindowPercentile)
    reads naive, tree, tree.root, ReprOf(tree.root), histogram, histogram.bins
  {
    && tree.Valid() && histogram.Valid()
    && naive.window == tree.window == histogram.window
    && naive !in ReprOf(tree.root) && histogram !in ReprOf(tree.root) && histogram.bins !in ReprOf(tree.root)
    && Represents(TreeOf(tree.root), naive.observations)
    && histogram.live == naive.observations && Binnable(naive.observations, histogram.binWidth)
  }

  method RecordAll(naive: NaiveWindowPercentile, tree: TreapWindowPercentile, histogram: HistogramWindowPercentile,
                   obs: Observation, priority: int)
    requires Together(naive, tree, histogram) && obs.latency > -histogram.binWidth
    modifies naive, tree, ReprOf(tree.root), histogram, histogram.bins
    ensures Together(naive, tree, histogram) && fresh(ReprOf(tree.root) - old(ReprOf(tree.root)))
    ensures naive.observations == old(naive.observations) + [obs]
    ensures old(histogram.Exact()) ==> histogram.Exact()
  {
    hide Represents, Insert, HistogramWindowPercentile.Exact;
    RecordRepresents(TreeOf(tree.root), naive.observations, obs, priority);
    naive.Record(obs);
    tree.Record(obs, priority);
    var panicked := histogram.Record(obs);
  }

  method QueryAll(naive: NaiveWindowPercentile, tree: TreapWindowPercentile, histogram: HistogramWindowPercentile,
                  p: real, now: int) returns (a: int, b: int, c: int)
    requires Together(naive, tree, histogram) && 0.0 <= p <= 1.0
    modifies naive, tree, ReprOf(tree.root), histogram, histogram.bins
    ensures Together(naive, tree, histogram) && ReprOf(tree.root) <= old(ReprOf(tree.root))
    ensures naive.observations == Live(old(naive.observations), now - naive.window)
    ensures a == PercentileOf(naive.observations, p) && b == a
    ensures histogram.binWidth > 0 && histogram.bins.Length > 0 && a > -histogram.binWidth
    ensures old(histogram.Exact()) ==> (histogram.Exact() <==> AllInFront(old(histogram.bins[..]), now - naive.window))
    ensures histogram.Exact() ==> c == LowerEdge(a, histogram.binWidth, histogram.bins.Length)
  {
    hide Represents, Expire, PercentileOf, LowerEdge, Live, SizesExact, QueryTreap, HistogramWindowPercentile.Exact;
    hide Dropped, Answers, AllInFront;
    ExactTree(TreeOf(tree.root), naive.observations);
    QueryRepresents(TreeOf(tree.root), naive.observations, p, now - naive.window);
    a := naive.Percentile(p, now);
    b := tree.Percentile(p, now);
    c := histogram.Percentile(p, now);
    ExactIsBinnable(naive.observations, p, histogram.binWidth);
  }

  /** Not above the exact answer, and less than a bin width below it in the configured range. */
  predicate IsClose(binned: int, exact: int, binWidth: int, maxLatency: int) {
    (exact >= 0 ==> binned <= exact) && (0 <= exact < maxLatency ==> exact < binned + binWidth)
  }

  lemma EdgesAreClose(exact: seq<int>, binWidth: int, maxLatency: int)
    requires binWidth > 0 && maxLatency > 0 && forall i :: 0 <= i < |exact| ==> exact[i] > -binWidth
    ensures NumBins(binWidth, maxLatency) > 0
    ensures forall i :: 0 <= i < |exact| ==>
      IsClose(LowerEdge(exact[i], binWidth, NumBins(binWidth, maxLatency)), exact[i], binWidth, maxLatency)
  {
    hide LowerEdge, NumBins;
    BinsCoverRange(binWidth, maxLatency);
    forall i | 0 <= i < |exact| && exact[i] >= 0
      ensures IsClose(LowerEdge(exact[i], binWidth, NumBins(binWidth, maxLatency)), exact[i], binWidth, maxLatency)
    {
      EdgeError(exact[i], binWidth, NumBins(binWidth, maxLatency));
    }
  }

  /** On every run the treap answers exactly. The histogram answers with the lower edge of the exact answer's bin
      if each of its bins receives its timestamps in order: less than a bin width below it inside the range. */
  method RunAll(window: int, binWidth: int, maxLatency: int, calls: seq<Call>)
    returns (exact: seq<int>, treap: seq<int>, binned: seq<int>)
    requires binWidth > 0 && maxLatency > 0
    requires ValidCalls(calls) && BinnableCalls(calls, binWidth)
    ensures exact == RunNaive(window, [], calls) && treap == exact && |binned| == |exact|
    ensures forall i :: 0 <= i < |exact| ==> exact[i] > -binWidth
    ensures NumBins(binWidth, maxLatency) > 0
    ensures InOrder([], calls, binWidth, NumBins(binWidth, maxLatency)) ==>
      forall i :: 0 <= i < |exact| ==>
        binned[i] == LowerEdge(exact[i], binWidth, NumBins(binWidth, maxLatency)) &&
        IsClose(binned[i], exact[i], binWidth, maxLatency)
  {
    hide LowerEdge, NumBins, PercentileOf, RunNaive, Live, Binnable, BinnableCalls, InOrder, Represents, TreeOf;
    hide HistogramWindowPercentile.Exact, HistogramWindowPercentile.Valid, TreapWindowPercentile.Valid;
    hide IsClose, AllInFront;
    BinsCoverRange(binWidth, maxLatency);
    var naive, tree, histogram := Create(window, binWidth, maxLatency);
    ghost var bins := NumBins(binWidth, maxLatency);
    ghost var ordered := InOrder([], calls, binWidth, bins);
    exact, treap, binned := [], [], [];
    assert calls[0..] == calls;
    assert exact + RunNaive(window, [], calls) == RunNaive(window, [], calls);
    for i := 0 to |calls|
      invariant Together(naive, tree, histogram) && naive.window == window
      invariant fresh(ReprOf(tree.root)) && fresh(histogram.bins)
      invariant histogram.binWidth == binWidth && histogram.bins.Length == bins
      invariant BinnableCalls(calls[i..], binWidth)
      invariant ordered ==> histogram.Exact() && InOrder(naive.observations, calls[i..], binWidth, bins)
      invariant exact + RunNaive(window, naive.observations, calls[i..]) == RunNaive(window, [], calls)
      invariant treap == exact && |binned| == |exact|
      invariant forall k :: 0 <= k < |exact| ==> exact[k] > -binWidth
      invariant ordered ==> forall k :: 0 <= k < |exact| ==> binned[k] == LowerEdge(exact[k], binWidth, bins)
    {
      ghost var s := naive.observations;
      NextCall(calls, i, binWidth);
      NaiveStep(window, s, calls, i, exact);
      match calls[i]
      case Record(obs, priority) =>
        if ordered {
          RecordStaysInOrder(s, calls[i..], binWidth, bins);
        }
        RecordAll(naive, tree, histogram, obs, priority);
      case Query(p, now) =>
        if ordered {
          QueryStaysInOrder(s, calls[i..], now - window, binWidth, bins);
          QueuesInFront(histogram, calls[i..], now - window);
        }
        var a, b, c := QueryAll(naive, tree, histogram, p, now);
        exact, treap, binned := exact + [a], treap + [b], binned + [c];
    }
    NaiveEnd(window, naive.observations, calls, exact);
    EdgesAreClose(exact, binWidth, maxLatency);
  }

  method Create(window: int, binWidth: int, maxLatency: int)
    returns (naive: NaiveWindowPercentile, tree: TreapWindowPercentile, histogram: HistogramWindowPercentile)
    requires binWidth > 0 && maxLatency > 0
    ensures Together(naive, tree, histogram) && naive.observations == [] && naive.window == window
    ensures fresh(naive) && fresh(tree) && fresh(histogram) && fresh(histogram.bins) && fresh(ReprOf(tree.root))
    ensures histogram.binWidth == binWidth && histogram.bins.Length == NumBins(binWidth, maxLatency) > 0
    ensures histogram.Exact()
  {
    hide Represents, NumBins;
    naive := new NaiveWindowPercentile(window);
    tree := new TreapWindowPercentile(window);
    histogram := new HistogramWindowPercentile(window, binWidth, maxLatency);
    EmptyTree();
  }

  lemma NextCall(calls: seq<Call>, i: nat, binWidth: int)
    requires i < |calls| && BinnableCalls(calls[i..], binWidth)
    ensures calls[i..][0] == calls[i] && calls[i..][1..] == calls[i + 1..] && BinnableCalls(calls[i + 1..], binWidth)
    ensures calls[i].Record? ==> calls[i].obs.latency > -binWidth
  {
    assert calls[i] in calls[i..];
    assert forall c :: c in calls[i + 1..] ==> c in calls[i..];
  }

  lemma QueuesInFront(histogram: HistogramWindowPercentile, calls: seq<Call>, cutoff: int)
    requires histogram.Valid() && histogram.Exact() && BinnableCalls(calls, histogram.binWidth)
    requires InOrder(histogram.live, calls, histogram.binWidth, histogram.bins.Length)
    ensures AllInFront(histogram.bins[..], cutoff)
  {
    hide Holds, InOrder, AllInFront;
    NothingIsHidden(histogram.bins[..], histogram.live, calls, cutoff, histogram.binWidth);
  }

  lemma Suffix(calls: seq<Call>, i: nat)
    requires ValidCalls(calls) && i <= |calls|
    ensures ValidCalls(calls[i..])
  {
  }

  /** One step of the simple implementation's answers. */
  lemma NaiveStep(window: int, s: seq<Observation>, calls: seq<Call>, i: nat, answers: seq<int>)
    requires ValidCalls(calls) && i < |calls|
    ensures ValidCalls(calls[i..]) && ValidCalls(calls[i + 1..])
    ensures calls[i].Record? ==>
      RunNaive(window, s, calls[i..]) == RunNaive(window, s + [calls[i].obs], calls[i + 1..])
    ensures calls[i].Query? ==> 0.0 <= calls[i].p <= 1.0
    ensures calls[i].Query? ==>
      var live := Live(s, calls[i].now - window);
      answers + RunNaive(window, s, calls[i..]) ==
        answers + [PercentileOf(live, calls[i].p)] + RunNaive(window, live, calls[i + 1..])
  {
    hide PercentileOf, Live;
    Suffix(calls, i);
    Suffix(calls, i + 1);
    assert calls[i] in calls;
    assert calls[i..][0] == calls[i] && calls[i..][1..] == calls[i + 1..];
  }

  lemma NaiveEnd(window: int, s: seq<Observation>, calls: seq<Call>, answers: seq<int>)
    requires ValidCalls(calls)
    ensures ValidCalls(calls[|calls|..]) && answers + RunNaive(window, s, calls[|calls|..]) == answers
  {
  }

  lemma EmptyTree()
    ensures Represents(Leaf, [])
  {
  }

  lemma ExactTree(t: Tree, s: seq<Observation>)
    requires Represents(t, s)
    ensures SizesExact(t)
  {
  }

}
