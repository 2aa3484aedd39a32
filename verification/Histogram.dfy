/** The fixed-bin histogram, and how far its answer can be from the exact one. */
module Histogram {
  import opened Observations

  /** Bins needed to cover `maxLatency`. */
  function NumBins(binWidth: int, maxLatency: int): nat
    requires binWidth > 0 && maxLatency > 0
  {
    maxLatency / binWidth + if maxLatency % binWidth != 0 then 1 else 0
  }

  /** Go's integer division truncates towards zero. */
  function Quotient(latency: int, binWidth: int): int
    requires binWidth > 0
  {
    if latency >= 0 then latency / binWidth else -((-latency) / binWidth)
  }

  /** Only latencies of a whole negative bin width or more lead to a negative index, on which the code panics. */
  lemma NegativeIndex(latency: int, binWidth: int)
    requires binWidth > 0
    ensures Quotient(latency, binWidth) < 0 <==> latency <= -binWidth
  {
    if latency >= 0 {
      QuotientsGrow(0, latency, binWidth);
    } else {
      WholeWidths(-latency, binWidth);
    }
  }

  lemma WholeWidths(x: nat, w: int)
    requires w > 0
    ensures x / w >= 1 <==> x >= w
  {
    var q := x / w;
    assert x == w * q + x % w;
    if q >= 1 {
      ScaleUp(w, 1, q);
    } else {
      ScaleUp(w, q, 0);
    }
  }

  /** The bin of a latency; everything beyond the range goes to the last one. */
  function BinOf(latency: int, binWidth: int, bins: nat): (i: nat)
    requires latency > -binWidth && binWidth > 0 && bins > 0
    ensures i < bins
  {
    NegativeIndex(latency, binWidth);
    if Quotient(latency, binWidth) >= bins then bins - 1 else Quotient(latency, binWidth)
  }

  /** Every observation has a bin. */
  ghost predicate Binnable(s: seq<Observation>, binWidth: int) {
    forall i :: 0 <= i < |s| ==> s[i].latency > -binWidth
  }

  /** The timestamps of the observations that fall into bin `i`, in recording order. */
  function InBin(s: seq<Observation>, i: nat, binWidth: int, bins: nat): seq<int>
    requires binWidth > 0 && bins > 0 && Binnable(s, binWidth)
  {
    if s == [] then []
    else
      var init, o := s[..|s| - 1], s[|s| - 1];
      if BinOf(o.latency, binWidth, bins) == i then InBin(init, i, binWidth, bins) + [o.timestamp]
      else InBin(init, i, binWidth, bins)
  }

  /** How many observations fall below bin `i`. */
  function Below(s: seq<Observation>, i: nat, binWidth: int, bins: nat): nat
    requires binWidth > 0 && bins > 0 && Binnable(s, binWidth)
  {
    if s == [] then 0
    else
      var init, o := s[..|s| - 1], s[|s| - 1];
      Below(init, i, binWidth, bins) + if BinOf(o.latency, binWidth, bins) < i then 1 else 0
  }

  lemma {:induction false} BelowNext(s: seq<Observation>, i: nat, binWidth: int, bins: nat)
    requires binWidth > 0 && bins > 0 && Binnable(s, binWidth)
    ensures Below(s, i + 1, binWidth, bins) == Below(s, i, binWidth, bins) + |InBin(s, i, binWidth, bins)|
    decreases |s|
  {
    if s != [] {
      BelowNext(s[..|s| - 1], i, binWidth, bins);
    }
  }

  lemma {:induction false} BelowEnds(s: seq<Observation>, binWidth: int, bins: nat)
    requires binWidth > 0 && bins > 0 && Binnable(s, binWidth)
    ensures Below(s, 0, binWidth, bins) == 0 && Below(s, bins, binWidth, bins) == |s|
    decreases |s|
  {
    if s != [] {
      BelowEnds(s[..|s| - 1], binWidth, bins);
    }
  }

  lemma BinsFollowLatency(a: int, b: int, binWidth: int, bins: nat)
    requires -binWidth < a <= b && binWidth > 0 && bins > 0
    ensures BinOf(a, binWidth, bins) <= BinOf(b, binWidth, bins)
  {
    if a >= 0 {
      QuotientsGrow(a, b, binWidth);
    } else {
      NegativeIndex(b, binWidth);
      SmallNegative(a, binWidth);
    }
  }

  lemma SmallNegative(latency: int, binWidth: int)
    requires -binWidth < latency < 0
    ensures Quotient(latency, binWidth) == 0
  {
    NegativeIndex(latency, binWidth);
  }

  lemma QuotientsGrow(a: int, b: int, w: int)
    requires 0 <= a <= b && w > 0
    ensures a / w <= b / w
  {
    if a / w > b / w {
      assert w * (a / w) >= w * (b / w + 1) by {
        ScaleUp(w, b / w + 1, a / w);
      }
    }
  }

  lemma ScaleUp(w: int, x: int, y: int)
    requires w > 0 && x <= y
    ensures w * x <= w * y
  {
  }

  // ---------- counting is indifferent to order ----------

  lemma {:induction false} PlaceCounts(s: seq<Observation>, o: Observation, i: nat, binWidth: int, bins: nat)
    requires binWidth > 0 && bins > 0 && Binnable(s, binWidth) && o.latency > -binWidth
    ensures Binnable(Place(s, o), binWidth)
    ensures Below(Place(s, o), i, binWidth, bins) == Below(s, i, binWidth, bins) + Below([o], i, binWidth, bins)
    decreases |s|
  {
    if s == [] {
    } else if o.latency < s[0].latency {
      BelowCons(o, s, i, binWidth, bins);
    } else {
      PlaceCounts(s[1..], o, i, binWidth, bins);
      assert s == [s[0]] + s[1..];
      BelowCons(s[0], s[1..], i, binWidth, bins);
      BelowCons(s[0], Place(s[1..], o), i, binWidth, bins);
    }
  }

  lemma {:induction false} BelowCons(o: Observation, s: seq<Observation>, i: nat, binWidth: int, bins: nat)
    requires binWidth > 0 && bins > 0 && Binnable(s, binWidth) && o.latency > -binWidth
    ensures Below([o] + s, i, binWidth, bins) == Below([o], i, binWidth, bins) + Below(s, i, binWidth, bins)
    decreases |s|
  {
    if s == [] {
      assert [o] + s == [o];
    } else {
      var t := [o] + s;
      assert t[..|t| - 1] == [o] + s[..|s| - 1];
      BelowCons(o, s[..|s| - 1], i, binWidth, bins);
    }
  }

  lemma {:induction false} SortCounts(s: seq<Observation>, i: nat, binWidth: int, bins: nat)
    requires binWidth > 0 && bins > 0 && Binnable(s, binWidth)
    ensures Binnable(StableSort(s), binWidth)
    ensures Below(StableSort(s), i, binWidth, bins) == Below(s, i, binWidth, bins)
    decreases |s|
  {
    if s != [] {
      var init, o := s[..|s| - 1], s[|s| - 1];
      SortCounts(init, i, binWidth, bins);
      PlaceCounts(StableSort(init), o, i, binWidth, bins);
      assert [o][..0] == [];
      assert Below([o][..0], i, binWidth, bins) == 0;
    }
  }

  /** In sorted order, exactly the first `Below(i)` positions hold observations of the bins below `i`. */
  lemma {:induction false} RankBelow(s: seq<Observation>, k: nat, i: nat, binWidth: int, bins: nat)
    requires binWidth > 0 && bins > 0 && Binnable(s, binWidth) && SortedByLatency(s) && k < |s|
    ensures BinOf(s[k].latency, binWidth, bins) < i <==> k < Below(s, i, binWidth, bins)
    decreases |s|
  {
    var init, o := s[..|s| - 1], s[|s| - 1];
    if k < |init| {
      RankBelow(init, k, i, binWidth, bins);
      BinsFollowLatency(s[k].latency, o.latency, binWidth, bins);
      if BinOf(o.latency, binWidth, bins) < i {
        AllBelow(init, o, i, binWidth, bins);
      }
    } else if BinOf(o.latency, binWidth, bins) < i {
      AllBelow(init, o, i, binWidth, bins);
    } else {
      BelowAtMost(init, i, binWidth, bins);
    }
  }

  lemma {:induction false} BelowAtMost(s: seq<Observation>, i: nat, binWidth: int, bins: nat)
    requires binWidth > 0 && bins > 0 && Binnable(s, binWidth)
    ensures Below(s, i, binWidth, bins) <= |s|
    decreases |s|
  {
    if s != [] {
      BelowAtMost(s[..|s| - 1], i, binWidth, bins);
    }
  }

  lemma {:induction false} AllBelow(s: seq<Observation>, o: Observation, i: nat, binWidth: int, bins: nat)
    requires binWidth > 0 && bins > 0 && Binnable(s, binWidth) && o.latency > -binWidth
    requires forall j :: 0 <= j < |s| ==> s[j].latency <= o.latency
    requires BinOf(o.latency, binWidth, bins) < i
    ensures Below(s, i, binWidth, bins) == |s|
    decreases |s|
  {
    if s != [] {
      AllBelow(s[..|s| - 1], o, i, binWidth, bins);
      BinsFollowLatency(s[|s| - 1].latency, o.latency, binWidth, bins);
    }
  }

  // ---------- expiry per bin ----------

  lemma {:induction false} LiveKeepsBinnable(s: seq<Observation>, cutoff: int, binWidth: int)
    requires Binnable(s, binWidth)
    ensures Binnable(Live(s, cutoff), binWidth)
    decreases |s|
  {
    if s != [] {
      LiveKeepsBinnable(s[1..], cutoff, binWidth);
    }
  }

  /** The timestamps after the cutoff, in order. */
  function After(ts: seq<int>, cutoff: int): seq<int> {
    if ts == [] then []
    else if ts[|ts| - 1] > cutoff then After(ts[..|ts| - 1], cutoff) + [ts[|ts| - 1]]
    else After(ts[..|ts| - 1], cutoff)
  }

  /** Expiring the observations expires each bin's queue. */
  lemma {:induction false} ExpireBin(s: seq<Observation>, cutoff: int, i: nat, binWidth: int, bins: nat)
    requires binWidth > 0 && bins > 0 && Binnable(s, binWidth)
    ensures Binnable(Live(s, cutoff), binWidth)
    ensures InBin(Live(s, cutoff), i, binWidth, bins) == After(InBin(s, i, binWidth, bins), cutoff)
    decreases |s|
  {
    LiveKeepsBinnable(s, cutoff, binWidth);
    if s != [] {
      var init, o := s[..|s| - 1], s[|s| - 1];
      ExpireBin(init, cutoff, i, binWidth, bins);
      assert s == init + [o];
      LiveAppend(init, [o], cutoff);
      assert Live([o], cutoff) == if o.timestamp > cutoff then [o] else [];
      var live := Live(init, cutoff);
      if o.timestamp > cutoff {
        assert (live + [o])[..|live|] == live;
      } else {
        assert live + [] == live;
      }
      if BinOf(o.latency, binWidth, bins) == i {
        var ts := InBin(init, i, binWidth, bins);
        assert (ts + [o.timestamp])[..|ts|] == ts;
      }
    }
  }

  /** The timestamp, if the observation falls into bin `i`. */
  function Hit(o: Observation, i: nat, binWidth: int, bins: nat): seq<int>
    requires binWidth > 0 && bins > 0 && o.latency > -binWidth
  {
    if i == BinOf(o.latency, binWidth, bins) then [o.timestamp] else []
  }

  lemma OneMoreInBin(s: seq<Observation>, o: Observation, binWidth: int, bins: nat)
    requires binWidth > 0 && bins > 0 && Binnable(s, binWidth) && o.latency > -binWidth
    ensures Binnable(s + [o], binWidth)
    ensures forall i: nat ::
      InBin(s + [o], i, binWidth, bins) == InBin(s, i, binWidth, bins) + Hit(o, i, binWidth, bins)
  {
    assert (s + [o])[..|s|] == s;
  }

  // ---------- expiry from the front ----------

  /** What `bin.count` leaves of a queue: the expired front is dropped. */
  function DropFront(ts: seq<int>, cutoff: int): seq<int> {
    if ts == [] || ts[0] > cutoff then ts else DropFront(ts[1..], cutoff)
  }

  /** No expired timestamp stands behind one that is not. */
  ghost predicate NothingHidden(ts: seq<int>, cutoff: int) {
    forall i, j :: 0 <= i < j < |ts| && ts[j] <= cutoff ==> ts[i] <= cutoff
  }

  ghost predicate Ordered(ts: seq<int>) {
    forall i, j :: 0 <= i < j < |ts| ==> ts[i] <= ts[j]
  }

  lemma {:induction false} AfterHead(ts: seq<int>, cutoff: int)
    requires ts != []
    ensures After(ts, cutoff) == (if ts[0] > cutoff then [ts[0]] else []) + After(ts[1..], cutoff)
    decreases |ts|
  {
    var init := ts[..|ts| - 1];
    if init != [] {
      AfterHead(init, cutoff);
      assert ts[1..][..|ts| - 2] == init[1..];
    } else {
      assert ts[1..] == [] && init == [];
    }
  }

  lemma {:induction false} AllAfter(ts: seq<int>, cutoff: int)
    ensures |After(ts, cutoff)| <= |ts|
    ensures |After(ts, cutoff)| == |ts| ==> forall i :: 0 <= i < |ts| ==> ts[i] > cutoff
    ensures (forall i :: 0 <= i < |ts| ==> ts[i] > cutoff) ==> After(ts, cutoff) == ts
    decreases |ts|
  {
    if ts != [] {
      AllAfter(ts[..|ts| - 1], cutoff);
    }
  }

  /** Dropping the front is exact if and only if nothing expired hides behind it. */
  lemma {:induction false} FrontIsExactIff(ts: seq<int>, cutoff: int)
    ensures DropFront(ts, cutoff) == After(ts, cutoff) <==> NothingHidden(ts, cutoff)
    decreases |ts|
  {
    if ts != [] {
      AfterHead(ts, cutoff);
      var rest := ts[1..];
      if ts[0] <= cutoff {
        FrontIsExactIff(rest, cutoff);
        HiddenInRest(ts, cutoff);
      } else {
        AllAfter(rest, cutoff);
        assert [ts[0]] + rest == ts;
        if DropFront(ts, cutoff) == After(ts, cutoff) {
          assert forall i :: 0 < i < |ts| ==> ts[i] == rest[i - 1];
        }
      }
    }
  }

  lemma HiddenInRest(ts: seq<int>, cutoff: int)
    requires ts != [] && ts[0] <= cutoff
    ensures NothingHidden(ts, cutoff) <==> NothingHidden(ts[1..], cutoff)
  {
    var rest := ts[1..];
    if NothingHidden(ts, cutoff) {
      forall i, j | 0 <= i < j < |rest| && rest[j] <= cutoff
        ensures rest[i] <= cutoff
      {
        assert ts[j + 1] <= cutoff && ts[i + 1] == rest[i];
      }
    } else {
      var i, j :| 0 <= i < j < |ts| && ts[j] <= cutoff && ts[i] > cutoff;
      assert rest[j - 1] <= cutoff && rest[i - 1] > cutoff;
    }
  }

  /** Dropping the front is exact for every cutoff if and only if the queue is ordered. */
  lemma AlwaysExactIffOrdered(ts: seq<int>)
    ensures (forall cutoff :: DropFront(ts, cutoff) == After(ts, cutoff)) <==> Ordered(ts)
  {
    forall cutoff
      ensures DropFront(ts, cutoff) == After(ts, cutoff) <==> NothingHidden(ts, cutoff)
    {
      FrontIsExactIff(ts, cutoff);
    }
    if !Ordered(ts) {
      var i, j :| 0 <= i < j < |ts| && ts[i] > ts[j];
      assert !NothingHidden(ts, ts[j]);
      assert DropFront(ts, ts[j]) != After(ts, ts[j]);
    }
  }

  // ---------- the answer ----------

  function Edge(i: nat, binWidth: int): int {
    i * binWidth
  }

  /** The lower edge of a latency's bin. */
  function LowerEdge(latency: int, binWidth: int, bins: nat): int
    requires latency > -binWidth && binWidth > 0 && bins > 0
  {
    Edge(BinOf(latency, binWidth, bins), binWidth)
  }

  /** Never above the exact latency, and within one bin width of it inside the binned range. */
  lemma EdgeError(latency: int, binWidth: int, bins: nat)
    requires latency >= 0 && binWidth > 0 && bins > 0
    ensures LowerEdge(latency, binWidth, bins) <= latency
    ensures latency < bins * binWidth ==> latency < LowerEdge(latency, binWidth, bins) + binWidth
  {
    var q := latency / binWidth;
    assert q * binWidth <= latency < q * binWidth + binWidth;
    if q >= bins {
      ScaleUp(binWidth, bins - 1, q);
      ScaleUp(binWidth, bins, q);
    }
  }

  /** `r` is the lower edge of the bin of `e`: a multiple of the width at most one width below, the last bin's edge
      beyond the range, and zero for what is just below zero. */
  ghost predicate IsEdgeOf(r: int, e: int, binWidth: int, bins: nat)
    requires binWidth > 0
  {
    if e < 0 then r == 0
    else if e >= bins * binWidth then r == (bins - 1) * binWidth
    else r / binWidth * binWidth == r && r <= e < r + binWidth
  }

  lemma EdgeMeans(latency: int, binWidth: int, bins: nat)
    requires latency > -binWidth && binWidth > 0 && bins > 0
    ensures IsEdgeOf(LowerEdge(latency, binWidth, bins), latency, binWidth, bins)
  {
    if latency < 0 {
      SmallNegative(latency, binWidth);
    } else {
      EdgeError(latency, binWidth, bins);
      var q := latency / binWidth;
      assert latency == binWidth * q + latency % binWidth;
      if q < bins - 1 {
        ScaleUp(binWidth, q + 1, bins - 1);
      }
      if latency >= bins * binWidth && q < bins {
        ScaleUp(binWidth, q + 1, bins);
      }
      WholeMultiple(BinOf(latency, binWidth, bins), binWidth);
    }
  }

  lemma WholeMultiple(i: nat, w: int)
    requires w > 0
    ensures i * w / w == i
  {
    var q := i * w / w;
    assert i * w == w * q + i * w % w;
    if q < i {
      ScaleUp(w, q + 1, i);
    } else if q > i {
      ScaleUp(w, i + 1, q);
    }
  }

  /** The bins cover the configured range. */
  lemma BinsCoverRange(binWidth: int, maxLatency: int)
    requires binWidth > 0 && maxLatency > 0
    ensures NumBins(binWidth, maxLatency) > 0
    ensures (NumBins(binWidth, maxLatency) - 1) * binWidth < maxLatency <= NumBins(binWidth, maxLatency) * binWidth
  {
    var q := maxLatency / binWidth;
    assert maxLatency == q * binWidth + maxLatency % binWidth;
    assert (q + 1) * binWidth == q * binWidth + binWidth;
    assert (q - 1) * binWidth == q * binWidth - binWidth;
    if q == 0 {
      assert maxLatency % binWidth != 0;
    }
  }

  /** The bin in which the counts pass the rank is the bin of the exact percentile. */
  lemma PassingBin(live: seq<Observation>, p: real, i: nat, binWidth: int, bins: nat)
    requires binWidth > 0 && bins > 0 && Binnable(live, binWidth) && live != [] && 0.0 <= p <= 1.0
    requires Below(live, i, binWidth, bins) <= Rank(|live|, p) < Below(live, i + 1, binWidth, bins)
    ensures PercentileOf(live, p) > -binWidth && BinOf(PercentileOf(live, p), binWidth, bins) == i
  {
    var sorted, k := StableSort(live), Rank(|live|, p);
    StableSortSorts(live);
    SortCounts(live, i, binWidth, bins);
    SortCounts(live, i + 1, binWidth, bins);
    RankBelow(sorted, k, i, binWidth, bins);
    RankBelow(sorted, k, i + 1, binWidth, bins);
  }

  // ---------- counting the queues ----------

  datatype Bin = Bin(lower: int, upper: int, timestamps: seq<int>)

  /** The timestamps queued in the first `i` bins. */
  function Counted(bins: seq<Bin>, i: nat): nat
    requires i <= |bins|
  {
    if i == 0 then 0 else Counted(bins, i - 1) + |bins[i - 1].timestamps|
  }

  /** The answer is the edge of the bin in which the count passes the rank. */
  ghost predicate Answers(bins: seq<Bin>, p: real, r: int)
    requires 0.0 <= p <= 1.0
  {
    var total := Counted(bins, |bins|);
    if total == 0 then r == 0
    else exists i :: 0 <= i < |bins| && Passes(bins, Rank(total, p), i) && r == bins[i].lower
  }

  ghost predicate Passes(bins: seq<Bin>, rank: nat, i: nat)
    requires i < |bins|
  {
    Counted(bins, i) <= rank < Counted(bins, i) + |bins[i].timestamps|
  }

  ghost predicate HasEdges(bins: seq<Bin>, binWidth: int) {
    forall i :: 0 <= i < |bins| ==> bins[i].lower == Edge(i, binWidth)
  }

  /** Every queue holds the timestamps of the observations in its bin. */
  ghost predicate Holds(bins: seq<Bin>, s: seq<Observation>, binWidth: int)
    requires binWidth > 0 && |bins| > 0 && Binnable(s, binWidth)
  {
    forall i :: 0 <= i < |bins| ==> bins[i].timestamps == InBin(s, i, binWidth, |bins|)
  }

  lemma {:induction false} CountedIsBelow(bins: seq<Bin>, s: seq<Observation>, binWidth: int, i: nat)
    requires binWidth > 0 && |bins| > 0 && Binnable(s, binWidth) && Holds(bins, s, binWidth) && i <= |bins|
    ensures Counted(bins, i) == Below(s, i, binWidth, |bins|)
  {
    hide InBin, Below;
    if i == 0 {
      BelowEnds(s, binWidth, |bins|);
    } else {
      CountedIsBelow(bins, s, binWidth, i - 1);
      BelowNext(s, i - 1, binWidth, |bins|);
    }
  }

  /** With the right queues the answer is the lower edge of the exact percentile's bin. */
  lemma AnswerIsLowerEdge(bins: seq<Bin>, s: seq<Observation>, binWidth: int, p: real, r: int)
    requires binWidth > 0 && |bins| > 0 && Binnable(s, binWidth) && Holds(bins, s, binWidth) && HasEdges(bins, binWidth)
    requires 0.0 <= p <= 1.0 && Answers(bins, p, r)
    ensures PercentileOf(s, p) > -binWidth && r == LowerEdge(PercentileOf(s, p), binWidth, |bins|)
  {
    hide InBin, Below, PercentileOf, Counted, Edge, BinOf, Holds;
    CountedIsBelow(bins, s, binWidth, |bins|);
    BelowEnds(s, binWidth, |bins|);
    if s == [] {
      EmptyAnswer(binWidth, |bins|, p);
    } else {
      var i :| 0 <= i < |bins| && Passes(bins, Rank(|s|, p), i) && r == bins[i].lower;
      CountedIsBelow(bins, s, binWidth, i);
      CountedIsBelow(bins, s, binWidth, i + 1);
      CountedNext(bins, i);
      PassingBin(s, p, i, binWidth, |bins|);
    }
  }

  lemma CountedNext(bins: seq<Bin>, i: nat)
    requires i < |bins|
    ensures Counted(bins, i + 1) == Counted(bins, i) + |bins[i].timestamps|
  {
  }

  lemma EmptyAnswer(binWidth: int, bins: nat, p: real)
    requires binWidth > 0 && bins > 0 && 0.0 <= p <= 1.0
    ensures PercentileOf([], p) == 0 == LowerEdge(0, binWidth, bins)
  {
  }

  ghost predicate Dropped(after: seq<Bin>, before: seq<Bin>, cutoff: int) {
    |after| == |before| &&
    forall i :: 0 <= i < |after| ==> after[i] == before[i].(timestamps := DropFront(before[i].timestamps, cutoff))
  }

  /** No queue hides an expired timestamp. */
  ghost predicate AllInFront(bins: seq<Bin>, cutoff: int) {
    forall i :: 0 <= i < |bins| ==> NothingHidden(bins[i].timestamps, cutoff)
  }

  /** Queues that were right stay right exactly if nothing expired is hidden. */
  lemma ExpiryHoldsIff(before: seq<Bin>, after: seq<Bin>, s: seq<Observation>, binWidth: int, cutoff: int)
    requires binWidth > 0 && |before| > 0 && Binnable(s, binWidth) && Holds(before, s, binWidth)
    requires Dropped(after, before, cutoff)
    ensures Binnable(Live(s, cutoff), binWidth)
    ensures Holds(after, Live(s, cutoff), binWidth) <==> AllInFront(before, cutoff)
  {
    hide InBin, Live, Binnable, After, DropFront, NothingHidden;
    LiveKeepsBinnable(s, cutoff, binWidth);
    forall i | 0 <= i < |before|
      ensures after[i].timestamps == InBin(Live(s, cutoff), i, binWidth, |before|) <==>
        NothingHidden(before[i].timestamps, cutoff)
    {
      ExpireBin(s, cutoff, i, binWidth, |before|);
      FrontIsExactIff(before[i].timestamps, cutoff);
    }
  }

  const HIDING: seq<Observation> := [Observation(10, 0), Observation(10, 1), Observation(1, 1)]

  /** Two bins of width 1, cutoff 5: the expired observation hides behind a live one in the second bin and is
      counted, so the median is 1 instead of 0. */
  lemma HiddenGivesWrongAnswer(after: seq<Bin>, r: int)
    requires Dropped(after, [Bin(0, 1, [10]), Bin(1, 2, [10, 1])], 5) && Answers(after, 0.5, r)
    ensures Binnable(HIDING, 1) && Holds([Bin(0, 1, [10]), Bin(1, 2, [10, 1])], HIDING, 1)
    ensures r == 1 && PercentileOf(Live(HIDING, 5), 0.5) == 0
  {
    hide PercentileOf, Live, InBin;
    HidingQueues();
    HidingMedian();
    assert after == [Bin(0, 1, [10]), Bin(1, 2, [10, 1])];
    CountedNext(after, 0);
    CountedNext(after, 1);
    assert Rank(3, 0.5) == 1;
  }

  lemma HidingQueues()
    ensures Binnable(HIDING, 1) && InBin(HIDING, 0, 1, 2) == [10] && InBin(HIDING, 1, 1, 2) == [10, 1]
  {
    var x, y, z := HIDING[0], HIDING[1], HIDING[2];
    OneMoreInBin([], x, 1, 2);
    OneMoreInBin([x], y, 1, 2);
    OneMoreInBin([x, y], z, 1, 2);
    assert [] + [x] == [x] && [x] + [y] == [x, y] && [x, y] + [z] == HIDING;
  }

  lemma HidingMedian()
    ensures PercentileOf(Live(HIDING, 5), 0.5) == 0
  {
    var x, y, z := HIDING[0], HIDING[1], HIDING[2];
    assert HIDING == [x] + ([y] + [z]);
    LiveAppend([x], [y] + [z], 5);
    LiveAppend([y], [z], 5);
    assert Live(HIDING, 5) == [x, y];
    SortOfTwo(x, y);
    assert Rank(2, 0.5) == 0;
  }

  lemma SortOfTwo(x: Observation, y: Observation)
    requires x.latency <= y.latency
    ensures StableSort([x, y]) == [x, y]
  {
    assert [x, y][..1] == [x] && [x][..0] == [];
    assert StableSort([x]) == Place([], x);
    assert [x][1..] == [];
    assert Place([x], y) == [x] + Place([], y);
  }

  lemma RecordHolds(bins: seq<Bin>, after: seq<Bin>, s: seq<Observation>, o: Observation, binWidth: int)
    requires binWidth > 0 && |bins| > 0 && Binnable(s, binWidth) && o.latency > -binWidth && |after| == |bins|
    requires after == WithTimestamp(bins, o, binWidth)
    ensures Binnable(s + [o], binWidth)
    ensures Holds(bins, s, binWidth) ==> Holds(after, s + [o], binWidth)
  {
    hide InBin, BinOf;
    OneMoreInBin(s, o, binWidth, |bins|);
    var i := BinOf(o.latency, binWidth, |bins|);
    forall j | 0 <= j < |bins| && Holds(bins, s, binWidth)
      ensures after[j].timestamps == InBin(s + [o], j, binWidth, |bins|)
    {
      var ts := InBin(s, j, binWidth, |bins|);
      assert ts + [] == ts;
    }
  }

  function WithTimestamp(bins: seq<Bin>, o: Observation, binWidth: int): seq<Bin>
    requires binWidth > 0 && |bins| > 0 && o.latency > -binWidth
  {
    var i := BinOf(o.latency, binWidth, |bins|);
    bins[i := bins[i].(timestamps := bins[i].timestamps + [o.timestamp])]
  }

  // ---------- the structure that is updated in place ----------

  class HistogramWindowPercentile {
    const window: int
    const binWidth: int
    const bins: array<Bin>
    ghost var live: seq<Observation>  // what the simple implementation would hold

    ghost predicate Valid()
      reads this, bins
    {
      binWidth > 0 && bins.Length > 0 && Binnable(live, binWidth) && HasEdges(bins[..], binWidth)
    }

    /** The queues hold what the simple implementation holds. */
    ghost predicate Exact()
      requires Valid()
      reads this, bins
    {
      Holds(bins[..], live, binWidth)
    }

    constructor (window: int, binWidth: int, maxLatency: int)
      requires binWidth > 0 && maxLatency > 0
      ensures Valid() && Exact() && live == [] && fresh(bins)
      ensures this.window == window && this.binWidth == binWidth && bins.Length == NumBins(binWidth, maxLatency)
    {
      BinsCoverRange(binWidth, maxLatency);
      this.window := window;
      this.binWidth := binWidth;
      bins := new Bin[NumBins(binWidth, maxLatency)](i requires i >= 0 =>
        Bin(Edge(i, binWidth), Edge(i + 1, binWidth), []));
      live := [];
    }

    /** A negative index panics. */
    method Record(obs: Observation) returns (panicked: bool)
      requires Valid()
      modifies this, bins
      ensures panicked <==> obs.latency <= -binWidth
      ensures Valid() && live == if panicked then old(live) else old(live) + [obs]
      ensures bins[..] == if panicked then old(bins[..]) else WithTimestamp(old(bins[..]), obs, binWidth)
      ensures old(Exact()) ==> Exact()
    {
      hide Edge, InBin, Holds;
      NegativeIndex(obs.latency, binWidth);
      var idx := Quotient(obs.latency, binWidth);
      if idx >= bins.Length {
        idx := bins.Length - 1;
      }
      if idx < 0 {
        return true;
      }
      ghost var before := bins[..];
      AddToBin(idx, obs.timestamp);
      RecordHolds(before, bins[..], live, obs, binWidth);
      live := live + [obs];
      return false;
    }

    method AddToBin(i: nat, timestamp: int)
      requires i < bins.Length
      modifies bins
      ensures bins[..] == old(bins[..])[i := old(bins[i]).(timestamps := old(bins[i].timestamps) + [timestamp])]
    {
      bins[i] := bins[i].(timestamps := bins[i].timestamps + [timestamp]);
    }

    /** `bin.count`: drops the expired front of a queue. */
    method CountBin(i: nat, cutoff: int) returns (count: nat)
      requires i < bins.Length
      modifies bins
      ensures bins[..] == old(bins[..])[i := old(bins[i]).(timestamps := DropFront(old(bins[i].timestamps), cutoff))]
      ensures count == |bins[i].timestamps|
    {
      var ts := bins[i].timestamps;
      var idx := 0;
      while idx < |ts| && ts[idx] <= cutoff
        invariant 0 <= idx <= |ts| && DropFront(ts, cutoff) == DropFront(ts[idx..], cutoff)
      {
        idx := idx + 1;
      }
      bins[i] := bins[i].(timestamps := ts[idx..]);
      return |bins[i].timestamps|;
    }

    /** The first loop of `Percentile`: expires every bin and counts what is left. */
    method ExpireBins(cutoff: int) returns (total: nat)
      modifies bins
      ensures Dropped(bins[..], old(bins[..]), cutoff) && total == Counted(bins[..], bins.Length)
    {
      hide DropFront;
      total := 0;
      for i := 0 to bins.Length
        invariant total == Counted(bins[..], i)
        invariant forall j :: 0 <= j < i ==>
          bins[j] == old(bins[j]).(timestamps := DropFront(old(bins[j].timestamps), cutoff))
        invariant forall j :: i <= j < bins.Length ==> bins[j] == old(bins[j])
      {
        ghost var before := bins[..];
        var count := CountBin(i, cutoff);
        CountedFrame(before, bins[..], i);
        total := total + count;
      }
    }

    /** The loop never runs past the last bin: the fallback answer behind it is unreachable. Queues that were
        exact stay so if and only if none hides an expired timestamp, and then the answer is the lower edge of the
        exact answer's bin. */
    method Percentile(p: real, now: int) returns (r: int)
      requires Valid() && 0.0 <= p <= 1.0
      modifies this, bins
      ensures Valid() && live == Live(old(live), now - window)
      ensures Dropped(bins[..], old(bins[..]), now - window) && Answers(bins[..], p, r)
      ensures old(Exact()) ==> (Exact() <==> AllInFront(old(bins[..]), now - window))
      ensures Exact() ==>
        PercentileOf(live, p) > -binWidth && r == LowerEdge(PercentileOf(live, p), binWidth, bins.Length)
      ensures Exact() ==>
        exists e :: IsPercentile(old(live), now - window, p, e) && IsEdgeOf(r, e, binWidth, bins.Length)
    {
      hide IsPercentile, IsEdgeOf;
      PercentileMeans(live, now - window, p);
      hide DropFront, Live, Binnable, Holds, PercentileOf, LowerEdge, NothingHidden, AllInFront, Edge;
      LiveKeepsBinnable(live, now - window, binWidth);
      ghost var before := bins[..];
      var total := ExpireBins(now - window);
      if Holds(before, live, binWidth) {
        ExpiryHoldsIff(before, bins[..], live, binWidth, now - window);
      }
      live := Live(live, now - window);
      r := Search(total, p);
      if Exact() {
        AnswerIsLowerEdge(bins[..], live, binWidth, p, r);
        EdgeMeans(PercentileOf(live, p), binWidth, bins.Length);
      }
    }

    /** The rest of `Percentile`. */
    method Search(total: nat, p: real) returns (r: int)
      requires bins.Length > 0 && total == Counted(bins[..], bins.Length) && 0.0 <= p <= 1.0
      ensures Answers(bins[..], p, r)
    {
      if total == 0 {
        return 0;
      }
      var targetRank := Rank(total, p);
      var accumulated, i := 0, 0;
      while accumulated + |bins[i].timestamps| <= targetRank
        invariant 0 <= i < bins.Length
        invariant accumulated == Counted(bins[..], i) <= targetRank
        decreases bins.Length - i
      {
        CountedNext(bins[..], i);
        accumulated := accumulated + |bins[i].timestamps|;
        i := i + 1;
      }
      assert Passes(bins[..], targetRank, i);
      return bins[i].lower;
    }
  }

  lemma {:induction false} CountedFrame(a: seq<Bin>, b: seq<Bin>, i: nat)
    requires i <= |a| && i <= |b| && forall j :: 0 <= j < i ==> a[j] == b[j]
    ensures Counted(a, i) == Counted(b, i)
  {
    if i > 0 {
      CountedFrame(a, b, i - 1);
    }
  }
}
