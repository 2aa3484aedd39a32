/** Latency observations, and the percentile that sorts them anew on every call. */
module Observations {

  datatype Observation = Observation(timestamp: int, latency: int)

  /** Observations that have not expired; the window excludes the cutoff itself. */
  function Live(s: seq<Observation>, cutoff: int): seq<Observation> {
    if s == [] then []
    else if s[0].timestamp > cutoff then [s[0]] + Live(s[1..], cutoff)
    else Live(s[1..], cutoff)
  }

  function Latencies(s: seq<Observation>): (r: seq<int>)
    ensures |r| == |s| && forall i :: 0 <= i < |s| ==> r[i] == s[i].latency
  {
    seq(|s|, i requires 0 <= i < |s| => s[i].latency)
  }

  /** `int(float64(n-1) * p)`, over the reals. */
  function Rank(n: nat, p: real): (r: nat)
    requires n > 0 && 0.0 <= p <= 1.0
    ensures r < n && r as real <= (n - 1) as real * p < r as real + 1.0
  {
    Fraction((n - 1) as real, p);
    ((n - 1) as real * p).Floor
  }

  lemma Fraction(x: real, p: real)
    requires 0.0 <= x && 0.0 <= p <= 1.0
    ensures 0.0 <= x * p <= x
  {
  }

  // ---------- sorting ----------

  ghost predicate SortedByLatency(s: seq<Observation>) {
    forall i, j :: 0 <= i < j < |s| ==> s[i].latency <= s[j].latency
  }

  /** Behind everything that is not larger. */
  function Place(s: seq<Observation>, o: Observation): (r: seq<Observation>)
    ensures |r| == |s| + 1
  {
    if s == [] then [o]
    else if o.latency < s[0].latency then [o] + s
    else [s[0]] + Place(s[1..], o)
  }

  /** The observations by latency, equal ones in the order they were recorded. */
  function StableSort(s: seq<Observation>): (r: seq<Observation>)
    ensures |r| == |s|
  {
    if s == [] then [] else Place(StableSort(s[..|s| - 1]), s[|s| - 1])
  }

  function WithLatency(s: seq<Observation>, latency: int): seq<Observation> {
    if s == [] then []
    else if s[0].latency == latency then [s[0]] + WithLatency(s[1..], latency)
    else WithLatency(s[1..], latency)
  }

  ghost predicate AtLeast(s: seq<Observation>, low: int) {
    forall i :: 0 <= i < |s| ==> s[i].latency >= low
  }

  lemma {:induction false} PlaceKeepsBound(s: seq<Observation>, o: Observation, low: int)
    requires AtLeast(s, low) && o.latency >= low
    ensures AtLeast(Place(s, o), low)
    decreases |s|
  {
    if s != [] && o.latency >= s[0].latency {
      PlaceKeepsBound(s[1..], o, low);
    }
  }

  lemma SortedFromHead(x: Observation, t: seq<Observation>)
    requires SortedByLatency(t) && AtLeast(t, x.latency)
    ensures SortedByLatency([x] + t)
  {
  }

  lemma {:induction false} PlaceKeepsSorted(s: seq<Observation>, o: Observation)
    requires SortedByLatency(s)
    ensures SortedByLatency(Place(s, o))
    decreases |s|
  {
    if s != [] {
      if o.latency >= s[0].latency {
        PlaceKeepsSorted(s[1..], o);
        PlaceKeepsBound(s[1..], o, s[0].latency);
        SortedFromHead(s[0], Place(s[1..], o));
      } else {
        assert AtLeast(s, o.latency);
        SortedFromHead(o, s);
      }
    }
  }

  lemma {:induction false} PlaceIsStable(s: seq<Observation>, o: Observation, latency: int)
    requires SortedByLatency(s)
    ensures WithLatency(Place(s, o), latency) == WithLatency(s, latency) + if o.latency == latency then [o] else []
    decreases |s|
  {
    if s == [] {
    } else if o.latency < s[0].latency {
      assert Place(s, o)[1..] == s;
      if latency == o.latency {
        NoneWithLatency(s, latency);
      }
    } else {
      PlaceIsStable(s[1..], o, latency);
      assert Place(s, o)[1..] == Place(s[1..], o);
    }
  }

  lemma {:induction false} NoneWithLatency(s: seq<Observation>, latency: int)
    requires forall i :: 0 <= i < |s| ==> s[i].latency != latency
    ensures WithLatency(s, latency) == []
    decreases |s|
  {
    if s != [] {
      NoneWithLatency(s[1..], latency);
    }
  }

  lemma {:induction false} WithLatencyAppend(s: seq<Observation>, o: Observation, latency: int)
    ensures WithLatency(s + [o], latency) == WithLatency(s, latency) + if o.latency == latency then [o] else []
    decreases |s|
  {
    if s != [] {
      assert (s + [o])[1..] == s[1..] + [o];
      WithLatencyAppend(s[1..], o, latency);
    } else {
      assert [o][1..] == [];
    }
  }

  /** A sorted permutation that keeps the recording order of equal latencies. */
  lemma {:induction false} StableSortSorts(s: seq<Observation>)
    ensures SortedByLatency(StableSort(s))
    ensures forall latency :: WithLatency(StableSort(s), latency) == WithLatency(s, latency)
    decreases |s|
  {
    if s != [] {
      var init, o := s[..|s| - 1], s[|s| - 1];
      assert s == init + [o];
      StableSortSorts(init);
      PlaceKeepsSorted(StableSort(init), o);
      forall latency
        ensures WithLatency(StableSort(s), latency) == WithLatency(s, latency)
      {
        PlaceIsStable(StableSort(init), o, latency);
        WithLatencyAppend(init, o, latency);
      }
    }
  }

  /** Expiry keeps exactly the observations after the cutoff, each as often as it was recorded. */
  lemma {:induction false} LiveMeans(s: seq<Observation>, cutoff: int)
    ensures forall o :: multiset(Live(s, cutoff))[o] == if o.timestamp > cutoff then multiset(s)[o] else 0
    decreases |s|
  {
    if s != [] {
      LiveMeans(s[1..], cutoff);
      assert s == [s[0]] + s[1..];
    }
  }

  lemma {:induction false} LiveAppend(s: seq<Observation>, t: seq<Observation>, cutoff: int)
    ensures Live(s + t, cutoff) == Live(s, cutoff) + Live(t, cutoff)
    decreases |s|
  {
    if s == [] {
      assert s + t == t;
    } else {
      assert (s + t)[0] == s[0] && (s + t)[1..] == s[1..] + t;
      LiveAppend(s[1..], t, cutoff);
    }
  }

  lemma {:induction false} LiveOfPlace(s: seq<Observation>, o: Observation, cutoff: int)
    requires SortedByLatency(s)
    ensures Live(Place(s, o), cutoff) ==
      if o.timestamp > cutoff then Place(Live(s, cutoff), o) else Live(s, cutoff)
    decreases |s|
  {
    if s == [] {
      assert [o][1..] == [];
    } else if o.latency < s[0].latency {
      assert Place(s, o)[1..] == s;
      LiveKeepsBound(s, cutoff, s[0].latency);
      var live := Live(s, cutoff);
      assert live != [] ==> o.latency < live[0].latency;
    } else {
      LiveOfPlace(s[1..], o, cutoff);
      assert Place(s, o)[0] == s[0] && Place(s, o)[1..] == Place(s[1..], o);
      LiveKeepsBound(s[1..], cutoff, s[0].latency);
      var live := Live(s[1..], cutoff);
      if s[0].timestamp > cutoff {
        assert Live(s, cutoff)[0] == s[0] && Live(s, cutoff)[1..] == live;
      }
    }
  }

  lemma {:induction false} LiveKeepsBound(s: seq<Observation>, cutoff: int, low: int)
    requires AtLeast(s, low)
    ensures AtLeast(Live(s, cutoff), low)
    decreases |s|
  {
    if s != [] {
      LiveKeepsBound(s[1..], cutoff, low);
    }
  }

  /** Expiring and sorting commute. */
  lemma {:induction false} LiveOfStableSort(s: seq<Observation>, cutoff: int)
    ensures Live(StableSort(s), cutoff) == StableSort(Live(s, cutoff))
    decreases |s|
  {
    if s != [] {
      var init, o := s[..|s| - 1], s[|s| - 1];
      assert s == init + [o];
      LiveOfStableSort(init, cutoff);
      StableSortSorts(init);
      LiveOfPlace(StableSort(init), o, cutoff);
      LiveAppend(init, [o], cutoff);
      assert [o][1..] == [];
      var live := Live(init, cutoff);
      if o.timestamp > cutoff {
        assert (live + [o])[..|live|] == live;
      } else {
        assert live + [] == live;
      }
    }
  }

  // ---------- the simple implementation ----------

  datatype Call = Record(obs: Observation, priority: int) | Query(p: real, now: int)

  ghost predicate ValidCalls(calls: seq<Call>) {
    forall c :: c in calls && c.Query? ==> 0.0 <= c.p <= 1.0
  }

  /** The answer over the live observations: the latency at the rank, zero if there is none. */
  function PercentileOf(live: seq<Observation>, p: real): int
    requires 0.0 <= p <= 1.0
  {
    if live == [] then 0 else StableSort(live)[Rank(|live|, p)].latency
  }

  /** The positions of the observations that have not expired. */
  ghost function Unexpired(s: seq<Observation>, cutoff: int): set<nat> {
    set i: nat | i < |s| && s[i].timestamp > cutoff
  }

  /** Those with a latency below `bound`. */
  ghost function Lower(s: seq<Observation>, cutoff: int, bound: int): set<nat> {
    set i: nat | i < |s| && s[i].timestamp > cutoff && s[i].latency < bound
  }

  /** Of the n unexpired latencies at most (n-1)*p are below `r`, and more than (n-1)*p are `r` or below. */
  ghost predicate IsPercentile(s: seq<Observation>, cutoff: int, p: real, r: int) {
    var n := |Unexpired(s, cutoff)|;
    if n == 0 then r == 0
    else |Lower(s, cutoff, r)| as real <= (n - 1) as real * p < |Lower(s, cutoff, r + 1)| as real
  }

  /** How many latencies are below `bound`. */
  function Fewer(s: seq<Observation>, bound: int): nat {
    if s == [] then 0 else Fewer(s[..|s| - 1], bound) + if s[|s| - 1].latency < bound then 1 else 0
  }

  lemma {:induction false} FewerAppend(s: seq<Observation>, t: seq<Observation>, bound: int)
    ensures Fewer(s + t, bound) == Fewer(s, bound) + Fewer(t, bound)
    decreases |t|
  {
    if t == [] {
      assert s + t == s;
    } else {
      assert (s + t)[..|s + t| - 1] == s + t[..|t| - 1];
      FewerAppend(s, t[..|t| - 1], bound);
    }
  }

  lemma {:induction false} PlaceKeepsFewer(s: seq<Observation>, o: Observation, bound: int)
    ensures Fewer(Place(s, o), bound) == Fewer(s, bound) + Fewer([o], bound)
    decreases |s|
  {
    if s == [] {
    } else if o.latency < s[0].latency {
      FewerAppend([o], s, bound);
    } else {
      PlaceKeepsFewer(s[1..], o, bound);
      assert s == [s[0]] + s[1..];
      FewerAppend([s[0]], s[1..], bound);
      FewerAppend([s[0]], Place(s[1..], o), bound);
    }
  }

  lemma {:induction false} SortKeepsFewer(s: seq<Observation>, bound: int)
    ensures Fewer(StableSort(s), bound) == Fewer(s, bound)
    decreases |s|
  {
    if s != [] {
      var init, o := s[..|s| - 1], s[|s| - 1];
      SortKeepsFewer(init, bound);
      PlaceKeepsFewer(StableSort(init), o, bound);
      assert s == init + [o];
      FewerAppend(init, [o], bound);
    }
  }

  lemma {:induction false} FewerAtMost(s: seq<Observation>, bound: int)
    ensures Fewer(s, bound) <= |s|
    decreases |s|
  {
    if s != [] {
      FewerAtMost(s[..|s| - 1], bound);
    }
  }

  /** In sorted order exactly the first positions are below the bound. */
  lemma {:induction false} SortedFewer(s: seq<Observation>, k: nat, bound: int)
    requires SortedByLatency(s) && k < |s|
    ensures s[k].latency < bound <==> k < Fewer(s, bound)
    decreases |s|
  {
    var init := s[..|s| - 1];
    FewerAtMost(init, bound);
    if k < |init| {
      SortedFewer(init, k, bound);
      if s[|s| - 1].latency < bound {
        SortedFewer(init, |init| - 1, bound);
      }
    } else if s[k].latency < bound && init != [] {
      SortedFewer(init, |init| - 1, bound);
    }
  }

  /** Counting positions is counting the sequence that is left after expiry. */
  lemma {:induction false} Positions(s: seq<Observation>, cutoff: int, bound: int)
    ensures |Unexpired(s, cutoff)| == |Live(s, cutoff)|
    ensures |Lower(s, cutoff, bound)| == Fewer(Live(s, cutoff), bound)
    decreases |s|
  {
    hide Unexpired, Lower;
    if s == [] {
      NoPositions(cutoff, bound);
    } else {
      var init, o := s[..|s| - 1], s[|s| - 1];
      Positions(init, cutoff, bound);
      assert s == init + [o];
      LiveAppend(init, [o], cutoff);
      FewerAppend(Live(init, cutoff), Live([o], cutoff), bound);
      OneLive(o, cutoff, bound);
      LastUnexpired(init, o, cutoff);
      LastLower(init, o, cutoff, bound);
    }
  }

  lemma OneLive(o: Observation, cutoff: int, bound: int)
    ensures Live([o], cutoff) == if o.timestamp > cutoff then [o] else []
    ensures Fewer(Live([o], cutoff), bound) == if o.timestamp > cutoff && o.latency < bound then 1 else 0
  {
    assert [o][1..] == [] && [o][..0] == [];
  }

  lemma NoPositions(cutoff: int, bound: int)
    ensures Unexpired([], cutoff) == {} && Lower([], cutoff, bound) == {}
  {
  }

  lemma LastUnexpired(init: seq<Observation>, o: Observation, cutoff: int)
    ensures |Unexpired(init + [o], cutoff)| == |Unexpired(init, cutoff)| + if o.timestamp > cutoff then 1 else 0
  {
    assert Unexpired(init + [o], cutoff) == Unexpired(init, cutoff) + if o.timestamp > cutoff then {|init|} else {};
  }

  lemma LastLower(init: seq<Observation>, o: Observation, cutoff: int, bound: int)
    ensures |Lower(init + [o], cutoff, bound)| ==
      |Lower(init, cutoff, bound)| + if o.timestamp > cutoff && o.latency < bound then 1 else 0
  {
    assert Lower(init + [o], cutoff, bound) ==
      Lower(init, cutoff, bound) + if o.timestamp > cutoff && o.latency < bound then {|init|} else {};
  }

  /** The latency at the rank is the percentile. */
  lemma PercentileMeans(s: seq<Observation>, cutoff: int, p: real)
    requires 0.0 <= p <= 1.0
    ensures IsPercentile(s, cutoff, p, PercentileOf(Live(s, cutoff), p))
  {
    hide Live, PercentileOf, Unexpired, Lower;
    var live := Live(s, cutoff);
    var r := PercentileOf(live, p);
    Positions(s, cutoff, r);
    Positions(s, cutoff, r + 1);
    if live == [] {
      NoAnswer(p);
    } else {
      RankDecides(live, p);
    }
  }

  lemma NoAnswer(p: real)
    requires 0.0 <= p <= 1.0
    ensures PercentileOf([], p) == 0
  {
  }

  /** There is only one percentile. */
  lemma PercentileIsUnique(s: seq<Observation>, cutoff: int, p: real, a: int, b: int)
    requires IsPercentile(s, cutoff, p, a) && IsPercentile(s, cutoff, p, b)
    ensures a == b
  {
    hide Unexpired, Lower;
    if a < b {
      LowerGrows(s, cutoff, a + 1, b);
    } else if b < a {
      LowerGrows(s, cutoff, b + 1, a);
    }
  }

  lemma LowerGrows(s: seq<Observation>, cutoff: int, a: int, b: int)
    requires a <= b
    ensures |Lower(s, cutoff, a)| <= |Lower(s, cutoff, b)|
  {
    Subset(Lower(s, cutoff, a), Lower(s, cutoff, b));
  }

  lemma {:induction false} Subset(a: set<nat>, b: set<nat>)
    requires a <= b
    ensures |a| <= |b|
    decreases a
  {
    if a != {} {
      var x :| x in a;
      Subset(a - {x}, b - {x});
    }
  }

  lemma RankDecides(live: seq<Observation>, p: real)
    requires 0.0 <= p <= 1.0 && live != []
    ensures var r, x := PercentileOf(live, p), (|live| - 1) as real * p;
      Fewer(live, r) as real <= x < Fewer(live, r + 1) as real
  {
    hide Rank, StableSort, Fewer;
    var sorted, k, r := StableSort(live), Rank(|live|, p), PercentileOf(live, p);
    StableSortSorts(live);
    SortKeepsFewer(live, r);
    SortKeepsFewer(live, r + 1);
    SortedFewer(sorted, k, r);
    SortedFewer(sorted, k, r + 1);
  }

  /** Expired observations are forgotten by the query that finds them expired. */
  function RunNaive(window: int, s: seq<Observation>, calls: seq<Call>): seq<int>
    requires ValidCalls(calls)
    decreases |calls|
  {
    if calls == [] then [] else
      match calls[0]
      case Record(o, _) => RunNaive(window, s + [o], calls[1..])
      case Query(p, now) =>
        assert calls[0] in calls;
        var live := Live(s, now - window);
        [PercentileOf(live, p)] + RunNaive(window, live, calls[1..])
  }

  ghost predicate Ascending(s: seq<int>) {
    forall i, j :: 0 <= i < j < |s| ==> s[i] <= s[j]
  }

  function Count(s: seq<int>, x: int): nat {
    if s == [] then 0 else (if s[|s| - 1] == x then 1 else 0) + Count(s[..|s| - 1], x)
  }

  function PlaceInt(s: seq<int>, x: int): (r: seq<int>)
    ensures |r| == |s| + 1
  {
    if s == [] then [x] else if s[|s| - 1] <= x then s + [x] else PlaceInt(s[..|s| - 1], x) + [s[|s| - 1]]
  }

  /** `slices.Sort`. */
  function SortInts(s: seq<int>): (r: seq<int>)
    ensures |r| == |s|
  {
    if s == [] then [] else PlaceInt(SortInts(s[..|s| - 1]), s[|s| - 1])
  }

  lemma {:induction false} PlaceIntSorts(s: seq<int>, x: int, high: int)
    requires Ascending(s) && (forall i :: 0 <= i < |s| ==> s[i] <= high) && x <= high
    ensures Ascending(PlaceInt(s, x)) && forall i :: 0 <= i < |PlaceInt(s, x)| ==> PlaceInt(s, x)[i] <= high
    ensures forall y :: Count(PlaceInt(s, x), y) == Count(s, y) + if x == y then 1 else 0
    decreases |s|
  {
    var r := PlaceInt(s, x);
    if s == [] || s[|s| - 1] <= x {
      assert r[..|s|] == s;
    } else {
      PlaceIntSorts(s[..|s| - 1], x, s[|s| - 1]);
      assert r[..|s|] == PlaceInt(s[..|s| - 1], x);
    }
  }

  lemma {:induction false} SortIntsSorts(s: seq<int>)
    ensures Ascending(SortInts(s)) && forall y :: Count(SortInts(s), y) == Count(s, y)
    decreases |s|
  {
    if s != [] {
      var init, x := SortInts(s[..|s| - 1]), s[|s| - 1];
      SortIntsSorts(s[..|s| - 1]);
      PlaceIntSorts(init, x, if init != [] && init[|init| - 1] > x then init[|init| - 1] else x);
    }
  }

  lemma {:induction false} PlaceIntBehindHead(h: int, s: seq<int>, x: int)
    requires h <= x
    ensures PlaceInt([h] + s, x) == [h] + PlaceInt(s, x)
    decreases |s|
  {
    var t := [h] + s;
    if s == [] {
      assert PlaceInt([h], x) == [h] + [x];
    } else if s[|s| - 1] > x {
      assert t[..|t| - 1] == [h] + s[..|s| - 1];
      PlaceIntBehindHead(h, s[..|s| - 1], x);
    }
  }

  lemma {:induction false} PlaceIntInFront(s: seq<int>, x: int)
    requires forall i :: 0 <= i < |s| ==> s[i] > x
    ensures PlaceInt(s, x) == [x] + s
    decreases |s|
  {
    if s != [] {
      PlaceIntInFront(s[..|s| - 1], x);
    }
  }

  lemma LatenciesCons(o: Observation, s: seq<Observation>)
    ensures Latencies([o] + s) == [o.latency] + Latencies(s)
  {
  }

  lemma {:induction false} PlacedLatencies(s: seq<Observation>, o: Observation)
    requires SortedByLatency(s)
    ensures Latencies(Place(s, o)) == PlaceInt(Latencies(s), o.latency)
    decreases |s|
  {
    if s != [] {
      if o.latency < s[0].latency {
        PlaceIntInFront(Latencies(s), o.latency);
        LatenciesCons(o, s);
      } else {
        PlacedLatencies(s[1..], o);
        assert s == [s[0]] + s[1..];
        LatenciesCons(s[0], s[1..]);
        LatenciesCons(s[0], Place(s[1..], o));
        PlaceIntBehindHead(s[0].latency, Latencies(s[1..]), o.latency);
      }
    }
  }

  /** Sorting the latencies alone gives the latencies of the stable sort. */
  lemma {:induction false} SortedLatencies(s: seq<Observation>)
    ensures SortInts(Latencies(s)) == Latencies(StableSort(s))
    decreases |s|
  {
    if s != [] {
      var init := s[..|s| - 1];
      SortedLatencies(init);
      StableSortSorts(init);
      PlacedLatencies(StableSort(init), s[|s| - 1]);
      assert Latencies(s)[..|s| - 1] == Latencies(init);
    }
  }

  class NaiveWindowPercentile {
    const window: int
    var observations: seq<Observation>

    constructor (window: int)
      ensures this.window == window && observations == []
    {
      this.window := window;
      observations := [];
    }

    method Record(obs: Observation)
      modifies this
      ensures observations == old(observations) + [obs]
    {
      observations := observations + [obs];
    }

    method Percentile(p: real, now: int) returns (r: int)
      requires 0.0 <= p <= 1.0
      modifies this
      ensures observations == Live(old(observations), now - window)
      ensures r == PercentileOf(observations, p)
      ensures IsPercentile(old(observations), now - window, p, r)
    {
      PercentileMeans(observations, now - window, p);
      observations := Live(observations, now - window);
      if |observations| == 0 {
        return 0;
      }
      var latencies := [];
      for i := 0 to |observations|
        invariant latencies == Latencies(observations[..i])
      {
        assert observations[..i + 1] == observations[..i] + [observations[i]];
        latencies := latencies + [observations[i].latency];
      }
      assert observations[..|observations|] == observations;
      SortedLatencies(observations);
      var sorted := SortInts(latencies);
      return sorted[Rank(|sorted|, p)];
    }
  }
}
