/** The sliding window log: exact counting with a head index and compaction in place. */
module SlidingLog {

  /** Live timestamps are `ts[head..]`, oldest first. */
  datatype Log = Log(ts: seq<int>, head: nat)

  type Logs = map<string, Log>

  datatype Call = Call(key: string, now: int)

  const NEW: Log := Log([], 0)

  function Find(m: Logs, key: string): Log {
    if key in m then m[key] else NEW
  }

  /** The eviction loop: the head moves past everything at or before the cutoff. */
  function Evict(l: Log, cutoff: int): (r: Log)
    requires l.head <= |l.ts|
    ensures l.head <= r.head <= |r.ts| && r.ts == l.ts
    decreases |l.ts| - l.head
  {
    if l.head < |l.ts| && l.ts[l.head] <= cutoff then Evict(l.(head := l.head + 1), cutoff) else l
  }

  /** Compaction once the dead prefix reaches half of the slice. */
  function Compact(l: Log): Log
    requires l.head <= |l.ts|
  {
    if l.head > 0 && l.head >= |l.ts| / 2 then Log(l.ts[l.head..], 0) else l
  }

  /** `Allow` on one log. */
  function AllowOne(l: Log, limit: int, window: int, now: int): (Log, bool)
    requires l.head <= |l.ts|
  {
    var c := Compact(Evict(l, now - window));
    if |c.ts| - c.head >= limit then (c, false) else (c.(ts := c.ts + [now]), true)
  }

  // ---------- the plain count ----------

  /** The admitted times in (from, to]. */
  function Count(times: seq<int>, from: int, to: int): nat {
    if times == [] then 0
    else (if from < times[|times| - 1] <= to then 1 else 0) + Count(times[..|times| - 1], from, to)
  }

  type History = map<string, seq<int>>

  function Past(h: History, key: string): seq<int> {
    if key in h then h[key] else []
  }

  /** Admission by counting everything that was ever admitted. */
  function RunByCount(h: History, limit: int, window: int, calls: seq<Call>): seq<bool>
    decreases |calls|
  {
    if calls == [] then [] else
      var key, now := calls[0].key, calls[0].now;
      var past := Past(h, key);
      var ok := Count(past, now - window, now) < limit;
      [ok] + RunByCount(h[key := if ok then past + [now] else past], limit, window, calls[1..])
  }

  ghost predicate GoodLogs(m: Logs) {
    forall k :: k in m ==> m[k].head <= |m[k].ts|
  }

  /** The logs a run leaves behind, and its answers. */
  function RunLog(m: Logs, limit: int, window: int, calls: seq<Call>): (Logs, seq<bool>)
    requires GoodLogs(m)
    decreases |calls|
  {
    if calls == [] then (m, []) else
      var key := calls[0].key;
      var (l, ok) := AllowOne(Find(m, key), limit, window, calls[0].now);
      var (last, answers) := RunLog(m[key := l], limit, window, calls[1..]);
      (last, [ok] + answers)
  }

  // ---------- exactness ----------

  ghost predicate AllAtMost(s: seq<int>, bound: int) {
    forall i :: 0 <= i < |s| ==> s[i] <= bound
  }

  ghost predicate AllAfter(s: seq<int>, bound: int) {
    forall i :: 0 <= i < |s| ==> s[i] > bound
  }

  ghost predicate Ascending(s: seq<int>) {
    forall i, j :: 0 <= i < j < |s| ==> s[i] <= s[j]
  }

  function Live(l: Log): seq<int>
    requires l.head <= |l.ts|
  {
    l.ts[l.head..]
  }

  /** The admitted history is what has expired followed by the live part of the log. */
  ghost predicate Splits(past: seq<int>, gone: seq<int>, live: seq<int>, cutoff: int) {
    past == gone + live && AllAtMost(gone, cutoff)
  }

  ghost predicate Represents(l: Log, past: seq<int>, limit: int, window: int, at: int) {
    && l.head <= |l.ts| && |Live(l)| <= limit
    && Ascending(Live(l)) && AllAtMost(Live(l), at)
    && (exists gone {:trigger Splits(past, gone, Live(l), at - window)} :: Splits(past, gone, Live(l), at - window))
    && (l.head == 0 || l.head < |l.ts| / 2)
  }

  lemma {:induction false} CountAppend(a: seq<int>, b: seq<int>, from: int, to: int)
    ensures Count(a + b, from, to) == Count(a, from, to) + Count(b, from, to)
    decreases |b|
  {
    if b == [] {
      assert a + b == a;
    } else {
      assert (a + b)[..|a + b| - 1] == a + b[..|b| - 1];
      CountAppend(a, b[..|b| - 1], from, to);
    }
  }

  lemma {:induction false} CountNone(a: seq<int>, from: int, to: int)
    requires AllAtMost(a, from)
    ensures Count(a, from, to) == 0
    decreases |a|
  {
    if a != [] {
      CountNone(a[..|a| - 1], from, to);
    }
  }

  lemma {:induction false} CountAll(a: seq<int>, from: int, to: int)
    requires AllAfter(a, from) && AllAtMost(a, to)
    ensures Count(a, from, to) == |a|
    decreases |a|
  {
    if a != [] {
      CountAll(a[..|a| - 1], from, to);
    }
  }

  lemma {:induction false} EvictStops(l: Log, cutoff: int)
    requires l.head <= |l.ts|
    ensures forall i :: l.head <= i < Evict(l, cutoff).head ==> l.ts[i] <= cutoff
    ensures Evict(l, cutoff).head < |l.ts| ==> l.ts[Evict(l, cutoff).head] > cutoff
    decreases |l.ts| - l.head
  {
    if l.head < |l.ts| && l.ts[l.head] <= cutoff {
      EvictStops(l.(head := l.head + 1), cutoff);
    }
  }

  /** Eviction cuts the live part exactly at its first unexpired timestamp. */
  lemma EvictSplits(l: Log, cutoff: int) returns (expired: seq<int>)
    requires l.head <= |l.ts| && Ascending(Live(l))
    ensures Live(l) == expired + Live(Evict(l, cutoff))
    ensures AllAtMost(expired, cutoff) && AllAfter(Live(Evict(l, cutoff)), cutoff)
  {
    hide Evict, Ascending, AllAtMost, AllAfter;
    var r := Evict(l, cutoff);
    EvictStops(l, cutoff);
    expired := l.ts[l.head..r.head];
    CutAt(l.ts, l.head, r.head, cutoff);
  }

  lemma CutAt(ts: seq<int>, from: nat, mid: nat, cutoff: int)
    requires from <= mid <= |ts| && Ascending(ts[from..])
    requires forall i :: from <= i < mid ==> ts[i] <= cutoff
    requires mid < |ts| ==> ts[mid] > cutoff
    ensures ts[from..] == ts[from..mid] + ts[mid..]
    ensures AllAtMost(ts[from..mid], cutoff) && AllAfter(ts[mid..], cutoff)
  {
    forall i | mid < i < |ts|
      ensures ts[i] > cutoff
    {
      assert ts[from..][mid - from] <= ts[from..][i - from];
    }
  }

  /** After eviction the live part is the admitted times inside the window, no more and no less. */
  lemma EvictIsExact(l: Log, past: seq<int>, limit: int, window: int, at: int, now: int)
    requires Represents(l, past, limit, window, at) && at <= now
    ensures var live := Live(Evict(l, now - window));
      Count(past, now - window, now) == |live| <= limit && Ascending(live) && AllAtMost(live, now) &&
      exists gone {:trigger Splits(past, gone, live, now - window)} :: Splits(past, gone, live, now - window)
  {
    hide Count, Evict, Live, AllAfter;
    var gone :| Splits(past, gone, Live(l), at - window);
    var expired := EvictSplits(l, now - window);
    MoreGone(past, gone, expired, Live(Evict(l, now - window)), at - window, now - window, at);
    CountSplit(past, gone + expired, Live(Evict(l, now - window)), now - window, now);
    assert |Live(l)| == |expired| + |Live(Evict(l, now - window))|;
  }

  lemma MoreGone(past: seq<int>, gone: seq<int>, expired: seq<int>, live: seq<int>, cutoff: int, cutoff': int, at: int)
    requires Splits(past, gone, expired + live, cutoff) && cutoff <= cutoff' && AllAtMost(expired, cutoff')
    requires Ascending(expired + live) && AllAtMost(expired + live, at)
    ensures Splits(past, gone + expired, live, cutoff') && Ascending(live) && AllAtMost(live, at)
  {
    assert gone + (expired + live) == gone + expired + live;
    LivePart(expired, live, at);
  }

  lemma CountSplit(past: seq<int>, gone: seq<int>, live: seq<int>, from: int, to: int)
    requires Splits(past, gone, live, from) && AllAfter(live, from) && AllAtMost(live, to)
    ensures Count(past, from, to) == |live|
  {
    CountAppend(gone, live, from, to);
    CountNone(gone, from, to);
    CountAll(live, from, to);
  }

  lemma LivePart(expired: seq<int>, live: seq<int>, at: int)
    requires Ascending(expired + live) && AllAtMost(expired + live, at)
    ensures Ascending(live) && AllAtMost(live, at)
  {
    var all := expired + live;
    assert forall i :: 0 <= i < |live| ==> live[i] == all[|expired| + i];
  }

  lemma OneMoreLive(past: seq<int>, gone: seq<int>, live: seq<int>, cutoff: int, now: int)
    requires Splits(past, gone, live, cutoff) && Ascending(live) && AllAtMost(live, now)
    ensures Splits(past + [now], gone, live + [now], cutoff) && Ascending(live + [now]) && AllAtMost(live + [now], now)
  {
    assert gone + live + [now] == gone + (live + [now]);
  }

  /** One call: the answer is the plain count's, and compaction changes nothing that is live. */
  lemma AllowIsExact(l: Log, past: seq<int>, limit: int, window: int, at: int, now: int)
    requires Represents(l, past, limit, window, at) && at <= now && limit > 0 && window > 0
    ensures var (l', ok) := AllowOne(l, limit, window, now);
      (ok <==> Count(past, now - window, now) < limit) &&
      Represents(l', if ok then past + [now] else past, limit, window, now)
  {
    hide Count, Ascending, AllAtMost, Splits;
    EvictIsExact(l, past, limit, window, at, now);
    var e := Evict(l, now - window);
    var c := Compact(e);
    assert Live(c) == Live(e);
    var gone :| Splits(past, gone, Live(e), now - window);
    OneMoreLive(past, gone, Live(e), now - window, now);
    assert Live(c.(ts := c.ts + [now])) == Live(c) + [now];
  }

  /** The slice never grows beyond twice the limit. */
  lemma SliceStaysShort(l: Log, past: seq<int>, limit: int, window: int, at: int)
    requires Represents(l, past, limit, window, at) && limit > 0
    ensures |l.ts| <= 2 * limit
  {
    assert |Live(l)| == |l.ts| - l.head;
  }

  /** Per key, time does not run backwards. */
  ghost predicate Forward(calls: seq<Call>) {
    forall i, j :: 0 <= i < j < |calls| && calls[i].key == calls[j].key ==> calls[i].now <= calls[j].now
  }

  /** When each key was last used. */
  type Clocks = map<string, int>

  ghost predicate Started(m: Logs, h: History, clocks: Clocks, limit: int, window: int, calls: seq<Call>) {
    && m.Keys == h.Keys == clocks.Keys && GoodLogs(m)
    && (forall k :: k in m ==> Represents(m[k], h[k], limit, window, clocks[k]))
    && (forall i :: 0 <= i < |calls| && calls[i].key in clocks ==> clocks[calls[i].key] <= calls[i].now)
  }

  lemma {:induction false} LogCountsExactly(m: Logs, h: History, clocks: Clocks, limit: int, window: int,
                                            calls: seq<Call>)
    requires limit > 0 && window > 0 && Forward(calls) && Started(m, h, clocks, limit, window, calls)
    ensures RunLog(m, limit, window, calls).1 == RunByCount(h, limit, window, calls)
    ensures forall k :: k in RunLog(m, limit, window, calls).0 ==>
      |RunLog(m, limit, window, calls).0[k].ts| <= 2 * limit
    decreases |calls|
  {
    hide Represents, AllowOne, Count;
    if calls == [] {
      forall k | k in m
        ensures |m[k].ts| <= 2 * limit
      {
        SliceStaysShort(m[k], h[k], limit, window, clocks[k]);
      }
    } else {
      var key, now := calls[0].key, calls[0].now;
      var past := Past(h, key);
      var at := if key in clocks then clocks[key] else now;
      NewRepresents(limit, window, now);
      AllowIsExact(Find(m, key), past, limit, window, at, now);
      var (l, ok) := AllowOne(Find(m, key), limit, window, now);
      var past' := if ok then past + [now] else past;
      assert l.head <= |l.ts| by { HeadInRange(l, past', limit, window, now); }
      LogCountsExactly(m[key := l], h[key := past'], clocks[key := now], limit, window, calls[1..]);
    }
  }

  lemma NewRepresents(limit: int, window: int, now: int)
    requires limit > 0
    ensures Represents(NEW, [], limit, window, now)
  {
    assert Splits([], [], Live(NEW), now - window);
  }

  lemma HeadInRange(l: Log, past: seq<int>, limit: int, window: int, at: int)
    requires Represents(l, past, limit, window, at)
    ensures l.head <= |l.ts|
  {
  }

  /** From a fresh limiter: every answer is the exact count's, and no slice outgrows twice the limit. */
  lemma FreshLimiterIsExact(limit: int, window: int, calls: seq<Call>)
    requires limit > 0 && window > 0 && Forward(calls)
    ensures var (logs, answers) := RunLog(map[], limit, window, calls);
      answers == RunByCount(map[], limit, window, calls) && forall k :: k in logs ==> |logs[k].ts| <= 2 * limit
  {
    LogCountsExactly(map[], map[], map[], limit, window, calls);
  }

  // ---------- the limit ----------

  /** The times admitted for one key. */
  function AdmittedTimes(past: seq<int>, limit: int, window: int, key: string, calls: seq<Call>): seq<int>
    decreases |calls|
  {
    if calls == [] then past
    else if calls[0].key == key && Count(past, calls[0].now - window, calls[0].now) < limit
    then AdmittedTimes(past + [calls[0].now], limit, window, key, calls[1..])
    else AdmittedTimes(past, limit, window, key, calls[1..])
  }

  /** Each admission found fewer than `limit` others in its window. */
  ghost predicate Earned(past: seq<int>, limit: int, window: int) {
    past == [] ||
    var init, last := past[..|past| - 1], past[|past| - 1];
    Earned(init, limit, window) && AllAtMost(init, last) && Count(init, last - window, last) < limit
  }

  lemma EarnOne(past: seq<int>, limit: int, window: int, now: int)
    requires Earned(past, limit, window) && AllAtMost(past, now) && Count(past, now - window, now) < limit
    ensures Earned(past + [now], limit, window)
  {
    hide Count;
    assert (past + [now])[..|past|] == past;
  }

  /** No call for the key is earlier than what it was admitted for. */
  ghost predicate Upcoming(past: seq<int>, key: string, calls: seq<Call>) {
    forall i :: 0 <= i < |calls| && calls[i].key == key ==> AllAtMost(past, calls[i].now)
  }

  lemma NextCall(past: seq<int>, key: string, calls: seq<Call>)
    requires Upcoming(past, key, calls) && Forward(calls) && calls != []
    ensures Forward(calls[1..]) && Upcoming(past, key, calls[1..])
    ensures calls[0].key == key ==> AllAtMost(past, calls[0].now) && Upcoming(past + [calls[0].now], key, calls[1..])
  {
  }

  lemma {:induction false} AdmissionsAreEarned(past: seq<int>, limit: int, window: int, key: string, calls: seq<Call>)
    requires Earned(past, limit, window) && Forward(calls) && Upcoming(past, key, calls)
    ensures Earned(AdmittedTimes(past, limit, window, key, calls), limit, window)
    decreases |calls|
  {
    hide Count, Earned, Upcoming, Forward, AllAtMost;
    if calls != [] {
      var now := calls[0].now;
      NextCall(past, key, calls);
      if calls[0].key == key && Count(past, now - window, now) < limit {
        EarnOne(past, limit, window, now);
        AdmissionsAreEarned(past + [now], limit, window, key, calls[1..]);
      } else {
        AdmissionsAreEarned(past, limit, window, key, calls[1..]);
      }
    }
  }

  lemma {:induction false} CountMonotone(times: seq<int>, from: int, to: int, from': int, to': int)
    requires from' <= from && to <= to'
    ensures Count(times, from, to) <= Count(times, from', to')
    decreases |times|
  {
    if times != [] {
      CountMonotone(times[..|times| - 1], from, to, from', to');
    }
  }

  lemma {:induction false} CountCapped(times: seq<int>, from: int, to: int, cap: int)
    requires AllAtMost(times, cap) && cap <= to
    ensures Count(times, from, to) == Count(times, from, cap)
    decreases |times|
  {
    if times != [] {
      CountCapped(times[..|times| - 1], from, to, cap);
    }
  }

  /** No window of that length, wherever it ends, holds more than `limit` admitted events. */
  lemma {:induction false} EveryWindowHolds(past: seq<int>, limit: int, window: int, to: int)
    requires Earned(past, limit, window) && limit > 0
    ensures Count(past, to - window, to) <= limit
    decreases |past|
  {
    if past != [] {
      var init, last := past[..|past| - 1], past[|past| - 1];
      if last > to {
        EveryWindowHolds(init, limit, window, to);
      } else {
        CountCapped(init, to - window, to, last);
        CountMonotone(init, to - window, last, last - window, last);
      }
    }
  }

  /** The times of the calls for one key that were answered yes. */
  function AnsweredTimes(calls: seq<Call>, answers: seq<bool>, key: string): seq<int>
    requires |answers| == |calls|
    decreases |calls|
  {
    if calls == [] then []
    else if calls[0].key == key && answers[0] then [calls[0].now] + AnsweredTimes(calls[1..], answers[1..], key)
    else AnsweredTimes(calls[1..], answers[1..], key)
  }

  function AfterCall(past: seq<int>, limit: int, window: int, now: int): seq<int> {
    if Count(past, now - window, now) < limit then past + [now] else past
  }

  /** The first answer, and the ones after it. */
  lemma FirstAnswer(h: History, limit: int, window: int, calls: seq<Call>)
    requires calls != []
    ensures var past := Past(h, calls[0].key);
      RunByCount(h, limit, window, calls) ==
        [Count(past, calls[0].now - window, calls[0].now) < limit] +
        RunByCount(h[calls[0].key := AfterCall(past, limit, window, calls[0].now)], limit, window, calls[1..])
  {
    hide Count;
  }

  lemma FirstAdmission(past: seq<int>, limit: int, window: int, key: string, calls: seq<Call>)
    requires calls != []
    ensures AdmittedTimes(past, limit, window, key, calls) ==
      AdmittedTimes(if calls[0].key == key then AfterCall(past, limit, window, calls[0].now) else past,
                    limit, window, key, calls[1..])
  {
    hide Count;
  }

  lemma {:induction false} AnswersAreAdmissions(h: History, limit: int, window: int, key: string, calls: seq<Call>)
    ensures |RunByCount(h, limit, window, calls)| == |calls|
    ensures AdmittedTimes(Past(h, key), limit, window, key, calls) ==
      Past(h, key) + AnsweredTimes(calls, RunByCount(h, limit, window, calls), key)
    decreases |calls|
  {
    if calls == [] {
      assert Past(h, key) + [] == Past(h, key);
    } else {
      hide Count, RunByCount, AdmittedTimes;
      var k, now := calls[0].key, calls[0].now;
      var past := Past(h, k);
      var h' := h[k := AfterCall(past, limit, window, now)];
      FirstAnswer(h, limit, window, calls);
      FirstAdmission(Past(h, key), limit, window, key, calls);
      AnswersAreAdmissions(h', limit, window, key, calls[1..]);
      var answers := RunByCount(h, limit, window, calls);
      assert answers[1..] == RunByCount(h', limit, window, calls[1..]);
      if k == key && answers[0] {
        var rest := AnsweredTimes(calls[1..], answers[1..], key);
        assert past + [now] + rest == past + ([now] + rest);
      }
    }
  }

  /** The admitted calls for `key` at times in (from, to]. */
  ghost function AdmittedAt(calls: seq<Call>, answers: seq<bool>, key: string, from: int, to: int): set<nat>
    requires |answers| == |calls|
  {
    set i: nat | i < |calls| && answers[i] && calls[i].key == key && from < calls[i].now <= to
  }

  lemma {:induction false} AnsweredAppend(calls: seq<Call>, answers: seq<bool>, call: Call, ok: bool, key: string)
    requires |answers| == |calls|
    ensures AnsweredTimes(calls + [call], answers + [ok], key) ==
      AnsweredTimes(calls, answers, key) + if call.key == key && ok then [call.now] else []
    decreases |calls|
  {
    var cs, bs := calls + [call], answers + [ok];
    if calls == [] {
      assert cs[1..] == [] && bs[1..] == [];
    } else {
      assert cs[0] == calls[0] && bs[0] == answers[0];
      assert cs[1..] == calls[1..] + [call] && bs[1..] == answers[1..] + [ok];
      AnsweredAppend(calls[1..], answers[1..], call, ok, key);
    }
  }

  /** Counting the admitted times is counting the admitted calls. */
  lemma {:induction false} CountsCalls(calls: seq<Call>, answers: seq<bool>, key: string, from: int, to: int)
    requires |answers| == |calls|
    ensures Count(AnsweredTimes(calls, answers, key), from, to) == |AdmittedAt(calls, answers, key, from, to)|
    decreases |calls|
  {
    if calls == [] {
      assert AdmittedAt(calls, answers, key, from, to) == {};
    } else {
      var n := |calls| - 1;
      var cs, bs, call, ok := calls[..n], answers[..n], calls[n], answers[n];
      assert calls == cs + [call] && answers == bs + [ok];
      CountsCalls(cs, bs, key, from, to);
      AnsweredAppend(cs, bs, call, ok, key);
      CountLast(AnsweredTimes(cs, bs, key), call.now, from, to);
      LastAdmitted(cs, bs, call, ok, key, from, to);
    }
  }

  lemma CountLast(times: seq<int>, t: int, from: int, to: int)
    ensures Count(times + [t], from, to) == Count(times, from, to) + if from < t <= to then 1 else 0
    ensures Count(times + [], from, to) == Count(times, from, to)
  {
    assert (times + [t])[..|times|] == times;
    assert times + [] == times;
  }

  lemma LastAdmitted(calls: seq<Call>, answers: seq<bool>, call: Call, ok: bool, key: string, from: int, to: int)
    requires |answers| == |calls|
    ensures |AdmittedAt(calls + [call], answers + [ok], key, from, to)| ==
      |AdmittedAt(calls, answers, key, from, to)| + if ok && call.key == key && from < call.now <= to then 1 else 0
  {
    assert AdmittedAt(calls + [call], answers + [ok], key, from, to) ==
      AdmittedAt(calls, answers, key, from, to) +
      if ok && call.key == key && from < call.now <= to then {|calls|} else {};
  }

  /** The history after some calls is what they were answered. */
  ghost predicate Remembers(h: History, calls: seq<Call>, answers: seq<bool>)
    requires |answers| == |calls|
  {
    forall key :: Past(h, key) == AnsweredTimes(calls, answers, key)
  }

  lemma RemembersNext(h: History, calls: seq<Call>, answers: seq<bool>, call: Call, ok: bool)
    requires |answers| == |calls| && Remembers(h, calls, answers)
    ensures var past := Past(h, call.key);
      Remembers(h[call.key := if ok then past + [call.now] else past], calls + [call], answers + [ok])
  {
    var past := Past(h, call.key);
    var h' := h[call.key := if ok then past + [call.now] else past];
    forall key
      ensures Past(h', key) == AnsweredTimes(calls + [call], answers + [ok], key)
    {
      AnsweredAppend(calls, answers, call, ok, key);
    }
  }

  /** The call at position `i` is admitted exactly if fewer than `limit` earlier ones of its key were in its window. */
  ghost predicate RightAnswer(calls: seq<Call>, answers: seq<bool>, limit: int, window: int, i: nat)
    requires |answers| == |calls| && i < |calls|
  {
    var now := calls[i].now;
    answers[i] <==> |AdmittedAt(calls[..i], answers[..i], calls[i].key, now - window, now)| < limit
  }

  lemma {:induction false} CountAnswersRight(h: History, done: seq<Call>, given: seq<bool>, limit: int, window: int,
                                             rest: seq<Call>)
    requires |given| == |done| && Remembers(h, done, given)
    ensures var answers := given + RunByCount(h, limit, window, rest);
      |answers| == |done + rest| &&
      forall i :: |done| <= i < |done + rest| ==> RightAnswer(done + rest, answers, limit, window, i)
    decreases |rest|
  {
    hide RunByCount, Count, Remembers, AdmittedAt;
    if rest == [] {
      NoAnswers(h, limit, window);
    } else {
      var call := rest[0];
      var past := Past(h, call.key);
      var ok := Count(past, call.now - window, call.now) < limit;
      var h' := h[call.key := if ok then past + [call.now] else past];
      FirstAnswer(h, limit, window, rest);
      RemembersNext(h, done, given, call, ok);
      CountAnswersRight(h', done + [call], given + [ok], limit, window, rest[1..]);
      assert done + rest == done + [call] + rest[1..];
      var answers := given + RunByCount(h, limit, window, rest);
      assert answers == given + [ok] + RunByCount(h', limit, window, rest[1..]);
      assert (done + rest)[..|done|] == done && answers[..|done|] == given;
      RememberedKey(h, done, given, call.key);
      CountsCalls(done, given, call.key, call.now - window, call.now);
      assert RightAnswer(done + rest, answers, limit, window, |done|);
    }
  }

  lemma NoAnswers(h: History, limit: int, window: int)
    ensures RunByCount(h, limit, window, []) == []
  {
  }

  lemma RememberedKey(h: History, calls: seq<Call>, answers: seq<bool>, key: string)
    requires |answers| == |calls| && Remembers(h, calls, answers)
    ensures Past(h, key) == AnsweredTimes(calls, answers, key)
  {
  }

  /** On every run a call is admitted if and only if fewer than `limit` of the earlier calls for its key that were
      admitted lie in (now-window, now]. */
  lemma AllowedIff(limit: int, window: int, calls: seq<Call>)
    requires limit > 0 && window > 0 && Forward(calls)
    ensures var answers := RunLog(map[], limit, window, calls).1;
      |answers| == |calls| && forall i :: 0 <= i < |calls| ==> RightAnswer(calls, answers, limit, window, i)
  {
    FreshLimiterIsExact(limit, window, calls);
    CountAnswersRight(map[], [], [], limit, window, calls);
    assert [] + calls == calls;
    var answers := RunByCount(map[], limit, window, calls);
    assert [] + answers == answers;
  }

  /** On every run, no window of the configured length holds more than `limit` admitted events of a key. */
  lemma LimitHolds(limit: int, window: int, key: string, calls: seq<Call>, to: int)
    requires limit > 0 && window > 0 && Forward(calls)
    ensures var answers := RunLog(map[], limit, window, calls).1;
      |answers| == |calls| && |AdmittedAt(calls, answers, key, to - window, to)| <= limit
  {
    FreshLimiterIsExact(limit, window, calls);
    AdmissionsAreEarned([], limit, window, key, calls);
    EveryWindowHolds(AdmittedTimes([], limit, window, key, calls), limit, window, to);
    AnswersAreAdmissions(map[], limit, window, key, calls);
    var answers := RunByCount(map[], limit, window, calls);
    var times := AnsweredTimes(calls, answers, key);
    assert [] + times == times;
    CountsCalls(calls, answers, key, to - window, to);
  }

  /** Compaction: nothing is copied while the dead part is shorter than half of the slice; otherwise only the live
      part is kept. */
  lemma CompactMeans(l: Log)
    requires l.head <= |l.ts|
    ensures l.head < |l.ts| / 2 || l.head == 0 ==> Compact(l) == l
    ensures l.head >= |l.ts| / 2 ==> Compact(l).head == 0 && Compact(l).ts == l.ts[l.head..]
  {
  }

  // ---------- the limiter with its logs updated in place ----------

  class LogCell {
    var ts: seq<int>
    var head: nat

    constructor ()
      ensures Valid() && Value() == NEW
    {
      ts, head := [], 0;
    }

    ghost predicate Valid()
      reads this
    {
      head <= |ts|
    }

    ghost function Value(): Log
      reads this
    {
      Log(ts, head)
    }

    method Admit(limit: int, window: int, now: int) returns (ok: bool)
      requires Valid()
      modifies this
      ensures Valid() && (Value(), ok) == AllowOne(old(Value()), limit, window, now)
    {
      var cutoff := now - window;
      while head < |ts| && ts[head] <= cutoff
        invariant head <= |ts| && ts == old(ts)
        invariant Evict(Value(), cutoff) == Evict(old(Value()), cutoff)
        decreases |ts| - head
      {
        head := head + 1;
      }
      if head > 0 && head >= |ts| / 2 {
        ts := ts[head..];
        head := 0;
      }
      if |ts| - head >= limit {
        return false;
      }
      ts := ts + [now];
      return true;
    }
  }

  ghost predicate Separate(buckets: map<string, LogCell>)
    reads buckets.Values
  {
    && (forall j, k :: j in buckets && k in buckets && j != k ==> buckets[j] != buckets[k])
    && (forall k :: k in buckets ==> buckets[k].Valid())
  }

  ghost function StateOf(buckets: map<string, LogCell>): Logs
    reads buckets.Values
  {
    map k | k in buckets :: buckets[k].Value()
  }

  class Limiter {
    const limit: int
    const window: int
    var buckets: map<string, LogCell>

    constructor (limit: int, window: int)
      ensures buckets == map[] && this.limit == limit && this.window == window
    {
      this.limit, this.window, buckets := limit, window, map[];
    }

    method Allow(key: string, now: int) returns (ok: bool)
      requires Separate(buckets)
      modifies this, buckets.Values
      ensures Separate(buckets) && forall k :: k in buckets ==> buckets[k] in old(buckets.Values) || fresh(buckets[k])
      ensures var (l, ok') := AllowOne(Find(old(StateOf(buckets)), key), limit, window, now);
        ok == ok' && StateOf(buckets) == old(StateOf(buckets))[key := l]
    {
      hide AllowOne, Find, Separate, StateOf;
      CreateCell(key);
      ok := AdmitTo(key, now);
    }

    /** The key's log, a new one if there is none. */
    method CreateCell(key: string)
      requires Separate(buckets)
      modifies this`buckets
      ensures Separate(buckets) && forall k :: k in buckets ==> buckets[k] in old(buckets.Values) || fresh(buckets[k])
      ensures key in buckets && StateOf(buckets) == old(StateOf(buckets))[key := Find(old(StateOf(buckets)), key)]
    {
      if key !in buckets {
        var b := new LogCell();
        buckets := buckets[key := b];
      }
    }

    method AdmitTo(key: string, now: int) returns (ok: bool)
      requires Separate(buckets) && key in buckets
      modifies buckets[key]
      ensures Separate(buckets) && key in old(StateOf(buckets))
      ensures old(StateOf(buckets))[key].head <= |old(StateOf(buckets))[key].ts|
      ensures var (l, ok') := AllowOne(old(StateOf(buckets))[key], limit, window, now);
        ok == ok' && StateOf(buckets) == old(StateOf(buckets))[key := l]
    {
      hide AllowOne;
      ok := buckets[key].Admit(limit, window, now);
    }
  }
}
