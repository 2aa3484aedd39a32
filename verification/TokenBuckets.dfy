/** Token bucket and leaky bucket, over the reals: the same limiter seen from two sides. */
module TokenBuckets {
  import opened Outcomes

  /** A bucket's amount (tokens, or queued events) and when it was last brought up to date, in seconds. */
  datatype Bucket = Bucket(amount: real, at: real)

  type Buckets = map<string, Bucket>

  datatype Call = Call(key: string, now: real)

  function Find(m: Buckets, key: string): Option<Bucket> {
    if key in m then Some(m[key]) else None
  }

  /** What flows at `rate` between two times. */
  function Flow(rate: real, from: real, to: real): real {
    (to - from) * rate
  }

  function Refill(b: Option<Bucket>, capacity: real, rate: real, now: real): Bucket {
    match b
    case None => Bucket(capacity, now)
    case Some(Bucket(tokens, at)) =>
      if now - at > 0.0 then
        var more := tokens + Flow(rate, at, now);
        Bucket(if more > capacity then capacity else more, now)
      else Bucket(tokens, at)
  }

  function Spend(b: Bucket): (Bucket, bool) {
    if b.amount < 1.0 then (b, false) else (b.(amount := b.amount - 1.0), true)
  }

  /** tokenbucket.Allow on one bucket. */
  function Take(b: Option<Bucket>, capacity: real, rate: real, now: real): (Bucket, bool) {
    Spend(Refill(b, capacity, rate, now))
  }

  function Drain(b: Option<Bucket>, rate: real, now: real): Bucket {
    match b
    case None => Bucket(0.0, now)
    case Some(Bucket(level, at)) =>
      if now - at > 0.0 then
        var less := level - Flow(rate, at, now);
        Bucket(if less < 0.0 then 0.0 else less, now)
      else Bucket(level, at)
  }

  function Queue(b: Bucket, capacity: real): (Bucket, bool) {
    if b.amount + 1.0 > capacity then (b, false) else (b.(amount := b.amount + 1.0), true)
  }

  /** leakybucket.Allow on one bucket. */
  function Pour(b: Option<Bucket>, capacity: real, rate: real, now: real): (Bucket, bool) {
    Queue(Drain(b, rate, now), capacity)
  }

  function RunToken(m: Buckets, capacity: real, rate: real, calls: seq<Call>): seq<bool>
    decreases |calls|
  {
    if calls == [] then [] else
      var (b, ok) := Take(Find(m, calls[0].key), capacity, rate, calls[0].now);
      [ok] + RunToken(m[calls[0].key := b], capacity, rate, calls[1..])
  }

  function RunLeaky(m: Buckets, capacity: real, rate: real, calls: seq<Call>): seq<bool>
    decreases |calls|
  {
    if calls == [] then [] else
      var (b, ok) := Pour(Find(m, calls[0].key), capacity, rate, calls[0].now);
      [ok] + RunLeaky(m[calls[0].key := b], capacity, rate, calls[1..])
  }

  // ---------- one call ----------

  /** What a token bucket holds at `now` when `gain` tokens came in: never above the capacity. */
  ghost predicate IsFilled(level: real, b: Bucket, capacity: real, gain: real, now: real) {
    if now <= b.at then level == b.amount
    else if b.amount + gain > capacity then level == capacity
    else level == b.amount + gain
  }

  /** What is still queued in a leaky bucket at `now` when `loss` events drained away. */
  ghost predicate IsDrained(level: real, b: Bucket, loss: real, now: real) {
    if now <= b.at then level == b.amount
    else if b.amount - loss < 0.0 then level == 0.0
    else level == b.amount - loss
  }

  lemma FlowIs(rate: real, from: real, to: real)
    ensures Flow(rate, from, to) == rate * (to - from)
  {
  }

  lemma FilledBy(b: Bucket, capacity: real, rate: real, now: real, gain: real)
    requires gain == Flow(rate, b.at, now)
    ensures IsFilled(Refill(Some(b), capacity, rate, now).amount, b, capacity, gain, now)
    ensures Refill(Some(b), capacity, rate, now).at == if now > b.at then now else b.at
  {
    hide Flow;
  }

  lemma DrainedBy(b: Bucket, rate: real, now: real, loss: real)
    requires loss == Flow(rate, b.at, now)
    ensures IsDrained(Drain(Some(b), rate, now).amount, b, loss, now)
    ensures Drain(Some(b), rate, now).at == if now > b.at then now else b.at
  {
    hide Flow;
  }

  /** A token bucket admits exactly if it holds a whole token by then, which it gives away. */
  lemma TokenLaw(b: Bucket, capacity: real, rate: real, now: real, gain: real)
    requires gain == rate * (now - b.at)
    ensures var (b', ok) := Take(Some(b), capacity, rate, now);
      var level := b'.amount + if ok then 1.0 else 0.0;
      IsFilled(level, b, capacity, gain, now) && (ok <==> level >= 1.0) && b'.at == (if now > b.at then now else b.at)
    ensures 0.0 <= b.amount <= capacity && now > b.at ==>
      (Take(Some(b), capacity, rate, now).1 <==> capacity >= 1.0 && b.amount + gain >= 1.0)
    ensures var (b', ok) := Take(None, capacity, rate, now);
      (ok <==> capacity >= 1.0) && b' == Bucket(capacity - (if ok then 1.0 else 0.0), now)
  {
    hide Flow;
    FlowIs(rate, b.at, now);
    FilledBy(b, capacity, rate, now, gain);
    FilledAdmits(Refill(Some(b), capacity, rate, now).amount, b, capacity, gain, now);
  }

  lemma FilledAdmits(level: real, b: Bucket, capacity: real, gain: real, now: real)
    requires IsFilled(level, b, capacity, gain, now)
    ensures 0.0 <= b.amount <= capacity && now > b.at ==> (level >= 1.0 <==> capacity >= 1.0 && b.amount + gain >= 1.0)
  {
  }

  /** A leaky bucket admits exactly if one more event fits into it by then. */
  lemma LeakyLaw(b: Bucket, capacity: real, rate: real, now: real, loss: real)
    requires loss == rate * (now - b.at)
    ensures var (b', ok) := Pour(Some(b), capacity, rate, now);
      var level := b'.amount - if ok then 1.0 else 0.0;
      IsDrained(level, b, loss, now) && (ok <==> level + 1.0 <= capacity) &&
      b'.at == (if now > b.at then now else b.at)
    ensures 0.0 <= b.amount <= capacity && now > b.at ==>
      (Pour(Some(b), capacity, rate, now).1 <==> capacity >= 1.0 && b.amount - loss + 1.0 <= capacity)
    ensures var (b', ok) := Pour(None, capacity, rate, now);
      (ok <==> capacity >= 1.0) && b' == Bucket(if ok then 1.0 else 0.0, now)
  {
    hide Flow;
    FlowIs(rate, b.at, now);
    DrainedBy(b, rate, now, loss);
    DrainedAdmits(Drain(Some(b), rate, now).amount, b, capacity, loss, now);
  }

  lemma DrainedAdmits(level: real, b: Bucket, capacity: real, loss: real, now: real)
    requires IsDrained(level, b, loss, now)
    ensures 0.0 <= b.amount <= capacity && now > b.at ==>
      (level + 1.0 <= capacity <==> capacity >= 1.0 && b.amount - loss + 1.0 <= capacity)
  {
  }

  // ---------- bisimulation ----------

  /** Tokens left and events queued add up to the capacity. */
  ghost predicate Complements(t: Bucket, l: Bucket, capacity: real) {
    t.amount + l.amount == capacity && t.at == l.at
  }

  ghost predicate AllComplement(tokens: Buckets, levels: Buckets, capacity: real) {
    tokens.Keys == levels.Keys && forall k :: k in tokens ==> Complements(tokens[k], levels[k], capacity)
  }

  lemma StepsComplement(t: Option<Bucket>, l: Option<Bucket>, capacity: real, rate: real, now: real)
    requires t.Some? <==> l.Some?
    requires t.Some? ==> Complements(t.value, l.value, capacity)
    ensures Take(t, capacity, rate, now).1 == Pour(l, capacity, rate, now).1
    ensures Complements(Take(t, capacity, rate, now).0, Pour(l, capacity, rate, now).0, capacity)
  {
    hide Flow;
  }

  /** Equal parameters, any keys, any order of times: the two give the same answer to every call. */
  lemma {:induction false} LimitersAgree(tokens: Buckets, levels: Buckets, capacity: real, rate: real, calls: seq<Call>)
    requires AllComplement(tokens, levels, capacity)
    ensures RunToken(tokens, capacity, rate, calls) == RunLeaky(levels, capacity, rate, calls)
    decreases |calls|
  {
    if calls != [] {
      var key, now := calls[0].key, calls[0].now;
      StepsComplement(Find(tokens, key), Find(levels, key), capacity, rate, now);
      LimitersAgree(tokens[key := Take(Find(tokens, key), capacity, rate, now).0],
                    levels[key := Pour(Find(levels, key), capacity, rate, now).0], capacity, rate, calls[1..]);
    }
  }

  // ---------- the rate bound ----------

  /** The admitted calls for `key` at times in [from, to]. */
  function Admitted(calls: seq<Call>, answers: seq<bool>, key: string, from: real, to: real): nat
    requires |answers| == |calls|
    decreases |calls|
  {
    if calls == [] then 0
    else (if answers[0] && calls[0].key == key && from <= calls[0].now <= to then 1 else 0)
         + Admitted(calls[1..], answers[1..], key, from, to)
  }

  /** The positions of the admitted calls for `key` at times in [from, to]. */
  ghost function AdmittedAt(calls: seq<Call>, answers: seq<bool>, key: string, from: real, to: real): set<nat>
    requires |answers| == |calls|
  {
    set i: nat | i < |calls| && answers[i] && calls[i].key == key && from <= calls[i].now <= to
  }

  lemma {:induction false} AdmittedCounts(calls: seq<Call>, answers: seq<bool>, key: string, from: real, to: real)
    requires |answers| == |calls|
    ensures Admitted(calls, answers, key, from, to) == |AdmittedAt(calls, answers, key, from, to)|
    decreases |calls|
  {
    if calls == [] {
      assert AdmittedAt(calls, answers, key, from, to) == {};
    } else {
      AdmittedCounts(calls[1..], answers[1..], key, from, to);
      FirstAdmitted(calls, answers, key, from, to);
    }
  }

  lemma FirstAdmitted(calls: seq<Call>, answers: seq<bool>, key: string, from: real, to: real)
    requires |answers| == |calls| > 0
    ensures |AdmittedAt(calls, answers, key, from, to)| == |AdmittedAt(calls[1..], answers[1..], key, from, to)| +
      if answers[0] && calls[0].key == key && from <= calls[0].now <= to then 1 else 0
  {
    var all, rest := AdmittedAt(calls, answers, key, from, to), AdmittedAt(calls[1..], answers[1..], key, from, to);
    forall i: nat
      ensures i in rest <==> i + 1 in all
    {
      if i + 1 < |calls| {
        assert calls[1..][i] == calls[i + 1] && answers[1..][i] == answers[i + 1];
      }
    }
    Shifted(rest, all);
  }

  lemma {:induction false} Shifted(a: set<nat>, b: set<nat>)
    requires forall i: nat :: i in a <==> i + 1 in b
    ensures |b| == |a| + if 0 in b then 1 else 0
    decreases a
  {
    if a == {} {
      forall i | i in b
        ensures i == 0
      {
        assert i > 0 ==> i - 1 in a;
      }
      assert b == if 0 in b then {0} else {};
    } else {
      var x :| x in a;
      assert x + 1 in b;
      Shifted(a - {x}, b - {x + 1});
    }
  }

  /** Per key, time does not run backwards. */
  ghost predicate Forward(calls: seq<Call>, key: string) {
    forall i, j :: 0 <= i < j < |calls| && calls[i].key == key && calls[j].key == key ==> calls[i].now <= calls[j].now
  }

  ghost predicate NotBefore(calls: seq<Call>, key: string, at: real) {
    forall i :: 0 <= i < |calls| && calls[i].key == key ==> at <= calls[i].now
  }

  lemma {:induction false} RunLength(m: Buckets, capacity: real, rate: real, calls: seq<Call>)
    ensures |RunToken(m, capacity, rate, calls)| == |calls|
    decreases |calls|
  {
    if calls != [] {
      var (b, ok) := Take(Find(m, calls[0].key), capacity, rate, calls[0].now);
      RunLength(m[calls[0].key := b], capacity, rate, calls[1..]);
    }
  }

  lemma Split(rate: real, a: real, b: real, c: real)
    ensures Flow(rate, a, c) == Flow(rate, a, b) + Flow(rate, b, c)
  {
  }

  lemma Grow(rate: real, a: real, b: real)
    requires rate >= 0.0 && a <= b
    ensures Flow(rate, a, b) >= 0.0
  {
  }

  /** What a bucket can still give out up to `to`: its tokens and what flows in. */
  function Supply(b: Bucket, rate: real, to: real): real {
    b.amount + Flow(rate, b.at, to)
  }

  ghost predicate GoodBucket(b: Bucket, capacity: real) {
    0.0 <= b.amount <= capacity
  }

  /** One call neither creates supply nor hands out more than it takes from it. */
  lemma TakeSpends(b: Bucket, capacity: real, rate: real, now: real, to: real)
    requires GoodBucket(b, capacity) && rate > 0.0 && capacity > 0.0 && b.at <= now <= to
    ensures var (b', ok) := Take(Some(b), capacity, rate, now);
      GoodBucket(b', capacity) && b'.at == now &&
      Supply(b', rate, to) + (if ok then 1.0 else 0.0) <= Supply(b, rate, to)
  {
    hide Flow;
    Split(rate, b.at, now, to);
    Grow(rate, b.at, now);
  }

  lemma TakeKeepsGood(b: Option<Bucket>, capacity: real, rate: real, now: real)
    requires rate > 0.0 && capacity > 0.0
    requires b.Some? ==> GoodBucket(b.value, capacity) && b.value.at <= now
    ensures var (b', ok) := Take(b, capacity, rate, now);
      GoodBucket(b', capacity) && b'.at == now && b'.amount + (if ok then 1.0 else 0.0) <= capacity
  {
    hide Flow;
    if b.Some? {
      Grow(rate, b.value.at, now);
    }
  }

  lemma {:induction false} AdmittedWithinSupply(m: Buckets, capacity: real, rate: real, calls: seq<Call>,
                                                key: string, from: real, to: real)
    requires capacity > 0.0 && rate > 0.0 && Forward(calls, key)
    requires key in m && GoodBucket(m[key], capacity) && NotBefore(calls, key, m[key].at) && m[key].at <= to
    ensures |RunToken(m, capacity, rate, calls)| == |calls|
    ensures Admitted(calls, RunToken(m, capacity, rate, calls), key, from, to) as real <= Supply(m[key], rate, to)
    decreases |calls|
  {
    hide Flow, Take;
    RunLength(m, capacity, rate, calls);
    Grow(rate, m[key].at, to);
    if calls != [] {
      var k, now := calls[0].key, calls[0].now;
      var (b, ok) := Take(Find(m, k), capacity, rate, now);
      var m' := m[k := b];
      assert RunToken(m, capacity, rate, calls)[1..] == RunToken(m', capacity, rate, calls[1..]);
      if k != key {
        AdmittedWithinSupply(m', capacity, rate, calls[1..], key, from, to);
      } else if now <= to {
        TakeSpends(m[key], capacity, rate, now, to);
        AdmittedWithinSupply(m', capacity, rate, calls[1..], key, from, to);
      } else {
        NothingAfter(calls, RunToken(m, capacity, rate, calls), key, from, to);
      }
    }
  }

  lemma {:induction false} NothingAfter(calls: seq<Call>, answers: seq<bool>, key: string, from: real, to: real)
    requires |answers| == |calls| && (forall i :: 0 <= i < |calls| && calls[i].key == key ==> calls[i].now > to)
    ensures Admitted(calls, answers, key, from, to) == 0
    decreases |calls|
  {
    if calls != [] {
      NothingAfter(calls[1..], answers[1..], key, from, to);
    }
  }

  lemma {:induction false} TokenSupply(m: Buckets, capacity: real, rate: real, calls: seq<Call>,
                                            key: string, from: real, to: real)
    requires capacity > 0.0 && rate > 0.0 && from <= to && Forward(calls, key)
    requires key in m ==> GoodBucket(m[key], capacity) && NotBefore(calls, key, m[key].at)
    ensures |RunToken(m, capacity, rate, calls)| == |calls|
    ensures Admitted(calls, RunToken(m, capacity, rate, calls), key, from, to) as real <=
      capacity + Flow(rate, from, to)
    decreases |calls|
  {
    hide Flow, Take;
    RunLength(m, capacity, rate, calls);
    Grow(rate, from, to);
    if calls != [] {
      var k, now := calls[0].key, calls[0].now;
      var (b, ok) := Take(Find(m, k), capacity, rate, now);
      var m' := m[k := b];
      assert RunToken(m, capacity, rate, calls)[1..] == RunToken(m', capacity, rate, calls[1..]);
      if k != key {
        TokenSupply(m', capacity, rate, calls[1..], key, from, to);
      } else if now > to {
        NothingAfter(calls, RunToken(m, capacity, rate, calls), key, from, to);
      } else {
        TakeKeepsGood(Find(m, key), capacity, rate, now);
        if now < from {
          TokenSupply(m', capacity, rate, calls[1..], key, from, to);
        } else {
          AdmittedWithinSupply(m', capacity, rate, calls[1..], key, from, to);
          Split(rate, from, now, to);
          Grow(rate, from, now);
        }
      }
    }
  }

  /** In any interval at most the capacity plus the rate times its length is admitted per key. */
  lemma TokenBucketBound(m: Buckets, capacity: real, rate: real, calls: seq<Call>, key: string, from: real, to: real)
    requires capacity > 0.0 && rate > 0.0 && from <= to && Forward(calls, key)
    requires key in m ==> GoodBucket(m[key], capacity) && NotBefore(calls, key, m[key].at)
    ensures var answers := RunToken(m, capacity, rate, calls);
      |answers| == |calls| &&
      |AdmittedAt(calls, answers, key, from, to)| as real <= capacity + rate * (to - from)
  {
    hide AdmittedAt, Flow;
    FlowIs(rate, from, to);
    TokenSupply(m, capacity, rate, calls, key, from, to);
    AdmittedCounts(calls, RunToken(m, capacity, rate, calls), key, from, to);
  }

  /** The leaky bucket, being the same limiter, obeys the same bound. */
  lemma LeakyBucketBound(capacity: real, rate: real, calls: seq<Call>, key: string, from: real, to: real)
    requires capacity > 0.0 && rate > 0.0 && from <= to && Forward(calls, key)
    ensures var answers := RunLeaky(map[], capacity, rate, calls);
      |answers| == |calls| &&
      |AdmittedAt(calls, answers, key, from, to)| as real <= capacity + rate * (to - from)
  {
    hide AdmittedAt;
    LimitersAgree(map[], map[], capacity, rate, calls);
    TokenBucketBound(map[], capacity, rate, calls, key, from, to);
  }

  // ---------- the limiters with their buckets updated in place ----------

  class BucketCell {
    var amount: real
    var at: real

    ghost function Value(): Bucket
      reads this
    {
      Bucket(amount, at)
    }

    constructor (amount: real, at: real)
      ensures Value() == Bucket(amount, at)
    {
      this.amount, this.at := amount, at;
    }

    method RefillTokens(capacity: real, rate: real, now: real)
      modifies this
      ensures Value() == Refill(Some(old(Value())), capacity, rate, now)
    {
      var elapsed := now - at;
      if elapsed > 0.0 {
        amount := amount + elapsed * rate;
        if amount > capacity {
          amount := capacity;
        }
        at := now;
      }
    }

    method SpendToken() returns (ok: bool)
      modifies this
      ensures (Value(), ok) == Spend(old(Value()))
    {
      if amount < 1.0 {
        return false;
      }
      amount := amount - 1.0;
      return true;
    }

    method DrainQueue(leakRate: real, now: real)
      modifies this
      ensures Value() == Drain(Some(old(Value())), leakRate, now)
    {
      var elapsed := now - at;
      if elapsed > 0.0 {
        amount := amount - elapsed * leakRate;
        if amount < 0.0 {
          amount := 0.0;
        }
        at := now;
      }
    }

    method QueueEvent(capacity: real) returns (ok: bool)
      modifies this
      ensures (Value(), ok) == Queue(old(Value()), capacity)
    {
      if amount + 1.0 > capacity {
        return false;
      }
      amount := amount + 1.0;
      return true;
    }
  }

  /** No two keys share a bucket. */
  ghost predicate Separate(buckets: map<string, BucketCell>) {
    forall j, k :: j in buckets && k in buckets && j != k ==> buckets[j] != buckets[k]
  }

  ghost function StateOf(buckets: map<string, BucketCell>): Buckets
    reads buckets.Values
  {
    map k | k in buckets :: buckets[k].Value()
  }

  class TokenLimiter {
    const capacity: real
    const rate: real
    var buckets: map<string, BucketCell>

    constructor (capacity: real, rate: real)
      ensures buckets == map[] && this.capacity == capacity && this.rate == rate
    {
      this.capacity, this.rate, buckets := capacity, rate, map[];
    }

    method Allow(key: string, now: real) returns (ok: bool)
      requires Separate(buckets)
      modifies this, buckets.Values
      ensures Separate(buckets) && forall k :: k in buckets ==> buckets[k] in old(buckets.Values) || fresh(buckets[k])
      ensures var (b, ok') := Take(Find(old(StateOf(buckets)), key), capacity, rate, now);
        ok == ok' && StateOf(buckets) == old(StateOf(buckets))[key := b]
    {
      hide Refill, Spend, Find, Separate, StateOf;
      RefillBucket(key, now);
      ok := TakeToken(key);
    }

    /** The first half of `Allow`: the key's bucket as of now, a full one if it is new. */
    method RefillBucket(key: string, now: real)
      requires Separate(buckets)
      modifies this`buckets, buckets.Values
      ensures Separate(buckets) && forall k :: k in buckets ==> buckets[k] in old(buckets.Values) || fresh(buckets[k])
      ensures var b := Refill(Find(old(StateOf(buckets)), key), capacity, rate, now);
        key in buckets && StateOf(buckets) == old(StateOf(buckets))[key := b]
    {
      hide Refill;
      if key !in buckets {
        NewTokens(capacity, rate, now);
        var b := new BucketCell(capacity, now);
        buckets := buckets[key := b];
      } else {
        buckets[key].RefillTokens(capacity, rate, now);
      }
    }

    method TakeToken(key: string) returns (ok: bool)
      requires Separate(buckets) && key in buckets
      modifies buckets[key]
      ensures Separate(buckets) && key in old(StateOf(buckets))
      ensures var (b, ok') := Spend(old(StateOf(buckets))[key]);
        ok == ok' && StateOf(buckets) == old(StateOf(buckets))[key := b]
    {
      hide Spend;
      ok := buckets[key].SpendToken();
    }
  }

  lemma NewTokens(capacity: real, rate: real, now: real)
    ensures Refill(None, capacity, rate, now) == Bucket(capacity, now)
  {
  }

  class LeakyLimiter {
    const capacity: real
    const leakRate: real
    var buckets: map<string, BucketCell>

    constructor (capacity: real, leakRate: real)
      ensures buckets == map[] && this.capacity == capacity && this.leakRate == leakRate
    {
      this.capacity, this.leakRate, buckets := capacity, leakRate, map[];
    }

    method Allow(key: string, now: real) returns (ok: bool)
      requires Separate(buckets)
      modifies this, buckets.Values
      ensures Separate(buckets) && forall k :: k in buckets ==> buckets[k] in old(buckets.Values) || fresh(buckets[k])
      ensures var (b, ok') := Pour(Find(old(StateOf(buckets)), key), capacity, leakRate, now);
        ok == ok' && StateOf(buckets) == old(StateOf(buckets))[key := b]
    {
      hide Drain, Queue, Find, Separate, StateOf;
      DrainBucket(key, now);
      ok := AddEvent(key);
    }

    /** The first half of `Allow`: the key's bucket as of now, an empty one if it is new. */
    method DrainBucket(key: string, now: real)
      requires Separate(buckets)
      modifies this`buckets, buckets.Values
      ensures Separate(buckets) && forall k :: k in buckets ==> buckets[k] in old(buckets.Values) || fresh(buckets[k])
      ensures var b := Drain(Find(old(StateOf(buckets)), key), leakRate, now);
        key in buckets && StateOf(buckets) == old(StateOf(buckets))[key := b]
    {
      hide Drain;
      if key !in buckets {
        NewQueue(leakRate, now);
        var b := new BucketCell(0.0, now);
        buckets := buckets[key := b];
      } else {
        buckets[key].DrainQueue(leakRate, now);
      }
    }

    method AddEvent(key: string) returns (ok: bool)
      requires Separate(buckets) && key in buckets
      modifies buckets[key]
      ensures Separate(buckets) && key in old(StateOf(buckets))
      ensures var (b, ok') := Queue(old(StateOf(buckets))[key], capacity);
        ok == ok' && StateOf(buckets) == old(StateOf(buckets))[key := b]
    {
      hide Queue;
      ok := buckets[key].QueueEvent(capacity);
    }
  }

  lemma NewQueue(leakRate: real, now: real)
    ensures Drain(None, leakRate, now) == Bucket(0.0, now)
  {
  }
}
