/** The ring buffer of time windows, against an unbounded log of writes. */
module WindowedStore {
  import opened Outcomes

  datatype SeriesKey = SeriesKey(name: string, attributes: string)

  type Series = map<SeriesKey, real>

  const NEVER: int := -0x8000_0000_0000_0000

  /** A ring slot: the epoch that last wrote to it and that epoch's values. */
  datatype Bucket = Bucket(epoch: int, series: Series)

  const EMPTY: Bucket := Bucket(NEVER, map[])

  /** Go's integer division truncates towards zero. */
  function Epoch(now: int, windowDuration: int): int
    requires windowDuration > 0
  {
    if now >= 0 then now / windowDuration else -((-now) / windowDuration)
  }

  lemma Product(d: nat, a: int, b: int)
    requires a < b
    ensures d * a + d <= d * b
  {
    assert d * (b - a) >= d by { Multiple(d, b - a); }
  }

  /** From 0 on, epoch e covers the times from e*d to before (e+1)*d; the last d below 0 still belong to epoch 0. */
  lemma EpochMeans(now: int, d: int)
    requires d > 0
    ensures now >= 0 ==> Epoch(now, d) >= 0 && Epoch(now, d) * d <= now < Epoch(now, d) * d + d
    ensures -d < now < 0 ==> Epoch(now, d) == 0
    ensures now <= -d ==> Epoch(now, d) < 0 && Epoch(now, d) * d - d < now <= Epoch(now, d) * d
  {
    var x := if now >= 0 then now else -now;
    var q := x / d;
    assert x == d * q + x % d;
    if q < 0 {
      Product(d, q, 0);
    }
    if now < 0 {
      assert -q * d == -(d * q);
      if q > 0 {
        Product(d, 0, q);
      }
    }
  }

  /** The time belongs to epoch `e`. */
  ghost predicate Covers(e: int, now: int, d: int) {
    if now >= 0 then e >= 0 && e * d <= now < e * d + d else -d < now && e == 0
  }

  lemma EpochCovers(now: int, d: int)
    requires d > 0
    ensures now > -d ==> Covers(Epoch(now, d), now, d)
    ensures Epoch(now, d) < 0 <==> now <= -d
  {
    EpochMeans(now, d);
  }

  /** An epoch is below `m` exactly for times before the start of `m`. */
  lemma EpochBelow(now: int, d: int, m: nat)
    requires d > 0
    ensures m > 0 ==> (Epoch(now, d) < m <==> now < m * d)
    ensures Epoch(now, d) < 0 <==> now <= -d
  {
    EpochMeans(now, d);
    var e := Epoch(now, d);
    if m > 0 {
      Product(d, 0, m);
      if now >= 0 {
        if e < m {
          Product(d, e, m);
        } else if e > m {
          Product(d, m, e);
        }
      }
    }
  }

  // ---------- the log ----------

  datatype Write = Write(epoch: int, key: SeriesKey, value: real)

  /** The last value per series written in an epoch. */
  function SeriesAt(log: seq<Write>, epoch: int): Series {
    if log == [] then map[]
    else
      var init, w := log[..|log| - 1], log[|log| - 1];
      if w.epoch == epoch then SeriesAt(init, epoch)[w.key := w.value] else SeriesAt(init, epoch)
  }

  function Last(log: seq<Write>): int {
    if log == [] then NEVER
    else
      var before, w := Last(log[..|log| - 1]), log[|log| - 1];
      if w.epoch > before then w.epoch else before
  }

  ghost predicate GoodLog(log: seq<Write>) {
    forall i :: 0 <= i < |log| ==> log[i].epoch >= 0
  }

  lemma {:induction false} NothingAfterLast(log: seq<Write>, epoch: int)
    ensures epoch > Last(log) ==> SeriesAt(log, epoch) == map[]
    decreases |log|
  {
    if log != [] {
      NothingAfterLast(log[..|log| - 1], epoch);
    }
  }

  lemma {:induction false} LastIsGood(log: seq<Write>)
    requires GoodLog(log)
    ensures Last(log) == NEVER || Last(log) >= 0
    ensures log == [] <==> Last(log) == NEVER
    decreases |log|
  {
    if log != [] {
      LastIsGood(log[..|log| - 1]);
    }
  }

  /** The write at position `i` is the last one to this series in its epoch. */
  ghost predicate LastWrite(log: seq<Write>, e: int, key: SeriesKey, i: nat) {
    i < |log| && log[i].epoch == e && log[i].key == key &&
    forall j :: i < j < |log| ==> log[j].epoch != e || log[j].key != key
  }

  /** A series has a value in an epoch if it was written there, and it is the last one. */
  lemma {:induction false} SeriesMeans(log: seq<Write>, e: int, key: SeriesKey)
    ensures key in SeriesAt(log, e) <==> exists i: nat :: LastWrite(log, e, key, i)
    ensures forall i: nat :: LastWrite(log, e, key, i) ==>
      key in SeriesAt(log, e) && SeriesAt(log, e)[key] == log[i].value
    decreases |log|
  {
    if log != [] {
      var init, w := log[..|log| - 1], log[|log| - 1];
      SeriesMeans(init, e, key);
      if w.epoch == e && w.key == key {
        assert LastWrite(log, e, key, |init|);
        assert forall i: nat :: LastWrite(log, e, key, i) ==> i == |init|;
      } else {
        forall i: nat
          ensures LastWrite(log, e, key, i) <==> LastWrite(init, e, key, i)
        {
          assert i < |init| ==> log[i] == init[i];
        }
      }
    }
  }

  /** The newest epoch of a log. */
  lemma {:induction false} LastMeans(log: seq<Write>)
    requires GoodLog(log) && log != []
    ensures forall i :: 0 <= i < |log| ==> log[i].epoch <= Last(log)
    ensures exists i :: 0 <= i < |log| && log[i].epoch == Last(log)
    decreases |log|
  {
    var init := log[..|log| - 1];
    if init != [] {
      LastMeans(init);
      var i :| 0 <= i < |init| && init[i].epoch == Last(init);
      assert log[i].epoch == Last(init);
    }
    assert log[|log| - 1].epoch >= 0;
  }

  function WithWrite(m: Series, w: Write, epoch: int): Series {
    if epoch == w.epoch then m[w.key := w.value] else m
  }

  lemma OneMoreWrite(log: seq<Write>, w: Write)
    ensures forall e :: SeriesAt(log + [w], e) == WithWrite(SeriesAt(log, e), w, e)
    ensures Last(log + [w]) == if w.epoch > Last(log) then w.epoch else Last(log)
  {
    assert (log + [w])[..|log|] == log;
  }

  // ---------- slots ----------

  function Slot(epoch: int, n: nat): (s: nat)
    requires epoch >= 0 && n > 0
    ensures s < n
  {
    epoch % n
  }

  /** Less than a full turn apart, different epochs have different slots. */
  lemma SlotsDiffer(a: int, b: int, n: nat)
    requires 0 <= a < b < a + n
    ensures Slot(a, n) != Slot(b, n)
  {
    if a % n == b % n {
      assert b - a == n * (b / n - a / n);
      if b / n - a / n >= 1 {
        Multiple(n, b / n - a / n);
      } else {
        Multiple(n, a / n - b / n);
      }
    }
  }

  lemma Multiple(n: nat, k: int)
    requires k >= 0
    ensures k >= 1 ==> n * k >= n
    ensures n * k >= 0
  {
  }

  lemma SlotTurns(a: int, n: nat)
    requires a >= 0 && n > 0
    ensures Slot(a + n, n) == Slot(a, n)
  {
    assert a + n == n * (a / n + 1) + a % n;
    UniqueQuotient(a + n, n, a / n + 1, a % n);
  }

  lemma UniqueQuotient(x: int, n: nat, q: int, r: int)
    requires n > 0 && x >= 0 && x == n * q + r && 0 <= r < n
    ensures x % n == r
  {
    var d := q - x / n;
    assert n * d == x % n - r;
    if d > 0 {
      Multiple(n, d);
    } else if d < 0 {
      Multiple(n, -d);
    }
  }

  /** The epochs the buffer still holds, given the newest one written. */
  predicate Retained(epoch: int, last: int, n: nat) {
    0 <= epoch && last - n < epoch <= last
  }

  /** Every slot is empty or holds some values of an epoch that is not newer than the newest. */
  ghost predicate Formed(buckets: seq<Bucket>, last: int) {
    |buckets| > 0 && forall s :: 0 <= s < |buckets| ==> SlotFormed(buckets, last, s)
  }

  ghost predicate SlotFormed(buckets: seq<Bucket>, last: int, s: nat)
    requires s < |buckets|
  {
    buckets[s] == EMPTY ||
    (0 <= buckets[s].epoch <= last && Slot(buckets[s].epoch, |buckets|) == s && buckets[s].series != map[])
  }

  /** A query for epoch `e` sees what the log says. */
  ghost predicate Shows(buckets: seq<Bucket>, log: seq<Write>, e: int)
    requires |buckets| > 0 && e >= 0
  {
    var b := buckets[Slot(e, |buckets|)];
    if SeriesAt(log, e) != map[] then b == Bucket(e, SeriesAt(log, e)) else b.epoch != e
  }

  /** Every retained epoch reads as the log. */
  ghost predicate Faithful(buckets: seq<Bucket>, log: seq<Write>, last: int)
    requires |buckets| > 0
  {
    forall e :: Retained(e, last, |buckets|) ==> Shows(buckets, log, e)
  }

  /** No slot holds an epoch older than the retained ones. */
  ghost predicate NoLeftovers(buckets: seq<Bucket>, last: int) {
    forall s :: 0 <= s < |buckets| && buckets[s] != EMPTY ==> buckets[s].epoch > last - |buckets|
  }

  // ---------- writing ----------

  /** The slot was emptied because its turn came again. */
  ghost predicate Evicted(s: nat, last: int, k: nat, n: nat)
    requires n > 0 && last >= -1
  {
    exists e :: last < e <= last + k && Slot(e, n) == s
  }

  lemma EvictOne(last: int, i: nat, n: nat)
    requires n > 0 && last >= -1 && i > 0
    ensures forall s: nat :: Evicted(s, last, i, n) <==> s == Slot(last + i, n) || Evicted(s, last, i - 1, n)
  {
    assert Evicted(Slot(last + i, n), last, i, n);
    forall s: nat | Evicted(s, last, i, n) && s != Slot(last + i, n)
      ensures Evicted(s, last, i - 1, n)
    {
      var e :| last < e <= last + i && Slot(e, n) == s;
      assert e <= last + (i - 1);
    }
    forall s: nat | Evicted(s, last, i - 1, n)
      ensures Evicted(s, last, i, n)
    {
      var e :| last < e <= last + (i - 1) && Slot(e, n) == s;
    }
  }

  function TurnsToEvict(current: int, last: int, n: nat): nat
    requires current > last
  {
    if current - last < n then current - last else n
  }

  /** The first half of `Set`: the slots that the clock has moved over are emptied. */
  ghost function Advanced(buckets: seq<Bucket>, last: int, current: int): (r: seq<Bucket>)
    requires |buckets| > 0 && (last == NEVER || last >= -1)
    ensures |r| == |buckets|
  {
    if last == NEVER || current <= last then buckets else
      var k := TurnsToEvict(current, last, |buckets|);
      seq(|buckets|, s requires 0 <= s < |buckets| => if Evicted(s, last, k, |buckets|) then EMPTY else buckets[s])
  }

  /** The second half of `Set`. */
  function WriteSlot(b: Bucket, epoch: int, key: SeriesKey, value: real): Bucket {
    if b.epoch != epoch then Bucket(epoch, map[key := value]) else Bucket(epoch, b.series[key := value])
  }

  function Written(buckets: seq<Bucket>, w: Write): (r: seq<Bucket>)
    requires |buckets| > 0 && w.epoch >= 0
    ensures |r| == |buckets|
  {
    var s := Slot(w.epoch, |buckets|);
    buckets[s := WriteSlot(buckets[s], w.epoch, w.key, w.value)]
  }

  function Newer(a: int, b: int): int {
    if b > a then b else a
  }

  /** Whatever the advance, eviction keeps every retained epoch readable, and no leftover survives it. */
  lemma AdvanceKeepsFaithful(buckets: seq<Bucket>, log: seq<Write>, last: int, current: int)
    requires Formed(buckets, last) && GoodLog(log) && last == Last(log) && (last == NEVER || last >= 0) && current >= 0
    ensures Formed(Advanced(buckets, last, current), Newer(last, current))
    ensures Faithful(buckets, log, last) ==> Faithful(Advanced(buckets, last, current), log, Newer(last, current))
    ensures NoLeftovers(buckets, last) ==> NoLeftovers(Advanced(buckets, last, current), Newer(last, current))
  {
    hide SeriesAt, Last, GoodLog;
    if last == NEVER {
      StartsEmpty(buckets, log, current);
    } else if current > last {
      AdvanceIsFormed(buckets, last, current);
      if Faithful(buckets, log, last) {
        AdvanceIsFaithful(buckets, log, last, current);
      }
      if NoLeftovers(buckets, last) {
        AdvanceDropsLeftovers(buckets, last, current);
      }
    }
  }

  /** Nothing is shown before the first write. */
  lemma StartsEmpty(buckets: seq<Bucket>, log: seq<Write>, current: int)
    requires Formed(buckets, NEVER) && GoodLog(log) && Last(log) == NEVER && current >= 0
    ensures Formed(buckets, current) && Faithful(buckets, log, current) && NoLeftovers(buckets, current)
  {
    LastIsGood(log);
    assert log == [];
    forall s | 0 <= s < |buckets|
      ensures buckets[s] == EMPTY
    {
      assert SlotFormed(buckets, NEVER, s);
    }
  }

  lemma AdvanceIsFormed(buckets: seq<Bucket>, last: int, current: int)
    requires Formed(buckets, last) && 0 <= last < current
    ensures Formed(Advanced(buckets, last, current), current)
  {
    hide Evicted, Slot;
    var after := Advanced(buckets, last, current);
    forall s | 0 <= s < |after|
      ensures SlotFormed(after, current, s)
    {
      assert SlotFormed(buckets, last, s);
    }
  }

  /** An epoch that is still retained shows after eviction what it showed before. */
  lemma AdvanceShows(buckets: seq<Bucket>, last: int, current: int, writes: seq<Write>, e: int)
    requires Formed(buckets, last) && 0 <= last < current && 0 <= e && e > current - |buckets|
    requires if e <= last then Shows(buckets, writes, e) else SeriesAt(writes, e) == map[]
    ensures Shows(Advanced(buckets, last, current), writes, e)
  {
    hide SeriesAt;
    var n := |buckets|;
    var s := Slot(e, n);
    assert SlotFormed(buckets, last, s);
    if e <= last && Evicted(s, last, TurnsToEvict(current, last, n), n) {
      var e' :| last < e' <= last + TurnsToEvict(current, last, n) && Slot(e', n) == s;
      SlotsDiffer(e, e', n);
    }
  }

  lemma AdvanceIsFaithful(buckets: seq<Bucket>, log: seq<Write>, last: int, current: int)
    requires Formed(buckets, last) && last == Last(log) && 0 <= last < current && Faithful(buckets, log, last)
    ensures Faithful(Advanced(buckets, last, current), log, current)
  {
    hide SeriesAt, Last, Shows;
    forall e | Retained(e, current, |buckets|)
      ensures Shows(Advanced(buckets, last, current), log, e)
    {
      NothingAfterLast(log, e);
      AdvanceShows(buckets, last, current, log, e);
    }
  }

  lemma AdvanceDropsLeftovers(buckets: seq<Bucket>, last: int, current: int)
    requires Formed(buckets, last) && 0 <= last < current && NoLeftovers(buckets, last)
    ensures NoLeftovers(Advanced(buckets, last, current), current)
  {
    var n := |buckets|;
    var k := TurnsToEvict(current, last, n);
    var after := Advanced(buckets, last, current);
    forall s | 0 <= s < n && after[s] != EMPTY
      ensures after[s].epoch > current - n
    {
      assert SlotFormed(buckets, last, s);
      var e := buckets[s].epoch;
      if e <= current - n {
        ComesRound(e, last, current, n);
      }
    }
  }

  lemma ComesRound(e: int, last: int, current: int, n: nat)
    requires n > 0 && 0 <= e <= last < current && last - n < e <= current - n
    ensures Evicted(Slot(e, n), last, TurnsToEvict(current, last, n), n)
  {
    SlotTurns(e, n);
    assert last < e + n <= last + TurnsToEvict(current, last, n) && Slot(e + n, n) == Slot(e, n);
  }

  lemma WriteIsFormed(buckets: seq<Bucket>, last: int, w: Write)
    requires Formed(buckets, last) && 0 <= w.epoch <= last
    ensures Formed(Written(buckets, w), last)
  {
    hide Slot;
    var after := Written(buckets, w);
    forall s | 0 <= s < |after|
      ensures SlotFormed(after, last, s)
    {
      assert SlotFormed(buckets, last, s);
      if s == Slot(w.epoch, |buckets|) {
        assert w.key in after[s].series;
      }
    }
  }

  /** A write to a retained epoch, current or late, keeps every retained epoch readable. */
  lemma WriteKeepsFaithful(buckets: seq<Bucket>, log: seq<Write>, last: int, w: Write)
    requires Formed(buckets, last) && Faithful(buckets, log, last) && Retained(w.epoch, last, |buckets|)
    ensures Faithful(Written(buckets, w), log + [w], last)
  {
    hide SeriesAt, Slot, Shows, Written;
    var n := |buckets|;
    forall e | Retained(e, last, n)
      ensures Shows(Written(buckets, w), log + [w], e)
    {
      if e < w.epoch {
        SlotsDiffer(e, w.epoch, n);
      } else if e > w.epoch {
        SlotsDiffer(w.epoch, e, n);
      }
      WriteShows(buckets, log, e, w);
    }
  }

  /** No retained epoch with values has the slot of `epoch`. */
  ghost predicate SlotIsFree(log: seq<Write>, last: int, n: nat, epoch: int)
    requires n > 0 && epoch >= 0
  {
    forall e :: Retained(e, last, n) && Slot(e, n) == Slot(epoch, n) ==> SeriesAt(log, e) == map[]
  }

  /** A write older than the retained epochs is not ignored: it destroys the newer window in its slot. It does
      no harm exactly if there is none. */
  lemma StaleWriteDestroysIff(buckets: seq<Bucket>, log: seq<Write>, last: int, w: Write)
    requires Formed(buckets, last) && Faithful(buckets, log, last) && 0 <= w.epoch <= last - |buckets|
    ensures Faithful(Written(buckets, w), log + [w], last) <==> SlotIsFree(log, last, |buckets|, w.epoch)
    ensures forall e :: Retained(e, last, |buckets|) && Slot(e, |buckets|) == Slot(w.epoch, |buckets|) ==>
      Written(buckets, w)[Slot(e, |buckets|)].epoch != e
  {
    hide SeriesAt, Slot;
    OneMoreWrite(log, w);
    forall e | Retained(e, last, |buckets|)
      ensures Shows(Written(buckets, w), log + [w], e) <==>
        (Slot(e, |buckets|) == Slot(w.epoch, |buckets|) ==> SeriesAt(log, e) == map[])
    {
      assert Shows(buckets, log, e);
    }
  }

  /** What one `Set` does to the slots, and when the retained epochs still read as the log. */
  lemma SetFaithfulIff(buckets: seq<Bucket>, log: seq<Write>, last: int, w: Write)
    requires Formed(buckets, last) && GoodLog(log) && last == Last(log) && w.epoch >= 0
    ensures last == NEVER || last >= 0
    ensures var after := Written(Advanced(buckets, last, w.epoch), w);
      Formed(after, Newer(last, w.epoch)) && Newer(last, w.epoch) == Last(log + [w]) &&
      (Faithful(buckets, log, last) ==>
        (Faithful(after, log + [w], Newer(last, w.epoch)) <==>
          w.epoch > last - |buckets| || SlotIsFree(log, last, |buckets|, w.epoch))) &&
      (NoLeftovers(buckets, last) ==>
        (NoLeftovers(after, Newer(last, w.epoch)) <==> w.epoch > last - |buckets|))
  {
    hide SeriesAt, Last, Faithful, SlotIsFree, Evicted, Slot;
    LastIsGood(log);
    OneMoreWrite(log, w);
    AdvanceKeepsFaithful(buckets, log, last, w.epoch);
    var advanced, newest := Advanced(buckets, last, w.epoch), Newer(last, w.epoch);
    WriteIsFormed(advanced, newest, w);
    if Faithful(buckets, log, last) {
      if w.epoch > last - |buckets| {
        WriteKeepsFaithful(advanced, log, newest, w);
      } else {
        StaleWriteDestroysIff(advanced, log, newest, w);
      }
    }
    if NoLeftovers(buckets, last) {
      WriteLeavesIff(advanced, newest, w);
    }
  }

  lemma WriteLeavesIff(buckets: seq<Bucket>, last: int, w: Write)
    requires |buckets| > 0 && w.epoch >= 0 && NoLeftovers(buckets, last)
    ensures NoLeftovers(Written(buckets, w), last) <==> w.epoch > last - |buckets|
  {
    hide Slot;
    var s := Slot(w.epoch, |buckets|);
    assert Written(buckets, w)[s].epoch == w.epoch;
  }

  // ---------- whole runs ----------

  /** The slots after the writes of `log`, from an empty buffer of `n` slots. */
  ghost function Ring(n: nat, log: seq<Write>): (r: seq<Bucket>)
    requires n > 0 && GoodLog(log)
    ensures |r| == n
  {
    if log == [] then seq(n, i requires 0 <= i < n => EMPTY) else
      var init, w := log[..|log| - 1], log[|log| - 1];
      LastIsGood(init);
      Written(Advanced(Ring(n, init), Last(init), w.epoch), w)
  }

  /** The write is not older than what is retained, or hits a free slot. */
  ghost predicate Harmless(n: nat, log: seq<Write>, w: Write)
    requires n > 0 && w.epoch >= 0
  {
    w.epoch > Last(log) - n || SlotIsFree(log, Last(log), n, w.epoch)
  }

  ghost predicate AllHarmless(n: nat, log: seq<Write>)
    requires n > 0 && GoodLog(log)
    decreases |log|
  {
    log == [] || (AllHarmless(n, log[..|log| - 1]) && Harmless(n, log[..|log| - 1], log[|log| - 1]))
  }

  /** The writes after the last one that another epoch made to the slot of `e`. */
  function Since(log: seq<Write>, e: int, n: nat): seq<Write>
    requires n > 0 && e >= 0 && GoodLog(log)
  {
    if log == [] then [] else
      var init, w := log[..|log| - 1], log[|log| - 1];
      if w.epoch != e && Slot(w.epoch, n) == Slot(e, n) then [] else Since(init, e, n) + [w]
  }

  lemma {:induction false} SinceHasNoMore(log: seq<Write>, e: int, n: nat)
    requires n > 0 && e >= 0 && GoodLog(log) && SeriesAt(log, e) == map[]
    ensures SeriesAt(Since(log, e, n), e) == map[]
    decreases |log|
  {
    if log != [] {
      var init, w := log[..|log| - 1], log[|log| - 1];
      assert w.key in SeriesAt(init, e)[w.key := w.value];
      SinceHasNoMore(init, e, n);
      OneMoreWrite(Since(init, e, n), w);
    }
  }

  /** After one write an epoch shows that write as well, or nothing if the write took its slot over. */
  lemma WriteShows(buckets: seq<Bucket>, writes: seq<Write>, e: int, w: Write)
    requires |buckets| > 0 && e >= 0 && w.epoch >= 0 && Shows(buckets, writes, e)
    ensures w.epoch != e && Slot(w.epoch, |buckets|) == Slot(e, |buckets|) ==> Shows(Written(buckets, w), [], e)
    ensures w.epoch == e || Slot(w.epoch, |buckets|) != Slot(e, |buckets|) ==>
      Shows(Written(buckets, w), writes + [w], e)
  {
    hide Slot;
    OneMoreWrite(writes, w);
    assert w.key in SeriesAt(writes, e)[w.key := w.value];
    assert SeriesAt([], e) == map[];
  }

  /** On any run: a retained epoch shows exactly what was written to it since its slot was last taken over. */
  lemma {:induction false} RingShows(n: nat, log: seq<Write>, e: int)
    requires n > 0 && GoodLog(log) && e >= 0 && e > Last(log) - n
    ensures Formed(Ring(n, log), Last(log)) && Shows(Ring(n, log), Since(log, e, n), e)
    decreases |log|
  {
    hide SeriesAt, Slot, Evicted, Shows, Formed, Written;
    if log == [] {
      EmptyRing(n, e);
    } else {
      var init, w := log[..|log| - 1], log[|log| - 1];
      assert log == init + [w];
      OneMoreWrite(init, w);
      RingShows(n, init, e);
      SetFaithfulIff(Ring(n, init), init, Last(init), w);
      var s := Since(init, e, n);
      if Last(init) != NEVER && w.epoch > Last(init) {
        if e > Last(init) {
          NothingAfterLast(init, e);
          SinceHasNoMore(init, e, n);
        }
        AdvanceShows(Ring(n, init), Last(init), w.epoch, s, e);
      }
      WriteShows(Advanced(Ring(n, init), Last(init), w.epoch), s, e, w);
    }
  }

  lemma EmptyRing(n: nat, e: int)
    requires n > 0 && e >= 0
    ensures Formed(Ring(n, []), NEVER) && Shows(Ring(n, []), [], e)
  {
    assert SeriesAt([], e) == map[];
  }

  /** On any run: the retained epochs read as the log if and only if whatever was written to one of them before
      its slot was last taken over has been written again since. */
  lemma RunReadsAsLog(n: nat, log: seq<Write>)
    requires n > 0 && GoodLog(log)
    ensures Faithful(Ring(n, log), log, Last(log)) <==>
      forall e :: Retained(e, Last(log), n) ==> SeriesAt(Since(log, e, n), e) == SeriesAt(log, e)
  {
    hide SeriesAt, Last, Ring, Slot;
    forall e | Retained(e, Last(log), n)
      ensures Shows(Ring(n, log), log, e) <==> SeriesAt(Since(log, e, n), e) == SeriesAt(log, e)
    {
      RingShows(n, log, e);
      if SeriesAt(log, e) == map[] {
        SinceHasNoMore(log, e, n);
      }
    }
  }

  ghost predicate ReadsRight(n: nat, log: seq<Write>)
    requires n > 0
  {
    GoodLog(log) && Faithful(Ring(n, log), log, Last(log))
  }

  /** After harmless writes, one more keeps everything readable if and only if it is harmless too. */
  lemma {:induction false} NextIsHarmlessIff(n: nat, log: seq<Write>)
    requires n > 0 && GoodLog(log) && (log == [] || AllHarmless(n, log[..|log| - 1]))
    ensures Formed(Ring(n, log), Last(log))
    ensures ReadsRight(n, log) <==> AllHarmless(n, log)
    decreases |log|
  {
    if log == [] {
      assert forall e :: SeriesAt(log, e) == map[];
    } else {
      var init, w := log[..|log| - 1], log[|log| - 1];
      assert log == init + [w];
      NextIsHarmlessIff(n, init);
      SetFaithfulIff(Ring(n, init), init, Last(init), w);
    }
  }

  /** The retained epochs read as the log at every moment of a run if and only if all its writes are harmless. */
  lemma {:induction false} AlwaysRightIff(n: nat, log: seq<Write>)
    requires n > 0 && GoodLog(log)
    ensures AllHarmless(n, log) <==> forall i :: 0 <= i <= |log| ==> ReadsRight(n, log[..i])
    decreases |log|
  {
    hide Harmless, Ring, Faithful;
    assert log[..|log|] == log;
    if log == [] {
      NextIsHarmlessIff(n, log);
    } else {
      var init := log[..|log| - 1];
      AlwaysRightIff(n, init);
      assert forall i :: 0 <= i <= |init| ==> init[..i] == log[..i];
      if AllHarmless(n, init) {
        NextIsHarmlessIff(n, log);
      }
    }
  }

  // ---------- reading ----------

  function EpochStart(epoch: int, windowDuration: int): int {
    epoch * windowDuration
  }

  datatype WindowResult = WindowResult(start: int, series: Series)

  /** The non-empty retained epochs in [low, high), oldest first, as the log knows them. */
  function LogWindows(log: seq<Write>, last: int, n: nat, low: int, high: int, windowDuration: int): seq<WindowResult>
    decreases high - low
  {
    if low >= high then []
    else
      var rest := LogWindows(log, last, n, low, high - 1, windowDuration);
      if Retained(high - 1, last, n) && SeriesAt(log, high - 1) != map[]
      then rest + [WindowResult(EpochStart(high - 1, windowDuration), SeriesAt(log, high - 1))] else rest
  }

  /** The window of epoch `e` as the log has it. */
  ghost predicate IsWindow(w: WindowResult, log: seq<Write>, e: int, d: int) {
    w.start == e * d && w.series == SeriesAt(log, e)
  }

  /** Every window is that of a retained epoch in range that has values. */
  lemma {:induction false} WindowsAreLogged(log: seq<Write>, last: int, n: nat, low: int, high: int, d: int)
    ensures forall w :: w in LogWindows(log, last, n, low, high, d) ==>
      exists e :: low <= e < high && Logged(log, last, n, e) && IsWindow(w, log, e, d)
    decreases high - low
  {
    hide SeriesAt;
    if low < high {
      WindowsAreLogged(log, last, n, low, high - 1, d);
      var rest := LogWindows(log, last, n, low, high - 1, d);
      forall w | w in LogWindows(log, last, n, low, high, d) && w !in rest
        ensures Logged(log, last, n, high - 1) && IsWindow(w, log, high - 1, d)
      {
      }
    }
  }

  /** None of these epochs is left out. */
  lemma {:induction false} LoggedHasWindow(log: seq<Write>, last: int, n: nat, low: int, high: int, d: int, e: int)
    requires low <= e < high && Logged(log, last, n, e)
    ensures WindowResult(e * d, SeriesAt(log, e)) in LogWindows(log, last, n, low, high, d)
    decreases high - low
  {
    hide SeriesAt;
    if e < high - 1 {
      LoggedHasWindow(log, last, n, low, high - 1, d, e);
    }
  }

  ghost predicate Ascending(ws: seq<WindowResult>) {
    forall i, j :: 0 <= i < j < |ws| ==> ws[i].start < ws[j].start
  }

  /** The windows come by time. */
  lemma {:induction false} WindowsAscend(log: seq<Write>, last: int, n: nat, low: int, high: int, d: int)
    requires d > 0
    ensures Ascending(LogWindows(log, last, n, low, high, d))
    decreases high - low
  {
    hide SeriesAt, EpochStart;
    if low < high {
      var rest := LogWindows(log, last, n, low, high - 1, d);
      WindowsAscend(log, last, n, low, high - 1, d);
      forall w | w in rest
        ensures w.start < EpochStart(high - 1, d)
      {
        StartsBelow(log, last, n, low, high - 1, d, w);
      }
      AscendingNext(rest, WindowResult(EpochStart(high - 1, d), SeriesAt(log, high - 1)));
    }
  }

  lemma AscendingNext(ws: seq<WindowResult>, w: WindowResult)
    requires Ascending(ws) && forall v :: v in ws ==> v.start < w.start
    ensures Ascending(ws + [w])
  {
    assert forall i :: 0 <= i < |ws| ==> ws[i] in ws;
  }

  lemma StartsBelow(log: seq<Write>, last: int, n: nat, low: int, high: int, d: int, w: WindowResult)
    requires d > 0 && w in LogWindows(log, last, n, low, high, d)
    ensures w.start < EpochStart(high, d)
  {
    WindowsAreLogged(log, last, n, low, high, d);
    var e :| low <= e < high && Logged(log, last, n, e) && IsWindow(w, log, e, d);
    Product(d, e, high);
  }

  /** Every window that is found starts where its epoch does. */
  lemma {:induction false} FoundStarts(buckets: seq<Bucket>, low: int, high: int, d: int)
    requires |buckets| > 0 && low >= 0
    ensures forall w :: w in Found(buckets, low, high, d) ==> exists e :: low <= e < high && w.start == e * d
    decreases high - low
  {
    if low < high {
      FoundStarts(buckets, low, high - 1, d);
    }
  }

  /** The start is that of an epoch, not after `now` and within the last `k` windows. */
  ghost predicate InRange(start: int, now: int, k: nat, d: int)
    requires d > 0
  {
    now - k * d < start <= now && start / d * d == start
  }

  /** A query for `k` epochs reaches before epoch 0. */
  ghost predicate TooFar(k: int, now: int, d: int) {
    k > 0 && if k == 1 then now <= -d else now < (k - 1) * d
  }

  lemma TooFarIff(k: int, now: int, d: int)
    requires d > 0
    ensures TooFar(k, now, d) <==> k > 0 && Epoch(now, d) - k + 1 < 0
  {
    hide Epoch;
    if k > 0 {
      EpochBelow(now, d, k - 1);
    }
  }

  /** So it starts at a multiple of the duration, not after `now` and within the last `k` windows. */
  lemma FoundInRange(buckets: seq<Bucket>, now: int, k: nat, d: int)
    requires |buckets| > 0 && d > 0 && now >= 0 && Epoch(now, d) - k + 1 >= 0
    ensures forall w :: w in Found(buckets, Epoch(now, d) - k + 1, Epoch(now, d) + 1, d) ==>
      InRange(w.start, now, k, d)
  {
    hide Found, Epoch;
    var cur := Epoch(now, d);
    EpochMeans(now, d);
    FoundStarts(buckets, cur - k + 1, cur + 1, d);
    forall w | w in Found(buckets, cur - k + 1, cur + 1, d)
      ensures InRange(w.start, now, k, d)
    {
      var e :| cur - k + 1 <= e < cur + 1 && w.start == e * d;
      InLastWindows(now, cur, e, k, d);
    }
  }

  lemma InLastWindows(now: int, cur: int, e: int, k: nat, d: int)
    requires d > 0 && 0 <= cur - k + 1 <= e <= cur && cur * d <= now < cur * d + d
    ensures now - k * d < e * d <= now && e * d / d * d == e * d
  {
    if e < cur {
      Product(d, e, cur);
    }
    assert (cur - k) * d == cur * d - k * d;
    Product(d, cur - k, e);
    UniqueDivision(e, d);
  }

  lemma UniqueDivision(e: int, d: int)
    requires d > 0
    ensures e * d / d == e
  {
    var q := e * d / d;
    assert e * d == d * q + e * d % d;
    if q < e {
      Product(d, q, e);
    } else if q > e {
      Product(d, e, q);
    }
  }

  /** The windows a query finds in the slots of [low, high), oldest first. */
  function Found(buckets: seq<Bucket>, low: int, high: int, windowDuration: int): seq<WindowResult>
    requires |buckets| > 0 && low >= 0
    decreases high - low
  {
    if low >= high then []
    else
      var rest := Found(buckets, low, high - 1, windowDuration);
      var b := buckets[Slot(high - 1, |buckets|)];
      if b.epoch == high - 1 && b.series != map[]
      then rest + [WindowResult(EpochStart(high - 1, windowDuration), b.series)] else rest
  }

  lemma FoundNext(buckets: seq<Bucket>, low: int, e: int, d: int)
    requires |buckets| > 0 && 0 <= low <= e
    ensures var b := buckets[Slot(e, |buckets|)];
      Found(buckets, low, e + 1, d) ==
        if b.epoch == e && b.series != map[]
        then Found(buckets, low, e, d) + [WindowResult(EpochStart(e, d), b.series)] else Found(buckets, low, e, d)
  {
    hide EpochStart, Slot;
  }

  lemma NothingFound(buckets: seq<Bucket>, low: int, d: int)
    requires |buckets| > 0
    ensures low >= 0 ==> Found(buckets, low, low, d) == []
    ensures Total([]) == map[]
  {
  }

  /** What is found is what the log says, as long as the query does not go back beyond the retained epochs or
      nothing is left there. */
  lemma {:induction false} FoundIsLogged(buckets: seq<Bucket>, log: seq<Write>, last: int, low: int, high: int,
                                         windowDuration: int)
    requires Formed(buckets, last) && Faithful(buckets, log, last) && low >= 0
    requires low > last - |buckets| || NoLeftovers(buckets, last)
    ensures Found(buckets, low, high, windowDuration) ==
      LogWindows(log, last, |buckets|, low, high, windowDuration)
    decreases high - low
  {
    hide SeriesAt, EpochStart;
    if low < high {
      FoundIsLogged(buckets, log, last, low, high - 1, windowDuration);
      var e := high - 1;
      assert SlotFormed(buckets, last, Slot(e, |buckets|));
      if Retained(e, last, |buckets|) {
        assert Shows(buckets, log, e);
      }
    }
  }

  // ---------- what the comment on `GetWindows` promises ----------

  ghost predicate Logged(log: seq<Write>, last: int, n: nat, e: int) {
    Retained(e, last, n) && SeriesAt(log, e) != map[]
  }

  ghost predicate AllLogged(log: seq<Write>, last: int, n: nat, low: int, high: int) {
    forall e :: low <= e < high ==> Logged(log, last, n, e)
  }

  ghost predicate NoneLogged(log: seq<Write>, last: int, n: nat, low: int, high: int) {
    forall e :: low <= e < high ==> !Logged(log, last, n, e)
  }

  function LastOf<T>(s: seq<T>, k: nat): seq<T> {
    if |s| <= k then s else s[|s| - k..]
  }

  lemma {:induction false} WindowCount(log: seq<Write>, last: int, n: nat, low: int, high: int, d: int)
    requires low <= high
    ensures var k := |LogWindows(log, last, n, low, high, d)|;
      k <= high - low && (k == high - low <==> AllLogged(log, last, n, low, high)) &&
      (k == 0 <==> NoneLogged(log, last, n, low, high)) && (k == 0 || k <= high - (last - n + 1))
    ensures |LogWindows(log, last, n, low, high, d)| <= n
    decreases high - low
  {
    hide SeriesAt, EpochStart, AllLogged, NoneLogged;
    if low < high {
      WindowCount(log, last, n, low, high - 1, d);
      OneMoreEpoch(log, last, n, low, high);
    } else {
      NoEpochs(log, last, n, low);
    }
  }

  lemma NoEpochs(log: seq<Write>, last: int, n: nat, low: int)
    ensures AllLogged(log, last, n, low, low) && NoneLogged(log, last, n, low, low)
  {
  }

  lemma OneMoreEpoch(log: seq<Write>, last: int, n: nat, low: int, high: int)
    requires low < high
    ensures AllLogged(log, last, n, low, high) <==>
      AllLogged(log, last, n, low, high - 1) && Logged(log, last, n, high - 1)
    ensures NoneLogged(log, last, n, low, high) <==>
      NoneLogged(log, last, n, low, high - 1) && !Logged(log, last, n, high - 1)
  {
    hide Logged;
  }

  lemma {:induction false} SplitWindows(log: seq<Write>, last: int, n: nat, low: int, mid: int, high: int, d: int)
    requires low <= mid <= high
    ensures LogWindows(log, last, n, low, high, d) ==
      LogWindows(log, last, n, low, mid, d) + LogWindows(log, last, n, mid, high, d)
    decreases high - mid
  {
    if mid < high {
      SplitWindows(log, last, n, low, mid, high - 1, d);
    }
  }

  /** The windows among the last `k` epochs are the last `count` windows that are stored, as promised, if and only
      if each of these epochs has a window or no older one is stored. `k` is `count`, at most the number of slots. */
  lemma PromiseIff(log: seq<Write>, last: int, n: nat, count: nat, current: int, d: int)
    requires var k := if count > n then n else count; current - k + 1 >= 0
    ensures var k := if count > n then n else count;
      LogWindows(log, last, n, current - k + 1, current + 1, d) ==
        LastOf(LogWindows(log, last, n, 0, current + 1, d), count) <==>
      AllLogged(log, last, n, current - k + 1, current + 1) || NoneLogged(log, last, n, 0, current - k + 1)
  {
    hide LogWindows, AllLogged, NoneLogged;
    var k := if count > n then n else count;
    var low := current - k + 1;
    SplitWindows(log, last, n, 0, low, current + 1, d);
    WindowCount(log, last, n, 0, low, d);
    WindowCount(log, last, n, low, current + 1, d);
    WindowCount(log, last, n, 0, current + 1, d);
    var older, recent := LogWindows(log, last, n, 0, low, d), LogWindows(log, last, n, low, current + 1, d);
    assert older == [] ==> older + recent == recent;
    assert |recent| == k == count ==> LastOf(older + recent, count) == recent;
  }

  /** The same of what a query finds in the slots. */
  lemma QueryPromiseIff(buckets: seq<Bucket>, log: seq<Write>, last: int, count: nat, current: int, d: int)
    requires Formed(buckets, last) && Faithful(buckets, log, last) && NoLeftovers(buckets, last)
    requires var k := if count > |buckets| then |buckets| else count; current - k + 1 >= 0
    ensures var n := |buckets|;
      var k := if count > n then n else count;
      Found(buckets, current - k + 1, current + 1, d) == LastOf(Found(buckets, 0, current + 1, d), count) <==>
      AllLogged(log, last, n, current - k + 1, current + 1) || NoneLogged(log, last, n, 0, current - k + 1)
  {
    hide LogWindows, Found, AllLogged, NoneLogged, Formed, Faithful, NoLeftovers;
    SomeSlot(buckets, last);
    var k := if count > |buckets| then |buckets| else count;
    PromiseIff(log, last, |buckets|, count, current, d);
    FoundIsLogged(buckets, log, last, current - k + 1, current + 1, d);
    FoundIsLogged(buckets, log, last, 0, current + 1, d);
  }

  /** Three slots, writes at epochs 0 and 2: both windows are stored, but a query for two at epoch 2 finds one. */
  lemma FewerThanPromised(key: SeriesKey, value: real, d: int)
    ensures var log := [Write(0, key, value), Write(2, key, value)];
      |Found(Ring(3, log), 1, 3, d)| == 1 && |Found(Ring(3, log), 0, 3, d)| == 2
  {
    var first := [Write(0, key, value)];
    var log := [Write(0, key, value), Write(2, key, value)];
    assert log == first + [Write(2, key, value)] && first == [] + [Write(0, key, value)];
    OneMoreWrite([], Write(0, key, value));
    OneMoreWrite(first, Write(2, key, value));
    assert key in SeriesAt(log, 0) && key in SeriesAt(log, 2);
    assert SeriesAt(log, 1) == map[];
    assert log[..1] == first && first[..0] == [];
    NextIsHarmlessIff(3, log);
    FoundIsLogged(Ring(3, log), log, 2, 1, 3, d);
    FoundIsLogged(Ring(3, log), log, 2, 0, 3, d);
  }

  // ---------- sums ----------

  function ValueOr0(m: Series, k: SeriesKey): real {
    if k in m then m[k] else 0.0
  }

  function AddSeries(a: Series, b: Series): Series {
    map k | k in a.Keys + b.Keys :: ValueOr0(a, k) + ValueOr0(b, k)
  }

  /** Each series summed over the windows. */
  function Total(windows: seq<WindowResult>): Series {
    if windows == [] then map[]
    else AddSeries(Total(windows[..|windows| - 1]), windows[|windows| - 1].series)
  }

  /** The values of one series in the windows that have it, added up. */
  function SumOf(windows: seq<WindowResult>, key: SeriesKey): real {
    if windows == [] then 0.0
    else
      var init, series := windows[..|windows| - 1], windows[|windows| - 1].series;
      SumOf(init, key) + if key in series then series[key] else 0.0
  }

  /** The totals are per series: those of some window, each with the sum over the windows that have it. */
  lemma {:induction false} TotalMeans(windows: seq<WindowResult>, key: SeriesKey)
    ensures key in Total(windows) <==> exists i :: 0 <= i < |windows| && key in windows[i].series
    ensures key in Total(windows) ==> Total(windows)[key] == SumOf(windows, key)
    ensures key !in Total(windows) ==> SumOf(windows, key) == 0.0
    decreases |windows|
  {
    if windows != [] {
      var init := windows[..|windows| - 1];
      TotalMeans(init, key);
      assert forall i :: 0 <= i < |init| ==> windows[i] == init[i];
    }
  }

  lemma TotalNext(windows: seq<WindowResult>, w: WindowResult)
    ensures Total(windows + [w]) == AddSeries(Total(windows), w.series)
  {
    hide AddSeries;
    assert (windows + [w])[..|windows|] == windows;
  }

  lemma NothingAdded(total: Series, series: Series)
    ensures AddSeries(total, series - series.Keys) == total
  {
  }

  lemma AddOne(total: Series, series: Series, rest: set<SeriesKey>, k: SeriesKey)
    requires rest <= series.Keys && k in rest
    ensures var sum := AddSeries(total, series - rest);
      AddSeries(total, series - (rest - {k})) == sum[k := ValueOr0(sum, k) + series[k]]
  {
  }

  /** The result of `GetWindows`. */
  datatype Answer = Answer(windows: seq<WindowResult>, total: Series)

  class Store {
    const windowDuration: int
    const buckets: array<Bucket>
    var lastEpoch: int
    ghost var log: seq<Write>  // every write so far

    /** A first write at a negative epoch leaves that epoch behind although it panics. */
    ghost predicate Valid()
      reads this, buckets
    {
      && windowDuration > 0 && GoodLog(log) && Formed(buckets[..], Last(log))
      && if log == [] then lastEpoch < 0 else lastEpoch == Last(log)
    }

    /** Eviction would start from a negative epoch. */
    ghost predicate Stuck()
      reads this
    {
      log == [] && NEVER != lastEpoch < -1
    }

    /** Every retained epoch reads as the log. */
    ghost predicate Right()
      requires Valid()
      reads this, buckets
    {
      Faithful(buckets[..], log, Last(log))
    }

    /** Nothing older is left in any slot. */
    ghost predicate Clean()
      reads this, buckets
    {
      NoLeftovers(buckets[..], Last(log))
    }

    constructor (numBuckets: nat, windowDuration: int)
      requires numBuckets >= 1 && windowDuration > 0
      ensures Valid() && Right() && Clean() && !Stuck() && log == [] && buckets.Length == numBuckets
      ensures this.windowDuration == windowDuration && fresh(buckets)
    {
      this.windowDuration := windowDuration;
      buckets := new Bucket[numBuckets](_ => EMPTY);
      lastEpoch := NEVER;
      log := [];
    }

    /** The eviction loop of `Set`; `slotFor` panics on a negative epoch. */
    method Evict(current: int) returns (panicked: bool)
      requires buckets.Length > 0 && lastEpoch < current
      modifies buckets
      ensures panicked <==> lastEpoch < -1
      ensures buckets[..] == if panicked then old(buckets[..]) else Advanced(old(buckets[..]), lastEpoch, current)
    {
      ghost var before := buckets[..];
      var numToEvict := if current - lastEpoch < buckets.Length then current - lastEpoch else buckets.Length;
      for i := 1 to numToEvict + 1
        invariant lastEpoch < -1 ==> i == 1 && buckets[..] == before
        invariant lastEpoch >= -1 ==> forall s :: 0 <= s < buckets.Length ==>
          buckets[s] == if Evicted(s, lastEpoch, i - 1, buckets.Length) then EMPTY else before[s]
      {
        if lastEpoch + i < 0 {
          return true;
        }
        var slot := Slot(lastEpoch + i, buckets.Length);
        EvictOne(lastEpoch, i, buckets.Length);
        buckets[slot] := EMPTY;
      }
      return false;
    }

    /** The first half of `Set`: evicts what the clock has moved over and remembers the newest epoch. */
    method Advance(current: int) returns (panicked: bool)
      requires Valid()
      modifies this`lastEpoch, buckets
      ensures panicked <==> NEVER != old(lastEpoch) < -1 && current > old(lastEpoch)
      ensures lastEpoch == if panicked then old(lastEpoch) else Newer(old(lastEpoch), current)
      ensures Last(log) == NEVER || Last(log) >= 0
      ensures buckets[..] == if panicked then old(buckets[..]) else Advanced(old(buckets[..]), Last(log), current)
    {
      hide Formed, Last, Evicted;
      LastIsGood(log);
      SomeSlot(buckets[..], Last(log));
      panicked := false;
      if lastEpoch != NEVER && current > lastEpoch {
        ghost var before := buckets[..];
        panicked := Evict(current);
        if panicked {
          return;
        }
        if log == [] {
          NothingToEvict(before, lastEpoch, current);
        }
      }
      if current > lastEpoch {
        lastEpoch := current;
      }
    }

    /** A negative epoch panics, and so does every write after a first one at an epoch below -1. Otherwise, if the
        retained epochs read as the log before, they do so afterwards if and only if the written epoch is not older
        than them, or none of them has values in its slot. */
    method Set(key: SeriesKey, value: real, now: int) returns (panicked: bool)
      requires Valid()
      modifies this, buckets
      ensures Valid() && (panicked <==> now <= -windowDuration || old(Stuck()))
      ensures panicked ==> log == old(log) && buckets[..] == old(buckets[..]) && (old(Stuck()) ==> Stuck())
      ensures panicked ==>
        var e := Epoch(now, windowDuration);
        lastEpoch == if old(lastEpoch) == NEVER < e then e else old(lastEpoch)
      ensures !panicked ==> |log| > 0 && Covers(log[|log| - 1].epoch, now, windowDuration)
      ensures !panicked ==> var e, n, last := Epoch(now, windowDuration), buckets.Length, Last(old(log));
        log == old(log) + [Write(e, key, value)] && (last == NEVER || last >= 0) &&
        buckets[..] == Written(Advanced(old(buckets[..]), last, e), log[|log| - 1]) &&
        (old(Right()) ==> (Right() <==> e > last - n || SlotIsFree(old(log), last, n, e))) &&
        (old(Clean()) ==> (Clean() <==> e > last - n))
    {
      hide Formed, Faithful, NoLeftovers, SlotIsFree, Last, Advanced, Slot, Epoch, Covers;
      EpochCovers(now, windowDuration);
      var current := Epoch(now, windowDuration);
      ghost var last := Last(log);
      LastIsGood(log);
      SomeSlot(buckets[..], last);
      panicked := Advance(current);
      if panicked {
        return;
      }
      if current < 0 {
        NoAdvance(old(buckets[..]), last, current);
        return true;
      }
      ghost var w := Write(current, key, value);
      SetFaithfulIff(old(buckets[..]), log, last, w);
      GoodLogExtends(log, w);
      WriteInto(Slot(current, buckets.Length), current, key, value);
      log := log + [w];
      return false;
    }

    /** The second half of `Set`. */
    method WriteInto(slot: nat, current: int, key: SeriesKey, value: real)
      requires slot < buckets.Length
      modifies buckets
      ensures buckets[..] == old(buckets[..])[slot := WriteSlot(old(buckets[slot]), current, key, value)]
    {
      if buckets[slot].epoch != current {
        buckets[slot] := Bucket(current, map[]);
      }
      buckets[slot] := buckets[slot].(series := buckets[slot].series[key := value]);
    }

    /** Copies one window and adds it to the totals. */
    method AddTo(total: Series, series: Series) returns (sum: Series)
      ensures sum == AddSeries(total, series)
    {
      hide AddSeries, ValueOr0;
      sum := total;
      var rest := series.Keys;
      NothingAdded(total, series);
      while rest != {}
        invariant rest <= series.Keys
        invariant sum == AddSeries(total, series - rest)
        decreases |rest|
      {
        var k :| k in rest;
        AddOne(total, series, rest, k);
        sum := sum[k := ValueOr0(sum, k) + series[k]];
        rest := rest - {k};
      }
      assert series - {} == series;
    }

    /** The windows found among the last `n` epochs; a negative one among them panics. */
    method GetWindows(n: int, now: int) returns (r: Outcome<Answer>)
      requires Valid()
      ensures r.Panic? <==> QueryPanics(n, now)
      ensures r.Panic? <==> TooFar(Epochs(n), now, windowDuration)
      ensures r.Ok? && now >= 0 && Epochs(n) >= 0 ==>
        forall w :: w in r.value.windows ==> InRange(w.start, now, Epochs(n), windowDuration)
      ensures r.Ok? && Epochs(n) <= 0 ==> r.value.windows == []
      ensures r.Ok? && Epochs(n) > 0 ==>
        var high := Epoch(now, windowDuration) + 1;
        r.value.windows == Found(buckets[..], high - Epochs(n), high, windowDuration) &&
        (Right() && (high - Epochs(n) > Last(log) - buckets.Length || Clean()) ==>
          r.value.windows == LogWindows(log, Last(log), buckets.Length, high - Epochs(n), high, windowDuration))
      ensures r.Ok? ==> r.value.total == Total(r.value.windows)
    {
      hide EpochStart, Slot, SeriesAt, AddSeries, Epoch, LogWindows, Faithful, NoLeftovers, Found, Total, TooFar;
      hide InRange;
      var current := Epoch(now, windowDuration);
      var k := if n > buckets.Length then buckets.Length else n;
      r := Collect(current, k);
      TooFarIff(k, now, windowDuration);
      if k > 0 && now >= 0 && r.Ok? {
        FoundInRange(buckets[..], now, k, windowDuration);
      }
      if k > 0 && r.Ok? && Right() && (current - k + 1 > Last(log) - buckets.Length || Clean()) {
        FoundIsLogged(buckets[..], log, Last(log), current - k + 1, current + 1, windowDuration);
      }
    }

    /** The loop of `GetWindows` over the last `k` epochs. */
    method Collect(current: int, k: int) returns (r: Outcome<Answer>)
      requires buckets.Length > 0
      ensures r.Panic? <==> k > 0 && current - k + 1 < 0
      ensures r.Ok? && k <= 0 ==> r.value.windows == []
      ensures r.Ok? && k > 0 ==> r.value.windows == Found(buckets[..], current - k + 1, current + 1, windowDuration)
      ensures r.Ok? ==> r.value.total == Total(r.value.windows)
    {
      hide EpochStart, Slot, AddSeries, Found, Total;
      NothingFound(buckets[..], current - k + 1, windowDuration);
      var total, windows: seq<WindowResult> := map[], [];
      ghost var low := current - k + 1;
      var i := k - 1;
      while i >= 0
        invariant i <= k - 1 && if k > 0 then i >= -1 else i == k - 1
        invariant (i < k - 1 ==> low >= 0) && (i == k - 1 ==> windows == [])
        invariant low >= 0 ==> windows == Found(buckets[..], low, current - i, windowDuration)
        invariant total == Total(windows)
        modifies {}
        decreases i + 1
      {
        var e := current - i;
        if e < 0 {
          return Panic;
        }
        FoundNext(buckets[..], low, e, windowDuration);
        var b := buckets[Slot(e, buckets.Length)];
        if b.epoch == e && |b.series| != 0 {
          var win := WindowResult(EpochStart(e, windowDuration), b.series);
          total := AddTo(total, b.series);
          TotalNext(windows, win);
          windows := windows + [win];
        }
        i := i - 1;
      }
      return Ok(Answer(windows, total));
    }

    /** How many epochs a query for `n` windows looks at. */
    function Epochs(n: int): (k: int)
      ensures k <= n && k <= buckets.Length && (k == n || k == buckets.Length)
    {
      if n > buckets.Length then buckets.Length else n
    }

    predicate QueryPanics(n: int, now: int)
      requires windowDuration > 0
    {
      Epochs(n) > 0 && Epoch(now, windowDuration) - Epochs(n) + 1 < 0
    }
  }

  lemma NoAdvance(buckets: seq<Bucket>, last: int, current: int)
    requires |buckets| > 0 && current < 0 && (last == NEVER || last >= 0)
    ensures Advanced(buckets, last, current) == buckets
  {
  }

  lemma NothingToEvict(buckets: seq<Bucket>, last: int, current: int)
    requires Formed(buckets, NEVER) && (last == NEVER || last >= -1)
    ensures Advanced(buckets, last, current) == buckets
  {
    hide Evicted, Slot;
    forall s | 0 <= s < |buckets|
      ensures buckets[s] == EMPTY
    {
      assert SlotFormed(buckets, NEVER, s);
    }
  }

  lemma GoodLogExtends(log: seq<Write>, w: Write)
    requires GoodLog(log) && w.epoch >= 0
    ensures GoodLog(log + [w])
  {
  }

  lemma SomeSlot(buckets: seq<Bucket>, last: int)
    requires Formed(buckets, last)
    ensures |buckets| > 0
  {
  }
}
