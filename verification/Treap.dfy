/** The order-statistic treap as a value: every operation with its rotations and stored sizes. */
module Treap {
  import opened Observations

  /** `size` is the stored field, not recomputed on reading. */
  datatype Tree = Leaf | Node(left: Tree, obs: Observation, priority: int, size: int, right: Tree)

  function Size(t: Tree): int {
    match t case Leaf => 0 case Node(_, _, _, size, _) => size
  }

  /** `recalc`. */
  function Recalc(l: Tree, obs: Observation, priority: int, r: Tree): Tree {
    Node(l, obs, priority, 1 + Size(l) + Size(r), r)
  }

  function RotateRight(t: Tree): Tree
    requires t.Node? && t.left.Node?
  {
    var l := t.left;
    Recalc(l.left, l.obs, l.priority, Recalc(l.right, t.obs, t.priority, t.right))
  }

  function RotateLeft(t: Tree): Tree
    requires t.Node? && t.right.Node?
  {
    var r := t.right;
    Recalc(Recalc(t.left, t.obs, t.priority, r.left), r.obs, r.priority, r.right)
  }

  function Insert(t: Tree, obs: Observation, priority: int): (r: Tree)
    ensures r.Node?
  {
    match t
    case Leaf => Node(Leaf, obs, priority, 1, Leaf)
    case Node(l, o, p, size, r) =>
      if obs.latency < o.latency then
        var l' := Insert(l, obs, priority);
        if l'.priority > p then RotateRight(Node(l', o, p, size, r)) else Recalc(l', o, p, r)
      else
        var r' := Insert(r, obs, priority);
        if r'.priority > p then RotateLeft(Node(l, o, p, size, r')) else Recalc(l, o, p, r')
  }

  function Merge(l: Tree, r: Tree): Tree
    decreases l, r
  {
    if l.Leaf? then r
    else if r.Leaf? then l
    else if l.priority > r.priority then Recalc(l.left, l.obs, l.priority, Merge(l.right, r))
    else Recalc(Merge(l, r.left), r.obs, r.priority, r.right)
  }

  /** `deleteByTimestamp`. */
  function Expire(t: Tree, cutoff: int): Tree {
    match t
    case Leaf => Leaf
    case Node(l, o, p, _, r) =>
      if o.timestamp <= cutoff then Merge(Expire(l, cutoff), Expire(r, cutoff))
      else Recalc(Expire(l, cutoff), o, p, Expire(r, cutoff))
  }

  /** `selectByRank`: zero for a rank that does not exist. */
  function Select(t: Tree, rank: int): int {
    match t
    case Leaf => 0
    case Node(l, o, _, size, r) =>
      if rank < 0 || rank >= size then 0
      else if rank < Size(l) then Select(l, rank)
      else if rank == Size(l) then o.latency
      else Select(r, rank - Size(l) - 1)
  }

  // ---------- invariants ----------

  function InOrder(t: Tree): seq<Observation> {
    match t case Leaf => [] case Node(l, o, _, _, r) => InOrder(l) + [o] + InOrder(r)
  }

  ghost predicate SizesExact(t: Tree) {
    match t case Leaf => true
    case Node(l, _, _, size, r) => size == |InOrder(t)| && SizesExact(l) && SizesExact(r)
  }

  ghost predicate AtMost(t: Tree, priority: int) {
    t.Node? ==> t.priority <= priority
  }

  /** No child's priority exceeds its parent's. */
  ghost predicate HeapOrdered(t: Tree) {
    match t case Leaf => true
    case Node(l, _, p, _, r) => AtMost(l, p) && AtMost(r, p) && HeapOrdered(l) && HeapOrdered(r)
  }

  // ---------- the in-order sequence ----------

  lemma {:induction false} PlaceLeft(a: seq<Observation>, x: Observation, b: seq<Observation>, o: Observation)
    requires SortedByLatency(a + [x] + b) && o.latency < x.latency
    ensures Place(a + [x] + b, o) == Place(a, o) + [x] + b
    decreases |a|
  {
    var s := a + [x] + b;
    if a == [] {
      assert s == [x] + b;
    } else {
      assert s[0] == a[0] && s[1..] == a[1..] + [x] + b;
      if o.latency >= a[0].latency {
        PlaceLeft(a[1..], x, b, o);
      }
    }
  }

  lemma {:induction false} PlaceRight(a: seq<Observation>, x: Observation, b: seq<Observation>, o: Observation)
    requires SortedByLatency(a + [x] + b) && o.latency >= x.latency
    ensures Place(a + [x] + b, o) == a + [x] + Place(b, o)
    decreases |a|
  {
    var s := a + [x] + b;
    if a == [] {
      assert s[0] == x && s[1..] == b;
    } else {
      assert s[0] == a[0] && s[1..] == a[1..] + [x] + b;
      assert s[|a|] == x;
      PlaceRight(a[1..], x, b, o);
    }
  }

  lemma SortedParts(a: seq<Observation>, x: Observation, b: seq<Observation>)
    requires SortedByLatency(a + [x] + b)
    ensures SortedByLatency(a) && SortedByLatency(b)
  {
    var s := a + [x] + b;
    assert forall i :: 0 <= i < |a| ==> s[i] == a[i];
    assert forall i :: 0 <= i < |b| ==> s[|a| + 1 + i] == b[i];
  }

  lemma Regroup(a: seq<Observation>, x: Observation, b: seq<Observation>, y: Observation, c: seq<Observation>)
    ensures (a + [x] + b) + [y] + c == a + [x] + (b + [y] + c)
  {
  }

  lemma RotationsKeepOrder(t: Tree)
    requires t.Node?
    ensures t.left.Node? ==> InOrder(RotateRight(t)) == InOrder(t)
    ensures t.right.Node? ==> InOrder(RotateLeft(t)) == InOrder(t)
  {
    if t.left.Node? {
      Regroup(InOrder(t.left.left), t.left.obs, InOrder(t.left.right), t.obs, InOrder(t.right));
    }
    if t.right.Node? {
      Regroup(InOrder(t.left), t.obs, InOrder(t.right.left), t.right.obs, InOrder(t.right.right));
    }
  }

  /** Inserting keeps the in-order sequence a stable sort. */
  lemma {:induction false} InsertPlaces(t: Tree, obs: Observation, priority: int)
    requires SortedByLatency(InOrder(t))
    ensures InOrder(Insert(t, obs, priority)) == Place(InOrder(t), obs)
    decreases t
  {
    match t
    case Leaf =>
    case Node(l, o, p, size, r) =>
      var a, b := InOrder(l), InOrder(r);
      SortedParts(a, o, b);
      if obs.latency < o.latency {
        InsertPlaces(l, obs, priority);
        PlaceLeft(a, o, b, obs);
        RotationsKeepOrder(Node(Insert(l, obs, priority), o, p, size, r));
      } else {
        InsertPlaces(r, obs, priority);
        PlaceRight(a, o, b, obs);
        RotationsKeepOrder(Node(l, o, p, size, Insert(r, obs, priority)));
      }
  }

  lemma {:induction false} MergeConcatenates(l: Tree, r: Tree)
    ensures InOrder(Merge(l, r)) == InOrder(l) + InOrder(r)
    decreases l, r
  {
    if l.Node? && r.Node? {
      if l.priority > r.priority {
        MergeConcatenates(l.right, r);
      } else {
        MergeConcatenates(l, r.left);
      }
    }
  }

  lemma LiveAround(a: seq<Observation>, x: Observation, b: seq<Observation>, cutoff: int)
    ensures x.timestamp > cutoff ==> Live(a + [x] + b, cutoff) == Live(a, cutoff) + [x] + Live(b, cutoff)
    ensures x.timestamp <= cutoff ==> Live(a + [x] + b, cutoff) == Live(a, cutoff) + Live(b, cutoff)
  {
    LiveAppend(a + [x], b, cutoff);
    LiveAppend(a, [x], cutoff);
    assert [x][1..] == [];
  }

  lemma {:induction false} ExpireKeepsLive(t: Tree, cutoff: int)
    ensures InOrder(Expire(t, cutoff)) == Live(InOrder(t), cutoff)
    decreases t
  {
    hide Merge;
    match t
    case Leaf =>
    case Node(l, o, p, _, r) =>
      ExpireKeepsLive(l, cutoff);
      ExpireKeepsLive(r, cutoff);
      LiveAround(InOrder(l), o, InOrder(r), cutoff);
      MergeConcatenates(Expire(l, cutoff), Expire(r, cutoff));
  }

  lemma {:induction false} SelectIsIndex(t: Tree, rank: nat)
    requires SizesExact(t) && rank < |InOrder(t)|
    ensures Select(t, rank) == InOrder(t)[rank].latency
    decreases t
  {
    SizeIsLength(t.left);
    SizeIsLength(t.right);
    if rank < Size(t.left) {
      SelectIsIndex(t.left, rank);
    } else if rank > Size(t.left) {
      SelectIsIndex(t.right, rank - Size(t.left) - 1);
    }
  }

  lemma SizeIsLength(t: Tree)
    requires SizesExact(t)
    ensures Size(t) == |InOrder(t)|
  {
  }

  // ---------- sizes ----------

  lemma RecalcIsExact(l: Tree, obs: Observation, priority: int, r: Tree)
    requires SizesExact(l) && SizesExact(r)
    ensures SizesExact(Recalc(l, obs, priority, r))
  {
    SizeIsLength(l);
    SizeIsLength(r);
  }

  lemma {:induction false} InsertKeepsSizes(t: Tree, obs: Observation, priority: int)
    requires SizesExact(t)
    ensures SizesExact(Insert(t, obs, priority))
    decreases t
  {
    match t
    case Leaf =>
    case Node(l, o, p, size, r) =>
      if obs.latency < o.latency {
        InsertKeepsSizes(l, obs, priority);
        var l' := Insert(l, obs, priority);
        RecalcIsExact(l', o, p, r);
        RecalcIsExact(l'.right, o, p, r);
        RecalcIsExact(l'.left, l'.obs, l'.priority, Recalc(l'.right, o, p, r));
      } else {
        InsertKeepsSizes(r, obs, priority);
        var r' := Insert(r, obs, priority);
        RecalcIsExact(l, o, p, r');
        RecalcIsExact(l, o, p, r'.left);
        RecalcIsExact(Recalc(l, o, p, r'.left), r'.obs, r'.priority, r'.right);
      }
  }

  lemma {:induction false} MergeKeepsSizes(l: Tree, r: Tree)
    requires SizesExact(l) && SizesExact(r)
    ensures SizesExact(Merge(l, r))
    decreases l, r
  {
    if l.Node? && r.Node? {
      if l.priority > r.priority {
        MergeKeepsSizes(l.right, r);
        RecalcIsExact(l.left, l.obs, l.priority, Merge(l.right, r));
      } else {
        MergeKeepsSizes(l, r.left);
        RecalcIsExact(Merge(l, r.left), r.obs, r.priority, r.right);
      }
    }
  }

  lemma {:induction false} ExpireKeepsSizes(t: Tree, cutoff: int)
    requires SizesExact(t)
    ensures SizesExact(Expire(t, cutoff))
    decreases t
  {
    match t
    case Leaf =>
    case Node(l, o, p, _, r) =>
      ExpireKeepsSizes(l, cutoff);
      ExpireKeepsSizes(r, cutoff);
      MergeKeepsSizes(Expire(l, cutoff), Expire(r, cutoff));
      RecalcIsExact(Expire(l, cutoff), o, p, Expire(r, cutoff));
  }

  // ---------- heap order ----------

  ghost predicate ChildrenAtMost(t: Tree, priority: int) {
    t.Node? ==> AtMost(t.left, priority) && AtMost(t.right, priority)
  }

  /** Inserting keeps heap order. A root whose priority rises is the new node, and its children
      stay bounded by the old root: without that the rotation above it would not be justified. */
  lemma {:induction false} InsertKeepsHeap(t: Tree, obs: Observation, priority: int)
    requires HeapOrdered(t)
    ensures HeapOrdered(Insert(t, obs, priority))
    ensures t.Node? && Insert(t, obs, priority).priority > t.priority ==>
      ChildrenAtMost(Insert(t, obs, priority), t.priority)
    ensures t.Leaf? ==> ChildrenAtMost(Insert(t, obs, priority), priority - 1)
    ensures Insert(t, obs, priority).priority == if t.Node? && t.priority >= priority then t.priority else priority
    decreases t
  {
    if t.Node? {
      if obs.latency < t.obs.latency {
        InsertKeepsHeap(t.left, obs, priority);
      } else {
        InsertKeepsHeap(t.right, obs, priority);
      }
    }
  }

  /** On equal priorities the root stays where it is on insertion, and merging prefers the right tree's root. */
  lemma {:induction false} TiesKeepRoot(t: Tree, obs: Observation, priority: int)
    requires HeapOrdered(t)
    ensures t.Node? && t.priority >= priority ==> Insert(t, obs, priority).obs == t.obs
    ensures t.Node? && t.priority < priority ==> Insert(t, obs, priority).obs == obs
    ensures t.Leaf? ==> Insert(t, obs, priority) == Node(Leaf, obs, priority, 1, Leaf)
    decreases t
  {
    InsertKeepsHeap(t, obs, priority);
    if t.Node? {
      if obs.latency < t.obs.latency {
        InsertKeepsHeap(t.left, obs, priority);
        TiesKeepRoot(t.left, obs, priority);
      } else {
        InsertKeepsHeap(t.right, obs, priority);
        TiesKeepRoot(t.right, obs, priority);
      }
    }
  }

  lemma MergedRoot(l: Tree, r: Tree)
    requires l.Node? && r.Node?
    ensures Merge(l, r).Node? && Merge(l, r).obs == if l.priority > r.priority then l.obs else r.obs
  {
  }

  lemma {:induction false} MergeKeepsHeap(l: Tree, r: Tree, bound: int)
    requires HeapOrdered(l) && HeapOrdered(r) && AtMost(l, bound) && AtMost(r, bound)
    ensures HeapOrdered(Merge(l, r)) && AtMost(Merge(l, r), bound)
    decreases l, r
  {
    if l.Node? && r.Node? {
      if l.priority > r.priority {
        MergeKeepsHeap(l.right, r, l.priority);
      } else {
        MergeKeepsHeap(l, r.left, r.priority);
      }
    }
  }

  lemma {:induction false} ExpireKeepsHeap(t: Tree, cutoff: int, bound: int)
    requires HeapOrdered(t) && AtMost(t, bound)
    ensures HeapOrdered(Expire(t, cutoff)) && AtMost(Expire(t, cutoff), bound)
    decreases t
  {
    match t
    case Leaf =>
    case Node(l, o, p, _, r) =>
      ExpireKeepsHeap(l, cutoff, p);
      ExpireKeepsHeap(r, cutoff, p);
      MergeKeepsHeap(Expire(l, cutoff), Expire(r, cutoff), p);
  }

  // ---------- the treap against the simple implementation ----------

  function QueryTreap(t: Tree, p: real): int
    requires 0.0 <= p <= 1.0
  {
    if Size(t) <= 0 then 0 else Select(t, Rank(Size(t), p))
  }

  function RunTreap(window: int, t: Tree, calls: seq<Call>): seq<int>
    requires ValidCalls(calls)
    decreases |calls|
  {
    if calls == [] then [] else
      match calls[0]
      case Record(o, priority) => RunTreap(window, Insert(t, o, priority), calls[1..])
      case Query(p, now) =>
        assert calls[0] in calls;
        var live := Expire(t, now - window);
        [QueryTreap(live, p)] + RunTreap(window, live, calls[1..])
  }

  /** The treap holds exactly the observations `s`, by latency and then by recording order. */
  ghost predicate Represents(t: Tree, s: seq<Observation>) {
    InOrder(t) == StableSort(s) && SizesExact(t) && HeapOrdered(t)
  }

  lemma RecordRepresents(t: Tree, s: seq<Observation>, o: Observation, priority: int)
    requires Represents(t, s)
    ensures Represents(Insert(t, o, priority), s + [o])
  {
    StableSortSorts(s);
    InsertPlaces(t, o, priority);
    InsertKeepsSizes(t, o, priority);
    InsertKeepsHeap(t, o, priority);
    assert (s + [o])[..|s|] == s;
  }

  lemma QueryRepresents(t: Tree, s: seq<Observation>, p: real, cutoff: int)
    requires Represents(t, s) && 0.0 <= p <= 1.0
    ensures Represents(Expire(t, cutoff), Live(s, cutoff))
    ensures QueryTreap(Expire(t, cutoff), p) == PercentileOf(Live(s, cutoff), p)
  {
    var live := Expire(t, cutoff);
    ExpireKeepsLive(t, cutoff);
    LiveOfStableSort(s, cutoff);
    ExpireKeepsSizes(t, cutoff);
    ExpireKeepsHeap(t, cutoff, if t.Node? then t.priority else 0);
    SizeIsLength(live);
    if Size(live) > 0 {
      SelectIsIndex(live, Rank(Size(live), p));
    }
  }

  lemma {:induction false} RunsAgree(window: int, t: Tree, s: seq<Observation>, calls: seq<Call>)
    requires Represents(t, s) && ValidCalls(calls)
    ensures RunTreap(window, t, calls) == RunNaive(window, s, calls)
    decreases |calls|
  {
    if calls != [] {
      assert calls[0] in calls;
      match calls[0]
      case Record(o, priority) =>
        RecordRepresents(t, s, o, priority);
        RunsAgree(window, Insert(t, o, priority), s + [o], calls[1..]);
      case Query(p, now) =>
        QueryRepresents(t, s, p, now - window);
        RunsAgree(window, Expire(t, now - window), Live(s, now - window), calls[1..]);
    }
  }

  /** Whatever is recorded and asked, in any order and with any priorities, the treap answers
      as the implementation that sorts every time. */
  lemma TreapEqualsNaive(window: int, calls: seq<Call>)
    requires ValidCalls(calls)
    ensures RunTreap(window, Leaf, calls) == RunNaive(window, [], calls)
  {
    RunsAgree(window, Leaf, [], calls);
  }
}
