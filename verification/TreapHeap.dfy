/** The treap as the program keeps it: nodes whose children, priorities and sizes are overwritten in place. */
module TreapHeap {
  import opened Observations
  import opened Treap

  class TreapNode {
    const obs: Observation
    const priority: int
    var size: int
    var left: TreapNode?
    var right: TreapNode?
    ghost var tree: Tree          // this subtree as a value
    ghost var Repr: set<object>   // its nodes

    ghost predicate Valid()
      reads this, Repr
      ensures Valid() ==> this in Repr
    {
      && this in Repr
      && (left != null ==> left in Repr && left.Repr <= Repr && this !in left.Repr && left.Valid())
      && (right != null ==> right in Repr && right.Repr <= Repr && this !in right.Repr && right.Valid())
      && (left != null && right != null ==> left.Repr !! right.Repr)
      && tree == Tree.Node(TreeOf(left), obs, priority, size, TreeOf(right))
    }

    constructor (obs: Observation, priority: int)
      ensures Valid() && fresh(Repr) && tree == Tree.Node(Leaf, obs, priority, 1, Leaf)
    {
      this.obs, this.priority, size := obs, priority, 1;
      left, right := null, null;
      tree := Tree.Node(Leaf, obs, priority, 1, Leaf);
      Repr := {this};
    }
  }

  ghost function TreeOf(n: TreapNode?): Tree
    reads n
  {
    if n == null then Leaf else n.tree
  }

  ghost function ReprOf(n: TreapNode?): set<object>
    reads n
  {
    if n == null then {} else n.Repr
  }

  ghost predicate ValidTree(n: TreapNode?)
    reads n, ReprOf(n)
  {
    n != null ==> n.Valid()
  }

  method SizeOf(n: TreapNode?) returns (s: int)
    requires ValidTree(n)
    ensures s == Size(TreeOf(n))
  {
    s := if n == null then 0 else n.size;
  }

  /** Everything a node needs from its children to be made valid. */
  ghost predicate Joinable(n: TreapNode)
    reads n, n.left, n.right, ReprOf(n.left), ReprOf(n.right)
  {
    && ValidTree(n.left) && ValidTree(n.right)
    && n !in ReprOf(n.left) && n !in ReprOf(n.right) && ReprOf(n.left) !! ReprOf(n.right)
  }

  /** `recalc`. */
  method Recalculate(n: TreapNode)
    requires Joinable(n)
    modifies n`size, n`tree, n`Repr
    ensures n.Valid() && n.tree == Recalc(TreeOf(n.left), n.obs, n.priority, TreeOf(n.right))
    ensures n.Repr == {n} + ReprOf(n.left) + ReprOf(n.right)
  {
    var ls := SizeOf(n.left);
    var rs := SizeOf(n.right);
    n.size := 1 + ls + rs;
    n.tree := Recalc(TreeOf(n.left), n.obs, n.priority, TreeOf(n.right));
    n.Repr := {n} + ReprOf(n.left) + ReprOf(n.right);
  }

  method RotateNodeRight(n: TreapNode) returns (m: TreapNode)
    requires Joinable(n) && n.left != null
    modifies n, n.left
    ensures m == old(n.left) && m.Valid() && m.Repr <= {n} + old(n.left.Repr) + old(ReprOf(n.right))
    ensures m.tree ==
      Treap.RotateRight(Tree.Node(old(n.left.tree), n.obs, n.priority, old(n.size), old(TreeOf(n.right))))
  {
    hide Recalc;
    m := n.left;
    ghost var a, b, c := TreeOf(m.left), TreeOf(m.right), TreeOf(n.right);
    ghost var whole, outer, mid, below := m.Repr, ReprOf(m.left), ReprOf(m.right), ReprOf(n.right);
    n.left := m.right;
    m.right := n;
    Recalculate(n);
    assert n.tree == Recalc(b, n.obs, n.priority, c) && n.Repr == {n} + mid + below;
    assert ReprOf(m.left) == outer && TreeOf(m.left) == a;
    Recalculate(m);
    assert m.tree == Recalc(a, m.obs, m.priority, n.tree) && m.Repr == {m} + outer + n.Repr;
    SameNodes(m, n, whole, outer, mid, below);
  }

  lemma SameNodes(m: object, n: object, whole: set<object>, outer: set<object>, mid: set<object>, below: set<object>)
    requires m in whole && outer <= whole && mid <= whole
    ensures {m} + outer + ({n} + mid + below) <= {n} + whole + below
    ensures {m} + ({n} + below + mid) + outer <= {n} + whole + below
  {
  }

  method RotateNodeLeft(n: TreapNode) returns (m: TreapNode)
    requires Joinable(n) && n.right != null
    modifies n, n.right
    ensures m == old(n.right) && m.Valid() && m.Repr <= {n} + old(n.right.Repr) + old(ReprOf(n.left))
    ensures m.tree ==
      Treap.RotateLeft(Tree.Node(old(TreeOf(n.left)), n.obs, n.priority, old(n.size), old(n.right.tree)))
  {
    hide Recalc;
    m := n.right;
    ghost var a, b, c := TreeOf(n.left), TreeOf(m.left), TreeOf(m.right);
    ghost var whole, outer, mid, below := m.Repr, ReprOf(m.right), ReprOf(m.left), ReprOf(n.left);
    n.right := m.left;
    m.left := n;
    Recalculate(n);
    assert n.tree == Recalc(a, n.obs, n.priority, b) && n.Repr == {n} + below + mid;
    assert ReprOf(m.right) == outer && TreeOf(m.right) == c;
    Recalculate(m);
    assert m.tree == Recalc(n.tree, m.obs, m.priority, c) && m.Repr == {m} + n.Repr + outer;
    SameNodes(m, n, whole, outer, mid, below);
  }

  /** `insert`; `priority` is what the generator delivers for the new node. */
  method InsertNode(n: TreapNode?, obs: Observation, priority: int) returns (m: TreapNode)
    requires ValidTree(n)
    modifies ReprOf(n)
    ensures m.Valid() && m.tree == Treap.Insert(old(TreeOf(n)), obs, priority)
    ensures fresh(m.Repr - old(ReprOf(n)))
    decreases TreeOf(n), 1
  {
    hide Recalc, RotateRight, RotateLeft;
    if n == null {
      m := new TreapNode(obs, priority);
    } else if obs.latency < n.obs.latency {
      m := InsertLeft(n, obs, priority);
    } else {
      m := InsertRight(n, obs, priority);
    }
  }

  method InsertLeft(n: TreapNode, obs: Observation, priority: int) returns (m: TreapNode)
    requires n.Valid() && obs.latency < n.obs.latency
    modifies n.Repr
    ensures m.Valid() && m.tree == Treap.Insert(old(n.tree), obs, priority)
    ensures fresh(m.Repr - old(n.Repr))
    decreases n.tree, 0
  {
    hide Recalc, RotateRight, RotateLeft;
    var l := InsertNode(n.left, obs, priority);
    n.left := l;
    m := n;
    if n.left.priority > n.priority {
      m := RotateNodeRight(n);
    } else {
      Recalculate(n);
    }
  }

  method InsertRight(n: TreapNode, obs: Observation, priority: int) returns (m: TreapNode)
    requires n.Valid() && obs.latency >= n.obs.latency
    modifies n.Repr
    ensures m.Valid() && m.tree == Treap.Insert(old(n.tree), obs, priority)
    ensures fresh(m.Repr - old(n.Repr))
    decreases n.tree, 0
  {
    hide Recalc, RotateRight, RotateLeft;
    var r := InsertNode(n.right, obs, priority);
    n.right := r;
    m := n;
    if n.right.priority > n.priority {
      m := RotateNodeLeft(n);
    } else {
      Recalculate(n);
    }
  }

  method MergeNodes(l: TreapNode?, r: TreapNode?) returns (m: TreapNode?)
    requires ValidTree(l) && ValidTree(r) && ReprOf(l) !! ReprOf(r)
    modifies ReprOf(l), ReprOf(r)
    ensures ValidTree(m) && TreeOf(m) == Treap.Merge(old(TreeOf(l)), old(TreeOf(r)))
    ensures ReprOf(m) <= old(ReprOf(l)) + old(ReprOf(r))
    decreases TreeOf(l), TreeOf(r), 1
  {
    hide Recalc;
    if l == null {
      return r;
    }
    if r == null {
      return l;
    }
    if l.priority > r.priority {
      MergeIntoLeft(l, r);
      return l;
    }
    MergeIntoRight(l, r);
    return r;
  }

  method MergeIntoLeft(l: TreapNode, r: TreapNode)
    requires l.Valid() && r.Valid() && l.Repr !! r.Repr && l.priority > r.priority
    modifies l.Repr, r.Repr
    ensures l.Valid() && l.tree == Treap.Merge(old(l.tree), old(r.tree))
    ensures l.Repr <= old(l.Repr) + old(r.Repr)
    decreases l.tree, r.tree, 0
  {
    hide Recalc;
    var t := MergeNodes(l.right, r);
    l.right := t;
    Recalculate(l);
  }

  method MergeIntoRight(l: TreapNode, r: TreapNode)
    requires l.Valid() && r.Valid() && l.Repr !! r.Repr && l.priority <= r.priority
    modifies l.Repr, r.Repr
    ensures r.Valid() && r.tree == Treap.Merge(old(l.tree), old(r.tree))
    ensures r.Repr <= old(l.Repr) + old(r.Repr)
    decreases l.tree, r.tree, 0
  {
    hide Recalc;
    var t := MergeNodes(l, r.left);
    r.left := t;
    Recalculate(r);
  }

  /** `deleteByTimestamp`. */
  method ExpireNodes(n: TreapNode?, cutoff: int) returns (m: TreapNode?)
    requires ValidTree(n)
    modifies ReprOf(n)
    ensures ValidTree(m) && TreeOf(m) == Treap.Expire(old(TreeOf(n)), cutoff)
    ensures ReprOf(m) <= old(ReprOf(n))
    decreases TreeOf(n), 1
  {
    hide Recalc, Merge;
    if n == null {
      return null;
    }
    ExpireChildren(n, cutoff);
    if n.obs.timestamp <= cutoff {
      m := MergeNodes(n.left, n.right);
      return;
    }
    Recalculate(n);
    return n;
  }

  method ExpireChildren(n: TreapNode, cutoff: int)
    requires n.Valid()
    modifies n.Repr
    ensures Joinable(n) && n in old(n.Repr)
    ensures ReprOf(n.left) <= old(n.Repr) && ReprOf(n.right) <= old(n.Repr)
    ensures TreeOf(n.left) == Treap.Expire(old(n.tree.left), cutoff)
    ensures TreeOf(n.right) == Treap.Expire(old(n.tree.right), cutoff)
    decreases n.tree, 0
  {
    hide Expire;
    var l := ExpireNodes(n.left, cutoff);
    n.left := l;
    var r := ExpireNodes(n.right, cutoff);
    n.right := r;
  }

  method SelectByRank(n: TreapNode?, rank: int) returns (latency: int)
    requires ValidTree(n)
    ensures latency == Select(TreeOf(n), rank)
    decreases TreeOf(n)
  {
    hide Select;
    SelectUnfolds(TreeOf(n), rank);
    if n == null || rank < 0 || rank >= n.size {
      return 0;
    }
    ghost var t := n.tree;
    var leftSize := SizeOf(n.left);
    assert t.left == TreeOf(n.left) && t.right == TreeOf(n.right) && Size(t.left) == leftSize;
    if rank < leftSize {
      latency := SelectByRank(n.left, rank);
    } else if rank == leftSize {
      latency := n.obs.latency;
    } else {
      latency := SelectByRank(n.right, rank - leftSize - 1);
    }
  }

  lemma SelectUnfolds(t: Tree, rank: int)
    ensures t.Leaf? ==> Select(t, rank) == 0
    ensures t.Node? && (rank < 0 || rank >= t.size) ==> Select(t, rank) == 0
    ensures t.Node? && 0 <= rank < t.size ==>
      Select(t, rank) ==
        if rank < Size(t.left) then Select(t.left, rank)
        else if rank == Size(t.left) then t.obs.latency
        else Select(t.right, rank - Size(t.left) - 1)
  {
  }

  lemma AnswersPercentile(t: Tree, p: real, cutoff: int)
    requires 0.0 <= p <= 1.0
    ensures forall s :: Represents(t, s) ==> IsPercentile(s, cutoff, p, QueryTreap(Expire(t, cutoff), p))
  {
    hide IsPercentile, Represents, QueryTreap, Expire;
    forall s | Represents(t, s)
      ensures IsPercentile(s, cutoff, p, QueryTreap(Expire(t, cutoff), p))
    {
      QueryRepresents(t, s, p, cutoff);
      PercentileMeans(s, cutoff, p);
    }
  }

  class TreapWindowPercentile {
    const window: int
    var root: TreapNode?

    ghost predicate Valid()
      reads this, root, ReprOf(root)
    {
      ValidTree(root) && this !in ReprOf(root)
    }

    constructor (window: int)
      ensures Valid() && TreeOf(root) == Leaf && this.window == window
    {
      this.window := window;
      root := null;
    }

    method Record(obs: Observation, priority: int)
      requires Valid()
      modifies this, ReprOf(root)
      ensures Valid() && TreeOf(root) == Treap.Insert(old(TreeOf(root)), obs, priority)
      ensures fresh(ReprOf(root) - old(ReprOf(root)))
    {
      root := InsertNode(root, obs, priority);
    }

    method Percentile(p: real, now: int) returns (latency: int)
      requires Valid() && SizesExact(TreeOf(root)) && 0.0 <= p <= 1.0
      modifies this, ReprOf(root)
      ensures Valid() && TreeOf(root) == Treap.Expire(old(TreeOf(root)), now - window)
      ensures latency == QueryTreap(TreeOf(root), p)
      ensures forall s :: Represents(old(TreeOf(root)), s) ==> IsPercentile(s, now - window, p, latency)
      ensures ReprOf(root) <= old(ReprOf(root))
    {
      hide IsPercentile, Represents;
      ExpireKeepsSizes(TreeOf(root), now - window);
      AnswersPercentile(TreeOf(root), p, now - window);
      root := ExpireNodes(root, now - window);
      var size := SizeOf(root);
      if size == 0 {
        return 0;
      }
      SizeIsLength(TreeOf(root));
      latency := SelectByRank(root, Rank(size, p));
    }
  }
}
