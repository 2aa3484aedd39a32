/** The tree that the anchors span, and its pre-order traversal. */
module AnchorTree {
  import opened Rga

  /** Cell `i` is `root` itself or was inserted, directly or not, after it. */
  ghost predicate InSubtree(d: Doc, anchors: Anchors, root: nat, i: nat)
    requires Placed(d, anchors) && i < |d|
    decreases i
  {
    i == root || (i > root && InSubtree(d, anchors, root, Parent(d, anchors, i)))
  }

  /** The IDs of all nodes, without the sentinel. */
  ghost function NodeIds(d: Doc): set<NodeID> {
    set i | 1 <= i < |d| :: d[i].id
  }

  /** No clock was behind the timestamp of the node it inserted after. */
  ghost predicate ChildrenLarger(d: Doc, anchors: Anchors) {
    forall n :: n in NodeIds(d) ==> n in anchors && (anchors[n] == ZERO_ID || Less(anchors[n], n))
  }

  /** Among the nodes inserted after the same anchor the larger ID comes first. */
  lemma SiblingsDescend(d: Doc, anchors: Anchors, i: nat, j: nat)
    requires Placed(d, anchors) && 1 <= i < j < |d| && Parent(d, anchors, i) == Parent(d, anchors, j)
    ensures Less(d[j].id, d[i].id)
  {
    assert PlacedAfter(d, anchors, Parent(d, anchors, j), j);
  }

  lemma {:induction false} DescendantIsLarger(d: Doc, anchors: Anchors, root: nat, i: nat)
    requires Placed(d, anchors) && ChildrenLarger(d, anchors)
    requires 0 < root < i < |d| && InSubtree(d, anchors, root, i)
    ensures Less(d[root].id, d[i].id)
    decreases i
  {
    var p := Parent(d, anchors, i);
    assert d[i].id in NodeIds(d) && d[p].id != d[0].id;
    if p != root {
      DescendantIsLarger(d, anchors, root, p);
      LessTransitive(d[root].id, d[p].id, d[i].id);
    }
  }

  /** When IDs grow along anchors every subtree is one contiguous block. */
  lemma SubtreesAreContiguous(d: Doc, anchors: Anchors, root: nat, i: nat, j: nat)
    requires Placed(d, anchors) && ChildrenLarger(d, anchors)
    requires root <= i <= j < |d| && InSubtree(d, anchors, root, j)
    ensures InSubtree(d, anchors, root, i)
  {
    if root == 0 {
      AllDescendFromRoot(d, anchors, i);
    } else if !InSubtree(d, anchors, root, i) {
      var y := Exit(d, anchors, root, i);
      assert Less(d[y].id, d[root].id);
      var z := Return(d, anchors, root, y, j);
      DescendantIsLarger(d, anchors, root, z);
      LessTransitive(d[root].id, d[z].id, d[y].id);
      LessTrichotomy(d[root].id, d[y].id);
      assert false;
    }
  }

  /** Following the anchors of an outsider leads out in front of the subtree's root. */
  lemma {:induction false} Exit(d: Doc, anchors: Anchors, root: nat, i: nat) returns (y: nat)
    requires Placed(d, anchors) && root < i < |d| && !InSubtree(d, anchors, root, i)
    ensures root < y <= i && !InSubtree(d, anchors, root, y) && Parent(d, anchors, y) < root
    decreases i
  {
    y := i;
    if Parent(d, anchors, i) > root {
      y := Exit(d, anchors, root, Parent(d, anchors, i));
    }
  }

  /** A subtree interrupted by an outsider is re-entered behind a smaller ID. */
  lemma {:induction false} Return(d: Doc, anchors: Anchors, root: nat, y: nat, j: nat) returns (z: nat)
    requires Placed(d, anchors) && root < y < j < |d|
    requires InSubtree(d, anchors, root, j) && !InSubtree(d, anchors, root, y)
    ensures y < z < |d| && InSubtree(d, anchors, root, z) && Less(d[z].id, d[y].id)
    decreases j
  {
    z := j;
    if Parent(d, anchors, j) > y {
      z := Return(d, anchors, root, y, Parent(d, anchors, j));
    }
  }

  lemma {:induction false} AllDescendFromRoot(d: Doc, anchors: Anchors, i: nat)
    requires Placed(d, anchors) && i < |d|
    ensures InSubtree(d, anchors, 0, i)
    decreases i
  {
    if i > 0 {
      AllDescendFromRoot(d, anchors, Parent(d, anchors, i));
    }
  }

  // ---------- the traversal ----------

  ghost function Children(ids: set<NodeID>, anchors: Anchors, id: NodeID): set<NodeID> {
    set c | c in ids && c in anchors && anchors[c] == id
  }

  ghost predicate IsLargest(ids: set<NodeID>, m: NodeID) {
    m in ids && forall x :: x in ids ==> x == m || Less(x, m)
  }

  lemma {:induction false} HasLargest(ids: set<NodeID>)
    requires ids != {}
    ensures exists m :: IsLargest(ids, m)
    decreases ids
  {
    var m :| m in ids;
    if ids == {m} {
      assert IsLargest(ids, m);
    } else {
      HasLargest(ids - {m});
      var n :| IsLargest(ids - {m}, n);
      LargerOfTwo(ids, m, n);
    }
  }

  lemma LargerOfTwo(ids: set<NodeID>, m: NodeID, n: NodeID)
    requires m in ids && IsLargest(ids - {m}, n)
    ensures IsLargest(ids, if Less(n, m) then m else n)
  {
    LessTrichotomy(m, n);
    forall x | x in ids && x != m && x != n && Less(n, m)
      ensures Less(x, m)
    {
      LessTransitive(x, n, m);
    }
  }

  ghost function Largest(ids: set<NodeID>): (m: NodeID)
    requires ids != {}
    ensures IsLargest(ids, m)
  {
    HasLargest(ids);
    var m :| IsLargest(ids, m);
    m
  }

  lemma LargestIs(ids: set<NodeID>, m: NodeID)
    requires IsLargest(ids, m)
    ensures Largest(ids) == m
  {
    LessTrichotomy(Largest(ids), m);
  }

  /** The trees below `roots`, the largest root first, each root in front of its own subtrees. */
  ghost function Forest(ids: set<NodeID>, anchors: Anchors, roots: set<NodeID>): seq<NodeID>
    requires roots <= ids
    decreases ids, roots
  {
    if roots == {} then [] else
      var m := Largest(roots);
      [m] + Forest(ids - {m}, anchors, Children(ids - {m}, anchors, m)) + Forest(ids, anchors, roots - {m})
  }

  /** All nodes in pre-order, starting from the sentinel, siblings in descending order. */
  ghost function PreOrder(ids: set<NodeID>, anchors: Anchors): seq<NodeID> {
    [ZERO_ID] + Forest(ids, anchors, Children(ids, anchors, ZERO_ID))
  }

  function Ids(d: Doc): seq<NodeID> {
    if d == [] then [] else [d[0].id] + Ids(d[1..])
  }

  lemma {:induction false} IdsAppend(d: Doc, e: Doc)
    ensures Ids(d + e) == Ids(d) + Ids(e)
    decreases |d|
  {
    if d == [] {
      assert d + e == e;
    } else {
      assert (d + e)[0] == d[0] && (d + e)[1..] == d[1..] + e;
      IdsAppend(d[1..], e);
    }
  }

  // ---------- the list is the traversal ----------

  /** Cells `lo` to `hi` are whole subtrees, hanging from cell `p`. */
  ghost predicate Closed(d: Doc, anchors: Anchors, p: nat, lo: nat, hi: nat)
    requires Placed(d, anchors)
  {
    && p < lo <= hi <= |d|
    && (forall i :: lo <= i < hi ==> Parent(d, anchors, i) == p || lo <= Parent(d, anchors, i))
    && (forall i :: hi <= i < |d| ==> !(lo <= Parent(d, anchors, i) < hi))
  }

  ghost function RootsIn(d: Doc, anchors: Anchors, p: nat, lo: nat, hi: nat): set<NodeID>
    requires Placed(d, anchors) && 1 <= lo <= hi <= |d|
  {
    set i | lo <= i < hi && Parent(d, anchors, i) == p :: d[i].id
  }

  /** Behind the last descendant of a cell comes nothing else of its subtree. */
  lemma {:induction false} SubtreeEnd(d: Doc, anchors: Anchors, root: nat, k: nat) returns (end: nat)
    requires Placed(d, anchors) && ChildrenLarger(d, anchors) && root < k <= |d|
    requires forall i :: k <= i < |d| ==> !InSubtree(d, anchors, root, i)
    ensures root < end <= k
    ensures forall i :: root <= i < |d| ==> (InSubtree(d, anchors, root, i) <==> i < end)
    decreases k
  {
    end := k;
    if InSubtree(d, anchors, root, k - 1) {
      forall i | root <= i < k
        ensures InSubtree(d, anchors, root, i)
      {
        SubtreesAreContiguous(d, anchors, root, i, k - 1);
      }
    } else {
      end := SubtreeEnd(d, anchors, root, k - 1);
    }
  }

  lemma {:induction false} NothingBeyond(d: Doc, anchors: Anchors, p: nat, lo: nat, hi: nat, i: nat)
    requires Placed(d, anchors) && Closed(d, anchors, p, lo, hi) && lo < hi <= i < |d|
    ensures !InSubtree(d, anchors, lo, i)
    decreases i
  {
    if Parent(d, anchors, i) >= hi {
      NothingBeyond(d, anchors, p, lo, hi, Parent(d, anchors, i));
    }
  }

  /** A closed segment is its first subtree and a closed rest. */
  lemma SplitSegment(d: Doc, anchors: Anchors, p: nat, lo: nat, hi: nat) returns (mid: nat)
    requires Placed(d, anchors) && ChildrenLarger(d, anchors) && Closed(d, anchors, p, lo, hi) && lo < hi
    ensures lo < mid <= hi && Closed(d, anchors, lo, lo + 1, mid) && Closed(d, anchors, p, mid, hi)
    ensures forall i :: lo < i < mid ==> Parent(d, anchors, i) >= lo
    ensures forall i :: 1 <= i < |d| && !(lo < i < mid) ==> Parent(d, anchors, i) != lo
  {
    forall i | hi <= i < |d|
      ensures !InSubtree(d, anchors, lo, i)
    {
      NothingBeyond(d, anchors, p, lo, hi, i);
    }
    mid := SubtreeEnd(d, anchors, lo, hi);
    assert InSubtree(d, anchors, lo, lo);
    forall i | lo < i < |d|
      ensures i < mid <==> lo <= Parent(d, anchors, i) < mid
    {
      assert InSubtree(d, anchors, lo, i) <==> i < mid;
      var q := Parent(d, anchors, i);
      if q >= lo {
        assert InSubtree(d, anchors, lo, q) <==> q < mid;
      }
    }
  }

  lemma {:induction false} SegmentIsForest(d: Doc, anchors: Anchors, ids: set<NodeID>, p: nat, lo: nat, hi: nat)
    requires Placed(d, anchors) && ChildrenLarger(d, anchors) && Closed(d, anchors, p, lo, hi)
    requires ids <= NodeIds(d) && forall i :: lo <= i < hi ==> d[i].id in ids
    ensures RootsIn(d, anchors, p, lo, hi) <= ids
    ensures Forest(ids, anchors, RootsIn(d, anchors, p, lo, hi)) == Ids(d[lo..hi])
    decreases hi - lo
  {
    hide Placed, ChildrenLarger, Forest, Largest, Children, InSubtree, Ids, Closed, RootsIn, NodeIds;
    Bounds(d, anchors, p, lo, hi);
    if lo < hi {
      var mid := SplitSegment(d, anchors, p, lo, hi);
      var m := d[lo].id;
      FirstRootIsLargest(d, anchors, p, lo, hi);
      OtherIds(d, anchors, lo, hi);
      RootsAreCells(d, anchors, ids, p, lo, hi);
      ChildrenAreRoots(d, anchors, ids - {m}, lo, mid);
      RestOfRoots(d, anchors, p, lo, mid, hi);
      SegmentIsForest(d, anchors, ids - {m}, lo, lo + 1, mid);
      SegmentIsForest(d, anchors, ids, p, mid, hi);
      ForestSplits(ids, anchors, RootsIn(d, anchors, p, lo, hi), m);
      IdsSplit(d, lo, mid, hi);
    } else {
      NoRoots(d, anchors, p, lo);
      NoForest(ids, anchors);
      assert d[lo..hi] == [];
      NoIds();
    }
  }

  lemma Bounds(d: Doc, anchors: Anchors, p: nat, lo: nat, hi: nat)
    requires Placed(d, anchors) && Closed(d, anchors, p, lo, hi)
    ensures p < lo <= hi <= |d|
  {
  }

  lemma NoRoots(d: Doc, anchors: Anchors, p: nat, lo: nat)
    requires Placed(d, anchors) && 1 <= lo <= |d|
    ensures RootsIn(d, anchors, p, lo, lo) == {}
  {
  }

  lemma RootsAreCells(d: Doc, anchors: Anchors, ids: set<NodeID>, p: nat, lo: nat, hi: nat)
    requires Placed(d, anchors) && 1 <= lo <= hi <= |d| && forall i :: lo <= i < hi ==> d[i].id in ids
    ensures RootsIn(d, anchors, p, lo, hi) <= ids
  {
  }

  lemma NoIds()
    ensures Ids([]) == []
  {
  }

  lemma NoForest(ids: set<NodeID>, anchors: Anchors)
    ensures Forest(ids, anchors, {}) == []
  {
  }

  lemma ForestSplits(ids: set<NodeID>, anchors: Anchors, roots: set<NodeID>, m: NodeID)
    requires roots <= ids && roots != {} && Largest(roots) == m
    ensures Forest(ids, anchors, roots) ==
      [m] + Forest(ids - {m}, anchors, Children(ids - {m}, anchors, m)) + Forest(ids, anchors, roots - {m})
  {
  }

  lemma OtherIds(d: Doc, anchors: Anchors, lo: nat, hi: nat)
    requires Placed(d, anchors) && lo < hi <= |d|
    ensures forall i :: lo < i < hi ==> d[i].id != d[lo].id
  {
  }

  lemma IdsSplit(d: Doc, lo: nat, mid: nat, hi: nat)
    requires lo < mid <= hi <= |d|
    ensures Ids(d[lo..hi]) == [d[lo].id] + Ids(d[lo + 1..mid]) + Ids(d[mid..hi])
  {
    assert d[lo..hi] == [d[lo]] + d[lo + 1..mid] + d[mid..hi];
    IdsAppend([d[lo]] + d[lo + 1..mid], d[mid..hi]);
    IdsAppend([d[lo]], d[lo + 1..mid]);
  }

  lemma FirstRootIsLargest(d: Doc, anchors: Anchors, p: nat, lo: nat, hi: nat)
    requires Placed(d, anchors) && Closed(d, anchors, p, lo, hi) && lo < hi
    ensures RootsIn(d, anchors, p, lo, hi) != {} && Largest(RootsIn(d, anchors, p, lo, hi)) == d[lo].id
  {
    var roots := RootsIn(d, anchors, p, lo, hi);
    assert Parent(d, anchors, lo) == p;
    forall x | x in roots
      ensures x == d[lo].id || Less(x, d[lo].id)
    {
      var i :| lo <= i < hi && Parent(d, anchors, i) == p && d[i].id == x;
      if i > lo {
        SiblingsDescend(d, anchors, lo, i);
      }
    }
    LargestIs(roots, d[lo].id);
  }

  lemma ChildrenAreRoots(d: Doc, anchors: Anchors, ids: set<NodeID>, lo: nat, mid: nat)
    requires Placed(d, anchors) && lo < mid <= |d| && ids <= NodeIds(d)
    requires forall i :: lo < i < mid ==> d[i].id in ids
    requires forall i :: 1 <= i < |d| && !(lo < i < mid) ==> Parent(d, anchors, i) != lo
    ensures Children(ids, anchors, d[lo].id) == RootsIn(d, anchors, lo, lo + 1, mid)
  {
    forall i | 1 <= i < |d|
      ensures d[i].id in anchors && (anchors[d[i].id] == d[lo].id <==> Parent(d, anchors, i) == lo)
    {
      assert PlacedAfter(d, anchors, Parent(d, anchors, i), i);
    }
  }

  lemma RestOfRoots(d: Doc, anchors: Anchors, p: nat, lo: nat, mid: nat, hi: nat)
    requires Placed(d, anchors) && p < lo < mid <= hi <= |d|
    requires forall i :: lo < i < mid ==> Parent(d, anchors, i) >= lo
    ensures RootsIn(d, anchors, p, lo, hi) - {d[lo].id} == RootsIn(d, anchors, p, mid, hi)
  {
  }

  /** If IDs grow along anchors, the list is the pre-order traversal of the anchor tree. */
  lemma ListIsPreOrder(d: Doc, anchors: Anchors)
    requires Placed(d, anchors) && ChildrenLarger(d, anchors)
    ensures Ids(d) == PreOrder(NodeIds(d), anchors)
  {
    hide Placed, ChildrenLarger, Forest, Children, Ids, Closed, RootsIn;
    WholeList(d, anchors);
    SegmentIsForest(d, anchors, NodeIds(d), 0, 1, |d|);
    ChildrenAreRoots(d, anchors, NodeIds(d), 0, |d|);
    IdsSplit(d, 0, 1, |d|);
    assert d[0..|d|] == d;
    NoIds();
    assert d[1..1] == [];
  }

  lemma WholeList(d: Doc, anchors: Anchors)
    requires Placed(d, anchors)
    ensures |d| > 0 && d[0].id == ZERO_ID && Closed(d, anchors, 0, 1, |d|)
  {
  }
}
