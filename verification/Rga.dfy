/** The replicated growable array as a value: what each operation does to the list of cells. */
module Rga {
  import opened Bytes
  import opened Outcomes

  datatype NodeID = NodeID(timestamp: int64, clientID: bytes)

  const ZERO_ID: NodeID := NodeID(0, [])

  predicate Less(a: NodeID, b: NodeID) {
    if a.timestamp != b.timestamp then a.timestamp < b.timestamp else Bytes.Less(a.clientID, b.clientID)
  }

  datatype Node = Node(id: NodeID, rune: int32, tombstone: bool)

  /** The sentinel head, known under the zero ID. */
  const ROOT: Node := Node(ZERO_ID, 0, false)

  /** All cells in list order, tombstones included; the sentinel is cell 0. */
  type Doc = seq<Node>

  const EMPTY: Doc := [ROOT]

  ghost predicate Distinct(s: seq<Node>) {
    forall i, j :: 0 <= i < j < |s| ==> s[i].id != s[j].id
  }

  ghost predicate IsDoc(d: Doc) {
    |d| > 0 && d[0] == ROOT && Distinct(d)
  }

  predicate Has(d: Doc, id: NodeID) {
    exists i :: 0 <= i < |d| && d[i].id == id
  }

  function Position(d: Doc, id: NodeID): (i: nat)
    requires Has(d, id)
    ensures i < |d| && d[i].id == id
  {
    if d[0].id == id then 0 else
      assert Has(d[1..], id) by {
        var i :| 0 <= i < |d| && d[i].id == id;
        assert d[1..][i - 1].id == id;
      }
      1 + Position(d[1..], id)
  }

  lemma PositionIs(d: Doc, i: nat)
    requires IsDoc(d) && i < |d|
    ensures Has(d, d[i].id) && Position(d, d[i].id) == i
  {
  }

  /** Where a node with this ID ends up when the walk starts with `left` at cell `i`. */
  function Landing(d: Doc, i: nat, id: NodeID): (k: nat)
    requires i < |d|
    ensures i < k <= |d|
    ensures forall j :: i < j < k ==> Less(id, d[j].id)
    ensures k < |d| ==> !Less(id, d[k].id)
    decreases |d| - i
  {
    if i + 1 < |d| && Less(id, d[i + 1].id) then Landing(d, i + 1, id) else i + 1
  }

  function InsertAt(d: Doc, k: nat, n: Node): Doc
    requires k <= |d|
  {
    d[..k] + [n] + d[k..]
  }

  function InsertAfter(d: Doc, prevID: NodeID, n: Node): Outcome<Doc> {
    if Has(d, prevID) then Ok(InsertAt(d, Landing(d, Position(d, prevID), n.id), n)) else Panic
  }

  function RemoteInsert(d: Doc, prevID: NodeID, n: Node): Outcome<Doc> {
    if Has(d, n.id) then Ok(d) else InsertAfter(d, prevID, n)
  }

  function Delete(d: Doc, id: NodeID): (r: Doc)
    ensures |r| == |d| && forall i :: 0 <= i < |d| ==> r[i].id == d[i].id
  {
    if !Has(d, id) || id == ZERO_ID then d else
      var p := Position(d, id);
      d[p := d[p].(tombstone := true)]
  }

  /** `int64` addition wraps around. */
  function Successor(t: int64): int64 {
    if t == 0x7FFF_FFFF_FFFF_FFFF then -0x8000_0000_0000_0000 else t + 1
  }

  /** The timestamp a local insert mints when the wall clock reads `clock`. */
  function Mint(lastIssued: int64, clock: int64): int64 {
    if clock <= lastIssued then Successor(lastIssued) else clock
  }

  function Living(s: seq<Node>): seq<Node> {
    if s == [] then []
    else if s[0].tombstone then Living(s[1..])
    else [s[0]] + Living(s[1..])
  }

  /** Everything after the sentinel that is not tombstoned. */
  function VisibleNodes(d: Doc): seq<Node>
    requires |d| > 0
  {
    Living(d[1..])
  }

  function Runes(s: seq<Node>): seq<int32> {
    if s == [] then [] else [s[0].rune] + Runes(s[1..])
  }

  function Values(d: Doc): seq<int32>
    requires |d| > 0
  {
    Runes(VisibleNodes(d))
  }

  /** The visible text, rune by rune. */
  lemma ValuesMean(d: Doc)
    requires |d| > 0
    ensures |Values(d)| == |VisibleNodes(d)|
    ensures forall i :: 0 <= i < |Values(d)| ==> Values(d)[i] == VisibleNodes(d)[i].rune
  {
    RunesMean(VisibleNodes(d));
  }

  lemma {:induction false} RunesMean(s: seq<Node>)
    ensures |Runes(s)| == |s| && forall i :: 0 <= i < |s| ==> Runes(s)[i] == s[i].rune
    decreases |s|
  {
    if s != [] {
      RunesMean(s[1..]);
    }
  }

  // ---------- the ID order ----------

  lemma LessTrichotomy(a: NodeID, b: NodeID)
    ensures a != b ==> Less(a, b) || Less(b, a)
    ensures !(Less(a, b) && Less(b, a))
    ensures !Less(a, a)
  {
    LessTotal(a.clientID, b.clientID);
    LessIrreflexive(a.clientID);
    if Bytes.Less(a.clientID, b.clientID) {
      LessAsymmetric(a.clientID, b.clientID);
    }
  }

  /** The timestamp decides, then the client ID as a byte string. */
  lemma LessMeans(a: NodeID, b: NodeID)
    ensures a.timestamp < b.timestamp ==> Less(a, b)
    ensures a.timestamp == b.timestamp ==>
      (Less(a, b) <==> exists k :: SmallerAt(a.clientID, b.clientID, k))
    ensures a.timestamp > b.timestamp ==> !Less(a, b)
  {
    Bytes.LessMeans(a.clientID, b.clientID);
  }

  lemma LessTransitive(a: NodeID, b: NodeID, c: NodeID)
    requires Less(a, b) && Less(b, c)
    ensures Less(a, c)
  {
    if a.timestamp == b.timestamp == c.timestamp {
      Bytes.LessTransitive(a.clientID, b.clientID, c.clientID);
    }
  }

  // ---------- the placement invariant ----------

  /** Which node each node was inserted after. */
  type Anchors = map<NodeID, NodeID>

  /** Cell `i` was inserted after cell `a`, and everything strictly between the two has a larger ID. */
  ghost predicate PlacedAfter(d: Doc, anchors: Anchors, a: nat, i: nat)
    requires a < i < |d| && d[i].id in anchors
  {
    && d[a].id == anchors[d[i].id]
    && forall j :: a < j < i ==> Less(d[i].id, d[j].id)
  }

  ghost predicate NodePlaced(d: Doc, anchors: Anchors, i: nat)
    requires 1 <= i < |d|
  {
    d[i].id in anchors && exists a :: 0 <= a < i && PlacedAfter(d, anchors, a, i)
  }

  /** Every node follows its anchor, and only larger IDs stand in between. */
  ghost predicate Placed(d: Doc, anchors: Anchors) {
    IsDoc(d) && forall i :: 1 <= i < |d| ==> NodePlaced(d, anchors, i)
  }

  ghost predicate SameIds(d: Doc, e: Doc) {
    forall id :: Has(d, id) <==> Has(e, id)
  }

  /** The cell `i` was inserted after, as a position. */
  ghost function Parent(d: Doc, anchors: Anchors, i: nat): (a: nat)
    requires Placed(d, anchors) && 1 <= i < |d|
    ensures d[i].id in anchors
    ensures a < i && PlacedAfter(d, anchors, a, i)
  {
    assert NodePlaced(d, anchors, i);
    var a :| 0 <= a < i && PlacedAfter(d, anchors, a, i);
    a
  }

  /** The walk of `insertAfter` puts the new node where the invariant wants it, and spoils nothing. */
  lemma InsertAfterKeepsPlaced(d: Doc, anchors: Anchors, prevID: NodeID, n: Node)
    requires Placed(d, anchors) && Has(d, prevID) && !Has(d, n.id)
    ensures Placed(InsertAfter(d, prevID, n).value, anchors[n.id := prevID])
  {
    var p := Position(d, prevID);
    var k := Landing(d, p, n.id);
    var e := InsertAt(d, k, n);
    var anchors' := anchors[n.id := prevID];
    InsertKeepsDistinct(d, k, n);
    forall i | 1 <= i < |e|
      ensures NodePlaced(e, anchors', i)
    {
      if i == k {
        assert PlacedAfter(e, anchors', p, k);
      } else if i < k {
        assert Has(d, d[i].id);
        var a := Parent(d, anchors, i);
        assert PlacedAfter(e, anchors', a, i);
      } else {
        BehindTheGap(d, anchors, prevID, n, k, i - 1);
      }
    }
  }

  lemma InsertKeepsDistinct(d: Doc, k: nat, n: Node)
    requires IsDoc(d) && 1 <= k <= |d| && !Has(d, n.id)
    ensures IsDoc(InsertAt(d, k, n))
  {
    assert forall i :: 0 <= i < |d| ==> d[i].id != n.id;
  }

  /** A cell that ends up behind the new node has a smaller ID, whatever its anchor. */
  lemma BehindTheGap(d: Doc, anchors: Anchors, prevID: NodeID, n: Node, k: nat, x: nat)
    requires Placed(d, anchors) && !Has(d, n.id)
    requires 1 <= k <= x < |d| && !Less(n.id, d[k].id)
    ensures NodePlaced(InsertAt(d, k, n), anchors[n.id := prevID], x + 1)
  {
    hide Has, Less;
    var e := InsertAt(d, k, n);
    var a := Parent(d, anchors, x);
    var a' := if a < k then a else a + 1;
    assert d[x].id != n.id && d[k].id != n.id by { NotThere(d, n.id); }
    assert e[x + 1] == d[x] && e[a'] == d[a];
    if a < k {
      SmallerThanNew(n.id, d[k].id, d[x].id);
    }
    forall j | a' < j < x + 1
      ensures Less(d[x].id, e[j].id)
    {
      if j < k {
        assert e[j] == d[j];
      } else if j > k {
        assert e[j] == d[j - 1];
      }
    }
    assert PlacedAfter(e, anchors[n.id := prevID], a', x + 1);
  }

  lemma SmallerThanNew(new': NodeID, next: NodeID, id: NodeID)
    requires !Less(new', next) && new' != next && (id == next || Less(id, next))
    ensures Less(id, new')
  {
    LessTrichotomy(new', next);
    if id != next {
      LessTransitive(id, next, new');
    }
  }

  lemma NotThere(d: Doc, id: NodeID)
    requires !Has(d, id)
    ensures forall i :: 0 <= i < |d| ==> d[i].id != id
  {
  }

  lemma DeleteKeepsPlaced(d: Doc, anchors: Anchors, id: NodeID)
    requires Placed(d, anchors)
    ensures Placed(Delete(d, id), anchors)
  {
    var e := Delete(d, id);
    if Has(d, id) && id != ZERO_ID {
      assert e[0] == d[0];
    }
    forall i | 1 <= i < |e|
      ensures NodePlaced(e, anchors, i)
    {
      var a := Parent(d, anchors, i);
      assert PlacedAfter(e, anchors, a, i);
    }
  }

  /** The invariant leaves no choice: the anchors determine the whole order. */
  lemma PlacedIsUnique(d: Doc, e: Doc, anchors: Anchors)
    requires Placed(d, anchors) && Placed(e, anchors) && SameIds(d, e)
    ensures |d| == |e| && forall i :: 0 <= i < |d| ==> d[i].id == e[i].id
  {
    PrefixesAgree(d, e, anchors, if |d| < |e| then |d| else |e|);
    if |d| < |e| {
      LongerListHasMore(d, e);
    } else if |e| < |d| {
      LongerListHasMore(e, d);
    }
  }

  lemma LongerListHasMore(d: Doc, e: Doc)
    requires IsDoc(e) && |d| < |e|
    requires forall i :: 0 <= i < |d| ==> d[i].id == e[i].id
    ensures !SameIds(d, e)
  {
    assert Has(e, e[|d|].id);
    assert !Has(d, e[|d|].id);
  }

  /** At a first difference each of the two candidates would have to be larger than the other. */
  lemma {:induction false} PrefixesAgree(d: Doc, e: Doc, anchors: Anchors, k: nat)
    requires Placed(d, anchors) && Placed(e, anchors) && SameIds(d, e)
    requires k <= |d| && k <= |e|
    ensures forall i :: 0 <= i < k ==> d[i].id == e[i].id
  {
    if k > 1 {
      PrefixesAgree(d, e, anchors, k - 1);
      LaterIsSmaller(d, e, anchors, k - 1);
      LaterIsSmaller(e, d, anchors, k - 1);
      LessTrichotomy(d[k - 1].id, e[k - 1].id);
    }
  }

  lemma LaterIsSmaller(d: Doc, e: Doc, anchors: Anchors, k: nat)
    requires Placed(d, anchors) && Placed(e, anchors) && SameIds(d, e)
    requires 1 <= k < |d| && k < |e|
    requires forall i :: 0 <= i < k ==> d[i].id == e[i].id
    ensures d[k].id == e[k].id || Less(e[k].id, d[k].id)
  {
    var y := e[k].id;
    assert Has(e, y);
    var i := Position(d, y);
    assert i >= k by {
      assert forall j :: 0 <= j < k ==> e[j].id != y;
    }
    if i > k {
      var a, b := Parent(d, anchors, i), Parent(e, anchors, k);
      assert d[a].id == anchors[y] == d[b].id;
    }
  }
}
