/** The replica as the program keeps it: linked cells, an index into them, and updates in place. */
module RgaHeap {
  import opened Bytes
  import opened Outcomes
  import opened Rga

  class Element {
    var node: Node
    var prev: Element?
    var next: Element?

    constructor (node: Node, prev: Element?, next: Element?)
      ensures this.node == node && this.prev == prev && this.next == next
    {
      this.node, this.prev, this.next := node, prev, next;
    }
  }

  /** The index is a bijection between the known IDs and the cells. */
  ghost predicate IndexOf(index: map<NodeID, Element>, cells: seq<Element>, d: Doc) {
    && |cells| == |d|
    && (forall i :: 0 <= i < |d| ==> d[i].id in index && index[d[i].id] == cells[i])
    && (forall id :: id in index ==> Has(d, id))
  }

  lemma Lookup(index: map<NodeID, Element>, cells: seq<Element>, d: Doc, id: NodeID)
    requires IndexOf(index, cells, d)
    ensures |cells| == |d| && (id in index <==> Has(d, id))
    ensures id in index ==> index[id] == cells[Position(d, id)]
  {
  }

  lemma InsertKeepsIndex(d: Doc, index: map<NodeID, Element>, cells: seq<Element>, k: nat, n: Node, e: Element)
    requires 1 <= k <= |d| && n.id !in index && IndexOf(index, cells, d)
    ensures IndexOf(index[n.id := e], cells[..k] + [e] + cells[k..], InsertAt(d, k, n))
  {
    var d', cells' := InsertAt(d, k, n), cells[..k] + [e] + cells[k..];
    assert forall i :: 0 <= i < k ==> d'[i] == d[i] && cells'[i] == cells[i];
    assert forall i :: k < i < |d'| ==> d'[i] == d[i - 1] && cells'[i] == cells[i - 1];
    forall id | id in index[n.id := e]
      ensures Has(d', id)
    {
      if id == n.id {
        assert d'[k].id == id;
      } else {
        var i := Position(d, id);
        assert d'[if i < k then i else i + 1].id == id;
      }
    }
  }

  lemma SecondCell(d: Doc, k: nat, n: Node)
    requires IsDoc(d) && 1 <= k <= |d| && Has(d, n.id)
    ensures !IsDoc(InsertAt(d, k, n))
  {
    var e, p := InsertAt(d, k, n), Position(d, n.id);
    assert e[k].id == n.id;
    assert e[if p < k then p else p + 1].id == n.id;
  }

  lemma SplicedIn(cells: seq<Element>, k: nat, e: Element)
    requires k <= |cells|
    ensures forall c :: c in cells[..k] + [e] + cells[k..] ==> c in cells || c == e
  {
  }

  lemma DeleteKeepsIndex(d: Doc, index: map<NodeID, Element>, cells: seq<Element>, id: NodeID)
    requires IndexOf(index, cells, d)
    ensures IndexOf(index, cells, Rga.Delete(d, id))
  {
    var d' := Rga.Delete(d, id);
    forall x | x in index
      ensures Has(d', x)
    {
      assert d'[Position(d, x)].id == x;
    }
  }

  class RGA {
    const root: Element
    var index: map<NodeID, Element>
    var lastIssued: int64
    ghost var cells: seq<Element>  // the chain from root on
    ghost var contents: Doc        // the nodes in those cells

    /** prev and next are inverse along one acyclic chain of cells, which hold the contents. */
    ghost predicate Linked()
      reads this`cells, this`contents, cells
    {
      && |cells| == |contents| > 0
      && cells[0] == root
      && (forall i, j :: 0 <= i < j < |cells| ==> cells[i] != cells[j])
      && cells[0].prev == null
      && (forall i {:trigger cells[i].prev} :: 1 <= i < |cells| ==> cells[i].prev == cells[i - 1])
      && (forall i {:trigger cells[i].next} :: 0 <= i < |cells| - 1 ==> cells[i].next == cells[i + 1])
      && cells[|cells| - 1].next == null
      && (forall i {:trigger cells[i].node} :: 0 <= i < |cells| ==> cells[i].node == contents[i])
    }

    ghost predicate Valid()
      reads this`index, this`cells, this`contents, cells
    {
      Linked() && IsDoc(contents) && IndexOf(index, cells, contents)
    }

    constructor ()
      ensures Valid() && fresh(cells) && contents == EMPTY && lastIssued == 0
    {
      var head := new Element(ROOT, null, null);
      root := head;
      index := map[ZERO_ID := head];
      lastIssued := 0;
      cells := [head];
      contents := EMPTY;
      new;
      assert contents[0].id == ZERO_ID;
    }

    /** The loop of `insertAfter`: the last cell the new node must not overtake. */
    method Walk(prev: Element, id: NodeID, ghost p: nat) returns (left: Element)
      requires Linked() && p < |cells| && cells[p] == prev
      ensures Landing(contents, p, id) >= 1 && left == cells[Landing(contents, p, id) - 1]
    {
      left := prev;
      ghost var i := p;
      while left.next != null && Rga.Less(id, left.next.node.id)
        invariant p <= i < |cells| && cells[i] == left
        invariant Landing(contents, i, id) == Landing(contents, p, id)
        decreases |cells| - i
      {
        assert left.next == cells[i + 1] && cells[i + 1].node == contents[i + 1];
        left := left.next;
        i := i + 1;
      }
      if i + 1 < |cells| {
        assert left.next == cells[i + 1] && cells[i + 1].node == contents[i + 1];
      }
    }

    /** Links a new cell in behind `left`. */
    method Link(left: Element, node: Node, ghost k: nat) returns (e: Element)
      requires Linked() && 1 <= k <= |cells| && left == cells[k - 1]
      modifies this`cells, this`contents, cells
      ensures Linked() && fresh(e)
      ensures cells == old(cells)[..k] + [e] + old(cells)[k..]
      ensures contents == InsertAt(old(contents), k, node)
    {
      var right := left.next;
      e := new Element(node, left, right);
      left.next := e;
      if right != null {
        right.prev := e;
      }
      assert right == if k < |cells| then cells[k] else null;
      cells := cells[..k] + [e] + cells[k..];
      contents := InsertAt(contents, k, node);
      assert forall i :: 0 <= i < k ==> cells[i] == old(cells[i]);
      assert forall i :: k < i < |cells| ==> cells[i] == old(cells)[i - 1];
    }

    /** Links the cell and indexes it; an ID that is in use breaks the index for good. */
    method Splice(left: Element, node: Node, ghost k: nat) returns (e: Element)
      requires Valid() && 1 <= k <= |cells| && left == cells[k - 1]
      modifies this`index, this`cells, this`contents, cells
      ensures Linked() && contents == InsertAt(old(contents), k, node) && index == old(index)[node.id := e]
      ensures Valid() <==> node.id !in old(index)
      ensures fresh(e) && cells == old(cells)[..k] + [e] + old(cells)[k..]
    {
      hide IsDoc, IndexOf, InsertAt, this.Linked;
      ghost var d, i, c := contents, index, cells;
      Lookup(i, c, d, node.id);
      e := Link(left, node, k);
      index := index[node.id := e];
      if node.id in i {
        SecondCell(d, k, node);
      } else {
        InsertKeepsDistinct(d, k, node);
        InsertKeepsIndex(d, i, c, k, node, e);
      }
    }

    method InsertAfter(prevID: NodeID, node: Node) returns (panicked: bool)
      requires Valid()
      modifies this`index, this`cells, this`contents, cells
      ensures Linked() && forall c :: c in cells ==> c in old(cells) || fresh(c)
      ensures Valid() <==> panicked || node.id !in old(index)
      ensures panicked <==> Rga.InsertAfter(old(contents), prevID, node).Panic?
      ensures contents == if panicked then old(contents) else Rga.InsertAfter(old(contents), prevID, node).value
    {
      hide IsDoc, IndexOf, Landing, this.Linked;
      Lookup(index, cells, contents, prevID);
      if prevID !in index {
        return true;
      }
      ghost var p := Position(contents, prevID);
      var left := Walk(index[prevID], node.id, p);
      ghost var c, k := cells, Landing(contents, p, node.id);
      var e := Splice(left, node, k);
      SplicedIn(c, k, e);
      return false;
    }

    method Insert(prevID: NodeID, rune: int32, clientID: bytes, clock: int64) returns (panicked: bool, id: NodeID)
      requires Valid()
      modifies this, cells
      ensures Linked() && forall c :: c in cells ==> c in old(cells) || fresh(c)
      ensures Valid() <==> panicked || id !in old(index)
      ensures id == NodeID(Mint(old(lastIssued), clock), clientID) && lastIssued == id.timestamp
      ensures clock > old(lastIssued) ==> id.timestamp == clock
      ensures clock <= old(lastIssued) < 0x7FFF_FFFF_FFFF_FFFF ==> id.timestamp == old(lastIssued) + 1
      ensures clock <= old(lastIssued) == 0x7FFF_FFFF_FFFF_FFFF ==> id.timestamp == -0x8000_0000_0000_0000
      ensures var r := Rga.InsertAfter(old(contents), prevID, Node(id, rune, false));
        (panicked <==> r.Panic?) && contents == if panicked then old(contents) else r.value
    {
      hide IndexOf, IsDoc, this.Linked;
      var ts := clock;
      if ts <= lastIssued {
        ts := Successor(lastIssued);
      }
      lastIssued := ts;
      id := NodeID(ts, clientID);
      panicked := InsertAfter(prevID, Node(id, rune, false));
    }

    method RemoteInsert(prevID: NodeID, node: Node) returns (panicked: bool)
      requires Valid()
      modifies this`index, this`cells, this`contents, cells
      ensures Valid() && forall c :: c in cells ==> c in old(cells) || fresh(c)
      ensures var r := Rga.RemoteInsert(old(contents), prevID, node);
        (panicked <==> r.Panic?) && contents == if panicked then old(contents) else r.value
    {
      if node.id in index {
        return false;
      }
      assert !Has(contents, node.id);
      panicked := InsertAfter(prevID, node);
    }

    method Mark(e: Element, ghost p: nat)
      requires Linked() && p < |cells| && e == cells[p]
      modifies this`contents, e`node
      ensures Linked() && contents == old(contents)[p := old(contents[p]).(tombstone := true)]
    {
      e.node := e.node.(tombstone := true);
      contents := contents[p := contents[p].(tombstone := true)];
    }

    method Delete(id: NodeID)
      requires Valid()
      modifies this`contents, cells
      ensures Valid() && contents == Rga.Delete(old(contents), id)
    {
      Lookup(index, cells, contents, id);
      DeleteKeepsIndex(contents, index, cells, id);
      if id !in index || index[id] == root {
        return;
      }
      Mark(index[id], Position(contents, id));
    }

    method VisibleNodes() returns (out: seq<Node>)
      requires Linked()
      ensures out == Rga.VisibleNodes(contents)
    {
      hide Living;
      out := [];
      NoCell(contents);
      var e := root.next;
      ghost var i := 1;
      while e != null
        invariant 1 <= i <= |cells|
        invariant e == if i < |cells| then cells[i] else null
        invariant out + Living(contents[i..]) == Rga.VisibleNodes(contents)
        decreases |cells| - i
      {
        OneCell(contents, i);
        if !e.node.tombstone {
          out := out + [e.node];
        }
        e := e.next;
        i := i + 1;
      }
    }

    method Values() returns (out: seq<int32>)
      requires Linked()
      ensures out == Rga.Values(contents)
    {
      hide Living, Runes;
      out := [];
      NoCell(contents);
      var e := root.next;
      ghost var i := 1;
      while e != null
        invariant 1 <= i <= |cells|
        invariant e == if i < |cells| then cells[i] else null
        invariant out + Runes(Living(contents[i..])) == Rga.Values(contents)
        decreases |cells| - i
      {
        OneCell(contents, i);
        if !e.node.tombstone {
          out := out + [e.node.rune];
        }
        e := e.next;
        i := i + 1;
      }
    }
  }

  lemma NoCell(d: Doc)
    ensures Living(d[|d|..]) == [] && Runes(Living(d[|d|..])) == []
  {
  }

  lemma OneCell(d: Doc, i: nat)
    requires i < |d|
    ensures Living(d[i..]) == (if d[i].tombstone then [] else [d[i]]) + Living(d[i + 1..])
    ensures Runes(Living(d[i..])) == (if d[i].tombstone then [] else [d[i].rune]) + Runes(Living(d[i + 1..]))
  {
    var s := d[i..];
    assert s[0] == d[i] && s[1..] == d[i + 1..];
    if !d[i].tombstone {
      var v := Living(s);
      assert v[0] == d[i] && v[1..] == Living(s[1..]);
    }
  }
}
