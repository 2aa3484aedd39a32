/** What each key does to the cells, the cursor and the network, whoever wrote the cells. */
module CursorMoves {
  import opened Bytes
  import opened Outcomes
  import opened Rga
  import opened Convergence
  import opened Editor
  import opened TextBuffer

  ghost predicate AllDead(d: Doc, low: nat, high: nat)
    requires low <= high <= |d|
  {
    forall i :: low <= i < high ==> d[i].tombstone
  }

  /** Left of cell `p`: the nearest visible cell or the start; from a deleted cell always the start. */
  ghost predicate LeadsLeft(d: Doc, p: nat, c: NodeID)
    requires p < |d|
  {
    if p == 0 || d[p].tombstone then c == NodeID(0, [])
    else exists q :: 0 <= q < p && c == d[q].id && !d[q].tombstone && AllDead(d, q + 1, p)
  }

  /** Right of cell `p`: the nearest visible cell; nowhere from the last one or a deleted one. */
  ghost predicate LeadsRight(d: Doc, p: nat, c: NodeID)
    requires p < |d|
  {
    if d[p].tombstone || AllDead(d, p + 1, |d|) then c == d[p].id
    else exists q :: p < q < |d| && c == d[q].id && !d[q].tombstone && AllDead(d, p + 1, q)
  }

  lemma HasElement(s: seq<Node>)
    ensures s != [] ==> exists n :: n in s
  {
    if s != [] {
      assert s[0] in s;
    }
  }

  lemma DeadIsEmpty(d: Doc, low: nat, high: nat)
    requires low <= high <= |d|
    ensures Living(d[low..high]) == [] <==> AllDead(d, low, high)
  {
    var s := d[low..high];
    LivingFrom(s);
    HasElement(Living(s));
    if !AllDead(d, low, high) {
      var i :| low <= i < high && !d[i].tombstone;
      assert s[i - low] in s;
    }
  }

  lemma FoundIsAlive(d: Doc, id: NodeID)
    requires |d| > 0
    ensures Search(VisibleNodes(d), id).Some? ==>
      exists k :: 1 <= k < |d| && !d[k].tombstone && d[k].id == id
  {
    LivingFrom(d[1..]);
    var v := VisibleNodes(d);
    var r := Search(v, id);
    if r.Some? {
      assert v[r.value] in v;
      var k :| 0 <= k < |d[1..]| && d[1..][k] == v[r.value];
      assert d[k + 1] == d[1..][k];
    }
  }

  /** A deleted cell is not among the visible nodes. */
  lemma DeletedIsNotFound(d: Doc, p: nat)
    requires IsDoc(d) && p < |d| && (d[p].tombstone || p == 0)
    ensures Search(VisibleNodes(d), d[p].id) == None
  {
    FoundIsAlive(d, d[p].id);
  }

  lemma LeftMeans(d: Doc, p: nat)
    requires IsDoc(d) && p < |d|
    ensures LeadsLeft(d, p, PrevVisible(d, d[p].id))
  {
    if p > 0 {
      assert d[0].id != d[p].id;
      if d[p].tombstone {
        DeletedIsNotFound(d, p);
      } else {
        var q := LastVisible(d, p);
        PrevVisibleIs(d, p, q);
        DeadIsEmpty(d, q + 1, p);
      }
    }
  }

  lemma RightMeans(d: Doc, p: nat)
    requires IsDoc(d) && p < |d|
    ensures LeadsRight(d, p, NextVisible(d, d[p].id))
  {
    assert p > 0 ==> d[0].id != d[p].id;
    assert d[p + 1..|d|] == d[p + 1..];
    DeadIsEmpty(d, p + 1, |d|);
    if d[p].tombstone {
      DeletedIsNotFound(d, p);
    } else {
      NextVisibleIs(d, p);
      if Living(d[p + 1..]) != [] {
        var q := FirstVisible(d, p + 1);
        DeadIsEmpty(d, p + 1, q);
      }
    }
  }

  /** A typed character: the operation that is broadcast is the one that is applied here. */
  ghost predicate Types(before: Replica, r: Reaction, clientID: bytes, clock: int64, rune: int32) {
    var id, last := r.replica.cursor, before.lastIssued;
    && r.broadcast == [Op(OpInsert, before.cursor, Node(id, rune, false))]
    && InsertAfter(before.doc, before.cursor, Node(id, rune, false)) == Ok(r.replica.doc)
    && id.clientID == clientID && r.replica.lastIssued == id.timestamp
    && (clock > last ==> id.timestamp == clock)
    && (clock <= last < 0x7FFF_FFFF_FFFF_FFFF ==> id.timestamp == last + 1)
  }

  /** Backspace deletes the cursor's cell, if it is not the sentinel, and moves left; on a cell that is deleted
      already it only moves to the start. */
  ghost predicate Erases(before: Replica, r: Reaction, p: nat)
    requires p < |before.doc|
  {
    && r.replica.lastIssued == before.lastIssued
    && LeadsLeft(before.doc, p, r.replica.cursor)
    && r.replica.doc == (if p == 0 then before.doc else before.doc[p := before.doc[p].(tombstone := true)])
    && r.broadcast == (if p == 0 then [] else [Op(OpDelete, NodeID(0, []), Node(before.doc[p].id, 0, false))])
  }

  ghost predicate Moves(before: Replica, r: Reaction) {
    r.broadcast == [] && r.replica.doc == before.doc && r.replica.lastIssued == before.lastIssued
  }

  /** Every key, by cells; Enter types the character 10. */
  lemma KeysByCells(r: Replica, clientID: bytes, clock: int64, key: Key, p: nat)
    requires IsDoc(r.doc) && p < |r.doc| && r.cursor == r.doc[p].id
    ensures HandleKey(r, clientID, clock, key).Ok?
    ensures var after := HandleKey(r, clientID, clock, key).value;
      match key
      case KeyLeft => Moves(r, after) && LeadsLeft(r.doc, p, after.replica.cursor)
      case KeyRight => Moves(r, after) && LeadsRight(r.doc, p, after.replica.cursor)
      case KeyBackspace => Erases(r, after, p)
      case KeyEnter => Types(r, after, clientID, clock, 10)
      case KeyRune(rune) => Types(r, after, clientID, clock, rune)
      case KeyOther => Moves(r, after) && after.replica == r
  {
    hide PrevVisible, NextVisible, LeadsLeft, LeadsRight, Landing;
    PositionIs(r.doc, p);
    LeftMeans(r.doc, p);
    RightMeans(r.doc, p);
    assert p > 0 ==> r.doc[0].id != r.doc[p].id;
    if p == 0 {
      NothingLeft(r.doc);
    }
  }

  lemma NothingLeft(d: Doc)
    requires IsDoc(d)
    ensures LeadsLeft(d, 0, d[0].id)
  {
  }
}
