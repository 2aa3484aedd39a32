/** Operations exchanged between replicas, and why their delivery order does not matter. */
module Convergence {
  import opened Outcomes
  import opened Rga
  import opened AnchorTree

  /** Go's `OpAction` string: the two known values, or anything else. */
  datatype OpAction = OpInsert | OpDelete | OpUnknown

  datatype Op = Op(action: OpAction, prevID: NodeID, node: Node)

  /** `applyRemote`: an unknown action is ignored. */
  function ApplyRemote(d: Doc, op: Op): Outcome<Doc> {
    match op.action
    case OpInsert => RemoteInsert(d, op.prevID, op.node)
    case OpDelete => Ok(Delete(d, op.node.id))
    case OpUnknown => Ok(d)
  }

  function ApplyAll(d: Doc, ops: seq<Op>): Outcome<Doc>
    decreases |ops|
  {
    if ops == [] then Ok(d) else
      match ApplyRemote(d, ops[0])
      case Panic => Panic
      case Ok(d') => ApplyAll(d', ops[1..])
  }

  /** A fresh replica that applies `ops` in this order. */
  function Replay(ops: seq<Op>): Outcome<Doc> {
    ApplyAll(EMPTY, ops)
  }

  lemma {:induction false} ApplyAllAppend(d: Doc, ops: seq<Op>, more: seq<Op>)
    ensures ApplyAll(d, ops + more) ==
      match ApplyAll(d, ops) case Panic => Panic case Ok(d') => ApplyAll(d', more)
    decreases |ops|
  {
    if ops == [] {
      assert ops + more == more;
    } else {
      assert (ops + more)[0] == ops[0] && (ops + more)[1..] == ops[1..] + more;
      match ApplyRemote(d, ops[0])
      case Panic =>
      case Ok(d') => ApplyAllAppend(d', ops[1..], more);
    }
  }

  lemma ReplayOne(done: seq<Op>, op: Op)
    requires Replay(done).Ok?
    ensures Replay(done + [op]) == ApplyRemote(Replay(done).value, op)
  {
    ApplyAllAppend(EMPTY, done, [op]);
    var d := Replay(done).value;
    assert ApplyAll(d, [op]) == match ApplyRemote(d, op) case Panic => Panic case Ok(d') => ApplyAll(d', []);
  }

  // ---------- which sequences survive ----------

  ghost predicate Inserts(op: Op, id: NodeID) {
    op.action.OpInsert? && op.node.id == id
  }

  ghost predicate Deletes(op: Op, id: NodeID) {
    op.action.OpDelete? && op.node.id == id
  }

  ghost predicate Inserted(ops: seq<Op>, id: NodeID) {
    exists o :: o in ops && Inserts(o, id)
  }

  ghost predicate Deleted(ops: seq<Op>, id: NodeID) {
    exists o :: o in ops && Deletes(o, id)
  }

  ghost predicate Known(ops: seq<Op>, id: NodeID) {
    id == ZERO_ID || Inserted(ops, id)
  }

  /** Every insert finds its own node (a duplicate) or its anchor. */
  ghost predicate AnchorsArrive(ops: seq<Op>) {
    forall i :: 0 <= i < |ops| && ops[i].action.OpInsert? ==>
      Known(ops[..i], ops[i].node.id) || Known(ops[..i], ops[i].prevID)
  }

  lemma PrefixAnchors(init: seq<Op>, op: Op)
    ensures AnchorsArrive(init + [op]) <==>
      AnchorsArrive(init) && (op.action.OpInsert? ==> Known(init, op.node.id) || Known(init, op.prevID))
  {
    var ops := init + [op];
    assert ops[..|init|] == init && ops[|init|] == op;
    assert forall i :: 0 <= i < |init| ==> ops[..i] == init[..i] && ops[i] == init[i];
  }

  /** The nodes of a replica after one more operation: nothing is forgotten. */
  lemma AppliedIds(d: Doc, op: Op)
    requires ApplyRemote(d, op).Ok?
    ensures forall id :: Has(ApplyRemote(d, op).value, id) <==> Has(d, id) || Inserts(op, id)
  {
    var e := ApplyRemote(d, op).value;
    match op.action
    case OpInsert =>
      if !Has(d, op.node.id) {
        InsertedIds(d, Landing(d, Position(d, op.prevID), op.node.id), op.node);
      }
    case OpDelete =>
      forall id
        ensures Has(e, id) <==> Has(d, id)
      {
        if Has(d, id) { assert e[Position(d, id)].id == id; }
        if Has(e, id) { assert d[Position(e, id)].id == id; }
      }
    case OpUnknown =>
  }

  lemma InsertedIds(d: Doc, k: nat, n: Node)
    requires k <= |d|
    ensures forall id :: Has(InsertAt(d, k, n), id) <==> Has(d, id) || id == n.id
  {
    var e := InsertAt(d, k, n);
    assert e[k] == n;
    forall id | Has(d, id)
      ensures Has(e, id)
    {
      var i := Position(d, id);
      assert e[if i < k then i else i + 1].id == id;
    }
  }

  lemma OneMoreOp(init: seq<Op>, op: Op)
    ensures forall o :: o in init + [op] <==> o in init || o == op
    ensures forall id :: Inserted(init + [op], id) <==> Inserted(init, id) || Inserts(op, id)
    ensures forall id :: DeletedInTime(init + [op], id) <==>
      DeletedInTime(init, id) || (Inserted(init, id) && Deletes(op, id))
  {
    var ops := init + [op];
    assert forall o :: o in ops <==> o in init || o == op;
    assert forall id :: Inserts(op, id) ==> Inserted(ops, id);
    forall id
      ensures DeletedInTime(ops, id) <==> DeletedInTime(init, id) || (Inserted(init, id) && Deletes(op, id))
    {
      OneMoreDelete(init, op, id);
    }
  }

  lemma OneMoreDelete(init: seq<Op>, op: Op, id: NodeID)
    ensures DeletedInTime(init + [op], id) <==> DeletedInTime(init, id) || (Inserted(init, id) && Deletes(op, id))
  {
    var ops := init + [op];
    assert ops[|init|] == op && forall i :: 0 <= i < |init| ==> ops[i] == init[i];
    if DeletedInTime(init, id) {
      var i, j :| 0 <= i < j < |init| && Inserts(init[i], id) && Deletes(init[j], id);
      assert Inserts(ops[i], id) && Deletes(ops[j], id);
    }
    if Inserted(init, id) && Deletes(op, id) {
      var i :| 0 <= i < |init| && Inserts(init[i], id);
      assert Inserts(ops[i], id) && Deletes(ops[|init|], id);
    }
  }

  /** With no assumption on the operations at all: a replica survives exactly the sequences in which every
      insert's anchor arrives first, and then knows exactly the inserted nodes. */
  lemma {:induction false} ReplaySucceedsIff(ops: seq<Op>)
    ensures Replay(ops).Ok? <==> AnchorsArrive(ops)
    ensures Replay(ops).Ok? ==> forall id :: Has(Replay(ops).value, id) <==> Known(ops, id)
    decreases |ops|
  {
    hide DeletedInTime, ApplyRemote;
    if ops == [] {
      assert EMPTY[0].id == ZERO_ID;
    } else {
      var init, op := ops[..|ops| - 1], ops[|ops| - 1];
      assert ops == init + [op];
      ReplaySucceedsIff(init);
      PrefixAnchors(init, op);
      OneMoreOp(init, op);
      if Replay(init).Ok? {
        ReplayOne(init, op);
        AppliesIff(Replay(init).value, op);
        if ApplyRemote(Replay(init).value, op).Ok? {
          AppliedIds(Replay(init).value, op);
        }
      } else {
        ApplyAllAppend(EMPTY, init, [op]);
      }
    }
  }

  lemma AppliesIff(d: Doc, op: Op)
    ensures ApplyRemote(d, op).Ok? <==> (op.action.OpInsert? ==> Has(d, op.node.id) || Has(d, op.prevID))
  {
  }

  // ---------- what a sequence leaves behind ----------

  /** No two different inserts carry the same ID. */
  ghost predicate UniqueIds(ops: seq<Op>) {
    forall o, p :: o in ops && p in ops && o.action.OpInsert? && Inserts(p, o.node.id) ==> o == p
  }

  /** The node is deleted after it has been inserted; a delete that comes first is dropped. */
  ghost predicate DeletedInTime(ops: seq<Op>, id: NodeID) {
    exists i, j :: 0 <= i < j < |ops| && Inserts(ops[i], id) && Deletes(ops[j], id)
  }

  /** What a replica holds after `ops`: the inserted nodes, placed, tombstoned where a delete came in time. */
  ghost predicate Reflects(d: Doc, anchors: Anchors, ops: seq<Op>) {
    && Placed(d, anchors)
    && (forall id :: Has(d, id) <==> Known(ops, id))
    && AnchorsOf(anchors, ops)
    && NodesOf(d, ops)
  }

  ghost predicate AnchorsOf(anchors: Anchors, ops: seq<Op>) {
    forall o :: o in ops && o.action.OpInsert? && o.node.id != ZERO_ID ==>
      o.node.id in anchors && anchors[o.node.id] == o.prevID
  }

  ghost predicate NodesOf(d: Doc, ops: seq<Op>) {
    forall i, o :: 1 <= i < |d| && o in ops && Inserts(o, d[i].id) ==>
      d[i] == o.node.(tombstone := o.node.tombstone || DeletedInTime(ops, d[i].id))
  }

  /** Exactly what a sequence that does not panic leaves, early deletes included. */
  lemma {:induction false} ReplayReflects(ops: seq<Op>) returns (anchors: Anchors)
    requires UniqueIds(ops) && AnchorsArrive(ops)
    ensures Replay(ops).Ok? && Reflects(Replay(ops).value, anchors, ops)
    decreases |ops|
  {
    hide ApplyRemote, DeletedInTime;
    if ops == [] {
      anchors := map[];
      assert EMPTY[0].id == ZERO_ID;
    } else {
      var init, op := ops[..|ops| - 1], ops[|ops| - 1];
      assert ops == init + [op];
      PrefixAnchors(init, op);
      OneMoreOp(init, op);
      anchors := ReplayReflects(init);
      ReplayOne(init, op);
      var d := Replay(init).value;
      if op.action.OpInsert? && !Has(d, op.node.id) {
        InsertReflects(d, anchors, init, op);
        anchors := anchors[op.node.id := op.prevID];
      } else {
        OtherReflects(d, anchors, init, op);
      }
    }
  }

  lemma InsertReflects(d: Doc, anchors: Anchors, init: seq<Op>, op: Op)
    requires UniqueIds(init + [op]) && Reflects(d, anchors, init)
    requires op.action.OpInsert? && Has(d, op.prevID) && !Has(d, op.node.id)
    ensures ApplyRemote(d, op).Ok?
    ensures Reflects(ApplyRemote(d, op).value, anchors[op.node.id := op.prevID], init + [op])
  {
    hide Placed, DeletedInTime, NodesOf, Landing;
    OneMoreOp(init, op);
    InsertAfterKeepsPlaced(d, anchors, op.prevID, op.node);
    var k := Landing(d, Position(d, op.prevID), op.node.id);
    InsertedIds(d, k, op.node);
    InsertKeepsNodes(d, k, init, op);
    forall o | o in init && o.action.OpInsert?
      ensures o.node.id != op.node.id
    {
      assert Inserts(o, o.node.id);
    }
  }

  lemma InsertKeepsNodes(d: Doc, k: nat, init: seq<Op>, op: Op)
    requires 1 <= k <= |d| && op.action.OpInsert? && NodesOf(d, init)
    requires !Inserted(init, op.node.id) && !Has(d, op.node.id)
    ensures NodesOf(InsertAt(d, k, op.node), init + [op])
  {
    OneMoreOp(init, op);
    var e := InsertAt(d, k, op.node);
    forall i, o | 1 <= i < |e| && o in init + [op] && Inserts(o, e[i].id)
      ensures e[i] == o.node.(tombstone := o.node.tombstone || DeletedInTime(init + [op], e[i].id))
    {
      if i == k {
        assert forall p :: p in init ==> !Inserts(p, op.node.id);
      } else {
        var i' := if i < k then i else i - 1;
        assert e[i] == d[i'];
        assert Has(d, d[i'].id);
      }
    }
  }

  lemma OtherReflects(d: Doc, anchors: Anchors, init: seq<Op>, op: Op)
    requires UniqueIds(init + [op]) && Reflects(d, anchors, init)
    requires op.action.OpInsert? ==> Has(d, op.node.id)
    ensures ApplyRemote(d, op).Ok? && Reflects(ApplyRemote(d, op).value, anchors, init + [op])
  {
    hide DeletedInTime;
    OneMoreOp(init, op);
    match op.action {
      case OpInsert => DuplicateReflects(d, anchors, init, op);
      case OpDelete => DeleteReflects(d, anchors, init, op);
      case OpUnknown =>
    }
  }

  lemma DuplicateReflects(d: Doc, anchors: Anchors, init: seq<Op>, op: Op)
    requires UniqueIds(init + [op]) && Reflects(d, anchors, init)
    requires op.action.OpInsert? && Has(d, op.node.id)
    ensures Reflects(d, anchors, init + [op])
  {
    hide DeletedInTime;
    OneMoreOp(init, op);
    if op.node.id != ZERO_ID {
      var o :| o in init && Inserts(o, op.node.id);
      assert op in init + [op] && o == op;
    }
  }

  lemma DeleteReflects(d: Doc, anchors: Anchors, init: seq<Op>, op: Op)
    requires Reflects(d, anchors, init) && op.action.OpDelete?
    ensures Reflects(Delete(d, op.node.id), anchors, init + [op])
  {
    hide DeletedInTime;
    OneMoreOp(init, op);
    var e := Delete(d, op.node.id);
    DeleteKeepsPlaced(d, anchors, op.node.id);
    AppliedIds(d, op);
    forall i, o | 1 <= i < |e| && o in init + [op] && Inserts(o, e[i].id)
      ensures e[i] == o.node.(tombstone := o.node.tombstone || DeletedInTime(init + [op], e[i].id))
    {
      assert o in init && Inserts(o, d[i].id);
      PositionIs(d, i);
      assert d[0].id != d[i].id;
    }
  }

  lemma NodeWasInserted(d: Doc, anchors: Anchors, ops: seq<Op>, i: nat) returns (o: Op)
    requires Reflects(d, anchors, ops) && 1 <= i < |d|
    ensures o in ops && Inserts(o, d[i].id) && d[i].id != ZERO_ID
    ensures d[i] == o.node.(tombstone := o.node.tombstone || DeletedInTime(ops, d[i].id))
  {
    assert Has(d, d[i].id);
    assert d[0].id != d[i].id;
    o :| o in ops && Inserts(o, d[i].id);
  }

  // ---------- convergence ----------

  ghost predicate SameOps(a: seq<Op>, b: seq<Op>) {
    forall o :: o in a <==> o in b
  }

  /** Of every node that is inserted alive, both orders lose the delete or both do not. */
  ghost predicate SameDeletes(a: seq<Op>, b: seq<Op>) {
    forall o :: o in a && o.action.OpInsert? && o.node.id != ZERO_ID && !o.node.tombstone ==>
      (DeletedInTime(a, o.node.id) <==> DeletedInTime(b, o.node.id))
  }

  /** Two orders of the same operations that do not panic always agree on the nodes and their places. They agree
      on everything if and only if no delete comes in time in one of them and too early in the other. */
  lemma ConvergesIff(a: seq<Op>, b: seq<Op>)
    requires UniqueIds(a) && SameOps(a, b) && AnchorsArrive(a) && AnchorsArrive(b)
    ensures Replay(a).Ok? && Replay(b).Ok? && SameOrder(Replay(a).value, Replay(b).value)
    ensures Replay(a) == Replay(b) <==> SameDeletes(a, b)
  {
    hide DeletedInTime, AnchorsArrive, Placed, NodesOf, AnchorsOf;
    var anchorsA := ReplayReflects(a);
    var anchorsB := ReplayReflects(b);
    var d, e := Replay(a).value, Replay(b).value;
    AnchorsAgree(d, anchorsA, anchorsB, a, b);
    assert forall id :: Inserted(a, id) <==> Inserted(b, id);
    PlacedIsUnique(d, e, anchorsB);
    if SameDeletes(a, b) {
      forall i | 0 <= i < |d|
        ensures d[i] == e[i]
      {
        SameCell(d, e, anchorsA, anchorsB, a, b, i);
      }
      assert d == e;
    }
    if d == e {
      EqualMeansSameDeletes(d, anchorsA, anchorsB, a, b);
    }
  }

  ghost predicate SameOrder(d: Doc, e: Doc) {
    |d| == |e| && forall i :: 0 <= i < |d| ==> d[i].id == e[i].id
  }

  lemma SameCell(d: Doc, e: Doc, anchorsA: Anchors, anchorsB: Anchors, a: seq<Op>, b: seq<Op>, i: nat)
    requires Reflects(d, anchorsA, a) && Reflects(e, anchorsB, b)
    requires UniqueIds(a) && SameOps(a, b) && SameDeletes(a, b)
    requires i < |d| && i < |e| && d[i].id == e[i].id
    ensures d[i] == e[i]
  {
    hide DeletedInTime;
    if i > 0 {
      var o := NodeWasInserted(d, anchorsA, a, i);
      var p := NodeWasInserted(e, anchorsB, b, i);
      assert o == p;
    }
  }

  lemma EqualMeansSameDeletes(d: Doc, anchorsA: Anchors, anchorsB: Anchors, a: seq<Op>, b: seq<Op>)
    requires Reflects(d, anchorsA, a) && Reflects(d, anchorsB, b) && SameOps(a, b)
    ensures SameDeletes(a, b)
  {
    hide DeletedInTime;
    forall o | o in a && o.action.OpInsert? && o.node.id != ZERO_ID && !o.node.tombstone
      ensures DeletedInTime(a, o.node.id) <==> DeletedInTime(b, o.node.id)
    {
      assert Inserts(o, o.node.id);
      var i := Position(d, o.node.id);
      assert d[i] == o.node.(tombstone := DeletedInTime(a, o.node.id));
      assert d[i] == o.node.(tombstone := DeletedInTime(b, o.node.id));
    }
  }

  lemma AnchorsAgree(d: Doc, anchors: Anchors, others: Anchors, a: seq<Op>, b: seq<Op>)
    requires Reflects(d, anchors, a) && SameOps(a, b) && AnchorsOf(others, b)
    ensures Placed(d, others)
  {
    hide DeletedInTime;
    forall i | 1 <= i < |d|
      ensures NodePlaced(d, others, i)
    {
      var o := NodeWasInserted(d, anchors, a, i);
      assert o in b;
      assert PlacedAfter(d, others, Parent(d, anchors, i), i);
    }
  }

  /** The IDs of the nodes that `ops` inserts. */
  ghost function InsertedNodes(ops: seq<Op>): set<NodeID> {
    set o | o in ops && o.action.OpInsert? && o.node.id != ZERO_ID :: o.node.id
  }

  /** Every insert has a larger ID than the node it was inserted after. */
  ghost predicate Causal(ops: seq<Op>) {
    forall o :: o in ops && o.action.OpInsert? ==> o.prevID == ZERO_ID || Less(o.prevID, o.node.id)
  }

  /** With causal timestamps a replica is the pre-order traversal of the tree of inserts, siblings descending. */
  lemma CausalReplayIsPreOrder(ops: seq<Op>) returns (anchors: Anchors)
    requires UniqueIds(ops) && AnchorsArrive(ops) && Causal(ops)
    ensures AnchorsOf(anchors, ops)
    ensures Replay(ops).Ok? && Ids(Replay(ops).value) == PreOrder(InsertedNodes(ops), anchors)
  {
    hide DeletedInTime, AnchorsArrive;
    anchors := ReplayReflects(ops);
    var d := Replay(ops).value;
    forall i | 1 <= i < |d|
      ensures d[i].id in InsertedNodes(ops) && d[i].id in anchors
      ensures anchors[d[i].id] == ZERO_ID || Less(anchors[d[i].id], d[i].id)
    {
      var o := NodeWasInserted(d, anchors, ops, i);
    }
    forall id | id in InsertedNodes(ops)
      ensures id in NodeIds(d)
    {
      assert Inserted(ops, id);
      assert d[Position(d, id)].id == id;
    }
    assert NodeIds(d) == InsertedNodes(ops);
    ListIsPreOrder(d, anchors);
  }

  // ---------- admissible delivery orders ----------

  /** The node an operation refers to has already arrived. */
  ghost predicate DependencyMet(before: seq<Op>, op: Op) {
    match op.action
    case OpInsert => op.node.id != ZERO_ID && Known(before, op.prevID)
    case OpDelete => Known(before, op.node.id)
    case OpUnknown => true
  }

  ghost predicate DependenciesMet(ops: seq<Op>) {
    forall i :: 0 <= i < |ops| ==> DependencyMet(ops[..i], ops[i])
  }

  /** Duplicates allowed, each operation after the one it refers to; nothing about timestamps. */
  ghost predicate Deliverable(ops: seq<Op>) {
    UniqueIds(ops) && DependenciesMet(ops)
  }

  lemma PrefixIsDeliverable(x: seq<Op>, y: seq<Op>)
    requires Deliverable(x + y)
    ensures Deliverable(x) && (y != [] ==> DependencyMet(x, y[0]))
  {
    var ops := x + y;
    assert forall o :: o in x ==> o in ops;
    forall i | 0 <= i < |x|
      ensures DependencyMet(x[..i], x[i])
    {
      assert ops[..i] == x[..i] && ops[i] == x[i];
    }
    if y != [] {
      assert ops[..|x|] == x && ops[|x|] == y[0];
    }
  }

  /** In an admissible order nothing panics and no delete is lost. */
  lemma DeliverableLosesNothing(ops: seq<Op>)
    requires Deliverable(ops)
    ensures AnchorsArrive(ops)
    ensures forall id :: id != ZERO_ID ==> (DeletedInTime(ops, id) <==> Deleted(ops, id))
  {
    forall i | 0 <= i < |ops| && ops[i].action.OpInsert?
      ensures Known(ops[..i], ops[i].prevID)
    {
      assert DependencyMet(ops[..i], ops[i]);
    }
    forall id | id != ZERO_ID && Deleted(ops, id)
      ensures DeletedInTime(ops, id)
    {
      var o :| o in ops && Deletes(o, id);
      var j :| 0 <= j < |ops| && ops[j] == o;
      assert DependencyMet(ops[..j], ops[j]);
      var p :| p in ops[..j] && Inserts(p, id);
      var i :| 0 <= i < j && ops[..j][i] == p;
      assert Inserts(ops[i], id) && Deletes(ops[j], id);
    }
  }

  /** Two admissible orders of the same operations leave the same cells, order and tombstones. */
  lemma OrderDoesNotMatter(a: seq<Op>, b: seq<Op>)
    requires Deliverable(a) && Deliverable(b) && SameOps(a, b)
    ensures Replay(a).Ok? && Replay(b) == Replay(a)
  {
    hide DeletedInTime;
    DeliverableLosesNothing(a);
    DeliverableLosesNothing(b);
    assert forall id :: Deleted(a, id) <==> Deleted(b, id);
    ConvergesIff(a, b);
  }

  /** What the user sees is the same too. */
  lemma ValuesConverge(a: seq<Op>, b: seq<Op>)
    requires Deliverable(a) && Deliverable(b) && SameOps(a, b)
    ensures Replay(a).Ok? && Replay(b).Ok? && IsDoc(Replay(a).value) && IsDoc(Replay(b).value)
    ensures Values(Replay(a).value) == Values(Replay(b).value)
  {
    OrderDoesNotMatter(a, b);
    DeliverableLosesNothing(a);
    var anchors := ReplayReflects(a);
  }

  // ---------- why the order of deletes matters ----------

  /** A delete that overtakes its insert is dropped, and the replicas diverge for good. */
  lemma EarlyDeleteDiverges(insert: Op, delete: Op)
    requires insert.action.OpInsert? && insert.prevID == ZERO_ID && insert.node.id != ZERO_ID && !insert.node.tombstone
    requires Deletes(delete, insert.node.id)
    ensures SameOps([insert, delete], [delete, insert])
    ensures Replay([insert, delete]) == Ok([ROOT, insert.node.(tombstone := true)])
    ensures Replay([delete, insert]) == Ok([ROOT, insert.node])
  {
    assert EMPTY[0].id == ZERO_ID;
    assert !Has(EMPTY, insert.node.id);
    var d := [ROOT, insert.node];
    assert InsertAt(EMPTY, 1, insert.node) == d;
    assert [insert, delete] == [insert] + [delete] && [delete, insert] == [delete] + [insert];
    assert Replay([]) == Ok(EMPTY) && [] + [insert] == [insert] && [] + [delete] == [delete];
    ReplayOne([], insert);
    ReplayOne([insert], delete);
    ReplayOne([], delete);
    ReplayOne([delete], insert);
    assert d[1].id == insert.node.id;
    assert Position(d, insert.node.id) == 1;
    assert d[1 := insert.node.(tombstone := true)] == [ROOT, insert.node.(tombstone := true)];
    assert forall o :: o in [insert, delete] <==> o == insert || o == delete;
    assert forall o :: o in [delete, insert] <==> o == insert || o == delete;
  }
}
