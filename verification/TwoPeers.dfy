/** Two editors joined by reliable first-in-first-out channels that carry encoded operations. */
module TwoPeers {
  import opened Bytes
  import opened Outcomes
  import opened Rga
  import opened Convergence
  import opened OpCodec
  import opened Editor

  /** Both peers, their client IDs, and the bytes on their way to each. */
  datatype System = System(a: Replica, b: Replica, idA: bytes, idB: bytes, toA: seq<bytes>, toB: seq<bytes>)

  datatype Side = SideA | SideB

  /** Jump covers the Up and Down keys: they only ever lead to a visible node or to the start. */
  datatype Action = Press(key: Key, clock: int64) | Jump(target: NodeID) | Deliver

  datatype Event = Event(side: Side, action: Action)

  function Start(idA: bytes, idB: bytes): System {
    System(Replica(EMPTY, 0, ZERO_ID), Replica(EMPTY, 0, ZERO_ID), idA, idB, [], [])
  }

  /** The same system with the peers' names exchanged. */
  function Mirror(s: System): System {
    System(s.b, s.a, s.idB, s.idA, s.toB, s.toA)
  }

  /** `broadcast`: an operation that cannot be encoded is logged and dropped. */
  function Send(queue: seq<bytes>, ops: seq<Op>): seq<bytes>
    decreases |ops|
  {
    if ops == [] then queue else
      match Encode(ops[0])
      case None => Send(queue, ops[1..])
      case Some(data) => Send(queue + [data], ops[1..])
  }

  /** `recvLoop` and `applyRemote`: a malformed message is logged and dropped. */
  function Receive(d: Doc, data: bytes): Outcome<Doc> {
    match Decode(data)
    case None => Ok(d)
    case Some(op) => ApplyRemote(d, op)
  }

  function ReceiveAll(d: Doc, queue: seq<bytes>): Outcome<Doc>
    decreases |queue|
  {
    if queue == [] then Ok(d) else
      match Receive(d, queue[0])
      case Panic => Panic
      case Ok(d') => ReceiveAll(d', queue[1..])
  }

  /** Peer A takes a step. */
  function Act(s: System, action: Action): Outcome<System> {
    match action
    case Press(key, clock) =>
      if s.a.doc == [] then Panic else
      (match HandleKey(s.a, s.idA, clock, key)
       case Panic => Panic
       case Ok(r) => Ok(s.(a := r.replica, toB := Send(s.toB, r.broadcast))))
    case Jump(target) =>
      if target == ZERO_ID || (|s.a.doc| > 0 && exists n :: n in VisibleNodes(s.a.doc) && n.id == target)
      then Ok(s.(a := s.a.(cursor := target))) else Ok(s)
    case Deliver =>
      if s.toA == [] then Ok(s) else
      (match Receive(s.a.doc, s.toA[0])
       case Panic => Panic
       case Ok(d) => Ok(s.(a := s.a.(doc := d), toA := s.toA[1..])))
  }

  function Step(s: System, e: Event): Outcome<System> {
    match e.side
    case SideA => Act(s, e.action)
    case SideB => match Act(Mirror(s), e.action) case Panic => Panic case Ok(s') => Ok(Mirror(s'))
  }

  function Run(s: System, events: seq<Event>): Outcome<System>
    decreases |events|
  {
    if events == [] then Ok(s) else
      match Step(s, events[0])
      case Panic => Panic
      case Ok(s') => Run(s', events[1..])
  }

  // ---------- the invariant ----------

  /** What each peer has applied, in order, and what is still on its way to it. */
  datatype History = History(doneA: seq<Op>, doneB: seq<Op>, dueA: seq<Op>, dueB: seq<Op>)

  function MirrorHistory(h: History): History {
    History(h.doneB, h.doneA, h.dueB, h.dueA)
  }

  ghost predicate Carries(queue: seq<bytes>, ops: seq<Op>) {
    |queue| == |ops| && forall i :: 0 <= i < |ops| ==> Decode(queue[i]) == Some(ops[i])
  }

  /** Nothing minted for `id` is newer than `last`. */
  ghost predicate MintedUpTo(ops: seq<Op>, id: bytes, last: int64) {
    forall o :: o in ops && o.action.OpInsert? && o.node.id.clientID == id ==> o.node.id.timestamp <= last
  }

  ghost predicate ShortIds(ops: seq<Op>) {
    forall o :: o in ops ==> |o.node.id.clientID| <= 255
  }

  /** One peer's half of the invariant. */
  ghost predicate PeerInv(r: Replica, id: bytes, done: seq<Op>, due: seq<Op>, queue: seq<bytes>, horizon: int64) {
    && Replay(done) == Ok(r.doc)
    && Deliverable(done + due)
    && MintedUpTo(done + due, id, r.lastIssued)
    && ShortIds(done + due)
    && Carries(queue, due)
    && 0 <= r.lastIssued <= horizon
    && Has(r.doc, r.cursor)
    && |id| <= 255
  }

  ghost predicate Inv(s: System, h: History, horizon: int64) {
    && s.idA != s.idB
    && PeerInv(s.a, s.idA, h.doneA, h.dueA, s.toA, horizon)
    && PeerInv(s.b, s.idB, h.doneB, h.dueB, s.toB, horizon)
    && SameOps(h.doneA + h.dueA, h.doneB + h.dueB)
  }

  lemma InvMirror(s: System, h: History, horizon: int64)
    requires Inv(s, h, horizon)
    ensures Inv(Mirror(s), MirrorHistory(h), horizon)
  {
  }

  // ---------- admissible sequences ----------

  lemma DependencyMonotone(before: seq<Op>, after: seq<Op>, op: Op)
    requires DependencyMet(before, op) && forall o :: o in before ==> o in after
    ensures DependencyMet(after, op)
  {
  }

  ghost predicate Fresh(ops: seq<Op>, op: Op) {
    op.action.OpInsert? ==> !Inserted(ops, op.node.id)
  }

  lemma UniqueIdsExtend(ops: seq<Op>, op: Op, more: seq<Op>)
    requires UniqueIds(ops) && Fresh(ops, op) && forall o :: o in more <==> o in ops || o == op
    ensures UniqueIds(more)
  {
  }

  /** A new operation whose dependency is met may be placed anywhere after it. */
  lemma InsertOp(x: seq<Op>, op: Op, y: seq<Op>)
    requires Deliverable(x + y) && DependencyMet(x, op) && Fresh(x + y, op)
    ensures Deliverable(x + [op] + y)
    ensures forall o :: o in x + [op] + y <==> o in x + y || o == op
  {
    var ops, old' := x + [op] + y, x + y;
    assert forall o :: o in ops <==> o in old' || o == op;
    UniqueIdsExtend(old', op, ops);
    forall i | 0 <= i < |ops|
      ensures DependencyMet(ops[..i], ops[i])
    {
      if i < |x| {
        assert ops[..i] == old'[..i] && ops[i] == old'[i];
      } else if i == |x| {
        assert ops[..i] == x;
      } else {
        assert ops[i] == old'[i - 1];
        assert forall o :: o in old'[..i - 1] ==> o in ops[..i] by {
          assert ops[..i] == x + [op] + y[..i - |x| - 1];
          assert old'[..i - 1] == x + y[..i - |x| - 1];
        }
        DependencyMonotone(old'[..i - 1], ops[..i], ops[i]);
      }
    }
  }

  lemma KnownIds(done: seq<Op>)
    requires Deliverable(done)
    ensures Replay(done).Ok? && IsDoc(Replay(done).value)
    ensures forall id :: Has(Replay(done).value, id) <==> id == ZERO_ID || Inserted(done, id)
  {
    DeliverableLosesNothing(done);
    var anchors := ReplayReflects(done);
  }

  // ---------- what is dropped ----------

  /** The messages that decode. */
  function WellFormed(queue: seq<bytes>): seq<bytes> {
    if queue == [] then []
    else if Decode(queue[0]).None? then WellFormed(queue[1..])
    else [queue[0]] + WellFormed(queue[1..])
  }

  /** Malformed messages in between make no difference. */
  lemma {:induction false} GarbageIsIgnored(d: Doc, queue: seq<bytes>)
    ensures ReceiveAll(d, queue) == ReceiveAll(d, WellFormed(queue))
    decreases |queue|
  {
    hide Decode, ApplyRemote;
    if queue != [] {
      match Receive(d, queue[0])
      case Panic =>
      case Ok(d') => GarbageIsIgnored(d', queue[1..]);
    }
  }

  /** What is sent arrives behind what was in the queue; operations without an encoding are dropped. */
  lemma {:induction false} SendAppends(queue: seq<bytes>, ops: seq<Op>)
    ensures Send(queue, ops) == queue + Send([], ops)
    ensures ops != [] && Encode(ops[0]).None? ==> Send([], ops) == Send([], ops[1..])
    ensures ops != [] && Encode(ops[0]).Some? ==> Send([], ops) == [Encode(ops[0]).value] + Send([], ops[1..])
    decreases |ops|
  {
    hide Encode;
    if ops != [] {
      SendAppends(queue, ops[1..]);
      if Encode(ops[0]).Some? {
        var data := Encode(ops[0]).value;
        SendAppends(queue + [data], ops[1..]);
        SendAppends([data], ops[1..]);
        assert [] + [data] == [data];
        assert queue + [data] + Send([], ops[1..]) == queue + ([data] + Send([], ops[1..]));
      }
    }
  }

  // ---------- the steps keep the invariant ----------

  lemma SenderKeepsInv(r: Replica, r': Replica, id: bytes, done: seq<Op>, due: seq<Op>, queue: seq<bytes>,
                       horizon: int64, op: Op)
    requires PeerInv(r, id, done, due, queue, horizon)
    requires DependencyMet(done, op) && Fresh(done + due, op) && |op.node.id.clientID| <= 255
    requires op.action.OpInsert? ==> op.node.id.timestamp <= r'.lastIssued
    requires ApplyRemote(r.doc, op) == Ok(r'.doc)
    requires r.lastIssued <= r'.lastIssued <= horizon && Has(r'.doc, r'.cursor)
    ensures PeerInv(r', id, done + [op], due, queue, horizon)
    ensures forall o :: o in done + [op] + due <==> o in done + due || o == op
  {
    InsertOp(done, op, due);
    ReplayOne(done, op);
  }

  lemma ReceiverKeepsInv(r: Replica, id: bytes, done: seq<Op>, due: seq<Op>, queue: seq<bytes>,
                         horizon: int64, op: Op, data: bytes)
    requires PeerInv(r, id, done, due, queue, horizon)
    requires DependencyMet(done + due, op) && Fresh(done + due, op) && |op.node.id.clientID| <= 255
    requires op.action.OpInsert? ==> op.node.id.clientID != id
    requires Decode(data) == Some(op)
    ensures PeerInv(r, id, done, due + [op], queue + [data], horizon)
    ensures forall o :: o in done + (due + [op]) <==> o in done + due || o == op
  {
    hide Deliverable, DependencyMet, Fresh, Replay, Carries, Decode;
    var all := done + due;
    assert all + [] == all;
    InsertOp(all, op, []);
    assert all + [op] + [] == done + (due + [op]);
    Carried(queue, due, data, op);
  }

  /** A local edit: one operation, applied here at once and sent to the other side. */
  lemma LocalOp(s: System, h: History, horizon: int64, op: Op, r: Replica, data: bytes)
    requires Inv(s, h, horizon)
    requires DependencyMet(h.doneA, op) && Fresh(h.doneA + h.dueA, op) && |op.node.id.clientID| <= 255
    requires op.action.OpInsert? ==> op.node.id.clientID == s.idA && op.node.id.timestamp <= r.lastIssued
    requires ApplyRemote(s.a.doc, op) == Ok(r.doc) && Decode(data) == Some(op)
    requires s.a.lastIssued <= r.lastIssued <= horizon && Has(r.doc, r.cursor)
    ensures Inv(s.(a := r, toB := s.toB + [data]), h.(doneA := h.doneA + [op], dueB := h.dueB + [op]), horizon)
  {
    var allA, allB := h.doneA + h.dueA, h.doneB + h.dueB;
    SenderKeepsInv(s.a, r, s.idA, h.doneA, h.dueA, s.toA, horizon, op);
    assert forall o :: o in h.doneA ==> o in allA;
    DependencyMonotone(h.doneA, allB, op);
    assert Fresh(allB, op);
    assert PeerInv(s.b, s.idB, h.doneB, h.dueB, s.toB, horizon);
    ReceiverKeepsInv(s.b, s.idB, h.doneB, h.dueB, s.toB, horizon, op, data);
  }

  lemma Carried(queue: seq<bytes>, due: seq<Op>, data: bytes, op: Op)
    requires Carries(queue, due) && Decode(data) == Some(op)
    ensures Carries(queue + [data], due + [op])
  {
  }

  /** A node whose anchor is here and whose ID is new is inserted the same way locally and remotely. */
  lemma NewNode(d: Doc, prevID: NodeID, node: Node)
    requires Has(d, prevID) && !Has(d, node.id)
    ensures InsertAfter(d, prevID, node).Ok? && Has(InsertAfter(d, prevID, node).value, node.id)
    ensures ApplyRemote(d, Op(OpInsert, prevID, node)) == InsertAfter(d, prevID, node)
  {
    InsertedIds(d, Landing(d, Position(d, prevID), node.id), node);
  }

  lemma MintGrows(last: int64, clock: int64, horizon: int64)
    requires 0 <= last <= horizon && clock <= horizon < 0x7FFF_FFFF_FFFF_FFFF
    ensures last < Mint(last, clock) <= horizon + 1
  {
  }

  lemma PressRuneKeepsInv(s: System, h: History, horizon: int64, clock: int64, rune: int32) returns (h': History)
    requires Inv(s, h, horizon) && clock <= horizon && horizon < 0x7FFF_FFFF_FFFF_FFFF
    ensures InsertRune(s.a, s.idA, clock, rune).Ok?
    ensures var r := InsertRune(s.a, s.idA, clock, rune).value;
      Inv(s.(a := r.replica, toB := Send(s.toB, r.broadcast)), h', horizon + 1)
  {
    hide Deliverable, Carries, ShortIds, MintedUpTo, SameOps, Replay, Encode, Decode, Has, Inserted, InsertAfter, Mint;
    hide ApplyRemote;
    var id := NodeID(Mint(s.a.lastIssued, clock), s.idA);
    var op := Op(OpInsert, s.a.cursor, Node(id, rune, false));
    MintGrows(s.a.lastIssued, clock, horizon);
    FreshId(h.doneA + h.dueA, s.idA, s.a.lastIssued, op);
    NewOpIsKnown(s.a, h.doneA, h.dueA, op);
    NewNode(s.a.doc, s.a.cursor, op.node);
    Encodable(op);
    var r := InsertRune(s.a, s.idA, clock, rune).value;
    LocalOp(s, h, horizon + 1, op, r.replica, Encode(op).value);
    SendOne(s.toB, op);
    h' := h.(doneA := h.doneA + [op], dueB := h.dueB + [op]);
  }

  /** A new insert behind the cursor: its anchor is here, its ID is not. */
  lemma NewOpIsKnown(r: Replica, done: seq<Op>, due: seq<Op>, op: Op)
    requires Replay(done) == Ok(r.doc) && Deliverable(done + due) && ShortIds(done + due) && Has(r.doc, r.cursor)
    requires op.action.OpInsert? && op.prevID == r.cursor && op.node.id.timestamp > 0
    requires !Inserted(done + due, op.node.id)
    ensures DependencyMet(done, op) && !Has(r.doc, op.node.id) && |op.prevID.clientID| <= 255
  {
    hide Deliverable, Replay;
    PrefixIsDeliverable(done, due);
    KnownIds(done);
    CursorIsShort(done, due, r.cursor);
    assert forall o :: o in done ==> o in done + due;
  }

  lemma Encodable(op: Op)
    requires op.action.OpInsert? || op.action.OpDelete?
    requires |op.node.id.clientID| <= 255 && (op.action.OpInsert? ==> |op.prevID.clientID| <= 255)
    requires op == Transmitted(op)
    ensures Encode(op).Some? && Decode(Encode(op).value) == Some(op)
  {
    DecodeEncoded(op);
  }

  lemma SendOne(queue: seq<bytes>, op: Op)
    requires Encode(op).Some?
    ensures Send(queue, [op]) == queue + [Encode(op).value]
  {
    hide Encode;
    assert [op][1..] == [];
  }

  lemma FreshId(ops: seq<Op>, id: bytes, last: int64, op: Op)
    requires MintedUpTo(ops, id, last) && op.node.id.clientID == id && op.node.id.timestamp > last
    ensures !Inserted(ops, op.node.id)
  {
  }

  lemma CursorIsShort(done: seq<Op>, due: seq<Op>, cursor: NodeID)
    requires ShortIds(done + due) && (cursor == ZERO_ID || Inserted(done, cursor))
    ensures |cursor.clientID| <= 255
  {
    if cursor != ZERO_ID {
      var o :| o in done && Inserts(o, cursor);
      assert o in done + due;
    }
  }

  lemma BackspaceKeepsInv(s: System, h: History, horizon: int64, clock: int64) returns (h': History)
    requires Inv(s, h, horizon) && s.a.cursor != ZERO_ID
    ensures |s.a.doc| > 0 && HandleKey(s.a, s.idA, clock, KeyBackspace).Ok?
    ensures var r := HandleKey(s.a, s.idA, clock, KeyBackspace).value;
      Inv(s.(a := r.replica, toB := Send(s.toB, r.broadcast)), h', horizon)
  {
    PrefixIsDeliverable(h.doneA, h.dueA);
    KnownIds(h.doneA);
    var op := Op(OpDelete, ZERO_ID, Node(s.a.cursor, 0, false));
    MovesStayIndexed(s.a.doc, s.a.cursor);
    AppliedIds(s.a.doc, op);
    CursorIsShort(h.doneA, h.dueA, s.a.cursor);
    DecodeEncoded(op);
    var r := HandleKey(s.a, s.idA, clock, KeyBackspace).value;
    LocalOp(s, h, horizon, op, r.replica, Encode(op).value);
    assert Send(s.toB, [op]) == s.toB + [Encode(op).value];
    h' := h.(doneA := h.doneA + [op], dueB := h.dueB + [op]);
  }

  lemma CursorKeepsInv(s: System, h: History, horizon: int64, cursor: NodeID)
    requires Inv(s, h, horizon) && Has(s.a.doc, cursor)
    ensures Inv(s.(a := s.a.(cursor := cursor)), h, horizon)
  {
  }

  lemma PressKeepsInv(s: System, h: History, horizon: int64, key: Key, clock: int64) returns (h': History)
    requires Inv(s, h, horizon) && clock <= horizon && horizon < 0x7FFF_FFFF_FFFF_FFFF
    ensures Act(s, Press(key, clock)).Ok? && Inv(Act(s, Press(key, clock)).value, h', horizon + 1)
  {
    h' := h;
    PrefixIsDeliverable(h.doneA, h.dueA);
    KnownIds(h.doneA);
    MovesStayIndexed(s.a.doc, s.a.cursor);
    match key
    case KeyLeft => CursorKeepsInv(s, h, horizon + 1, PrevVisible(s.a.doc, s.a.cursor));
    case KeyRight => CursorKeepsInv(s, h, horizon + 1, NextVisible(s.a.doc, s.a.cursor));
    case KeyBackspace =>
      if s.a.cursor != ZERO_ID {
        h' := BackspaceKeepsInv(s, h, horizon + 1, clock);
      }
    case KeyEnter => h' := PressRuneKeepsInv(s, h, horizon, clock, NEWLINE);
    case KeyRune(rune) => h' := PressRuneKeepsInv(s, h, horizon, clock, rune);
    case KeyOther =>
  }

  lemma JumpKeepsInv(s: System, h: History, horizon: int64, target: NodeID)
    requires Inv(s, h, horizon)
    ensures Act(s, Jump(target)).Ok? && Inv(Act(s, Jump(target)).value, h, horizon)
  {
    PrefixIsDeliverable(h.doneA, h.dueA);
    KnownIds(h.doneA);
    if Act(s, Jump(target)).value != s && target != ZERO_ID {
      VisibleIsKnown(s.a.doc, target);
    }
  }

  lemma VisibleIsKnown(d: Doc, id: NodeID)
    requires |d| > 0 && exists n :: n in VisibleNodes(d) && n.id == id
    ensures Has(d, id)
  {
    LivingFrom(d[1..]);
    var n :| n in VisibleNodes(d) && n.id == id;
    var k :| 0 <= k < |d[1..]| && d[1..][k] == n;
    assert d[k + 1].id == id;
  }

  /** The head of the queue decodes, and what it refers to is already here. */
  ghost predicate HeadIsKnown(d: Doc, queue: seq<bytes>) {
    queue == [] ||
    match Decode(queue[0])
    case None => false
    case Some(op) =>
      match op.action
      case OpInsert => Has(d, op.prevID)
      case OpDelete => Has(d, op.node.id)
      case OpUnknown => false
  }

  /** Applying the next admissible operation: it finds what it refers to, and nothing is forgotten. */
  lemma NextApplies(d: Doc, done: seq<Op>, op: Op)
    requires Replay(done) == Ok(d) && Deliverable(done + [op])
    ensures ApplyRemote(d, op).Ok? && Replay(done + [op]) == ApplyRemote(d, op)
    ensures op.action.OpInsert? ==> Has(d, op.prevID)
    ensures op.action.OpDelete? ==> Has(d, op.node.id)
    ensures forall id :: Has(d, id) ==> Has(ApplyRemote(d, op).value, id)
  {
    hide DependenciesMet, UniqueIds, Replay, ApplyRemote;
    PrefixIsDeliverable(done, [op]);
    KnownIds(done);
    KnownIds(done + [op]);
    ReplayOne(done, op);
    AppliedIds(d, op);
  }

  lemma DeliverKeepsInv(s: System, h: History, horizon: int64) returns (h': History)
    requires Inv(s, h, horizon)
    ensures HeadIsKnown(s.a.doc, s.toA)
    ensures Act(s, Deliver).Ok? && Inv(Act(s, Deliver).value, h', horizon)
  {
    hide Deliverable, MintedUpTo, ShortIds, SameOps, Replay, ApplyRemote, Decode, Has;
    h' := h;
    if s.toA != [] {
      var op, rest := h.dueA[0], h.dueA[1..];
      assert h.doneA + h.dueA == (h.doneA + [op]) + rest;
      PrefixIsDeliverable(h.doneA + [op], rest);
      NextApplies(s.a.doc, h.doneA, op);
      DecodedActions(s.toA[0]);
      h' := h.(doneA := h.doneA + [op], dueA := rest);
    }
  }

  lemma DecodedActions(data: bytes)
    ensures Decode(data).Some? ==> !Decode(data).value.action.OpUnknown?
  {
  }

  lemma ActKeepsInv(s: System, h: History, horizon: int64, action: Action) returns (h': History)
    requires Inv(s, h, horizon) && horizon < 0x7FFF_FFFF_FFFF_FFFF
    requires action.Press? ==> action.clock <= horizon
    ensures Act(s, action).Ok? && Inv(Act(s, action).value, h', horizon + 1)
  {
    match action
    case Press(key, clock) => h' := PressKeepsInv(s, h, horizon, key, clock);
    case Jump(target) => JumpKeepsInv(s, h, horizon, target); h' := h;
    case Deliver => h' := DeliverKeepsInv(s, h, horizon);
  }

  // ---------- whole runs ----------

  /** Only key presses read the clock. */
  function Clocks(events: seq<Event>): seq<int64> {
    seq(|events|, i requires 0 <= i < |events| => if events[i].action.Press? then events[i].action.clock else 0)
  }

  lemma {:induction false} RunKeepsInv(s: System, h: History, horizon: int64, events: seq<Event>) returns (h': History)
    requires Inv(s, h, horizon) && ClocksBelow(Clocks(events), horizon)
    ensures Run(s, events).Ok? && Inv(Run(s, events).value, h', horizon + |events|)
    decreases |events|
  {
    h' := h;
    if events != [] {
      var e := events[0];
      assert Clocks(events)[0] <= horizon;
      assert forall i :: 0 <= i < |events[1..]| ==> Clocks(events[1..])[i] == Clocks(events)[i + 1];
      match e.side {
        case SideA =>
          h' := ActKeepsInv(s, h, horizon, e.action);
        case SideB =>
          InvMirror(s, h, horizon);
          h' := ActKeepsInv(Mirror(s), MirrorHistory(h), horizon, e.action);
          InvMirror(Act(Mirror(s), e.action).value, h', horizon + 1);
          h' := MirrorHistory(h');
      }
      h' := RunKeepsInv(Step(s, e).value, h', horizon + 1, events[1..]);
    }
  }

  lemma {:induction false} ReceiveAllIsReplay(done: seq<Op>, due: seq<Op>, queue: seq<bytes>)
    requires Carries(queue, due) && Replay(done).Ok?
    ensures ReceiveAll(Replay(done).value, queue) == Replay(done + due)
    decreases |due|
  {
    hide Decode, ApplyRemote;
    if due == [] {
      assert done + due == done;
    } else {
      ReplayOne(done, due[0]);
      assert done + due == done + [due[0]] + due[1..];
      if Replay(done + [due[0]]).Ok? {
        ReceiveAllIsReplay(done + [due[0]], due[1..], queue[1..]);
      } else {
        ApplyAllAppend(EMPTY, done + [due[0]], due[1..]);
      }
    }
  }

  /** In every reachable state the cursors are known, the next delivery neither panics nor is lost,
      and delivering whatever is in flight makes the two documents identical. */
  ghost predicate Safe(s: System) {
    && Has(s.a.doc, s.a.cursor) && Has(s.b.doc, s.b.cursor)
    && HeadIsKnown(s.a.doc, s.toA) && HeadIsKnown(s.b.doc, s.toB)
    && ReceiveAll(s.a.doc, s.toA).Ok?
    && ReceiveAll(s.a.doc, s.toA) == ReceiveAll(s.b.doc, s.toB)
  }

  lemma InvIsSafe(s: System, h: History, horizon: int64)
    requires Inv(s, h, horizon)
    ensures Safe(s)
  {
    var hA := DeliverKeepsInv(s, h, horizon);
    InvMirror(s, h, horizon);
    var hB := DeliverKeepsInv(Mirror(s), MirrorHistory(h), horizon);
    ReceiveAllIsReplay(h.doneA, h.dueA, s.toA);
    ReceiveAllIsReplay(h.doneB, h.dueB, s.toB);
    OrderDoesNotMatter(h.doneA + h.dueA, h.doneB + h.dueB);
  }

  lemma TwoPeersAreSafe(idA: bytes, idB: bytes, events: seq<Event>, horizon: int64)
    requires idA != idB && |idA| <= 255 && |idB| <= 255 && ClocksBelow(Clocks(events), horizon)
    ensures Run(Start(idA, idB), events).Ok? && Safe(Run(Start(idA, idB), events).value)
  {
    var h := History([], [], [], []);
    assert EMPTY[0].id == ZERO_ID;
    h := RunKeepsInv(Start(idA, idB), h, horizon, events);
    InvIsSafe(Run(Start(idA, idB), events).value, h, horizon + |events|);
  }

  /** Once nothing is in flight the replicas hold the same cells, tombstones and visible text. */
  lemma TwoPeersConverge(idA: bytes, idB: bytes, events: seq<Event>, horizon: int64)
    requires idA != idB && |idA| <= 255 && |idB| <= 255 && ClocksBelow(Clocks(events), horizon)
    ensures var r := Run(Start(idA, idB), events);
      r.Ok? && (r.value.toA == [] && r.value.toB == [] ==> r.value.a.doc == r.value.b.doc)
  {
    TwoPeersAreSafe(idA, idB, events, horizon);
  }
}
