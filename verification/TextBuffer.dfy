/** A peer that edits alone: the replicated array behaves as a plain text buffer. */
module TextBuffer {
  import opened Bytes
  import opened Outcomes
  import opened Rga
  import opened Convergence
  import opened Editor
  import RgaHeap

  /** The runes before and after the cursor. */
  datatype Text = Text(before: seq<int32>, after: seq<int32>)

  function Type(t: Text, key: Key): Text {
    match key
    case KeyLeft =>
      if t.before == [] then t
      else Text(t.before[..|t.before| - 1], [t.before[|t.before| - 1]] + t.after)
    case KeyRight => if t.after == [] then t else Text(t.before + [t.after[0]], t.after[1..])
    case KeyBackspace => if t.before == [] then t else Text(t.before[..|t.before| - 1], t.after)
    case KeyEnter => Text(t.before + [NEWLINE], t.after)
    case KeyRune(rune) => Text(t.before + [rune], t.after)
    case KeyOther => t
  }

  /** A key press and the wall-clock reading at that moment. */
  datatype Press = Press(key: Key, clock: int64)

  function TypeAll(t: Text, presses: seq<Press>): Text
    decreases |presses|
  {
    if presses == [] then t else TypeAll(Type(t, presses[0].key), presses[1..])
  }

  function PressAll(r: Replica, clientID: bytes, presses: seq<Press>): Outcome<Replica>
    requires |r.doc| > 0
    decreases |presses|
  {
    if presses == [] then Ok(r) else
      match HandleKey(r, clientID, presses[0].clock, presses[0].key)
      case Panic => Panic
      case Ok(reaction) => PressAll(reaction.replica, clientID, presses[1..])
  }

  /** Every node was minted here, at or before the last issued timestamp. */
  ghost predicate SingleWriter(d: Doc, clientID: bytes, lastIssued: int64) {
    forall i :: 1 <= i < |d| ==> d[i].id.clientID == clientID && 0 < d[i].id.timestamp <= lastIssued
  }

  /** The replica shows this text, with the cursor between its two halves. */
  ghost predicate Shows(r: Replica, clientID: bytes, t: Text) {
    && IsDoc(r.doc)
    && SingleWriter(r.doc, clientID, r.lastIssued)
    && Has(r.doc, r.cursor)
    && ShowsAt(r.doc, Position(r.doc, r.cursor), t)
  }

  ghost predicate ShowsAt(d: Doc, p: nat, t: Text)
    requires p < |d|
  {
    && !d[p].tombstone
    && t.before == Runes(Living(d[1..p + 1]))
    && t.after == Runes(Living(d[p + 1..]))
  }

  lemma {:induction false} RunesAppend(a: seq<Node>, b: seq<Node>)
    ensures Runes(a + b) == Runes(a) + Runes(b)
    decreases |a|
  {
    if a == [] {
      assert a + b == b;
    } else {
      assert (a + b)[0] == a[0] && (a + b)[1..] == a[1..] + b;
      RunesAppend(a[1..], b);
    }
  }

  /** A cell's contribution to the runes up to and including it. */
  lemma ThroughCell(d: Doc, p: nat)
    requires 1 <= p < |d|
    ensures Runes(Living(d[1..p + 1])) == Runes(Living(d[1..p])) + if d[p].tombstone then [] else [d[p].rune]
  {
    assert d[1..p + 1] == d[1..p] + [d[p]];
    LivingAppend(d[1..p], [d[p]]);
    RunesAppend(Living(d[1..p]), Living([d[p]]));
    assert Living([d[p]]) == if d[p].tombstone then [] else [d[p]];
  }

  lemma FromCell(d: Doc, p: nat)
    requires p < |d|
    ensures Runes(Living(d[p..])) == (if d[p].tombstone then [] else [d[p].rune]) + Runes(Living(d[p + 1..]))
  {
    RgaHeap.OneCell(d, p);
  }

  /** The last visible cell before `p`, or the sentinel. */
  lemma {:induction false} LastVisible(d: Doc, p: nat) returns (q: nat)
    requires IsDoc(d) && 1 <= p <= |d|
    ensures q < p && !d[q].tombstone
    ensures Living(d[q + 1..p]) == []
    ensures q > 0 ==> Living(d[1..p]) == Living(d[1..q]) + [d[q]]
    ensures q == 0 ==> Living(d[1..p]) == []
  {
    q := p - 1;
    if q > 0 {
      assert d[1..p] == d[1..q] + [d[q]];
      LivingAppend(d[1..q], [d[q]]);
      assert Living([d[q]]) == if d[q].tombstone then [] else [d[q]];
      if d[q].tombstone {
        q := LastVisible(d, p - 1);
        assert d[q + 1..p] == d[q + 1..p - 1] + [d[p - 1]];
        LivingAppend(d[q + 1..p - 1], [d[p - 1]]);
      }
    }
  }

  lemma SkipDead(a: seq<Node>, dead: seq<Node>, b: seq<Node>)
    requires Living(dead) == []
    ensures Living(a + dead) == Living(a) && Living(dead + b) == Living(b)
  {
    LivingAppend(a, dead);
    LivingAppend(dead, b);
  }

  /** Runes before the cursor, seen from the cursor's own cell. */
  lemma BeforeCursor(d: Doc, p: nat, q: nat)
    requires IsDoc(d) && q < p < |d| && !d[p].tombstone && !d[q].tombstone
    requires Living(d[q + 1..p]) == []
    ensures Runes(Living(d[1..p + 1])) == Runes(Living(d[1..q + 1])) + [d[p].rune]
    ensures Runes(Living(d[q + 1..])) == [d[p].rune] + Runes(Living(d[p + 1..]))
  {
    ThroughCell(d, p);
    FromCell(d, p);
    assert d[1..p] == d[1..q + 1] + d[q + 1..p];
    SkipDead(d[1..q + 1], d[q + 1..p], d[p..]);
    assert d[q + 1..] == d[q + 1..p] + d[p..];
  }

  lemma PrevVisibleIs(d: Doc, p: nat, q: nat)
    requires IsDoc(d) && q < p < |d| && !d[p].tombstone
    requires q > 0 ==> Living(d[1..p]) == Living(d[1..q]) + [d[q]]
    requires q == 0 ==> Living(d[1..p]) == []
    ensures PrevVisible(d, d[p].id) == d[q].id
  {
    VisibleAround(d, p);
    assert d[0].id != d[p].id;
  }

  lemma LeftShows(d: Doc, p: nat, t: Text)
    requires IsDoc(d) && p < |d| && ShowsAt(d, p, t)
    ensures Has(d, PrevVisible(d, d[p].id)) && ShowsAt(d, Position(d, PrevVisible(d, d[p].id)), Type(t, KeyLeft))
  {
    if p == 0 {
      PositionIs(d, 0);
      assert d[1..1] == [];
    } else {
      var q := LastVisible(d, p);
      PrevVisibleIs(d, p, q);
      BeforeCursor(d, p, q);
      PositionIs(d, q);
    }
  }

  lemma TombstonedTail(d: Doc, p: nat, q: nat)
    requires q < p < |d| && Living(d[q + 1..p]) == []
    ensures var e := d[p := d[p].(tombstone := true)];
      Living(e[q + 1..]) == Living(d[p + 1..]) && e[1..q + 1] == d[1..q + 1]
  {
    var n := d[p].(tombstone := true);
    var e := d[p := n];
    assert e[q + 1..] == d[q + 1..p] + ([n] + d[p + 1..]);
    SkipDead([], d[q + 1..p], [n] + d[p + 1..]);
    LivingAppend([n], d[p + 1..]);
  }

  lemma BackspaceShows(d: Doc, p: nat, t: Text)
    requires IsDoc(d) && 1 <= p < |d| && ShowsAt(d, p, t)
    ensures var e, c := Delete(d, d[p].id), PrevVisible(d, d[p].id);
      IsDoc(e) && Has(e, c) && ShowsAt(e, Position(e, c), Type(t, KeyBackspace))
  {
    hide PrevVisible, Living;
    var q := LastVisible(d, p);
    PrevVisibleIs(d, p, q);
    BeforeCursor(d, p, q);
    PositionIs(d, p);
    assert d[0].id != d[p].id;
    TombstonedTail(d, p, q);
    var e := Delete(d, d[p].id);
    PositionIs(e, q);
  }

  lemma {:induction false} FirstVisible(d: Doc, p: nat) returns (q: nat)
    requires p <= |d| && Living(d[p..]) != []
    ensures p <= q < |d| && !d[q].tombstone
    ensures Living(d[p..q]) == [] && Living(d[p..])[0] == d[q]
    decreases |d| - p
  {
    q := p;
    assert d[p..][1..] == d[p + 1..];
    if d[p].tombstone {
      q := FirstVisible(d, p + 1);
      assert d[p..q] == [d[p]] + d[p + 1..q];
      LivingAppend([d[p]], d[p + 1..q]);
    }
  }

  lemma NextVisibleIs(d: Doc, p: nat)
    requires IsDoc(d) && p < |d| && !d[p].tombstone
    ensures NextVisible(d, d[p].id) ==
      if Living(d[p + 1..]) == [] then d[p].id else Living(d[p + 1..])[0].id
  {
    if p > 0 {
      VisibleAround(d, p);
      assert d[0].id != d[p].id;
    }
  }

  lemma RightShows(d: Doc, p: nat, t: Text)
    requires IsDoc(d) && p < |d| && ShowsAt(d, p, t)
    ensures Has(d, NextVisible(d, d[p].id)) && ShowsAt(d, Position(d, NextVisible(d, d[p].id)), Type(t, KeyRight))
  {
    NextVisibleIs(d, p);
    PositionIs(d, p);
    if Living(d[p + 1..]) != [] {
      var q := FirstVisible(d, p + 1);
      PositionIs(d, q);
      BeforeCursor(d, q, p);
    }
  }

  /** With IDs from one writer only, the newest ID is the largest and lands right behind its anchor. */
  lemma LandsBehindAnchor(d: Doc, clientID: bytes, lastIssued: int64, p: nat, id: NodeID)
    requires SingleWriter(d, clientID, lastIssued) && p < |d|
    requires id.clientID == clientID && id.timestamp > lastIssued
    ensures Landing(d, p, id) == p + 1
  {
  }

  lemma InsertShows(r: Replica, clientID: bytes, clock: int64, rune: int32, t: Text)
    requires Shows(r, clientID, t) && 0 <= r.lastIssued < 0x7FFF_FFFF_FFFF_FFFF
    ensures InsertRune(r, clientID, clock, rune).Ok?
    ensures Shows(InsertRune(r, clientID, clock, rune).value.replica, clientID, Text(t.before + [rune], t.after))
  {
    hide Living, Runes, ShowsAt, Landing, Has, SingleWriter, InsertAt;
    var d, p := r.doc, Position(r.doc, r.cursor);
    var n := Node(NodeID(Mint(r.lastIssued, clock), clientID), rune, false);
    LandsBehindAnchor(d, clientID, r.lastIssued, p, n.id);
    NewestWrite(d, clientID, r.lastIssued, p + 1, n);
    TypedAt(d, p, n, t);
  }

  lemma NewestWrite(d: Doc, clientID: bytes, lastIssued: int64, k: nat, n: Node)
    requires IsDoc(d) && SingleWriter(d, clientID, lastIssued) && 1 <= k <= |d| && n.id.clientID == clientID
    requires 0 <= lastIssued < n.id.timestamp
    ensures !Has(d, n.id) && SingleWriter(InsertAt(d, k, n), clientID, n.id.timestamp)
  {
  }

  /** A new character directly behind the cursor's cell. */
  lemma TypedAt(d: Doc, p: nat, n: Node, t: Text)
    requires IsDoc(d) && p < |d| && ShowsAt(d, p, t) && !n.tombstone && !Has(d, n.id)
    ensures var e := InsertAt(d, p + 1, n);
      IsDoc(e) && Has(e, n.id) && Position(e, n.id) == p + 1 &&
      ShowsAt(e, p + 1, Text(t.before + [n.rune], t.after))
  {
    hide Living, Runes;
    var e := InsertAt(d, p + 1, n);
    InsertKeepsDistinct(d, p + 1, n);
    assert e[p + 1] == n;
    PositionIs(e, p + 1);
    ThroughCell(e, p + 1);
    assert e[1..p + 1] == d[1..p + 1] && e[p + 2..] == d[p + 1..];
  }

  lemma KeyShows(r: Replica, clientID: bytes, clock: int64, key: Key, t: Text)
    requires Shows(r, clientID, t) && 0 <= r.lastIssued < 0x7FFF_FFFF_FFFF_FFFF
    ensures HandleKey(r, clientID, clock, key).Ok?
    ensures Shows(HandleKey(r, clientID, clock, key).value.replica, clientID, Type(t, key))
  {
    var d, p := r.doc, Position(r.doc, r.cursor);
    match key
    case KeyLeft => LeftShows(d, p, t);
    case KeyRight => RightShows(d, p, t);
    case KeyBackspace =>
      if p > 0 {
        assert d[0].id != d[p].id;
        BackspaceShows(d, p, t);
      } else {
        assert d[1..1] == [];
      }
    case KeyEnter => InsertShows(r, clientID, clock, NEWLINE, t);
    case KeyRune(rune) => InsertShows(r, clientID, clock, rune, t);
    case KeyOther =>
  }

  function Clocks(presses: seq<Press>): seq<int64> {
    seq(|presses|, i requires 0 <= i < |presses| => presses[i].clock)
  }

  lemma {:induction false} RunShows(r: Replica, clientID: bytes, presses: seq<Press>, horizon: int64, t: Text)
    requires Shows(r, clientID, t) && 0 <= r.lastIssued <= horizon && ClocksBelow(Clocks(presses), horizon)
    ensures PressAll(r, clientID, presses).Ok?
    ensures Shows(PressAll(r, clientID, presses).value, clientID, TypeAll(t, presses))
    decreases |presses|
  {
    if presses != [] {
      var key, clock := presses[0].key, presses[0].clock;
      assert Clocks(presses)[0] <= horizon;
      KeyShows(r, clientID, clock, key, t);
      var r' := HandleKey(r, clientID, clock, key).value.replica;
      assert forall i :: 0 <= i < |presses[1..]| ==> Clocks(presses[1..])[i] == Clocks(presses)[i + 1];
      RunShows(r', clientID, presses[1..], horizon + 1, Type(t, key));
    }
  }

  /** Whatever is typed, the replica never panics and shows exactly what a text buffer would. */
  lemma OfflineEditingIsPlainText(clientID: bytes, presses: seq<Press>, horizon: int64)
    requires ClocksBelow(Clocks(presses), horizon)
    ensures var r := PressAll(Replica(EMPTY, 0, ZERO_ID), clientID, presses);
      var t := TypeAll(Text([], []), presses);
      r.Ok? && IsDoc(r.value.doc) && Values(r.value.doc) == t.before + t.after
  {
    var r := Replica(EMPTY, 0, ZERO_ID);
    assert EMPTY[0].id == ZERO_ID;
    assert EMPTY[1..] == [];
    RunShows(r, clientID, presses, horizon, Text([], []));
    var d := PressAll(r, clientID, presses).value.doc;
    var p := Position(d, PressAll(r, clientID, presses).value.cursor);
    assert d[1..] == d[1..p + 1] + d[p + 1..];
    LivingAppend(d[1..p + 1], d[p + 1..]);
    RunesAppend(Living(d[1..p + 1]), Living(d[p + 1..]));
  }
}
