/** Key presses: the edit each one makes, the cursor it leaves and the operation it broadcasts. */
module Editor {
  import opened Bytes
  import opened Outcomes
  import opened Rga
  import opened RgaHeap
  import opened Convergence

  const NEWLINE: int32 := 10

  datatype Key = KeyLeft | KeyRight | KeyBackspace | KeyEnter | KeyRune(rune: int32) | KeyOther

  /** A peer's document, its uniqueness guard, and the node its cursor stands behind. */
  datatype Replica = Replica(doc: Doc, lastIssued: int64, cursor: NodeID)

  datatype Reaction = Reaction(replica: Replica, broadcast: seq<Op>)

  function Search(s: seq<Node>, id: NodeID): (r: Option<nat>)
    ensures r.Some? ==> r.value < |s| && s[r.value].id == id
    ensures r.None? ==> forall i :: 0 <= i < |s| ==> s[i].id != id
  {
    if s == [] then None
    else if s[0].id == id then Some(0)
    else match Search(s[1..], id) case None => None case Some(i) => Some(i + 1)
  }

  function PrevVisible(d: Doc, cursor: NodeID): NodeID
    requires |d| > 0
  {
    var visible := VisibleNodes(d);
    if cursor == ZERO_ID then ZERO_ID
    else match Search(visible, cursor)
      case None => ZERO_ID
      case Some(i) => if i == 0 then ZERO_ID else visible[i - 1].id
  }

  function NextVisible(d: Doc, cursor: NodeID): NodeID
    requires |d| > 0
  {
    var visible := VisibleNodes(d);
    if visible == [] then cursor
    else if cursor == ZERO_ID then visible[0].id
    else match Search(visible, cursor)
      case None => cursor
      case Some(i) => if i + 1 < |visible| then visible[i + 1].id else cursor
  }

  function InsertRune(r: Replica, clientID: bytes, clock: int64, rune: int32): Outcome<Reaction> {
    var id := NodeID(Mint(r.lastIssued, clock), clientID);
    var node := Node(id, rune, false);
    match InsertAfter(r.doc, r.cursor, node)
    case Panic => Panic
    case Ok(d) => Ok(Reaction(Replica(d, id.timestamp, id), [Op(OpInsert, r.cursor, node)]))
  }

  /** No clock reading, and no timestamp bumped past it, reaches the end of int64. */
  ghost predicate ClocksBelow(clocks: seq<int64>, horizon: int64) {
    && 0 <= horizon && horizon + |clocks| <= 0x7FFF_FFFF_FFFF_FFFF
    && forall i :: 0 <= i < |clocks| ==> clocks[i] <= horizon
  }

  function HandleKey(r: Replica, clientID: bytes, clock: int64, key: Key): Outcome<Reaction>
    requires |r.doc| > 0
  {
    match key
    case KeyLeft => Ok(Reaction(r.(cursor := PrevVisible(r.doc, r.cursor)), []))
    case KeyRight => Ok(Reaction(r.(cursor := NextVisible(r.doc, r.cursor)), []))
    case KeyBackspace =>
      if r.cursor == ZERO_ID then Ok(Reaction(r, []))
      else Ok(Reaction(Replica(Delete(r.doc, r.cursor), r.lastIssued, PrevVisible(r.doc, r.cursor)),
                       [Op(OpDelete, ZERO_ID, Node(r.cursor, 0, false))]))
    case KeyEnter => InsertRune(r, clientID, clock, NEWLINE)
    case KeyRune(rune) => InsertRune(r, clientID, clock, rune)
    case KeyOther => Ok(Reaction(r, []))
  }

  // ---------- the same over the linked cells ----------

  lemma {:induction false} FirstMatch(s: seq<Node>, i: nat)
    requires i < |s| && forall j :: 0 <= j < i ==> s[j].id != s[i].id
    ensures Search(s, s[i].id) == Some(i)
  {
    if i > 0 {
      assert s[1..][i - 1] == s[i];
      FirstMatch(s[1..], i - 1);
    }
  }

  method FindPrevVisible(rga: RGA, cursor: NodeID) returns (r: NodeID)
    requires rga.Valid()
    ensures r == PrevVisible(rga.contents, cursor)
  {
    if cursor == ZERO_ID {
      return cursor;
    }
    var visible := rga.VisibleNodes();
    for i := 0 to |visible|
      invariant forall j :: 0 <= j < i ==> visible[j].id != cursor
    {
      if visible[i].id == cursor {
        FirstMatch(visible, i);
        if i == 0 {
          return ZERO_ID;
        }
        return visible[i - 1].id;
      }
    }
    return ZERO_ID;
  }

  method FindNextVisible(rga: RGA, cursor: NodeID) returns (r: NodeID)
    requires rga.Valid()
    ensures r == NextVisible(rga.contents, cursor)
  {
    var visible := rga.VisibleNodes();
    if |visible| == 0 {
      return cursor;
    }
    if cursor == ZERO_ID {
      return visible[0].id;
    }
    VisibleDistinct(rga.contents);
    for i := 0 to |visible|
      invariant forall j :: 0 <= j < i && j + 1 < |visible| ==> visible[j].id != cursor
    {
      if visible[i].id == cursor && i + 1 < |visible| {
        FirstMatch(visible, i);
        return visible[i + 1].id;
      }
    }
    return cursor;
  }

  /** Types a character. An ID that is in use already leaves the replica with an ambiguous index. */
  method PressRune(rga: RGA, rune: int32, clientID: bytes, clock: int64, cursor: NodeID)
    returns (panicked: bool, newCursor: NodeID, broadcast: seq<Op>)
    requires rga.Valid()
    modifies rga, rga.cells
    ensures rga.Linked() && (rga.Valid() <==> panicked || newCursor !in old(rga.index))
    ensures newCursor == NodeID(Mint(old(rga.lastIssued), clock), clientID)
    ensures Matches(rga, panicked, newCursor, broadcast,
                    InsertRune(Replica(old(rga.contents), old(rga.lastIssued), cursor), clientID, clock, rune))
  {
    hide Mint, Landing, rga.Linked, rga.Valid;
    panicked, newCursor := rga.Insert(cursor, rune, clientID, clock);
    broadcast := [Op(OpInsert, cursor, Node(newCursor, rune, false))];
  }

  /** The linked cells, the new cursor and the broadcasts are what the value model says. */
  ghost predicate Matches(rga: RGA, panicked: bool, newCursor: NodeID, broadcast: seq<Op>, after: Outcome<Reaction>)
    reads rga
  {
    (panicked <==> after.Panic?) &&
    (!panicked ==> Reaction(Replica(rga.contents, rga.lastIssued, newCursor), broadcast) == after.value)
  }

  predicate Inserting(key: Key) {
    key.KeyEnter? || key.KeyRune?
  }

  method Press(rga: RGA, key: Key, clientID: bytes, clock: int64, cursor: NodeID)
    returns (panicked: bool, newCursor: NodeID, broadcast: seq<Op>)
    requires rga.Valid()
    modifies rga, rga.cells
    ensures rga.Linked()
    ensures rga.Valid() <==>
      !Inserting(key) || panicked || NodeID(Mint(old(rga.lastIssued), clock), clientID) !in old(rga.index)
    ensures |old(rga.contents)| > 0
    ensures Matches(rga, panicked, newCursor, broadcast,
                    HandleKey(Replica(old(rga.contents), old(rga.lastIssued), cursor), clientID, clock, key))
  {
    hide Mint, InsertRune, PrevVisible, NextVisible, Rga.Delete, IndexOf, IsDoc;
    panicked, newCursor, broadcast := false, cursor, [];
    match key
    case KeyLeft => newCursor := FindPrevVisible(rga, cursor);
    case KeyRight => newCursor := FindNextVisible(rga, cursor);
    case KeyBackspace =>
      if cursor != ZERO_ID {
        newCursor := FindPrevVisible(rga, cursor);
        rga.Delete(cursor);
        broadcast := [Op(OpDelete, ZERO_ID, Node(cursor, 0, false))];
      }
    case KeyEnter => panicked, newCursor, broadcast := PressRune(rga, NEWLINE, clientID, clock, cursor);
    case KeyRune(rune) => panicked, newCursor, broadcast := PressRune(rga, rune, clientID, clock, cursor);
    case KeyOther =>
  }

  method Receive(rga: RGA, op: Op) returns (panicked: bool)
    requires rga.Valid()
    modifies rga, rga.cells
    ensures rga.Valid() && rga.lastIssued == old(rga.lastIssued)
    ensures var after := ApplyRemote(old(rga.contents), op);
      (panicked <==> after.Panic?) && rga.contents == if panicked then old(rga.contents) else after.value
  {
    panicked := false;
    match op.action
    case OpInsert => panicked := rga.RemoteInsert(op.prevID, op.node);
    case OpDelete => rga.Delete(op.node.id);
    case OpUnknown =>
  }

  // ---------- visible nodes by position ----------

  lemma {:induction false} LivingAppend(a: seq<Node>, b: seq<Node>)
    ensures Living(a + b) == Living(a) + Living(b)
    decreases |a|
  {
    if a == [] {
      assert a + b == b;
    } else {
      assert (a + b)[0] == a[0] && (a + b)[1..] == a[1..] + b;
      LivingAppend(a[1..], b);
      if !a[0].tombstone {
        assert [a[0]] + (Living(a[1..]) + Living(b)) == [a[0]] + Living(a[1..]) + Living(b);
      }
    }
  }

  lemma {:induction false} LivingFrom(s: seq<Node>)
    ensures forall n :: n in Living(s) <==> n in s && !n.tombstone
    decreases |s|
  {
    if s != [] {
      LivingFrom(s[1..]);
      assert forall n :: n in s <==> n == s[0] || n in s[1..];
    }
  }

  lemma {:induction false} LivingDistinct(s: seq<Node>)
    requires Distinct(s)
    ensures Distinct(Living(s))
    decreases |s|
  {
    if s != [] {
      LivingDistinct(s[1..]);
      LivingFrom(s[1..]);
      var v := Living(s);
      if !s[0].tombstone {
        assert v[1..] == Living(s[1..]);
        forall j | 0 < j < |v|
          ensures v[j].id != v[0].id
        {
          assert v[j] in Living(s[1..]);
          var k :| 0 <= k < |s[1..]| && s[1..][k] == v[j];
          assert s[k + 1] == v[j];
        }
        forall i, j | 0 <= i < j < |v|
          ensures v[i].id != v[j].id
        {
          if i > 0 {
            assert v[i] == v[1..][i - 1] && v[j] == v[1..][j - 1];
          }
        }
      }
    }
  }

  lemma VisibleDistinct(d: Doc)
    requires IsDoc(d)
    ensures Distinct(VisibleNodes(d))
  {
    LivingDistinct(d[1..]);
  }

  /** A visible cell splits the visible nodes into those before and those after it. */
  lemma VisibleAround(d: Doc, p: nat)
    requires IsDoc(d) && 1 <= p < |d| && !d[p].tombstone
    ensures VisibleNodes(d) == Living(d[1..p]) + [d[p]] + Living(d[p + 1..])
    ensures Search(VisibleNodes(d), d[p].id) == Some(|Living(d[1..p])|)
  {
    SplitLiving(d, p);
    VisibleDistinct(d);
    FirstMatch(VisibleNodes(d), |Living(d[1..p])|);
  }

  lemma SplitLiving(d: Doc, p: nat)
    requires 1 <= p < |d| && !d[p].tombstone
    ensures VisibleNodes(d) == Living(d[1..p]) + [d[p]] + Living(d[p + 1..])
  {
    var rest := d[p..];
    assert d[1..] == d[1..p] + rest;
    LivingAppend(d[1..p], rest);
    assert rest[0] == d[p] && rest[1..] == d[p + 1..];
  }

  /** Every place a cursor key can lead to is zero or a known node. */
  lemma MovesStayIndexed(d: Doc, cursor: NodeID)
    requires IsDoc(d) && Has(d, cursor)
    ensures Has(d, PrevVisible(d, cursor)) && Has(d, NextVisible(d, cursor))
  {
    LivingFrom(d[1..]);
    var v := VisibleNodes(d);
    assert Has(d, ZERO_ID) by { assert d[0].id == ZERO_ID; }
    forall i | 0 <= i < |v|
      ensures Has(d, v[i].id)
    {
      assert v[i] in v;
      var k :| 0 <= k < |d[1..]| && d[1..][k] == v[i];
      assert d[k + 1].id == v[i].id;
    }
  }
}
