/** The wire format of an operation. */
module OpCodec {
  import opened Bytes
  import opened Outcomes
  import opened Rga
  import opened Convergence

  const TAG_INSERT: byte := 1
  const TAG_DELETE: byte := 2

  // ---------- two's complement ----------

  function ToUint64(x: int64): nat { if x < 0 then x + 0x1_0000_0000_0000_0000 else x }

  function ToInt64(u: nat): int64
    requires u < 0x1_0000_0000_0000_0000
  {
    if u < 0x8000_0000_0000_0000 then u else u - 0x1_0000_0000_0000_0000
  }

  function ToUint32(x: int32): nat { if x < 0 then x + 0x1_0000_0000 else x }

  function ToInt32(u: nat): int32
    requires u < 0x1_0000_0000
  {
    if u < 0x8000_0000 then u else u - 0x1_0000_0000
  }

  // ---------- node IDs ----------

  /** `appendNodeID`; the length is cut down to one byte. */
  function EncodeID(id: NodeID): bytes {
    BigEndian(8, ToUint64(id.timestamp)) + [|id.clientID| % 256] + id.clientID
  }

  /** `readNodeID`: the ID and how many bytes it took. */
  function ReadID(data: bytes): (r: Option<(NodeID, nat)>)
    ensures r.Some? ==> r.value.1 <= |data|
  {
    if |data| < 9 || |data| < 9 + data[8] as int then None
    else
      FromBigEndianRoundTrip(data[..8]); Powers();
      Some((NodeID(ToInt64(FromBigEndian(data[..8])), data[9..9 + data[8] as int]), 9 + data[8] as int))
  }

  lemma ReadEncodedID(id: NodeID, rest: bytes)
    requires |id.clientID| <= 255
    ensures ReadID(EncodeID(id) + rest) == Some((id, |EncodeID(id)|))
  {
    var data := EncodeID(id) + rest;
    BigEndianRoundTrip(8, ToUint64(id.timestamp));
    Powers();
    assert data[..8] == BigEndian(8, ToUint64(id.timestamp));
    assert data[9..9 + data[8] as int] == id.clientID;
  }

  lemma EncodeReadID(data: bytes)
    requires ReadID(data).Some?
    ensures var (id, n) := ReadID(data).value;
      |id.clientID| <= 255 && data[..n] == EncodeID(id)
  {
    FromBigEndianRoundTrip(data[..8]);
    Powers();
    var (id, n) := ReadID(data).value;
    assert data[..n] == data[..8] + [data[8]] + data[9..n];
  }

  // ---------- operations ----------

  /** `MarshalBinary`; None for its errors. */
  function Encode(op: Op): Option<bytes> {
    match op.action
    case OpInsert =>
      if |op.prevID.clientID| > 255 || |op.node.id.clientID| > 255 then None
      else Some([TAG_INSERT] + EncodeID(op.prevID) + EncodeID(op.node.id) + BigEndian(4, ToUint32(op.node.rune)))
    case OpDelete =>
      if |op.node.id.clientID| > 255 then None else Some([TAG_DELETE] + EncodeID(op.node.id))
    case OpUnknown => None
  }

  /** `UnmarshalBinary`; None is ErrMalformedOp. */
  function Decode(data: bytes): Option<Op> {
    if |data| < 1 then None
    else if data[0] == TAG_INSERT then
      match ReadID(data[1..])
      case None => None
      case Some((prev, n)) =>
        var rest := data[1..][n..];
        match ReadID(rest)
        case None => None
        case Some((id, m)) => DecodeInsert(prev, id, rest[m..])
    else if data[0] == TAG_DELETE then
      match ReadID(data[1..])
      case None => None
      case Some((id, n)) => if n != |data| - 1 then None else Some(Op(OpDelete, ZERO_ID, Node(id, 0, false)))
    else None
  }

  function DecodeInsert(prev: NodeID, id: NodeID, rest: bytes): Option<Op> {
    if |rest| != 4 then None
    else
      FromBigEndianRoundTrip(rest); Powers();
      Some(Op(OpInsert, prev, Node(id, ToInt32(FromBigEndian(rest)), false)))
  }

  /** The operation with everything that is not transmitted set to zero. */
  function Transmitted(op: Op): Op {
    match op.action
    case OpInsert => op.(node := op.node.(tombstone := false))
    case OpDelete => Op(OpDelete, ZERO_ID, Node(op.node.id, 0, false))
    case OpUnknown => op
  }

  /** The bytes of an ID: timestamp as 64-bit two's complement, one length byte, client ID. */
  ghost predicate LaidOut(data: bytes, id: NodeID) {
    |id.clientID| <= 255 &&
    data == BigEndian(8, id.timestamp % 0x1_0000_0000_0000_0000) + [|id.clientID|] + id.clientID
  }

  /** The message, byte by byte, and the operations that have none. */
  lemma Layout(op: Op)
    ensures Encode(op).Some? <==>
      !op.action.OpUnknown? && |op.node.id.clientID| <= 255 && (op.action.OpInsert? ==> |op.prevID.clientID| <= 255)
    ensures Encode(op).Some? && op.action.OpDelete? ==>
      exists a :: LaidOut(a, op.node.id) && Encode(op).value == [2] + a
    ensures Encode(op).Some? && op.action.OpInsert? ==>
      exists a, b :: LaidOut(a, op.prevID) && LaidOut(b, op.node.id) &&
        Encode(op).value == [1] + a + b + BigEndian(4, op.node.rune % 0x1_0000_0000)
  {
    hide BigEndian;
    if Encode(op).Some? {
      assert LaidOut(EncodeID(op.node.id), op.node.id);
      assert op.action.OpInsert? ==> LaidOut(EncodeID(op.prevID), op.prevID);
    }
  }

  lemma DecodeEncoded(op: Op)
    requires Encode(op).Some?
    ensures Decode(Encode(op).value) == Some(Transmitted(op))
  {
    hide EncodeID, ReadID, BigEndian, FromBigEndian;
    var data := Encode(op).value;
    match op.action
    case OpInsert =>
      var tail := BigEndian(4, ToUint32(op.node.rune));
      BigEndianRoundTrip(4, ToUint32(op.node.rune));
      Powers();
      ReadEncodedID(op.node.id, tail);
      ReadEncodedID(op.prevID, EncodeID(op.node.id) + tail);
      assert data[1..] == EncodeID(op.prevID) + (EncodeID(op.node.id) + tail);
      assert data[1..][|EncodeID(op.prevID)|..] == EncodeID(op.node.id) + tail;
      assert (EncodeID(op.node.id) + tail)[|EncodeID(op.node.id)|..] == tail;
    case OpDelete =>
      ReadEncodedID(op.node.id, []);
      assert data[1..] == EncodeID(op.node.id) + [];
  }

  lemma EncodeDecoded(data: bytes)
    requires Decode(data).Some?
    ensures Encode(Decode(data).value) == Some(data)
  {
    EncodeReadID(data[1..]);
    var (first, n) := ReadID(data[1..]).value;
    if data[0] == TAG_INSERT {
      var rest := data[1..][n..];
      EncodeReadID(rest);
      var (id, m) := ReadID(rest).value;
      FromBigEndianRoundTrip(rest[m..]);
      Powers();
      assert BigEndian(4, ToUint32(Decode(data).value.node.rune)) == rest[m..];
      assert data == [data[0]] + data[1..][..n] + rest[..m] + rest[m..];
    } else {
      assert data == [data[0]] + data[1..][..n];
    }
  }

  /** No two different transmitted operations share an encoding. */
  lemma EncodingIsInjective(a: Op, b: Op)
    requires Encode(a).Some? && Encode(a) == Encode(b)
    ensures Transmitted(a) == Transmitted(b)
  {
    DecodeEncoded(a);
    DecodeEncoded(b);
  }

  /** The variable that `UnmarshalBinary` assigns through its receiver. */
  class OpVariable {
    var op: Op

    constructor (op: Op)
      ensures this.op == op
    {
      this.op := op;
    }

    method UnmarshalBinary(data: bytes) returns (malformed: bool)
      modifies this
      ensures malformed <==> Decode(data).None?
      ensures op == if malformed then old(op) else Decode(data).value
    {
      if |data| < 1 {
        return true;
      }
      if data[0] == TAG_INSERT {
        var rest := data[1..];
        var prev := ReadID(rest);
        if prev.None? {
          return true;
        }
        rest := rest[prev.value.1..];
        var id := ReadID(rest);
        if id.None? {
          return true;
        }
        rest := rest[id.value.1..];
        if |rest| != 4 {
          return true;
        }
        FromBigEndianRoundTrip(rest);
        Powers();
        op := Op(OpInsert, prev.value.0, Node(id.value.0, ToInt32(FromBigEndian(rest)), false));
        return false;
      }
      if data[0] == TAG_DELETE {
        var id := ReadID(data[1..]);
        if id.None? || id.value.1 != |data| - 1 {
          return true;
        }
        op := Op(OpDelete, ZERO_ID, Node(id.value.0, 0, false));
        return false;
      }
      return true;
    }
  }

  method AppendNodeID(buf: bytes, id: NodeID) returns (out: bytes)
    ensures out == buf + EncodeID(id)
  {
    out := buf + BigEndian(8, ToUint64(id.timestamp));
    out := out + [|id.clientID| % 256];
    out := out + id.clientID;
  }

  method MarshalBinary(op: Op) returns (r: Option<bytes>)
    ensures r == Encode(op)
  {
    match op.action
    case OpInsert =>
      if |op.prevID.clientID| > 255 || |op.node.id.clientID| > 255 {
        return None;
      }
      var buf := [TAG_INSERT];
      buf := AppendNodeID(buf, op.prevID);
      buf := AppendNodeID(buf, op.node.id);
      buf := buf + BigEndian(4, ToUint32(op.node.rune));
      return Some(buf);
    case OpDelete =>
      if |op.node.id.clientID| > 255 {
        return None;
      }
      var buf := [TAG_DELETE];
      buf := AppendNodeID(buf, op.node.id);
      return Some(buf);
    case OpUnknown =>
      return None;
  }
}
