/** The bytes of a table file. */
module TableFormat {
  import opened Bytes
  import opened Outcomes

  datatype Entry = Entry(key: bytes, value: bytes)

  /** A four-byte length, cut down to 32 bits, followed by the bytes themselves. */
  function EncodeField(s: bytes): (r: bytes)
    ensures |r| == 4 + |s|
  {
    BigEndian(4, |s|) + s
  }

  function EncodeEntry(e: Entry): bytes {
    EncodeField(e.key) + EncodeField(e.value)
  }

  /** What `flush` writes. */
  function EncodeTable(es: seq<Entry>): bytes {
    if es == [] then [] else EncodeEntry(es[0]) + EncodeTable(es[1..])
  }

  /** io.EOF is told apart from every other error. */
  datatype Read = Field(s: bytes, rest: bytes) | EndOfFile | Broken

  /** `readField`: io.EOF also when the file ends right behind a non-zero length. */
  function ReadField(data: bytes): (r: Read)
    ensures r.Field? ==> |r.rest| + 4 + |r.s| == |data|
  {
    if |data| == 0 then EndOfFile
    else if |data| < 4 then Broken
    else
      var n, rest := FromBigEndian(data[..4]), data[4..];
      if n <= |rest| then Field(rest[..n], rest[n..])
      else if |rest| == 0 then EndOfFile
      else Broken
  }

  /** `entries` on the contents of a file. */
  function Entries(data: bytes): Result<seq<Entry>>
    decreases |data|
  {
    match ReadField(data)
    case EndOfFile => Success([])
    case Broken => Failure
    case Field(k, afterKey) =>
      match ReadField(afterKey)
      case EndOfFile => Failure
      case Broken => Failure
      case Field(v, rest) =>
        match Entries(rest)
        case Failure => Failure
        case Success(es) => Success([Entry(k, v)] + es)
  }

  /** `get` on the contents of a file: a linear scan that stops at the first larger key. */
  function Scan(data: bytes, key: bytes): Result<Option<bytes>>
    decreases |data|
  {
    match ReadField(data)
    case EndOfFile => Success(None)
    case Broken => Failure
    case Field(k, afterKey) =>
      match ReadField(afterKey)
      case EndOfFile => Failure
      case Broken => Failure
      case Field(v, rest) =>
        if k == key then Success(Some(v))
        else if Less(key, k) then Success(None)
        else Scan(rest, key)
  }

  // ---------- round trip ----------

  predicate Short(s: bytes) {
    |s| < 0x1_0000_0000
  }

  ghost predicate AllShort(es: seq<Entry>) {
    forall e :: e in es ==> Short(e.key) && Short(e.value)
  }

  /** The bytes of a table: per entry the key and then the value, each behind its length in four bytes, which keep
      the low 32 bits. */
  lemma Layout(es: seq<Entry>)
    ensures es == [] ==> EncodeTable(es) == []
    ensures es != [] ==> exists k, v ::
      LengthOf(k, |es[0].key|) && LengthOf(v, |es[0].value|) &&
      EncodeTable(es) == k + es[0].key + v + es[0].value + EncodeTable(es[1..])
  {
    if es != [] {
      var k, v := BigEndian(4, |es[0].key|), BigEndian(4, |es[0].value|);
      FourBytes(|es[0].key|);
      FourBytes(|es[0].value|);
      assert LengthOf(k, |es[0].key|) && LengthOf(v, |es[0].value|);
      assert EncodeTable(es) == k + es[0].key + v + es[0].value + EncodeTable(es[1..]);
    }
  }

  ghost predicate LengthOf(h: bytes, n: nat) {
    h == [n / 0x100_0000 % 256, n / 0x1_0000 % 256, n / 0x100 % 256, n % 256]
  }

  lemma ReadEncodedField(s: bytes, rest: bytes)
    requires Short(s)
    ensures ReadField(EncodeField(s) + rest) == Field(s, rest)
  {
    var data := EncodeField(s) + rest;
    BigEndianRoundTrip(4, |s|);
    Powers();
    assert data[..4] == BigEndian(4, |s|);
    assert data[4..] == s + rest;
  }

  lemma {:induction false} EntriesOfEncoded(es: seq<Entry>)
    requires AllShort(es)
    ensures Entries(EncodeTable(es)) == Success(es)
    decreases |es|
  {
    if es != [] {
      var rest := EncodeTable(es[1..]);
      assert es[0] in es;
      assert EncodeTable(es) == EncodeField(es[0].key) + (EncodeField(es[0].value) + rest);
      ReadEncodedField(es[0].key, EncodeField(es[0].value) + rest);
      ReadEncodedField(es[0].value, rest);
      EntriesOfEncoded(es[1..]);
      assert es == [es[0]] + es[1..];
    }
  }

  /** A readable file is the encoding of its entries, up to one dangling length header. */
  lemma {:induction false} EncodedEntries(data: bytes) returns (dangling: bytes)
    requires Entries(data).Success?
    ensures data == EncodeTable(Entries(data).value) + dangling
    ensures |dangling| == 0 || |dangling| == 4
    decreases |data|
  {
    hide EncodeField, ReadField;
    dangling := data;
    if data == [] || ReadField(data).EndOfFile? {
      ReadEndOfFile(data);
    } else {
      var r := ReadField(data);
      EncodeReadField(data);
      EncodeReadField(r.rest);
      var q := ReadField(r.rest);
      dangling := EncodedEntries(q.rest);
      var es, rest := Entries(data).value, Entries(q.rest).value;
      assert es == [Entry(r.s, q.s)] + rest && es[1..] == rest;
      Associate(EncodeField(r.s), EncodeField(q.s), EncodeTable(rest), dangling);
    }
  }

  lemma ReadEndOfFile(data: bytes)
    ensures data == [] ==> ReadField(data).EndOfFile?
    ensures ReadField(data).EndOfFile? ==> |data| == 0 || |data| == 4
  {
  }

  lemma Associate(a: bytes, b: bytes, c: bytes, d: bytes)
    ensures a + (b + (c + d)) == a + b + c + d
  {
  }

  lemma EncodeReadField(data: bytes)
    requires ReadField(data).Field?
    ensures data == EncodeField(ReadField(data).s) + ReadField(data).rest
  {
    FromBigEndianRoundTrip(data[..4]);
  }

  // ---------- truncated files ----------

  lemma ReadCutField(s: bytes, c: nat)
    requires Short(s) && c < |EncodeField(s)|
    ensures ReadField(EncodeField(s)[..c]) == if c == 0 || c == 4 then EndOfFile else Broken
  {
    if c >= 4 {
      BigEndianRoundTrip(4, |s|);
      Powers();
      assert EncodeField(s)[..c][..4] == BigEndian(4, |s|);
    }
  }

  /** The cuts that go unnoticed: between two entries, or right behind the length of a non-empty key. */
  predicate CleanCut(es: seq<Entry>, c: nat)
    decreases |es|
  {
    c == 0 || (es != [] && ((c == 4 && es[0].key != []) ||
      (c >= |EncodeEntry(es[0])| && CleanCut(es[1..], c - |EncodeEntry(es[0])|))))
  }

  /** How many entries lie entirely before the cut. */
  function Complete(es: seq<Entry>, c: nat): (n: nat)
    ensures n <= |es|
    decreases |es|
  {
    if es == [] || c < |EncodeEntry(es[0])| then 0 else 1 + Complete(es[1..], c - |EncodeEntry(es[0])|)
  }

  /** A truncated file is either rejected or yields exactly its complete entries, never a wrong one. */
  lemma {:induction false} EntriesOfCut(es: seq<Entry>, c: nat)
    requires AllShort(es) && c <= |EncodeTable(es)|
    ensures Entries(EncodeTable(es)[..c]) == if CleanCut(es, c) then Success(es[..Complete(es, c)]) else Failure
    decreases |es|
  {
    hide EncodeField, Entries;
    if es == [] || c == 0 {
      assert EncodeTable(es)[..c] == [];
      NoEntries();
    } else {
      assert es[0] in es;
      if c < |EncodeEntry(es[0])| {
        CutInFirst(es, c);
      } else {
        EntriesOfCut(es[1..], c - |EncodeEntry(es[0])|);
        CutBehindFirst(es, c);
        var n := Complete(es[1..], c - |EncodeEntry(es[0])|);
        assert es[..n + 1] == [es[0]] + es[1..][..n];
      }
    }
  }

  lemma NoEntries()
    ensures Entries([]) == Success([])
  {
  }

  lemma CutInFirst(es: seq<Entry>, c: nat)
    requires es != [] && Short(es[0].key) && Short(es[0].value)
    requires 0 < c < |EncodeEntry(es[0])|
    ensures Entries(EncodeTable(es)[..c]) == if c == 4 && es[0].key != [] then Success([]) else Failure
  {
    var key, value := EncodeField(es[0].key), EncodeField(es[0].value);
    var cut := EncodeTable(es)[..c];
    if c < |key| {
      assert cut == key[..c];
      ReadCutField(es[0].key, c);
    } else {
      assert cut == key + value[..c - |key|];
      ReadEncodedField(es[0].key, value[..c - |key|]);
      ReadCutField(es[0].value, c - |key|);
    }
  }

  lemma CutBehindFirst(es: seq<Entry>, c: nat)
    requires es != [] && Short(es[0].key) && Short(es[0].value)
    requires |EncodeEntry(es[0])| <= c <= |EncodeTable(es)|
    ensures Entries(EncodeTable(es)[..c]) ==
      match Entries(EncodeTable(es[1..])[..c - |EncodeEntry(es[0])|])
      case Failure => Failure
      case Success(rest) => Success([es[0]] + rest)
  {
    hide EncodeEntry, Entries;
    var rest := EncodeTable(es[1..])[..c - |EncodeEntry(es[0])|];
    CutAfter(EncodeEntry(es[0]), EncodeTable(es[1..]), c);
    FirstEntry(es[0], rest);
  }

  lemma CutAfter(a: bytes, b: bytes, c: nat)
    requires |a| <= c <= |a + b|
    ensures (a + b)[..c] == a + b[..c - |a|]
  {
  }

  lemma FirstEntry(e: Entry, rest: bytes)
    requires Short(e.key) && Short(e.value)
    ensures Entries(EncodeEntry(e) + rest) ==
      match Entries(rest) case Failure => Failure case Success(es) => Success([e] + es)
  {
    hide EncodeField, ReadField;
    var key, value := EncodeField(e.key), EncodeField(e.value);
    assert EncodeEntry(e) + rest == key + (value + rest);
    ReadEncodedField(e.key, value + rest);
    ReadEncodedField(e.value, rest);
  }

  // ---------- sorted tables as maps ----------

  type Table = map<bytes, bytes>

  /** The first entry of a key counts. */
  function TableMap(es: seq<Entry>): Table {
    if es == [] then map[] else TableMap(es[1..])[es[0].key := es[0].value]
  }

  ghost predicate Sorted(es: seq<Entry>) {
    forall i, j :: 0 <= i < j < |es| ==> Less(es[i].key, es[j].key)
  }

  function Lookup(m: Table, key: bytes): Option<bytes> {
    if key in m then Some(m[key]) else None
  }

  lemma {:induction false} TableMapKeys(es: seq<Entry>)
    ensures forall k :: k in TableMap(es) <==> exists i :: 0 <= i < |es| && es[i].key == k
    decreases |es|
  {
    if es != [] {
      TableMapKeys(es[1..]);
      forall k
        ensures k in TableMap(es) <==> exists i :: 0 <= i < |es| && es[i].key == k
      {
        if k in TableMap(es[1..]) {
          var i :| 0 <= i < |es[1..]| && es[1..][i].key == k;
          assert es[i + 1].key == k;
        }
        if i :| 1 <= i < |es| && es[i].key == k {
          assert es[1..][i - 1].key == k;
        }
      }
    }
  }

  lemma HeadIsLeast(es: seq<Entry>, k: bytes)
    requires Sorted(es) && es != [] && k in TableMap(es[1..])
    ensures Less(es[0].key, k)
  {
    TableMapKeys(es[1..]);
    var i :| 0 <= i < |es[1..]| && es[1..][i].key == k;
    assert es[i + 1].key == k;
  }

  /** Stopping early loses nothing: the scan answers as the map of a sorted table would. */
  lemma {:induction false} ScanIsLookup(data: bytes, key: bytes)
    requires Entries(data).Success? && Sorted(Entries(data).value)
    ensures Scan(data, key) == Success(Lookup(TableMap(Entries(data).value), key))
    decreases |data|
  {
    var r := ReadField(data);
    if r.Field? {
      var es := Entries(data).value;
      assert es[1..] == Entries(ReadField(r.rest).rest).value;
      ScanIsLookup(ReadField(r.rest).rest, key);
      if Less(key, es[0].key) {
        NothingBelowHead(es, key);
      }
    }
  }

  lemma ScanFirst(e: Entry, rest: bytes, key: bytes)
    requires Short(e.key) && Short(e.value)
    ensures Scan(EncodeEntry(e) + rest, key) ==
      if e.key == key then Success(Some(e.value)) else if Less(key, e.key) then Success(None) else Scan(rest, key)
  {
    hide EncodeField, ReadField, Less;
    assert EncodeEntry(e) + rest == EncodeField(e.key) + (EncodeField(e.value) + rest);
    ReadEncodedField(e.key, EncodeField(e.value) + rest);
    ReadEncodedField(e.value, rest);
  }

  lemma ScanInFirst(es: seq<Entry>, c: nat, key: bytes)
    requires es != [] && Short(es[0].key) && Short(es[0].value) && 0 < c < |EncodeEntry(es[0])|
    ensures Scan(EncodeTable(es)[..c], key) == if c == 4 && es[0].key != [] then Success(None) else Failure
  {
    hide EncodeField, ReadField, Less;
    var k, v := EncodeField(es[0].key), EncodeField(es[0].value);
    var cut := EncodeTable(es)[..c];
    if c < |k| {
      assert cut == k[..c];
      ReadCutField(es[0].key, c);
    } else {
      assert cut == k + v[..c - |k|];
      ReadEncodedField(es[0].key, v[..c - |k|]);
      ReadCutField(es[0].value, c - |k|);
    }
  }

  /** On a truncated file the scan finds what is in the complete entries, stops early behind the key's place, and
      fails otherwise, unless the cut goes unnoticed. */
  lemma {:induction false} ScanOfCut(es: seq<Entry>, c: nat, key: bytes)
    requires AllShort(es) && Sorted(es) && c <= |EncodeTable(es)|
    ensures var n := Complete(es, c);
      Scan(EncodeTable(es)[..c], key) ==
        if key in TableMap(es[..n]) then Success(Some(TableMap(es[..n])[key]))
        else if n > 0 && Less(key, es[n - 1].key) then Success(None)
        else if CleanCut(es, c) then Success(None) else Failure
    decreases |es|
  {
    hide EncodeEntry, Less, Scan;
    var n := Complete(es, c);
    if es == [] || c == 0 {
      assert EncodeTable(es)[..c] == [];
      ScanNothing(key);
      NoneComplete(es);
    } else {
      assert es[0] in es;
      if c < |EncodeEntry(es[0])| {
        ScanInFirst(es, c, key);
      } else {
        var c' := c - |EncodeEntry(es[0])|;
        EntrySize(es[0]);
        CutAfter(EncodeEntry(es[0]), EncodeTable(es[1..]), c);
        ScanFirst(es[0], EncodeTable(es[1..])[..c'], key);
        ScanOfCut(es[1..], c', key);
        assert es[..n][1..] == es[1..][..n - 1];
        if Less(key, es[0].key) {
          NothingBelowHead(es[..n], key);
          BelowLast(es, n, key);
        }
      }
    }
  }

  lemma BelowLast(es: seq<Entry>, n: nat, key: bytes)
    requires Sorted(es) && 0 < n <= |es| && Less(key, es[0].key)
    ensures Less(key, es[n - 1].key)
  {
    if n > 1 {
      LessTransitive(key, es[0].key, es[n - 1].key);
    }
  }

  lemma EntrySize(e: Entry)
    ensures |EncodeEntry(e)| >= 8
  {
  }

  lemma NoneComplete(es: seq<Entry>)
    ensures Complete(es, 0) == 0
  {
  }

  lemma ScanNothing(key: bytes)
    ensures Scan([], key) == Success(None)
  {
  }

  lemma NothingBelowHead(es: seq<Entry>, key: bytes)
    requires Sorted(es) && es != [] && Less(key, es[0].key)
    ensures key !in TableMap(es)
  {
    LessIrreflexive(key);
    if key in TableMap(es[1..]) {
      HeadIsLeast(es, key);
      LessAsymmetric(key, es[0].key);
    }
  }

  /** Sorted order leaves one representation per map. */
  lemma {:induction false} SortedIsUnique(a: seq<Entry>, b: seq<Entry>)
    requires Sorted(a) && Sorted(b) && TableMap(a) == TableMap(b)
    ensures a == b
    decreases |a|
  {
    OnlyEmptyIsEmpty(a);
    OnlyEmptyIsEmpty(b);
    if a != [] {
      SameHead(a, b);
      TailMap(a);
      TailMap(b);
      SortedIsUnique(a[1..], b[1..]);
      assert a == [a[0]] + a[1..] && b == [b[0]] + b[1..];
    }
  }

  lemma OnlyEmptyIsEmpty(es: seq<Entry>)
    ensures es == [] <==> TableMap(es) == map[]
  {
    if es != [] {
      assert es[0].key in TableMap(es);
    }
  }

  lemma SameHead(a: seq<Entry>, b: seq<Entry>)
    requires Sorted(a) && Sorted(b) && TableMap(a) == TableMap(b) && a != [] && b != []
    ensures a[0] == b[0]
  {
    var x, y := a[0].key, b[0].key;
    assert TableMap(a)[x] == a[0].value && TableMap(b)[y] == b[0].value;
    assert x in TableMap(b) && y in TableMap(a);
    if x != y {
      HeadIsLeast(a, y);
      HeadIsLeast(b, x);
      LessAsymmetric(x, y);
    }
  }

  lemma TailMap(a: seq<Entry>)
    requires Sorted(a) && a != []
    ensures TableMap(a[1..]) == TableMap(a) - {a[0].key}
  {
    hide Less;
    if a[0].key in TableMap(a[1..]) {
      HeadIsLeast(a, a[0].key);
      LessIrreflexive(a[0].key);
    }
    RemoveAdded(TableMap(a[1..]), a[0].key, a[0].value);
  }

  lemma RemoveAdded(m: Table, key: bytes, value: bytes)
    ensures key !in m ==> m[key := value] - {key} == m
  {
  }

  // ---------- sorting ----------

  /** Insertion into a sorted list; repeated, it stands for `sort.Slice`. */
  function InsertSorted(es: seq<Entry>, e: Entry): seq<Entry> {
    if es == [] || Less(e.key, es[0].key) then [e] + es else [es[0]] + InsertSorted(es[1..], e)
  }

  function SortEntries(es: seq<Entry>): seq<Entry> {
    if es == [] then [] else InsertSorted(SortEntries(es[1..]), es[0])
  }

  /** The head's key is below every key of the rest. */
  ghost predicate Above(es: seq<Entry>, key: bytes) {
    forall i :: 0 <= i < |es| ==> Less(key, es[i].key)
  }

  lemma SortedFromHead(e: Entry, es: seq<Entry>)
    requires Sorted(es) && Above(es, e.key)
    ensures Sorted([e] + es)
  {
  }

  lemma AboveTransitive(e: Entry, es: seq<Entry>)
    requires es != [] && Sorted(es) && Less(e.key, es[0].key)
    ensures Above(es, e.key)
  {
    forall i | 0 < i < |es|
      ensures Less(e.key, es[i].key)
    {
      LessTransitive(e.key, es[0].key, es[i].key);
    }
  }

  lemma {:induction false} InsertKeepsAbove(es: seq<Entry>, e: Entry, key: bytes)
    requires Above(es, key) && Less(key, e.key)
    ensures Above(InsertSorted(es, e), key)
    decreases |es|
  {
    if es != [] && !Less(e.key, es[0].key) {
      InsertKeepsAbove(es[1..], e, key);
    }
  }

  lemma {:induction false} InsertKeepsSorted(es: seq<Entry>, e: Entry)
    requires Sorted(es) && e.key !in TableMap(es)
    ensures Sorted(InsertSorted(es, e))
    ensures TableMap(InsertSorted(es, e)) == TableMap(es)[e.key := e.value]
    ensures |InsertSorted(es, e)| == |es| + 1
    decreases |es|
  {
    hide Less;
    if es == [] {
      assert [e][1..] == [];
    } else if Less(e.key, es[0].key) {
      AboveTransitive(e, es);
      SortedFromHead(e, es);
      assert ([e] + es)[1..] == es;
    } else {
      LessTotal(e.key, es[0].key);
      InsertKeepsSorted(es[1..], e);
      InsertKeepsAbove(es[1..], e, es[0].key);
      var t := InsertSorted(es[1..], e);
      SortedFromHead(es[0], t);
      assert ([es[0]] + t)[1..] == t;
      SwapUpdates(TableMap(es[1..]), es[0], e);
    }
  }

  lemma SwapUpdates(m: Table, x: Entry, y: Entry)
    requires x.key != y.key
    ensures m[y.key := y.value][x.key := x.value] == m[x.key := x.value][y.key := y.value]
  {
  }

  /** Entries with distinct keys sort into the table of the map they make up. */
  lemma {:induction false} SortEntriesIsSorted(es: seq<Entry>)
    requires forall i, j :: 0 <= i < j < |es| ==> es[i].key != es[j].key
    ensures Sorted(SortEntries(es)) && TableMap(SortEntries(es)) == TableMap(es)
    ensures |SortEntries(es)| == |es|
    decreases |es|
  {
    if es != [] {
      SortEntriesIsSorted(es[1..]);
      TableMapKeys(es[1..]);
      InsertKeepsSorted(SortEntries(es[1..]), es[0]);
    }
  }

  /** The sorted table of a map. */
  ghost function TableOf(m: Table): (es: seq<Entry>)
    ensures Sorted(es) && TableMap(es) == m && |es| == |m|
    decreases |m|
  {
    if m == map[] then [] else
      var k :| k in m;
      assert m == (m - {k})[k := m[k]];
      InsertKeepsSorted(TableOf(m - {k}), Entry(k, m[k]));
      InsertSorted(TableOf(m - {k}), Entry(k, m[k]))
  }

  lemma TableOfIsSortEntries(es: seq<Entry>)
    requires forall i, j :: 0 <= i < j < |es| ==> es[i].key != es[j].key
    ensures SortEntries(es) == TableOf(TableMap(es))
  {
    SortEntriesIsSorted(es);
    SortedIsUnique(SortEntries(es), TableOf(TableMap(es)));
  }
}
