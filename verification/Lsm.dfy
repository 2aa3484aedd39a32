/** The store as a value: what each operation does to the memtable, the table list and the directory. */
module Lsm {
  import opened Bytes
  import opened Outcomes
  import opened TableFormat
  import opened TableNames

  /** The table files of the storage directory. */
  type Disk = map<bytes, bytes>

  /** Tables are file names, oldest first. */
  datatype Db = Db(mem: Table, threshold: int, tables: seq<bytes>, nextSeq: nat, disk: Disk)

  /** `flush`: exclusive create of the file, then its contents. */
  ghost function WriteTable(disk: Disk, name: bytes, m: Table): Result<Disk> {
    if name in disk then Failure else Success(disk[name := EncodeTable(TableOf(m))])
  }

  /** `flushMemtableLocked`. */
  ghost function Flush(db: Db): Result<Db> {
    var name := Name(db.nextSeq);
    match WriteTable(db.disk, name, db.mem)
    case Failure => Failure
    case Success(disk) => Success(Db(map[], db.threshold, db.tables + [name], db.nextSeq + 1, disk))
  }

  datatype Effect = Effect(db: Db, failed: bool)

  ghost function Put(db: Db, key: bytes, value: bytes): Effect {
    var db' := db.(mem := db.mem[key := value]);
    if |db'.mem| >= db.threshold then
      match Flush(db')
      case Failure => Effect(db', true)
      case Success(flushed) => Effect(flushed, false)
    else Effect(db', false)
  }

  /** Tables are scanned from the newest to the oldest, up to the first match. */
  function GetTables(tables: seq<bytes>, disk: Disk, key: bytes): Result<Option<bytes>>
    decreases |tables|
  {
    if tables == [] then Success(None) else
      var last := tables[|tables| - 1];
      if last !in disk then Failure else
        match Scan(disk[last], key)
        case Failure => Failure
        case Success(Some(v)) => Success(Some(v))
        case Success(None) => GetTables(tables[..|tables| - 1], disk, key)
  }

  function Get(db: Db, key: bytes): Result<Option<bytes>> {
    if key in db.mem then Success(Some(db.mem[key])) else GetTables(db.tables, db.disk, key)
  }

  /** `mergeEntries` as a map: newest table first, every table must be readable. */
  function Merge(tables: seq<bytes>, disk: Disk): Result<Table>
    decreases |tables|
  {
    if tables == [] then Success(map[]) else
      var last := tables[|tables| - 1];
      if last !in disk then Failure else
        match Entries(disk[last])
        case Failure => Failure
        case Success(es) =>
          match Merge(tables[..|tables| - 1], disk)
          case Failure => Failure
          case Success(m) => Success(m + TableMap(es))
  }

  function Names(s: seq<bytes>): set<bytes> {
    set f | f in s
  }

  /** How `Compact` ends: `Unmerged` is any error up to the merged file, `Unremoved` one from removing old files. */
  datatype Compaction = Compacted | Unremoved | Unmerged

  datatype CompactEffect = CompactEffect(db: Db, result: Compaction)

  /** `stuck` are the old files whose removal fails: they stay, and the call reports it. */
  ghost function Compact(db: Db, stuck: set<bytes>): CompactEffect {
    if |db.tables| <= 1 then CompactEffect(db, Compacted) else
      match Merge(db.tables, db.disk)
      case Failure => CompactEffect(db, Unmerged)
      case Success(merged) =>
        var name := Name(db.nextSeq);
        match WriteTable(db.disk, name, merged)
        case Failure => CompactEffect(db, Unmerged)
        case Success(disk) =>
          CompactEffect(Db(db.mem, db.threshold, [name], db.nextSeq + 1, disk - (Names(db.tables) - stuck)),
                        if Names(db.tables) * stuck != {} then Unremoved else Compacted)
  }

  ghost function Close(db: Db): Effect {
    if db.mem == map[] then Effect(db, false) else
      match Flush(db)
      case Failure => Effect(db, true)
      case Success(flushed) => Effect(flushed, false)
  }

  function Keys(es: seq<Entry>): (r: seq<bytes>)
    ensures |r| == |es| && forall i :: 0 <= i < |es| ==> r[i] == es[i].key
  {
    seq(|es|, i requires 0 <= i < |es| => es[i].key)
  }

  /** `loadExistingSSTables`: the file names in lexicographic order; the next number is their count plus one. */
  ghost function Open(disk: Disk, threshold: int): Db {
    Db(map[], threshold, Keys(TableOf(disk)), |disk| + 1, disk)
  }

  // ---------- what a store means ----------

  function FileMap(data: bytes): Table {
    match Entries(data) case Failure => map[] case Success(es) => TableMap(es)
  }

  ghost predicate GoodFile(data: bytes) {
    Entries(data).Success? && Sorted(Entries(data).value)
  }

  function FileAt(disk: Disk, f: bytes): Table {
    if f in disk then FileMap(disk[f]) else map[]
  }

  /** Later tables override earlier ones. */
  function TablesMap(tables: seq<bytes>, disk: Disk): Table
    decreases |tables|
  {
    if tables == [] then map[]
    else TablesMap(tables[..|tables| - 1], disk) + FileAt(disk, tables[|tables| - 1])
  }

  ghost predicate Readable(tables: seq<bytes>, disk: Disk) {
    forall f :: f in tables ==> f in disk && GoodFile(disk[f])
  }

  /** The plain map a store stands for. */
  function View(db: Db): Table {
    TablesMap(db.tables, db.disk) + db.mem
  }

  lemma {:induction false} GetTablesIsLookup(tables: seq<bytes>, disk: Disk, key: bytes)
    requires Readable(tables, disk)
    ensures GetTables(tables, disk, key) == Success(Lookup(TablesMap(tables, disk), key))
    decreases |tables|
  {
    if tables != [] {
      var last := tables[|tables| - 1];
      assert last in tables;
      ScanIsLookup(disk[last], key);
      GetTablesIsLookup(tables[..|tables| - 1], disk, key);
    }
  }

  // ---------- when calls fail ----------

  /** No table behind position `i` has the key. */
  ghost predicate NotNewer(tables: seq<bytes>, disk: Disk, key: bytes, i: nat) {
    forall j :: i < j < |tables| ==> tables[j] in disk && Scan(disk[tables[j]], key) == Success(None)
  }

  /** The lookup comes to table `i` and gets `r` there. */
  ghost predicate Decides(tables: seq<bytes>, disk: Disk, key: bytes, i: nat, r: Result<Option<bytes>>) {
    i < |tables| && NotNewer(tables, disk, key, i) &&
    r == if tables[i] in disk then Scan(disk[tables[i]], key) else Failure
  }

  /** The newest table that is missing, unreadable or has the key decides; without one the key is not there. */
  lemma {:induction false} NewestDecides(tables: seq<bytes>, disk: Disk, key: bytes)
    ensures var r := GetTables(tables, disk, key);
      if r == Success(None) then NotNewer(tables, disk, key, 0) && (tables == [] || Decides(tables, disk, key, 0, r))
      else exists i :: Decides(tables, disk, key, i, r)
    decreases |tables|
  {
    hide Scan;
    if tables != [] {
      var init, k := tables[..|tables| - 1], |tables| - 1;
      var last := tables[k];
      var r := GetTables(tables, disk, key);
      if last in disk && Scan(disk[last], key) == Success(None) {
        NewestDecides(init, disk, key);
        if r != Success(None) {
          var i: nat :| Decides(init, disk, key, i, r);
          assert Decides(tables, disk, key, i, r);
        }
      } else {
        assert Decides(tables, disk, key, k, r);
      }
    }
  }

  lemma {:induction false} MergeFailsIff(tables: seq<bytes>, disk: Disk)
    ensures Merge(tables, disk).Failure? <==>
      exists i :: 0 <= i < |tables| && (tables[i] !in disk || Entries(disk[tables[i]]).Failure?)
    decreases |tables|
  {
    hide Entries;
    if tables != [] {
      var init := tables[..|tables| - 1];
      MergeFailsIff(init, disk);
      assert forall i :: 0 <= i < |init| ==> init[i] == tables[i];
    }
  }

  /** The calls that write fail exactly on a taken file name, or on an unreadable table; a put still keeps its row,
      and nothing else changes. */
  lemma FailuresKeepState(db: Db, key: bytes, value: bytes, stuck: set<bytes>)
    ensures var r, m := Put(db, key, value), db.mem[key := value];
      (r.failed <==> |m| >= db.threshold && Name(db.nextSeq) in db.disk) && (r.failed ==> r.db == db.(mem := m))
    ensures var r := Close(db);
      (r.failed <==> db.mem != map[] && Name(db.nextSeq) in db.disk) && (r.failed ==> r.db == db)
    ensures var r := Compact(db, stuck);
      (r.result.Unmerged? <==>
        |db.tables| > 1 && (Merge(db.tables, db.disk).Failure? || Name(db.nextSeq) in db.disk)) &&
      (r.result.Unmerged? ==> r.db == db)
  {
    hide Name, Merge, EncodeTable, TableOf;
  }

  lemma {:induction false} MergeIsTablesMap(tables: seq<bytes>, disk: Disk)
    requires Readable(tables, disk)
    ensures Merge(tables, disk) == Success(TablesMap(tables, disk))
    decreases |tables|
  {
    if tables != [] {
      assert tables[|tables| - 1] in tables;
      MergeIsTablesMap(tables[..|tables| - 1], disk);
    }
  }

  lemma {:induction false} TablesMapFrame(tables: seq<bytes>, disk: Disk, disk': Disk)
    requires forall f :: f in tables ==> FileAt(disk, f) == FileAt(disk', f)
    ensures TablesMap(tables, disk) == TablesMap(tables, disk')
    decreases |tables|
  {
    if tables != [] {
      assert tables[|tables| - 1] in tables;
      TablesMapFrame(tables[..|tables| - 1], disk, disk');
    }
  }

  lemma {:induction false} TablesMapAppend(a: seq<bytes>, b: seq<bytes>, disk: Disk)
    ensures TablesMap(a + b, disk) == TablesMap(a, disk) + TablesMap(b, disk)
    decreases |b|
  {
    if b == [] {
      assert a + b == a;
    } else {
      var init, last := b[..|b| - 1], b[|b| - 1];
      assert (a + b)[..|a + b| - 1] == a + init && (a + b)[|a + b| - 1] == last;
      TablesMapAppend(a, init, disk);
      UnionAssociates(TablesMap(a, disk), TablesMap(init, disk), FileAt(disk, last));
    }
  }

  lemma UnionAssociates(a: Table, b: Table, c: Table)
    ensures (a + b) + c == a + (b + c)
  {
  }

  lemma {:induction false} TableIsCovered(tables: seq<bytes>, disk: Disk, f: bytes)
    requires f in tables
    ensures FileAt(disk, f).Keys <= TablesMap(tables, disk).Keys
    decreases |tables|
  {
    var last := tables[|tables| - 1];
    if f != last {
      TableIsCovered(tables[..|tables| - 1], disk, f);
    }
  }

  lemma {:induction false} ViewIsShort(tables: seq<bytes>, disk: Disk)
    requires Readable(tables, disk)
    ensures ShortTable(TablesMap(tables, disk))
    decreases |tables|
  {
    if tables != [] {
      var last := tables[|tables| - 1];
      assert last in tables;
      ViewIsShort(tables[..|tables| - 1], disk);
      EntriesAreShort(disk[last]);
      ShortEntries(Entries(disk[last]).value);
    }
  }

  ghost predicate ShortTable(m: Table) {
    forall k :: k in m ==> Short(k) && Short(m[k])
  }

  lemma {:induction false} EntriesAreShort(data: bytes)
    requires Entries(data).Success?
    ensures AllShort(Entries(data).value)
    decreases |data|
  {
    var r := ReadField(data);
    if r.Field? {
      FromBigEndianRoundTrip(data[..4]);
      FromBigEndianRoundTrip(r.rest[..4]);
      Powers();
      EntriesAreShort(ReadField(r.rest).rest);
    }
  }

  /** A written table reads back if and only if no field is too long for its stored length. */
  lemma ReadsBackIff(es: seq<Entry>)
    ensures Entries(EncodeTable(es)) == Success(es) <==> AllShort(es)
  {
    if AllShort(es) {
      EntriesOfEncoded(es);
    } else if Entries(EncodeTable(es)).Success? {
      EntriesAreShort(EncodeTable(es));
    }
  }

  lemma {:induction false} ShortEntries(es: seq<Entry>)
    requires AllShort(es)
    ensures ShortTable(TableMap(es))
    decreases |es|
  {
    if es != [] {
      assert es[0] in es;
      ShortEntries(es[1..]);
    }
  }

  lemma {:induction false} ShortTableEntries(es: seq<Entry>)
    requires Sorted(es) && ShortTable(TableMap(es))
    ensures AllShort(es)
    decreases |es|
  {
    if es != [] {
      TailMap(es);
      assert es[0].key in TableMap(es);
      ShortTableEntries(es[1..]);
    }
  }

  /** A written file reads back as the map it was written from. */
  lemma WrittenFile(m: Table)
    requires ShortTable(m)
    ensures GoodFile(EncodeTable(TableOf(m))) && FileMap(EncodeTable(TableOf(m))) == m
    ensures Entries(EncodeTable(TableOf(m))) == Success(TableOf(m))
  {
    ShortTableEntries(TableOf(m));
    EntriesOfEncoded(TableOf(m));
  }

  // ---------- numbered directories ----------

  /** The numbers below `n` whose files exist, ascending. */
  function Numbers(disk: Disk, n: nat): (r: seq<nat>)
    ensures forall i :: 0 <= i < |r| ==> 1 <= r[i] < n && Name(r[i]) in disk
    ensures forall i, j :: 0 <= i < j < |r| ==> r[i] < r[j]
  {
    if n <= 1 then []
    else if Name(n - 1) in disk then Numbers(disk, n - 1) + [n - 1]
    else Numbers(disk, n - 1)
  }

  lemma {:induction false} NumbersHasAll(disk: Disk, n: nat, m: nat)
    requires 1 <= m < n && Name(m) in disk
    ensures m in Numbers(disk, n)
  {
    if m < n - 1 {
      NumbersHasAll(disk, n - 1, m);
    }
  }

  function NamesOf(nums: seq<nat>): (r: seq<bytes>)
    ensures |r| == |nums| && forall i :: 0 <= i < |nums| ==> r[i] == Name(nums[i])
  {
    seq(|nums|, i requires 0 <= i < |nums| => Name(nums[i]))
  }

  /** Every file is a readable table with a number below `n`. */
  ghost predicate Numbered(disk: Disk, n: nat) {
    forall f :: f in disk ==> GoodFile(disk[f]) && exists m :: 1 <= m < n && f == Name(m)
  }

  /** The directory listing that opening sorts: names with contents. */
  ghost function Listing(disk: Disk, nums: seq<nat>): (es: seq<Entry>)
    requires forall i :: 0 <= i < |nums| ==> Name(nums[i]) in disk
    ensures |es| == |nums|
    ensures forall i :: 0 <= i < |nums| ==> es[i] == Entry(Name(nums[i]), disk[Name(nums[i])])
  {
    seq(|nums|, i requires 0 <= i < |nums| => Entry(Name(nums[i]), disk[Name(nums[i])]))
  }

  /** Numerical and lexicographic order agree, so opening lists the files by age. */
  lemma OpenOrder(disk: Disk, n: nat, threshold: int)
    requires Numbered(disk, n) && n <= SEQ_LIMIT
    ensures Open(disk, threshold).tables == NamesOf(Numbers(disk, n))
    ensures |disk| == |Numbers(disk, n)|
  {
    var es := Listing(disk, Numbers(disk, n));
    ListingIsSorted(disk, Numbers(disk, n));
    ListingIsComplete(disk, n);
    SortedIsUnique(es, TableOf(disk));
  }

  lemma ListingIsSorted(disk: Disk, nums: seq<nat>)
    requires forall i :: 0 <= i < |nums| ==> Name(nums[i]) in disk && nums[i] < SEQ_LIMIT
    requires forall i, j :: 0 <= i < j < |nums| ==> nums[i] < nums[j]
    ensures Sorted(Listing(disk, nums))
  {
    var es := Listing(disk, nums);
    forall i, j | 0 <= i < j < |es|
      ensures Less(es[i].key, es[j].key)
    {
      NameOrder(nums[i], nums[j]);
    }
  }

  lemma ListingIsComplete(disk: Disk, n: nat)
    requires Numbered(disk, n)
    ensures TableMap(Listing(disk, Numbers(disk, n))) == disk
  {
    var m := TableMap(Listing(disk, Numbers(disk, n)));
    ListingIsSound(disk, Numbers(disk, n));
    forall f | f in disk
      ensures f in m
    {
      var k :| 1 <= k < n && f == Name(k);
      NumbersHasAll(disk, n, k);
      ListingHas(disk, Numbers(disk, n), k);
    }
    assert m.Keys == disk.Keys;
  }

  lemma ListingIsSound(disk: Disk, nums: seq<nat>)
    requires forall i :: 0 <= i < |nums| ==> Name(nums[i]) in disk
    ensures forall f :: f in TableMap(Listing(disk, nums)) ==> f in disk && TableMap(Listing(disk, nums))[f] == disk[f]
  {
    TableMapValues(Listing(disk, nums));
  }

  lemma ListingHas(disk: Disk, nums: seq<nat>, k: nat)
    requires k in nums && forall i :: 0 <= i < |nums| ==> Name(nums[i]) in disk
    ensures Name(k) in TableMap(Listing(disk, nums))
  {
    var i :| 0 <= i < |nums| && nums[i] == k;
    assert Listing(disk, nums)[i].key == Name(k);
    TableMapKeys(Listing(disk, nums));
  }

  lemma {:induction false} TableMapValues(es: seq<Entry>)
    ensures forall k :: k in TableMap(es) ==> Entry(k, TableMap(es)[k]) in es
    decreases |es|
  {
    if es != [] {
      TableMapValues(es[1..]);
      assert forall e :: e in es[1..] ==> e in es;
    }
  }
}
