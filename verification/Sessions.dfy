/** Whole sessions of the store: open, commands, close, open again. */
module Sessions {
  import opened Bytes
  import opened Outcomes
  import opened TableFormat
  import opened TableNames
  import opened Lsm

  function Rows(threshold: int): nat {
    if threshold < 1 then 1 else threshold
  }

  ghost predicate Covered(disk: Disk, n: nat, keys: set<bytes>) {
    FileAt(disk, Name(n)).Keys <= keys
  }

  /** What the live tables `nums`, newest last, stand for. */
  function LiveMap(disk: Disk, nums: seq<nat>): Table {
    TablesMap(NamesOf(nums), disk)
  }

  ghost predicate StaleCovered(disk: Disk, stale: seq<nat>, nums: seq<nat>) {
    forall n :: n in stale ==> nums != [] && Covered(disk, n, FileAt(disk, Name(nums[0])).Keys)
  }

  /** All files have numbers below `n`. The live ones are the newest; `stale` are older files that an interrupted
      removal left behind, and the oldest live table has every key of theirs. */
  ghost predicate DirWf(disk: Disk, n: nat, stale: seq<nat>, nums: seq<nat>) {
    1 <= n <= SEQ_LIMIT && Numbered(disk, n) && Numbers(disk, n) == stale + nums && StaleCovered(disk, stale, nums)
  }

  ghost predicate Wf(db: Db, stale: seq<nat>, nums: seq<nat>) {
    && DirWf(db.disk, db.nextSeq, stale, nums)
    && db.tables == NamesOf(nums)
    && |db.mem| < Rows(db.threshold)
    && ShortTable(db.mem)
  }

  // ---------- the directory ----------

  lemma LiveNumber(disk: Disk, n: nat, stale: seq<nat>, nums: seq<nat>, k: nat)
    requires Numbers(disk, n) == stale + nums && (k in stale || k in nums)
    ensures 1 <= k < n && Name(k) in disk
  {
    hide Name;
    var all := stale + nums;
    assert k in all;
    var i :| 0 <= i < |all| && all[i] == k;
  }

  lemma LiveTables(disk: Disk, n: nat, stale: seq<nat>, nums: seq<nat>)
    requires Numbers(disk, n) == stale + nums && Numbered(disk, n)
    ensures Readable(NamesOf(nums), disk)
  {
    hide Name;
    forall f | f in NamesOf(nums)
      ensures f in disk
    {
      var i :| 0 <= i < |nums| && NamesOf(nums)[i] == f;
      LiveNumber(disk, n, stale, nums, nums[i]);
    }
  }

  lemma {:induction false} NumbersFrame(disk: Disk, disk': Disk, n: nat)
    requires forall m :: 1 <= m < n ==> (Name(m) in disk <==> Name(m) in disk')
    ensures Numbers(disk, n) == Numbers(disk', n)
  {
    hide Name;
    if n > 1 {
      NumbersFrame(disk, disk', n - 1);
    }
  }

  lemma NextNameIsNew(disk: Disk, n: nat)
    requires Numbered(disk, n) && n < SEQ_LIMIT
    ensures Name(n) !in disk && forall k :: 1 <= k < n ==> Name(k) != Name(n)
  {
    hide Name;
    forall k | 1 <= k < n
      ensures Name(k) != Name(n)
    {
      NameOrder(k, n);
    }
  }

  /** A new file under the next number: the directory gains that number and nothing else moves. */
  lemma NewFile(disk: Disk, n: nat, m: Table)
    requires Numbered(disk, n) && 1 <= n < SEQ_LIMIT && ShortTable(m)
    ensures WriteTable(disk, Name(n), m).Success?
    ensures var disk' := WriteTable(disk, Name(n), m).value;
      Numbered(disk', n + 1) && Numbers(disk', n + 1) == Numbers(disk, n) + [n] &&
      FileAt(disk', Name(n)) == m && forall k :: 1 <= k < n ==> FileAt(disk', Name(k)) == FileAt(disk, Name(k))
  {
    hide Name, FileMap, TableOf, EncodeTable, GoodFile, Numbered;
    NextNameIsNew(disk, n);
    StillNumbered(disk, n, m);
    WrittenFile(m);
    var disk' := WriteTable(disk, Name(n), m).value;
    NumbersFrame(disk, disk', n);
  }

  lemma StillNumbered(disk: Disk, n: nat, m: Table)
    requires Numbered(disk, n) && 1 <= n && Name(n) !in disk && ShortTable(m)
    ensures Numbered(WriteTable(disk, Name(n), m).value, n + 1)
  {
    hide Name, TableOf, EncodeTable, GoodFile;
    WrittenFile(m);
  }

  lemma LiveMapFrame(disk: Disk, disk': Disk, n: nat, stale: seq<nat>, nums: seq<nat>)
    requires Numbers(disk, n) == stale + nums
    requires forall k :: 1 <= k < n ==> FileAt(disk', Name(k)) == FileAt(disk, Name(k))
    ensures LiveMap(disk', nums) == LiveMap(disk, nums)
  {
    hide Name, FileAt;
    forall f | f in NamesOf(nums)
      ensures FileAt(disk, f) == FileAt(disk', f)
    {
      var i :| 0 <= i < |nums| && NamesOf(nums)[i] == f;
      LiveNumber(disk, n, stale, nums, nums[i]);
    }
    TablesMapFrame(NamesOf(nums), disk, disk');
  }

  lemma StaleStaysCovered(disk: Disk, disk': Disk, n: nat, stale: seq<nat>, nums: seq<nat>)
    requires Numbers(disk, n) == stale + nums && StaleCovered(disk, stale, nums)
    requires forall k :: 1 <= k < n ==> FileAt(disk', Name(k)) == FileAt(disk, Name(k))
    ensures StaleCovered(disk', stale, nums + [n])
  {
    hide Name, FileAt;
    forall k | k in stale
      ensures Covered(disk', k, FileAt(disk', Name((nums + [n])[0])).Keys)
    {
      LiveNumber(disk, n, stale, nums, k);
      LiveNumber(disk, n, stale, nums, nums[0]);
      assert Covered(disk, k, FileAt(disk, Name(nums[0])).Keys);
    }
  }

  /** A flush: one more live table, whose rows override the older ones. */
  lemma AddTable(disk: Disk, n: nat, stale: seq<nat>, nums: seq<nat>, m: Table)
    requires DirWf(disk, n, stale, nums) && n < SEQ_LIMIT && ShortTable(m)
    ensures WriteTable(disk, Name(n), m).Success?
    ensures var disk' := WriteTable(disk, Name(n), m).value;
      DirWf(disk', n + 1, stale, nums + [n]) && FileAt(disk', Name(n)) == m &&
      LiveMap(disk', nums + [n]) == LiveMap(disk, nums) + m
  {
    hide Name, Numbered, Numbers, FileAt, WriteTable, Covered, StaleCovered;
    NewFile(disk, n, m);
    var disk' := WriteTable(disk, Name(n), m).value;
    assert stale + nums + [n] == stale + (nums + [n]);
    StaleStaysCovered(disk, disk', n, stale, nums);
    LiveMapFrame(disk, disk', n, stale, nums);
    assert NamesOf(nums + [n])[..|nums|] == NamesOf(nums);
  }

  /** Every key of a file that existed before is a key of the live map. */
  lemma OldFileIsCovered(disk: Disk, n: nat, stale: seq<nat>, nums: seq<nat>, k: nat)
    requires DirWf(disk, n, stale, nums) && 1 <= k < n && Name(k) in disk
    ensures Covered(disk, k, LiveMap(disk, nums).Keys)
  {
    hide Name, FileAt, Numbered;
    NumbersHasAll(disk, n, k);
    var tables := NamesOf(nums);
    if k in nums {
      var i :| 0 <= i < |nums| && nums[i] == k;
      assert tables[i] in tables;
      TableIsCovered(tables, disk, Name(k));
    } else {
      assert k in stale;
      assert tables[0] in tables;
      TableIsCovered(tables, disk, tables[0]);
      assert Covered(disk, k, FileAt(disk, Name(nums[0])).Keys);
    }
  }

  /** A compaction: one live table under the next number, and any part of the older files still there. */
  lemma ReplaceTables(disk: Disk, n: nat, stale: seq<nat>, nums: seq<nat>, removed: set<bytes>)
    requires DirWf(disk, n, stale, nums) && n < SEQ_LIMIT && removed <= Names(NamesOf(nums))
    requires ShortTable(LiveMap(disk, nums))
    ensures WriteTable(disk, Name(n), LiveMap(disk, nums)).Success?
    ensures var disk' := WriteTable(disk, Name(n), LiveMap(disk, nums)).value - removed;
      DirWf(disk', n + 1, Numbers(disk', n), [n]) && LiveMap(disk', [n]) == LiveMap(disk, nums)
  {
    hide Name, FileMap, TablesMap, WriteTable, GoodFile;
    var m := LiveMap(disk, nums);
    NewFile(disk, n, m);
    NextNameIsNew(disk, n);
    NotRemoved(disk, n, stale, nums);
    var written := WriteTable(disk, Name(n), m).value;
    var disk' := written - removed;
    assert Name(n) in written by { WrittenHas(disk, n, m); }
    assert FileAt(disk', Name(n)) == FileAt(written, Name(n)) == m;
    forall k | k in Numbers(disk', n)
      ensures Covered(disk', k, m.Keys)
    {
      LiveNumber(disk', n, Numbers(disk', n), [], k);
      WrittenHas(disk, n, m);
      OldFileIsCovered(disk, n, stale, nums, k);
      assert FileAt(disk', Name(k)) == FileAt(written, Name(k)) == FileAt(disk, Name(k));
    }
    OneTable(disk', n);
  }

  lemma WrittenHas(disk: Disk, n: nat, m: Table)
    requires WriteTable(disk, Name(n), m).Success?
    ensures WriteTable(disk, Name(n), m).value.Keys == disk.Keys + {Name(n)}
  {
    hide Name;
  }

  lemma NotRemoved(disk: Disk, n: nat, stale: seq<nat>, nums: seq<nat>)
    requires DirWf(disk, n, stale, nums) && n < SEQ_LIMIT
    ensures Name(n) !in Names(NamesOf(nums))
  {
    hide Name;
    LiveTables(disk, n, stale, nums);
    NextNameIsNew(disk, n);
  }

  lemma OneTable(disk: Disk, n: nat)
    ensures LiveMap(disk, [n]) == FileAt(disk, Name(n))
  {
    hide Name, FileAt;
    var tables := NamesOf([n]);
    assert tables == [Name(n)] && tables[..0] == [];
    assert TablesMap(tables[..0], disk) == map[];
  }

  // ---------- the operations refine a map ----------

  lemma FlushRefines(db: Db, stale: seq<nat>, nums: seq<nat>)
    requires DirWf(db.disk, db.nextSeq, stale, nums) && db.tables == NamesOf(nums)
    requires ShortTable(db.mem) && db.nextSeq < SEQ_LIMIT
    ensures Flush(db).Success?
    ensures Wf(Flush(db).value, stale, nums + [db.nextSeq]) && View(Flush(db).value) == View(db)
    ensures Flush(db).value.mem == map[] && Flush(db).value.nextSeq == db.nextSeq + 1
    ensures FileAt(Flush(db).value.disk, Name(db.nextSeq)) == db.mem
  {
    hide Name, DirWf, WriteTable, TablesMap, FileAt;
    AddTable(db.disk, db.nextSeq, stale, nums, db.mem);
    assert NamesOf(nums + [db.nextSeq]) == NamesOf(nums) + [Name(db.nextSeq)];
  }

  lemma OneMoreRow(m: Table, key: bytes, value: bytes)
    ensures 1 <= |m[key := value]| <= |m| + 1
  {
    var m' := m[key := value];
    assert m'.Keys == m.Keys + {key};
    assert |m'.Keys| == |m'| && |m.Keys| == |m|;
  }

  lemma UpdateAbove(a: Table, b: Table, key: bytes, value: bytes)
    ensures a + b[key := value] == (a + b)[key := value]
  {
  }

  lemma ShortUpdate(m: Table, key: bytes, value: bytes)
    requires ShortTable(m) && Short(key) && Short(value)
    ensures ShortTable(m[key := value])
  {
  }

  lemma Remember(db: Db, key: bytes, value: bytes)
    requires ShortTable(db.mem) && Short(key) && Short(value)
    ensures var db' := db.(mem := db.mem[key := value]);
      View(db') == View(db)[key := value] && ShortTable(db'.mem) && 1 <= |db'.mem| <= |db.mem| + 1
  {
    hide TablesMap, Short, ShortTable;
    ShortUpdate(db.mem, key, value);
    OneMoreRow(db.mem, key, value);
    UpdateAbove(TablesMap(db.tables, db.disk), db.mem, key, value);
  }

  lemma PutRefines(db: Db, stale: seq<nat>, nums: seq<nat>, key: bytes, value: bytes) returns (nums': seq<nat>)
    requires Wf(db, stale, nums) && Short(key) && Short(value) && db.nextSeq < SEQ_LIMIT
    ensures !Put(db, key, value).failed
    ensures Wf(Put(db, key, value).db, stale, nums') && View(Put(db, key, value).db) == View(db)[key := value]
    ensures Put(db, key, value).db.nextSeq <= db.nextSeq + 1 && Put(db, key, value).db.threshold == db.threshold
  {
    hide Name, DirWf, TablesMap, NamesOf, View, ShortTable, Short, WriteTable;
    nums' := nums;
    Remember(db, key, value);
    var db' := db.(mem := db.mem[key := value]);
    if |db'.mem| >= db.threshold {
      FlushRefines(db', stale, nums);
      nums' := nums + [db.nextSeq];
    }
  }

  /** A put flushes exactly when the memtable reaches the threshold, and writes as many rows as that, at least one. */
  lemma FlushedRows(db: Db, stale: seq<nat>, nums: seq<nat>, key: bytes, value: bytes)
    requires Wf(db, stale, nums) && Short(key) && Short(value) && db.nextSeq < SEQ_LIMIT
    ensures var after := Put(db, key, value).db;
      if |db.mem[key := value]| >= db.threshold
      then after.tables == db.tables + [Name(db.nextSeq)] && after.mem == map[] &&
        |FileAt(after.disk, Name(db.nextSeq))| == if db.threshold < 1 then 1 else db.threshold
      else after == db.(mem := db.mem[key := value])
  {
    hide Name, DirWf, TablesMap, NamesOf, FileAt, View, ShortTable, Short, WriteTable;
    Remember(db, key, value);
    if |db.mem[key := value]| >= db.threshold {
      FlushRefines(db.(mem := db.mem[key := value]), stale, nums);
    }
  }

  lemma GetRefines(db: Db, stale: seq<nat>, nums: seq<nat>, key: bytes)
    requires Wf(db, stale, nums)
    ensures Get(db, key) == Success(Lookup(View(db), key))
  {
    hide Name;
    LiveTables(db.disk, db.nextSeq, stale, nums);
    GetTablesIsLookup(db.tables, db.disk, key);
  }

  /** Compaction keeps the meaning whichever of the old files it fails to remove. */
  lemma CompactRefines(db: Db, stale: seq<nat>, nums: seq<nat>, stuck: set<bytes>)
    returns (stale': seq<nat>, nums': seq<nat>)
    requires Wf(db, stale, nums) && db.nextSeq < SEQ_LIMIT
    ensures Compact(db, stuck).result == if |nums| > 1 && Names(db.tables) * stuck != {} then Unremoved else Compacted
    ensures Wf(Compact(db, stuck).db, stale', nums') && View(Compact(db, stuck).db) == View(db)
    ensures |nums| > 1 ==> nums' == [db.nextSeq]
    ensures Compact(db, stuck).db.nextSeq <= db.nextSeq + 1 && Compact(db, stuck).db.threshold == db.threshold
  {
    hide Name, TablesMap, DirWf, WriteTable, View, NamesOf;
    if |nums| <= 1 {
      stale', nums' := stale, nums;
    } else {
      var n, old' := db.nextSeq, Names(db.tables) - stuck;
      var disk' := CompactOutcome(db, stale, nums, stuck);
      ReplaceTables(db.disk, n, stale, nums, old');
      stale', nums' := Numbers(disk', n), [n];
      SameView(db, Db(db.mem, db.threshold, NamesOf([n]), n + 1, disk'));
    }
  }

  lemma CompactOutcome(db: Db, stale: seq<nat>, nums: seq<nat>, stuck: set<bytes>) returns (disk': Disk)
    requires Wf(db, stale, nums) && db.nextSeq < SEQ_LIMIT && |nums| > 1
    ensures ShortTable(LiveMap(db.disk, nums))
    ensures WriteTable(db.disk, Name(db.nextSeq), LiveMap(db.disk, nums)).Success?
    ensures disk' == WriteTable(db.disk, Name(db.nextSeq), LiveMap(db.disk, nums)).value - (Names(db.tables) - stuck)
    ensures Compact(db, stuck) ==
      CompactEffect(Db(db.mem, db.threshold, NamesOf([db.nextSeq]), db.nextSeq + 1, disk'),
                    if Names(db.tables) * stuck != {} then Unremoved else Compacted)
  {
    hide Name, TablesMap, StaleCovered, WriteTable;
    LiveTables(db.disk, db.nextSeq, stale, nums);
    MergeIsTablesMap(db.tables, db.disk);
    ViewIsShort(db.tables, db.disk);
    NewFile(db.disk, db.nextSeq, LiveMap(db.disk, nums));
    assert NamesOf([db.nextSeq]) == [Name(db.nextSeq)];
    disk' := WriteTable(db.disk, Name(db.nextSeq), LiveMap(db.disk, nums)).value - (Names(db.tables) - stuck);
  }

  lemma SameView(db: Db, db': Db)
    requires TablesMap(db.tables, db.disk) == TablesMap(db'.tables, db'.disk) && db.mem == db'.mem
    ensures View(db) == View(db')
  {
  }

  lemma CloseRefines(db: Db, stale: seq<nat>, nums: seq<nat>) returns (nums': seq<nat>)
    requires Wf(db, stale, nums) && db.nextSeq < SEQ_LIMIT
    ensures !Close(db).failed
    ensures Wf(Close(db).db, stale, nums') && View(Close(db).db) == View(db) && Close(db).db.mem == map[]
    ensures Close(db).db.nextSeq <= db.nextSeq + 1
  {
    hide Name, DirWf, TablesMap, NamesOf, FileAt;
    nums' := nums;
    if db.mem != map[] {
      FlushRefines(db, stale, nums);
      nums' := nums + [db.nextSeq];
    }
  }

  // ---------- opening ----------

  /** A closed store reopens to the same map, leftovers or not. */
  lemma ReopenKeepsView(db: Db, stale: seq<nat>, nums: seq<nat>, threshold: int)
    requires Wf(db, stale, nums) && db.mem == map[]
    ensures View(Open(db.disk, threshold)) == View(db)
  {
    hide Name, Numbered, Numbers, FileAt, TableOf, TablesMap, Covered;
    OpenOrder(db.disk, db.nextSeq, threshold);
    assert NamesOf(stale + nums) == NamesOf(stale) + NamesOf(nums);
    var a, b := TablesMap(NamesOf(stale), db.disk), TablesMap(NamesOf(nums), db.disk);
    TablesMapAppend(NamesOf(stale), NamesOf(nums), db.disk);
    StaleBelowLive(db, stale, nums);
    assert a + b == b;
  }

  lemma StaleBelowLive(db: Db, stale: seq<nat>, nums: seq<nat>)
    requires Wf(db, stale, nums)
    ensures TablesMap(NamesOf(stale), db.disk).Keys <= TablesMap(NamesOf(nums), db.disk).Keys
  {
    hide Name, Numbered, Numbers, FileAt;
    if stale != [] {
      assert stale[0] in stale;
      var keys := FileAt(db.disk, Name(nums[0])).Keys;
      StaleMapIsCovered(db.disk, stale, keys);
      assert db.tables[0] in db.tables;
      TableIsCovered(db.tables, db.disk, db.tables[0]);
    }
  }

  lemma {:induction false} StaleMapIsCovered(disk: Disk, stale: seq<nat>, keys: set<bytes>)
    requires forall n :: n in stale ==> Covered(disk, n, keys)
    ensures TablesMap(NamesOf(stale), disk).Keys <= keys
    decreases |stale|
  {
    hide Name;
    if stale != [] {
      var init := stale[..|stale| - 1];
      assert NamesOf(stale)[..|stale| - 1] == NamesOf(init);
      StaleMapIsCovered(disk, init, keys);
      assert stale[|stale| - 1] in stale;
    }
  }

  /** The next number that opening picks exceeds every file's number: no file is numbered above their count. */
  ghost predicate Contiguous(disk: Disk) {
    Numbered(disk, |disk| + 1)
  }

  lemma OpenIsWf(disk: Disk, threshold: int)
    requires Contiguous(disk) && |disk| + 1 <= SEQ_LIMIT
    ensures Wf(Open(disk, threshold), [], Numbers(disk, |disk| + 1))
  {
    hide Name, Covered, Numbered, Numbers, FileAt, TableOf;
    OpenOrder(disk, |disk| + 1, threshold);
  }

  // ---------- sessions ----------

  datatype Command = PutCmd(key: bytes, value: bytes) | GetCmd(key: bytes) | CompactCmd(stuck: set<bytes>)

  /** A compaction that could not remove all old files is still `Merged`. */
  datatype Answer = Stored | Found(value: Option<bytes>) | Merged | Error

  ghost function Execute(db: Db, cmds: seq<Command>): (Db, seq<Answer>)
    decreases |cmds|
  {
    if cmds == [] then (db, []) else
      var (db', answer) := ExecuteOne(db, cmds[0]);
      var (last, answers) := Execute(db', cmds[1..]);
      (last, [answer] + answers)
  }

  ghost function ExecuteOne(db: Db, cmd: Command): (Db, Answer) {
    match cmd
    case PutCmd(k, v) => var r := Put(db, k, v); (r.db, if r.failed then Error else Stored)
    case GetCmd(k) => (db, match Get(db, k) case Failure => Error case Success(v) => Found(v))
    case CompactCmd(stuck) => var r := Compact(db, stuck); (r.db, if r.result.Unmerged? then Error else Merged)
  }

  /** The same commands on a plain map. */
  function ExecutePlain(m: Table, cmds: seq<Command>): (Table, seq<Answer>)
    decreases |cmds|
  {
    if cmds == [] then (m, []) else
      var (m', answer) := ExecutePlainOne(m, cmds[0]);
      var (last, answers) := ExecutePlain(m', cmds[1..]);
      (last, [answer] + answers)
  }

  function ExecutePlainOne(m: Table, cmd: Command): (Table, Answer) {
    match cmd
    case PutCmd(k, v) => (m[k := v], Stored)
    case GetCmd(k) => (m, Found(Lookup(m, k)))
    case CompactCmd(_) => (m, Merged)
  }

  ghost predicate ShortCommands(cmds: seq<Command>) {
    forall c :: c in cmds && c.PutCmd? ==> Short(c.key) && Short(c.value)
  }

  lemma CommandRefines(db: Db, stale: seq<nat>, nums: seq<nat>, cmd: Command)
    returns (stale': seq<nat>, nums': seq<nat>)
    requires Wf(db, stale, nums) && ShortCommands([cmd]) && db.nextSeq < SEQ_LIMIT
    ensures var (db', answer) := ExecuteOne(db, cmd);
      Wf(db', stale', nums') && db'.nextSeq <= db.nextSeq + 1 && db'.threshold == db.threshold &&
      (View(db'), answer) == ExecutePlainOne(View(db), cmd)
  {
    hide Name, Wf, View, Put, Get, Compact;
    stale', nums' := stale, nums;
    assert cmd in [cmd];
    match cmd {
      case PutCmd(k, v) => nums' := PutRefines(db, stale, nums, k, v);
      case GetCmd(k) => GetRefines(db, stale, nums, k);
      case CompactCmd(stuck) => stale', nums' := CompactRefines(db, stale, nums, stuck);
    }
  }

  lemma FirstCommand(cmds: seq<Command>)
    requires ShortCommands(cmds) && cmds != []
    ensures ShortCommands([cmds[0]]) && ShortCommands(cmds[1..])
  {
    assert cmds[0] in cmds && forall c :: c in cmds[1..] ==> c in cmds;
  }

  lemma {:induction false} SessionRefines(db: Db, stale: seq<nat>, nums: seq<nat>, cmds: seq<Command>)
    returns (stale': seq<nat>, nums': seq<nat>)
    requires Wf(db, stale, nums) && ShortCommands(cmds) && db.nextSeq + |cmds| <= SEQ_LIMIT
    ensures var (db', answers) := Execute(db, cmds);
      Wf(db', stale', nums') && db'.nextSeq <= db.nextSeq + |cmds| && db'.threshold == db.threshold &&
      (View(db'), answers) == ExecutePlain(View(db), cmds)
    decreases |cmds|
  {
    hide Wf, View, ExecuteOne, ExecutePlainOne, ShortCommands;
    stale', nums' := stale, nums;
    if cmds != [] {
      FirstCommand(cmds);
      stale', nums' := CommandRefines(db, stale, nums, cmds[0]);
      stale', nums' := SessionRefines(ExecuteOne(db, cmds[0]).0, stale', nums', cmds[1..]);
    }
  }

  /** The session answers like a map, its Close succeeds, and the next Open finds that map. */
  ghost predicate KeepsData(disk: Disk, threshold: int, cmds: seq<Command>) {
    var (db, answers) := Execute(Open(disk, threshold), cmds);
    var (m, plain) := ExecutePlain(View(Open(disk, threshold)), cmds);
    answers == plain && !Close(db).failed && View(Open(Close(db).db.disk, threshold)) == m
  }

  lemma SessionKeepsData(disk: Disk, threshold: int, cmds: seq<Command>)
    requires Contiguous(disk) && ShortCommands(cmds) && |disk| + |cmds| + 2 <= SEQ_LIMIT
    ensures KeepsData(disk, threshold, cmds)
  {
    hide Name;
    OpenIsWf(disk, threshold);
    var stale, nums := SessionRefines(Open(disk, threshold), [], Numbers(disk, |disk| + 1), cmds);
    var db := Execute(Open(disk, threshold), cmds).0;
    nums := CloseRefines(db, stale, nums);
    ReopenKeepsView(Close(db).db, stale, nums, threshold);
  }
}
