/** A run from an empty directory that loses a stored value. */
module LosingRun {
  import opened Bytes
  import opened Outcomes
  import opened TableFormat
  import opened TableNames
  import opened Lsm
  import opened Sessions
  import opened Reopening
  import opened SessionChains

  const KEY: bytes := [97]
  const FIRST: seq<Command> := [PutCmd(KEY, [0]), PutCmd([98], [0]), CompactCmd({})]
  const SECOND: seq<Command> := [PutCmd(KEY, [1])]

  /** With threshold 1 every put writes a table. */
  lemma PutFlushes(db: Db, nums: seq<nat>, key: bytes, value: bytes)
    requires Wf(db, [], nums) && db.threshold == 1 && Short(key) && Short(value) && db.nextSeq < SEQ_LIMIT
    ensures var r := Put(db, key, value);
      !r.failed && Wf(r.db, [], nums + [db.nextSeq]) && View(r.db) == View(db)[key := value] && r.db.threshold == 1 &&
      r.db.nextSeq == db.nextSeq + 1 && r.db.mem == map[]
  {
    hide Name, TablesMap, NamesOf, View, ShortTable, Short, Numbered, Numbers, StaleCovered;
    Remember(db, key, value);
    FlushRefines(db.(mem := db.mem[key := value]), [], nums);
  }

  /** When no older file is left behind, compaction leaves nothing but the merged file. */
  lemma CleanCompaction(db: Db, nums: seq<nat>)
    requires Wf(db, [], nums) && |nums| > 1 && db.nextSeq < SEQ_LIMIT
    ensures var r := Compact(db, {});
      r.result.Compacted? && Wf(r.db, [], [db.nextSeq]) && View(r.db) == View(db) && r.db.nextSeq == db.nextSeq + 1 &&
      r.db.disk.Keys == {Name(db.nextSeq)} && r.db.mem == db.mem
  {
    hide Name, DirWf, NamesOf, ShortTable, View;
    OnlyMerged(db, nums);
    var stale', nums' := CompactRefines(db, [], nums, {});
    NothingStale(Compact(db, {}).db, stale', db.nextSeq);
  }

  lemma OnlyMerged(db: Db, nums: seq<nat>)
    requires Wf(db, [], nums) && |nums| > 1 && db.nextSeq < SEQ_LIMIT
    ensures var r := Compact(db, {});
      r.result.Compacted? && r.db.disk.Keys == {Name(db.nextSeq)} && r.db.mem == db.mem &&
      r.db.nextSeq == db.nextSeq + 1
  {
    hide Name, WriteTable, Compact, LiveMap, ShortTable, DirWf, Names, NamesOf;
    var disk' := CompactOutcome(db, [], nums, {});
    AllAreLive(db, nums);
    WrittenHas(db.disk, db.nextSeq, LiveMap(db.disk, nums));
    NotRemoved(db.disk, db.nextSeq, [], nums);
    var written := WriteTable(db.disk, Name(db.nextSeq), LiveMap(db.disk, nums)).value;
    NewKeyOnly(written, db.disk, Name(db.nextSeq), Names(db.tables));
    NothingStuck(Names(db.tables));
  }

  lemma NewKeyOnly(written: Disk, disk: Disk, name: bytes, removed: set<bytes>)
    requires written.Keys == disk.Keys + {name} && disk.Keys <= removed && name !in removed
    ensures (written - (removed - {})).Keys == {name}
  {
  }

  lemma NothingStuck(names: set<bytes>)
    ensures names * {} == {}
  {
  }

  lemma NothingStale(db: Db, stale: seq<nat>, n: nat)
    requires Wf(db, stale, [n]) && db.nextSeq == n + 1 && db.disk.Keys == {Name(n)}
    ensures stale == []
  {
    hide Name, Numbered, ShortTable, StaleCovered;
    if stale != [] {
      var all := stale + [n];
      assert all[0] < all[|stale|];
      assert Name(all[0]) in db.disk.Keys;
      NameOrder(all[0], n);
    }
  }

  lemma AllAreLive(db: Db, nums: seq<nat>)
    requires Wf(db, [], nums)
    ensures db.disk.Keys <= Names(db.tables)
  {
    hide Name;
    forall f | f in db.disk
      ensures f in db.tables
    {
      var k :| 1 <= k < db.nextSeq && f == Name(k);
      NumbersHasAll(db.disk, db.nextSeq, k);
      assert [] + nums == nums;
      var i :| 0 <= i < |nums| && nums[i] == k;
      assert db.tables[i] == f;
    }
  }

  lemma EmptyDirectory(threshold: int)
    ensures Contiguous(map[]) && Filled(map[])
    ensures Wf(Open(map[], threshold), [], []) && View(Open(map[], threshold)) == map[]
    ensures Open(map[], threshold).nextSeq == 1
  {
    hide Name;
    OpenIsWf(map[], threshold);
    assert Numbers(map[], 1) == [];
  }

  /** After the first session there is one file, number 3, with both rows. */
  lemma FirstSession() returns (db: Db)
    ensures Execute(Open(map[], 1), FIRST) == (db, [Stored, Stored, Merged]) && Close(db) == Effect(db, false)
    ensures Wf(db, [], [3]) && db.nextSeq == 4 && db.disk.Keys == {Name(3)}
    ensures View(db) == map[KEY := [0], [98] := [0]] && db.mem == map[]
  {
    hide Name, Wf, View, Put, Compact, Open;
    EmptyDirectory(1);
    var db0 := Open(map[], 1);
    OpenedThreshold();
    PutFlushes(db0, [], KEY, [0]);
    var db1 := Put(db0, KEY, [0]).db;
    assert [] + [1] == [1] && [1] + [2] == [1, 2];
    PutFlushes(db1, [1], [98], [0]);
    var db2 := Put(db1, [98], [0]).db;
    CleanCompaction(db2, [1, 2]);
    db := Compact(db2, {}).db;
    ThreeCommands(db0, FIRST[0], FIRST[1], FIRST[2]);
  }

  lemma OpenedThreshold()
    ensures Open(map[], 1).threshold == 1
  {
    hide TableOf, Keys;
  }

  lemma ThreeCommands(db: Db, a: Command, b: Command, c: Command)
    ensures var (db1, x) := ExecuteOne(db, a);
      var (db2, y) := ExecuteOne(db1, b);
      var (db3, z) := ExecuteOne(db2, c);
      Execute(db, [a, b, c]) == (db3, [x, y, z])
  {
    hide ExecuteOne;
    var (db1, x) := ExecuteOne(db, a);
    var (db2, y) := ExecuteOne(db1, b);
    var (db3, z) := ExecuteOne(db2, c);
    assert [a, b, c][1..] == [b, c] && [b, c][1..] == [c] && [c][1..] == [];
    var none: seq<Answer> := [];
    assert [z] + none == [z] && [y] + [z] == [y, z] && [x] + [y, z] == [x, y, z];
    assert Execute(db3, []) == (db3, none);
    assert Execute(db2, [c]) == (db3, [z]);
    assert Execute(db1, [b, c]) == (db3, [y, z]);
  }

  /** From an empty directory, a compaction, a reopening and one more put: the put is reported as stored, and
      the next opening has forgotten it. */
  lemma LosingRun() returns (disk: Disk)
    ensures RunSessions(map[], 1, [FIRST, SECOND]) == Success((disk, [Stored, Stored, Merged, Stored]))
    ensures Lookup(View(Open(disk, 1)), KEY) == Some([0])
    ensures Lookup(RunPlain(map[], [FIRST, SECOND]).0, KEY) == Some([1])
  {
    hide Name, View, Open, Put, Close, Execute, Wf;
    var db := FirstSession();
    disk := SecondSession(db);
    TwoSessions(map[], 1, FIRST, SECOND);
    assert [Stored, Stored, Merged] + [Stored] == [Stored, Stored, Merged, Stored];
    PlainSessions();
  }

  lemma SecondSession(db: Db) returns (disk: Disk)
    requires Wf(db, [], [3]) && db.nextSeq == 4 && db.disk.Keys == {Name(3)} && db.mem == map[]
    requires View(db) == map[KEY := [0], [98] := [0]]
    ensures var (last, answers) := Execute(Open(db.disk, 1), SECOND);
      answers == [Stored] && Close(last) == Effect(last, false) && last.disk == disk
    ensures Lookup(View(Open(disk, 1)), KEY) == Some([0])
  {
    hide Name, Numbers, Numbered, FileAt, Open, Put, Close, View, Execute;
    NameOrder(2, 3);
    assert |db.disk.Keys| == 1 && |db.disk| == |db.disk.Keys|;
    OneTable(db.disk, 3);
    MergedView(db);
    StaleRead(db.disk, 4, 3, 1, KEY, [1]);
    OneCommand(db.disk, 1, SECOND[0]);
    FreePut(db.disk, KEY, [1]);
    assert SECOND == [SECOND[0]];
    disk := Close(Put(Open(db.disk, 1), KEY, [1]).db).db.disk;
  }

  lemma MergedView(db: Db)
    requires db.tables == NamesOf([3]) && db.mem == map[]
    ensures View(db) == LiveMap(db.disk, [3])
  {
    hide TablesMap, Name;
    assert TablesMap(db.tables, db.disk) + map[] == TablesMap(db.tables, db.disk);
  }

  lemma FreePut(disk: Disk, key: bytes, value: bytes)
    requires Name(|disk| + 1) !in disk
    ensures var r := Put(Open(disk, 1), key, value);
      !r.failed && Close(r.db) == Effect(r.db, false)
  {
    hide Name, TableOf, EncodeTable;
    assert Open(disk, 1).mem[key := value] == map[key := value];
    assert |map[key := value]| == 1;
  }

  lemma TwoSessions(disk: Disk, threshold: int, a: seq<Command>, b: seq<Command>)
    ensures var (db, x) := Execute(Open(disk, threshold), a);
      var (last, y) := Execute(Open(Close(db).db.disk, threshold), b);
      !Close(db).failed && !Close(last).failed ==>
        RunSessions(disk, threshold, [a, b]) == Success((Close(last).db.disk, x + y))
  {
    hide Open, Execute, Close;
    var (db, x) := Execute(Open(disk, threshold), a);
    var (last, y) := Execute(Open(Close(db).db.disk, threshold), b);
    assert [a, b][1..] == [b] && [b][1..] == [];
    var none: seq<Answer> := [];
    assert y + none == y;
    if !Close(db).failed && !Close(last).failed {
      assert RunSessions(Close(last).db.disk, threshold, []) == Success((Close(last).db.disk, none));
      assert RunSessions(Close(db).db.disk, threshold, [b]) == Success((Close(last).db.disk, y));
    }
  }

  lemma PlainSessions()
    ensures Lookup(RunPlain(map[], [FIRST, SECOND]).0, KEY) == Some([1])
  {
    assert [FIRST, SECOND][1..] == [SECOND] && [SECOND][1..] == [];
    var m := ExecutePlain(map[], FIRST).0;
    var m' := ExecutePlainOne(m, SECOND[0]).0;
    assert m' == m[KEY := [1]];
    assert ExecutePlain(m, SECOND).0 == ExecutePlain(m', SECOND[1..]).0 == m';
    assert RunPlain(m, [SECOND]).0 == RunPlain(m', []).0;
  }
}
