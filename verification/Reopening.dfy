/** What a session leaves for the next one to open, and exactly when the next one loses data. */
module Reopening {
  import opened Bytes
  import opened Outcomes
  import opened TableFormat
  import opened TableNames
  import opened Lsm
  import opened Sessions

  // ---------- numbers without a file ----------

  ghost predicate Missing(disk: Disk, n: nat, g: nat) {
    1 <= g < n - 1 && Name(g) !in disk
  }

  /** The newest possible number below `n` is taken, an older one is not. */
  ghost predicate Gap(disk: Disk, n: nat) {
    n > 1 && Name(n - 1) in disk && exists g :: Missing(disk, n, g)
  }

  /** As many files as there are numbers below `n`. */
  ghost predicate Full(disk: Disk, n: nat) {
    n == |disk| + 1
  }

  lemma GapIsNotContiguous(disk: Disk, n: nat)
    requires Numbered(disk, n) && n <= SEQ_LIMIT && Gap(disk, n)
    ensures !Contiguous(disk)
  {
    hide Name, GoodFile, Numbers, Open, NamesOf;
    OpenOrder(disk, n, 1);
    FullNumbers(disk, n - 1);
    CountBelow(disk, n);
    assert |disk| < n - 1;
    forall k | 1 <= k < |disk| + 1
      ensures Name(n - 1) != Name(k)
    {
      NameOrder(n - 1, k);
    }
  }

  lemma CountBelow(disk: Disk, n: nat)
    requires n > 1 && Name(n - 1) in disk
    ensures |Numbers(disk, n)| == |Numbers(disk, n - 1)| + 1
  {
    hide Name;
  }

  lemma {:induction false} FullNumbers(disk: Disk, n: nat)
    requires n >= 1
    ensures |Numbers(disk, n)| <= n - 1
    ensures |Numbers(disk, n)| == n - 1 ==> forall k :: 1 <= k < n ==> Name(k) in disk
  {
    hide Name;
    if n > 1 {
      FullNumbers(disk, n - 1);
    }
  }

  /** A further file: what was full stays full, and a gap stays a gap. */
  lemma WriteNumbering(disk: Disk, n: nat, m: Table)
    requires Numbered(disk, n) && 1 <= n < SEQ_LIMIT
    ensures WriteTable(disk, Name(n), m).Success?
    ensures var disk' := WriteTable(disk, Name(n), m).value;
      (Full(disk, n) ==> Full(disk', n + 1)) && (Gap(disk, n) ==> Gap(disk', n + 1))
  {
    hide Name, EncodeTable, TableOf, Numbered;
    NextNameIsNew(disk, n);
    var disk' := WriteTable(disk, Name(n), m).value;
    if Gap(disk, n) {
      var g :| Missing(disk, n, g);
      assert Missing(disk', n + 1, g);
    }
  }

  /** Removing one of the older files makes a gap; a gap survives any removal. */
  lemma RemovalNumbering(disk: Disk, n: nat, m: Table, removed: set<bytes>)
    requires Numbered(disk, n) && 1 <= n < SEQ_LIMIT && Name(n) !in removed
    requires (exists g :: 1 <= g < n && Name(g) in removed) || Gap(disk, n)
    ensures WriteTable(disk, Name(n), m).Success?
    ensures Gap(WriteTable(disk, Name(n), m).value - removed, n + 1)
  {
    hide Name, EncodeTable, TableOf, Numbered;
    NextNameIsNew(disk, n);
    var disk' := WriteTable(disk, Name(n), m).value - removed;
    if Gap(disk, n) {
      var g :| Missing(disk, n, g);
      assert Missing(disk', n + 1, g);
    } else {
      var g :| 1 <= g < n && Name(g) in removed;
      assert Missing(disk', n + 1, g);
    }
  }

  // ---------- what the commands do to the numbering ----------

  /** The command is a compaction that removes at least one file. */
  ghost predicate Removes(db: Db, cmd: Command) {
    cmd.CompactCmd? && |db.tables| > 1 && !(Names(db.tables) <= cmd.stuck)
  }

  ghost predicate SessionRemoves(db: Db, cmds: seq<Command>)
    decreases |cmds|
  {
    cmds != [] && (Removes(db, cmds[0]) || SessionRemoves(ExecuteOne(db, cmds[0]).0, cmds[1..]))
  }

  lemma FlushNumbering(db: Db)
    requires Numbered(db.disk, db.nextSeq) && 1 <= db.nextSeq < SEQ_LIMIT
    ensures Flush(db).Success?
    ensures Full(db.disk, db.nextSeq) ==> Full(Flush(db).value.disk, Flush(db).value.nextSeq)
    ensures Gap(db.disk, db.nextSeq) ==> Gap(Flush(db).value.disk, Flush(db).value.nextSeq)
  {
    hide Name, WriteTable, Numbered, Full, Gap;
    WriteNumbering(db.disk, db.nextSeq, db.mem);
  }

  lemma CompactNumbering(db: Db, stale: seq<nat>, nums: seq<nat>, stuck: set<bytes>)
    requires Wf(db, stale, nums) && db.nextSeq < SEQ_LIMIT && |nums| > 1
    ensures var db' := Compact(db, stuck).db;
      (Full(db.disk, db.nextSeq) && Names(db.tables) <= stuck ==> Full(db'.disk, db'.nextSeq)) &&
      (Gap(db.disk, db.nextSeq) || !(Names(db.tables) <= stuck) ==> Gap(db'.disk, db'.nextSeq))
  {
    hide Name, WriteTable, Full, Gap, Compact, LiveMap, ShortTable, DirWf, Names, NamesOf;
    var disk' := CompactOutcome(db, stale, nums, stuck);
    ReplaceNumbering(db.disk, db.nextSeq, stale, nums, LiveMap(db.disk, nums), stuck);
  }

  lemma ReplaceNumbering(disk: Disk, n: nat, stale: seq<nat>, nums: seq<nat>, m: Table, stuck: set<bytes>)
    requires DirWf(disk, n, stale, nums) && n < SEQ_LIMIT
    ensures WriteTable(disk, Name(n), m).Success?
    ensures var disk' := WriteTable(disk, Name(n), m).value - (Names(NamesOf(nums)) - stuck);
      (Full(disk, n) && Names(NamesOf(nums)) <= stuck ==> Full(disk', n + 1)) &&
      (Gap(disk, n) || !(Names(NamesOf(nums)) <= stuck) ==> Gap(disk', n + 1))
  {
    hide Name, WriteTable, Full, Gap, Names, NamesOf, Numbers, Numbered;
    var removed := Names(NamesOf(nums)) - stuck;
    NotRemoved(disk, n, stale, nums);
    NoneLeft(Names(NamesOf(nums)), stuck);
    WriteNumbering(disk, n, m);
    if removed != {} {
      RemovedNumber(disk, n, stale, nums, removed);
      RemovalNumbering(disk, n, m, removed);
    } else {
      NothingRemoved(WriteTable(disk, Name(n), m).value, removed);
    }
  }

  lemma NoneLeft(all: set<bytes>, stuck: set<bytes>)
    ensures all - stuck == {} <==> all <= stuck
  {
    if all - stuck == {} {
      assert forall f :: f in all ==> f !in all - stuck ==> f in stuck;
    }
  }

  lemma NothingRemoved(disk: Disk, removed: set<bytes>)
    requires removed == {}
    ensures disk - removed == disk
  {
  }

  lemma RemovedNumber(disk: Disk, n: nat, stale: seq<nat>, nums: seq<nat>, removed: set<bytes>)
    requires Numbers(disk, n) == stale + nums && removed <= Names(NamesOf(nums)) && removed != {}
    ensures exists g :: 1 <= g < n && Name(g) in removed
  {
    hide Name, Numbers;
    var f :| f in removed;
    assert f in NamesOf(nums);
    var i :| 0 <= i < |nums| && NamesOf(nums)[i] == f;
    LiveNumber(disk, n, stale, nums, nums[i]);
  }

  lemma CommandNumbering(db: Db, stale: seq<nat>, nums: seq<nat>, cmd: Command)
    requires Wf(db, stale, nums) && db.nextSeq < SEQ_LIMIT
    ensures var db' := ExecuteOne(db, cmd).0;
      (Full(db.disk, db.nextSeq) && !Removes(db, cmd) ==> Full(db'.disk, db'.nextSeq)) &&
      (Gap(db.disk, db.nextSeq) || Removes(db, cmd) ==> Gap(db'.disk, db'.nextSeq))
  {
    hide Name, Numbered, Numbers, Full, Gap, Flush, View, Get, ShortTable, StaleCovered, NamesOf, Names;
    match cmd {
      case PutCmd(k, v) => FlushNumbering(db.(mem := db.mem[k := v]));
      case GetCmd(k) =>
      case CompactCmd(stuck) =>
        if |nums| > 1 {
          CompactNumbering(db, stale, nums, stuck);
        }
    }
  }

  lemma {:induction false} SessionNumbering(db: Db, stale: seq<nat>, nums: seq<nat>, cmds: seq<Command>)
    requires Wf(db, stale, nums) && ShortCommands(cmds) && db.nextSeq + |cmds| <= SEQ_LIMIT
    ensures var db' := Execute(db, cmds).0;
      (Full(db.disk, db.nextSeq) && !SessionRemoves(db, cmds) ==> Full(db'.disk, db'.nextSeq)) &&
      (Gap(db.disk, db.nextSeq) || SessionRemoves(db, cmds) ==> Gap(db'.disk, db'.nextSeq))
    decreases |cmds|
  {
    hide Wf, View, ExecuteOne, ExecutePlainOne, ShortCommands, Removes, Full, Gap;
    if cmds != [] {
      FirstCommand(cmds);
      CommandNumbering(db, stale, nums, cmds[0]);
      var stale', nums' := CommandRefines(db, stale, nums, cmds[0]);
      SessionNumbering(ExecuteOne(db, cmds[0]).0, stale', nums', cmds[1..]);
    }
  }

  lemma CloseNumbering(db: Db, stale: seq<nat>, nums: seq<nat>)
    requires Wf(db, stale, nums) && db.nextSeq < SEQ_LIMIT
    ensures Full(db.disk, db.nextSeq) ==> Full(Close(db).db.disk, Close(db).db.nextSeq)
    ensures Gap(db.disk, db.nextSeq) ==> Gap(Close(db).db.disk, Close(db).db.nextSeq)
  {
    hide Name, Numbered, Numbers, Full, Gap, Flush, ShortTable, StaleCovered, NamesOf;
    FlushNumbering(db);
  }

  /** The directory that a session leaves. */
  ghost function After(disk: Disk, threshold: int, cmds: seq<Command>): Disk {
    Close(Execute(Open(disk, threshold), cmds).0).db.disk
  }

  lemma FreshStart(disk: Disk, threshold: int)
    requires Contiguous(disk) && |disk| + 1 <= SEQ_LIMIT
    ensures Wf(Open(disk, threshold), [], Numbers(disk, |disk| + 1))
    ensures Open(disk, threshold).nextSeq == |disk| + 1 && Full(disk, |disk| + 1)
  {
    hide Wf, Contiguous, Numbers;
    OpenIsWf(disk, threshold);
  }

  lemma SessionEnds(disk: Disk, threshold: int, cmds: seq<Command>) returns (stale: seq<nat>, nums: seq<nat>, db: Db)
    requires Contiguous(disk) && ShortCommands(cmds) && |disk| + |cmds| + 2 <= SEQ_LIMIT
    ensures db == Close(Execute(Open(disk, threshold), cmds).0).db
    ensures Wf(db, stale, nums) && db.nextSeq <= |disk| + |cmds| + 2
    ensures if SessionRemoves(Open(disk, threshold), cmds) then Gap(db.disk, db.nextSeq) else Full(db.disk, db.nextSeq)
  {
    hide Wf, View, Open, Execute, ShortCommands, Close, Contiguous, Numbers, SessionRemoves, Gap;
    FreshStart(disk, threshold);
    var start := Open(disk, threshold);
    assert start.disk == disk by { OpenedDisk(disk, threshold); }
    SessionNumbering(start, [], Numbers(disk, |disk| + 1), cmds);
    stale, nums := SessionRefines(start, [], Numbers(disk, |disk| + 1), cmds);
    db := Execute(start, cmds).0;
    CloseNumbering(db, stale, nums);
    nums := CloseRefines(db, stale, nums);
    db := Close(db).db;
  }

  lemma OpenedDisk(disk: Disk, threshold: int)
    ensures Open(disk, threshold).disk == disk
  {
    hide TableOf, Keys;
  }

  /** A session leaves a contiguous directory if and only if none of its compactions removed a file. */
  lemma StaysContiguousIff(disk: Disk, threshold: int, cmds: seq<Command>)
    requires Contiguous(disk) && ShortCommands(cmds) && |disk| + |cmds| + 2 <= SEQ_LIMIT
    ensures Contiguous(After(disk, threshold, cmds)) <==> !SessionRemoves(Open(disk, threshold), cmds)
    ensures |After(disk, threshold, cmds)| <= |disk| + |cmds| + 1
  {
    hide Name, View, Open, Execute, Close, ShortCommands, SessionRemoves, Numbers, NamesOf, ShortTable, StaleCovered;
    var stale, nums, db := SessionEnds(disk, threshold, cmds);
    OpenOrder(db.disk, db.nextSeq, threshold);
    FullNumbers(db.disk, db.nextSeq);
    if SessionRemoves(Open(disk, threshold), cmds) {
      GapIsNotContiguous(db.disk, db.nextSeq);
    }
  }

  // ---------- no table file is empty ----------

  ghost predicate Filled(disk: Disk) {
    forall f :: f in disk ==> FileAt(disk, f) != map[]
  }

  lemma WriteKeepsFilled(disk: Disk, n: nat, m: Table)
    requires Filled(disk) && ShortTable(m) && m != map[] && WriteTable(disk, Name(n), m).Success?
    ensures Filled(WriteTable(disk, Name(n), m).value)
  {
    hide Name, TableOf, EncodeTable, FileMap;
    WrittenFile(m);
  }

  lemma FlushKeepsFilled(db: Db)
    requires Filled(db.disk) && ShortTable(db.mem) && db.mem != map[] && Flush(db).Success?
    ensures Filled(Flush(db).value.disk)
  {
    hide Name, WriteTable, Filled;
    WriteKeepsFilled(db.disk, db.nextSeq, db.mem);
  }

  lemma RemovalKeepsFilled(disk: Disk, removed: set<bytes>)
    requires Filled(disk)
    ensures Filled(disk - removed)
  {
    hide FileMap;
    assert forall f :: f in disk - removed ==> FileAt(disk - removed, f) == FileAt(disk, f);
  }

  lemma CompactKeepsFilled(db: Db, stale: seq<nat>, nums: seq<nat>, stuck: set<bytes>)
    requires Wf(db, stale, nums) && db.nextSeq < SEQ_LIMIT && |nums| > 1 && Filled(db.disk)
    ensures Filled(Compact(db, stuck).db.disk)
  {
    hide Name, WriteTable, Numbered, Numbers, Filled, Compact, ShortTable, StaleCovered, LiveMap;
    var disk' := CompactOutcome(db, stale, nums, stuck);
    LiveIsFilled(db.disk, db.nextSeq, stale, nums);
    WriteKeepsFilled(db.disk, db.nextSeq, LiveMap(db.disk, nums));
    RemovalKeepsFilled(WriteTable(db.disk, Name(db.nextSeq), LiveMap(db.disk, nums)).value, Names(db.tables) - stuck);
  }

  lemma LiveIsFilled(disk: Disk, n: nat, stale: seq<nat>, nums: seq<nat>)
    requires Numbers(disk, n) == stale + nums && nums != [] && Filled(disk)
    ensures LiveMap(disk, nums) != map[]
  {
    hide Name, Numbers, FileAt, TablesMap;
    LiveNumber(disk, n, stale, nums, nums[0]);
    assert NamesOf(nums)[0] in NamesOf(nums);
    TableIsCovered(NamesOf(nums), disk, Name(nums[0]));
  }

  lemma CommandKeepsFilled(db: Db, stale: seq<nat>, nums: seq<nat>, cmd: Command)
    requires Wf(db, stale, nums) && ShortCommands([cmd]) && db.nextSeq < SEQ_LIMIT && Filled(db.disk)
    ensures Filled(ExecuteOne(db, cmd).0.disk)
  {
    hide Name, Numbered, Numbers, Filled, Flush, View, Get, StaleCovered, NamesOf, ShortTable, Short;
    assert cmd in [cmd];
    match cmd {
      case PutCmd(k, v) =>
        var db' := db.(mem := db.mem[k := v]);
        Remember(db, k, v);
        FlushNumbering(db');
        FlushKeepsFilled(db');
      case GetCmd(k) =>
      case CompactCmd(stuck) =>
        if |nums| > 1 {
          CompactKeepsFilled(db, stale, nums, stuck);
        }
    }
  }

  lemma {:induction false} SessionKeepsFilled(db: Db, stale: seq<nat>, nums: seq<nat>, cmds: seq<Command>)
    requires Wf(db, stale, nums) && ShortCommands(cmds) && db.nextSeq + |cmds| < SEQ_LIMIT && Filled(db.disk)
    ensures Filled(Close(Execute(db, cmds).0).db.disk)
    decreases |cmds|
  {
    hide Name, Numbered, Numbers, View, ExecuteOne, ExecutePlainOne, ShortCommands, Filled, Flush, ShortTable;
    if cmds != [] {
      FirstCommand(cmds);
      CommandKeepsFilled(db, stale, nums, cmds[0]);
      var stale', nums' := CommandRefines(db, stale, nums, cmds[0]);
      SessionKeepsFilled(ExecuteOne(db, cmds[0]).0, stale', nums', cmds[1..]);
    } else if db.mem != map[] {
      FlushNumbering(db);
      FlushKeepsFilled(db);
    }
  }

  // ---------- when reopening loses data ----------

  /** Every modest session with this threshold keeps its data on this directory. */
  ghost predicate Durable(disk: Disk, threshold: int) {
    forall cmds :: ShortCommands(cmds) && |disk| + |cmds| + 2 <= SEQ_LIMIT ==> KeepsData(disk, threshold, cmds)
  }

  /** Whatever the threshold, opening is safe exactly when no file's number exceeds the number of files. */
  lemma DurableIffContiguous(disk: Disk, n: nat, threshold: int)
    requires Numbered(disk, n) && n <= SEQ_LIMIT && |disk| + 3 <= SEQ_LIMIT && Filled(disk)
    ensures Durable(disk, threshold) <==> Contiguous(disk)
  {
    hide Name, KeepsData, ShortCommands, FileAt;
    if Contiguous(disk) {
      forall cmds | ShortCommands(cmds) && |disk| + |cmds| + 2 <= SEQ_LIMIT
        ensures KeepsData(disk, threshold, cmds)
      {
        SessionKeepsData(disk, threshold, cmds);
      }
    } else {
      var newest := NewestFile(disk, n);
      var cmds := LosingSession(disk, n, newest, threshold);
    }
  }

  /** The file with the highest number, when that number exceeds the count of files. */
  lemma NewestFile(disk: Disk, n: nat) returns (newest: nat)
    requires Numbered(disk, n) && n <= SEQ_LIMIT && !Contiguous(disk)
    ensures |disk| + 1 <= newest < n && Numbers(disk, n) != []
    ensures newest == Numbers(disk, n)[|Numbers(disk, n)| - 1]
  {
    hide Name;
    var f :| f in disk && !exists m :: 1 <= m < |disk| + 1 && f == Name(m);
    var k :| 1 <= k < n && f == Name(k);
    NumbersHasAll(disk, n, k);
    var i :| 0 <= i < |Numbers(disk, n)| && Numbers(disk, n)[i] == k;
    newest := Numbers(disk, n)[|Numbers(disk, n)| - 1];
  }

  /** Overwriting a key of the newest file is lost, or collides with an existing file, on every threshold. */
  lemma LosingSession(disk: Disk, n: nat, newest: nat, threshold: int) returns (cmds: seq<Command>)
    requires Numbered(disk, n) && n <= SEQ_LIMIT && |disk| + 3 <= SEQ_LIMIT
    requires Numbers(disk, n) != [] && newest == Numbers(disk, n)[|Numbers(disk, n)| - 1] && |disk| + 1 <= newest < n
    requires FileAt(disk, Name(newest)) != map[]
    ensures ShortCommands(cmds) && |cmds| == 1 && !KeepsData(disk, threshold, cmds)
  {
    hide Name, Numbered, Numbers, FileAt, View, Open, Put, Close, Short, WriteTable;
    var old' := FileAt(disk, Name(newest));
    var key :| key in old';
    var value := OtherValue(old'[key]);
    FileIsShort(disk, n, newest, key);
    cmds := [PutCmd(key, value)];
    OneCommand(disk, threshold, cmds[0]);
    if Name(|disk| + 1) in disk {
      CollidingPut(disk, threshold, key, value);
    } else {
      StaleRead(disk, n, newest, threshold, key, value);
    }
  }

  lemma OtherValue(old': bytes) returns (value: bytes)
    ensures value != old' && Short(value)
  {
    value := if old' == [] then [0] else [];
  }

  lemma OneCommand(disk: Disk, threshold: int, cmd: Command)
    requires cmd.PutCmd?
    ensures var start := Open(disk, threshold);
      var put := Put(start, cmd.key, cmd.value);
      Execute(start, [cmd]) == (put.db, [if put.failed then Error else Stored]) &&
      ExecutePlain(View(start), [cmd]) == (View(start)[cmd.key := cmd.value], [Stored])
  {
    hide Open, Put, View;
    var cmds := [cmd];
    assert cmds[0] == cmd && cmds[1..] == [];
    var start := Open(disk, threshold);
    var (db, answer) := ExecuteOne(start, cmd);
    assert Execute(db, cmds[1..]) == (db, []);
    assert [answer] + [] == [answer];
    var plain: seq<Answer> := [Stored];
    assert plain + [] == plain;
  }

  lemma FileIsShort(disk: Disk, n: nat, k: nat, key: bytes)
    requires Numbered(disk, n) && key in FileAt(disk, Name(k))
    ensures Short(key)
  {
    hide Name;
    EntriesAreShort(disk[Name(k)]);
    ShortEntries(Entries(disk[Name(k)]).value);
  }

  /** Either the put or the close has to write the file, under a number that is taken. */
  lemma CollidingPut(disk: Disk, threshold: int, key: bytes, value: bytes)
    requires Name(|disk| + 1) in disk
    ensures var put := Put(Open(disk, threshold), key, value); put.failed || Close(put.db).failed
  {
    hide Name, TableOf, EncodeTable;
    assert key in map[][key := value];
  }

  /** The new row goes to a file that sorts in front of the newest one, so that one's old row wins on reopening. */
  lemma StaleRead(disk: Disk, n: nat, newest: nat, threshold: int, key: bytes, value: bytes)
    requires Numbered(disk, n) && n <= SEQ_LIMIT
    requires Numbers(disk, n) != [] && newest == Numbers(disk, n)[|Numbers(disk, n)| - 1] && |disk| + 1 < newest < n
    requires Name(|disk| + 1) !in disk && key in FileAt(disk, Name(newest)) && Short(key) && Short(value)
    ensures var db := Close(Put(Open(disk, threshold), key, value).db).db;
      var m := View(Open(db.disk, threshold));
      key in m && m[key] == FileAt(disk, Name(newest))[key]
  {
    hide Name, Numbered, Numbers, FileAt, LiveMap, Put, Close, Open, View, Short, ShortTable, WriteTable;
    OneShortRow(key, value);
    var disk' := OneMoreFile(disk, n, newest, map[key := value]);
    OnlyPut(disk, threshold, key, value, disk');
    OpenedView(disk', n, threshold);
    LastTableWins(disk', Numbers(disk', n), key);
  }

  lemma OneShortRow(key: bytes, value: bytes)
    requires Short(key) && Short(value)
    ensures ShortTable(map[key := value])
  {
  }

  lemma OpenedView(disk: Disk, n: nat, threshold: int)
    requires Numbered(disk, n) && n <= SEQ_LIMIT
    ensures View(Open(disk, threshold)) == LiveMap(disk, Numbers(disk, n))
  {
    hide Name, Numbered, Numbers, TableOf, Keys, NamesOf, TablesMap;
    OpenOrder(disk, n, threshold);
  }

  /** A session with a single put writes one file with this row: at once, or when it closes. */
  lemma OnlyPut(disk: Disk, threshold: int, key: bytes, value: bytes, disk': Disk)
    requires WriteTable(disk, Name(|disk| + 1), map[key := value]) == Success(disk')
    ensures Close(Put(Open(disk, threshold), key, value).db).db.disk == disk'
  {
    hide Name, TableOf, EncodeTable, WriteTable;
    assert Open(disk, threshold).mem[key := value] == map[key := value];
    assert key in map[key := value];
  }

  lemma OneMoreFile(disk: Disk, n: nat, newest: nat, m: Table) returns (disk': Disk)
    requires Numbered(disk, n) && n <= SEQ_LIMIT && ShortTable(m)
    requires Numbers(disk, n) != [] && newest == Numbers(disk, n)[|Numbers(disk, n)| - 1] && |disk| + 1 < newest < n
    requires Name(|disk| + 1) !in disk
    ensures WriteTable(disk, Name(|disk| + 1), m) == Success(disk') && Numbered(disk', n)
    ensures Numbers(disk', n) != [] && Numbers(disk', n)[|Numbers(disk', n)| - 1] == newest
    ensures FileAt(disk', Name(newest)) == FileAt(disk, Name(newest))
  {
    hide Name, FileMap, TableOf, EncodeTable, GoodFile;
    disk' := WriteTable(disk, Name(|disk| + 1), m).value;
    WrittenFile(m);
    forall k | newest < k < n
      ensures Name(k) !in disk'
    {
      NameOrder(|disk| + 1, k);
      if Name(k) in disk {
        NumbersHasAll(disk, n, k);
      }
    }
    NameOrder(|disk| + 1, newest);
    LastNumber(disk, disk', n, newest);
  }

  lemma LastTableWins(disk: Disk, nums: seq<nat>, key: bytes)
    requires nums != [] && key in FileAt(disk, Name(nums[|nums| - 1]))
    ensures key in LiveMap(disk, nums) && LiveMap(disk, nums)[key] == FileAt(disk, Name(nums[|nums| - 1]))[key]
  {
    hide Name, FileAt;
  }

  lemma LastNumber(disk: Disk, disk': Disk, n: nat, newest: nat)
    requires newest in Numbers(disk, n) && Name(newest) in disk'
    requires forall m :: newest < m < n ==> Name(m) !in disk'
    ensures Numbers(disk', n) != [] && Numbers(disk', n)[|Numbers(disk', n)| - 1] == newest
  {
    hide Name;
    NumbersHasAll(disk', n, newest);
    var b := Numbers(disk', n);
    var i :| 0 <= i < |b| && b[i] == newest;
  }

  // ---------- session after session ----------

  /** After a session on a contiguous directory the next one is safe, whatever its threshold, if and only if
      no compaction of the first one removed a file. */
  lemma NextSessionIsSafeIff(disk: Disk, threshold: int, cmds: seq<Command>, next: int)
    requires Contiguous(disk) && Filled(disk) && ShortCommands(cmds) && |disk| + |cmds| + 4 <= SEQ_LIMIT
    ensures Durable(After(disk, threshold, cmds), next) <==> !SessionRemoves(Open(disk, threshold), cmds)
    ensures Filled(After(disk, threshold, cmds))
  {
    hide Name, View, Open, Execute, Close, ShortCommands, SessionRemoves, Numbers, Numbered, NamesOf, ShortTable;
    hide StaleCovered, Filled, Durable, Contiguous, Gap, Full;
    var stale, nums, db := SessionEnds(disk, threshold, cmds);
    StaysContiguousIff(disk, threshold, cmds);
    EndsFilled(disk, threshold, cmds);
    DurableIffContiguous(db.disk, db.nextSeq, next);
  }

  lemma EndsFilled(disk: Disk, threshold: int, cmds: seq<Command>)
    requires Contiguous(disk) && Filled(disk) && ShortCommands(cmds) && |disk| + |cmds| + 2 <= SEQ_LIMIT
    ensures Filled(After(disk, threshold, cmds))
  {
    hide Wf, View, Open, Execute, ShortCommands, Close, Contiguous, Numbers, Filled;
    FreshStart(disk, threshold);
    OpenedDisk(disk, threshold);
    SessionKeepsFilled(Open(disk, threshold), [], Numbers(disk, |disk| + 1), cmds);
  }
}
