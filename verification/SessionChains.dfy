/** Any number of sessions one after the other on the same directory. */
module SessionChains {
  import opened Bytes
  import opened Outcomes
  import opened TableFormat
  import opened TableNames
  import opened Lsm
  import opened Sessions
  import opened Reopening

  /** Session after session on the same directory: the directory in the end and all answers, or a failed Close. */
  ghost function RunSessions(disk: Disk, threshold: int, sessions: seq<seq<Command>>): Result<(Disk, seq<Answer>)>
    decreases |sessions|
  {
    if sessions == [] then Success((disk, [])) else
      var (db, answers) := Execute(Open(disk, threshold), sessions[0]);
      if Close(db).failed then Failure else
        match RunSessions(Close(db).db.disk, threshold, sessions[1..])
        case Failure => Failure
        case Success((last, more)) => Success((last, answers + more))
  }

  /** The same on one plain map. */
  function RunPlain(m: Table, sessions: seq<seq<Command>>): (Table, seq<Answer>)
    decreases |sessions|
  {
    if sessions == [] then (m, []) else
      var (m', answers) := ExecutePlain(m, sessions[0]);
      var (last, more) := RunPlain(m', sessions[1..]);
      (last, answers + more)
  }

  function Commands(sessions: seq<seq<Command>>): nat
    decreases |sessions|
  {
    if sessions == [] then 0 else |sessions[0]| + 1 + Commands(sessions[1..])
  }

  /** Files are removed in the last of the sessions only, if at all. */
  ghost predicate RemovesLast(disk: Disk, threshold: int, sessions: seq<seq<Command>>)
    decreases |sessions|
  {
    |sessions| <= 1 ||
    (!SessionRemoves(Open(disk, threshold), sessions[0]) &&
     RemovesLast(After(disk, threshold, sessions[0]), threshold, sessions[1..]))
  }

  /** Any number of sessions behaves like one plain map that is never forgotten, as long as no file is removed
      before the last of them. */
  lemma {:induction false} ManySessions(disk: Disk, threshold: int, sessions: seq<seq<Command>>)
    requires Contiguous(disk) && |disk| + Commands(sessions) + 1 <= SEQ_LIMIT
    requires forall s :: s in sessions ==> ShortCommands(s)
    requires RemovesLast(disk, threshold, sessions)
    ensures var r := RunSessions(disk, threshold, sessions);
      r.Success? && (View(Open(r.value.0, threshold)), r.value.1) == RunPlain(View(Open(disk, threshold)), sessions)
    decreases |sessions|
  {
    hide View, Open, Execute, ExecutePlain, Close, Contiguous, ShortCommands, SessionRemoves;
    if sessions != [] {
      assert sessions[0] in sessions;
      SessionKeepsData(disk, threshold, sessions[0]);
      StaysContiguousIff(disk, threshold, sessions[0]);
      if |sessions| > 1 {
        ManySessions(After(disk, threshold, sessions[0]), threshold, sessions[1..]);
      } else {
        assert sessions[1..] == [];
      }
    }
  }

  // ---------- directories on which opening is not safe ----------

  /** Some file's number exceeds the number of files. */
  ghost predicate High(disk: Disk) {
    exists m :: IsHigh(disk, m)
  }

  ghost predicate IsHigh(disk: Disk, m: nat) {
    |disk| < m < SEQ_LIMIT && Name(m) in disk
  }

  lemma HighIffNotContiguous(disk: Disk)
    requires Numbered(disk, SEQ_LIMIT)
    ensures High(disk) <==> !Contiguous(disk)
  {
    hide Name, GoodFile, Numbers;
    if High(disk) {
      var m :| IsHigh(disk, m);
      forall k | 1 <= k < |disk| + 1
        ensures Name(m) != Name(k)
      {
        NameOrder(m, k);
      }
    }
    if !Contiguous(disk) {
      var newest := NewestFile(disk, SEQ_LIMIT);
      assert IsHigh(disk, newest);
    }
  }

  /** File `m` is in the way of the next numbers, or is the newest and leaves a gap. */
  ghost predicate Ahead(disk: Disk, next: nat, m: nat) {
    m < SEQ_LIMIT && Name(m) in disk && (m >= next || (m == next - 1 && m > |disk|))
  }

  ghost predicate Damaged(disk: Disk, next: nat) {
    |disk| < next && exists m :: Ahead(disk, next, m)
  }

  /** A further file leaves a damaged directory damaged, whatever is removed at the same time. */
  lemma StaysDamaged(disk: Disk, next: nat, data: bytes, removed: set<bytes>)
    requires Damaged(disk, next) && next < SEQ_LIMIT && Name(next) !in disk && removed <= disk.Keys
    ensures Damaged(disk[Name(next) := data] - removed, next + 1)
  {
    hide Name;
    var m: nat :| Ahead(disk, next, m);
    var after := disk[Name(next) := data] - removed;
    FewerFiles(disk, Name(next), data, removed, Name(m));
    if m >= next && Name(m) !in removed {
      assert Ahead(after, next + 1, m);
    } else {
      assert Ahead(after, next + 1, next);
    }
  }

  lemma FewerFiles(disk: Disk, name: bytes, data: bytes, removed: set<bytes>, f: bytes)
    requires name !in disk && removed <= disk.Keys && f in disk
    ensures |disk[name := data] - removed| <= |disk| + 1
    ensures f in removed ==> |disk[name := data] - removed| <= |disk|
  {
    var left := (disk[name := data] - removed).Keys;
    assert |left| == |disk[name := data] - removed| && |disk.Keys| == |disk|;
    Subset(left, disk.Keys + {name});
    if f in removed {
      Subset(left, disk.Keys - {f} + {name});
    }
  }

  lemma {:induction false} Subset(a: set<bytes>, b: set<bytes>)
    requires a <= b
    ensures |a| <= |b|
    decreases a
  {
    if a != {} {
      var x :| x in a;
      Subset(a - {x}, b - {x});
    }
  }

  /** What a store keeps on any directory of good tables. */
  ghost predicate Sound(db: Db) {
    Names(db.tables) <= db.disk.Keys && Numbered(db.disk, SEQ_LIMIT) && ShortTable(db.mem)
  }

  lemma MoreNumbers(disk: Disk, n: nat, n': nat)
    requires Numbered(disk, n) && n <= n'
    ensures Numbered(disk, n')
  {
    hide Name, GoodFile;
  }

  lemma WriteIsNumbered(disk: Disk, next: nat, m: Table)
    requires Numbered(disk, SEQ_LIMIT) && 1 <= next < SEQ_LIMIT && Name(next) !in disk && ShortTable(m)
    ensures Numbered(WriteTable(disk, Name(next), m).value, SEQ_LIMIT)
  {
    hide Name, TableOf, EncodeTable, GoodFile;
    WrittenFile(m);
  }

  lemma RemovalIsNumbered(disk: Disk, n: nat, removed: set<bytes>)
    requires Numbered(disk, n)
    ensures Numbered(disk - removed, n)
  {
    hide Name, GoodFile;
  }

  lemma FlushDamaged(db: Db)
    requires Damaged(db.disk, db.nextSeq) && Sound(db) && db.nextSeq < SEQ_LIMIT && Flush(db).Success?
    ensures var db' := Flush(db).value;
      Damaged(db'.disk, db'.nextSeq) && Sound(db') && (db.mem != map[] && Filled(db.disk) ==> Filled(db'.disk))
  {
    hide Name, Damaged, Numbered, Filled, TableOf, EncodeTable, Short;
    StaysDamaged(db.disk, db.nextSeq, EncodeTable(TableOf(db.mem)), {});
    assert db.disk[Name(db.nextSeq) := EncodeTable(TableOf(db.mem))] - {} == Flush(db).value.disk;
    assert db.nextSeq >= 1 by { NextIsPositive(db.disk, db.nextSeq); }
    WriteIsNumbered(db.disk, db.nextSeq, db.mem);
    if db.mem != map[] && Filled(db.disk) {
      FlushKeepsFilled(db);
    }
  }

  lemma NextIsPositive(disk: Disk, next: nat)
    requires Damaged(disk, next)
    ensures next >= 1
  {
  }

  lemma MergedIsShort(tables: seq<bytes>, disk: Disk)
    requires Names(tables) <= disk.Keys && Numbered(disk, SEQ_LIMIT)
    ensures Merge(tables, disk).Success? && ShortTable(Merge(tables, disk).value)
    ensures tables != [] && Filled(disk) ==> Merge(tables, disk).value != map[]
  {
    hide Name, TablesMap, FileMap, Merge;
    forall f | f in tables
      ensures f in disk
    {
      assert f in Names(tables);
    }
    MergeIsTablesMap(tables, disk);
    ViewIsShort(tables, disk);
    if tables != [] && Filled(disk) {
      assert tables[0] in tables;
      TableIsCovered(tables, disk, tables[0]);
    }
  }

  lemma CompactDamaged(db: Db, stuck: set<bytes>)
    requires Damaged(db.disk, db.nextSeq) && Sound(db) && db.nextSeq < SEQ_LIMIT
    ensures var db' := Compact(db, stuck).db;
      Damaged(db'.disk, db'.nextSeq) && Sound(db') && (Filled(db.disk) ==> Filled(db'.disk)) &&
      db'.nextSeq <= db.nextSeq + 1
  {
    hide Name, Damaged, Numbered, Filled, Merge, TableOf, EncodeTable, ShortTable;
    MergedIsShort(db.tables, db.disk);
    var m := Merge(db.tables, db.disk).value;
    var name := Name(db.nextSeq);
    if |db.tables| > 1 && name !in db.disk {
      var removed := Names(db.tables) - stuck;
      NextIsPositive(db.disk, db.nextSeq);
      StaysDamaged(db.disk, db.nextSeq, EncodeTable(TableOf(m)), removed);
      WriteIsNumbered(db.disk, db.nextSeq, m);
      var written := WriteTable(db.disk, name, m).value;
      RemovalIsNumbered(written, SEQ_LIMIT, removed);
      if Filled(db.disk) {
        WriteKeepsFilled(db.disk, db.nextSeq, m);
        RemovalKeepsFilled(written, removed);
      }
    }
  }

  lemma CommandDamaged(db: Db, cmd: Command)
    requires Damaged(db.disk, db.nextSeq) && Sound(db) && ShortCommands([cmd]) && db.nextSeq < SEQ_LIMIT
    ensures var db' := ExecuteOne(db, cmd).0;
      Damaged(db'.disk, db'.nextSeq) && Sound(db') && (Filled(db.disk) ==> Filled(db'.disk)) &&
      db'.nextSeq <= db.nextSeq + 1
  {
    hide Name, Damaged, Numbered, Filled, Get, Compact, WriteTable, Short, ShortTable;
    assert cmd in [cmd];
    match cmd {
      case PutCmd(k, v) =>
        var db' := db.(mem := db.mem[k := v]);
        ShortUpdate(db.mem, k, v);
        if Flush(db').Success? {
          FlushDamaged(db');
        }
      case GetCmd(k) =>
      case CompactCmd(stuck) => CompactDamaged(db, stuck);
    }
  }

  lemma {:induction false} SessionDamaged(db: Db, cmds: seq<Command>)
    requires Damaged(db.disk, db.nextSeq) && Sound(db) && ShortCommands(cmds) && db.nextSeq + |cmds| < SEQ_LIMIT
    ensures var db' := Close(Execute(db, cmds).0).db;
      Damaged(db'.disk, db'.nextSeq) && Sound(db') && (Filled(db.disk) ==> Filled(db'.disk)) &&
      db'.nextSeq <= db.nextSeq + |cmds| + 1
    decreases |cmds|
  {
    hide Damaged, Sound, Filled, ExecuteOne, ShortCommands, Flush;
    if cmds != [] {
      FirstCommand(cmds);
      CommandDamaged(db, cmds[0]);
      SessionDamaged(ExecuteOne(db, cmds[0]).0, cmds[1..]);
    } else if db.mem != map[] && Flush(db).Success? {
      FlushDamaged(db);
      FlushedNext(db);
    }
  }

  lemma FlushedNext(db: Db)
    requires Flush(db).Success?
    ensures Flush(db).value.nextSeq == db.nextSeq + 1
  {
  }

  lemma OpenDamaged(disk: Disk, threshold: int)
    requires High(disk) && Numbered(disk, SEQ_LIMIT)
    ensures Damaged(disk, |disk| + 1) && Sound(Open(disk, threshold))
    ensures Open(disk, threshold).nextSeq == |disk| + 1 && Open(disk, threshold).disk == disk
  {
    hide Name, GoodFile, Numbered, Numbers, TableOf, Keys;
    var m :| IsHigh(disk, m);
    assert Ahead(disk, |disk| + 1, m);
    OpenOrder(disk, SEQ_LIMIT, threshold);
  }

  /** No session repairs a directory on which opening is not safe. */
  lemma StaysHigh(disk: Disk, threshold: int, cmds: seq<Command>)
    requires High(disk) && Numbered(disk, SEQ_LIMIT) && ShortCommands(cmds) && |disk| + |cmds| + 2 <= SEQ_LIMIT
    ensures var disk' := After(disk, threshold, cmds);
      High(disk') && Numbered(disk', SEQ_LIMIT) && |disk'| <= |disk| + |cmds| + 1 &&
      (Filled(disk) ==> Filled(disk'))
  {
    hide Name, Open, Execute, Close, ShortCommands, Filled, Numbered;
    OpenDamaged(disk, threshold);
    SessionDamaged(Open(disk, threshold), cmds);
    var db := Close(Execute(Open(disk, threshold), cmds).0).db;
    var m: nat :| Ahead(db.disk, db.nextSeq, m);
    assert IsHigh(db.disk, m);
  }

  // ---------- when a chain of sessions ends on a safe directory ----------

  /** The directory after all sessions, failed calls included. */
  ghost function AfterAll(disk: Disk, threshold: int, sessions: seq<seq<Command>>): Disk
    decreases |sessions|
  {
    if sessions == [] then disk else AfterAll(After(disk, threshold, sessions[0]), threshold, sessions[1..])
  }

  ghost predicate SomeRemoves(disk: Disk, threshold: int, sessions: seq<seq<Command>>)
    decreases |sessions|
  {
    sessions != [] &&
    (SessionRemoves(Open(disk, threshold), sessions[0]) ||
     SomeRemoves(After(disk, threshold, sessions[0]), threshold, sessions[1..]))
  }

  ghost predicate Ends(disk: Disk, disk': Disk, sessions: seq<seq<Command>>) {
    Numbered(disk', SEQ_LIMIT) && |disk'| <= |disk| + Commands(sessions) && (Filled(disk) ==> Filled(disk'))
  }

  lemma {:induction false} ChainStaysHigh(disk: Disk, threshold: int, sessions: seq<seq<Command>>)
    requires High(disk) && Numbered(disk, SEQ_LIMIT) && |disk| + Commands(sessions) + 1 <= SEQ_LIMIT
    requires forall s :: s in sessions ==> ShortCommands(s)
    ensures High(AfterAll(disk, threshold, sessions)) && Ends(disk, AfterAll(disk, threshold, sessions), sessions)
    decreases |sessions|
  {
    hide High, Numbered, Filled, ShortCommands, After;
    if sessions != [] {
      assert sessions[0] in sessions;
      StaysHigh(disk, threshold, sessions[0]);
      ChainStaysHigh(After(disk, threshold, sessions[0]), threshold, sessions[1..]);
    }
  }

  /** One session from a safe directory, in the terms of a chain. */
  lemma OneSession(disk: Disk, threshold: int, cmds: seq<Command>)
    requires Contiguous(disk) && ShortCommands(cmds) && |disk| + |cmds| + 2 <= SEQ_LIMIT
    ensures var disk' := After(disk, threshold, cmds);
      Numbered(disk', SEQ_LIMIT) && |disk'| <= |disk| + |cmds| + 1 && (Filled(disk) ==> Filled(disk')) &&
      if SessionRemoves(Open(disk, threshold), cmds) then High(disk') else Contiguous(disk')
  {
    hide Name, View, Open, Execute, Close, ShortCommands, SessionRemoves, Numbers, Numbered, NamesOf, ShortTable;
    hide StaleCovered, Filled, Contiguous, Gap, Full, High;
    var stale, nums, db := SessionEnds(disk, threshold, cmds);
    MoreNumbers(db.disk, db.nextSeq, SEQ_LIMIT);
    StaysContiguousIff(disk, threshold, cmds);
    HighIffNotContiguous(db.disk);
    if Filled(disk) {
      EndsFilled(disk, threshold, cmds);
    }
  }

  /** After any sessions on a contiguous directory it is contiguous if and only if none of them removed a file:
      once one did, no later session repairs it. */
  lemma {:induction false} ChainStaysContiguousIff(disk: Disk, threshold: int, sessions: seq<seq<Command>>)
    requires Contiguous(disk) && |disk| + Commands(sessions) + 1 <= SEQ_LIMIT
    requires forall s :: s in sessions ==> ShortCommands(s)
    ensures Contiguous(AfterAll(disk, threshold, sessions)) <==> !SomeRemoves(disk, threshold, sessions)
    ensures Ends(disk, AfterAll(disk, threshold, sessions), sessions)
    decreases |sessions|
  {
    hide Name, GoodFile, High, Filled, ShortCommands, After, SessionRemoves, Open;
    if sessions == [] {
      MoreNumbers(disk, |disk| + 1, SEQ_LIMIT);
    } else {
      assert sessions[0] in sessions;
      OneSession(disk, threshold, sessions[0]);
      var disk' := After(disk, threshold, sessions[0]);
      if SessionRemoves(Open(disk, threshold), sessions[0]) {
        ChainStaysHigh(disk', threshold, sessions[1..]);
        HighIffNotContiguous(AfterAll(disk', threshold, sessions[1..]));
      } else {
        ChainStaysContiguousIff(disk', threshold, sessions[1..]);
      }
    }
  }

  /** After any sessions the next one keeps its data, whatever its threshold, if and only if none removed a file. */
  lemma ChainIsSafeIff(disk: Disk, threshold: int, sessions: seq<seq<Command>>, next: int)
    requires Contiguous(disk) && Filled(disk) && |disk| + Commands(sessions) + 3 <= SEQ_LIMIT
    requires forall s :: s in sessions ==> ShortCommands(s)
    ensures Durable(AfterAll(disk, threshold, sessions), next) <==> !SomeRemoves(disk, threshold, sessions)
  {
    hide AfterAll, SomeRemoves, Durable, Numbered, Filled, Contiguous, ShortCommands, Commands;
    ChainStaysContiguousIff(disk, threshold, sessions);
    DurableIffContiguous(AfterAll(disk, threshold, sessions), SEQ_LIMIT, next);
  }
}
