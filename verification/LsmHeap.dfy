/** The store as the program keeps it: a memtable, a table list and a directory that are updated in place. */
module LsmHeap {
  import opened Bytes
  import opened Outcomes
  import opened TableFormat
  import opened TableNames
  import opened Lsm

  // ---------- table files ----------

  lemma NothingWritten(entries: seq<Entry>)
    ensures [] + EncodeTable(entries[0..]) == EncodeTable(entries)
  {
    assert entries[0..] == entries;
  }

  lemma AllWritten(written: bytes, entries: seq<Entry>)
    ensures written + EncodeTable(entries[|entries|..]) == written
  {
  }

  lemma OneMoreEncoded(written: bytes, entries: seq<Entry>, i: nat)
    requires i < |entries|
    ensures written + EncodeTable(entries[i..]) ==
      written + EncodeField(entries[i].key) + EncodeField(entries[i].value) + EncodeTable(entries[i + 1..])
  {
    hide EncodeField;
    assert entries[i..][1..] == entries[i + 1..];
  }

  class Directory {
    var files: Disk

    constructor (files: Disk)
      ensures this.files == files
    {
      this.files := files;
    }

    /** `flush`: O_EXCL refuses an existing path. */
    method Write(path: bytes, entries: seq<Entry>) returns (failed: bool)
      modifies this
      ensures failed <==> path in old(files)
      ensures files == if failed then old(files) else old(files)[path := EncodeTable(entries)]
    {
      if path in files {
        return true;
      }
      hide EncodeTable, EncodeField;
      var written: bytes := [];
      NothingWritten(entries);
      for i := 0 to |entries|
        invariant written + EncodeTable(entries[i..]) == EncodeTable(entries)
        modifies {}
      {
        OneMoreEncoded(written, entries, i);
        written := written + EncodeField(entries[i].key);
        written := written + EncodeField(entries[i].value);
      }
      AllWritten(written, entries);
      files := files[path := written];
      return false;
    }

    /** `entries`. */
    method Read(path: bytes) returns (r: Result<seq<Entry>>)
      ensures r == if path in files then Entries(files[path]) else Failure
    {
      if path !in files {
        return Failure;
      }
      var data := files[path];
      var result: seq<Entry> := [];
      NothingMore(result, Entries(data));
      while true
        invariant Entries(files[path]) ==
          match Entries(data) case Failure => Failure case Success(es) => Success(result + es)
        decreases |data|
      {
        var k := ReadField(data);
        if k.EndOfFile? {
          assert result + [] == result;
          return Success(result);
        }
        if k.Broken? {
          return Failure;
        }
        var v := ReadField(k.rest);
        if !v.Field? {
          return Failure;
        }
        data := v.rest;
        OneMoreEntry(result, Entry(k.s, v.s), Entries(data));
        result := result + [Entry(k.s, v.s)];
      }
    }

    /** `get`. */
    method Find(path: bytes, key: bytes) returns (r: Result<Option<bytes>>)
      ensures r == if path in files then Scan(files[path], key) else Failure
    {
      if path !in files {
        return Failure;
      }
      var data := files[path];
      while true
        invariant Scan(data, key) == Scan(files[path], key)
        decreases |data|
      {
        var k := ReadField(data);
        if k.EndOfFile? {
          return Success(None);
        }
        if k.Broken? {
          return Failure;
        }
        var v := ReadField(k.rest);
        if !v.Field? {
          return Failure;
        }
        if k.s == key {
          return Success(Some(v.s));
        }
        if Less(key, k.s) {
          return Success(None);
        }
        data := v.rest;
      }
    }

    /** `removeFiles`: every removal is attempted. Those in `stuck` fail, and so do missing and repeated paths. */
    method Remove(paths: seq<bytes>, stuck: set<bytes>) returns (failed: bool)
      modifies this
      ensures files == old(files) - (Names(paths) - stuck)
      ensures failed <==> exists i :: 0 <= i < |paths| && RemovalFails(old(files), paths, stuck, i)
    {
      failed := false;
      for i := 0 to |paths|
        invariant files == old(files) - (Names(paths[..i]) - stuck)
        invariant failed <==> exists j :: 0 <= j < i && RemovalFails(old(files), paths, stuck, j)
      {
        assert Names(paths[..i + 1]) == Names(paths[..i]) + {paths[i]};
        assert paths[i] in paths[..i] <==> paths[i] in Names(paths[..i]);
        if paths[i] in stuck || paths[i] !in files {
          assert RemovalFails(old(files), paths, stuck, i);
          failed := true;
        } else {
          files := files - {paths[i]};
        }
      }
      assert paths[..|paths|] == paths;
    }
  }

  ghost predicate RemovalFails(files: Disk, paths: seq<bytes>, stuck: set<bytes>, i: nat)
    requires i < |paths|
  {
    paths[i] in stuck || paths[i] !in files || paths[i] in paths[..i]
  }

  /** Of different existing files only the stuck ones stay. */
  lemma OnlyStuckFail(files: Disk, paths: seq<bytes>, stuck: set<bytes>)
    requires forall i, j :: 0 <= i < j < |paths| ==> paths[i] != paths[j]
    requires forall p :: p in paths ==> p in files
    ensures (exists i :: 0 <= i < |paths| && RemovalFails(files, paths, stuck, i)) <==> Names(paths) * stuck != {}
  {
    forall i | 0 <= i < |paths|
      ensures RemovalFails(files, paths, stuck, i) <==> paths[i] in Names(paths) * stuck
    {
    }
    if Names(paths) * stuck != {} {
      var p :| p in Names(paths) * stuck;
      var i :| 0 <= i < |paths| && paths[i] == p;
    }
  }

  lemma NothingMore(done: seq<Entry>, rest: Result<seq<Entry>>)
    ensures done == [] && rest.Success? ==> done + rest.value == rest.value
  {
  }

  lemma OneMoreEntry(done: seq<Entry>, e: Entry, rest: Result<seq<Entry>>)
    ensures rest.Success? ==> done + ([e] + rest.value) == done + [e] + rest.value
  {
  }

  // ---------- merging ----------

  ghost predicate DistinctKeys(es: seq<Entry>) {
    forall i, j :: 0 <= i < j < |es| ==> es[i].key != es[j].key
  }

  /** Appending an entry: an earlier one of the same key counts. */
  lemma {:induction false} TableMapSnoc(es: seq<Entry>, e: Entry)
    ensures TableMap(es + [e]) == if e.key in TableMap(es) then TableMap(es) else TableMap(es)[e.key := e.value]
    decreases |es|
  {
    if es == [] {
      assert [e][1..] == [];
    } else {
      assert (es + [e])[0] == es[0] && (es + [e])[1..] == es[1..] + [e];
      TableMapSnoc(es[1..], e);
    }
  }

  lemma SnocKeepsDistinct(es: seq<Entry>, e: Entry)
    requires DistinctKeys(es) && e.key !in TableMap(es)
    ensures DistinctKeys(es + [e])
  {
    TableMapKeys(es);
  }

  /** The inner loop of `mergeEntries`: rows of an older table fill in the keys not seen yet. */
  method FillIn(merged: seq<Entry>, seen: set<bytes>, older: seq<Entry>)
    returns (merged': seq<Entry>, seen': set<bytes>)
    requires DistinctKeys(merged) && seen == TableMap(merged).Keys
    ensures DistinctKeys(merged') && seen' == TableMap(merged').Keys
    ensures TableMap(merged') == TableMap(older) + TableMap(merged)
  {
    merged', seen' := merged, seen;
    for i := 0 to |older|
      invariant DistinctKeys(merged') && seen' == TableMap(merged').Keys
      invariant TableMap(merged') == TableMap(older[..i]) + TableMap(merged)
    {
      assert older[..i + 1] == older[..i] + [older[i]];
      FillOne(older[..i], merged, merged', older[i]);
      if older[i].key !in seen' {
        SnocKeepsDistinct(merged', older[i]);
        seen' := seen' + {older[i].key};
        merged' := merged' + [older[i]];
      }
    }
    assert older[..|older|] == older;
  }

  lemma FillOne(older: seq<Entry>, merged: seq<Entry>, merged': seq<Entry>, e: Entry)
    requires TableMap(merged') == TableMap(older) + TableMap(merged)
    ensures TableMap(if e.key in TableMap(merged') then merged' else merged' + [e]) ==
      TableMap(older + [e]) + TableMap(merged)
    ensures e.key !in TableMap(merged') ==> TableMap(merged' + [e]).Keys == TableMap(merged').Keys + {e.key}
  {
    TableMapSnoc(older, e);
    TableMapSnoc(merged', e);
  }

  method MergeEntries(dir: Directory, tables: seq<bytes>) returns (r: Result<seq<Entry>>)
    ensures r == match Merge(tables, dir.files) case Failure => Failure case Success(m) => Success(TableOf(m))
  {
    hide Merge, Entries, TableMap, SortEntries, TableOf;
    var seen: set<bytes> := {};
    var merged: seq<Entry> := [];
    var i := |tables|;
    assert tables[..i] == tables;
    Unmerged(merged);
    NothingNewer(Merge(tables, dir.files));
    while i > 0
      invariant 0 <= i <= |tables|
      invariant DistinctKeys(merged) && seen == TableMap(merged).Keys
      invariant Merge(tables, dir.files) ==
        match Merge(tables[..i], dir.files) case Failure => Failure case Success(m) => Success(m + TableMap(merged))
    {
      i := i - 1;
      MergeLast(tables, i, dir.files);
      var entries := dir.Read(tables[i]);
      if entries.Failure? {
        return Failure;
      }
      ghost var before := TableMap(merged);
      merged, seen := FillIn(merged, seen, entries.value);
      Reassociate(Merge(tables[..i], dir.files), TableMap(entries.value), before);
    }
    MergeNone(tables, dir.files);
    assert Merge(tables, dir.files) == Success(map[] + TableMap(merged));
    assert map[] + TableMap(merged) == TableMap(merged);
    Sorts(merged);
    return Success(SortEntries(merged));
  }

  lemma MergeLast(tables: seq<bytes>, i: nat, disk: Disk)
    requires i < |tables|
    ensures Merge(tables[..i + 1], disk) ==
      if tables[i] !in disk then Failure else
      match Entries(disk[tables[i]])
      case Failure => Failure
      case Success(es) =>
        match Merge(tables[..i], disk)
        case Failure => Failure
        case Success(m) => Success(m + TableMap(es))
  {
    hide Entries, TableMap;
    assert tables[..i + 1][..i] == tables[..i];
  }

  lemma MergeNone(tables: seq<bytes>, disk: Disk)
    ensures Merge(tables[..0], disk) == Success(map[])
  {
  }

  lemma Unmerged(es: seq<Entry>)
    requires es == []
    ensures DistinctKeys(es) && TableMap(es) == map[]
  {
  }

  lemma NothingNewer(older: Result<Table>)
    ensures older.Success? ==> older.value + TableMap([]) == older.value
  {
  }

  lemma Reassociate(older: Result<Table>, m: Table, newer: Table)
    ensures older.Success? ==> older.value + m + newer == older.value + (m + newer)
  {
  }

  // ---------- memtable ----------

  lemma Sorts(entries: seq<Entry>)
    requires DistinctKeys(entries)
    ensures SortEntries(entries) == TableOf(TableMap(entries))
  {
    TableOfIsSortEntries(entries);
  }

  lemma NoEntriesYet(m: Table)
    ensures DistinctKeys([]) && TableMap([]) == m - m.Keys
  {
  }

  lemma MoveOne(m: Table, rest: set<bytes>, k: bytes)
    requires rest <= m.Keys && k in rest
    ensures k !in m - rest && (m - rest)[k := m[k]] == m - (rest - {k})
  {
  }

  /** A map's entries in some order, sorted: how both the memtable and the directory are listed. */
  method SortedEntries(m: Table) returns (es: seq<Entry>)
    ensures es == TableOf(m)
  {
    hide TableOf, DistinctKeys, SortEntries;
    assert DistinctKeys([]) && TableMap([]) == m - m.Keys by { NoEntriesYet(m); }
    var entries: seq<Entry> := [];
    var rest := m.Keys;
    while rest != {}
      invariant rest <= m.Keys && DistinctKeys(entries)
      invariant TableMap(entries) == m - rest
      decreases |rest|
    {
      var k :| k in rest;
      MoveOne(m, rest, k);
      TableMapSnoc(entries, Entry(k, m[k]));
      SnocKeepsDistinct(entries, Entry(k, m[k]));
      entries := entries + [Entry(k, m[k])];
      rest := rest - {k};
    }
    assert m - {} == m;
    Sorts(entries);
    return SortEntries(entries);
  }

  class Memtable {
    var data: Table
    const threshold: int

    constructor (threshold: int)
      ensures data == map[] && this.threshold == threshold
    {
      data := map[];
      this.threshold := threshold;
    }

    method Put(key: bytes, value: bytes) returns (full: bool)
      modifies this
      ensures data == old(data)[key := value] && (full <==> |data| >= threshold)
    {
      data := data[key := value];
      return |data| >= threshold;
    }

    method Get(key: bytes) returns (v: Option<bytes>)
      ensures v == Lookup(data, key)
    {
      return if key in data then Some(data[key]) else None;
    }

    method Sorted() returns (es: seq<Entry>)
      ensures es == TableOf(data)
    {
      es := SortedEntries(data);
    }

    method Reset()
      modifies this
      ensures data == map[]
    {
      data := map[];
    }
  }

  // ---------- the store ----------

  /** `loadExistingSSTables`. */
  method LoadExisting(disk: Disk) returns (names: seq<bytes>)
    ensures names == Keys(TableOf(disk))
  {
    hide TableOf, Keys;
    var matches := SortedEntries(disk);
    names := [];
    NoKeys(matches);
    for i := 0 to |matches|
      invariant names == Keys(matches[..i])
    {
      OneMoreKey(matches, i);
      names := names + [matches[i].key];
    }
    assert matches[..|matches|] == matches;
  }

  lemma NoKeys(es: seq<Entry>)
    ensures Keys(es[..0]) == []
  {
  }

  lemma OneMoreKey(es: seq<Entry>, i: nat)
    requires i < |es|
    ensures Keys(es[..i + 1]) == Keys(es[..i]) + [es[i].key]
  {
  }

  class DB {
    const dir: Directory
    const memtable: Memtable
    var sstables: seq<bytes>
    var nextSeq: nat

    /** Every table on the list is a file of its own. */
    ghost predicate Valid()
      reads this, dir
    {
      && (forall i, j :: 0 <= i < j < |sstables| ==> sstables[i] != sstables[j])
      && (forall f :: f in sstables ==> f in dir.files)
    }

    ghost function State(): Db
      reads this, dir, memtable
    {
      Db(memtable.data, memtable.threshold, sstables, nextSeq, dir.files)
    }

    constructor (dir: Directory, threshold: int)
      ensures Valid() && State() == Open(dir.files, threshold) && this.dir == dir && fresh(memtable)
    {
      this.dir := dir;
      memtable := new Memtable(threshold);
      var names := LoadExisting(dir.files);
      sstables := names;
      nextSeq := |names| + 1;
      new;
      hide TableOf, Keys, Less;
      OpenedNames(dir.files);
    }

    method FlushMemtable() returns (failed: bool)
      requires Valid()
      modifies this, dir, memtable
      ensures Valid()
      ensures failed <==> Flush(old(State())).Failure?
      ensures State() == if failed then old(State()) else Flush(old(State())).value
    {
      var path := Name(nextSeq);
      var entries := memtable.Sorted();
      failed := dir.Write(path, entries);
      if failed {
        return;
      }
      sstables := sstables + [path];
      nextSeq := nextSeq + 1;
      memtable.Reset();
    }

    method Put(key: bytes, value: bytes) returns (failed: bool)
      requires Valid()
      modifies this, dir, memtable
      ensures Valid() && Effect(State(), failed) == Lsm.Put(old(State()), key, value)
    {
      var full := memtable.Put(key, value);
      failed := false;
      if full {
        failed := FlushMemtable();
      }
    }

    method Get(key: bytes) returns (r: Result<Option<bytes>>)
      ensures r == Lsm.Get(State(), key)
    {
      hide Scan;
      var v := memtable.Get(key);
      if v.Some? {
        return Success(v);
      }
      var i := |sstables|;
      assert sstables[..i] == sstables;
      while i > 0
        invariant 0 <= i <= |sstables|
        invariant GetTables(sstables, dir.files, key) == GetTables(sstables[..i], dir.files, key)
        modifies {}
      {
        i := i - 1;
        assert sstables[..i + 1][..i] == sstables[..i];
        r := dir.Find(sstables[i], key);
        if r.Failure? || r.value.Some? {
          return;
        }
      }
      return Success(None);
    }

    /** The end of `Compact`: the merged file takes the place of all others, which are then removed. */
    method Replace(path: bytes, stuck: set<bytes>) returns (failed: bool)
      requires Valid() && path in dir.files && path !in sstables
      modifies this, dir
      ensures Valid() && sstables == [path] && nextSeq == old(nextSeq) + 1
      ensures dir.files == old(dir.files) - (Names(old(sstables)) - stuck)
      ensures failed <==> Names(old(sstables)) * stuck != {}
    {
      var oldPaths := sstables;
      OnlyStuckFail(dir.files, oldPaths, stuck);
      sstables := [path];
      nextSeq := nextSeq + 1;
      failed := dir.Remove(oldPaths, stuck);
    }

    method Compact(stuck: set<bytes>) returns (result: Compaction)
      requires Valid()
      modifies this, dir
      ensures Valid() && CompactEffect(State(), result) == Lsm.Compact(old(State()), stuck)
    {
      hide Merge, Name, EncodeTable, Entries, Names;
      if |sstables| <= 1 {
        return Compacted;
      }
      var merged := MergeEntries(dir, sstables);
      if merged.Failure? {
        return Unmerged;
      }
      var path := Name(nextSeq);
      var failed := dir.Write(path, merged.value);
      if failed {
        return Unmerged;
      }
      failed := Replace(path, stuck);
      return if failed then Unremoved else Compacted;
    }

    method Close() returns (failed: bool)
      requires Valid()
      modifies this, dir, memtable
      ensures Valid() && Effect(State(), failed) == Lsm.Close(old(State()))
    {
      failed := false;
      if |memtable.data| != 0 {
        failed := FlushMemtable();
      }
    }
  }

  lemma OpenedNames(disk: Disk)
    ensures |Keys(TableOf(disk))| == |disk|
    ensures var names := Keys(TableOf(disk));
      (forall i, j :: 0 <= i < j < |names| ==> names[i] != names[j]) && forall f :: f in names ==> f in disk
  {
    hide TableOf, Keys;
    ListedFiles(disk);
  }

  lemma ListedFiles(disk: Disk)
    ensures var names := Keys(TableOf(disk));
      (forall i, j :: 0 <= i < j < |names| ==> names[i] != names[j]) && forall f :: f in names ==> f in disk
  {
    hide TableOf, Keys, TableMap, Less;
    var es := TableOf(disk);
    var names := Keys(es);
    TableMapKeys(es);
    forall i, j | 0 <= i < j < |names|
      ensures names[i] != names[j]
    {
      LessIrreflexive(es[i].key);
      assert Less(es[i].key, es[j].key);
    }
    forall f | f in names
      ensures f in disk
    {
      var i :| 0 <= i < |names| && names[i] == f;
      assert es[i].key in TableMap(es);
    }
  }
}
