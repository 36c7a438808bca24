/** The memtable object, the flusher and the table manager it drives, on a disk. */
module Memtable {
  import opened Bytes
  import opened StorageLog
  import opened Sst
  import opened MultiIter
  import opened Lsm

  class MemIterator {
    const mt: seq<Log>
    var pos: nat

    ghost predicate Valid()
      reads this
    {
      pos <= |mt|
    }

    constructor (mt: seq<Log>)
      ensures Valid() && this.mt == mt && pos == 0
    {
      this.mt, pos := mt, 0;
    }

    method HasNext() returns (b: bool)
      requires Valid()
      ensures b <==> pos < |mt|
    {
      b := pos != |mt|;
    }

    method Next() returns (log: Option<Log>)
      requires Valid()
      modifies this
      ensures Valid()
      ensures old(pos) == |mt| ==> log == None && pos == old(pos)
      ensures old(pos) < |mt| ==> log == Some(mt[old(pos)]) && pos == old(pos) + 1
    {
      if pos == |mt| { return None; }
      log := Some(mt[pos]);
      pos := pos + 1;
    }
  }

  /** `SSTFlusher::Flush`: drain the iterator into a new table and write it out. */
  method FlushTable(disk: Disk, name: string, it: MemIterator, last: Log) returns (ok: bool, table: Table)
    requires it.Valid() && it.pos == 0 && TableMeta(last, it.mt).Wf()
    modifies disk, it
    ensures ok && table == Table(name, TableMeta(last, it.mt).offset)
    ensures disk.files == old(disk.files)[name := Overwrite(FileOf(old(disk.files), name), TableBytes(last, it.mt))]
  {
    var sst := new SStable.Init(disk, name, last);
    var more := it.HasNext();
    while more
      invariant it.Valid() && sst.Valid() && fresh(sst) && (more <==> it.pos < |it.mt|)
      invariant sst.disk == disk && sst.name == name && sst.meta.last == last && sst.appended == it.mt[..it.pos]
      invariant disk.files == old(disk.files)
      decreases |it.mt| - it.pos
    {
      var log := it.Next();
      sst.Append(log.value);
      more := it.HasNext();
    }
    assert it.mt[..|it.mt|] == it.mt;
    ok := sst.Flush();
    table := Table(name, sst.meta.offset);
  }

  class Memtable {
    const maxSize: nat
    const disk: Disk
    var mem: seq<Log>
    var dataSize: nat
    var tables: seq<Table>
    var id: nat
    ghost var parts: seq<seq<Log>>  // the records of each table
    ghost var added: seq<Log>       // every record ever added

    ghost function State(): Store
      reads this, disk
    {
      Store(maxSize, mem, dataSize, disk.files, tables, id)
    }

    ghost predicate Valid()
      reads this, disk
    {
      Inv(State(), parts, added)
    }

    /** A memtable over an empty directory. */
    constructor (disk: Disk, maxSize: nat)
      requires disk.files == map[]
      ensures Valid() && State() == Empty(maxSize) && added == [] && this.disk == disk
    {
      this.disk, this.maxSize := disk, maxSize;
      mem, dataSize, tables, id := [], 0, [], 0;
      parts, added := [], [];
    }

    method Add(log: Log) returns (ok: bool)
      requires Valid() && Storable(maxSize, log)
      modifies this, disk
      ensures Valid() && ok && State() == AddLog(old(State()), log) && added == old(added) + [log]
    {
      AddKeeps(State(), parts, added, log);
      ghost var parts', added' := PartsAfter(State(), parts, log), added + [log];
      ok := DoAdd(log);
      parts, added := parts', added';
    }

    /** The body of `Add`; its first branch would drop the record, and is never taken. */
    method DoAdd(log: Log) returns (ok: bool)
      requires MemOk(State()) && dataSize <= maxSize && Storable(maxSize, log)
      modifies this`mem, this`dataSize, this`tables, this`id, disk
      ensures ok && State() == AddLog(old(State()), log)
    {
      ok := true;
      if dataSize > maxSize {
        assert false;
      } else {
        ghost var s := State();
        WithLogOk(s, log);
        mem := InsertLog(mem, log);
        dataSize := dataSize + log.size;
        assert State() == WithLog(s, log);
        if dataSize > maxSize {
          ok := MinorFreeze();
        }
      }
    }

    method MinorFreeze() returns (ok: bool)
      requires MemOk(State()) && mem != [] && dataSize < TWO_64
      modifies this`mem, this`dataSize, this`tables, this`id, disk
      ensures ok && State() == Freeze(old(State()))
    {
      var frozen := mem;
      mem, dataSize := [], 0;
      var last := frozen[|frozen| - 1];
      var it := new MemIterator(frozen);
      id := id + 1;
      var name := FileName(id);
      FrozenMeta(old(State()));
      var table;
      ok, table := FlushTable(disk, name, it, last);
      tables := tables + [table];
    }

    /** Read everything: the merge over every table file and the memtable. */
    method ScanAll() returns (out: seq<Log>)
      requires Valid() && forall l :: l in added ==> l.lsn < TWO_64 - 1
      ensures Scan(State()) == Some(out) && IsMerge([added], out)
    {
      var inputs := ReadAllTables();
      out := DrainMerge(inputs + [mem]);
      ScanIsCorrect(State(), parts, added);
    }

    method ReadAllTables() returns (inputs: seq<seq<Log>>)
      requires Valid()
      ensures inputs == parts
    {
      inputs := [];
      ghost var all := parts;
      assert |all| == |tables|;
      for i := 0 to |tables|
        invariant inputs == all[..i]
      {
        var logs := ReadTable(i);
        TakeOne(all, i);
        inputs := inputs + [logs];
      }
    }

    method ReadTable(i: nat) returns (logs: seq<Log>)
      requires Valid() && i < |tables|
      ensures i < |parts| && logs == parts[i]
    {
      assert TableOk(disk.files, tables[i], parts[i]);
      TableReadsBack(parts[i][|parts[i]| - 1], parts[i]);
      var it := new SSTIterator.Init(disk.files[tables[i].name], tables[i].offset, parts[i]);
      logs := Drain(it);
    }
  }

  lemma FrozenMeta(s: Store)
    requires MemOk(s) && s.mem != [] && s.dataSize < TWO_64
    ensures TableMeta(s.mem[|s.mem| - 1], s.mem).Wf()
  {
    forall i | 0 <= i < |s.mem| ensures Storable(s.maxSize, s.mem[i]) { assert s.mem[i] in s.mem; }
    TotalIsSizes(s.mem);
  }
}
