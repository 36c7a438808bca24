/** The memtable over its sorted-table files: adding records, freezing a full memtable into a file,
    and reading everything back through the merge. */
module Lsm {
  import opened Bytes
  import opened StorageLog
  import opened Sst
  import opened MultiIter

  // ---- file names ----

  function Digit(d: nat): char
    requires d < 16
  {
    if d < 10 then ('0' as int + d) as char else ('a' as int + (d - 10)) as char
  }

  function Hex(n: nat): (s: string)
    ensures |s| > 0
  {
    if n < 16 then [Digit(n)] else Hex(n / 16) + [Digit(n % 16)]
  }

  const SST_PREFIX: string := "CtgSST"

  function FileName(id: nat): string {
    SST_PREFIX + ".0x" + Hex(id)
  }

  function DigitValue(c: char): int {
    if '0' <= c <= '9' then c as int - '0' as int else c as int - 'a' as int + 10
  }

  /** The number written in lower-case hexadecimal digits. */
  function HexValue(s: string): int {
    if s == [] then 0 else 16 * HexValue(s[..|s| - 1]) + DigitValue(s[|s| - 1])
  }

  /** `Hex` writes its number, in digits 0 to 9 and a to f, without leading zeros. */
  lemma {:induction false} HexIsNumber(n: nat)
    ensures HexValue(Hex(n)) == n
    ensures forall i :: 0 <= i < |Hex(n)| ==> '0' <= Hex(n)[i] <= '9' || 'a' <= Hex(n)[i] <= 'f'
    ensures |Hex(n)| > 1 ==> Hex(n)[0] != '0'
  {
    if n >= 16 {
      HexIsNumber(n / 16);
      assert Hex(n)[..|Hex(n)| - 1] == Hex(n / 16);
    } else {
      assert [Digit(n)][..0] == [];
    }
  }

  lemma FileNameInjective(m: nat, n: nat)
    requires FileName(m) == FileName(n)
    ensures m == n
  {
    var k := |SST_PREFIX + ".0x"|;
    assert Hex(m) == FileName(m)[k..] == FileName(n)[k..] == Hex(n);
    HexIsNumber(m);
    HexIsNumber(n);
  }

  // ---- the memtable's ordered set ----

  /** Insertion into `std::set<Log>`: a record that is neither less nor greater than a present one is
      not inserted. */
  function InsertLog(mem: seq<Log>, log: Log): seq<Log> {
    if mem == [] || LogLess(log, mem[0]) then [log] + mem
    else if LogLess(mem[0], log) then [mem[0]] + InsertLog(mem[1..], log)
    else mem
  }

  /** The same version of the same key. */
  predicate SameVersion(a: Log, b: Log) {
    a.key == b.key && a.lsn == b.lsn
  }

  lemma Equivalent(a: Log, b: Log)
    ensures SameVersion(a, b) <==> !LogLess(a, b) && !LogLess(b, a)
  {
    LessIrreflexive(a.key);
    LessTotal(a.key, b.key);
  }

  ghost predicate HasVersion(logs: seq<Log>, log: Log) {
    exists l :: l in logs && SameVersion(l, log)
  }

  /** Insertion keeps everything present, and adds the record unless its version is already there. */
  lemma {:induction false} InsertMembers(mem: seq<Log>, log: Log)
    ensures forall l :: l in mem ==> l in InsertLog(mem, log)
    ensures forall l :: l in InsertLog(mem, log) ==> l in mem || l == log
    ensures HasVersion(InsertLog(mem, log), log)
    ensures !HasVersion(mem, log) ==> log in InsertLog(mem, log)
  {
    var r := InsertLog(mem, log);
    if mem == [] || LogLess(log, mem[0]) {
      assert log in r && SameVersion(log, log);
    } else if LogLess(mem[0], log) {
      var t := mem[1..];
      InsertMembers(t, log);
      assert mem == [mem[0]] + t;
      var l :| l in InsertLog(t, log) && SameVersion(l, log);
      assert l in r;
    } else {
      Equivalent(mem[0], log);
      assert mem[0] in r;
    }
  }

  lemma {:induction false} InsertSorted(mem: seq<Log>, log: Log)
    requires SortedLogs(mem)
    ensures SortedLogs(InsertLog(mem, log)) && InsertLog(mem, log) != []
  {
    if mem == [] || LogLess(log, mem[0]) {
      forall j | 0 < j < |mem| ensures LogLess(log, mem[j]) { LogLessTransitive(log, mem[0], mem[j]); }
      SortedCons(log, mem);
    } else if LogLess(mem[0], log) {
      InsertSorted(mem[1..], log);
      InsertMembers(mem[1..], log);
      SortedCons(mem[0], InsertLog(mem[1..], log));
    }
  }

  lemma SortedCons(h: Log, t: seq<Log>)
    requires SortedLogs(t) && (forall l :: l in t ==> LogLess(h, l))
    ensures SortedLogs([h] + t)
  {
  }

  function Sizes(logs: seq<Log>): nat {
    if logs == [] then 0 else logs[0].size + Sizes(logs[1..])
  }

  lemma {:induction false} InsertSizes(mem: seq<Log>, log: Log)
    ensures Sizes(InsertLog(mem, log)) <= Sizes(mem) + log.size
  {
    if mem == [] || LogLess(log, mem[0]) {
      assert ([log] + mem)[1..] == mem;
    } else if LogLess(mem[0], log) {
      InsertSizes(mem[1..], log);
      assert InsertLog(mem, log)[1..] == InsertLog(mem[1..], log);
    }
  }

  /** The metadata's data size is the sum of the record sizes. */
  lemma {:induction false} TotalIsSizes(logs: seq<Log>)
    requires AllWf(logs)
    ensures TotalSize(logs) == Sizes(logs)
  {
    if logs != [] {
      var init, last := logs[..|logs| - 1], logs[|logs| - 1];
      TotalIsSizes(init);
      SizesAppend(init, last);
      EncodeLength(last);
      assert logs == init + [last];
    }
  }

  lemma {:induction false} SizesAppend(logs: seq<Log>, log: Log)
    ensures Sizes(logs + [log]) == Sizes(logs) + log.size
  {
    if logs != [] {
      SizesAppend(logs[1..], log);
      assert (logs + [log])[1..] == logs[1..] + [log];
    }
  }

  // ---- the store ----

  /** A flushed table as the manager knows it. */
  datatype Table = Table(name: string, offset: nat)

  datatype Store = Store(
    maxSize: nat,
    mem: seq<Log>,
    dataSize: nat,
    files: map<string, seq<Byte>>,
    tables: seq<Table>,
    id: nat)

  function Empty(maxSize: nat): Store {
    Store(maxSize, [], 0, map[], [], 0)
  }

  function FileOf(files: map<string, seq<Byte>>, name: string): seq<Byte> {
    if name in files then files[name] else []
  }

  /** `MinorFreeze`: the memtable becomes a new table file.  Freezing nothing is left undefined by the
      source and cannot happen. */
  function Freeze(s: Store): Store {
    if s.mem == [] then s else
      var last := s.mem[|s.mem| - 1];
      var name := FileName(s.id + 1);
      s.(mem := [], dataSize := 0, id := s.id + 1,
         files := s.files[name := Overwrite(FileOf(s.files, name), TableBytes(last, s.mem))],
         tables := s.tables + [Table(name, TableMeta(last, s.mem).offset)])
  }

  /** The record is in the memtable and counted. */
  function WithLog(s: Store, log: Log): Store {
    s.(mem := InsertLog(s.mem, log), dataSize := s.dataSize + log.size)
  }

  function AddLog(s: Store, log: Log): Store {
    if s.dataSize > s.maxSize then Freeze(s)
    else
      var s' := WithLog(s, log);
      if s'.dataSize > s.maxSize then Freeze(s') else s'
  }

  /** What the iterators over the table files return, table by table. */
  function ReadTables(files: map<string, seq<Byte>>, tables: seq<Table>): Option<seq<seq<Log>>> {
    if tables == [] then Some([]) else
      var n := |tables| - 1;
      match (ReadTables(files, tables[..n]), ReadAll(FileOf(files, tables[n].name), tables[n].offset))
      case (Some(before), Some(logs)) => Some(before + [logs])
      case _ => None
  }

  /** Reading everything: the merge over all table files and the memtable. */
  function Scan(s: Store): Option<seq<Log>> {
    match ReadTables(s.files, s.tables)
    case None => None
    case Some(parts) => Some(Merge(LiveAll(parts + [s.mem])))
  }

  function AfterAdds(maxSize: nat, logs: seq<Log>): Store {
    if logs == [] then Empty(maxSize)
    else AddLog(AfterAdds(maxSize, logs[..|logs| - 1]), logs[|logs| - 1])
  }

  // ---- nothing is lost ----

  /** A record that can be stored, in a store whose 64-bit size counter does not overflow. */
  ghost predicate Storable(maxSize: nat, log: Log) {
    log.Wf() && log.lsn < TWO_64 - 1 && maxSize + log.size + 24 < TWO_64
  }

  /** A table file and the records it was made from. */
  ghost predicate TableOk(files: map<string, seq<Byte>>, table: Table, logs: seq<Log>) {
    && logs != [] && SortedLogs(logs) && AllWf(logs)
    && var last := logs[|logs| - 1];
       && TableMeta(last, logs).Wf()
       && table.offset == TableMeta(last, logs).offset
       && table.name in files && files[table.name] == TableBytes(last, logs)
  }

  ghost predicate TablesOk(s: Store, parts: seq<seq<Log>>) {
    && |parts| == |s.tables| == s.id
    && (forall i :: 0 <= i < |parts| ==> s.tables[i].name == FileName(i + 1) && TableOk(s.files, s.tables[i], parts[i]))
    && (forall name :: name in s.files ==> exists i :: 0 < i <= s.id && name == FileName(i))
  }

  ghost predicate MemOk(s: Store) {
    && SortedLogs(s.mem) && Sizes(s.mem) <= s.dataSize
    && (forall l :: l in s.mem ==> Storable(s.maxSize, l))
  }

  /** The records held now, against all records ever added: no version is missing, nothing is made up. */
  ghost predicate Keeps(parts: seq<seq<Log>>, added: seq<Log>) {
    && (forall i, l :: 0 <= i < |parts| && l in parts[i] ==> l in added)
    && (forall l :: l in added ==> exists i :: 0 <= i < |parts| && HasVersion(parts[i], l))
  }

  ghost predicate Inv(s: Store, parts: seq<seq<Log>>, added: seq<Log>) {
    TablesOk(s, parts) && MemOk(s) && s.dataSize <= s.maxSize && Keeps(parts + [s.mem], added)
  }

  lemma NewTableOk(s: Store, files: map<string, seq<Byte>>, name: string)
    requires MemOk(s) && s.mem != [] && s.dataSize < TWO_64
    requires var last := s.mem[|s.mem| - 1]; name in files && files[name] == TableBytes(last, s.mem)
    ensures TableOk(files, Table(name, TableMeta(s.mem[|s.mem| - 1], s.mem).offset), s.mem)
  {
    forall i | 0 <= i < |s.mem| ensures Storable(s.maxSize, s.mem[i]) { assert s.mem[i] in s.mem; }
    TotalIsSizes(s.mem);
  }

  lemma NextNameIsFree(s: Store, parts: seq<seq<Log>>)
    requires TablesOk(s, parts)
    ensures FileName(s.id + 1) !in s.files
  {
    if FileName(s.id + 1) in s.files {
      var i :| 0 < i <= s.id && FileName(s.id + 1) == FileName(i);
      FileNameInjective(i, s.id + 1);
    }
  }

  /** A freeze writes a file of its own and leaves the other tables as they are. */
  lemma FreezeKeepsTables(s: Store, parts: seq<seq<Log>>)
    requires TablesOk(s, parts) && MemOk(s) && s.mem != [] && s.dataSize < TWO_64
    ensures TablesOk(Freeze(s), parts + [s.mem])
  {
    var s', name := Freeze(s), FileName(s.id + 1);
    NextNameIsFree(s, parts);
    NewTableOk(s, s'.files, name);
    var parts' := parts + [s.mem];
    forall i | 0 <= i < |parts'|
      ensures s'.tables[i].name == FileName(i + 1) && TableOk(s'.files, s'.tables[i], parts'[i]) {
      if i < |parts| {
        assert TableOk(s.files, s.tables[i], parts[i]);
        assert s'.files[s.tables[i].name] == s.files[s.tables[i].name];
      }
    }
    forall n | n in s'.files ensures exists i :: 0 < i <= s'.id && n == FileName(i) {
      if n != name { var i :| 0 < i <= s.id && n == FileName(i); }
    }
  }

  lemma InsertKeepsMem(s: Store, log: Log)
    requires MemOk(s) && Storable(s.maxSize, log)
    ensures MemOk(WithLog(s, log))
  {
    InsertSorted(s.mem, log);
    InsertMembers(s.mem, log);
    InsertSizes(s.mem, log);
  }

  lemma WithLogOk(s: Store, log: Log)
    requires MemOk(s) && Storable(s.maxSize, log) && s.dataSize <= s.maxSize
    ensures MemOk(WithLog(s, log)) && WithLog(s, log).mem != [] && WithLog(s, log).dataSize < TWO_64
  {
    InsertKeepsMem(s, log);
    InsertSorted(s.mem, log);
  }

  lemma InsertKeeps(parts: seq<seq<Log>>, mem: seq<Log>, added: seq<Log>, log: Log)
    requires Keeps(parts + [mem], added)
    ensures Keeps(parts + [InsertLog(mem, log)], added + [log])
  {
    var before, after := parts + [mem], parts + [InsertLog(mem, log)];
    InsertMembers(mem, log);
    forall i, l | 0 <= i < |after| && l in after[i] ensures l in added + [log] {
      assert i < |parts| ==> after[i] == before[i];
      if l != log { assert l in before[i]; }
    }
    forall l | l in added + [log] ensures exists i :: 0 <= i < |after| && HasVersion(after[i], l) {
      if l in added {
        var i :| 0 <= i < |before| && HasVersion(before[i], l);
        if i == |parts| {
          var v :| v in mem && SameVersion(v, l);
          assert v in after[i];
        }
        assert HasVersion(after[i], l);
      } else {
        assert HasVersion(after[|parts|], l);
      }
    }
  }

  lemma EmptyMemKeeps(parts: seq<seq<Log>>, added: seq<Log>)
    requires Keeps(parts, added)
    ensures Keeps(parts + [[]], added)
  {
    var after := parts + [[]];
    forall l | l in added ensures exists i :: 0 <= i < |after| && HasVersion(after[i], l) {
      var i :| 0 <= i < |parts| && HasVersion(parts[i], l);
      assert HasVersion(after[i], l);
    }
  }

  /** All records held, counted. */
  ghost function AllOf(parts: seq<seq<Log>>): multiset<Log> {
    if parts == [] then multiset{} else AllOf(parts[..|parts| - 1]) + multiset(parts[|parts| - 1])
  }

  lemma AllOfAppend(parts: seq<seq<Log>>, part: seq<Log>)
    ensures AllOf(parts + [part]) == AllOf(parts) + multiset(part)
  {
    assert (parts + [part])[..|parts|] == parts;
  }

  /** No version of a key is added twice. */
  ghost predicate DistinctVersions(logs: seq<Log>) {
    forall i, j :: 0 <= i < j < |logs| ==> !SameVersion(logs[i], logs[j])
  }

  lemma {:induction false} InsertCounts(mem: seq<Log>, log: Log)
    requires !HasVersion(mem, log)
    ensures multiset(InsertLog(mem, log)) == multiset(mem) + multiset{log}
  {
    if mem == [] || LogLess(log, mem[0]) {
    } else {
      assert mem[0] in mem;
      Equivalent(mem[0], log);
      var t := mem[1..];
      assert mem == [mem[0]] + t;
      forall v | v in t ensures !SameVersion(v, log) { assert v in mem; }
      InsertCounts(t, log);
    }
  }

  /** The records of each table after one more add, and after a whole history. */
  ghost function PartsAfter(s: Store, parts: seq<seq<Log>>, log: Log): seq<seq<Log>> {
    if s.dataSize + log.size > s.maxSize then parts + [InsertLog(s.mem, log)] else parts
  }

  ghost function PartsOf(maxSize: nat, logs: seq<Log>): seq<seq<Log>> {
    if logs == [] then [] else
      var init := logs[..|logs| - 1];
      PartsAfter(AfterAdds(maxSize, init), PartsOf(maxSize, init), logs[|logs| - 1])
  }

  /** One `Add`: the branch that freezes without inserting is not taken, and no record is lost. */
  lemma AddKeeps(s: Store, parts: seq<seq<Log>>, added: seq<Log>, log: Log)
    requires Inv(s, parts, added) && Storable(s.maxSize, log)
    ensures s.dataSize <= s.maxSize
    ensures Inv(AddLog(s, log), PartsAfter(s, parts, log), added + [log])
  {
    var s1 := WithLog(s, log);
    assert MemOk(s1) by { InsertKeepsMem(s, log); }
    assert Keeps(parts + [s1.mem], added + [log]) by { InsertKeeps(parts, s.mem, added, log); }
    if s1.dataSize > s.maxSize {
      assert s1.mem != [] by { InsertSorted(s.mem, log); }
      assert TablesOk(Freeze(s1), parts + [s1.mem]) by { FreezeKeepsTables(s1, parts); }
      EmptyMemKeeps(parts + [s1.mem], added + [log]);
    }
  }

  lemma NewVersion(parts: seq<seq<Log>>, mem: seq<Log>, added: seq<Log>, log: Log)
    requires Keeps(parts + [mem], added) && DistinctVersions(added + [log])
    ensures !HasVersion(mem, log)
  {
    var all := added + [log];
    assert (parts + [mem])[|parts|] == mem;
    forall v | v in mem ensures !SameVersion(v, log) {
      assert v in added;
      var i :| 0 <= i < |added| && added[i] == v;
      assert all[i] == v && all[|added|] == log;
    }
  }

  lemma AddedMem(s: Store, log: Log)
    requires s.dataSize <= s.maxSize
    ensures AddLog(s, log).mem == if s.dataSize + log.size > s.maxSize then [] else InsertLog(s.mem, log)
  {
    InsertMembers(s.mem, log);
  }

  lemma InsertAllOf(parts: seq<seq<Log>>, mem: seq<Log>, added: seq<Log>, log: Log)
    requires !HasVersion(mem, log) && AllOf(parts + [mem]) == multiset(added)
    ensures AllOf(parts + [InsertLog(mem, log)]) == multiset(added + [log])
  {
    InsertCounts(mem, log);
    AllOfAppend(parts, mem);
    AllOfAppend(parts, InsertLog(mem, log));
  }

  lemma AddCounts(s: Store, parts: seq<seq<Log>>, added: seq<Log>, log: Log)
    requires !HasVersion(s.mem, log) && s.dataSize <= s.maxSize
    requires AllOf(parts + [s.mem]) == multiset(added)
    ensures AllOf(PartsAfter(s, parts, log) + [AddLog(s, log).mem]) == multiset(added + [log])
  {
    AddedMem(s, log);
    InsertAllOf(parts, s.mem, added, log);
    AllOfAppend(parts + [InsertLog(s.mem, log)], []);
  }

  /** After any adds, every table file holds a sorted run of records, the memtable is within its
      bound, and every added version is in the memtable or in a table. */
  lemma {:induction false} AddsKeep(maxSize: nat, logs: seq<Log>)
    requires forall l :: l in logs ==> Storable(maxSize, l)
    ensures Inv(AfterAdds(maxSize, logs), PartsOf(maxSize, logs), logs)
    ensures AfterAdds(maxSize, logs).maxSize == maxSize
  {
    if logs != [] {
      var init, last := logs[..|logs| - 1], logs[|logs| - 1];
      assert logs == init + [last];
      assert last in logs;
      AddsKeep(maxSize, init);
      AddKeeps(AfterAdds(maxSize, init), PartsOf(maxSize, init), init, last);
    }
  }

  /** Nothing is lost and nothing is duplicated: with distinct versions, the tables and the memtable
      together hold each added record exactly once. */
  lemma {:induction false} AddsConserve(maxSize: nat, logs: seq<Log>)
    requires (forall l :: l in logs ==> Storable(maxSize, l)) && DistinctVersions(logs)
    ensures AllOf(PartsOf(maxSize, logs) + [AfterAdds(maxSize, logs).mem]) == multiset(logs)
  {
    if logs == [] {
      AllOfAppend([], []);
    } else {
      var init, last := logs[..|logs| - 1], logs[|logs| - 1];
      assert logs == init + [last];
      AddsConserve(maxSize, init);
      assert Keeps(PartsOf(maxSize, init) + [AfterAdds(maxSize, init).mem], init)
             && AfterAdds(maxSize, init).dataSize <= AfterAdds(maxSize, init).maxSize by {
        AddsKeep(maxSize, init);
      }
      NewVersion(PartsOf(maxSize, init), AfterAdds(maxSize, init).mem, init, last);
      AddCounts(AfterAdds(maxSize, init), PartsOf(maxSize, init), init, last);
    }
  }

  // ---- when the memtable is frozen ----

  /** The batches of adds that went into one table each, and those since. */
  datatype Batches = Batches(tables: seq<seq<Log>>, rest: seq<Log>)

  /** The adds, in order. */
  function Flatten(batches: seq<seq<Log>>): seq<Log> {
    if batches == [] then [] else Flatten(batches[..|batches| - 1]) + batches[|batches| - 1]
  }

  /** A batch is over the bound by its last record only. */
  ghost predicate JustOver(batch: seq<Log>, maxSize: nat) {
    batch != [] && Sizes(batch[..|batch| - 1]) <= maxSize < Sizes(batch)
  }

  /** A part holds the versions of a batch, and nothing else. */
  ghost predicate SameVersions(part: seq<Log>, batch: seq<Log>) {
    && (forall l :: l in part ==> l in batch)
    && (forall l {:trigger HasVersion(part, l)} :: l in batch ==> HasVersion(part, l))
  }

  /** A batch for each part, just over the bound, with the part's versions. */
  ghost predicate FullBatches(batches: seq<seq<Log>>, parts: seq<seq<Log>>, maxSize: nat) {
    && |batches| == |parts|
    && (parts != [] ==>
          var n := |parts| - 1;
          && JustOver(batches[n], maxSize) && SameVersions(parts[n], batches[n])
          && FullBatches(batches[..n], parts[..n], maxSize))
  }

  ghost predicate OpenBatch(batch: seq<Log>, mem: seq<Log>, dataSize: nat, maxSize: nat) {
    dataSize == Sizes(batch) <= maxSize && SameVersions(mem, batch)
  }

  lemma InsertSameVersions(mem: seq<Log>, batch: seq<Log>, log: Log)
    requires SameVersions(mem, batch)
    ensures SameVersions(InsertLog(mem, log), batch + [log])
  {
    var mem' := InsertLog(mem, log);
    InsertMembers(mem, log);
    forall l | l in batch + [log] ensures HasVersion(mem', l) {
      if l in batch {
        assert HasVersion(mem, l);
        var v :| v in mem && SameVersion(v, l);
        assert v in mem';
      }
    }
  }

  lemma AddedCounters(s: Store, log: Log)
    requires s.dataSize <= s.maxSize
    ensures AddLog(s, log).maxSize == s.maxSize
    ensures AddLog(s, log).dataSize == if s.dataSize + log.size > s.maxSize then 0 else s.dataSize + log.size
  {
    InsertMembers(s.mem, log);
  }

  lemma {:induction false} FlattenAppend(batches: seq<seq<Log>>, batch: seq<Log>)
    ensures Flatten(batches + [batch]) == Flatten(batches) + batch
  {
    assert (batches + [batch])[..|batches|] == batches;
  }

  lemma JustOverNow(rest: seq<Log>, log: Log, maxSize: nat)
    requires Sizes(rest) <= maxSize < Sizes(rest) + log.size
    ensures JustOver(rest + [log], maxSize)
  {
    SizesAppend(rest, log);
    assert (rest + [log])[..|rest|] == rest;
  }

  lemma CloseBatch(batches: seq<seq<Log>>, parts: seq<seq<Log>>, batch: seq<Log>, mem: seq<Log>, maxSize: nat)
    requires FullBatches(batches, parts, maxSize) && JustOver(batch, maxSize) && SameVersions(mem, batch)
    ensures FullBatches(batches + [batch], parts + [mem], maxSize)
  {
    assert (batches + [batch])[..|batches|] == batches && (parts + [mem])[..|parts|] == parts;
  }

  /** The adds in all batches, in order. */
  function AllAdds(b: Batches): seq<Log> {
    Flatten(b.tables) + b.rest
  }

  lemma AllAddsStep(tables: seq<seq<Log>>, rest: seq<Log>, log: Log)
    ensures AllAdds(Batches(tables, rest + [log])) == AllAdds(Batches(tables, rest)) + [log]
    ensures AllAdds(Batches(tables + [rest + [log]], [])) == AllAdds(Batches(tables, rest)) + [log]
  {
    Assoc(Flatten(tables), rest, [log]);
    FlattenAppend(tables, rest + [log]);
  }

  /** One more add: into the open batch, which is closed when that takes it over the bound. */
  lemma BatchStep(b: Batches, parts: seq<seq<Log>>, mem: seq<Log>, dataSize: nat, maxSize: nat, log: Log)
    returns (b': Batches)
    requires FullBatches(b.tables, parts, maxSize) && OpenBatch(b.rest, mem, dataSize, maxSize)
    ensures AllAdds(b') == AllAdds(b) + [log]
    ensures if dataSize + log.size > maxSize
            then FullBatches(b'.tables, parts + [InsertLog(mem, log)], maxSize) && OpenBatch(b'.rest, [], 0, maxSize)
            else FullBatches(b'.tables, parts, maxSize)
                 && OpenBatch(b'.rest, InsertLog(mem, log), dataSize + log.size, maxSize)
  {
    var batch := b.rest + [log];
    assert SameVersions(InsertLog(mem, log), batch) by { InsertSameVersions(mem, b.rest, log); }
    if dataSize + log.size > maxSize {
      b' := Batches(b.tables + [batch], []);
      assert JustOver(batch, maxSize) by { JustOverNow(b.rest, log, maxSize); }
      CloseBatch(b.tables, parts, batch, InsertLog(mem, log), maxSize);
    } else {
      b' := Batches(b.tables, batch);
      SizesAppend(b.rest, log);
    }
    AllAddsStep(b.tables, b.rest, log);
  }

  lemma StoreBatchStep(b: Batches, s: Store, parts: seq<seq<Log>>, log: Log) returns (b': Batches)
    requires FullBatches(b.tables, parts, s.maxSize) && OpenBatch(b.rest, s.mem, s.dataSize, s.maxSize)
    ensures AllAdds(b') == AllAdds(b) + [log]
    ensures FullBatches(b'.tables, PartsAfter(s, parts, log), s.maxSize)
    ensures OpenBatch(b'.rest, AddLog(s, log).mem, AddLog(s, log).dataSize, s.maxSize)
  {
    AddedMem(s, log);
    AddedCounters(s, log);
    b' := BatchStep(b, parts, s.mem, s.dataSize, s.maxSize, log);
  }

  lemma {:induction false} MaxSizeKept(maxSize: nat, logs: seq<Log>)
    ensures AfterAdds(maxSize, logs).maxSize == maxSize
  {
    if logs != [] { MaxSizeKept(maxSize, logs[..|logs| - 1]); }
  }

  lemma AfterLast(maxSize: nat, init: seq<Log>, last: Log)
    ensures AfterAdds(maxSize, init + [last]) == AddLog(AfterAdds(maxSize, init), last)
    ensures PartsOf(maxSize, init + [last]) == PartsAfter(AfterAdds(maxSize, init), PartsOf(maxSize, init), last)
  {
    assert (init + [last])[..|init|] == init;
  }

  /** The batches of a run of adds, and what they have become. */
  ghost predicate BatchesOf(b: Batches, maxSize: nat, logs: seq<Log>) {
    var s := AfterAdds(maxSize, logs);
    && AllAdds(b) == logs
    && FullBatches(b.tables, PartsOf(maxSize, logs), maxSize)
    && OpenBatch(b.rest, s.mem, s.dataSize, maxSize)
  }

  lemma BatchLast(b: Batches, maxSize: nat, logs: seq<Log>) returns (b': Batches)
    requires logs != [] && BatchesOf(b, maxSize, logs[..|logs| - 1])
    ensures BatchesOf(b', maxSize, logs)
  {
    var init, last := logs[..|logs| - 1], logs[|logs| - 1];
    assert init + [last] == logs;
    MaxSizeKept(maxSize, init);
    b' := StoreBatchStep(b, AfterAdds(maxSize, init), PartsOf(maxSize, init), last);
    AfterLast(maxSize, init, last);
  }

  /** After any adds: the adds fall, in order, into batches, one for each table and one for the memtable.
      A table's batch exceeds the bound by its last record only, the memtable's does not exceed it, and
      each holds exactly the versions of its batch. */
  lemma {:induction false} AddsBatched(maxSize: nat, logs: seq<Log>) returns (b: Batches)
    ensures BatchesOf(b, maxSize, logs)
  {
    if logs == [] {
      b := Batches([], []);
    } else {
      b := AddsBatched(maxSize, logs[..|logs| - 1]);
      b := BatchLast(b, maxSize, logs);
    }
  }

  // ---- reading everything back ----

  lemma TableReadBack(files: map<string, seq<Byte>>, table: Table, logs: seq<Log>)
    requires TableOk(files, table, logs)
    ensures ReadAll(FileOf(files, table.name), table.offset) == Some(logs)
  {
    TableReadsBack(logs[|logs| - 1], logs);
  }

  lemma {:induction false} ReadTablesBack(files: map<string, seq<Byte>>, tables: seq<Table>, parts: seq<seq<Log>>)
    requires |tables| == |parts|
    requires forall i :: 0 <= i < |parts| ==> ReadAll(FileOf(files, tables[i].name), tables[i].offset) == Some(parts[i])
    ensures ReadTables(files, tables) == Some(parts)
  {
    if tables != [] {
      var n := |tables| - 1;
      ReadTablesBack(files, tables[..n], parts[..n]);
      assert parts == parts[..n] + [parts[n]];
    }
  }

  lemma TablesReadBack(files: map<string, seq<Byte>>, tables: seq<Table>, parts: seq<seq<Log>>)
    requires |tables| == |parts| && forall i :: 0 <= i < |parts| ==> TableOk(files, tables[i], parts[i])
    ensures ReadTables(files, tables) == Some(parts)
  {
    forall i | 0 <= i < |parts|
      ensures ReadAll(FileOf(files, tables[i].name), tables[i].offset) == Some(parts[i]) {
      TableReadBack(files, tables[i], parts[i]);
    }
    ReadTablesBack(files, tables, parts);
  }

  lemma {:induction false} LiveIsAll(logs: seq<Log>)
    requires forall l :: l in logs ==> l.lsn < TWO_64 - 1
    ensures Live(logs) == logs
  {
    if logs != [] { LiveIsAll(logs[1..]); }
  }

  lemma ScanIsMerge(s: Store, parts: seq<seq<Log>>, added: seq<Log>)
    requires Inv(s, parts, added) && (forall l :: l in added ==> l.lsn < TWO_64 - 1)
    ensures Scan(s) == Some(Merge(parts + [s.mem])) && AllSorted(parts + [s.mem])
  {
    TablesReadBack(s.files, s.tables, parts);
    var all := parts + [s.mem];
    forall i | 0 <= i < |all| ensures LiveAll(all)[i] == all[i] && SortedLogs(all[i]) {
      assert forall l :: l in all[i] ==> l in added;
      LiveIsAll(all[i]);
      if i < |parts| { assert TableOk(s.files, s.tables[i], parts[i]); }
    }
    assert LiveAll(all) == all;
  }

  lemma MergeOfKept(parts: seq<seq<Log>>, added: seq<Log>, out: seq<Log>)
    requires Keeps(parts, added) && IsMerge(parts, out)
    ensures IsMerge([added], out)
  {
    forall o | o in out ensures InSome([added], o) {
      assert InSome(parts, o);
      assert o in [added][0];
    }
    forall l | InSome([added], l) ensures Supersedes(out, l) {
      assert l in added;
      var i :| 0 <= i < |parts| && HasVersion(parts[i], l);
      var v :| v in parts[i] && SameVersion(v, l);
      assert InSome(parts, v);
      var o :| o in out && o.key == v.key && v.lsn <= o.lsn;
    }
  }

  /** End to end: after any adds into an empty directory, reading every table file back and merging it
      with the memtable lists each added key once, in key order, in its newest version. */
  lemma ScanGivesLatest(maxSize: nat, logs: seq<Log>)
    requires forall l :: l in logs ==> Storable(maxSize, l)
    ensures Scan(AfterAdds(maxSize, logs)).Some?
    ensures IsMerge([logs], Scan(AfterAdds(maxSize, logs)).value)
  {
    AddsKeep(maxSize, logs);
    ScanIsCorrect(AfterAdds(maxSize, logs), PartsOf(maxSize, logs), logs);
  }

  lemma ScanIsCorrect(s: Store, parts: seq<seq<Log>>, added: seq<Log>)
    requires Inv(s, parts, added) && (forall l :: l in added ==> l.lsn < TWO_64 - 1)
    ensures Scan(s) == Some(Merge(LiveAll(parts + [s.mem])))
    ensures IsMerge([added], Merge(LiveAll(parts + [s.mem])))
  {
    var all := parts + [s.mem];
    ScanIsMerge(s, parts, added);
    TablesReadBack(s.files, s.tables, parts);
    MergeIsMerge(all);
    MergeOfKept(all, added, Merge(all));
  }

  /** After any adds, the metadata read back from each table file names the greatest of its records. */
  lemma LastIsGreatest(maxSize: nat, logs: seq<Log>, i: nat, l: Log)
    requires forall k :: k in logs ==> Storable(maxSize, k)
    ensures var s, parts := AfterAdds(maxSize, logs), PartsOf(maxSize, logs);
            |parts| == |s.tables| &&
            (i < |parts| && l in parts[i] ==>
               && s.tables[i].name in s.files
               && ReadMeta(s.files[s.tables[i].name]).Some?
               && var last := ReadMeta(s.files[s.tables[i].name]).value.last; l == last || LogLess(l, last))
  {
    var s, parts := AfterAdds(maxSize, logs), PartsOf(maxSize, logs);
    AddsKeep(maxSize, logs);
    if i < |parts| && l in parts[i] {
      var part := parts[i];
      assert TableOk(s.files, s.tables[i], part);
      TableReadsBack(part[|part| - 1], part);
      var j :| 0 <= j < |part| && part[j] == l;
    }
  }
}
