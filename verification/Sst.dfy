/** Sorted-table files: framed metadata (the last record, where the data starts, its size), then the
    framed records; how they are written, and how they are read back. */
module Sst {
  import opened Bytes
  import opened Framing
  import opened StorageLog

  datatype Meta = Meta(last: Log, offset: nat, size: nat) {
    function Size(): nat { last.size + 2 * 8 }

    ghost predicate Wf() { last.Wf() && Size() + 8 < TWO_64 && offset < TWO_64 && size < TWO_64 }
  }

  function MetaBytes(m: Meta): seq<Byte> {
    Encode(m.last) + (ToLE(m.offset, 8) + ToLE(m.size, 8))
  }

  /** Refused when the encoded length is not the announced one. */
  function EncodeMeta(m: Meta): Option<seq<Byte>> {
    if |MetaBytes(m)| != m.Size() then None else Some(MetaBytes(m))
  }

  function DecodeMeta(b: seq<Byte>): Option<Meta> {
    match Decode(b)
    case None => None
    case Some(last) =>
      if |b| < last.size + 16 then None
      else Some(Meta(last, FromLE(b[last.size..last.size + 8]), FromLE(b[last.size + 8..last.size + 16])))
  }

  lemma DecodeEncodeMeta(m: Meta)
    requires m.Wf()
    ensures EncodeMeta(m) == Some(MetaBytes(m)) && |MetaBytes(m)| == m.Size()
    ensures DecodeMeta(MetaBytes(m)) == Some(m)
  {
    var b, n := MetaBytes(m), m.last.size;
    EncodeLength(m.last);
    DecodeEncode(m.last, ToLE(m.offset, 8) + ToLE(m.size, 8));
    LERoundTrip(m.offset, 8);
    LERoundTrip(m.size, 8);
    MetaLayout(Encode(m.last), ToLE(m.offset, 8), ToLE(m.size, 8));
  }

  lemma MetaLayout(x: seq<Byte>, y: seq<Byte>, z: seq<Byte>)
    requires |y| == |z| == 8
    ensures var b := x + (y + z); b[|x|..|x| + 8] == y && b[|x| + 8..|x| + 16] == z
  {
  }

  /** The metadata at the start of a file. */
  function ReadMeta(file: seq<Byte>): Option<Meta> {
    match ReadBody(file, 0)
    case None => None
    case Some(body) =>
      match DecodeMeta(body)
      case None => None
      case Some(m) => if m.Size() == |body| then Some(m) else None
  }

  function TotalSize(logs: seq<Log>): nat {
    if logs == [] then 0 else TotalSize(logs[..|logs| - 1]) + |Encode(logs[|logs| - 1])|
  }

  function TableMeta(last: Log, logs: seq<Log>): Meta {
    Meta(last, last.size + 16 + 8, TotalSize(logs))
  }

  /** The whole file of a table. */
  function TableBytes(last: Log, logs: seq<Log>): seq<Byte> {
    FrameBody(MetaBytes(TableMeta(last, logs))) + FrameAll(logs)
  }

  /** Written tables read back: the metadata is recovered, and exactly the records follow it. */
  lemma TableReadsBack(last: Log, logs: seq<Log>)
    requires AllWf(logs) && TableMeta(last, logs).Wf()
    ensures var file := TableBytes(last, logs);
            && ReadMeta(file) == Some(TableMeta(last, logs))
            && Holds(file, TableMeta(last, logs).offset, logs)
            && ReadAll(file, TableMeta(last, logs).offset) == Some(logs)
  {
    var m, file := TableMeta(last, logs), TableBytes(last, logs);
    var body := MetaBytes(m);
    DecodeEncodeMeta(m);
    assert file[0..] == file;
    SplitTail(file, 0, FrameBody(body), FrameAll(logs));
    ReadFramed(file, 0, body);
    ReadAllBack(file, m.offset, logs);
  }

  /** The length of a table file, by its metadata: the records and eight bytes of framing for each. */
  lemma {:induction false} FramedLength(logs: seq<Log>)
    ensures |FrameAll(logs)| == TotalSize(logs) + 8 * |logs|
  {
    if logs != [] {
      var init, last := logs[..|logs| - 1], logs[|logs| - 1];
      FramedLength(init);
      FrameAllAppend(init, last);
      assert logs == init + [last];
    }
  }

  lemma TableLength(last: Log, logs: seq<Log>)
    requires last.Wf()
    ensures |TableBytes(last, logs)| == TableMeta(last, logs).offset + TableMeta(last, logs).size + 8 * |logs|
  {
    EncodeLength(last);
    FramedLength(logs);
  }

  /** The effect of writing `new` from the start of a file opened without truncation. */
  function Overwrite(before: seq<Byte>, contents: seq<Byte>): (r: seq<Byte>)
    ensures |before| <= |contents| <==> r == contents
  {
    if |before| <= |contents| then contents else contents + before[|contents|..]
  }

  /** Byte by byte: the new contents, then what the old file had beyond them. */
  lemma OverwriteBytes(before: seq<Byte>, contents: seq<Byte>, i: nat)
    ensures |Overwrite(before, contents)| == if |before| <= |contents| then |contents| else |before|
    ensures i < |Overwrite(before, contents)| ==>
              Overwrite(before, contents)[i] == if i < |contents| then contents[i] else before[i]
  {
  }

  class Disk {
    var files: map<string, seq<Byte>>

    function Contents(name: string): seq<Byte>
      reads this
    {
      if name in files then files[name] else []
    }

    constructor ()
      ensures files == map[]
    {
      files := map[];
    }
  }

  class SStable {
    const disk: Disk
    var name: string
    var meta: Meta
    var buf: seq<Byte>
    ghost var appended: seq<Log>

    /** The buffer is the framed form of what was appended, and the metadata describes it. */
    ghost predicate Valid()
      reads this
    {
      buf == FrameAll(appended) && meta == TableMeta(meta.last, appended)
    }

    constructor Init(disk: Disk, name: string, last: Log)
      ensures Valid() && this.disk == disk && this.name == name && appended == [] && meta.last == last
    {
      this.disk, this.name := disk, name;
      meta := Meta(last, last.size + 2 * 8 + 8, 0);
      buf, appended := [], [];
    }

    method Append(log: Log)
      requires Valid()
      modifies this
      ensures Valid() && appended == old(appended) + [log]
      ensures name == old(name) && meta.last == old(meta.last)
    {
      var tmp := Encode(log);
      FrameAllAppend(appended, log);
      Assoc(buf, ToLE(|tmp| + 8, 8), tmp);
      buf := buf + ToLE(|tmp| + 8, 8);
      buf := buf + tmp;
      meta := meta.(size := meta.size + |tmp|);
      appended := appended + [log];
    }

    /** On success the file holds the table, followed by whatever a longer old file had beyond it. */
    method Flush() returns (ok: bool)
      requires Valid()
      modifies disk
      ensures meta.Wf() ==> ok
      ensures ok ==> disk.files ==
                     old(disk.files)[name := Overwrite(old(disk.Contents(name)), TableBytes(meta.last, appended))]
      ensures !ok ==> disk.files ==
                      old(disk.files)[name := Overwrite(old(disk.Contents(name)), ToLE(meta.Size() + 8, 8))]
    {
      var encoded := EncodeMeta(meta);
      if meta.Wf() { DecodeEncodeMeta(meta); }
      if encoded.None? {
        disk.files := disk.files[name := Overwrite(disk.Contents(name), ToLE(meta.Size() + 8, 8))];
        return false;
      }
      var bytes := ToLE(meta.Size() + 8, 8) + encoded.value;
      bytes := bytes + buf;
      disk.files := disk.files[name := Overwrite(disk.Contents(name), bytes)];
      return true;
    }
  }

  class SSTIterator {
    const data: seq<Byte>  // the file; tables do not change once written
    var pos: nat
    const size: nat
    ghost var rest: seq<Log>  // what is still to come

    ghost predicate Valid()
      reads this
    {
      AllWf(rest) && Holds(data, pos, rest) && size == |data|
    }

    constructor Init(data: seq<Byte>, offset: nat, ghost logs: seq<Log>)
      requires AllWf(logs) && Holds(data, offset, logs)
      ensures Valid() && rest == logs
    {
      this.data, size, pos, rest := data, |data|, offset, logs;
    }

    method HasNext() returns (b: bool)
      requires Valid()
      ensures b <==> rest != []
    {
      ReadLogBack(data, pos, rest);
      b := pos < size;
    }

    method Next() returns (log: Option<Log>)
      requires Valid()
      modifies this
      ensures Valid()
      ensures old(rest) == [] ==> log == None && rest == []
      ensures old(rest) != [] ==> log == Some(old(rest)[0]) && rest == old(rest)[1..]
    {
      ReadLogBack(data, pos, rest);
      var more := HasNext();
      if !more { return None; }
      var read := ReadLog(data, pos);
      log := Some(read.value.0);
      pos := pos + read.value.1;
      rest := rest[1..];
    }
  }

  method Drain(it: SSTIterator) returns (out: seq<Log>)
    requires it.Valid()
    modifies it
    ensures it.Valid() && it.rest == [] && out == old(it.rest)
  {
    out := [];
    ghost var all := it.rest;
    var more := it.HasNext();
    while more
      invariant it.Valid() && out + it.rest == all && (more <==> it.rest != [])
      decreases |it.rest|
    {
      ShiftOne(out, it.rest);
      var log := it.Next();
      out := out + [log.value];
      more := it.HasNext();
    }
  }

  /** Opening a written table through its recovered metadata, and reading to the end. */
  method ScanTable(file: seq<Byte>, ghost last: Log, ghost logs: seq<Log>) returns (out: seq<Log>)
    requires AllWf(logs) && TableMeta(last, logs).Wf() && file == TableBytes(last, logs)
    ensures out == logs
  {
    TableReadsBack(last, logs);
    var meta := ReadMeta(file);
    var it := new SSTIterator.Init(file, meta.value.offset, logs);
    out := Drain(it);
  }
}
