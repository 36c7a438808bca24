/** The write-ahead log of the memtable: an append-only file of framed records, and a checkpoint file
    holding the offset from which a restart replays. */
module Wal {
  import opened Bytes
  import opened Framing
  import opened StorageLog

  datatype Files = Files(log: seq<Byte>, current: seq<Byte>)

  datatype Op = LogRecord(log: Log) | Checkpoint | Restart

  const FRESH_FILES: Files := Files([], ToLE(0, 8))

  /** What `Write` adds to the log file. */
  function Written(log: Log): seq<Byte> {
    ToLE(log.size + 8, 8) + Encode(log)
  }

  function Apply(f: Files, op: Op): Files {
    match op
    case LogRecord(log) => f.(log := f.log + Written(log))
    case Checkpoint => f.(current := ToLE(|f.log|, 8))
    case Restart => f
  }

  /** The offset a restart reads: eight bytes, or as many as there are into a zeroed integer. */
  function Offset(current: seq<Byte>): nat {
    FromLE(if |current| < 8 then current else current[..8])
  }

  /** Bytes that a short file does not have count as zero. */
  lemma OffsetMeaning(current: seq<Byte>)
    ensures Offset(current) == FromLE((current + seq(8, _ => 0))[..8])
  {
    var zeros: seq<Byte> := seq(8, _ => 0);
    if |current| < 8 {
      var missing := zeros[..8 - |current|];
      assert (current + zeros)[..8] == current + missing;
      FromLEConcat(current, missing);
      ZeroBytes(missing);
    } else {
      assert (current + zeros)[..8] == current[..8];
    }
  }

  lemma {:induction false} ZeroBytes(s: seq<Byte>)
    requires forall i :: 0 <= i < |s| ==> s[i] == 0
    ensures FromLE(s) == 0
  {
    if s != [] { ZeroBytes(s[1..]); }
  }

  /** The records a restart hands to its callback. */
  function Replayed(f: Files): Option<seq<Log>> {
    ReadAll(f.log, Offset(f.current))
  }

  function After(ops: seq<Op>): Files {
    if ops == [] then FRESH_FILES else Apply(After(ops[..|ops| - 1]), ops[|ops| - 1])
  }

  /** Every record logged, in order. */
  function Logged(ops: seq<Op>): seq<Log> {
    if ops == [] then [] else
      var before, op := Logged(ops[..|ops| - 1]), ops[|ops| - 1];
      if op.LogRecord? then before + [op.log] else before
  }

  /** The records logged after the last checkpoint, in order. */
  function SinceCheckpoint(ops: seq<Op>): seq<Log> {
    if ops == [] then [] else
      var before := SinceCheckpoint(ops[..|ops| - 1]);
      match ops[|ops| - 1]
      case LogRecord(log) => before + [log]
      case Checkpoint => []
      case Restart => before
  }

  lemma WrittenIsFramed(log: Log)
    requires log.Wf()
    ensures Written(log) == FrameBody(Encode(log))
  {
    EncodeLength(log);
  }

  /** The log file frames every record ever logged, and the checkpoint splits it exactly before the
      records since then. */
  lemma {:induction false} LogFileHolds(ops: seq<Op>) returns (older: seq<Log>)
    requires AllWf(Logged(ops)) && |FrameAll(Logged(ops))| < TWO_64
    ensures Logged(ops) == older + SinceCheckpoint(ops)
    ensures After(ops).log == FrameAll(Logged(ops))
    ensures After(ops).current == ToLE(|FrameAll(older)|, 8)
  {
    if ops == [] {
      older := [];
    } else {
      var init, op := ops[..|ops| - 1], ops[|ops| - 1];
      var logs := Logged(init);
      match op
      case LogRecord(log) =>
        assert Logged(ops) == logs + [log];
        assert forall i :: 0 <= i < |logs| ==> logs[i] == Logged(ops)[i];
        assert Logged(ops)[|logs|] == log;
        FrameAllAppend(logs, log);
        WrittenIsFramed(log);
        older := LogFileHolds(init);
      case Checkpoint =>
        older := LogFileHolds(init);
        older := logs;
      case Restart =>
        older := LogFileHolds(init);
    }
  }

  /** Over any run of logging, checkpoints and restarts, a restart replays exactly the records logged
      since the last checkpoint, in order. */
  lemma ReplayIsExact(ops: seq<Op>)
    requires AllWf(Logged(ops)) && |FrameAll(Logged(ops))| < TWO_64
    ensures Replayed(After(ops)) == Some(SinceCheckpoint(ops))
  {
    var older := LogFileHolds(ops);
    var newer, f := SinceCheckpoint(ops), After(ops);
    FrameAllConcat(older, newer);
    var pos := |FrameAll(older)|;
    assert f.current[..8] == f.current;
    LERoundTrip(pos, 8);
    assert f.log[pos..] == FrameAll(newer);
    assert forall i :: 0 <= i < |newer| ==> newer[i] == Logged(ops)[|older| + i];
    ReadAllBack(f.log, pos, newer);
  }

  class Wal {
    var log: Option<seq<Byte>>      // the files of the directory, if they exist
    var current: Option<seq<Byte>>
    var pos: nat                    // position of the descriptor `dlog_`

    ghost predicate Exists()
      reads this
    {
      log.Some? && current.Some?
    }

    ghost function State(): Files
      requires Exists()
      reads this
    {
      Files(log.value, current.value)
    }

    /** The log is open for appending. */
    ghost predicate Open()
      reads this
    {
      Exists() && pos == |log.value|
    }

    constructor ()
      ensures log == None && current == None
    {
      log, current, pos := None, None, 0;
    }

    method Start()
      modifies this
      ensures Open() && State() == FRESH_FILES
    {
      log := Some([]);
      pos := 0;
      current := Some(ToLE(0, 8));
    }

    /** Replays from the checkpoint; the files stay as they are and the log is open at its end. */
    method Recover() returns (ok: bool, delivered: seq<Log>)
      requires Exists()
      modifies this
      ensures Exists() && State() == old(State())
      ensures Replayed(State()) == if ok then Some(delivered) else None
      ensures ok ==> Open()
    {
      var offset := Offset(current.value);
      var file := log.value;
      ok, delivered := true, [];
      ghost var all := ReadAll(file, offset);
      assert all.Some? ==> [] + all.value == all.value;
      while ok && offset < |file|
        invariant log == old(log) && current == old(current)
        invariant ok ==> all == Prepend(delivered, ReadAll(file, offset))
        invariant !ok ==> all == None
        decreases ok, |file| - offset
      {
        var read := ReadLog(file, offset);
        if read.None? {
          ok := false;
        } else {
          PrependOne(delivered, read.value.0, ReadAll(file, offset + read.value.1));
          delivered := delivered + [read.value.0];
          offset := offset + read.value.1;
        }
      }
      assert delivered + [] == delivered;
      if ok { pos := |file|; }
    }

    method Init() returns (ok: bool, delivered: seq<Log>)
      modifies this
      ensures !old(log.Some? && current.Some?) ==> ok && delivered == [] && Open() && State() == FRESH_FILES
      ensures old(log.Some? && current.Some?) ==> Exists() && State() == old(Files(log.value, current.value))
      ensures old(log.Some? && current.Some?) ==> Replayed(State()) == if ok then Some(delivered) else None
      ensures ok ==> Open()
    {
      if log.Some? && current.Some? {
        ok, delivered := Recover();
      } else {
        Start();
        ok, delivered := true, [];
      }
    }

    method LogToDisk(record: Log)
      requires Open()
      modifies this
      ensures Open() && State() == Apply(old(State()), LogRecord(record))
    {
      var size := ToLE(record.size + 8, 8);
      log := Some(log.value + size);
      log := Some(log.value + Encode(record));
      Assoc(old(log.value), size, Encode(record));
      pos := |log.value|;
    }

    method LogCurrent()
      requires Open()
      modifies this
      ensures Open() && State() == Apply(old(State()), Checkpoint)
    {
      current := Some(ToLE(|log.value|, 8));
    }
  }

  ghost function Prepend(a: seq<Log>, b: Option<seq<Log>>): Option<seq<Log>> {
    match b case None => None case Some(rest) => Some(a + rest)
  }

  lemma PrependOne(a: seq<Log>, x: Log, b: Option<seq<Log>>)
    ensures Prepend(a + [x], b) == Prepend(a, Prepend([x], b))
  {
    if b.Some? { assert (a + [x]) + b.value == a + ([x] + b.value); }
  }
}
