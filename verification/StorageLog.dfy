/** The storage record: its byte layout, its length-framed form in a file, and its order. */
module StorageLog {
  import opened Bytes
  import opened Framing

  const PUT: nat := 0

  /** The lsn that marks an absent record. */
  const NO_LSN: nat := TWO_64 - 1

  /** `op` is the stored operation code; `size` is the field the constructor fills in. */
  datatype Log = Log(lsn: nat, size: nat, key: seq<Byte>, value: seq<Byte>, op: nat) {
    predicate IsValid() { lsn != NO_LSN }

    /** Built by the four-argument constructor, and within the widths of the stored integers. */
    ghost predicate Wf() {
      size == 28 + |key| + |value| && size + 8 < TWO_64 && lsn < TWO_64 && op < TWO_32
    }
  }

  function Encode(log: Log): seq<Byte> {
    ToLE(log.lsn, 8) + ToLE(log.op, 4) + ToLE(|log.key|, 8) + log.key + ToLE(|log.value|, 8) + log.value
  }

  /** `Decode` reads the operation code as eight bytes and keeps the low 32 bits; the value is cut
      short if the bytes run out.  A read outside the bytes, which the source leaves undefined, is
      `None`. */
  function Decode(b: seq<Byte>): Option<Log> {
    if |b| < 20 then None else
      var lsn := FromLE(b[0..8]);
      var op := FromLE(b[8..16]) % TWO_32;
      var n := FromLE(b[12..20]);
      if |b| < 28 + n then None else
        var key := b[20..20 + n];
        var m := FromLE(b[20 + n..28 + n]);
        var value := b[28 + n..if 28 + n + m <= |b| then 28 + n + m else |b|];
        Some(Log(lsn, n + m + 4 + 3 * 8, key, value, op))
  }

  lemma LERoundTrip(n: nat, k: nat)
    requires (k == 4 && n < TWO_32) || (k == 8 && n < TWO_64)
    ensures FromLE(ToLE(n, k)) == n
  {
    Pow256Values();
    FromToLE(n, k);
  }

  /** Where the pieces of an encoded record lie, whatever follows it. */
  lemma EncodeLayout(log: Log, rest: seq<Byte>)
    ensures var b := Encode(log) + rest;
            var n, m := |log.key|, |log.value|;
            && |b| == 28 + n + m + |rest|
            && b[0..8] == ToLE(log.lsn, 8)
            && b[8..12] == ToLE(log.op, 4)
            && b[12..20] == ToLE(n, 8)
            && b[20..20 + n] == log.key
            && b[20 + n..28 + n] == ToLE(m, 8)
            && b[28 + n..28 + n + m] == log.value
  {
  }

  lemma OpFromEightBytes(b: seq<Byte>, op: nat)
    requires |b| == 8 && op < TWO_32 && b[..4] == ToLE(op, 4)
    ensures FromLE(b) % TWO_32 == op
  {
    LowFourBytes(b);
    LERoundTrip(op, 4);
  }

  lemma DecodeSlices(b: seq<Byte>, log: Log)
    requires log.Wf() && |b| >= log.size
    requires var n, m := |log.key|, |log.value|;
             && b[0..8] == ToLE(log.lsn, 8) && b[8..12] == ToLE(log.op, 4) && b[12..20] == ToLE(n, 8)
             && b[20..20 + n] == log.key && b[20 + n..28 + n] == ToLE(m, 8) && b[28 + n..28 + n + m] == log.value
    ensures Decode(b) == Some(log)
  {
    var n, m := |log.key|, |log.value|;
    assert FromLE(b[0..8]) == log.lsn by { LERoundTrip(log.lsn, 8); }
    assert FromLE(b[8..16]) % TWO_32 == log.op by {
      assert b[8..16][..4] == b[8..12];
      OpFromEightBytes(b[8..16], log.op);
    }
    assert FromLE(b[12..20]) == n by { LERoundTrip(n, 8); }
    assert FromLE(b[20 + n..28 + n]) == m by { LERoundTrip(m, 8); }
    DecodeValues(b, log, n, m);
  }

  lemma DecodeValues(b: seq<Byte>, log: Log, n: nat, m: nat)
    requires n == |log.key| && m == |log.value| && log.size == 28 + n + m <= |b|
    requires FromLE(b[0..8]) == log.lsn && FromLE(b[8..16]) % TWO_32 == log.op
    requires FromLE(b[12..20]) == n && b[20..20 + n] == log.key
    requires FromLE(b[20 + n..28 + n]) == m && b[28 + n..28 + n + m] == log.value
    ensures Decode(b) == Some(log)
  {
  }

  /** Decoding undoes encoding and ignores whatever follows. */
  lemma DecodeEncode(log: Log, rest: seq<Byte>)
    requires log.Wf()
    ensures Decode(Encode(log) + rest) == Some(log)
  {
    EncodeLayout(log, rest);
    DecodeSlices(Encode(log) + rest, log);
  }

  /** The slices of `b` and of its first `k` bytes, where they lie before `k`. */
  lemma Sub(b: seq<Byte>, k: nat, x: nat, y: nat)
    requires x <= y <= k <= |b|
    ensures b[..k][x..y] == b[x..y]
  {
  }

  lemma DecodeShort(b: seq<Byte>, log: Log, n: nat, m: nat)
    requires n == |log.key| && m == |log.value| && 28 + n <= |b| <= log.size == 28 + n + m
    requires FromLE(b[0..8]) == log.lsn && FromLE(b[8..16]) % TWO_32 == log.op
    requires FromLE(b[12..20]) == n && b[20..20 + n] == log.key
    requires FromLE(b[20 + n..28 + n]) == m
    ensures Decode(b) == Some(log.(value := b[28 + n..]))
  {
    assert b[28 + n..|b|] == b[28 + n..];
    assert Decode(b).value.value == b[28 + n..];
  }

  lemma CutHead(log: Log, b: seq<Byte>, k: nat)
    requires log.Wf() && b == Encode(log) && 28 + |log.key| <= k <= |b|
    ensures FromLE(b[..k][0..8]) == log.lsn
    ensures FromLE(b[..k][8..16]) % TWO_32 == log.op
  {
    EncodeLayout(log, []);
    assert b + [] == b;
    Sub(b, k, 0, 8);
    LERoundTrip(log.lsn, 8);
    Sub(b, k, 8, 16);
    assert b[8..16][..4] == b[8..12];
    OpFromEightBytes(b[8..16], log.op);
  }

  lemma CutKey(log: Log, b: seq<Byte>, k: nat)
    requires log.Wf() && b == Encode(log) && 28 + |log.key| <= k <= |b|
    ensures FromLE(b[..k][12..20]) == |log.key| && b[..k][20..20 + |log.key|] == log.key
    ensures FromLE(b[..k][20 + |log.key|..28 + |log.key|]) == |log.value|
  {
    var n := |log.key|;
    EncodeLayout(log, []);
    assert b + [] == b;
    Sub(b, k, 12, 20);
    LERoundTrip(n, 8);
    Sub(b, k, 20, 20 + n);
    Sub(b, k, 20 + n, 28 + n);
    LERoundTrip(|log.value|, 8);
  }

  lemma CutValue(log: Log, b: seq<Byte>, k: nat)
    requires log.Wf() && b == Encode(log) && 28 + |log.key| <= k <= |b|
    ensures b[..k][28 + |log.key|..] == log.value[..k - 28 - |log.key|]
  {
    var n, m := |log.key|, |log.value|;
    EncodeLayout(log, []);
    assert b + [] == b;
    Sub(b, k, 28 + n, k);
    assert b[28 + n..k] == b[28 + n..28 + n + m][..k - 28 - n];
  }

  /** Bytes that end within the value decode to the part of it that is there. */
  lemma DecodeCut(log: Log, k: nat)
    requires log.Wf() && 28 + |log.key| <= k <= |Encode(log)|
    ensures Decode(Encode(log)[..k]) == Some(log.(value := log.value[..k - 28 - |log.key|]))
  {
    EncodeLength(log);
    CutHead(log, Encode(log), k);
    CutKey(log, Encode(log), k);
    CutValue(log, Encode(log), k);
    DecodeShort(Encode(log)[..k], log, |log.key|, |log.value|);
  }

  // ---- records in a file ----

  function Encodings(logs: seq<Log>): (r: seq<seq<Byte>>)
    ensures |r| == |logs|
  {
    seq(|logs|, i requires 0 <= i < |logs| => Encode(logs[i]))
  }

  /** The bytes that `Write` leaves in a file for a run of records. */
  function FrameAll(logs: seq<Log>): seq<Byte> {
    FrameBodies(Encodings(logs))
  }

  /** `Read` insists that the record accounts for the whole framed length. */
  function DecodeExact(body: seq<Byte>): Option<Log> {
    match Decode(body)
    case None => None
    case Some(log) => if log.size == |body| then Some(log) else None
  }

  /** What `Read` finds at `pos`: the record, and how far it extends. */
  function ReadLog(file: seq<Byte>, pos: nat): (r: Option<(Log, nat)>)
    ensures r.Some? ==> 0 < r.value.1 <= |file| - pos
  {
    ReadOne(DecodeExact, file, pos)
  }

  /** Everything from `pos` to the end of the file, record by record. */
  function ReadAll(file: seq<Byte>, pos: nat): Option<seq<Log>> {
    ReadMany(DecodeExact, file, pos)
  }

  ghost predicate AllWf(logs: seq<Log>) {
    forall i :: 0 <= i < |logs| ==> logs[i].Wf()
  }

  lemma EncodeLength(log: Log)
    requires log.Wf()
    ensures |Encode(log)| == log.size
  {
    EncodeLayout(log, []);
  }

  lemma FrameAllAppend(logs: seq<Log>, log: Log)
    ensures FrameAll(logs + [log]) == FrameAll(logs) + FrameBody(Encode(log))
  {
    assert Encodings(logs + [log]) == Encodings(logs) + [Encode(log)];
    FrameBodiesConcat(Encodings(logs), [Encode(log)]);
    FrameOne(Encode(log));
  }

  lemma FrameAllConcat(a: seq<Log>, b: seq<Log>)
    ensures FrameAll(a + b) == FrameAll(a) + FrameAll(b)
  {
    assert Encodings(a + b) == Encodings(a) + Encodings(b);
    FrameBodiesConcat(Encodings(a), Encodings(b));
  }

  /** A file position at which the records `logs` start and after which nothing else comes. */
  ghost predicate Holds(file: seq<Byte>, pos: nat, logs: seq<Log>) {
    HoldsBodies(file, pos, Encodings(logs))
  }

  lemma LogsEncoded(logs: seq<Log>)
    requires AllWf(logs)
    ensures Encoded(DecodeExact, Encodings(logs), logs)
  {
    forall i | 0 <= i < |logs|
      ensures |Encodings(logs)[i]| + 8 < TWO_64 && DecodeExact(Encodings(logs)[i]) == Some(logs[i]) {
      EncodeLength(logs[i]);
      DecodeEncode(logs[i], []);
      assert Encode(logs[i]) + [] == Encode(logs[i]);
    }
  }

  /** At such a position `Read` yields the first record and stops where the others start; and the
      end of the file is reached exactly when there are none. */
  lemma ReadLogBack(file: seq<Byte>, pos: nat, logs: seq<Log>)
    requires AllWf(logs) && Holds(file, pos, logs)
    ensures logs == [] <==> |file| <= pos
    ensures logs != [] ==>
              && ReadLog(file, pos) == Some((logs[0], logs[0].size + 8))
              && Holds(file, pos + logs[0].size + 8, logs[1..])
  {
    LogsEncoded(logs);
    ReadOneBack(DecodeExact, file, pos, Encodings(logs), logs);
    if logs != [] {
      EncodeLength(logs[0]);
      assert Encodings(logs)[1..] == Encodings(logs[1..]);
    }
  }

  /** Reading a run of records back gives exactly those records. */
  lemma ReadAllBack(file: seq<Byte>, pos: nat, logs: seq<Log>)
    requires AllWf(logs) && Holds(file, pos, logs)
    ensures ReadAll(file, pos) == Some(logs)
  {
    LogsEncoded(logs);
    ReadManyBack(DecodeExact, file, pos, Encodings(logs), logs);
  }

  // ---- order ----

  /** `operator<`: by key, and the newest version of a key first. */
  predicate LogLess(a: Log, b: Log) {
    Less(a.key, b.key) || (a.key == b.key && b.lsn < a.lsn)
  }

  lemma LogLessTransitive(a: Log, b: Log, c: Log)
    requires LogLess(a, b) && LogLess(b, c)
    ensures LogLess(a, c)
  {
    if Less(a.key, b.key) && Less(b.key, c.key) { LessTransitive(a.key, b.key, c.key); }
  }

  ghost predicate SortedLogs(logs: seq<Log>) {
    forall i, j :: 0 <= i < j < |logs| ==> LogLess(logs[i], logs[j])
  }
}
