/** The k-way merge of sorted record streams: each key once, in order, in its newest version. */
module MultiIter {
  import opened Bytes
  import opened StorageLog

  /** The part of an input that the merge can see: an invalid lsn marks the end of a stream. */
  function Live(logs: seq<Log>): seq<Log> {
    if logs == [] || !logs[0].IsValid() then [] else [logs[0]] + Live(logs[1..])
  }

  /** An input without its leading records for `key`. */
  function DropKey(logs: seq<Log>, key: seq<Byte>): (r: seq<Log>)
    ensures |r| <= |logs|
    ensures logs != [] && logs[0].key == key ==> |r| < |logs|
  {
    if logs != [] && logs[0].key == key then DropKey(logs[1..], key) else logs
  }

  function DropAll(ins: seq<seq<Log>>, key: seq<Byte>): (r: seq<seq<Log>>)
    ensures |r| == |ins|
    ensures forall i :: 0 <= i < |ins| ==> r[i] == DropKey(ins[i], key)
  {
    seq(|ins|, i requires 0 <= i < |ins| => DropKey(ins[i], key))
  }

  /** The least head, the leftmost among equals. */
  function Best(ins: seq<seq<Log>>): (b: Option<Log>)
    ensures b.None? <==> forall i :: 0 <= i < |ins| ==> ins[i] == []
    ensures b.Some? ==> exists i :: 0 <= i < |ins| && ins[i] != [] && ins[i][0] == b.value
  {
    if ins == [] then None else
      var before, last := Best(ins[..|ins| - 1]), ins[|ins| - 1];
      if last == [] then before
      else if before.None? || LogLess(last[0], before.value) then Some(last[0])
      else before
  }

  function Total(ins: seq<seq<Log>>): nat {
    if ins == [] then 0 else |ins[0]| + Total(ins[1..])
  }

  lemma {:induction false} DropShrinks(ins: seq<seq<Log>>, key: seq<Byte>)
    ensures Total(DropAll(ins, key)) <= Total(ins)
    ensures (exists i :: 0 <= i < |ins| && ins[i] != [] && ins[i][0].key == key) ==>
              Total(DropAll(ins, key)) < Total(ins)
  {
    if ins != [] {
      DropShrinks(ins[1..], key);
      assert DropAll(ins, key)[1..] == DropAll(ins[1..], key);
      if i :| 0 < i < |ins| && ins[i] != [] && ins[i][0].key == key {
        assert ins[1..][i - 1][0].key == key;
      }
    }
  }

  /** The whole output. */
  function Merge(ins: seq<seq<Log>>): seq<Log>
    decreases Total(ins)
  {
    match Best(ins)
    case None => []
    case Some(b) =>
      DropShrinks(ins, b.key);
      [b] + Merge(DropAll(ins, b.key))
  }

  // ---- what the output means ----

  ghost predicate InSome(ins: seq<seq<Log>>, l: Log) {
    exists i :: 0 <= i < |ins| && l in ins[i]
  }

  ghost predicate AllSorted(ins: seq<seq<Log>>) {
    forall i :: 0 <= i < |ins| ==> SortedLogs(ins[i])
  }

  ghost predicate KeysIncrease(out: seq<Log>) {
    forall i, j :: 0 <= i < j < |out| ==> Less(out[i].key, out[j].key)
  }

  /** Some output record has the key of `l` and is at least as new. */
  ghost predicate Supersedes(out: seq<Log>, l: Log) {
    exists o :: o in out && o.key == l.key && l.lsn <= o.lsn
  }

  /** `out` lists every key of the inputs once, in order, in its newest version. */
  ghost predicate IsMerge(ins: seq<seq<Log>>, out: seq<Log>) {
    && KeysIncrease(out)
    && (forall o :: o in out ==> InSome(ins, o))
    && (forall l :: InSome(ins, l) ==> Supersedes(out, l))
  }

  /** A record that is not below the best head `b`: same key and not newer, or a larger key. */
  ghost predicate NotBefore(b: Log, l: Log) {
    Less(b.key, l.key) || (l.key == b.key && l.lsn <= b.lsn)
  }

  lemma NotLess(l: Log, b: Log)
    requires !LogLess(l, b)
    ensures NotBefore(b, l)
  {
    LessTotal(l.key, b.key);
  }

  lemma NotBeforeNext(b: Log, l: Log, next: Log)
    requires NotBefore(b, l) && LogLess(l, next)
    ensures NotBefore(b, next) && (Less(b.key, l.key) ==> Less(b.key, next.key))
  {
    if Less(b.key, l.key) && Less(l.key, next.key) { LessTransitive(b.key, l.key, next.key); }
  }

  /** The best head is not after any record of any input. */
  lemma {:induction false} BestIsLeast(ins: seq<seq<Log>>, i: nat)
    requires Best(ins).Some? && i < |ins| && ins[i] != []
    ensures NotBefore(Best(ins).value, ins[i][0])
  {
    var init, last, b := ins[..|ins| - 1], ins[|ins| - 1], Best(ins).value;
    var before := Best(init);
    if i < |init| {
      BestIsLeast(init, i);
      if last != [] && LogLess(last[0], before.value) {
        var l := ins[i][0];
        if Less(b.key, before.value.key) && Less(before.value.key, l.key) {
          LessTransitive(b.key, before.value.key, l.key);
        }
      }
    } else if before.Some? && !LogLess(last[0], before.value) {
      NotLess(last[0], before.value);
    }
  }

  /** Dropping the leading records of the best key keeps the order, loses only superseded records,
      and leaves only larger keys. */
  lemma {:induction false} DropKeyFacts(logs: seq<Log>, b: Log)
    requires SortedLogs(logs) && (logs != [] ==> NotBefore(b, logs[0]))
    ensures SortedLogs(DropKey(logs, b.key))
    ensures forall l :: l in DropKey(logs, b.key) ==> l in logs && Less(b.key, l.key)
    ensures forall l :: l in logs ==> l in DropKey(logs, b.key) || (l.key == b.key && l.lsn <= b.lsn)
  {
    if logs != [] {
      var h, t := logs[0], logs[1..];
      assert logs == [h] + t;
      assert forall i :: 0 <= i < |t| ==> LogLess(h, t[i]);
      if h.key == b.key {
        LessIrreflexive(b.key);
        if t != [] { NotBeforeNext(b, h, t[0]); }
        DropKeyFacts(t, b);
      } else {
        forall l | l in logs ensures Less(b.key, l.key) {
          if l != h { NotBeforeNext(b, h, l); }
        }
      }
    }
  }

  lemma DropAllFacts(ins: seq<seq<Log>>, b: Log)
    requires AllSorted(ins) && Best(ins) == Some(b)
    ensures AllSorted(DropAll(ins, b.key))
    ensures forall l :: InSome(DropAll(ins, b.key), l) ==> InSome(ins, l) && Less(b.key, l.key)
    ensures forall l :: InSome(ins, l) ==> InSome(DropAll(ins, b.key), l) || (l.key == b.key && l.lsn <= b.lsn)
  {
    var r := DropAll(ins, b.key);
    forall i | 0 <= i < |ins|
      ensures SortedLogs(r[i])
      ensures forall l :: l in r[i] ==> l in ins[i] && Less(b.key, l.key)
      ensures forall l :: l in ins[i] ==> l in r[i] || (l.key == b.key && l.lsn <= b.lsn)
    {
      if ins[i] != [] { BestIsLeast(ins, i); }
      DropKeyFacts(ins[i], b);
    }
  }

  lemma KeysIncreaseCons(b: Log, rest: seq<Log>)
    requires KeysIncrease(rest) && (forall o :: o in rest ==> Less(b.key, o.key))
    ensures KeysIncrease([b] + rest)
  {
    var out := [b] + rest;
    forall i, j | 0 <= i < j < |out| ensures Less(out[i].key, out[j].key) {
      assert out[j] == rest[j - 1];
      if i > 0 { assert out[i] == rest[i - 1]; }
    }
  }

  lemma SupersedesCons(b: Log, rest: seq<Log>, l: Log)
    requires Supersedes(rest, l) || (l.key == b.key && l.lsn <= b.lsn)
    ensures Supersedes([b] + rest, l)
  {
    var out := [b] + rest;
    if Supersedes(rest, l) {
      var o :| o in rest && o.key == l.key && l.lsn <= o.lsn;
      assert o in out;
    } else {
      assert b in out;
    }
  }

  /** Putting the best record in front of a merge of what is left is a merge of everything. */
  lemma MergeStep(ins: seq<seq<Log>>, b: Log, rest: seq<Log>)
    requires AllSorted(ins) && Best(ins) == Some(b) && IsMerge(DropAll(ins, b.key), rest)
    ensures IsMerge(ins, [b] + rest)
  {
    var dropped := DropAll(ins, b.key);
    DropAllFacts(ins, b);
    assert KeysIncrease([b] + rest) by { KeysIncreaseCons(b, rest); }
    assert InSome(ins, b) by {
      var i :| 0 <= i < |ins| && ins[i] != [] && ins[i][0] == b;
    }
    forall o | o in [b] + rest ensures InSome(ins, o) {
      if o != b { assert InSome(dropped, o); }
    }
    forall l | InSome(ins, l) ensures Supersedes([b] + rest, l) {
      assert InSome(dropped, l) ==> Supersedes(rest, l);
      SupersedesCons(b, rest, l);
    }
  }

  /** For any number of sorted inputs the merge lists each key once, in order, newest version. */
  lemma {:induction false} MergeIsMerge(ins: seq<seq<Log>>)
    requires AllSorted(ins)
    ensures IsMerge(ins, Merge(ins))
    decreases Total(ins)
  {
    match Best(ins)
    case None =>
    case Some(b) =>
      DropShrinks(ins, b.key);
      DropAllFacts(ins, b);
      MergeIsMerge(DropAll(ins, b.key));
      MergeStep(ins, b, Merge(DropAll(ins, b.key)));
  }

  /** Consequence, record by record: nothing in the inputs is newer than the output for its key. */
  lemma MergedIsNewest(ins: seq<seq<Log>>, out: seq<Log>, o: Log, l: Log)
    requires IsMerge(ins, out) && o in out && InSome(ins, l) && l.key == o.key
    ensures l.lsn <= o.lsn
  {
    var p :| p in out && p.key == l.key && l.lsn <= p.lsn;
    LessIrreflexive(o.key);
    var i :| 0 <= i < |out| && out[i] == o;
    var j :| 0 <= j < |out| && out[j] == p;
    assert i == j;
  }

  // ---- the iterator ----

  function Pending(head: Log, iter: seq<Log>): seq<Log> {
    if head.IsValid() then [head] + Live(iter) else []
  }

  class MultiIter {
    var iters: seq<seq<Log>>  // what each input iterator has still to return
    var heads: seq<Log>       // `logs_`: the record taken from each, or an invalid one

    ghost predicate Valid()
      reads this
    {
      |iters| == |heads|
    }

    /** What is still to come, input by input. */
    ghost function AllPending(): (r: seq<seq<Log>>)
      requires Valid()
      reads this
      ensures |r| == |heads|
    {
      seq(|heads|, i requires 0 <= i < |heads| reads this requires Valid() => Pending(heads[i], iters[i]))
    }

    constructor (inputs: seq<seq<Log>>)
      ensures Valid() && |heads| == |inputs|
      ensures forall i :: 0 <= i < |inputs| ==> AllPending()[i] == Live(inputs[i])
    {
      var its, hs := [], [];
      for i := 0 to |inputs|
        invariant |its| == |hs| == i
        invariant forall j :: 0 <= j < i ==> Pending(hs[j], its[j]) == Live(inputs[j])
      {
        if |inputs[i]| > 0 {
          hs, its := hs + [inputs[i][0]], its + [inputs[i][1..]];
        } else {
          hs, its := hs + [Log(NO_LSN, 0, [], [], PUT)], its + [[]];
        }
      }
      iters, heads := its, hs;
    }

    method HasNext() returns (b: bool)
      requires Valid()
      ensures b <==> Best(AllPending()).Some?
      ensures b <==> exists i :: 0 <= i < |AllPending()| && AllPending()[i] != []
    {
      b := false;
      var i := 0;
      while !b && i < |heads|
        invariant i <= |heads|
        invariant !b ==> forall j :: 0 <= j < i ==> !heads[j].IsValid()
        invariant b ==> exists j :: 0 <= j < |heads| && heads[j].IsValid()
      {
        if heads[i].IsValid() { b := true; }
        i := i + 1;
      }
      if b {
        var j :| 0 <= j < |heads| && heads[j].IsValid();
        assert AllPending()[j] != [];
      }
    }

    /** Returns the best record and drops its key from every input. */
    method Next() returns (log: Option<Log>)
      requires Valid()
      modifies this
      ensures Valid() && log == Best(old(AllPending()))
      ensures log.None? ==> iters == old(iters) && heads == old(heads)
      ensures log.Some? ==> AllPending() == DropAll(old(AllPending()), log.value.key)
    {
      log := ChooseBest();
      if log.Some? { SkipKey(log.value.key); }
    }

    /** The first loop of `Next`. */
    method ChooseBest() returns (log: Option<Log>)
      requires Valid()
      ensures log == Best(AllPending())
    {
      log := None;
      ghost var p := AllPending();
      for i := 0 to |heads|
        invariant log == Best(p[..i])
      {
        assert p[..i + 1][..i] == p[..i];
        if heads[i].IsValid() {
          if log.None? {
            log := Some(heads[i]);
          } else if heads[i].key == log.value.key {
            LessIrreflexive(log.value.key);
            if LogLess(heads[i], log.value) { log := Some(heads[i]); }
          } else if Less(heads[i].key, log.value.key) {
            log := Some(heads[i]);
          }
        }
      }
      assert p[..|heads|] == p;
    }

    /** The second loop of `Next`: every input moves past `key`. */
    method SkipKey(key: seq<Byte>)
      requires Valid()
      modifies this
      ensures Valid() && AllPending() == DropAll(old(AllPending()), key)
    {
      ghost var p, hs, its := AllPending(), heads, iters;
      for i := 0 to |heads|
        invariant Valid() && |heads| == |p| == |hs| == |its|
        invariant forall j :: i <= j < |p| ==> heads[j] == hs[j] && iters[j] == its[j]
        invariant forall j :: 0 <= j < i ==> Pending(heads[j], iters[j]) == DropKey(p[j], key)
      {
        assert p[i] == Pending(heads[i], iters[i]);
        if heads[i].IsValid() && heads[i].key == key {
          var head, iter := SkipOne(heads[i], iters[i], key);
          heads, iters := heads[i := head], iters[i := iter];
        }
        assert Pending(heads[i], iters[i]) == DropKey(p[i], key);
      }
    }

    /** The inner loop on one input. */
    static method SkipOne(h: Log, t: seq<Log>, key: seq<Byte>) returns (head: Log, iter: seq<Log>)
      ensures Pending(head, iter) == DropKey(Pending(h, t), key)
    {
      head, iter := h, t;
      while head.IsValid() && head.key == key
        invariant DropKey(Pending(head, iter), key) == DropKey(Pending(h, t), key)
        decreases head.IsValid(), |iter|
      {
        assert Pending(head, iter)[1..] == Live(iter);
        if |iter| > 0 {
          head, iter := iter[0], iter[1..];
        } else {
          head := head.(lsn := NO_LSN);
        }
      }
    }
  }

  function LiveAll(inputs: seq<seq<Log>>): (r: seq<seq<Log>>)
    ensures |r| == |inputs| && forall i :: 0 <= i < |inputs| ==> r[i] == Live(inputs[i])
  {
    seq(|inputs|, i requires 0 <= i < |inputs| => Live(inputs[i]))
  }

  lemma MergeUnfold(out: seq<Log>, ins: seq<seq<Log>>, b: Log)
    requires Best(ins) == Some(b)
    ensures Total(DropAll(ins, b.key)) < Total(ins)
    ensures out + Merge(ins) == (out + [b]) + Merge(DropAll(ins, b.key))
  {
    DropShrinks(ins, b.key);
  }

  method DrainRest(it: MultiIter) returns (out: seq<Log>)
    requires it.Valid()
    modifies it
    ensures it.Valid() && out == Merge(old(it.AllPending()))
  {
    out := [];
    var more := it.HasNext();
    while more
      invariant it.Valid()
      invariant more <==> Best(it.AllPending()).Some?
      invariant out + Merge(it.AllPending()) == Merge(old(it.AllPending()))
      decreases Total(it.AllPending())
    {
      ghost var before := it.AllPending();
      var log := it.Next();
      MergeUnfold(out, before, log.value);
      out := out + [log.value];
      more := it.HasNext();
    }
  }

  /** Building a merge iterator over inputs and reading it to its end. */
  method DrainMerge(inputs: seq<seq<Log>>) returns (out: seq<Log>)
    ensures out == Merge(LiveAll(inputs))
  {
    var it := new MultiIter(inputs);
    assert it.AllPending() == LiveAll(inputs);
    out := DrainRest(it);
  }
}
