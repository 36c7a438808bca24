/** Several caching clients over one extent server.

    A client touches an extent only while it holds the extent's lock, and flushes the extent before
    it gives the lock up.  Every RPC and every section under a cache mutex is a step of its own, so
    operations on different extents interleave in every way.  The claim: all answers are those of
    one central map.
 */
module Coherence {
  import opened Bytes
  import opened ExtentStore

  /** Where the lock holder is in an operation on one extent. */
  datatype Pc =
    | Idle
    | MissedGet | MissedAttr | MissedSet(n: nat)       // looked up, not cached
    | HasContent(buf: Content)                         // get: content fetched, attributes next
    | HasSize(size: nat)                               // getattr: attributes fetched, content next
    | FillGet(buf: Content) | FillAttr(buf: Content, size: nat) | FillSet(buf: Content, n: nat)
    | Putting | Sizing | Removing | Erasing | Flushed  // the sections of flush

  /** One extent as its holder works on it. */
  datatype Local = Local(stored: Option<Content>, entry: Option<Entry>, pc: Pc) {
    function See(): Option<Content> { Visible(stored, entry) }
  }

  function Begin(l: Local, op: Op): (Local, Option<Result>) {
    if l.entry.Some? || op.Put? || op.Remove? then
      var (entry, result) := OnEntry(l.entry, op);
      (l.(entry := entry), Some(result))
    else
      (l.(pc := match op
                case Get => MissedGet
                case GetAttr => MissedAttr
                case SetAttr(n) => MissedSet(n)
                case _ => Idle), None)
  }

  function BeginFlush(l: Local): Local {
    l.(pc := if l.entry.Some? && l.entry.value.dirty
             then (if l.entry.value.deleted then Removing else Putting)
             else Erasing)
  }

  /** The next RPC or cache section, and the answer if it completes the operation. */
  function Advance(l: Local): (Local, Option<(Op, Result)>)
    requires l.pc.Putting? || l.pc.Sizing? ==> l.entry.Some?
  {
    match l.pc
    case Idle | Flushed => (l, None)
    case MissedGet =>
      if l.stored.None? then (l.(pc := Idle), Some((Get, MISSING))) else (l.(pc := HasContent(l.stored.value)), None)
    case MissedAttr =>
      if l.stored.None? then (l.(pc := Idle), Some((GetAttr, MISSING)))
      else (l.(pc := HasSize(Size32(l.stored.value))), None)
    case MissedSet(n) =>
      if l.stored.None? then (l.(pc := Idle), Some((SetAttr(n), MISSING)))
      else (l.(pc := FillSet(l.stored.value, n)), None)
    case HasContent(buf) =>
      if l.stored.None? then (l.(pc := Idle), Some((Get, MISSING))) else (l.(pc := FillGet(buf)), None)
    case HasSize(size) =>
      if l.stored.None? then (l.(pc := Idle), Some((GetAttr, MISSING)))
      else (l.(pc := FillAttr(l.stored.value, size)), None)
    case FillGet(buf) =>
      (l.(entry := Some(Clean(buf)), pc := Idle), Some((Get, Result(OK, buf, 0))))
    case FillAttr(buf, size) =>
      (l.(entry := Some(Clean(buf)), pc := Idle), Some((GetAttr, Result(OK, [], size))))
    case FillSet(buf, n) =>
      (l.(entry := Some(Entry(Resize(buf, n), false, true)), pc := Idle), Some((SetAttr(n), DONE)))
    case Putting => (l.(stored := Some(l.entry.value.content), pc := Sizing), None)
    case Sizing =>
      (l.(stored := Central(l.stored, SetAttr(Size32(l.entry.value.content))).0, pc := Erasing), None)
    case Removing => (l.(stored := None, pc := Erasing), None)
    case Erasing => (l.(entry := None, pc := Flushed), None)
  }

  /** A flush of this entry writes a content that the 32-bit size attribute cannot describe. */
  predicate TooLarge(entry: Option<Entry>) {
    entry.Some? && entry.value.dirty && !entry.value.deleted && |entry.value.content| >= TWO_32
  }

  /** What the server holds once the RPCs of a flush are done. */
  function Written(l: Local): Option<Content> {
    if l.entry.Some? && l.entry.value.dirty && !l.entry.value.deleted
    then Some(Resize(l.entry.value.content, Size32(l.entry.value.content))) else l.See()
  }

  ghost predicate LocalOk(l: Local) {
    && EntryOk(l.stored, l.entry)
    && match l.pc
       case Idle => true
       case MissedGet | MissedAttr | MissedSet(_) | Flushed => l.entry.None?
       case HasContent(buf) => l.entry.None? && l.stored == Some(buf)
       case HasSize(size) => l.entry.None? && l.stored.Some? && size == Size32(l.stored.value)
       case FillGet(buf) => l.entry.None? && l.stored == Some(buf)
       case FillAttr(buf, size) => l.entry.None? && l.stored == Some(buf) && size == Size32(buf)
       case FillSet(buf, n) => l.entry.None? && l.stored == Some(buf)
       case Putting => l.entry.Some? && l.entry.value.dirty && !l.entry.value.deleted
       case Sizing => l.entry.Some? && l.entry.value.dirty && !l.entry.value.deleted && l.stored == Some(l.entry.value.content)
       case Removing => l.entry.Some? && l.entry.value.dirty && l.entry.value.deleted
       case Erasing => l.stored == Written(l)
  }

  lemma BeginKeeps(l: Local, op: Op)
    requires LocalOk(l) && l.pc.Idle?
    ensures LocalOk(Begin(l, op).0)
    ensures match Begin(l, op)
            case (l', Some(result)) => Central(l.See(), op) == (l'.See(), result)
            case (l', None) => l'.See() == l.See()
  {
    if l.entry.Some? || op.Put? || op.Remove? { OnEntryIsCentral(l.stored, l.entry, op); }
  }

  /** Every section of every operation: an answer is the central one, and without an answer what can
      be seen changes exactly where a flush drops an entry that was too large for it. */
  lemma AdvanceKeeps(l: Local)
    requires LocalOk(l)
    ensures LocalOk(Advance(l).0)
    ensures match Advance(l)
            case (l', Some((op, result))) => Central(l.See(), op) == (l'.See(), result)
            case (l', None) => l'.See() == l.See() <==> !(l.pc.Erasing? && TooLarge(l.entry))
  {
    if l.pc.Erasing? && l.entry.Some? { FlushExactlyBelow4G(l.entry.value.content); }
  }

  // ---- the system ----

  datatype Event = Event(id: Id, op: Op, result: Result)

  datatype System = System(
    server: map<Id, Content>,
    caches: map<nat, map<Id, Entry>>,
    holder: map<Id, nat>,
    pcs: map<Id, Pc>,
    trace: seq<Event>)  // history: the completed operations

  datatype Step =
    | Acquire(client: nat, id: Id)
    | Operate(id: Id, op: Op)
    | Flush(id: Id)
    | Continue(id: Id)
    | Release(id: Id)

  function CacheOf(s: System, client: nat): map<Id, Entry> {
    if client in s.caches then s.caches[client] else map[]
  }

  function EntryAt(s: System, id: Id): Option<Entry> {
    if id in s.holder && id in CacheOf(s, s.holder[id]) then Some(CacheOf(s, s.holder[id])[id]) else None
  }

  function LocalAt(s: System, id: Id): Local {
    Local(Lookup(s.server, id), EntryAt(s, id), if id in s.pcs then s.pcs[id] else Idle)
  }

  function Update<V>(m: map<Id, V>, id: Id, v: Option<V>): map<Id, V> {
    match v case Some(x) => m[id := x] case None => m - {id}
  }

  function WriteBack(s: System, id: Id, l: Local): System
    requires id in s.holder
  {
    var c := s.holder[id];
    s.(server := Update(s.server, id, l.stored),
       caches := s.caches[c := Update(CacheOf(s, c), id, l.entry)],
       pcs := s.pcs[id := l.pc])
  }

  function Log(s: System, id: Id, answer: Option<(Op, Result)>): System {
    match answer
    case None => s
    case Some((op, result)) => s.(trace := s.trace + [Event(id, op, result)])
  }

  predicate Enabled(s: System, step: Step) {
    match step
    case Acquire(_, id) => id !in s.holder
    case Operate(id, op) => id in s.holder && LocalAt(s, id).pc.Idle?
    case Flush(id) => id in s.holder && LocalAt(s, id).pc.Idle?
    case Continue(id) =>
      && id in s.holder && !LocalAt(s, id).pc.Idle? && !LocalAt(s, id).pc.Flushed?
      && (LocalAt(s, id).pc.Putting? || LocalAt(s, id).pc.Sizing? ==> LocalAt(s, id).entry.Some?)
    case Release(id) => id in s.holder && LocalAt(s, id).pc.Flushed?
  }

  function Apply(s: System, step: Step): System
    requires Enabled(s, step)
  {
    match step
    case Acquire(c, id) => s.(holder := s.holder[id := c], pcs := s.pcs[id := Idle])
    case Operate(id, op) =>
      var (l, result) := Begin(LocalAt(s, id), op);
      Log(WriteBack(s, id, l), id, if result.Some? then Some((op, result.value)) else None)
    case Flush(id) => WriteBack(s, id, BeginFlush(LocalAt(s, id)))
    case Continue(id) =>
      var (l, answer) := Advance(LocalAt(s, id));
      Log(WriteBack(s, id, l), id, answer)
    case Release(id) => s.(holder := s.holder - {id}, pcs := s.pcs - {id})
  }

  ghost predicate Initial(s: System) {
    && s.caches == map[] && s.holder == map[] && s.pcs == map[] && s.trace == []
  }

  ghost predicate Run(s: System, steps: seq<Step>)
    decreases |steps|
  {
    steps == [] ||
    (Enabled(s, steps[0]) && Run(Apply(s, steps[0]), steps[1..]))
  }

  function After(s: System, steps: seq<Step>): System
    requires Run(s, steps)
    decreases |steps|
  {
    if steps == [] then s else After(Apply(s, steps[0]), steps[1..])
  }

  // ---- the central map ----

  /** One map, one operation at a time, in the order of completion. */
  function CentralMap(m: map<Id, Content>, trace: seq<Event>): map<Id, Content> {
    if trace == [] then m else
      var before := CentralMap(m, trace[..|trace| - 1]);
      var e := trace[|trace| - 1];
      Update(before, e.id, Central(Lookup(before, e.id), e.op).0)
  }

  /** Every answer in the trace is the one the central map gives at that point. */
  ghost predicate AnswersMatch(m: map<Id, Content>, trace: seq<Event>) {
    trace == [] ||
    var before, e := trace[..|trace| - 1], trace[|trace| - 1];
    AnswersMatch(m, before) && e.result == Central(Lookup(CentralMap(m, before), e.id), e.op).1
  }

  ghost predicate Exclusive(s: System) {
    && s.pcs.Keys == s.holder.Keys
    && (forall c, id :: c in s.caches && id in s.caches[c] ==> id in s.holder && s.holder[id] == c)
  }

  /** What the system as a whole presents of extent `id`. */
  function SeeAt(s: System, id: Id): Option<Content> {
    LocalAt(s, id).See()
  }

  ghost predicate LocalsOk(s: System) {
    forall id :: LocalOk(LocalAt(s, id))
  }

  ghost predicate Simulates(m: map<Id, Content>, s: System) {
    && (forall id :: Lookup(CentralMap(m, s.trace), id) == SeeAt(s, id))
    && AnswersMatch(m, s.trace)
  }

  /** What every step of every run keeps. */
  ghost predicate Shape(s: System) {
    Exclusive(s) && LocalsOk(s)
  }

  ghost predicate Inv(m: map<Id, Content>, s: System) {
    Shape(s) && Simulates(m, s)
  }

  /** The one section that can lose data: a flush drops an entry that was too large for it. */
  predicate Loses(s: System, step: Step) {
    step.Continue? && LocalAt(s, step.id).pc.Erasing? && TooLarge(EntryAt(s, step.id))
  }

  lemma WriteBackExclusive(s: System, id: Id, l: Local)
    requires Exclusive(s) && id in s.holder
    ensures Exclusive(WriteBack(s, id, l))
  {
  }

  /** Writing one extent back leaves every other extent's view alone. */
  lemma WriteBackLocal(s: System, id: Id, l: Local, j: Id)
    requires Exclusive(s) && id in s.holder
    ensures LocalAt(WriteBack(s, id, l), j) == if j == id then l else LocalAt(s, j)
  {
  }

  /** One more completed operation, on the central map. */
  lemma CentralStep(m: map<Id, Content>, trace: seq<Event>, e: Event, j: Id)
    requires AnswersMatch(m, trace)
    requires e.result == Central(Lookup(CentralMap(m, trace), e.id), e.op).1
    ensures AnswersMatch(m, trace + [e])
    ensures Lookup(CentralMap(m, trace + [e]), j) ==
            if j == e.id then Central(Lookup(CentralMap(m, trace), j), e.op).0
            else Lookup(CentralMap(m, trace), j)
  {
    assert (trace + [e])[..|trace|] == trace;
  }

  /** One section of the holder of `id`, answered or not. */
  lemma SectionLocal(s: System, id: Id, l: Local, answer: Option<(Op, Result)>)
    requires Shape(s) && id in s.holder && LocalOk(l)
    ensures Shape(Log(WriteBack(s, id, l), id, answer))
    ensures forall j :: LocalAt(Log(WriteBack(s, id, l), id, answer), j) == if j == id then l else LocalAt(s, j)
  {
    var s' := Log(WriteBack(s, id, l), id, answer);
    assert Exclusive(WriteBack(s, id, l)) by { WriteBackExclusive(s, id, l); }
    forall j ensures LocalAt(s', j) == if j == id then l else LocalAt(s, j) {
      WriteBackLocal(s, id, l, j);
    }
  }

  /** Seen from the central map: an answered section with the central answer is one operation on it,
      and a silent one must not be visible. */
  lemma SectionSimulates(m: map<Id, Content>, s: System, id: Id, l: Local, answer: Option<(Op, Result)>)
    requires Inv(m, s) && id in s.holder && LocalOk(l)
    requires answer.Some? ==> Central(SeeAt(s, id), answer.value.0) == (l.See(), answer.value.1)
    ensures Inv(m, Log(WriteBack(s, id, l), id, answer)) <==> (answer.None? ==> l.See() == SeeAt(s, id))
  {
    var s' := Log(WriteBack(s, id, l), id, answer);
    SectionLocal(s, id, l, answer);
    assert Lookup(CentralMap(m, s.trace), id) == SeeAt(s, id);
    if answer.None? && l.See() != SeeAt(s, id) {
      assert Lookup(CentralMap(m, s'.trace), id) != SeeAt(s', id);
    } else {
      forall j ensures AnswersMatch(m, s'.trace) && Lookup(CentralMap(m, s'.trace), j) == SeeAt(s', j) {
        assert Lookup(CentralMap(m, s.trace), j) == SeeAt(s, j);
        if answer.Some? { CentralStep(m, s.trace, Event(id, answer.value.0, answer.value.1), j); }
      }
    }
  }

  /** Taking and giving up a lock changes nobody's view. */
  lemma AcquireLocal(s: System, c: nat, id: Id)
    requires Shape(s) && id !in s.holder
    ensures var s' := Apply(s, Acquire(c, id));
            Shape(s') && s'.trace == s.trace && forall j :: LocalAt(s', j) == LocalAt(s, j)
  {
    assert forall j :: LocalAt(Apply(s, Acquire(c, id)), j) == LocalAt(s, j);
  }

  lemma ReleaseLocal(s: System, id: Id)
    requires Shape(s) && id in s.holder && LocalAt(s, id).pc.Flushed?
    ensures var s' := Apply(s, Release(id));
            && Shape(s') && s'.trace == s.trace
            && forall j :: LocalAt(s', j) == LocalAt(s, j).(pc := if j == id then Idle else LocalAt(s, j).pc)
  {
    var s' := Apply(s, Release(id));
    assert LocalOk(LocalAt(s, id));
    forall j ensures LocalAt(s', j) == LocalAt(s, j).(pc := if j == id then Idle else LocalAt(s, j).pc) { }
    forall j ensures LocalOk(LocalAt(s', j)) { assert LocalOk(LocalAt(s, j)); }
  }

  lemma StepKeepsShape(s: System, step: Step)
    requires Shape(s) && Enabled(s, step)
    ensures Shape(Apply(s, step))
  {
    match step
    case Acquire(c, id) => AcquireLocal(s, c, id);
    case Release(id) => ReleaseLocal(s, id);
    case Operate(id, op) =>
      BeginKeeps(LocalAt(s, id), op);
      var (l, result) := Begin(LocalAt(s, id), op);
      SectionLocal(s, id, l, if result.Some? then Some((op, result.value)) else None);
    case Flush(id) =>
      assert LocalOk(LocalAt(s, id));
      SectionLocal(s, id, BeginFlush(LocalAt(s, id)), None);
    case Continue(id) =>
      AdvanceKeeps(LocalAt(s, id));
      var (l, answer) := Advance(LocalAt(s, id));
      SectionLocal(s, id, l, answer);
  }

  /** Every step of every client keeps the system equal to the central map, except exactly the one
      that loses data. */
  lemma StepKeeps(m: map<Id, Content>, s: System, step: Step)
    requires Inv(m, s) && Enabled(s, step)
    ensures Inv(m, Apply(s, step)) <==> !Loses(s, step)
  {
    match step
    case Acquire(c, id) => AcquireLocal(s, c, id);
    case Release(id) => ReleaseLocal(s, id);
    case Operate(id, op) =>
      BeginKeeps(LocalAt(s, id), op);
      var (l, result) := Begin(LocalAt(s, id), op);
      SectionSimulates(m, s, id, l, if result.Some? then Some((op, result.value)) else None);
    case Flush(id) =>
      assert LocalOk(LocalAt(s, id));
      SectionSimulates(m, s, id, BeginFlush(LocalAt(s, id)), None);
    case Continue(id) =>
      AdvanceKeeps(LocalAt(s, id));
      var (l, answer) := Advance(LocalAt(s, id));
      SectionSimulates(m, s, id, l, answer);
  }

  lemma {:induction false} RunKeepsShape(s: System, steps: seq<Step>)
    requires Shape(s) && Run(s, steps)
    ensures Shape(After(s, steps))
    decreases |steps|
  {
    if steps != [] {
      StepKeepsShape(s, steps[0]);
      RunKeepsShape(Apply(s, steps[0]), steps[1..]);
    }
  }

  lemma InitialInv(s: System)
    requires Initial(s)
    ensures Inv(s.server, s)
  {
    assert forall id :: LocalAt(s, id) == Local(Lookup(s.server, id), None, Idle);
  }

  // ---- exactly when a run is coherent ----

  /** All answers so far, and everything visible, are those of the central map, at the start and
      after every step. */
  ghost predicate CoherentThroughout(m: map<Id, Content>, s: System, steps: seq<Step>)
    requires Run(s, steps)
    decreases |steps|
  {
    Simulates(m, s) && (steps != [] ==> CoherentThroughout(m, Apply(s, steps[0]), steps[1..]))
  }

  predicate NeverLoses(s: System, steps: seq<Step>)
    requires Run(s, steps)
    decreases |steps|
  {
    steps != [] ==> !Loses(s, steps[0]) && NeverLoses(Apply(s, steps[0]), steps[1..])
  }

  lemma {:induction false} ThroughoutExactly(m: map<Id, Content>, s: System, steps: seq<Step>)
    requires Inv(m, s) && Run(s, steps)
    ensures CoherentThroughout(m, s, steps) <==> NeverLoses(s, steps)
    ensures NeverLoses(s, steps) ==> Inv(m, After(s, steps))
    decreases |steps|
  {
    if steps != [] {
      var s' := Apply(s, steps[0]);
      StepKeeps(m, s, steps[0]);
      StepKeepsShape(s, steps[0]);
      if !Loses(s, steps[0]) { ThroughoutExactly(m, s', steps[1..]); }
    }
  }

  /** Over every run of any number of clients, whatever the contents: the system is one central map
      all along if and only if no flush drops an entry of 2^32 bytes or more that it had to write. */
  lemma CoherentExactly(s: System, steps: seq<Step>)
    requires Initial(s) && Run(s, steps)
    ensures CoherentThroughout(s.server, s, steps) <==> NeverLoses(s, steps)
  {
    InitialInv(s);
    ThroughoutExactly(s.server, s, steps);
  }

  // ---- the guard of a flush ----

  /** Every flush begins with an entry that it can write. */
  predicate FlushesFit(s: System, steps: seq<Step>)
    requires Run(s, steps)
    decreases |steps|
  {
    steps != [] ==>
      (steps[0].Flush? ==> !TooLarge(EntryAt(s, steps[0].id))) && FlushesFit(Apply(s, steps[0]), steps[1..])
  }

  predicate FlushPc(pc: Pc) {
    pc.Putting? || pc.Sizing? || pc.Removing? || pc.Erasing?
  }

  predicate Fits(l: Local) {
    FlushPc(l.pc) ==> !TooLarge(l.entry)
  }

  ghost predicate FlushingFits(s: System) {
    forall id :: Fits(LocalAt(s, id))
  }

  lemma SectionFits(s: System, id: Id, l: Local, answer: Option<(Op, Result)>)
    requires Shape(s) && FlushingFits(s) && id in s.holder && LocalOk(l) && Fits(l)
    ensures FlushingFits(Log(WriteBack(s, id, l), id, answer))
  {
    SectionLocal(s, id, l, answer);
  }

  lemma AdvanceFits(l: Local)
    requires LocalOk(l) && Fits(l)
    ensures Fits(Advance(l).0)
  {
  }

  lemma StepKeepsFitting(s: System, step: Step)
    requires Shape(s) && FlushingFits(s) && Enabled(s, step)
    requires step.Flush? ==> !TooLarge(EntryAt(s, step.id))
    ensures FlushingFits(Apply(s, step))
  {
    match step
    case Acquire(c, id) => AcquireLocal(s, c, id);
    case Release(id) => ReleaseLocal(s, id);
    case Operate(id, op) =>
      BeginKeeps(LocalAt(s, id), op);
      var (l, result) := Begin(LocalAt(s, id), op);
      SectionFits(s, id, l, if result.Some? then Some((op, result.value)) else None);
    case Flush(id) =>
      assert LocalOk(LocalAt(s, id));
      SectionFits(s, id, BeginFlush(LocalAt(s, id)), None);
    case Continue(id) =>
      AdvanceKeeps(LocalAt(s, id));
      AdvanceFits(LocalAt(s, id));
      var (l, answer) := Advance(LocalAt(s, id));
      SectionFits(s, id, l, answer);
  }

  lemma {:induction false} FittingNeverLoses(s: System, steps: seq<Step>)
    requires Shape(s) && FlushingFits(s) && Run(s, steps) && FlushesFit(s, steps)
    ensures NeverLoses(s, steps)
    decreases |steps|
  {
    if steps != [] {
      StepKeepsShape(s, steps[0]);
      StepKeepsFitting(s, steps[0]);
      FittingNeverLoses(Apply(s, steps[0]), steps[1..]);
    }
  }

  /** Coherence: any number of clients, any interleaving, contents of any length as long as no flush
      begins with one it cannot write.  Every answer given, and everything visible at any time, is
      that of one central map on which the operations happened one after another. */
  lemma CoherentRuns(s: System, steps: seq<Step>)
    requires Initial(s) && Run(s, steps) && FlushesFit(s, steps)
    ensures CoherentThroughout(s.server, s, steps)
    ensures AnswersMatch(s.server, After(s, steps).trace)
    ensures forall id :: SeeAt(After(s, steps), id) == Lookup(CentralMap(s.server, After(s, steps).trace), id)
  {
    InitialInv(s);
    assert forall id :: LocalAt(s, id).pc == Idle;
    FittingNeverLoses(s, steps);
    ThroughoutExactly(s.server, s, steps);
  }

  function FlushRank(pc: Pc): nat {
    match pc case Putting => 3 case Sizing => 2 case Removing => 2 case Erasing => 1 case _ => 0
  }

  /** The steps of one whole flush, from its beginning to the entry being dropped. */
  function FlushSteps(l: Local, id: Id): seq<Step> {
    [Flush(id)] + Continues(FlushRank(BeginFlush(l).pc), id)
  }

  function Continues(k: nat, id: Id): seq<Step> {
    if k == 0 then [] else [Continue(id)] + Continues(k - 1, id)
  }

  lemma ContinueFlush(s: System, id: Id)
    requires Shape(s) && id in s.holder && FlushPc(LocalAt(s, id).pc)
    ensures Enabled(s, Continue(id))
    ensures var s', l := Apply(s, Continue(id)), LocalAt(s, id);
            && Shape(s') && id in s'.holder && FlushRank(LocalAt(s', id).pc) == FlushRank(l.pc) - 1
            && (forall j :: j != id ==> LocalAt(s', j) == LocalAt(s, j))
            && if l.pc.Erasing? then LocalAt(s', id) == Local(Written(l), None, Flushed)
               else FlushPc(LocalAt(s', id).pc) && Written(LocalAt(s', id)) == Written(l)
  {
    assert LocalOk(LocalAt(s, id));
    AdvanceKeeps(LocalAt(s, id));
    var (l, answer) := Advance(LocalAt(s, id));
    SectionLocal(s, id, l, answer);
  }

  lemma {:induction false} FinishFlush(s: System, id: Id)
    requires Shape(s) && id in s.holder && FlushPc(LocalAt(s, id).pc)
    ensures var rest, l := Continues(FlushRank(LocalAt(s, id).pc), id), LocalAt(s, id);
            && Run(s, rest)
            && forall j :: LocalAt(After(s, rest), j) ==
                 if j == id then Local(Written(l), None, Flushed) else LocalAt(s, j)
    decreases FlushRank(LocalAt(s, id).pc)
  {
    var rank := FlushRank(LocalAt(s, id).pc);
    var s' := Apply(s, Continue(id));
    ContinueFlush(s, id);
    assert Continues(rank, id)[1..] == Continues(rank - 1, id);
    if rank > 1 { FinishFlush(s', id); }
  }

  lemma BeginFlushOnce(s: System, id: Id)
    requires Shape(s) && Enabled(s, Flush(id))
    ensures Shape(Apply(s, Flush(id))) && id in Apply(s, Flush(id)).holder
    ensures forall j :: LocalAt(Apply(s, Flush(id)), j) == if j == id then BeginFlush(LocalAt(s, id)) else LocalAt(s, j)
  {
    assert LocalOk(LocalAt(s, id));
    SectionLocal(s, id, BeginFlush(LocalAt(s, id)), None);
  }

  lemma WholeFlush(s: System, id: Id)
    requires Shape(s) && Enabled(s, Flush(id))
    ensures var flush := FlushSteps(LocalAt(s, id), id);
            && Run(s, flush)
            && forall j :: LocalAt(After(s, flush), j) ==
                 if j == id then Local(Written(LocalAt(s, id)), None, Flushed) else LocalAt(s, j)
  {
    var l := LocalAt(s, id);
    BeginFlushOnce(s, id);
    FinishFlush(Apply(s, Flush(id)), id);
    assert FlushSteps(l, id)[1..] == Continues(FlushRank(BeginFlush(l).pc), id);
  }

  lemma WrittenExactly(l: Local)
    ensures Written(l) == l.See() <==> !TooLarge(l.entry)
  {
    if l.entry.Some? { FlushExactlyBelow4G(l.entry.value.content); }
  }

  /** A whole flush, in any state any run reaches: it leaves the extent uncached, and what is visible
      of every extent is unchanged if and only if the entry is not a dirty, undeleted one of 2^32
      bytes or more. */
  lemma FlushKeepsExactly(s0: System, steps: seq<Step>, id: Id)
    requires Initial(s0) && Run(s0, steps) && Enabled(After(s0, steps), Flush(id))
    ensures var s := After(s0, steps); var flush := FlushSteps(LocalAt(s, id), id);
            && Run(s, flush) && EntryAt(After(s, flush), id) == None
            && ((forall j :: SeeAt(After(s, flush), j) == SeeAt(s, j)) <==> !TooLarge(EntryAt(s, id)))
  {
    var s := After(s0, steps);
    assert Shape(s) by {
      InitialInv(s0);
      RunKeepsShape(s0, steps);
    }
    WholeFlush(s, id);
    WrittenExactly(LocalAt(s, id));
    var s' := After(s, FlushSteps(LocalAt(s, id), id));
    assert LocalAt(s', id).entry == EntryAt(s', id);
    assert SeeAt(s', id) == Written(LocalAt(s, id));
  }

  // ---- every operation is answered as asked ----

  /** The operation that the holder of an extent is in the middle of, if any. */
  function Pending(pc: Pc): seq<Op> {
    match pc
    case MissedGet | HasContent(_) | FillGet(_) => [Op.Get]
    case MissedAttr | HasSize(_) | FillAttr(_, _) => [Op.GetAttr]
    case MissedSet(n) => [Op.SetAttr(n)]
    case FillSet(_, n) => [Op.SetAttr(n)]
    case _ => []
  }

  /** Upper bound on the sections still to come. */
  function OpRank(pc: Pc): nat {
    match pc
    case MissedGet | MissedAttr => 3
    case MissedSet(_) | HasContent(_) | HasSize(_) => 2
    case FillGet(_) | FillAttr(_, _) | FillSet(_, _) => 1
    case _ => 0
  }

  lemma BeginPending(l: Local, op: Op)
    requires l.pc.Idle?
    ensures match Begin(l, op)
            case (l', Some(_)) => l'.pc.Idle? && (LocalOk(l) ==> Marked(l, l', op))
            case (l', None) => Pending(l'.pc) == [op] && l'.stored == l.stored && l'.entry == l.entry
  {
  }

  lemma AdvancePending(l: Local)
    requires LocalOk(l)
    ensures match Advance(l)
            case (l', Some((op, _))) => Pending(l.pc) == [op] && l'.pc.Idle? && Marked(l, l', op)
            case (l', None) =>
              && Pending(l'.pc) == Pending(l.pc)
              && (Pending(l.pc) != [] ==> OpRank(l'.pc) < OpRank(l.pc) && l'.stored == l.stored && l'.entry == l.entry)
  {
  }

  /** An operation under way ends after a bounded number of sections, and is answered as itself. */
  lemma {:induction false} FinishOperation(s: System, id: Id, op: Op) returns (k: nat)
    requires Shape(s) && id in s.holder && Pending(LocalAt(s, id).pc) == [op]
    ensures k <= OpRank(LocalAt(s, id).pc) && Run(s, Continues(k, id))
    ensures Completed(s, After(s, Continues(k, id)), id, op)
    decreases OpRank(LocalAt(s, id).pc)
  {
    var l := LocalAt(s, id);
    assert LocalOk(l);
    AdvanceKeeps(l);
    AdvancePending(l);
    var s' := Apply(s, Continue(id));
    var (l', answer) := Advance(l);
    SectionLocal(s, id, l', answer);
    k := 0;
    if answer.None? { k := FinishOperation(s', id, op); }
    k := k + 1;
    assert Continues(k, id)[1..] == Continues(k - 1, id);
  }

  /** What an operation leaves to the flush: the server's copy is untouched; the extent is cached
      afterwards if it was, or was written, or was there to be fetched; and it has to be written back
      if it had to be, or was written, or was read from the cache. */
  ghost predicate Marked(l: Local, l': Local, op: Op) {
    var writes := op.Put? || op.Remove? || (op.SetAttr? && l.See().Some?);
    && l'.stored == l.stored
    && (l'.entry.Some? <==> l.entry.Some? || writes || l.See().Some?)
    && (l'.entry.Some? && l'.entry.value.dirty <==>
          || (l.entry.Some? && l.entry.value.dirty)
          || writes
          || (op.Get? && l.entry.Some? && l.See().Some?))
  }

  /** From `s` to `s'` exactly the operation `op` happened, on `id`, as on the central map. */
  ghost predicate Completed(s: System, s': System, id: Id, op: Op) {
    && LocalAt(s', id).pc.Idle?
    && s'.trace == s.trace + [Event(id, op, Central(SeeAt(s, id), op).1)]
    && SeeAt(s', id) == Central(SeeAt(s, id), op).0
    && Marked(LocalAt(s, id), LocalAt(s', id), op)
    && (forall j :: j != id ==> LocalAt(s', j) == LocalAt(s, j))
  }

  /** In any state any run reaches, an operation that may begin completes within three more sections:
      it is answered once, as what it is, with the central answer and the central effect on its extent,
      and no other extent changes. */
  lemma OperationCompletes(s0: System, steps: seq<Step>, id: Id, op: Op) returns (k: nat)
    requires Initial(s0) && Run(s0, steps) && Enabled(After(s0, steps), Operate(id, op))
    ensures k <= 3 && Run(After(s0, steps), [Operate(id, op)] + Continues(k, id))
    ensures Completed(After(s0, steps), After(After(s0, steps), [Operate(id, op)] + Continues(k, id)), id, op)
  {
    var s := After(s0, steps);
    assert Shape(s) by {
      InitialInv(s0);
      RunKeepsShape(s0, steps);
    }
    k := WholeOperation(s, id, op);
  }

  lemma WholeOperation(s: System, id: Id, op: Op) returns (k: nat)
    requires Shape(s) && Enabled(s, Operate(id, op))
    ensures k <= 3 && Run(s, [Operate(id, op)] + Continues(k, id))
    ensures Completed(s, After(s, [Operate(id, op)] + Continues(k, id)), id, op)
  {
    var l := LocalAt(s, id);
    assert LocalOk(l);
    BeginKeeps(l, op);
    BeginPending(l, op);
    var (l', result) := Begin(l, op);
    var s' := Apply(s, Operate(id, op));
    SectionLocal(s, id, l', if result.Some? then Some((op, result.value)) else None);
    k := 0;
    if result.None? { k := FinishOperation(s', id, op); }
    assert ([Operate(id, op)] + Continues(k, id))[1..] == Continues(k, id);
  }

  /** The operations asked of extent `id` in a run, and those answered in a trace, in order. */
  function Asked(steps: seq<Step>, id: Id): seq<Op> {
    if steps == [] then [] else
      var before, step := Asked(steps[..|steps| - 1], id), steps[|steps| - 1];
      if step.Operate? && step.id == id then before + [step.op] else before
  }

  function Answered(trace: seq<Event>, id: Id): seq<Op> {
    if trace == [] then [] else
      var before, e := Answered(trace[..|trace| - 1], id), trace[|trace| - 1];
      if e.id == id then before + [e.op] else before
  }

  lemma AnsweredAppend(trace: seq<Event>, e: Event, id: Id)
    ensures Answered(trace + [e], id) == if e.id == id then Answered(trace, id) + [e.op] else Answered(trace, id)
  {
    assert (trace + [e])[..|trace|] == trace;
  }

  /** The answered operations of `id` and the one it is in the middle of. */
  function Taken(s: System, id: Id): seq<Op> {
    Answered(s.trace, id) + Pending(LocalAt(s, id).pc)
  }

  lemma SectionTaken(s: System, i: Id, l: Local, answer: Option<(Op, Result)>, id: Id)
    requires Shape(s) && i in s.holder && LocalOk(l)
    ensures Taken(Log(WriteBack(s, i, l), i, answer), id) ==
            if i != id then Taken(s, id)
            else Answered(s.trace, id) + (if answer.Some? then [answer.value.0] else []) + Pending(l.pc)
  {
    SectionLocal(s, i, l, answer);
    if answer.Some? { AnsweredAppend(s.trace, Event(i, answer.value.0, answer.value.1), id); }
  }

  /** One step takes the operation it asks, if any, and no other. */
  lemma StepTakes(s: System, step: Step, id: Id)
    requires Shape(s) && Enabled(s, step)
    ensures Taken(Apply(s, step), id) ==
            if step.Operate? && step.id == id then Taken(s, id) + [step.op] else Taken(s, id)
  {
    match step
    case Acquire(c, i) => AcquireLocal(s, c, i);
    case Release(i) => ReleaseLocal(s, i);
    case Operate(i, op) =>
      BeginKeeps(LocalAt(s, i), op);
      BeginPending(LocalAt(s, i), op);
      var (l, result) := Begin(LocalAt(s, i), op);
      SectionTaken(s, i, l, if result.Some? then Some((op, result.value)) else None, id);
    case Flush(i) =>
      assert LocalOk(LocalAt(s, i));
      SectionTaken(s, i, BeginFlush(LocalAt(s, i)), None, id);
    case Continue(i) =>
      AdvanceKeeps(LocalAt(s, i));
      AdvancePending(LocalAt(s, i));
      var (l, answer) := Advance(LocalAt(s, i));
      SectionTaken(s, i, l, answer, id);
  }

  lemma {:induction false} RunSplit(s: System, steps: seq<Step>)
    requires Run(s, steps) && steps != []
    ensures Run(s, steps[..|steps| - 1]) && Enabled(After(s, steps[..|steps| - 1]), steps[|steps| - 1])
    ensures After(s, steps) == Apply(After(s, steps[..|steps| - 1]), steps[|steps| - 1])
    decreases |steps|
  {
    if |steps| > 1 {
      RunSplit(Apply(s, steps[0]), steps[1..]);
      assert steps[..|steps| - 1][1..] == steps[1..][..|steps| - 2];
    }
  }

  /** Over every run, however operations on other extents interleave: the operations asked of an extent
      are, in order, those that have been answered and at most one that is still under way. */
  lemma {:induction false} AnsweredAsAsked(s: System, steps: seq<Step>, id: Id)
    requires Initial(s) && Run(s, steps)
    ensures Asked(steps, id) == Answered(After(s, steps).trace, id) + Pending(LocalAt(After(s, steps), id).pc)
    ensures LocalAt(After(s, steps), id).pc.Idle? ==> Asked(steps, id) == Answered(After(s, steps).trace, id)
    decreases |steps|
  {
    if steps != [] {
      var init := steps[..|steps| - 1];
      RunSplit(s, steps);
      AnsweredAsAsked(s, init, id);
      assert Shape(After(s, init)) by {
        InitialInv(s);
        RunKeepsShape(s, init);
      }
      StepTakes(After(s, init), steps[|steps| - 1], id);
    }
  }

  /** Only the holder of its lock ever has an extent cached, in every run. */
  lemma CachedOnlyUnderLock(s: System, steps: seq<Step>, c: nat, id: Id)
    requires Initial(s) && Run(s, steps)
    requires c in After(s, steps).caches && id in After(s, steps).caches[c]
    ensures id in After(s, steps).holder && After(s, steps).holder[id] == c
  {
    InitialInv(s);
    RunKeepsShape(s, steps);
  }
}
