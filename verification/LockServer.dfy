/** The caching lock server: one holder and a queue of waiting clients per lock. */
module LockServer {
  import opened Bytes

  type ClientId = string

  datatype Lock = Lock(holder: ClientId, held: bool, waiting: seq<ClientId>)

  const FREE: Lock := Lock("", false, [])

  /** What the server puts into the reply, and the status of the RPC it travels in. */
  datatype Answer = OK | RETRY | RETIRE
  datatype Status = Success | IOERR | RPCERR

  /** How the server's own call to a client goes, if it makes one. */
  datatype Outcome = Reached | NoConnection | CallFailed {
    predicate Told() { Reached? }

    function Status(): Status {
      match this case Reached => Success case NoConnection => IOERR case CallFailed => RPCERR
    }
  }

  /** What the server has decided about one lock, in order.  Calls to clients are recorded when they
      are decided on, under the server's mutex; `Unreachable` is one that does not succeed. */
  datatype Event =
    | Granted(id: ClientId)      // the free lock goes to `id`
    | Queued(id: ClientId)       // `id` joins the queue
    | Revoked(id: ClientId)      // the holder is told to give the lock back
    | Retired(id: ClientId)      // the holder asks again and is answered RETIRE
    | Confirmed(id: ClientId)    // the holder asks again and is answered OK
    | HandedOver(id: ClientId)   // the released lock goes to the first waiting client
    | Notified(id: ClientId)     // that client is told to retry
    | Unreachable(id: ClientId)
    | Freed(id: ClientId)

  /** `acquire`: the new state, the answer, the status, and the events; `call` tells how the revoke
      goes. A client that gets another status than Success does not read the answer. */
  function Acquire(l: Lock, id: ClientId, call: Outcome): (Lock, Answer, Status, seq<Event>) {
    if l.held then
      if l.holder != id then
        if l.waiting == [] then
          (l.(waiting := [id]), RETRY, call.Status(),
           [Queued(id), if call.Told() then Revoked(l.holder) else Unreachable(l.holder)])
        else
          (l.(waiting := l.waiting + [id]), RETRY, Success, [Queued(id)])
      else if l.waiting != [] then (l, RETIRE, Success, [Retired(id)])
      else (l, OK, Success, [Confirmed(id)])
    else if l.waiting != [] then (l, OK, Success, [])
    else (Lock(id, true, []), OK, Success, [Granted(id)])
  }

  /** `release`: the new state, the status and the events; `call` tells how the retry notice goes. */
  function Release(l: Lock, id: ClientId, call: Outcome): (Lock, Status, seq<Event>) {
    if l.held && l.holder == id then
      if l.waiting != [] then
        var next := l.waiting[0];
        (Lock(next, true, l.waiting[1..]), call.Status(),
         [HandedOver(next), if call.Told() then Notified(next) else Unreachable(next)])
      else (FREE, Success, [Freed(id)])
    else (l, Success, [])
  }

  // ---- runs ----

  datatype Op = AcquireOp(id: ClientId, call: Outcome) | ReleaseOp(id: ClientId, call: Outcome)

  function Step(l: Lock, op: Op): (Lock, seq<Event>) {
    match op
    case AcquireOp(id, call) => var (l', _, _, events) := Acquire(l, id, call); (l', events)
    case ReleaseOp(id, call) => var (l', _, events) := Release(l, id, call); (l', events)
  }

  /** State and history of a lock after any sequence of requests from any clients. */
  function After(ops: seq<Op>): (Lock, seq<Event>) {
    if ops == [] then (FREE, []) else
      var (l, h) := After(ops[..|ops| - 1]);
      var (l', events) := Step(l, ops[|ops| - 1]);
      (l', h + events)
  }

  // ---- first in, first out ----

  /** The clients that joined the queue, in order, and the clients the lock was handed to, in order. */
  function QueuedIds(h: seq<Event>): seq<ClientId> {
    if h == [] then [] else
      var before, e := QueuedIds(h[..|h| - 1]), h[|h| - 1];
      if e.Queued? then before + [e.id] else before
  }

  function HandedIds(h: seq<Event>): seq<ClientId> {
    if h == [] then [] else
      var before, e := HandedIds(h[..|h| - 1]), h[|h| - 1];
      if e.HandedOver? then before + [e.id] else before
  }

  lemma QueuedAppend(h: seq<Event>, e: Event)
    ensures QueuedIds(h + [e]) == if e.Queued? then QueuedIds(h) + [e.id] else QueuedIds(h)
    ensures HandedIds(h + [e]) == if e.HandedOver? then HandedIds(h) + [e.id] else HandedIds(h)
  {
    assert (h + [e])[..|h|] == h;
  }

  lemma AppendTwo(h: seq<Event>, a: Event, b: Event)
    ensures h + [a, b] == (h + [a]) + [b]
  {
  }

  /** The queue is what has been queued and not yet handed the lock, in order, and is empty when the
      lock is free. */
  ghost predicate Fifo(l: Lock, h: seq<Event>) {
    HandedIds(h) + l.waiting == QueuedIds(h) && (!l.held ==> l.waiting == [])
  }

  lemma QueuedAppendTwo(h: seq<Event>, a: Event, b: Event)
    requires !b.Queued? && !b.HandedOver?
    ensures QueuedIds(h + [a, b]) == QueuedIds(h + [a]) && HandedIds(h + [a, b]) == HandedIds(h + [a])
  {
    AppendTwo(h, a, b);
    QueuedAppend(h + [a], b);
  }

  lemma AcquireKeepsFifo(l: Lock, h: seq<Event>, id: ClientId, call: Outcome)
    requires Fifo(l, h)
    ensures Fifo(Acquire(l, id, call).0, h + Acquire(l, id, call).3)
  {
    var (l', _, _, events) := Acquire(l, id, call);
    QueuedAppend(h, events[0]);
    if |events| == 2 { QueuedAppendTwo(h, events[0], events[1]); }
  }

  lemma ReleaseKeepsFifo(l: Lock, h: seq<Event>, id: ClientId, call: Outcome)
    requires Fifo(l, h)
    ensures Fifo(Release(l, id, call).0, h + Release(l, id, call).2)
  {
    var (l', _, events) := Release(l, id, call);
    if events == [] {
      assert h + events == h;
    } else {
      QueuedAppend(h, events[0]);
      if |events| == 2 {
        QueuedAppendTwo(h, events[0], events[1]);
        ShiftOne(HandedIds(h), l.waiting);
      }
    }
  }

  /** Over every run the lock passes from client to client in the order they joined the queue, each
      joining accounts for one place in it, and nobody waits for a free lock. */
  lemma {:induction false} HandoffIsFifo(ops: seq<Op>)
    ensures Fifo(After(ops).0, After(ops).1)
  {
    if ops != [] {
      HandoffIsFifo(ops[..|ops| - 1]);
      var (l, h) := After(ops[..|ops| - 1]);
      match ops[|ops| - 1]
      case AcquireOp(id, call) => AcquireKeepsFifo(l, h, id, call);
      case ReleaseOp(id, call) => ReleaseKeepsFifo(l, h, id, call);
    }
  }

  /** So the branch for a free lock with a queue is never taken: acquiring a free lock gets it. */
  lemma FreeLockIsGranted(ops: seq<Op>, id: ClientId, call: Outcome)
    requires !After(ops).0.held
    ensures Acquire(After(ops).0, id, call) == (Lock(id, true, []), OK, Success, [Granted(id)])
  {
    HandoffIsFifo(ops);
  }

  /** Over every run, what the answer to an acquire tells the client about the state it leaves: not
      RETRY exactly if it has the lock, RETIRE exactly if it has and somebody waits for it, RETRY
      exactly if another client has it and this one is the last to wait. */
  lemma AnswerTells(ops: seq<Op>, id: ClientId, call: Outcome)
    ensures var (l, answer, _, _) := Acquire(After(ops).0, id, call);
            && l.held
            && (answer != RETRY <==> l.holder == id)
            && (answer == RETIRE <==> l.holder == id && l.waiting != [])
            && (answer == RETRY <==> l.holder != id && l.waiting != [] && l.waiting[|l.waiting| - 1] == id)
  {
    HandoffIsFifo(ops);
  }

  /** The status of an acquire is a failure exactly if it was the first to wait for another client and
      the call to that client failed: IOERR without a connection, RPCERR otherwise. */
  lemma AcquireStatus(l: Lock, id: ClientId, call: Outcome)
    ensures var (l', _, status, _) := Acquire(l, id, call);
            var first := l.held && l.holder != id && |l'.waiting| == 1;
            && (status == IOERR <==> first && call == NoConnection)
            && (status == RPCERR <==> first && call == CallFailed)
  {
  }

  /** The status of a release is a failure exactly if it passed the lock on and the call to the next
      holder failed. */
  lemma ReleaseStatus(l: Lock, id: ClientId, call: Outcome)
    ensures var status := Release(l, id, call).1;
            var passed := l.held && l.holder == id && l.waiting != [];
            && (status == IOERR <==> passed && call == NoConnection)
            && (status == RPCERR <==> passed && call == CallFailed)
  {
  }

  /** The owner according to the history: the last client that got the lock, if it was not freed. */
  function Owner(h: seq<Event>): Option<ClientId> {
    if h == [] then None else
      match h[|h| - 1]
      case Granted(id) => Some(id)
      case HandedOver(id) => Some(id)
      case Freed(_) => None
      case _ => Owner(h[..|h| - 1])
  }

  lemma OwnerAppend(h: seq<Event>, e: Event)
    ensures Owner(h + [e]) == match e
                              case Granted(id) => Some(id)
                              case HandedOver(id) => Some(id)
                              case Freed(_) => None
                              case _ => Owner(h)
  {
    assert (h + [e])[..|h|] == h;
  }

  /** Over every run the recorded holder is that owner: only a grant, a handover or a release by the
      holder changes it. */
  lemma {:induction false} HolderIsOwner(ops: seq<Op>)
    ensures Owner(After(ops).1) == if After(ops).0.held then Some(After(ops).0.holder) else None
    ensures !After(ops).0.held ==> After(ops).0 == FREE
  {
    if ops != [] {
      HolderIsOwner(ops[..|ops| - 1]);
      HandoffIsFifo(ops[..|ops| - 1]);
      var (l, h) := After(ops[..|ops| - 1]);
      var (l', events) := Step(l, ops[|ops| - 1]);
      if events == [] {
        assert h + events == h;
      } else {
        OwnerAppend(h, events[0]);
        if |events| == 2 {
          AppendTwo(h, events[0], events[1]);
          OwnerAppend(h + [events[0]], events[1]);
        }
      }
    }
  }

  // ---- no stranded waiter ----

  ghost predicate ChangesHolder(e: Event) {
    e.Granted? || e.HandedOver?
  }

  /** The events since the current holder got the lock. */
  ghost function Since(h: seq<Event>): seq<Event> {
    if h == [] || ChangesHolder(h[|h| - 1]) then [] else Since(h[..|h| - 1]) + [h[|h| - 1]]
  }

  lemma SinceAppend(h: seq<Event>, e: Event)
    ensures Since(h + [e]) == if ChangesHolder(e) then [] else Since(h) + [e]
  {
    assert (h + [e])[..|h|] == h;
  }

  /** The holder knows it has to give the lock back, or has a retry notice it has not acted on. */
  ghost predicate WillYield(since: seq<Event>, holder: ClientId) {
    || Revoked(holder) in since
    || Retired(holder) in since
    || (Notified(holder) in since && Retired(holder) !in since && Confirmed(holder) !in since)
  }

  /** Somebody waits and the holder will not yield. */
  ghost predicate Stranded(l: Lock, h: seq<Event>) {
    l.held && l.waiting != [] && !WillYield(Since(h), l.holder)
  }

  lemma SinceAfter(h: seq<Event>, events: seq<Event>)
    requires |events| <= 2
    ensures events == [] ==> Since(h + events) == Since(h)
    ensures |events| == 1 ==>
              Since(h + events) == if ChangesHolder(events[0]) then [] else Since(h) + [events[0]]
    ensures |events| == 2 && !ChangesHolder(events[1]) ==>
              Since(h + events) == (if ChangesHolder(events[0]) then [] else Since(h) + [events[0]]) + [events[1]]
  {
    if events == [] {
      assert h + events == h;
    } else {
      SinceAppend(h, events[0]);
      if |events| == 2 {
        assert events == [events[0], events[1]];
        AppendTwo(h, events[0], events[1]);
        SinceAppend(h + [events[0]], events[1]);
      }
    }
  }

  /** An acquire leaves a waiter stranded exactly if it was stranded before and another client asks,
      or it is the first to queue behind a holder that will not yield and cannot be told. */
  lemma AcquireStrandsExactly(l: Lock, h: seq<Event>, id: ClientId, call: Outcome)
    ensures Stranded(Acquire(l, id, call).0, h + Acquire(l, id, call).3) <==>
            && l.held && l.holder != id && !WillYield(Since(h), l.holder)
            && (l.waiting != [] || !call.Told())
  {
    var (l', _, _, events) := Acquire(l, id, call);
    SinceAfter(h, events);
    if l.held && l.holder == id && l.waiting != [] {
      assert Retired(id) in Since(h) + [Retired(id)];
    }
    if l.held && l.holder != id {
      assert forall e: Event :: e.id == l.holder && !e.Unreachable? && !e.Revoked? ==>
        (e in Since(h + events) <==> e in Since(h));
      if l.waiting == [] { assert events[1] in Since(h + events); }
    }
  }

  /** A release leaves a waiter stranded exactly if it was stranded before and the holder is another,
      or at least two clients wait and the next holder cannot be told. */
  lemma ReleaseStrandsExactly(l: Lock, h: seq<Event>, id: ClientId, call: Outcome)
    ensures Stranded(Release(l, id, call).0, h + Release(l, id, call).2) <==>
            if l.held && l.holder == id then |l.waiting| >= 2 && !call.Told() else Stranded(l, h)
  {
    var (l', _, events) := Release(l, id, call);
    SinceAfter(h, events);
  }

  /** The operation that strands a waiter of an unstranded lock, told by its guard. */
  ghost predicate Strands(l: Lock, h: seq<Event>, op: Op) {
    match op
    case AcquireOp(id, call) =>
      l.held && l.holder != id && l.waiting == [] && !call.Told() && !WillYield(Since(h), l.holder)
    case ReleaseOp(id, call) =>
      l.held && l.holder == id && |l.waiting| >= 2 && !call.Told()
  }

  /** The operation that rescues the waiters of a stranded lock: the holder asks again, and is told to
      retire, or releases and the next holder can be told or has nobody waiting. */
  ghost predicate Rescues(l: Lock, op: Op) {
    match op
    case AcquireOp(id, _) => l.holder == id
    case ReleaseOp(id, call) => l.holder == id && (|l.waiting| < 2 || call.Told())
  }

  /** Over every run, exactly when a lock has a stranded waiter after one more operation. */
  lemma StrandedExactly(ops: seq<Op>, op: Op)
    ensures var (l, h) := After(ops); var (l', h') := After(ops + [op]);
            Stranded(l', h') <==> if Stranded(l, h) then !Rescues(l, op) else Strands(l, h, op)
  {
    assert (ops + [op])[..|ops|] == ops;
    var (l, h) := After(ops);
    match op
    case AcquireOp(id, call) => AcquireStrandsExactly(l, h, id, call);
    case ReleaseOp(id, call) => ReleaseStrandsExactly(l, h, id, call);
  }

  /** So over every run in which the server's calls succeed nobody is stranded: whoever holds a lock
      that somebody waits for has, since it got the lock, been told to give it back or been answered
      RETIRE, or has yet to act on its retry notice. */
  lemma {:induction false} NoStrandedWaiter(ops: seq<Op>)
    requires forall i :: 0 <= i < |ops| ==> ops[i].call.Told()
    ensures !Stranded(After(ops).0, After(ops).1)
  {
    if ops != [] {
      var init, op := ops[..|ops| - 1], ops[|ops| - 1];
      NoStrandedWaiter(init);
      StrandedExactly(init, op);
      assert init + [op] == ops;
    }
  }

  /** The condition is real: with the holder unreachable, its waiter is queued and nobody is told. */
  lemma UnreachableStrands(a: ClientId, b: ClientId, call: Outcome)
    requires a != b && !call.Told()
    ensures var (l, h) := After([AcquireOp(a, Reached), AcquireOp(b, call)]);
            l.held && l.waiting == [b] && Stranded(l, h)
  {
    var first, second := AcquireOp(a, Reached), AcquireOp(b, call);
    assert [first][..0] == [] && [first] + [second] == [first, second];
    assert After([first]) == (Lock(a, true, []), [] + [Granted(a)]);
    SinceAppend([], Granted(a));
    StrandedExactly([first], second);
    assert [first, second][..1] == [first];
  }

  // ---- the server ----

  class LockServerCache {
    var locks: map<nat, Lock>

    ghost function LockAt(lid: nat): Lock
      reads this
    {
      if lid in locks then locks[lid] else FREE
    }

    constructor ()
      ensures locks == map[]
    {
      locks := map[];
    }

    /** `callee` is the holder if it has to be told to give the lock back; `call` is how that goes. */
    method AcquireLock(lid: nat, id: ClientId, call: Outcome)
      returns (ret: Status, r: Answer, callee: Option<ClientId>)
      modifies this
      ensures (LockAt(lid), r, ret) == (var (l, a, st, _) := Acquire(old(LockAt(lid)), id, call); (l, a, st))
      ensures callee.Some? <==> exists e :: e in Acquire(old(LockAt(lid)), id, call).3 && (e.Revoked? || e.Unreachable?)
      ensures callee.Some? ==> callee.value == old(LockAt(lid)).holder
      ensures forall k :: k != lid ==> LockAt(k) == old(LockAt(k))
    {
      ret, r, callee := Success, OK, None;
      if lid !in locks { locks := locks[lid := FREE]; }
      var l := locks[lid];
      ghost var events := Acquire(l, id, call).3;
      if l.held {
        if l.holder != id {
          if |l.waiting| == 0 {
            assert l.waiting + [id] == [id];
            assert events[1] in events;
            l := l.(waiting := l.waiting + [id]);
            callee := Some(l.holder);
            r := RETRY;
          } else {
            l := l.(waiting := l.waiting + [id]);
            r := RETRY;
          }
        } else {
          l := l.(held := true, holder := id);
          if |l.waiting| != 0 { r := RETIRE; }
        }
      } else if |l.waiting| == 0 {
        l := l.(held := true, holder := id);
      }
      locks := locks[lid := l];
      if callee.Some? { ret := call.Status(); }
    }

    /** `next` is the client to notify, if the lock is handed over; `call` is how that goes. */
    method ReleaseLock(lid: nat, id: ClientId, call: Outcome) returns (ret: Status, next: Option<ClientId>)
      modifies this
      ensures LockAt(lid) == Release(old(LockAt(lid)), id, call).0 && ret == Release(old(LockAt(lid)), id, call).1
      ensures next == if HandedOver(LockAt(lid).holder) in Release(old(LockAt(lid)), id, call).2
                      then Some(LockAt(lid).holder) else None
      ensures id != old(LockAt(lid)).holder ==> LockAt(lid) == old(LockAt(lid))
      ensures forall k :: k != lid ==> LockAt(k) == old(LockAt(k))
    {
      ret, next := Success, None;
      if lid !in locks { locks := locks[lid := FREE]; }
      var l := locks[lid];
      if l.held && l.holder == id {
        if |l.waiting| != 0 {
          next := Some(l.waiting[0]);
          l := Lock(l.waiting[0], true, l.waiting[1..]);
          ret := call.Status();
        } else {
          l := l.(held := false, holder := "");
        }
      }
      locks := locks[lid := l];
    }
  }
}
