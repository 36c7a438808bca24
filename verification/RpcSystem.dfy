/** The RPC protocol as a whole: any number of clients, one server instance, and a network that may
    lose, duplicate, delay and reorder every message.

    A message once sent stays deliverable for ever and any number of times, which covers loss,
    duplication, delay, reordering and the client's own retransmissions.  Every step is one section
    that the source runs under a mutex.  Call numbers are unbounded.
 */
module RpcSystem {
  import opened Bytes
  import opened ReplyWindow
  import opened Rpc
  import AckWindow

  datatype Request = Request(nonce: nat, xid: nat, proc: nat, rep: nat)
  datatype Response = Response(nonce: nat, xid: nat, payload: Payload)

  /** One handler run: the client nonce and the call number it ran for. */
  type Job = (nat, nat)

  /** The last four fields are history: which handler runs were started (as a set, and one by one), what each
      finished run produced, and which numbers each client has acknowledged to itself. */
  datatype System = System(
    clients: map<nat, Client>,
    bindOk: set<nat>,
    windows: map<nat, seq<Reply>>,
    running: set<Job>,
    requests: set<Request>,
    responses: set<Response>,
    started: set<Job>,
    starts: seq<Job>,
    results: map<Job, Payload>,
    acked: map<nat, set<nat>>)

  const INIT: System := System(map[], {}, map[], {}, {}, {}, {}, [], map[], map[])

  datatype Step =
    | Connect(nonce: nat)                           // a client is constructed
    | Call(nonce: nat, proc: nat)                   // call1 issues and sends a request
    | Deliver(req: Request)                         // the server dispatches a request
    | Finish(nonce: nat, xid: nat, payload: Payload) // a handler returns
    | Receive(resp: Response)                       // a client gets a reply
    | Return(nonce: nat, xid: nat)                  // an answered call1 returns
    | Bound(nonce: nat)                             // bind() records its success
    | TimeOut(nonce: nat, xid: nat)                 // an unanswered call1 gives up, or is cancelled

  ghost predicate Enabled(s: System, step: Step) {
    match step
    case Connect(n) => n != 0 && n !in s.clients
    case Call(n, proc) => n in s.clients && s.clients[n].Wf() && !Refuses(s.clients[n], proc)
    case Deliver(req) => req in s.requests
    case Finish(n, x, p) => (n, x) in s.running && p.ret >= 0
    case Receive(resp) => resp in s.responses && resp.nonce in s.clients && s.clients[resp.nonce].Wf()
    case Return(n, x) =>
      n in s.clients && s.clients[n].Wf() && x in s.clients[n].calls && s.clients[n].calls[x].reply.Some?
    case Bound(n) => n in s.bindOk && n in s.clients
    case TimeOut(n, x) =>
      n in s.clients && s.clients[n].Wf() && x in s.clients[n].calls && s.clients[n].calls[x].reply.None?
  }

  /** Set of numbers acknowledged by client `n`. */
  function Acked(s: System, n: nat): set<nat> {
    if n in s.acked then s.acked[n] else {}
  }

  function Acknowledge(s: System, n: nat, x: nat, c: Client): System {
    s.(clients := s.clients[n := c], acked := s.acked[n := Acked(s, n) + {x}])
  }

  /** What `dispatch` does with the verdict of the duplicate check. */
  function Answer(s: System, n: nat, x: nat, verdict: Verdict, window: seq<Reply>): System {
    var s' := s.(windows := s.windows[n := window]);
    match verdict
    case New =>
      s'.(running := s.running + {(n, x)}, started := s.started + {(n, x)}, starts := s.starts + [(n, x)])
    case InProgress => s'
    case Done(buf) => s'.(responses := s.responses + {Response(n, x, buf)})
    case Forgotten => s'.(responses := s.responses + {Response(n, x, FORGOTTEN_REPLY)})
  }

  /** `dispatch` up to the point where a handler runs or a reply is sent. */
  function Dispatch(s: System, req: Request): System {
    var (verdict, window) := Check(WindowOf(s.windows, req.nonce), req.xid, req.rep);
    Answer(s, req.nonce, req.xid, verdict, window)
  }

  function Complete(s: System, n: nat, x: nat, p: Payload): System {
    s.(windows := s.windows[n := Record(WindowOf(s.windows, n), x, p)],
       running := s.running - {(n, x)},
       results := s.results[(n, x) := p],
       responses := s.responses + {Response(n, x, p)})
  }

  function Connected(s: System, n: nat): System {
    s.(clients := s.clients[n := FRESH_CLIENT], acked := s.acked[n := {}])
  }

  function Called(s: System, n: nat, proc: nat): System
    requires n in s.clients && s.clients[n].Wf()
  {
    var c := s.clients[n];
    s.(clients := s.clients[n := Begin(c, proc)],
       requests := s.requests + {Request(n, c.next, proc, c.window[0])})
  }

  function Received(s: System, resp: Response): System
    requires resp.nonce in s.clients && s.clients[resp.nonce].Wf()
  {
    Acknowledge(s, resp.nonce, resp.xid, Accept(s.clients[resp.nonce], resp.xid, resp.payload))
  }

  function Ended(s: System, n: nat, x: nat): System
    requires n in s.clients && s.clients[n].Wf()
  {
    Acknowledge(s, n, x, End(s.clients[n], x))
  }

  /** An answered bind that succeeded lets `bind()` go on. */
  function Returned(s: System, n: nat, x: nat): System
    requires n in s.clients && s.clients[n].Wf()
    requires x in s.clients[n].calls && s.clients[n].calls[x].reply.Some?
  {
    var caller := s.clients[n].calls[x];
    if caller.proc == BIND && caller.reply.value.ret == 0
    then Ended(s, n, x).(bindOk := s.bindOk + {n}) else Ended(s, n, x)
  }

  function BindDone(s: System, n: nat): System
    requires n in s.clients
  {
    s.(clients := s.clients[n := s.clients[n].(bindDone := true)])
  }

  ghost function Apply(s: System, step: Step): System
    requires Enabled(s, step)
  {
    match step
    case Connect(n) => Connected(s, n)
    case Call(n, proc) => Called(s, n, proc)
    case Deliver(req) => Dispatch(s, req)
    case Finish(n, x, p) => Complete(s, n, x, p)
    case Receive(resp) => Received(s, resp)
    case Return(n, x) => Returned(s, n, x)
    case Bound(n) => BindDone(s, n)
    case TimeOut(n, x) => Ended(s, n, x)
  }

  /** A run that the code allows, given by its steps, and the state it reaches. */
  ghost predicate Run(steps: seq<Step>)
    decreases |steps|, 0
  {
    steps == [] ||
    var init := steps[..|steps| - 1];
    Run(init) && Enabled(After(init), steps[|steps| - 1])
  }

  ghost function After(steps: seq<Step>): System
    requires Run(steps)
    decreases |steps|, 1
  {
    if steps == [] then INIT else Apply(After(steps[..|steps| - 1]), steps[|steps| - 1])
  }

  /** No call gives up that the server has not started, and no client binds a second time before the
      server has started its first call. */
  ghost predicate OrderlyStep(s: System, step: Step) {
    match step
    case TimeOut(n, x) => (n, x) in s.started
    case Call(n, proc) =>
      proc == BIND && n in s.clients && s.clients[n].next > 1 ==> (n, 1) in s.started
    case _ => true
  }

  ghost predicate Orderly(steps: seq<Step>)
    requires Run(steps)
    decreases |steps|
  {
    steps == [] ||
    var init := steps[..|steps| - 1];
    Orderly(init) && OrderlyStep(After(init), steps[|steps| - 1])
  }

  // ---- What every step of every run keeps ----

  ghost predicate Issued(s: System, n: nat, x: nat) {
    n in s.clients && 1 <= x < s.clients[n].next
  }

  ghost predicate ServerInv(s: System) {
    && (forall n :: n in s.windows ==> |s.windows[n]| > 0 && Sorted(s.windows[n]))
    && (forall n, x: nat :: n in s.windows && HasEntry(s.windows[n], x) ==> (n, x) in s.started)
    && (forall job :: job in s.started ==>
          Issued(s, job.0, job.1) && job.0 in s.windows && Covered(s.windows[job.0], job.1))
    && (forall job :: job in s.running ==> job in s.started && job !in s.results)
    && (forall job :: job in s.results ==> job in s.started && s.results[job].ret >= 0)
  }

  /** No job is started twice. */
  ghost predicate HistoryInv(s: System) {
    && (forall job :: job in s.starts <==> job in s.started)
    && (forall i, j :: 0 <= i < j < |s.starts| ==> s.starts[i] != s.starts[j])
  }

  /** Every reply kept by the server is the one its only execution produced. */
  ghost predicate RecordsInv(s: System) {
    forall n, x: nat, buf :: n in s.windows && Recorded(x, buf) in s.windows[n] ==>
      (n, x) in s.results && s.results[(n, x)] == buf
  }

  ghost predicate Genuine(results: map<Job, Payload>, n: nat, x: nat, p: Payload) {
    (n, x) in results && results[(n, x)] == p
  }

  ghost predicate ResponseOk(s: System, r: Response) {
    && Issued(s, r.nonce, r.xid)
    && (Genuine(s.results, r.nonce, r.xid, r.payload)
        || (r.payload == FORGOTTEN_REPLY && Forgets(WindowOf(s.windows, r.nonce), r.xid)))
  }

  /** Every reply on the network is genuine, or refuses a number the server has moved past. */
  ghost predicate ResponsesInv(s: System) {
    forall r :: r in s.responses ==> ResponseOk(s, r)
  }

  /** One client against the set of numbers it has acknowledged. */
  ghost predicate ClientOk(c: Client, acked: set<nat>) {
    && AckWindow.Represents(c.window, acked)
    && c.next >= 1
    && (forall x :: x in acked ==> 1 <= x < c.next)
    && (forall x :: x in c.calls ==> 1 <= x < c.next)
  }

  ghost predicate ClientsInv(s: System) {
    && s.acked.Keys == s.clients.Keys
    && (forall n :: n in s.clients ==> ClientOk(s.clients[n], s.acked[n]))
  }

  /** What the header of a sent request says, against its sender now. */
  ghost predicate RequestOk(m: Request, c: Client) {
    && 1 <= m.xid < c.next && m.rep < m.xid
    && c.Wf() && m.rep <= c.window[0]
  }

  ghost predicate RequestsInv(s: System) {
    forall m :: m in s.requests ==> m.nonce in s.clients && RequestOk(m, s.clients[m.nonce])
  }

  ghost predicate Inv(s: System) {
    ServerInv(s) && HistoryInv(s) && RecordsInv(s) && ResponsesInv(s) && ClientsInv(s) && RequestsInv(s)
  }

  lemma AnswerKeepsServer(s: System, n: nat, x: nat, v: Verdict, w': seq<Reply>)
    requires ServerInv(s) && Issued(s, n, x) && Checked(WindowOf(s.windows, n), x, v, w')
    ensures ServerInv(Answer(s, n, x, v, w'))
    ensures v.New? ==> (n, x) !in s.started
  {
    var s' := Answer(s, n, x, v, w');
    assert forall m, y :: Issued(s, m, y) ==> Issued(s', m, y);
  }

  lemma AnswerKeepsRecords(s: System, n: nat, x: nat, v: Verdict, w': seq<Reply>)
    requires RecordsInv(s) && Checked(WindowOf(s.windows, n), x, v, w')
    ensures RecordsInv(Answer(s, n, x, v, w'))
  {
  }

  lemma AnswerKeepsResponses(s: System, n: nat, x: nat, v: Verdict, w': seq<Reply>)
    requires RecordsInv(s) && ResponsesInv(s) && Issued(s, n, x)
    requires Checked(WindowOf(s.windows, n), x, v, w')
    ensures ResponsesInv(Answer(s, n, x, v, w'))
  {
    var s' := Answer(s, n, x, v, w');
    forall r | r in s'.responses ensures ResponseOk(s', r) {
      if r in s.responses { assert ResponseOk(s, r); } else { assert r.nonce == n && r.xid == x; }
    }
  }

  lemma CompleteKeepsServer(s: System, n: nat, x: nat, p: Payload)
    requires ServerInv(s) && (n, x) in s.running && p.ret >= 0
    ensures ServerInv(Complete(s, n, x, p))
  {
    var w, w' := s.windows[n], Record(s.windows[n], x, p);
    forall y ensures Sorted(w') && |w'| > 0
             ensures HasEntry(w', y) <==> HasEntry(w, y)
             ensures Covered(w', y) <==> Covered(w, y) {
      RecordKeeps(w, x, p, y);
    }
  }

  lemma CompleteKeepsRecords(s: System, n: nat, x: nat, p: Payload)
    requires ServerInv(s) && RecordsInv(s) && (n, x) in s.running
    ensures RecordsInv(Complete(s, n, x, p))
  {
    RecordKeeps(s.windows[n], x, p, x);
  }

  lemma CompleteKeepsResponses(s: System, n: nat, x: nat, p: Payload)
    requires ServerInv(s) && ResponsesInv(s) && (n, x) in s.running
    ensures ResponsesInv(Complete(s, n, x, p))
  {
    var s' := Complete(s, n, x, p);
    var w, w' := s.windows[n], s'.windows[n];
    assert forall y :: Forgets(w, y) <==> Forgets(w', y) by { RecordKeeps(w, x, p, x); }
    forall r | r in s'.responses ensures ResponseOk(s', r) {
      if r in s.responses { assert ResponseOk(s, r); } else { assert Issued(s, n, x); }
    }
  }

  /** Client steps leave the server and the replies on the network as they are. */
  ghost predicate ClientStep(s: System, s': System) {
    && s'.windows == s.windows && s'.running == s.running && s'.started == s.started && s'.starts == s.starts
    && s'.results == s.results && s'.responses == s.responses
    && (forall n :: n in s.clients ==> n in s'.clients && s.clients[n].next <= s'.clients[n].next)
  }

  lemma ClientStepKeeps(s: System, s': System)
    requires Inv(s) && ClientStep(s, s')
    ensures ServerInv(s') && HistoryInv(s') && RecordsInv(s') && ResponsesInv(s')
  {
    assert forall n, x :: Issued(s, n, x) ==> Issued(s', n, x);
    forall r | r in s'.responses ensures ResponseOk(s', r) {
      assert ResponseOk(s, r);
    }
  }

  lemma ClientAcknowledges(c: Client, acked: set<nat>, x: nat, c': Client)
    requires ClientOk(c, acked) && 1 <= x < c.next
    requires c'.next == c.next && c'.window == AckWindow.Update(c.window, x)
    requires forall y :: y in c'.calls ==> y in c.calls
    ensures ClientOk(c', acked + {x}) && c.window[0] <= c'.window[0]
  {
    AckWindow.UpdateRepresents(c.window, acked, x);
  }

  lemma ClientBegins(c: Client, acked: set<nat>, proc: nat)
    requires ClientOk(c, acked)
    ensures ClientOk(Begin(c, proc), acked) && c.window[0] < c.next
  {
    var front := c.window[0];
    assert front > 0 ==> front in acked;
  }

  /** Any client step changes one client and one set of acknowledged numbers. */
  lemma ClientChange(s: System, s': System, n: nat, c': Client, acked': set<nat>)
    requires Inv(s) && ClientStep(s, s') && ClientOk(c', acked')
    requires s'.clients == s.clients[n := c'] && s'.acked == s.acked[n := acked']
    requires n in s.clients ==> s.clients[n].Wf() && s.clients[n].window[0] <= c'.window[0]
    requires forall m :: m in s'.requests ==> m in s.requests || (m.nonce == n && RequestOk(m, c'))
    ensures Inv(s')
  {
    assert ServerInv(s') && HistoryInv(s') && RecordsInv(s') && ResponsesInv(s') by {
      ClientStepKeeps(s, s');
    }
    forall m | m in s'.requests ensures m.nonce in s'.clients && RequestOk(m, s'.clients[m.nonce]) {
      assert m in s.requests ==> m.nonce in s.clients && RequestOk(m, s.clients[m.nonce]);
    }
  }

  lemma AcknowledgeKeeps(s: System, n: nat, x: nat, c: Client)
    requires Inv(s) && Issued(s, n, x)
    requires c.next == s.clients[n].next && c.window == AckWindow.Update(s.clients[n].window, x)
    requires forall y :: y in c.calls ==> y in s.clients[n].calls
    ensures Inv(Acknowledge(s, n, x, c))
  {
    assert ClientOk(s.clients[n], s.acked[n]);
    ClientAcknowledges(s.clients[n], s.acked[n], x, c);
    ClientChange(s, Acknowledge(s, n, x, c), n, c, s.acked[n] + {x});
  }

  lemma CallKeeps(s: System, n: nat, proc: nat)
    requires Inv(s) && n in s.clients && s.clients[n].Wf()
    ensures Inv(Called(s, n, proc))
  {
    ClientBegins(s.clients[n], s.acked[n], proc);
    ClientChange(s, Called(s, n, proc), n, Begin(s.clients[n], proc), s.acked[n]);
  }

  lemma ConnectKeeps(s: System, n: nat)
    requires Inv(s) && n !in s.clients
    ensures Inv(Connected(s, n))
  {
    assert AckWindow.Represents([0], {});
    ClientChange(s, Connected(s, n), n, FRESH_CLIENT, {});
  }

  lemma BoundKeeps(s: System, n: nat)
    requires Inv(s) && n in s.clients
    ensures Inv(BindDone(s, n))
  {
    assert ClientOk(s.clients[n], s.acked[n]);
    ClientChange(s, BindDone(s, n), n, s.clients[n].(bindDone := true), s.acked[n]);
  }

  lemma DeliverKeeps(s: System, req: Request)
    requires Inv(s) && req in s.requests
    ensures Inv(Dispatch(s, req))
  {
    var n, x := req.nonce, req.xid;
    var w := WindowOf(s.windows, n);
    var (v, w') := Check(w, x, req.rep);
    assert Checked(w, x, v, w') by { CheckIsChecked(w, x, req.rep); }
    assert Issued(s, n, x);
    AnswerKeepsServer(s, n, x, v, w');
    AnswerKeepsRecords(s, n, x, v, w');
    AnswerKeepsResponses(s, n, x, v, w');
    assert HistoryInv(Answer(s, n, x, v, w'));
  }

  lemma FinishKeeps(s: System, n: nat, x: nat, p: Payload)
    requires Inv(s) && (n, x) in s.running && p.ret >= 0
    ensures Inv(Complete(s, n, x, p))
  {
    CompleteKeepsServer(s, n, x, p);
    CompleteKeepsRecords(s, n, x, p);
    CompleteKeepsResponses(s, n, x, p);
  }

  lemma ReceiveKeeps(s: System, resp: Response)
    requires Inv(s) && resp in s.responses && resp.nonce in s.clients && s.clients[resp.nonce].Wf()
    ensures Inv(Received(s, resp))
  {
    assert ResponseOk(s, resp);
    AcknowledgeKeeps(s, resp.nonce, resp.xid, Accept(s.clients[resp.nonce], resp.xid, resp.payload));
  }

  lemma EndKeeps(s: System, n: nat, x: nat)
    requires Inv(s) && n in s.clients && s.clients[n].Wf() && x in s.clients[n].calls
    ensures Inv(Ended(s, n, x))
  {
    assert ClientOk(s.clients[n], s.acked[n]);
    AcknowledgeKeeps(s, n, x, End(s.clients[n], x));
  }

  lemma ReturnKeeps(s: System, n: nat, x: nat)
    requires Inv(s) && n in s.clients && s.clients[n].Wf()
    requires x in s.clients[n].calls && s.clients[n].calls[x].reply.Some?
    ensures Inv(Returned(s, n, x))
  {
    EndKeeps(s, n, x);
    BindOkKeeps(Ended(s, n, x), s.bindOk + {n});
  }

  lemma BindOkKeeps(s: System, bindOk: set<nat>)
    requires Inv(s)
    ensures Inv(s.(bindOk := bindOk))
  {
    var s' := s.(bindOk := bindOk);
    assert forall r :: ResponseOk(s, r) <==> ResponseOk(s', r);
  }

  /** Every step of every run keeps the invariant. */
  lemma StepKeepsInv(s: System, step: Step)
    requires Inv(s) && Enabled(s, step)
    ensures Inv(Apply(s, step))
  {
    match step
    case Connect(n) => ConnectKeeps(s, n);
    case Call(n, proc) => CallKeeps(s, n, proc);
    case Deliver(req) => DeliverKeeps(s, req);
    case Finish(n, x, p) => FinishKeeps(s, n, x, p);
    case Receive(resp) => ReceiveKeeps(s, resp);
    case Return(n, x) => ReturnKeeps(s, n, x);
    case Bound(n) => BoundKeeps(s, n);
    case TimeOut(n, x) => EndKeeps(s, n, x);
  }

  lemma {:induction false} RunInv(steps: seq<Step>)
    requires Run(steps)
    ensures Inv(After(steps))
  {
    if steps != [] {
      RunInv(steps[..|steps| - 1]);
      StepKeepsInv(After(steps[..|steps| - 1]), steps[|steps| - 1]);
    }
  }

  // ---- Theorems about every run ----

  /** At most once: over every run and interleaving (timeouts and repeated binds included) no two
      handler starts are for the same client and call number. */
  lemma AtMostOnce(steps: seq<Step>, i: nat, j: nat)
    requires Run(steps) && i < j < |After(steps).starts|
    ensures After(steps).starts[i] != After(steps).starts[j]
  {
    RunInv(steps);
  }

  /** NEW is answered only for a job that was never started. */
  lemma NewMeansUnstarted(steps: seq<Step>, req: Request)
    requires Run(steps) && req in After(steps).requests
    requires Check(WindowOf(After(steps).windows, req.nonce), req.xid, req.rep).0.New?
    ensures (req.nonce, req.xid) !in After(steps).starts
  {
    RunInv(steps);
    var s := After(steps);
    CheckIsChecked(WindowOf(s.windows, req.nonce), req.xid, req.rep);
  }

  /** A replayed reply is, byte for byte, what the only execution of that call produced, and the
      collection done by the same check leaves its entry in place. */
  lemma ReplayFidelity(steps: seq<Step>, req: Request, buf: Payload)
    requires Run(steps) && req in After(steps).requests
    requires Check(WindowOf(After(steps).windows, req.nonce), req.xid, req.rep).0 == Done(buf)
    ensures req.rep < req.xid
    ensures Genuine(After(steps).results, req.nonce, req.xid, buf)
    ensures Recorded(req.xid, buf) in Check(WindowOf(After(steps).windows, req.nonce), req.xid, req.rep).1
  {
    RunInv(steps);
    var s := After(steps);
    var w := WindowOf(s.windows, req.nonce);
    CheckIsChecked(w, req.xid, req.rep);
    CheckKeepsOwnEntry(w, req.xid, req.rep);
  }

  // ---- What a delivery does ----

  /** An entry without a reply is that of a call without a result. */
  ghost predicate FlightInv(s: System) {
    forall n, x: nat :: n in s.windows && InFlight(x) in s.windows[n] ==> (n, x) !in s.results
  }

  lemma AnswerKeepsFlight(s: System, n: nat, x: nat, rep: nat)
    requires ServerInv(s) && FlightInv(s)
    ensures var (v, w') := Check(WindowOf(s.windows, n), x, rep); FlightInv(Answer(s, n, x, v, w'))
  {
    var w := WindowOf(s.windows, n);
    var (v, w') := Check(w, x, rep);
    CheckIsChecked(w, x, rep);
    forall y: nat | InFlight(y) in w' ensures (n, y) !in s.results {
      CheckKeepsReplies(w, x, rep, InFlight(y));
      if InFlight(y) !in w {
        assert y == x;
        NewEntryIsNew(w, x, rep);
      }
    }
  }

  /** An entry that a check adds is for a number it answers NEW to. */
  lemma NewEntryIsNew(w: seq<Reply>, x: nat, rep: nat)
    requires Sorted(w) && InFlight(x) !in w && InFlight(x) in Check(w, x, rep).1
    ensures Check(w, x, rep).0.New?
  {
    VerdictMeaning(w, x, rep);
    if |w| > 0 && !Check(w, x, rep).0.New? { GcKeepsExactly(w, rep, InFlight(x)); }
  }

  lemma CompleteKeepsFlight(s: System, n: nat, x: nat, p: Payload)
    requires FlightInv(s)
    ensures FlightInv(Complete(s, n, x, p))
  {
    var w := WindowOf(s.windows, n);
    var w' := Record(w, x, p);
    forall y: nat | InFlight(y) in w' ensures y != x && InFlight(y) in w {
      var i :| 0 <= i < |w'| && w'[i] == InFlight(y);
      assert w[i] == InFlight(y);
    }
  }

  lemma StepKeepsFlight(s: System, step: Step)
    requires ServerInv(s) && FlightInv(s) && Enabled(s, step)
    ensures FlightInv(Apply(s, step))
  {
    match step
    case Deliver(req) => AnswerKeepsFlight(s, req.nonce, req.xid, req.rep);
    case Finish(n, x, p) => CompleteKeepsFlight(s, n, x, p);
    case _ => assert Apply(s, step).windows == s.windows && Apply(s, step).results == s.results;
  }

  lemma {:induction false} RunFlight(steps: seq<Step>)
    requires Run(steps)
    ensures FlightInv(After(steps))
  {
    if steps != [] {
      RunInv(steps[..|steps| - 1]);
      RunFlight(steps[..|steps| - 1]);
      StepKeepsFlight(After(steps[..|steps| - 1]), steps[|steps| - 1]);
    }
  }

  /** A started call that the server has not moved past has an entry, with its result if it has one. */
  lemma StartedHasEntry(s: System, n: nat, x: nat)
    requires ServerInv(s) && RecordsInv(s) && FlightInv(s)
    requires (n, x) in s.started && !Forgets(WindowOf(s.windows, n), x)
    ensures if (n, x) in s.results then Recorded(x, s.results[(n, x)]) in WindowOf(s.windows, n)
            else InFlight(x) in WindowOf(s.windows, n)
  {
    var w := s.windows[n];
    assert Covered(w, x);
    var i :| 0 <= i < |w| && w[i].xid == x;
    assert w[i] in w;
    assert w[i].InFlight? ==> w[i] == InFlight(x);
    assert w[i].Recorded? ==> w[i] == Recorded(x, w[i].buf);
  }

  /** In every run, what delivering a request does, first time or again, told by the history of its
      call: refuse it if the server has moved past it, start it once, resend its result if it has one,
      and otherwise nothing. */
  lemma DeliveryExactly(steps: seq<Step>, req: Request)
    requires Run(steps) && req in After(steps).requests
    ensures Delivered(After(steps), Dispatch(After(steps), req), req.nonce, req.xid)
  {
    var s, n, x := After(steps), req.nonce, req.xid;
    RunInv(steps);
    RunFlight(steps);
    var w := WindowOf(s.windows, n);
    VerdictMeaning(w, x, req.rep);
    if (n, x) in s.started && !Forgets(w, x) { StartedHasEntry(s, n, x); }
  }

  ghost predicate Delivered(s: System, s': System, n: nat, x: nat) {
    var job := (n, x);
    if Forgets(WindowOf(s.windows, n), x) then
      s'.starts == s.starts && s'.running == s.running && s'.responses == s.responses + {Response(n, x, FORGOTTEN_REPLY)}
    else if job !in s.started then
      s'.starts == s.starts + [job] && s'.running == s.running + {job} && s'.responses == s.responses
    else if job in s.results then
      s'.starts == s.starts && s'.running == s.running && s'.responses == s.responses + {Response(n, x, s.results[job])}
    else
      s'.starts == s.starts && s'.running == s.running && s'.responses == s.responses
  }

  /** In every run, a handler that returns has its result sent, and is not running any more; nothing is
      started. */
  lemma FinishSends(steps: seq<Step>, n: nat, x: nat, p: Payload)
    requires Run(steps) && Enabled(After(steps), Finish(n, x, p))
    ensures var s, s' := After(steps), Apply(After(steps), Finish(n, x, p));
            && Response(n, x, p) in s'.responses && Genuine(s'.results, n, x, p)
            && s'.running == s.running - {(n, x)} && s'.starts == s.starts
            && (!Forgets(WindowOf(s.windows, n), x) ==> Recorded(x, p) in WindowOf(s'.windows, n))
  {
    RunInv(steps);
    var s := After(steps);
    assert Covered(s.windows[n], x);
    RecordCompletes(s.windows[n], x, p, Recorded(x, p));
  }

  // ---- Exactly when a number is forgotten ----

  /** The front a window shows after a step of the server or of anybody else. */
  lemma StepForgets(s: System, step: Step, n: nat, x: nat)
    requires ServerInv(s) && Enabled(s, step) && !(step.Deliver? && step.req.nonce == n)
    ensures Forgets(WindowOf(Apply(s, step).windows, n), x) <==> Forgets(WindowOf(s.windows, n), x)
  {
    if step.Finish? && step.nonce == n {
      RecordKeeps(WindowOf(s.windows, n), step.xid, step.payload, x);
    }
  }

  /** In every run, timeouts and repeated binds included: a step leaves the server refusing a number
      the client has not acknowledged exactly when it refused it before, or the step delivers a
      request of that client whose collection finds nothing from the number the request acknowledges
      up to this one, and something above it. */
  lemma ForgottenExactly(steps: seq<Step>, step: Step, n: nat, x: nat)
    requires Run(steps) && Enabled(After(steps), step) && x > 0 && x !in Acked(After(steps), n)
    ensures var s := After(steps);
            var w := WindowOf(s.windows, n);
            Forgets(WindowOf(Apply(s, step).windows, n), x) <==>
            || Forgets(w, x)
            || (step.Deliver? && step.req.nonce == n && MovesPast(w, step.req.xid, step.req.rep, x))
  {
    var s := After(steps);
    RunInv(steps);
    if step.Deliver? && step.req.nonce == n {
      DeliverForgets(s, step.req, x);
    } else {
      StepForgets(s, step, n, x);
    }
  }

  lemma DeliverForgets(s: System, req: Request, x: nat)
    requires ServerInv(s) && RequestsInv(s) && ClientsInv(s) && req in s.requests
    requires x > 0 && x !in Acked(s, req.nonce)
    ensures var w := WindowOf(s.windows, req.nonce);
            && (Forgets(WindowOf(Dispatch(s, req).windows, req.nonce), x) <==> MovesPast(w, req.xid, req.rep, x))
            && (Forgets(w, x) ==> MovesPast(w, req.xid, req.rep, x))
  {
    var w := WindowOf(s.windows, req.nonce);
    var c := s.clients[req.nonce];
    assert RequestOk(req, c) && ClientOk(c, s.acked[req.nonce]);
    assert req.rep < x;
    CheckForgetsExactly(w, req.xid, req.rep, x);
    CheckIsChecked(w, req.xid, req.rep);
  }

  /** Some delivery of the run moved the window of client `n` past `x`. */
  ghost predicate Overtaken(steps: seq<Step>, n: nat, x: nat)
    requires Run(steps)
    decreases |steps|
  {
    steps != [] &&
    var init, step := steps[..|steps| - 1], steps[|steps| - 1];
    || Overtaken(init, n, x)
    || (step.Deliver? && step.req.nonce == n &&
        MovesPast(WindowOf(After(init).windows, n), step.req.xid, step.req.rep, x))
  }

  lemma AckedGrows(s: System, step: Step, n: nat)
    requires s.acked.Keys == s.clients.Keys && Enabled(s, step)
    ensures Acked(s, n) <= Acked(Apply(s, step), n)
  {
  }

  lemma {:induction false} RefusedExactly(steps: seq<Step>, n: nat, x: nat)
    requires Run(steps) && x > 0 && x !in Acked(After(steps), n)
    ensures Forgets(WindowOf(After(steps).windows, n), x) <==> Overtaken(steps, n, x)
  {
    if steps != [] {
      var init, step := steps[..|steps| - 1], steps[|steps| - 1];
      RunInv(init);
      AckedGrows(After(init), step, n);
      RefusedExactly(init, n, x);
      ForgottenExactly(init, step, n, x);
    }
  }

  /** A call whose reply its client has not received. */
  ghost predicate Live(s: System, n: nat, x: nat) {
    n in s.clients && x in s.clients[n].calls && s.clients[n].calls[x].reply.None?
  }

  ghost predicate LiveInv(s: System) {
    forall n, x :: Live(s, n, x) ==> x !in Acked(s, n)
  }

  lemma LiveChange(s: System, s': System, n: nat, c': Client, acked': set<nat>)
    requires LiveInv(s) && s'.clients == s.clients[n := c'] && s'.acked == s.acked[n := acked']
    requires forall x :: x in c'.calls && c'.calls[x].reply.None? ==> x !in acked'
    ensures LiveInv(s')
  {
    forall m, x | Live(s', m, x) ensures x !in Acked(s', m) {
      assert m != n ==> Live(s, m, x);
    }
  }

  lemma CallKeepsLive(s: System, n: nat, proc: nat)
    requires ClientsInv(s) && LiveInv(s) && n in s.clients && s.clients[n].Wf()
    ensures LiveInv(Called(s, n, proc))
  {
    assert ClientOk(s.clients[n], s.acked[n]);
    assert forall x :: x in s.clients[n].calls ==> (Live(s, n, x) <==> s.clients[n].calls[x].reply.None?);
    LiveChange(s, Called(s, n, proc), n, Begin(s.clients[n], proc), s.acked[n]);
  }

  lemma ReceiveKeepsLive(s: System, resp: Response)
    requires ClientsInv(s) && LiveInv(s) && resp.nonce in s.clients && s.clients[resp.nonce].Wf()
    ensures LiveInv(Received(s, resp))
  {
    var n, c := resp.nonce, s.clients[resp.nonce];
    assert forall x :: x in c.calls ==> (Live(s, n, x) <==> c.calls[x].reply.None?);
    LiveChange(s, Received(s, resp), n, Accept(c, resp.xid, resp.payload), s.acked[n] + {resp.xid});
  }

  lemma BoundKeepsLive(s: System, n: nat)
    requires ClientsInv(s) && LiveInv(s) && n in s.clients
    ensures LiveInv(BindDone(s, n))
  {
    assert forall x :: x in s.clients[n].calls ==> (Live(s, n, x) <==> s.clients[n].calls[x].reply.None?);
    LiveChange(s, BindDone(s, n), n, s.clients[n].(bindDone := true), s.acked[n]);
  }

  lemma StepKeepsLive(s: System, step: Step)
    requires ClientsInv(s) && LiveInv(s) && Enabled(s, step)
    ensures LiveInv(Apply(s, step))
  {
    match step
    case Connect(n) => LiveChange(s, Connected(s, n), n, FRESH_CLIENT, {});
    case Call(n, proc) => CallKeepsLive(s, n, proc);
    case Deliver(req) => SameLive(s, Dispatch(s, req));
    case Finish(n, x, p) => SameLive(s, Complete(s, n, x, p));
    case Receive(resp) => ReceiveKeepsLive(s, resp);
    case Return(n, x) => EndKeepsLive(s, Returned(s, n, x), n, x);
    case Bound(n) => BoundKeepsLive(s, n);
    case TimeOut(n, x) => EndKeepsLive(s, Ended(s, n, x), n, x);
  }

  lemma SameLive(s: System, s': System)
    requires LiveInv(s) && s'.clients == s.clients && s'.acked == s.acked
    ensures LiveInv(s')
  {
    assert forall n, x :: Live(s', n, x) ==> Live(s, n, x);
  }

  lemma EndKeepsLive(s: System, s': System, n: nat, x: nat)
    requires ClientsInv(s) && LiveInv(s) && n in s.clients && s.clients[n].Wf() && x in s.clients[n].calls
    requires s'.clients == Ended(s, n, x).clients && s'.acked == Ended(s, n, x).acked
    ensures LiveInv(s')
  {
    assert forall y :: y in s.clients[n].calls ==> (Live(s, n, y) <==> s.clients[n].calls[y].reply.None?);
    LiveChange(s, s', n, End(s.clients[n], x), s.acked[n] + {x});
  }

  lemma {:induction false} RunLive(steps: seq<Step>)
    requires Run(steps)
    ensures LiveInv(After(steps))
  {
    if steps != [] {
      RunInv(steps[..|steps| - 1]);
      RunLive(steps[..|steps| - 1]);
      StepKeepsLive(After(steps[..|steps| - 1]), steps[|steps| - 1]);
    }
  }

  /** In every run, timeouts and repeated binds included, the server refuses a live request if and
      only if an earlier delivery has overtaken it. */
  lemma LiveForgottenExactly(steps: seq<Step>, req: Request)
    requires Run(steps)
    requires req in After(steps).requests && Live(After(steps), req.nonce, req.xid)
    ensures Check(WindowOf(After(steps).windows, req.nonce), req.xid, req.rep).0.Forgotten? <==>
            Overtaken(steps, req.nonce, req.xid)
  {
    var s := After(steps);
    RunInv(steps);
    RunLive(steps);
    assert RequestOk(req, s.clients[req.nonce]);
    RefusedExactly(steps, req.nonce, req.xid);
    CheckIsChecked(WindowOf(s.windows, req.nonce), req.xid, req.rep);
  }

  // ---- What an answered caller knows ----

  /** The server refuses the call and has not run a handler for it. */
  ghost predicate Refused(s: System, n: nat, x: nat) {
    Forgets(WindowOf(s.windows, n), x) && (n, x) !in s.started
  }

  /** A refusal is final: no step starts a call that is refused. */
  lemma StepKeepsRefused(s: System, step: Step, n: nat, x: nat)
    requires ServerInv(s) && Enabled(s, step) && Refused(s, n, x)
    ensures Refused(Apply(s, step), n, x)
  {
    if step.Deliver? && step.req.nonce == n {
      CheckIsChecked(WindowOf(s.windows, n), step.req.xid, step.req.rep);
    } else {
      StepForgets(s, step, n, x);
    }
  }

  /** A delivery that moves past a number finds it unstarted. */
  lemma MovesPastUnstarted(s: System, req: Request, x: nat)
    requires ServerInv(s) && req in s.requests && req.rep <= x
    requires MovesPast(WindowOf(s.windows, req.nonce), req.xid, req.rep, x)
    requires !Forgets(WindowOf(s.windows, req.nonce), x)
    ensures (req.nonce, x) !in Dispatch(s, req).started
  {
    var w := WindowOf(s.windows, req.nonce);
    CheckIsChecked(w, req.xid, req.rep);
    assert !HasEntryAfter(w, req.xid, x);
  }

  /** A number refused before its client has acknowledged it was never started. */
  lemma {:induction false} ForgottenUnstarted(steps: seq<Step>, n: nat, x: nat)
    requires Run(steps) && x > 0 && x !in Acked(After(steps), n)
    requires Forgets(WindowOf(After(steps).windows, n), x)
    ensures Refused(After(steps), n, x)
  {
    if steps != [] {
      var init, step := steps[..|steps| - 1], steps[|steps| - 1];
      var s := After(init);
      RunInv(init);
      AckedGrows(s, step, n);
      ForgottenExactly(init, step, n, x);
      if Forgets(WindowOf(s.windows, n), x) {
        ForgottenUnstarted(init, n, x);
        StepKeepsRefused(s, step, n, x);
      } else {
        UnackedAboveRep(s, step.req, x);
        MovesPastUnstarted(s, step.req, x);
      }
    }
  }

  lemma UnackedAboveRep(s: System, req: Request, x: nat)
    requires ClientsInv(s) && RequestsInv(s) && req in s.requests && x > 0 && x !in Acked(s, req.nonce)
    ensures req.rep < x
  {
    var c := s.clients[req.nonce];
    assert RequestOk(req, c) && ClientOk(c, s.acked[req.nonce]);
  }

  /** Client `n` holds the reply `p` for its call `x`. */
  ghost predicate Holds(s: System, n: nat, x: nat, p: Payload) {
    n in s.clients && x in s.clients[n].calls && s.clients[n].calls[x].reply == Some(p)
  }

  /** A reply is the result of the call's execution, or refuses a call that has none. */
  ghost predicate Honest(s: System, n: nat, x: nat, p: Payload) {
    Genuine(s.results, n, x, p) || (p == FORGOTTEN_REPLY && Refused(s, n, x))
  }

  lemma StepKeepsHonest(s: System, step: Step, n: nat, x: nat, p: Payload)
    requires ServerInv(s) && Enabled(s, step) && Honest(s, n, x, p)
    ensures Honest(Apply(s, step), n, x, p)
  {
    if Genuine(s.results, n, x, p) {
      assert step.Finish? ==> (step.nonce, step.xid) !in s.results;
    } else {
      StepKeepsRefused(s, step, n, x);
    }
  }

  /** A reply is held that was not held before only by receiving it for a live call. */
  lemma HeldBefore(s: System, step: Step, n: nat, x: nat, p: Payload)
    requires Enabled(s, step) && Holds(Apply(s, step), n, x, p)
    ensures Holds(s, n, x, p) || (step == Receive(Response(n, x, p)) && Live(s, n, x))
  {
  }

  /** A reply received for a live call is honest. */
  lemma ReceivedHonest(steps: seq<Step>, n: nat, x: nat, p: Payload)
    requires Run(steps) && Live(After(steps), n, x) && Response(n, x, p) in After(steps).responses
    ensures Honest(After(steps), n, x, p)
  {
    var s := After(steps);
    RunInv(steps);
    RunLive(steps);
    assert ResponseOk(s, Response(n, x, p));
    if !Genuine(s.results, n, x, p) { ForgottenUnstarted(steps, n, x); }
  }

  lemma {:induction false} HeldIsHonest(steps: seq<Step>, n: nat, x: nat, p: Payload)
    requires Run(steps) && Holds(After(steps), n, x, p)
    ensures Honest(After(steps), n, x, p)
  {
    if steps != [] {
      var init, step := steps[..|steps| - 1], steps[|steps| - 1];
      RunInv(init);
      HeldBefore(After(init), step, n, x, p);
      if Holds(After(init), n, x, p) {
        HeldIsHonest(init, n, x, p);
      } else {
        ReceivedHonest(init, n, x, p);
      }
      StepKeepsHonest(After(init), step, n, x, p);
    }
  }

  /** In every run, timeouts and repeated binds included: a caller that has been answered holds the
      result of its call's only execution if and only if a handler was started for it; otherwise it
      holds a refusal, and the server refuses the call from then on. */
  lemma AnsweredExactly(steps: seq<Step>, n: nat, x: nat, p: Payload)
    requires Run(steps) && Holds(After(steps), n, x, p)
    ensures Genuine(After(steps).results, n, x, p) <==> (n, x) in After(steps).starts
    ensures (n, x) !in After(steps).starts ==>
              p == FORGOTTEN_REPLY && Forgets(WindowOf(After(steps).windows, n), x)
    ensures p.ret < 0 <==> (n, x) !in After(steps).starts
  {
    RunInv(steps);
    HeldIsHonest(steps, n, x, p);
  }

  /** In every run, a reply that arrives acknowledges its call, is handed to the caller if that still
      waits, and changes no other caller. */
  lemma ReceiveHands(steps: seq<Step>, resp: Response)
    requires Run(steps) && Enabled(After(steps), Receive(resp))
    ensures var s, s' := After(steps), Apply(After(steps), Receive(resp));
            && resp.xid in Acked(s', resp.nonce)
            && (Live(s, resp.nonce, resp.xid) ==> Holds(s', resp.nonce, resp.xid, resp.payload))
            && (forall n: nat, x: nat, p :: (n, x) != (resp.nonce, resp.xid) ==> (Holds(s', n, x, p) <==> Holds(s, n, x, p)))
            && (forall n: nat, x: nat :: (n, x) != (resp.nonce, resp.xid) ==> (Live(s', n, x) <==> Live(s, n, x)))
  {
  }

  /** Client `n` takes itself for bound, or is about to. */
  ghost predicate TakesBound(s: System, n: nat) {
    n in s.bindOk || (n in s.clients && s.clients[n].bindDone)
  }

  /** Some call of client `n` has run and returned 0. */
  ghost predicate Welcomed(results: map<Job, Payload>, n: nat) {
    exists x: nat :: (n, x) in results && results[(n, x)].ret == 0
  }

  lemma StepWelcomes(s: System, step: Step, n: nat)
    requires ServerInv(s) && Enabled(s, step) && Welcomed(s.results, n)
    ensures Welcomed(Apply(s, step).results, n)
  {
    var x: nat :| (n, x) in s.results && s.results[(n, x)].ret == 0;
    assert step.Finish? ==> (step.nonce, step.xid) !in s.results;
    assert (n, x) in Apply(s, step).results && Apply(s, step).results[(n, x)].ret == 0;
  }

  /** A client comes to take itself for bound only as a bind of it returns with 0. */
  lemma BecomesBound(s: System, step: Step, n: nat)
    requires Enabled(s, step) && TakesBound(Apply(s, step), n) && !TakesBound(s, n)
    ensures step.Return? && step.nonce == n && s.clients[n].calls[step.xid].proc == BIND
    ensures s.clients[n].calls[step.xid].reply.value.ret == 0
  {
  }

  /** In every run, a client that takes itself for bound has had a call run at the server and return 0. */
  lemma {:induction false} BoundByServer(steps: seq<Step>, n: nat)
    requires Run(steps) && TakesBound(After(steps), n)
    ensures Welcomed(After(steps).results, n)
  {
    if steps != [] {
      var init, step := steps[..|steps| - 1], steps[|steps| - 1];
      var s := After(init);
      RunInv(init);
      if TakesBound(s, n) {
        BoundByServer(init, n);
      } else {
        BecomesBound(s, step, n);
        HeldIsHonest(init, n, step.xid, s.clients[n].calls[step.xid].reply.value);
      }
      StepWelcomes(s, step, n);
    }
  }

  lemma RunPrefix(steps: seq<Step>, more: seq<Step>)
    requires more != [] && Run(steps + more)
    ensures Run(steps + more[..|more| - 1])
    ensures Enabled(After(steps + more[..|more| - 1]), more[|more| - 1])
    ensures After(steps + more) == Apply(After(steps + more[..|more| - 1]), more[|more| - 1])
  {
    assert (steps + more)[..|steps + more| - 1] == steps + more[..|more| - 1];
  }

  /** And a refused caller's call never runs, however the run goes on. */
  lemma {:induction false} RefusedNeverRuns(steps: seq<Step>, more: seq<Step>, n: nat, x: nat)
    requires Run(steps) && Run(steps + more) && Refused(After(steps), n, x)
    ensures Refused(After(steps + more), n, x) && (n, x) !in After(steps + more).starts
    decreases |more|
  {
    RunInv(steps + more);
    if more == [] {
      assert steps + more == steps;
    } else {
      var init := more[..|more| - 1];
      RunPrefix(steps, more);
      RefusedNeverRuns(steps, init, n, x);
      RunInv(steps + init);
      StepKeepsRefused(After(steps + init), more[|more| - 1], n, x);
    }
  }

  // ---- Orderly runs ----

  ghost predicate OrderlyClient(n: nat, c: Client, acked: set<nat>, bindOk: bool, started: set<Job>, results: map<Job, Payload>) {
    && (forall x: nat :: x in c.calls ==>
          && (c.calls[x].reply.None? ==> x !in acked)
          && (c.calls[x].reply.Some? ==> x in acked && Genuine(results, n, x, c.calls[x].reply.value)))
    && (forall x: nat :: x in acked ==> (n, x) in started)
    && (c.bindDone || bindOk || c.next > 2 ==> (n, 1) in started)
  }

  ghost predicate OrderlyClients(s: System) {
    && s.acked.Keys == s.clients.Keys
    && (forall n :: n in s.clients ==>
          OrderlyClient(n, s.clients[n], s.acked[n], n in s.bindOk, s.started, s.results))
  }

  /** The server's window has not moved past what the client acknowledged. */
  ghost predicate FrontOk(w: seq<Reply>, c: Client) {
    |w| > 0 && c.Wf() ==> w[0].xid <= 1 || w[0].xid <= c.window[0]
  }

  ghost predicate FrontsInv(s: System) {
    forall n :: n in s.clients ==> FrontOk(WindowOf(s.windows, n), s.clients[n])
  }

  /** A refusal on the network answers a number its client has already acknowledged. */
  ghost predicate RefusalsInv(s: System) {
    forall r :: r in s.responses ==>
      Genuine(s.results, r.nonce, r.xid, r.payload) || r.xid in Acked(s, r.nonce)
  }

  ghost predicate OrderlyInv(s: System) {
    OrderlyClients(s) && FrontsInv(s) && RefusalsInv(s) && s.bindOk <= s.clients.Keys
  }

  /** The heart of the argument: a request not yet acknowledged is never below the server's front. */
  lemma UnackedNotForgotten(s: System, req: Request)
    requires Inv(s) && OrderlyInv(s) && req in s.requests && req.xid !in Acked(s, req.nonce)
    ensures !Forgets(WindowOf(s.windows, req.nonce), req.xid)
  {
    var c := s.clients[req.nonce];
    assert RequestOk(req, c) && ClientOk(c, s.acked[req.nonce]) && FrontOk(WindowOf(s.windows, req.nonce), c);
    assert c.window[0] < req.xid;
  }

  lemma DispatchFront(s: System, req: Request)
    requires Inv(s) && OrderlyInv(s) && req in s.requests
    ensures FrontOk(Check(WindowOf(s.windows, req.nonce), req.xid, req.rep).1, s.clients[req.nonce])
  {
    var n, c := req.nonce, s.clients[req.nonce];
    var w := WindowOf(s.windows, n);
    assert RequestOk(req, c) && ClientOk(c, s.acked[n]) && FrontOk(w, c);
    assert OrderlyClient(n, c, s.acked[n], n in s.bindOk, s.started, s.results);
    if |w| == 0 {
      assert req.xid >= 2 ==> (n, 1) in s.started;
    } else {
      assert w[0].xid < req.rep ==> HasEntry(w, req.rep) by {
        if w[0].xid < req.rep {
          assert req.rep in s.acked[n];
          assert (n, req.rep) in s.started;
        }
      }
      CheckFront(w, req.xid, req.rep);
    }
  }

  lemma DeliverKeepsOrderly(s: System, req: Request)
    requires Inv(s) && OrderlyInv(s) && req in s.requests
    ensures OrderlyInv(Dispatch(s, req))
  {
    var n, x := req.nonce, req.xid;
    var w := WindowOf(s.windows, n);
    var (v, w') := Check(w, x, req.rep);
    assert FrontOk(w', s.clients[n]) by { DispatchFront(s, req); }
    assert v.Forgotten? ==> x in Acked(s, n) by {
      if x !in Acked(s, n) {
        UnackedNotForgotten(s, req);
        CheckIsChecked(w, x, req.rep);
      }
    }
    assert v.Done? ==> Genuine(s.results, n, x, v.buf) by { CheckIsChecked(w, x, req.rep); }
    AnswerKeepsOrderly(s, n, x, v, w');
  }

  lemma AnswerKeepsOrderly(s: System, n: nat, x: nat, v: Verdict, w': seq<Reply>)
    requires OrderlyInv(s) && n in s.clients && FrontOk(w', s.clients[n])
    requires v.Forgotten? ==> x in Acked(s, n)
    requires v.Done? ==> Genuine(s.results, n, x, v.buf)
    ensures OrderlyInv(Answer(s, n, x, v, w'))
  {
    var s' := Answer(s, n, x, v, w');
    assert OrderlyClients(s') by {
      forall m | m in s.clients
        ensures OrderlyClient(m, s.clients[m], s.acked[m], m in s.bindOk, s'.started, s'.results) {
        MoreHistory(m, s.clients[m], s.acked[m], m in s.bindOk, s, s');
      }
    }
  }

  lemma FinishKeepsFronts(s: System, n: nat, x: nat, p: Payload)
    requires ServerInv(s) && FrontsInv(s) && n in s.windows
    ensures FrontsInv(Complete(s, n, x, p))
  {
    RecordKeeps(s.windows[n], x, p, x);
  }

  lemma FinishKeepsOrderly(s: System, n: nat, x: nat, p: Payload)
    requires ServerInv(s) && OrderlyInv(s) && (n, x) in s.running
    ensures OrderlyInv(Complete(s, n, x, p))
  {
    var s' := Complete(s, n, x, p);
    assert (n, x) !in s.results && n in s.windows;
    assert FrontsInv(s') by { FinishKeepsFronts(s, n, x, p); }
    assert OrderlyClients(s') by {
      forall m | m in s.clients
        ensures OrderlyClient(m, s.clients[m], s.acked[m], m in s.bindOk, s'.started, s'.results) {
        MoreHistory(m, s.clients[m], s.acked[m], m in s.bindOk, s, s');
      }
    }
    assert RefusalsInv(s') by { FinishKeepsRefusals(s, n, x, p); }
  }

  lemma FinishKeepsRefusals(s: System, n: nat, x: nat, p: Payload)
    requires RefusalsInv(s) && (n, x) !in s.results
    ensures RefusalsInv(Complete(s, n, x, p))
  {
    var s' := Complete(s, n, x, p);
    assert forall m :: Acked(s', m) == Acked(s, m);
  }

  lemma MoreHistory(n: nat, c: Client, acked: set<nat>, bindOk: bool, s: System, s': System)
    requires OrderlyClient(n, c, acked, bindOk, s.started, s.results) && s.started <= s'.started
    requires forall job :: job in s.results ==> job in s'.results && s'.results[job] == s.results[job]
    ensures OrderlyClient(n, c, acked, bindOk, s'.started, s'.results)
  {
  }

  function FrontOf(c: Client): nat {
    if c.Wf() then c.window[0] else 0
  }

  /** A client step in an orderly run: one client changes, its acknowledgements only grow. */
  lemma OrderlyChange(s: System, s': System, n: nat, c': Client, acked': set<nat>)
    requires OrderlyInv(s) && ClientStep(s, s')
    requires s'.clients == s.clients[n := c'] && s'.acked == s.acked[n := acked']
    requires s.bindOk <= s'.bindOk <= s.bindOk + {n}
    requires OrderlyClient(n, c', acked', n in s'.bindOk, s.started, s.results)
    requires n in s.clients ==> s.acked[n] <= acked' && s.clients[n].Wf() && s.clients[n].window[0] <= FrontOf(c')
    requires n !in s.clients ==> n !in s.windows
    ensures OrderlyInv(s')
  {
    assert OrderlyClients(s');
    assert FrontsInv(s') by {
      assert n in s.clients ==> FrontOk(WindowOf(s.windows, n), s.clients[n]);
    }
    assert RefusalsInv(s') by {
      assert forall m :: Acked(s, m) <= Acked(s', m);
    }
  }

  lemma AcceptOrderly(n: nat, c: Client, s: System, x: nat, p: Payload)
    requires n in s.acked && c.Wf() && OrderlyClient(n, c, s.acked[n], n in s.bindOk, s.started, s.results)
    requires (n, x) in s.started && (Genuine(s.results, n, x, p) || x in s.acked[n])
    ensures OrderlyClient(n, Accept(c, x, p), s.acked[n] + {x}, n in s.bindOk, s.started, s.results)
  {
  }

  lemma ReceiveKeepsOrderly(s: System, resp: Response)
    requires ServerInv(s) && ClientsInv(s) && ResponsesInv(s) && OrderlyInv(s)
    requires resp in s.responses && resp.nonce in s.clients && s.clients[resp.nonce].Wf()
    ensures OrderlyInv(Received(s, resp))
  {
    var n, x, c := resp.nonce, resp.xid, s.clients[resp.nonce];
    var c' := Accept(c, x, resp.payload);
    assert OrderlyClient(n, c', s.acked[n] + {x}, n in s.bindOk, s.started, s.results) by {
      assert (n, x) in s.results ==> (n, x) in s.started;
      AcceptOrderly(n, c, s, x, resp.payload);
    }
    assert c.window[0] <= FrontOf(c') by {
      assert ResponseOk(s, resp) && ClientOk(c, s.acked[n]);
      ClientAcknowledges(c, s.acked[n], x, c');
    }
    OrderlyChange(s, Received(s, resp), n, c', s.acked[n] + {x});
  }

  /** A call that the server has started may end, answered or not; whether it lets `bind` go on does
      not matter, since then the first call has been started too. */
  lemma EndOrderly(n: nat, c: Client, s: System, later: bool, x: nat)
    requires n in s.acked && ClientOk(c, s.acked[n])
    requires OrderlyClient(n, c, s.acked[n], n in s.bindOk, s.started, s.results)
    requires x in c.calls && (n, x) in s.started
    ensures c.window[0] <= FrontOf(End(c, x))
    ensures OrderlyClient(n, End(c, x), s.acked[n] + {x}, later, s.started, s.results)
  {
    assert (n, 1) in s.started;
    ClientAcknowledges(c, s.acked[n], x, End(c, x));
  }

  lemma EndKeepsOrderly(s: System, n: nat, x: nat, s': System)
    requires ClientsInv(s) && OrderlyInv(s) && n in s.clients && s.clients[n].Wf()
    requires x in s.clients[n].calls && (n, x) in s.started
    requires s' == Ended(s, n, x) || s' == Ended(s, n, x).(bindOk := s.bindOk + {n})
    ensures OrderlyInv(s')
  {
    var c, acked := s.clients[n], s.acked[n];
    assert OrderlyClient(n, End(c, x), acked + {x}, n in s'.bindOk, s.started, s.results)
           && c.window[0] <= FrontOf(End(c, x)) by {
      assert ClientOk(c, acked);
      EndOrderly(n, c, s, n in s'.bindOk, x);
    }
    OrderlyChange(s, s', n, End(c, x), acked + {x});
  }

  lemma ReturnKeepsOrderly(s: System, n: nat, x: nat)
    requires ClientsInv(s) && OrderlyInv(s) && n in s.clients && s.clients[n].Wf()
    requires x in s.clients[n].calls && s.clients[n].calls[x].reply.Some?
    ensures OrderlyInv(Returned(s, n, x))
  {
    assert (n, x) in s.started by {
      assert OrderlyClient(n, s.clients[n], s.acked[n], n in s.bindOk, s.started, s.results);
    }
    EndKeepsOrderly(s, n, x, Returned(s, n, x));
  }

  lemma CallKeepsOrderly(s: System, n: nat, proc: nat)
    requires ClientsInv(s) && OrderlyInv(s) && n in s.clients && s.clients[n].Wf()
    requires !Refuses(s.clients[n], proc) && (proc == BIND && s.clients[n].next > 1 ==> (n, 1) in s.started)
    ensures OrderlyInv(Called(s, n, proc))
  {
    BeginOrderly(n, s, proc);
    OrderlyChange(s, Called(s, n, proc), n, Begin(s.clients[n], proc), s.acked[n]);
  }

  lemma BeginOrderly(n: nat, s: System, proc: nat)
    requires ClientsInv(s) && n in s.clients && s.clients[n].Wf()
    requires OrderlyClient(n, s.clients[n], s.acked[n], n in s.bindOk, s.started, s.results)
    requires !Refuses(s.clients[n], proc) && (proc == BIND && s.clients[n].next > 1 ==> (n, 1) in s.started)
    ensures OrderlyClient(n, Begin(s.clients[n], proc), s.acked[n], n in s.bindOk, s.started, s.results)
  {
    assert ClientOk(s.clients[n], s.acked[n]);
  }

  lemma ConnectKeepsOrderly(s: System, n: nat)
    requires ServerInv(s) && OrderlyInv(s) && n !in s.clients
    ensures OrderlyInv(Connected(s, n))
  {
    assert n in s.windows ==> HasEntry(s.windows[n], s.windows[n][0].xid);
    OrderlyChange(s, Connected(s, n), n, FRESH_CLIENT, {});
  }

  lemma BoundKeepsOrderly(s: System, n: nat)
    requires ClientsInv(s) && OrderlyInv(s) && n in s.bindOk && n in s.clients
    ensures OrderlyInv(BindDone(s, n))
  {
    assert ClientOk(s.clients[n], s.acked[n]);
    OrderlyChange(s, BindDone(s, n), n, s.clients[n].(bindDone := true), s.acked[n]);
  }

  lemma StepKeepsOrderly(s: System, step: Step)
    requires Inv(s) && OrderlyInv(s) && Enabled(s, step) && OrderlyStep(s, step)
    ensures OrderlyInv(Apply(s, step))
  {
    match step
    case Connect(n) => ConnectKeepsOrderly(s, n);
    case Call(n, proc) => CallKeepsOrderly(s, n, proc);
    case Deliver(req) => DeliverKeepsOrderly(s, req);
    case Finish(n, x, p) => FinishKeepsOrderly(s, n, x, p);
    case Receive(resp) => ReceiveKeepsOrderly(s, resp);
    case Return(n, x) => ReturnKeepsOrderly(s, n, x);
    case Bound(n) => BoundKeepsOrderly(s, n);
    case TimeOut(n, x) => EndKeepsOrderly(s, n, x, Ended(s, n, x));
  }

  lemma {:induction false} OrderlyRunInv(steps: seq<Step>)
    requires Run(steps) && Orderly(steps)
    ensures Inv(After(steps)) && OrderlyInv(After(steps))
  {
    RunInv(steps);
    if steps != [] {
      var init := steps[..|steps| - 1];
      OrderlyRunInv(init);
      StepKeepsOrderly(After(init), steps[|steps| - 1]);
    }
  }

  /** In an orderly run no live request is forgotten, whatever the network does. */
  lemma NoLiveForgotten(steps: seq<Step>, req: Request)
    requires Run(steps) && Orderly(steps)
    requires req in After(steps).requests && Live(After(steps), req.nonce, req.xid)
    ensures !Check(WindowOf(After(steps).windows, req.nonce), req.xid, req.rep).0.Forgotten?
  {
    OrderlyRunInv(steps);
    var s := After(steps);
    assert OrderlyClient(req.nonce, s.clients[req.nonce], s.acked[req.nonce], req.nonce in s.bindOk, s.started, s.results);
    UnackedNotForgotten(s, req);
    CheckIsChecked(WindowOf(s.windows, req.nonce), req.xid, req.rep);
  }

  /** An answered call holds the result of the one execution of that call, and never a refusal. */
  lemma AnsweredExactlyOnce(steps: seq<Step>, n: nat, x: nat, p: Payload)
    requires Run(steps) && Orderly(steps) && Holds(After(steps), n, x, p)
    ensures Genuine(After(steps).results, n, x, p) && p.ret >= 0
    ensures exists i :: 0 <= i < |After(steps).starts| && After(steps).starts[i] == (n, x)
  {
    OrderlyRunInv(steps);
    var s := After(steps);
    assert OrderlyClient(n, s.clients[n], s.acked[n], n in s.bindOk, s.started, s.results);
    assert (n, x) in s.starts;
  }
}
