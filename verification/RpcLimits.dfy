/** Refusals outside orderly runs: with a second bind issued before the server has started the first,
    or after the timeout of a call it has not started, the server does refuse a live request. */
module RpcLimits {
  import opened Bytes
  import opened ReplyWindow
  import opened Rpc
  import opened RpcSystem
  import AckWindow

  ghost predicate Reachable(s: System) {
    exists steps :: Run(steps) && After(steps) == s
  }

  lemma Reach(s: System, step: Step)
    requires Reachable(s) && Enabled(s, step)
    ensures Reachable(Apply(s, step))
  {
    var steps :| Run(steps) && After(steps) == s;
    assert (steps + [step])[..|steps|] == steps;
    assert Run(steps + [step]) && After(steps + [step]) == Apply(s, step);
  }

  /** A live request that the server would refuse. */
  ghost predicate ForgetsLive(s: System, req: Request) {
    req in s.requests && Live(s, req.nonce, req.xid) &&
    Check(WindowOf(s.windows, req.nonce), req.xid, req.rep).0.Forgotten?
  }

  const NEWCOMER: System :=
    INIT.(clients := map[7 := FRESH_CLIENT], acked := map[7 := {}])

  lemma NewcomerReachable()
    ensures Reachable(NEWCOMER)
  {
    assert Run([]) && After([]) == INIT;
    Reach(INIT, Connect(7));
    assert Apply(INIT, Connect(7)) == NEWCOMER;
  }

  /** Two binds issued before either is answered, the second delivered first. */
  lemma SecondBindForgetsLive() returns (s: System, req: Request)
    ensures Reachable(s) && ForgetsLive(s, req)
  {
    NewcomerReachable();
    var s1 := Apply(NEWCOMER, Call(7, BIND));
    Reach(NEWCOMER, Call(7, BIND));
    var s2 := Apply(s1, Call(7, BIND));
    Reach(s1, Call(7, BIND));
    req := Request(7, 1, BIND, 0);
    var second := Request(7, 2, BIND, 0);
    assert second in s2.requests;
    s := Apply(s2, Deliver(second));
    Reach(s2, Deliver(second));
    assert WindowOf(s.windows, 7) == [InFlight(2)];
  }

  lemma AckOne(n: nat)
    ensures AckWindow.Update([n], n + 1) == [n + 1]
  {
    assert AckWindow.InsertAt([n], n + 1) == 1;
    assert AckWindow.Insert([n], n + 1) == [n, n + 1];
    assert [n, n + 1][1..] == [n + 1];
    assert AckWindow.PopRun([n, n + 1], 1) == ([n + 1], 0);
    assert AckWindow.Compress([n, n + 1], 1) == AckWindow.Compress([n + 1], 1);
  }

  /** The states of client 7 while it binds, after the handler ran and after the reply came back. */
  ghost function Served(ok: Payload): System {
    System(map[7 := Client(2, [0], map[1 := Caller(BIND, None)], false)], {}, map[7 := [Recorded(1, ok)]], {},
           {Request(7, 1, BIND, 0)}, {Response(7, 1, ok)}, {(7, 1)}, [(7, 1)], map[(7, 1) := ok], map[7 := {}])
  }

  ghost function BoundState(ok: Payload): System {
    Served(ok).(clients := map[7 := Client(2, [1], map[], true)], bindOk := {7}, acked := map[7 := {1}])
  }

  lemma ServedReachable(ok: Payload)
    requires ok.ret == 0
    ensures Reachable(Served(ok))
  {
    NewcomerReachable();
    var req := Request(7, 1, BIND, 0);
    var s1 := Apply(NEWCOMER, Call(7, BIND));
    Reach(NEWCOMER, Call(7, BIND));
    assert req in s1.requests;
    var s2 := Apply(s1, Deliver(req));
    Reach(s1, Deliver(req));
    assert s2.windows == map[7 := [InFlight(1)]] && s2.running == {(7, 1)};
    var s3 := Apply(s2, Finish(7, 1, ok));
    Reach(s2, Finish(7, 1, ok));
    assert s3.windows[7] == [Recorded(1, ok)];
    assert s3 == Served(ok);
  }

  lemma Acknowledged(s: System, x: nat, c: Client, acked: set<nat>)
    requires s.clients.Keys == s.acked.Keys == {7} && acked == s.acked[7] + {x}
    ensures Acknowledge(s, 7, x, c) == s.(clients := map[7 := c], acked := map[7 := acked])
  {
    assert s.clients[7 := c] == map[7 := c];
    assert s.acked[7 := acked] == map[7 := acked];
  }

  ghost function Answered(ok: Payload): System {
    Served(ok).(clients := map[7 := Client(2, [1], map[1 := Caller(BIND, Some(ok))], false)],
                acked := map[7 := {1}])
  }

  lemma AnswerReceived(ok: Payload)
    ensures Received(Served(ok), Response(7, 1, ok)) == Answered(ok)
  {
    var c := Client(2, [0], map[1 := Caller(BIND, None)], false);
    assert Accept(c, 1, ok) == Client(2, [1], map[1 := Caller(BIND, Some(ok))], false) by { AckOne(0); }
    Acknowledged(Served(ok), 1, Accept(c, 1, ok), {1});
  }

  lemma AnsweredReachable(ok: Payload)
    requires ok.ret == 0
    ensures Reachable(Answered(ok))
  {
    ServedReachable(ok);
    AnswerReceived(ok);
    Reach(Served(ok), Receive(Response(7, 1, ok)));
  }

  lemma BoundReachable(ok: Payload)
    requires ok.ret == 0
    ensures Reachable(BoundState(ok))
  {
    AnsweredReachable(ok);
    var c := Client(2, [1], map[1 := Caller(BIND, Some(ok))], false);
    assert End(c, 1) == Client(2, [1], map[], false);
    var s5 := Answered(ok).(clients := map[7 := Client(2, [1], map[], false)], bindOk := {7});
    Reach(Answered(ok), Return(7, 1));
    Acknowledged(Answered(ok), 1, End(c, 1), {1});
    assert Apply(Answered(ok), Return(7, 1)).bindOk == {7};
    Reach(s5, Bound(7));
    assert s5.clients[7 := s5.clients[7].(bindDone := true)] == BoundState(ok).clients;
  }

  /** Call 2 has timed out before it reached the server: 2 is acknowledged without an entry. */
  ghost function TimedOut(ok: Payload): System {
    BoundState(ok).(clients := map[7 := Client(3, [2], map[], true)],
                    requests := {Request(7, 1, BIND, 0), Request(7, 2, 5, 1)},
                    acked := map[7 := {1, 2}])
  }

  /** Call 2 is under way. */
  ghost function SecondCall(ok: Payload): System {
    BoundState(ok).(clients := map[7 := Client(3, [1], map[2 := Caller(5, None)], true)],
                    requests := {Request(7, 1, BIND, 0), Request(7, 2, 5, 1)})
  }

  lemma SecondCalled(ok: Payload)
    ensures Called(BoundState(ok), 7, 5) == SecondCall(ok)
  {
    assert Called(BoundState(ok), 7, 5).clients == SecondCall(ok).clients;
    assert Called(BoundState(ok), 7, 5).requests == SecondCall(ok).requests;
  }

  lemma SecondEnded(ok: Payload)
    ensures Ended(SecondCall(ok), 7, 2) == TimedOut(ok)
  {
    var c := Client(3, [1], map[2 := Caller(5, None)], true);
    assert End(c, 2) == Client(3, [2], map[], true) by { AckOne(1); }
    Acknowledged(SecondCall(ok), 2, End(c, 2), {1, 2});
  }

  lemma TimedOutReachable(ok: Payload)
    requires ok.ret == 0
    ensures Reachable(TimedOut(ok))
  {
    BoundReachable(ok);
    SecondCalled(ok);
    Reach(BoundState(ok), Call(7, 5));
    SecondEnded(ok);
    Reach(SecondCall(ok), TimeOut(7, 2));
  }

  lemma CollectPastGap(ok: Payload)
    ensures Check([Recorded(1, ok)], 4, 2) == (New, [InFlight(4)])
  {
    var w := [Recorded(1, ok)];
    var k := Locate(w, 4);
    assert k == 1;
    var w1 := [Recorded(1, ok), InFlight(4)];
    assert Inserted(w, 4) == w1;
    assert w1[1..] == [InFlight(4)];
    assert Gc(w1, 2) == Gc(w1[1..], 2);
  }

  /** Then call 4 overtakes call 3, and collecting at 2 leaves the front at 4. */
  lemma TimeOutForgetsLive(ok: Payload) returns (s: System, req: Request)
    requires ok.ret == 0
    ensures Reachable(s) && ForgetsLive(s, req)
  {
    TimedOutReachable(ok);
    var s9 := Apply(TimedOut(ok), Call(7, 5));
    Reach(TimedOut(ok), Call(7, 5));
    assert s9.clients[7] == Client(4, [2], map[3 := Caller(5, None)], true);
    var s10 := Apply(s9, Call(7, 5));
    Reach(s9, Call(7, 5));
    req := Request(7, 3, 5, 2);
    var fourth := Request(7, 4, 5, 2);
    assert req in s10.requests && fourth in s10.requests && Live(s10, 7, 3);
    s := Dispatch(s10, fourth);
    Reach(s10, Deliver(fourth));
    CollectPastGap(ok);
    assert s == Answer(s10, 7, 4, New, [InFlight(4)]);
  }
}
