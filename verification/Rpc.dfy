/** The two RPC endpoints: the client `Rpcc` and the server `Rpcs`.  Each method is one section the
    source runs under its mutex, and is proved against a function on the endpoint's state. */
module Rpc {
  import opened Bytes
  import opened ReplyWindow
  import AckWindow

  const BIND: nat := 1

  const FORGOTTEN_REPLY: Payload := Payload(-4, [])

  datatype Caller = Caller(proc: nat, reply: Option<Payload>)

  datatype Client = Client(next: nat, window: seq<nat>, calls: map<nat, Caller>, bindDone: bool) {
    predicate Wf() { |window| > 0 }
  }

  const FRESH_CLIENT: Client := Client(1, [0], map[], false)

  /** The guard of `call1`: nothing but bind before binding, and no second bind afterwards. */
  predicate Refuses(c: Client, proc: nat) {
    (proc != BIND && !c.bindDone) || (proc == BIND && c.bindDone)
  }

  /** Issue a call: take the next number and file the caller under it. */
  function Begin(c: Client, proc: nat): Client {
    c.(next := c.next + 1, calls := c.calls[c.next := Caller(proc, None)])
  }

  /** A reply for `xid` arrives: acknowledge it, and hand it to its caller unless one is there. */
  function Accept(c: Client, xid: nat, p: Payload): Client
    requires c.Wf()
  {
    var c' := c.(window := AckWindow.Update(c.window, xid));
    if xid in c.calls && c.calls[xid].reply.None?
    then c'.(calls := c.calls[xid := c.calls[xid].(reply := Some(p))])
    else c'
  }

  /** The caller stops waiting (answered or timed out): forget it and acknowledge its number. */
  function End(c: Client, xid: nat): Client
    requires c.Wf()
  {
    c.(calls := c.calls - {xid}, window := AckWindow.Update(c.window, xid))
  }

  /** Return code of a call that `cancel` fails. */
  const CANCEL_FAILURE: int := -7

  /** A caller told to give up: whatever it holds, its return code says so. */
  function Cancelled(c: Caller): Caller {
    c.(reply := Some(Payload(CANCEL_FAILURE, if c.reply.Some? then c.reply.value.body else [])))
  }

  class Rpcc {
    var xid: nat
    var window: seq<nat>
    var calls: map<nat, Caller>
    var bindDone: bool
    var destroyWait: bool   // a cancel waits for the callers to go

    ghost function State(): Client
      reads this
    {
      Client(xid, window, calls, bindDone)
    }

    constructor ()
      ensures State() == FRESH_CLIENT && !destroyWait
    {
      xid, window, calls, bindDone, destroyWait := 1, [0], map[], false, false;
    }

    method UpdateXidRep(x: nat)
      requires |window| > 0
      modifies this`window
      ensures window == AckWindow.Update(old(window), x)
    {
      if x <= window[0] { return; }
      var it := 0;
      while it < |window| && window[it] <= x
        invariant it <= |window|
        invariant forall j :: 0 <= j < it ==> window[j] <= x
      {
        it := it + 1;
      }
      assert it == AckWindow.InsertAt(window, x);
      window := window[..it] + [x] + window[it..];
      CompressFront();
    }

    /** The part of `update_xid_rep` after its `compress` label. */
    method CompressFront()
      requires |window| > 1
      modifies this`window
      ensures window == AckWindow.Compress(old(window), 1)
    {
      var it := 1;
      while it < |window|
        invariant 0 < |window| && it <= |window|
        invariant AckWindow.Compress(window, it) == AckWindow.Compress(old(window), 1)
        decreases |window| - it
      {
        ghost var w0, it0 := window, it;
        while window[0] + 1 == window[it]
          invariant it < |window| && |window| - it == |w0| - it0
          invariant AckWindow.PopRun(window, it) == AckWindow.PopRun(w0, it0)
          decreases it
        {
          // the element dropped is never the one under the iterator
          assert 0 < it;
          window, it := window[1..], it - 1;
        }
        assert AckWindow.Compress(w0, it0) == AckWindow.Compress(window, it + 1);
        it := it + 1;
      }
    }

    /** The locked section of `call1`; on success returns the call number and the acknowledgement
        for the request header. */
    method BeginCall(proc: nat) returns (header: Option<(nat, nat)>)
      requires |window| > 0
      modifies this`xid, this`calls
      ensures header.None? <==> (old(bindDone) <==> proc == BIND) || old(destroyWait)
      ensures header.None? ==> State() == old(State())
      ensures header.Some? ==>
                header == Some((old(xid), old(window)[0])) && State() == Begin(old(State()), proc)
    {
      if (proc != BIND && !bindDone) || (proc == BIND && bindDone) { return None; }
      if destroyWait { return None; }
      var mine := xid;
      xid := xid + 1;
      calls := calls[mine := Caller(proc, None)];
      header := Some((mine, window[0]));
    }

    /** `cancel` until it first waits: every caller is failed, so that no reply is handed to it any
        more, and while there are callers no call may begin. */
    method Cancel()
      modifies this`calls, this`destroyWait
      ensures calls == map x | x in old(calls) :: Cancelled(old(calls)[x])
      ensures forall x :: x in calls ==> calls[x].reply.Some? && calls[x].reply.value.ret < 0
      ensures destroyWait <==> old(destroyWait) || calls != map[]
      ensures forall x: nat, p :: |window| > 0 ==> Accept(State(), x, p).calls == calls
    {
      var todo := calls.Keys;
      while todo != {}
        invariant todo <= calls.Keys == old(calls).Keys && destroyWait == old(destroyWait)
        invariant forall x :: x in calls ==>
                    calls[x] == if x in todo then old(calls)[x] else Cancelled(old(calls)[x])
        decreases |todo|
      {
        var x :| x in todo;
        calls := calls[x := Cancelled(calls[x])];
        todo := todo - {x};
      }
      if |calls| > 0 { destroyWait := true; }
    }

    method GotPdu(x: nat, p: Payload)
      requires |window| > 0
      modifies this`window, this`calls
      ensures State() == Accept(old(State()), x, p)
    {
      UpdateXidRep(x);
      if x !in calls { return; }
      if calls[x].reply.None? {
        calls := calls[x := calls[x].(reply := Some(p))];
      }
    }

    method EndCall(x: nat) returns (reply: Option<Payload>)
      requires |window| > 0
      modifies this`window, this`calls
      ensures State() == End(old(State()), x)
      ensures reply == if x in old(calls) then old(calls)[x].reply else None
    {
      reply := if x in calls then calls[x].reply else None;
      calls := calls - {x};
      UpdateXidRep(x);
    }
  }

  function WindowOf(m: map<nat, seq<Reply>>, clt: nat): seq<Reply> {
    if clt in m then m[clt] else []
  }

  class Rpcs {
    var replyWindow: map<nat, seq<Reply>>

    constructor ()
      ensures replyWindow == map[]
    {
      replyWindow := map[];
    }

    method GcReplyWindow(clt: nat, rep: nat)
      modifies this
      ensures replyWindow == old(replyWindow)[clt := Gc(WindowOf(old(replyWindow), clt), rep)]
    {
      var window := WindowOf(replyWindow, clt);
      while window != [] && window[0].xid < rep && |window| != 1
        invariant Gc(window, rep) == Gc(WindowOf(old(replyWindow), clt), rep)
        decreases |window|
      {
        window := window[1..];
      }
      replyWindow := replyWindow[clt := window];
    }

    method CheckDuplicateAndUpdate(clt: nat, xid: nat, rep: nat) returns (v: Verdict)
      modifies this
      ensures var (verdict, window) := Check(WindowOf(old(replyWindow), clt), xid, rep);
              v == verdict && replyWindow == old(replyWindow)[clt := window]
    {
      var window := WindowOf(replyWindow, clt);
      if |window| == 0 {
        replyWindow := replyWindow[clt := [InFlight(xid)]];
        return New;
      }
      if xid < window[0].xid {
        GcReplyWindow(clt, rep);
        return Forgotten;
      }
      var it := 0;
      while it < |window|
        invariant it <= |window|
        invariant forall i :: 0 <= i < it ==> window[i].xid < xid
        invariant replyWindow == old(replyWindow)
      {
        if xid < window[it].xid {
          break;
        } else if xid > window[it].xid {
          it := it + 1;
        } else {
          assert it == Locate(window, xid);
          v := if window[it].InFlight? then InProgress else Done(window[it].buf);
          GcReplyWindow(clt, rep);
          return;
        }
      }
      assert it == Locate(window, xid);
      replyWindow := replyWindow[clt := window[..it] + [InFlight(xid)] + window[it..]];
      GcReplyWindow(clt, rep);
      return New;
    }

    method AddReply(clt: nat, xid: nat, buf: Payload)
      requires |WindowOf(replyWindow, clt)| != 0
      modifies this
      ensures replyWindow ==
              old(replyWindow)[clt := Record(WindowOf(old(replyWindow), clt), xid, buf)]
    {
      var window := WindowOf(replyWindow, clt);
      ghost var before := window;
      for it := 0 to |window|
        invariant |window| == |before|
        invariant forall i :: 0 <= i < |window| ==>
                    window[i] == if i < it && before[i].xid == xid then Recorded(xid, buf) else before[i]
      {
        if window[it].xid == xid {
          window := window[it := Recorded(xid, buf)];
        }
      }
      assert window == Record(before, xid, buf);
      replyWindow := replyWindow[clt := window];
    }
  }
}
