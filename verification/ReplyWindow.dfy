/** The server's window of remembered calls of one client (`reply_window_[clt_nonce]`), as a value.

    The window holds one entry per remembered call number, in increasing order.  A number that is
    not in the window and not below its front has never been seen.
 */
module ReplyWindow {
  import opened Bytes

  /** A marshalled reply: the return code of its header, and its body. */
  datatype Payload = Payload(ret: int, body: seq<Byte>)

  /** A remembered call: still being processed, or complete with the reply that was sent. */
  datatype Reply =
    | InFlight(xid: nat)
    | Recorded(xid: nat, buf: Payload)

  datatype Verdict = New | InProgress | Done(buf: Payload) | Forgotten

  /** `gc_reply_window`: drop entries below `rep` from the front, but never the last entry. */
  function Gc(w: seq<Reply>, rep: nat): (r: seq<Reply>)
    ensures |w| > 0 ==> |r| > 0
  {
    if |w| > 1 && w[0].xid < rep then Gc(w[1..], rep) else w
  }

  /** Index of the first entry whose number is at least `xid`, or the length. */
  function Locate(w: seq<Reply>, xid: nat): (k: nat)
    ensures k <= |w|
    ensures forall i :: 0 <= i < k ==> w[i].xid < xid
    ensures k < |w| ==> xid <= w[k].xid
  {
    if |w| == 0 || xid <= w[0].xid then 0 else 1 + Locate(w[1..], xid)
  }

  /** The window with an entry for `xid` put in its place. */
  function Inserted(w: seq<Reply>, xid: nat): (r: seq<Reply>)
    ensures |r| == |w| + 1
    ensures var k := Locate(w, xid);
            forall j :: 0 <= j < |r| ==> r[j] == if j < k then w[j] else if j == k then InFlight(xid) else w[j - 1]
  {
    var k := Locate(w, xid);
    w[..k] + [InFlight(xid)] + w[k..]
  }

  /** `checkduplicate_and_update` on one client's window. */
  function Check(w: seq<Reply>, xid: nat, rep: nat): (Verdict, seq<Reply>) {
    if |w| == 0 then (New, [InFlight(xid)])
    else if xid < w[0].xid then (Forgotten, Gc(w, rep))
    else
      var k := Locate(w, xid);
      if k < |w| && w[k].xid == xid then
        (if w[k].InFlight? then InProgress else Done(w[k].buf), Gc(w, rep))
      else
        (New, Gc(Inserted(w, xid), rep))
  }

  /** `add_reply`: every entry with this number becomes complete. */
  function Record(w: seq<Reply>, xid: nat, buf: Payload): (r: seq<Reply>)
    ensures |r| == |w|
  {
    seq(|w|, i requires 0 <= i < |w| => if w[i].xid == xid then Recorded(xid, buf) else w[i])
  }

  ghost predicate Sorted(w: seq<Reply>) {
    forall i, j :: 0 <= i < j < |w| ==> w[i].xid < w[j].xid
  }

  ghost predicate HasEntry(w: seq<Reply>, xid: nat) {
    exists i :: 0 <= i < |w| && w[i].xid == xid
  }

  /** A request for `xid` would be refused as too old. */
  ghost predicate Forgets(w: seq<Reply>, xid: nat) {
    |w| > 0 && xid < w[0].xid
  }

  /** The server can tell that `xid` may have been seen: remembered, or below the front. */
  ghost predicate Covered(w: seq<Reply>, xid: nat) {
    Forgets(w, xid) || HasEntry(w, xid)
  }

  // ---- collection ----

  /** Collection returns a non-empty suffix, and what it dropped is below `rep`. */
  lemma {:induction false} GcSuffix(w: seq<Reply>, rep: nat) returns (n: nat)
    requires |w| > 0
    ensures n < |w| && Gc(w, rep) == w[n..]
    ensures forall i :: 0 <= i < n ==> w[i].xid < rep
    ensures w[n].xid < rep ==> n == |w| - 1
  {
    if |w| > 1 && w[0].xid < rep {
      var m := GcSuffix(w[1..], rep);
      n := m + 1;
      assert w[1..][m..] == w[n..];
      forall i | 0 <= i < n ensures w[i].xid < rep {
        if i > 0 { assert w[1..][i - 1] == w[i]; }
      }
    } else {
      n := 0;
    }
  }

  /** An entry survives exactly when it is not below `rep` or is the newest one. */
  lemma GcKeepsExactly(w: seq<Reply>, rep: nat, e: Reply)
    requires |w| > 0 && Sorted(w)
    ensures e in Gc(w, rep) <==> e in w && (rep <= e.xid || e == w[|w| - 1])
  {
    var n := GcSuffix(w, rep);
    if e in w[n..] {
      var i :| 0 <= i < |w[n..]| && w[n..][i] == e;
      assert w[n + i] == e;
    }
    if e in w && (rep <= e.xid || e == w[|w| - 1]) {
      var i :| 0 <= i < |w| && w[i] == e;
      assert n <= i;
      assert w[n..][i - n] == e;
    }
  }

  lemma GcCovers(w: seq<Reply>, rep: nat, x: nat)
    requires |w| > 0 && Sorted(w)
    ensures Sorted(Gc(w, rep)) && |Gc(w, rep)| > 0 && w[0].xid <= Gc(w, rep)[0].xid
    ensures Covered(w, x) ==> Covered(Gc(w, rep), x)
    ensures HasEntry(Gc(w, rep), x) ==> HasEntry(w, x)
  {
    var n := GcSuffix(w, rep);
    var g := Gc(w, rep);
    if HasEntry(w, x) {
      var i :| 0 <= i < |w| && w[i].xid == x;
      if n <= i { assert g[i - n].xid == x; }
    }
    if HasEntry(g, x) {
      var i :| 0 <= i < |g| && g[i].xid == x;
      assert w[n + i].xid == x;
    }
  }

  // ---- classification ----

  /** The verdict, without the search: NEW is "not covered", FORGOTTEN is "below the front",
      and the other two tell whether the entry has a recorded reply. */
  lemma VerdictMeaning(w: seq<Reply>, xid: nat, rep: nat)
    requires Sorted(w)
    ensures Check(w, xid, rep).0.New? <==> !Covered(w, xid)
    ensures Check(w, xid, rep).0.Forgotten? <==> Forgets(w, xid)
    ensures Check(w, xid, rep).0.InProgress? <==> InFlight(xid) in w
    ensures forall buf :: Check(w, xid, rep).0 == Done(buf) <==> Recorded(xid, buf) in w
  {
    var k := Locate(w, xid);
    forall e | e in w && e.xid == xid ensures k < |w| && w[k] == e {
      var i :| 0 <= i < |w| && w[i] == e;
      assert k <= i;
      assert w[k].xid == xid;
    }
    if HasEntry(w, xid) {
      var i :| 0 <= i < |w| && w[i].xid == xid;
      assert w[i] in w;
    }
  }

  lemma InsertedSorted(w: seq<Reply>, xid: nat)
    requires Sorted(w) && !HasEntry(w, xid)
    ensures Sorted(Inserted(w, xid))
  {
    var k, r := Locate(w, xid), Inserted(w, xid);
    assert k < |w| ==> w[k].xid != xid;
    forall i, j | 0 <= i < j < |r| ensures r[i].xid < r[j].xid {
      if i == k { assert w[k].xid <= w[j - 1].xid; }
    }
  }

  lemma InsertedCovers(w: seq<Reply>, xid: nat, x: nat)
    requires Sorted(w) && !HasEntry(w, xid) && (|w| > 0 ==> w[0].xid <= xid)
    ensures Sorted(Inserted(w, xid))
    ensures |w| > 0 ==> Inserted(w, xid)[0] == w[0]
    ensures HasEntry(Inserted(w, xid), x) <==> HasEntry(w, x) || x == xid
  {
    var k, r := Locate(w, xid), Inserted(w, xid);
    InsertedSorted(w, xid);
    assert |w| > 0 ==> w[0].xid != xid;
    if HasEntry(r, x) && x != xid {
      var j :| 0 <= j < |r| && r[j].xid == x;
      if j < k { assert w[j].xid == x; } else { assert w[j - 1].xid == x; }
    }
    if HasEntry(w, x) {
      var i :| 0 <= i < |w| && w[i].xid == x;
      if i < k { assert r[i].xid == x; } else { assert r[i + 1].xid == x; }
    }
    if x == xid { assert r[k].xid == x; }
  }

  /** One check keeps the window sorted and non-empty, never lowers its front, covers the checked
      number from then on, and never uncovers another. */
  lemma CheckCovers(w: seq<Reply>, xid: nat, rep: nat, x: nat)
    requires Sorted(w)
    ensures var w' := Check(w, xid, rep).1;
            && Sorted(w') && |w'| > 0
            && (|w| > 0 ==> w[0].xid <= w'[0].xid)
            && Covered(w', xid)
            && (Covered(w, x) ==> Covered(w', x))
            && (HasEntry(w', x) ==> HasEntry(w, x) || x == xid)
  {
    VerdictMeaning(w, xid, rep);
    var v := Check(w, xid, rep).0;
    if |w| == 0 {
      assert [InFlight(xid)][0].xid == xid;
    } else if v.New? {
      InsertedCovers(w, xid, x);
      InsertedCovers(w, xid, xid);
      GcCovers(Inserted(w, xid), rep, x);
      GcCovers(Inserted(w, xid), rep, xid);
    } else {
      GcCovers(w, rep, x);
      GcCovers(w, rep, xid);
      if !v.Forgotten? {
        var e :| e in w && e.xid == xid;
        var i :| 0 <= i < |w| && w[i] == e;
      }
    }
  }

  /** If the acknowledged number itself is remembered (or lies below the front), collection cannot
      move the front past it: the comparison that drops entries is strict. */
  lemma CheckFront(w: seq<Reply>, xid: nat, rep: nat)
    requires |w| > 0 && Sorted(w) && (w[0].xid < rep ==> HasEntry(w, rep))
    ensures var w' := Check(w, xid, rep).1;
            |w'| > 0 && (w'[0].xid <= w[0].xid || w'[0].xid <= rep)
  {
    VerdictMeaning(w, xid, rep);
    var w1 := w;
    if Check(w, xid, rep).0.New? {
      InsertedCovers(w, xid, rep);
      w1 := Inserted(w, xid);
    }
    var n := GcSuffix(w1, rep);
    if w[0].xid < rep {
      var i :| 0 <= i < |w1| && w1[i].xid == rep;
      assert n <= i;
    }
  }

  /** The window as a check leaves it to the collection: with an entry for `xid` if that is new. */
  ghost predicate HasEntryAfter(w: seq<Reply>, xid: nat, y: nat) {
    HasEntry(w, y) || (y == xid && !Forgets(w, xid))
  }

  /** A check of `xid` acknowledging `rep` moves past `x`: nothing between `rep` and `x` is there to
      stop the collection, and something above `x` is there to become the front. */
  ghost predicate MovesPast(w: seq<Reply>, xid: nat, rep: nat, x: nat) {
    && (forall y :: rep <= y <= x ==> !HasEntryAfter(w, xid, y))
    && (exists y :: x < y && HasEntryAfter(w, xid, y))
  }

  lemma GcForgetsExactly(w: seq<Reply>, rep: nat, x: nat)
    requires |w| > 0 && Sorted(w) && rep <= x
    ensures Forgets(Gc(w, rep), x) <==>
            (forall y :: rep <= y <= x ==> !HasEntry(w, y)) && (exists y :: x < y && HasEntry(w, y))
  {
    var n := GcSuffix(w, rep);
    assert Gc(w, rep)[0] == w[n];
    if x < w[n].xid {
      assert HasEntry(w, w[n].xid);
      forall y | rep <= y <= x ensures !HasEntry(w, y) {
        forall i | 0 <= i < |w| ensures w[i].xid != y {
          if i > n { assert w[n].xid < w[i].xid; }
        }
      }
    } else {
      if rep <= w[n].xid {
        assert HasEntry(w, w[n].xid);
      } else {
        assert forall i :: 0 <= i < |w| ==> w[i].xid <= x;
      }
    }
  }

  /** So collecting at `rep` leaves every number above `rep` admissible exactly when nothing is
      dropped, or the entry `rep` itself or the next one is there to stop the collection, or
      everything is below `rep + 1`. */
  lemma GcAdmitsExactly(w: seq<Reply>, rep: nat)
    requires |w| > 0 && Sorted(w)
    ensures (forall x :: rep < x && Forgets(Gc(w, rep), x) ==> Forgets(w, x))
            <==> rep <= w[0].xid || w[|w| - 1].xid <= rep || HasEntry(w, rep) || HasEntry(w, rep + 1)
  {
    forall x | rep <= x
      ensures Forgets(Gc(w, rep), x) <==>
              (forall y :: rep <= y <= x ==> !HasEntry(w, y)) && (exists y :: x < y && HasEntry(w, y)) {
      GcForgetsExactly(w, rep, x);
    }
    assert HasEntry(w, w[|w| - 1].xid) && HasEntry(w, w[0].xid);
    assert forall y: nat :: HasEntry(w, y) ==> w[0].xid <= y <= w[|w| - 1].xid;
    assert Forgets(Gc(w, rep), rep + 1) <==>
           !HasEntry(w, rep) && !HasEntry(w, rep + 1) && w[|w| - 1].xid > rep + 1;
  }

  /** Exactly when a check makes the server refuse a number it is not told has been acknowledged. */
  lemma CheckForgetsExactly(w: seq<Reply>, xid: nat, rep: nat, x: nat)
    requires Sorted(w) && rep <= x
    ensures Forgets(Check(w, xid, rep).1, x) <==> MovesPast(w, xid, rep, x)
  {
    VerdictMeaning(w, xid, rep);
    var w1 := w;
    if |w| == 0 {
      w1 := [InFlight(xid)];
      assert w1[0].xid == xid;
      assert forall y :: HasEntry(w1, y) <==> y == xid;
      assert Gc(w1, rep) == w1;
    } else if Check(w, xid, rep).0.New? {
      w1 := Inserted(w, xid);
      forall y ensures HasEntry(w1, y) <==> HasEntry(w, y) || y == xid { InsertedCovers(w, xid, y); }
      InsertedCovers(w, xid, xid);
    }
    assert forall y :: HasEntry(w1, y) <==> HasEntryAfter(w, xid, y);
    GcForgetsExactly(w1, rep, x);
  }

  /** A request that carries an acknowledgement below its own number: the entry for it is still in
      the window after the collection done by the same check. */
  lemma CheckKeepsOwnEntry(w: seq<Reply>, xid: nat, rep: nat)
    requires Sorted(w) && rep <= xid && !Check(w, xid, rep).0.Forgotten?
    ensures match Check(w, xid, rep).0
            case Done(buf) => Recorded(xid, buf) in Check(w, xid, rep).1
            case _ => InFlight(xid) in Check(w, xid, rep).1
  {
    VerdictMeaning(w, xid, rep);
    match Check(w, xid, rep).0 {
      case Done(buf) => GcKeepsExactly(w, rep, Recorded(xid, buf));
      case InProgress => GcKeepsExactly(w, rep, InFlight(xid));
      case New =>
        if |w| > 0 {
          InsertedCovers(w, xid, xid);
          assert Inserted(w, xid)[Locate(w, xid)] == InFlight(xid);
          GcKeepsExactly(Inserted(w, xid), rep, InFlight(xid));
        }
    }
  }

  /** A check invents no reply: every recorded entry afterwards was recorded before. */
  lemma CheckKeepsReplies(w: seq<Reply>, xid: nat, rep: nat, e: Reply)
    requires Sorted(w) && e in Check(w, xid, rep).1
    ensures e in w || e == InFlight(xid)
  {
    VerdictMeaning(w, xid, rep);
    if |w| > 0 && Check(w, xid, rep).0.New? {
      InsertedCovers(w, xid, xid);
      GcKeepsExactly(Inserted(w, xid), rep, e);
    } else if |w| > 0 {
      GcKeepsExactly(w, rep, e);
    }
  }

  lemma RecordKeeps(w: seq<Reply>, xid: nat, buf: Payload, x: nat)
    requires Sorted(w)
    ensures var w' := Record(w, xid, buf);
            && Sorted(w') && (|w| > 0 ==> w'[0].xid == w[0].xid)
            && (HasEntry(w', x) <==> HasEntry(w, x))
            && (Covered(w', x) <==> Covered(w, x))
            && (forall e :: e in w' ==> e in w || e == Recorded(xid, buf))
  {
    var w' := Record(w, xid, buf);
    forall i | 0 <= i < |w| ensures w'[i].xid == w[i].xid { }
    if HasEntry(w, x) {
      var i :| 0 <= i < |w| && w[i].xid == x;
      assert w'[i].xid == x;
    }
    if HasEntry(w', x) {
      var i :| 0 <= i < |w'| && w'[i].xid == x;
      assert w[i].xid == x;
    }
  }

  /** Recording a reply completes the entry of that number and leaves the others alone. */
  lemma RecordCompletes(w: seq<Reply>, xid: nat, buf: Payload, e: Reply)
    ensures HasEntry(w, xid) ==> Recorded(xid, buf) in Record(w, xid, buf)
    ensures e.xid != xid ==> (e in Record(w, xid, buf) <==> e in w)
  {
    var w' := Record(w, xid, buf);
    if HasEntry(w, xid) {
      var i :| 0 <= i < |w| && w[i].xid == xid;
      assert w'[i] == Recorded(xid, buf);
    }
    if e in w && e.xid != xid {
      var i :| 0 <= i < |w| && w[i] == e;
      assert w'[i] == e;
    }
  }

  /** Everything the protocol needs to know about a check of `xid`, without the check itself. */
  ghost predicate Checked(w: seq<Reply>, xid: nat, v: Verdict, w': seq<Reply>) {
    && Sorted(w') && |w'| > 0 && Covered(w', xid)
    && (forall y :: Covered(w, y) ==> Covered(w', y))
    && (forall y :: Forgets(w, y) ==> Forgets(w', y))
    && (forall y :: HasEntry(w', y) ==> HasEntry(w, y) || (v.New? && y == xid))
    && (forall y, buf :: Recorded(y, buf) in w' ==> Recorded(y, buf) in w)
    && (v.New? <==> !Covered(w, xid))
    && (v.Forgotten? <==> Forgets(w, xid))
    && (v.Done? ==> Recorded(xid, v.buf) in w)
  }

  lemma CheckIsChecked(w: seq<Reply>, xid: nat, rep: nat)
    requires Sorted(w)
    ensures Checked(w, xid, Check(w, xid, rep).0, Check(w, xid, rep).1)
  {
    var (v, w') := Check(w, xid, rep);
    CheckCovers(w, xid, rep, xid);
    VerdictMeaning(w, xid, rep);
    forall y ensures Covered(w, y) ==> Covered(w', y)
             ensures Forgets(w, y) ==> Forgets(w', y)
             ensures HasEntry(w', y) ==> HasEntry(w, y) || (v.New? && y == xid) {
      CheckCovers(w, xid, rep, y);
    }
    forall y, buf | Recorded(y, buf) in w' ensures Recorded(y, buf) in w {
      CheckKeepsReplies(w, xid, rep, Recorded(y, buf));
    }
  }
}
