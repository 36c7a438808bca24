/** The client's list of acknowledged call numbers (`xid_rep_window_` of the RPC client).

    The list is edited in place by one insertion loop and one compression loop.  Acknowledgements
    arrive in any order and any number of times, and repeated ones leave duplicates in the list.
 */
module AckWindow {

  /** The position before which the insertion loop puts `xid`: the first larger element, or the end. */
  function InsertAt(w: seq<nat>, xid: nat): (k: nat)
    ensures k <= |w|
    ensures forall i :: 0 <= i < k ==> w[i] <= xid
    ensures k < |w| ==> xid < w[k]
  {
    if |w| == 0 || xid < w[0] then 0 else 1 + InsertAt(w[1..], xid)
  }

  function Insert(w: seq<nat>, xid: nat): seq<nat> {
    var k := InsertAt(w, xid);
    w[..k] + [xid] + w[k..]
  }

  /** The inner loop of the compression: drop the front while its successor is under the iterator.
      The element under the iterator is never the one dropped. */
  function PopRun(w: seq<nat>, it: nat): (r: (seq<nat>, nat))
    requires it < |w|
    ensures r.1 < |r.0| <= |w| && |r.0| - r.1 == |w| - it
    ensures r.0[r.1..] == w[it..]
    ensures r.0[0] + 1 != r.0[r.1]
    decreases it
  {
    if w[0] + 1 == w[it] then PopRun(w[1..], it - 1) else (w, it)
  }

  function Compress(w: seq<nat>, it: nat): (r: seq<nat>)
    requires 0 < |w| && it <= |w|
    ensures |r| > 0
    decreases |w| - it
  {
    if it == |w| then w else
      var (w', it') := PopRun(w, it);
      Compress(w', it' + 1)
  }

  /** The whole of `update_xid_rep` on a window value. */
  function Update(w: seq<nat>, xid: nat): (r: seq<nat>)
    requires |w| > 0
    ensures |r| > 0
  {
    if xid <= w[0] then w else Compress(Insert(w, xid), 1)
  }

  ghost predicate Ascending(w: seq<nat>) {
    forall i, j :: 0 <= i < j < |w| ==> w[i] <= w[j]
  }

  /** What the window means: `w` stands for the set of acknowledged numbers.  The front is the end of
      the gap-free run 1, 2, ..., and the members above it are the acknowledged numbers above it. */
  ghost predicate Represents(w: seq<nat>, acked: set<nat>) {
    && |w| > 0
    && Ascending(w)
    && (forall k :: 1 <= k <= w[0] ==> k in acked)
    && w[0] + 1 !in acked
    && (forall x :: x in w <==> x == w[0] || (x in acked && w[0] < x))
  }

  /** `Represents` without its maximality clause, half way through a compression: no element before
      the iterator continues the run. */
  ghost predicate PartlyCompressed(w: seq<nat>, it: nat, acked: set<nat>) {
    && |w| > 0 && it <= |w|
    && Ascending(w)
    && (forall k :: 1 <= k <= w[0] ==> k in acked)
    && (forall x :: x in w <==> x == w[0] || (x in acked && w[0] < x))
    && (forall j :: 0 <= j < it ==> w[j] != w[0] + 1)
  }

  lemma InsertMembers(w: seq<nat>, xid: nat)
    requires |w| > 0 && Ascending(w) && w[0] < xid
    ensures Ascending(Insert(w, xid)) && Insert(w, xid)[0] == w[0] && |Insert(w, xid)| == |w| + 1
    ensures forall x :: x in Insert(w, xid) <==> x in w || x == xid
  {
    var k := InsertAt(w, xid);
    assert w == w[..k] + w[k..];
    assert Insert(w, xid)[k] == xid;
    forall x | x in w ensures x in Insert(w, xid) {
      if x in w[..k] { } else { assert x in w[k..]; }
    }
  }

  lemma PopOne(w: seq<nat>, it: nat, acked: set<nat>)
    requires PartlyCompressed(w, it, acked) && it < |w| && w[0] + 1 == w[it]
    ensures PartlyCompressed(w[1..], it - 1, acked)
  {
    assert w[it] in w;
    assert w[0] <= w[1] <= w[it];
    if w[1] != w[0] {
      assert w[1] == w[0] + 1;
      assert it == 1;
    }
    assert w == [w[0]] + w[1..];
    assert w[1] in w[1..];
    forall x ensures x in w[1..] <==> x == w[1] || (x in acked && w[1] < x) {
      if x in w[1..] {
        assert x in w;
        var i :| 0 <= i < |w[1..]| && w[1..][i] == x;
        assert w[1] <= w[i + 1] == x;
      }
    }
  }

  lemma {:induction false} PopRunKeeps(w: seq<nat>, it: nat, acked: set<nat>)
    requires PartlyCompressed(w, it, acked) && it < |w|
    ensures PartlyCompressed(PopRun(w, it).0, PopRun(w, it).1 + 1, acked)
    decreases it
  {
    if w[0] + 1 == w[it] {
      PopOne(w, it, acked);
      PopRunKeeps(w[1..], it - 1, acked);
    }
  }

  lemma {:induction false} CompressRepresents(w: seq<nat>, it: nat, acked: set<nat>)
    requires PartlyCompressed(w, it, acked)
    ensures Represents(Compress(w, it), acked)
    decreases |w| - it
  {
    if it < |w| {
      PopRunKeeps(w, it, acked);
      var (w', it') := PopRun(w, it);
      CompressRepresents(w', it' + 1, acked);
    } else {
      var next := w[0] + 1;
      assert next !in w;
    }
  }

  /** Acknowledging `xid` (again, late or out of order) turns a window for `acked` into one for
      `acked + {xid}`. */
  lemma UpdateRepresents(w: seq<nat>, acked: set<nat>, xid: nat)
    requires Represents(w, acked)
    ensures Represents(Update(w, xid), acked + {xid})
    ensures w[0] <= Update(w, xid)[0]
  {
    var acked' := acked + {xid};
    if xid <= w[0] {
      assert xid == 0 || xid in acked;
    } else {
      InsertMembers(w, xid);
      var w1 := Insert(w, xid);
      assert PartlyCompressed(w1, 1, acked') by {
        forall x ensures x in w1 <==> x == w1[0] || (x in acked' && w1[0] < x) { }
      }
      CompressRepresents(w1, 1, acked');
    }
    FrontIsLargest(Update(w, xid), acked', w[0]);
  }

  /** The front is the largest `n` with all of 1, ..., n acknowledged. */
  lemma FrontIsLargest(w: seq<nat>, acked: set<nat>, n: nat)
    requires Represents(w, acked)
    ensures n <= w[0] <==> forall k :: 1 <= k <= n ==> k in acked
  {
    var next := w[0] + 1;
    assert next !in acked;
  }

  /** The window after a whole history of acknowledgements, from the initial list [0]. */
  function AfterAcks(acks: seq<nat>): (w: seq<nat>)
    ensures |w| > 0
  {
    if acks == [] then [0] else
      var w := AfterAcks(acks[..|acks| - 1]);
      Update(w, acks[|acks| - 1])
  }

  function Elements(s: seq<nat>): set<nat> {
    set x | x in s
  }

  /** For any order and repetition of acknowledgements the window represents exactly their set. */
  lemma {:induction false} AcksRepresented(acks: seq<nat>)
    ensures Represents(AfterAcks(acks), Elements(acks))
  {
    if acks != [] {
      var init, last := acks[..|acks| - 1], acks[|acks| - 1];
      AcksRepresented(init);
      UpdateRepresents(AfterAcks(init), Elements(init), last);
      assert acks == init + [last];
      assert Elements(acks) == Elements(init) + {last};
      assert AfterAcks(acks) == Update(AfterAcks(init), last);
    } else {
      assert Elements(acks) == {};
      assert Represents([0], {});
    }
  }
}
