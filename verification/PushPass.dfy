/** The push phase of the load balancer: each KV server hands subtrees from the end of its list to the
    next server, splitting directories that do not fit, while its score is above the target. */
module PushPass {
  import opened Bytes
  import opened Tree
  import Paths = PrefixTree

  /** A KV server with its adjustment context.  `nodes` is its list of subtrees, in tree order. */
  datatype Kv = Kv(id: int, sumMemory: nat, nodes: seq<Node>, memory: int, score: int, overweighed: nat)

  datatype Move = Move(ino: nat, src: int, dst: int)

  function Score(memory: int, all: nat): int
    requires all > 0
  {
    100 * memory / all
  }

  /** A score is the percentage used, rounded down, so a bound on it is a bound on the memory. */
  lemma ScoreAtMost(memory: int, all: nat, target: int)
    requires all > 0
    ensures all * Score(memory, all) <= 100 * memory < all * (Score(memory, all) + 1)
    ensures Score(memory, all) <= target <==> 100 * memory < (target + 1) * all
  {
    var score := Score(memory, all);
    assert 100 * memory == all * score + 100 * memory % all;
    if score <= target {
      MulMonotone(all, score + 1, target + 1);
    } else {
      MulMonotone(all, target + 1, score);
    }
  }

  lemma MulMonotone(a: nat, x: int, y: int)
    requires x <= y
    ensures a * x <= a * y
  {
  }

  /** `doMove`: one move per file below the node. */
  function DoMove(n: Node, src: int, dst: int): seq<Move>
    decreases n, 1
  {
    match n
    case File(_, ino, _, _) => [Move(ino, src, dst)]
    case Dir(_, _, _, _, kids) => DoMoveAll(kids, src, dst)
  }

  function DoMoveAll(nodes: seq<Node>, src: int, dst: int): seq<Move>
    decreases nodes, 0
  {
    if nodes == [] then [] else DoMove(nodes[0], src, dst) + DoMoveAll(nodes[1..], src, dst)
  }

  /** One move for each of some files. */
  function MovesOf(files: seq<FileRef>, src: int, dst: int): (r: seq<Move>)
    ensures |r| == |files|
  {
    seq(|files|, i requires 0 <= i < |files| => Move(files[i].ino, src, dst))
  }

  lemma MovesOfConcat(a: seq<FileRef>, b: seq<FileRef>, src: int, dst: int)
    ensures MovesOf(a + b, src, dst) == MovesOf(a, src, dst) + MovesOf(b, src, dst)
  {
  }

  lemma {:induction false} DoMoveIsPerFile(n: Node, src: int, dst: int)
    ensures DoMove(n, src, dst) == MovesOf(Files(n), src, dst)
    decreases n, 1
  {
    if n.Dir? { DoMoveAllIsPerFile(n.kids, src, dst); }
  }

  lemma {:induction false} DoMoveAllIsPerFile(nodes: seq<Node>, src: int, dst: int)
    ensures DoMoveAll(nodes, src, dst) == MovesOf(AllFiles(nodes), src, dst)
    decreases nodes, 0
  {
    if nodes != [] {
      DoMoveIsPerFile(nodes[0], src, dst);
      DoMoveAllIsPerFile(nodes[1..], src, dst);
      MovesOfConcat(Files(nodes[0]), AllFiles(nodes[1..]), src, dst);
    }
  }

  // ---- splitting a directory ----

  function Tag(nodes: seq<Node>, domain: int): (r: seq<Node>)
    ensures |r| == |nodes|
    ensures forall i :: 0 <= i < |nodes| ==> r[i] == nodes[i].(domain := domain)
  {
    if nodes == [] then [] else [nodes[0].(domain := domain)] + Tag(nodes[1..], domain)
  }

  /** The children a split directory leaves in the list, with its owner tag pushed down to them. */
  function SplitKids(n: Node): seq<Node>
    requires n.Dir?
  {
    if n.domain == -1 then n.kids else Tag(n.kids, n.domain)
  }

  lemma TagOne(n: Node, domain: int)
    ensures Files(n.(domain := domain)) == Files(n) && Count(n.(domain := domain)) == Count(n)
    ensures SizesOk(n.(domain := domain)) == SizesOk(n)
  {
  }

  lemma {:induction false} TagKeeps(nodes: seq<Node>, domain: int)
    ensures AllFiles(Tag(nodes, domain)) == AllFiles(nodes)
    ensures SumSizes(Tag(nodes, domain)) == SumSizes(nodes)
    ensures CountAll(Tag(nodes, domain)) == CountAll(nodes)
    ensures AllSizesOk(nodes) ==> AllSizesOk(Tag(nodes, domain))
  {
    forall i | 0 <= i < |nodes| ensures SizesOk(Tag(nodes, domain)[i]) == SizesOk(nodes[i]) {
      TagOne(nodes[i], domain);
    }
    if nodes != [] {
      TagKeeps(nodes[1..], domain);
      TagOne(nodes[0], domain);
      assert Tag(nodes, domain)[1..] == Tag(nodes[1..], domain);
    }
  }

  lemma SplitKidsKeep(n: Node)
    requires n.Dir?
    ensures AllFiles(SplitKids(n)) == Files(n) && CountAll(SplitKids(n)) == Count(n) - 1
    ensures SizesOk(n) ==> SumSizes(SplitKids(n)) == n.size && AllSizesOk(SplitKids(n))
    ensures n.domain != -1 ==> forall i :: 0 <= i < |SplitKids(n)| ==> SplitKids(n)[i].domain == n.domain
  {
    TagKeeps(n.kids, n.domain);
  }

  /** `splitFileNode` on a directory: the last subtree goes and the children of `n` come instead. */
  function SplitFileNode(nodes: seq<Node>, n: Node): seq<Node>
    requires nodes != [] && n.Dir?
  {
    nodes[..|nodes| - 1] + SplitKids(n)
  }

  /** It conserves files exactly if the directory has the files of the last subtree.  The push phase
      splits the last subtree itself; the pull phase splits the first one. */
  lemma SplitConservesExactly(nodes: seq<Node>, n: Node)
    requires nodes != [] && n.Dir?
    ensures multiset(AllFiles(SplitFileNode(nodes, n))) == multiset(AllFiles(nodes)) <==>
            multiset(Files(n)) == multiset(Files(nodes[|nodes| - 1]))
  {
    var k := |nodes| - 1;
    SplitEnd(nodes);
    SplitKidsKeep(n);
    AllFilesConcat(nodes[..k], SplitKids(n));
    Cancel(multiset(AllFiles(nodes[..k])), multiset(Files(n)), multiset(Files(nodes[k])));
  }

  lemma Cancel(a: multiset<FileRef>, b: multiset<FileRef>, c: multiset<FileRef>)
    ensures a + b == a + c <==> b == c
  {
    if a + b == a + c {
      forall f ensures b[f] == c[f] { assert (a + b)[f] == (a + c)[f]; }
    }
  }

  // ---- the loop ----

  /** The last subtree of `from` goes to the front of `to`. */
  function MoveLast(from: Kv, to: Kv): (Kv, Kv)
    requires from.nodes != [] && from.sumMemory > 0 && to.sumMemory > 0
  {
    var n := |from.nodes| - 1;
    var last := from.nodes[n];
    (from.(nodes := from.nodes[..n], memory := from.memory - last.size,
           score := Score(from.memory - last.size, from.sumMemory)),
     to.(nodes := [last.(domain := to.id)] + to.nodes, memory := to.memory + last.size,
         score := Score(to.memory + last.size, to.sumMemory)))
  }

  /** The last subtree of `from`, a directory, is replaced by its children. */
  function SplitLast(from: Kv): Kv
    requires from.nodes != [] && from.nodes[|from.nodes| - 1].Dir?
  {
    from.(nodes := SplitFileNode(from.nodes, from.nodes[|from.nodes| - 1]))
  }

  /** The last subtree fits into `to` under the target. */
  predicate Fits(from: Kv, to: Kv, target: int)
    requires from.nodes != [] && to.sumMemory > 0
  {
    Score(from.nodes[|from.nodes| - 1].size + to.memory, to.sumMemory) <= target
  }

  lemma CountLast(nodes: seq<Node>)
    requires nodes != []
    ensures CountAll(nodes) == CountAll(nodes[..|nodes| - 1]) + Count(nodes[|nodes| - 1])
  {
    var n := |nodes| - 1;
    CountAllConcat(nodes[..n], [nodes[n]]);
    assert nodes == nodes[..n] + [nodes[n]];
    assert [nodes[n]][1..] == [];
  }

  lemma LoopShrinks(from: Kv)
    requires from.nodes != []
    ensures CountAll(from.nodes[..|from.nodes| - 1]) < CountAll(from.nodes)
    ensures from.nodes[|from.nodes| - 1].Dir? ==> CountAll(SplitLast(from).nodes) < CountAll(from.nodes)
  {
    var n := |from.nodes| - 1;
    CountLast(from.nodes);
    if from.nodes[n].Dir? {
      SplitKidsKeep(from.nodes[n]);
      CountAllConcat(from.nodes[..n], SplitKids(from.nodes[n]));
    }
  }

  /** The push loop from one server to the next; the measure is the number of nodes left to push. */
  function Push(from: Kv, to: Kv, moves: seq<Move>, target: int): (r: (Kv, Kv, seq<Move>))
    requires from.sumMemory > 0 && to.sumMemory > 0
    ensures r.0.id == from.id && r.0.sumMemory == from.sumMemory && r.0.overweighed == from.overweighed
    ensures r.1.id == to.id && r.1.sumMemory == to.sumMemory
    decreases CountAll(from.nodes)
  {
    if from.nodes == [] || from.score <= target then (from, to, moves) else
      var last := from.nodes[|from.nodes| - 1];
      LoopShrinks(from);
      if Fits(from, to, target) then
        var (from', to') := MoveLast(from, to);
        Push(from', to', moves + DoMove(last, from.id, to.id), target)
      else if last.File? then (from, to.(overweighed := to.overweighed + 1), moves)
      else Push(SplitLast(from), to, moves, target)
  }

  // ---- what it keeps ----

  /** The context is right: memory is the sum of the list's sizes, the score is that of the memory,
      and every subtree in the list is tagged with its owner. */
  ghost predicate KvOk(kv: Kv) {
    && kv.sumMemory > 0 && kv.id != -1
    && AllSizesOk(kv.nodes)
    && kv.memory == SumSizes(kv.nodes)
    && kv.score == Score(kv.memory, kv.sumMemory)
    && (forall i :: 0 <= i < |kv.nodes| ==> kv.nodes[i].domain == kv.id)
  }

  /** `calculateSum` of a server's list. */
  method CalculateSum(nodes: seq<Node>) returns (sum: nat)
    ensures sum == SumSizes(nodes)
  {
    sum := 0;
    for i := 0 to |nodes|
      invariant sum == SumSizes(nodes[..i])
    {
      SplitEnd(nodes[..i + 1]);
      assert nodes[..i + 1][..i] == nodes[..i];
      sum := sum + nodes[i].size;
    }
    assert nodes[..|nodes|] == nodes;
  }

  lemma OneNode(n: Node)
    ensures SumSizes([n]) == n.size && AllFiles([n]) == Files(n)
  {
    assert [n][1..] == [];
    assert AllFiles([n]) == Files(n) + [];
  }

  lemma AppendOne(init: seq<Node>, last: Node)
    ensures SumSizes(init + [last]) == SumSizes(init) + last.size
    ensures AllFiles(init + [last]) == AllFiles(init) + Files(last)
  {
    OneNode(last);
    SumSizesConcat(init, [last]);
    AllFilesConcat(init, [last]);
  }

  lemma SplitEnd(nodes: seq<Node>)
    requires nodes != []
    ensures SumSizes(nodes) == SumSizes(nodes[..|nodes| - 1]) + nodes[|nodes| - 1].size
    ensures AllFiles(nodes) == AllFiles(nodes[..|nodes| - 1]) + Files(nodes[|nodes| - 1])
  {
    var init, last := nodes[..|nodes| - 1], nodes[|nodes| - 1];
    assert nodes == init + [last];
    AppendOne(init, last);
  }

  lemma MoveLastKeeps(from: Kv, to: Kv)
    requires KvOk(from) && KvOk(to) && from.nodes != []
    ensures KvOk(MoveLast(from, to).0) && KvOk(MoveLast(from, to).1)
  {
    var last := from.nodes[|from.nodes| - 1];
    SplitEnd(from.nodes);
    TagOne(last, to.id);
    assert ([last.(domain := to.id)] + to.nodes)[1..] == to.nodes;
  }

  lemma SplitLastKeeps(from: Kv)
    requires KvOk(from) && from.nodes != [] && from.nodes[|from.nodes| - 1].Dir?
    ensures KvOk(SplitLast(from))
  {
    var n := |from.nodes| - 1;
    SplitEnd(from.nodes);
    SplitKidsKeep(from.nodes[n]);
    SumSizesConcat(from.nodes[..n], SplitKids(from.nodes[n]));
  }

  /** Both contexts stay right: splitting a directory keeps the sum because its recorded size is that
      of its children. */
  lemma {:induction false} PushKeepsContexts(from: Kv, to: Kv, moves: seq<Move>, target: int)
    requires KvOk(from) && KvOk(to)
    ensures KvOk(Push(from, to, moves, target).0) && KvOk(Push(from, to, moves, target).1)
    decreases CountAll(from.nodes)
  {
    if from.nodes != [] && from.score > target {
      var last := from.nodes[|from.nodes| - 1];
      LoopShrinks(from);
      if Fits(from, to, target) {
        var (from', to') := MoveLast(from, to);
        MoveLastKeeps(from, to);
        PushKeepsContexts(from', to', moves + DoMove(last, from.id, to.id), target);
      } else if last.Dir? {
        SplitLastKeeps(from);
        PushKeepsContexts(SplitLast(from), to, moves, target);
      }
    }
  }

  lemma MoveLastFiles(from: Kv, to: Kv)
    requires from.nodes != [] && from.sumMemory > 0 && to.sumMemory > 0
    ensures var (from', to') := MoveLast(from, to); var last := from.nodes[|from.nodes| - 1];
            && AllFiles(from.nodes) == AllFiles(from'.nodes) + Files(last)
            && AllFiles(to'.nodes) == Files(last) + AllFiles(to.nodes)
  {
    var last := from.nodes[|from.nodes| - 1];
    SplitEnd(from.nodes);
    TagOne(last, to.id);
    assert ([last.(domain := to.id)] + to.nodes)[1..] == to.nodes;
  }

  lemma SplitLastFiles(from: Kv)
    requires from.nodes != [] && from.nodes[|from.nodes| - 1].Dir?
    ensures AllFiles(SplitLast(from).nodes) == AllFiles(from.nodes)
  {
    var n := |from.nodes| - 1;
    SplitEnd(from.nodes);
    SplitKidsKeep(from.nodes[n]);
    AllFilesConcat(from.nodes[..n], SplitKids(from.nodes[n]));
  }

  /** `moves'` records, besides `moves`, one move for each of `crossed`. */
  ghost predicate Recorded(moves': seq<Move>, moves: seq<Move>, crossed: seq<FileRef>, src: int, dst: int) {
    multiset(moves') == multiset(moves) + multiset(MovesOf(crossed, src, dst))
  }

  lemma RecordMore(moves': seq<Move>, moves: seq<Move>, more: seq<FileRef>, last: seq<FileRef>, src: int, dst: int)
    requires Recorded(moves', moves + MovesOf(last, src, dst), more, src, dst)
    ensures Recorded(moves', moves, more + last, src, dst)
  {
    MovesOfConcat(more, last, src, dst);
  }

  /** The files of the two servers keep their order and only the boundary between them moves; there
      is exactly one move for each file that crossed it. */
  lemma {:induction false} PushConserves(from: Kv, to: Kv, moves: seq<Move>, target: int) returns (crossed: seq<FileRef>)
    requires from.sumMemory > 0 && to.sumMemory > 0
    ensures AllFiles(from.nodes) == AllFiles(Push(from, to, moves, target).0.nodes) + crossed
    ensures AllFiles(Push(from, to, moves, target).1.nodes) == crossed + AllFiles(to.nodes)
    ensures Recorded(Push(from, to, moves, target).2, moves, crossed, from.id, to.id)
    decreases CountAll(from.nodes)
  {
    crossed := [];
    if from.nodes != [] && from.score > target {
      var last := from.nodes[|from.nodes| - 1];
      LoopShrinks(from);
      if Fits(from, to, target) {
        var (from', to') := MoveLast(from, to);
        MoveLastFiles(from, to);
        DoMoveIsPerFile(last, from.id, to.id);
        var more := PushConserves(from', to', moves + DoMove(last, from.id, to.id), target);
        crossed := more + Files(last);
        Assoc(AllFiles(Push(from, to, moves, target).0.nodes), more, Files(last));
        Assoc(more, Files(last), AllFiles(to.nodes));
        RecordMore(Push(from, to, moves, target).2, moves, more, Files(last), from.id, to.id);
      } else if last.Dir? {
        SplitLastFiles(from);
        crossed := PushConserves(SplitLast(from), to, moves, target);
      }
    }
  }

  /** The receiver has taken nothing, or is within the target. */
  ghost predicate Received(to: Kv, to': Kv, target: int) {
    (to'.nodes == to.nodes && to'.memory == to.memory && to'.score == to.score) || to'.score <= target
  }

  /** The sender is stuck: what it would have to push next is a file that does not fit. */
  ghost predicate Stuck(from: Kv, to: Kv, target: int)
    requires to.sumMemory > 0
  {
    from.score > target && from.nodes != [] && from.nodes[|from.nodes| - 1].File? && !Fits(from, to, target)
  }

  /** The receiver is never pushed above the target; and the loop stops with the sender within the
      target, or with nothing left, or stuck at a file, which is then counted against the receiver. */
  lemma {:induction false} PushStops(from: Kv, to: Kv, moves: seq<Move>, target: int)
    requires from.sumMemory > 0 && to.sumMemory > 0
    ensures Received(to, Push(from, to, moves, target).1, target)
    ensures var (from', to', _) := Push(from, to, moves, target);
            if Stuck(from', to', target) then to'.overweighed == to.overweighed + 1
            else to'.overweighed == to.overweighed && (from'.score <= target || from'.nodes == [])
    decreases CountAll(from.nodes)
  {
    if from.nodes != [] && from.score > target {
      LoopShrinks(from);
      var last := from.nodes[|from.nodes| - 1];
      if Fits(from, to, target) {
        var (from', to') := MoveLast(from, to);
        assert to'.score <= target && to'.overweighed == to.overweighed;
        PushStops(from', to', moves + DoMove(last, from.id, to.id), target);
      } else if last.Dir? {
        PushStops(SplitLast(from), to, moves, target);
      } else {
        assert Push(from, to, moves, target) == (from, to.(overweighed := to.overweighed + 1), moves);
      }
    }
  }

  /** Using at most `target` percent, rounded down. */
  ghost predicate Within(memory: int, all: nat, target: int) {
    100 * memory < (target + 1) * all
  }

  lemma ScoreWithin(memory: int, all: nat, target: int)
    requires all > 0
    ensures Score(memory, all) <= target <==> Within(memory, all, target)
  {
    ScoreAtMost(memory, all, target);
  }

  /** The sender still uses more than the target and has something to push. */
  ghost predicate Unfinished(from: Kv, target: int) {
    !Within(from.memory, from.sumMemory, target) && from.nodes != []
  }

  /** The end of the list of `from` is a file that would take `to` above the target. */
  ghost predicate Blocked(from: Kv, to: Kv, target: int)
    requires from.nodes != []
  {
    var last := from.nodes[|from.nodes| - 1];
    last.File? && !Within(last.size + to.memory, to.sumMemory, target)
  }

  lemma StuckInMemory(from: Kv, to: Kv, target: int)
    requires KvOk(from) && KvOk(to)
    ensures from.score <= target <==> Within(from.memory, from.sumMemory, target)
    ensures Stuck(from, to, target) <==> Unfinished(from, target) && Blocked(from, to, target)
  {
    ScoreWithin(from.memory, from.sumMemory, target);
    if from.nodes != [] { ScoreWithin(from.nodes[|from.nodes| - 1].size + to.memory, to.sumMemory, target); }
  }

  /** How a push ends, in bytes: the receiver took nothing or is within the target; and the sender is
      within it, or has nothing left, or has a file at its end that would take the receiver above it,
      which is then counted against the receiver, and only then. */
  lemma PushStopsInMemory(from: Kv, to: Kv, moves: seq<Move>, target: int)
    requires KvOk(from) && KvOk(to)
    ensures var (from', to', _) := Push(from, to, moves, target);
            && ((to'.nodes == to.nodes && to'.memory == to.memory) || Within(to'.memory, to'.sumMemory, target))
            && (Unfinished(from', target) ==> Blocked(from', to', target))
            && to'.overweighed == to.overweighed + if Unfinished(from', target) then 1 else 0
  {
    var r := Push(from, to, moves, target);
    PushStops(from, to, moves, target);
    assert KvOk(r.0) && KvOk(r.1) by { PushKeepsContexts(from, to, moves, target); }
    ScoreWithin(r.1.memory, r.1.sumMemory, target);
    StuckInMemory(r.0, r.1, target);
  }

  // ---- the chain of servers ----

  datatype Chain = Chain(kvs: seq<Kv>, moves: seq<Move>)

  ghost predicate ChainOk(c: Chain) {
    forall i :: 0 <= i < |c.kvs| ==> KvOk(c.kvs[i])
  }

  /** The push phase of server `i`; the last server has nobody to push to. */
  function PushAt(c: Chain, i: nat, target: int): (r: Chain)
    requires i < |c.kvs| && forall j :: 0 <= j < |c.kvs| ==> c.kvs[j].sumMemory > 0
    ensures |r.kvs| == |c.kvs| && forall j :: 0 <= j < |c.kvs| ==> r.kvs[j].sumMemory > 0
  {
    if i + 1 == |c.kvs| then c else
      var (from, to, moves) := Push(c.kvs[i], c.kvs[i + 1], c.moves, target);
      Chain(c.kvs[i := from][i + 1 := to], moves)
  }

  /** The push phases of servers 0, 1, ..., n - 1. */
  function PushUpTo(c: Chain, n: nat, target: int): (r: Chain)
    requires n <= |c.kvs| && forall j :: 0 <= j < |c.kvs| ==> c.kvs[j].sumMemory > 0
    ensures |r.kvs| == |c.kvs| && forall j :: 0 <= j < |c.kvs| ==> r.kvs[j].sumMemory > 0
  {
    if n == 0 then c else PushAt(PushUpTo(c, n - 1, target), n - 1, target)
  }

  /** The files of the servers from `k` on, along the chain. */
  function FilesFrom(kvs: seq<Kv>, k: nat): seq<FileRef>
    requires k <= |kvs|
    decreases |kvs| - k
  {
    if k == |kvs| then [] else AllFiles(kvs[k].nodes) + FilesFrom(kvs, k + 1)
  }

  function ChainFiles(kvs: seq<Kv>): seq<FileRef> {
    FilesFrom(kvs, 0)
  }

  lemma {:induction false} SameFrom(a: seq<Kv>, b: seq<Kv>, k: nat)
    requires k <= |a| == |b| && forall i :: k <= i < |a| ==> a[i] == b[i]
    ensures FilesFrom(a, k) == FilesFrom(b, k)
    decreases |a| - k
  {
    if k < |a| { SameFrom(a, b, k + 1); }
  }

  /** Two neighbours that together hold the same files as before do not change what the chain holds
      from either or from before them on. */
  lemma {:induction false} FilesFromSwap(kvs: seq<Kv>, i: nat, from: Kv, to: Kv, k: nat)
    requires k <= i && i + 1 < |kvs|
    requires AllFiles(from.nodes) + AllFiles(to.nodes) == AllFiles(kvs[i].nodes) + AllFiles(kvs[i + 1].nodes)
    ensures FilesFrom(kvs[i := from][i + 1 := to], k) == FilesFrom(kvs, k)
    decreases i - k
  {
    var r := kvs[i := from][i + 1 := to];
    if k < i {
      FilesFromSwap(kvs, i, from, to, k + 1);
    } else {
      var rest := FilesFrom(kvs, i + 2);
      SameFrom(r, kvs, i + 2);
      Assoc(AllFiles(from.nodes), AllFiles(to.nodes), rest);
      Assoc(AllFiles(kvs[i].nodes), AllFiles(kvs[i + 1].nodes), rest);
      assert FilesFrom(r, i + 1) == AllFiles(to.nodes) + rest;
      assert FilesFrom(kvs, i + 1) == AllFiles(kvs[i + 1].nodes) + rest;
    }
  }

  /** Two neighbours together hold the same files in the same order after a push. */
  lemma NeighboursConserve(from: Kv, to: Kv, moves: seq<Move>, target: int)
    requires from.sumMemory > 0 && to.sumMemory > 0
    ensures var (from', to', _) := Push(from, to, moves, target);
            AllFiles(from'.nodes) + AllFiles(to'.nodes) == AllFiles(from.nodes) + AllFiles(to.nodes)
  {
    var crossed := PushConserves(from, to, moves, target);
    Assoc(AllFiles(Push(from, to, moves, target).0.nodes), crossed, AllFiles(to.nodes));
  }

  ghost predicate Positive(kvs: seq<Kv>) {
    forall i :: 0 <= i < |kvs| ==> kvs[i].sumMemory > 0
  }

  /** What the chain holds from each server on; the last entry is empty. */
  function Suffixes(kvs: seq<Kv>): (r: seq<seq<FileRef>>)
    ensures |r| == |kvs| + 1
  {
    seq(|kvs| + 1, k requires 0 <= k <= |kvs| => FilesFrom(kvs, k))
  }

  function Ids(kvs: seq<Kv>): (r: seq<int>)
    ensures |r| == |kvs|
  {
    seq(|kvs|, k requires 0 <= k < |kvs| => kvs[k].id)
  }

  /** What the chain holds from any server on is as it was, except after server `i`, where the files
      that crossed come in front; each of them is moved once. */
  ghost predicate Crosses(c: Chain, r: Chain, i: nat, crossed: seq<FileRef>)
    requires i + 1 < |c.kvs|
  {
    && Ids(r.kvs) == Ids(c.kvs)
    && Suffixes(r.kvs) == Suffixes(c.kvs)[i + 1 := crossed + Suffixes(c.kvs)[i + 1]]
    && Recorded(r.moves, c.moves, crossed, Ids(c.kvs)[i], Ids(c.kvs)[i + 1])
  }

  /** So does one push phase. */
  lemma PushAtFiles(c: Chain, i: nat, target: int) returns (crossed: seq<FileRef>)
    requires Positive(c.kvs) && i + 1 < |c.kvs|
    ensures Crosses(c, PushAt(c, i, target), i, crossed)
  {
    var from, to := c.kvs[i], c.kvs[i + 1];
    var p := Push(from, to, c.moves, target);
    var r := PushAt(c, i, target);
    crossed := PushConserves(from, to, c.moves, target);
    NeighboursConserve(from, to, c.moves, target);
    forall k | 0 <= k <= i ensures Suffixes(r.kvs)[k] == Suffixes(c.kvs)[k] {
      FilesFromSwap(c.kvs, i, p.0, p.1, k);
    }
    forall k | i + 2 <= k <= |c.kvs| ensures Suffixes(r.kvs)[k] == Suffixes(c.kvs)[k] {
      SameFrom(r.kvs, c.kvs, k);
    }
    assert FilesFrom(r.kvs, i + 1) == crossed + FilesFrom(c.kvs, i + 1) by {
      SameFrom(r.kvs, c.kvs, i + 2);
      Assoc(crossed, AllFiles(to.nodes), FilesFrom(c.kvs, i + 2));
    }
  }

  /** One push phase keeps every context right. */
  lemma PushAtKeeps(c: Chain, i: nat, target: int)
    requires ChainOk(c) && i < |c.kvs|
    ensures ChainOk(PushAt(c, i, target))
  {
    if i + 1 < |c.kvs| {
      assert KvOk(c.kvs[i]) && KvOk(c.kvs[i + 1]);
      PushKeepsContexts(c.kvs[i], c.kvs[i + 1], c.moves, target);
    }
  }

  // ---- the pass over all servers ----

  /** What the servers hold from each on after `crossings[k]` has crossed the boundary into server
      k + 1, for each k in turn. */
  ghost function Shift(files: seq<seq<FileRef>>, crossings: seq<seq<FileRef>>): (r: seq<seq<FileRef>>)
    requires |crossings| < |files|
    ensures |r| == |files|
  {
    if crossings == [] then files else
      var k := |crossings|;
      var mid := Shift(files, crossings[..k - 1]);
      mid[k := crossings[k - 1] + mid[k]]
  }

  /** One move over its boundary for each file of each crossing. */
  ghost function MovesOver(crossings: seq<seq<FileRef>>, ids: seq<int>): multiset<Move>
    requires |crossings| < |ids|
  {
    if crossings == [] then multiset{} else
      var k := |crossings|;
      MovesOver(crossings[..k - 1], ids) + multiset(MovesOf(crossings[k - 1], ids[k - 1], ids[k]))
  }

  /** Each crossing comes in front of what the servers from there on held; nothing else changes. */
  lemma {:induction false} ShiftAt(files: seq<seq<FileRef>>, crossings: seq<seq<FileRef>>, k: nat)
    requires |crossings| < |files| && k < |files|
    ensures Shift(files, crossings)[k] == if 1 <= k <= |crossings| then crossings[k - 1] + files[k] else files[k]
    decreases |crossings|
  {
    if crossings != [] { ShiftAt(files, crossings[..|crossings| - 1], k); }
  }

  lemma {:induction false} PassCrossings(c: Chain, n: nat, target: int) returns (crossings: seq<seq<FileRef>>)
    requires Positive(c.kvs) && n < |c.kvs|
    ensures |crossings| == n
    ensures var r := PushUpTo(c, n, target);
            && Ids(r.kvs) == Ids(c.kvs)
            && Suffixes(r.kvs) == Shift(Suffixes(c.kvs), crossings)
            && multiset(r.moves) == multiset(c.moves) + MovesOver(crossings, Ids(c.kvs))
  {
    crossings := [];
    if n > 0 {
      var before := PassCrossings(c, n - 1, target);
      var m := PushUpTo(c, n - 1, target);
      var crossed := PushAtFiles(m, n - 1, target);
      crossings := before + [crossed];
      assert crossings[..n - 1] == before;
    }
  }

  lemma {:induction false} PassKeepsContexts(c: Chain, n: nat, target: int)
    requires ChainOk(c) && n <= |c.kvs|
    ensures ChainOk(PushUpTo(c, n, target))
  {
    if n > 0 {
      PassKeepsContexts(c, n - 1, target);
      PushAtKeeps(PushUpTo(c, n - 1, target), n - 1, target);
    }
  }

  /** The push phases of a pass, for every chain of servers, with the files that cross each boundary: no
      file is lost, duplicated or reordered, boundaries are crossed to the right only, the moves
      recorded are exactly one for each file and boundary it crossed, and contexts stay right. */
  lemma PassConserves(c: Chain, n: nat, target: int) returns (crossings: seq<seq<FileRef>>)
    requires Positive(c.kvs) && n < |c.kvs|
    ensures |crossings| == n
    ensures var r := PushUpTo(c, n, target);
            && Ids(r.kvs) == Ids(c.kvs) && ChainFiles(r.kvs) == ChainFiles(c.kvs)
            && Suffixes(r.kvs) == Shift(Suffixes(c.kvs), crossings)
            && multiset(r.moves) == multiset(c.moves) + MovesOver(crossings, Ids(c.kvs))
            && (ChainOk(c) ==> ChainOk(r))
  {
    crossings := PassCrossings(c, n, target);
    assert ChainFiles(PushUpTo(c, n, target).kvs) == ChainFiles(c.kvs) by {
      ShiftAt(Suffixes(c.kvs), crossings, 0);
      assert Suffixes(PushUpTo(c, n, target).kvs)[0] == Suffixes(c.kvs)[0];
    }
    if ChainOk(c) { PassKeepsContexts(c, n, target); }
  }

  /** The last server has nobody to push to, so the whole pass is the phases of all the others. */
  lemma LastPhase(c: Chain, target: int)
    requires Positive(c.kvs) && c.kvs != []
    ensures PushUpTo(c, |c.kvs|, target) == PushUpTo(c, |c.kvs| - 1, target)
  {
  }

  // ---- the pass over a tree ----

  datatype Server = Server(id: int, sumMemory: nat)

  /** The adjustment context computed for a server and its list. */
  function ContextOf(server: Server, nodes: seq<Node>): Kv
    requires server.sumMemory > 0
  {
    var memory := SumSizes(nodes);
    Kv(server.id, server.sumMemory, nodes, memory, Score(memory, server.sumMemory), 0)
  }

  /** The contexts when the first server owns the whole tree and the others have joined since. */
  function ContextsOf(root: Node, servers: seq<Server>): (kvs: seq<Kv>)
    requires forall i :: 0 <= i < |servers| ==> servers[i].sumMemory > 0
    ensures |kvs| == |servers|
    ensures forall i :: 0 < i < |servers| ==> kvs[i] == ContextOf(servers[i], [])
    ensures servers != [] ==> kvs[0] == ContextOf(servers[0], [root.(domain := servers[0].id)])
  {
    seq(|servers|, i requires 0 <= i < |servers| =>
      ContextOf(servers[i], if i == 0 then [root.(domain := servers[0].id)] else []))
  }

  lemma {:induction false} EmptyServers(kvs: seq<Kv>, k: nat)
    requires k <= |kvs| && forall i :: k <= i < |kvs| ==> kvs[i].nodes == []
    ensures FilesFrom(kvs, k) == []
    decreases |kvs| - k
  {
    if k < |kvs| { EmptyServers(kvs, k + 1); }
  }

  /** The memory used by the servers from `k` on. */
  function MemoryFrom(kvs: seq<Kv>, k: nat): int
    requires k <= |kvs|
    decreases |kvs| - k
  {
    if k == |kvs| then 0 else kvs[k].memory + MemoryFrom(kvs, k + 1)
  }

  lemma {:induction false} MemoryIsFileTotal(kvs: seq<Kv>, k: nat)
    requires k <= |kvs| && forall i :: 0 <= i < |kvs| ==> KvOk(kvs[i])
    ensures MemoryFrom(kvs, k) == TotalOf(FilesFrom(kvs, k))
    decreases |kvs| - k
  {
    if k < |kvs| {
      MemoryIsFileTotal(kvs, k + 1);
      assert KvOk(kvs[k]);
      SumIsFileTotal(kvs[k].nodes);
      TotalOfConcat(AllFiles(kvs[k].nodes), FilesFrom(kvs, k + 1));
    }
  }

  /** The contexts of a tree are right exactly if its recorded sizes are. */
  lemma ContextsOk(root: Node, servers: seq<Server>, moves: seq<Move>)
    requires servers != []
    requires forall i :: 0 <= i < |servers| ==> servers[i].sumMemory > 0 && servers[i].id != -1
    ensures ChainOk(Chain(ContextsOf(root, servers), moves)) <==> SizesOk(root)
    ensures forall i :: 0 <= i < |servers| ==> ContextsOf(root, servers)[i].overweighed == 0
  {
    var kvs := ContextsOf(root, servers);
    TagOne(root, servers[0].id);
    assert kvs[0].nodes[1..] == [];
    assert KvOk(kvs[0]) <==> SizesOk(root) by { assert SizesOk(kvs[0].nodes[0]) == SizesOk(root); }
  }

  /** They hold the tree's files, all at the first server. */
  lemma ContextFiles(root: Node, servers: seq<Server>)
    requires servers != [] && forall i :: 0 <= i < |servers| ==> servers[i].sumMemory > 0
    ensures ChainFiles(ContextsOf(root, servers)) == Files(root)
    ensures forall k :: 1 <= k <= |servers| ==> Suffixes(ContextsOf(root, servers))[k] == []
  {
    var kvs := ContextsOf(root, servers);
    forall k | 1 <= k <= |servers| ensures Suffixes(kvs)[k] == [] { EmptyServers(kvs, k); }
    EmptyServers(kvs, 1);
    TagOne(root, servers[0].id);
    assert kvs[0].nodes[1..] == [];
    assert AllFiles(kvs[0].nodes) == Files(root) + [];
    assert FilesFrom(kvs, 0) == AllFiles(kvs[0].nodes) + FilesFrom(kvs, 1);
  }

  /** A whole pass from a chain where only the first server owns anything: what crossed a boundary is
      what is held beyond it. */
  lemma PassFromOwner(c: Chain, target: int)
    requires Positive(c.kvs) && c.kvs != [] && c.moves == []
    requires forall k :: 1 <= k <= |c.kvs| ==> Suffixes(c.kvs)[k] == []
    ensures var r := PushUpTo(c, |c.kvs|, target);
            && Ids(r.kvs) == Ids(c.kvs) && ChainFiles(r.kvs) == ChainFiles(c.kvs)
            && multiset(r.moves) == MovesOver(Suffixes(r.kvs)[1..|c.kvs|], Ids(c.kvs))
  {
    var n := |c.kvs| - 1;
    var crossings := PassConserves(c, n, target);
    LastPhase(c, target);
    var before, after := Suffixes(c.kvs), Suffixes(PushUpTo(c, n, target).kvs);
    assert crossings == after[1..n + 1] by { CrossingsAre(before, crossings); }
  }

  lemma CrossingsAre(files: seq<seq<FileRef>>, crossings: seq<seq<FileRef>>)
    requires |crossings| < |files| && forall k :: 1 <= k < |files| ==> files[k] == []
    ensures Shift(files, crossings)[1..|crossings| + 1] == crossings
  {
    forall k | 1 <= k <= |crossings| ensures Shift(files, crossings)[k] == crossings[k - 1] {
      ShiftAt(files, crossings, k);
    }
  }

  /** From a tree to the servers, for every tree: a whole pass of push phases keeps the tree's files in
      order, and records for each boundary between servers one move for each file that ends to its
      right. */
  lemma TreePassConserves(root: Node, servers: seq<Server>, target: int)
    requires servers != [] && forall i :: 0 <= i < |servers| ==> servers[i].sumMemory > 0
    ensures var before := ContextsOf(root, servers);
            var after := PushUpTo(Chain(before, []), |servers|, target);
            && Ids(after.kvs) == Ids(before) && ChainFiles(after.kvs) == Files(root)
            && multiset(after.moves) == MovesOver(Suffixes(after.kvs)[1..|servers|], Ids(before))
  {
    ContextFiles(root, servers);
    PassFromOwner(Chain(ContextsOf(root, servers), []), target);
  }

  /** If no operation created a directory with a size of its own, the contexts computed from the tree
      are right, are right again after the pass, and use exactly the tree's size in all. */
  lemma TreePassContexts(ops: seq<Paths.Op>, servers: seq<Server>, target: int)
    requires servers != [] && Paths.NoSizedDirectory(ops)
    requires forall i :: 0 <= i < |servers| ==> servers[i].sumMemory > 0 && servers[i].id != -1
    ensures var root := Paths.AfterOps(ops);
            var before := Chain(ContextsOf(root, servers), []);
            var after := PushUpTo(before, |servers|, target);
            ChainOk(before) && ChainOk(after) && MemoryFrom(after.kvs, 0) == root.size
  {
    var root := Paths.AfterOps(ops);
    var before := Chain(ContextsOf(root, servers), []);
    Paths.RunKeepsTree(ops);
    ContextsOk(root, servers, []);
    PassKeepsContexts(before, |servers|, target);
    TreePassConserves(root, servers, target);
    MemoryIsFileTotal(PushUpTo(before, |servers|, target).kvs, 0);
  }

  class Balancer {
    var contexts: seq<Kv>
    var opRes: seq<Move>

    ghost function State(): Chain
      reads this
    {
      Chain(contexts, opRes)
    }

    constructor (kvs: seq<Kv>)
      ensures contexts == kvs && opRes == []
    {
      contexts, opRes := kvs, [];
    }

    /** The push phase of `Adjust` for context `i`. */
    method PushPhase(i: nat, target: int)
      requires i < |contexts| && ChainOk(State())
      modifies this
      ensures State() == PushAt(old(State()), i, target) && ChainOk(State())
      ensures ChainFiles(contexts) == ChainFiles(old(contexts))
    {
      PushAtKeeps(State(), i, target);
      if i + 1 < |contexts| {
        ghost var crossed := PushAtFiles(State(), i, target);
        assert Suffixes(PushAt(State(), i, target).kvs)[0] == Suffixes(contexts)[0];
        assert KvOk(contexts[i]) && KvOk(contexts[i + 1]);
        var from, to, moves := PushLoop(contexts[i], contexts[i + 1], opRes, target);
        contexts := contexts[i := from][i + 1 := to];
        opRes := moves;
      }
    }
  }

  /** The loop of the push phase on the two contexts concerned. */
  method PushLoop(f: Kv, t: Kv, ops: seq<Move>, target: int) returns (from: Kv, to: Kv, moves: seq<Move>)
    requires f.sumMemory > 0 && t.sumMemory > 0
    ensures (from, to, moves) == Push(f, t, ops, target)
  {
    from, to, moves := f, t, ops;
    while |from.nodes| > 0 && from.score > target
      invariant from.sumMemory > 0 && to.sumMemory > 0
      invariant Push(from, to, moves, target) == Push(f, t, ops, target)
      decreases CountAll(from.nodes)
    {
      var last := from.nodes[|from.nodes| - 1];
      ghost var f0, t0, m0 := from, to, moves;
      LoopShrinks(from);
      if Score(last.size + to.memory, to.sumMemory) <= target {
        moves := moves + DoMove(last, from.id, to.id);
        to := to.(memory := to.memory + last.size);
        from := from.(memory := from.memory - last.size);
        to := to.(score := Score(to.memory, to.sumMemory));
        from := from.(score := Score(from.memory, from.sumMemory));
        from := from.(nodes := from.nodes[..|from.nodes| - 1]);
        to := to.(nodes := [last.(domain := to.id)] + to.nodes);
        assert (from, to) == MoveLast(f0, t0);
      } else if last.File? {
        to := to.(overweighed := to.overweighed + 1);
        break;
      } else {
        from := from.(nodes := SplitFileNode(from.nodes, last));
        assert from == SplitLast(f0);
      }
    }
  }
}
