/** Nodes of the master's prefix tree. */
module Tree {
  import opened Bytes

  type Name = seq<Byte>

  /** `domain` is the id of the KV that owns the subtree, or -1.  A directory's children are ordered
      by name. */
  datatype Node =
    | File(name: Name, ino: nat, size: nat, domain: int)
    | Dir(name: Name, ino: nat, size: nat, domain: int, kids: seq<Node>)

  function SumSizes(nodes: seq<Node>): nat {
    if nodes == [] then 0 else nodes[0].size + SumSizes(nodes[1..])
  }

  lemma {:induction false} SumSizesConcat(a: seq<Node>, b: seq<Node>)
    ensures SumSizes(a + b) == SumSizes(a) + SumSizes(b)
  {
    if a == [] {
      assert a + b == b;
    } else {
      SumSizesConcat(a[1..], b);
      assert (a + b)[1..] == a[1..] + b;
    }
  }

  /** Every directory's recorded size is the sum of its children's. */
  ghost predicate SizesOk(n: Node) {
    n.Dir? ==> n.size == SumSizes(n.kids) && AllSizesOk(n.kids)
  }

  ghost predicate AllSizesOk(nodes: seq<Node>) {
    forall i :: 0 <= i < |nodes| ==> SizesOk(nodes[i])
  }

  /** A file, without the KV it is assigned to. */
  datatype FileRef = FileRef(name: Name, ino: nat, size: nat)

  /** The files below a node, in order. */
  function Files(n: Node): seq<FileRef>
    decreases n, 1
  {
    match n
    case File(name, ino, size, _) => [FileRef(name, ino, size)]
    case Dir(_, _, _, _, kids) => AllFiles(kids)
  }

  function AllFiles(nodes: seq<Node>): seq<FileRef>
    decreases nodes, 0
  {
    if nodes == [] then [] else Files(nodes[0]) + AllFiles(nodes[1..])
  }

  lemma {:induction false} AllFilesConcat(a: seq<Node>, b: seq<Node>)
    ensures AllFiles(a + b) == AllFiles(a) + AllFiles(b)
    decreases |a|
  {
    if a == [] {
      assert a + b == b;
    } else {
      AllFilesConcat(a[1..], b);
      assert (a + b)[1..] == a[1..] + b;
      Assoc(Files(a[0]), AllFiles(a[1..]), AllFiles(b));
    }
  }

  function TotalOf(files: seq<FileRef>): nat {
    if files == [] then 0 else files[0].size + TotalOf(files[1..])
  }

  lemma {:induction false} TotalOfConcat(a: seq<FileRef>, b: seq<FileRef>)
    ensures TotalOf(a + b) == TotalOf(a) + TotalOf(b)
  {
    if a == [] {
      assert a + b == b;
    } else {
      TotalOfConcat(a[1..], b);
      assert (a + b)[1..] == a[1..] + b;
    }
  }

  /** The recorded sizes are the true ones: a node's size is the total size of the files below it. */
  lemma {:induction false} SizeIsFileTotal(n: Node)
    requires SizesOk(n)
    ensures n.size == TotalOf(Files(n))
    decreases n, 1
  {
    if n.Dir? { SumIsFileTotal(n.kids); }
  }

  lemma {:induction false} SumIsFileTotal(nodes: seq<Node>)
    requires AllSizesOk(nodes)
    ensures SumSizes(nodes) == TotalOf(AllFiles(nodes))
    decreases nodes, 0
  {
    if nodes != [] {
      SizeIsFileTotal(nodes[0]);
      SumIsFileTotal(nodes[1..]);
      TotalOfConcat(Files(nodes[0]), AllFiles(nodes[1..]));
    }
  }

  /** Number of nodes, directories included. */
  function Count(n: Node): (c: nat)
    ensures c > 0
    decreases n, 1
  {
    match n
    case File(_, _, _, _) => 1
    case Dir(_, _, _, _, kids) => 1 + CountAll(kids)
  }

  function CountAll(nodes: seq<Node>): nat
    decreases nodes, 0
  {
    if nodes == [] then 0 else Count(nodes[0]) + CountAll(nodes[1..])
  }

  lemma {:induction false} CountAllConcat(a: seq<Node>, b: seq<Node>)
    ensures CountAll(a + b) == CountAll(a) + CountAll(b)
    decreases |a|
  {
    if a == [] {
      assert a + b == b;
    } else {
      CountAllConcat(a[1..], b);
      assert (a + b)[1..] == a[1..] + b;
    }
  }
}
