/** The prefix tree as a map from paths: creating and removing files and directories. */
module PrefixTree {
  import opened Bytes
  import opened Tree

  const SLASH: Byte := 47

  // ---- paths ----

  /** `splitPath`: the part before the first slash, the part after it, and whether there is one. */
  function SplitPath(path: seq<Byte>): (r: (bool, Name, seq<Byte>))
    ensures SLASH !in r.1
    ensures path == if r.0 then r.1 + [SLASH] + r.2 else r.1
    ensures r.0 ==> |r.2| < |path|
    ensures !r.0 ==> r.2 == []
  {
    if path == [] then (false, [], [])
    else if path[0] == SLASH then (true, [], path[1..])
    else
      var (more, head, rest) := SplitPath(path[1..]);
      (more, [path[0]] + head, rest)
  }

  /** The components a path is taken apart into. */
  function Components(path: seq<Byte>): (c: seq<Name>)
    ensures |c| > 0
    decreases |path|
  {
    var (more, head, rest) := SplitPath(path);
    if more then [head] + Components(rest) else [head]
  }

  function Join(c: seq<Name>): seq<Byte>
    requires |c| > 0
  {
    if |c| == 1 then c[0] else c[0] + [SLASH] + Join(c[1..])
  }

  /** Taking a path apart loses nothing, so different paths name different places. */
  lemma {:induction false} JoinComponents(path: seq<Byte>)
    ensures Join(Components(path)) == path
    decreases |path|
  {
    var (more, head, rest) := SplitPath(path);
    if more {
      JoinComponents(rest);
      assert Components(path)[1..] == Components(rest);
    }
  }

  // ---- lookup ----

  /** Position of the child called `name`, or the number of children. */
  function Find(kids: seq<Node>, name: Name): (k: nat)
    ensures k <= |kids|
    ensures k < |kids| ==> kids[k].name == name
    ensures forall i :: 0 <= i < k ==> kids[i].name != name
  {
    if kids == [] || kids[0].name == name then 0 else 1 + Find(kids[1..], name)
  }

  function Child(kids: seq<Node>, name: Name): Option<Node> {
    var k := Find(kids, name);
    if k < |kids| then Some(kids[k]) else None
  }

  function Lookup(n: Node, c: seq<Name>): Option<Node>
    decreases |c|
  {
    if c == [] then Some(n)
    else if n.File? then None
    else match Child(n.kids, c[0])
      case None => None
      case Some(kid) => Lookup(kid, c[1..])
  }

  /** What a path holds, apart from derived sizes. */
  datatype Info = FileInfo(ino: nat, size: nat, domain: int) | DirInfo(ino: nat, domain: int)

  function Describe(n: Node): Info {
    if n.File? then FileInfo(n.ino, n.size, n.domain) else DirInfo(n.ino, n.domain)
  }

  function Stat(n: Node, c: seq<Name>): Option<Info> {
    match Lookup(n, c) case None => None case Some(m) => Some(Describe(m))
  }

  // ---- operations ----

  /** What is to be created; the owning KV is picked elsewhere. */
  datatype Request = Request(ino: nat, isDir: bool, size: nat, domain: int)

  /** What the path is to hold. */
  function Wanted(req: Request): Info {
    if req.isDir then DirInfo(req.ino, req.domain) else FileInfo(req.ino, req.size, req.domain)
  }

  function MakeNode(name: Name, req: Request): Node {
    if req.isDir then Dir(name, req.ino, req.size, req.domain, []) else File(name, req.ino, req.size, req.domain)
  }

  function PushUp(n: Node): Node
    requires n.Dir?
  {
    n.(size := SumSizes(n.kids))
  }

  /** Ordered insertion of a child whose name is free. */
  function InsertKid(kids: seq<Node>, kid: Node): seq<Node> {
    if kids == [] || Less(kid.name, kids[0].name) then [kid] + kids
    else [kids[0]] + InsertKid(kids[1..], kid)
  }

  /** `doInsert`.  The answer of the recursive call is not looked at. */
  function Insert(n: Node, path: seq<Byte>, req: Request): (Node, bool)
    decreases |path|
  {
    if n.File? then (n, false) else
      var (more, head, rest) := SplitPath(path);
      var k := Find(n.kids, head);
      if k == |n.kids| then
        if more then (n, false) else (PushUp(n.(kids := InsertKid(n.kids, MakeNode(head, req)))), true)
      else if !more then (PushUp(n), true)
      else if n.kids[k].File? then (n, false)
      else (PushUp(n.(kids := n.kids[k := Insert(n.kids[k], rest, req).0])), true)
  }

  function Entries(n: Node): nat {
    if n.File? then 0 else |n.kids|
  }

  /** `doRemove`.  Here the answer of the recursive call is passed on. */
  function Erase(n: Node, path: seq<Byte>): (Node, bool)
    decreases |path|
  {
    if n.File? then (n, false) else
      var (more, head, rest) := SplitPath(path);
      var k := Find(n.kids, head);
      if k == |n.kids| then (n, false)
      else if more then
        var (kid, ok) := Erase(n.kids[k], rest);
        (PushUp(n.(kids := n.kids[k := kid])), ok)
      else if Entries(n.kids[k]) != 0 then (n, false)
      else (PushUp(n.(kids := n.kids[..k] + n.kids[k + 1..])), true)
  }

  // ---- well-formedness ----

  ghost predicate Ordered(kids: seq<Node>) {
    forall i, j :: 0 <= i < j < |kids| ==> Less(kids[i].name, kids[j].name)
  }

  /** Children are ordered by name, so names are unique, at every level. */
  ghost predicate Wf(n: Node) {
    n.Dir? ==> Ordered(n.kids) && forall i :: 0 <= i < |n.kids| ==> Wf(n.kids[i])
  }

  // ---- children ----

  lemma ChildCons(h: Node, t: seq<Node>, name: Name)
    ensures Child([h] + t, name) == if h.name == name then Some(h) else Child(t, name)
  {
    assert ([h] + t)[1..] == t;
  }

  lemma {:induction false} InsertKidChild(kids: seq<Node>, kid: Node, name: Name)
    requires Child(kids, kid.name).None?
    ensures Child(InsertKid(kids, kid), name) == if name == kid.name then Some(kid) else Child(kids, name)
  {
    if kids == [] || Less(kid.name, kids[0].name) {
      ChildCons(kid, kids, name);
    } else {
      var h, t := kids[0], kids[1..];
      assert kids == [h] + t;
      ChildCons(h, t, kid.name);
      ChildCons(h, t, name);
      InsertKidChild(t, kid, name);
      ChildCons(h, InsertKid(t, kid), name);
    }
  }

  lemma {:induction false} InsertKidMembers(kids: seq<Node>, kid: Node)
    ensures forall m :: m in InsertKid(kids, kid) <==> m in kids || m == kid
  {
    if kids != [] && !Less(kid.name, kids[0].name) {
      InsertKidMembers(kids[1..], kid);
      assert kids == [kids[0]] + kids[1..];
    }
  }

  lemma {:induction false} InsertKidOrdered(kids: seq<Node>, kid: Node)
    requires Ordered(kids) && Child(kids, kid.name).None?
    ensures Ordered(InsertKid(kids, kid))
  {
    if kids == [] || Less(kid.name, kids[0].name) {
      forall i | 0 < i < |kids| ensures Less(kid.name, kids[i].name) {
        LessTransitive(kid.name, kids[0].name, kids[i].name);
      }
      OrderedCons(kid, kids);
    } else {
      LessTotal(kid.name, kids[0].name);
      InsertKidOrdered(kids[1..], kid);
      InsertKidMembers(kids[1..], kid);
      OrderedCons(kids[0], InsertKid(kids[1..], kid));
    }
  }

  lemma OrderedCons(h: Node, t: seq<Node>)
    requires Ordered(t) && forall m :: m in t ==> Less(h.name, m.name)
    ensures Ordered([h] + t)
  {
  }

  lemma {:induction false} UpdateChild(kids: seq<Node>, k: nat, m: Node, name: Name)
    requires k < |kids| && k == Find(kids, kids[k].name) && m.name == kids[k].name
    ensures Child(kids[k := m], name) == if name == m.name then Some(m) else Child(kids, name)
  {
    if k > 0 {
      UpdateChild(kids[1..], k - 1, m, name);
      assert kids[k := m][1..] == kids[1..][k - 1 := m];
    } else {
      assert kids[k := m][1..] == kids[1..];
    }
  }

  /** In an ordered list a name is found exactly where it is. */
  lemma FindAt(kids: seq<Node>, i: nat)
    requires Ordered(kids) && i < |kids|
    ensures Find(kids, kids[i].name) == i
  {
    LessIrreflexive(kids[i].name);
  }

  lemma RemovedAt(kids: seq<Node>, k: nat)
    requires k < |kids|
    ensures var r := kids[..k] + kids[k + 1..];
            && (forall i :: 0 <= i < |r| ==> r[i] == kids[if i < k then i else i + 1])
            && (Ordered(kids) ==> Ordered(r))
  {
  }

  lemma RemoveChild(kids: seq<Node>, k: nat, name: Name)
    requires Ordered(kids) && k < |kids|
    ensures Child(kids[..k] + kids[k + 1..], name) == if name == kids[k].name then None else Child(kids, name)
  {
    var r := kids[..k] + kids[k + 1..];
    RemovedAt(kids, k);
    var i, j := Find(kids, name), Find(r, name);
    FindAt(kids, k);
    if j < |r| { FindAt(kids, if j < k then j else j + 1); }
    if name != kids[k].name && i < |kids| {
      assert r[if i < k then i else i - 1] == kids[i];
    }
  }

  // ---- the effect of Create ----

  ghost predicate IsDirAt(n: Node, c: seq<Name>) {
    Lookup(n, c).Some? && Lookup(n, c).value.Dir?
  }

  /** The parent directory exists and the name in it is free. */
  ghost predicate CanCreate(n: Node, c: seq<Name>)
    requires c != []
  {
    IsDirAt(n, c[..|c| - 1]) && Lookup(n, c).None?
  }

  lemma LookupCons(n: Node, head: Name, c: seq<Name>)
    requires n.Dir?
    ensures Lookup(n, [head] + c) == match Child(n.kids, head) case None => None case Some(kid) => Lookup(kid, c)
  {
    assert ([head] + c)[1..] == c;
  }

  /** One level down, creating below a child directory is creating in that child. */
  lemma CanCreateBelow(n: Node, head: Name, c: seq<Name>)
    requires n.Dir? && c != []
    ensures CanCreate(n, [head] + c) <==> Child(n.kids, head).Some? && CanCreate(Child(n.kids, head).value, c)
  {
    LookupCons(n, head, c);
    LookupCons(n, head, c[..|c| - 1]);
    assert ([head] + c)[..|c|] == [head] + c[..|c| - 1];
  }

  /** A file has nothing below it. */
  lemma NothingBelowFile(n: Node, c: seq<Name>)
    requires n.File? && c != []
    ensures Lookup(n, c).None? && !CanCreate(n, c)
  {
    if |c| > 1 { assert c[..|c| - 1] != []; } else { assert c[..0] == []; }
  }

  lemma StatStep(n: Node, q: seq<Name>)
    requires n.Dir? && q != []
    ensures Stat(n, q) == match Child(n.kids, q[0]) case None => None case Some(kid) => Stat(kid, q[1..])
  {
  }

  lemma InsertHere(n: Node, head: Name, req: Request, q: seq<Name>)
    requires n.Dir? && Child(n.kids, head).None?
    ensures var n' := PushUp(n.(kids := InsertKid(n.kids, MakeNode(head, req))));
            Stat(n', q) == if q == [head] then Some(Wanted(req)) else Stat(n, q)
  {
    var kid := MakeNode(head, req);
    var n' := PushUp(n.(kids := InsertKid(n.kids, kid)));
    if q != [] {
      StatStep(n, q);
      StatStep(n', q);
      InsertKidChild(n.kids, kid, q[0]);
      if q[0] == head && q[1..] == [] { assert q == [head]; }
    }
  }

  lemma ReplaceKid(n: Node, k: nat, kid: Node, q: seq<Name>)
    requires n.Dir? && k < |n.kids| && k == Find(n.kids, n.kids[k].name) && kid.name == n.kids[k].name && q != []
    ensures var n' := PushUp(n.(kids := n.kids[k := kid]));
            Stat(n', q) == if q[0] == kid.name then Stat(kid, q[1..]) else Stat(n, q)
  {
    StatStep(n, q);
    StatStep(PushUp(n.(kids := n.kids[k := kid])), q);
    UpdateChild(n.kids, k, kid, q[0]);
  }

  /** `Create` changes at most the named path: it appears, as asked for, exactly when its parent is a
      directory and the name is free; every other path holds what it held. */
  lemma {:induction false} InsertEffect(n: Node, path: seq<Byte>, req: Request, q: seq<Name>)
    requires n.Dir?
    ensures var c, n' := Components(path), Insert(n, path, req).0;
            && n'.Dir? && n'.name == n.name && n'.ino == n.ino && n'.domain == n.domain
            && Stat(n', q) == if q == c && CanCreate(n, c) then Some(Wanted(req)) else Stat(n, q)
    decreases |path|
  {
    var (more, head, rest) := SplitPath(path);
    var k := Find(n.kids, head);
    if !more {
      InsertLastEffect(n, head, req, q);
    } else {
      var d := Components(rest);
      CanCreateBelow(n, head, d);
      if k < |n.kids| {
        var kid := n.kids[k];
        if kid.File? {
          NothingBelowFile(kid, d);
        } else {
          InsertEffect(kid, rest, req, if q == [] then [] else q[1..]);
          if q != [] {
            ReplaceKid(n, k, Insert(kid, rest, req).0, q);
            StatStep(n, q);
            assert q == [head] + d <==> q[0] == head && q[1..] == d;
          }
        }
      }
    }
  }

  lemma InsertLastEffect(n: Node, head: Name, req: Request, q: seq<Name>)
    requires n.Dir?
    ensures CanCreate(n, [head]) <==> Child(n.kids, head).None?
    ensures var n' := if Child(n.kids, head).None? then PushUp(n.(kids := InsertKid(n.kids, MakeNode(head, req)))) else PushUp(n);
            Stat(n', q) == if q == [head] && CanCreate(n, [head]) then Some(Wanted(req)) else Stat(n, q)
  {
    assert [head][..0] == [] && [head] + [] == [head];
    LookupCons(n, head, []);
    if Child(n.kids, head).None? {
      InsertHere(n, head, req, q);
    } else if q != [] {
      StatStep(n, q);
      StatStep(PushUp(n), q);
    }
  }

  /** The answer of `Create` says only that the first component could be followed. */
  lemma InsertAnswer(n: Node, path: seq<Byte>, req: Request)
    requires n.Dir?
    ensures Insert(n, path, req).1 <==> |Components(path)| == 1 || IsDirAt(n, Components(path)[..1])
  {
    var (more, head, rest) := SplitPath(path);
    LookupCons(n, head, []);
    assert [head] + [] == [head];
    if more { assert Components(path)[..1] == [head]; }
  }

  /** So an answer of success does not mean that anything was created: nothing is exactly when the
      path is taken already, or its first component is a directory but its parent is not.  In the
      second case it does not even exist afterwards; and it does not hold what was asked for exactly
      in the second case or when it is taken by something else. */
  lemma CreateOkWithoutEffect(n: Node, path: seq<Byte>, req: Request)
    requires n.Dir?
    ensures var c, (n', ok) := Components(path), Insert(n, path, req);
            var asked, orphan := Some(Wanted(req)), IsDirAt(n, c[..1]) && !IsDirAt(n, c[..|c| - 1]);
            && (ok && !CanCreate(n, c) <==> Stat(n, c).Some? || orphan)
            && (ok && Stat(n', c).None? <==> orphan)
            && (ok && Stat(n', c) != asked <==> (Stat(n, c).Some? && Stat(n, c) != asked) || orphan)
  {
    var c := Components(path);
    InsertAnswer(n, path, req);
    InsertEffect(n, path, req, c);
    if |c| == 1 {
      assert c[..|c| - 1] == [];
      assert c[..1] == c;
    } else if Lookup(n, c).Some? {
      ParentIsDir(n, c);
      LookupCons(n, c[0], []);
      assert c[..1] == [c[0]] + [];
      assert IsDirAt(n, c[..1]);
    } else if |c| == 2 {
      assert c[..1] == c[..|c| - 1];
    }
  }

  lemma {:induction false} ParentIsDir(n: Node, c: seq<Name>)
    requires Lookup(n, c).Some? && c != []
    ensures IsDirAt(n, c[..|c| - 1])
    decreases |c|
  {
    if |c| > 1 {
      ParentIsDir(Child(n.kids, c[0]).value, c[1..]);
      LookupCons(n, c[0], c[1..][..|c| - 2]);
      assert c[..|c| - 1] == [c[0]] + c[1..][..|c| - 2];
    } else {
      assert c[..0] == [];
    }
  }

  /** Instances: creating "a/x/y" in a tree that only has the directory "a" answers success. */
  lemma CreateOkWitness(a: Name, x: Name, y: Name, req: Request)
    requires SLASH !in a && SLASH !in x && SLASH !in y
    ensures var n := Dir([], 0, 0, -1, [Dir(a, 11, 0, -1, [])]);
            var path := a + [SLASH] + (x + [SLASH] + y);
            Insert(n, path, req).1 && Stat(Insert(n, path, req).0, Components(path)).None?
  {
    var kid := Dir(a, 11, 0, -1, []);
    var n := Dir([], 0, 0, -1, [kid]);
    var rest := x + [SLASH] + y;
    var path := a + [SLASH] + rest;
    SplitAt(a, rest);
    SplitAt(x, y);
    SplitLast(y);
    var c := Components(path);
    assert c == [a] + [x, y] by {
      assert Components(rest) == [x] + Components(y);
    }
    ChildCons(kid, [], a);
    assert [kid] + [] == n.kids;
    LookupCons(n, a, []);
    LookupCons(n, a, [x]);
    LookupCons(kid, x, []);
    assert [x] + [] == [x] && c[..1] == [a] + [] && c[..2] == [a] + [x];
    CreateOkWithoutEffect(n, path, req);
  }

  lemma {:induction false} SplitAt(head: Name, rest: seq<Byte>)
    requires SLASH !in head
    ensures SplitPath(head + [SLASH] + rest) == (true, head, rest)
  {
    var p := head + [SLASH] + rest;
    if head == [] {
      assert p[1..] == rest;
    } else {
      SplitAt(head[1..], rest);
      assert p[1..] == head[1..] + [SLASH] + rest;
      assert head == [head[0]] + head[1..];
    }
  }

  lemma {:induction false} SplitLast(head: Name)
    requires SLASH !in head
    ensures SplitPath(head) == (false, head, [])
  {
    if head != [] { SplitLast(head[1..]); }
  }

  // ---- sizes and order ----

  lemma {:induction false} InsertKeepsWf(n: Node, path: seq<Byte>, req: Request)
    requires Wf(n)
    ensures Wf(Insert(n, path, req).0) && Insert(n, path, req).0.name == n.name
    decreases |path|
  {
    if n.Dir? {
      var (more, head, rest) := SplitPath(path);
      var k := Find(n.kids, head);
      if k == |n.kids| {
        var kid := MakeNode(head, req);
        InsertKidOrdered(n.kids, kid);
        InsertKidMembers(n.kids, kid);
        var kids := InsertKid(n.kids, kid);
        forall i | 0 <= i < |kids| ensures Wf(kids[i]) { assert kids[i] in kids; }
      } else if more {
        InsertKeepsWf(n.kids[k], rest, req);
      }
    }
  }

  /** Recorded sizes stay right exactly when no directory is created with a size of its own. */
  lemma {:induction false} InsertKeepsSizes(n: Node, path: seq<Byte>, req: Request)
    requires n.Dir? && SizesOk(n)
    ensures SizesOk(Insert(n, path, req).0) <==>
            !(CanCreate(n, Components(path)) && req.isDir && req.size != 0)
    decreases |path|
  {
    var (more, head, rest) := SplitPath(path);
    var k := Find(n.kids, head);
    var bad := req.isDir && req.size != 0;
    if !more {
      InsertLastEffect(n, head, req, []);
      if k == |n.kids| {
        var kid := MakeNode(head, req);
        var kids := InsertKid(n.kids, kid);
        InsertKidMembers(n.kids, kid);
        assert SizesOk(kid) <==> !bad;
        forall i | 0 <= i < |kids| && !bad ensures SizesOk(kids[i]) {
          assert kids[i] in kids;
          if kids[i] != kid { var j :| 0 <= j < |n.kids| && n.kids[j] == kids[i]; }
        }
        if bad {
          assert kid in kids;
          var i :| 0 <= i < |kids| && kids[i] == kid;
          assert !SizesOk(kids[i]);
        }
      }
    } else {
      var d := Components(rest);
      CanCreateBelow(n, head, d);
      if k < |n.kids| {
        var kid := n.kids[k];
        if kid.File? {
          NothingBelowFile(kid, d);
        } else {
          InsertKeepsSizes(kid, rest, req);
          var kids := n.kids[k := Insert(kid, rest, req).0];
          assert forall i :: 0 <= i < |kids| && i != k ==> kids[i] == n.kids[i];
          assert kids[k] == Insert(kid, rest, req).0;
          assert AllSizesOk(kids) <==> SizesOk(kids[k]);
        }
      }
    }
  }

  // ---- the effect of Remove ----

  /** The path is there and has nothing in it. */
  ghost predicate CanRemove(n: Node, c: seq<Name>) {
    match Lookup(n, c)
    case None => false
    case Some(File(_, _, _, _)) => true
    case Some(Dir(_, _, _, _, kids)) => kids == []
  }

  lemma RemoveHere(n: Node, k: nat, q: seq<Name>)
    requires n.Dir? && Ordered(n.kids) && k < |n.kids| && Entries(n.kids[k]) == 0
    ensures var n' := PushUp(n.(kids := n.kids[..k] + n.kids[k + 1..]));
            Stat(n', q) == if q == [n.kids[k].name] then None else Stat(n, q)
  {
    if q != [] {
      StatStep(n, q);
      StatStep(PushUp(n.(kids := n.kids[..k] + n.kids[k + 1..])), q);
      RemoveChild(n.kids, k, q[0]);
      if q[0] == n.kids[k].name {
        FindAt(n.kids, k);
        if q[1..] == [] { assert q == [q[0]]; }
      }
    }
  }

  /** `Remove` deletes at most the named path, exactly when it is a file or an empty directory, and
      then answers success; every other path holds what it held. */
  lemma {:induction false} RemoveEffect(n: Node, path: seq<Byte>, q: seq<Name>)
    requires n.Dir? && Wf(n)
    ensures var c, (n', ok) := Components(path), Erase(n, path);
            && n'.Dir? && n'.name == n.name && n'.ino == n.ino && n'.domain == n.domain
            && (ok <==> CanRemove(n, c))
            && Stat(n', q) == if q == c && CanRemove(n, c) then None else Stat(n, q)
    decreases |path|
  {
    var (more, head, rest) := SplitPath(path);
    var k := Find(n.kids, head);
    if !more {
      LookupCons(n, head, []);
      assert [head] + [] == [head];
      if k < |n.kids| && Entries(n.kids[k]) == 0 { RemoveHere(n, k, q); }
    } else {
      var d := Components(rest);
      LookupCons(n, head, d);
      if k < |n.kids| {
        var kid := n.kids[k];
        var kid' := Erase(kid, rest).0;
        if kid.File? {
          NothingBelowFile(kid, d);
        } else {
          RemoveEffect(kid, rest, if q == [] then [] else q[1..]);
        }
        if q != [] {
          ReplaceKid(n, k, kid', q);
          StatStep(n, q);
          assert q == [head] + d <==> q[0] == head && q[1..] == d;
        }
      }
    }
  }

  lemma {:induction false} RemoveKeepsWf(n: Node, path: seq<Byte>)
    requires Wf(n)
    ensures Wf(Erase(n, path).0) && Erase(n, path).0.name == n.name
    decreases |path|
  {
    if n.Dir? {
      var (more, head, rest) := SplitPath(path);
      var k := Find(n.kids, head);
      if k < |n.kids| && more {
        RemoveKeepsWf(n.kids[k], rest);
      } else if k < |n.kids| {
        RemovedIsWf(n, k);
      }
    }
  }

  lemma RemovedIsWf(n: Node, k: nat)
    requires n.Dir? && Wf(n) && k < |n.kids|
    ensures Wf(PushUp(n.(kids := n.kids[..k] + n.kids[k + 1..])))
  {
    RemovedAt(n.kids, k);
  }

  lemma RemovedSizes(n: Node, k: nat)
    requires n.Dir? && AllSizesOk(n.kids) && k < |n.kids|
    ensures SizesOk(PushUp(n.(kids := n.kids[..k] + n.kids[k + 1..])))
  {
    RemovedAt(n.kids, k);
    assert AllSizesOk(n.kids[..k] + n.kids[k + 1..]);
  }

  lemma UpdatedSizes(n: Node, k: nat, kid: Node)
    requires n.Dir? && AllSizesOk(n.kids) && k < |n.kids| && SizesOk(kid)
    ensures SizesOk(PushUp(n.(kids := n.kids[k := kid])))
  {
    assert AllSizesOk(n.kids[k := kid]);
  }

  lemma {:induction false} RemoveKeepsSizes(n: Node, path: seq<Byte>)
    requires SizesOk(n)
    ensures SizesOk(Erase(n, path).0)
    decreases |path|
  {
    if n.Dir? {
      var (more, head, rest) := SplitPath(path);
      var k := Find(n.kids, head);
      if k < |n.kids| && more {
        var kid := Erase(n.kids[k], rest).0;
        assert SizesOk(kid) by { RemoveKeepsSizes(n.kids[k], rest); }
        UpdatedSizes(n, k, kid);
      } else if k < |n.kids| {
        RemovedSizes(n, k);
      }
    }
  }

  // ---- whole runs ----

  datatype Op = CreateOp(path: seq<Byte>, req: Request) | RemoveOp(path: seq<Byte>)

  const ROOT: Node := Dir([], 0, 0, -1, [])

  function AfterOps(ops: seq<Op>): Node {
    if ops == [] then ROOT else
      var before := AfterOps(ops[..|ops| - 1]);
      match ops[|ops| - 1]
      case CreateOp(path, req) => Insert(before, path, req).0
      case RemoveOp(path) => Erase(before, path).0
  }

  /** The operation creates a directory with a size of its own. */
  ghost predicate SizedDirectory(n: Node, op: Op) {
    op.CreateOp? && CanCreate(n, Components(op.path)) && op.req.isDir && op.req.size != 0
  }

  /** No operation of the run does. */
  ghost predicate NoSizedDirectory(ops: seq<Op>) {
    ops == [] ||
    var init := ops[..|ops| - 1];
    NoSizedDirectory(init) && !SizedDirectory(AfterOps(init), ops[|ops| - 1])
  }

  /** Every recorded size is right, after every operation of the run. */
  ghost predicate SizesThroughout(ops: seq<Op>) {
    SizesOk(AfterOps(ops)) && (ops == [] || SizesThroughout(ops[..|ops| - 1]))
  }

  lemma StepKeepsTree(n: Node, op: Op)
    requires n.Dir? && Wf(n)
    ensures var n' := match op case CreateOp(path, req) => Insert(n, path, req).0 case RemoveOp(path) => Erase(n, path).0;
            n'.Dir? && Wf(n') && (SizesOk(n) ==> (SizesOk(n') <==> !SizedDirectory(n, op)))
  {
    match op
    case CreateOp(path, req) =>
      InsertKeepsWf(n, path, req);
      InsertEffect(n, path, req, []);
      if SizesOk(n) { InsertKeepsSizes(n, path, req); }
    case RemoveOp(path) =>
      RemoveKeepsWf(n, path);
      RemoveEffect(n, path, []);
      if SizesOk(n) { RemoveKeepsSizes(n, path); }
  }

  /** Over every run of creates and removes the tree is ordered; every directory's size is the total
      size of the files below it all along if and only if no operation creates a directory with a size
      of its own. */
  lemma {:induction false} RunKeepsTree(ops: seq<Op>)
    ensures AfterOps(ops).Dir? && Wf(AfterOps(ops))
    ensures SizesThroughout(ops) <==> NoSizedDirectory(ops)
    ensures SizesThroughout(ops) ==> AfterOps(ops).size == TotalOf(Files(AfterOps(ops)))
  {
    if ops != [] {
      var init := ops[..|ops| - 1];
      RunKeepsTree(init);
      StepKeepsTree(AfterOps(init), ops[|ops| - 1]);
    }
    if SizesOk(AfterOps(ops)) { SizeIsFileTotal(AfterOps(ops)); }
  }

  class PrefixTree {
    var root: Node

    ghost predicate Valid()
      reads this
    {
      root.Dir? && Wf(root)
    }

    constructor ()
      ensures Valid() && root == ROOT
    {
      root := ROOT;
    }

    method Create(path: seq<Byte>, req: Request) returns (ok: bool)
      requires Valid()
      modifies this
      ensures Valid()
      ensures forall q :: Stat(root, q) ==
                if q == Components(path) && CanCreate(old(root), q) then Some(Wanted(req))
                else Stat(old(root), q)
      ensures SizesOk(old(root)) ==>
                (SizesOk(root) <==> !(CanCreate(old(root), Components(path)) && req.isDir && req.size != 0))
      ensures ok <==> |Components(path)| == 1 || IsDirAt(old(root), Components(path)[..1])
    {
      InsertKeepsWf(root, path, req);
      if SizesOk(root) { InsertKeepsSizes(root, path, req); }
      InsertAnswer(root, path, req);
      var r := Insert(root, path, req);
      forall q ensures Stat(r.0, q) ==
                       if q == Components(path) && CanCreate(root, q) then Some(Wanted(req))
                       else Stat(root, q) {
        InsertEffect(root, path, req, q);
      }
      InsertEffect(root, path, req, []);
      root, ok := r.0, r.1;
    }

    method Remove(path: seq<Byte>) returns (ok: bool)
      requires Valid()
      modifies this
      ensures Valid()
      ensures forall q :: Stat(root, q) ==
                if q == Components(path) && CanRemove(old(root), q) then None else Stat(old(root), q)
      ensures SizesOk(old(root)) ==> SizesOk(root)
      ensures ok <==> CanRemove(old(root), Components(path))
    {
      RemoveKeepsWf(root, path);
      if SizesOk(root) { RemoveKeepsSizes(root, path); }
      var r := Erase(root, path);
      forall q ensures Stat(r.0, q) ==
                       if q == Components(path) && CanRemove(root, q) then None else Stat(root, q) {
        RemoveEffect(root, path, q);
      }
      RemoveEffect(root, path, []);
      root, ok := r.0, r.1;
    }
  }
}
