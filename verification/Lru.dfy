/** The least-recently-used cache, and how two of different capacities compare on the same calls. */
module Lru {
  import opened Bytes

  /** Entries from most to least recently used. */
  type Recency<K, V> = seq<(K, V)>

  function Index<K(==), V>(list: Recency<K, V>, key: K): (i: nat)
    ensures i <= |list|
    ensures i < |list| ==> list[i].0 == key
    ensures forall j :: 0 <= j < i ==> list[j].0 != key
  {
    if list == [] || list[0].0 == key then 0 else 1 + Index(list[1..], key)
  }

  function RemoveAt<T>(s: seq<T>, i: nat): (r: seq<T>)
    requires i < |s|
    ensures |r| == |s| - 1
    ensures forall j :: 0 <= j < |r| ==> r[j] == s[if j < i then j else j + 1]
  {
    s[..i] + s[i + 1..]
  }

  function Without<K(==), V>(list: Recency<K, V>, key: K): Recency<K, V> {
    var i := Index(list, key);
    if i < |list| then RemoveAt(list, i) else list
  }

  predicate Has<K(==), V>(list: Recency<K, V>, key: K) {
    Index(list, key) < |list|
  }

  /** A hit moves the entry to the front; a miss changes nothing. */
  function Touch<K(==), V>(list: Recency<K, V>, key: K): (Recency<K, V>, Option<V>) {
    var i := Index(list, key);
    if i < |list| then ([list[i]] + RemoveAt(list, i), Some(list[i].1)) else (list, None)
  }

  /** A new key goes to the front and may push the last entry out. */
  function Store<K(==), V>(list: Recency<K, V>, capacity: nat, key: K, value: V): Recency<K, V> {
    if Has(list, key) then [(key, value)] + Without(list, key)
    else
      var longer := [(key, value)] + list;
      if |longer| > capacity then longer[..|list|] else longer
  }

  datatype Op<K, V> = GetOp(key: K) | PutOp(key: K, value: V)

  function Apply<K(==), V>(list: Recency<K, V>, capacity: nat, op: Op<K, V>): Recency<K, V> {
    match op
    case GetOp(key) => Touch(list, key).0
    case PutOp(key, value) => Store(list, capacity, key, value)
  }

  function After<K(==), V>(capacity: nat, ops: seq<Op<K, V>>): Recency<K, V> {
    if ops == [] then [] else Apply(After(capacity, ops[..|ops| - 1]), capacity, ops[|ops| - 1])
  }

  // ---- one list inside another ----

  ghost predicate DistinctKeys<K, V>(list: Recency<K, V>) {
    forall i, j :: 0 <= i < j < |list| ==> list[i].0 != list[j].0
  }

  /** `f` says where each entry of `a` is found in `b`, in order: `a` is a subsequence of `b`. */
  ghost predicate Embeds<T>(f: seq<nat>, a: seq<T>, b: seq<T>) {
    && |f| == |a|
    && (forall i :: 0 <= i < |a| ==> f[i] < |b| && b[f[i]] == a[i])
    && (forall i, j :: 0 <= i < j < |a| ==> f[i] < f[j])
  }

  ghost predicate Subsequence<T>(a: seq<T>, b: seq<T>) {
    exists f :: Embeds(f, a, b)
  }

  lemma SubsequenceSelf<T>(a: seq<T>)
    ensures Subsequence(a, a)
  {
    assert Embeds(seq(|a|, i => i), a, a);
  }

  lemma SubsequenceCons<T>(x: T, a: seq<T>, b: seq<T>)
    requires Subsequence(a, b)
    ensures Subsequence([x] + a, [x] + b) && Subsequence(a, [x] + b)
  {
    var f :| Embeds(f, a, b);
    var shifted := seq(|f|, i requires 0 <= i < |f| => f[i] + 1);
    assert Embeds(shifted, a, [x] + b);
    assert Embeds([0] + shifted, [x] + a, [x] + b);
  }

  lemma SubsequenceDropLast<T>(a: seq<T>, b: seq<T>)
    requires Subsequence(a, b) && a != []
    ensures b != []
    ensures Subsequence(a[..|a| - 1], b) && Subsequence(a[..|a| - 1], b[..|b| - 1])
  {
    var f :| Embeds(f, a, b);
    var n := |a| - 1;
    assert f[n] < |b|;
    assert Embeds(f[..n], a[..n], b);
    assert Embeds(f[..n], a[..n], b[..|b| - 1]);
  }

  lemma EmbeddedIndex<K, V>(f: seq<nat>, a: Recency<K, V>, b: Recency<K, V>, key: K)
    requires Embeds(f, a, b) && DistinctKeys(b) && Has(a, key)
    ensures Index(b, key) == f[Index(a, key)]
  {
  }

  lemma EmbedsRemove<T>(f: seq<nat>, a: seq<T>, b: seq<T>, i: nat)
    requires Embeds(f, a, b) && i < |a|
    ensures Embeds(RemoveAt(f, i), RemoveAt(a, i), b)
    ensures forall k :: 0 <= k < |RemoveAt(f, i)| ==> RemoveAt(f, i)[k] != f[i]
  {
  }

  /** Taking one key out of both keeps the one a subsequence of the other. */
  lemma SubsequenceWithout<K, V>(a: Recency<K, V>, b: Recency<K, V>, key: K)
    requires Subsequence(a, b) && DistinctKeys(a) && DistinctKeys(b)
    ensures Subsequence(Without(a, key), Without(b, key))
    ensures Has(a, key) ==> Has(b, key) && a[Index(a, key)] == b[Index(b, key)]
  {
    var f :| Embeds(f, a, b);
    var i, j := Index(a, key), Index(b, key);
    if i < |a| {
      EmbeddedIndex(f, a, b, key);
      EmbedsRemove(f, a, b, i);
      EmbedsAround(RemoveAt(f, i), RemoveAt(a, i), b, j);
    } else if j < |b| {
      forall k | 0 <= k < |f| ensures f[k] != j { assert b[f[k]].0 == a[k].0 != key; }
      EmbedsAround(f, a, b, j);
    }
  }

  lemma EmbedsAround<T>(f: seq<nat>, a: seq<T>, b: seq<T>, j: nat)
    requires Embeds(f, a, b) && j < |b| && forall i :: 0 <= i < |f| ==> f[i] != j
    ensures Subsequence(a, RemoveAt(b, j))
  {
    var g := seq(|f|, i requires 0 <= i < |f| => if f[i] < j then f[i] else f[i] - 1);
    assert Embeds(g, a, RemoveAt(b, j));
  }

  // ---- monotonicity in the capacity ----

  ghost predicate Inside<K, V>(a: Recency<K, V>, b: Recency<K, V>) {
    Subsequence(a, b) && DistinctKeys(a) && DistinctKeys(b)
  }

  lemma InsideWithout<K, V>(a: Recency<K, V>, b: Recency<K, V>, key: K, value: V)
    requires Inside(a, b)
    ensures Inside([(key, value)] + Without(a, key), [(key, value)] + Without(b, key))
    ensures Inside(Without(a, key), [(key, value)] + Without(b, key))
    ensures Has(a, key) ==> Has(b, key) && a[Index(a, key)] == b[Index(b, key)]
    ensures |Without(a, key)| == if Has(a, key) then |a| - 1 else |a|
    ensures |Without(b, key)| == if Has(b, key) then |b| - 1 else |b|
  {
    SubsequenceWithout(a, b, key);
    WithoutDistinct(a, key);
    WithoutDistinct(b, key);
    SubsequenceCons((key, value), Without(a, key), Without(b, key));
    ConsDistinct(key, value, Without(a, key));
    ConsDistinct(key, value, Without(b, key));
  }

  lemma InsideDropLast<K, V>(a: Recency<K, V>, b: Recency<K, V>)
    requires Inside(a, b) && a != []
    ensures b != []
    ensures Inside(a[..|a| - 1], b) && Inside(a[..|a| - 1], b[..|b| - 1])
  {
    SubsequenceDropLast(a, b);
  }

  /** The smaller cache against the larger: a subsequence of it, and the same until it is full. */
  ghost predicate Within<K, V>(a: Recency<K, V>, c: nat, b: Recency<K, V>, d: nat) {
    && Inside(a, b)
    && |a| <= c && |b| <= d
    && (a == b || |a| == c)
  }

  lemma WithoutDistinct<K, V>(list: Recency<K, V>, key: K)
    requires DistinctKeys(list)
    ensures DistinctKeys(Without(list, key)) && !Has(Without(list, key), key)
    ensures |Without(list, key)| == if Has(list, key) then |list| - 1 else |list|
  {
    var w, k := Without(list, key), Index(list, key);
    if k < |list| {
      forall i | 0 <= i < |w| ensures w[i].0 != key { assert w[i] == list[if i < k then i else i + 1]; }
    }
  }

  lemma ConsDistinct<K, V>(key: K, value: V, list: Recency<K, V>)
    requires DistinctKeys(list) && !Has(list, key)
    ensures DistinctKeys([(key, value)] + list)
  {
  }

  lemma GetKeepsWithin<K, V>(a: Recency<K, V>, c: nat, b: Recency<K, V>, d: nat, key: K)
    requires Within(a, c, b, d)
    ensures Within(Touch(a, key).0, c, Touch(b, key).0, d)
    ensures Touch(a, key).1.Some? ==> Touch(b, key).1 == Touch(a, key).1
  {
    if Has(b, key) {
      var e := b[Index(b, key)];
      InsideWithout(a, b, key, e.1);
      assert e == (key, e.1);
    } else if Has(a, key) {
      SubsequenceWithout(a, b, key);
    }
  }

  /** A key the larger cache has: the smaller one has it too, or is full. */
  lemma PutKnown<K, V>(a: Recency<K, V>, c: nat, b: Recency<K, V>, d: nat, key: K, value: V)
    requires Within(a, c, b, d) && Has(b, key)
    ensures Within(Store(a, c, key, value), c, Store(b, d, key, value), d)
  {
    var a1, b1 := [(key, value)] + Without(a, key), [(key, value)] + Without(b, key);
    InsideWithout(a, b, key, value);
    if !Has(a, key) {
      assert |a| == c;
      InsideDropLast(a1, b1);
      assert Store(a, c, key, value) == a1[..|a1| - 1];
    }
  }

  /** A key neither has: if the larger one pushes its last entry out, so does the smaller one. */
  lemma PutUnknown<K, V>(a: Recency<K, V>, c: nat, b: Recency<K, V>, d: nat, key: K, value: V)
    requires Within(a, c, b, d) && c <= d && !Has(a, key) && !Has(b, key)
    ensures Within(Store(a, c, key, value), c, Store(b, d, key, value), d)
  {
    var a1, b1 := [(key, value)] + a, [(key, value)] + b;
    assert Inside(a1, b1) by { InsideWithout(a, b, key, value); }
    InsideDropLast(a1, b1);
    assert |b| == d ==> |a| == c;
    assert Store(a, c, key, value) == if |a| == c then a1[..|a1| - 1] else a1;
    assert Store(b, d, key, value) == if |b| == d then b1[..|b1| - 1] else b1;
  }

  lemma PutKeepsWithin<K, V>(a: Recency<K, V>, c: nat, b: Recency<K, V>, d: nat, key: K, value: V)
    requires Within(a, c, b, d) && c <= d
    ensures Within(Store(a, c, key, value), c, Store(b, d, key, value), d)
  {
    SubsequenceWithout(a, b, key);
    if Has(b, key) { PutKnown(a, c, b, d, key, value); } else { PutUnknown(a, c, b, d, key, value); }
  }

  /** For any run of the same calls, the smaller cache always holds a subsequence of what the larger
      holds, in the same order and with the same values. */
  lemma {:induction false} SmallerWithinLarger<K, V>(c: nat, d: nat, ops: seq<Op<K, V>>)
    requires c <= d
    ensures Within(After(c, ops), c, After(d, ops), d)
  {
    if ops == [] {
      SubsequenceSelf<(K, V)>([]);
    } else {
      var init := ops[..|ops| - 1];
      SmallerWithinLarger(c, d, init);
      match ops[|ops| - 1]
      case GetOp(key) => GetKeepsWithin(After(c, init), c, After(d, init), d, key);
      case PutOp(key, value) => PutKeepsWithin(After(c, init), c, After(d, init), d, key, value);
    }
  }

  /** Every hit in the smaller cache is the same hit in the larger one. */
  lemma HitsAreMonotone<K, V>(c: nat, d: nat, ops: seq<Op<K, V>>, key: K)
    requires c <= d && Touch(After(c, ops), key).1.Some?
    ensures Touch(After(d, ops), key).1 == Touch(After(c, ops), key).1
  {
    SmallerWithinLarger(c, d, ops);
    GetKeepsWithin(After(c, ops), c, After(d, ops), d, key);
  }

  // ---- the order of the list ----

  /** The number of the last call that names `key`, or 0. */
  function LastCall<K(==), V>(ops: seq<Op<K, V>>, key: K): (n: nat)
    ensures n <= |ops|
  {
    if ops == [] then 0
    else if ops[|ops| - 1].key == key then |ops|
    else LastCall(ops[..|ops| - 1], key)
  }

  /** The value last put under `key`, if any. */
  function LastPut<K(==), V>(ops: seq<Op<K, V>>, key: K): Option<V> {
    if ops == [] then None
    else if ops[|ops| - 1].PutOp? && ops[|ops| - 1].key == key then Some(ops[|ops| - 1].value)
    else LastPut(ops[..|ops| - 1], key)
  }

  /** The list is in the order of the last calls, the latest first, and holds the values last put. */
  ghost predicate InOrder<K, V>(list: Recency<K, V>, ops: seq<Op<K, V>>) {
    && (forall i, j :: 0 <= i < j < |list| ==> LastCall(ops, list[j].0) < LastCall(ops, list[i].0))
    && (forall i :: 0 <= i < |list| ==> LastPut(ops, list[i].0) == Some(list[i].1))
  }

  lemma OtherKey<K, V>(ops: seq<Op<K, V>>, key: K)
    requires ops != [] && ops[|ops| - 1].key != key
    ensures LastCall(ops, key) == LastCall(ops[..|ops| - 1], key) < |ops|
    ensures LastPut(ops, key) == LastPut(ops[..|ops| - 1], key)
  {
  }

  /** A call for another key leaves the entries in order. */
  lemma MissInOrder<K, V>(list: Recency<K, V>, init: seq<Op<K, V>>, ops: seq<Op<K, V>>)
    requires ops != [] && init == ops[..|ops| - 1] && InOrder(list, init)
    requires forall i :: 0 <= i < |list| ==> list[i].0 != ops[|ops| - 1].key
    ensures InOrder(list, ops)
    ensures forall i :: 0 <= i < |list| ==> LastCall(ops, list[i].0) < |ops|
  {
    forall i | 0 <= i < |list|
      ensures LastCall(ops, list[i].0) == LastCall(init, list[i].0) < |ops|
      ensures LastPut(ops, list[i].0) == LastPut(init, list[i].0) {
      OtherKey(ops, list[i].0);
    }
  }

  lemma ConsInOrder<K, V>(entry: (K, V), list: Recency<K, V>, ops: seq<Op<K, V>>)
    requires InOrder(list, ops) && LastPut(ops, entry.0) == Some(entry.1)
    requires forall i :: 0 <= i < |list| ==> LastCall(ops, list[i].0) < LastCall(ops, entry.0)
    ensures InOrder([entry] + list, ops)
  {
    var r := [entry] + list;
    assert r[0] == entry && forall i :: 0 < i < |r| ==> r[i] == list[i - 1];
  }

  /** Putting the entry of the key just called in front of entries with other keys. */
  lemma FrontInOrder<K, V>(list: Recency<K, V>, init: seq<Op<K, V>>, ops: seq<Op<K, V>>, value: V)
    requires ops != [] && init == ops[..|ops| - 1] && InOrder(list, init)
    requires LastPut(ops, ops[|ops| - 1].key) == Some(value)
    requires forall i :: 0 <= i < |list| ==> list[i].0 != ops[|ops| - 1].key
    ensures InOrder([(ops[|ops| - 1].key, value)] + list, ops)
  {
    MissInOrder(list, init, ops);
    ConsInOrder((ops[|ops| - 1].key, value), list, ops);
  }

  lemma RemoveInOrder<K, V>(list: Recency<K, V>, ops: seq<Op<K, V>>, i: nat)
    requires InOrder(list, ops) && i < |list|
    ensures InOrder(RemoveAt(list, i), ops)
    ensures forall j :: 0 <= j < |list| - 1 ==> RemoveAt(list, i)[j].0 != list[i].0
  {
  }

  lemma PrefixInOrder<K, V>(list: Recency<K, V>, ops: seq<Op<K, V>>, n: nat)
    requires InOrder(list, ops) && n <= |list|
    ensures InOrder(list[..n], ops)
  {
  }

  /** Over every run, from the calls alone: the cache lists its keys by their last call, the latest
      first, each with the value last put under it. */
  lemma {:induction false} ListedByUse<K, V>(capacity: nat, ops: seq<Op<K, V>>)
    ensures InOrder(After(capacity, ops), ops)
  {
    if ops != [] {
      var init, op := ops[..|ops| - 1], ops[|ops| - 1];
      var list := After(capacity, init);
      var i := Index(list, op.key);
      ListedByUse(capacity, init);
      if i < |list| {
        var rest := RemoveAt(list, i);
        RemoveInOrder(list, init, i);
        FrontInOrder(rest, init, ops, if op.GetOp? then list[i].1 else op.value);
      } else if op.PutOp? {
        FrontInOrder(list, init, ops, op.value);
        PrefixInOrder([(op.key, op.value)] + list, ops, |list|);
      } else {
        MissInOrder(list, init, ops);
      }
    }
  }

  lemma HasAt<K, V>(list: Recency<K, V>, i: nat)
    requires i < |list|
    ensures Has(list, list[i].0)
  {
  }

  /** A put keeps every other entry, except the last one if the key is new and the list is full. */
  lemma StoreKeeps<K, V>(list: Recency<K, V>, capacity: nat, key: K, value: V, j: nat)
    requires DistinctKeys(list) && |list| <= capacity && j < |list| && list[j].0 != key
    ensures Has(Store(list, capacity, key, value), list[j].0) <==>
            Has(list, key) || |list| < capacity || j < |list| - 1
  {
    var list' := Store(list, capacity, key, value);
    var k := Index(list, key);
    if k < |list| {
      assert list'[if j < k then j + 1 else j] == list[j];
      HasAt(list', if j < k then j + 1 else j);
    } else if |list| < capacity || j < |list| - 1 {
      assert list'[j + 1] == list[j];
      HasAt(list', j + 1);
    } else {
      forall i | 0 <= i < |list'| ensures list'[i].0 != list[j].0 {
        if i > 0 { assert list'[i] == list[i - 1]; }
      }
    }
  }

  /** Some entry was last called before the one at `j`. */
  ghost predicate SomeOlder<K, V>(list: Recency<K, V>, ops: seq<Op<K, V>>, j: nat)
    requires j < |list|
  {
    exists i :: 0 <= i < |list| && LastCall(ops, list[i].0) < LastCall(ops, list[j].0)
  }

  lemma OldestIsLast<K, V>(list: Recency<K, V>, ops: seq<Op<K, V>>, j: nat)
    requires InOrder(list, ops) && j < |list|
    ensures SomeOlder(list, ops, j) <==> j < |list| - 1
  {
    var n := |list| - 1;
    if j < n { assert LastCall(ops, list[n].0) < LastCall(ops, list[j].0); }
  }

  /** What a put of a new key into a full cache drops is the entry whose last call is longest ago, and
      nothing else; with room left nothing is dropped. */
  lemma EvictsOldest<K, V>(capacity: nat, ops: seq<Op<K, V>>, list: Recency<K, V>, key: K, value: V, j: nat)
    requires list == After(capacity, ops) && j < |list| && list[j].0 != key
    ensures Has(Store(list, capacity, key, value), list[j].0) <==>
            Has(list, key) || |list| < capacity || SomeOlder(list, ops, j)
  {
    assert DistinctKeys(list) && |list| <= capacity by { SmallerWithinLarger(capacity, capacity, ops); }
    StoreKeeps(list, capacity, key, value, j);
    assert InOrder(list, ops) by { ListedByUse(capacity, ops); }
    OldestIsLast(list, ops, j);
  }

  /** A put key is in front, unless there is no room at all. */
  lemma PutIsFirst<K, V>(list: Recency<K, V>, capacity: nat, key: K, value: V)
    requires capacity > 0
    ensures Store(list, capacity, key, value) != [] && Store(list, capacity, key, value)[0] == (key, value)
  {
  }

  /** Over every run a get answers the value last put under its key, or nothing if the key is gone. */
  lemma GetAnswers<K, V>(capacity: nat, ops: seq<Op<K, V>>, key: K)
    ensures Touch(After(capacity, ops), key).1 == if Has(After(capacity, ops), key) then LastPut(ops, key) else None
  {
    ListedByUse(capacity, ops);
  }

  // ---- the cache object ----

  /** A list element; `id` stands for the list iterator that refers to it, which stays valid while the
      element is moved around. */
  datatype Node<K, V> = Node(id: nat, key: K, value: V)

  ghost function Entries<K, V>(list: seq<Node<K, V>>): (r: Recency<K, V>)
    ensures |r| == |list|
  {
    seq(|list|, i requires 0 <= i < |list| => (list[i].key, list[i].value))
  }

  ghost function KeysOf<K, V>(list: seq<Node<K, V>>): set<K> {
    set n | n in list :: n.key
  }

  /** The table maps exactly the listed keys, each to its own element. */
  ghost predicate Linked<K, V>(list: seq<Node<K, V>>, table: map<K, nat>, nextId: nat) {
    && table.Keys == KeysOf(list)
    && (forall i :: 0 <= i < |list| ==> list[i].key in table && table[list[i].key] == list[i].id < nextId)
    && (forall i, j :: 0 <= i < j < |list| ==> list[i].id != list[j].id && list[i].key != list[j].key)
  }

  function ToFront<K, V>(list: seq<Node<K, V>>, i: nat): (r: seq<Node<K, V>>)
    requires i < |list|
    ensures |r| == |list|
  {
    [list[i]] + RemoveAt(list, i)
  }

  /** The element now at `j` was at `Origin(i, j)`. */
  function Origin(i: nat, j: nat): nat {
    if j == 0 then i else if j <= i then j - 1 else j
  }

  lemma ToFrontAt<K, V>(list: seq<Node<K, V>>, i: nat)
    requires i < |list|
    ensures forall j :: 0 <= j < |list| ==> ToFront(list, i)[j] == list[Origin(i, j)]
    ensures Entries(ToFront(list, i)) == [Entries(list)[i]] + RemoveAt(Entries(list), i)
  {
    var r := ToFront(list, i);
    forall j | 0 <= j < |list| ensures r[j] == list[Origin(i, j)] {
      if j > 0 { assert r[j] == RemoveAt(list, i)[j - 1]; }
    }
  }

  lemma SameKeys<K, V>(list: seq<Node<K, V>>, r: seq<Node<K, V>>, i: nat)
    requires i < |list| == |r| && forall j :: 0 <= j < |list| ==> r[j] == list[Origin(i, j)]
    ensures KeysOf(r) == KeysOf(list)
  {
    forall n | n in list ensures n in r {
      var j :| 0 <= j < |list| && list[j] == n;
      var m := if j == i then 0 else if j < i then j + 1 else j;
      assert Origin(i, m) == j;
      assert r[m] == n;
    }
    forall n | n in r ensures n in list {
      var j :| 0 <= j < |r| && r[j] == n;
      assert list[Origin(i, j)] == n;
    }
  }

  lemma LinkedPermuted<K, V>(list: seq<Node<K, V>>, r: seq<Node<K, V>>, i: nat, table: map<K, nat>, nextId: nat)
    requires Linked(list, table, nextId) && i < |list| == |r|
    requires forall j :: 0 <= j < |list| ==> r[j] == list[Origin(i, j)]
    ensures Linked(r, table, nextId)
  {
    assert KeysOf(r) == KeysOf(list) by { SameKeys(list, r, i); }
    forall j, k | 0 <= j < k < |r| ensures r[j].id != r[k].id && r[j].key != r[k].key {
      var m, n := Origin(i, j), Origin(i, k);
      assert m < n || n < m;
    }
  }

  lemma ToFrontLinked<K, V>(list: seq<Node<K, V>>, table: map<K, nat>, nextId: nat, i: nat)
    requires Linked(list, table, nextId) && i < |list|
    ensures Linked(ToFront(list, i), table, nextId)
  {
    ToFrontAt(list, i);
    LinkedPermuted(list, ToFront(list, i), i, table, nextId);
  }

  lemma SetValueLinked<K, V>(list: seq<Node<K, V>>, table: map<K, nat>, nextId: nat, i: nat, value: V)
    requires Linked(list, table, nextId) && i < |list|
    ensures Linked(list[i := list[i].(value := value)], table, nextId)
  {
    var r := list[i := list[i].(value := value)];
    forall n | n in list ensures n.key in KeysOf(r) {
      var j :| 0 <= j < |list| && list[j] == n;
      assert r[j] in r && r[j].key == n.key;
    }
    forall n | n in r ensures n.key in KeysOf(list) {
      var j :| 0 <= j < |r| && r[j] == n;
      assert list[j] in list && list[j].key == n.key;
    }
  }

  lemma KeysOfCons<K, V>(n: Node<K, V>, list: seq<Node<K, V>>)
    ensures KeysOf([n] + list) == KeysOf(list) + {n.key}
  {
    var r := [n] + list;
    assert r[0] == n;
    assert forall m :: m in r <==> m == n || m in list;
  }

  lemma PushLinked<K, V>(list: seq<Node<K, V>>, table: map<K, nat>, nextId: nat, key: K, value: V)
    requires Linked(list, table, nextId) && key !in table
    ensures Linked([Node(nextId, key, value)] + list, table[key := nextId], nextId + 1)
  {
    var n := Node(nextId, key, value);
    var r, table' := [n] + list, table[key := nextId];
    assert table'.Keys == KeysOf(r) by { KeysOfCons(n, list); }
    forall i | 0 <= i < |r| ensures r[i].key in table' && table'[r[i].key] == r[i].id < nextId + 1 {
      if i > 0 { assert r[i] == list[i - 1]; }
    }
    forall i, j | 0 <= i < j < |r| ensures r[i].id != r[j].id && r[i].key != r[j].key {
      assert r[j] == list[j - 1];
      if i > 0 { assert r[i] == list[i - 1]; }
    }
  }

  lemma KeysOfPrefix<K, V>(list: seq<Node<K, V>>, m: nat)
    requires |list| == m + 1 && forall i :: 0 <= i < m ==> list[i].key != list[m].key
    ensures KeysOf(list[..m]) == KeysOf(list) - {list[m].key}
  {
    var r := list[..m];
    forall n | n in list && n.key != list[m].key ensures n in r {
      var j :| 0 <= j < |list| && list[j] == n;
      assert r[j] == n;
    }
    forall n | n in r ensures n in list && n.key != list[m].key {
      var j :| 0 <= j < |r| && r[j] == n;
    }
  }

  lemma PopLinked<K, V>(list: seq<Node<K, V>>, table: map<K, nat>, nextId: nat)
    requires Linked(list, table, nextId) && list != []
    ensures Linked(list[..|list| - 1], table - {list[|list| - 1].key}, nextId)
  {
    KeysOfPrefix(list, |list| - 1);
  }

  class LRUCache<K(==), V> {
    const capacity: nat
    var list: seq<Node<K, V>>
    var table: map<K, nat>
    var nextId: nat

    ghost function Contents(): Recency<K, V>
      reads this
    {
      Entries(list)
    }

    ghost predicate Valid()
      reads this
    {
      Linked(list, table, nextId) && |list| <= capacity
    }

    constructor (capacity: nat)
      ensures Valid() && Contents() == [] && this.capacity == capacity
    {
      this.capacity, list, table, nextId := capacity, [], map[], 0;
    }

    /** The list element that the table's iterator for a present key refers to. */
    method Find(key: K) returns (i: nat)
      requires Valid() && key in table
      ensures i < |list| && list[i].key == key && i == Index(Contents(), key)
    {
      i := 0;
      ghost var at :| 0 <= at < |list| && list[at].key == key;
      while list[i].id != table[key]
        invariant i <= at && forall j :: 0 <= j < i ==> list[j].key != key
        decreases |list| - i
      {
        i := i + 1;
      }
      assert i == at;
      assert Contents()[i].0 == key;
    }

    lemma NotListed(key: K)
      requires Valid() && key !in table
      ensures !Has(Contents(), key)
    {
      forall i | 0 <= i < |list| ensures Contents()[i].0 != key { assert list[i].key in table; }
    }

    /** `splice` to the front: the table entry keeps referring to the same element. */
    method MoveToFront(i: nat)
      requires Valid() && i < |list|
      modifies this`list, this`table
      ensures Valid() && list == ToFront(old(list), i)
    {
      ToFrontLinked(list, table, nextId, i);
      list := ToFront(list, i);
      assert table[list[0].key] == list[0].id;
      table := table[list[0].key := list[0].id];
      assert table == old(table);
    }

    method Get(key: K) returns (value: Option<V>)
      requires Valid()
      modifies this`list, this`table
      ensures Valid() && (Contents(), value) == Touch(old(Contents()), key)
    {
      if key in table {
        var i := Find(key);
        ToFrontAt(list, i);
        MoveToFront(i);
        return Some(list[0].value);
      }
      NotListed(key);
      return None;
    }

    /** Returns the entry that was pushed out, for the eviction callback. */
    method Put(key: K, value: V) returns (evicted: Option<(K, V)>)
      requires Valid()
      modifies this
      ensures Valid() && Contents() == Store(old(Contents()), capacity, key, value)
      ensures evicted.Some? <==> !Has(old(Contents()), key) && |old(Contents())| == capacity
      ensures evicted.Some? ==> evicted.value == ([(key, value)] + old(Contents()))[capacity]
    {
      if key in table {
        PutPresent(key, value);
        evicted := None;
      } else {
        NotListed(key);
        evicted := PutNew(key, value);
      }
    }

    /** The update branch of `Put`. */
    method PutPresent(key: K, value: V)
      requires Valid() && key in table
      modifies this`list, this`table
      ensures Valid() && Has(old(Contents()), key)
      ensures Contents() == [(key, value)] + Without(old(Contents()), key)
    {
      ghost var contents := Contents();
      var i := Find(key);
      SetValueLinked(list, table, nextId, i, value);
      list := list[i := list[i].(value := value)];
      assert Contents() == contents[i := (key, value)];
      ToFrontAt(list, i);
      MoveToFront(i);
      assert RemoveAt(contents[i := (key, value)], i) == RemoveAt(contents, i);
    }

    /** The insertion branch of `Put`. */
    method PutNew(key: K, value: V) returns (evicted: Option<(K, V)>)
      requires Valid() && key !in table
      modifies this
      ensures Valid()
      ensures var longer := [(key, value)] + old(Contents());
              if |longer| > capacity
              then Contents() == longer[..capacity] && evicted == Some(longer[capacity])
              else Contents() == longer && evicted == None
    {
      PushFront(key, value);
      if |list| <= capacity { return None; }
      evicted := PopBack();
    }

    method PushFront(key: K, value: V)
      requires Linked(list, table, nextId) && key !in table
      modifies this
      ensures Linked(list, table, nextId) && Contents() == [(key, value)] + old(Contents())
    {
      ghost var longer := [(key, value)] + Contents();
      PushLinked(list, table, nextId, key, value);
      list := [Node(nextId, key, value)] + list;
      table := table[key := nextId];
      nextId := nextId + 1;
      assert Contents() == longer;
    }

    method PopBack() returns (evicted: Option<(K, V)>)
      requires Linked(list, table, nextId) && list != []
      modifies this`list, this`table
      ensures Linked(list, table, nextId)
      ensures var n := |old(Contents())| - 1;
              Contents() == old(Contents())[..n] && evicted == Some(old(Contents())[n])
    {
      var last := list[|list| - 1];
      PopLinked(list, table, nextId);
      table := table - {last.key};
      list := list[..|list| - 1];
      return Some((last.key, last.value));
    }
  }
}
