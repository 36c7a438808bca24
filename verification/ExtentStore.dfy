/** The extent server, the write-back extent cache in front of it, and the central map that both
    together are meant to look like. */
module ExtentStore {
  import opened Bytes

  type Id = nat
  type Content = seq<Byte>

  datatype Status = OK | NOENT

  /** Growing pads with zero bytes, shrinking drops the tail. */
  function Resize(c: Content, n: nat): (r: Content)
    ensures |r| == n
    ensures forall i :: 0 <= i < n ==> r[i] == if i < |c| then c[i] else 0
  {
    if n <= |c| then c[..n] else c + seq(n - |c|, _ => 0)
  }

  /** The `size` attribute is a 32-bit field. */
  function Size32(c: Content): (n: nat)
    ensures n < TWO_32 && (|c| - n) % TWO_32 == 0
  {
    |c| % TWO_32
  }

  datatype Op = Put(buf: Content) | Get | GetAttr | SetAttr(size: nat) | Remove

  datatype Result = Result(status: Status, buf: Content, size: nat)

  const DONE: Result := Result(OK, [], 0)
  const MISSING: Result := Result(NOENT, [], 0)

  function Lookup(m: map<Id, Content>, id: Id): Option<Content> {
    if id in m then Some(m[id]) else None
  }

  /** One operation on an extent, given what is there: what is there afterwards, and the answer. */
  function Central(x: Option<Content>, op: Op): (Option<Content>, Result) {
    match op
    case Put(buf) => (Some(buf), DONE)
    case Get => (x, if x.Some? then Result(OK, x.value, 0) else MISSING)
    case GetAttr => (x, if x.Some? then Result(OK, [], Size32(x.value)) else MISSING)
    case SetAttr(n) => if x.Some? then (Some(Resize(x.value, n)), DONE) else (x, MISSING)
    case Remove => (None, DONE)
  }

  class ExtentServer {
    var extents: map<Id, Content>

    constructor ()
      ensures extents == map[1 := []]
    {
      extents := map[1 := []];
    }

    method Put(id: Id, buf: Content) returns (st: Status)
      modifies this
      ensures extents == old(extents)[id := buf] && st == OK
    {
      extents := extents[id := buf];
      return OK;
    }

    method Get(id: Id) returns (st: Status, buf: Content)
      ensures Central(Lookup(extents, id), Op.Get).1 == Result(st, buf, 0)
    {
      if id in extents { return OK, extents[id]; }
      return NOENT, [];
    }

    method GetAttr(id: Id) returns (st: Status, size: nat)
      ensures Central(Lookup(extents, id), Op.GetAttr).1 == Result(st, [], size)
    {
      if id in extents { return OK, |extents[id]| % TWO_32; }
      return NOENT, 0;
    }

    method SetAttr(id: Id, size: nat) returns (st: Status)
      modifies this
      ensures Lookup(extents, id) == Central(Lookup(old(extents), id), Op.SetAttr(size)).0
      ensures st == Central(Lookup(old(extents), id), Op.SetAttr(size)).1.status
      ensures forall j :: j != id ==> Lookup(extents, j) == Lookup(old(extents), j)
    {
      if id in extents {
        var oldSize := |extents[id]|;
        if oldSize == size {
          assert Resize(extents[id], size) == extents[id];
          return OK;
        }
        if size > oldSize {
          extents := extents[id := extents[id] + seq(size - oldSize, _ => 0)];
        } else {
          extents := extents[id := extents[id][..size]];
        }
        return OK;
      }
      return NOENT;
    }

    method Remove(id: Id) returns (st: Status)
      modifies this
      ensures extents == old(extents) - {id} && st == OK
    {
      if id in extents {
        extents := extents - {id};
        return OK;
      }
      return OK;
    }
  }

  /** A cached extent.  A deleted one is a tombstone that hides the server's copy until the flush. */
  datatype Entry = Entry(content: Content, deleted: bool, dirty: bool)

  /** The entry that a fetched extent is cached as. */
  function Clean(buf: Content): Entry { Entry(buf, false, false) }

  const TOMBSTONE: Entry := Entry([], true, true)

  /** What the holder of an extent sees: its own cache before the server. */
  function Visible(stored: Option<Content>, entry: Option<Entry>): Option<Content> {
    match entry
    case None => stored
    case Some(e) => if e.deleted then None else Some(e.content)
  }

  /** A clean entry is a live copy of what the server has. */
  ghost predicate EntryOk(stored: Option<Content>, entry: Option<Entry>) {
    entry.Some? && !entry.value.dirty ==> !entry.value.deleted && stored == Some(entry.value.content)
  }

  /** An operation on a cached extent, or one that needs no fetch.  `get` sets the dirty flag too,
      because it has to write the access time back. */
  function OnEntry(entry: Option<Entry>, op: Op): (Option<Entry>, Result)
    requires entry.Some? || op.Put? || op.Remove?
  {
    match op
    case Put(buf) => (Some(Entry(buf, false, true)), DONE)
    case Remove =>
      (Some(if entry.Some? then entry.value.(deleted := true, dirty := true) else TOMBSTONE), DONE)
    case Get =>
      var e := entry.value;
      if e.deleted then (entry, MISSING) else (Some(e.(dirty := true)), Result(OK, e.content, 0))
    case GetAttr =>
      (entry, if entry.value.deleted then MISSING else Result(OK, [], Size32(entry.value.content)))
    case SetAttr(n) =>
      var e := entry.value;
      if e.deleted then (entry, MISSING)
      else (Some(e.(content := Resize(e.content, n), dirty := true)), DONE)
  }

  /** Operating on the cache is operating on what is visible. */
  lemma OnEntryIsCentral(stored: Option<Content>, entry: Option<Entry>, op: Op)
    requires EntryOk(stored, entry) && (entry.Some? || op.Put? || op.Remove?)
    ensures var (entry', result) := OnEntry(entry, op);
            && EntryOk(stored, entry')
            && Central(Visible(stored, entry), op) == (Visible(stored, entry'), result)
  {
  }

  /** What the server holds once a live dirty entry has been put and its size set.  The 32-bit size
      attribute cuts off everything from 2^32 bytes on, and only then does a flush lose anything. */
  lemma FlushExactlyBelow4G(c: Content)
    ensures Resize(c, Size32(c)) == c <==> |c| < TWO_32
  {
    assert Size32(c) == |c| <==> |c| < TWO_32;
  }

  class ExtentClientCache {
    const server: ExtentServer
    var cache: map<Id, Entry>

    ghost function EntryOf(id: Id): Option<Entry>
      reads this
    {
      if id in cache then Some(cache[id]) else None
    }

    /** What this client sees of extent `id`. */
    ghost function See(id: Id): Option<Content>
      reads this, server
    {
      Visible(Lookup(server.extents, id), EntryOf(id))
    }

    ghost predicate Valid()
      reads this, server
    {
      forall id :: id in cache ==> EntryOk(Lookup(server.extents, id), EntryOf(id))
    }

    constructor (server: ExtentServer)
      ensures this.server == server && cache == map[] && Valid()
    {
      this.server, cache := server, map[];
    }

    method Put(id: Id, buf: Content) returns (st: Status)
      requires Valid()
      modifies this
      ensures Valid() && st == OK && See(id) == Some(buf)
      ensures cache == old(cache)[id := Entry(buf, false, true)]
    {
      cache := cache[id := Entry(buf, false, true)];
      return OK;
    }

    /** Reading never changes what is seen, of this or any other extent. */
    method Get(id: Id) returns (st: Status, buf: Content)
      requires Valid()
      modifies this
      ensures Valid() && forall j :: See(j) == old(See(j))
      ensures Result(st, buf, 0) == Central(old(See(id)), Op.Get).1
      ensures cache == if st == OK then old(cache)[id := Entry(buf, false, id in old(cache))] else old(cache)
    {
      if id !in cache {
        st, buf := server.Get(id);
        if st != OK { return; }
        var size;
        st, size := server.GetAttr(id);
        if st != OK { return; }
        cache := cache[id := Clean(buf)];
      } else {
        if cache[id].deleted { return NOENT, []; }
        buf := cache[id].content;
        cache := cache[id := cache[id].(dirty := true)];
      }
      return OK, buf;
    }

    method GetAttr(id: Id) returns (st: Status, size: nat)
      requires Valid()
      modifies this
      ensures Valid() && forall j :: See(j) == old(See(j))
      ensures Result(st, [], size) == Central(old(See(id)), Op.GetAttr).1
      ensures cache == if st == OK && id !in old(cache) then old(cache)[id := Entry(old(See(id)).value, false, false)]
                       else old(cache)
    {
      if id !in cache {
        st, size := server.GetAttr(id);
        if st != OK { return; }
        var buf;
        st, buf := server.Get(id);
        if st != OK { return; }
        cache := cache[id := Clean(buf)];
      } else {
        if cache[id].deleted { return NOENT, 0; }
        size := |cache[id].content| % TWO_32;
      }
      return OK, size;
    }

    method SetAttr(id: Id, size: nat) returns (st: Status)
      requires Valid()
      modifies this
      ensures Valid() && See(id) == Central(old(See(id)), Op.SetAttr(size)).0
      ensures st == Central(old(See(id)), Op.SetAttr(size)).1.status
      ensures cache == if st == OK then old(cache)[id := Entry(Resize(old(See(id)).value, size), false, true)]
                       else old(cache)
      ensures forall j :: j != id ==> See(j) == old(See(j))
    {
      var value: Entry;
      if id in cache {
        if cache[id].deleted { return NOENT; }
        value := cache[id];
      } else {
        var buf;
        st, buf := server.Get(id);
        if st != OK { return; }
        value := Clean(buf);
      }
      var oldSize := |value.content|;
      if oldSize != size {
        if size > oldSize {
          value := value.(content := value.content + seq(size - oldSize, _ => 0));
        } else {
          value := value.(content := value.content[..size]);
        }
      }
      assert value.content == Resize(old(See(id)).value, size);
      cache := cache[id := value.(dirty := true)];
      return OK;
    }

    method Remove(id: Id) returns (st: Status)
      requires Valid()
      modifies this
      ensures Valid() && st == OK && See(id) == None
      ensures cache - {id} == old(cache) - {id} && id in cache && cache[id].deleted && cache[id].dirty
    {
      if id in cache {
        cache := cache[id := cache[id].(deleted := true, dirty := true)];
      } else {
        cache := cache[id := TOMBSTONE];
      }
      return OK;
    }

    /** Flushing empties the cache entry and changes nothing that is seen, up to the 32-bit size. */
    method Flush(id: Id) returns (st: Status)
      requires Valid()
      modifies this, server
      ensures Valid() && st == OK && cache == old(cache) - {id}
      ensures forall j :: j != id ==> See(j) == old(See(j))
      ensures See(id) == if old(EntryOf(id)).Some? && old(See(id)).Some? && old(cache[id]).dirty
                         then Some(Resize(old(See(id)).value, Size32(old(See(id)).value)))
                         else old(See(id))
    {
      st := OK;
      if id in cache {
        var value := cache[id];
        if value.dirty {
          if value.deleted {
            st := server.Remove(id);
          } else {
            st := server.Put(id, value.content);
            st := server.SetAttr(id, |value.content| % TWO_32);
          }
        }
      }
      cache := cache - {id};
    }
  }
}
