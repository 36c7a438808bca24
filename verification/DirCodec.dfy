/** The directory format of the file system client: for each entry a four-byte name length, the name,
    and an eight-byte inode number. */
module DirCodec {
  import opened Bytes

  datatype Dirent = Dirent(name: seq<Byte>, inum: nat)

  function EncodeEntry(e: Dirent): (r: seq<Byte>)
    ensures |r| == 12 + |e.name|
  {
    ToLE(|e.name|, 4) + e.name + ToLE(e.inum, 8)
  }

  function Encode(vec: seq<Dirent>): seq<Byte> {
    if vec == [] then [] else EncodeEntry(vec[0]) + Encode(vec[1..])
  }

  datatype Parsed = Parsed(ok: bool, vec: seq<Dirent>)

  /** One entry at `i`: where it ends and what it is, or nothing if the content is too short for it.
      The length is read as a signed 32-bit number and compared as an unsigned one. */
  function ParseEntry(content: seq<Byte>, i: nat): (r: Option<(nat, Dirent)>)
    requires i <= |content|
    ensures r.Some? ==> i < r.value.0 <= |content|
  {
    if |content| - i < 4 then None else
      var size := FromLE(content[i..i + 4]);
      if |content| - (i + 4) < size then None else
        var j := i + 4 + size;
        if |content| - j < 8 then None
        else Some((j + 8, Dirent(content[i + 4..j], FromLE(content[j..j + 8]))))
  }

  /** `parse_dir` from position `i`; on a malformed entry the earlier entries have been delivered. */
  function Parse(content: seq<Byte>, i: nat): Parsed
    requires i <= |content|
    decreases |content| - i
  {
    if i == |content| then Parsed(true, []) else
      match ParseEntry(content, i)
      case None => Parsed(false, [])
      case Some((next, e)) =>
        var rest := Parse(content, next);
        Parsed(rest.ok, [e] + rest.vec)
  }

  // ---- the two directions ----

  ghost predicate EntryOk(e: Dirent) {
    |e.name| < TWO_31 && e.inum < TWO_64
  }

  ghost predicate VecOk(vec: seq<Dirent>) {
    forall i :: 0 <= i < |vec| ==> EntryOk(vec[i])
  }

  lemma SubSlice(s: seq<Byte>, i: nat, k: nat, a: nat, b: nat)
    requires i <= k <= |s| && a <= b <= k - i
    ensures s[i..k][a..b] == s[i + a..i + b]
  {
    var t := s[i..k];
    assert forall j :: a <= j < b ==> t[a..b][j - a] == t[j] == s[i + j];
  }

  lemma EntrySlices(content: seq<Byte>, i: nat, e: Dirent)
    requires i + 12 + |e.name| <= |content| && content[i..i + 12 + |e.name|] == EncodeEntry(e)
    ensures content[i..i + 4] == ToLE(|e.name|, 4)
    ensures content[i + 4..i + 4 + |e.name|] == e.name
    ensures content[i + 4 + |e.name|..i + 12 + |e.name|] == ToLE(e.inum, 8)
  {
    var n, x := |e.name|, EncodeEntry(e);
    SubSlice(content, i, i + 12 + n, 0, 4);
    SubSlice(content, i, i + 12 + n, 4, 4 + n);
    SubSlice(content, i, i + 12 + n, 4 + n, 12 + n);
    assert x[0..4] == ToLE(n, 4) && x[4..4 + n] == e.name && x[4 + n..12 + n] == ToLE(e.inum, 8);
  }

  lemma ParseEntryBack(content: seq<Byte>, i: nat, e: Dirent)
    requires EntryOk(e) && i + 12 + |e.name| <= |content| && content[i..i + 12 + |e.name|] == EncodeEntry(e)
    ensures ParseEntry(content, i) == Some((i + 12 + |e.name|, e))
  {
    EntrySlices(content, i, e);
    assert FromLE(ToLE(|e.name|, 4)) == |e.name| by { Pow256Values(); FromToLE(|e.name|, 4); }
    assert FromLE(ToLE(e.inum, 8)) == e.inum by { Pow256Values(); FromToLE(e.inum, 8); }
  }

  /** An entry that parses is, byte for byte, the encoding of what it parses to. */
  lemma EncodeEntryBack(content: seq<Byte>, i: nat)
    requires i <= |content| < TWO_31 && ParseEntry(content, i).Some?
    ensures var (next, e) := ParseEntry(content, i).value;
            EntryOk(e) && next == i + 12 + |e.name| && content[i..next] == EncodeEntry(e)
  {
    var (next, e) := ParseEntry(content, i).value;
    var j := next - 8;
    Pow256Values();
    ToFromLE(content[i..i + 4]);
    ToFromLE(content[j..next]);
    assert content[i..next] == content[i..i + 4] + content[i + 4..j] + content[j..next];
  }

  lemma {:induction false} ParseBack(content: seq<Byte>, i: nat, vec: seq<Dirent>)
    requires VecOk(vec) && i <= |content| && content[i..] == Encode(vec)
    ensures Parse(content, i) == Parsed(true, vec)
    decreases |vec|
  {
    if vec == [] {
      assert |content[i..]| == 0;
    } else {
      var next := i + 12 + |vec[0].name|;
      SplitTail(content, i, EncodeEntry(vec[0]), Encode(vec[1..]));
      ParseEntryBack(content, i, vec[0]);
      ParseBack(content, next, vec[1..]);
      ParseStep(content, i, next, vec[0], vec[1..]);
      assert vec == [vec[0]] + vec[1..];
    }
  }

  lemma ParseStep(content: seq<Byte>, i: nat, next: nat, e: Dirent, rest: seq<Dirent>)
    requires i < next <= |content| && ParseEntry(content, i) == Some((next, e))
    requires Parse(content, next) == Parsed(true, rest)
    ensures Parse(content, i) == Parsed(true, [e] + rest)
  {
  }

  lemma {:induction false} EncodeBack(content: seq<Byte>, i: nat)
    requires i <= |content| < TWO_31 && Parse(content, i).ok
    ensures VecOk(Parse(content, i).vec) && Encode(Parse(content, i).vec) == content[i..]
    decreases |content| - i
  {
    if i < |content| {
      var (next, e) := ParseEntry(content, i).value;
      EncodeEntryBack(content, i);
      EncodeBack(content, next);
      var rest := Parse(content, next).vec;
      assert ([e] + rest)[1..] == rest;
      assert content[i..] == content[i..next] + content[next..];
    }
  }

  /** Parsing undoes encoding. */
  lemma ParseUndoesEncode(vec: seq<Dirent>)
    requires VecOk(vec)
    ensures Parse(Encode(vec), 0) == Parsed(true, vec)
  {
    assert Encode(vec)[0..] == Encode(vec);
    ParseBack(Encode(vec), 0, vec);
  }

  /** Encoding undoes every successful parse, so a content parses exactly when it is an encoding, and
      then of one list of entries only. */
  lemma EncodeUndoesParse(content: seq<Byte>)
    requires |content| < TWO_31
    ensures Parse(content, 0).ok ==> Encode(Parse(content, 0).vec) == content
    ensures Parse(content, 0).ok <==> exists vec :: VecOk(vec) && Encode(vec) == content
    ensures forall vec :: VecOk(vec) && Encode(vec) == content ==> vec == Parse(content, 0).vec
  {
    assert content[0..] == content;
    if Parse(content, 0).ok { EncodeBack(content, 0); }
    forall vec | VecOk(vec) && Encode(vec) == content ensures Parse(content, 0) == Parsed(true, vec) {
      ParseBack(content, 0, vec);
    }
  }

  // ---- the loops ----

  /** `parse_dir`: appends to `vec`; every read stays inside the content. */
  method ParseDir(content: seq<Byte>, vec0: seq<Dirent>) returns (ret: int, vec: seq<Dirent>)
    requires |content| < TWO_31
    ensures var p := Parse(content, 0); ret == (if p.ok then 0 else -1) && vec == vec0 + p.vec
  {
    vec := vec0;
    var i := 0;
    ghost var all := Parse(content, 0);
    while i < |content|
      invariant i <= |content|
      invariant all.ok == Parse(content, i).ok
      invariant vec0 + all.vec == vec + Parse(content, i).vec
      decreases |content| - i
    {
      ghost var start, rest := i, Parse(content, i).vec;
      if |content| - i < 4 { return -1, vec; }
      var size := FromLE(content[i..i + 4]);
      i := i + 4;
      if |content| - i < size { return -1, vec; }
      var name := content[i..i + size];
      i := i + size;
      if |content| - i < 8 { return -1, vec; }
      var inum := FromLE(content[i..i + 8]);
      i := i + 8;
      assert ParseEntry(content, start) == Some((i, Dirent(name, inum)));
      vec := vec + [Dirent(name, inum)];
      assert vec + Parse(content, i).vec == vec[..|vec| - 1] + rest;
    }
    return 0, vec;
  }

  lemma {:induction false} EncodeAppend(vec: seq<Dirent>, e: Dirent)
    ensures Encode(vec + [e]) == Encode(vec) + EncodeEntry(e)
  {
    if vec == [] {
      assert [e][1..] == [];
      assert vec + [e] == [e];
    } else {
      EncodeAppend(vec[1..], e);
      assert (vec + [e])[1..] == vec[1..] + [e];
      Assoc(EncodeEntry(vec[0]), Encode(vec[1..]), EncodeEntry(e));
    }
  }

  method EncodeDir(vec: seq<Dirent>) returns (content: seq<Byte>)
    ensures content == Encode(vec)
  {
    content := [];
    for i := 0 to |vec|
      invariant content == Encode(vec[..i])
    {
      assert vec[..i + 1] == vec[..i] + [vec[i]];
      EncodeAppend(vec[..i], vec[i]);
      content := content + (ToLE(|vec[i].name|, 4) + vec[i].name + ToLE(vec[i].inum, 8));
    }
    assert vec[..|vec|] == vec;
  }
}
