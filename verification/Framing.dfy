/** Length-framed byte strings in a file: an eight-byte total length, then the body. */
module Framing {
  import opened Bytes

  function FrameBody(body: seq<Byte>): (r: seq<Byte>)
    ensures |r| == |body| + 8
  {
    ToLE(|body| + 8, 8) + body
  }

  /** The body framed at `pos`; `None` where the file does not hold one. */
  function ReadBody(file: seq<Byte>, pos: nat): (r: Option<seq<Byte>>)
    ensures r.Some? ==> pos + |r.value| + 8 <= |file|
  {
    if |file| < pos + 8 then None else
      var n := FromLE(file[pos..pos + 8]);
      if n < 8 || |file| < pos + n then None else Some(file[pos + 8..pos + n])
  }

  function FrameBodies(bodies: seq<seq<Byte>>): seq<Byte> {
    if bodies == [] then [] else FrameBody(bodies[0]) + FrameBodies(bodies[1..])
  }

  lemma {:induction false} FrameBodiesConcat(a: seq<seq<Byte>>, b: seq<seq<Byte>>)
    ensures FrameBodies(a + b) == FrameBodies(a) + FrameBodies(b)
    decreases |a|
  {
    if a == [] {
      assert a + b == b;
    } else {
      FrameBodiesConcat(a[1..], b);
      assert (a + b)[1..] == a[1..] + b;
      Assoc(FrameBody(a[0]), FrameBodies(a[1..]), FrameBodies(b));
    }
  }

  lemma FrameOne(body: seq<Byte>)
    ensures FrameBodies([body]) == FrameBody(body)
  {
    assert [body][1..] == [];
  }

  /** A framed body is read back, and reading stops where the next one starts. */
  lemma ReadBodyBack(file: seq<Byte>, pos: nat, body: seq<Byte>, rest: seq<seq<Byte>>)
    requires |body| + 8 < TWO_64 && pos <= |file| && file[pos..] == FrameBodies([body] + rest)
    ensures ReadBody(file, pos) == Some(body)
    ensures pos + |body| + 8 <= |file| && file[pos + |body| + 8..] == FrameBodies(rest)
  {
    assert ([body] + rest)[1..] == rest;
    SplitTail(file, pos, FrameBody(body), FrameBodies(rest));
    ReadFramed(file, pos, body);
  }

  lemma ReadFramed(file: seq<Byte>, pos: nat, body: seq<Byte>)
    requires |body| + 8 < TWO_64 && pos + |body| + 8 <= |file|
    requires file[pos..pos + |body| + 8] == FrameBody(body)
    ensures ReadBody(file, pos) == Some(body)
  {
    var n := |body| + 8;
    var frame := file[pos..pos + n];
    assert file[pos..pos + 8] == frame[..8] == ToLE(n, 8);
    Pow256Values();
    FromToLE(n, 8);
    assert file[pos + 8..pos + n] == frame[8..] == body;
  }

  // ---- decoded bodies ----

  /** The framed value at `pos` and how far it extends. */
  function ReadOne<T>(decode: seq<Byte> -> Option<T>, file: seq<Byte>, pos: nat): (r: Option<(T, nat)>)
    ensures r.Some? ==> 0 < r.value.1 <= |file| - pos
  {
    match ReadBody(file, pos)
    case None => None
    case Some(body) =>
      match decode(body)
      case None => None
      case Some(x) => Some((x, |body| + 8))
  }

  /** All framed values from `pos` to the end of the file. */
  function ReadMany<T>(decode: seq<Byte> -> Option<T>, file: seq<Byte>, pos: nat): Option<seq<T>>
    decreases |file| - pos
  {
    if |file| <= pos then Some([]) else
      match ReadOne(decode, file, pos)
      case None => None
      case Some((x, n)) =>
        match ReadMany(decode, file, pos + n)
        case None => None
        case Some(rest) => Some([x] + rest)
  }

  /** `bodies` are the encoded forms of `xs`. */
  ghost predicate Encoded<T>(decode: seq<Byte> -> Option<T>, bodies: seq<seq<Byte>>, xs: seq<T>) {
    |bodies| == |xs| &&
    forall i :: 0 <= i < |xs| ==> |bodies[i]| + 8 < TWO_64 && decode(bodies[i]) == Some(xs[i])
  }

  ghost predicate HoldsBodies(file: seq<Byte>, pos: nat, bodies: seq<seq<Byte>>) {
    pos <= |file| && file[pos..] == FrameBodies(bodies)
  }

  lemma ReadOneBack<T>(decode: seq<Byte> -> Option<T>, file: seq<Byte>, pos: nat, bodies: seq<seq<Byte>>, xs: seq<T>)
    requires Encoded(decode, bodies, xs) && HoldsBodies(file, pos, bodies)
    ensures xs == [] <==> |file| <= pos
    ensures xs != [] ==>
              && ReadOne(decode, file, pos) == Some((xs[0], |bodies[0]| + 8))
              && HoldsBodies(file, pos + |bodies[0]| + 8, bodies[1..])
  {
    if xs == [] {
      assert |file[pos..]| == 0;
    } else {
      assert bodies == [bodies[0]] + bodies[1..];
      ReadBodyBack(file, pos, bodies[0], bodies[1..]);
    }
  }

  lemma {:induction false} ReadManyBack<T>(decode: seq<Byte> -> Option<T>, file: seq<Byte>, pos: nat,
                                           bodies: seq<seq<Byte>>, xs: seq<T>)
    requires Encoded(decode, bodies, xs) && HoldsBodies(file, pos, bodies)
    ensures ReadMany(decode, file, pos) == Some(xs)
    decreases |xs|
  {
    ReadOneBack(decode, file, pos, bodies, xs);
    if xs != [] {
      ReadManyBack(decode, file, pos + |bodies[0]| + 8, bodies[1..], xs[1..]);
      assert xs == [xs[0]] + xs[1..];
    }
  }
}
