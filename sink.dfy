/** The imperative side of unsafe_poke: a cursor into a caller-owned buffer
    (the `UnsafePokable` impl for `*mut u8`) and the `poke` methods that
    thread it through a value, writing the value's encoding in place. */
module Sink {
  import opened Bytes
  import opened Encoding

  /** A write cursor: the caller's buffer and the offset of the next byte.
      The buffer is pre-sized by the caller and never grows; the unchecked
      pointer writes of the crate become the `requires` that the bytes fit. */
  class Cursor {
    const buf: array<byte>
    var pos: nat

    constructor (buf: array<byte>, pos: nat)
      requires pos <= buf.Length
      ensures this.buf == buf && this.pos == pos
    {
      this.buf := buf;
      this.pos := pos;
    }

    /** `poke_bytes`: copies v to the cursor and moves the cursor past it;
        no other byte of the buffer changes. */
    method PokeBytes(v: seq<byte>)
      requires pos + |v| <= buf.Length
      modifies this, buf
      ensures pos == old(pos) + |v|
      ensures buf[..] == Splice(old(buf[..]), old(pos), v)
    {
      var i := 0;
      while i < |v|
        invariant 0 <= i <= |v| && pos == old(pos)
        invariant forall k :: 0 <= k < buf.Length ==>
          buf[k] == if pos <= k < pos + i then v[k - pos] else old(buf[k])
      {
        buf[pos + i] := v[i];
        i := i + 1;
      }
      assert buf[..] == Splice(old(buf[..]), pos, v);
      pos := pos + |v|;
    }

    /** `poke_pod`: copies the `size_of::<T>()` bytes of a plain-data value
        and moves the cursor past them. */
    method PokePod(p: Prim, v: Value)
      requires PodFits(p, v) && pos + Width(p) <= buf.Length
      modifies this, buf
      ensures pos == old(pos) + Width(p)
      ensures buf[..] == Splice(old(buf[..]), old(pos), PodBytes(p, v))
    {
      PokeBytes(PodBytes(p, v));
    }
  }

  /** `UnsafePoke::poke`: writes the encoding of v at the cursor and moves
      the cursor past it, leaving every other byte of the buffer as it was. */
  method Poke(s: Shape, v: Value, up: Cursor)
    requires OfShape(v, s) && up.pos + |Encode(s, v)| <= up.buf.Length
    modifies up, up.buf
    ensures up.pos == old(up.pos) + |Encode(s, v)|
    ensures up.buf[..] == Splice(old(up.buf[..]), old(up.pos), Encode(s, v))
    decreases s, 0
  {
    ghost var b0, p0 := up.buf[..], up.pos;
    match s
    case Pod(p) =>
      up.PokePod(p, v);
    case Opt(t) =>
      if v.SomeV? {
        up.PokePod(U8, IntV(1));
        Poke(t, v.some, up);
        SpliceTwice(b0, p0, PodBytes(U8, IntV(1)), Encode(t, v.some));
      } else {
        up.PokePod(U8, IntV(0));
      }
    case Array(t, _) =>
      PokeEach(t, v.elems, up);
    case Tuple(ts) =>
      PokeAll(ts, v.items, up);
    case Phantom =>
      assert Splice(b0, p0, []) == b0;
    case Derived(vs) =>
      var tag: seq<byte> := [];
      if !IsStruct(vs) {
        tag := Discriminant(v.index);
        up.PokePod(U32, IntV(v.index % Pow256(TagSize)));
      } else {
        assert Splice(b0, p0, []) == b0;
      }
      PokeAll(vs[v.index].fields, v.values, up);
      SpliceTwice(b0, p0, tag, EncodeAll(vs[v.index].fields, v.values));
  }

  /** The array impl: folds the cursor through the elements in index order. */
  method PokeEach(t: Shape, es: seq<Value>, up: Cursor)
    requires EachOfShape(es, t) && up.pos + |EncodeEach(t, es)| <= up.buf.Length
    modifies up, up.buf
    ensures up.pos == old(up.pos) + |EncodeEach(t, es)|
    ensures up.buf[..] == Splice(old(up.buf[..]), old(up.pos), EncodeEach(t, es))
    decreases t, 1
  {
    ghost var b0, p0 := up.buf[..], up.pos;
    assert es[..0] == [] && Splice(b0, p0, []) == b0;
    var i := 0;
    while i < |es|
      invariant 0 <= i <= |es| && EachOfShape(es[..i], t)
      invariant up.pos == p0 + |EncodeEach(t, es[..i])| <= p0 + |EncodeEach(t, es)|
      invariant up.buf[..] == Splice(b0, p0, EncodeEach(t, es[..i]))
    {
      EncodeEachStep(t, es, i);
      Poke(t, es[i], up);
      SpliceTwice(b0, p0, EncodeEach(t, es[..i]), Encode(t, es[i]));
      i := i + 1;
    }
    assert es[..i] == es;
  }

  /** The tuple impl and the derived match arms: pokes each component or
      field in declaration order, rebinding the cursor after each. */
  method PokeAll(ts: seq<Shape>, vs: seq<Value>, up: Cursor)
    requires AllOfShape(vs, ts) && up.pos + |EncodeAll(ts, vs)| <= up.buf.Length
    modifies up, up.buf
    ensures up.pos == old(up.pos) + |EncodeAll(ts, vs)|
    ensures up.buf[..] == Splice(old(up.buf[..]), old(up.pos), EncodeAll(ts, vs))
    decreases ts, 1
  {
    ghost var b0, p0 := up.buf[..], up.pos;
    assert ts[..0] == [] && vs[..0] == [] && Splice(b0, p0, []) == b0;
    var i := 0;
    while i < |ts|
      invariant 0 <= i <= |ts| && AllOfShape(vs[..i], ts[..i])
      invariant up.pos == p0 + |EncodeAll(ts[..i], vs[..i])| <= p0 + |EncodeAll(ts, vs)|
      invariant up.buf[..] == Splice(b0, p0, EncodeAll(ts[..i], vs[..i]))
    {
      EncodeAllStep(ts, vs, i);
      Poke(ts[i], vs[i], up);
      SpliceTwice(b0, p0, EncodeAll(ts[..i], vs[..i]), Encode(ts[i], vs[i]));
      i := i + 1;
    }
    assert ts[..i] == ts && vs[..i] == vs;
  }

  /** How `poke` is meant to be called: with `poke_max_size()`
      bytes free at the cursor. Then the writes stay inside the buffer, the
      cursor advances by at most that bound, and the bytes written are the
      value's encoding. */
  method PokeWithinMaxSize(s: Shape, v: Value, up: Cursor)
    requires OfShape(v, s) && up.pos + MaxSize(s) <= up.buf.Length
    modifies up, up.buf
    ensures old(up.pos) <= up.pos <= old(up.pos) + MaxSize(s)
    ensures up.pos == old(up.pos) + |Encode(s, v)|
    ensures up.buf[..] == Splice(old(up.buf[..]), old(up.pos), Encode(s, v))
  {
    EncodedLengthWithinMaxSize(s, v);
    Poke(s, v, up);
  }
}
