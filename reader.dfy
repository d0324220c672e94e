/** A reader for the byte layout: the inverse of `Encoding.Encode`. The
    crate itself only writes; this decoder exists to state what the layout
    guarantees, namely that the bytes of a value, followed by anything at
    all, determine the value and where its bytes end. In particular the tag
    of a derived enum identifies the variant and every field is found in
    declaration order. */
module Reader {
  import opened Bytes
  import opened Encoding
  import Builtins
  import Derive

  /** The outcome of reading: a value and the bytes after it, or failure. */
  datatype Read<T> = Fail | Ok(value: T, rest: seq<byte>)

  /** The value of primitive type p whose bit pattern is the unsigned n. */
  function PodValue(p: Prim, n: nat): Value
  {
    if p.Bool? then BoolV(n != 0)
    else if p.Unit? then UnitV
    else if IsFloat(p) then FloatV(n)
    else if IsUnsigned(p) then IntV(n)
    else IntV(Builtins.AsSigned(n, Width(p)))
  }

  /** Reads a value of shape s off the front of bs, returning it with the
      bytes that follow; Fail when bs is too short or holds a flag or tag
      no value of s can have. */
  function Decode(s: Shape, bs: seq<byte>): Read<Value>
    decreases s, 0
  {
    match s
    case Pod(p) =>
      if |bs| < Width(p) then Fail
      else Ok(PodValue(p, FromLittleEndian(bs[..Width(p)])), bs[Width(p)..])
    case Opt(t) =>
      if |bs| == 0 then Fail
      else if bs[0] == 0 then Ok(NoneV, bs[1..])
      else if bs[0] == 1 then
        var d := Decode(t, bs[1..]);
        if d.Fail? then Fail else Ok(SomeV(d.value), d.rest)
      else Fail
    case Array(t, n) =>
      var d := DecodeEach(t, n, bs);
      if d.Fail? then Fail else Ok(ArrayV(d.value), d.rest)
    case Tuple(ts) =>
      var d := DecodeAll(ts, bs);
      if d.Fail? then Fail else Ok(TupleV(d.value), d.rest)
    case Phantom => Ok(PhantomV, bs)
    case Derived(vs) =>
      if IsStruct(vs) then
        var d := DecodeAll(vs[0].fields, bs);
        if d.Fail? then Fail else Ok(VariantV(0, d.value), d.rest)
      else if |bs| < TagSize then Fail
      else
        var i := FromLittleEndian(bs[..TagSize]);
        if i < |vs| then
          var d := DecodeAll(vs[i].fields, bs[TagSize..]);
          if d.Fail? then Fail else Ok(VariantV(i, d.value), d.rest)
        else Fail
  }

  /** Reads n values of shape t, one after the other. */
  function DecodeEach(t: Shape, n: nat, bs: seq<byte>): Read<seq<Value>>
    decreases t, 1, n
  {
    if n == 0 then Ok([], bs)
    else
      var d := Decode(t, bs);
      if d.Fail? then Fail
      else
        var ds := DecodeEach(t, n - 1, d.rest);
        if ds.Fail? then Fail else Ok([d.value] + ds.value, ds.rest)
  }

  /** Reads one value of each shape of ts, in order. */
  function DecodeAll(ts: seq<Shape>, bs: seq<byte>): Read<seq<Value>>
    decreases ts, 1
  {
    if ts == [] then Ok([], bs)
    else
      var d := Decode(ts[0], bs);
      if d.Fail? then Fail
      else
        var ds := DecodeAll(ts[1..], d.rest);
        if ds.Fail? then Fail else Ok([d.value] + ds.value, ds.rest)
  }

  /** Every derived type within s has at most 2^32 variants, so that
      `i as u32` loses nothing. */
  predicate TagsFit(s: Shape)
    decreases s, 0
  {
    match s
    case Pod(_) => true
    case Opt(t) => TagsFit(t)
    case Array(t, _) => TagsFit(t)
    case Tuple(ts) => AllTagsFit(ts)
    case Phantom => true
    case Derived(vs) =>
      |vs| <= Pow256(TagSize) && forall i :: 0 <= i < |vs| ==> AllTagsFit(vs[i].fields)
  }

  predicate AllTagsFit(ts: seq<Shape>)
    decreases ts, 1
  {
    forall i :: 0 <= i < |ts| ==> TagsFit(ts[i])
  }

  // ---------------------------------------------------------------------
  // Decoding undoes encoding.
  // ---------------------------------------------------------------------

  /** The bytes of a value, followed by anything, read back as that value
      and exactly the bytes that followed. */
  lemma {:induction false} DecodeEncode(s: Shape, v: Value, rest: seq<byte>)
    requires OfShape(v, s) && TagsFit(s)
    ensures Decode(s, Encode(s, v) + rest) == Ok(v, rest)
    decreases s, 0
  {
    match s
    case Pod(p) =>
      PodRoundTrip(p, v, rest);
    case Opt(t) =>
      if v.SomeV? {
        DecodeEncode(t, v.some, rest);
      }
      OptionRoundTrip(t, v, rest);
    case Array(t, n) =>
      EachRoundTrip(t, v.elems, rest);
      assert Encode(s, v) + rest == EncodeEach(t, v.elems) + rest;
    case Tuple(ts) =>
      AllRoundTrip(ts, v.items, rest);
      assert Encode(s, v) + rest == EncodeAll(ts, v.items) + rest;
    case Phantom =>
      assert Encode(s, v) + rest == rest;
    case Derived(vs) =>
      assert AllTagsFit(vs[v.index].fields);
      AllRoundTrip(vs[v.index].fields, v.values, rest);
      DerivedRoundTrip(vs, v, rest);
  }

  lemma PodRoundTrip(p: Prim, v: Value, rest: seq<byte>)
    requires PodFits(p, v)
    ensures Decode(Pod(p), Encode(Pod(p), v) + rest) == Ok(v, rest)
  {
    var e := Encode(Pod(p), v);
    Builtins.PodBitsReadBack(p, v);
    assert (e + rest)[..Width(p)] == e && (e + rest)[Width(p)..] == rest;
    PodValueOfBits(p, v);
  }

  /** A primitive value is recovered from its bit pattern. */
  lemma PodValueOfBits(p: Prim, v: Value)
    requires PodFits(p, v)
    ensures PodValue(p, PodBits(p, v)) == v
  {
    if IsSigned(p) {
      Builtins.SignedRange(p, v);
      Builtins.TwosComplementReadsBack(v.n, Width(p));
    }
  }

  /** The flag byte decides between `None` and `Some`, given that the
      payload reads back. */
  lemma OptionRoundTrip(t: Shape, v: Value, rest: seq<byte>)
    requires OfShape(v, Opt(t))
    requires v.SomeV? ==> Decode(t, Encode(t, v.some) + rest) == Ok(v.some, rest)
    ensures Decode(Opt(t), Encode(Opt(t), v) + rest) == Ok(v, rest)
  {
    OptionBytes(t, v, rest);
    if v.SomeV? {
      SomeRead(t, v.some, Encode(t, v.some) + rest, rest);
    } else {
      NoneRead(t, rest);
    }
  }

  /** The bytes of an `Option` followed by rest: the flag, the payload if
      any, then rest. */
  lemma OptionBytes(t: Shape, v: Value, rest: seq<byte>)
    requires OfShape(v, Opt(t))
    ensures v.SomeV? ==> Encode(Opt(t), v) + rest == [1] + (Encode(t, v.some) + rest)
    ensures v.NoneV? ==> Encode(Opt(t), v) + rest == [0] + rest
  {
    if v.SomeV? {
      var e, p := Encode(Opt(t), v), Encode(t, v.some);
      Builtins.SingleByte(U8, IntV(1));
      assert e == [1] + p;
      assert e + rest == [1] + (p + rest);
    } else {
      Builtins.SingleByte(U8, IntV(0));
    }
  }

  /** Flag 1 is read as `Some` of the payload that follows. */
  lemma SomeRead(t: Shape, x: Value, bs: seq<byte>, rest: seq<byte>)
    requires Decode(t, bs) == Ok(x, rest)
    ensures Decode(Opt(t), [1] + bs) == Ok(SomeV(x), rest)
  {
    assert ([1] + bs)[1..] == bs;
  }

  /** Flag 0 is read as `None`, with nothing after it consumed. */
  lemma NoneRead(t: Shape, rest: seq<byte>)
    ensures Decode(Opt(t), [0] + rest) == Ok(NoneV, rest)
  {
    assert ([0] + rest)[1..] == rest;
  }

  /** The tag (for an enum) selects the variant, whose fields then read back. */
  lemma DerivedRoundTrip(vs: seq<Variant>, v: Value, rest: seq<byte>)
    requires OfShape(v, Derived(vs)) && |vs| <= Pow256(TagSize)
    requires DecodeAll(vs[v.index].fields, EncodeAll(vs[v.index].fields, v.values) + rest) == Ok(v.values, rest)
    ensures Decode(Derived(vs), Encode(Derived(vs), v) + rest) == Ok(v, rest)
  {
    var body := EncodeAll(vs[v.index].fields, v.values);
    if IsStruct(vs) {
      StructBytes(vs, v, rest);
      StructFieldsRead(vs, v.index, v.values, body + rest, rest);
    } else {
      EnumBytes(vs, v, rest);
      EnumTagRead(vs, v.index, v.values, body + rest, rest);
    }
  }

  /** The bytes of a struct value followed by rest: its fields, then rest. */
  lemma StructBytes(vs: seq<Variant>, v: Value, rest: seq<byte>)
    requires OfShape(v, Derived(vs)) && IsStruct(vs)
    ensures Encode(Derived(vs), v) + rest == EncodeAll(vs[v.index].fields, v.values) + rest
  {
  }

  /** The bytes of an enum value followed by rest: the tag, the fields, then rest. */
  lemma EnumBytes(vs: seq<Variant>, v: Value, rest: seq<byte>)
    requires OfShape(v, Derived(vs)) && !IsStruct(vs)
    ensures Encode(Derived(vs), v) + rest == Discriminant(v.index) + (EncodeAll(vs[v.index].fields, v.values) + rest)
  {
  }

  /** A struct is read as its fields, with no tag in front. */
  lemma StructFieldsRead(vs: seq<Variant>, i: nat, xs: seq<Value>, bs: seq<byte>, rest: seq<byte>)
    requires IsStruct(vs) && i < |vs| && DecodeAll(vs[i].fields, bs) == Ok(xs, rest)
    ensures Decode(Derived(vs), bs) == Ok(VariantV(i, xs), rest)
  {
  }

  /** An enum is read as a tag naming variant i, then variant i's fields. */
  lemma EnumTagRead(vs: seq<Variant>, i: nat, xs: seq<Value>, bs: seq<byte>, rest: seq<byte>)
    requires !IsStruct(vs) && i < |vs| <= Pow256(TagSize)
    requires DecodeAll(vs[i].fields, bs) == Ok(xs, rest)
    ensures Decode(Derived(vs), Discriminant(i) + bs) == Ok(VariantV(i, xs), rest)
  {
    var all := Discriminant(i) + bs;
    Derive.DiscriminantIsIndex(i);
    assert all[..TagSize] == Discriminant(i) && all[TagSize..] == bs;
  }

  lemma {:induction false} EachRoundTrip(t: Shape, es: seq<Value>, rest: seq<byte>)
    requires EachOfShape(es, t) && TagsFit(t)
    ensures DecodeEach(t, |es|, EncodeEach(t, es) + rest) == Ok(es, rest)
    decreases t, 1, |es|
  {
    if es == [] {
      assert EncodeEach(t, es) + rest == rest;
    } else {
      var tail := EncodeEach(t, es[1..]) + rest;
      EachBytes(t, es, rest);
      DecodeEncode(t, es[0], tail);
      EachRoundTrip(t, es[1..], rest);
      EachStepRead(t, |es| - 1, es[0], es[1..], Encode(t, es[0]) + tail, tail, rest);
      assert [es[0]] + es[1..] == es;
    }
  }

  /** The bytes of a non-empty array followed by rest: the first element's,
      then the others', then rest. */
  lemma EachBytes(t: Shape, es: seq<Value>, rest: seq<byte>)
    requires EachOfShape(es, t) && es != []
    ensures OfShape(es[0], t) && EachOfShape(es[1..], t)
    ensures EncodeEach(t, es) + rest == Encode(t, es[0]) + (EncodeEach(t, es[1..]) + rest)
  {
    assert EachOfShape(es[1..], t);
  }

  /** Reading n + 1 values is reading one and then n more. */
  lemma EachStepRead(t: Shape, n: nat, x: Value, xs: seq<Value>, bs: seq<byte>, mid: seq<byte>, rest: seq<byte>)
    requires Decode(t, bs) == Ok(x, mid) && DecodeEach(t, n, mid) == Ok(xs, rest)
    ensures DecodeEach(t, n + 1, bs) == Ok([x] + xs, rest)
  {
  }

  lemma {:induction false} AllRoundTrip(ts: seq<Shape>, vs: seq<Value>, rest: seq<byte>)
    requires AllOfShape(vs, ts) && AllTagsFit(ts)
    ensures DecodeAll(ts, EncodeAll(ts, vs) + rest) == Ok(vs, rest)
    decreases ts, 1
  {
    if ts == [] {
      assert EncodeAll(ts, vs) + rest == rest && vs == [];
    } else {
      var tail := EncodeAll(ts[1..], vs[1..]) + rest;
      assert AllOfShape(vs[1..], ts[1..]) && AllTagsFit(ts[1..]);
      assert EncodeAll(ts, vs) + rest == Encode(ts[0], vs[0]) + tail;
      DecodeEncode(ts[0], vs[0], tail);
      AllRoundTrip(ts[1..], vs[1..], rest);
      AllStepRead(ts, vs[0], vs[1..], Encode(ts[0], vs[0]) + tail, tail, rest);
      assert [vs[0]] + vs[1..] == vs;
    }
  }

  /** Reading values of ts is reading one of ts[0] and then the rest. */
  lemma AllStepRead(ts: seq<Shape>, x: Value, xs: seq<Value>, bs: seq<byte>, mid: seq<byte>, rest: seq<byte>)
    requires ts != [] && Decode(ts[0], bs) == Ok(x, mid) && DecodeAll(ts[1..], mid) == Ok(xs, rest)
    ensures DecodeAll(ts, bs) == Ok([x] + xs, rest)
  {
  }

  /** Two values of a shape with the same bytes are the same value: the
      layout loses nothing. */
  lemma EncodeInjective(s: Shape, v: Value, w: Value)
    requires OfShape(v, s) && OfShape(w, s) && TagsFit(s)
    requires Encode(s, v) == Encode(s, w)
    ensures v == w
  {
    DecodeEncode(s, v, []);
    DecodeEncode(s, w, []);
  }
}
