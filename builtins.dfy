/** Properties of the built-in `UnsafePoke` impls: plain-data primitives,
    `Option<T>`, fixed-size arrays, tuples, `()` and `PhantomData<T>`, with
    the concrete cases the crate's tests pin down. */
module Builtins {
  import opened Bytes
  import opened Encoding

  /** Reads a w-byte two's-complement bit pattern as a signed integer. */
  function AsSigned(u: nat, w: nat): int
  {
    if 2 * u >= Pow256(w) then u - Pow256(w) else u
  }

  /** `poke_pod` copies exactly `size_of::<T>()` bytes, which is also the
      type's bound. */
  lemma PodWidth(p: Prim, v: Value)
    requires PodFits(p, v)
    ensures |Encode(Pod(p), v)| == Width(p) == MaxSize(Pod(p))
  {
  }

  /** A one-byte primitive (`bool`, `u8`, `i8`) is its bit pattern as a
      single byte. */
  lemma SingleByte(p: Prim, v: Value)
    requires PodFits(p, v) && Width(p) == 1
    ensures Encode(Pod(p), v) == [PodBits(p, v) as byte]
  {
    assert LittleEndian(PodBits(p, v), 1) == [PodBits(p, v) as byte];
  }

  /** An unsigned integer's bytes, read back, give the integer again. */
  lemma UnsignedReadsBack(p: Prim, v: Value)
    requires IsUnsigned(p) && PodFits(p, v)
    ensures FromLittleEndian(Encode(Pod(p), v)) == v.n
  {
    PodBitsReadBack(p, v);
  }

  /** A float's bytes, read back, give its bit pattern again. */
  lemma FloatReadsBack(p: Prim, v: Value)
    requires IsFloat(p) && PodFits(p, v)
    ensures FromLittleEndian(Encode(Pod(p), v)) == v.bits
  {
    PodBitsReadBack(p, v);
  }

  /** A signed integer's bytes, read back as two's complement, give the
      integer again. */
  lemma SignedReadsBack(p: Prim, v: Value)
    requires IsSigned(p) && PodFits(p, v)
    ensures AsSigned(FromLittleEndian(Encode(Pod(p), v)), Width(p)) == v.n
  {
    PodBitsReadBack(p, v);
    SignedRange(p, v);
    TwosComplementReadsBack(v.n, Width(p));
  }

  /** What `PodFits` demands of a signed integer. */
  lemma SignedRange(p: Prim, v: Value)
    requires IsSigned(p) && PodFits(p, v)
    ensures v.IntV? && -(Pow256(Width(p)) as int) <= 2 * v.n < Pow256(Width(p))
    ensures PodBits(p, v) == if v.n < 0 then v.n + Pow256(Width(p)) else v.n
  {
    assert !p.Bool? && !p.Unit? && !IsFloat(p) && !IsUnsigned(p);
  }

  /** The bytes `poke_pod` copies, read as a little-endian number, are the
      value's bit pattern. */
  lemma PodBitsReadBack(p: Prim, v: Value)
    requires PodFits(p, v)
    ensures Encode(Pod(p), v) == LittleEndian(PodBits(p, v), Width(p))
    ensures FromLittleEndian(Encode(Pod(p), v)) == PodBits(p, v)
  {
    LittleEndianRoundTrip(PodBits(p, v), Width(p));
  }

  /** Two's complement in w bytes followed by `AsSigned` gives back n. */
  lemma TwosComplementReadsBack(n: int, w: nat)
    requires -(Pow256(w) as int) <= 2 * n < Pow256(w)
    ensures AsSigned(if n < 0 then n + Pow256(w) else n, w) == n
  {
  }

  /** The primitive widths the tests check against `size_of`, with the
      platform word fixed at 8 bytes. */
  lemma PrimitiveMaxSizes()
    ensures MaxSize(Pod(U8)) == MaxSize(Pod(I8)) == MaxSize(Pod(Bool)) == 1
    ensures MaxSize(Pod(U16)) == MaxSize(Pod(I16)) == 2
    ensures MaxSize(Pod(U32)) == MaxSize(Pod(I32)) == MaxSize(Pod(F32)) == 4
    ensures MaxSize(Pod(U64)) == MaxSize(Pod(I64)) == MaxSize(Pod(F64)) == 8
    ensures MaxSize(Pod(USize)) == MaxSize(Pod(ISize)) == 8
    ensures MaxSize(Pod(Unit)) == 0
  {
  }

  /** Concrete bytes: 5 as a u32. */
  lemma UnsignedExample()
    ensures Encode(Pod(U32), IntV(5)) == [5, 0, 0, 0]
  {
    assert Encode(Pod(U32), IntV(5)) == LittleEndian(5, 4);
  }

  /** Concrete bytes: -5 as an i32, in two's complement. */
  lemma SignedExample()
    ensures Encode(Pod(I32), IntV(-5)) == [0xFB, 0xFF, 0xFF, 0xFF]
  {
    assert Encode(Pod(I32), IntV(-5)) == LittleEndian(0xFFFF_FFFB, 4);
  }

  /** `true` is the byte 1 and `false` the byte 0. */
  lemma BoolExamples()
    ensures Encode(Pod(Bool), BoolV(true)) == [1]
    ensures Encode(Pod(Bool), BoolV(false)) == [0]
  {
    SingleByte(Bool, BoolV(true));
    SingleByte(Bool, BoolV(false));
  }

  // ---------------------------------------------------------------------
  // Option<T>
  // ---------------------------------------------------------------------

  /** `Some(x)` is the byte 1 followed by x's bytes; `None` is the single
      byte 0. */
  lemma OptionLayout(t: Shape, v: Value)
    requires OfShape(v, Opt(t))
    ensures |Encode(Opt(t), v)| >= 1
    ensures Encode(Opt(t), v)[0] == if v.SomeV? then 1 else 0
    ensures v.SomeV? ==> Encode(Opt(t), v)[1..] == Encode(t, v.some)
    ensures v.NoneV? ==> Encode(Opt(t), v) == [0]
  {
    SingleByte(U8, IntV(1));
    SingleByte(U8, IntV(0));
  }

  /** The bound `1 + T::poke_max_size()` is reached by `Some` of a
      fixed-size payload, and `None` falls short of it exactly when the
      payload type has a non-zero bound. */
  lemma OptionBound(t: Shape, x: Value)
    requires OfShape(x, t) && FixedSize(t)
    ensures |Encode(Opt(t), SomeV(x))| == MaxSize(Opt(t)) == 1 + MaxSize(t)
    ensures |Encode(Opt(t), NoneV)| == 1
    ensures |Encode(Opt(t), NoneV)| < MaxSize(Opt(t)) <==> MaxSize(t) > 0
  {
    FixedSizeIsExact(t, x);
  }

  lemma FiveAsWord()
    ensures [1] + LittleEndian(5, 8) == [1, 5, 0, 0, 0, 0, 0, 0, 0]
  {
    assert LittleEndian(5, 8) == [5, 0, 0, 0, 0, 0, 0, 0];
  }

  /** `Some(5usize)` is the flag and the eight bytes of 5, `None::<usize>`
      is the flag alone, and `Option<usize>` is bounded by 1 + 8. */
  lemma OptionExamples()
    ensures OfShape(SomeV(IntV(5)), Opt(Pod(USize)))
    ensures Encode(Opt(Pod(USize)), SomeV(IntV(5))) == [1, 5, 0, 0, 0, 0, 0, 0, 0]
    ensures Encode(Opt(Pod(USize)), NoneV) == [0]
    ensures MaxSize(Opt(Pod(USize))) == 9
  {
    assert Pow256(8) == 0x1_0000_0000_0000_0000;
    calc {
      Encode(Opt(Pod(USize)), SomeV(IntV(5)));
      == { OptionLayout(Pod(USize), SomeV(IntV(5))); }
      [1] + Encode(Pod(USize), IntV(5));
      == { assert Encode(Pod(USize), IntV(5)) == LittleEndian(5, 8); }
      [1] + LittleEndian(5, 8);
      == { FiveAsWord(); }
      [1, 5, 0, 0, 0, 0, 0, 0, 0];
    }
    OptionLayout(Pod(USize), NoneV);
  }

  // ---------------------------------------------------------------------
  // [T; N]
  // ---------------------------------------------------------------------

  /** `[T; 0]` writes nothing and has bound 0, whatever T is. */
  lemma EmptyArray(t: Shape)
    ensures OfShape(ArrayV([]), Array(t, 0))
    ensures Encode(Array(t, 0), ArrayV([])) == []
    ensures MaxSize(Array(t, 0)) == 0
  {
  }

  /** An array's bytes are those of the elements before index i, then
      element i's, then those of the elements after it. */
  lemma ArrayElementLayout(t: Shape, es: seq<Value>, i: nat)
    requires EachOfShape(es, t) && i < |es|
    ensures EachOfShape(es[..i], t) && OfShape(es[i], t) && EachOfShape(es[i + 1..], t)
    ensures EncodeEach(t, es) == EncodeEach(t, es[..i]) + (Encode(t, es[i]) + EncodeEach(t, es[i + 1..]))
  {
    EncodeEachSplit(es, t, i);
    var rest := es[i..];
    assert rest[0] == es[i] && rest[1..] == es[i + 1..];
  }

  /** With fixed-size elements, element i of an array occupies the i-th
      block of `T::poke_max_size()` bytes: elements are laid out in index
      order with nothing between them. (`EncodeEach(t, es)` is the encoding
      of the array value `ArrayV(es)`.) */
  lemma ArrayElementAt(t: Shape, es: seq<Value>, i: nat)
    requires EachOfShape(es, t) && FixedSize(t) && i < |es|
    ensures |EncodeEach(t, es)| == MaxSize(t) * |es|
    ensures OfShape(es[i], t)
    ensures 0 <= MaxSize(t) * i <= MaxSize(t) * (i + 1) <= |EncodeEach(t, es)|
    ensures EncodeEach(t, es)[MaxSize(t) * i..MaxSize(t) * (i + 1)] == Encode(t, es[i])
  {
    EachExact(t, es);
    ArrayElementLayout(t, es, i);
    EachExact(t, es[..i]);
    FixedSizeIsExact(t, es[i]);
    BlockSlice(EncodeEach(t, es[..i]), Encode(t, es[i]), EncodeEach(t, es[i + 1..]), MaxSize(t), i);
  }

  /** The i-th block of m bytes of a + (x + y), when a holds i blocks and x one. */
  lemma BlockSlice(a: seq<byte>, x: seq<byte>, y: seq<byte>, m: nat, i: nat)
    requires |a| == m * i && |x| == m
    ensures 0 <= m * i <= m * (i + 1) <= |a + (x + y)|
    ensures (a + (x + y))[m * i..m * (i + 1)] == x
  {
    MulStep(m, i + 1);
    SliceOfMiddle(a, x, y);
  }

  lemma SliceOfMiddle(a: seq<byte>, x: seq<byte>, y: seq<byte>)
    ensures (a + (x + y))[|a|..|a| + |x|] == x
  {
    assert a + (x + y) == (a + x) + y;
  }

  /** n copies of the shape t. */
  function Repeat(t: Shape, n: nat): (ts: seq<Shape>)
    ensures |ts| == n && forall i :: 0 <= i < n ==> ts[i] == t
  {
    if n == 0 then [] else [t] + Repeat(t, n - 1)
  }

  /** An array of n elements is laid out as an n-tuple of the element type:
      the fold of the array impl and the rebinding of the tuple impl write
      the same bytes. */
  lemma {:induction false} ArrayIsRepeatedTuple(t: Shape, es: seq<Value>)
    requires EachOfShape(es, t)
    ensures AllOfShape(es, Repeat(t, |es|))
    ensures EncodeEach(t, es) == EncodeAll(Repeat(t, |es|), es)
  {
    var ts := Repeat(t, |es|);
    if es != [] {
      assert ts == [t] + Repeat(t, |es| - 1);
      assert ts[0] == t && ts[1..] == Repeat(t, |es| - 1);
      assert EachOfShape(es[1..], t);
      ArrayIsRepeatedTuple(t, es[1..]);
    }
  }

  /** ... and the bounds agree: `N * T::max` is the sum of N copies of it. */
  lemma {:induction false} ArrayBoundIsRepeatedSum(t: Shape, n: nat)
    ensures MaxSize(Array(t, n)) == MaxSize(Tuple(Repeat(t, n)))
  {
    if n > 0 {
      var ts := Repeat(t, n);
      assert ts[0] == t && ts[1..] == Repeat(t, n - 1);
      ArrayBoundIsRepeatedSum(t, n - 1);
      assert MaxSize(t) * n == MaxSize(t) + MaxSize(t) * (n - 1);
    }
  }

  lemma ArrayExamples()
    ensures MaxSize(Array(Pod(U32), 32)) == 128
    ensures MaxSize(Array(Pod(U64), 8)) == 64
    ensures MaxSize(Array(Pod(U8), 19)) == 19
    ensures OfShape(ArrayV(seq(19, _ => IntV(0))), Array(Pod(U8), 19))
    ensures Encode(Array(Pod(U8), 19), ArrayV(seq(19, _ => IntV(0)))) == seq(19, _ => 0)
  {
    var zs: seq<Value> := seq(19, _ => IntV(0));
    var zero := Encode(Pod(U8), IntV(0));
    assert zero == [0] by {
      SingleByte(U8, IntV(0));
    }
    assert OfShape(ArrayV(zs), Array(Pod(U8), 19));
    AllZeroBytes(zs);
  }

  lemma {:induction false} AllZeroBytes(zs: seq<Value>)
    requires forall i :: 0 <= i < |zs| ==> zs[i] == IntV(0)
    ensures EachOfShape(zs, Pod(U8))
    ensures EncodeEach(Pod(U8), zs) == seq(|zs|, _ => 0)
  {
    if zs != [] {
      AllZeroBytes(zs[1..]);
      SingleByte(U8, IntV(0));
      assert Encode(Pod(U8), zs[0]) == [0];
    }
  }

  // ---------------------------------------------------------------------
  // Tuples, () and PhantomData<T>
  // ---------------------------------------------------------------------

  lemma {:induction false} SumMaxSizeAppend(ts1: seq<Shape>, ts2: seq<Shape>)
    ensures SumMaxSize(ts1 + ts2) == SumMaxSize(ts1) + SumMaxSize(ts2)
  {
    if ts1 == [] {
      assert ts1 + ts2 == ts2;
    } else {
      assert (ts1 + ts2)[1..] == ts1[1..] + ts2;
      SumMaxSizeAppend(ts1[1..], ts2);
    }
  }

  /** Splitting a tuple's components into two groups splits its bytes and
      its bound the same way. */
  lemma TupleAppend(ts1: seq<Shape>, vs1: seq<Value>, ts2: seq<Shape>, vs2: seq<Value>)
    requires OfShape(TupleV(vs1), Tuple(ts1)) && OfShape(TupleV(vs2), Tuple(ts2))
    ensures OfShape(TupleV(vs1 + vs2), Tuple(ts1 + ts2))
    ensures Encode(Tuple(ts1 + ts2), TupleV(vs1 + vs2)) == Encode(Tuple(ts1), TupleV(vs1)) + Encode(Tuple(ts2), TupleV(vs2))
    ensures MaxSize(Tuple(ts1 + ts2)) == MaxSize(Tuple(ts1)) + MaxSize(Tuple(ts2))
  {
    EncodeAllAppend(ts1, vs1, ts2, vs2);
    SumMaxSizeAppend(ts1, ts2);
  }

  /** Grouping does not change the bytes: `((a, b), c)` encodes as
      `(a, b, c)`, with the same bound. */
  lemma TupleNesting(ts1: seq<Shape>, vs1: seq<Value>, ts2: seq<Shape>, vs2: seq<Value>)
    requires OfShape(TupleV(vs1), Tuple(ts1)) && OfShape(TupleV(vs2), Tuple(ts2))
    ensures OfShape(TupleV([TupleV(vs1)] + vs2), Tuple([Tuple(ts1)] + ts2))
    ensures OfShape(TupleV(vs1 + vs2), Tuple(ts1 + ts2))
    ensures Encode(Tuple([Tuple(ts1)] + ts2), TupleV([TupleV(vs1)] + vs2)) == Encode(Tuple(ts1 + ts2), TupleV(vs1 + vs2))
    ensures MaxSize(Tuple([Tuple(ts1)] + ts2)) == MaxSize(Tuple(ts1 + ts2))
  {
    TupleAppend(ts1, vs1, ts2, vs2);
    var outer, outerV := [Tuple(ts1)] + ts2, [TupleV(vs1)] + vs2;
    assert outer[1..] == ts2 && outerV[1..] == vs2;
    assert AllOfShape(outerV, outer);
  }

  /** `()` and `PhantomData<T>` write nothing and have bound 0. */
  lemma ZeroSizeMarkers()
    ensures Encode(Pod(Unit), UnitV) == [] && MaxSize(Pod(Unit)) == 0
    ensures Encode(Phantom, PhantomV) == [] && MaxSize(Phantom) == 0
  {
  }

  /** A component whose type has bound 0, such as `()` or `PhantomData<T>`,
      adds no bytes and nothing to the bound: `(isize, ())` is laid out
      like `(isize,)`. */
  lemma ZeroBoundComponentAddsNothing(ts: seq<Shape>, vs: seq<Value>, m: Shape, mv: Value)
    requires OfShape(TupleV(vs), Tuple(ts)) && OfShape(mv, m) && MaxSize(m) == 0
    ensures OfShape(TupleV(vs + [mv]), Tuple(ts + [m]))
    ensures Encode(Tuple(ts + [m]), TupleV(vs + [mv])) == Encode(Tuple(ts), TupleV(vs))
    ensures MaxSize(Tuple(ts + [m])) == MaxSize(Tuple(ts))
  {
    EncodedLengthWithinMaxSize(m, mv);
    assert OfShape(TupleV([mv]), Tuple([m]));
    assert [m][1..] == [] && [mv][1..] == [];
    assert Encode(Tuple([m]), TupleV([mv])) == Encode(m, mv) + EncodeAll([], []);
    assert MaxSize(Tuple([m])) == MaxSize(m) + SumMaxSize([]);
    TupleAppend(ts, vs, [m], [mv]);
  }

  /** The tuple bounds the tests assert. `<(isize)>` is `isize` itself in
      Rust, not a 1-tuple; both readings have bound 8. */
  lemma TupleExamples()
    ensures MaxSize(Pod(ISize)) == 8
    ensures MaxSize(Tuple([Pod(ISize)])) == 8
    ensures MaxSize(Tuple([Pod(ISize), Pod(ISize), Pod(ISize)])) == 24
    ensures MaxSize(Tuple([Pod(ISize), Pod(Unit)])) == 8
  {
  }

  /** `(1isize, ())` is the eight bytes of 1 and nothing for the unit. */
  lemma TupleWithUnitExample()
    ensures Encode(Tuple([Pod(ISize), Pod(Unit)]), TupleV([IntV(1), UnitV])) == [1, 0, 0, 0, 0, 0, 0, 0]
  {
    ZeroBoundComponentAddsNothing([Pod(ISize)], [IntV(1)], Pod(Unit), UnitV);
    OneWordExample();
  }

  lemma OneWordExample()
    ensures Encode(Tuple([Pod(ISize)]), TupleV([IntV(1)])) == [1, 0, 0, 0, 0, 0, 0, 0]
  {
    assert Encode(Pod(ISize), IntV(1)) == LittleEndian(1, 8);
  }
}
