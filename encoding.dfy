/** The encoding algebra of unsafe_poke: which shapes of value can be poked,
    the bytes `poke` lays down for a value of each shape, and the static
    bound `poke_max_size` on their number.

    A `Shape` stands for a Rust type that implements `UnsafePoke`; a `Value`
    for an instance of it. Plain-data primitives are copied as their native
    little-endian bytes, `Option<T>` gets a one-byte presence flag, fixed-size
    arrays and tuples are flat concatenations, `PhantomData<T>` is empty, and
    a `#[derive(UnsafePoke)]` type is a `Derived` shape whose variants are
    listed in declaration order. */
module Encoding {
  import opened Bytes

  /** The types with an `UnsafePod` impl: written by a raw copy of their
      in-memory bytes. */
  datatype Prim = Bool | I8 | I16 | I32 | I64 | ISize | U8 | U16 | U32 | U64 | USize | F32 | F64 | Unit

  /** `size_of::<usize>()`: the model fixes the platform word at 8 bytes. */
  const WordSize: nat := 8

  /** Width of the u32 discriminant a derived enum writes. */
  const TagSize: nat := 4

  /** `size_of::<T>()` for each primitive. */
  function Width(p: Prim): nat
  {
    match p
    case Bool | I8 | U8 => 1
    case I16 | U16 => 2
    case I32 | U32 | F32 => 4
    case I64 | U64 | F64 => 8
    case ISize | USize => WordSize
    case Unit => 0
  }

  predicate IsSigned(p: Prim)
  {
    p.I8? || p.I16? || p.I32? || p.I64? || p.ISize?
  }

  predicate IsUnsigned(p: Prim)
  {
    p.U8? || p.U16? || p.U32? || p.U64? || p.USize?
  }

  predicate IsFloat(p: Prim)
  {
    p.F32? || p.F64?
  }

  /** One variant of a derived type, in declaration order. `prefixed` is
      whether the variant is written with a path prefix (`Enum::Variant`),
      which every enum variant has and the single variant of a struct lacks.
      `labels` are the field names (empty for positional fields); `fields`
      are the field types in declaration order. */
  datatype Variant = Variant(prefixed: bool, labels: seq<string>, fields: seq<Shape>)

  datatype Shape =
    | Pod(prim: Prim)
    | Opt(inner: Shape)
    | Array(elem: Shape, len: nat)
    | Tuple(comps: seq<Shape>)
    | Phantom
    | Derived(variants: seq<Variant>)

  datatype Value =
    | BoolV(b: bool)
    | IntV(n: int)
    | FloatV(bits: nat)
    | UnitV
    | NoneV
    | SomeV(some: Value)
    | ArrayV(elems: seq<Value>)
    | TupleV(items: seq<Value>)
    | PhantomV
    | VariantV(index: nat, values: seq<Value>)

  /** The derive's test for "this is a struct": exactly one variant, and it
      has no prefix. Anything else (an enum, even of one variant) is tagged. */
  predicate IsStruct(vs: seq<Variant>)
  {
    |vs| == 1 && !vs[0].prefixed
  }

  /** v is a value of primitive type p: integers within the range of their
      width, floats as a bit pattern of their width. */
  predicate PodFits(p: Prim, v: Value)
  {
    if p.Bool? then v.BoolV?
    else if p.Unit? then v.UnitV?
    else if IsFloat(p) then v.FloatV? && v.bits < Pow256(Width(p))
    else if IsUnsigned(p) then v.IntV? && 0 <= v.n < Pow256(Width(p))
    else v.IntV? && -(Pow256(Width(p)) as int) <= 2 * v.n < Pow256(Width(p))
  }

  /** v is a constructible value of the type s stands for. */
  predicate OfShape(v: Value, s: Shape)
    decreases s, 0
  {
    match s
    case Pod(p) => PodFits(p, v)
    case Opt(t) => v.NoneV? || (v.SomeV? && OfShape(v.some, t))
    case Array(t, n) => v.ArrayV? && |v.elems| == n && EachOfShape(v.elems, t)
    case Tuple(ts) => v.TupleV? && AllOfShape(v.items, ts)
    case Phantom => v.PhantomV?
    case Derived(vs) => v.VariantV? && v.index < |vs| && AllOfShape(v.values, vs[v.index].fields)
  }

  /** Every element of es is a value of t. */
  predicate EachOfShape(es: seq<Value>, t: Shape)
    decreases t, 1
  {
    forall i :: 0 <= i < |es| ==> OfShape(es[i], t)
  }

  /** vs[i] is a value of ts[i], position by position. */
  predicate AllOfShape(vs: seq<Value>, ts: seq<Shape>)
    decreases ts, 1
  {
    |vs| == |ts| && forall i :: 0 <= i < |ts| ==> OfShape(vs[i], ts[i])
  }

  /** The in-memory bit pattern of a primitive, as an unsigned number:
      two's complement for signed integers, 0/1 for booleans. */
  function PodBits(p: Prim, v: Value): (u: nat)
    requires PodFits(p, v)
    ensures u < Pow256(Width(p))
  {
    if p.Bool? then (if v.b then 1 else 0)
    else if p.Unit? then 0
    else if IsFloat(p) then v.bits
    else if v.n < 0 then v.n + Pow256(Width(p))
    else v.n
  }

  /** The `size_of::<T>()` bytes `poke_pod` copies for a primitive. */
  function PodBytes(p: Prim, v: Value): (r: seq<byte>)
    requires PodFits(p, v)
    ensures |r| == Width(p)
  {
    LittleEndian(PodBits(p, v), Width(p))
  }

  /** The discriminant of variant i: `(i as u32)` poked as a u32. */
  function Discriminant(i: nat): (r: seq<byte>)
    ensures |r| == TagSize
  {
    PodBytes(U32, IntV(i % Pow256(TagSize)))
  }

  /** The bytes `poke` writes for a value v of shape s. */
  function Encode(s: Shape, v: Value): seq<byte>
    requires OfShape(v, s)
    decreases s, 0
  {
    match s
    case Pod(p) => PodBytes(p, v)
    case Opt(t) =>
      if v.SomeV? then PodBytes(U8, IntV(1)) + Encode(t, v.some) else PodBytes(U8, IntV(0))
    case Array(t, _) => EncodeEach(t, v.elems)
    case Tuple(ts) => EncodeAll(ts, v.items)
    case Phantom => []
    case Derived(vs) =>
      (if IsStruct(vs) then [] else Discriminant(v.index)) + EncodeAll(vs[v.index].fields, v.values)
  }

  /** The encodings of the elements of a fixed-size array, in index order. */
  function EncodeEach(t: Shape, es: seq<Value>): seq<byte>
    requires EachOfShape(es, t)
    decreases t, 1, |es|
  {
    if es == [] then [] else Encode(t, es[0]) + EncodeEach(t, es[1..])
  }

  /** The encodings of the components of a tuple or of the fields of a
      variant, in declaration order. */
  function EncodeAll(ts: seq<Shape>, vs: seq<Value>): seq<byte>
    requires AllOfShape(vs, ts)
    decreases ts, 1
  {
    if ts == [] then [] else Encode(ts[0], vs[0]) + EncodeAll(ts[1..], vs[1..])
  }

  /** `poke_max_size()`: a bound on the encoded length of every value of s,
      computed from s alone. */
  function MaxSize(s: Shape): nat
    decreases s, 0
  {
    match s
    case Pod(p) => Width(p)
    case Opt(t) => 1 + MaxSize(t)
    case Array(t, n) => MaxSize(t) * n
    case Tuple(ts) => SumMaxSize(ts)
    case Phantom => 0
    case Derived(vs) =>
      if IsStruct(vs) then SumMaxSize(vs[0].fields) else TagSize + MaxVariantSize(vs)
  }

  /** The sum of the bounds of a list of types. */
  function SumMaxSize(ts: seq<Shape>): nat
    decreases ts, 1
  {
    if ts == [] then 0 else MaxSize(ts[0]) + SumMaxSize(ts[1..])
  }

  /** The largest field-bound sum over the variants (0 when there are none). */
  function MaxVariantSize(vs: seq<Variant>): nat
    decreases vs, 2
  {
    if vs == [] then 0
    else
      var here, rest := SumMaxSize(vs[0].fields), MaxVariantSize(vs[1..]);
      if here < rest then rest else here
  }

  // ---------------------------------------------------------------------
  // Soundness of the bound: every value fits in `poke_max_size()` bytes.
  // ---------------------------------------------------------------------

  /** The invariant that makes the unchecked writes safe: a buffer with
      `MaxSize(s)` bytes free from the cursor holds any value of s. */
  lemma {:induction false} EncodedLengthWithinMaxSize(s: Shape, v: Value)
    requires OfShape(v, s)
    ensures |Encode(s, v)| <= MaxSize(s)
    decreases s, 0
  {
    match s
    case Pod(_) =>
    case Opt(t) =>
      if v.SomeV? {
        EncodedLengthWithinMaxSize(t, v.some);
      }
    case Array(t, n) =>
      EachWithinMaxSize(t, v.elems);
    case Tuple(ts) =>
      AllWithinMaxSize(ts, v.items);
    case Phantom =>
    case Derived(vs) =>
      AllWithinMaxSize(vs[v.index].fields, v.values);
      if !IsStruct(vs) {
        VariantWithinMaxVariantSize(vs, v.index);
      }
  }

  lemma {:induction false} EachWithinMaxSize(t: Shape, es: seq<Value>)
    requires EachOfShape(es, t)
    ensures |EncodeEach(t, es)| <= MaxSize(t) * |es|
    decreases t, 1, |es|
  {
    if es != [] {
      assert EachOfShape(es[1..], t);
      EncodedLengthWithinMaxSize(t, es[0]);
      EachWithinMaxSize(t, es[1..]);
      MulStep(MaxSize(t), |es|);
    }
  }

  lemma MulStep(m: nat, n: nat)
    requires n > 0
    ensures m * n == m + m * (n - 1)
  {
  }

  lemma {:induction false} AllWithinMaxSize(ts: seq<Shape>, vs: seq<Value>)
    requires AllOfShape(vs, ts)
    ensures |EncodeAll(ts, vs)| <= SumMaxSize(ts)
    decreases ts, 1
  {
    if ts != [] {
      EncodedLengthWithinMaxSize(ts[0], vs[0]);
      AllWithinMaxSize(ts[1..], vs[1..]);
    }
  }

  /** Every variant's field bounds sum to at most the enum's variant bound,
      and some variant attains it: the bound is a maximum, not a sum. */
  lemma {:induction false} VariantWithinMaxVariantSize(vs: seq<Variant>, i: nat)
    requires i < |vs|
    ensures SumMaxSize(vs[i].fields) <= MaxVariantSize(vs)
    decreases vs
  {
    if i > 0 {
      VariantWithinMaxVariantSize(vs[1..], i - 1);
    }
  }

  lemma {:induction false} MaxVariantSizeAttained(vs: seq<Variant>)
    requires vs != []
    ensures exists i :: 0 <= i < |vs| && SumMaxSize(vs[i].fields) == MaxVariantSize(vs)
  {
    if |vs| > 1 && SumMaxSize(vs[0].fields) < MaxVariantSize(vs[1..]) {
      MaxVariantSizeAttained(vs[1..]);
      var j :| 0 <= j < |vs[1..]| && SumMaxSize(vs[1..][j].fields) == MaxVariantSize(vs[1..]);
      assert vs[j + 1] == vs[1..][j];
    } else {
      assert SumMaxSize(vs[0].fields) == MaxVariantSize(vs);
    }
  }

  // ---------------------------------------------------------------------
  // Tightness: shapes whose every value has the same length.
  // ---------------------------------------------------------------------

  /** Shapes without an `Option` anywhere a value can reach and whose enums
      have variants of equal bound: plain data, arrays and tuples of such,
      structs of such, C-style enums. */
  predicate FixedSize(s: Shape)
    decreases s, 0
  {
    match s
    case Pod(_) => true
    case Opt(_) => false
    case Array(t, n) => n == 0 || FixedSize(t)
    case Tuple(ts) => AllFixedSize(ts)
    case Phantom => true
    case Derived(vs) =>
      (forall i :: 0 <= i < |vs| ==> AllFixedSize(vs[i].fields)) &&
      (IsStruct(vs) || forall i :: 0 <= i < |vs| ==> SumMaxSize(vs[i].fields) == MaxVariantSize(vs))
  }

  predicate AllFixedSize(ts: seq<Shape>)
    decreases ts, 1
  {
    forall i :: 0 <= i < |ts| ==> FixedSize(ts[i])
  }

  /** For a fixed-size shape the bound is exact: every value takes exactly
      `poke_max_size()` bytes. */
  lemma {:induction false} FixedSizeIsExact(s: Shape, v: Value)
    requires OfShape(v, s) && FixedSize(s)
    ensures |Encode(s, v)| == MaxSize(s)
    decreases s, 0
  {
    match s
    case Pod(_) =>
    case Array(t, n) =>
      EachExact(t, v.elems);
    case Tuple(ts) =>
      AllExact(ts, v.items);
    case Phantom =>
    case Derived(vs) =>
      AllExact(vs[v.index].fields, v.values);
  }

  lemma {:induction false} EachExact(t: Shape, es: seq<Value>)
    requires EachOfShape(es, t)
    requires es == [] || FixedSize(t)
    ensures |EncodeEach(t, es)| == MaxSize(t) * |es|
    decreases t, 1, |es|
  {
    if es != [] {
      assert EachOfShape(es[1..], t);
      FixedSizeIsExact(t, es[0]);
      EachExact(t, es[1..]);
      MulStep(MaxSize(t), |es|);
    }
  }

  lemma {:induction false} AllExact(ts: seq<Shape>, vs: seq<Value>)
    requires AllOfShape(vs, ts) && AllFixedSize(ts)
    ensures |EncodeAll(ts, vs)| == SumMaxSize(ts)
    decreases ts, 1
  {
    if ts != [] {
      FixedSizeIsExact(ts[0], vs[0]);
      AllExact(ts[1..], vs[1..]);
    }
  }

  // ---------------------------------------------------------------------
  // Concatenation laws used when the cursor is threaded element by element.
  // ---------------------------------------------------------------------

  lemma EachOfShapeAppend(t: Shape, a: seq<Value>, b: seq<Value>)
    requires EachOfShape(a, t) && EachOfShape(b, t)
    ensures EachOfShape(a + b, t)
  {
    forall i | 0 <= i < |a + b| ensures OfShape((a + b)[i], t) {
      if i < |a| {
        assert (a + b)[i] == a[i];
      } else {
        assert (a + b)[i] == b[i - |a|];
      }
    }
  }

  lemma {:induction false} EncodeEachAppend(t: Shape, a: seq<Value>, b: seq<Value>)
    requires EachOfShape(a, t) && EachOfShape(b, t)
    ensures EachOfShape(a + b, t)
    ensures EncodeEach(t, a + b) == EncodeEach(t, a) + EncodeEach(t, b)
    decreases |a|
  {
    EachOfShapeAppend(t, a, b);
    if a == [] {
      assert a + b == b;
    } else {
      var ab := a + b;
      assert ab[0] == a[0] && ab[1..] == a[1..] + b;
      assert EachOfShape(a[1..], t);
      EncodeEachAppend(t, a[1..], b);
      var x, y, z := Encode(t, a[0]), EncodeEach(t, a[1..]), EncodeEach(t, b);
      assert x + (y + z) == (x + y) + z;
    }
  }

  /** Poking the first i + 1 elements is poking the first i, then element i;
      and it writes no more than poking all of them. */
  lemma EncodeEachStep(t: Shape, es: seq<Value>, i: nat)
    requires EachOfShape(es, t)
    requires i < |es|
    ensures EachOfShape(es[..i], t) && EachOfShape(es[..i + 1], t)
    ensures EncodeEach(t, es[..i + 1]) == EncodeEach(t, es[..i]) + Encode(t, es[i])
    ensures |EncodeEach(t, es[..i + 1])| <= |EncodeEach(t, es)|
  {
    EncodeEachSplit(es[..i + 1], t, i);
    assert es[..i + 1][..i] == es[..i] && es[..i + 1][i..] == [es[i]];
    assert EncodeEach(t, [es[i]]) == Encode(t, es[i]) by {
      assert [es[i]][1..] == [];
    }
    EncodeEachSplit(es, t, i + 1);
  }

  /** Cutting an array at index i cuts its encoding at the same point. */
  lemma EncodeEachSplit(es: seq<Value>, t: Shape, i: nat)
    requires EachOfShape(es, t) && i <= |es|
    ensures EachOfShape(es[..i], t) && EachOfShape(es[i..], t)
    ensures EncodeEach(t, es) == EncodeEach(t, es[..i]) + EncodeEach(t, es[i..])
  {
    assert forall k :: 0 <= k < |es| - i ==> es[i..][k] == es[i + k];
    assert es == es[..i] + es[i..];
    EncodeEachAppend(t, es[..i], es[i..]);
  }

  lemma {:induction false} EncodeAllAppend(ts1: seq<Shape>, vs1: seq<Value>, ts2: seq<Shape>, vs2: seq<Value>)
    requires AllOfShape(vs1, ts1) && AllOfShape(vs2, ts2)
    ensures AllOfShape(vs1 + vs2, ts1 + ts2)
    ensures EncodeAll(ts1 + ts2, vs1 + vs2) == EncodeAll(ts1, vs1) + EncodeAll(ts2, vs2)
    decreases |ts1|
  {
    AllOfShapeAppend(vs1, ts1, vs2, ts2);
    if ts1 == [] {
      assert ts1 + ts2 == ts2 && vs1 + vs2 == vs2;
    } else {
      var ts, vs := ts1 + ts2, vs1 + vs2;
      assert ts[0] == ts1[0] && ts[1..] == ts1[1..] + ts2;
      assert vs[0] == vs1[0] && vs[1..] == vs1[1..] + vs2;
      assert AllOfShape(vs1[1..], ts1[1..]);
      EncodeAllAppend(ts1[1..], vs1[1..], ts2, vs2);
      var x, y, z := Encode(ts1[0], vs1[0]), EncodeAll(ts1[1..], vs1[1..]), EncodeAll(ts2, vs2);
      assert x + (y + z) == (x + y) + z;
    }
  }

  lemma AllOfShapeAppend(vs1: seq<Value>, ts1: seq<Shape>, vs2: seq<Value>, ts2: seq<Shape>)
    requires AllOfShape(vs1, ts1) && AllOfShape(vs2, ts2)
    ensures AllOfShape(vs1 + vs2, ts1 + ts2)
  {
    forall i | 0 <= i < |ts1 + ts2| ensures OfShape((vs1 + vs2)[i], (ts1 + ts2)[i]) {
      if i < |ts1| {
        assert (vs1 + vs2)[i] == vs1[i] && (ts1 + ts2)[i] == ts1[i];
      } else {
        assert (vs1 + vs2)[i] == vs2[i - |ts1|] && (ts1 + ts2)[i] == ts2[i - |ts1|];
      }
    }
  }

  /** The same step law for tuples and variant fields. */
  lemma EncodeAllStep(ts: seq<Shape>, vs: seq<Value>, i: nat)
    requires AllOfShape(vs, ts)
    requires i < |ts|
    ensures AllOfShape(vs[..i], ts[..i]) && AllOfShape(vs[..i + 1], ts[..i + 1])
    ensures EncodeAll(ts[..i + 1], vs[..i + 1]) == EncodeAll(ts[..i], vs[..i]) + Encode(ts[i], vs[i])
    ensures |EncodeAll(ts[..i + 1], vs[..i + 1])| <= |EncodeAll(ts, vs)|
  {
    AllOfShapeSplit(vs, ts, i);
    AllOfShapeSplit(vs, ts, i + 1);
    AllOfShapeSplit(vs[..i + 1], ts[..i + 1], i);
    assert ts[..i + 1][..i] == ts[..i] && vs[..i + 1][..i] == vs[..i];
    assert ts[..i + 1][i..] == [ts[i]] && vs[..i + 1][i..] == [vs[i]];
    EncodeAllSplit(ts[..i + 1], vs[..i + 1], i);
    assert EncodeAll([ts[i]], [vs[i]]) == Encode(ts[i], vs[i]) by {
      assert [ts[i]][1..] == [];
    }
    EncodeAllSplit(ts, vs, i + 1);
  }

  /** Cutting a tuple at position i cuts its encoding at the same point. */
  lemma EncodeAllSplit(ts: seq<Shape>, vs: seq<Value>, i: nat)
    requires AllOfShape(vs, ts) && i <= |ts|
    ensures AllOfShape(vs[..i], ts[..i]) && AllOfShape(vs[i..], ts[i..])
    ensures EncodeAll(ts, vs) == EncodeAll(ts[..i], vs[..i]) + EncodeAll(ts[i..], vs[i..])
  {
    AllOfShapeSplit(vs, ts, i);
    assert ts == ts[..i] + ts[i..] && vs == vs[..i] + vs[i..];
    EncodeAllAppend(ts[..i], vs[..i], ts[i..], vs[i..]);
  }

  lemma AllOfShapeSplit(vs: seq<Value>, ts: seq<Shape>, i: nat)
    requires AllOfShape(vs, ts) && i <= |ts|
    ensures AllOfShape(vs[..i], ts[..i]) && AllOfShape(vs[i..], ts[i..])
  {
    assert forall k :: 0 <= k < |ts| - i ==> ts[i..][k] == ts[i + k] && vs[i..][k] == vs[i + k];
  }
}
