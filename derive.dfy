/** What `#[derive(UnsafePoke)]` produces, stated over the `Derived` shape:
    a struct (one variant, no path prefix) is its fields in declaration
    order with no tag; anything else (every enum, a one-variant enum too)
    writes the 0-based index of the matched variant as a `u32` and then
    that variant's fields in order. */
module Derive {
  import opened Bytes
  import opened Encoding
  import Builtins

  // ---------------------------------------------------------------------
  // The discriminant.
  // ---------------------------------------------------------------------

  /** Below 2^32 the tag is the variant index itself, in four little-endian
      bytes, and reading those bytes back yields the index. */
  lemma DiscriminantIsIndex(i: nat)
    requires i < Pow256(TagSize)
    ensures Discriminant(i) == LittleEndian(i, TagSize)
    ensures FromLittleEndian(Discriminant(i)) == i
  {
    assert PodBits(U32, IntV(i % Pow256(TagSize))) == i;
    LittleEndianRoundTrip(i, TagSize);
  }

  /** Distinct variants of an enum with at most 2^32 variants get distinct
      tags, so the tag identifies the variant. */
  lemma DistinctIndicesDistinctTags(i: nat, j: nat)
    requires i < Pow256(TagSize) && j < Pow256(TagSize)
    ensures Discriminant(i) == Discriminant(j) <==> i == j
  {
    DiscriminantIsIndex(i);
    DiscriminantIsIndex(j);
  }

  /** `i as u32` keeps the low 32 bits: indices 2^32 apart share a tag. */
  lemma DiscriminantWraps(i: nat)
    ensures Discriminant(i + Pow256(TagSize)) == Discriminant(i)
  {
    var m := Pow256(TagSize);
    assert (i + m) % m == i % m;
  }

  // ---------------------------------------------------------------------
  // Structs.
  // ---------------------------------------------------------------------

  /** A struct writes no tag: its bytes and its bound are those of the
      tuple of its fields, in declaration order. */
  lemma StructIsTupleOfFields(vs: seq<Variant>, v: Value)
    requires IsStruct(vs) && OfShape(v, Derived(vs))
    ensures v.index == 0
    ensures OfShape(TupleV(v.values), Tuple(vs[0].fields))
    ensures Encode(Derived(vs), v) == Encode(Tuple(vs[0].fields), TupleV(v.values))
    ensures MaxSize(Derived(vs)) == MaxSize(Tuple(vs[0].fields))
  {
    var e := EncodeAll(vs[0].fields, v.values);
    assert Encode(Derived(vs), v) == [] + e;
  }

  // ---------------------------------------------------------------------
  // Enums.
  // ---------------------------------------------------------------------

  /** An enum value is its tag followed by the fields of the matched
      variant; the first four bytes read as a little-endian u32 give the
      variant's declaration index. */
  lemma EnumTagThenFields(vs: seq<Variant>, v: Value)
    requires !IsStruct(vs) && |vs| <= Pow256(TagSize) && OfShape(v, Derived(vs))
    ensures |Encode(Derived(vs), v)| >= TagSize
    ensures Encode(Derived(vs), v)[..TagSize] == LittleEndian(v.index, TagSize)
    ensures FromLittleEndian(Encode(Derived(vs), v)[..TagSize]) == v.index
    ensures Encode(Derived(vs), v)[TagSize..] == EncodeAll(vs[v.index].fields, v.values)
  {
    var tag, body := Discriminant(v.index), EncodeAll(vs[v.index].fields, v.values);
    assert Encode(Derived(vs), v) == tag + body;
    DiscriminantIsIndex(v.index);
  }

  /** A one-variant enum still has a path prefix, so unlike a struct it
      writes the tag 0 before its fields and its bound includes the tag. */
  lemma OneVariantEnumIsTagged(vs: seq<Variant>, v: Value)
    requires |vs| == 1 && vs[0].prefixed && OfShape(v, Derived(vs))
    ensures Encode(Derived(vs), v) == [0, 0, 0, 0] + EncodeAll(vs[0].fields, v.values)
    ensures MaxSize(Derived(vs)) == TagSize + SumMaxSize(vs[0].fields)
  {
    DiscriminantIsIndex(0);
    assert LittleEndian(0, TagSize) == [0, 0, 0, 0];
    assert vs[1..] == [] && MaxVariantSize(vs[1..]) == 0;
  }

  /** A variant without fields encodes to its four tag bytes and nothing else. */
  lemma FieldlessVariantIsTagOnly(vs: seq<Variant>, v: Value)
    requires !IsStruct(vs) && |vs| <= Pow256(TagSize) && OfShape(v, Derived(vs))
    requires vs[v.index].fields == []
    ensures Encode(Derived(vs), v) == LittleEndian(v.index, TagSize)
  {
    assert Encode(Derived(vs), v) == Discriminant(v.index) + [];
    DiscriminantIsIndex(v.index);
  }

  /** A variant without fields. */
  predicate IsUnitVariant(w: Variant)
  {
    w.prefixed && w.fields == []
  }

  /** A C-style enum (every variant field-less) has bound 4, and every one of
      its values takes exactly those four bytes. */
  lemma CStyleEnumBound(vs: seq<Variant>)
    requires vs != [] && forall i :: 0 <= i < |vs| ==> IsUnitVariant(vs[i])
    ensures !IsStruct(vs)
    ensures MaxSize(Derived(vs)) == TagSize
    ensures FixedSize(Derived(vs))
  {
    assert IsUnitVariant(vs[0]);
    MaxVariantSizeAttained(vs);
    var j :| 0 <= j < |vs| && SumMaxSize(vs[j].fields) == MaxVariantSize(vs);
    assert IsUnitVariant(vs[j]);
    forall i | 0 <= i < |vs|
      ensures AllFixedSize(vs[i].fields) && SumMaxSize(vs[i].fields) == MaxVariantSize(vs)
    {
      assert IsUnitVariant(vs[i]);
    }
  }

  /** The bound of an enum is the tag plus the largest variant: it covers
      every variant, and (when there is one) some variant reaches it. */
  lemma EnumMaxIsTagPlusLargestVariant(vs: seq<Variant>)
    requires !IsStruct(vs)
    ensures forall i :: 0 <= i < |vs| ==> TagSize + SumMaxSize(vs[i].fields) <= MaxSize(Derived(vs))
    ensures vs != [] ==> exists i :: 0 <= i < |vs| && TagSize + SumMaxSize(vs[i].fields) == MaxSize(Derived(vs))
  {
    forall i | 0 <= i < |vs|
      ensures SumMaxSize(vs[i].fields) <= MaxVariantSize(vs)
    {
      VariantWithinMaxVariantSize(vs, i);
    }
    if vs != [] {
      MaxVariantSizeAttained(vs);
    }
  }

  // ---------------------------------------------------------------------
  // Field names.
  // ---------------------------------------------------------------------

  /** vs and ws declare the same variants with the same field types in the
      same order; only field names may differ. */
  predicate SameLayout(vs: seq<Variant>, ws: seq<Variant>)
  {
    |vs| == |ws| &&
    forall i :: 0 <= i < |vs| ==> vs[i].prefixed == ws[i].prefixed && vs[i].fields == ws[i].fields
  }

  lemma {:induction false} MaxVariantSizeIgnoresLabels(vs: seq<Variant>, ws: seq<Variant>)
    requires SameLayout(vs, ws)
    ensures MaxVariantSize(vs) == MaxVariantSize(ws)
  {
    if vs != [] {
      assert SameLayout(vs[1..], ws[1..]) by {
        forall i | 0 <= i < |vs[1..]|
          ensures vs[1..][i].prefixed == ws[1..][i].prefixed && vs[1..][i].fields == ws[1..][i].fields
        {
          assert vs[1..][i] == vs[i + 1] && ws[1..][i] == ws[i + 1];
        }
      }
      MaxVariantSizeIgnoresLabels(vs[1..], ws[1..]);
    }
  }

  /** Field names contribute no bytes: renaming fields (or switching between
      named and positional fields) changes neither a value's bytes nor the
      bound. */
  lemma LabelsCarryNoBytes(vs: seq<Variant>, ws: seq<Variant>, v: Value)
    requires SameLayout(vs, ws) && OfShape(v, Derived(vs))
    ensures OfShape(v, Derived(ws))
    ensures Encode(Derived(vs), v) == Encode(Derived(ws), v)
    ensures MaxSize(Derived(vs)) == MaxSize(Derived(ws))
  {
    assert vs[v.index].fields == ws[v.index].fields;
    assert IsStruct(vs) == IsStruct(ws);
    MaxVariantSizeIgnoresLabels(vs, ws);
  }

  // ---------------------------------------------------------------------
  // The derived types of the crate's tests.
  // ---------------------------------------------------------------------

  /** A u32 field holds its number in four little-endian bytes. */
  lemma U32Bytes(n: nat)
    requires n < Pow256(4)
    ensures OfShape(IntV(n), Pod(U32)) && Encode(Pod(U32), IntV(n)) == LittleEndian(n, 4)
  {
  }

  /** A usize field holds its number in eight little-endian bytes. */
  lemma WordBytes(n: nat)
    requires n < Pow256(WordSize)
    ensures OfShape(IntV(n), Pod(USize)) && Encode(Pod(USize), IntV(n)) == LittleEndian(n, WordSize)
  {
  }

  /** An f32 field holds its bit pattern in four little-endian bytes. */
  lemma F32Bytes(n: nat)
    requires n < Pow256(4)
    ensures OfShape(FloatV(n), Pod(F32)) && Encode(Pod(F32), FloatV(n)) == LittleEndian(n, 4)
  {
  }

  /** `struct Bar { a: u32, b: u32, c: u32, d: Option<u32> }` */
  const BarShape: Shape :=
    Derived([Variant(false, ["a", "b", "c", "d"], [Pod(U32), Pod(U32), Pod(U32), Opt(Pod(U32))])])

  /** Its bound is four u32 bounds and the option's flag byte. */
  lemma BarMaxSize()
    ensures MaxSize(BarShape) == 4 * 4 + 1
  {
    assert SumMaxSize(BarShape.variants[0].fields[3..]) == 5;
  }

  lemma BarIsFields(a: nat, b: nat, c: nat)
    requires a < Pow256(4) && b < Pow256(4) && c < Pow256(4)
    ensures OfShape(VariantV(0, [IntV(a), IntV(b), IntV(c), NoneV]), BarShape)
    ensures Encode(BarShape, VariantV(0, [IntV(a), IntV(b), IntV(c), NoneV]))
         == Encode(Pod(U32), IntV(a)) + (Encode(Pod(U32), IntV(b)) + (Encode(Pod(U32), IntV(c)) + Encode(Opt(Pod(U32)), NoneV)))
  {
    var fs, xs := [Pod(U32), Pod(U32), Pod(U32), Opt(Pod(U32))], [IntV(a), IntV(b), IntV(c), NoneV];
    assert Encode(BarShape, VariantV(0, xs)) == EncodeAll(fs, xs);
  }

  /** A `Bar` with `d: None` is its three words and the byte 0, with no
      tag: 13 bytes, as in the test `Bar { a: 2, b: 4, c: 42, d: None }`,
      four short of the bound. */
  lemma BarLayout(a: nat, b: nat, c: nat)
    requires a < Pow256(4) && b < Pow256(4) && c < Pow256(4)
    ensures OfShape(VariantV(0, [IntV(a), IntV(b), IntV(c), NoneV]), BarShape)
    ensures Encode(BarShape, VariantV(0, [IntV(a), IntV(b), IntV(c), NoneV]))
         == LittleEndian(a, 4) + (LittleEndian(b, 4) + (LittleEndian(c, 4) + [0]))
  {
    BarIsFields(a, b, c);
    U32Bytes(a);
    U32Bytes(b);
    U32Bytes(c);
    Builtins.OptionLayout(Pod(U32), NoneV);
  }

  /** `enum TestEnum { NoArg, OneArg(usize), Args(usize, usize), AnotherNoArg,
      StructLike { x: usize, y: f32 } }` */
  const TestEnumShape: Shape :=
    Derived([
      Variant(true, [], []),
      Variant(true, [], [Pod(USize)]),
      Variant(true, [], [Pod(USize), Pod(USize)]),
      Variant(true, [], []),
      Variant(true, ["x", "y"], [Pod(USize), Pod(F32)])
    ])

  /** The bound is the tag plus the two words of `Args`. */
  lemma TestEnumMaxSize()
    ensures MaxSize(TestEnumShape) == TagSize + 2 * WordSize == 20
  {
    var vs := TestEnumShape.variants;
    assert SumMaxSize(vs[4].fields) == 12;
    assert SumMaxSize(vs[2].fields) == 16;
  }

  lemma TestEnumArgsIsFields(x: nat, y: nat)
    requires x < Pow256(WordSize) && y < Pow256(WordSize)
    ensures OfShape(VariantV(2, [IntV(x), IntV(y)]), TestEnumShape)
    ensures Encode(TestEnumShape, VariantV(2, [IntV(x), IntV(y)]))
         == Discriminant(2) + (Encode(Pod(USize), IntV(x)) + Encode(Pod(USize), IntV(y)))
  {
    var fs, xs := [Pod(USize), Pod(USize)], [IntV(x), IntV(y)];
    assert Encode(TestEnumShape, VariantV(2, xs)) == Discriminant(2) + EncodeAll(fs, xs);
  }

  /** `TestEnum::Args(x, y)`: tag 2, then the two words (the test uses 4 and 5). */
  lemma TestEnumArgsLayout(x: nat, y: nat)
    requires x < Pow256(WordSize) && y < Pow256(WordSize)
    ensures OfShape(VariantV(2, [IntV(x), IntV(y)]), TestEnumShape)
    ensures Encode(TestEnumShape, VariantV(2, [IntV(x), IntV(y)]))
         == LittleEndian(2, 4) + (LittleEndian(x, 8) + LittleEndian(y, 8))
  {
    TestEnumArgsIsFields(x, y);
    WordBytes(x);
    WordBytes(y);
    DiscriminantIsIndex(2);
  }

  lemma TestEnumStructLikeIsFields(x: nat, y: nat)
    requires x < Pow256(WordSize) && y < Pow256(4)
    ensures OfShape(VariantV(4, [IntV(x), FloatV(y)]), TestEnumShape)
    ensures Encode(TestEnumShape, VariantV(4, [IntV(x), FloatV(y)]))
         == Discriminant(4) + (Encode(Pod(USize), IntV(x)) + Encode(Pod(F32), FloatV(y)))
  {
    var fs, xs := [Pod(USize), Pod(F32)], [IntV(x), FloatV(y)];
    assert Encode(TestEnumShape, VariantV(4, xs)) == Discriminant(4) + EncodeAll(fs, xs);
  }

  /** `TestEnum::StructLike { x, y }`: tag 4, the word, then the float's
      bits. The test's 3.14159 as an f32 has the bit pattern 0x40490FD0. */
  lemma TestEnumStructLikeLayout(x: nat, y: nat)
    requires x < Pow256(WordSize) && y < Pow256(4)
    ensures OfShape(VariantV(4, [IntV(x), FloatV(y)]), TestEnumShape)
    ensures Encode(TestEnumShape, VariantV(4, [IntV(x), FloatV(y)]))
         == LittleEndian(4, 4) + (LittleEndian(x, 8) + LittleEndian(y, 4))
  {
    TestEnumStructLikeIsFields(x, y);
    WordBytes(x);
    F32Bytes(y);
    DiscriminantIsIndex(4);
  }

  /** `enum BorderStyle { None, Solid, …, Outset }`: ten field-less variants. */
  const BorderStyleShape: Shape := Derived(seq(10, _ => Variant(true, [], [])))

  /** Each of its values is its index as four bytes, and its bound is 4. */
  lemma BorderStyleLayout(i: nat)
    requires i < 10
    ensures MaxSize(BorderStyleShape) == 4
    ensures OfShape(VariantV(i, []), BorderStyleShape)
    ensures Encode(BorderStyleShape, VariantV(i, [])) == [i as byte, 0, 0, 0]
  {
    var vs := BorderStyleShape.variants;
    CStyleEnumBound(vs);
    assert Pow256(4) == 0x1_0000_0000;
    FieldlessVariantIsTagOnly(vs, VariantV(i, []));
  }

  /** `struct Foo { x: u32, y: u32, _marker: PhantomData<Bar> }` */
  const FooShape: Shape :=
    Derived([Variant(false, ["x", "y", "_marker"], [Pod(U32), Pod(U32), Phantom])])

  lemma FooIsFields(x: nat, y: nat)
    requires x < Pow256(4) && y < Pow256(4)
    ensures OfShape(VariantV(0, [IntV(x), IntV(y), PhantomV]), FooShape)
    ensures Encode(FooShape, VariantV(0, [IntV(x), IntV(y), PhantomV]))
         == Encode(Pod(U32), IntV(x)) + (Encode(Pod(U32), IntV(y)) + Encode(Phantom, PhantomV))
  {
    var fs, xs := [Pod(U32), Pod(U32), Phantom], [IntV(x), IntV(y), PhantomV];
    assert Encode(FooShape, VariantV(0, xs)) == EncodeAll(fs, xs);
  }

  /** The marker field adds nothing to the bytes or to the bound (the test
      uses x = 19, y = 42). */
  lemma FooLayout(x: nat, y: nat)
    requires x < Pow256(4) && y < Pow256(4)
    ensures MaxSize(FooShape) == 8
    ensures OfShape(VariantV(0, [IntV(x), IntV(y), PhantomV]), FooShape)
    ensures Encode(FooShape, VariantV(0, [IntV(x), IntV(y), PhantomV])) == LittleEndian(x, 4) + LittleEndian(y, 4)
  {
    FooIsFields(x, y);
    U32Bytes(x);
    U32Bytes(y);
    assert LittleEndian(y, 4) + [] == LittleEndian(y, 4);
  }

  // ---------------------------------------------------------------------
  // The values the tests poke
  // ---------------------------------------------------------------------

  // The test values' little-endian bytes, worked out apart from `Encode`.

  lemma BarBytes()
    ensures LittleEndian(2, 4) + (LittleEndian(4, 4) + (LittleEndian(42, 4) + [0]))
         == [2, 0, 0, 0, 4, 0, 0, 0, 42, 0, 0, 0, 0]
  {
    calc {
      LittleEndian(2, 4) + (LittleEndian(4, 4) + (LittleEndian(42, 4) + [0]));
      == {
        assert LittleEndian(2, 4) == [2, 0, 0, 0];
        assert LittleEndian(4, 4) == [4, 0, 0, 0];
        assert LittleEndian(42, 4) == [42, 0, 0, 0];
      }
      [2, 0, 0, 0] + ([4, 0, 0, 0] + ([42, 0, 0, 0] + [0]));
      ==
      [2, 0, 0, 0, 4, 0, 0, 0, 42, 0, 0, 0, 0];
    }
  }

  lemma TestEnumArgsBytes()
    ensures LittleEndian(2, 4) + (LittleEndian(4, 8) + LittleEndian(5, 8))
         == [2, 0, 0, 0, 4, 0, 0, 0, 0, 0, 0, 0, 5, 0, 0, 0, 0, 0, 0, 0]
  {
    calc {
      LittleEndian(2, 4) + (LittleEndian(4, 8) + LittleEndian(5, 8));
      == {
        assert LittleEndian(2, 4) == [2, 0, 0, 0];
        assert LittleEndian(4, 8) == [4, 0, 0, 0, 0, 0, 0, 0];
        assert LittleEndian(5, 8) == [5, 0, 0, 0, 0, 0, 0, 0];
      }
      [2, 0, 0, 0] + ([4, 0, 0, 0, 0, 0, 0, 0] + [5, 0, 0, 0, 0, 0, 0, 0]);
      ==
      [2, 0, 0, 0, 4, 0, 0, 0, 0, 0, 0, 0, 5, 0, 0, 0, 0, 0, 0, 0];
    }
  }

  /** 3.14159 as an f32 has the bit pattern 0x40490FD0. */
  lemma PiBytes()
    ensures LittleEndian(0x4049_0FD0, 4) == [0xD0, 0x0F, 0x49, 0x40]
  {
    calc {
      LittleEndian(0x4049_0FD0, 4);
      ==
      [0xD0] + LittleEndian(0x40_490F, 3);
      ==
      [0xD0] + ([0x0F] + LittleEndian(0x4049, 2));
      ==
      [0xD0] + ([0x0F] + ([0x49] + LittleEndian(0x40, 1)));
      ==
      [0xD0, 0x0F, 0x49, 0x40];
    }
  }

  lemma TestEnumStructLikeBytes()
    ensures LittleEndian(4, 4) + (LittleEndian(4, 8) + LittleEndian(0x4049_0FD0, 4))
         == [4, 0, 0, 0, 4, 0, 0, 0, 0, 0, 0, 0, 0xD0, 0x0F, 0x49, 0x40]
  {
    calc {
      LittleEndian(4, 4) + (LittleEndian(4, 8) + LittleEndian(0x4049_0FD0, 4));
      == {
        assert LittleEndian(4, 4) == [4, 0, 0, 0];
        assert LittleEndian(4, 8) == [4, 0, 0, 0, 0, 0, 0, 0];
        PiBytes();
      }
      [4, 0, 0, 0] + ([4, 0, 0, 0, 0, 0, 0, 0] + [0xD0, 0x0F, 0x49, 0x40]);
      ==
      [4, 0, 0, 0, 4, 0, 0, 0, 0, 0, 0, 0, 0xD0, 0x0F, 0x49, 0x40];
    }
  }

  lemma FooBytes()
    ensures LittleEndian(19, 4) + LittleEndian(42, 4)
         == [19, 0, 0, 0, 42, 0, 0, 0]
  {
    calc {
      LittleEndian(19, 4) + LittleEndian(42, 4);
      == {
        assert LittleEndian(42, 4) == [42, 0, 0, 0];
        assert LittleEndian(19, 4) == [19, 0, 0, 0];
      }
      [19, 0, 0, 0] + [42, 0, 0, 0];
      ==
      [19, 0, 0, 0, 42, 0, 0, 0];
    }
  }

  /** `Bar { a: 2, b: 4, c: 42, d: None }` is 13 bytes with no tag. */
  lemma BarExample()
    ensures Encode(BarShape, VariantV(0, [IntV(2), IntV(4), IntV(42), NoneV]))
         == [2, 0, 0, 0, 4, 0, 0, 0, 42, 0, 0, 0, 0]
  {
    calc {
      Encode(BarShape, VariantV(0, [IntV(2), IntV(4), IntV(42), NoneV]));
      == { BarLayout(2, 4, 42); }
      LittleEndian(2, 4) + (LittleEndian(4, 4) + (LittleEndian(42, 4) + [0]));
      == { BarBytes(); }
      [2, 0, 0, 0, 4, 0, 0, 0, 42, 0, 0, 0, 0];
    }
  }

  /** `TestEnum::Args(4, 5)` is the tag 2 and two words: 20 bytes. */
  lemma TestEnumArgsExample()
    ensures Encode(TestEnumShape, VariantV(2, [IntV(4), IntV(5)]))
         == [2, 0, 0, 0, 4, 0, 0, 0, 0, 0, 0, 0, 5, 0, 0, 0, 0, 0, 0, 0]
  {
    calc {
      Encode(TestEnumShape, VariantV(2, [IntV(4), IntV(5)]));
      == { TestEnumArgsLayout(4, 5); }
      LittleEndian(2, 4) + (LittleEndian(4, 8) + LittleEndian(5, 8));
      == { TestEnumArgsBytes(); }
      [2, 0, 0, 0, 4, 0, 0, 0, 0, 0, 0, 0, 5, 0, 0, 0, 0, 0, 0, 0];
    }
  }

  /** `TestEnum::StructLike { x: 4, y: 3.14159 }`, the float being the bit
      pattern 0x40490FD0. */
  lemma TestEnumStructLikeExample()
    ensures Encode(TestEnumShape, VariantV(4, [IntV(4), FloatV(0x4049_0FD0)]))
         == [4, 0, 0, 0, 4, 0, 0, 0, 0, 0, 0, 0, 0xD0, 0x0F, 0x49, 0x40]
  {
    calc {
      Encode(TestEnumShape, VariantV(4, [IntV(4), FloatV(0x4049_0FD0)]));
      == { TestEnumStructLikeLayout(4, 0x4049_0FD0); }
      LittleEndian(4, 4) + (LittleEndian(4, 8) + LittleEndian(0x4049_0FD0, 4));
      == { TestEnumStructLikeBytes(); }
      [4, 0, 0, 0, 4, 0, 0, 0, 0, 0, 0, 0, 0xD0, 0x0F, 0x49, 0x40];
    }
  }

  /** `Foo { x: 19, y: 42, _marker: PhantomData }` is the two words alone. */
  lemma FooExample()
    ensures Encode(FooShape, VariantV(0, [IntV(19), IntV(42), PhantomV])) == [19, 0, 0, 0, 42, 0, 0, 0]
  {
    calc {
      Encode(FooShape, VariantV(0, [IntV(19), IntV(42), PhantomV]));
      == { FooLayout(19, 42); }
      LittleEndian(19, 4) + LittleEndian(42, 4);
      == { FooBytes(); }
      [19, 0, 0, 0, 42, 0, 0, 0];
    }
  }
}
