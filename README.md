# unsafe_poke in Dafny

A model of the encoding core of the Rust crate `unsafe_poke`. The crate is a write-only binary encoder: `poke` copies a value of a statically known type into a caller-owned byte buffer through a cursor, and `poke_max_size` gives a static, value-independent bound on the bytes any value of that type can take. The model covers three parts.

- **The sink** (`sink.dfy`, module `Sink`): the `UnsafePokable` impl for `*mut u8`, written as a class `Cursor`. It holds a fixed `array<byte>` and a position. `PokeBytes` and `PokePod` write in place and advance the position. `Poke`, `PokeEach` and `PokeAll` thread the cursor through a value, one component at a time, as the crate's impls do.
- **The built-in impls** (`encoding.dfy`, `builtins.dfy`): plain-data primitives, `Option<T>`, `[T; 0]`, `[T; N]`, tuples, `()` and `PhantomData<T>`.
  - A Rust type is a `Shape` and an instance of it is a `Value`.
  - `Encode(s, v)` is the byte string `poke` lays down.
  - `MaxSize(s)` is `poke_max_size()`.
  - The central invariant is soundness, `|Encode(s, v)| <= MaxSize(s)`: it is what makes the unchecked writes safe. It holds with equality for fixed-size shapes.
- **The derive** (`derive.dfy`): `#[derive(UnsafePoke)]` on a struct or enum, as a `Derived` shape listing its variants in declaration order.
  - A type whose single variant has no path prefix (a struct) writes its fields in order.
  - Anything else writes the 0-based variant index as a `u32`, then the fields.

`bytes.dfy` holds the little-endian and buffer-splice helpers.

`reader.dfy` holds a decoder, `Decode`, which has no counterpart in the crate. It is there to state what the layout guarantees: `Decode(s, Encode(s, v) + rest) == Ok(v, rest)`. That is, the bytes of a value determine the value and where it ends, and so the encoding is injective.

Two facts about the code and its tests that shape the model:
- The code copies `usize`/`isize` at native width (`mem::size_of::<T>()`, src/lib.rs:38 and :62). The model fixes the word at 8 bytes.
- The struct `Bar { a: u32, b: u32, c: u32, d: Option<u32> }` has `poke_max_size() == 4 * 4 + 1 == 17`, as tests/max_size.rs:60 asserts. A `Bar` with `d: None` takes 13 bytes.

## Model

| member | source | states |
|---|---|---|
| Bytes.LittleEndianRoundTrip | src/lib.rs:36-41 | the w little-endian bytes of any n below 256^w read back as n: the byte copy loses nothing |
| Bytes.Splice | src/lib.rs:43-48 | writing w at offset `at` sets exactly the bytes `[at, at + |w|)` to w and leaves every other byte of the buffer unchanged |
| Bytes.SpliceTwice | src/lib.rs:119-123 | writing w1 and then w2 at the advanced cursor is the same as writing w1 + w2 at once, so cursor threading composes |
| Encoding.PodBits | src/lib.rs:9-28 | the in-memory bit pattern of a primitive (two's complement for signed integers, 0/1 for `bool`) fits in `size_of::<T>()` bytes |
| Encoding.PodBytes | src/lib.rs:36-41 | `poke_pod` copies exactly `size_of::<T>()` bytes |
| Encoding.Discriminant | unsafe-poke-derive/src/lib.rs:21 | the tag `(i as u32)` is four bytes |
| Encoding.EncodedLengthWithinMaxSize | src/lib.rs:51-54 | soundness: every value of every shape takes at most `poke_max_size()` bytes |
| Encoding.EachWithinMaxSize | src/lib.rs:102-104 | n elements take at most `T::poke_max_size() * n` bytes |
| Encoding.AllWithinMaxSize | src/lib.rs:125-127 | the components of a tuple (or the fields of a variant) take at most the sum of their bounds |
| Encoding.VariantWithinMaxVariantSize | tests/max_size.rs:73-76 | every variant's field bounds sum to at most the largest such sum, so any variant fits |
| Encoding.MaxVariantSizeAttained | tests/max_size.rs:73-76 | some variant reaches the largest field-bound sum: the enum bound is a maximum and not a looser sum |
| Encoding.FixedSizeIsExact | src/lib.rs:56-64 | for plain data, arrays and tuples of such, structs of such and enums with equal variant bounds, every value takes exactly `poke_max_size()` bytes |
| Encoding.EachExact | src/lib.rs:95-107 | fixed-size elements make an array exactly `N * T::poke_max_size()` bytes |
| Encoding.AllExact | src/lib.rs:116-130 | fixed-size components make a tuple exactly the sum of their bounds |
| Encoding.EncodeEachAppend | src/lib.rs:99 | the fold over elements is a concatenation: the bytes of `a + b` are the bytes of a, then those of b |
| Encoding.EncodeEachStep | src/lib.rs:99 | poking the first i + 1 elements is poking the first i and then element i, and writes no more than poking them all |
| Encoding.EncodeEachSplit | src/lib.rs:99 | cutting the element list at i cuts the bytes at the matching point |
| Encoding.EncodeAllAppend | src/lib.rs:119-123 | the same concatenation law for tuple components and variant fields |
| Encoding.EncodeAllStep | src/lib.rs:119-123 | poking components 0..i and then component i is poking components 0..i+1, and writes no more than poking them all |
| Encoding.EncodeAllSplit | src/lib.rs:119-123 | cutting the components at i cuts the bytes at the matching point |
| Sink.Cursor.constructor | src/lib.rs:35 | a cursor is a buffer and a position no greater than its length |
| Sink.Cursor.PokeBytes | src/lib.rs:43-48 | `poke_bytes` writes exactly v at the cursor, leaves every other byte unchanged and advances the cursor by `|v|` |
| Sink.Cursor.PokePod | src/lib.rs:36-41 | `poke_pod` writes the value's `size_of::<T>()` bytes at the cursor and advances by exactly that |
| Sink.Poke | src/lib.rs:51-159 | `poke` writes exactly `Encode(s, v)` at the cursor, advances by its length and changes no other byte |
| Sink.PokeEach | src/lib.rs:97-100 | the array fold writes the elements' bytes in index order at the cursor and nothing else |
| Sink.PokeAll | src/lib.rs:118-123 | the tuple impl (and a derived match arm) writes the components in declaration order at the cursor and nothing else |
| Sink.PokeWithinMaxSize | src/lib.rs:51-54 | with `poke_max_size()` bytes free at the cursor, `poke` stays in the buffer, advances by at most the bound and writes `Encode(s, v)` |
| Builtins.PodWidth | src/lib.rs:56-64 | a primitive's bytes number `size_of::<T>()`, which is also its `poke_max_size()` |
| Builtins.SingleByte | src/lib.rs:11-19 | a one-byte primitive (`bool`, `i8`, `u8`) is its bit pattern as one byte |
| Builtins.PodBitsReadBack | src/lib.rs:36-41 | the copied bytes are the little-endian form of the value's bit pattern, and reading them back gives that pattern |
| Builtins.UnsignedReadsBack | src/lib.rs:19-23 | an unsigned integer's bytes read back as the integer |
| Builtins.SignedReadsBack | src/lib.rs:13-17 | a signed integer's bytes, read as two's complement, give the integer back, negative ones included |
| Builtins.FloatReadsBack | src/lib.rs:25-26 | a float's bytes read back as its bit pattern |
| Builtins.PrimitiveMaxSizes | tests/max_size.rs:8-25 | the bounds of the primitives are 1, 2, 4 and 8 bytes, and `usize`/`isize` take 8 |
| Builtins.UnsignedExample | tests/test.rs:42 | `5u32` is `[5, 0, 0, 0]` |
| Builtins.SignedExample | tests/test.rs:54 | `-5i32` is `[0xFB, 0xFF, 0xFF, 0xFF]` |
| Builtins.BoolExamples | tests/test.rs:65-69 | `true` is `[1]` and `false` is `[0]` |
| Builtins.OptionLayout | src/lib.rs:70-77 | `Some(x)` is the byte 1 followed by x's bytes, and `None` is exactly `[0]` |
| Builtins.OptionBound | src/lib.rs:79-81 | the bound `1 + T::poke_max_size()` is reached by `Some` of a fixed-size payload, and `None` takes 1 byte, strictly less exactly when T's bound is non-zero |
| Builtins.OptionExamples | tests/test.rs:72-76 | `Some(5usize)` is `[1, 5, 0, 0, 0, 0, 0, 0, 0]`, `None::<usize>` is `[0]`, and `Option<usize>` has bound 1 + 8 = 9 |
| Builtins.EmptyArray | src/lib.rs:85-93 | `[T; 0]` writes nothing and has bound 0, whatever T is |
| Builtins.ArrayElementLayout | src/lib.rs:99 | an array's bytes are those of the elements before index i, then element i's, then those after it |
| Builtins.ArrayElementAt | src/lib.rs:97-104 | with fixed-size elements, element i occupies exactly the i-th block of `T::poke_max_size()` bytes |
| Builtins.ArrayIsRepeatedTuple | src/lib.rs:95-130 | an N-element array is laid out exactly like an N-tuple of the element type |
| Builtins.ArrayBoundIsRepeatedSum | src/lib.rs:102-104 | `T::poke_max_size() * N` is the tuple bound of N copies of T |
| Builtins.ArrayExamples | tests/max_size.rs:33-38 | `[u32; 32]`, `[u64; 8]` and `[u8; 19]` have bounds 128, 64 and 19, and `[0u8; 19]` is nineteen zero bytes |
| Builtins.SumMaxSizeAppend | src/lib.rs:125-127 | the sum of bounds over two groups of components is the sum of the two groups' sums |
| Builtins.TupleAppend | src/lib.rs:116-130 | splitting a tuple's components into two groups splits both its bytes and its bound the same way |
| Builtins.TupleNesting | src/lib.rs:116-130 | `((a, b), c)` has the same bytes and bound as `(a, b, c)` |
| Builtins.ZeroSizeMarkers | src/lib.rs:151-159 | `()` and `PhantomData<T>` write nothing and have bound 0 |
| Builtins.ZeroBoundComponentAddsNothing | tests/max_size.rs:47 | a component of bound 0 adds no bytes and nothing to the bound, so `(isize, ())` is laid out like `(isize,)` |
| Builtins.TupleExamples | tests/max_size.rs:40-48 | `<(isize)>` (which Rust reads as `isize` itself) and the 1-tuple `(isize,)` both have bound 8; `(isize, isize, isize)` and `(isize, ())` have bounds 24 and 8 |
| Builtins.TupleWithUnitExample | tests/test.rs:89 | `(1isize, ())` is the eight bytes of 1 |
| Builtins.OneWordExample | tests/test.rs:87 | `(1isize,)` is the eight bytes of 1 |
| Derive.DiscriminantIsIndex | unsafe-poke-derive/src/lib.rs:21 | below 2^32 the tag is the variant index in four little-endian bytes, and reading them back gives the index |
| Derive.DistinctIndicesDistinctTags | unsafe-poke-derive/src/lib.rs:14-21 | for at most 2^32 variants, two variants have the same tag if and only if they are the same variant |
| Derive.DiscriminantWraps | unsafe-poke-derive/src/lib.rs:21 | `i as u32` keeps the low 32 bits, so indices 2^32 apart share a tag |
| Derive.StructIsTupleOfFields | unsafe-poke-derive/src/lib.rs:5-26 | a struct writes no tag: its bytes and its bound are those of the tuple of its fields in declaration order |
| Derive.EnumTagThenFields | unsafe-poke-derive/src/lib.rs:14-26 | an enum value is the tag of the matched variant followed by that variant's fields, and its first four bytes, read as a little-endian u32, give the variant index |
| Derive.OneVariantEnumIsTagged | unsafe-poke-derive/src/lib.rs:6-9 | a one-variant enum has a prefix, so unlike a struct it writes the tag `[0, 0, 0, 0]`, and its bound includes the tag |
| Derive.FieldlessVariantIsTagOnly | unsafe-poke-derive/src/lib.rs:17-28 | a variant without fields writes its four tag bytes and nothing else |
| Derive.CStyleEnumBound | tests/max_size.rs:79-96 | an enum whose variants all lack fields has bound 4, and every value takes exactly 4 bytes |
| Derive.EnumMaxIsTagPlusLargestVariant | tests/max_size.rs:63-77 | the enum bound is the tag plus the largest variant: it covers every variant, and some variant reaches it |
| Derive.LabelsCarryNoBytes | unsafe-poke-derive/src/lib.rs:17-26 | renaming fields, or switching between named and positional fields, changes neither a value's bytes nor the bound |
| Derive.BarMaxSize | tests/max_size.rs:50-61 | the bound of `Bar` is `4 * 4 + 1` |
| Derive.BarLayout | tests/test.rs:92-108 | `Bar { a, b, c, d: None }` is the three u32s and then the byte 0, with no tag |
| Derive.BarExample | tests/test.rs:102-107 | the test's `Bar { a: 2, b: 4, c: 42, d: None }` is `[2,0,0,0, 4,0,0,0, 42,0,0,0, 0]`: 13 bytes, no tag |
| Derive.TestEnumMaxSize | tests/max_size.rs:63-77 | the bound of `TestEnum` is `4 + 2 * 8 == 20` |
| Derive.TestEnumArgsLayout | tests/test.rs:122 | `TestEnum::Args(x, y)` is the tag 2 and then two 8-byte words |
| Derive.TestEnumArgsExample | tests/test.rs:122 | the test's `TestEnum::Args(4, 5)` is `[2,0,0,0]`, then 4 and 5 as 8-byte words: 20 bytes |
| Derive.TestEnumStructLikeLayout | tests/test.rs:124 | `TestEnum::StructLike { x, y }` is the tag 4, an 8-byte word and then the float's four bytes |
| Derive.TestEnumStructLikeExample | tests/test.rs:124 | the test's `TestEnum::StructLike { x: 4, y: 3.14159 }` is `[4,0,0,0]`, the word 4, then `[0xD0, 0x0F, 0x49, 0x40]` |
| Derive.BorderStyleLayout | tests/test.rs:127-153 | each `BorderStyle` value is its index in four bytes, and the bound is 4 |
| Derive.FooLayout | tests/test.rs:155-169 | `Foo { x, y, _marker }` is its two u32s, and the `PhantomData` field adds nothing to the bytes or to the bound of 8 |
| Derive.FooExample | tests/test.rs:164-168 | the test's `Foo { x: 19, y: 42, _marker: PhantomData }` is `[19,0,0,0, 42,0,0,0]` |
| Reader.DecodeEncode | src/lib.rs:51-159 | the bytes of any value, followed by anything, read back as that value together with exactly the bytes that followed |
| Reader.PodRoundTrip | src/lib.rs:36-41 | a primitive is recovered from its `size_of::<T>()` bytes |
| Reader.OptionRoundTrip | src/lib.rs:70-77 | the flag byte tells `None` from `Some`, and the payload follows |
| Reader.DerivedRoundTrip | unsafe-poke-derive/src/lib.rs:11-29 | the tag, when there is one, selects the variant, whose fields then read back in order |
| Reader.EachRoundTrip | src/lib.rs:99 | the concatenated elements read back one after the other |
| Reader.AllRoundTrip | src/lib.rs:120-122 | the concatenated components read back in declaration order |
| Reader.EncodeInjective | src/lib.rs:51-159 | two values of one type with the same bytes are the same value |

## Left out

- Raw pointers, `unsafe` and `ptr::copy_nonoverlapping` (src/lib.rs:35-48). The sink is an array with a position. The unchecked write becomes a `requires` that the bytes fit.
- Aliasing between the value being poked and the buffer is not modelled. A `Value` is immutable data.
- Floating point: `f32`/`f64` values are their bit patterns, and no float arithmetic is modelled. The test value 3.14159 appears only through its f32 pattern 0x40490FD0.
- Platform dependence: `usize`/`isize` are fixed at 8 bytes and byte order at little-endian, where the crate copies the native width and order.
- `poke_max_size` returns a `usize`, which could overflow for huge arrays. `MaxSize` is an unbounded `nat`.
- Proc-macro machinery (`quote!`, `synstructure`, `bound_impl` and its trait-bound inference). The derive is modelled by its effect on the `Derived` shape, not by token generation.
- Rejection of fields with no `UnsafePoke` impl happens at compile time. Here it is the well-typedness predicate `OfShape`.
- The derive emits only `poke` (unsafe-poke-derive/src/lib.rs:31-43), not `poke_max_size`. The bound of a derived type is taken from the tests' assertions (tests/max_size.rs:60, 73-76, 95, 107): the sum of the field bounds for a struct, and 4 plus the largest variant's sum for an enum.
- Explicit discriminants such as `None = 0` in `BorderStyle` are ignored by the derive, which writes the declaration index. They coincide in the tests.
- Field names are kept only as labels that carry no bytes.
- src/euclid.rs (impls for third-party geometry types whose layout is not visible) is not part of this model.
- The bincode comparison in tests/test.rs:1-35 is an external serializer. Its expected byte strings appear as concrete lemmas instead.
- Macro arity limits (arrays up to 32 elements, tuples up to 16 components) are not enforced. Arrays and tuples are modelled over sequences of any length.
- `Reader.Decode` is a reading device for stating properties and has no counterpart in the crate. Every derived type inside the value must have at most 2^32 variants (`TagsFit`), because `i as u32` wraps beyond that (`Derive.DiscriminantWraps`).
