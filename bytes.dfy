/** Byte-level helpers shared by the encoder, the sink and the reader:
    little-endian integers of a fixed width and the effect of writing a
    run of bytes into a larger buffer. */
module Bytes {

  /** An octet, as the buffer stores it. */
  newtype byte = x: int | 0 <= x < 256

  /** 256^w: the number of distinct values that fit in w bytes. */
  function Pow256(w: nat): (r: nat)
    ensures r >= 1
    ensures w > 0 ==> r >= 256 && r % 2 == 0
  {
    if w == 0 then 1 else 256 * Pow256(w - 1)
  }

  /** The w low-order bytes of n, least significant first. Bits of n above
      8*w are dropped, as a truncating cast to a w-byte integer drops them. */
  function LittleEndian(n: nat, w: nat): (r: seq<byte>)
    ensures |r| == w
  {
    if w == 0 then [] else [(n % 256) as byte] + LittleEndian(n / 256, w - 1)
  }

  /** The unsigned integer whose little-endian bytes are bs. */
  function FromLittleEndian(bs: seq<byte>): (n: nat)
    ensures n < Pow256(|bs|)
  {
    if bs == [] then 0 else bs[0] as nat + 256 * FromLittleEndian(bs[1..])
  }

  /** Reading back w little-endian bytes gives n whenever n fits in w bytes. */
  lemma {:induction false} LittleEndianRoundTrip(n: nat, w: nat)
    requires n < Pow256(w)
    ensures FromLittleEndian(LittleEndian(n, w)) == n
  {
    if w > 0 {
      var bs := LittleEndian(n, w);
      assert bs[1..] == LittleEndian(n / 256, w - 1);
      LittleEndianRoundTrip(n / 256, w - 1);
      assert bs[0] as nat == n % 256;
    }
  }

  /** The buffer b after the bytes w are written at offset at: the bytes in
      [at, at + |w|) are those of w and every other byte is unchanged. */
  function Splice(b: seq<byte>, at: nat, w: seq<byte>): (r: seq<byte>)
    requires at + |w| <= |b|
    ensures |r| == |b|
    ensures forall k :: 0 <= k < |b| ==> r[k] == if at <= k < at + |w| then w[k - at] else b[k]
  {
    b[..at] + w + b[at + |w|..]
  }

  /** Writing w1 and then w2 right after it is writing w1 + w2 at once. */
  lemma SpliceTwice(b: seq<byte>, at: nat, w1: seq<byte>, w2: seq<byte>)
    requires at + |w1| + |w2| <= |b|
    ensures Splice(Splice(b, at, w1), at + |w1|, w2) == Splice(b, at, w1 + w2)
  {
    var lhs := Splice(Splice(b, at, w1), at + |w1|, w2);
    var rhs := Splice(b, at, w1 + w2);
    assert |lhs| == |rhs|;
    forall k | 0 <= k < |b| ensures lhs[k] == rhs[k] {
      if at <= k < at + |w1| {
        assert (w1 + w2)[k - at] == w1[k - at];
      } else if at + |w1| <= k < at + |w1| + |w2| {
        assert (w1 + w2)[k - at] == w2[k - at - |w1|];
      }
    }
  }
}
