/**
 * Bytes, 32-bit little-endian words and the Python list operations the
 * linker uses on its byte buffers.
 */
module Bytes {

  type Byte = b: int | 0 <= b < 0x100

  const U32_LIMIT: int := 0x1_0000_0000

  /** `int.from_bytes(bs, 'little')` (and DataView.getUint32 over four bytes). */
  function FromLE(bs: seq<Byte>): (v: nat)
    ensures v < Pow256(|bs|)
  {
    if bs == [] then 0 else bs[0] + 0x100 * FromLE(bs[1..])
  }

  function Pow256(n: nat): (p: nat)
    ensures p >= 1
  {
    if n == 0 then 1 else 0x100 * Pow256(n - 1)
  }

  /** `v.to_bytes(4, 'little')`, also `pack('<I', v)`; the source raises
      outside [0, 2^32), which the precondition excludes. */
  function LE32(v: int): (bs: seq<Byte>)
    requires 0 <= v < U32_LIMIT
    ensures |bs| == 4 && FromLE(bs) == v
  {
    assert Pow256(4) == U32_LIMIT;
    ToLE(v, 4)
  }

  /** The n bytes of v, least significant first. */
  function ToLE(v: nat, n: nat): (bs: seq<Byte>)
    requires v < Pow256(n)
    ensures |bs| == n && FromLE(bs) == v
  {
    if n == 0 then []
    else
      DivModByte(v % 0x100, v / 0x100);
      assert v / 0x100 < Pow256(n - 1);
      [v % 0x100] + ToLE(v / 0x100, n - 1)
  }

  /** Four bytes are the encoding of the word they decode to. */
  lemma LE32OfFromLE(bs: seq<Byte>)
    requires |bs| == 4
    ensures LE32(FromLE(bs)) == bs
  {
    assert Pow256(4) == U32_LIMIT;
    ToLEOfFromLE(bs);
  }

  lemma {:induction false} ToLEOfFromLE(bs: seq<Byte>)
    ensures ToLE(FromLE(bs), |bs|) == bs
  {
    if bs != [] {
      ToLEOfFromLE(bs[1..]);
      DivModByte(bs[0], FromLE(bs[1..]));
    }
  }

  lemma DivModByte(lo: int, hi: int)
    requires 0 <= lo < 0x100 && 0 <= hi
    ensures (lo + 0x100 * hi) / 0x100 == hi && (lo + 0x100 * hi) % 0x100 == lo
  {
  }

  /** `[0] * n`, and the list comprehension of n zeros. */
  function Zeros(n: nat): (z: seq<Byte>)
    ensures |z| == n && AllZero(z)
  {
    seq(n, _ => 0)
  }

  predicate AllZero(s: seq<Byte>)
  {
    forall i :: 0 <= i < |s| ==> s[i] == 0
  }

  /** Python's `l[a:b] = x` for non-negative a and b: both bounds are clamped
      to the list, and the list grows or shrinks when x is not b - a long. */
  function SliceAssign(l: seq<Byte>, a: nat, b: nat, x: seq<Byte>): (r: seq<Byte>)
    ensures a <= b <= |l| ==> |r| == |l| - (b - a) + |x|
    ensures a <= b <= |l| ==> r[..a] == l[..a] && r[a..a + |x|] == x && r[a + |x|..] == l[b..]
  {
    var a' := if a <= |l| then a else |l|;
    var b' := if b <= a' then a' else if b <= |l| then b else |l|;
    l[..a'] + x + l[b'..]
  }

  /** `l[site:site + 4] = v.to_bytes(4, 'little')` for a site inside the
      buffer: a slice assignment that replaces four bytes by four bytes. */
  function WriteLE32(l: seq<Byte>, site: nat, v: int): (r: seq<Byte>)
    requires site + 4 <= |l| && 0 <= v < U32_LIMIT
    ensures |r| == |l| && r[site..site + 4] == LE32(v)
    ensures forall k :: 0 <= k < |l| && !(site <= k < site + 4) ==> r[k] == l[k]
  {
    var r := l[..site] + LE32(v) + l[site + 4..];
    assert r[site..site + 4] == LE32(v);
    r
  }

  /** The word write is the slice assignment of its four bytes. */
  lemma WriteLE32IsSliceAssign(l: seq<Byte>, site: nat, v: int)
    requires site + 4 <= |l| && 0 <= v < U32_LIMIT
    ensures WriteLE32(l, site, v) == SliceAssign(l, site, site + 4, LE32(v))
  {
  }
}
