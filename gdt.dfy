/**
 * Segment descriptors and segment selectors (gdt.py), following the layouts
 * of the Intel SDM Vol. 3A, section 3.4.5 (Segment Descriptors) and
 * section 3.4.2 (Segment Selectors).
 *
 * The source computes on unbounded integers. A selector is computed on
 * naturals, where `x << k` is `x * Pow2(k)` and `|` is BitOr, the bitwise or
 * of two naturals. A descriptor masks every field it uses, so its value is
 * always below 2^64 and it is computed on bv64 with the source's own
 * operators.
 */
module Gdt {

  function Pow2(k: nat): (r: nat)
    ensures r >= 1
  {
    if k == 0 then 1 else 2 * Pow2(k - 1)
  }

  /** Bitwise or of two naturals, one bit at a time from the least significant. */
  function BitOr(a: nat, b: nat): nat
    decreases a + b
  {
    if a == 0 then b
    else if b == 0 then a
    else 2 * BitOr(a / 2, b / 2) + (if a % 2 == 1 || b % 2 == 1 then 1 else 0)
  }

  /** Or-ing two values whose high parts start at bit k: the low part passes through. */
  lemma {:induction false} BitOrHigh(lo: nat, c: nat, d: nat, k: nat)
    requires lo < Pow2(k)
    ensures BitOr(lo + c * Pow2(k), d * Pow2(k)) == lo + BitOr(c, d) * Pow2(k)
  {
    if k == 0 {
      assert lo == 0;
    } else if d == 0 {
      BitOrZero(lo + c * Pow2(k));
      BitOrZero(c);
    } else if c == 0 && lo == 0 {
      BitOrZero(d * Pow2(k));
      BitOrZero(d);
    } else {
      BitOrHigh(lo / 2, c, d, k - 1);
      BitOrHighStep(lo, c, d, Pow2(k - 1), Pow2(k));
    }
  }

  /** The inductive step of BitOrHigh, with 2^k written P = 2p. */
  lemma BitOrHighStep(lo: nat, c: nat, d: nat, p: nat, P: nat)
    requires P == 2 * p && lo < P && d > 0 && p > 0 && (c > 0 || lo > 0)
    requires BitOr(lo / 2 + c * p, d * p) == lo / 2 + BitOr(c, d) * p
    ensures BitOr(lo + c * P, d * P) == lo + BitOr(c, d) * P
  {
    var m, n, q := c * p, d * p, BitOr(c, d);
    Double(c, p);
    Double(d, p);
    Double(q, p);
    assert n > 0 by { PositiveProduct(d, p); }
    BitOrStep(lo / 2, lo % 2, m, n);
  }

  lemma PositiveProduct(d: nat, p: nat)
    requires d > 0 && p > 0
    ensures d * p > 0
  {
  }

  lemma Double(c: nat, p: nat)
    ensures c * (2 * p) == 2 * (c * p)
  {
  }

  /** One unfolding of BitOr on an odd-or-even left operand and an even right one. */
  lemma BitOrStep(h: nat, bit: nat, m: nat, n: nat)
    requires bit < 2 && n > 0
    ensures BitOr(2 * h + bit + 2 * m, 2 * n) == 2 * BitOr(h + m, n) + bit
  {
    var a := 2 * h + bit + 2 * m;
    assert a / 2 == h + m && a % 2 == bit;
    if a == 0 {
      BitOrZero(2 * n);
      BitOrZero(n);
    }
  }

  lemma BitOrZero(d: nat)
    ensures BitOr(0, d) == d && BitOr(d, 0) == d
  {
  }

  /** Or-ing a value below 2^k with a multiple of 2^k is addition. */
  lemma BitOrDisjoint(lo: nat, d: nat, k: nat)
    requires lo < Pow2(k)
    ensures BitOr(lo, d * Pow2(k)) == lo + d * Pow2(k)
  {
    BitOrHigh(lo, 0, d, k);
  }

  /** create_selector: the requested privilege level and table indicator in
      bits 0-2, the descriptor index from bit 3 up (SDM 3A, section 3.4.2). */
  function CreateSelector(idx: nat, flags: nat): (sel: nat)
    ensures flags < 8 ==> sel / 8 == idx && sel % 8 == flags
  {
    var s := BitOr(flags, idx * 8);
    assert flags < 8 ==> s == flags + idx * 8 by {
      assert Pow2(3) == 8;
      if flags < 8 { BitOrDisjoint(flags, idx, 3); }
    }
    s
  }

  /** The selector examples: index 1 at ring 0, and index 2 at ring 3. */
  lemma SelectorExamples()
    ensures CreateSelector(1, 0) == 0x08 && CreateSelector(2, 3) == 0x13
  {
  }

  /** create_gdt_entry: an 8-byte segment descriptor (SDM 3A, section 3.4.5).
      Reading the descriptor back gives the masked limit, access byte and
      flags nibble; the flags are masked with 0xff, not 0xf, so flag bits 4-7
      are or-ed into the top byte of the base. The four fields cover all 64
      bits, so these ensures determine the descriptor. */
  function CreateGdtEntry(base: bv64, limit: bv64, access: bv64, flags: bv64): (e: bv64)
    ensures DescriptorLimit(e) == limit & 0xf_ffff
    ensures DescriptorAccess(e) == access & 0xff
    ensures DescriptorFlags(e) == flags & 0xf
    ensures DescriptorBase(e) == (base & 0xffff_ffff) | (((flags >> 4) & 0xf) << 24)
  {
    var r0 := limit & 0xffff;
    var r1 := r0 | ((base & 0xff_ffff) << 16);
    var r2 := r1 | ((access & 0xff) << 40);
    var r3 := r2 | (((limit >> 16) & 0xf) << 48);
    var r4 := r3 | ((flags & 0xff) << 52);
    r4 | (((base >> 24) & 0xff) << 56)
  }

  /** The limit, from descriptor bits 0-15 and 48-51. */
  function DescriptorLimit(e: bv64): bv64
  {
    (e & 0xffff) | (((e >> 48) & 0xf) << 16)
  }

  /** The base, from descriptor bits 16-39 and 56-63. */
  function DescriptorBase(e: bv64): bv64
  {
    ((e >> 16) & 0xff_ffff) | (((e >> 56) & 0xff) << 24)
  }

  /** The access byte, from descriptor bits 40-47. */
  function DescriptorAccess(e: bv64): bv64
  {
    (e >> 40) & 0xff
  }

  /** The flags nibble, from descriptor bits 52-55. */
  function DescriptorFlags(e: bv64): bv64
  {
    (e >> 52) & 0xf
  }

  /** Two descriptors with the same four fields are the same descriptor. */
  lemma DescriptorFieldsDetermine(e: bv64, e': bv64)
    requires DescriptorLimit(e) == DescriptorLimit(e') && DescriptorBase(e) == DescriptorBase(e')
    requires DescriptorAccess(e) == DescriptorAccess(e') && DescriptorFlags(e) == DescriptorFlags(e')
    ensures e == e'
  {
  }

  /** For in-range fields, every field can be read back from the descriptor. */
  lemma DescriptorRoundTrip(base: bv64, limit: bv64, access: bv64, flags: bv64)
    requires base < 0x1_0000_0000 && limit < 0x10_0000 && access < 0x100 && flags < 0x10
    ensures var e := CreateGdtEntry(base, limit, access, flags);
      && DescriptorBase(e) == base && DescriptorLimit(e) == limit
      && DescriptorAccess(e) == access && DescriptorFlags(e) == flags
  {
  }

  /** A flags value with bit 4 set and a base without bit 24 give the same
      descriptor as the base with bit 24 set: the base is not recoverable. */
  lemma FlagsHighNibbleOverlapsBase()
    ensures CreateGdtEntry(0, 0, 0, 0x10) == CreateGdtEntry(0x0100_0000, 0, 0, 0)
  {
  }

  /** The flat 32-bit code segment descriptor. */
  lemma FlatCodeDescriptor()
    ensures CreateGdtEntry(0, 0xF_FFFF, 0x9B, 0xC) == 0x00CF_9B00_0000_FFFF
  {
  }
}
