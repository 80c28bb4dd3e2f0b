/**
 * The kernel builder's descriptor table state (kernel.py): the default
 * sixteen-entry GDT, its in-place growth by insert_gdt_entry, the list of
 * segment registers bound to selectors, and the multiboot header words.
 */
module Kernel {
  import opened Gdt

  /** gen_default_gdt: the null descriptor, the flat 32-bit ring-0 code and
      data segments, a not-present copy of the code segment, a null TSS
      slot, 16-bit code and data segments, the flat ring-3 code and data
      segments, and seven null spares. */
  function DefaultGdt(): (g: seq<bv64>)
    ensures |g| == 16
  {
    [ 0,
      0x00CF_9B00_0000_FFFF,
      0x00CF_9300_0000_FFFF,
      0x00CF_1B00_0000_FFFF,
      0,
      0x008F_9B00_0000_FFFF,
      0x008F_9300_0000_FFFF,
      0x00CF_FB00_0000_FFFF,
      0x00CF_F300_0000_FFFF,
      0, 0, 0, 0, 0, 0, 0 ]
  }

  /** The literal entries are the descriptors create_gdt_entry builds
      for base 0 and limit 0xFFFFF: granularity and 32-bit flags (0xC) for
      the flat segments, granularity only (0x8) for the 16-bit ones. Entry
      0, the TSS slot and the spares are null. */
  lemma DefaultGdtEntries()
    ensures var g := DefaultGdt();
      && g[0] == 0 && g[4] == 0
      && (forall i :: 9 <= i < 16 ==> g[i] == 0)
      && g[1] == CreateGdtEntry(0, 0xF_FFFF, 0x9B, 0xC)
      && g[2] == CreateGdtEntry(0, 0xF_FFFF, 0x93, 0xC)
      && g[3] == CreateGdtEntry(0, 0xF_FFFF, 0x1B, 0xC)
      && g[5] == CreateGdtEntry(0, 0xF_FFFF, 0x9B, 0x8)
      && g[6] == CreateGdtEntry(0, 0xF_FFFF, 0x93, 0x8)
      && g[7] == CreateGdtEntry(0, 0xF_FFFF, 0xFB, 0xC)
      && g[8] == CreateGdtEntry(0, 0xF_FFFF, 0xF3, 0xC)
  {
    FlatDescriptor(0x9B, 0xC);
    FlatDescriptor(0x93, 0xC);
    FlatDescriptor(0x1B, 0xC);
    FlatDescriptor(0x9B, 0x8);
    FlatDescriptor(0x93, 0x8);
    FlatDescriptor(0xFB, 0xC);
    FlatDescriptor(0xF3, 0xC);
  }

  /** A descriptor with base 0 and limit 0xFFFFF: the limit bits are all
      set, the access byte and flags nibble sit in place. */
  lemma FlatDescriptor(access: bv64, flags: bv64)
    requires access < 0x100 && flags < 0x10
    ensures CreateGdtEntry(0, 0xF_FFFF, access, flags) == (flags << 52) | (access << 40) | 0x000F_0000_0000_FFFF
  {
  }

  /** Decoded, the default entries say what their comments say: entries 1,
      2, 7 and 8 are present, flat (base 0, limit 0xFFFFF in 4 KiB units),
      32-bit; entries 1 and 7 are code, 2 and 8 data; 7 and 8 have ring 3;
      entry 3 is the code segment with its present bit clear. */
  lemma DefaultGdtDecoded()
    ensures var g := DefaultGdt();
      && (forall i :: i in {1, 2, 3, 5, 6, 7, 8} ==>
            DescriptorBase(g[i]) == 0 && DescriptorLimit(g[i]) == 0xF_FFFF)
      && DescriptorAccess(g[1]) & 0x80 != 0 && DescriptorAccess(g[1]) & 0x08 != 0
      && DescriptorAccess(g[2]) & 0x80 != 0 && DescriptorAccess(g[2]) & 0x08 == 0
      && DescriptorAccess(g[3]) & 0x80 == 0
      && DescriptorAccess(g[7]) & 0x60 == 0x60 && DescriptorAccess(g[8]) & 0x60 == 0x60
      && DescriptorFlags(g[1]) == 0xC && DescriptorFlags(g[5]) == 0x8
  {
    DefaultGdtEntries();
  }

  /** The kernel builder's mutable tables. */
  class KernelBuilder {
    /** _gdt */
    var gdt: seq<bv64>
    /** _selectors_bound: (register, selector) pairs in binding order. */
    var selectors: seq<(string, nat)>

    constructor ()
      ensures gdt == DefaultGdt() && selectors == []
    {
      gdt := DefaultGdt();
      selectors := [];
    }

    /** insert_gdt_entry: the table is padded with null descriptors up to
        index, then slot index (counted from the end when negative, as a
        Python list index is) receives the new descriptor. An index below
        -|gdt| raises IndexError; then false and the table is unchanged. */
    method InsertGdtEntry(index: int, base: bv64, limit: bv64, access: bv64, flags: bv64) returns (ok: bool)
      modifies this`gdt
      ensures ok <==> -|old(gdt)| <= index
      ensures !ok ==> gdt == old(gdt)
      ensures ok && 0 <= index ==>
        && |gdt| == (if index < |old(gdt)| then |old(gdt)| else index + 1)
        && gdt[index] == CreateGdtEntry(base, limit, access, flags)
        && (forall k :: 0 <= k < |old(gdt)| && k != index ==> gdt[k] == old(gdt)[k])
        && (forall k :: |old(gdt)| <= k < index ==> gdt[k] == 0)
      ensures ok && index < 0 ==>
        && |gdt| == |old(gdt)|
        && gdt[|gdt| + index] == CreateGdtEntry(base, limit, access, flags)
        && (forall k :: 0 <= k < |gdt| && k != |gdt| + index ==> gdt[k] == old(gdt)[k])
    {
      var toInsert := index - |gdt| + 1;
      if toInsert > 0 {
        gdt := gdt + seq(toInsert, _ => 0);
      }
      if index < -|gdt| {
        return false;
      }
      var slot := if index >= 0 then index else |gdt| + index;
      gdt := gdt[slot := CreateGdtEntry(base, limit, access, flags)];
      ok := true;
    }

    /** bind_register_to_selector: the register and the selector of the
        given index and flags are appended to the bindings. */
    method BindRegisterToSelector(reg: string, index: nat, flags: nat)
      modifies this`selectors
      ensures |selectors| == |old(selectors)| + 1 && selectors[..|old(selectors)|] == old(selectors)
      ensures selectors[|old(selectors)|] == (reg, CreateSelector(index, flags))
      ensures flags < 8 ==> selectors[|old(selectors)|].1 / 8 == index && selectors[|old(selectors)|].1 % 8 == flags
    {
      selectors := selectors + [(reg, CreateSelector(index, flags))];
    }
  }

  // ---------------------------------------------------------------------
  // The multiboot header

  const MULTIBOOT_PAGE_ALIGN: nat := 1
  const MULTIBOOT_MEMORY_INFO: nat := 2
  const MULTIBOOT_HEADER_MAGIC: nat := 0x1BAD_B002

  /** The flags word: page alignment and memory information requested. */
  function MultibootFlags(): (f: nat)
    ensures f == 3
  {
    BitOr(MULTIBOOT_PAGE_ALIGN, MULTIBOOT_MEMORY_INFO)
  }

  /** The checksum word: `dd -(magic + flags)` assembles to the negation
      truncated to 32 bits. */
  function MultibootChecksum(): (c: nat)
    ensures c < 0x1_0000_0000
  {
    (-(MULTIBOOT_HEADER_MAGIC + MultibootFlags())) % 0x1_0000_0000
  }

  /** Section 3.1.2 of the Multiboot Specification (version 0.6.96): the
      magic, flags and checksum words sum to zero modulo 2^32. */
  lemma MultibootHeaderValid()
    ensures (MULTIBOOT_HEADER_MAGIC + MultibootFlags() + MultibootChecksum()) % 0x1_0000_0000 == 0
    ensures MultibootChecksum() == 0xE452_4FFB
  {
  }
}
