/**
 * The part of a relocatable ELF object the linker reads (linker.py), as
 * plain values: the section table with each section's load address, size,
 * type, bytes, relocation entries and symbols. The ELF parser that produces
 * these values is not part of this model.
 */
module Elf {
  import opened Bytes
  import opened Wrappers

  /** Relocation types, from the Relocation Types table in chapter 4 of the
      System V ABI Intel386 Processor Supplement. */
  const R_386_32: nat := 1
  const R_386_GLOB_DAT: nat := 6
  const R_386_JMP_SLOT: nat := 7
  const R_386_RELATIVE: nat := 8

  /** A symbol table entry: `defined` is false when st_shndx is SHN_UNDEF. */
  datatype Symbol = Symbol(name: string, value: nat, defined: bool)

  /** A relocation entry: r_offset, r_info_type and r_info_sym. */
  datatype Relocation = Relocation(offset: nat, rtype: nat, sym: nat)

  /** A section header with its contents. `isRel` is sh_type == SHT_REL;
      `link` is sh_link; `relocs` are the entries of a relocation table and
      `symbols` those of a symbol table (empty for other sections). */
  datatype Section = Section(
    name: string,
    addr: nat,
    size: nat,
    isRel: bool,
    data: seq<Byte>,
    link: nat,
    relocs: seq<Relocation>,
    symbols: seq<Symbol>)

  /** An object file: its length in bytes and its section table. */
  datatype ElfFile = ElfFile(streamLen: nat, sections: seq<Section>)

  /** The index of the first symbol of that name, or |syms| when there is none. */
  function FirstSymbol(syms: seq<Symbol>, name: string): (j: nat)
    ensures j <= |syms|
    ensures j < |syms| ==> syms[j].name == name
    ensures forall j' :: 0 <= j' < j ==> syms[j'].name != name
  {
    if syms == [] then 0
    else if syms[0].name == name then 0
    else
      var j := FirstSymbol(syms[1..], name);
      assert forall j' :: 1 <= j' < j + 1 ==> syms[j'] == syms[1..][j' - 1];
      j + 1
  }

  /** `get_symbol_by_name(name)[0]` within one symbol table: the value of
      the first symbol of that name, in table order. */
  function SymbolByName(syms: seq<Symbol>, name: string): (r: Option<nat>)
    ensures r.None? <==> forall j :: 0 <= j < |syms| ==> syms[j].name != name
    ensures r.Some? ==> exists j :: (0 <= j < |syms| && syms[j].name == name
      && syms[j].value == r.value
      && forall j' :: 0 <= j' < j ==> syms[j'].name != name)
  {
    var j := FirstSymbol(syms, name);
    if j == |syms| then None else Some(syms[j].value)
  }

  /** The index of the first section holding a symbol of that name, or
      |sections| when none does. */
  function FirstSection(sections: seq<Section>, name: string): (i: nat)
    ensures i <= |sections|
    ensures i < |sections| ==> SymbolByName(sections[i].symbols, name).Some?
    ensures forall i' :: 0 <= i' < i ==> SymbolByName(sections[i'].symbols, name).None?
  {
    if sections == [] then 0
    else if SymbolByName(sections[0].symbols, name).Some? then 0
    else
      var i := FirstSection(sections[1..], name);
      assert forall i' :: 1 <= i' < i + 1 ==> sections[i'] == sections[1..][i' - 1];
      i + 1
  }

  /** The symbol lookup of SOExternalLinkage.symbol: sections are scanned in
      table order and the first section holding a symbol of that name gives
      its value; sections without one (including those that are not symbol
      tables) are skipped. None when no section has the name. */
  function FindSymbol(sections: seq<Section>, name: string): (r: Option<nat>)
    ensures r.None? <==> forall i :: 0 <= i < |sections| ==> SymbolByName(sections[i].symbols, name).None?
    ensures r.Some? ==> exists i :: (0 <= i < |sections| && SymbolByName(sections[i].symbols, name) == r
      && forall i' :: 0 <= i' < i ==> SymbolByName(sections[i'].symbols, name).None?)
  {
    var i := FirstSection(sections, name);
    if i == |sections| then None else SymbolByName(sections[i].symbols, name)
  }

  /** `get_section_by_name(name)`: the index of the last section with that
      name (the parser keeps one index per name, the later section
      replacing the earlier), or None when no section has it. */
  function SectionByName(sections: seq<Section>, name: string): (r: Option<nat>)
    ensures r.None? <==> forall k :: 0 <= k < |sections| ==> sections[k].name != name
    ensures r.Some? ==> && r.value < |sections| && sections[r.value].name == name
                        && forall k :: r.value < k < |sections| ==> sections[k].name != name
  {
    if sections == [] then None
    else if sections[|sections| - 1].name == name then Some(|sections| - 1)
    else SectionByName(sections[..|sections| - 1], name)
  }
}
