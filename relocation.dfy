/**
 * Ingestion of one relocatable object (linksofile, linker.py:223-296):
 * its footprint over the sections with a non-zero load address, the copy of
 * those sections into a zero-filled buffer, and the rewriting of every
 * relocation entry.
 */
module Relocation {
  import opened Bytes
  import opened Elf
  import opened Wrappers

  // ---------------------------------------------------------------------
  // Footprint

  /** The sections with a non-zero load address, in table order. */
  function Loadable(secs: seq<Section>): seq<Section>
  {
    if secs == [] then []
    else
      var last := secs[|secs| - 1];
      Loadable(secs[..|secs| - 1]) + (if last.addr != 0 then [last] else [])
  }

  /** The relocation tables (sh_type SHT_REL) among the loadable sections. */
  function RelocTables(secs: seq<Section>): seq<Section>
  {
    if secs == [] then []
    else
      var last := secs[|secs| - 1];
      RelocTables(secs[..|secs| - 1]) + (if last.addr != 0 && last.isRel then [last] else [])
  }

  /** min_mem: starts at the file length and is lowered to every loadable address. */
  function MinMem(secs: seq<Section>, streamLen: nat): nat
  {
    if secs == [] then streamLen
    else
      var last := secs[|secs| - 1];
      var m := MinMem(secs[..|secs| - 1], streamLen);
      if last.addr != 0 && last.addr < m then last.addr else m
  }

  /** max_mem: starts at 0 and is raised to every loadable end address. */
  function MaxMem(secs: seq<Section>): nat
  {
    if secs == [] then 0
    else
      var last := secs[|secs| - 1];
      var m := MaxMem(secs[..|secs| - 1]);
      if last.addr != 0 && last.addr + last.size > m then last.addr + last.size else m
  }

  /** The collected sections are exactly those with a non-zero address, and
      the relocation tables exactly the SHT_REL ones among them. */
  lemma {:induction false} LoadableMembers(secs: seq<Section>)
    ensures forall s :: s in Loadable(secs) <==> s in secs && s.addr != 0
    ensures forall s :: s in RelocTables(secs) <==> s in Loadable(secs) && s.isRel
  {
    if secs != [] {
      var init := secs[..|secs| - 1];
      LoadableMembers(init);
      assert secs == init + [secs[|secs| - 1]];
    }
  }

  /** min_mem is the least of the file length and the loadable addresses. */
  lemma {:induction false} MinMemIsLeast(secs: seq<Section>, streamLen: nat)
    ensures MinMem(secs, streamLen) <= streamLen
    ensures forall i :: 0 <= i < |secs| && secs[i].addr != 0 ==> MinMem(secs, streamLen) <= secs[i].addr
    ensures MinMem(secs, streamLen) == streamLen
            || exists i :: 0 <= i < |secs| && secs[i].addr != 0 && secs[i].addr == MinMem(secs, streamLen)
  {
    if secs != [] {
      var init := secs[..|secs| - 1];
      MinMemIsLeast(init, streamLen);
      assert forall i :: 0 <= i < |init| ==> secs[i] == init[i];
    }
  }

  /** max_mem is the greatest loadable end address, or 0 when there is none. */
  lemma {:induction false} MaxMemIsGreatest(secs: seq<Section>)
    ensures forall i :: 0 <= i < |secs| && secs[i].addr != 0 ==> secs[i].addr + secs[i].size <= MaxMem(secs)
    ensures MaxMem(secs) == 0
            || exists i :: 0 <= i < |secs| && secs[i].addr != 0 && secs[i].addr + secs[i].size == MaxMem(secs)
  {
    if secs != [] {
      var init := secs[..|secs| - 1];
      MaxMemIsGreatest(init);
      assert forall i :: 0 <= i < |init| ==> secs[i] == init[i];
    }
  }

  /** The length of the object's buffer: `max_mem - min_mem + 1`, or 0 when
      that is not positive (`range` of a negative count is empty). */
  function RegionSize(elf: ElfFile): nat
  {
    var n := MaxMem(elf.sections) - MinMem(elf.sections, elf.streamLen) + 1;
    if n > 0 then n else 0
  }

  /** The first loop of linksofile: collects the loadable sections and the
      relocation tables among them, and computes min_mem and max_mem. */
  method Footprint(elf: ElfFile) returns (progbits: seq<Section>, relocTables: seq<Section>, minMem: nat, maxMem: nat)
    ensures progbits == Loadable(elf.sections) && relocTables == RelocTables(elf.sections)
    ensures minMem == MinMem(elf.sections, elf.streamLen) && maxMem == MaxMem(elf.sections)
  {
    progbits, relocTables := [], [];
    minMem, maxMem := elf.streamLen, 0;
    var i := 0;
    while i < |elf.sections|
      invariant 0 <= i <= |elf.sections|
      invariant progbits == Loadable(elf.sections[..i]) && relocTables == RelocTables(elf.sections[..i])
      invariant minMem == MinMem(elf.sections[..i], elf.streamLen) && maxMem == MaxMem(elf.sections[..i])
    {
      var section := elf.sections[i];
      assert elf.sections[..i + 1][..i] == elf.sections[..i];
      if section.addr != 0 {
        progbits := progbits + [section];
        if section.isRel {
          relocTables := relocTables + [section];
        }
        if section.addr < minMem {
          minMem := section.addr;
        }
        if section.addr + section.size > maxMem {
          maxMem := section.addr + section.size;
        }
      }
      i := i + 1;
    }
    assert elf.sections[..i] == elf.sections;
  }

  // ---------------------------------------------------------------------
  // Copying the loadable sections into the buffer

  /** The bytes copied for a section: its data, or sh_size zeros when it has none. */
  function Payload(s: Section): (p: seq<Byte>)
    ensures |p| == if |s.data| > 0 then |s.data| else s.size
  {
    if |s.data| > 0 then s.data else Zeros(s.size)
  }

  /** `region[start:end] = payload` for one section. */
  function Place(buf: seq<Byte>, s: Section, minMem: nat): seq<Byte>
    requires minMem <= s.addr
  {
    SliceAssign(buf, s.addr - minMem, s.addr + s.size - minMem, Payload(s))
  }

  predicate AboveMin(secs: seq<Section>, minMem: nat)
  {
    forall i :: 0 <= i < |secs| ==> minMem <= secs[i].addr
  }

  /** The buffer after placing the sections in order. */
  function Layout(buf: seq<Byte>, secs: seq<Section>, minMem: nat): seq<Byte>
    requires AboveMin(secs, minMem)
  {
    if secs == [] then buf
    else Place(Layout(buf, secs[..|secs| - 1], minMem), secs[|secs| - 1], minMem)
  }

  /** The second loop of linksofile: copies each loadable section into the buffer. */
  method LayOut(progbits: seq<Section>, minMem: nat, size: nat) returns (region: seq<Byte>)
    requires AboveMin(progbits, minMem)
    ensures region == Layout(Zeros(size), progbits, minMem)
  {
    region := Zeros(size);
    var i := 0;
    while i < |progbits|
      invariant 0 <= i <= |progbits|
      invariant region == Layout(Zeros(size), progbits[..i], minMem)
    {
      LayoutNext(Zeros(size), progbits, i, minMem);
      region := PlaceSection(region, progbits[i], minMem);
      i := i + 1;
    }
    assert progbits[..i] == progbits;
  }

  /** The body of the copy loop: the section's range of the buffer is
      replaced by its data, or by sh_size zeros when it has none. */
  method PlaceSection(region: seq<Byte>, section: Section, minMem: nat) returns (r: seq<Byte>)
    requires minMem <= section.addr
    ensures r == Place(region, section, minMem)
  {
    var start := section.addr - minMem;
    var end := section.addr + section.size - minMem;
    var raw := section.data;
    r := SliceAssign(region, start, end, if |raw| > 0 then raw else Zeros(section.size));
  }

  /** Placing one more section. */
  lemma LayoutNext(buf: seq<Byte>, secs: seq<Section>, i: nat, minMem: nat)
    requires AboveMin(secs, minMem) && i < |secs|
    ensures AboveMin(secs[..i], minMem) && AboveMin(secs[..i + 1], minMem)
    ensures Layout(buf, secs[..i + 1], minMem) == Place(Layout(buf, secs[..i], minMem), secs[i], minMem)
  {
    assert secs[..i + 1][..i] == secs[..i];
  }

  /** A section whose data is as long as its size (or empty) and whose range
      lies inside a buffer of length len: placing it replaces exactly its range. */
  predicate FitsIn(s: Section, minMem: nat, len: nat)
  {
    (|s.data| == 0 || |s.data| == s.size) && minMem <= s.addr && s.addr + s.size - minMem <= len
  }

  predicate Covers(s: Section, minMem: nat, k: int)
  {
    s.addr - minMem <= k < s.addr + s.size - minMem
  }

  /** The byte a section puts at buffer position k. */
  function ByteAt(s: Section, minMem: nat, k: int): Byte
    requires minMem <= s.addr && (|s.data| == 0 || |s.data| == s.size) && Covers(s, minMem, k)
  {
    Payload(s)[k - (s.addr - minMem)]
  }

  /** The index of the last section covering byte k of the buffer, or -1. */
  function LastCover(secs: seq<Section>, minMem: nat, k: int): (i: int)
    ensures -1 <= i < |secs|
    ensures i >= 0 ==> Covers(secs[i], minMem, k)
    ensures forall j :: i < j < |secs| ==> !Covers(secs[j], minMem, k)
  {
    if secs == [] then -1
    else if Covers(secs[|secs| - 1], minMem, k) then |secs| - 1
    else LastCover(secs[..|secs| - 1], minMem, k)
  }

  /** Placing sections that fit keeps the buffer length. */
  lemma {:induction false} LayoutLength(buf: seq<Byte>, secs: seq<Section>, minMem: nat)
    requires forall i :: 0 <= i < |secs| ==> FitsIn(secs[i], minMem, |buf|)
    ensures AboveMin(secs, minMem) && |Layout(buf, secs, minMem)| == |buf|
  {
    if secs != [] {
      var init := secs[..|secs| - 1];
      assert forall i :: 0 <= i < |init| ==> init[i] == secs[i];
      LayoutLength(buf, init, minMem);
    }
  }

  /** Byte k of the laid-out buffer: the payload byte of the last section
      covering it, or the original byte when no section covers it. */
  lemma {:induction false} LayoutAt(buf: seq<Byte>, secs: seq<Section>, minMem: nat, k: nat)
    requires forall i :: 0 <= i < |secs| ==> FitsIn(secs[i], minMem, |buf|)
    requires k < |buf|
    ensures AboveMin(secs, minMem) && |Layout(buf, secs, minMem)| == |buf|
    ensures var i := LastCover(secs, minMem, k); i >= 0 ==> FitsIn(secs[i], minMem, |buf|)
    ensures var i := LastCover(secs, minMem, k);
      Layout(buf, secs, minMem)[k] == if i < 0 then buf[k] else ByteAt(secs[i], minMem, k)
  {
    LayoutLength(buf, secs, minMem);
    if secs != [] {
      var n := |secs| - 1;
      var init := secs[..n];
      assert forall i :: 0 <= i < |init| ==> init[i] == secs[i];
      LayoutAt(buf, init, minMem, k);
      PlaceAt(Layout(buf, init, minMem), secs[n], minMem, k);
    }
  }

  /** Byte k after placing one fitting section. */
  lemma PlaceAt(buf: seq<Byte>, s: Section, minMem: nat, k: nat)
    requires FitsIn(s, minMem, |buf|) && k < |buf|
    ensures |Place(buf, s, minMem)| == |buf|
    ensures Place(buf, s, minMem)[k] == if Covers(s, minMem, k) then ByteAt(s, minMem, k) else buf[k]
  {
    var start, end := s.addr - minMem, s.addr + s.size - minMem;
    var r := Place(buf, s, minMem);
    if Covers(s, minMem, k) {
      assert r[start..start + s.size] == Payload(s);
      assert r[k] == r[start..start + s.size][k - start];
    } else if k < start {
      assert r[..start] == buf[..start];
      assert r[k] == r[..start][k];
    } else {
      assert r[start + s.size..] == buf[end..];
      assert r[k] == r[start + s.size..][k - end];
    }
  }

  // ---------------------------------------------------------------------
  // Relocation

  /** One relocation entry together with the symbol table its relocation
      section links to (`get_section(sh_link)`). */
  datatype Job = Job(r: Relocation, symtab: seq<Symbol>)

  /** The entries of the relocation tables, section by section, in order. */
  function Jobs(relocTables: seq<Section>, sections: seq<Section>): seq<Job>
    requires forall i :: 0 <= i < |relocTables| ==> relocTables[i].link < |sections|
  {
    if relocTables == [] then []
    else
      var n := |relocTables| - 1;
      Jobs(relocTables[..n], sections) + JobsOf(relocTables[n], sections)
  }

  function JobsOf(rt: Section, sections: seq<Section>): (js: seq<Job>)
    requires rt.link < |sections|
    ensures |js| == |rt.relocs|
    ensures forall j :: 0 <= j < |js| ==> js[j] == Job(rt.relocs[j], sections[rt.link].symbols)
  {
    seq(|rt.relocs|, j requires 0 <= j < |rt.relocs| => Job(rt.relocs[j], sections[rt.link].symbols))
  }

  /** The types whose formula reads the entry's symbol. */
  predicate NeedsSymbol(rtype: nat)
  {
    rtype == R_386_JMP_SLOT || rtype == R_386_GLOB_DAT || rtype == R_386_32
  }

  predicate SymbolOk(j: Job)
  {
    NeedsSymbol(j.r.rtype) ==> j.r.sym < |j.symtab|
  }

  /** What one entry does to its site, from the 32-bit word currently there. */
  datatype Effect = Store(value: int) | Unresolved(name: string, sentinel: nat)

  const JMP_SLOT_SENTINEL: nat := 0xF00F_BA11
  const GLOB_DAT_SENTINEL: nat := 0xF00D_BA11

  /** The replacement value of linker.py:271-291. `org` is the allocation
      cursor, equal to the object's base at this point; `-minMem` is base_offset. */
  function EffectOf(current: nat, j: Job, org: int, minMem: nat): Effect
    requires SymbolOk(j)
  {
    var t := j.r.rtype;
    if t == R_386_RELATIVE then Store(current + org - minMem)
    else if t == R_386_JMP_SLOT || t == R_386_GLOB_DAT then
      var sym := j.symtab[j.r.sym];
      if !sym.defined then
        Unresolved(sym.name, if t == R_386_JMP_SLOT then JMP_SLOT_SENTINEL else GLOB_DAT_SENTINEL)
      else Store(sym.value + org - minMem)
    else if t == R_386_32 then Store(current + j.symtab[j.r.sym].value + org - minMem)
    else Store(current)
  }

  /** The state relocation works on: the buffer, the undefined names with
      their patch sites, and the order in which the names were first met
      (the insertion order of the `undefs` dict). */
  datatype Patch = Patch(mem: seq<Byte>, undefs: map<string, seq<nat>>, order: seq<string>)

  /** The invariant of a Patch: `order` lists each undefined name once, and
      every recorded site is a 4-byte window inside the buffer. */
  ghost predicate PatchValid(p: Patch)
  {
    && (forall i, j :: 0 <= i < j < |p.order| ==> p.order[i] != p.order[j])
    && (forall n :: n in p.undefs <==> n in p.order)
    && (forall n, k :: n in p.undefs && 0 <= k < |p.undefs[n]| ==> p.undefs[n][k] + 4 <= |p.mem|)
  }

  function SiteOf(j: Job, minMem: nat): int
  {
    j.r.offset - minMem
  }

  /** What linksofile needs of an entry to process it without an exception:
      its site lies inside the buffer, its symbol index is valid, and the
      value it stores fits in 32 bits (`to_bytes(4, 'little')` raises otherwise). */
  predicate StepOk(p: Patch, j: Job, org: int, minMem: nat)
  {
    var site := SiteOf(j, minMem);
    && 0 <= site && site + 4 <= |p.mem| && SymbolOk(j)
    && var e := EffectOf(FromLE(p.mem[site..site + 4]), j, org, minMem);
       (e.Store? ==> 0 <= e.value < U32_LIMIT)
  }

  /** `add_undef(name, site)`: the site is appended to the name's list. */
  function AddUndef(undefs: map<string, seq<nat>>, name: string, site: nat): map<string, seq<nat>>
  {
    undefs[name := (if name in undefs then undefs[name] else []) + [site]]
  }

  /** Processing one relocation entry. */
  function Step(p: Patch, j: Job, org: int, minMem: nat): (q: Patch)
    requires StepOk(p, j, org, minMem)
    ensures |q.mem| == |p.mem|
  {
    var site := SiteOf(j, minMem);
    match EffectOf(FromLE(p.mem[site..site + 4]), j, org, minMem)
    case Store(v) => Patch(WriteLE32(p.mem, site, v), p.undefs, p.order)
    case Unresolved(name, sentinel) =>
      Patch(WriteLE32(p.mem, site, sentinel), AddUndef(p.undefs, name, site),
            if name in p.undefs then p.order else p.order + [name])
  }

  predicate AllStepsOk(p: Patch, js: seq<Job>, org: int, minMem: nat)
    decreases |js|, 0
  {
    js == [] ||
    (AllStepsOk(p, js[..|js| - 1], org, minMem)
     && StepOk(Steps(p, js[..|js| - 1], org, minMem), js[|js| - 1], org, minMem))
  }

  /** Processing the entries in order; relocation never resizes the buffer. */
  function Steps(p: Patch, js: seq<Job>, org: int, minMem: nat): (q: Patch)
    requires AllStepsOk(p, js, org, minMem)
    ensures |q.mem| == |p.mem|
    decreases |js|, 1
  {
    if js == [] then p
    else Step(Steps(p, js[..|js| - 1], org, minMem), js[|js| - 1], org, minMem)
  }

  /** The word an entry leaves at its site. */
  function Outcome(current: nat, j: Job, org: int, minMem: nat): int
    requires SymbolOk(j)
  {
    match EffectOf(current, j, org, minMem)
    case Store(v) => v
    case Unresolved(_, sentinel) => sentinel
  }

  /** The body of the relocation loop for one entry: read the word at the
      site, compute the replacement, record an undefined symbol, write back. */
  method Relocate(p: Patch, job: Job, org: int, minMem: nat) returns (q: Patch)
    requires StepOk(p, job, org, minMem)
    ensures q == Step(p, job, org, minMem)
  {
    var site := job.r.offset - minMem;
    var current := FromLE(p.mem[site..site + 4]);
    var mem, undefs, order := p.mem, p.undefs, p.order;
    var rVal: int;
    match EffectOf(current, job, org, minMem) {
      case Store(v) =>
        rVal := v;
      case Unresolved(name, sentinel) =>
        if name !in undefs {
          order := order + [name];
        }
        undefs := AddUndef(undefs, name, site);
        rVal := sentinel;
    }
    mem := WriteLE32(mem, site, rVal);
    q := Patch(mem, undefs, order);
  }

  /** The third loop of linksofile: every entry of every relocation table,
      in order, against the symbol table the table links to. */
  method ApplyRelocations(relocTables: seq<Section>, sections: seq<Section>, region: seq<Byte>, org: int, minMem: nat)
    returns (p: Patch)
    requires forall i :: 0 <= i < |relocTables| ==> relocTables[i].link < |sections|
    requires AllStepsOk(Patch(region, map[], []), Jobs(relocTables, sections), org, minMem)
    ensures p == Steps(Patch(region, map[], []), Jobs(relocTables, sections), org, minMem)
  {
    var start := Patch(region, map[], []);
    p := start;
    var i := 0;
    assert relocTables[..0] == [];
    while i < |relocTables|
      invariant TablesDone(start, relocTables, sections, i, org, minMem, p)
      decreases |relocTables| - i
    {
      p := RelocateNextTable(start, relocTables, sections, i, org, minMem, p);
      i := i + 1;
    }
    assert relocTables[..i] == relocTables;
  }

  /** The state of the outer relocation loop after the first i tables. */
  predicate TablesDone(start: Patch, relocTables: seq<Section>, sections: seq<Section>, i: nat, org: int, minMem: nat, p: Patch)
  {
    && i <= |relocTables|
    && (forall k :: 0 <= k < |relocTables| ==> relocTables[k].link < |sections|)
    && AllStepsOk(start, Jobs(relocTables, sections), org, minMem)
    && AllStepsOk(start, Jobs(relocTables[..i], sections), org, minMem)
    && p == Steps(start, Jobs(relocTables[..i], sections), org, minMem)
  }

  /** One iteration of the outer relocation loop: the entries of table i. */
  method RelocateNextTable(start: Patch, relocTables: seq<Section>, sections: seq<Section>, i: nat, org: int, minMem: nat, p: Patch)
    returns (q: Patch)
    requires TablesDone(start, relocTables, sections, i, org, minMem, p) && i < |relocTables|
    ensures TablesDone(start, relocTables, sections, i + 1, org, minMem, q)
  {
    TableStep(start, relocTables, sections, i, org, minMem);
    q := RelocateTable(p, relocTables[i], sections, org, minMem);
  }

  /** One iteration of the outer relocation loop: the entries of table i
      follow those of the tables before it. */
  lemma TableStep(start: Patch, relocTables: seq<Section>, sections: seq<Section>, i: nat, org: int, minMem: nat)
    requires forall k :: 0 <= k < |relocTables| ==> relocTables[k].link < |sections|
    requires AllStepsOk(start, Jobs(relocTables, sections), org, minMem) && i < |relocTables|
    ensures Jobs(relocTables[..i + 1], sections) <= Jobs(relocTables, sections)
    ensures AllStepsOk(start, Jobs(relocTables[..i], sections), org, minMem)
    ensures AllStepsOk(start, Jobs(relocTables[..i + 1], sections), org, minMem)
    ensures AllStepsOk(Steps(start, Jobs(relocTables[..i], sections), org, minMem), JobsOf(relocTables[i], sections), org, minMem)
    ensures Steps(start, Jobs(relocTables[..i + 1], sections), org, minMem)
         == Steps(Steps(start, Jobs(relocTables[..i], sections), org, minMem), JobsOf(relocTables[i], sections), org, minMem)
  {
    var all := Jobs(relocTables, sections);
    var before := Jobs(relocTables[..i], sections);
    var row := JobsOf(relocTables[i], sections);
    JobsNext(relocTables, sections, i);
    AllStepsOkPrefix(start, all, |before + row|, org, minMem);
    assert all[..|before + row|] == before + row;
    StepsSplit(start, before, row, org, minMem);
  }

  /** The inner loop: the entries of one relocation table. */
  method RelocateTable(p0: Patch, table: Section, sections: seq<Section>, org: int, minMem: nat) returns (p: Patch)
    requires table.link < |sections|
    requires AllStepsOk(p0, JobsOf(table, sections), org, minMem)
    ensures p == Steps(p0, JobsOf(table, sections), org, minMem)
  {
    ghost var row := JobsOf(table, sections);
    var symtab := sections[table.link].symbols;
    p := p0;
    var j := 0;
    assert row[..j] == [];
    while j < |table.relocs|
      invariant j <= |row| == |table.relocs|
      invariant EntriesDone(p0, row, j, org, minMem, p)
      decreases |table.relocs| - j
    {
      var job := Job(table.relocs[j], symtab);
      NextStep(p0, row, j, org, minMem);
      p := Relocate(p, job, org, minMem);
      j := j + 1;
    }
    assert row[..j] == row;
  }

  /** The state of the inner relocation loop after the first j entries. */
  predicate EntriesDone(p0: Patch, row: seq<Job>, j: nat, org: int, minMem: nat, p: Patch)
  {
    && j <= |row|
    && AllStepsOk(p0, row, org, minMem)
    && AllStepsOk(p0, row[..j], org, minMem)
    && p == Steps(p0, row[..j], org, minMem)
  }

  /** The state after j entries of a sequence that can be processed is one
      where entry j can be processed, and processing it gives the state after j + 1. */
  lemma NextStep(p: Patch, js: seq<Job>, j: nat, org: int, minMem: nat)
    requires AllStepsOk(p, js, org, minMem) && j < |js|
    ensures AllStepsOk(p, js[..j], org, minMem) && AllStepsOk(p, js[..j + 1], org, minMem)
    ensures StepOk(Steps(p, js[..j], org, minMem), js[j], org, minMem)
    ensures Steps(p, js[..j + 1], org, minMem) == Step(Steps(p, js[..j], org, minMem), js[j], org, minMem)
  {
    AllStepsOkPrefix(p, js, j + 1, org, minMem);
    assert js[..j + 1][..j] == js[..j];
  }

  /** The entries of the first i + 1 tables extend those of the first i by
      the entries of table i, and are a prefix of all entries. */
  lemma JobsNext(relocTables: seq<Section>, sections: seq<Section>, i: nat)
    requires forall k :: 0 <= k < |relocTables| ==> relocTables[k].link < |sections|
    requires i < |relocTables|
    ensures Jobs(relocTables[..i + 1], sections) == Jobs(relocTables[..i], sections) + JobsOf(relocTables[i], sections)
    ensures Jobs(relocTables[..i + 1], sections) <= Jobs(relocTables, sections)
  {
    assert relocTables[..i + 1][..i] == relocTables[..i];
    JobsPrefix(relocTables, sections, i + 1);
  }

  lemma {:induction false} JobsPrefix(relocTables: seq<Section>, sections: seq<Section>, i: nat)
    requires forall k :: 0 <= k < |relocTables| ==> relocTables[k].link < |sections|
    requires i <= |relocTables|
    ensures Jobs(relocTables[..i], sections) <= Jobs(relocTables, sections)
  {
    if i < |relocTables| {
      var n := |relocTables| - 1;
      assert relocTables[..n][..i] == relocTables[..i];
      JobsPrefix(relocTables[..n], sections, i);
    } else {
      assert relocTables[..i] == relocTables;
    }
  }

  /** Entries that can all be processed can be processed up to any point. */
  lemma {:induction false} AllStepsOkPrefix(p: Patch, js: seq<Job>, m: nat, org: int, minMem: nat)
    requires AllStepsOk(p, js, org, minMem) && m <= |js|
    ensures AllStepsOk(p, js[..m], org, minMem)
  {
    if m < |js| {
      var n := |js| - 1;
      assert js[..n][..m] == js[..m];
      AllStepsOkPrefix(p, js[..n], m, org, minMem);
    } else {
      assert js[..m] == js;
    }
  }

  /** Processing a + b is processing a, then b. */
  lemma {:induction false} StepsSplit(p: Patch, a: seq<Job>, b: seq<Job>, org: int, minMem: nat)
    requires AllStepsOk(p, a + b, org, minMem)
    ensures AllStepsOk(p, a, org, minMem)
    ensures AllStepsOk(Steps(p, a, org, minMem), b, org, minMem)
    ensures Steps(p, a + b, org, minMem) == Steps(Steps(p, a, org, minMem), b, org, minMem)
  {
    if b == [] {
      assert a + b == a;
    } else {
      var n := |b| - 1;
      assert (a + b)[..|a + b| - 1] == a + b[..n];
      StepsSplit(p, a, b[..n], org, minMem);
    }
  }

  /** The entry j in a + [j] + b is processed in the state a leaves. */
  lemma StepsAround(p: Patch, a: seq<Job>, j: Job, b: seq<Job>, org: int, minMem: nat)
    requires AllStepsOk(p, a + [j] + b, org, minMem)
    ensures AllStepsOk(p, a, org, minMem) && StepOk(Steps(p, a, org, minMem), j, org, minMem)
    ensures AllStepsOk(Step(Steps(p, a, org, minMem), j, org, minMem), b, org, minMem)
    ensures Steps(p, a + [j] + b, org, minMem)
            == Steps(Step(Steps(p, a, org, minMem), j, org, minMem), b, org, minMem)
  {
    StepsSplit(p, a + [j], b, org, minMem);
    assert (a + [j])[..|a|] == a;
  }

  /** One entry keeps the undefs invariant: a name is added to the order the
      first time it is met, and its site lies inside the buffer. */
  lemma StepKeepsValid(p: Patch, j: Job, org: int, minMem: nat)
    requires PatchValid(p) && StepOk(p, j, org, minMem)
    ensures PatchValid(Step(p, j, org, minMem))
  {
    var site := SiteOf(j, minMem);
    var q := Step(p, j, org, minMem);
    match EffectOf(FromLE(p.mem[site..site + 4]), j, org, minMem)
    case Store(v) =>
      assert q.undefs == p.undefs && q.order == p.order;
    case Unresolved(name, sentinel) =>
      AddUndefKeepsValid(p, name, site, q.mem);
  }

  /** Recording a site inside the buffer keeps the undefs invariant. */
  lemma AddUndefKeepsValid(p: Patch, name: string, site: nat, mem: seq<Byte>)
    requires PatchValid(p) && |mem| == |p.mem| && site + 4 <= |p.mem|
    ensures PatchValid(Patch(mem, AddUndef(p.undefs, name, site), if name in p.undefs then p.order else p.order + [name]))
  {
    var undefs := AddUndef(p.undefs, name, site);
    forall n, k | n in undefs && 0 <= k < |undefs[n]|
      ensures undefs[n][k] + 4 <= |mem|
    {
      if n == name && k == |undefs[n]| - 1 {
        assert undefs[n][k] == site;
      } else {
        assert undefs[n][k] == p.undefs[n][k];
      }
    }
  }

  /** Relocation keeps the undefs invariant. */
  lemma {:induction false} StepsKeepValid(p: Patch, js: seq<Job>, org: int, minMem: nat)
    requires PatchValid(p) && AllStepsOk(p, js, org, minMem)
    ensures PatchValid(Steps(p, js, org, minMem))
  {
    if js != [] {
      var n := |js| - 1;
      StepsKeepValid(p, js[..n], org, minMem);
      StepKeepsValid(Steps(p, js[..n], org, minMem), js[n], org, minMem);
    }
  }

  /** Sites are only ever appended: every recorded list grows by extension. */
  lemma {:induction false} StepsExtendUndefs(p: Patch, js: seq<Job>, org: int, minMem: nat)
    requires AllStepsOk(p, js, org, minMem)
    ensures var q := Steps(p, js, org, minMem);
      forall n :: n in p.undefs ==> n in q.undefs && p.undefs[n] <= q.undefs[n]
  {
    if js != [] {
      StepsExtendUndefs(p, js[..|js| - 1], org, minMem);
    }
  }

  /** An entry of a type the linker does not handle rewrites its site with
      the word already there, so the buffer is unchanged. */
  lemma OtherTypeUnchanged(p: Patch, j: Job, org: int, minMem: nat)
    requires StepOk(p, j, org, minMem)
    requires j.r.rtype !in {R_386_32, R_386_GLOB_DAT, R_386_JMP_SLOT, R_386_RELATIVE}
    ensures Step(p, j, org, minMem) == p
  {
    var site := SiteOf(j, minMem);
    var w := p.mem[site..site + 4];
    LE32OfFromLE(w);
    var r := Step(p, j, org, minMem).mem;
    assert r == p.mem[..site] + w + p.mem[site + 4..];
    assert p.mem == p.mem[..site] + w + p.mem[site + 4..];
  }

  /** Two sites whose 4-byte windows do not overlap. */
  predicate Apart(a: int, b: int)
  {
    a + 4 <= b || b + 4 <= a
  }

  /** Entries at sites apart from a window leave the window's bytes alone. */
  lemma {:induction false} StepsKeepWindow(p: Patch, js: seq<Job>, org: int, minMem: nat, site: nat)
    requires AllStepsOk(p, js, org, minMem) && site + 4 <= |p.mem|
    requires forall k :: 0 <= k < |js| ==> Apart(SiteOf(js[k], minMem), site)
    ensures Steps(p, js, org, minMem).mem[site..site + 4] == p.mem[site..site + 4]
  {
    if js != [] {
      var n := |js| - 1;
      assert forall k :: 0 <= k < n ==> js[..n][k] == js[k];
      StepsKeepWindow(p, js[..n], org, minMem, site);
      StepKeepsWindow(Steps(p, js[..n], org, minMem), js[n], org, minMem, site);
    }
  }

  lemma StepKeepsWindow(p: Patch, j: Job, org: int, minMem: nat, site: nat)
    requires StepOk(p, j, org, minMem) && site + 4 <= |p.mem| && Apart(SiteOf(j, minMem), site)
    ensures Step(p, j, org, minMem).mem[site..site + 4] == p.mem[site..site + 4]
  {
    var s0 := SiteOf(j, minMem);
    var r := Step(p, j, org, minMem).mem;
    var v;
    match EffectOf(FromLE(p.mem[s0..s0 + 4]), j, org, minMem)
    case Store(x) =>
      v := x;
    case Unresolved(_, sentinel) =>
      v := sentinel;
    assert r == WriteLE32(p.mem, s0, v);
    WriteKeepsWindowAt(p.mem, s0, v, site);
  }

  /** A word written apart from a window leaves the window's bytes alone. */
  lemma WriteKeepsWindowAt(mem: seq<Byte>, s0: nat, v: int, site: nat)
    requires s0 + 4 <= |mem| && 0 <= v < U32_LIMIT && site + 4 <= |mem| && Apart(s0, site)
    ensures WriteLE32(mem, s0, v)[site..site + 4] == mem[site..site + 4]
  {
    var r := WriteLE32(mem, s0, v);
    assert forall k :: site <= k < site + 4 ==> r[k] == mem[k];
  }

  /** An entry whose site no other entry touches leaves there the word its
      type prescribes, computed from the word the section data held there:
      base + A for R_386_RELATIVE, base + S for GLOB_DAT and JMP_SLOT,
      base + S + A for R_386_32, a sentinel for an undefined symbol. */
  lemma IsolatedEntry(p: Patch, a: seq<Job>, j: Job, b: seq<Job>, org: int, minMem: nat)
    requires AllStepsOk(p, a + [j] + b, org, minMem)
    requires forall k :: 0 <= k < |a| ==> Apart(SiteOf(a[k], minMem), SiteOf(j, minMem))
    requires forall k :: 0 <= k < |b| ==> Apart(SiteOf(b[k], minMem), SiteOf(j, minMem))
    ensures var site := SiteOf(j, minMem);
      && 0 <= site && site + 4 <= |p.mem| && SymbolOk(j)
      && FromLE(Steps(p, a + [j] + b, org, minMem).mem[site..site + 4])
         == Outcome(FromLE(p.mem[site..site + 4]), j, org, minMem)
  {
    StepsAround(p, a, j, b, org, minMem);
    var site := SiteOf(j, minMem);
    var q := Steps(p, a, org, minMem);
    StepsKeepWindow(p, a, org, minMem, site);
    var q1 := Step(q, j, org, minMem);
    StepsKeepWindow(q1, b, org, minMem, site);
  }

  /** The name an entry on an undefined symbol is recorded under, if any. */
  function UndefinedName(p: Patch, j: Job, org: int, minMem: nat): Option<string>
    requires StepOk(p, j, org, minMem)
  {
    var site := SiteOf(j, minMem);
    match EffectOf(FromLE(p.mem[site..site + 4]), j, org, minMem)
    case Unresolved(name, _) => Some(name)
    case Store(_) => None
  }

  /** An entry on an undefined symbol records its site under the symbol's
      name, and the name is in the order of first appearance. */
  lemma StepRecords(p: Patch, j: Job, org: int, minMem: nat)
    requires StepOk(p, j, org, minMem)
    ensures var q := Step(p, j, org, minMem);
      UndefinedName(p, j, org, minMem).Some? ==>
        var name := UndefinedName(p, j, org, minMem).value;
        name in q.undefs && SiteOf(j, minMem) in q.undefs[name]
  {
  }

  /** Later entries keep what an earlier entry on an undefined symbol recorded. */
  lemma UnresolvedRecorded(p: Patch, a: seq<Job>, j: Job, b: seq<Job>, org: int, minMem: nat)
    requires PatchValid(p) && AllStepsOk(p, a + [j] + b, org, minMem)
    ensures AllStepsOk(p, a, org, minMem) && StepOk(Steps(p, a, org, minMem), j, org, minMem)
    ensures var r := Steps(p, a + [j] + b, org, minMem);
      UndefinedName(Steps(p, a, org, minMem), j, org, minMem).Some? ==>
        var name := UndefinedName(Steps(p, a, org, minMem), j, org, minMem).value;
        name in r.undefs && SiteOf(j, minMem) in r.undefs[name] && name in r.order
  {
    StepsAround(p, a, j, b, org, minMem);
    var q := Steps(p, a, org, minMem);
    var q1 := Step(q, j, org, minMem);
    var r := Steps(q1, b, org, minMem);
    assert Steps(p, a + [j] + b, org, minMem) == r;
    if UndefinedName(q, j, org, minMem).Some? {
      var name := UndefinedName(q, j, org, minMem).value;
      StepRecords(q, j, org, minMem);
      StepsExtendUndefs(q1, b, org, minMem);
      assert name in r.undefs && q1.undefs[name] <= r.undefs[name];
      StepsKeepValid(p, a + [j] + b, org, minMem);
    }
  }

  // ---------------------------------------------------------------------
  // The whole of one object

  /** Every loadable section starts at or above min_mem. */
  lemma LoadableAboveMin(secs: seq<Section>, streamLen: nat)
    ensures AboveMin(Loadable(secs), MinMem(secs, streamLen))
  {
    LoadableMembers(secs);
    MinMemIsLeast(secs, streamLen);
    var l := Loadable(secs);
    forall i | 0 <= i < |l|
      ensures MinMem(secs, streamLen) <= l[i].addr
    {
      assert l[i] in secs;
      var k :| 0 <= k < |secs| && secs[k] == l[i];
    }
  }

  /** The buffer after the sections are copied in, before relocation. */
  function Region(elf: ElfFile): seq<Byte>
  {
    LoadableAboveMin(elf.sections, elf.streamLen);
    Layout(Zeros(RegionSize(elf)), Loadable(elf.sections), MinMem(elf.sections, elf.streamLen))
  }

  /** What linksofile needs of an object placed at org to relocate it
      without an exception: every relocation table links to an existing
      section, and every entry can be processed. */
  predicate Relocatable(elf: ElfFile, org: int)
  {
    var tables := RelocTables(elf.sections);
    && (forall i :: 0 <= i < |tables| ==> tables[i].link < |elf.sections|)
    && AllStepsOk(Patch(Region(elf), map[], []), Jobs(tables, elf.sections), org, MinMem(elf.sections, elf.streamLen))
  }

  /** The buffer and undefs of an object placed at org. */
  function Relocated(elf: ElfFile, org: int): (p: Patch)
    requires Relocatable(elf, org)
    ensures PatchValid(p) && |p.mem| == |Region(elf)|
  {
    var start := Patch(Region(elf), map[], []);
    var tables := RelocTables(elf.sections);
    var minMem := MinMem(elf.sections, elf.streamLen);
    var p := Steps(start, Jobs(tables, elf.sections), org, minMem);
    StepsKeepValid(start, Jobs(tables, elf.sections), org, minMem);
    p
  }

  /** A section whose data is as long as its size, or empty. */
  predicate WellSized(s: Section)
  {
    |s.data| == 0 || |s.data| == s.size
  }

  predicate AllWellSized(elf: ElfFile)
  {
    forall i :: 0 <= i < |elf.sections| && elf.sections[i].addr != 0 ==> WellSized(elf.sections[i])
  }

  /** With well-sized sections every loadable section fits inside the
      max_mem - min_mem + 1 bytes of the buffer. */
  lemma LoadableFit(elf: ElfFile)
    requires AllWellSized(elf)
    ensures forall i :: 0 <= i < |Loadable(elf.sections)| ==>
      FitsIn(Loadable(elf.sections)[i], MinMem(elf.sections, elf.streamLen), RegionSize(elf))
  {
    var secs := Loadable(elf.sections);
    LoadableMembers(elf.sections);
    MinMemIsLeast(elf.sections, elf.streamLen);
    MaxMemIsGreatest(elf.sections);
    forall i | 0 <= i < |secs|
      ensures FitsIn(secs[i], MinMem(elf.sections, elf.streamLen), RegionSize(elf))
    {
      assert secs[i] in elf.sections;
      var k :| 0 <= k < |elf.sections| && elf.sections[k] == secs[i];
    }
  }

  /** The buffer is max_mem - min_mem + 1 bytes long, and each byte is the
      byte of the last loadable section covering it, or zero. */
  lemma RegionAt(elf: ElfFile, k: nat)
    requires AllWellSized(elf)
    ensures |Region(elf)| == RegionSize(elf)
    ensures var secs := Loadable(elf.sections);
      var minMem := MinMem(elf.sections, elf.streamLen);
      var i := LastCover(secs, minMem, k);
      k < RegionSize(elf) ==>
        && (0 <= i ==> FitsIn(secs[i], minMem, RegionSize(elf)))
        && Region(elf)[k] == if i < 0 then 0 else ByteAt(secs[i], minMem, k)
  {
    var secs := Loadable(elf.sections);
    var minMem := MinMem(elf.sections, elf.streamLen);
    var buf := Zeros(RegionSize(elf));
    LoadableFit(elf);
    assert |buf| == RegionSize(elf);
    LayoutLength(buf, secs, minMem);
    if k < RegionSize(elf) {
      LayoutAt(buf, secs, minMem, k);
    }
  }

  /** The three loops of linksofile for an object placed at org: the
      footprint, the copy into a fresh buffer and the relocation pass. */
  method LinkRegion(elf: ElfFile, org: int) returns (p: Patch, minMem: nat)
    requires Relocatable(elf, org)
    ensures p == Relocated(elf, org) && minMem == MinMem(elf.sections, elf.streamLen)
  {
    var progbits, relocTables, maxMem;
    progbits, relocTables, minMem, maxMem := Footprint(elf);
    var size := if maxMem - minMem + 1 > 0 then maxMem - minMem + 1 else 0;
    assert size == RegionSize(elf);
    LoadableAboveMin(elf.sections, elf.streamLen);
    var region := LayOut(progbits, minMem, size);
    assert region == Region(elf);
    p := ApplyRelocations(relocTables, elf.sections, region, org, minMem);
  }
}
