/**
 * The linker's driver (linker.py): the shared allocation cursor
 * `environment.org`, the list of sections to synthesize, the finish hooks,
 * and the operations linksofile, entry_section, jsinvoc, rawsection and
 * finish.
 */
module Linker {
  import opened Bytes
  import opened Elf
  import opened Wrappers
  import opened Relocation
  import opened Binding
  import opened Image

  const PAGE: int := 4096

  /** The cursor after an object of len bytes placed at org: org + len plus
      four pages, rounded down to a page with `& ~4095`, plus one page. On
      Python's integers `x & ~4095` is x minus its remainder modulo 4096,
      which is Dafny's `%` for a positive divisor, so this holds for every
      org. A full page is added even when the sum is already aligned. */
  function NextOrg(org: int, len: nat): (next: int)
    ensures next % PAGE == 0
    ensures org + len + 4 * PAGE < next <= org + len + 5 * PAGE
    ensures (org + len) % PAGE == 0 ==> next == org + len + 5 * PAGE
  {
    var x := org + len + PAGE * 4;
    (x - x % PAGE) + PAGE
  }

  /** A section of raw bytes at a fixed base (RawData). */
  class RawSection {
    const base: int
    var mem: seq<Byte>

    constructor (base: int, mem: seq<Byte>)
      ensures this.base == base && this.mem == mem
    {
      this.base := base;
      this.mem := mem;
    }
  }

  /** An entry of the synthesis list: a raw section or a linked object. */
  datatype Placed = Raw(raw: RawSection) | Linked(obj: LinkedObject)

  function Holder(p: Placed): object
  {
    match p
    case Raw(r) => r
    case Linked(o) => o
  }

  /** The base and the current bytes of a synthesized section. */
  function BlockOf(p: Placed): (b: Block)
    reads Holder(p)
    ensures b.base == (match p case Raw(r) => r.base case Linked(o) => o.base)
    ensures b.mem == (match p case Raw(r) => r.mem case Linked(o) => o.mem)
  {
    match p
    case Raw(r) => Block(r.base, r.mem)
    case Linked(o) => Block(o.base, o.mem)
  }

  /** The blocks of the synthesis list, in list order. */
  function Snapshot(secs: seq<Placed>): (bs: seq<Block>)
    reads set p | p in secs && p.Raw? :: p.raw
    reads set p | p in secs && p.Linked? :: p.obj
    ensures |bs| == |secs| && forall i :: 0 <= i < |secs| ==> bs[i] == BlockOf(secs[i])
  {
    if secs == [] then []
    else Snapshot(secs[..|secs| - 1]) + [BlockOf(secs[|secs| - 1])]
  }

  /** The linker's global state. */
  class LinkContext {
    /** environment.org, the allocation cursor. */
    var org: int
    /** _synthesis_sections */
    var sections: seq<Placed>
    /** _finishhooks: the endhook of each linked object, in link order. */
    var hooks: seq<LinkedObject>
    /** _entry_section */
    var entry: Option<RawSection>
    /** _entry_section_bridging_address */
    var bridging: int

    /** Every linked object keeps its recorded sites inside its buffer,
        and each object is in the hook list once. */
    ghost predicate Valid()
      reads this, (set h | h in hooks)`mem
    {
      && (forall i :: 0 <= i < |hooks| ==> hooks[i].Valid())
      && (forall i, j :: 0 <= i < j < |hooks| ==> hooks[i] != hooks[j])
    }

    /** The linked objects lie one after the other, each ending below the
        next one's base and below the cursor. linksofile keeps this as long
        as the script only lets the cursor grow; a script may move the
        cursor down, and then objects can lie in any order or overlap. */
    ghost predicate Apart()
      reads this, (set h | h in hooks)`mem
    {
      && (forall i, j :: 0 <= i < j < |hooks| ==> hooks[i].base + |hooks[i].mem| < hooks[j].base)
      && (forall i :: 0 <= i < |hooks| ==> hooks[i].base + |hooks[i].mem| < org)
    }

    constructor (org: int)
      ensures Valid()
      ensures this.org == org && sections == [] && hooks == [] && entry == None
    {
      this.org := org;
      sections := [];
      hooks := [];
      entry := None;
      bridging := 0;
    }

    /** A script's `environment.org = a`: the cursor moves anywhere. Placed
        objects stay apart from later ones only while the new cursor lies
        above all of them. */
    method SetOrg(a: int)
      modifies this`org
      ensures org == a
      ensures old(Valid()) ==> Valid()
      ensures old(Apart()) ==> (Apart() <==> forall i :: 0 <= i < |hooks| ==> hooks[i].base + |hooks[i].mem| < a)
    {
      org := a;
    }

    /** linksofile: lays the object out at the cursor, relocates it,
        registers its endhook and its section, and advances the cursor.
        The object needs a .got section and relocation entries that can be
        processed at this base (the source raises otherwise). */
    method LinkSoFile(elf: ElfFile, name: string) returns (ext: LinkedObject)
      requires Valid()
      requires SectionByName(elf.sections, ".got").Some? && Relocatable(elf, org)
      modifies this
      ensures Valid() && fresh(ext)
      ensures ext.elf == elf && ext.name == name && ext.base == old(org)
      ensures ext.baseOffset == -(MinMem(elf.sections, elf.streamLen) as int)
      ensures ext.got == elf.sections[SectionByName(elf.sections, ".got").value].addr + ext.base + ext.baseOffset
      ensures Patch(ext.mem, ext.undefs, ext.order) == Relocated(elf, old(org))
      ensures ext.assignments == map[]
      ensures old(Apart()) ==> Apart() && forall h :: h in old(hooks) ==> h.base + |h.mem| < ext.base
      ensures ext.base + |ext.mem| + 4 * PAGE < org
      ensures org == NextOrg(old(org), |ext.mem|)
      ensures hooks == old(hooks) + [ext] && sections == old(sections) + [Linked(ext)]
      ensures entry == old(entry) && bridging == old(bridging)
    {
      var p, minMem := LinkRegion(elf, org);
      var base := org;
      var baseOffset := -(minMem as int);
      var got := elf.sections[SectionByName(elf.sections, ".got").value].addr + base + baseOffset;
      ext := new LinkedObject(elf, name, base, baseOffset, got, p);
      Register(ext);
    }

    /** The end of linksofile: the object's endhook and section are
        registered and the cursor moves past the object. */
    method Register(ext: LinkedObject)
      requires Valid() && ext.Valid() && ext.base == org && ext !in hooks
      modifies this
      ensures Valid()
      ensures old(Apart()) ==> Apart() && forall h :: h in old(hooks) ==> h.base + |h.mem| < ext.base
      ensures ext.base + |ext.mem| + 4 * PAGE < org
      ensures org == NextOrg(old(org), |ext.mem|)
      ensures hooks == old(hooks) + [ext] && sections == old(sections) + [Linked(ext)]
      ensures entry == old(entry) && bridging == old(bridging)
    {
      hooks := hooks + [ext];
      sections := sections + [Linked(ext)];
      org := NextOrg(org, |ext.mem|);
    }

    /** entry_section: the singleton raw section at the cursor. Its first
        word is the bridging word, initially the address of byte 8; then
        four zero bytes; then the encoding of HLT. The cursor does not move.
        A second call fails ("Already created!") and changes nothing. */
    method EntrySection(hlt: seq<Byte>) returns (created: bool)
      requires entry.None? ==> 0 <= org + 8 < U32_LIMIT
      modifies this
      ensures org == old(org) && hooks == old(hooks)
      ensures created <==> old(entry).None?
      ensures !created ==> sections == old(sections) && entry == old(entry) && bridging == old(bridging)
      ensures created ==> && entry.Some? && fresh(entry.value)
                          && entry.value.base == org && bridging == org
                          && entry.value.mem == LE32(org + 8) + [0, 0, 0, 0] + hlt
                          && sections == old(sections) + [Raw(entry.value)]
    {
      if entry.Some? {
        return false;
      }
      var section := new RawSection(org, []);
      bridging := org;
      section.mem := section.mem + LE32(bridging + 8) + [0, 0, 0, 0];
      section.mem := section.mem + hlt;
      entry := Some(section);
      sections := sections + [Raw(section)];
      created := true;
    }

    /** jsinvoc, for the bytes: the call stub is appended to the entry
        section and its address returned. Without an entry section the
        source fails on the missing section; then None, and nothing changes. */
    method JsInvoc(encoding: seq<Byte>) returns (start: Option<int>)
      modifies if entry.Some? then {entry.value} else {}
      ensures old(entry).None? ==> start.None?
      ensures old(entry).Some? ==> && start == Some(entry.value.base + |old(entry.value.mem)|)
                                   && entry.value.mem == old(entry.value.mem) + encoding
    {
      if entry.None? {
        return None;
      }
      var section := entry.value;
      start := Some(section.base + |section.mem|);
      section.mem := section.mem + encoding;
    }

    /** rawsection: a raw section joins the synthesis list. */
    method AddRawSection(section: RawSection)
      modifies this`sections
      ensures sections == old(sections) + [Raw(section)]
    {
      sections := sections + [Raw(section)];
    }

    /** The first loop of finish: each object's endhook, in link order.
        Each object's buffer ends up with its assignments written over its
        recorded sites; the raw sections are not touched. */
    method RunHooks()
      requires Valid()
      requires forall i :: 0 <= i < |hooks| ==> AssignmentsFit(hooks[i].undefs, hooks[i].assignments)
      modifies (set h | h in hooks)`mem
      ensures Valid() && (old(Apart()) ==> Apart())
      ensures forall i :: 0 <= i < |hooks| ==>
        old(hooks[i].Valid()) && hooks[i].mem == Patched(Patch(old(hooks[i].mem), hooks[i].undefs, hooks[i].order), hooks[i].assignments)
    {
      ghost var mems := HooksRunStart();
      ghost var wasApart := Apart();
      RunHookLoop(mems);
      HooksRunDone(mems);
      if wasApart {
        assert Apart();
      }
    }

    /** The loop of RunHooks, from the first object to the last. */
    method RunHookLoop(ghost mems: seq<seq<Byte>>)
      requires HooksRun(mems, 0)
      modifies (set h | h in hooks)`mem
      ensures HooksRun(mems, |hooks|)
    {
      var i := 0;
      while i < |hooks|
        invariant HooksRun(mems, i)
        decreases |hooks| - i
      {
        RunHook(mems, i);
        i := i + 1;
      }
    }

    /** Before the loop: mems holds the buffers as they are. */
    lemma HooksRunStart() returns (mems: seq<seq<Byte>>)
      requires Valid()
      requires forall i :: 0 <= i < |hooks| ==> AssignmentsFit(hooks[i].undefs, hooks[i].assignments)
      ensures HooksRun(mems, 0)
      ensures forall k :: 0 <= k < |hooks| ==> hooks[k].Valid() && hooks[k].mem == mems[k]
    {
      mems := Mems(hooks);
    }

    /** After the loop: every buffer is patched and keeps its length. */
    lemma HooksRunDone(mems: seq<seq<Byte>>)
      requires HooksRun(mems, |hooks|)
      ensures Valid()
      ensures forall k :: 0 <= k < |hooks| ==>
        |hooks[k].mem| == |mems[k]|
        && PatchValid(Patch(mems[k], hooks[k].undefs, hooks[k].order))
        && hooks[k].mem == Patched(Patch(mems[k], hooks[k].undefs, hooks[k].order), hooks[k].assignments)
    {
    }

    /** The endhook loop after the first i objects: those hold their
        patched buffers, the others their buffers as they were (mems). */
    ghost predicate HooksRun(mems: seq<seq<Byte>>, i: nat)
      reads this, set h | h in hooks
    {
      && |mems| == |hooks| && i <= |hooks|
      && (forall a, b :: 0 <= a < b < |hooks| ==> hooks[a] != hooks[b])
      && (forall k :: 0 <= k < |hooks| ==>
            && PatchValid(Patch(mems[k], hooks[k].undefs, hooks[k].order))
            && AssignmentsFit(hooks[k].undefs, hooks[k].assignments)
            && hooks[k].Valid() && |hooks[k].mem| == |mems[k]|)
      && (forall k :: 0 <= k < i ==>
            hooks[k].mem == Patched(Patch(mems[k], hooks[k].undefs, hooks[k].order), hooks[k].assignments))
      && (forall k :: i <= k < |hooks| ==> hooks[k].mem == mems[k])
    }

    /** One iteration of the endhook loop: object i runs its endhook. */
    method RunHook(ghost mems: seq<seq<Byte>>, i: nat)
      requires HooksRun(mems, i) && i < |hooks|
      modifies {hooks[i]}`mem
      ensures HooksRun(mems, i + 1)
    {
      assert forall k :: 0 <= k < |hooks| && k != i ==> hooks[k] != hooks[i];
      hooks[i].EndHook();
    }

    /** finish, for the image: the endhooks run, then the synthesis list,
        ordered by base (stably), is written out as a memory image. A base
        or a length outside 32 bits makes `pack` fail: then None, after the
        endhooks have run. */
    method Finish() returns (image: Option<seq<Byte>>)
      requires Valid()
      requires forall i :: 0 <= i < |hooks| ==> AssignmentsFit(hooks[i].undefs, hooks[i].assignments)
      modifies (set h | h in hooks)`mem
      ensures Valid() && (old(Apart()) ==> Apart())
      ensures forall i :: 0 <= i < |hooks| ==>
        old(hooks[i].Valid()) && hooks[i].mem == Patched(Patch(old(hooks[i].mem), hooks[i].undefs, hooks[i].order), hooks[i].assignments)
      ensures image.Some? <==> AllPackable(Snapshot(sections))
      ensures image.Some? ==> AllPackable(SortByBase(Snapshot(sections)))
      ensures image.Some? ==> image.value == MAGIC + EncodeBlocks(SortByBase(Snapshot(sections)))
    {
      RunHooks();
      image := Synthesize();
    }

    /** The synthesis of finish: the sections sorted by base, each written
        as a zero-fill or a data block after the magic. */
    method Synthesize() returns (image: Option<seq<Byte>>)
      ensures image.Some? <==> AllPackable(Snapshot(sections))
      ensures image.Some? ==> AllPackable(SortByBase(Snapshot(sections)))
      ensures image.Some? ==> image.value == MAGIC + EncodeBlocks(SortByBase(Snapshot(sections)))
    {
      var snapshot := Snapshot(sections);
      if !AllPackable(snapshot) {
        return None;
      }
      var sorted := SortByBase(snapshot);
      SortByBasePackable(snapshot);
      var bytes := Serialize(sorted);
      assert sorted == SortByBase(Snapshot(sections));
      image := Some(bytes);
    }
  }

  /** The buffers of the objects, in list order. */
  function Mems(hs: seq<LinkedObject>): (ms: seq<seq<Byte>>)
    reads set h | h in hs
    ensures |ms| == |hs| && forall k :: 0 <= k < |hs| ==> ms[k] == hs[k].mem
  {
    if hs == [] then [] else Mems(hs[..|hs| - 1]) + [hs[|hs| - 1].mem]
  }
}
