/**
 * A linked object (SOExternalLinkage, linker.py:27-53) and the binding of
 * its undefined symbols: symbol lookup, linkundef, linkallundef and the
 * final patch pass endhook.
 */
module Binding {
  import opened Bytes
  import opened Elf
  import opened Wrappers
  import opened Relocation

  // ---------------------------------------------------------------------
  // The endhook patch pass, on values

  /** One 4-byte little-endian write of the patch pass. */
  datatype Write = Write(site: nat, value: int)

  predicate WriteOk(w: Write, len: nat)
  {
    w.site + 4 <= len && 0 <= w.value < U32_LIMIT
  }

  predicate WritesOk(ws: seq<Write>, len: nat)
  {
    forall i :: 0 <= i < |ws| ==> WriteOk(ws[i], len)
  }

  /** The buffer after the writes, in order. A write that does not fit
      (one `to_bytes` or the slice assignment would reject) leaves the
      buffer as it is; endhook makes none (EndHookWritesOk). */
  function ApplyWrites(mem: seq<Byte>, ws: seq<Write>): (r: seq<Byte>)
    ensures |r| == |mem|
  {
    if ws == [] then mem
    else
      var n := |ws| - 1;
      var before := ApplyWrites(mem, ws[..n]);
      var w := ws[n];
      if WriteOk(w, |mem|) then WriteLE32(before, w.site, w.value) else before
  }

  /** The writes for one name: the assigned value at each recorded site. */
  function SiteWrites(sites: seq<nat>, value: int): (ws: seq<Write>)
    ensures |ws| == |sites|
    ensures forall k :: 0 <= k < |ws| ==> ws[k] == Write(sites[k], value)
  {
    seq(|sites|, k requires 0 <= k < |sites| => Write(sites[k], value))
  }

  /** The writes of endhook: the names in the order they were first
      recorded, skipping those without an assignment. */
  function EndHookWrites(names: seq<string>, undefs: map<string, seq<nat>>, assignments: map<string, int>): seq<Write>
    requires forall k :: 0 <= k < |names| ==> names[k] in undefs
  {
    if names == [] then []
    else
      var n := |names| - 1;
      var name := names[n];
      EndHookWrites(names[..n], undefs, assignments)
        + (if name in assignments then SiteWrites(undefs[name], assignments[name]) else [])
  }

  /** A write is made exactly for each recorded site of each assigned name,
      with that name's value. */
  lemma {:induction false} EndHookWritesMembers(names: seq<string>, undefs: map<string, seq<nat>>, assignments: map<string, int>)
    requires forall k :: 0 <= k < |names| ==> names[k] in undefs
    ensures forall w :: w in EndHookWrites(names, undefs, assignments) <==>
      exists n :: n in names && n in assignments && w.site in undefs[n] && w.value == assignments[n]
  {
    if names != [] {
      var n := |names| - 1;
      var init := names[..n];
      EndHookWritesMembers(init, undefs, assignments);
      assert names == init + [names[n]];
      forall w | w in EndHookWrites(names, undefs, assignments)
        ensures exists m :: m in names && m in assignments && w.site in undefs[m] && w.value == assignments[m]
      {
        if w !in EndHookWrites(init, undefs, assignments) {
          var k :| 0 <= k < |undefs[names[n]]| && w == Write(undefs[names[n]][k], assignments[names[n]]);
          assert w.site in undefs[names[n]];
        }
      }
      forall w: Write, m: string | m in names && m in assignments && w.site in undefs[m] && w.value == assignments[m]
        ensures w in EndHookWrites(names, undefs, assignments)
      {
        if m !in init {
          assert m == names[n];
          var k :| 0 <= k < |undefs[m]| && undefs[m][k] == w.site;
          assert SiteWrites(undefs[m], assignments[m])[k] == w;
        }
      }
    }
  }

  /** Two writes agree: at the same site they carry the same value, at
      different sites they do not overlap. */
  predicate Agree(w: Write, v: Write)
  {
    if w.site == v.site then w.value == v.value else Apart(w.site, v.site)
  }

  /** Writes that agree wherever they meet. */
  predicate Consistent(ws: seq<Write>)
  {
    forall i, j :: 0 <= i < |ws| && 0 <= j < |ws| ==> Agree(ws[i], ws[j])
  }

  /** After writes that all agree with one of them, v, v's site holds
      v's value. */
  lemma WritesLand(mem: seq<Byte>, ws: seq<Write>, v: Write)
    requires v in ws && WriteOk(v, |mem|)
    requires forall j :: 0 <= j < |ws| ==> Agree(ws[j], v)
    ensures ApplyWrites(mem, ws)[v.site..v.site + 4] == LE32(v.value)
  {
    var r := ApplyWrites(mem, ws);
    forall k | v.site <= k < v.site + 4
      ensures r[k] == LE32(v.value)[k - v.site]
    {
      ByteLands(mem, ws, v, k);
    }
  }

  /** One byte of WritesLand, by induction on the writes. */
  lemma {:induction false} ByteLands(mem: seq<Byte>, ws: seq<Write>, v: Write, k: nat)
    requires v in ws && WriteOk(v, |mem|) && v.site <= k < v.site + 4
    requires forall j :: 0 <= j < |ws| ==> Agree(ws[j], v)
    ensures ApplyWrites(mem, ws)[k] == LE32(v.value)[k - v.site]
  {
    var n := |ws| - 1;
    var init := ws[..n];
    var w := ws[n];
    var before := ApplyWrites(mem, init);
    assert ws == init + [w];
    if WriteOk(w, |mem|) && w.site == v.site {
      var after := WriteLE32(before, w.site, w.value);
      assert after[v.site..v.site + 4][k - v.site] == after[k];
    } else {
      assert v in init;
      assert forall j :: 0 <= j < n ==> init[j] == ws[j];
      ByteLands(mem, init, v, k);
      if WriteOk(w, |mem|) {
        assert Apart(w.site, v.site);
      }
    }
  }

  /** Writes leave every byte outside their windows unchanged. */
  lemma {:induction false} WritesKeepOutside(mem: seq<Byte>, ws: seq<Write>, k: nat)
    requires k < |mem|
    requires forall i :: 0 <= i < |ws| ==> !(ws[i].site <= k < ws[i].site + 4)
    ensures ApplyWrites(mem, ws)[k] == mem[k]
  {
    if ws != [] {
      var n := |ws| - 1;
      assert forall a :: 0 <= a < n ==> ws[..n][a] == ws[a];
      WritesKeepOutside(mem, ws[..n], k);
    }
  }

  /** Writes apart from a window leave it unchanged. */
  lemma WritesKeepWindow(mem: seq<Byte>, ws: seq<Write>, site: nat)
    requires site + 4 <= |mem|
    requires forall i :: 0 <= i < |ws| ==> Apart(ws[i].site, site)
    ensures ApplyWrites(mem, ws)[site..site + 4] == mem[site..site + 4]
  {
    var r := ApplyWrites(mem, ws);
    forall k | site <= k < site + 4
      ensures r[k] == mem[k]
    {
      WritesKeepOutside(mem, ws, k);
    }
  }

  /** Recorded sites that are the same belong to the same name, and
      different recorded sites do not overlap. */
  predicate SitesApart(undefs: map<string, seq<nat>>)
  {
    forall n1, n2, k1, k2 :: n1 in undefs && n2 in undefs && 0 <= k1 < |undefs[n1]| && 0 <= k2 < |undefs[n2]| ==>
      if undefs[n1][k1] == undefs[n2][k2] then n1 == n2 else Apart(undefs[n1][k1], undefs[n2][k2])
  }

  /** The values assigned to recorded names fit in 32 bits (`to_bytes`
      raises otherwise). */
  predicate AssignmentsFit(undefs: map<string, seq<nat>>, assignments: map<string, int>)
  {
    forall n :: n in undefs && n in assignments ==> 0 <= assignments[n] < U32_LIMIT
  }

  /** The endhook writes are in bounds. */
  lemma EndHookWritesOk(p: Patch, assignments: map<string, int>)
    requires PatchValid(p) && AssignmentsFit(p.undefs, assignments)
    ensures WritesOk(EndHookWrites(p.order, p.undefs, assignments), |p.mem|)
  {
    var ws := EndHookWrites(p.order, p.undefs, assignments);
    EndHookWritesMembers(p.order, p.undefs, assignments);
    forall i | 0 <= i < |ws|
      ensures WriteOk(ws[i], |p.mem|)
    {
      assert ws[i] in ws;
      var n :| n in p.order && n in assignments && ws[i].site in p.undefs[n] && ws[i].value == assignments[n];
    }
  }

  /** With separate sites, the endhook writes are consistent. */
  lemma EndHookWritesConsistent(p: Patch, assignments: map<string, int>)
    requires PatchValid(p) && SitesApart(p.undefs)
    ensures Consistent(EndHookWrites(p.order, p.undefs, assignments))
  {
    var ws := EndHookWrites(p.order, p.undefs, assignments);
    EndHookWritesMembers(p.order, p.undefs, assignments);
    forall i, j | 0 <= i < |ws| && 0 <= j < |ws|
      ensures Agree(ws[i], ws[j])
    {
      assert ws[i] in ws && ws[j] in ws;
      var n1 :| n1 in p.order && n1 in assignments && ws[i].site in p.undefs[n1] && ws[i].value == assignments[n1];
      var n2 :| n2 in p.order && n2 in assignments && ws[j].site in p.undefs[n2] && ws[j].value == assignments[n2];
      var k1 :| 0 <= k1 < |p.undefs[n1]| && p.undefs[n1][k1] == ws[i].site;
      var k2 :| 0 <= k2 < |p.undefs[n2]| && p.undefs[n2][k2] == ws[j].site;
    }
  }

  /** The buffer after endhook. */
  function Patched(p: Patch, assignments: map<string, int>): (r: seq<Byte>)
    requires PatchValid(p) && AssignmentsFit(p.undefs, assignments)
    ensures |r| == |p.mem|
  {
    ApplyWrites(p.mem, EndHookWrites(p.order, p.undefs, assignments))
  }

  /** Every recorded site of an assigned name holds the little-endian bytes
      of the assigned value. */
  lemma PatchedAssigned(p: Patch, assignments: map<string, int>, name: string, k: nat)
    requires PatchValid(p) && AssignmentsFit(p.undefs, assignments) && SitesApart(p.undefs)
    requires name in p.undefs && name in assignments && k < |p.undefs[name]|
    ensures var s := p.undefs[name][k];
      s + 4 <= |p.mem| && Patched(p, assignments)[s..s + 4] == LE32(assignments[name])
  {
    var ws := EndHookWrites(p.order, p.undefs, assignments);
    var s := p.undefs[name][k];
    EndHookWritesConsistent(p, assignments);
    EndHookWritesMembers(p.order, p.undefs, assignments);
    var v := Write(s, assignments[name]);
    assert v in ws;
    forall j | 0 <= j < |ws|
      ensures Agree(ws[j], v)
    {
      var i :| 0 <= i < |ws| && ws[i] == v;
      assert Agree(ws[j], ws[i]);
    }
    WritesLand(p.mem, ws, v);
  }

  /** Every recorded site of a name without an assignment keeps its bytes:
      the sentinel relocation left there. */
  lemma PatchedUnassigned(p: Patch, assignments: map<string, int>, name: string, k: nat)
    requires PatchValid(p) && AssignmentsFit(p.undefs, assignments) && SitesApart(p.undefs)
    requires name in p.undefs && name !in assignments && k < |p.undefs[name]|
    ensures var s := p.undefs[name][k];
      s + 4 <= |p.mem| && Patched(p, assignments)[s..s + 4] == p.mem[s..s + 4]
  {
    var ws := EndHookWrites(p.order, p.undefs, assignments);
    var s := p.undefs[name][k];
    EndHookWritesMembers(p.order, p.undefs, assignments);
    forall i | 0 <= i < |ws|
      ensures Apart(ws[i].site, s)
    {
      assert ws[i] in ws;
      var n :| n in p.order && n in assignments && ws[i].site in p.undefs[n] && ws[i].value == assignments[n];
      var k' :| 0 <= k' < |p.undefs[n]| && p.undefs[n][k'] == ws[i].site;
    }
    WritesKeepWindow(p.mem, ws, s);
  }

  /** A byte outside every recorded site of every assigned name is unchanged. */
  lemma PatchedOutside(p: Patch, assignments: map<string, int>, b: nat)
    requires PatchValid(p) && AssignmentsFit(p.undefs, assignments) && b < |p.mem|
    requires forall n, k :: n in p.undefs && n in assignments && 0 <= k < |p.undefs[n]| ==>
      !(p.undefs[n][k] <= b < p.undefs[n][k] + 4)
    ensures Patched(p, assignments)[b] == p.mem[b]
  {
    var ws := EndHookWrites(p.order, p.undefs, assignments);
    EndHookWritesMembers(p.order, p.undefs, assignments);
    forall i | 0 <= i < |ws|
      ensures !(ws[i].site <= b < ws[i].site + 4)
    {
      assert ws[i] in ws;
      var n :| n in p.order && n in assignments && ws[i].site in p.undefs[n] && ws[i].value == assignments[n];
      var k :| 0 <= k < |p.undefs[n]| && p.undefs[n][k] == ws[i].site;
    }
    WritesKeepOutside(p.mem, ws, b);
  }

  // ---------------------------------------------------------------------
  // The linked object

  class LinkedObject {
    /** The object file. */
    const elf: ElfFile
    const name: string
    /** The allocation cursor when the object was placed. */
    const base: int
    /** -min_mem. */
    const baseOffset: int
    /** The address of the object's .got section after placement. */
    const got: int
    /** linkedmem */
    var mem: seq<Byte>
    /** The patch sites of each undefined symbol, as relocation left them. */
    const undefs: map<string, seq<nat>>
    /** The names of undefs in insertion order, the order the dict iterates in. */
    const order: seq<string>
    /** undef_assignments */
    var assignments: map<string, int>

    ghost predicate Valid()
      reads this`mem
    {
      PatchValid(Patch(mem, undefs, order))
    }

    constructor (elf: ElfFile, name: string, base: int, baseOffset: int, got: int, p: Patch)
      requires PatchValid(p)
      ensures Valid()
      ensures this.elf == elf && this.name == name && this.base == base
      ensures this.baseOffset == baseOffset && this.got == got
      ensures mem == p.mem && undefs == p.undefs && order == p.order && assignments == map[]
    {
      this.elf := elf;
      this.name := name;
      this.base := base;
      this.baseOffset := baseOffset;
      this.got := got;
      mem := p.mem;
      undefs := p.undefs;
      order := p.order;
      assignments := map[];
    }

    /** symbol: the first match over the sections, relocated by
        base_offset + base; None where the source raises. */
    function Symbol(n: string): Option<int>
    {
      match FindSymbol(elf.sections, n)
      case None => None
      case Some(v) => Some(v + baseOffset + base)
    }

    /** The value symbol returns is that of the first symbol of the name in
        the first section holding one, plus base_offset + base; it fails
        exactly when no section holds the name. */
    lemma SymbolIsFirstMatch(n: string)
      ensures Symbol(n).None? <==> forall i :: 0 <= i < |elf.sections| ==> SymbolByName(elf.sections[i].symbols, n).None?
      ensures Symbol(n).Some? ==> exists i :: (0 <= i < |elf.sections|
        && SymbolByName(elf.sections[i].symbols, n).Some?
        && SymbolByName(elf.sections[i].symbols, n).value + baseOffset + base == Symbol(n).value
        && forall i' :: 0 <= i' < i ==> SymbolByName(elf.sections[i'].symbols, n).None?)
    {
    }

    /** endhook: every recorded site of every name with an assignment is
        overwritten with the assignment's little-endian bytes. */
    method EndHook()
      requires Valid() && AssignmentsFit(undefs, assignments)
      modifies this`mem
      ensures Valid()
      ensures mem == Patched(Patch(old(mem), undefs, order), assignments)
    {
      mem := PatchSites(Patch(mem, undefs, order), assignments);
    }
  }

  /** The loops of endhook, over the names in insertion order. */
  method PatchSites(p: Patch, assignments: map<string, int>) returns (mem: seq<Byte>)
    requires PatchValid(p) && AssignmentsFit(p.undefs, assignments)
    ensures mem == Patched(p, assignments)
  {
    var names, sites := p.order, p.undefs;
    EndHookWritesOk(p, assignments);
    mem := p.mem;
    var i := 0;
    while i < |names|
      invariant PatchedUpTo(p.mem, names, sites, assignments, i, mem)
      decreases |names| - i
    {
      mem := PatchName(p.mem, names, sites, assignments, i, mem);
      i := i + 1;
    }
    assert names[..i] == names;
  }

  /** The state of the endhook loop after the first i names: mem holds the
      writes for those names. */
  predicate PatchedUpTo(mem0: seq<Byte>, names: seq<string>, sites: map<string, seq<nat>>, assignments: map<string, int>,
                        i: nat, mem: seq<Byte>)
  {
    && i <= |names|
    && (forall k :: 0 <= k < |names| ==> names[k] in sites)
    && WritesOk(EndHookWrites(names, sites, assignments), |mem0|)
    && mem == ApplyWrites(mem0, EndHookWrites(names[..i], sites, assignments))
  }

  /** One iteration of the outer endhook loop: the sites of the i-th name
      receive its assignment, if it has one. */
  method PatchName(mem0: seq<Byte>, names: seq<string>, sites: map<string, seq<nat>>, assignments: map<string, int>,
                   i: nat, mem: seq<Byte>) returns (r: seq<Byte>)
    requires PatchedUpTo(mem0, names, sites, assignments, i, mem) && i < |names|
    ensures PatchedUpTo(mem0, names, sites, assignments, i + 1, r)
  {
    var undef := names[i];
    EndHookStep(mem0, names, sites, assignments, i);
    r := mem;
    if undef in assignments {
      r := WriteSites(mem, sites[undef], assignments[undef]);
    }
  }

  /** One iteration of the outer endhook loop, on the buffer. */
  lemma EndHookStep(mem: seq<Byte>, names: seq<string>, undefs: map<string, seq<nat>>, assignments: map<string, int>, i: nat)
    requires forall k :: 0 <= k < |names| ==> names[k] in undefs
    requires WritesOk(EndHookWrites(names, undefs, assignments), |mem|) && i < |names|
    ensures names[i] in assignments ==>
      && WritesOk(SiteWrites(undefs[names[i]], assignments[names[i]]), |mem|)
      && ApplyWrites(mem, EndHookWrites(names[..i + 1], undefs, assignments))
         == ApplyWrites(ApplyWrites(mem, EndHookWrites(names[..i], undefs, assignments)),
                        SiteWrites(undefs[names[i]], assignments[names[i]]))
    ensures names[i] !in assignments ==>
      EndHookWrites(names[..i + 1], undefs, assignments) == EndHookWrites(names[..i], undefs, assignments)
  {
    EndHookWritesNext(names, undefs, assignments, i);
    var prev := EndHookWrites(names[..i], undefs, assignments);
    if names[i] in assignments {
      EndHookRowOk(mem, names, undefs, assignments, i);
      ApplyWritesSplit(mem, prev, SiteWrites(undefs[names[i]], assignments[names[i]]));
    } else {
      assert prev + [] == prev;
    }
  }

  /** The writes for one assigned name are among the endhook writes, so
      they are in bounds when those are. */
  lemma EndHookRowOk(mem: seq<Byte>, names: seq<string>, undefs: map<string, seq<nat>>, assignments: map<string, int>, i: nat)
    requires forall k :: 0 <= k < |names| ==> names[k] in undefs
    requires WritesOk(EndHookWrites(names, undefs, assignments), |mem|) && i < |names| && names[i] in assignments
    ensures WritesOk(SiteWrites(undefs[names[i]], assignments[names[i]]), |mem|)
  {
    var prev := EndHookWrites(names[..i], undefs, assignments);
    var row := SiteWrites(undefs[names[i]], assignments[names[i]]);
    var upTo := EndHookWrites(names[..i + 1], undefs, assignments);
    var all := EndHookWrites(names, undefs, assignments);
    EndHookWritesNext(names, undefs, assignments, i);
    EndHookWritesPrefix(names, undefs, assignments, i + 1);
    assert upTo == prev + row && upTo <= all;
    forall k | 0 <= k < |row|
      ensures WriteOk(row[k], |mem|)
    {
      assert row[k] == upTo[|prev| + k];
      assert upTo[|prev| + k] == all[|prev| + k];
    }
  }

  /** The inner loop of endhook: the value written at each site in turn. */
  method WriteSites(mem: seq<Byte>, sites: seq<nat>, value: int) returns (r: seq<Byte>)
    requires WritesOk(SiteWrites(sites, value), |mem|)
    ensures r == ApplyWrites(mem, SiteWrites(sites, value))
  {
    ghost var row := SiteWrites(sites, value);
    r := mem;
    var j := 0;
    while j < |sites|
      invariant 0 <= j <= |sites| && r == ApplyWrites(mem, row[..j])
    {
      assert row[..j + 1][..j] == row[..j];
      assert row[..j + 1][j] == row[j];
      r := WriteLE32(r, sites[j], value);
      j := j + 1;
    }
    assert row[..j] == row;
  }

  /** Writing a + b is writing a, then b. */
  lemma {:induction false} ApplyWritesSplit(mem: seq<Byte>, a: seq<Write>, b: seq<Write>)
    ensures ApplyWrites(mem, a + b) == ApplyWrites(ApplyWrites(mem, a), b)
  {
    if b == [] {
      assert a + b == a;
    } else {
      var n := |b| - 1;
      assert (a + b)[..|a + b| - 1] == a + b[..n];
      assert (a + b)[|a + b| - 1] == b[n];
      ApplyWritesSplit(mem, a, b[..n]);
    }
  }

  lemma EndHookWritesNext(names: seq<string>, undefs: map<string, seq<nat>>, assignments: map<string, int>, i: nat)
    requires forall k :: 0 <= k < |names| ==> names[k] in undefs
    requires i < |names|
    ensures EndHookWrites(names[..i + 1], undefs, assignments)
            == EndHookWrites(names[..i], undefs, assignments)
               + (if names[i] in assignments then SiteWrites(undefs[names[i]], assignments[names[i]]) else [])
  {
    assert names[..i + 1][..i] == names[..i];
  }

  lemma {:induction false} EndHookWritesPrefix(names: seq<string>, undefs: map<string, seq<nat>>, assignments: map<string, int>, i: nat)
    requires forall k :: 0 <= k < |names| ==> names[k] in undefs
    requires i <= |names|
    ensures EndHookWrites(names[..i], undefs, assignments) <= EndHookWrites(names, undefs, assignments)
  {
    if i < |names| {
      var n := |names| - 1;
      assert names[..n][..i] == names[..i];
      EndHookWritesPrefix(names[..n], undefs, assignments, i);
    } else {
      assert names[..i] == names;
    }
  }

  // ---------------------------------------------------------------------
  // Binding undefined symbols

  /** How a linkundef call ends: the name was not recorded as undefined (a
      warning, nothing bound), the target has no such symbol (an exception),
      or the name was bound to a value. */
  datatype BindOutcome = NotUndefined | NoSymbol | Bound(value: int)

  /** linkundef: binds undefined name1 of so1 to symbol name2 (default
      name1) of so2. */
  method LinkUndef(so1: LinkedObject, name1: string, so2: LinkedObject, name2: Option<string>) returns (outcome: BindOutcome)
    modifies so1`assignments
    ensures var target := if name2.Some? then name2.value else name1;
      && (name1 !in so1.undefs ==> outcome == NotUndefined && so1.assignments == old(so1.assignments))
      && (name1 in so1.undefs && so2.Symbol(target).None? ==>
            outcome == NoSymbol && so1.assignments == old(so1.assignments))
      && (name1 in so1.undefs && so2.Symbol(target).Some? ==>
            outcome == Bound(so2.Symbol(target).value)
            && so1.assignments == old(so1.assignments)[name1 := so2.Symbol(target).value])
  {
    var target := name1;
    if name2.Some? {
      target := name2.value;
    }
    if name1 !in so1.undefs {
      return NotUndefined;
    }
    match so2.Symbol(target)
    case None =>
      outcome := NoSymbol;
    case Some(v) =>
      so1.assignments := so1.assignments[name1 := v];
      outcome := Bound(v);
  }

  /** The names among `names` that so2 defines, in order. */
  function Resolvable(names: seq<string>, so2: LinkedObject): (r: seq<string>)
  {
    if names == [] then []
    else
      var n := |names| - 1;
      Resolvable(names[..n], so2) + (if so2.Symbol(names[n]).Some? then [names[n]] else [])
  }

  /** The names resolved are exactly those so2 defines. */
  lemma {:induction false} ResolvableMembers(names: seq<string>, so2: LinkedObject)
    ensures forall n :: n in Resolvable(names, so2) <==> n in names && so2.Symbol(n).Some?
  {
    if names != [] {
      var n := |names| - 1;
      ResolvableMembers(names[..n], so2);
      assert names == names[..n] + [names[n]];
    }
  }

  predicate Distinct(names: seq<string>)
  {
    forall i, j :: 0 <= i < j < |names| ==> names[i] != names[j]
  }

  /** Filtering distinct names keeps them distinct. */
  lemma {:induction false} ResolvableDistinct(names: seq<string>, so2: LinkedObject)
    requires Distinct(names)
    ensures Distinct(Resolvable(names, so2))
  {
    if names != [] {
      var n := |names| - 1;
      var init := names[..n];
      ResolvableDistinct(init, so2);
      ResolvableMembers(init, so2);
      assert names[n] !in init;
    }
  }

  /** A sequence of distinct names has as many elements as its set. */
  lemma {:induction false} DistinctCard(names: seq<string>)
    requires Distinct(names)
    ensures |set n | n in names| == |names|
  {
    if names != [] {
      var n := |names| - 1;
      var init := names[..n];
      DistinctCard(init);
      assert names[n] !in init;
      assert (set m | m in names) == (set m | m in init) + {names[n]};
    }
  }

  /** With distinct names, one name is bound per name so2 defines. */
  lemma ResolvableCount(names: seq<string>, so2: LinkedObject)
    requires Distinct(names)
    ensures |Resolvable(names, so2)| == |set n | n in names && so2.Symbol(n).Some?|
  {
    ResolvableMembers(names, so2);
    ResolvableDistinct(names, so2);
    DistinctCard(Resolvable(names, so2));
    assert (set n | n in Resolvable(names, so2)) == (set n | n in names && so2.Symbol(n).Some?);
  }

  /** The bindings linkallundef makes: each name that so2 defines, in
      order, bound to its value. */
  function Bindings(names: seq<string>, so2: LinkedObject): map<string, int>
  {
    if names == [] then map[]
    else
      var n := |names| - 1;
      var b := Bindings(names[..n], so2);
      match so2.Symbol(names[n])
      case Some(v) => b[names[n] := v]
      case None => b
  }

  /** Exactly the names so2 defines are bound, each to so2's value for it. */
  lemma {:induction false} BindingsMembers(names: seq<string>, so2: LinkedObject)
    ensures forall n :: n in Bindings(names, so2) <==> n in names && so2.Symbol(n).Some?
    ensures forall n :: n in Bindings(names, so2) ==> Bindings(names, so2)[n] == so2.Symbol(n).value
  {
    if names != [] {
      var n := |names| - 1;
      BindingsMembers(names[..n], so2);
      assert names == names[..n] + [names[n]];
    }
  }

  /** One more name: bound when so2 defines it, skipped otherwise. */
  lemma BindingsNext(names: seq<string>, so2: LinkedObject, i: nat)
    requires i < |names|
    ensures Bindings(names[..i + 1], so2)
            == match so2.Symbol(names[i])
               case Some(v) => Bindings(names[..i], so2)[names[i] := v]
               case None => Bindings(names[..i], so2)
    ensures |Resolvable(names[..i + 1], so2)|
            == |Resolvable(names[..i], so2)| + (if so2.Symbol(names[i]).Some? then 1 else 0)
  {
    assert names[..i + 1][..i] == names[..i];
  }

  /** With a valid undefs record, the names bound are counted once each. */
  lemma CountDefined(p: Patch, so2: LinkedObject)
    requires PatchValid(p)
    ensures |Resolvable(p.order, so2)| == |set n | n in p.undefs && so2.Symbol(n).Some?|
  {
    ResolvableCount(p.order, so2);
    assert (set n | n in p.order && so2.Symbol(n).Some?) == (set n | n in p.undefs && so2.Symbol(n).Some?);
  }

  /** Binding after the union is binding in the right operand. */
  lemma UnionUpdate(a: map<string, int>, b: map<string, int>, k: string, v: int)
    ensures (a + b)[k := v] == a + b[k := v]
  {
  }

  /** linkallundef: binds every undefined name of so1 that so2 defines, in
      insertion order, and counts the names bound. */
  method LinkAllUndef(so1: LinkedObject, so2: LinkedObject) returns (count: nat)
    requires so1.Valid()
    modifies so1`assignments
    ensures so1.assignments == old(so1.assignments) + Bindings(so1.order, so2)
    ensures count == |set n | n in so1.undefs && so2.Symbol(n).Some?|
  {
    var names := so1.order;
    ghost var start := so1.assignments;
    count := 0;
    var i := 0;
    while i < |names|
      invariant 0 <= i <= |names|
      invariant so1.assignments == start + Bindings(names[..i], so2)
      invariant count == |Resolvable(names[..i], so2)|
    {
      var undefName := names[i];
      BindingsNext(names, so2, i);
      match so2.Symbol(undefName) {
        case Some(v) =>
          UnionUpdate(start, Bindings(names[..i], so2), undefName, v);
          so1.assignments := so1.assignments[undefName := v];
          count := count + 1;
        case None =>
      }
      i := i + 1;
    }
    assert names[..i] == names;
    CountDefined(Patch(so1.mem, so1.undefs, names), so2);
  }
}
