# calderalinker, modelled in Dafny

calderalinker is a small static linker and image builder for freestanding
32-bit x86 programs that run inside a browser-hosted emulator. A build
script drives it in four steps:

- It links relocatable ELF objects (`linksofile`) into private byte buffers,
  one after another, at an allocation cursor (`environment.org`). Each
  buffer spans the object's loadable sections. The `R_386_*` relocations
  are applied with the object's base. The sites of undefined symbols are
  recorded.
- It binds those undefined symbols to symbols of other objects
  (`linkundef`, `linkallundef`). The final patch pass (`endhook`) writes
  them in.
- It builds a singleton entry section that holds a bridging word and call
  stubs (`entry_section`, `jsinvoc`).
- `finish` runs the patch passes. It then writes every section, sorted by
  base, into a memory image. The image is the magic
  `CalderalinkerMemoryImage` followed by zero-fill or data blocks. The host
  decodes the image with `parseImage`.

The kernel builder keeps a table of segment descriptors (the GDT) and a
list of selector bindings, and packs descriptors and selectors bit for bit.

The model is split into modules that follow this structure:

| file | module | what it holds |
|---|---|---|
| `wrappers.dfy` | `Wrappers` | `Option` |
| `bytes.dfy` | `Bytes` | bytes, little-endian words, Python slice assignment |
| `elf.dfy` | `Elf` | the object file as input values; symbol and section lookup |
| `relocation.dfy` | `Relocation` | footprint, copy, relocation pass (the three loops of `linksofile`) |
| `binding.dfy` | `Binding` | the linked object (`SOExternalLinkage`), `symbol`, `endhook`, `linkundef`, `linkallundef` |
| `image.dfy` | `Image` | the image serializer of `finish` and the `parseImage` decoder |
| `linker.dfy` | `Linker` | the linker state: cursor, synthesis list, finish hooks, entry section |
| `gdt.dfy` | `Gdt` | `create_selector`, `create_gdt_entry` and descriptor decoding |
| `kernel.dfy` | `Kernel` | the default GDT, `insert_gdt_entry`, `bind_register_to_selector`, multiboot words |

State that the source updates in place is modelled by classes:

- `Binding.LinkedObject` has a mutable `mem` and `assignments`.
- `Linker.RawSection` models `RawData`.
- `Linker.LinkContext` holds the module globals of `linker.py`.
- `Kernel.KernelBuilder` holds the globals of `kernel.py`.

The loops are methods whose `ensures` tie the result to a specification
function, and the properties are lemmas about those functions. Errors the
source raises are modelled in one of two ways:

- as an error value (`Option`, `RangeError`, a `bool` result);
- as a precondition, for exceptions that only malformed input can cause.
  These are listed below.

Quirks of the code that the model keeps:

- The object buffer is `max_mem - min_mem + 1` bytes (`linker.py:246`).
- The cursor step `(x & ~4095) + 4096` adds a whole page even when `x` is
  already page aligned (`linker.py:295`).
- `entry_section` places the entry section at `org` but never advances
  `org` (`linker.py:62-73`). A `linksofile` right after it therefore starts
  at the entry section's own base. Objects stay clear of the entry section
  only if the build script moves the cursor itself (`SetOrg`).
- The build script may set the cursor to any value, below earlier objects
  too. No operation requires the objects to be ordered.
  `Linker.LinkContext.Apart` states that they lie one after the other below
  the cursor. Linking keeps that property, and a cursor move keeps it
  exactly when the new cursor is above every object.

## Model

| member | source | states |
|---|---|---|
| Bytes.FromLE | linker.py:271 | `int.from_bytes(.., 'little')`: the value of n bytes is below 256^n |
| Bytes.LE32 | linker.py:290-292 | `to_bytes(4, 'little')` / `pack('<I')` of a 32-bit value is 4 bytes that decode back to the value |
| Bytes.LE32OfFromLE | linker.py:271-292 | four bytes re-encode to themselves: decoding then encoding a word is the identity |
| Bytes.SliceAssign | linker.py:256 | `l[a:b] = x` in range keeps `l[..a]`, puts `x` at `a`, keeps `l[b..]` after it, and the length changes by `|x| - (b - a)` |
| Bytes.WriteLE32 | linker.py:292 | writing a word at an in-range site keeps the length, makes the 4-byte window the value's little-endian bytes and leaves every other byte unchanged |
| Bytes.WriteLE32IsSliceAssign | linker.py:292 | writing a word is the slice assignment `l[site:site + 4] = v.to_bytes(4, 'little')` |
| Bytes.Zeros | linker.py:246 | the zero-filled buffer has the requested length and only zero bytes |
| Elf.FirstSymbol | linker.py:50 | the index of the first symbol with the name, or the count of symbols when none has it |
| Elf.SymbolByName | linker.py:50 | `get_symbol_by_name(name)[0]`: None exactly when no symbol has the name, else the value of the first symbol with it |
| Elf.FindSymbol | linker.py:47-53 | the first section, in table order, with a symbol of that name gives the value; None exactly when no section has one |
| Elf.FirstSection | linker.py:48-52 | the index of the first section holding a symbol of the name, or the count of sections when none does |
| Elf.SectionByName | linker.py:259 | `get_section_by_name`: None exactly when no section has the name, else the last section with it |
| Relocation.LoadableMembers | linker.py:235-241 | the loadable list is exactly the sections with `sh_addr != 0`, and the relocation tables are exactly the loadable `SHT_REL` sections |
| Relocation.MinMemIsLeast | linker.py:234-243 | `min_mem` is at most the stream length and at most every loadable address, and equals one of them or the stream length |
| Relocation.MaxMemIsGreatest | linker.py:234-243 | `max_mem` bounds every loadable section's end and is 0 or equals one of those ends |
| Relocation.Footprint | linker.py:234-243 | the first loop computes exactly the loadable sections, the relocation tables, `min_mem` and `max_mem` |
| Relocation.Payload | linker.py:256 | the bytes copied for a section: its data, or `sh_size` zeros when it has none |
| Relocation.LayOut | linker.py:250-256 | the copy loop produces the buffer after placing every loadable section in order |
| Relocation.PlaceSection | linker.py:251-256 | one iteration: the section's range `[sh_addr - min_mem, sh_addr + sh_size - min_mem)` is slice-assigned its payload |
| Relocation.LayoutAt | linker.py:250-256 | when sections fit, the buffer keeps its length and byte k is the byte of the last section covering k, or the original byte when none does |
| Relocation.LoadableFit | linker.py:243-246 | with well-sized sections every loadable section fits in the `max_mem - min_mem + 1` bytes |
| Relocation.RegionAt | linker.py:246-256 | the copied buffer is `max(0, max_mem - min_mem + 1)` bytes; each byte is from the last loadable section covering it, or zero |
| Relocation.LastCover | linker.py:250-256 | the index of the last section covering a byte: it covers the byte and no later section does |
| Relocation.Relocate | linker.py:269-292 | one entry: reads the word at `r_offset - min_mem`; RELATIVE adds `org - min_mem`; R_386_32 adds `st_value + org - min_mem`; a defined JMP_SLOT/GLOB_DAT stores `st_value + org - min_mem`; an undefined one stores 0xF00FBA11 / 0xF00DBA11 and records the site; other types write back the same word |
| Relocation.OtherTypeUnchanged | linker.py:290-292 | an entry of any other type leaves the buffer and the undefs unchanged |
| Relocation.IsolatedEntry | linker.py:266-292 | after the whole pass, an entry whose site no other entry touches holds the formula of its type applied to the word the copy left there |
| Relocation.StepRecords | linker.py:262-287 | an undefined JMP_SLOT/GLOB_DAT symbol gets its site added under its name |
| Relocation.UnresolvedRecorded | linker.py:262-292 | whatever follows, a site recorded for an undefined name is still in `undefs[name]` at the end of the pass, and the name is in the insertion order |
| Relocation.StepsExtendUndefs | linker.py:262-265 | `add_undef` only appends: each name's site list at any point is a prefix of its list later |
| Relocation.StepsKeepValid | linker.py:262-292 | the pass keeps each undefined name once in insertion order, and keeps every recorded site a 4-byte window inside the buffer |
| Relocation.StepsKeepWindow | linker.py:292 | a 4-byte window that no entry's site overlaps is left as it was |
| Relocation.Steps | linker.py:266-292 | relocation never resizes the buffer |
| Relocation.ApplyRelocations | linker.py:266-292 | the nested relocation loops equal the pass over all entries of all tables in order |
| Relocation.RelocateNextTable | linker.py:266-292 | one iteration of the outer loop: the buffer and undefs are those of the pass over one more table |
| Relocation.RelocateTable | linker.py:267-292 | the inner loop equals the pass over one table's entries |
| Relocation.Relocated | linker.py:234-292 | the relocated object keeps the copied buffer's length and the undefs invariant |
| Relocation.LinkRegion | linker.py:234-292 | the three loops of `linksofile` together give the relocated object and `min_mem` |
| Binding.EndHookWritesMembers | linker.py:39-43 | the writes of `endhook` are exactly (site, value) for each recorded site of each assigned name |
| Binding.WritesLand | linker.py:42-43 | after writes that all agree with one of them, that write's window holds its value's little-endian bytes |
| Binding.WritesKeepOutside | linker.py:42-43 | bytes outside every written window are unchanged |
| Binding.EndHookWritesConsistent | linker.py:39-43 | with sites of different names apart, two writes at the same site carry the same value |
| Binding.Patched | linker.py:38-45 | `endhook` keeps the buffer length |
| Binding.PatchedAssigned | linker.py:40-43 | every recorded site of an assigned name holds the little-endian bytes of the assignment |
| Binding.PatchedUnassigned | linker.py:44-45 | the sites of a name without an assignment keep their bytes, the sentinel |
| Binding.PatchedOutside | linker.py:38-45 | every byte outside the assigned names' windows is unchanged |
| Binding.LinkedObject.constructor | linker.py:224-228 | a new linked object holds the relocated buffer and undefs, and has no assignments |
| Binding.LinkedObject.SymbolIsFirstMatch | linker.py:47-53 | `symbol` fails exactly when no section holds the name, else returns the first section's first match plus `base_offset + base` |
| Binding.LinkedObject.EndHook | linker.py:38-45 | the buffer becomes the patched buffer |
| Binding.PatchSites | linker.py:39-45 | the loops of `endhook` over names in insertion order give the patched buffer |
| Binding.PatchName | linker.py:39-43 | one iteration of the outer loop: the buffer gains the writes of the next name, if it is assigned |
| Binding.WriteSites | linker.py:42-43 | the inner loop writes the value at each site in order |
| Binding.LinkUndef | linker.py:130-136 | `name2` defaults to `name1`; a name that is not undefined changes nothing; a failed lookup changes nothing; otherwise `name1` is assigned the provider's symbol |
| Binding.ResolvableMembers | linker.py:120-128 | the names `linkallundef` binds are exactly the undefined names the provider has |
| Binding.ResolvableCount | linker.py:120-128 | with names recorded once each, the number of resolvable names is the number of distinct names the provider defines |
| Binding.BindingsMembers | linker.py:120-128 | each bound name maps to the provider's symbol value, and no other name is bound |
| Binding.CountDefined | linker.py:120-128 | the count is the number of distinct undefined names the provider resolves |
| Binding.LinkAllUndef | linker.py:120-128 | the assignments gain exactly the resolvable names with their provider values; the count is the number of them |
| Image.MagicIsAscii | linker.py:144 | the magic is the 24 ASCII bytes of `CalderalinkerMemoryImage` |
| Image.Header | linker.py:150-152 | `pack('<BII', t, base, len)`: nine bytes: the type, then base and length as little-endian words |
| Image.EncodeBlockShape | linker.py:148-152 | an all-zero section (an empty one included) is a bare type-0 header; any other is a type-1 header followed by its bytes |
| Image.Serialize | linker.py:144-152 | the loop produces the magic followed by the blocks of the sections in order |
| Image.SortByBaseSorted | linker.py:146 | the sorted list is in ascending base order |
| Image.SortByBasePermutes | linker.py:146 | the sorted list is a permutation of the sections |
| Image.SortByBaseStable | linker.py:146 | sections with equal base keep their relative order |
| Image.SortByBasePackable | linker.py:146-152 | sorting keeps every section writable by `pack` |
| Image.ParseImage | linker.py:160-180 | the decoder loop equals the block-by-block reading of the data from offset 24 |
| Image.ParseHeader | linker.py:164-177 | a type-0 header decodes to a fill entry and moves past 9 bytes; a type-1 header decodes to a data entry and moves past its payload |
| Image.DecodeBlocks | linker.py:144-180 | the blocks written after any prefix decode back to their entries, in order |
| Image.RoundTrip | linker.py:144-180 | `parseImage` of a serialized image recovers each section's base and, for data blocks, its bytes, or, for zero blocks, its length, in order |
| Linker.NextOrg | linker.py:294-295 | the next cursor is page aligned and lies in `(org + len + 4 pages, org + len + 5 pages]`; an aligned `org + len` still gains a whole fifth page |
| Linker.Snapshot | linker.py:146-152 | one block per synthesis section, with its base and current bytes |
| Linker.LinkContext.constructor | linker.py:54-60 | a fresh linker has the given cursor, no sections, no hooks and no entry section |
| Linker.LinkContext.SetOrg | linker.py:10-11 | the script sets the cursor to any value; the state stays valid; objects that lay apart below the old cursor still do exactly when the new cursor is above all of them |
| Linker.LinkContext.LinkSoFile | linker.py:223-296 | the object gets base = old `org` and `base_offset = -min_mem`; `got` is `.got`'s address plus both; its buffer and undefs are the relocated ones; it ends below the next cursor; if the objects lay apart below the old cursor, it lies above every earlier object and they all still lie apart; hooks and sections gain it; the cursor is `NextOrg` |
| Linker.LinkContext.Register | linker.py:293-295 | registering a new object appends its hook and section, moves the cursor past it, keeps every object in the hook list once, and keeps objects that lay apart below the cursor apart |
| Linker.LinkContext.EntrySection | linker.py:62-73 | the first call creates the section at `org`: LE32(`org + 8`), four zeros, then the HLT bytes; bridging = `org`; `org` unchanged; a second call fails and changes nothing |
| Linker.LinkContext.JsInvoc | linker.py:103-107 | returns `base + old length` and only appends the stub bytes; fails without an entry section |
| Linker.LinkContext.AddRawSection | linker.py:303-304 | the raw section is appended to the synthesis list |
| Linker.LinkContext.RunHooks | linker.py:139-140 | every hook's buffer becomes its patched buffer, whatever the placement; buffer lengths stay, so objects that lay apart still do |
| Linker.LinkContext.RunHook | linker.py:139-140 | one endhook: that object's buffer becomes its patched buffer; the other objects keep theirs |
| Linker.LinkContext.Synthesize | linker.py:143-152 | the image is the magic plus the blocks of the sections sorted by base; None exactly when some base or length does not fit in 32 bits |
| Linker.LinkContext.Finish | linker.py:138-152 | runs all hooks, then produces the image of the sorted sections as they are after the hooks; None exactly when `pack` would raise |
| Gdt.CreateSelector | gdt.py:26-29 | for flags below 8, the selector's index bits give back `idx` and its low three bits give back the flags |
| Gdt.SelectorExamples | gdt.py:26-29 | `(1, 0)` gives 0x08 and `(2, 3)` gives 0x13 |
| Gdt.CreateGdtEntry | gdt.py:31-38 | decoding the descriptor gives the limit masked to 20 bits, the access byte and the low flag nibble; the base comes back or-ed with flag bits 4-7 in its top byte |
| Gdt.DescriptorRoundTrip | gdt.py:31-38 | in-range base, limit, access and flags are all recovered from the descriptor |
| Gdt.DescriptorFieldsDetermine | gdt.py:31-38 | the four decoded fields cover all 64 bits: equal fields mean equal descriptors |
| Gdt.FlagsHighNibbleOverlapsBase | gdt.py:36-37 | flags masked with 0xff, not 0xf: flags 0x10 with base 0 give the same descriptor as base 0x01000000 |
| Gdt.FlatCodeDescriptor | gdt.py:31-38 | `create_gdt_entry(0, 0xFFFFF, 0x9B, 0xC)` is 0x00CF9B000000FFFF |
| Kernel.DefaultGdt | kernel.py:54-72 | the default table has 16 entries |
| Kernel.DefaultGdtEntries | kernel.py:54-72 | entries 0, 4 and 9-15 are null; entries 1, 2, 3, 5, 6, 7, 8 are `create_gdt_entry` of base 0, limit 0xFFFFF and their access and flags |
| Kernel.FlatDescriptor | gdt.py:31-38 | a base-0, limit-0xFFFFF descriptor is its flags and access in place over the all-ones limit bits |
| Kernel.DefaultGdtDecoded | kernel.py:56-64 | decoded, the entries match their comments: flat, present 32-bit code/data, ring-3 user segments, a not-present code segment, 16-bit segments |
| Kernel.KernelBuilder.constructor | kernel.py:84-92 | the builder starts from the default table and no bindings |
| Kernel.KernelBuilder.InsertGdtEntry | kernel.py:85-90 | for `index >= 0` the new length is `max(old, index + 1)`, the slot holds the descriptor, gap slots are 0, other slots are unchanged; a negative index counts from the end; below `-len` the call fails and changes nothing |
| Kernel.KernelBuilder.BindRegisterToSelector | kernel.py:94-96 | appends `(reg, create_selector(index, flags))` and keeps earlier bindings |
| Kernel.MultibootFlags | kernel.py:30-33 | the flags word is page-align or memory-info, 3 |
| Kernel.MultibootChecksum | kernel.py:34 | the checksum word is a 32-bit value |
| Kernel.MultibootHeaderValid | kernel.py:32-40 | magic + flags + checksum is 0 modulo 2^32 (section 3.1.2 of the Multiboot Specification 0.6.96); the checksum is 0xE4524FFB |

## Left out

- The ELF parser (pyelftools: `ELFFile`, `get_section`, `iter_relocations`, `get_symbol`) is a foreign library. The object file is an input value (`Elf.ElfFile`). `get_section_by_name` is taken to return the last section of a name.
- The Keystone assembler (`_assemble`) is a foreign encoder. The HLT encoding and each stub's encoding are byte-sequence parameters of `EntrySection` and `JsInvoc`.
- `jsentry` only builds assembly text from `symbol` and `got` (both modelled) and calls `jsinvoc`. The text is not modelled.
- File and process I/O is not modelled: `makedirs` and the writes in `finish`, `include`'s `exec`, and everything `build_kernel` writes or runs.
- Generated JS and assembly text is not modelled: `expose`, `postconstruct`, the JS class, the `jsinvoc` wrapper, the boot and linker scripts.
- `_cpuStop` polling is concurrent runtime code and is not modelled.
- `applyImage` is not modelled. The round trip is stated on `parseImage`'s output.
- `print` diagnostics are not modelled.
- The `Kernel` dataclass defaults are not modelled; they feed only the generated assembly.
- `parseImage` is modelled over the bytes of the image alone. A `DataView` over a buffer larger than the array is not modelled.
- Relocation sites inside the buffer, valid symbol indices and stored values in [0, 2^32) are preconditions (`Relocation.Relocatable`). In the source their violation resizes the list or raises.
- A `.got` section is a precondition of `LinkSoFile`. In the source its absence raises.
- Assignments in [0, 2^32) are a precondition of `EndHook`, `RunHooks` and `Finish`. In the source `to_bytes` raises otherwise. Under these preconditions every write of `endhook` fits (`Binding.EndHookWritesOk`), so the write model `Binding.ApplyWrites` simply skips a write that does not fit.
- `EntrySection` requires `org + 8` in [0, 2^32) for the first call only, because `pack('<I')` raises otherwise. A second call fails with "Already created!" whatever the cursor.
- The source registers the finish hook before layout (`linker.py:229`). That only matters when `linksofile` raises, which the preconditions exclude.
- `create_gdt_entry`'s Python integers are taken as `bv64`. The function keeps only the low 32 bits of each argument, so this is exact. `create_selector` is modelled on non-negative integers.
- Kernel.KernelBuilder.InsertGdtEntry: arguments are `bv64`. Python ints wider than 64 bits behave the same, because only their low bits reach the descriptor.
