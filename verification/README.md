# Simbench, modelled and verified

Simbench is a bare-metal benchmark suite: small guest programs, started by a harness, on top of memory-management
back ends for several architectures. This project models its hardest code in Dafny and proves what that code is
for. The parts, and the theorem each one is built around:

- **ARMv8 page tables** (`Radix`, `Armv8Walk`, `Armv8Tree`, `Armv8TxlnTable`, `Armv8History`, `Armv8Mem`). Physical
  memory is an array of 4 KiB frames of 64-bit words, and a hardware walk over it is the specification. `TxlnTable`
  clears only valid bits and revives old subtrees on demand; its invariant `Valid()` says that the walk nevertheless
  equals replaying the history of calls on a plain map in which a clear is the empty map, and that the tables, valid
  and stale together, are a tree of distinct heap pages whose number is exactly the number of distinct address
  prefixes. Every method keeps `Valid()`, and halts exactly when the heap cannot hold the tables of the history.
- **x86-64 page tables** (`X86Walk`, `X86Tree`, `X86Boot`, `X86Mem`). Two trees in one memory: the boot tree with its
  1 GiB or 2 MiB pages, and the run-time tree. A mapping changes one walk in one tree. `StartUp` runs boot code,
  early set-up and memory initialisation: it succeeds exactly when the heap holds the tables, and then the run-time
  walk is the identity on exactly the listed pages, and every page that holds a run-time table is among them.
- **x86 MOV decoder and the fault-skip handler** (`X86Instruction`, `X86Decode`, `X86Encode`, `X86Skip`, `X86Manual`). An
  encoder written from the architecture manual and the decoder undo each other; accepted instructions are a
  prefix-free set; and in any run of encoded moves, k skips land where the encoder put the k-th boundary. `X86Manual`
  reads the same bytes as the manual says, and states for every accepted instruction exactly when the decoder agrees.
- **Formatter, harness transcript, host parser** (`Printf`, `PrintfMeaning`, `FormatMeaning`, `Harness`, `Host`,
  `Transcript`). The formatter fills its buffer with the rendering of the format, and for each conversion and each
  whole format it is stated exactly when that is what the C standard asks for; the harness prints a transcript with it, spinner noise
  included; the host program recovers from that transcript exactly the benchmarks that were run.
- **Smaller machines**: the ARMv7 set/way cache flush, on register values and on machines described by their caches
  (`CacheFlush`, `CacheMachine`), the scrolling VGA console against an unbounded
  log of rows (`Console`), the write-once ARM section table (`ArmSections`), and the software-interrupt handshake of a
  polling loop and its handler (`SwiHandshake`).

Where a specification function says what a part of the program does, a further theorem says the same in figures, without
the program's own helper functions: the translations after start-up, the bytes of a direct offset, the bit fields of
descriptors and cache registers, the flags of a directive, the cells on the screen.

Code that updates state is imperative here too: classes with the source's variables as fields, in-place arrays, and
loops with invariants. Each method is proved against a specification function; the lemmas then say what that function
means. `arch_abort` is the outcome `halted` (or `aborted`, `Aborted`); what holds afterwards is not stated. `Bits`
defines the C bit operators on natural numbers bit by bit and proves what they do to bit fields; `WrappingLoop` is
about loops over unsigned machine words, and `Wrappers` holds the optional value.

## Where the code differs from what it is meant to do

The model keeps the code as it is. For each difference a theorem gives the exact condition under which the result is
the intended one, and a lemma gives an input for which it is not:

- Decoder, prefixes: a REX byte counts wherever it stands (`arch/x86_64/decode.c:124-151`), while the architecture
  ignores one that is not directly before the opcode: `X86Manual.PrefixesIffPlaced` on the flags, input
  `48 66 8b 07` in `X86Manual.MisplacedRex`; `X86Manual.HarmlessRex` shows one that does no harm.
- Decoder, displacement: one byte is zero-extended, not sign-extended (`arch/x86_64/decode.c:358`):
  `X86Encode.ReadsDisplacementIff` on encoded moves, input `8b 47 f8` in `X86Encode.NegativeByteDisplacement`.
- Decoder, direct offset (0xa1): the address-size prefix is ignored, and the operand-size prefix alone picks RAX
  (`arch/x86_64/decode.c:463-471`): `X86Manual.MoffsIff`, inputs with 48, 66 and 67 in `X86Manual.WrongMoffs`. The
  fault handler therefore skips too far exactly for 0xa1 under 67: `X86Manual.SkipIff`, `X86Manual.SkipsTooFar`.
- Decoder, all three together: `X86Manual.AcceptedIffPlain` says, for every byte string the decoder accepts, exactly
  when its reading is the manual's.
- Formatter: quotients are kept in an `int` (`util/printf.c:55`, `util/printf.c:58`), the sign ends up after the digits
  (`util/printf.c:45-48`), `%u` sign-extends an int (`util/printf.c:156-157`), a width pads `%s` on the right
  (`util/printf.c:100-104`), is ignored by `%c` (`util/printf.c:205-210`), and leaves out the prefix of `%p`
  (`util/printf.c:183-189`). A conversion prints what C11 section 7.21.6.1 asks for if and only if none of these applies
  (`FormatMeaning.ConversionIffHandled`), and so does a whole format of the implemented language, since misprints
  cannot cancel (`FormatMeaning.OutputIffHandled`). Inputs: `FormatMeaning.MisprintedInts` ("5-" for -5; `%u` of 2^31
  never stops before the room is full), `FormatMeaning.MisprintedWidths` (`%5c`, `%5s`, `%10p`) and
  `PrintfMeaning.CutQuotient` (42949672960 prints as 0).
- Formatter, language: the predicate `FormatMeaning.Implemented` describes the directives the program implements, with
  `%b` for binary and `%p` for hexadecimal with a 0x prefix. Other conversions, flags and precisions of C are not
  recognised: `FormatMeaning.UnimplementedConversion` (`%X` prints X), `FormatMeaning.UnimplementedFlag` (`%-5d`
  prints -5d).
- Harness: the iteration count is printed with `%x`, 32 bits wide (`harness/harness.c:17`):
  `Transcript.CountsSurviveIff`, input `Transcript.LostCount`.
- Region loops wrap: the loop variable ever passes the end if and only if the end is not in the last page, or section,
  of the address space (`arch/armv8/mem.c:33`, `arch/arm/mem.c:51`): `Armv8Mem.RegionEndsIff`,
  `ArmSections.RegionEndsIff`, inputs in the `RegionWithoutEnd` of both modules. `MapRegionTurns` in both modules
  describes the loops for every end.
- Set/way flush: packed operands of different lines differ if and only if the set fields stay below the way fields:
  `CacheFlush.FlushIsExact`, input `CacheFlush.FieldsThatDoNotFit`.
- x86 sections: `NR_PAGES` counts the pages of a section exactly when the end lies no earlier in its page than the
  start in its own (`arch/x86_64/mem.c:15`): `X86Mem.NrPagesIff`, input `X86Mem.MissedPage`. Page counts of 2^31 and
  more are cut by the `int` parameter (`arch/x86_64/mem.c:17`): `X86Mem.IntPages`, input `X86Mem.CutPages`.
- x86 boot tables: below 1 GiB the program takes a large page for a table, and a mapping there takes effect only when
  it is an identity mapping (`arch/x86_64/mem.c:155-191`): `X86Boot.LowMappingIff` and `X86Boot.LowMappingGibIff`,
  input `X86Boot.LowMappingIgnored`.

Three more points are modelled as coded: the opcode 0xcd ends in a function that returns no value
(`arch/x86_64/decode.c:482-489`), which is the outcome `Undefined`; characters of 128 and more are sign-extended
into the attribute byte of a console cell (`platform/x86_64/native/console.c:73`); and ARM device sections are neither
cached nor buffered, although the comment beside them says buffered (`arch/arm/mem.c:395-402`).

## Assumptions

- ARMv8 heap memory is zero before the first allocation: `armv8_heap_get_page` does not clear the pages it hands out,
  and the tables' own clearing loops only touch bits 1:0. The heap starts on a page boundary and ends below 2^48.
- The x86 heap's bounds are page-aligned, the heap lies above the boot tables, and the linker's sections and the heap
  lie below 2^48. That the tables map themselves is stated for heaps of fewer than 2^31 pages, all of which get mapped.
- Section, heap and device bounds are parameters. Nothing but the modelled code writes to page-table memory.
- The interrupt is delivered after it has been deliverable for finitely many steps (fairness); this is assumed only
  for termination of the handshake.
- Strings given to the formatter end at their first NUL and, in the transcript, names are non-empty, free of white
  space and at most 127 characters long, which is what the host's `%s` conversions and 128-byte buffers demand.

## Model

| member | source | states |
|---|---|---|
| Armv8TxlnTable.TxlnTable.constructor | arch/armv8/heap.c:11-13 | Over zeroed RAM the empty history's invariant holds: nothing translates, nothing is allocated |
| Armv8TxlnTable.TxlnTable.HeapGetPage | arch/armv8/heap.c:15-25 | The bump allocator hands out the old pointer, advances by one page, and aborts exactly when the new pointer passes the heap's end |
| Armv8TxlnTable.TxlnTable.GetL0Table | arch/armv8/txln_table.c:67-70 | The root is allocated at most once, which changes no translation; it halts exactly when there is no root and no page left |
| Armv8TxlnTable.TxlnTable.ClearEntries | arch/armv8/txln_table.c:72-98 | In place, all 512 entries lose their type bits and keep the address they remember; no other frame changes |
| Armv8TxlnTable.TxlnTable.ChildPage | arch/armv8/txln_table.c:104-108 | An invalid entry yields the child page it remembers, and a new heap page exactly when that child never existed |
| Armv8TxlnTable.TxlnTable.LinkChild | arch/armv8/txln_table.c:110-114 | Clearing the child and then writing the saved parent descriptor is one relink: no aliasing between the two writes loses either |
| Armv8TxlnTable.TxlnTable.GetDescriptor | arch/armv8/txln_table.c:100-117 | Makes the walk for the address reach one level further with every translation unchanged and the ownership tree kept; allocates only a table never touched before; the same for levels 0, 1 and 2 |
| Armv8TxlnTable.TxlnTable.NextTable | arch/armv8/txln_table.c:119-176 | Returns the address of the next table on the path, present and reachable; halts only if the heap cannot hold the tables |
| Armv8TxlnTable.TxlnTable.LeafTable | arch/armv8/txln_table.c:206-213 | After the four look-ups the table set has grown by exactly the path of the address and no page translates differently; halts exactly when the heap cannot hold the union |
| Armv8TxlnTable.TxlnTable.InsertMapping | arch/armv8/txln_table.c:178-204 | The one entry of the level-3 table that the address selects gets the descriptor of the mapping's kind; every other word of memory is as before |
| Armv8TxlnTable.TxlnTable.MapPage | arch/armv8/txln_table.c:206-246 | For every history: after mapping a page the hardware walk equals the replayed map with that page put, the page itself translating to the given frame with the attributes of its kind, and the call halts if and only if the heap cannot hold the tables of the extended history |
| Armv8TxlnTable.TxlnTable.ClearTxlnTable | arch/armv8/txln_table.c:78-80 | After a clear the walk equals the empty map although every subtree stays in memory; heap use changes only by the root |
| Armv8TxlnTable.TxlnTable.GetTxlnTable | arch/armv8/txln_table.c:62-65 | Fetching the table's address is invisible to the translation and returns the root that the walk starts from |
| Armv8TxlnTable.TxlnTable.PagesConsumed | arch/armv8/heap.c:15-25 | In every reachable state the heap pointer stands one page per distinct table ever touched above its start |
| Armv8TxlnTable.DescriptorAt | arch/armv8/txln_table.c:100-109 | On a reached path an entry either names its one child, valid or with the type bits cleared, or is zero when the child was never created |
| Armv8TxlnTable.TableIndex | arch/armv8/txln_table.c:101-102 | Shifting, truncating to 32 bits and masking gives the index of the address's page at that level |
| Armv8Walk.ClearValidBits | arch/armv8/txln_table.c:74 | The mask clears bits 1:0 and nothing else |
| Armv8Walk.TableAddress | arch/armv8/txln_table.c:122 | The mask extracts the frame address in bits 47:12 |
| Armv8Walk.TableDescriptor | arch/armv8/txln_table.c:112-113 | For a page-aligned address the "or" adds the table type and disturbs no address bit |
| Armv8Walk.MappingDescriptor | arch/armv8/txln_table.c:184-193 | The "or"s assemble the data or code page descriptor without one field running into another |
| Armv8Walk.DeviceMappingDescriptor | arch/armv8/txln_table.c:195-204 | The same for the device descriptor, with attribute index 1 |
| Armv8Walk.LeafOfPageDescriptor | arch/armv8/txln_table.c:184-204 | An access that ends at a written descriptor does not fault and yields the frame of the physical address and the attributes of the mapping's kind |
| Armv8Walk.WrittenPages | arch/armv8/txln_table.c:184-204 | In figures, for every physical address: the access flag is set; access permissions 0b01 for data and devices and 0b11 for code; attribute index 1 for devices and 0 otherwise; all other attribute bits zero |
| Armv8Tree.RelinkKeepsTree | arch/armv8/txln_table.c:104-115 | Reviving or adding a child keeps all tables, valid and stale, a tree in which no two entries name the same page |
| Armv8Tree.RelinkKeepsWalk | arch/armv8/txln_table.c:104-115 | Invalidating the child before linking it keeps every walk: no stale mapping below it comes back |
| Armv8Tree.RelinkKeepsTables | arch/armv8/txln_table.c:104-115 | Relinking keeps the heap invariant: owned pages are exactly those below the pointer, and pages above it stay zero |
| Armv8Tree.InsertSetsWalk | arch/armv8/txln_table.c:184-193 | Writing the level-3 entry on a reached path makes the walk for that page end in the written descriptor |
| Armv8Tree.InsertKeepsOtherWalks | arch/armv8/txln_table.c:184-193 | ... and changes the walk of no other page |
| Armv8Tree.ClearRootKeepsTree | arch/armv8/txln_table.c:78-80 | Clearing the root keeps the ownership tree, with all subtrees stale |
| Armv8Tree.ClearRootUnmapsAll | arch/armv8/txln_table.c:78-80 | After clearing the root every page faults |
| Armv8Tree.FreshPage | arch/armv8/heap.c:15-25 | The next heap page is no table of the tree, is inside memory, and is still zero |
| Armv8Tree.RelinkStep | arch/armv8/txln_table.c:100-117 | One level of table creation, in full: invariant kept, path one level longer, all translations unchanged |
| Armv8Tree.InsertStep | arch/armv8/txln_table.c:184-204 | The last step of a mapping, in full: one page's walk set, all others and the invariant kept |
| Armv8Tree.ClearStep | arch/armv8/txln_table.c:78-80 | A clear, in full: the invariant kept and nothing mapped |
| Armv8History.ReplayIsLastWrite | arch/armv8/txln_table.c:206-246 | A page is mapped after a history if and only if some call has the last word on it since the latest clear, and then as that call said |
| Armv8History.NothingResurrected | arch/armv8/txln_table.c:72-80 | For all histories around it, a clear erases everything before: what follows behaves as if it came first |
| Armv8History.TablesAreDistinctPrefixes | arch/armv8/txln_table.c:100-169 | The number of tables ever needed is 1 plus the numbers of distinct 512 GiB, 1 GiB and 2 MiB prefixes of the addresses mapped |
| Armv8History.TouchedNodes | arch/armv8/txln_table.c:100-169 | A table is needed if and only if it is the root or lies on the path of some mapped address |
| Armv8History.RemappingIsFree | arch/armv8/txln_table.c:104-108 | Any number of clear-and-remap rounds over 2 MiB regions seen before needs no new table |
| Armv8Mem.MapRegion | arch/armv8/mem.c:26-66 | Maps each page from the aligned start through the inclusive end, each on itself; halts exactly when the heap cannot hold all of their tables |
| Armv8Mem.AlignDown | arch/armv8/mem.c:31 | The mask rounds the start down to its page |
| WrappingLoop.EndsIff | arch/armv8/mem.c:33 | For any step that divides the modulus, the wrapping loop variable ever passes the end if and only if one more step fits behind the end |
| Armv8Mem.RegionEndsIff | arch/armv8/mem.c:33 | The wrapping 64-bit loop variable ever passes the end if and only if the end is not in the last page of the address space |
| Armv8Mem.RegionWithoutEnd | arch/armv8/mem.c:33 | Concretely: a region up to the last byte of the address space is mapped for ever |
| Armv8Mem.MapRegionTurns | arch/armv8/mem.c:26-66 | For every end, wrapping ones included: after any number of turns the history has grown by the calls of those turns, and the loop stops early only past the end or when the heap cannot hold the tables |
| Armv8Mem.SyscallMemInit | arch/armv8/mem.c:74-120 | Its effect on the table is the history: fetch, clear, text as code, data, then each device in list order; halts exactly when the heap cannot hold it |
| Armv8Mem.InitTranslation | arch/armv8/mem.c:97-116 | Whatever was mapped before, afterwards a page translates if and only if it meets a region, to itself, with the attributes of the last region that meets it |
| Armv8Mem.TranslationAfterInit | arch/armv8/mem.c:97-116 | In figures, page by page: a page of a device is device memory, else one of the data section is read-write memory, else one of the text section is read-only memory, each at its own address; every other page faults |
| Armv8Mem.CoversBelow48Bits | arch/armv8/mem.c:31-35 | Below 2^48, a page meets a region exactly when it lies between the pages of the inclusive bounds |
| Armv8Mem.RegionsView | arch/armv8/mem.c:104-116 | A list of regions maps exactly the pages it covers, each on itself, the last region deciding the attributes |
| X86Walk.SetBaseAddress | arch/x86_64/mem.c:117-120 | The new base replaces bits 63:12 and the low 12 flag bits stay |
| X86Walk.GetBaseAddress | arch/x86_64/mem.c:122-125 | Exactly the flag bits are masked off |
| X86Walk.SetFlags | arch/x86_64/mem.c:127-130 | The flags replace the low 12 bits and the base stays |
| X86Walk.IsPresent | arch/x86_64/mem.c:137-140 | True exactly for entries that the walk takes as present |
| X86Walk.TableIndex | arch/x86_64/mem.c:142-152 | Each field of the index structure is the walk's index of the address's page at that level |
| X86Tree.AddKeepsTree | arch/x86_64/mem.c:161-168 | Linking a fresh zero page keeps the tables of both roots one forest without sharing |
| X86Tree.AddKeepsWalk | arch/x86_64/mem.c:161-186 | ... and changes no walk in either tree |
| X86Tree.InsertSetsWalk | arch/x86_64/mem.c:188-190 | Writing the last-level entry makes the walk for that page yield the physical frame, writable, with user access as far as the upper levels grant it |
| X86Tree.InsertKeepsOtherWalks | arch/x86_64/mem.c:188-190 | ... and changes no other page's walk in that tree and no walk in the other |
| X86Tree.AddRuntimeRoot | arch/x86_64/mem.c:58 | A zeroed page as second root keeps the boot translation and itself maps nothing |
| X86Boot.BuildPagetables | arch/x86_64/boot.S:160-232 | The stores, byte and double-word wide, and the counting loop leave exactly the intended tables, whatever memory held before, in both branches |
| X86Boot.ClearFrame | arch/x86_64/boot.S:164-179 | Clearing 0x400 double words zeroes one frame and touches no other |
| X86Boot.BootIdentity | arch/x86_64/boot.S:160-232 | The 1 GiB and the 2 MiB branch give the same translation: the identity on the first gibibyte, for the supervisor, and nothing else |
| X86Boot.BootTree | arch/x86_64/boot.S:160-232 | The boot tables satisfy the invariant that later mappings rely on |
| X86Boot.LowDescent | arch/x86_64/mem.c:155-188 | Below 1 GiB with 2 MiB pages, no level is missing and the program descends into the first frame of the large page |
| X86Boot.LowMappingIff | arch/x86_64/mem.c:188-190 | What it writes there changes no translation of the page, so such a mapping does what it should if and only if it is an identity mapping |
| X86Boot.LowMappingIgnored | arch/x86_64/mem.c:188-190 | Concretely: mapping virtual page 0x200 to physical page 0 has no effect |
| X86Boot.LowMappingGibIff | arch/x86_64/mem.c:155-190 | With a 1 GiB page the program takes frame 0 for a directory; unless the entry found there leads to a boot table, the same holds |
| X86Mem.Paging.constructor | arch/x86_64/heap.c:10-15 | After boot and heap initialisation the invariant holds, with the boot identity as the boot tree's map and an empty run-time map |
| X86Mem.Paging.HeapAllocPage | arch/x86_64/heap.c:19-32 | Hands out the page at the pointer, zeroed, with the rest of memory untouched; aborts exactly when the pointer has reached the end |
| X86Mem.Paging.FastZeroPage | arch/x86_64/util.S:1-7 | 0x200 word stores zero one frame and touch no other |
| X86Mem.Paging.FillEntry | arch/x86_64/mem.c:161-168 | On an empty entry, allocating, setting the base and then the flags is one linking of a fresh zero table |
| X86Mem.Paging.NextTable | arch/x86_64/mem.c:161-170 | The next table on the path is present afterwards, all translations of both trees unchanged; the same for the three levels |
| X86Mem.Paging.ReachTable | arch/x86_64/mem.c:157-188 | Tables of the path, and only those missing, are added; halts exactly when the heap is too small for them |
| X86Mem.Paging.InsertEntry | arch/x86_64/mem.c:188-190 | Sets the walk of one page in one tree and no walk else, in either tree |
| X86Mem.Paging.CreatePageMapping | arch/x86_64/mem.c:155-191 | For either root and any interleaving: puts one page into that tree's map, leaves the other tree's map, keeps the no-sharing invariant; halts exactly when the heap is too small |
| X86Mem.Paging.MapRuntimePage | arch/x86_64/mem.c:193-201 | Mapping a page for data or code changes the run-time map at that page only and leaves the boot map |
| X86Mem.Paging.MapPageRanges | arch/x86_64/mem.c:17-27 | Maps consecutive pages to consecutive frames; halts exactly when the heap cannot hold the tables of the whole range |
| X86Mem.Paging.EarlyMemInit | arch/x86_64/mem.c:208-214 | Adds the local APIC's page to the boot identity, which otherwise stays, in both boot variants; takes exactly the missing tables of that page's path, and halts exactly when the heap is too small for them |
| X86Mem.Paging.PrepareRuntimePagetables | arch/x86_64/mem.c:29-47 | The run-time map becomes framebuffer, text, data, heap and APIC mappings in that order, although tables are allocated from the heap while the heap is being mapped; halts exactly when the heap cannot hold the union of their tables |
| X86Mem.Paging.MemInit | arch/x86_64/mem.c:51-60 | The first call builds the run-time tree and leaves the boot tree; every later call changes nothing; halts exactly when the heap is too small |
| X86Mem.Paging.TablesMapThemselves | arch/x86_64/mem.c:29-47 | With the run-time tables active, every page that holds one of them is reachable at its own address, those allocated during the heap-mapping loop included |
| X86Mem.StartUp | arch/x86_64/arch.c:13-19 | Boot code, heap, early set-up and memory initialisation in sequence: halts exactly when the heap cannot hold all tables; otherwise every run-time table maps itself, and for sections whose ends are no earlier in their pages than the starts, the run-time tables translate exactly the framebuffer's, the text, data and heap pages and the APIC's, and the boot tables exactly the first gibibyte and the APIC page, all to themselves |
| X86Mem.NrPagesIff | arch/x86_64/mem.c:15 | The macro counts the pages that meet the inclusive range if and only if the end lies no earlier in its page than the start in its own |
| X86Mem.MissedPage | arch/x86_64/mem.c:15 | Concretely: from 0xfff to 0x1000 it counts one page of two |
| X86Mem.CutPages | arch/x86_64/mem.c:17 | Concretely: 2^31 pages become none |
| X86Mem.IntPages | arch/x86_64/mem.c:17 | A page count survives the int parameter if and only if it is below 2^31, and never grows |
| X86Mem.RuntimeIdentity | arch/x86_64/mem.c:29-47 | The run-time map is the identity on exactly the framebuffer page, the text, data and heap pages and the APIC page |
| X86Mem.RuntimeInFigures | arch/x86_64/mem.c:29-47 | The same on addresses: a page is in the run-time map if and only if it is 0xb8 or 0xfee00 or lies from the first to the last page of the text or data section, the last one included, or between the bounds of the heap |
| X86Mem.StartUpInFigures | arch/x86_64/mem.c:29-60 | ... and read by the hardware walk from the memory that start-up leaves, for both roots |
| X86Mem.MapRangeIdentity | arch/x86_64/mem.c:17-27 | A range mapped on itself covers exactly its pages and leaves the rest of the map |
| X86Mem.BootState | arch/x86_64/boot.S:160-232 | The boot tables are a tree whose map is the first gibibyte on itself |
| X86Decode.Decoder.ReadPrefixes | arch/x86_64/decode.c:120-154 | The loop folds in every prefix byte and stops at the first byte that is none, or where the bytes end |
| X86Decode.Decoder.ReadModRM | arch/x86_64/decode.c:156-168 | The shifts and masks are the three fields of the byte |
| X86Decode.DecodeRegOperand | arch/x86_64/decode.c:170-319 | The register a ModRM field names under the prefixes, with the size that belongs to its name |
| X86Decode.Decoder.DecodeRmOperand | arch/x86_64/decode.c:321-429 | The memory operand and the displacement bytes consumed, or the rejected forms: register-direct, SIB, RIP-relative |
| X86Decode.Decoder.DecodeMovRM | arch/x86_64/decode.c:431-456 | The cursor version of a register move decodes what the byte-string specification says, operand order included |
| X86Manual.MoffsIff | arch/x86_64/decode.c:462-473 | The direct-offset form is decoded as the manual says, the offset read byte by byte, if and only if there is no 67 prefix, and 66 and REX.W come together or not at all; cut-off bytes are covered too |
| X86Manual.WrongMoffs | arch/x86_64/decode.c:462-473 | Concrete inputs: 48 a1 gives EAX for RAX, 66 a1 gives RAX for AX, 67 a1 gives ten bytes for six |
| X86Manual.DisplacementIff | arch/x86_64/decode.c:323-412 | A displacement is read as the manual says, by bytes and sign, if and only if it is not one byte from 0x80 on |
| X86Manual.CollectedFlags | arch/x86_64/decode.c:120-154 | The prefix loop collects the flags of all prefix bytes, wherever they stand |
| X86Manual.PrefixesIffPlaced | arch/x86_64/decode.c:120-154 | For every byte string, the prefixes are read as the manual says if and only if every REX byte is covered by a REX byte directly before the opcode |
| X86Manual.MisplacedRex | arch/x86_64/decode.c:120-154 | A concrete failing input: 48 66 8b 07 reads as a 64-bit move, where the manual has a 16-bit one |
| X86Manual.AcceptedIffPlain | arch/x86_64/decode.c:321-521 | Every accepted byte string means what the manual says if and only if its one-byte displacement is below 128 (for 0xa1: it has no 67, and 66 agrees with REX.W) and no misplaced REX byte sets a bit that the instruction uses |
| X86Manual.RegistersIff | arch/x86_64/decode.c:170-429 | Two readings of the prefixes name the same register and base if and only if R, B, and W or, where it decides, the presence of REX agree |
| X86Manual.HarmlessRex | arch/x86_64/decode.c:120-154 | A concrete misplaced REX byte, in 48 66 88 07, after which the instruction still means what the manual says |
| X86Manual.LengthIff | arch/x86_64/decode.c:491-521 | The reported length is the manual's if and only if the instruction is not 0xa1 with a 67 prefix |
| X86Manual.SkipIff | arch/x86_64/exception.c:23-43 | The fault handler resumes at the next instruction if and only if the same condition holds |
| X86Manual.SkipsTooFar | arch/x86_64/exception.c:23-43 | A concrete input on which the handler jumps over two further instructions |
| X86Decode.Decoder.DecodeInstruction | arch/x86_64/decode.c:491-521 | The cursor machine as a whole is the function `Decode` of the bytes, for every byte string, cut-off ones included |
| X86Decode.AddPrefix | arch/x86_64/decode.c:126-150 | The sixteen REX cases and the two size overrides are the bit tests of the prefix byte |
| X86Encode.RoundTrip | arch/x86_64/decode.c:491-521 | Decoding the encoding of any encodable move, followed by any bytes, gives back operands, register size and length |
| X86Encode.MoffsRoundTrip | arch/x86_64/decode.c:462-473 | Opcode a1 with the eight little-endian bytes of any 64-bit offset, followed by any bytes, loads EAX from that offset, in nine bytes |
| X86Encode.LoadFromApic | arch/x86_64/decode.c:462-473 | Concretely: a1 00 00 e0 fe 00 00 00 00 loads EAX from 0xfee00000 |
| X86Encode.LittleAgrees | arch/x86_64/decode.c:463 | Words of four and eight bytes are read as sums of their bytes, least significant first |
| X86Encode.ReadsDisplacementIff | arch/x86_64/decode.c:358 | The displacement comes back right if and only if the encoding does not rely on sign-extending a byte |
| X86Encode.NegativeByteDisplacement | arch/x86_64/decode.c:355-360 | A concrete failing input: 8b 47 f8 decodes with displacement 248 instead of -8 |
| X86Encode.Canonical | arch/x86_64/decode.c:431-456 | For any byte string accepted as one of the four moves, re-encoding and decoding again gives the same operands in canonical length |
| X86Encode.DecodedIsEncodable | arch/x86_64/decode.c:321-456 | Everything the decoder accepts as a register move can be encoded |
| X86Encode.PrefixesDecode | arch/x86_64/decode.c:120-154 | The encoder's prefix bytes are read back as exactly the intended flags |
| X86Encode.RegisterReadBack | arch/x86_64/decode.c:170-319 | Number, width and REX need determine every register, the REX-only byte registers and the high bytes included |
| X86Encode.DisplacementReadBack | arch/x86_64/decode.c:323-412 | Displacement bytes are consumed in full and read back as far as zero extension allows |
| X86Skip.Local | arch/x86_64/decode.c:491-521 | Acceptance and result depend on the first `length` bytes only |
| X86Skip.PrefixFree | arch/x86_64/decode.c:491-521 | No accepted instruction is a proper prefix of another |
| X86Skip.UniqueParse | arch/x86_64/decode.c:491-521 | A run of accepted instructions can be cut into instructions in one way only |
| X86Skip.MemSkipHandler | arch/x86_64/exception.c:23-43 | The handler advances the saved instruction pointer by one accepted instruction or aborts with it unchanged |
| X86Skip.SkipsLandOnBoundaries | arch/x86_64/exception.c:23-43 | k skips over k accepted instructions, with anything before and after, land exactly where the k-th accepted byte string ends |
| X86Skip.SkipsLandOnEncodings | arch/x86_64/exception.c:23-43 | In any run of encoded moves, with anything before and after, k skips land exactly where the encoder put the k-th boundary, independently of the decoder's lengths |
| Printf.PrependToBuffer | util/printf.c:27-35 | The in-place right shift: the new character in front, the old ones one further, nothing else touched |
| Printf.AppendNum | util/printf.c:37-86 | The shift-right loops leave sign, digits and padding in the buffer as one text, within the size and touching nothing outside it |
| Printf.AppendStr | util/printf.c:88-107 | The buffer holds the text cut to the size or padded on the right, nothing else touched |
| Printf.Vsnprintf | util/printf.c:109-233 | For every format with matching arguments: terminates, returns less than the size, and the buffer holds exactly the output and a NUL with the rest unchanged; a zero size writes nothing |
| Printf.Directive | util/printf.c:123-220 | One directive appends exactly its rendering and moves format and arguments on together |
| Printf.ReadFlags | util/printf.c:128-146 | The goto loop over flags and widths computes pad width, pad character and length modifier, and where the conversion stands |
| Printf.Convert | util/printf.c:148-210 | Each conversion character writes the rendering of its argument and no more than the room left |
| PrintfMeaning.NumeralDenotes | util/printf.c:51-76 | While quotients are below 2^31, parsing the digits gives the number modulo base^room: the number when it fits, its low-order digits otherwise |
| PrintfMeaning.NumeralIsSuffix | util/printf.c:51-76 | The digits written are the numeral most significant first, or exactly its last `room` digits |
| PrintfMeaning.DigitsDenote | util/printf.c:55-58 | The numeral of a number denotes it, in every base up to 36 |
| PrintfMeaning.StuckFills | util/printf.c:55-74 | Once a cut quotient comes out negative, no later one is zero and the loop fills the room |
| PrintfMeaning.NumeralIffUncut | util/printf.c:51-76 | With a place to spare the digits are right if and only if the first quotient is below 2^31 |
| PrintfMeaning.UnsignedCompares | util/printf.c:37-86 | Digits and padding together are right if the first quotient is below 2^31, and otherwise differ from the right text and fill the room or are no longer than it |
| PrintfMeaning.NegativeCompares | util/printf.c:45-48 | A negative number is never printed as it should be, with either kind of padding |
| PrintfMeaning.ExtendedFills | util/printf.c:156-157 | An int from 2^31 on under %u fills the room, however large |
| FormatMeaning.ConversionIffHandled | util/printf.c:148-210 | A conversion that fits prints what the standard asks for, sign in front, %u unsigned, width over the whole text, if and only if its first quotient is below 2^31, a %d number is not negative, a %u int is below 2^31, and its width asks for no padding the code gets wrong |
| FormatMeaning.NumberInk | util/printf.c:37-86 | In any room, a number that does not fill it prints no more non-blank characters than it should |
| PrintfMeaning.CutQuotient | util/printf.c:55 | A concrete failing number: 42949672960 in decimal prints as 0 |
| FormatMeaning.OutputIffHandled | util/printf.c:109-233 | For every format of the implemented language whose right text fits with three characters to spare: the output is that text if and only if every conversion in it is handled |
| FormatMeaning.OutputFits | util/printf.c:109-233 | One character to spare is enough for a format whose conversions are all handled to print its right text |
| FormatMeaning.OutputStep | util/printf.c:122-228 | The same from any point of the format on, and with the printed text trailing the right one by any number of blanks: it never catches up |
| FormatMeaning.OutputInk | util/printf.c:122-228 | In any room, output that does not fill it has no more non-blank characters than the right text |
| FormatMeaning.MisprintedWidths | util/printf.c:183-210 | Concrete failing inputs: %5c of A, %5s of ab, %10p of 255 |
| FormatMeaning.UnimplementedConversion | util/printf.c:212-217 | Concretely: %X prints X |
| FormatMeaning.UnimplementedFlag | util/printf.c:212-217 | Concretely: %-5d prints -5d |
| FormatMeaning.MisprintedInts | util/printf.c:148-167 | Concrete failing inputs: %d of -5 prints 5-, and %u of 2^31 fills any room |
| FormatMeaning.SignIffNonNegative | util/printf.c:45-48 | %d prints an int that fits the right way if and only if it is not negative |
| FormatMeaning.UnsignedIffSmall | util/printf.c:156-157 | %u prints an int that fits the right way if and only if it is below 2^31 |
| PrintfMeaning.FlagRun | util/printf.c:128-146 | An optional 0, a decimal width and a run of l are read as that pad width, padding with zeros exactly when the 0 is there, and a long exactly when there is an l |
| PrintfMeaning.ClampedWidth | util/printf.c:41-43 | A width beyond the room leaves one character free, unless the digits need that one too |
| FormatMeaning.EightHexDigits | util/printf.c:128-189 | %08x of every int prints eight characters that read back as the number: zeros, then its numeral (the directive of `arch/x86_64/arch.c:68`) |
| FormatMeaning.TwoHexDigits | util/printf.c:128-189 | %02x of every byte prints two characters that read back as the byte (the directive of `arch/x86_64/exception.c:34`) |
| FormatMeaning.LiteralTail | util/printf.c:221-227 | Text without directives is printed as it stands, as far as there is room |
| Harness.Fprintf | util/printf.c:258-280 | Sends the formatted text up to the first NUL, one character at a time |
| Harness.Spinner.Start | util/debug.c:13-19 | One blank, and the counters reset |
| Harness.Spinner.Tick | util/debug.c:21-30 | A frame of the spinner exactly on rollover, in the order of the spinner characters |
| Harness.SpinFrames | util/debug.c:21-30 | Over any number of ticks, one frame for every rollover ticks, in turn, each drawn over the one before |
| Harness.HarnessExecute | harness/harness.c:11-48 | Prints the entry of one benchmark: header, count, optional control bracket, kernel bracket, spinner noise inside |
| Harness.HarnessMain | harness/harness.c:50-62 | Prints the begin line, the entry of every benchmark in table order, and the end line |
| Host.Input.ReadStart | host/main.c:10-25 | Consumes up to and including the first line that is exactly the begin line, and fails exactly if there is none |
| Host.Input.ReadTimingStartChar | host/main.c:27-47 | Skips noise and consumes one further character, reporting which bracket it opens, if any |
| Host.Input.ReadTimingEndChar | host/main.c:49-67 | Skips noise and consumes one further character, reporting whether it closes the bracket |
| Host.Input.TimeBenchmarks | host/main.c:86-113 | Reports which brackets were timed and consumes them |
| Host.Input.ReadBenchmark | host/main.c:115-137 | Reads one record, or stops where the header scan stops |
| Host.Input.ReadRun | host/main.c:139-148 | The whole program terminates on every input, with the records of the specification parser |
| Transcript.SpinTextIsNoise | util/debug.c:21-30 | For any counter state and number of ticks, the spinner draws only characters the host skips |
| Transcript.ScanEntryHeader | host/main.c:123 | The formatted scan recovers category, name and count from the printed header |
| Transcript.TimeEntryBrackets | host/main.c:86-113 | Both brackets are found whatever noise the kernels draw in them |
| Transcript.RecordsOfEntries | host/main.c:141-143 | Reading entries one after the other recovers every benchmark, and the end line stops the loop |
| Transcript.StartAfterPreamble | host/main.c:10-25 | Output without a begin line in front of the transcript is skipped whole |
| Transcript.HostRecoversTranscript | host/main.c:10-148 | The host inverts the harness: for every preamble without a begin line, every benchmark list and any spinner ticks, exactly the list of category, name, count modulo 2^32 and has-control, stopping at the end line |
| Transcript.CountsSurviveIff | host/main.c:139-148 | A run of the host on the transcript reports the true counts if and only if every count is below 2^32 |
| Transcript.LostCount | harness/harness.c:17 | Concretely: 2^32 iterations are reported as none |
| Transcript.RoundTrip | harness/harness.c:50-62 | Printer and parser run one after the other, as programs, return the benchmarks |
| CacheFlush.LevelLinesOnce | arch/arm/cache.S:20-65 | The loops visit each line of every data or unified cache below the level of coherency once, and no other line |
| CacheFlush.FlushSets | arch/arm/cache.S:47-53 | The innermost loop issues one operation per set of a way, highest first, and ends |
| CacheFlush.FlushWays | arch/arm/cache.S:39-55 | The middle loop does so for every way of a cache |
| CacheFlush.FlushCacheKernel | arch/arm/cache.S:20-65 | The triple loop ends, having issued the packed operands of exactly those lines in visiting order |
| CacheFlush.OperandIsSum | arch/arm/cache.S:49-50 | When the fields fit, packing by shift and "or" loses nothing |
| CacheFlush.OperandParts | arch/arm/cache.S:49-50 | Level, set and way can be read back from the packed operand |
| CacheFlush.OperandsDistinct | arch/arm/cache.S:49-50 | When the fields of the flushed caches fit, different lines have different operands |
| CacheFlush.OperandsCollide | arch/arm/cache.S:49-50 | When they do not fit, two lines of the cache share an operand: the condition is exact |
| CacheFlush.FieldsThatDoNotFit | arch/arm/cache.S:39-45 | Concretely: 1024 ways of 32768 sets with 2 KiB lines do not fit |
| CacheFlush.FlushIsExact | arch/arm/cache.S:20-65 | Together: one operation for each covered line, and all operations different if and only if the fields of every flushed cache fit |
| CacheMachine.FlushMachine | arch/arm/cache.S:20-65 | On every machine, given by its level of coherency and the type, ways, sets and line size of each level: one operation for each level, way and set that is there, and no other |
| CacheMachine.CoveredIsPresent | arch/arm/cache.S:23-46 | The lines that the registers of such a machine select are exactly its lines below the level of coherency |
| CacheMachine.CoherencyField | arch/arm/cache.S:23-24 | The level of coherency is read from bits 26:24, whatever the level of unification and the other fields are |
| CacheMachine.TypeFields | arch/arm/cache.S:29-31 | The type of each level is read from its own three bits |
| CacheMachine.SizeRegister | arch/arm/cache.S:39-45 | Line size, ways and sets are read from the size register, whatever its policy bits are |
| CacheMachine.OperandFields | arch/arm/cache.S:43-50 | When the sets fit, an operand is the sum of twice the level, the set times the line size, and the way in the topmost bits |
| CacheMachine.LogUpIsSmallest | arch/arm/cache.S:43 | The way takes the fewest bits that number all ways |
| CacheMachine.OperandsDifferIff | arch/arm/cache.S:49-50 | The operations of a machine are all different if and only if in each flushed cache the sets stay below the bits of the way |
| CacheMachine.TwoLevels | arch/arm/cache.S:22-31 | Concretely: CLIDR 0x0a200023 is a split first level and a unified second one, both below the level of coherency |
| Console.CellOfAscii | platform/x86_64/native/console.c:73 | A 7-bit character keeps its code under the attribute byte |
| Console.VgaConsole.constructor | platform/x86_64/native/console.c:23-29 | A cleared buffer shows the empty log |
| Console.VgaConsole.ConsoleClear | platform/x86_64/native/console.c:31-41 | Whatever was on the screen, clearing makes it show the empty log |
| Console.VgaConsole.NewLine | platform/x86_64/native/console.c:43-63 | Advancing, or scrolling in place on the last row, shows the log with one blank row more |
| Console.VgaConsole.ScrollUp | platform/x86_64/native/console.c:53-57 | The nested in-place copy moves every row up by one, without overwriting a row before it is copied |
| Console.VgaConsole.ConsolePutc | platform/x86_64/native/console.c:65-80 | After any sequence of characters the buffer is the last 25 rows of the unbounded log and the cursor its end |
| Console.LineFeed | platform/x86_64/native/console.c:67-68 | Byte 10 starts a new blank row with the cursor at its start |
| Console.CarriageReturn | platform/x86_64/native/console.c:69-70 | Byte 13 puts the cursor at the start of its row and changes no text |
| Console.TypedWord | platform/x86_64/native/console.c:71-75 | Printable characters that leave room in the row appear in it one cell after the other, light grey on black |
| Console.LastColumn | platform/x86_64/native/console.c:71-77 | The character that fills the row also starts a new blank one |
| Console.VgaConsole.CursorHasSlot | platform/x86_64/native/console.c:9-15 | In every reachable state the slot look-up for the cursor is not NULL |
| Console.ScrolledShows | platform/x86_64/native/console.c:53-61 | From 25 rows on, shifting up and blanking the last row is what one row more of the log looks like |
| Console.FinishedRowsStay | platform/x86_64/native/console.c:65-80 | A row the cursor has left is never changed by later output |
| ArmSections.RunIsUnion | arch/arm/mem.c:352-413 | From an empty table, a list of requests aborts if and only if two of them conflict, and otherwise leaves exactly the union of the aligned requests |
| ArmSections.OrderIndependent | arch/arm/mem.c:374-380 | Every permutation of the requests aborts, or every one ends in the same table |
| ArmSections.WriteOnce | arch/arm/mem.c:374-380 | An entry that is set never changes |
| ArmSections.UnionIsUnique | arch/arm/mem.c:352-413 | The requests determine the table |
| ArmSections.BuildDescriptor | arch/arm/mem.c:364-370 | The "or"s assemble the section descriptor, data or device, without one field running into another |
| ArmSections.DescriptorInFigures | arch/arm/mem.c:364-370 | As the hardware reads it: full access, domain 0, TEX 0; cacheable and bufferable for data, neither for devices |
| ArmSections.RequestMet | arch/arm/mem.c:352-413 | After a run of calls that did not abort, the start of each aligned request translates to the start of what was asked for |
| ArmSections.SectionTable.Zero | arch/arm/mem.c:167 | The zeroed table is the state of no calls |
| ArmSections.SectionTable.MapSection | arch/arm/mem.c:352-413 | A request is refused exactly when misaligned, aborts exactly when it conflicts with an earlier one, and otherwise extends the table's history |
| ArmSections.SectionTable.MapRegion | arch/arm/mem.c:44-71 | Maps each section of the inclusive range on itself; aborts exactly when one of them conflicts |
| ArmSections.RegionEndsIff | arch/arm/mem.c:51 | The wrapping 32-bit loop variable ever passes the end if and only if the end is not in the last section |
| ArmSections.RegionWithoutEnd | arch/arm/mem.c:51 | Concretely: a region up to the last byte of the address space is mapped for ever |
| ArmSections.SectionTable.MapRegionTurns | arch/arm/mem.c:44-71 | For every end, wrapping ones included: any number of turns makes the requests of those turns, and stops early only past the end or at a conflict |
| ArmSections.MapRegions | arch/arm/mem.c:179-184 | A list of regions aborts exactly when the requests of the whole list do |
| ArmSections.MemInit | arch/arm/mem.c:158-223 | Whatever the table held, initialisation aborts if and only if the vectors' page offsets differ or two requests conflict, and otherwise leaves the union of all of them |
| ArmSections.TranslationAfterInit | arch/arm/mem.c:158-223 | In figures, address by address: text, data and the two sections from where the vectors lie are mapped on themselves and cached, devices on themselves and uncached, the vectors' section on where the vectors lie; nothing else translates |
| SwiHandshake.InvHolds | benchmarks/exception/swi.c:12-30 | The invariant of the two parties holds in every reachable state of every interleaving |
| SwiHandshake.Handshake | benchmarks/exception/swi.c:18-30 | At each loop head the handler has run exactly i times with nothing pending; a waiting loop always has its interrupt pending, so no wake-up is lost |
| SwiHandshake.StepProgress | benchmarks/exception/swi.c:18-30 | Every step that changes anything gets strictly closer to the end; only a wait with the interrupt pending stands still |
| SwiHandshake.Terminates | benchmarks/exception/swi.c:12-24 | Every fair run leaves the loop, after exactly the given number of interrupts |

## Left out

- Transcript.HostRecoversTranscript: text that a benchmark's initialisation prints between its name and its count is not modelled; only debug builds print there.
- Harness.HarnessExecute: entering and leaving privileged mode and the clean-up hook are omitted; they print nothing.
- Harness.Spinner.Tick: the spinner is modelled with debug and benchmark output on one line, as the host sees them.
- Printf.Vsnprintf: sizes are not negative (for a negative size the program skips the loop and still writes one NUL); pad widths of 2^31 and more, where the width computation overflows an int, are not modelled, nor is the build that replaces division by a shift and returns at once for bases other than 16 (`util/printf.c:52-55`).
- Host.Input.ReadBenchmark: names of 128 characters and more, which overrun the host's buffers, are outside the meaning of the records; clock readings and the floating-point output are not modelled.
- X86Mem.Paging.CreatePageMapping: mappings below 1 GiB in the boot tables are excluded; `X86Boot.LowMappingIff` and `X86Boot.LowMappingGibIff` say what they do. Not stated: the case that frame 0 happens to hold the address of a boot table or of no memory.
- Armv8Mem.MapRegion: says what a finished loop has done, so it excludes ends in the last page, for which `RegionEndsIff` shows the loop never finishes; `MapRegionTurns` covers them turn by turn.
- ArmSections.SectionTable.MapRegion: likewise for ends in the last section.
- X86Skip.SkipsLandOnBoundaries: its boundaries are the ends of accepted byte strings, as the decoder reports them; `X86Skip.SkipsLandOnEncodings` and `X86Manual.SkipIff` are about boundaries that do not depend on it.
- FormatMeaning.OutputIffHandled: formats outside `Implemented` are not compared with the standard, because the program does not fetch the arguments the standard assigns to them.
- X86Manual.AcceptedIffPlain: SIB, RIP-relative and register-direct forms, which the decoder rejects, and the architecture's limit of 15 bytes are not described.
- X86Walk.SetBaseAddress: bits 63:52 of an entry, execute-disable among them, are ignored by the walk.
- X86Decode.Decoder.DecodeRmOperand: the size of a memory operand is not modelled, because the code never sets it.
- X86Skip.MemSkipHandler: the dump it prints before aborting, and the handlers for undefined instructions, system calls and returns, are left out.
- Console.VgaConsole.constructor: turning the hardware cursor off is left out. The emulator's console (`platform/x86_64/qemu/console.c`) is the same code.
- CacheFlush.FlushCacheKernel: barriers and the cache-size selection register are left out; the size register's value for each level is a parameter.
- ArmSections.MemInit: cache and translation-buffer probing, the domain register and the choice of the vectors' location by the control register are left out; that choice is a parameter; like `MapRegion` it excludes regions that end in the last section, on which it never finishes.
- Armv8Mem.SyscallMemInit: the system-register writes are left out; like `MapRegion` it excludes regions that end in the last page, on which it never finishes.
- SwiHandshake.Handshake: the interrupt controller is reduced to its pending bit, and the spinner is omitted.
- Armv8TxlnTable.TxlnTable.GetDescriptor: one method with a level parameter stands for the three functions, which differ in their shift and types only; their local copies of a descriptor are a variable here too.
- Translation look-aside buffers, caches as seen by the walk, and the inline assembly that activates tables: the walk reads memory directly.
- x86 device mappings, which always abort, and the accessors of the page size.
- Device drivers (UART, timers, interrupt controllers), linker scripts, start-up vectors, and the benchmark kernels other than the software interrupt.
- The boot stack, which shares the top of the x86 heap region.
