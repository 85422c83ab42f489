# Aurora OS: a verified model of its allocators, page tables, scheduler and messages

Aurora is a capability microkernel with a userland runtime, written in Rust. This project models in
Dafny the parts of it that carry the hardest invariants, and proves those invariants for every input,
every call sequence or every interleaving. `dafny verify dfyconfig.toml` checks all of it.

How the parts are modelled:

- **Buddy allocator** (`BuddyTree`, `BuddyAllocator`, `PmemManager`). The status bytes are an array that
  allocation and release rewrite in place. The specification is a set of live tree nodes; the bytes are a
  function of that set after every call. The manager cuts memory into pieces that qualify for an allocator,
  and asks its allocators in rotation.
- **Page tables** (`PageEntry`, `PageTree`, `PageTight`, `AddressSpace`, and `Processor` for what the processor
  makes of the tables, written from its manual alone). Entries are 64-bit words read with powers of
  two, in the 4-level paging format (section 4.5 of the Intel SDM, Volume 3A), with the entry count hidden
  in bits 52 to 62 of entry 0. The specification is a flat map from pages to leaf words, together with the
  exact ownership of every table frame. The physical memory is a map from frames to tables.
- **aser** (`AserBytes`, `Utf8`, `Aser`, `AserRoundTrip`, `AserMessage`, `AserValue`, `AserWire`,
  `AserGrammar`, `AserSerializer`, `AserDeserializer`). The serde data model is a datatype. The printer, the counter and the parser are
  classes that work step by step; `ToBytes`, `Caps`, `FromBytes` and `ToValue` are their specifications,
  and `AserWire` and `AserGrammar` say byte by byte, in numbers, what is printed and what is accepted.
- **Kernel heap** (`HeapZone`, `KernelHeap`). A zone is a class over its address-ordered free list; the
  allocator is a class over zone objects.
- **Scheduler** (`ThreadStatus`, `Scheduler`, `TimeoutQueue`). The status word, and a state machine whose
  steps are the atomic actions of `switch_current_thread_to`, `post_switch_handler`, wakes, resumes and
  destroys, freely interleaved between processors. The timeout queue is a heap sifted in place.
- **Hash map** (`ProbeTable`, `HashMap`), **reference counts** (`ArcCounts`, interleaved steps), **allocator
  quota** (`QuotaTree`, `CapAllocator`, and `HeapQuota` for heap blocks paid with it), **placement of mappings** (`Placement`), **capability spaces**
  (`CapIds`, `CapSpace`, and `CapRuns` for runs of any number of spaces interleaved at their locks).

Parameters stand for what the code asks of others: memory handed out by the page allocator, refused
allocations (`oom`, or the answers that `AllocFrame` is given), whether arithmetic is checked for overflow, the
hash function, the random draw, the clock, and
which kernel objects are still alive. Integers are unbounded; words, shifts that drop bits, casts to `u16`
and 64-bit limits are written out where the code depends on them.

## Where the code does not keep a promise

Each item names the exact condition and an input on which the promise fails.

- Agreement of the two aser serializers fails for a unit, tuple or struct variant with the index reserved for
  capabilities; `AserMessage.MessageRoundTrip` says exactly when it holds, and
  `AserMessage.ReservedUnitVariant` is a value that converts directly while its bytes are refused.
- The place of a capability in its table is written in 16 bits and nothing limits how many there are. Where
  arithmetic is checked, the 65536th panics (`AserSerializer.PrintMessage`, `AserSerializer.PrintCounted`).
  Where it is not, `AserMessage.MessageRoundTrip` says what is decoded for any number of them; in a list, the
  65537th capability is taken for the first (`AserMessage.PlacesWrap`).
- `from_bytes` multiplies the count of capabilities by eight in a word. For a count of 2^61 or more, and no
  other, that panics where arithmetic is checked (`AserDeserializer.ParseMessage`); where it is not, the count is
  read modulo 2^61 (`AserDeserializer.CountWraps`). `AserDeserializer.CountOverflows` has nine bytes.
- `clone_caps_to_cspace` adds one to the count. For a count of 2^64 - 1, and no other, that panics or replaces
  nothing and succeeds (`AserDeserializer.CloneCaps`); `AserDeserializer.AllOnes` has eight bytes.
- Releasing a heap block recomputes its length from the layout. `HeapZone.LengthExact` gives that length
  against the one handed out: too short, equal, or too long. It is right exactly when the block ends on a
  multiple of the larger of chunk and alignment (`HeapZone.LengthAgrees`), always so for alignments of at most
  a chunk (`KernelHeap.LinkedListAllocator.SmallAlignReleasable`).
  `KernelHeap.LinkedListAllocator.Dealloc` says that the heap stays valid exactly when it is not too long.
  `KernelHeap.ShortRelease` and `KernelHeap.LongRelease` make the calls: a block of 96 bytes released as 64, and
  one of 32 released as 64, which takes in the block after it.
- `heap_alloc` charges the length handed out and `heap_dealloc` refunds the recomputed one.
  `HeapQuota.HeapDealloc` says that the difference becomes quota that is counted as used though nobody answers
  for it, or is missing, and that there is none exactly when the block ends on that multiple.
- A wake can reach a thread after it gave up its state and before its processor finished the switch. The
  thread can then be queued while the processor's `current_thread` still names it, and `ThreadRef::new` can
  find it not suspended and panic: `Scheduler.WakeOvertakesSwitch` is such a run,
  `Scheduler.LetGoTaken` and `Scheduler.TimeoutRefMade` say over all runs when it happens. "On a processor" in
  `Scheduler.OnePlace` therefore ends when the thread's state is given up.
- If that thread has then suspended itself again, the reference for the timeout of its first wait is to the
  second. `Scheduler.TimeoutRefWhich` says over all runs which wait it is to, and when the panic comes instead;
  `Scheduler.TimeoutOfAnotherWait` is a run.
- Inserting a key that is present behind a tombstone puts it into a second cell, and removing it afterwards
  brings the old value back: `ProbeTable.PlacePresent`, `ProbeTable.RemovalResurfaces`.
  `HashMap.HashMap.Insert` states exactly when insertion is a map update. `HashMap.InsertTwice` makes the five
  calls that end with one key in two cells, for any three keys that start at the same of four cells.
- `clear` empties the cells of a hash map and keeps its count, so that the next insertion doubles no cells and
  divides by zero. `HashMap.HashMap.Insert` says that it does so exactly for a table without cells that counts
  some, `HashMap.ClearStrands` makes one.
- `unmap_page` is documented to return `None` for a page that is not mapped. It does so exactly when the
  page's leaf table is missing; otherwise the null entry fails its conversion to a physical address and the
  kernel panics (`AddressSpace.VirtAddrSpace.UnmapPage`). `AddressSpace.VirtAddrSpace.LeafTableShared` says
  when the leaf table exists: when a page of the same 2 MiB is mapped. `AddressSpace.UnmapFaults` maps page 0
  and unmaps page 1.
- `map_many` undoes a failed batch by unmapping. `AddressSpace.VirtAddrSpace.MapMany` says that this restores
  the translation exactly when none of the pages mapped so far was mapped before, and panics exactly when one
  of them comes twice; a batch of different unmapped pages always restores. `AddressSpace.LosesMapping` makes
  the calls that lose a mapping.
- A page allocation that is refused memory after the quota was granted leaves quota with the allocator it
  was moved to. `CapAllocator.AllocatorTree.PageAlloc` says that every quota is as before exactly when the
  allocator's own reserve sufficed; `CapAllocator.RefusalMoves` is a fresh tree in which it did not.
- The reserve of an allocator that dies is not given back: `QuotaTree.KillInv` shows that it is from then on
  counted as used by the live allocator above, for which nobody answers any more. In
  `CapAllocator.DeadReserve` a root counts a page as used although none was ever handed out.
- `cap_clone` does not implement Lock, MessageCapacity and RootOom and panics the kernel for ids of these
  types. `CapSpace.CapabilitySpace.Transfer` says that a message panics the kernel exactly when its capability
  table has such a number, whether or not the sender has a capability under it; 192 is the smallest
  (`CapSpace.LockUnsendable`).
- Two clones of one weak capability whose object is dead, both told to remove it, panic the kernel: the second
  unwraps a removal that finds nothing. `CapRuns.UnwrapFailsIff` says over all interleavings when this happens,
  `CapRuns.TwoClonesPanic` is such a run.
- `find_map_address` counts positions in pages rounded up, so a gap that is not a whole number of pages has a
  last position that runs past its end. `Placement.StaysInside` shows that this is the only way to leave a
  gap, and `Placement.RunsOver` makes the calls: a reservation of a page and a byte, and a page that then ends
  past the end of the address space.
- A reservation of start padding alone has no byte at its own address. The address found for the next mapping
  can then be taken already, and inserting it panics. `Placement.TakenByDraw` says exactly when, for any list and
  request, `Placement.SameAddress` and `Placement.ClashByDraw` say it for regions on page boundaries, and
  `Placement.BarePaddingClash` is such a list.

## Model

| member | source | states |
|---|---|---|
| BitUtils.Log2Spec | userland/bit_utils/src/lib.rs:102-116 | the logarithm brackets its argument between a power of two and its double |
| BitUtils.AlignUpSpec | userland/bit_utils/src/lib.rs:28-30 | rounding up gives the next multiple: not below, and less than one step above |
| BitUtils.AlignDownSpec | userland/bit_utils/src/lib.rs:34-36 | rounding down gives the multiple at or below, less than one step away |
| BitUtils.AlignOfSpec | userland/bit_utils/src/lib.rs:39-53 | the alignment of a positive number is the power of two of its trailing zeros and divides it |
| BuddyTree.StatusMeaning | kernel/src/alloc/pmem_manager/pmem_allocator.rs:10-71 | the byte of a node is 19 exactly if the node is live; otherwise bit 1 is set exactly if the left side holds a live node, bit 0 exactly if the right one does; no coalescing bit is set |
| BuddyTree.StatusMark | kernel/src/alloc/pmem_manager/pmem_allocator.rs:311-348 | setting one occupancy bit on the way up is the byte of the tree with one more live node |
| BuddyTree.StatusUnmark | kernel/src/alloc/pmem_manager/pmem_allocator.rs:477-538 | clearing a bit with an idle other side gives the byte without the released node |
| BuddyTree.LiveDisjoint | kernel/src/alloc/pmem_manager/pmem_allocator.rs:134-148 | two live nodes of an antichain have disjoint slots |
| BuddyTree.OverlapsIffSharesSlot | kernel/src/alloc/pmem_manager/pmem_allocator.rs:105-152 | a node is above or below a live node exactly when their address slots intersect |
| BuddyTree.UsedIsTotal | kernel/src/alloc/pmem_manager/pmem_allocator.rs:456-462 | the slots counted down the tree are the sum of the live nodes' sizes |
| BuddyAllocator.PmemAllocator.constructor | kernel/src/alloc/pmem_manager/pmem_allocator.rs:225-250 | a cleared tree over a qualifying range is valid with everything free |
| BuddyAllocator.PmemAllocator.TryFrom | kernel/src/alloc/pmem_manager/pmem_allocator.rs:225-250 | an allocator is made exactly when range and tree size qualify; otherwise the array is untouched |
| PmemManager.TreeSizeIff | kernel/src/alloc/pmem_manager/pmem_allocator.rs:195-205 | a range qualifies exactly if its size and the unit are powers of two, the unit no larger, and it starts at a multiple of its size; the tree then has one byte for every block of every level |
| BuddyAllocator.PmemAllocator.Safety | kernel/src/alloc/pmem_manager/pmem_allocator.rs:275-348 | in every valid state the bytes spell out the live nodes, their blocks are in range, aligned to their size and disjoint, and free space is the total minus their sizes |
| BuddyAllocator.PmemAllocator.NodeGeometry | kernel/src/alloc/pmem_manager/pmem_allocator.rs:134-152 | address and size of a node are its slots scaled by the unit, in range and aligned |
| BuddyAllocator.PmemAllocator.LevelForSize | kernel/src/alloc/pmem_manager/pmem_allocator.rs:253-259 | the level found has the smallest blocks that hold the size; none exactly when the size exceeds the range |
| BuddyAllocator.PmemAllocator.TryAlloc | kernel/src/alloc/pmem_manager/pmem_allocator.rs:311-348 | success means no overlap and every byte becomes that of the larger live set; failure restores the tree byte for byte and names a live ancestor or the occupied node |
| BuddyAllocator.SkipCovers | kernel/src/alloc/pmem_manager/pmem_allocator.rs:275-308 | the jump past a busy ancestor's subtree skips only nodes that overlap a live block |
| BuddyAllocator.PmemAllocator.Alloc | kernel/src/alloc/pmem_manager/pmem_allocator.rs:275-308 | the lowest free node of the size class is handed out, or none is free and nothing changed |
| BuddyAllocator.PmemAllocator.NodeRoundTrip | kernel/src/alloc/pmem_manager/pmem_allocator.rs:262-272 | the node recomputed from address and size is the node handed out, and both assertions of the recomputation hold |
| BuddyAllocator.PmemAllocator.MarkCoalescing | kernel/src/alloc/pmem_manager/pmem_allocator.rs:477-505 | the first climb sets the coalescing bits up to the first ancestor whose other side is in use |
| BuddyAllocator.PmemAllocator.ClearOccupancy | kernel/src/alloc/pmem_manager/pmem_allocator.rs:507-538 | the second climb leaves exactly the bytes of the smaller live set |
| BuddyAllocator.PmemAllocator.DeallocNode | kernel/src/alloc/pmem_manager/pmem_allocator.rs:477-538 | on the released path every byte becomes that of the live set without the node; elsewhere nothing changes |
| BuddyAllocator.PmemAllocator.Dealloc | kernel/src/alloc/pmem_manager/pmem_allocator.rs:456-462 | releasing a live block removes just that node and adds its size to the free space |
| PmemManager.PieceSpec | kernel/src/alloc/pmem_manager/mod.rs:40-52 | the next piece of a page-aligned range is nonempty, inside it, page-aligned and accepted by an allocator |
| PmemManager.PieceLargest | kernel/src/alloc/pmem_manager/mod.rs:40-52 | no power of two that divides the start and fits is larger than the piece |
| PmemManager.SizeAlignedIter.Next | kernel/src/alloc/pmem_manager/mod.rs:40-52 | a piece starts where the last ended, qualifies and is the largest that fits, and the iterator ends exactly at the end |
| PmemManager.SizeAlignedIter.Pieces | kernel/src/alloc/pmem_manager/mod.rs:28-52 | the pieces tile the range exactly, each fit for an allocator |
| PmemManager.ChargedSizeSpec | kernel/src/alloc/pmem_manager/mod.rs:198-200 | the size charged is at least the request and less than twice it, except that one byte is charged as two and none as one |
| PmemManager.ChargedIsHandedOut | kernel/src/alloc/cap_allocator.rs:177-197 | for whole pages that fit, the size charged is the size of the block handed out |
| PmemManager.AlignmentMet | kernel/src/alloc/pmem_manager/mod.rs:244-248 | an alignment up to that of the size is met by the block's own alignment |
| PmemManager.PmemManager.AllocFrom | kernel/src/alloc/pmem_manager/mod.rs:255-258 | one allocator hands out a block of the charged size, aligned, or is full and unchanged |
| PmemManager.PmemManager.Alloc | kernel/src/alloc/pmem_manager/mod.rs:244-262 | one allocator gains one live block of the charged size, aligned as asked; failure only if every allocator there is, if any, is full |
| PmemManager.PmemManager.FindAllocator | kernel/src/alloc/pmem_manager/mod.rs:203-218 | the search by start address finds the allocator whose range has the address |
| PmemManager.PmemManager.Dealloc | kernel/src/alloc/pmem_manager/mod.rs:264-269 | with or without the kept index the block goes back to its own allocator |
| PageEntry.WithCountSpec | kernel/src/vmem_manager/page_table.rs:159-168 | writing the count into bits 52 to 62 keeps every other bit, and is read back |
| PageEntry.SetCountSpec | kernel/src/vmem_manager/page_table.rs:164-168 | setting the count changes no entry, not even entry 0 |
| PageEntry.AddEntrySpec | kernel/src/vmem_manager/page_table.rs:225-236 | adding an entry at any index, 0 included, changes only that entry and keeps the count equal to the present entries |
| PageEntry.RemoveEntrySpec | kernel/src/vmem_manager/page_table.rs:273-278 | removing an entry at any index, 0 included, clears only it and keeps the count right |
| PageEntry.EmptyTable | kernel/src/vmem_manager/page_table.rs:159-162 | the count is zero exactly when no entry is present |
| PageEntry.ZeroTableSpec | kernel/src/vmem_manager/page_table.rs:137-156 | a zeroed table has no entries and a right count |
| AddressSpace.AddEntryInPlace | kernel/src/vmem_manager/page_table.rs:225-236 | the in-place update of the 512 words is the table function whose effect is proved |
| AddressSpace.RemoveInPlace | kernel/src/vmem_manager/page_table.rs:273-278 | the in-place removal is the table function whose effect is proved |
| AddressSpace.PageOfSpec | kernel/src/vmem_manager/mod.rs:266-271 | the four indices of a user page identify it |
| AddressSpace.UserPageIff | kernel/src/vmem_manager/mod.rs:242-252 | of the canonical page addresses the user's are those whose top index is not the kernel's 511 |
| AddressSpace.IndicesAre | kernel/src/vmem_manager/mod.rs:266-271 | the tables on the way to a page are indexed by bits 39 to 47, 30 to 38, 21 to 29 and 12 to 20 of its address |
| AddressSpace.PageWordSpec | kernel/src/vmem_manager/mod.rs:256-263 | the leaf word is present, has the frame's address and no bits in the count field |
| AddressSpace.PageWordAccess | kernel/src/vmem_manager/mod.rs:256-263 | what the processor makes of the leaf word: the frame, writable, usable by user code and executable exactly as asked, write-through for two of the cache settings, cache-disabled for two, no PAT bit |
| Processor.WordOf | kernel/src/vmem_manager/page_table.rs:18-34 | in a sum of a frame, flags below bit 12 and perhaps bit 63, the processor finds that frame and exactly those bits |
| Processor.CountIgnored | kernel/src/vmem_manager/page_table.rs:159-168 | what the processor reads of an entry does not depend on the count hidden in it |
| PageTree.WalkFindsLeaf | kernel/src/vmem_manager/mod.rs:273-290 | walking four tables from the root gives the leaf of the abstract tree |
| PageTree.TranslateFindsLeaf | kernel/src/vmem_manager/mod.rs:273-290 | the processor, which also takes rights away at every level, finds the leaf of the abstract tree with the rights of its word alone |
| PageTree.GrowSpec | kernel/src/vmem_manager/page_table.rs:248-266 | hanging a fresh table into an empty slot keeps the tree consistent and every translation |
| PageTree.MapSpec | kernel/src/vmem_manager/mod.rs:277-290 | writing a leaf entry keeps the tree consistent and changes only that page |
| PageTree.UnmapSpec | kernel/src/vmem_manager/mod.rs:330-343 | clearing a leaf entry keeps the tree consistent and unmaps only that page |
| PageTree.ShrinkSpec | kernel/src/vmem_manager/mod.rs:343-351 | cutting off a table that became empty keeps the tree consistent and every translation |
| PageTree.FreeGood | kernel/src/vmem_manager/mod.rs:353-362 | returning a cut-off frame keeps taken frames equal to reachable and cut-off ones |
| AddressSpace.VirtAddrSpace.constructor | kernel/src/vmem_manager/mod.rs:99-111 | a new space maps nothing below the kernel and owns exactly its root frame |
| AddressSpace.VirtAddrSpace.TranslationIsFlat | kernel/src/vmem_manager/mod.rs:242-296 | in every valid state the hardware walk of a page gives its entry in the flat map |
| AddressSpace.VirtAddrSpace.GetOrAlloc | kernel/src/vmem_manager/page_table.rs:248-266 | the table below a slot, made if missing; when memory is refused nothing changed |
| AddressSpace.VirtAddrSpace.Descend | kernel/src/vmem_manager/mod.rs:273-290 | the leaf table of a page, made if missing, translations unchanged even when memory runs out midway |
| AddressSpace.VirtAddrSpace.MapPage | kernel/src/vmem_manager/mod.rs:242-296 | the processor then translates the page to the given frame, with write, user, execute and cache bits exactly as asked, and every other page as before; it fails for memory exactly when a frame was refused, which needs a missing leaf table and happens to no allocator that has three frames and refuses none; it changes no translation then and loses no frame; without a refusal no empty table is left |
| AddressSpace.VirtAddrSpace.FindTables | kernel/src/vmem_manager/mod.rs:307-324 | the tables on the way to a page, or none if the leaf table is missing |
| AddressSpace.VirtAddrSpace.Unhook | kernel/src/vmem_manager/mod.rs:326-351 | the page's entry and the entries of all tables that became empty are cleared; the cut tables are the only loose frames |
| AddressSpace.VirtAddrSpace.FreeCut | kernel/src/vmem_manager/mod.rs:353-362 | each cut table is returned exactly once |
| AddressSpace.VirtAddrSpace.UnmapPage | kernel/src/vmem_manager/mod.rs:301-365 | a mapped page gives its frame; a missing leaf table gives none; any other page faults with nothing changed. The processor then finds nothing at the page and every other page as before, taken frames stay exactly the reachable ones, and no empty table is left where there was none |
| AddressSpace.VirtAddrSpace.LeafTableShared | kernel/src/vmem_manager/mod.rs:301-324 | while no table is empty, a leaf table exists exactly if one of its pages is mapped |
| AddressSpace.UnmapFaults | kernel/src/vmem_manager/mod.rs:301-365 | a space in which exactly page 0 is mapped, and unmapping page 1 faults |
| AddressSpace.VirtAddrSpace.MapMany | kernel/src/vmem_manager/mod.rs:379-398 | success maps the whole batch; a failure panics exactly if a page mapped so far comes twice, and otherwise restores the translation exactly if none of those pages was mapped before; a batch of different unmapped pages always restores |
| AddressSpace.VirtAddrSpace.Rollback | kernel/src/vmem_manager/mod.rs:387-393 | unmapping the first pages of the batch removes exactly them, and fails exactly if one of them comes twice |
| AddressSpace.LosesMapping | kernel/src/vmem_manager/mod.rs:379-398 | a space in which exactly page 0 is mapped, and a batch after whose refusal nothing is |
| PageTight.GrownEmpty | kernel/src/vmem_manager/page_table.rs:248-266 | a fresh table is the only one that may be empty, if the one above it was |
| PageTight.CutEmpty | kernel/src/vmem_manager/mod.rs:343-351 | cutting off the only empty table can empty only the one above it |
| PageTight.EveryTableNeeded | kernel/src/vmem_manager/mod.rs:301-365 | in a space without empty tables every table is on the way to a mapped page |
| PageTight.EveryTableThere | kernel/src/vmem_manager/mod.rs:242-296 | every table on the way to a mapped page is there |
| AddressSpace.VirtAddrSpace.DeallocRecurse | kernel/src/vmem_manager/page_table.rs:194-213 | every frame of the subtree is returned, once, and no other |
| AddressSpace.VirtAddrSpace.DeallocChildren | kernel/src/vmem_manager/page_table.rs:194-213 | the loop over the slots returns each child's subtree once and skips the shared last entry of the root |
| AddressSpace.VirtAddrSpace.DeallocAddrSpace | kernel/src/vmem_manager/mod.rs:222-227 | all frames taken go back to the pool and none is left |
| PageTree.WholeTree | kernel/src/vmem_manager/page_table.rs:189-213 | the frames below the root are all the frames taken |
| AserBytes.LeRoundTrip | userland/aser/src/lib.rs:177-197 | a number that fits is read back from its little-endian bytes |
| AserBytes.LeWraps | userland/aser/src/ser.rs:306-323 | writing too few bytes drops the high part of the number |
| AserBytes.BitsRoundTrip | userland/aser/src/ser.rs:132-201 | signed and unsigned integers of every width survive the cast to bits and back |
| AserSerializer.Serializer.constructor | userland/aser/src/ser.rs:36-50 | an empty table with the given room of filler |
| AserSerializer.Serializer.PushCapability | userland/aser/src/ser.rs:72-85 | appends the id to the table in place and counts it, or reports that the room is used up |
| AserSerializer.Serializer.CollectStr | userland/aser/src/ser.rs:383-404 | the length written as zero and patched afterwards is the text's length |
| AserSerializer.Serializer.SerializeCap | userland/aser/src/ser.rs:300-323 | a capability is written as its place in the table, in 16 bits; its id goes into the table; where arithmetic is checked the 65536th, and no other before it, panics |
| AserSerializer.Serializer.Serialize | userland/aser/src/ser.rs:106-404 | succeeds exactly when every reserved newtype holds an id, the table has room and, where arithmetic is checked, the places fit, and then writes the specified bytes; when full it is an error or a panic, whichever comes first |
| AserSerializer.PrintMessage | userland/aser/src/ser.rs:10-20 | the printed message is the one the format prescribes in numbers, and printing fails exactly when capabilities are malformed or too many for the room or, where arithmetic is checked, for their places |
| AserSerializer.CapabilityCounter.Serialize | userland/aser/src/capability_counter.rs:29-219 | the count is exactly the number of ids the printer pushes |
| AserSerializer.PrintCounted | userland/aser/src/ser.rs:22-25 | with counted room the table never runs out; where arithmetic is checked it panics exactly from 65536 capabilities on; what it prints is the message the format prescribes |
| Utf8.AcceptedIff | userland/aser/src/de.rs:86-90 | the byte strings accepted as text are exactly the UTF-8 encodings of sequences of Unicode scalar values |
| Utf8.CharIff | userland/aser/src/de.rs:130-135 | the numbers accepted as a char are exactly those whose own encoding is accepted |
| AserWire.PrintedWire | userland/aser/src/ser.rs:106-404 | the bytes printed for any tree are the ones the format prescribes, in numbers: type bytes 0 to 32, little-endian widths, shortest lengths, places of capabilities in order |
| AserWire.MessageWire | userland/aser/src/ser.rs:10-50 | a message is eight bytes of count, the ids, filler 255 and the tree |
| AserWire.WireIsPrinted | userland/aser/src/lib.rs:112-162 | no other bytes are prescribed for the tree |
| AserWire.MessageIs | userland/aser/src/lib.rs:112-162 | and no other bytes for the message |
| AserWire.WireParsed | userland/aser/src/de.rs:6-40 | every message of the format, in numbers, is parsed to the value of its tree |
| AserGrammar.Accepted | userland/aser/src/de.rs:100-313 | every form, with filler before any value, lengths of any width and capabilities by place or by id, is parsed to its meaning, whatever follows |
| AserGrammar.OnlyForms | userland/aser/src/de.rs:100-313 | whatever the parser reads is the bytes of a form, and the value read is its meaning |
| AserGrammar.ParsesIff | userland/aser/src/de.rs:6-40 | for all bytes and values: parsing gives the value exactly if the bytes are a count, that many ids as far as a word can hold their length, and a form with that meaning |
| AserGrammar.ShortestParse | userland/aser/src/de.rs:100-112 | eight zero bytes and 0, 1 or 2 are null, true and false |
| AserDeserializer.Deserializer.DeserializeAny | userland/aser/src/de.rs:100-201 | the parser takes the specified value off the input and leaves the specified rest |
| AserDeserializer.Deserializer.VisitSeq | userland/aser/src/value/mod.rs:264-274 | elements are read up to the end tag, each by the specified parse |
| AserDeserializer.Deserializer.VisitMap | userland/aser/src/value/mod.rs:276-286 | entries are read up to the end tag, later keys replacing earlier ones |
| AserDeserializer.Deserializer.VisitEnum | userland/aser/src/value/mod.rs:308-322 | a variant with or without a value; the reserved index is a capability |
| AserDeserializer.ParseMessage | userland/aser/src/de.rs:6-40 | a panic exactly if arithmetic is checked and the length of the table overflows; otherwise the specified value or error |
| AserDeserializer.CountWraps | userland/aser/src/de.rs:23-40 | the length overflows exactly from a count of 2^61 on, and unchecked the count is read modulo 2^61 |
| AserDeserializer.CountOverflows | userland/aser/src/de.rs:23-40 | nine bytes that overflow and, unchecked, parse to null |
| AserRoundTrip.RoundTrip | userland/aser/src/de.rs:100-201 | the parser applied to the bytes of any tree, followed by anything, gives the converted value and that rest |
| AserRoundTrip.ListRoundTrip | userland/aser/src/de.rs:216-313 | the same for the children of a sequence or map up to the end tag |
| AserMessage.MessageRoundTrip | userland/aser/src/value/value_serializer.rs:24-384 | for every tree and every sufficient room, printing and parsing gives the value of the tree in which each capability is the one its 16-bit place names; with at most 65536 of them that is direct conversion, which fails exactly when that fails or a reserved variant index is misused |
| AserMessage.ReservedUnitVariant | userland/aser/src/value/value_serializer.rs:24-384 | a unit variant with the reserved index converts directly, and its bytes are refused |
| AserMessage.PlacesWrap | userland/aser/src/ser.rs:306-323 | a list of capabilities of any length parses to those its places name, the 65537th to the first |
| AserMessage.SubstSpec | userland/aser/src/lib.rs:203-225 | replacing the capabilities of a tree in order leaves its bytes outside the table unchanged |
| AserMessage.RelocationCommutes | userland/aser/src/lib.rs:203-225 | rewriting the table and parsing gives the value of the tree with its i-th capability replaced, for any number of them as their places name them |
| AserDeserializer.CloneCaps | userland/aser/src/lib.rs:203-225 | each id is replaced in place by its clone; failure exactly when an id cannot be read, is invalid or cannot be cloned; for the largest count, and no other, a panic or success with nothing replaced |
| AserDeserializer.AllOnes | userland/aser/src/lib.rs:203-225 | eight bytes with the largest count |
| AserDeserializer.CloningTable | userland/aser/src/lib.rs:203-225 | a table so rewritten is the table of the cloned ids, everything after it unchanged |
| AserDeserializer.CloningRelocates | userland/aser/src/lib.rs:203-225 | cloning a printed message in place and parsing it gives the tree's value with each capability replaced by its clone |
| AserValue.ValueSurvives | userland/aser/src/value/mod.rs:126-172 | a `Value` that serializes itself is converted back to itself |
| AserValue.ValueRoundTrip | userland/aser/src/value/mod.rs:126-172 | a `Value` printed and parsed is the same `Value`, whatever order its map entries are visited in |
| HeapZone.ResizeSpec | kernel/src/alloc/linked_list_allocator.rs:39-59 | a block comes off the end of a node aligned, long enough, in whole chunks, and nothing smaller than a chunk is left |
| HeapZone.LengthExact | kernel/src/alloc/linked_list_allocator.rs:328-336 | the recomputed length against the one handed out: short by the rest of the end if the block has that many bytes to spare, otherwise up to the next multiple past the end |
| HeapZone.LengthAgrees | kernel/src/alloc/linked_list_allocator.rs:328-336 | the recomputed length is the one handed out exactly when the end is aligned |
| HeapZone.CutTiles | kernel/src/alloc/linked_list_allocator.rs:133-177 | taking a block keeps live and free blocks tiling the zone |
| HeapZone.ReleasedOrdered | kernel/src/alloc/linked_list_allocator.rs:180-205 | merging on both sides keeps the list sorted, apart and fully coalesced |
| HeapZone.ReleasedTiles | kernel/src/alloc/linked_list_allocator.rs:180-205 | after a release live and free blocks still tile the zone |
| HeapZone.ReleasedSum | kernel/src/alloc/linked_list_allocator.rs:180-205 | a release adds exactly the block's size to the free list |
| HeapZone.SplitTiles | kernel/src/alloc/linked_list_allocator.rs:180-205 | a block of which only the front is released leaves a tiling in which the rest is still taken |
| HeapZone.LongBreaks | kernel/src/alloc/linked_list_allocator.rs:180-205 | releasing more than a block never leaves a valid zone |
| KernelHeap.Zone.constructor | kernel/src/alloc/linked_list_allocator.rs:99-119 | a new zone has one free node after its header |
| KernelHeap.Zone.Alloc | kernel/src/alloc/linked_list_allocator.rs:133-177 | a block off the first node that can give one, aligned and long enough; none exactly when no node can |
| KernelHeap.Zone.FindGap | kernel/src/alloc/linked_list_allocator.rs:208-224 | the place between the nodes below and above an address |
| KernelHeap.Zone.Merge | kernel/src/alloc/linked_list_allocator.rs:184-202 | joining or inserting, then joining the next node, is the specified list |
| KernelHeap.Zone.Dealloc | kernel/src/alloc/linked_list_allocator.rs:180-205 | the bytes become free and the list is the specified one; everything else stays live; the zone stays valid exactly if the bytes are a live block |
| KernelHeap.FreshZoneFits | kernel/src/alloc/linked_list_allocator.rs:272-283 | a zone made for a request has room for it, for every power-of-two alignment |
| KernelHeap.OnlyOwnZoneContains | kernel/src/alloc/linked_list_allocator.rs:129-131 | although its bound reaches one chunk too far, no other zone claims an address |
| KernelHeap.LinkedListAllocator.Alloc | kernel/src/alloc/linked_list_allocator.rs:260-283 | a new aligned block overlapping nothing; failure only if new memory was refused; a zone is added only if no zone had room |
| KernelHeap.LinkedListAllocator.LiveApart | kernel/src/alloc/linked_list_allocator.rs:260-283 | no two live blocks share a byte, within a zone or across zones |
| KernelHeap.LinkedListAllocator.FindZone | kernel/src/alloc/linked_list_allocator.rs:293-302 | the zone that claims the bytes, if any, is the one the block came from |
| KernelHeap.LinkedListAllocator.SmallAlignReleasable | kernel/src/alloc/linked_list_allocator.rs:328-336 | with alignment up to a chunk the recomputed length is always right |
| KernelHeap.LinkedListAllocator.Dealloc | kernel/src/alloc/linked_list_allocator.rs:286-303 | from address and layout alone the recomputed bytes of exactly that block are released, or a panic exactly if they end more than a chunk past the zone; what the recomputation leaves out stays taken; the heap stays valid exactly if they are not more than the block |
| KernelHeap.ShortRelease | kernel/src/alloc/linked_list_allocator.rs:260-336 | calls on a fresh zone that leave two live blocks, the second of 96 bytes and recomputed as 64 |
| KernelHeap.LongRelease | kernel/src/alloc/linked_list_allocator.rs:260-336 | calls on a fresh zone that leave two live blocks, the second of 32 bytes and recomputed as 64, overlapping the first |
| ThreadStatus.SetStateSpec | kernel/src/sched/thread.rs:128-136 | setting a state gives that state in the next generation |
| ThreadStatus.TryWakeSpec | kernel/src/sched/thread.rs:278-301 | one attempt waits before the reference's generation, fails after it, and in it wakes exactly a suspended thread |
| Scheduler.ThreadMap.GetNextThread | kernel/src/sched/thread_map.rs:26-41 | dead threads are dropped up to the first live one, which is returned, with exactly the rest left; the steps of the state machine leave the same queue |
| Scheduler.BootInv | kernel/src/sched/mod.rs:225-255 | after boot every processor holds its own idle thread and nothing else is placed |
| Scheduler.OriginSpec | kernel/src/sched/mod.rs:143-189 | a thread is after a step only where it came from another place or newly arrived: nothing appears |
| Scheduler.OriginInjective | kernel/src/sched/mod.rs:143-189 | and never copies one |
| Scheduler.KeptUnlessLeaves | kernel/src/sched/mod.rs:100-189 | a thread that is somewhere is somewhere after the step, except exactly: one that is switched away from without being ready, one whose waker gives up, and a dead one dropped from the queue |
| Scheduler.NowhereIfSuspended | kernel/src/sched/thread.rs:175-220 | a suspended or dead thread is at no place |
| Scheduler.StatusAfter | kernel/src/sched/thread.rs:128-187 | a step writes at most one status word and moves it to the next generation |
| Scheduler.StepInv | kernel/src/sched/mod.rs:100-189 | every step of every processor keeps each thread at one place at most, in the state that place demands, and every reference to a suspended status |
| Scheduler.OnePlace | kernel/src/sched/mod.rs:143-189 | in every run a thread is at most at one of: on a processor, incoming, outgoing, one queue slot, one pending insertion |
| Scheduler.NoneLost | kernel/src/sched/mod.rs:100-189 | in every run every thread that is running, or is alive and ready and was not given up by its waker, is at exactly one place |
| Scheduler.QueueOrder | kernel/src/sched/thread_map.rs:26-46 | a step takes only from the front of the queue and adds only at its end |
| Scheduler.NoneStuck | kernel/src/sched/mod.rs:100-189 | a processor that runs a thread can take up exactly the first queued thread that is alive, or finds none exactly if there is none; one that is switching can always go on, but for the timeout of a thread that is not suspended any more |
| Scheduler.ThreadsReachable | kernel/src/sched/thread.rs:175-316 | resume and destroy succeed exactly on suspended threads, a wake exactly on the status its reference names; a woken thread can be queued and any thread killed |
| Scheduler.AliveBefore | kernel/src/sched/thread.rs:142-148 | threads stay, and a thread is alive from its creation until it is killed |
| Scheduler.QueuedIsReady | kernel/src/sched/thread_map.rs:26-46 | in every run every queued thread is Ready |
| Scheduler.GenerationsGrow | kernel/src/sched/thread.rs:128-187 | generations never go back and a changed status never returns |
| Scheduler.WokenOnce | kernel/src/sched/thread.rs:278-316 | of all wakes through copies of one reference at most one succeeds |
| Scheduler.WakeConsumes | kernel/src/sched/thread.rs:278-301 | after a successful wake the reference fails forever |
| Scheduler.StaleForever | kernel/src/sched/thread.rs:278-301 | a stale reference stays stale |
| Scheduler.OnlyEndedBy | kernel/src/sched/thread.rs:196-220 | a suspension is ended only by a wake, a resume or a destroy |
| Scheduler.FutureRefWaits | kernel/src/sched/thread.rs:267-301 | a reference to a coming suspension waits exactly as long as the thread makes no transition |
| Scheduler.WakeNotLost | kernel/src/sched/thread.rs:267-301 | if the next transition suspends the thread, the reference wakes it unless it already has or someone resumed or destroyed it |
| Scheduler.TimeoutRefMade | kernel/src/sched/mod.rs:112-123 | the status the thread gave itself is still there exactly if nobody ended the suspension, and then the timeout reference is to that suspension |
| Scheduler.TimeoutRefWhich | kernel/src/sched/mod.rs:112-123 | in every run, the reference for the timeout of a wait is to the wait the thread began last, that one or a later one, and cannot be made exactly if that one was ended |
| Scheduler.LetGoTaken | kernel/src/sched/mod.rs:153-172 | in every run, a thread whose state was given up to suspend it or let it die comes to be somewhere again exactly by a wake or resume, and until the switch ends its processor still names it |
| Scheduler.WakeOvertakesSwitch | kernel/src/sched/mod.rs:100-189 | a run in which that happens and the assertion fails |
| Scheduler.TimeoutOfAnotherWait | kernel/src/sched/mod.rs:112-123 | a run in which it is to a later wait |
| TimeoutQueue.TopIsEarliest | kernel/src/container/binary_heap.rs:102-104 | the first element has the earliest timeout |
| TimeoutQueue.SwapUp | kernel/src/container/binary_heap.rs:69-76 | a swap with the parent repairs the order there |
| TimeoutQueue.SwapDown | kernel/src/container/binary_heap.rs:90-97 | a swap with the largest child repairs the order there |
| TimeoutQueue.LargestChild | kernel/src/container/binary_heap.rs:49-62 | a child not smaller than any child; none exactly at a leaf |
| TimeoutQueue.BinaryHeap.Push | kernel/src/container/binary_heap.rs:64-79 | heap order kept, one element more |
| TimeoutQueue.BinaryHeap.Pop | kernel/src/container/binary_heap.rs:81-100 | the first element taken out, heap order and the other elements kept |
| TimeoutQueue.TimeoutQueue.InsertThread | kernel/src/sched/timeout_queue.rs:60-65 | the entry is added, heap order kept |
| TimeoutQueue.TimeoutQueue.WakeThreads | kernel/src/sched/timeout_queue.rs:47-58 | exactly the entries due are taken out, earliest first, the rest kept in heap order |
| ProbeTable.PlaceAbsent | kernel/src/container/hash_map.rs:99-107 | filling the first free cell of an absent key's path is the map update, and every key stays reachable |
| ProbeTable.ReplaceValue | kernel/src/container/hash_map.rs:108-115 | writing over the key's cell is the map update |
| ProbeTable.RemoveKey | kernel/src/container/hash_map.rs:146-153 | a tombstone removes just that key and keeps the others reachable |
| ProbeTable.PlacePresent | kernel/src/container/hash_map.rs:99-107 | a free cell before a present key makes a duplicate |
| ProbeTable.RemovalResurfaces | kernel/src/container/hash_map.rs:99-153 | that cell is a tombstone, and removing the key brings the old table back |
| HashMap.HashMap.WithCapacity | kernel/src/container/hash_map.rs:39-50 | a table of empty cells stands for the empty map |
| HashMap.HashMap.RoomBelowLimit | kernel/src/container/hash_map.rs:73-89 | a table on which no rehash is due has an empty cell, so a table of tombstones and entries alone is rehashed first |
| HashMap.HashMap.Clear | kernel/src/container/hash_map.rs:60-62 | the map becomes empty, and the count stays |
| HashMap.HashMap.GetIndexOfKey | kernel/src/container/hash_map.rs:122-144 | the probe finds the key's cell exactly when the key is in the map |
| HashMap.HashMap.Get | kernel/src/container/hash_map.rs:155-161 | lookup in the map |
| HashMap.HashMap.Remove | kernel/src/container/hash_map.rs:146-153 | the map without the key, and its old value; a tombstone in its cell and nothing else changed |
| HashMap.HashMap.FindCell | kernel/src/container/hash_map.rs:99-119 | the first cell of the path that is free or has the key; the probe ends because a cell is free |
| HashMap.HashMap.Insert | kernel/src/container/hash_map.rs:99-119 | the map update and the old value if the key is absent, a rehash is due or no tombstone precedes the key; otherwise a duplicate; a panic exactly for a cleared table that counts cells; without a rehash a new key is in the first free cell of its path |
| HashMap.HashMap.TryRehash | kernel/src/container/hash_map.rs:73-89 | the map is unchanged, the size doubles exactly past the load limit, a free cell exists unless the table was cleared, and after a rehash no tombstone is left |
| HashMap.HashMap.Rehash | kernel/src/container/hash_map.rs:75-81 | moving every entry into twice the cells keeps the map |
| HashMap.InsertTwice | kernel/src/container/hash_map.rs:39-153 | five calls on a table of four cells, none of which rehashes, end with one key in two cells |
| HashMap.ClearStrands | kernel/src/container/hash_map.rs:60-89 | two calls that lead to a table in which every insertion panics |
| ArcCounts.StepInv | kernel/src/container/arc.rs:64-257 | every step keeps the counts equal to the handles that exist |
| ArcCounts.StepHandles | kernel/src/container/arc.rs:64-257 | handles exist exactly from being made, by a clone, a downgrade or an upgrade, to being dropped |
| ArcCounts.StepPhases | kernel/src/container/arc.rs:142-257 | the drop of the last Arc drops the data and then the weak reference of the Arcs; that of the last weak reference, and no other, frees the block |
| ArcCounts.HandlesUsable | kernel/src/container/arc.rs:128-257 | every handle can be dropped, downgraded and upgraded, and cloned exactly below two to the 63, and whatever is under way can go on, but for an upgrade that saw a count past that |
| ArcCounts.StrongBounded | kernel/src/container/arc.rs:128-139 | in every run the strong count stays at or below two to the 63 |
| ArcCounts.DataAlive | kernel/src/container/arc.rs:128-159 | while an Arc exists the data has not been dropped |
| ArcCounts.BlockAlive | kernel/src/container/arc.rs:197-257 | while a handle or an unfinished drop exists the block has not been freed |
| ArcCounts.DropAndFreeOnce | kernel/src/container/arc.rs:142-159 | at most one drop, with no Arc left; at most one free, after it and with no Weak left |
| ArcCounts.NothingLeaks | kernel/src/container/arc.rs:142-257 | with all handles gone and nothing under way both have happened |
| ArcCounts.FreedIsFinal | kernel/src/container/arc.rs:239-257 | no operation touches a freed block |
| ArcCounts.ZeroIsFinal | kernel/src/container/arc.rs:197-221 | once the strong count was zero no upgrade succeeds |
| ArcCounts.UpgradeOutcome | kernel/src/container/arc.rs:197-221 | in every run an upgrade goes on exactly if the count it saw was not zero and has changed or the exchange failed for no reason; otherwise it ends, with an Arc exactly if the count is not zero |
| ArcCounts.Finishes | kernel/src/container/arc.rs:142-257 | once all handles are gone, the block is freed or a step is left, and every step brings the end nearer |
| QuotaTree.SkipHomes | kernel/src/alloc/cap_allocator.rs:24-40 | cutting a dead parent out of a path changes nobody's nearest live allocator |
| QuotaTree.OneChange | kernel/src/alloc/cap_allocator.rs:48-104 | if one node's demand changes and every used size follows it, the invariant and every live node's slack stay: no quota is lost or made |
| QuotaTree.MoveInv | kernel/src/alloc/cap_allocator.rs:63-78 | moving reserve from the nearest live parent keeps the invariant and every slack |
| QuotaTree.ChargeInv | kernel/src/alloc/cap_allocator.rs:82-94 | charging bytes keeps the invariant and every slack |
| QuotaTree.RefundInv | kernel/src/alloc/cap_allocator.rs:97-104 | bytes released are covered by the used size, and refunding them keeps the invariant and every slack |
| QuotaTree.RefundOther | kernel/src/alloc/cap_allocator.rs:97-104 | refunding another amount than was charged moves the difference into the slack of the allocator that answers, and keeps the invariant exactly if that does not become negative |
| QuotaTree.KillInv | kernel/src/alloc/cap_allocator.rs:127-129 | an allocator may die at any time: the used size above it covers what it must now answer for, and its reserve becomes slack there and nowhere else |
| QuotaTree.FreshInv | kernel/src/alloc/cap_allocator.rs:114-124 | a tree in which nothing is handed out satisfies the invariant |
| CapAllocator.AfterSame | kernel/src/alloc/cap_allocator.rs:48-79 | the quotas after preallocating depend only on quotas and nearest live allocators, not on how links were shortened |
| CapAllocator.AllocOutcomeSpec | kernel/src/alloc/cap_allocator.rs:48-94 | bytes beyond the reserve are granted exactly if the missing whole pages can be handed up through at most seven live allocators, each with room and each asking the next for the least whole pages it lacks, to one below a sufficient reserve; memory is out exactly if one of those seven is full or the root; it gives up exactly at an eighth |
| CapAllocator.AllocatorTree.GetParent | kernel/src/alloc/cap_allocator.rs:24-40 | the nearest live allocator above, with links shortened and no quota touched |
| CapAllocator.AllocatorTree.PreallocInner | kernel/src/alloc/cap_allocator.rs:48-79 | the outcome is decided by each level's limit and the depth; success moves exactly the page-rounded reserves down the live ancestors; failure touches no quota; no slack changes |
| CapAllocator.AllocatorTree.AllocBytes | kernel/src/alloc/cap_allocator.rs:82-94 | success charges the bytes and leaves exactly the specified quotas, failure changes no quota anywhere; invariant and slack hold either way |
| CapAllocator.AllocatorTree.DeallocBytes | kernel/src/alloc/cap_allocator.rs:97-104 | a matching release never trips the assertion |
| CapAllocator.AllocatorTree.Resolve | kernel/src/alloc/cap_allocator.rs:152-167 | a wrapper acts on the nearest live allocator |
| CapAllocator.AllocatorTree.ChargeThrough | kernel/src/alloc/cap_allocator.rs:169-171 | bytes are charged to the nearest live allocator exactly when it can get them |
| CapAllocator.AllocatorTree.RefundThrough | kernel/src/alloc/cap_allocator.rs:173-175 | the assertion fails exactly if less is in use; otherwise the difference to the charge becomes slack there and nowhere else |
| CapAllocator.RefusalKeeps | kernel/src/alloc/cap_allocator.rs:177-189 | charging and taking the charge back leaves every quota as it was exactly when the reserve sufficed |
| CapAllocator.RefusalMoves | kernel/src/alloc/cap_allocator.rs:177-189 | a fresh tree in which a refused page leaves a page of quota with the child |
| CapAllocator.DeadReserve | kernel/src/alloc/cap_allocator.rs:127-129 | if that child dies, the root counts a page as used that was never handed out |
| CapAllocator.AllocatorTree.PageAlloc | kernel/src/alloc/cap_allocator.rs:177-189 | pages are charged exactly when both quota and memory are there, with exactly the specified quotas; a refused quota changes no quota anywhere; refused memory leaves the specified quotas, which are the old ones exactly when the reserve sufficed; no slack changes |
| CapAllocator.AllocatorTree.PageDealloc | kernel/src/alloc/cap_allocator.rs:191-197 | the charge goes back to the reserve of the nearest live allocator, which has it, and no other quota changes |
| CapAllocator.AllocatorTree.KillAllocator | kernel/src/alloc/cap_allocator.rs:127-129 | killing any allocator but the root keeps the invariant |
| HeapQuota.HeapAlloc | kernel/src/alloc/cap_allocator.rs:246-259 | a block is charged with its length; without quota it goes back, restoring the heap if its recomputed length is right |
| HeapQuota.HeapDealloc | kernel/src/alloc/cap_allocator.rs:261-267 | what was charged and what is refunded agree, and no slack changes, exactly when the block ends on a multiple of the larger of chunk and alignment; otherwise the difference becomes slack of the allocator that answers |
| Placement.FreeExact | userland/aurora_core/src/allocator/addr_space.rs:402-413 | an address is in a gap exactly when no region has it |
| Placement.FreeRegionsOk | userland/aurora_core/src/allocator/addr_space.rs:402-413 | gaps are nonempty, in the address space and kept apart by regions |
| Placement.FreeAligned | userland/aurora_core/src/allocator/addr_space.rs:402-413 | between regions on page boundaries the gaps are whole pages |
| Placement.SelectFits | userland/aurora_core/src/allocator/addr_space.rs:472-484 | if every gap with room is whole pages, the chosen position fits inside one gap |
| Placement.SelectOnto | userland/aurora_core/src/allocator/addr_space.rs:455-484 | every legal page position is chosen by some draw |
| Placement.SelectInjective | userland/aurora_core/src/allocator/addr_space.rs:455-484 | different draws choose different positions |
| Placement.StaysInside | userland/aurora_core/src/allocator/addr_space.rs:455-484 | all draws stay inside a gap exactly when every gap with room is whole pages |
| Placement.PaddingLeavesGap | userland/aurora_core/src/allocator/addr_space.rs:455-484 | in a list with padding of one byte too much, the last draw for a page ends past the end of the address space |
| Placement.NoneAvailable | userland/aurora_core/src/allocator/addr_space.rs:455-465 | no position is counted exactly when nothing of that size is free |
| Placement.PlacedApart | userland/aurora_core/src/allocator/addr_space.rs:446-486 | a region at a chosen position overlaps nothing |
| Placement.SameAddress | userland/aurora_core/src/allocator/addr_space.rs:375-381 | two regions that do not overlap have the same address exactly when one is bare start padding and the other follows it directly |
| Placement.TakenByDraw | userland/aurora_core/src/allocator/addr_space.rs:375-486 | for any list and request, some draw leads to an address that is taken exactly when a region has one of the addresses a gap is counted to have |
| Placement.ClashByDraw | userland/aurora_core/src/allocator/addr_space.rs:375-486 | for regions and requests on page boundaries, that is exactly when a gap lies where bare start padding makes it so |
| Placement.BarePaddingClash | userland/aurora_core/src/allocator/addr_space.rs:375-486 | a list with bare start padding and a draw that is given a taken address |
| Placement.InsertSorted | userland/aurora_core/src/allocator/addr_space.rs:375-381 | inserted where it belongs, it keeps the list sorted and disjoint |
| Placement.AddrSpaceManager.constructor | userland/aurora_core/src/allocator/addr_space.rs:313-356 | a new manager has just the null page reserved, on page boundaries |
| Placement.AddrSpaceManager.IterFreeRegions | userland/aurora_core/src/allocator/addr_space.rs:402-413 | the loop yields the specified gaps |
| Placement.AddrSpaceManager.CountPositions | userland/aurora_core/src/allocator/addr_space.rs:455-461 | the first pass counts the positions |
| Placement.AddrSpaceManager.PickPosition | userland/aurora_core/src/allocator/addr_space.rs:472-485 | the second pass always finds the position, so the panic after it is not reached |
| Placement.AddrSpaceManager.FindMapAddress | userland/aurora_core/src/allocator/addr_space.rs:446-486 | both errors exactly, and otherwise the position of the draw, inside one gap if every gap with room is whole pages |
| Placement.AddrSpaceManager.BinarySearchAddress | userland/aurora_core/src/allocator/addr_space.rs:397-399 | found, or the index that separates smaller from larger addresses |
| Placement.AddrSpaceManager.InsertRegion | userland/aurora_core/src/allocator/addr_space.rs:375-381 | inserted in order; refused exactly when the address is taken, which for a region that overlaps nothing is exactly the case of bare start padding |
| Placement.AddrSpaceManager.RemoveRegion | userland/aurora_core/src/allocator/addr_space.rs:383-388 | exactly the region at the address is removed |
| Placement.AddrSpaceManager.MapAnywhere | userland/aurora_core/src/allocator/addr_space.rs:561-617 | every error exactly; otherwise the region of the draw is added, keeping the list sorted and disjoint if every gap with room is whole pages, which page-multiple requests keep so; a panic exactly for a taken address, never while no region is bare start padding |
| Placement.RunsOver | userland/aurora_core/src/allocator/addr_space.rs:561-617 | the calls that make that list and that draw, after which the list is not valid |
| CapIds.NewIdSpec | userland/sys/src/cap.rs:89-123 | rights, weakness, type and base packed into an id are read back |
| CapIds.NewIdBits | userland/sys/src/cap.rs:20-123 | a word is the id of these parts exactly if bits 0 to 3 are the rights, bit 4 the weak flag, bits 5 to 9 the number of the type, and the rest the base |
| CapIds.NewIdInjective | userland/sys/src/cap.rs:89-91 | ids are equal exactly when their parts are and their bases agree in the bits that fit |
| CapIds.NullFlagsSpec | userland/sys/src/cap.rs:96-98 | a null id carries rights and weakness but no type |
| CapIds.TypeFrom | userland/sys/src/cap.rs:43-66 | a number names a type exactly from 1 to 19, and the one with that code |
| CapSpace.PutOk | kernel/src/cap/capability_space.rs:88-105 | filing under the next id keeps keys, ids, types, weak bits, object and rights consistent, and ids unique until the counter outgrows an id |
| CapSpace.CapabilitySpace.InsertInner | kernel/src/cap/capability_space.rs:88-105 | the capability is filed under an id made from its rights, weakness and the counter, new until the counter outgrows an id |
| CapSpace.CapabilitySpace.Insert | kernel/src/cap/capability_space.rs:107-109 | the capability is filed visibly as the first of its chain of clones |
| CapSpace.CapabilitySpace.InsertInvisible | kernel/src/cap/capability_space.rs:111-113 | the same, filed invisibly |
| CapSpace.CapabilitySpace.MakeVisible | kernel/src/cap/capability_space.rs:115-122 | only the visibility of that entry changes |
| CapSpace.CapabilitySpace.Remove | kernel/src/cap/capability_space.rs:124-128 | exactly that entry is removed |
| CapSpace.CapabilitySpace.GetWithPerms | kernel/src/cap/capability_space.rs:130-166 | each error exactly: no visible entry, a right missing, or a weak entry whose object is gone, which is removed if asked; otherwise a strong reference to the entry's object |
| CapSpace.CapabilitySpace.Clone | kernel/src/cap/capability_space.rs:176-233 | both tables exactly, also when they are one: rights intersected, same object, same origin, old entry kept or removed. The clone is weak exactly if that was asked, or the original is and its weakness is kept; each error exactly: no entry, a weak original asked to be strong whose object is gone, memory |
| CapSpace.CapabilitySpace.CapClone | kernel/src/cap/capability_space.rs:272-317 | unimplemented exactly for Lock, MessageCapacity and RootOom; for every other type both tables, the weakness of the clone and each error exactly |
| CapSpace.CapabilitySpace.Transfer | kernel/src/cap/channel/capability_writer.rs:69-85 | a panic exactly for a number of an unimplemented type, the null id exactly for the other failures, with both tables unchanged; otherwise a clone with the same rights, type, object and weakness, and the sender's table unchanged |
| CapSpace.LockUnsendable | kernel/src/cap/channel/capability_writer.rs:69-85 | 192 is the smallest number that panics the kernel |
| CapRuns.StepSound | kernel/src/cap/capability_space.rs:88-233 | every step of every interleaving, with a clone read, given its id and filed in three, keeps each capability, filed or being made, inside the chain it belongs to |
| CapRuns.DistinctStep | kernel/src/cap/capability_space.rs:88-105 | no two calls under way bring the same id to a space, and none brings one that is there, until the counter outgrows an id |
| CapRuns.EntryAfter | kernel/src/cap/capability_space.rs:115-122 | an entry that stays keeps object, rights and origin through every step, and becomes visible exactly by being shown |
| CapRuns.ChainBegins | kernel/src/cap/capability_space.rs:88-317 | in every run every capability goes back to one inserted earlier in the run: the same object and type, and no right that one did not have |
| CapRuns.IdsNotReused | kernel/src/cap/capability_space.rs:88-105 | in every run two ids issued by one space are equal only if at least 2^54 were issued from one to the other |
| CapRuns.UnwrapFailsIff | kernel/src/cap/capability_space.rs:205-216 | in every run, the removal that a clone unwraps finds nothing exactly when another call removed the entry in between and none put one in its place, which none can before the counter outgrows an id |
| CapRuns.TwoClonesPanic | kernel/src/cap/capability_space.rs:205-216 | a run of two clones in which it finds nothing |
| CapRuns.InsertIsRun | kernel/src/cap/capability_space.rs:88-113 | an uninterrupted insertion is two steps of a run |
| CapRuns.CloneIsRun | kernel/src/cap/capability_space.rs:176-233 | an uninterrupted clone or transfer, within a space or between two, is three or four steps of a run |

## Left out

- Interleaving of buddy releases: each call is one step; a coalescing bit can be consumed by another release in flight.
- Building the manager from the memory map (`ZoneMap`, placement of the status arrays and of the bootstrap heap).
- `realloc_in_place` and `shrink_node` of the buddy allocator: they do not follow their stated contract and do not update the free space.
- AddressSpace.VirtAddrSpace.MapPage: addresses are bounded by the start of the kernel half, as the callers bound them; the source's own assertion allows slightly more.
- The tables of an address space are values in a map from frames, so aliasing between tables is expressed by equal frames; the in-place form of one table is in `AddEntryInPlace` and `RemoveInPlace`.
- Huge pages, the first mapping of the kernel and `PageMappingTaker`: further leaf sizes of the same tree.
- aser errors carry no kind in the parser; the printer distinguishes malformed capabilities from too many.
- Values with capabilities inside map keys are included; the order in which a `Value` map is visited is left open.
- The zones of the heap are a sequence of objects, not nodes linked through memory.
- Freeing whole heap zones, which the source does not do, and requests of size zero.
- Scheduler: saving of registers, memory orderings, end-of-interrupt and wake reasons; a thread object is never reclaimed while referred to.
- HashMap: iteration and `len` after removal; the capacity limit of memory appears only as refused growth.
- ArcCounts: `into_inner`, memory orderings and wrap-around of the weak count by `downgrade`.
- CapAllocator.AllocatorTree.PageAlloc: a wrapper's own link is not updated when its allocator died; which allocator answers for it is unaffected.
- Creation of child allocators: the source has no constructor for them; any tree shape is allowed at the start.
- Placement.AddrSpaceManager.MapAnywhere: the system calls that make and map the memory are left out; when mapping fails the source takes the region out again, as `RemoveRegion` does.
- Placement: mapping at a given address, growth of the region list's storage, `is_region_free`, and unmapping in flight; sizes whose rounding up overflows.
- The per-type tables of a capability space are one map keyed by type and id.
- Channels, event pools, memory objects, thread groups, interrupts, drivers, syscall dispatch and the userland copy of the heap.
