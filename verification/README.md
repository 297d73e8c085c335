# FOOS kernel: heap, paging, terminal, paths and text

This project models the parts of the FOOS kernel whose correctness rests on more than one function,
and states what they guarantee.

- **Heap** (`Blocks.dfy`, `HeapTheory.dfy`, `Kmalloc.dfy`, `HeapRuns.dfy`). The allocator works on raw
  words: headers are ordinary memory that `KernelHeap` reads and writes as the C code does, and functions
  on memory alone say what its methods compute. A block list says what one pass of `lookup`, `split`,
  `merge` and `kfree` means, the memory functions are proved to realise it, and the theorems speak about
  the list, about memory, and about whole runs.
- **Paging** (`Bits.dfy`, `Paging.dfy`, `Mapping.dfy`, `VirtualMemory.dfy`). The frame bitmap and the page
  tables live in that same heap memory. The processor's page walk is 32-bit paging, section 4.3 of the
  Intel SDM, volume 3A.
- **Terminal** (`Screen.dfy`, `Keyboard.dfy`, `LineDiscipline.dfy`, `Terminal.dfy`). The screen is the last
  25 rows of an unbounded sheet of paper. An ideal line discipline says what keys, readers and kernel output
  should do; the driver is proved to follow it, except for the events that are named.
- **Paths** (`Strtok.dfy`, `FileSystem.dfy`, `Ramfs.dfy`). The in-place tokeniser equals a pure split,
  and path lookup equals a fold of directory search over it, returning its heap memory.
- **Text and bytes** (`Conv.dfy`, `Printf.dfy`, `Acpi.dfy`). Number conversion both ways, `vsprintf` as an
  interpreter of a parsed format, and the restarting `_S5_` search.

The functions that say what the code computes are tied down in plain numbers: which bytes a cell, a disk
image or a printed number holds, which scancodes and characters do what, and where 16 MB ends
(`PlainStep`, `CellBytes`, `HoldsImage`, `HeaderBytes`, `NextKbdLaw`, `ScancodeLaw`, `TypewriterLaw`,
`WalkLaw`, `ValueLaw`, `HexValueLaw`, and the laws of the printed text in `Printf.dfy`).

## Where the code is narrower than its intent

The code is modelled as it is. Where an intended property fails, the project gives an input that shows it
and the exact condition under which the property holds.

- `merge` stores through a null `next` when the absorbed block was the tail. That write goes to the word at
  address 8, outside the heap. `FreeWritesLow` says exactly when `kfree` does this and what it stores;
  `LowWordIsReachable` is an input. The heap itself is not harmed.
- Freeing a block between two free blocks: `kfree` keeps the list linked both ways **if and only if** not
  both neighbours are free with another block behind them (`FreeRealises`, `FreeSafe`), and keeps "no two
  free neighbours" if and only if not both are free (`FreedCoalesced`). After an unsafe free the memory is a
  sound heap under no list at all (`FreeExact`). `FreeBetweenFreeIsReachable` reaches the bad case from the
  untouched heap.
- So free neighbours do arise in runs whose every step is safe. On such a heap even allocating and freeing
  at once, as `fs_lookup` and the shell's heap test do, can be unsafe or give another address the next time.
  `AllocFreeAlloc` and `AllocFreeSameLive` give the exact conditions (`Wedged`); `AddressMovesIsReachable` and
  `WedgedIsReachable` are the inputs.
- Aligned extension moves the new header *back* over the tail when the heap end is 8 short of a multiple of
  the alignment, and a first request aligned to 2..32 bytes leaves a zero-sized root. `AllocGoodIffSafe` gives
  the exact condition; `MisfitOverlaps` and `FirstAlignedOverlaps` are the inputs.
- The comment at the top of `kernel/kmalloc.c` says that memory is zeroed. It is not: a safe allocation holds
  exactly the words that were there, so it is zero if and only if they were (`AllocIsZero`).
  `DirtyIsReachable` is an input.
- New page tables are not cleared. Creating one keeps every translation **if and only if** no word of the page
  handed out has its present bit set (`NewTableExact`). A heap whose unused memory is zero meets this, and so
  does every heap without a free block that fits a page (`FreshPageIsZero`); `DirtyTableIsReachable` is a run
  after which it is not met.
- `pmem_map` or-s into the entry it finds, so mapping a page twice blends the two frame numbers bit by bit
  (`MappedTwice` maps to 0x1000 and 0x2000 and gets 0x3000). A page is mapped to the frame asked for, with no
  other translation changed, if and only if `CleanFor` holds (`MapsOnlyIff`, `BlendIsFrame`).
- A used tail block may *grow* by alignment padding, so live allocations keep their address and never shrink,
  but do not always keep their size: `TailGrowsIff` says exactly when, and `PageBlocks` is an input.
- `CHECK_DIR` parses as `flags & (0x7 != FS_DIR)`, which refuses odd types only (`RefusedAsIntended` gives the
  exact types and names the block device as the one that slips through).
- `itoa` of the smallest 32-bit number is not a decimal numeral, and only there (`ItoaIsDecimal`); under
  wrapping arithmetic `atoi` still reads it back (`AtoiOfItoa`).
- The driver has one buffer and remembers one entered line. It stays in step with the ideal discipline, event
  by event, if and only if the event spares the pending line (`Handle`, `Spares`). A character may fall on that
  line (`SpoiledLine` enters "a", types "b" and reads "b"), a second Enter replaces it (`SecondEnter`,
  `OverwrittenLine`), and a reader that starts while it is pending gets it instead of what is typed from then
  on (`EarlyLine`, `EarlierLine`).
- So `tty_read` returns the edit of the keys since its own reset if and only if no line was pending at that
  reset (`Read`, `ReadIsEdit`).
- The line editor knows nothing of kernel output. Between lines any output is harmless; printed into a line
  being typed it breaks the agreement of screen and buffer unless it is empty (`Output`), and the next backspace
  takes the typed character off the screen if and only if nothing was printed after it (`OutputErased`).
- A backspace at the origin of the screen takes the cursor off it, and only that does
  (`CursorStaysOnScreen`, `WriteChar`).

## Model

| member | source | states |
|---|---|---|
| Blocks.RoundUp8 | kernel/kmalloc.c:102-103 | the request is rounded to the least multiple of eight not below it |
| Blocks.Ordered | kernel/kmalloc.c:3-8 | in a tiled list an earlier block ends before a later one begins |
| Blocks.SplitTiled | kernel/kmalloc.c:44-59 | cutting a block keeps the heap covered without gap or overlap and its end in place |
| Blocks.MergeTiled | kernel/kmalloc.c:35-42 | joining two neighbours keeps the heap covered without gap or overlap and its end in place |
| Blocks.NewHeaderFacts | kernel/kmalloc.c:66-72 | the appended header's data is aligned; it lies below the heap end, by eight bytes, exactly when the end is 8 short of a multiple of the alignment |
| HeapTheory.WalkIsFirstFit | kernel/kmalloc.c:61-93 | the recursive walk takes the lowest free block that is large enough and aligned, and extends the heap only if there is none |
| HeapTheory.PlacedAligned | kernel/kmalloc.c:61-109 | safe or not, the block handed out is used, large enough and aligned |
| HeapTheory.ExtendGood | kernel/kmalloc.c:66-77 | extending the heap is a good allocation if and only if the root is not left empty and the tail is not cut into while used or down to nothing |
| HeapTheory.PhantomBad | kernel/kmalloc.c:66-92 | when the appended header's used word is not zero, the second extension leaves an allocation nobody asked for |
| HeapTheory.AllocGoodIffSafe | kernel/kmalloc.c:61-109 | an allocation is new, aligned, disjoint and keeps every live one, with the invariant kept, if and only if a condition on the list before the call holds |
| HeapTheory.FreedKeepsOthers | kernel/kmalloc.c:116-126 | freeing removes exactly that allocation from the live ones and moves neither end of the heap |
| HeapTheory.FreedCoalesced | kernel/kmalloc.c:116-126 | freeing keeps "no two free neighbours" if and only if not both neighbours were free |
| Kmalloc.MergeLinked | kernel/kmalloc.c:35-42 | on memory, merging two neighbours leaves a heap linked both ways and writes only header words and the word at address 8 |
| Kmalloc.SplitRealises | kernel/kmalloc.c:44-59 | on memory, `split` realises the cut of the list and writes only header words |
| Kmalloc.GrowRealises | kernel/kmalloc.c:66-77 | a header appended in zero memory reads as last; the heap stays linked, and the next header place is zero |
| Kmalloc.FreeRealises | kernel/kmalloc.c:116-126 | on memory, `kfree` keeps the heap invariant if and only if the block is not between two free blocks with one more behind, and writes only header words and the word at address 8 |
| Kmalloc.ListIsUnique | kernel/kmalloc.c:25-31 | only one list of blocks can be read off a memory by following next |
| Kmalloc.FreeExact | kernel/kmalloc.c:116-126 | after `kfree` there is a list under which memory is a sound heap if and only if the free was safe |
| Kmalloc.FreeWritesLow | kernel/kmalloc.c:35-42 | `kfree` overwrites the word at address 8 exactly when the tail is absorbed, with the address of the block that absorbed it last |
| Kmalloc.SettleRealises | kernel/kmalloc.c:78-91 | on memory, taking or sizing a block realises what the list walk does there, and writes only header words |
| Kmalloc.LookupRealises | kernel/kmalloc.c:61-93 | `lookup` on memory ends, and realises the walk over the list: the new list is tiled, linked both ways and zero past the tail, only header words changed, and the block returned is the one placed |
| Kmalloc.AllocRealises | kernel/kmalloc.c:95-109 | from a sound heap, `kmalloca` on memory returns an aligned, large enough, used block of a linked list |
| Kmalloc.KernelHeap.Merge | kernel/kmalloc.c:35-42 | the whole new memory, including the store through a null next |
| Kmalloc.KernelHeap.Split | kernel/kmalloc.c:44-59 | the whole new memory |
| Kmalloc.KernelHeap.Append | kernel/kmalloc.c:66-77 | the whole new memory, the alignment padding given to the old tail |
| Kmalloc.KernelHeap.Settle | kernel/kmalloc.c:78-91 | whether the block is taken or sized, the whole new memory, and that nothing changes otherwise |
| Kmalloc.KernelHeap.Lookup | kernel/kmalloc.c:61-93 | the whole new memory and the block returned, for every walk that ends |
| Kmalloc.KernelHeap.Kmalloca | kernel/kmalloc.c:95-109 | size zero fails with EINVAL and changes nothing; otherwise an aligned allocation, good if and only if the stated condition held |
| Kmalloc.KernelHeap.KmallocBytes | kernel/kmalloc.c:111-114 | without alignment every allocation is good and keeps the invariant |
| Kmalloc.KernelHeap.Kfree | kernel/kmalloc.c:116-126 | the new list and memory; the invariant is kept if and only if the free was safe |
| HeapRuns.TotalIsExtent | kernel/kmalloc.c:25-31 | header and data bytes add up to the extent of the heap |
| HeapRuns.SplitMergeConserve | kernel/kmalloc.c:35-59 | `split` and `merge` conserve the total of header and data bytes |
| HeapRuns.AllocCoalesced | kernel/kmalloc.c:61-93 | no allocation puts two free blocks side by side, the remainder of a cut included |
| HeapRuns.AllocWaste | kernel/kmalloc.c:44-59 | a block that is not the tail exceeds the rounded request by at most 24 bytes |
| HeapRuns.TailGrowsIff | kernel/kmalloc.c:68-72 | a safe allocation keeps the exact size of every live block if and only if a block fits, the tail is free, or the heap end is aligned |
| HeapRuns.TakeThenFree | kernel/kmalloc.c:116-126 | freeing a block just taken from a free block is safe if and only if it was not wedged between free blocks, and restores the exact list if and only if no free block lay before it and none was joined to it |
| HeapRuns.AllocFreeAlloc | kernel/shell.c:131-140 | allocate, free, allocate again, on every sound heap: exactly when the free is safe, and the address is the same if and only if the first did not extend the heap behind a free tail and took no block behind a free one |
| HeapRuns.StepKeepsInv | kernel/kmalloc.c:95-126 | every safe allocation, safe free and client write leaves memory that satisfies the heap invariant |
| HeapRuns.RunKeepsInv | kernel/kmalloc.c:33-126 | from the zeroed heap, the memory after every prefix of every safe run satisfies the invariant |
| HeapRuns.RunKeepsCoalesced | kernel/kmalloc.c:35-126 | in every run that never frees between two free blocks, no two neighbours are both free |
| HeapRuns.LiveDisjoint | kernel/kmalloc.c:12-12 | no word of an allocation belongs to another allocation or to a header |
| HeapRuns.RunKeepsContents | kernel/kmalloc.c:95-126 | in every safe run an allocation that is not freed stays live, does not shrink, and keeps each word until that word is written |
| HeapRuns.AllocFromUnused | kernel/kmalloc.c:66-77 | a safe allocation consists of memory unused before, and the heap end never moves down |
| HeapRuns.AllocIsZero | kernel/kmalloc.c:10-10 | a safe allocation holds exactly the words that were there, so it is zero if and only if they were, and unused memory that is zero stays zero |
| HeapRuns.MisfitOverlaps | kernel/kmalloc.c:68-72 | kmalloc(8) then kmalloca(8, 5) puts the second header on the first allocation |
| HeapRuns.FirstAlignedOverlaps | kernel/kmalloc.c:87-91 | on memory, kmalloca(8, 3) on the untouched heap and then kmalloc(8) return allocations of which the second lies on the header of the first, and no list makes the result a sound heap |
| HeapRuns.FreeBetweenFreeIsReachable | kernel/kmalloc.c:116-126 | a safe run of four allocations and two frees leads to a block whose free is unsafe |
| HeapRuns.AddressMovesIsReachable | kernel/shell.c:131-140 | a safe run after which kmalloc(104), kfree, kmalloc(104) gives two different addresses inside the heap |
| HeapRuns.WedgedIsReachable | kernel/kmalloc.c:116-126 | a safe run after which freeing what was allocated last is unsafe |
| HeapRuns.DirtyIsReachable | kernel/kmalloc.c:10-10 | allocated, written, freed and allocated again, a block still holds the word written |
| HeapRuns.LowWordIsReachable | kernel/kmalloc.c:39-40 | a safe run that overwrites the word at address 8 |
| HeapRuns.FreeBetweenFreeDangles | kernel/kmalloc.c:121-124 | then the later block's prev names a header that is no longer in the list, and two free blocks are neighbours |
| Bits.OrFlags | kernel/pmem.c:42-42 | a page frame or-ed with flags can be taken apart again |
| Bits.OrEntry | kernel/pmem.c:42-42 | or-ing a word with its present bit into an entry ors the frame numbers and the writable bits, and leaves it present |
| Bits.TestBit | kernel/pmem.c:25-29 | masking with one bit tests that bit |
| Paging.MarkAdds | kernel/pmem.c:13-17 | setting a frame's bit adds that frame to the set and touches no other |
| Paging.UnmarkRemoves | kernel/pmem.c:19-23 | clearing a frame's bit removes that frame and no other |
| VirtualMemory.Pager.PmemSet | kernel/pmem.c:13-17 | the whole new memory |
| VirtualMemory.Pager.PmemClear | kernel/pmem.c:19-23 | the whole new memory |
| VirtualMemory.Pager.PmemTest | kernel/pmem.c:25-29 | non-zero exactly for a used frame |
| Paging.FreeFromIsLeast | kernel/pmem.c:53-62 | the free frame found is the least of the 4096 frames below 16 MB |
| Paging.NoFreeFrame | kernel/pmem.c:53-62 | when all 4096 are used, frame 0 stands for none |
| VirtualMemory.Pager.PmemGetFree | kernel/pmem.c:53-62 | the address of the least free frame whenever one of the 4096 below 0x1000000 is free, or 0 when none is |
| VirtualMemory.Pager.PmemInit | kernel/pmem.c:31-35 | from every sound heap, a live zero page as bitmap: no frame is used |
| VirtualMemory.Pager.PmemMap | kernel/pmem.c:37-45 | the whole new memory, the least free frame standing in for a null address |
| Paging.PageAlloc | kernel/vmem.c:62-66 | a page safely taken is aligned and new and holds the words that were there, and every live page keeps its words; from a ready heap it is zero and the heap stays ready |
| Paging.EntryAddrsApart | kernel/vmem.c:58-67 | different pages have different entry words, none of them in the directory or the bitmap |
| Paging.WalkLaw | kernel/vmem.c:52-68 | the processor's walk in plain numbers: upper ten bits, next ten bits, both entries present, both writable |
| Paging.WalkIsEntry | kernel/vmem.c:52-68 | the processor's walk depends on the page's entry alone |
| Paging.FreshPageIsZero | kernel/vmem.c:62-66 | on every sound heap where no free block fits a page, the page handed out lies behind the heap end and is zero |
| Paging.ReadyPageIsZero | kernel/vmem.c:62-66 | the page that a heap with zero unused memory hands out is zero, from a free block too |
| Paging.FoundIsEntry | kernel/vmem.c:62-66 | a table that exists, or one made of zero memory, shows no entry that was not there |
| Paging.NewTableShows | kernel/vmem.c:62-66 | from any heap, the pages of the new table get the words found there as entries; all other entries and all frames stay |
| Paging.NewTableExact | kernel/vmem.c:62-66 | from any heap, creating a table leaves every translation as it was if and only if no word of the page handed out has its present bit set |
| VirtualMemory.Pager.VmemGet | kernel/vmem.c:52-68 | the address of the entry, on every sound heap; nothing changes when the table exists, otherwise its pages get the words found in the new table and all else stays |
| VirtualMemory.Pager.PmemMapaddr | kernel/pmem.c:47-51 | on every sound heap and for every frame in the bitmap and all flags, all entries, frames and translations afterwards; only that page changes, and to the frame and permission of the word or-ed in, if and only if what is found in its entry or its new table does not interfere |
| Mapping.MapKeeps | kernel/pmem.c:37-45 | or-ing into the entry keeps heap and tables sound, changes no other entry and adds exactly that frame |
| Mapping.BlendIsFrame | kernel/pmem.c:42-42 | an entry or-ed with a frame names that frame if and only if its old frame number has no bit outside it |
| Mapping.MapsOnlyIff | kernel/pmem.c:37-51 | the page translates to exactly the frame, and no other address changes, if and only if its old entry adds no frame bit and no permission and a new table shows no other page as present |
| Mapping.UnmappedIsClean | kernel/pmem.c:37-51 | an unmapped page meets that condition when its table exists or is made of zero memory |
| Mapping.FreshMapsOnly | kernel/pmem.c:37-51 | on every sound heap, mapping an unmapped page changes that page alone, to that frame, when its table exists or no free block fits a page |
| Mapping.AlignedWord | kernel/pmem.c:42-42 | for a frame on a page boundary and flags below a page, the word or-ed in names that frame with those flags |
| Mapping.MappedTwice | kernel/pmem.c:42-42 | a page mapped to 0x1000 and then to 0x2000 translates to 0x3000 |
| Mapping.IdentityNext | kernel/vmem.c:42-46 | mapping page n to the least free frame extends the identity map from n to n+1 |
| Mapping.IdentityAgain | kernel/vmem.c:42-46 | with no free frame left, mapping a page again keeps the identity map |
| Mapping.IdentityWalk | kernel/vmem.c:42-46 | with 4096 entries and frames matched, addresses below 0x1000000 translate to themselves and no others translate |
| VirtualMemory.DirtyTableIsReachable | kernel/vmem.c:62-66 | a safe run after which a new table changes a translation |
| VirtualMemory.Pager.VmemInit | kernel/vmem.c:34-50 | after mapping with no frame named, every address below 0x1000000 translates to itself, writable, everything above faults, and exactly frames 0..4095 are used; a second call leaves that so |
| VirtualMemory.Pager.Boot | kernel/main.c:45-50 | the same from the zeroed heap, through the start-up order, with the directory loaded and the heap ready for more tables |
| Screen.CursorStaysOnScreen | kernel/dev/tty.c:75-136 | the cursor stays in 0..1999 if and only if no backspace arrives at the origin |
| Screen.CursorFollowsPaper | kernel/dev/tty.c:75-136 | row, column, wrap, tab and scroll arithmetic equals movement on unbounded paper |
| Screen.StepFollowsPaper | kernel/dev/tty.c:103-132 | one character changes window and cursor as the paper says, scrolling included |
| Screen.ScrolledOffIsFinal | kernel/dev/tty.c:115-129 | what has scrolled off never changes, whatever is written later |
| Screen.CellBytes | kernel/dev/tty.c:99-99 | the low byte of a cell is the character and the high byte the color |
| Screen.PaperIsPlain | kernel/dev/tty.c:75-136 | in plain numbers, what one character does to 2000 cells and the cursor: newline 10, return 13, tab 9, backspace 8, scrolling by 80 blank cells |
| Terminal.Tty.Scroll | kernel/dev/tty.c:116-129 | drops the first 80 cells, shifts the others up, adds 80 of 0x0720 |
| Terminal.Tty.WriteChar | kernel/dev/tty.c:75-136 | after one character the screen is the last 25 rows of the paper if and only if it was not a backspace at the origin, which leaves the cells alone and puts the cursor at 0xFFFF; otherwise cells and cursor change by the plain rule, a printed character leaving 256 * color + character |
| Terminal.Tty.Write | kernel/dev/tty.c:66-73 | the screen is the window of the paper after any stream that never backspaces at the origin |
| Terminal.PrintedText | kernel/dev/tty.c:66-73 | printed ASCII text stands cell by cell, 256 * color + character each |
| Terminal.Tty.Clear | kernel/dev/tty.c:170-178 | 2000 cells of 0x0720 and the cursor at the origin |
| Keyboard.DecodeLaw | kernel/dev/tty.c:190-203 | a letter is a capital exactly when one of Shift and Caps Lock is on; only Shift affects other keys |
| Keyboard.TypewriterLaw | kernel/dev/tty.c:185-188 | the digits and letters of both tables, by keyboard row |
| Keyboard.ScancodeLaw | kernel/dev/tty.c:211-271 | which scancodes are Enter, Backspace, silent, beyond the tables, or typed |
| Keyboard.NextKbdLaw | kernel/dev/tty.c:211-248 | what one scancode does to Shift, Ctrl, Alt and Caps Lock |
| Keyboard.ModifierHistory | kernel/dev/tty.c:211-248 | over every sequence of scancodes: a modifier is down if and only if its last press or release was a press, and Caps Lock has changed after an odd number of presses |
| Keyboard.PressIsPlain | kernel/dev/tty.c:185-203 | a key that reaches the default case never yields a control character |
| Terminal.EchoIsLine | kernel/dev/tty.c:265-271 | the echo shows each character in its low bytes, so two lines with one echo are equal |
| Terminal.EchoTyped | kernel/dev/tty.c:265-271 | a typed character extends the echo, and a line that fits the buffer never scrolls past its own start |
| Terminal.EchoErased | kernel/dev/tty.c:256-264 | a backspace shortens the echo and touches nothing before the line |
| Terminal.Tty.Modifier | kernel/dev/tty.c:211-248 | the modifier state follows the scancode; no other key is swallowed |
| Terminal.Tty.KbdIrq | kernel/dev/tty.c:205-274 | the line is edited as a stack, the paper shows each key, screen and buffer agree, nothing before the line's start changes, and a waiting line survives a character or a backspace exactly when what is stored does not differ from it |
| Terminal.Tty.ReadReset | kernel/dev/tty.c:284-287 | the line being typed is dropped; a line already entered stays and is what the reader will get |
| Terminal.Tty.ReadCollect | kernel/dev/tty.c:288-293 | the reader gets the buffer up to the saved end |
| LineDiscipline.ReadIsEdit | kernel/dev/tty.c:284-294 | reset, keys, Enter and copy add exactly the push and pop fold of the keys to what is read, and the driver can follow if and only if no line was pending at the reset and the keys fit |
| LineDiscipline.LinesAccounted | kernel/dev/tty.c:249-294 | every line entered is read, pending or named as lost, in every run |
| LineDiscipline.CalmLosesNothing | kernel/dev/tty.c:249-294 | in a run that spares each pending line none is lost, and the lines read and pending are those entered, in order |
| LineDiscipline.SecondEnter | kernel/dev/tty.c:249-255 | "a", Enter, Enter, copy: the reader should get "a", and the second Enter does not spare that line |
| LineDiscipline.EarlyLine | kernel/dev/tty.c:284-294 | "a", Enter, reset, copy: the reader should get nothing yet, and the reset does not spare that line |
| Terminal.Tty.Read | kernel/dev/tty.c:284-294 | the edit of the keys since its reset if and only if no line was waiting then; otherwise that line at once |
| Terminal.Tty.OverwrittenLine | kernel/dev/tty.c:249-255 | with "a" entered and not yet collected, a second Enter makes the reader get nothing |
| Terminal.Tty.EarlierLine | kernel/dev/tty.c:284-294 | a reader that starts after "a" was entered gets "a" without waiting for a key |
| Terminal.Tty.Output | kernel/dev/tty.c:66-73 | any output that stays on the screen is harmless between lines; printed text keeps screen and buffer in agreement if and only if no line is being typed or it is empty |
| Terminal.OutputErased | kernel/dev/tty.c:256-264 | after a typed character and any printed text, backspace takes the typed one off the screen if and only if the text is empty |
| Terminal.Tty.Handle | kernel/dev/tty.c:205-294 | one event of keyboard, reader or kernel follows the ideal line discipline on line, screen and modifiers, and agrees on the pending lines if and only if the event spares them |
| Terminal.Tty.SpoiledLine | kernel/dev/tty.c:249-271 | with "a" entered and not yet collected, typing "b" makes the reader get "b" |
| Terminal.Tty.TypeKeys | kernel/dev/tty.c:205-274 | any keys but Enter leave the fold of their edits, and the modifiers that their history says |
| Terminal.Tty.ShiftReleased | kernel/dev/tty.c:217-221 | Shift pressed, Shift released, A: the line is a small a |
| Terminal.Tty.Interleave | kernel/dev/tty.c:205-294 | in every interleaving of keys, readers and kernel output that spares each pending line, the texts read and the screen are those of the ideal line discipline |
| Strtok.SpansAreMaximalRuns | libc/strtok.c:5-33 | the split finds exactly the delimiter-free runs that cannot be made longer |
| Strtok.SpansInOrder | libc/strtok.c:5-33 | and gives them from left to right |
| Strtok.TokensAreSpans | libc/strtok.c:5-33 | the tokens are the text of those runs |
| Strtok.TokensOfJoin | libc/strtok.c:5-33 | a delimiter anywhere splits a string into two independent parts |
| Strtok.Strspn | libc/string.c:81-95 | the length of the leading run of accepted characters |
| Strtok.Scan | libc/strtok.c:13-32 | passes over one token, overwrites exactly the delimiters behind it, stops at the next token |
| Strtok.Tokeniser.Strtok | libc/strtok.c:5-33 | one call yields the first token and leaves the others for later calls, changing only delimiters |
| Strtok.Tokeniser.AllTokens | kernel/shell.c:120-129 | repeated calls yield exactly the tokens in order, any number of further calls yield NULL, and only delimiters are overwritten |
| Strtok.Tokeniser.NullForever | libc/strtok.c:5-33 | once the tokens are used up, every further call yields NULL and changes nothing |
| FileSystem.RefusedAsIntended | libfs/wrap.c:51-55 | the directory check acts as meant if and only if the type is a directory or odd |
| FileSystem.Vfs.RamfsFinddir | libfs/ramfs.c:75-84 | the first entry of that name, or none |
| FileSystem.Vfs.FsFinddir | libfs/wrap.c:66-73 | directory search with its error code |
| FileSystem.ListedIsFound | libfs/ramfs.c:65-84 | the name listed at an index leads back to it if and only if no earlier entry has that name |
| FileSystem.Vfs.FsReaddir | libfs/wrap.c:57-64 | an entry for exactly the indices below the count, whose name leads back to that node if and only if no earlier entry has the name, with its error code |
| FileSystem.ResolveJoin | libfs/wrap.c:77-99 | a path and its continuation resolve one after the other |
| FileSystem.SeparatorsDoNotMatter | libfs/wrap.c:77-99 | leading, trailing and doubled separators do not change what a path names |
| FileSystem.OnlySeparators | libfs/wrap.c:89-92 | a path of separators alone resolves if and only if the root is searchable and an entry bears that very name |
| FileSystem.NothingBelowFiles | libfs/wrap.c:51-73 | no path descends through a regular file or a character device |
| FileSystem.AllocFreeSameLive | libfs/wrap.c:84-97 | on every sound heap, the temporary allocation and its release leave the live allocations as they were, and the release is safe if and only if the block was not wedged between free ones |
| FileSystem.Vfs.FsLookup | libfs/wrap.c:77-99 | equals the fold of directory search over the split path; the same allocations are live on return, and the heap stays sound if and only if the block it borrowed was not wedged between free ones |
| Ramfs.RootLookup | libfs/ramfs.c:19-84 | with distinct names, none of them dev, every listed name leads to its inode and the last entry is the device directory |
| Ramfs.HeaderBytes | libfs/ramfs.c:43-48 | byte by byte, when a file header is good: 44 bytes, marked 1E F1 AD DE, a name ending within 32 bytes |
| Ramfs.Ramdisk.Init | libfs/ramfs.c:19-63 | a root if and only if the image begins with 58 D1; byte by byte, its files with name, offset and size, and the device directory; the allocations it makes keep the heap sound and every other allocation live |
| Ramfs.Ramdisk.MakeInodes | libfs/ramfs.c:34-41 | three new live allocations of 76 bytes a node, for the root, its entries and two devices |
| Ramfs.Ramdisk.ReadAt | kernel/dev/device.c:40-52 | copies the bytes at the device offset and moves it on |
| Ramfs.Ramdisk.Read | libfs/ramfs.c:86-91 | delivers exactly the file's bytes from behind the headers, and changes nothing else |
| Ramfs.FileByPath | libfs/wrap.c:77-99 | any path whose one component is a file's name resolves to that file |
| Ramfs.DevicesByPath | libfs/devfs.c:19-38 | /dev/tty resolves to character device 0 and /dev/ramdisk to character device 1 |
| Ramfs.MountAndRead | kernel/main.c:81-89 | mounting the image, looking a path up and reading the node delivers exactly the bytes the image holds for that file, by the little-endian count, offset and size in its headers |
| Acpi.Memmem | libc/string.c:97-117 | the first match, or NULL exactly when there is none |
| Acpi.NoNameWithinHit | kernel/acpi.c:86-87 | nothing is named within the four bytes of a hit, so restarting behind them loses nothing |
| Acpi.SearchS5 | kernel/acpi.c:75-89 | the leftmost named package in the whole image, or NULL exactly when there is none |
| Conv.Strrev | libc/string.c:3-16 | reverses the string in place and leaves the rest of the buffer |
| Conv.DigitsValue | libc/conv.c:33-36 | the digits produced by the division loop have the value of the number, for negative numbers too |
| Conv.AtoiIsValue | libc/conv.c:5-23 | for every string of signed bytes, the signed decimal value modulo 2^32 |
| Conv.WrapLaw | libc/conv.c:5-23 | the wrapped value lies in 32 signed bits and differs by a multiple of 2^32 |
| Conv.ValueLaw | libc/conv.c:18-21 | each place counts ten times those behind it, with 0 to 9 for the digits |
| Conv.AtoiOfSigned | libc/conv.c:10-16 | a leading plus is skipped, a leading minus negates, and a digit in front is no sign |
| Conv.AtoiOfItoa | libc/conv.c:5-43 | printing and reading back gives every 32-bit number again |
| Conv.ItoaIsDecimal | libc/conv.c:25-43 | the text is a decimal numeral if and only if the number is not the minimum |
| Conv.NoLeadingZero | libc/conv.c:33-36 | no number but zero has a leading zero |
| Conv.UtoaValue | libc/conv.c:45-54 | decimal digits with the value of the number, over the whole unsigned range |
| Conv.ItohIsShortest | libc/conv.c:68-80 | the shortest even-length upper-case hexadecimal string with the value of the number |
| Conv.HexValueLaw | libc/conv.c:68-80 | the sixteen hexadecimal digits in order, and the weight of a place |
| Conv.ReadInt | libc/conv.c:5-23 | the loop with its wrap-around at every step, characters being signed bytes |
| Conv.ItoaInto | libc/conv.c:25-43 | the buffer holds the terminated text |
| Conv.UtoaInto | libc/conv.c:45-54 | the buffer holds the terminated text |
| Conv.NumHexDigits | libc/conv.c:57-66 | the number of hexadecimal digits, one for zero |
| Conv.ItohInto | libc/conv.c:68-80 | the buffer holds the terminated text |
| Printf.PutPiece | libc/printf.c:22-74 | one piece of the format appends its text and consumes its argument, if it takes one |
| Printf.Vsprintf | libc/printf.c:10-78 | the buffer receives exactly the rendered text of the parsed format with a terminator, and the result is its length |
| Printf.RenderJoin | libc/printf.c:20-76 | formats one behind the other print one behind the other, each with its own arguments |
| Printf.LiteralText | libc/printf.c:25-29 | a character other than the percent sign prints itself, and %% prints one percent sign |
| Printf.UnknownText | libc/printf.c:24-70 | an unknown specifier takes no argument and prints nothing |
| Printf.DecimalText | libc/printf.c:46-53 | %d of n reads back as n and is a decimal numeral unless n is the minimum |
| Printf.UnsignedText | libc/printf.c:54-61 | %u prints decimal digits with the value of the number |
| Printf.HexText | libc/printf.c:62-69 | %x prints upper-case hexadecimal of even length with the value of the number as unsigned |
| Printf.StringText | libc/printf.c:30-45 | %s prints the string or "(null)", and %c one character |

## Left out

- 32-bit wrap-around of addresses and exhaustion of the heap: the code never checks either, and addresses are unbounded here.
- Client writes are whole words inside a live allocation; byte writes within a word are not distinguished.
- VirtualMemory.Pager.VmemInit: asks at the first call for a heap whose unused memory is zero and whose end is not 8 short of a page boundary, and at a later call for the identity map that the first one left.
- VirtualMemory.Pager.PmemMapaddr: asks for a frame inside the bitmap, past which the code would set a bit of other memory.
- VirtualMemory.Pager.VmemGet: when a table is missing, asks that the heap can hand out a page safely, by the condition of `AllocGoodIffSafe`.
- Terminal.Tty.Write: asks that no backspace arrives at the origin; the store before the screen that follows, and what is written with the cursor off the screen, are not modelled.
- Terminal.Tty.KbdIrq: asks that a pressed key lies inside the scancode tables and that fewer than 511 characters are pending, where the code would leave its arrays; the flags `irq` and `special`, and `tty_readchar` which uses them, are not modelled.
- FileSystem.Vfs.FsLookup: the bytes of the temporary copy are kept in an array of their own; the heap records its allocation and release.
- Ramfs.Ramdisk.Init: the inodes are values; their bytes in the allocated memory are not modelled. File headers with a wrong magic number, on which the code asserts, are excluded.
- Ramfs.Ramdisk.Read: asks that the file lies inside the image and fits the buffer; the code checks neither.
- Printf.Vsprintf: asks for arguments of the types the format names and for a buffer that is large enough, as C does; a format ending in a lone percent sign is excluded.
- `strcmp`, `strncmp`, `strstr` and `strnstr`: name comparison is equality of strings; the searches would repeat what is stated for `memmem`.
- `memcpy`, `memset`, `memcmp` and `strlen` are taken as specified.
- Boot code, interrupt tables, port drivers, the shell's dispatch, serial logging, the rest of ACPI and the tar file system.
