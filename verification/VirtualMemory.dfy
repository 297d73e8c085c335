/** The kernel's virtual memory: `pmem.c` and `vmem.c` as they change the heap's memory. */
module VirtualMemory {
  import opened Memory
  import opened Bits
  import opened Blocks
  import opened HeapTheory
  import opened Kmalloc
  import opened HeapRuns
  import opened Paging
  import opened Mapping

  lemma {:induction false} FreeFromKept(m: Mem, m': Mem, fs: nat, i: nat)
    requires SameFrames(m, m', fs)
    ensures FreeFrom(m', fs, i) == FreeFrom(m, fs, i)
    decreases NPAGES - i
  {
    if i < NPAGES {
      FramesKept(m, m', fs, i);
      FreeFromKept(m, m', fs, i + 1);
    }
  }

  /** `memset(p, 0, n)`. */
  function Zeroed(m: Mem, p: nat, n: nat): Mem {
    map a | a in m && !(p <= a < p + n) :: m[a]
  }

  lemma ZeroedReads(m: Mem, p: nat, n: nat, a: int)
    ensures Rd(Zeroed(m, p, n), a) == if p <= a < p + n then 0 else Rd(m, a)
  {
  }

  /** Clearing a live page keeps the heap sound and every other word as it was. */
  lemma ZeroedKeeps(m: Mem, bs: seq<Block>, p: nat)
    requires HeapInv(m, bs) && LivePage(bs, p)
    ensures var m' := Zeroed(m, p, PAGE);
            && HeapInv(m', bs) && (UnusedZero(m, bs) ==> UnusedZero(m', bs))
            && forall a :: Rd(m', a) == if p <= a < p + PAGE then 0 else Rd(m, a)
  {
    var m' := Zeroed(m, p, PAGE);
    forall a ensures Rd(m', a) == if p <= a < p + PAGE then 0 else Rd(m, a) { ZeroedReads(m, p, PAGE, a); }
    ZeroedInv(m, m', bs, p);
  }

  lemma ZeroedInv(m: Mem, m': Mem, bs: seq<Block>, p: nat)
    requires HeapInv(m, bs) && LivePage(bs, p)
    requires forall a :: Rd(m', a) == if p <= a < p + PAGE then 0 else Rd(m, a)
    ensures HeapInv(m', bs)
  {
    var k :| 0 <= k < |bs| && bs[k].used && bs[k].addr == p - BLOCKSIZ && bs[k].size >= PAGE;
    OrderedAll(bs);
    forall j | 0 <= j < |bs| ensures HeaderOk(m', bs, j) {
      assert HeaderOk(m, bs, j);
    }
    forall a | a >= Last(bs).End() ensures Rd(m', a) == 0 { assert Rd(m, a) == 0; }
  }

  /** A zero page serves as an empty directory. */
  lemma EmptyDirectory(m: Mem, bs: seq<Block>, fs: nat, dir: nat)
    requires LivePage(bs, fs) && LivePage(bs, dir) && fs != dir
    requires forall a | dir <= a < dir + PAGE :: Rd(m, a) == 0
    ensures PagesOk(m, bs, fs, dir)
    ensures forall j | 0 <= j < 1024 * 1024 :: Entry(m, dir, j) == 0
  {
    forall i | 0 <= i < 1024 ensures Rd(m, dir + 4 * i) == 0 && TableOk(m, bs, fs, dir, i) {
      assert dir <= dir + 4 * i < dir + PAGE;
    }
    forall i, j | 0 <= i < j < 1024 ensures TablesApart(m, dir, i, j) { assert Rd(m, dir + 4 * i) == 0; }
    forall j | 0 <= j < 1024 * 1024 ensures Entry(m, dir, j) == 0 { assert Rd(m, dir + 4 * (j / 1024)) == 0; }
  }

  // ----- A table made of memory that was used before -------------------------------------------------

  const BITMAP := HEAP_BASE + BLOCKSIZ
  const DIRECTORY := 0x402000
  const SCRATCH := 0x404000

  /** The heap with a bitmap and a directory, and with a third page behind them. */
  const TWO_PAGES := [Block(HEAP_BASE, 0x1FE0, true), Block(DIRECTORY - BLOCKSIZ, PAGE, true)]
  const THREE_PAGES := [TWO_PAGES[0], Block(DIRECTORY - BLOCKSIZ, 0x1FF0, true), Block(SCRATCH - BLOCKSIZ, PAGE, true)]

  lemma PageBlocks(shift: nat)
    requires shift == PAGE_ALIGN_SHIFT
    ensures Placed([Block(HEAP_BASE, PAGE, true)], false, PAGE, shift, 0).0 == TWO_PAGES
    ensures Placed(TWO_PAGES, false, PAGE, shift, 0).0 == THREE_PAGES
    ensures !Misfit([Block(HEAP_BASE, PAGE, true)], shift) && !Misfit(TWO_PAGES, shift)
  {
    PageShift();
    var b1 := [Block(HEAP_BASE, PAGE, true)];
    LowIsMod(b1[0].End(), shift);
    LowIsMod(b1[0].End() + BLOCKSIZ, shift);
    assert Placed(b1, false, PAGE, shift, 0) == Placed(b1, false, PAGE, shift, 1);
    LowIsMod(TWO_PAGES[1].End(), shift);
    LowIsMod(TWO_PAGES[1].End() + BLOCKSIZ, shift);
    assert Placed(TWO_PAGES, false, PAGE, shift, 0) == Placed(TWO_PAGES, false, PAGE, shift, 1)
        == Placed(TWO_PAGES, false, PAGE, shift, 2);
  }

  /** One more allocation of a page, from unused memory that is zero. */
  lemma ReachesPage(s: HeapState, ops: seq<Op>, bs: seq<Block>, align: nat)
    requires Reaches(s, ops, bs) && UnusedZero(Run(s, ops).mem, bs) && !Misfit(bs, align) && !(Pristine(bs) && align > 0)
    ensures var ops', bs' := ops + [Alloc(PAGE, align)], Placed(bs, false, PAGE, align, 0);
            && Reaches(s, ops', bs'.0) && UnusedZero(Run(s, ops').mem, bs'.0)
            && var t := bs'.0[bs'.1].Data(); forall a | t <= a < t + PAGE :: Rd(Run(s, ops').mem, a) == 0
  {
    var now := Run(s, ops);
    StaleOnlyMisfit(now.mem, bs, align);
    assert RoundUp8(PAGE) == PAGE;
    RunAppend(s, ops, Alloc(PAGE, align));
    AllocKeeps(now, PAGE, align);
    var (m', q) := LookupMem(now.mem, 0, PAGE, align, |bs| + 1);
    var bs' := Placed(bs, false, PAGE, align, 0).0;
    AllocRealises(now.mem, bs, m', bs', PAGE, align, q + BLOCKSIZ);
    AllocIsZero(now.mem, bs, m', bs', PAGE, align, q + BLOCKSIZ);
  }

  const PAGE_OPS := [Alloc(PAGE, 0)] + [Alloc(PAGE, PAGE_ALIGN_SHIFT)]

  lemma ReachesDirectory(s: HeapState)
    requires Initial(s)
    ensures Reaches(s, PAGE_OPS, TWO_PAGES) && UnusedZero(Run(s, PAGE_OPS).mem, TWO_PAGES)
    ensures forall a | DIRECTORY <= a < DIRECTORY + PAGE :: Rd(Run(s, PAGE_OPS).mem, a) == 0
  {
    var b0, b1 := [Block(HEAP_BASE, 0, false)], [Block(HEAP_BASE, PAGE, true)];
    ReachesStart(s);
    ZeroedHeap(s.mem, s.blocks);
    ReachesPage(s, [], b0, 0);
    assert Placed(b0, false, PAGE, 0, 0).0 == b1;
    assert [] + [Alloc(PAGE, 0)] == [Alloc(PAGE, 0)];
    PageBlocks(PAGE_ALIGN_SHIFT);
    ReachesPage(s, [Alloc(PAGE, 0)], b1, PAGE_ALIGN_SHIFT);
    var placed := Placed(b1, false, PAGE, PAGE_ALIGN_SHIFT, 0);
    assert placed == Placed(b1, false, PAGE, PAGE_ALIGN_SHIFT, 1);
    assert placed.1 == 1;
  }

  /** A page is taken, its first word written, and the page freed. */
  function ScratchOps(v: nat): seq<Op> {
    PAGE_OPS + [Alloc(PAGE, PAGE_ALIGN_SHIFT)] + [Write(SCRATCH, v)] + [Release(SCRATCH)]
  }

  const SCRATCH_FREE := THREE_PAGES[2 := Block(SCRATCH - BLOCKSIZ, PAGE, false)]

  lemma ReachesScratch(s: HeapState, v: nat)
    requires Initial(s)
    ensures Reaches(s, ScratchOps(v), SCRATCH_FREE)
    ensures Rd(Run(s, ScratchOps(v)).mem, SCRATCH) == v
    ensures forall a | DIRECTORY <= a < DIRECTORY + PAGE :: Rd(Run(s, ScratchOps(v)).mem, a) == 0
  {
    ReachesDirectory(s);
    PageBlocks(PAGE_ALIGN_SHIFT);
    ReachesPage(s, PAGE_OPS, TWO_PAGES, PAGE_ALIGN_SHIFT);
    var o3 := PAGE_OPS + [Alloc(PAGE, PAGE_ALIGN_SHIFT)];
    var o4 := o3 + [Write(SCRATCH, v)];
    assert InData(THREE_PAGES[2], SCRATCH);
    RunAppend(s, o3, Write(SCRATCH, v));
    StepKeepsInv(Run(s, o3), Write(SCRATCH, v));
    ReachesFree(s, o4, THREE_PAGES, 2);
    assert Freed(THREE_PAGES, 2) == SCRATCH_FREE;
    RunAppend(s, o4, Release(SCRATCH));
    assert IndexAt(THREE_PAGES, SCRATCH, 0) == 2;
    FreeRealises(Run(s, o4).mem, THREE_PAGES, 2);
    InDataNotHeader(THREE_PAGES, 2, SCRATCH);
    forall a | DIRECTORY <= a < DIRECTORY + PAGE ensures Rd(Run(s, ScratchOps(v)).mem, a) == 0 {
      DirectoryKept(s, v, a);
    }
  }

  lemma DirectoryKept(s: HeapState, v: nat, a: int)
    requires Reaches(s, PAGE_OPS, TWO_PAGES) && SafeRun(s, ScratchOps(v)) && DIRECTORY <= a < DIRECTORY + PAGE
    ensures Rd(Run(s, ScratchOps(v)).mem, a) == Rd(Run(s, PAGE_OPS).mem, a)
  {
    var s2, o2 := Run(s, PAGE_OPS), PAGE_OPS;
    var h, o3 := DIRECTORY - BLOCKSIZ, o2 + [Alloc(PAGE, PAGE_ALIGN_SHIFT)];
    var o4 := o3 + [Write(SCRATCH, v)];
    RunAppend(s, o2, Alloc(PAGE, PAGE_ALIGN_SHIFT));
    RunAppend(s, o3, Write(SCRATCH, v));
    RunAppend(s, o4, Release(SCRATCH));
    assert HasLive(TWO_PAGES, h, PAGE) by { assert TWO_PAGES[1].used; }
    StepKeepsContents(s2, Alloc(PAGE, PAGE_ALIGN_SHIFT), h, PAGE, a);
    StepKeepsInv(s2, Alloc(PAGE, PAGE_ALIGN_SHIFT));
    StepKeepsContents(Run(s, o3), Write(SCRATCH, v), h, PAGE, a);
    StepKeepsInv(Run(s, o3), Write(SCRATCH, v));
    StepKeepsContents(Run(s, o4), Release(SCRATCH), h, PAGE, a);
  }

  lemma ScratchIsNext(m: Mem, shift: nat)
    requires shift == PAGE_ALIGN_SHIFT
    ensures FirstFit(SCRATCH_FREE, PAGE, shift, 0) == 2
    ensures var placed := Placed(SCRATCH_FREE, Stale(m, SCRATCH_FREE, shift), PAGE, shift, 0);
            placed.0[placed.1].Data() == SCRATCH
  {
    PageShift();
    LowIsMod(SCRATCH, shift);
    var stale := Stale(m, SCRATCH_FREE, shift);
    assert Placed(SCRATCH_FREE, stale, PAGE, shift, 0) == Placed(SCRATCH_FREE, stale, PAGE, shift, 1)
        == Placed(SCRATCH_FREE, stale, PAGE, shift, 2);
    assert FirstFit(SCRATCH_FREE, PAGE, shift, 0) == FirstFit(SCRATCH_FREE, PAGE, shift, 1)
        == FirstFit(SCRATCH_FREE, PAGE, shift, 2);
  }

  lemma ScratchStructure(s: HeapState, v: nat)
    requires Initial(s)
    ensures SafeRun(s, ScratchOps(v))
    ensures var now := Run(s, ScratchOps(v));
            && HeapInv(now.mem, now.blocks) && PagesOk(now.mem, now.blocks, BITMAP, DIRECTORY)
            && CanTakePage(now.mem, now.blocks) && PageTaken(now.mem, now.blocks) == SCRATCH
            && Rd(now.mem, SCRATCH) == v
            && forall a | DIRECTORY <= a < DIRECTORY + PAGE :: Rd(now.mem, a) == 0
  {
    ReachesScratch(s, v);
    var now := Run(s, ScratchOps(v));
    ScratchIsNext(now.mem, PAGE_ALIGN_SHIFT);
    assert LivePage(SCRATCH_FREE, BITMAP) by { assert SCRATCH_FREE[0].used; }
    assert LivePage(SCRATCH_FREE, DIRECTORY) by { assert SCRATCH_FREE[1].used; }
    EmptyDirectory(now.mem, now.blocks, BITMAP, DIRECTORY);
  }

  /**
   From the zeroed heap: a bitmap, an empty directory, and a third page that is written and freed.
   The next table is made of that page, and what was written there becomes a page table entry.
   */
  lemma DirtyTableIsReachable(s: HeapState, v: nat, slot: nat)
    requires Initial(s) && v % 2 == 1 && slot < 1024
    ensures SafeRun(s, ScratchOps(v))
    ensures var now := Run(s, ScratchOps(v));
            var (m1, q) := LookupMem(now.mem, 0, PAGE, PAGE_ALIGN_SHIFT, |now.blocks| + 1);
            var pde := Or(Or(q + BLOCKSIZ, P_PRESENT), P_WRITABLE);
            && PagesOk(now.mem, now.blocks, BITMAP, DIRECTORY) && Rd(now.mem, DIRECTORY + 4 * slot) == 0
            && q + BLOCKSIZ == SCRATCH && !SameTranslations(now.mem, m1[DIRECTORY + 4 * slot := pde], DIRECTORY)
  {
    ScratchStructure(s, v);
    var now := Run(s, ScratchOps(v));
    DirtyTable(now.mem, now.blocks, slot, v);
  }

  lemma DirtyTable(m: Mem, bs: seq<Block>, slot: nat, v: nat)
    requires HeapInv(m, bs) && PagesOk(m, bs, BITMAP, DIRECTORY) && CanTakePage(m, bs) && PageTaken(m, bs) == SCRATCH
    requires slot < 1024 && v % 2 == 1 && Rd(m, SCRATCH) == v
    requires forall a | DIRECTORY <= a < DIRECTORY + PAGE :: Rd(m, a) == 0
    ensures var (m1, q) := LookupMem(m, 0, PAGE, PAGE_ALIGN_SHIFT, |bs| + 1);
            var pde := Or(Or(q + BLOCKSIZ, P_PRESENT), P_WRITABLE);
            && Rd(m, DIRECTORY + 4 * slot) == 0
            && q + BLOCKSIZ == SCRATCH && !SameTranslations(m, m1[DIRECTORY + 4 * slot := pde], DIRECTORY)
  {
    var (m1, q) := LookupMem(m, 0, PAGE, PAGE_ALIGN_SHIFT, |bs| + 1);
    var bs1 := Placed(bs, Stale(m, bs, PAGE_ALIGN_SHIFT), PAGE, PAGE_ALIGN_SHIFT, 0).0;
    var t := q + BLOCKSIZ;
    assert DIRECTORY <= DIRECTORY + 4 * slot < DIRECTORY + PAGE;
    PageAllocLive(m, bs, m1, bs1, t);
    DirtyTableAt(m, bs, m1, bs1, slot, t);
  }

  lemma DirtyTableAt(m: Mem, bs: seq<Block>, m1: Mem, bs1: seq<Block>, slot: nat, t: nat)
    requires HeapInv(m, bs) && PagesOk(m, bs, BITMAP, DIRECTORY) && CanTakePage(m, bs)
    requires AllocStep(m, bs, m1, bs1, PAGE, PAGE_ALIGN_SHIFT, t)
    requires slot < 1024 && Rd(m, DIRECTORY + 4 * slot) == 0 && Rd(m, t) % 2 == 1
    ensures !SameTranslations(m, m1[DIRECTORY + 4 * slot := Or(Or(t, P_PRESENT), P_WRITABLE)], DIRECTORY)
  {
    NewTableExact(m, bs, m1, bs1, BITMAP, DIRECTORY, slot, t, Or(Or(t, P_PRESENT), P_WRITABLE));
    assert Rd(m, t + 4 * 0) % 2 == 1;
  }

  // ----- Start-up ---------------------------------------------------------------------------------------

  const TTY_SIZE := 524

  lemma ZeroedHeap(m: Mem, bs: seq<Block>)
    requires Pristine(bs) && ZeroFrom(m, HEAP_BASE)
    ensures HeapInv(m, bs) && UnusedZero(m, bs)
  {
    assert Sound(bs, 0) && HeaderOk(m, bs, 0);
  }

  /** The heap at boot: the terminal's structure in the root block, then the frame bitmap. */
  lemma BootBlocks(stale: bool)
    ensures var b0 := [Block(HEAP_BASE, 0, false)];
            var b1 := Placed(b0, stale, RoundUp8(TTY_SIZE), 0, 0).0;
            var b2 := Placed(b1, false, PAGE, 0, 0).0;
            b1 == [Block(HEAP_BASE, 528, true)] && b2 == [Block(HEAP_BASE, 528, true), Block(HEAP_BASE + 544, PAGE, true)]
  {
    var b1 := [Block(HEAP_BASE, 528, true)];
    assert Placed(b1, false, PAGE, 0, 0) == Placed(b1, false, PAGE, 0, 1);
    assert NewHeader(HEAP_BASE + 544, 0) == HEAP_BASE + 544;
    assert Extend(b1, PAGE, 0) == [Block(HEAP_BASE, 528, true), Block(HEAP_BASE + 544, PAGE, true)];
  }

  class Pager {
    const heap: KernelHeap
    var frameSet: nat
    var tables: nat
    var cr3: nat

    constructor (heap: KernelHeap)
      ensures this.heap == heap && frameSet == 0 && tables == 0
    {
      this.heap := heap;
      frameSet, tables, cr3 := 0, 0, 0;
    }

    /** The heap and the structures under the page directory dir are in order. */
    ghost predicate Structured(dir: nat)
      reads this, heap
    {
      && heap.root == HEAP_BASE
      && HeapInv(heap.mem, heap.blocks)
      && PagesOk(heap.mem, heap.blocks, frameSet, dir)
    }

    /** The directory slot of page j is empty. */
    ghost predicate Tableless(dir: nat, j: nat)
      reads this, heap
    {
      Rd(heap.mem, dir + 4 * (j / 1024)) == 0
    }

    method PmemSet(addr: nat)
      modifies heap`mem
      ensures heap.mem == MarkWord(old(heap.mem), frameSet, addr / PAGE)
    {
      var frame := addr / PAGE;
      var w := frameSet + 4 * (frame / 32);
      heap.mem := heap.mem[w := Or(Rd(heap.mem, w), Pow2(frame % 32))];
    }

    method PmemClear(addr: nat)
      modifies heap`mem
      ensures heap.mem == UnmarkWord(old(heap.mem), frameSet, addr / PAGE)
    {
      var frame := addr / PAGE;
      var w := frameSet + 4 * (frame / 32);
      Pow2Less(frame % 32, 32);
      heap.mem := heap.mem[w := And(Rd(heap.mem, w), Not32(Pow2(frame % 32)))];
    }

    method PmemTest(addr: nat) returns (r: nat)
      ensures r != 0 <==> FrameUsed(heap.mem, frameSet, addr / PAGE)
    {
      var frame := addr / PAGE;
      r := And(Rd(heap.mem, frameSet + 4 * (frame / 32)), Pow2(frame % 32));
      TestBit(Rd(heap.mem, frameSet + 4 * (frame / 32)), frame % 32);
    }

    /** The address of the least free frame below 16 MB, or 0 when there is none. */
    method PmemGetFree() returns (addr: nat)
      ensures addr == PAGE * FreeFrom(heap.mem, frameSet, 0)
      ensures addr % 4096 == 0 && addr < 0x100_0000
      ensures if exists f | 0 <= f < 4096 :: !FrameUsed(heap.mem, frameSet, f)
              then LeastFree(heap.mem, frameSet, addr / 4096) else addr == 0
    {
      FreeFromFinds(heap.mem, frameSet, 0);
      addr := 0;
      while addr < NPAGES * PAGE
        invariant addr % PAGE == 0 && addr <= NPAGES * PAGE
        invariant FreeFrom(heap.mem, frameSet, 0) == FreeFrom(heap.mem, frameSet, addr / PAGE)
      {
        var used := PmemTest(addr);
        if used == 0 {
          return;
        }
        addr := addr + PAGE;
      }
      addr := 0;
    }

    /** Creates the missing table of a directory slot, from memory that is not cleared. */
    method NewTable(dir: nat, slot: nat) returns (table: nat)
      requires Structured(dir) && slot < 1024 && Rd(heap.mem, dir + 4 * slot) == 0
      requires CanTakePage(heap.mem, heap.blocks)
      modifies heap
      ensures Structured(dir) && table == PageTaken(old(heap.mem), old(heap.blocks))
      ensures Rd(heap.mem, dir + 4 * slot) != 0 && table == TableOf(heap.mem, dir, slot)
      ensures ShowsTable(old(heap.mem), heap.mem, dir, slot, table) && SameFrames(old(heap.mem), heap.mem, frameSet)
      ensures HeapReady(old(heap.mem), old(heap.blocks)) ==> HeapReady(heap.mem, heap.blocks)
    {
      ghost var m, bs := heap.mem, heap.blocks;
      assert RoundUp8(PAGE) == PAGE;
      table := heap.Kmalloca(PAGE, PAGE_ALIGN_SHIFT);
      PageAlloc(m, bs, heap.mem, heap.blocks, table);
      var pde := Or(Or(table, P_PRESENT), P_WRITABLE);
      NewTableShows(m, bs, heap.mem, heap.blocks, frameSet, dir, slot, table, pde);
      heap.mem := heap.mem[dir + 4 * slot := pde];
    }

    /**
     The word of the page's entry. If its table exists nothing changes; otherwise a table is made, and
     the pages of that table then have whatever its memory held as entries.
     */
    method VmemGet(addr: nat, dirptr: nat) returns (pg: nat)
      requires var dir := if dirptr == 0 then cr3 else dirptr;
               && addr < ADDRESS_SPACE && Structured(dir)
               && (Tableless(dir, addr / PAGE) ==> CanTakePage(heap.mem, heap.blocks))
      modifies heap
      ensures var dir := if dirptr == 0 then cr3 else dirptr;
              && Structured(dir) && !Tableless(dir, addr / PAGE) && pg == EntryAddr(heap.mem, dir, addr / PAGE)
              && ShowsFound(old(heap.mem), heap.mem, dir, PageTaken(old(heap.mem), old(heap.blocks)), addr / PAGE)
              && SameFrames(old(heap.mem), heap.mem, frameSet)
              && (old(!Tableless(dir, addr / PAGE)) ==> heap.mem == old(heap.mem) && heap.blocks == old(heap.blocks))
              && (HeapReady(old(heap.mem), old(heap.blocks)) ==> HeapReady(heap.mem, heap.blocks))
    {
      var dir := if dirptr == 0 then cr3 else dirptr;
      var page := addr / PAGE;
      var slot, offset := page / 1024, page % 1024;
      var pde := Rd(heap.mem, dir + 4 * slot);
      var table := pde - pde % PAGE;
      TableSlot(heap.mem, heap.blocks, frameSet, dir, slot);
      if pde % 2 == 0 || table == 0 {
        table := NewTable(dir, slot);
      }
      pg := table + 4 * offset;
    }

    method PmemMap(pg: nat, physaddr: nat, flags: nat)
      modifies heap`mem
      ensures var phys := if physaddr == 0 then PAGE * FreeFrom(old(heap.mem), frameSet, 0) else physaddr;
              heap.mem == MapMem(old(heap.mem), frameSet, pg, phys, flags)
    {
      var phys := physaddr;
      if phys == 0 {
        phys := PmemGetFree();
      }
      heap.mem := heap.mem[pg := Or(Rd(heap.mem, pg), Or(Or(phys, P_PRESENT), flags))];
      PmemSet(phys);
    }

    /**
     On every sound heap: the frame and flags are or-ed into the page's entry and exactly that frame
     becomes used. Only that page's translation changes, and it becomes the given frame, if and only
     if nothing found in its entry or in a new table gets in the way (FreshMapsOnly: for an unmapped
     page that holds when its table exists, or no free block fits a page).
     */
    method PmemMapaddr(virtaddr: nat, physaddr: nat, flags: nat, dir: nat)
      requires virtaddr < ADDRESS_SPACE && dir != 0 && Structured(dir)
      requires Tableless(dir, virtaddr / PAGE) ==> CanTakePage(heap.mem, heap.blocks)
      requires physaddr / PAGE < 8 * PAGE
      modifies heap
      ensures Structured(dir)
      ensures var m, j, t := old(heap.mem), virtaddr / PAGE, PageTaken(old(heap.mem), old(heap.blocks));
              var phys := if physaddr == 0 then PAGE * FreeFrom(m, frameSet, 0) else physaddr;
              var word := MapWord(phys, flags);
              && MapsFound(m, heap.mem, frameSet, dir, t, j, word, phys / PAGE)
              && (MapsOnly(m, heap.mem, dir, j, FrameOf(word), Writable(word)) <==> CleanFor(m, dir, t, j, word))
      ensures HeapReady(old(heap.mem), old(heap.blocks)) ==> HeapReady(heap.mem, heap.blocks)
    {
      ghost var m, bs := heap.mem, heap.blocks;
      ghost var t := PageTaken(m, bs);
      var pg := VmemGet(virtaddr, dir);
      MapEntry(pg, physaddr, flags, dir, virtaddr / PAGE, m, bs, t);
    }

    /** The second half of `pmem_mapaddr`, once the entry's table exists. */
    method MapEntry(pg: nat, physaddr: nat, flags: nat, ghost dir: nat, ghost j: nat,
                    ghost m: Mem, ghost bs: seq<Block>, ghost t: int)
      requires Structured(dir) && j < 1024 * 1024 && !Tableless(dir, j) && pg == EntryAddr(heap.mem, dir, j)
      requires PagesOk(m, bs, frameSet, dir) && ShowsFound(m, heap.mem, dir, t, j) && SameFrames(m, heap.mem, frameSet)
      requires physaddr / PAGE < 8 * PAGE
      modifies heap`mem
      ensures Structured(dir)
      ensures var phys := if physaddr == 0 then PAGE * FreeFrom(m, frameSet, 0) else physaddr;
              var word := MapWord(phys, flags);
              && MapsFound(m, heap.mem, frameSet, dir, t, j, word, phys / PAGE)
              && (MapsOnly(m, heap.mem, dir, j, FrameOf(word), Writable(word)) <==> CleanFor(m, dir, t, j, word))
      ensures HeapReady(old(heap.mem), heap.blocks) ==> HeapReady(heap.mem, heap.blocks)
    {
      FreeFromKept(m, heap.mem, frameSet, 0);
      ghost var phys := if physaddr == 0 then PAGE * FreeFrom(m, frameSet, 0) else physaddr;
      assert phys / PAGE < 8 * PAGE;
      MapResult(m, bs, heap.mem, heap.blocks, frameSet, dir, t, j, phys, flags);
      PmemMap(pg, physaddr, flags);
    }

    /** A live page becomes the bitmap, and no frame is used. */
    method PmemInit()
      requires heap.Valid()
      modifies heap, this`frameSet
      ensures heap.Valid() && LivePage(heap.blocks, frameSet)
      ensures UnusedZero(old(heap.mem), old(heap.blocks)) ==> UnusedZero(heap.mem, heap.blocks)
      ensures forall f | 0 <= f < 8 * PAGE :: !FrameUsed(heap.mem, frameSet, f)
      ensures heap.blocks == Placed(old(heap.blocks), Stale(old(heap.mem), old(heap.blocks), 0), PAGE, 0, 0).0
    {
      ghost var m, bs := heap.mem, heap.blocks;
      assert RoundUp8(PAGE) == PAGE;
      StaleOnlyMisfit(m, bs, 0);
      frameSet := heap.Kmalloca(PAGE, 0);
      AllocIsZero(m, bs, heap.mem, heap.blocks, PAGE, 0, frameSet);
      assert LivePage(heap.blocks, frameSet);
      ClearBitmap();
    }

    method ClearBitmap()
      requires heap.Valid() && LivePage(heap.blocks, frameSet)
      modifies heap`mem
      ensures heap.Valid() && (UnusedZero(old(heap.mem), heap.blocks) ==> UnusedZero(heap.mem, heap.blocks))
      ensures forall f | 0 <= f < 8 * PAGE :: !FrameUsed(heap.mem, frameSet, f)
    {
      ZeroedKeeps(heap.mem, heap.blocks, frameSet);
      heap.mem := Zeroed(heap.mem, frameSet, PAGE);
      forall f | 0 <= f < 8 * PAGE ensures !FrameUsed(heap.mem, frameSet, f) {
        assert Rd(heap.mem, frameSet + 4 * (f / 32)) == 0;
        ZeroBit(f % 32);
      }
    }

    /** The page directory: one zeroed, page-aligned page. */
    method NewDirectory()
      requires heap.Valid() && CanTakePage(heap.mem, heap.blocks) && LivePage(heap.blocks, frameSet)
      modifies heap, this`tables, this`cr3
      ensures tables != 0 && Structured(tables) && cr3 == tables
      ensures SameFrames(old(heap.mem), heap.mem, frameSet)
      ensures forall j | 0 <= j < 1024 * 1024 :: Entry(heap.mem, tables, j) == 0
      ensures HeapReady(old(heap.mem), old(heap.blocks)) ==> HeapReady(heap.mem, heap.blocks)
    {
      ghost var m, bs := heap.mem, heap.blocks;
      assert RoundUp8(PAGE) == PAGE;
      tables := heap.Kmalloca(PAGE, PAGE_ALIGN_SHIFT);
      PageAlloc(m, bs, heap.mem, heap.blocks, tables);
      ClearDirectory();
    }

    method ClearDirectory()
      requires heap.Valid() && LivePage(heap.blocks, tables) && LivePage(heap.blocks, frameSet) && tables != frameSet
      modifies heap`mem, this`cr3
      ensures tables != 0 && Structured(tables) && cr3 == tables
      ensures SameFrames(old(heap.mem), heap.mem, frameSet)
      ensures forall j | 0 <= j < 1024 * 1024 :: Entry(heap.mem, tables, j) == 0
      ensures HeapReady(old(heap.mem), heap.blocks) ==> HeapReady(heap.mem, heap.blocks)
    {
      PagesApart(heap.blocks, tables, frameSet);
      ZeroedKeeps(heap.mem, heap.blocks, tables);
      heap.mem := Zeroed(heap.mem, tables, PAGE);
      cr3 := tables;
      EmptyDirectory(heap.mem, heap.blocks, frameSet, tables);
    }

    /**
     vmem_init maps pages 0..4095 in order, each with no frame named, and that makes every address
     below 16 MB translate to itself, with exactly frames 0..4095 in use. Called again, it finds no
     free frame and leaves that so.
     */
    method VmemInit()
      requires heap.Valid() && LivePage(heap.blocks, frameSet)
      requires tables == 0 ==>
                 HeapReady(heap.mem, heap.blocks) && forall f | 0 <= f < 0x8000 :: !FrameUsed(heap.mem, frameSet, f)
      requires tables != 0 ==>
                 PagesOk(heap.mem, heap.blocks, frameSet, tables) && IdentityUpTo(heap.mem, frameSet, tables, 4096)
      modifies heap, this`tables, this`cr3
      ensures tables != 0 && Structured(tables)
      ensures if old(tables) == 0 then cr3 == tables else tables == old(tables) && cr3 == old(cr3)
      ensures IdentityUpTo(heap.mem, frameSet, tables, 4096)
      ensures forall va | 0 <= va < 0x1_0000_0000 ::
                Walk(heap.mem, tables, va) == if va < 0x100_0000 then Maps(va, true) else Fault
      ensures forall f | 0 <= f < 0x8000 :: FrameUsed(heap.mem, frameSet, f) <==> f < 4096
      ensures old(tables) == 0 ==> HeapReady(heap.mem, heap.blocks)
    {
      var first := tables == 0;
      if first {
        ghost var m := heap.mem;
        PageAllocSafe(m, heap.blocks);
        NewDirectory();
        forall f | 0 <= f < 0x8000 ensures !FrameUsed(heap.mem, frameSet, f) { FramesKept(m, heap.mem, frameSet, f); }
      }
      for i := 0 to NPAGES
        invariant tables != 0 && Structured(tables) && (first ==> HeapReady(heap.mem, heap.blocks))
        invariant IdentityUpTo(heap.mem, frameSet, tables, if first then i else 4096)
        invariant if first then cr3 == tables else tables == old(tables) && cr3 == old(cr3)
      {
        if first { MapFirst(i); } else { MapAgain(i); }
      }
      forall va | 0 <= va < 0x1_0000_0000
        ensures Walk(heap.mem, tables, va) == if va < 0x100_0000 then Maps(va, true) else Fault
      {
        IdentityWalk(heap.mem, heap.blocks, frameSet, tables, va);
      }
    }

    /** One turn of that loop when the tables are being built. */
    method MapFirst(i: nat)
      requires i < 4096 && tables != 0 && Structured(tables) && HeapReady(heap.mem, heap.blocks)
      requires IdentityUpTo(heap.mem, frameSet, tables, i)
      modifies heap
      ensures Structured(tables) && HeapReady(heap.mem, heap.blocks)
      ensures IdentityUpTo(heap.mem, frameSet, tables, i + 1)
    {
      ghost var m, t := heap.mem, PageTaken(heap.mem, heap.blocks);
      IdentityFreeFrame(m, frameSet, tables, i);
      assert CanTakePage(m, heap.blocks) by { PageAllocSafe(m, heap.blocks); }
      ReadyPageIsZero(m, heap.blocks);
      assert i * PAGE / PAGE == i && i * PAGE < ADDRESS_SPACE;
      PmemMapaddr(i * PAGE, 0, P_WRITABLE, tables);
      IdentityNext(m, heap.mem, frameSet, tables, t, i);
    }

    /** And when they exist already. */
    method MapAgain(i: nat)
      requires i < 4096 && tables != 0 && Structured(tables)
      requires IdentityUpTo(heap.mem, frameSet, tables, 4096)
      modifies heap
      ensures Structured(tables)
      ensures IdentityUpTo(heap.mem, frameSet, tables, 4096)
    {
      ghost var m, t := heap.mem, PageTaken(heap.mem, heap.blocks);
      NoFreeFrame(m, frameSet, 0);
      assert IdentityEntry(Entry(m, tables, i), i);
      assert i * PAGE / PAGE == i && i * PAGE < ADDRESS_SPACE;
      PmemMapaddr(i * PAGE, 0, P_WRITABLE, tables);
      IdentityAgain(m, heap.mem, frameSet, tables, t, i);
    }

    /** The memory part of kernel start-up, from a zeroed heap: terminal, frame bitmap, page tables. */
    method Boot() returns (tty: nat)
      requires heap.root == HEAP_BASE && Pristine(heap.blocks) && ZeroFrom(heap.mem, HEAP_BASE)
      requires tables == 0
      modifies heap, this`frameSet, this`tables, this`cr3
      ensures tables != 0 && cr3 == tables && Structured(tables) && HeapReady(heap.mem, heap.blocks)
      ensures forall va | 0 <= va < 0x1_0000_0000 ::
                Walk(heap.mem, tables, va) == if va < 0x100_0000 then Maps(va, true) else Fault
      ensures forall f | 0 <= f < 0x8000 :: FrameUsed(heap.mem, frameSet, f) <==> f < 4096
    {
      ghost var m, bs := heap.mem, heap.blocks;
      ZeroedHeap(m, bs);
      BootBlocks(Stale(m, bs, 0));
      tty := heap.KmallocBytes(TTY_SIZE);
      AllocIsZero(m, bs, heap.mem, heap.blocks, RoundUp8(TTY_SIZE), 0, tty);
      StaleOnlyMisfit(heap.mem, heap.blocks, 0);
      PmemInit();
      VmemInit();
    }
  }
}
