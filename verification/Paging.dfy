/** Physical frames and two-level page tables, both kept in kernel heap memory. */
module Paging {
  import opened Memory
  import opened Bits
  import opened Blocks
  import opened HeapTheory
  import opened Kmalloc
  import opened HeapRuns

  const PAGE_ALIGN_SHIFT := 12
  const NPAGES := 4096
  const ADDRESS_SPACE := 0x1_0000_0000
  const P_PRESENT := 1
  const P_WRITABLE := 2

  // ----- Reading the structures ------------------------------------------------------------

  /** Frame f is marked used in the bitmap at fs. */
  predicate FrameUsed(m: Mem, fs: nat, f: nat) {
    Bit(Rd(m, fs + 4 * (f / 32)), f % 32)
  }

  /** The entry of page j, or zero when its table is absent. */
  function Entry(m: Mem, dir: nat, j: nat): nat {
    var pde := Rd(m, dir + 4 * (j / 1024));
    if pde % 2 == 0 then 0 else Rd(m, pde - pde % PAGE + 4 * (j % 1024))
  }

  datatype Translation = Fault | Maps(phys: nat, writable: bool)

  /** The page walk of the processor: 32-bit paging, section 4.3 of the Intel SDM, volume 3A. */
  function Walk(m: Mem, dir: nat, va: nat): Translation {
    var pde := Rd(m, dir + 4 * (va / 0x400000));
    if pde % 2 == 0 then Fault
    else
      var pte := Rd(m, pde - pde % PAGE + 4 * (va / PAGE % 1024));
      if pte % 2 == 0 then Fault
      else Maps(pte - pte % PAGE + va % PAGE, pde / 2 % 2 == 1 && pte / 2 % 2 == 1)
  }

  /**
   In plain numbers: the directory entry is chosen by the upper ten bits, the table entry by the next
   ten; both must be present (bit 0), and both writable (bit 1) for the page to be.
   */
  lemma WalkLaw(m: Mem, dir: nat, va: nat)
    requires va < 0x1_0000_0000
    ensures var pde := Rd(m, dir + 4 * (va / 0x400000));
            var pte := Rd(m, 4096 * (pde / 4096) + 4 * (va / 4096 % 1024));
            Walk(m, dir, va) ==
            if pde % 2 == 1 && pte % 2 == 1 then Maps(4096 * (pte / 4096) + va % 4096, pde / 2 % 2 == 1 && pte / 2 % 2 == 1)
            else Fault
  {
    var pde := Rd(m, dir + 4 * (va / 0x400000));
    assert pde - pde % PAGE == 4096 * (pde / 4096);
    var pte := Rd(m, pde - pde % PAGE + 4 * (va / 4096 % 1024));
    assert pte - pte % PAGE == 4096 * (pte / 4096);
  }

  function Translate(entry: nat, offset: nat): Translation {
    if entry % 2 == 0 then Fault else Maps(entry - entry % PAGE + offset, entry / 2 % 2 == 1)
  }

  /** The lowest unmarked frame from i on, or frame 0 when all below 16 MB are marked. */
  function FreeFrom(m: Mem, fs: nat, i: nat): (f: nat)
    ensures f < 4096
    decreases NPAGES - i
  {
    if i >= NPAGES then 0 else if !FrameUsed(m, fs, i) then i else FreeFrom(m, fs, i + 1)
  }

  lemma {:induction false} FreeFromIsLeast(m: Mem, fs: nat, i: nat, f: nat)
    requires i <= f < 4096 && !FrameUsed(m, fs, f)
    requires forall g | i <= g < f :: FrameUsed(m, fs, g)
    ensures FreeFrom(m, fs, i) == f
    decreases NPAGES - i
  {
    if i < f { FreeFromIsLeast(m, fs, i + 1, f); }
  }

  /** With all 4096 frames below 16 MB used, frame 0 stands for none. */
  lemma {:induction false} NoFreeFrame(m: Mem, fs: nat, i: nat)
    requires forall f | 0 <= f < 4096 :: FrameUsed(m, fs, f)
    ensures FreeFrom(m, fs, i) == 0
    decreases 4096 - i
  {
    if i < 4096 { NoFreeFrame(m, fs, i + 1); }
  }

  /** f is free, below 16 MB, and the least such frame. */
  predicate LeastFree(m: Mem, fs: nat, f: nat) {
    f < 4096 && !FrameUsed(m, fs, f) && forall g | 0 <= g < f :: FrameUsed(m, fs, g)
  }

  lemma {:induction false} FreeFromFinds(m: Mem, fs: nat, i: nat)
    requires i <= 4096 && forall g | 0 <= g < i :: FrameUsed(m, fs, g)
    ensures if exists f | 0 <= f < 4096 :: !FrameUsed(m, fs, f) then LeastFree(m, fs, FreeFrom(m, fs, i))
            else FreeFrom(m, fs, i) == 0
    decreases 4096 - i
  {
    if i < 4096 && FrameUsed(m, fs, i) { FreeFromFinds(m, fs, i + 1); }
  }

  // ----- Invariant -----------------------------------------------------------------------------

  function TableOf(m: Mem, dir: nat, i: nat): nat {
    var pde := Rd(m, dir + 4 * i);
    pde - pde % PAGE
  }

  /** A live allocation of one page. */
  predicate LivePage(bs: seq<Block>, p: nat) {
    HasLive(bs, p - BLOCKSIZ, PAGE)
  }

  /** Directory entry i is empty, or present and writable and naming a live page of its own. */
  predicate TableOk(m: Mem, bs: seq<Block>, fs: nat, dir: nat, i: nat) {
    var pde := Rd(m, dir + 4 * i);
    || pde == 0
    || (&& pde % 2 == 1 && pde / 2 % 2 == 1
        && LivePage(bs, TableOf(m, dir, i))
        && TableOf(m, dir, i) != fs && TableOf(m, dir, i) != dir)
  }

  predicate TablesApart(m: Mem, dir: nat, i: nat, j: nat) {
    Rd(m, dir + 4 * i) != 0 && Rd(m, dir + 4 * j) != 0 ==> TableOf(m, dir, i) != TableOf(m, dir, j)
  }

  ghost predicate PagesOk(m: Mem, bs: seq<Block>, fs: nat, dir: nat) {
    && LivePage(bs, fs) && LivePage(bs, dir) && fs != dir
    && (forall i {:trigger TableOk(m, bs, fs, dir, i)} | 0 <= i < 1024 :: TableOk(m, bs, fs, dir, i))
    && (forall i, j {:trigger TablesApart(m, dir, i, j)} | 0 <= i < j < 1024 :: TablesApart(m, dir, i, j))
  }

  /** Unused heap memory is zero and the next page-aligned extension does not run into the tail. */
  ghost predicate HeapReady(m: Mem, bs: seq<Block>) {
    HeapInv(m, bs) && UnusedZero(m, bs) && Last(bs).End() % PAGE != PAGE - 8
  }

  // ----- Words of different pages --------------------------------------------------------------

  /** Two different live pages share no word. */
  lemma PagesApart(bs: seq<Block>, p: nat, q: nat)
    requires Tiled(bs) && LivePage(bs, p) && LivePage(bs, q) && p != q
    ensures p + PAGE <= q || q + PAGE <= p
    ensures p >= HEAP_BASE + BLOCKSIZ
  {
    OrderedAll(bs);
  }

  /** Writing a word of a live page keeps the heap sound. */
  lemma WritePage(m: Mem, bs: seq<Block>, p: nat, a: int, v: nat)
    requires HeapInv(m, bs) && LivePage(bs, p) && p <= a < p + PAGE
    ensures HeapInv(m[a := v], bs)
  {
    var k :| 0 <= k < |bs| && bs[k].used && bs[k].addr == p - BLOCKSIZ && bs[k].size >= PAGE;
    WriteKeepsInv(m, bs, k, a, v);
  }

  /** And it keeps it ready. */
  lemma WriteReady(m: Mem, bs: seq<Block>, p: nat, a: int, v: nat)
    requires HeapReady(m, bs) && LivePage(bs, p) && p <= a < p + PAGE
    ensures HeapReady(m[a := v], bs)
  {
    WritePage(m, bs, p, a, v);
    OrderedAll(bs);
    forall x | Unused(bs, x) ensures x != a {}
  }

  /** The walk depends on a page's entry alone: every present table is writable. */
  lemma WalkIsEntry(m: Mem, bs: seq<Block>, fs: nat, dir: nat, va: nat)
    requires PagesOk(m, bs, fs, dir) && va < ADDRESS_SPACE
    ensures Walk(m, dir, va) == Translate(Entry(m, dir, va / PAGE), va % PAGE)
  {
    var i := va / 0x400000;
    assert va / PAGE / 1024 == i;
    assert TableOk(m, bs, fs, dir, i);
  }

  // ----- The frame bitmap is a set of frames -------------------------------------------------------

  function MarkWord(m: Mem, fs: nat, f: nat): Mem {
    m[fs + 4 * (f / 32) := Or(Rd(m, fs + 4 * (f / 32)), Pow2(f % 32))]
  }

  function UnmarkWord(m: Mem, fs: nat, f: nat): Mem {
    Pow2Less(f % 32, 32);
    m[fs + 4 * (f / 32) := And(Rd(m, fs + 4 * (f / 32)), Not32(Pow2(f % 32)))]
  }

  /** Setting a frame's bit adds that frame to the set and touches no other. */
  lemma MarkAdds(m: Mem, fs: nat, f: nat, g: nat)
    ensures FrameUsed(MarkWord(m, fs, f), fs, g) <==> g == f || FrameUsed(m, fs, g)
  {
    if g / 32 == f / 32 {
      OrBit(Rd(m, fs + 4 * (f / 32)), Pow2(f % 32), g % 32);
      Pow2Bit(f % 32, g % 32);
    }
  }

  /** Clearing a frame's bit removes that frame and no other. */
  lemma UnmarkRemoves(m: Mem, fs: nat, f: nat, g: nat)
    ensures FrameUsed(UnmarkWord(m, fs, f), fs, g) <==> g != f && FrameUsed(m, fs, g)
  {
    if g / 32 == f / 32 {
      Pow2Less(f % 32, 32);
      AndBit(Rd(m, fs + 4 * (f / 32)), Not32(Pow2(f % 32)), g % 32);
      ComplementBit(Pow2(f % 32), 32, g % 32);
      Pow2Bit(f % 32, g % 32);
    }
  }

  // ----- Taking a page from the heap ------------------------------------------------------------

  lemma PageShift()
    ensures Pow2(PAGE_ALIGN_SHIFT) == PAGE
  {
    Pow2Add(6, 6);
    SmallPowers(6);
  }

  /** kmalloca can hand out a page without harm. */
  predicate CanTakePage(m: Mem, bs: seq<Block>)
    requires |bs| > 0
  {
    AllocSafe(bs, Stale(m, bs, PAGE_ALIGN_SHIFT), PAGE, PAGE_ALIGN_SHIFT)
  }

  /** The page it hands out. */
  function PageTaken(m: Mem, bs: seq<Block>): int
    requires |bs| > 0
  {
    var placed := Placed(bs, Stale(m, bs, PAGE_ALIGN_SHIFT), PAGE, PAGE_ALIGN_SHIFT, 0);
    placed.0[placed.1].Data()
  }

  lemma PageAllocSafe(m: Mem, bs: seq<Block>)
    requires HeapReady(m, bs)
    ensures CanTakePage(m, bs)
  {
    PageShift();
    LowIsMod(Last(bs).End(), PAGE_ALIGN_SHIFT);
  }

  /** After a page is taken, the heap end is where it was or on a page boundary. */
  lemma PageAllocEnd(bs: seq<Block>, shift: nat)
    requires Tiled(bs) && NoEmptyBlock(bs) && Last(bs).End() % PAGE != PAGE - 8
    requires shift > 0 && Pow2(shift) == PAGE
    ensures Last(Placed(bs, false, PAGE, shift, 0).0).End() % PAGE != PAGE - 8
  {
    WalkIsFirstFit(bs, false, PAGE, shift, 0);
    var k := FirstFit(bs, PAGE, shift, 0);
    if k < |bs| {
      TakeFromUnused(bs, k, PAGE, 0);
    } else {
      PageExtendEnd(bs, shift);
    }
  }

  lemma PageExtendEnd(bs: seq<Block>, shift: nat)
    requires Tiled(bs) && Pow2(shift) == PAGE
    ensures Last(Extend(bs, PAGE, shift)).End() % PAGE == 0
  {
    assert Sound(bs, |bs| - 1);
    Multiple8(Last(bs).addr, Last(bs).size);
    ExtendAligned(bs, PAGE, shift);
    var b := Last(Extend(bs, PAGE, shift));
    LowIsMod(b.Data(), shift);
    PageBoundary(b.Data());
  }

  lemma PageBoundary(x: int)
    requires x % PAGE == 0
    ensures (x + PAGE) % PAGE == 0
  {
  }

  /**
   A page is taken from the heap: it is aligned and new, holds the words that were there, and leaves
   every live page as it was. A ready heap stays ready, and then the page is zero.
   */
  ghost predicate TookPage(m: Mem, bs: seq<Block>, m': Mem, bs': seq<Block>, t: nat)
    requires |bs| > 0
  {
    && HeapInv(m', bs') && LivePage(bs', t) && !LivePage(bs, t) && t % PAGE == 0
    && (forall p: nat | LivePage(bs, p) :: LivePage(bs', p)) && SamePages(m, m', bs)
    && (forall a | t <= a < t + PAGE :: Rd(m', a) == Rd(m, a))
    && (HeapReady(m, bs) ==> HeapReady(m', bs') && forall a | t <= a < t + PAGE :: Rd(m, a) == 0)
  }

  lemma PageAlloc(m: Mem, bs: seq<Block>, m': Mem, bs': seq<Block>, t: nat)
    requires HeapInv(m, bs) && CanTakePage(m, bs) && AllocStep(m, bs, m', bs', PAGE, PAGE_ALIGN_SHIFT, t)
    ensures TookPage(m, bs, m', bs', t) && t == PageTaken(m, bs)
  {
    PageAllocLive(m, bs, m', bs', t);
    PageAllocSame(m, bs, m', bs');
    AllocIsZero(m, bs, m', bs', PAGE, PAGE_ALIGN_SHIFT, t);
    if HeapReady(m, bs) { PageAllocReady(m, bs, m', bs', t); }
  }

  lemma PageAllocLive(m: Mem, bs: seq<Block>, m': Mem, bs': seq<Block>, t: nat)
    requires HeapInv(m, bs) && CanTakePage(m, bs) && AllocStep(m, bs, m', bs', PAGE, PAGE_ALIGN_SHIFT, t)
    ensures HeapInv(m', bs') && KeepsLive(bs, bs') && LivePage(bs', t) && !LivePage(bs, t)
    ensures t % PAGE == 0 && t == PageTaken(m, bs) && OnlyHeaders(m, m', bs, bs')
  {
    PageShift();
    AllocRealises(m, bs, m', bs', PAGE, PAGE_ALIGN_SHIFT, t);
    LowIsMod(t, PAGE_ALIGN_SHIFT);
    StaleOnlyMisfit(m, bs, PAGE_ALIGN_SHIFT);
    AllocGoodIffSafe(bs, Stale(m, bs, PAGE_ALIGN_SHIFT), PAGE, PAGE_ALIGN_SHIFT);
  }

  lemma PageAllocSame(m: Mem, bs: seq<Block>, m': Mem, bs': seq<Block>)
    requires Tiled(bs) && Tiled(bs') && KeepsLive(bs, bs') && OnlyHeaders(m, m', bs, bs')
    ensures forall p: nat | LivePage(bs, p) :: LivePage(bs', p)
    ensures SamePages(m, m', bs)
  {
    forall p: nat | LivePage(bs, p) ensures LivePage(bs', p) {
      KeepsHasLive(bs, bs', p - BLOCKSIZ, PAGE);
    }
    forall p: nat, a | LivePage(bs, p) && p <= a < p + PAGE ensures Rd(m', a) == Rd(m, a) {
      ContentsKept(m, m', bs, bs', p - BLOCKSIZ, PAGE, a);
    }
  }

  lemma PageAllocReady(m: Mem, bs: seq<Block>, m': Mem, bs': seq<Block>, t: nat)
    requires HeapReady(m, bs) && AllocStep(m, bs, m', bs', PAGE, PAGE_ALIGN_SHIFT, t)
    ensures Tiled(bs') && UnusedZero(m', bs') && Last(bs').End() % PAGE != PAGE - 8
  {
    PageShift();
    PageAllocSafe(m, bs);
    AllocRealises(m, bs, m', bs', PAGE, PAGE_ALIGN_SHIFT, t);
    AllocIsZero(m, bs, m', bs', PAGE, PAGE_ALIGN_SHIFT, t);
    StaleOnlyMisfit(m, bs, PAGE_ALIGN_SHIFT);
    LowIsMod(Last(bs).End(), PAGE_ALIGN_SHIFT);
    PageAllocEnd(bs, PAGE_ALIGN_SHIFT);
  }

  // ----- What each write does to the tables ---------------------------------------------------------

  /** Entries and frames are unchanged when every live page keeps its words. */
  ghost predicate SamePages(m: Mem, m': Mem, bs: seq<Block>) {
    forall p: nat, a | LivePage(bs, p) && p <= a < p + PAGE :: Rd(m', a) == Rd(m, a)
  }

  ghost predicate SameFrames(m: Mem, m': Mem, fs: nat) {
    forall a | fs <= a < fs + PAGE :: Rd(m', a) == Rd(m, a)
  }

  lemma EntryKept(m: Mem, m': Mem, bs: seq<Block>, fs: nat, dir: nat, j: nat)
    requires PagesOk(m, bs, fs, dir) && SamePages(m, m', bs) && j < 1024 * 1024
    ensures Entry(m', dir, j) == Entry(m, dir, j)
    ensures Rd(m', dir + 4 * (j / 1024)) == Rd(m, dir + 4 * (j / 1024))
  {
    assert TableOk(m, bs, fs, dir, j / 1024);
    assert Rd(m', dir + 4 * (j / 1024)) == Rd(m, dir + 4 * (j / 1024));
    if Rd(m, dir + 4 * (j / 1024)) != 0 {
      var t := TableOf(m, dir, j / 1024);
      assert LivePage(bs, t) && t <= t + 4 * (j % 1024) < t + PAGE;
    }
  }

  lemma PagesKept(m: Mem, m': Mem, bs: seq<Block>, bs': seq<Block>, fs: nat, dir: nat)
    requires PagesOk(m, bs, fs, dir) && SamePages(m, m', bs)
    requires forall p: nat | LivePage(bs, p) :: LivePage(bs', p)
    ensures PagesOk(m', bs', fs, dir)
  {
    forall i | 0 <= i < 1024 ensures TableOk(m', bs', fs, dir, i) && Rd(m', dir + 4 * i) == Rd(m, dir + 4 * i) {
      assert TableOk(m, bs, fs, dir, i);
    }
    forall i, j | 0 <= i < j < 1024 ensures TablesApart(m', dir, i, j) {
      assert TablesApart(m, dir, i, j);
    }
  }

  /** Installing a live page t of its own as the table of an empty slot keeps the structure. */
  lemma InstallOk(m: Mem, m': Mem, bs: seq<Block>, fs: nat, dir: nat, slot: nat, t: nat, pde: nat)
    requires Tiled(bs) && PagesOk(m, bs, fs, dir) && slot < 1024 && Rd(m, dir + 4 * slot) == 0
    requires LivePage(bs, t) && t != fs && t != dir
    requires forall i | 0 <= i < 1024 && Rd(m, dir + 4 * i) != 0 :: TableOf(m, dir, i) != t
    requires pde % 2 == 1 && pde / 2 % 2 == 1 && pde - pde % PAGE == t
    requires m' == m[dir + 4 * slot := pde]
    ensures PagesOk(m', bs, fs, dir) && SameFrames(m, m', fs)
    ensures Rd(m', dir + 4 * slot) != 0 && TableOf(m', dir, slot) == t
  {
    PagesApart(bs, fs, dir);
    forall i | 0 <= i < 1024 ensures TableOk(m', bs, fs, dir, i) { assert TableOk(m, bs, fs, dir, i); }
    assert TableOf(m', dir, slot) == t;
    forall i | 0 <= i < 1024 && i != slot ensures TableOf(m', dir, i) == TableOf(m, dir, i) {}
    forall i, j | 0 <= i < j < 1024 ensures TablesApart(m', dir, i, j) {
      assert TablesApart(m, dir, i, j);
      assert Rd(m', dir + 4 * i) == if i == slot then pde else Rd(m, dir + 4 * i);
      assert Rd(m', dir + 4 * j) == if j == slot then pde else Rd(m, dir + 4 * j);
    }
  }

  /** The slot's pages then have the words of t as entries, all others keep theirs. */
  lemma InstallShows(m: Mem, m': Mem, bs: seq<Block>, fs: nat, dir: nat, slot: nat, t: nat, pde: nat, j: nat)
    requires Tiled(bs) && PagesOk(m, bs, fs, dir) && slot < 1024 && Rd(m, dir + 4 * slot) == 0 && j < 1024 * 1024
    requires LivePage(bs, t) && t != dir && pde % 2 == 1 && pde - pde % PAGE == t
    requires m' == m[dir + 4 * slot := pde]
    ensures Entry(m', dir, j) == if j / 1024 == slot then Rd(m, t + 4 * (j % 1024)) else Entry(m, dir, j)
  {
    PagesApart(bs, t, dir);
    assert TableOk(m, bs, fs, dir, j / 1024);
    if j / 1024 != slot && Rd(m, dir + 4 * (j / 1024)) != 0 {
      PagesApart(bs, TableOf(m, dir, j / 1024), dir);
    }
  }

  /** The word of page j's entry, once its table exists. */
  function EntryAddr(m: Mem, dir: nat, j: nat): nat {
    TableOf(m, dir, j / 1024) + 4 * (j % 1024)
  }

  /** Different pages have different entry words, and none lies in the directory or the bitmap. */
  lemma EntryAddrsApart(m: Mem, bs: seq<Block>, fs: nat, dir: nat, j: nat, k: nat)
    requires Tiled(bs) && PagesOk(m, bs, fs, dir) && j < 1024 * 1024 && k < 1024 * 1024
    requires Rd(m, dir + 4 * (j / 1024)) != 0
    ensures k != j && Rd(m, dir + 4 * (k / 1024)) != 0 ==> EntryAddr(m, dir, k) != EntryAddr(m, dir, j)
    ensures EntryAddr(m, dir, j) < dir || dir + PAGE <= EntryAddr(m, dir, j)
    ensures EntryAddr(m, dir, j) < fs || fs + PAGE <= EntryAddr(m, dir, j)
    ensures var t := TableOf(m, dir, j / 1024); LivePage(bs, t) && t <= EntryAddr(m, dir, j) < t + PAGE
  {
    var i, i' := j / 1024, k / 1024;
    assert TableOk(m, bs, fs, dir, i) && TableOk(m, bs, fs, dir, i');
    PagesApart(bs, TableOf(m, dir, i), dir);
    PagesApart(bs, TableOf(m, dir, i), fs);
    if i != i' && Rd(m, dir + 4 * i') != 0 {
      assert TablesApart(m, dir, if i < i' then i else i', if i < i' then i' else i);
      PagesApart(bs, TableOf(m, dir, i), TableOf(m, dir, i'));
    }
  }

  /** Writing page j's entry word changes that entry and nothing else. */
  lemma EntryWrite(m: Mem, m': Mem, bs: seq<Block>, fs: nat, dir: nat, j: nat, v: nat)
    requires Tiled(bs) && PagesOk(m, bs, fs, dir) && j < 1024 * 1024
    requires Rd(m, dir + 4 * (j / 1024)) != 0 && m' == m[EntryAddr(m, dir, j) := v]
    ensures PagesOk(m', bs, fs, dir) && SameFrames(m, m', fs)
    ensures Entry(m', dir, j) == v
    ensures forall k | 0 <= k < 1024 * 1024 && k != j :: Entry(m', dir, k) == Entry(m, dir, k)
  {
    EntryAddrsApart(m, bs, fs, dir, j, j);
    forall i | 0 <= i < 1024 ensures TableOk(m', bs, fs, dir, i) { assert TableOk(m, bs, fs, dir, i); }
    forall i, k | 0 <= i < k < 1024 ensures TablesApart(m', dir, i, k) { assert TablesApart(m, dir, i, k); }
    assert TableOk(m, bs, fs, dir, j / 1024);
    forall k | 0 <= k < 1024 * 1024 && k != j ensures Entry(m', dir, k) == Entry(m, dir, k) {
      assert TableOk(m, bs, fs, dir, k / 1024);
      EntryAddrsApart(m, bs, fs, dir, j, k);
    }
  }

  /** Writing a word of the bitmap changes no entry. */
  lemma BitmapWrite(m: Mem, m': Mem, bs: seq<Block>, fs: nat, dir: nat, a: nat, v: nat)
    requires Tiled(bs) && PagesOk(m, bs, fs, dir) && fs <= a < fs + PAGE && m' == m[a := v]
    ensures PagesOk(m', bs, fs, dir)
    ensures forall k | 0 <= k < 1024 * 1024 :: Entry(m', dir, k) == Entry(m, dir, k)
  {
    PagesApart(bs, fs, dir);
    forall i | 0 <= i < 1024 ensures TableOk(m', bs, fs, dir, i) { assert TableOk(m, bs, fs, dir, i); }
    forall i, k | 0 <= i < k < 1024 ensures TablesApart(m', dir, i, k) { assert TablesApart(m, dir, i, k); }
    forall k | 0 <= k < 1024 * 1024 ensures Entry(m', dir, k) == Entry(m, dir, k) {
      assert TableOk(m, bs, fs, dir, k / 1024);
      if Rd(m, dir + 4 * (k / 1024)) != 0 {
        PagesApart(bs, fs, TableOf(m, dir, k / 1024));
      }
    }
  }

  // ----- Entries and frames as the two observable parts ---------------------------------------------

  ghost predicate SameEntries(m: Mem, m': Mem, dir: nat) {
    forall k | 0 <= k < 1024 * 1024 :: Entry(m', dir, k) == Entry(m, dir, k)
  }

  lemma FramesKept(m: Mem, m': Mem, fs: nat, f: nat)
    requires SameFrames(m, m', fs) && f < 8 * PAGE
    ensures FrameUsed(m', fs, f) == FrameUsed(m, fs, f)
  {
  }

  /** Taking a page from the heap changes no entry and no frame, and the page is nobody's table. */
  lemma PageAllocKeeps(m: Mem, bs: seq<Block>, m1: Mem, bs1: seq<Block>, fs: nat, dir: nat, t: nat)
    requires |bs| > 0 && PagesOk(m, bs, fs, dir) && TookPage(m, bs, m1, bs1, t)
    ensures PagesOk(m1, bs1, fs, dir)
    ensures SameEntries(m, m1, dir) && SameFrames(m, m1, fs)
    ensures t != fs && t != dir
    ensures forall i | 0 <= i < 1024 :: Rd(m1, dir + 4 * i) == Rd(m, dir + 4 * i)
    ensures forall i | 0 <= i < 1024 && Rd(m1, dir + 4 * i) != 0 :: TableOf(m1, dir, i) != t
  {
    PagesKept(m, m1, bs, bs1, fs, dir);
    forall j | 0 <= j < 1024 * 1024 ensures Entry(m1, dir, j) == Entry(m, dir, j) { EntryKept(m, m1, bs, fs, dir, j); }
    forall i | 0 <= i < 1024 ensures Rd(m1, dir + 4 * i) == Rd(m, dir + 4 * i) { assert dir <= dir + 4 * i < dir + PAGE; }
    forall i | 0 <= i < 1024 && Rd(m1, dir + 4 * i) != 0 ensures TableOf(m1, dir, i) != t {
      assert TableOk(m, bs, fs, dir, i);
    }
  }

  /** The slot's pages have the words found at t as entries, all others the entries they had. */
  ghost predicate ShowsTable(m: Mem, m': Mem, dir: nat, slot: nat, t: nat) {
    forall j | 0 <= j < 1024 * 1024 ::
      Entry(m', dir, j) == if j / 1024 == slot then Rd(m, t + 4 * (j % 1024)) else Entry(m, dir, j)
  }

  /**
   A new table, taken from the heap and installed in an empty slot: the structures stay in order, no
   frame changes, and the slot's pages get the words found in that memory as entries.
   */
  lemma NewTableShows(m: Mem, bs: seq<Block>, m1: Mem, bs1: seq<Block>, fs: nat, dir: nat, slot: nat, t: nat, pde: nat)
    requires |bs| > 0 && PagesOk(m, bs, fs, dir) && slot < 1024 && Rd(m, dir + 4 * slot) == 0
    requires TookPage(m, bs, m1, bs1, t) && pde == Or(Or(t, P_PRESENT), P_WRITABLE)
    ensures var m2 := m1[dir + 4 * slot := pde];
            && HeapInv(m2, bs1) && PagesOk(m2, bs1, fs, dir) && SameFrames(m, m2, fs)
            && Rd(m2, dir + 4 * slot) != 0 && TableOf(m2, dir, slot) == t
            && ShowsTable(m, m2, dir, slot, t)
            && (HeapReady(m, bs) ==> HeapReady(m2, bs1))
  {
    PageAllocKeeps(m, bs, m1, bs1, fs, dir, t);
    OrFlags(t, P_WRITABLE);
    var m2 := m1[dir + 4 * slot := pde];
    WritePage(m1, bs1, dir, dir + 4 * slot, pde);
    InstallOk(m1, m2, bs1, fs, dir, slot, t, pde);
    InstalledShows(m, m1, m2, bs1, fs, dir, slot, t, pde);
    if HeapReady(m, bs) { WriteReady(m1, bs1, dir, dir + 4 * slot, pde); }
  }

  lemma InstalledShows(m: Mem, m1: Mem, m2: Mem, bs1: seq<Block>, fs: nat, dir: nat, slot: nat, t: nat, pde: nat)
    requires Tiled(bs1) && PagesOk(m1, bs1, fs, dir) && slot < 1024 && Rd(m1, dir + 4 * slot) == 0
    requires LivePage(bs1, t) && t != dir && pde % 2 == 1 && pde - pde % PAGE == t
    requires m2 == m1[dir + 4 * slot := pde] && SameEntries(m, m1, dir)
    requires forall a | t <= a < t + PAGE :: Rd(m1, a) == Rd(m, a)
    ensures ShowsTable(m, m2, dir, slot, t)
  {
    forall j | 0 <= j < 1024 * 1024
      ensures Entry(m2, dir, j) == if j / 1024 == slot then Rd(m, t + 4 * (j % 1024)) else Entry(m, dir, j)
    {
      InstallShows(m1, m2, bs1, fs, dir, slot, t, pde, j);
      assert t <= t + 4 * (j % 1024) < t + PAGE;
    }
  }

  // ----- A table from memory that is not zero ----------------------------------------------------------

  /**
   On any heap, creating a table leaves every translation as it was if and only if no word of the
   memory it is made of has its present bit set: the code does not clear new tables.
   */
  lemma NewTableExact(m: Mem, bs: seq<Block>, m1: Mem, bs1: seq<Block>, fs: nat, dir: nat, slot: nat, t: nat, pde: nat)
    requires HeapInv(m, bs) && CanTakePage(m, bs)
    requires PagesOk(m, bs, fs, dir) && slot < 1024 && Rd(m, dir + 4 * slot) == 0
    requires AllocStep(m, bs, m1, bs1, PAGE, PAGE_ALIGN_SHIFT, t) && pde == Or(Or(t, P_PRESENT), P_WRITABLE)
    ensures SameTranslations(m, m1[dir + 4 * slot := pde], dir) <==>
            forall k | 0 <= k < 1024 :: Rd(m, t + 4 * k) % 2 == 0
  {
    PageAlloc(m, bs, m1, bs1, t);
    NewTableShows(m, bs, m1, bs1, fs, dir, slot, t, pde);
    ShownTranslations(m, bs, m1[dir + 4 * slot := pde], bs1, fs, dir, slot, t);
  }

  lemma ShownTranslations(m: Mem, bs: seq<Block>, m2: Mem, bs1: seq<Block>, fs: nat, dir: nat, slot: nat, t: nat)
    requires PagesOk(m, bs, fs, dir) && PagesOk(m2, bs1, fs, dir) && slot < 1024 && Rd(m, dir + 4 * slot) == 0
    requires ShowsTable(m, m2, dir, slot, t)
    ensures SameTranslations(m, m2, dir) <==> forall k | 0 <= k < 1024 :: Rd(m, t + 4 * k) % 2 == 0
  {
    if SameTranslations(m, m2, dir) {
      forall k | 0 <= k < 1024 ensures Rd(m, t + 4 * k) % 2 == 0 {
        var va := slot * 0x400000 + k * PAGE;
        assert va / 0x400000 == slot && va / PAGE % 1024 == k && 0 <= va < ADDRESS_SPACE;
        TranslationAfter(m, bs, m2, bs1, fs, dir, slot, t, va);
        assert Walk(m2, dir, va) == Walk(m, dir, va);
      }
    }
    if forall k | 0 <= k < 1024 :: Rd(m, t + 4 * k) % 2 == 0 {
      forall va | 0 <= va < ADDRESS_SPACE ensures Walk(m2, dir, va) == Walk(m, dir, va) {
        TranslationAfter(m, bs, m2, bs1, fs, dir, slot, t, va);
        assert Rd(m, t + 4 * (va / PAGE % 1024)) % 2 == 0;
      }
    }
  }

  ghost predicate SameTranslations(m: Mem, m': Mem, dir: nat) {
    forall va | 0 <= va < ADDRESS_SPACE :: Walk(m', dir, va) == Walk(m, dir, va)
  }

  lemma TranslationAfter(m: Mem, bs: seq<Block>, m2: Mem, bs1: seq<Block>, fs: nat, dir: nat, slot: nat, t: nat, va: nat)
    requires PagesOk(m, bs, fs, dir) && PagesOk(m2, bs1, fs, dir) && Rd(m, dir + 4 * slot) == 0 && va < ADDRESS_SPACE
    requires ShowsTable(m, m2, dir, slot, t)
    ensures Walk(m2, dir, va) == Walk(m, dir, va) <==> (va / 0x400000 == slot ==> Rd(m, t + 4 * (va / PAGE % 1024)) % 2 == 0)
  {
    var j := va / PAGE;
    assert 0 <= j < 1024 * 1024 && j / 1024 == va / 0x400000;
    WalkIsEntry(m, bs, fs, dir, va);
    WalkIsEntry(m2, bs1, fs, dir, va);
  }

  /** The test of `vmem_get` sees exactly whether the slot is empty. */
  lemma TableSlot(m: Mem, bs: seq<Block>, fs: nat, dir: nat, slot: nat)
    requires Tiled(bs) && PagesOk(m, bs, fs, dir) && slot < 1024
    ensures Rd(m, dir + 4 * slot) % 2 == 0 || TableOf(m, dir, slot) == 0 <==> Rd(m, dir + 4 * slot) == 0
  {
    assert TableOk(m, bs, fs, dir, slot);
    if Rd(m, dir + 4 * slot) != 0 { PagesApart(bs, TableOf(m, dir, slot), dir); }
  }

  // ----- What is found in a table -----------------------------------------------------------------

  /** The entry of page k once page j has a table: a new table at t shows the words found there. */
  function Found(m: Mem, dir: nat, t: int, j: nat, k: nat): nat {
    if Rd(m, dir + 4 * (j / 1024)) == 0 && k / 1024 == j / 1024 then Rd(m, t + 4 * (k % 1024))
    else Entry(m, dir, k)
  }

  ghost predicate ShowsFound(m: Mem, m': Mem, dir: nat, t: int, j: nat) {
    forall k | 0 <= k < 1024 * 1024 :: Entry(m', dir, k) == Found(m, dir, t, j, k)
  }

  /** A table that exists, or one made from zero memory, shows no entry that was not there. */
  lemma FoundIsEntry(m: Mem, dir: nat, t: int, j: nat, k: nat)
    requires Rd(m, dir + 4 * (j / 1024)) != 0 || forall a | t <= a < t + PAGE :: Rd(m, a) == 0
    ensures Found(m, dir, t, j, k) == Entry(m, dir, k)
  {
    assert t <= t + 4 * (k % 1024) < t + PAGE;
  }

  /** No free block fits a page. */
  predicate NoFreePage(bs: seq<Block>) {
    FirstFit(bs, PAGE, PAGE_ALIGN_SHIFT, 0) == |bs|
  }

  /** When no free block fits a page, the page comes from behind the heap end and is zero. */
  lemma FreshPageIsZero(m: Mem, bs: seq<Block>)
    requires HeapInv(m, bs) && NoFreePage(bs)
    ensures var t := PageTaken(m, bs); t >= Last(bs).End() && forall a | t <= a < t + PAGE :: Rd(m, a) == 0
  {
    PlacedAddress(bs, Stale(m, bs, PAGE_ALIGN_SHIFT), PAGE, PAGE_ALIGN_SHIFT);
  }

  /** The page a ready heap hands out is zero. */
  lemma ReadyPageIsZero(m: Mem, bs: seq<Block>)
    requires HeapReady(m, bs)
    ensures var t := PageTaken(m, bs); forall a | t <= a < t + PAGE :: Rd(m, a) == 0
  {
    PageAllocSafe(m, bs);
    var (m', q) := LookupMem(m, 0, PAGE, PAGE_ALIGN_SHIFT, |bs| + 1);
    PageAlloc(m, bs, m', Placed(bs, Stale(m, bs, PAGE_ALIGN_SHIFT), PAGE, PAGE_ALIGN_SHIFT, 0).0, q + BLOCKSIZ);
  }
}
