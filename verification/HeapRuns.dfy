/** Theorems over sequences of heap operations. */
module HeapRuns {
  import opened Memory
  import opened Blocks
  import opened HeapTheory
  import opened Kmalloc

  // ----- Conservation ------------------------------------------------------------------

  /** Bytes of headers and data together. */
  function TotalBytes(bs: seq<Block>): int {
    if bs == [] then 0 else TotalBytes(bs[..|bs| - 1]) + BLOCKSIZ + Last(bs).size
  }

  lemma {:induction false} TotalIsExtent(bs: seq<Block>)
    requires Tiled(bs)
    ensures TotalBytes(bs) == Last(bs).End() - HEAP_BASE
  {
    if |bs| > 1 {
      var front := bs[..|bs| - 1];
      forall i | 0 <= i < |front| ensures Sound(front, i) { assert Sound(bs, i); }
      TotalIsExtent(front);
      assert Sound(bs, |bs| - 2);
    }
  }

  /** `split` and `merge` neither lose nor invent a byte. */
  lemma SplitMergeConserve(bs: seq<Block>, k: nat, size: nat)
    requires Tiled(bs) && k < |bs| && size % 8 == 0
    ensures TotalBytes(SplitAt(bs, k, size)) == TotalBytes(bs)
    ensures k + 1 < |bs| ==> TotalBytes(MergeAt(bs, k)) == TotalBytes(bs)
  {
    TotalIsExtent(bs);
    SplitTiled(bs, k, size);
    TotalIsExtent(SplitAt(bs, k, size));
    if k + 1 < |bs| {
      MergeTiled(bs, k);
      TotalIsExtent(MergeAt(bs, k));
    }
  }

  // ----- Coalescing and waste ------------------------------------------------------------

  /** No allocation, safe or not, puts two free blocks side by side. */
  lemma {:induction false} AllocCoalesced(bs: seq<Block>, stale: bool, size: nat, align: nat, i: nat)
    requires |bs| > 0 && i <= |bs| && Coalesced(bs)
    ensures Coalesced(Placed(bs, stale, size, align, i).0)
    decreases |bs| - i
  {
    if i == |bs| {
      ExtendCoalesced(bs, size, align);
      ExtendCoalesced(Extend(bs, size, align), size, align);
    } else if Fits(bs[i], size, align) {
      SplitCoalesced(bs, i, size);
    } else if bs[i].size == 0 && align == 0 {
    } else {
      AllocCoalesced(bs, stale, size, align, i + 1);
    }
  }

  lemma ExtendCoalesced(bs: seq<Block>, size: nat, align: nat)
    requires |bs| > 0 && Coalesced(bs)
    ensures Coalesced(Extend(bs, size, align))
  {
    var bs' := Extend(bs, size, align);
    forall i, j | 0 <= i < |bs'| && j == i + 1 && j < |bs'| ensures bs'[i].used || bs'[j].used {
      if j < |bs| { assert bs'[i].used == bs[i].used && bs'[j].used == bs[j].used; }
    }
  }

  lemma SplitCoalesced(bs: seq<Block>, k: nat, size: nat)
    requires k < |bs| && Coalesced(bs) && !bs[k].used
    ensures Coalesced(SplitAt(bs[k := bs[k].(used := true)], k, size))
  {
    var b1 := bs[k := bs[k].(used := true)];
    var bs' := SplitAt(b1, k, size);
    if bs' != b1 {
      forall i, j | 0 <= i < |bs'| && j == i + 1 && j < |bs'| ensures bs'[i].used || bs'[j].used {
        if i > k + 1 { assert bs'[i] == bs[i - 1] && bs'[j] == bs[j - 1]; }
        if i == k + 1 { assert bs'[j] == bs[k + 1]; }
        if j < k { assert bs'[i] == bs[i] && bs'[j] == bs[j]; }
      }
    }
  }

  /** A reused block that is not the tail exceeds the request by at most 24 bytes. */
  lemma AllocWaste(bs: seq<Block>, stale: bool, size: nat, align: nat)
    requires Tiled(bs) && NoEmptyBlock(bs) && size > 0
    ensures var placed := Placed(bs, stale, size, align, 0);
            placed.1 < |placed.0| - 1 ==> placed.0[placed.1].size <= size + BLOCKSIZ + 8
  {
    if !(Pristine(bs) && align == 0) {
      WalkIsFirstFit(bs, stale, size, align, 0);
    }
  }

  /** Every live allocation keeps not only its place but its exact size. */
  predicate KeepsExact(bs: seq<Block>, bs': seq<Block>) {
    forall i | 0 <= i < |bs| && bs[i].used :: bs[i] in bs'
  }

  /**
   A safe allocation changes the size of a live block, which then is the tail and grows by the
   alignment padding, exactly when it extends the heap behind a used tail whose end is not aligned.
   */
  lemma TailGrowsIff(bs: seq<Block>, stale: bool, size: nat, align: nat)
    requires Tiled(bs) && NoEmptyBlock(bs) && size > 0 && size % 8 == 0
    requires (stale ==> Misfit(bs, align)) && AllocSafe(bs, stale, size, align)
    ensures KeepsExact(bs, Placed(bs, stale, size, align, 0).0) <==>
            || FirstFit(bs, size, align, 0) < |bs|
            || !Last(bs).used
            || Low(Last(bs).End() + BLOCKSIZ, align) == 0
  {
    if Pristine(bs) && align == 0 {
    } else {
      WalkIsFirstFit(bs, stale, size, align, 0);
      var k := FirstFit(bs, size, align, 0);
      if k < |bs| {
        TakeKeepsExact(bs, k, size);
      } else {
        ExtendKeepsExact(bs, size, align);
      }
    }
  }

  lemma TakeKeepsExact(bs: seq<Block>, k: nat, size: nat)
    requires k < |bs| && !bs[k].used
    ensures KeepsExact(bs, SplitAt(bs[k := bs[k].(used := true)], k, size))
  {
    var b1 := bs[k := bs[k].(used := true)];
    var bs' := SplitAt(b1, k, size);
    forall i | 0 <= i < |bs| && bs[i].used ensures bs[i] in bs' {
      assert bs'[if |bs'| == |bs| || i < k then i else i + 1] == b1[i];
    }
  }

  lemma ExtendKeepsExact(bs: seq<Block>, size: nat, align: nat)
    requires Tiled(bs) && NoEmptyBlock(bs) && (Last(bs).used ==> !Misfit(bs, align))
    ensures KeepsExact(bs, Extend(bs, size, align)) <==> !Last(bs).used || Low(Last(bs).End() + BLOCKSIZ, align) == 0
  {
    var bs', n, t := Extend(bs, size, align), |bs| - 1, Last(bs);
    var p := NewHeader(t.End(), align);
    assert ExtendOf(bs, bs', size, p);
    ExtendCondition(bs, align);
    forall i | 0 <= i < n ensures bs[i] in bs' { assert bs'[i] == bs[i]; }
    if t.used {
      PaddedIff(bs, align);
      assert bs'[n] == t.(size := p - t.Data());
      if bs[n] in bs' { TailElsewhere(bs, bs', size, p); }
    }
  }

  /** The new header leaves padding exactly when its data would not be aligned at the heap end. */
  lemma PaddedIff(bs: seq<Block>, align: nat)
    requires Tiled(bs)
    ensures NewHeader(Last(bs).End(), align) == Last(bs).End() <==> Low(Last(bs).End() + BLOCKSIZ, align) == 0
  {
    assert Sound(bs, |bs| - 1);
    NewHeaderFacts(Last(bs).End(), align);
  }

  lemma TailElsewhere(bs: seq<Block>, bs': seq<Block>, size: nat, p: int)
    requires Tiled(bs) && ExtendOf(bs, bs', size, p) && p >= Last(bs).Data() && Last(bs) in bs'
    ensures p == Last(bs).End()
  {
    var n := |bs| - 1;
    var j :| 0 <= j < |bs'| && bs'[j] == bs[n];
    assert j < n ==> bs'[j] == bs[j];
    OrderedAll(bs);
  }

  // ----- Allocate and free ------------------------------------------------------------------

  /** Taking `size` bytes of block k cuts a free block off behind them. */
  predicate Cuts(bs: seq<Block>, k: nat, size: int)
    requires k < |bs|
  {
    k + 1 < |bs| && bs[k].size - size > BLOCKSIZ + 8
  }

  /** Block k, taken and freed again, would lie between two free blocks with one more behind. */
  predicate Wedged(bs: seq<Block>, k: nat, size: int)
    requires k < |bs|
  {
    PrevFree(bs, k) && (Cuts(bs, k, size) || (NextFree(bs, k) && k + 2 < |bs|))
  }

  /**
   Freeing a block just taken from an existing free block is safe exactly when it is not wedged, and
   restores the list exactly when no free block lies before it and none was joined to it from behind.
   */
  lemma TakeThenFree(bs: seq<Block>, k: nat, size: nat)
    requires Tiled(bs) && k < |bs| && !bs[k].used
    ensures var taken := SplitAt(bs[k := bs[k].(used := true)], k, size);
            && taken[k].used
            && (FreeSafe(taken, k) <==> !Wedged(bs, k, size))
            && (Freed(taken, k) == bs <==> !PrevFree(bs, k) && (Cuts(bs, k, size) || !NextFree(bs, k)))
  {
    var b1 := bs[k := bs[k].(used := true)];
    var taken := SplitAt(b1, k, size);
    if k > 0 { assert taken[k - 1] == bs[k - 1]; }
    assert PrevFree(taken, k) == PrevFree(bs, k);
    if Cuts(bs, k, size) {
      assert taken[k + 1] == Block(bs[k].Data() + size, bs[k].size - size - BLOCKSIZ, false);
      assert taken[k + 2..] == bs[k + 1..];
      assert MergeAt(taken[k := taken[k].(used := false)], k) == bs;
      if PrevFree(bs, k) { MergedDiffers(bs, taken, k); }
    } else {
      assert b1[k := b1[k].(used := false)] == bs;
    }
  }

  lemma MergedDiffers(bs: seq<Block>, taken: seq<Block>, k: nat)
    requires 0 < k < |bs| && k < |taken| && taken[k - 1] == bs[k - 1] && PrevFree(taken, k) && taken[k].size >= 0
    ensures Freed(taken, k) != bs
  {
    assert Freed(taken, k)[k - 1].size > bs[k - 1].size;
  }

  /** An allocation finds memory that is not behind a free tail. */
  predicate ReusesOrFollowsUsed(bs: seq<Block>, size: nat, align: nat)
    requires |bs| > 0
  {
    || FirstFit(bs, size, align, 0) < |bs|
    || (Pristine(bs) && align == 0)
    || Last(bs).used
  }

  lemma FirstFitAt(bs: seq<Block>, size: int, align: nat, i: nat, k: nat)
    requires i <= k <= |bs|
    requires forall j | i <= j < k :: !Fits(bs[j], size, align)
    requires k < |bs| ==> Fits(bs[k], size, align)
    ensures FirstFit(bs, size, align, i) == k
  {
  }

  lemma ExtendUsedThenFree(bs: seq<Block>, stale: bool, size: nat, align: nat)
    requires Tiled(bs) && NoEmptyBlock(bs) && size > 0 && size % 8 == 0
    requires FirstFit(bs, size, align, 0) == |bs| && Last(bs).used && !Misfit(bs, align)
    ensures var b1 := Extend(bs, size, align);
            var b2 := Freed(b1, |bs|);
            var again := Placed(b2, stale, size, align, 0);
            FreeSafe(b1, |bs|) && again.0[again.1].addr == b1[|bs|].addr
  {
    var b1 := Extend(bs, size, align);
    ExtendGood(bs, size, align);
    assert b1[|bs| - 1].used && !PrevFree(b1, |bs|);
    var b2 := Freed(b1, |bs|);
    assert b2 == b1[|bs| := b1[|bs|].(used := false)];
    FreedTiled(b1, |bs|);
    forall j | 0 <= j < |bs| ensures !Fits(b2[j], size, align) {
      if j < |bs| - 1 { assert b2[j] == bs[j]; }
    }
    FirstFitAt(b2, size, align, 0, |bs|);
    WalkIsFirstFit(b2, stale, size, align, 0);
  }

  /** An allocation is at the first fit, or no more than eight bytes below the old end. */
  lemma PlacedAddress(bs: seq<Block>, stale: bool, size: nat, align: nat)
    requires Tiled(bs) && NoEmptyBlock(bs) && size > 0 && size % 8 == 0 && !(Pristine(bs) && align == 0)
    ensures var placed := Placed(bs, stale, size, align, 0);
            var k := FirstFit(bs, size, align, 0);
            var a := placed.0[placed.1].addr;
            if k < |bs| then a == bs[k].addr else a >= Last(bs).End() - 8
  {
    WalkIsFirstFit(bs, stale, size, align, 0);
    assert Sound(bs, |bs| - 1);
    Multiple8(Last(bs).addr, Last(bs).size);
    ExtendAddress(bs, size, align);
    ExtendAddress(Extend(bs, size, align), size, align);
  }

  lemma ExtendAddress(bs: seq<Block>, size: nat, align: nat)
    requires |bs| > 0 && Last(bs).End() % 8 == 0 && size % 8 == 0
    ensures var bs' := Extend(bs, size, align);
            |bs'| == |bs| + 1 && Last(bs').addr >= Last(bs).End() - 8 && Last(bs').size == size && Last(bs').End() % 8 == 0
  {
    NewHeaderFacts(Last(bs).End(), align);
    ExtendAligned(bs, size, align);
  }

  lemma ExtendFreeThenFree(bs: seq<Block>, stale: bool, size: nat, align: nat)
    requires Tiled(bs) && NoEmptyBlock(bs) && size > 0 && size % 8 == 0
    requires FirstFit(bs, size, align, 0) == |bs| && !Last(bs).used
    requires AllocGood(bs, Extend(bs, size, align), |bs|, size, align)
    ensures var b1 := Extend(bs, size, align);
            var b2 := Freed(b1, |bs|);
            var again := Placed(b2, stale, size, align, 0);
            FreeSafe(b1, |bs|) && again.0[again.1].addr != b1[|bs|].addr
  {
    var n := |bs| - 1;
    var b1 := Extend(bs, size, align);
    var b2 := Freed(b1, |bs|);
    FreedTiled(b1, |bs|);
    assert PrevFree(b1, |bs|) && Sound(b1, n);
    assert |b2| == |bs| && b2[n].addr == bs[n].addr && b2[n].size > 0;
    assert Last(b2).End() == b1[|bs|].addr + BLOCKSIZ + size;
    forall j | 0 <= j < n ensures !Fits(b2[j], size, align) { assert b2[j] == bs[j]; }
    FirstFitAt(b2, size, align, 0, if Fits(b2[n], size, align) then n else |bs|);
    PlacedAddress(b2, stale, size, align);
  }

  /** A block that a free one in front absorbed is no longer in the list. */
  lemma AbsorbedIsGone(bs: seq<Block>, i: nat)
    requires Tiled(bs) && i < |bs| && PrevFree(bs, i)
    ensures forall j | 0 <= j < |Freed(bs, i)| :: Freed(bs, i)[j].addr != bs[i].addr
  {
    var bs' := Freed(bs, i);
    assert Sound(bs, i);
    forall j | 0 <= j < |bs'| ensures bs'[j].addr != bs[i].addr {
      var k := if j < i then j else j + 1;
      assert bs'[j].addr == bs[k].addr && Sound(bs, k);
      if k < i { Ordered(bs, k, i); } else { Ordered(bs, i, k); }
    }
  }

  /** And the next placement is not where it was. */
  lemma AbsorbedThenPlaced(bs: seq<Block>, k: nat, stale: bool, size: nat, align: nat)
    requires Tiled(bs) && NoEmptyBlock(bs) && size > 0 && size % 8 == 0
    requires k < |bs| && bs[k].used && bs[k].size >= 8 && PrevFree(bs, k)
    ensures var again := Placed(Freed(bs, k), stale, size, align, 0);
            again.0[again.1].addr != bs[k].addr
  {
    var b2 := Freed(bs, k);
    FreedTiled(bs, k);
    assert bs[k].addr < Last(b2).End() - 8 by { OrderedAll(bs); }
    assert !Pristine(b2) by { assert b2[k - 1].size > bs[k - 1].size; assert Sound(bs, k - 1); }
    AbsorbedIsGone(bs, k);
    PlacedAddress(b2, stale, size, align);
  }

  /** Without a free block in front, releasing block k changes nothing before it and lets it only grow. */
  lemma FreedInPlace(bs: seq<Block>, k: nat)
    requires Tiled(bs) && k < |bs| && !PrevFree(bs, k)
    ensures var b2 := Freed(bs, k);
            && k < |b2| && b2[..k] == bs[..k]
            && b2[k].addr == bs[k].addr && b2[k].size >= bs[k].size && !b2[k].used
  {
    assert Sound(bs, k);
    if k + 1 < |bs| { assert Sound(bs, k + 1); }
  }

  lemma PlacedInPlace(bs: seq<Block>, b2: seq<Block>, k: nat, stale: bool, size: nat, align: nat)
    requires Tiled(b2) && NoEmptyBlock(b2) && size > 0 && k == FirstFit(bs, size, align, 0) < |bs|
    requires k < |b2| && b2[..k] == bs[..k] && b2[k].addr == bs[k].addr && b2[k].size >= size && !b2[k].used
    ensures var again := Placed(b2, stale, size, align, 0);
            again.0[again.1].addr == bs[k].addr
  {
    forall j | 0 <= j < k ensures !Fits(b2[j], size, align) {
      assert b2[j] == b2[..k][j] == bs[..k][j] == bs[j];
    }
    FirstFitAt(b2, size, align, 0, k);
    WalkIsFirstFit(b2, stale, size, align, 0);
  }

  /** Once taken and freed, block k is where the same request goes again, unless it was absorbed. */
  lemma ReuseThenFree(bs: seq<Block>, k: nat, stale: bool, size: nat, align: nat)
    requires Tiled(bs) && NoEmptyBlock(bs) && size > 0 && size % 8 == 0
    requires k == FirstFit(bs, size, align, 0) < |bs|
    ensures var taken := SplitAt(bs[k := bs[k].(used := true)], k, size);
            var again := Placed(Freed(taken, k), stale, size, align, 0);
            again.0[again.1].addr == taken[k].addr <==> !PrevFree(bs, k)
  {
    var taken := SplitAt(bs[k := bs[k].(used := true)], k, size);
    TakeGood(bs, k, size, align);
    assert taken[..k] == bs[..k] && taken[k].addr == bs[k].addr;
    if k > 0 { assert taken[k - 1] == bs[k - 1]; }
    if PrevFree(bs, k) {
      AbsorbedThenPlaced(taken, k, stale, size, align);
    } else {
      assert Tiled(Freed(taken, k)) && NoEmptyBlock(Freed(taken, k)) by { FreedTiled(taken, k); }
      FreedInPlace(taken, k);
      PlacedInPlace(bs, Freed(taken, k), k, stale, size, align);
    }
  }

  /** The block a request would reuse is wedged between free blocks. */
  predicate WedgedReuse(bs: seq<Block>, size: nat, align: nat)
    requires |bs| > 0
  {
    var k := FirstFit(bs, size, align, 0);
    k < |bs| && Wedged(bs, k, size)
  }

  /**
   Allocate, free, allocate again with the same size and alignment, on every sound heap. The free is
   safe exactly when the reused block is not wedged between free ones. The second address equals the
   first exactly when the first did not extend the heap behind a free tail and took no block behind
   a free one.
   */
  lemma AllocFreeAlloc(bs: seq<Block>, stale: bool, stale2: bool, size: nat, align: nat)
    requires Tiled(bs) && NoEmptyBlock(bs) && size > 0 && size % 8 == 0
    requires stale ==> Misfit(bs, align)
    requires AllocSafe(bs, stale, size, align)
    ensures var first := Placed(bs, stale, size, align, 0);
            var again := Placed(Freed(first.0, first.1), stale2, size, align, 0);
            var k := FirstFit(bs, size, align, 0);
            && (FreeSafe(first.0, first.1) <==> !WedgedReuse(bs, size, align))
            && (again.0[again.1].addr == first.0[first.1].addr <==>
                ReusesOrFollowsUsed(bs, size, align) && (k < |bs| ==> !PrevFree(bs, k)))
  {
    AllocGoodIffSafe(bs, stale, size, align);
    if Pristine(bs) && align == 0 {
      var b2 := [Block(HEAP_BASE, size, false)];
      assert Placed(bs, stale, size, align, 0).0 == [Block(HEAP_BASE, size, true)];
      assert Freed([Block(HEAP_BASE, size, true)], 0) == b2;
      assert Fits(b2[0], size, align);
    } else {
      WalkIsFirstFit(bs, stale, size, align, 0);
      var k := FirstFit(bs, size, align, 0);
      if k < |bs| {
        TakeThenFree(bs, k, size);
        ReuseThenFree(bs, k, stale2, size, align);
      } else if Last(bs).used {
        ExtendUsedThenFree(bs, stale2, size, align);
      } else {
        ExtendFreeThenFree(bs, stale2, size, align);
      }
    }
  }

  /** With no two free neighbours nothing is wedged, and reuse restores the list. */
  lemma CoalescedNotWedged(bs: seq<Block>, size: nat, align: nat)
    requires |bs| > 0 && Coalesced(bs)
    ensures !WedgedReuse(bs, size, align)
    ensures var k := FirstFit(bs, size, align, 0); k < |bs| ==> !PrevFree(bs, k) && !NextFree(bs, k)
  {
  }

  // ----- Runs ---------------------------------------------------------------------------------

  datatype HeapState = HeapState(mem: Mem, blocks: seq<Block>)

  /** What the kernel does with its heap: allocate, free, and write words of its allocations. */
  datatype Op = Alloc(request: nat, align: nat) | Release(ptr: int) | Write(addr: int, value: nat)

  predicate InData(b: Block, a: int) {
    b.used && b.Data() <= a < b.End()
  }

  predicate LiveAt(bs: seq<Block>, i: nat, ptr: int) {
    i < |bs| && bs[i].used && bs[i].Data() == ptr
  }

  ghost predicate Initial(s: HeapState) {
    Pristine(s.blocks) && ZeroFrom(s.mem, HEAP_BASE)
  }

  /** The index of the live block behind ptr, or the number of blocks. */
  function IndexAt(bs: seq<Block>, ptr: int, i: nat): (k: nat)
    requires i <= |bs|
    ensures i <= k <= |bs|
    ensures k < |bs| ==> LiveAt(bs, k, ptr)
    ensures forall j | i <= j < k :: !LiveAt(bs, j, ptr)
    decreases |bs| - i
  {
    if i == |bs| || LiveAt(bs, i, ptr) then i else IndexAt(bs, ptr, i + 1)
  }

  /** A caller frees only what it was given, and writes only there. */
  predicate Enabled(s: HeapState, op: Op) {
    match op
    case Alloc(_, _) => true
    case Release(ptr) => ptr >= BLOCKSIZ && IndexAt(s.blocks, ptr, 0) < |s.blocks|
    case Write(addr, _) => exists i | 0 <= i < |s.blocks| :: InData(s.blocks[i], addr)
  }

  /** What each operation does to the memory, and to the list that describes it. */
  function Do(s: HeapState, op: Op): (s': HeapState)
    requires |s.blocks| > 0
    ensures |s'.blocks| > 0
  {
    match op
    case Alloc(request, align) =>
      if request == 0 then s
      else
        HeapState(LookupMem(s.mem, 0, RoundUp8(request), align, |s.blocks| + 1).0,
                  Placed(s.blocks, Stale(s.mem, s.blocks, align), RoundUp8(request), align, 0).0)
    case Release(ptr) =>
      if !Enabled(s, op) then s
      else HeapState(FreeMem(s.mem, ptr - BLOCKSIZ), Freed(s.blocks, IndexAt(s.blocks, ptr, 0)))
    case Write(addr, value) => s.(mem := s.mem[addr := value])
  }

  /** The condition a caller can check before the call. */
  predicate SafeOp(s: HeapState, op: Op)
    requires |s.blocks| > 0
  {
    && Enabled(s, op)
    && match op
       case Alloc(request, align) =>
         request == 0 || AllocSafe(s.blocks, Stale(s.mem, s.blocks, align), RoundUp8(request), align)
       case Release(ptr) => FreeSafe(s.blocks, IndexAt(s.blocks, ptr, 0))
       case Write(_, _) => true
  }

  function Run(s: HeapState, ops: seq<Op>): (s': HeapState)
    requires |s.blocks| > 0
    ensures |s'.blocks| > 0
    decreases |ops|
  {
    if ops == [] then s else Run(Do(s, ops[0]), ops[1..])
  }

  predicate SafeRun(s: HeapState, ops: seq<Op>)
    requires |s.blocks| > 0
    decreases |ops|
  {
    ops == [] || (SafeOp(s, ops[0]) && SafeRun(Do(s, ops[0]), ops[1..]))
  }

  /** Every header of a live block lies outside its data, so a client write keeps the invariant. */
  lemma WriteKeepsInv(m: Mem, bs: seq<Block>, i: nat, a: int, v: nat)
    requires HeapInv(m, bs) && i < |bs| && InData(bs[i], a)
    ensures HeapInv(m[a := v], bs)
  {
    OrderedAll(bs);
    assert a < Last(bs).End();
    var m' := m[a := v];
    forall x | x >= Last(bs).End() ensures Rd(m', x) == 0 { assert Rd(m, x) == 0; }
    forall j | 0 <= j < |bs| ensures HeaderOk(m', bs, j) {
      assert HeaderOk(m, bs, j);
    }
  }

  lemma AllocStepGood(m: Mem, bs: seq<Block>, m': Mem, bs': seq<Block>, size: nat, align: nat, ptr: int)
    requires HeapInv(m, bs) && size > 0 && size % 8 == 0
    requires AllocStep(m, bs, m', bs', size, align, ptr)
    requires AllocSafe(bs, Stale(m, bs, align), size, align)
    ensures HeapInv(m', bs') && KeepsLive(bs, bs') && OnlyHeaders(m, m', bs, bs')
  {
    AllocRealises(m, bs, m', bs', size, align, ptr);
    StaleOnlyMisfit(m, bs, align);
    AllocGoodIffSafe(bs, Stale(m, bs, align), size, align);
  }

  lemma AllocKeeps(s: HeapState, request: nat, align: nat)
    requires HeapInv(s.mem, s.blocks) && SafeOp(s, Alloc(request, align))
    ensures var s' := Do(s, Alloc(request, align));
            && HeapInv(s'.mem, s'.blocks)
            && (s' == s || (KeepsLive(s.blocks, s'.blocks) && OnlyHeaders(s.mem, s'.mem, s.blocks, s'.blocks)))
  {
    if request > 0 {
      var s', size := Do(s, Alloc(request, align)), RoundUp8(request);
      var q := LookupMem(s.mem, 0, size, align, |s.blocks| + 1).1;
      AllocStepGood(s.mem, s.blocks, s'.mem, s'.blocks, size, align, q + BLOCKSIZ);
    }
  }

  lemma ReleaseKeeps(s: HeapState, ptr: int)
    requires HeapInv(s.mem, s.blocks) && SafeOp(s, Release(ptr))
    ensures var s' := Do(s, Release(ptr));
            && HeapInv(s'.mem, s'.blocks)
            && OnlyHeaders(s.mem, s'.mem, s.blocks, s.blocks)
            && forall b: Block | b.used :: b in s'.blocks <==> b in s.blocks && b != s.blocks[IndexAt(s.blocks, ptr, 0)]
  {
    var i := IndexAt(s.blocks, ptr, 0);
    FreeRealises(s.mem, s.blocks, i);
    FreedKeepsOthers(s.blocks, i);
  }

  /** Every safe operation keeps the heap invariant on the memory it leaves. */
  lemma StepKeepsInv(s: HeapState, op: Op)
    requires HeapInv(s.mem, s.blocks) && SafeOp(s, op)
    ensures HeapInv(Do(s, op).mem, Do(s, op).blocks)
  {
    match op
    case Alloc(request, align) =>
      AllocKeeps(s, request, align);
    case Release(ptr) =>
      ReleaseKeeps(s, ptr);
    case Write(addr, value) =>
      var i :| 0 <= i < |s.blocks| && InData(s.blocks[i], addr);
      WriteKeepsInv(s.mem, s.blocks, i, addr, value);
  }

  lemma InitialInv(s: HeapState)
    requires Initial(s)
    ensures HeapInv(s.mem, s.blocks)
  {
    assert Sound(s.blocks, 0) && HeaderOk(s.mem, s.blocks, 0);
  }

  /** From the zeroed heap, every state of every run of safe operations satisfies the heap invariant. */
  lemma RunKeepsInv(s: HeapState, ops: seq<Op>, i: nat)
    requires Initial(s) && SafeRun(s, ops) && i <= |ops|
    ensures var now := Run(s, ops[..i]); HeapInv(now.mem, now.blocks)
  {
    InitialInv(s);
    RunKeepsInvFrom(s, ops, i);
  }

  lemma {:induction false} RunKeepsInvFrom(s: HeapState, ops: seq<Op>, i: nat)
    requires HeapInv(s.mem, s.blocks) && SafeRun(s, ops) && i <= |ops|
    ensures var now := Run(s, ops[..i]); HeapInv(now.mem, now.blocks)
    decreases i
  {
    if i > 0 {
      StepKeepsInv(s, ops[0]);
      RunKeepsInvFrom(Do(s, ops[0]), ops[1..], i - 1);
      assert ops[..i][1..] == ops[1..][..i - 1];
    }
  }

  /** No operation frees a block between two free ones. */
  predicate TidyRun(s: HeapState, ops: seq<Op>)
    requires |s.blocks| > 0
    decreases |ops|
  {
    ops == [] || (Tidy(s, ops[0]) && TidyRun(Do(s, ops[0]), ops[1..]))
  }

  predicate Tidy(s: HeapState, op: Op) {
    Enabled(s, op) && (op.Release? ==>
      var i := IndexAt(s.blocks, op.ptr, 0);
      !(PrevFree(s.blocks, i) && NextFree(s.blocks, i)))
  }

  lemma StepKeepsCoalesced(s: HeapState, op: Op)
    requires |s.blocks| > 0 && Coalesced(s.blocks) && Tidy(s, op)
    ensures Coalesced(Do(s, op).blocks)
  {
    match op
    case Alloc(request, align) =>
      AllocCoalesced(s.blocks, Stale(s.mem, s.blocks, align), RoundUp8(request), align, 0);
    case Release(ptr) =>
      FreedCoalesced(s.blocks, IndexAt(s.blocks, ptr, 0));
    case Write(addr, value) =>
  }

  /** Two free neighbours never arise in a run without such a free. */
  lemma {:induction false} RunKeepsCoalesced(s: HeapState, ops: seq<Op>)
    requires |s.blocks| > 0 && Coalesced(s.blocks) && TidyRun(s, ops)
    ensures Coalesced(Run(s, ops).blocks)
    decreases |ops|
  {
    if ops != [] {
      StepKeepsCoalesced(s, ops[0]);
      RunKeepsCoalesced(Do(s, ops[0]), ops[1..]);
    }
  }

  /** In a tiled heap no allocation meets another allocation or any header. */
  lemma LiveDisjoint(bs: seq<Block>, i: nat, j: nat, a: int)
    requires Tiled(bs) && i < |bs| && j < |bs| && InData(bs[i], a)
    ensures i != j ==> !InData(bs[j], a)
    ensures !(bs[j].addr <= a < bs[j].Data())
    ensures HEAP_BASE < a < Last(bs).End()
  {
    OrderedAll(bs);
  }

  /** A kept allocation keeps its words when only headers change. */
  lemma ContentsKept(m: Mem, m': Mem, bs: seq<Block>, bs': seq<Block>, h: int, n: int, a: int)
    requires Tiled(bs) && Tiled(bs') && OnlyHeaders(m, m', bs, bs')
    requires HasLive(bs, h, n) && HasLive(bs', h, n) && h + BLOCKSIZ <= a < h + BLOCKSIZ + n
    ensures Rd(m', a) == Rd(m, a)
  {
    OrderedAll(bs);
    OrderedAll(bs');
    assert a != 8;
  }

  lemma StepKeepsContents(s: HeapState, op: Op, h: int, n: int, a: int)
    requires HeapInv(s.mem, s.blocks) && SafeOp(s, op)
    requires HasLive(s.blocks, h, n) && h + BLOCKSIZ <= a < h + BLOCKSIZ + n
    requires op != Release(h + BLOCKSIZ) && !(op.Write? && op.addr == a)
    ensures var s' := Do(s, op); HasLive(s'.blocks, h, n) && Rd(s'.mem, a) == Rd(s.mem, a)
  {
    var s' := Do(s, op);
    match op
    case Alloc(request, align) =>
      AllocKeeps(s, request, align);
      if s' != s {
        KeepsHasLive(s.blocks, s'.blocks, h, n);
        ContentsKept(s.mem, s'.mem, s.blocks, s'.blocks, h, n, a);
      }
    case Release(ptr) =>
      ReleaseKeepsContents(s, ptr, h, n, a);
    case Write(addr, value) =>
  }

  lemma ReleaseKeepsContents(s: HeapState, ptr: int, h: int, n: int, a: int)
    requires HeapInv(s.mem, s.blocks) && SafeOp(s, Release(ptr)) && ptr != h + BLOCKSIZ
    requires HasLive(s.blocks, h, n) && h + BLOCKSIZ <= a < h + BLOCKSIZ + n
    ensures var s' := Do(s, Release(ptr)); HasLive(s'.blocks, h, n) && Rd(s'.mem, a) == Rd(s.mem, a)
  {
    ReleaseKeeps(s, ptr);
    var s' := Do(s, Release(ptr));
    var k :| 0 <= k < |s.blocks| && s.blocks[k].used && s.blocks[k].addr == h && s.blocks[k].size >= n;
    assert s.blocks[k] in s'.blocks;
    ContentsKept(s.mem, s'.mem, s.blocks, s.blocks, h, n, a);
  }

  lemma KeepsHasLive(bs: seq<Block>, bs': seq<Block>, h: int, n: int)
    requires KeepsLive(bs, bs') && HasLive(bs, h, n)
    ensures HasLive(bs', h, n)
  {
    var k :| 0 <= k < |bs| && bs[k].used && bs[k].addr == h && bs[k].size >= n;
    assert HasLive(bs', bs[k].addr, bs[k].size);
  }

  /**
   In every safe run an allocation that is not released stays live, does not shrink, and each of
   its words keeps its value until the kernel writes that very word.
   */
  lemma {:induction false} RunKeepsContents(s: HeapState, ops: seq<Op>, h: int, n: int, a: int)
    requires HeapInv(s.mem, s.blocks) && SafeRun(s, ops)
    requires HasLive(s.blocks, h, n) && h + BLOCKSIZ <= a < h + BLOCKSIZ + n
    requires forall op | op in ops :: op != Release(h + BLOCKSIZ) && !(op.Write? && op.addr == a)
    ensures var last := Run(s, ops);
            HasLive(last.blocks, h, n) && Rd(last.mem, a) == Rd(s.mem, a)
    decreases |ops|
  {
    if ops != [] {
      assert ops[0] in ops;
      StepKeepsInv(s, ops[0]);
      StepKeepsContents(s, ops[0], h, n, a);
      RunKeepsContents(Do(s, ops[0]), ops[1..], h, n, a);
    }
  }

  // ----- Unused memory -------------------------------------------------------------------------

  /** a lies in the data of a free block or past the tail. */
  predicate Unused(bs: seq<Block>, a: int)
    requires |bs| > 0
  {
    a >= Last(bs).End() || exists i | 0 <= i < |bs| :: !bs[i].used && bs[i].Data() <= a < bs[i].End()
  }

  ghost predicate UnusedZero(m: Mem, bs: seq<Block>)
    requires |bs| > 0
  {
    forall a | Unused(bs, a) :: Rd(m, a) == 0
  }

  /** Whatever is unused or just handed out after an allocation was unused before it. */
  lemma TakeFromUnused(bs: seq<Block>, k: nat, size: nat, a: int)
    requires Tiled(bs) && k < |bs| && !bs[k].used && 0 <= size <= bs[k].size && size % 8 == 0
    ensures var bs' := SplitAt(bs[k := bs[k].(used := true)], k, size);
            && Last(bs').End() == Last(bs).End()
            && (Unused(bs', a) || InData(bs'[k], a) ==> Unused(bs, a))
  {
    var b1 := bs[k := bs[k].(used := true)];
    var bs' := SplitAt(b1, k, size);
    MarkTiled(bs, k, true);
    SplitTiled(b1, k, size);
    if InData(bs'[k], a) { assert bs[k].Data() <= a < bs[k].End(); }
    if i :| 0 <= i < |bs'| && !bs'[i].used && bs'[i].Data() <= a < bs'[i].End() {
      var j := if bs' == b1 || i <= k then i else i - 1;
      assert !bs[j].used && bs[j].Data() <= a < bs[j].End();
    }
  }

  lemma ExtendFromUnused(bs: seq<Block>, size: nat, align: nat, a: int)
    requires Tiled(bs) && NoEmptyBlock(bs) && size > 0 && size % 8 == 0
    ensures var bs' := Extend(bs, size, align);
            && Last(bs).End() < Last(bs').End()
            && (Unused(bs', a) || InData(bs'[|bs|], a) ==> Unused(bs, a))
  {
    var p := NewHeader(Last(bs).End(), align);
    assert Last(bs).End() - 8 <= p by { assert Sound(bs, |bs| - 1); NewHeaderFacts(Last(bs).End(), align); }
    ExtendOfUnused(bs, Extend(bs, size, align), size, p, a);
  }

  lemma ExtendOfUnused(bs: seq<Block>, bs': seq<Block>, size: nat, p: int, a: int)
    requires |bs| > 0 && ExtendOf(bs, bs', size, p) && Last(bs).End() - 8 <= p && size > 0
    ensures Last(bs).End() < Last(bs').End()
    ensures Unused(bs', a) || InData(bs'[|bs|], a) ==> Unused(bs, a)
  {
    if i :| 0 <= i < |bs'| && !bs'[i].used && bs'[i].Data() <= a < bs'[i].End() {
      assert bs[i].addr == bs'[i].addr && !bs[i].used;
      assert a < Last(bs).End() ==> bs[i].Data() <= a < bs[i].End();
    }
  }

  /** A safe allocation hands out unused memory, and the heap end never moves down. */
  lemma AllocFromUnused(bs: seq<Block>, stale: bool, size: nat, align: nat, a: int)
    requires Tiled(bs) && NoEmptyBlock(bs) && size > 0 && size % 8 == 0
    requires stale ==> Misfit(bs, align)
    requires AllocSafe(bs, stale, size, align)
    ensures var placed := Placed(bs, stale, size, align, 0);
            && Last(bs).End() <= Last(placed.0).End()
            && (Unused(placed.0, a) || InData(placed.0[placed.1], a) ==> Unused(bs, a))
  {
    if !(Pristine(bs) && align == 0) {
      WalkIsFirstFit(bs, stale, size, align, 0);
      var k := FirstFit(bs, size, align, 0);
      if k < |bs| { TakeFromUnused(bs, k, size, a); } else { ExtendFromUnused(bs, size, align, a); }
    }
  }

  /**
   A safe allocation holds exactly the words that were there: the allocator clears nothing. So it is
   zero if and only if that memory was, and memory that is unused and zero stays so.
   */
  lemma AllocIsZero(m: Mem, bs: seq<Block>, m': Mem, bs': seq<Block>, size: nat, align: nat, ptr: int)
    requires HeapInv(m, bs) && size > 0 && size % 8 == 0
    requires AllocStep(m, bs, m', bs', size, align, ptr)
    requires AllocSafe(bs, Stale(m, bs, align), size, align)
    ensures forall a | ptr <= a < ptr + size :: Rd(m', a) == Rd(m, a)
    ensures (forall a | ptr <= a < ptr + size :: Rd(m', a) == 0) <==> (forall a | ptr <= a < ptr + size :: Rd(m, a) == 0)
    ensures UnusedZero(m, bs) ==> UnusedZero(m', bs') && forall a | ptr <= a < ptr + size :: Rd(m', a) == 0
  {
    AllocRealises(m, bs, m', bs', size, align, ptr);
    var k := Placed(bs, Stale(m, bs, align), size, align, 0).1;
    forall a | Unused(bs', a) || InData(bs'[k], a) ensures Unused(bs, a) && Rd(m', a) == Rd(m, a) {
      HandedOut(m, bs, m', bs', size, align, ptr, a);
    }
    assert forall a | ptr <= a < ptr + size :: InData(bs'[k], a);
  }

  lemma HandedOut(m: Mem, bs: seq<Block>, m': Mem, bs': seq<Block>, size: nat, align: nat, ptr: int, a: int)
    requires HeapInv(m, bs) && size > 0 && size % 8 == 0
    requires AllocStep(m, bs, m', bs', size, align, ptr)
    requires AllocSafe(bs, Stale(m, bs, align), size, align)
    ensures |bs'| > 0
    ensures Unused(bs', a) || InData(bs'[Placed(bs, Stale(m, bs, align), size, align, 0).1], a) ==>
              Unused(bs, a) && Rd(m', a) == Rd(m, a)
  {
    AllocStepGood(m, bs, m', bs', size, align, ptr);
    StaleOnlyMisfit(m, bs, align);
    var k := Placed(bs, Stale(m, bs, align), size, align, 0).1;
    AllocFromUnused(bs, Stale(m, bs, align), size, align, a);
    if Unused(bs', a) || InData(bs'[k], a) {
      UnusedNotHeader(bs, a);
      InDataNotHeader(bs', k, a);
      if Unused(bs', a) { UnusedNotHeader(bs', a); }
    }
  }

  lemma UnusedNotHeader(bs: seq<Block>, a: int)
    requires Tiled(bs) && Unused(bs, a)
    ensures !InHeader(bs, a) && a != 8
  {
    OrderedAll(bs);
  }

  lemma InDataNotHeader(bs: seq<Block>, k: nat, a: int)
    requires Tiled(bs) && k < |bs|
    ensures InData(bs[k], a) ==> !InHeader(bs, a) && a != 8
  {
    OrderedAll(bs);
  }

  // ----- Where the code falls short of its intent --------------------------------------------------

  /** kmalloc(8) and then kmalloca(8, 5): the second header lies on the first allocation. */
  lemma MisfitOverlaps()
    ensures var b1 := Placed([Block(HEAP_BASE, 0, false)], false, 8, 0, 0).0;
            var b2 := Placed(b1, false, 8, 5, 0).0;
            && b1 == [Block(HEAP_BASE, 8, true)] && Misfit(b1, 5)
            && b2 == [Block(HEAP_BASE, 0, true), Block(b1[0].Data(), 8, true)]
  {
    var b1 := [Block(HEAP_BASE, 8, true)];
    assert Placed([Block(HEAP_BASE, 0, false)], false, 8, 0, 0).0 == b1;
    MisfitHeader();
    assert Placed(b1, false, 8, 5, 0) == Placed(b1, false, 8, 5, 1);
  }

  lemma MisfitHeader()
    ensures var b1 := [Block(HEAP_BASE, 8, true)];
            && Misfit(b1, 5)
            && Extend(b1, 8, 5) == [Block(HEAP_BASE, 0, true), Block(HEAP_BASE + 16, 8, true)]
  {
    SmallPowers(5);
    LowIsMod(HEAP_BASE + 24, 5);
    LowIsMod(HEAP_BASE + 40, 5);
  }

  /**
   kmalloca(8, 3) on the untouched heap and then kmalloc(8): the root, still of size zero, is sized
   over the first allocation, so that the second allocation's data is the first one's header.
   */
  lemma FirstAlignedOverlaps(m: Mem)
    requires ZeroFrom(m, HEAP_BASE)
    ensures var (m1, q1) := LookupMem(m, 0, 8, 3, 1);
            var (m2, q2) := LookupMem(m1, 0, 8, 0, 0);
            && Ends(m, 0, 8, 3, 1) && Ends(m1, 0, 8, 0, 0)
            && q1 == HEAP_BASE + 16 && Rd(m2, q1) == 1 && Rd(m2, q1 + 4) == 8
            && q2 == HEAP_BASE && Rd(m2, q2) == 1 && Rd(m2, q2 + 4) == 8 && q2 + BLOCKSIZ == q1
            && forall bs :: !HeapInv(m2, bs)
  {
    FirstAligned(m);
    var m1 := LookupMem(m, 0, 8, 3, 1).0;
    assert Rd(m1, HEAP_BASE) == 0 && Rd(m1, HEAP_BASE + 4) == 0;
    var m2 := LookupMem(m1, 0, 8, 0, 0).0;
    assert m2 == m1[HEAP_BASE + 4 := 8][HEAP_BASE := 1];
    forall bs ensures !HeapInv(m2, bs) {
      if HeapInv(m2, bs) { RootNext(m2, bs); }
    }
  }

  /** In a sound heap the root ends where its successor begins. */
  lemma RootNext(m: Mem, bs: seq<Block>)
    requires HeapInv(m, bs)
    ensures Rd(m, HEAP_BASE + 12) != 0 ==> Rd(m, HEAP_BASE + 12) == HEAP_BASE + BLOCKSIZ + Rd(m, HEAP_BASE + 4)
  {
    assert HeaderOk(m, bs, 0) && Sound(bs, 0);
  }

  lemma FirstAligned(m: Mem)
    requires ZeroFrom(m, HEAP_BASE)
    ensures Ends(m, 0, 8, 3, 1)
    ensures var (m1, q1) := LookupMem(m, 0, 8, 3, 1);
            && q1 == HEAP_BASE + 16
            && forall a | a >= HEAP_BASE :: Rd(m1, a) ==
                 if a == q1 then 1 else if a == q1 + 4 then 8 else if a == q1 + 8 then HEAP_BASE
                 else if a == HEAP_BASE + 12 then q1 else 0
  {
    SmallPowers(3);
    LowIsMod(HEAP_BASE + 32, 3);
    assert Reached(m, 0, 8, 3) == (m, HEAP_BASE);
    assert !Settles(m, HEAP_BASE, 8, 3);
    var q := HEAP_BASE + 16;
    assert AppendAt(m, HEAP_BASE, 3) == q;
    var m1 := AppendMem(m, HEAP_BASE, 8, 3);
    assert m1 == m[HEAP_BASE + 12 := q][q + 8 := HEAP_BASE][q + 4 := 8];
    assert Rd(m, q) == 0 && Rd(m1, q) == Rd(m, q);
    assert Takes(m1, q, 8, 3);
    assert SplitMem(m1[q := 1], q, 8) == m1[q := 1];
    var m2 := m1[q := 1];
    assert LookupMem(m, 0, 8, 3, 1) == LookupMem(m, HEAP_BASE, 8, 3, 0) == (m2, q);
    forall a | a >= HEAP_BASE
      ensures Rd(m2, a) == if a == q then 1 else if a == q + 4 then 8 else if a == q + 8 then HEAP_BASE
                            else if a == HEAP_BASE + 12 then q else 0
    {
      assert Rd(m, a) == 0;
    }
  }

  lemma RunCons(s: HeapState, op: Op, ops: seq<Op>)
    requires |s.blocks| > 0
    ensures Run(s, [op] + ops) == Run(Do(s, op), ops)
    ensures SafeRun(s, [op] + ops) <==> SafeOp(s, op) && SafeRun(Do(s, op), ops)
  {
    assert ([op] + ops)[1..] == ops;
  }

  /** Operations can be played one by one. */
  lemma {:induction false} RunAppend(s: HeapState, ops: seq<Op>, op: Op)
    requires |s.blocks| > 0
    ensures Run(s, ops + [op]) == Do(Run(s, ops), op)
    ensures SafeRun(s, ops + [op]) <==> SafeRun(s, ops) && SafeOp(Run(s, ops), op)
    decreases |ops|
  {
    if ops == [] {
      RunCons(s, op, []);
      assert ops + [op] == [op] + [];
    } else {
      assert ops + [op] == [ops[0]] + (ops[1..] + [op]);
      RunCons(s, ops[0], ops[1..] + [op]);
      RunAppend(Do(s, ops[0]), ops[1..], op);
    }
  }

  /** A run so far, and the list it has led to. */
  ghost predicate Reaches(s: HeapState, ops: seq<Op>, bs: seq<Block>) {
    && |s.blocks| > 0 && SafeRun(s, ops)
    && Run(s, ops).blocks == bs && HeapInv(Run(s, ops).mem, bs)
  }

  /** One more unaligned allocation, which is always safe. */
  lemma ReachesAlloc(s: HeapState, ops: seq<Op>, bs: seq<Block>, size: nat)
    requires Reaches(s, ops, bs) && size > 0 && size % 8 == 0
    ensures Reaches(s, ops + [Alloc(size, 0)], Placed(bs, false, size, 0, 0).0)
  {
    var now := Run(s, ops);
    StaleOnlyMisfit(now.mem, bs, 0);
    assert RoundUp8(size) == size;
    RunAppend(s, ops, Alloc(size, 0));
    AllocKeeps(now, size, 0);
  }

  /** One more release of block i, if that is safe. */
  lemma ReachesFree(s: HeapState, ops: seq<Op>, bs: seq<Block>, i: nat)
    requires Reaches(s, ops, bs) && i < |bs| && bs[i].used && FreeSafe(bs, i)
    ensures Reaches(s, ops + [Release(bs[i].Data())], Freed(bs, i))
  {
    var now, ptr := Run(s, ops), bs[i].Data();
    OrderedAll(bs);
    assert LiveAt(bs, i, ptr);
    assert IndexAt(bs, ptr, 0) == i;
    RunAppend(s, ops, Release(ptr));
    ReleaseKeeps(now, ptr);
  }

  lemma ReachesStart(s: HeapState)
    requires Initial(s)
    ensures Reaches(s, [], [Block(HEAP_BASE, 0, false)])
  {
    InitialInv(s);
  }

  /** The first allocation of eight bytes. */
  lemma ReachesFirst(s: HeapState)
    requires Initial(s)
    ensures Reaches(s, [Alloc(8, 0)], [Block(HEAP_BASE, 8, true)])
  {
    ReachesStart(s);
    ReachesAlloc(s, [], [Block(HEAP_BASE, 0, false)], 8);
    assert [] + [Alloc(8, 0)] == [Alloc(8, 0)];
    assert Placed([Block(HEAP_BASE, 0, false)], false, 8, 0, 0).0 == [Block(HEAP_BASE, 8, true)];
  }

  const FOUR := [Alloc(8, 0)] + [Alloc(8, 0)] + [Alloc(8, 0)] + [Alloc(8, 0)]

  lemma ReachesFour(s: HeapState)
    requires Initial(s)
    ensures Reaches(s, FOUR, [Block(HEAP_BASE, 8, true), Block(HEAP_BASE + 24, 8, true),
                              Block(HEAP_BASE + 48, 8, true), Block(HEAP_BASE + 72, 8, true)])
  {
    var b1 := [Block(HEAP_BASE, 8, true)];
    var b2 := b1 + [Block(HEAP_BASE + 24, 8, true)];
    var b3 := b2 + [Block(HEAP_BASE + 48, 8, true)];
    ReachesFirst(s);
    AppendPlain(b1, 8, 0);
    ReachesAlloc(s, [Alloc(8, 0)], b1, 8);
    AppendPlain(b2, 8, 0);
    ReachesAlloc(s, [Alloc(8, 0)] + [Alloc(8, 0)], b2, 8);
    AppendPlain(b3, 8, 0);
    ReachesAlloc(s, [Alloc(8, 0)] + [Alloc(8, 0)] + [Alloc(8, 0)], b3, 8);
  }

  /** Four allocations, then the first and third freed: the second now lies between two free blocks. */
  lemma FreeBetweenFreeIsReachable(s: HeapState)
    requires Initial(s)
    ensures var ops := FOUR + [Release(HEAP_BASE + 16)] + [Release(HEAP_BASE + 64)];
            && SafeRun(s, ops)
            && Enabled(Run(s, ops), Release(HEAP_BASE + 40)) && !SafeOp(Run(s, ops), Release(HEAP_BASE + 40))
  {
    var b4 := [Block(HEAP_BASE, 8, true), Block(HEAP_BASE + 24, 8, true),
               Block(HEAP_BASE + 48, 8, true), Block(HEAP_BASE + 72, 8, true)];
    var b5 := b4[0 := Block(HEAP_BASE, 8, false)];
    var b6 := b5[2 := Block(HEAP_BASE + 48, 8, false)];
    ReachesFour(s);
    ReachesFree(s, FOUR, b4, 0);
    assert Freed(b4, 0) == b5;
    ReachesFree(s, FOUR + [Release(HEAP_BASE + 16)], b5, 2);
    assert Freed(b5, 2) == b6;
    assert IndexAt(b6, HEAP_BASE + 40, 0) == IndexAt(b6, HEAP_BASE + 40, 1) == 1;
  }

  /** Three allocations of 8, 8 and 104 bytes. */
  const THREE := [Alloc(8, 0), Alloc(8, 0), Alloc(104, 0)]

  lemma ReachesThree(s: HeapState)
    requires Initial(s)
    ensures Reaches(s, THREE, [Block(HEAP_BASE, 8, true), Block(HEAP_BASE + 24, 8, true), Block(HEAP_BASE + 48, 104, true)])
  {
    var b1 := [Block(HEAP_BASE, 8, true)];
    var b2 := b1 + [Block(HEAP_BASE + 24, 8, true)];
    ReachesFirst(s);
    AppendPlain(b1, 8, 0);
    ReachesAlloc(s, [Alloc(8, 0)], b1, 8);
    AppendPlain(b2, 104, 0);
    ReachesAlloc(s, [Alloc(8, 0)] + [Alloc(8, 0)], b2, 104);
    assert [Alloc(8, 0)] + [Alloc(8, 0)] + [Alloc(104, 0)] == THREE;
  }

  /** Freeing them from the ends inwards leaves two free neighbours, although every step is safe. */
  const UNCOALESCED := THREE + [Release(HEAP_BASE + 16)] + [Release(HEAP_BASE + 64)] + [Release(HEAP_BASE + 40)]

  lemma ReachesUncoalesced(s: HeapState)
    requires Initial(s)
    ensures Reaches(s, UNCOALESCED, [Block(HEAP_BASE, 32, false), Block(HEAP_BASE + 48, 104, false)])
  {
    var b3 := [Block(HEAP_BASE, 8, true), Block(HEAP_BASE + 24, 8, true), Block(HEAP_BASE + 48, 104, true)];
    var b4 := b3[0 := Block(HEAP_BASE, 8, false)];
    var b5 := b4[2 := Block(HEAP_BASE + 48, 104, false)];
    ReachesThree(s);
    ReachesFree(s, THREE, b3, 0);
    ReachesFree(s, THREE + [Release(HEAP_BASE + 16)], b4, 2);
    ReachesFree(s, THREE + [Release(HEAP_BASE + 16)] + [Release(HEAP_BASE + 64)], b5, 1);
    assert Freed(b5, 1) == [Block(HEAP_BASE, 32, false), Block(HEAP_BASE + 48, 104, false)];
  }

  /** There, kmalloc(104), kfree, kmalloc(104) gives two different addresses without extending the heap. */
  lemma AddressMovesIsReachable(s: HeapState)
    requires Initial(s)
    ensures SafeRun(s, UNCOALESCED)
    ensures var bs := Run(s, UNCOALESCED).blocks;
            var first := Placed(bs, false, 104, 0, 0);
            var again := Placed(Freed(first.0, first.1), false, 104, 0, 0);
            && !Coalesced(bs) && ReusesOrFollowsUsed(bs, 104, 0)
            && first.0[first.1].addr == HEAP_BASE + 48 && again.0[again.1].addr == HEAP_BASE
  {
    ReachesUncoalesced(s);
    var bs := [Block(HEAP_BASE, 32, false), Block(HEAP_BASE + 48, 104, false)];
    assert !Fits(bs[0], 104, 0) && Fits(bs[1], 104, 0);
    FirstFitAt(bs, 104, 0, 0, 1);
    assert Placed(bs, false, 104, 0, 0) == Placed(bs, false, 104, 0, 1);
    var taken := [bs[0], Block(HEAP_BASE + 48, 104, true)];
    assert Placed(bs, false, 104, 0, 1).0 == taken;
    assert Freed(taken, 1) == [Block(HEAP_BASE, 152, false)];
  }

  /** After one more kmalloc(200), even kmalloc(40) followed by its own kfree is not safe. */
  lemma WedgedIsReachable(s: HeapState)
    requires Initial(s)
    ensures var ops := UNCOALESCED + [Alloc(200, 0)] + [Alloc(40, 0)];
            && SafeRun(s, ops)
            && Enabled(Run(s, ops), Release(HEAP_BASE + 64)) && !SafeOp(Run(s, ops), Release(HEAP_BASE + 64))
  {
    ReachesUncoalesced(s);
    var b6 := [Block(HEAP_BASE, 32, false), Block(HEAP_BASE + 48, 104, false)];
    var b7 := b6 + [Block(HEAP_BASE + 168, 200, true)];
    var b8 := [b6[0], Block(HEAP_BASE + 48, 40, true), Block(HEAP_BASE + 104, 48, false), b7[2]];
    ReachesAlloc(s, UNCOALESCED, b6, 200);
    PlacedPastSmall(b6, 200);
    ReachesAlloc(s, UNCOALESCED + [Alloc(200, 0)], b7, 40);
    assert Placed(b7, false, 40, 0, 0) == Placed(b7, false, 40, 0, 1);
    assert Placed(b7, false, 40, 0, 1).0 == b8;
    assert IndexAt(b8, HEAP_BASE + 64, 0) == IndexAt(b8, HEAP_BASE + 64, 1) == 1;
  }

  lemma PlacedPastSmall(bs: seq<Block>, size: nat)
    requires |bs| == 2 && 0 < bs[0].size < size && 0 < bs[1].size < size
    ensures Placed(bs, false, size, 0, 0).0 == bs + [Block(Last(bs).End(), size, true)]
  {
    assert Placed(bs, false, size, 0, 0) == Placed(bs, false, size, 0, 1) == Placed(bs, false, size, 0, 2);
    assert Extend(bs, size, 0) == bs + [Block(Last(bs).End(), size, true)];
  }

  /** Allocated, written, freed and allocated again, a block comes back with the old contents. */
  lemma DirtyIsReachable(s: HeapState, v: nat)
    requires Initial(s)
    ensures var ops := [Alloc(8, 0)] + [Write(HEAP_BASE + 16, v)] + [Release(HEAP_BASE + 16)] + [Alloc(8, 0)];
            && SafeRun(s, ops)
            && Run(s, ops).blocks == [Block(HEAP_BASE, 8, true)] && Rd(Run(s, ops).mem, HEAP_BASE + 16) == v
  {
    var b1, b3 := [Block(HEAP_BASE, 8, true)], [Block(HEAP_BASE, 8, false)];
    var o1 := [Alloc(8, 0)];
    ReachesFirst(s);
    var o2 := o1 + [Write(HEAP_BASE + 16, v)];
    RunAppend(s, o1, Write(HEAP_BASE + 16, v));
    assert InData(b1[0], HEAP_BASE + 16);
    StepKeepsInv(Run(s, o1), Write(HEAP_BASE + 16, v));
    FreedAndBack(s, o2, v);
  }

  lemma FreedAndBack(s: HeapState, ops: seq<Op>, v: nat)
    requires Reaches(s, ops, [Block(HEAP_BASE, 8, true)]) && Rd(Run(s, ops).mem, HEAP_BASE + 16) == v
    ensures var ops' := ops + [Release(HEAP_BASE + 16)] + [Alloc(8, 0)];
            && Reaches(s, ops', [Block(HEAP_BASE, 8, true)]) && Rd(Run(s, ops').mem, HEAP_BASE + 16) == v
  {
    var b1, b2, a := [Block(HEAP_BASE, 8, true)], [Block(HEAP_BASE, 8, false)], HEAP_BASE + 16;
    ReachesFree(s, ops, b1, 0);
    assert Freed(b1, 0) == b2;
    RunAppend(s, ops, Release(a));
    assert IndexAt(b1, a, 0) == 0;
    FreeRealises(Run(s, ops).mem, b1, 0);
    InDataNotHeader(b1, 0, a);
    var s3 := Run(s, ops + [Release(a)]);
    assert Rd(s3.mem, a) == v;
    ReachesAlloc(s, ops + [Release(a)], b2, 8);
    assert Placed(b2, false, 8, 0, 0).0 == b1;
    RunAppend(s, ops + [Release(a)], Alloc(8, 0));
    var s4 := Do(s3, Alloc(8, 0));
    StaleOnlyMisfit(s3.mem, b2, 0);
    var ptr := LookupMem(s3.mem, 0, 8, 0, |b2| + 1).1 + BLOCKSIZ;
    assert RoundUp8(8) == 8;
    assert AllocStep(s3.mem, b2, s4.mem, s4.blocks, 8, 0, ptr);
    AllocRealises(s3.mem, b2, s4.mem, s4.blocks, 8, 0, ptr);
    AllocIsZero(s3.mem, b2, s4.mem, s4.blocks, 8, 0, ptr);
  }

  /** Two allocations, and the second freed. */
  const TWO_ONE := [Alloc(8, 0)] + [Alloc(8, 0)] + [Release(HEAP_BASE + 40)]

  lemma ReachesTwoOne(s: HeapState)
    requires Initial(s)
    ensures Reaches(s, TWO_ONE, [Block(HEAP_BASE, 8, true), Block(HEAP_BASE + 24, 8, false)])
  {
    var b1 := [Block(HEAP_BASE, 8, true)];
    var b2 := b1 + [Block(HEAP_BASE + 24, 8, true)];
    ReachesFirst(s);
    AppendPlain(b1, 8, 0);
    ReachesAlloc(s, [Alloc(8, 0)], b1, 8);
    ReachesFree(s, [Alloc(8, 0)] + [Alloc(8, 0)], b2, 1);
    assert Freed(b2, 1) == [b1[0], Block(HEAP_BASE + 24, 8, false)];
  }

  /** When the first is freed too, the word at address 8, outside the heap, is overwritten. */
  lemma LowWordIsReachable(s: HeapState)
    requires Initial(s)
    ensures var ops := TWO_ONE + [Release(HEAP_BASE + 16)];
            SafeRun(s, ops) && Rd(Run(s, ops).mem, 8) == HEAP_BASE
  {
    var b3 := [Block(HEAP_BASE, 8, true), Block(HEAP_BASE + 24, 8, false)];
    ReachesTwoOne(s);
    ReachesFree(s, TWO_ONE, b3, 0);
    RunAppend(s, TWO_ONE, Release(HEAP_BASE + 16));
    assert IndexAt(b3, HEAP_BASE + 16, 0) == 0;
    FreeWritesLow(Run(s, TWO_ONE).mem, b3, 0);
  }

  /** With every block used, an unaligned request goes right behind the tail. */
  lemma {:induction false} AppendPlain(bs: seq<Block>, size: nat, i: nat)
    requires |bs| > 0 && i <= |bs| && forall j | 0 <= j < |bs| :: bs[j].used && bs[j].size > 0
    ensures Placed(bs, false, size, 0, i) == (bs + [Block(Last(bs).End(), size, true)], |bs|)
    decreases |bs| - i
  {
    if i < |bs| {
      AppendPlain(bs, size, i + 1);
    } else {
      assert Extend(bs, size, 0) == bs + [Block(Last(bs).End(), size, true)];
    }
  }

  /** Freeing between two free blocks: the block after them names the absorbed header as its predecessor. */
  lemma FreeBetweenFreeDangles(m: Mem, bs: seq<Block>, i: nat)
    requires HeapInv(m, bs) && i + 2 < |bs| && bs[i].used && PrevFree(bs, i) && NextFree(bs, i)
    ensures bs[i].addr > 0
    ensures Rd(FreeMem(m, bs[i].addr), bs[i + 2].addr + 8) == bs[i].addr
    ensures forall b | b in Freed(bs, i) :: b.addr != bs[i].addr
    ensures !Coalesced(Freed(bs, i))
  {
    ClearRealises(m, bs, i);
    DanglingPrev(m[bs[i].addr := 0], Cleared(bs, i), i);
    AbsorbedIsGone(bs, i);
    assert !Freed(bs, i)[i - 1].used && Freed(bs, i)[i] == bs[i + 1];
  }

  lemma DanglingPrev(m1: Mem, f: seq<Block>, i: nat)
    requires Shape(m1, f) && i + 2 < |f| && !f[i].used && PrevFree(f, i) && NextFree(f, i)
    ensures f[i - 1].addr > 0 && f[i].addr > 0
    ensures Rd(MergeMem(MergeMem(m1, f[i - 1].addr), f[i].addr), f[i + 2].addr + 8) == f[i].addr
  {
    MergeStep(m1, f, i - 1);
    AbsorbedMerge(m1, MergeMem(m1, f[i - 1].addr), f, i);
  }
}
