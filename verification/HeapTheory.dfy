/** What allocation and release do to the live allocations, and exactly when they are safe. */
module HeapTheory {
  import opened Memory
  import opened Blocks

  // ----- Live allocations ------------------------------------------------------------

  /** A live allocation of at least n bytes whose header is at a. */
  predicate HasLive(bs: seq<Block>, a: int, n: int) {
    exists i | 0 <= i < |bs| :: bs[i].used && bs[i].addr == a && bs[i].size >= n
  }

  /** Every allocation live in bs is still there in bs', and has not shrunk. */
  predicate KeepsLive(bs: seq<Block>, bs': seq<Block>) {
    forall i | 0 <= i < |bs| && bs[i].used :: HasLive(bs', bs[i].addr, bs[i].size)
  }

  /** bs' has no live allocation that bs lacks, except the one at a. */
  predicate NoOtherLive(bs: seq<Block>, bs': seq<Block>, a: int) {
    forall i | 0 <= i < |bs'| && bs'[i].used && bs'[i].addr != a :: HasLive(bs, bs'[i].addr, 0)
  }

  /** Block k of bs' is a new, aligned, large enough allocation and nothing else changed hands. */
  predicate AllocGood(bs: seq<Block>, bs': seq<Block>, k: nat, size: int, align: nat)
    requires k < |bs'|
  {
    && Tiled(bs') && NoEmptyBlock(bs')
    && bs'[k].used && bs'[k].size >= size && Low(bs'[k].Data(), align) == 0
    && KeepsLive(bs, bs') && NoOtherLive(bs, bs', bs'[k].addr)
    && !HasLive(bs, bs'[k].addr, 0)
  }

  // ----- First fit --------------------------------------------------------------------

  function FirstFit(bs: seq<Block>, size: int, align: nat, i: nat): (k: nat)
    requires i <= |bs|
    ensures i <= k <= |bs|
    ensures k < |bs| ==> Fits(bs[k], size, align)
    ensures forall j | i <= j < k :: !Fits(bs[j], size, align)
    decreases |bs| - i
  {
    if i == |bs| || Fits(bs[i], size, align) then i else FirstFit(bs, size, align, i + 1)
  }

  /** The walk takes the lowest-addressed block that fits and extends the heap only without one. */
  lemma {:induction false} WalkIsFirstFit(bs: seq<Block>, stale: bool, size: nat, align: nat, i: nat)
    requires Tiled(bs) && NoEmptyBlock(bs) && size > 0 && i <= |bs|
    requires !(Pristine(bs) && align == 0)
    ensures var k := FirstFit(bs, size, align, i);
            Placed(bs, stale, size, align, i) ==
            if k < |bs| then (SplitAt(bs[k := bs[k].(used := true)], k, size), k)
            else if stale then (Extend(Extend(bs, size, align), size, align), |bs| + 1)
            else (Extend(bs, size, align), |bs|)
    decreases |bs| - i
  {
    if i < |bs| && !Fits(bs[i], size, align) {
      assert !(bs[i].size == 0 && align == 0);
      WalkIsFirstFit(bs, stale, size, align, i + 1);
    }
  }

  lemma ExtendAligned(bs: seq<Block>, size: nat, align: nat)
    requires |bs| > 0 && Last(bs).End() % 8 == 0 && size % 8 == 0
    ensures var b := Last(Extend(bs, size, align));
            b.used && b.size == size && Low(b.Data(), align) == 0 && b.End() % 8 == 0
  {
    var p := NewHeader(Last(bs).End(), align);
    assert Last(Extend(bs, size, align)) == Block(p, size, true);
    NewHeaderFacts(Last(bs).End(), align);
    Multiple8(p, size);
  }

  lemma Multiple8(a: int, b: int)
    requires a % 8 == 0 && b % 8 == 0
    ensures (a + BLOCKSIZ + b) % 8 == 0
  {
  }

  /** Safe or not, the block handed out is large enough and aligned. */
  lemma {:induction false} PlacedAligned(bs: seq<Block>, stale: bool, size: nat, align: nat, i: nat)
    requires Tiled(bs) && size > 0 && size % 8 == 0 && i <= |bs|
    ensures var placed := Placed(bs, stale, size, align, i);
            var b := placed.0[placed.1];
            b.used && b.size >= size && Low(b.Data(), align) == 0
    decreases |bs| - i
  {
    if i == |bs| {
      assert Sound(bs, |bs| - 1);
      ExtendAligned(bs, size, align);
      ExtendAligned(Extend(bs, size, align), size, align);
    } else if Fits(bs[i], size, align) {
    } else if bs[i].size == 0 && align == 0 {
    } else {
      PlacedAligned(bs, stale, size, align, i + 1);
    }
  }

  // ----- When allocation is safe ---------------------------------------------------------

  /** The heap end is eight short of a multiple of the alignment: the new header would overlap the tail. */
  predicate Misfit(bs: seq<Block>, align: nat)
    requires |bs| > 0
  {
    align >= 4 && Low(Last(bs).End(), align) == Pow2(align) - 8
  }

  predicate AllocSafe(bs: seq<Block>, stale: bool, size: int, align: nat)
    requires |bs| > 0
  {
    || FirstFit(bs, size, align, 0) < |bs|
    || (&& !(Pristine(bs) && 1 <= align <= 5)
        && (Misfit(bs, align) ==> !Last(bs).used && Last(bs).size > 8 && !stale))
  }

  lemma MarkTiled(bs: seq<Block>, k: nat, used: bool)
    requires Tiled(bs) && k < |bs|
    ensures Tiled(bs[k := bs[k].(used := used)])
    ensures NoEmptyBlock(bs) && bs[k].size > 0 ==> NoEmptyBlock(bs[k := bs[k].(used := used)])
  {
    var b1 := bs[k := bs[k].(used := used)];
    forall i | 0 <= i < |b1| ensures Sound(b1, i) { assert Sound(bs, i); }
  }

  lemma TakeKeeps(bs: seq<Block>, bs': seq<Block>, k: nat, d: nat)
    requires Tiled(bs) && k < |bs| && !bs[k].used && |bs'| == |bs| + d && d <= 1
    requires bs'[k].addr == bs[k].addr
    requires forall i | 0 <= i < k :: bs'[i] == bs[i]
    requires forall i | k < i < |bs| :: bs'[i + d] == bs[i]
    requires d == 1 ==> !bs'[k + 1].used
    ensures KeepsLive(bs, bs') && NoOtherLive(bs, bs', bs'[k].addr) && !HasLive(bs, bs'[k].addr, 0)
  {
    forall i | 0 <= i < |bs| && bs[i].used ensures HasLive(bs', bs[i].addr, bs[i].size) {
      assert bs'[if i < k then i else i + d] == bs[i];
    }
    forall i | 0 <= i < |bs'| && bs'[i].used && bs'[i].addr != bs'[k].addr ensures HasLive(bs, bs'[i].addr, 0) {
      var j := if i < k then i else i - d;
      assert bs[j] == bs'[if j < k then j else j + d] && Sound(bs, j);
    }
    OrderedAll(bs);
  }

  lemma TakeWhole(bs: seq<Block>, bs': seq<Block>, k: nat, size: nat, align: nat)
    requires Tiled(bs) && NoEmptyBlock(bs) && size > 0 && k < |bs| && Fits(bs[k], size, align)
    requires bs' == bs[k := bs[k].(used := true)]
    ensures AllocGood(bs, bs', k, size, align)
  {
    MarkTiled(bs, k, true);
    TakeKeeps(bs, bs', k, 0);
  }

  lemma TakeCut(bs: seq<Block>, b1: seq<Block>, bs': seq<Block>, k: nat, size: nat, align: nat)
    requires Tiled(bs) && NoEmptyBlock(bs) && size > 0 && k + 1 < |bs| && Fits(bs[k], size, align)
    requires b1 == bs[k := bs[k].(used := true)]
    requires SplitOf(b1, bs', k, size) && Tiled(bs') && bs[k].size - size > BLOCKSIZ
    ensures AllocGood(bs, bs', k, size, align)
  {
    MarkTiled(bs, k, true);
    SplitNoEmpty(b1, bs', k, size);
    TakeKeeps(bs, bs', k, 1);
  }

  lemma TakeGood(bs: seq<Block>, k: nat, size: nat, align: nat)
    requires Tiled(bs) && NoEmptyBlock(bs) && size > 0 && size % 8 == 0
    requires k < |bs| && Fits(bs[k], size, align)
    ensures AllocGood(bs, SplitAt(bs[k := bs[k].(used := true)], k, size), k, size, align)
  {
    var b1 := bs[k := bs[k].(used := true)];
    var bs' := SplitAt(b1, k, size);
    if k == |b1| - 1 || b1[k].size - size <= BLOCKSIZ + 8 {
      TakeWhole(bs, bs', k, size, align);
    } else {
      MarkTiled(bs, k, true);
      SplitTiled(b1, k, size);
      assert SplitOf(b1, bs', k, size);
      TakeCut(bs, b1, bs', k, size, align);
    }
  }

  lemma SplitNoEmpty(bs: seq<Block>, bs': seq<Block>, k: nat, size: nat)
    requires k + 1 < |bs| && NoEmptyBlock(bs) && SplitOf(bs, bs', k, size)
    requires size > 0 && bs[k].size - size > BLOCKSIZ
    ensures NoEmptyBlock(bs')
  {
    forall i | 0 <= i < |bs'| ensures bs'[i].size != 0 {
      if i < k { assert bs'[i] == bs[i]; } else if i > k + 1 { assert bs'[i] == bs[i - 1]; }
    }
  }

  lemma ExtendKeeps(bs: seq<Block>, bs': seq<Block>, size: nat, p: int)
    requires Tiled(bs) && ExtendOf(bs, bs', size, p) && p >= Last(bs).Data()
    ensures KeepsLive(bs, bs') <==> (Last(bs).used ==> p >= Last(bs).End())
    ensures NoOtherLive(bs, bs', p)
    ensures !HasLive(bs, p, 0)
  {
    OrderedAll(bs);
    var n := |bs| - 1;
    forall i | 0 <= i < n && bs[i].used ensures HasLive(bs', bs[i].addr, bs[i].size) {
      assert bs'[i] == bs[i];
    }
    assert bs'[n].addr == bs[n].addr && bs'[n].used == bs[n].used && bs'[n].size == p - bs[n].Data();
    if bs[n].used && p < bs[n].End() {
      forall i | 0 <= i < |bs'| && bs'[i].addr == bs[n].addr ensures i == n {}
    }
    forall i | 0 <= i < |bs'| && bs'[i].used && bs'[i].addr != p ensures HasLive(bs, bs'[i].addr, 0) {
      assert bs[i].used && bs[i].addr == bs'[i].addr;
    }
  }

  lemma ExtendNoEmpty(bs: seq<Block>, bs': seq<Block>, size: nat, p: int)
    requires |bs| > 0 && NoEmptyBlock(bs) && ExtendOf(bs, bs', size, p) && p >= Last(bs).Data() && size > 0
    ensures NoEmptyBlock(bs') <==> p > Last(bs).Data()
  {
    var n := |bs| - 1;
    assert bs'[n].size == p - bs[n].Data();
    forall i | 0 <= i < n ensures bs'[i].size != 0 { assert bs'[i] == bs[i]; }
  }

  /** Behind the untouched root the new header leaves a gap exactly for alignments above 32. */
  lemma PristineHeader(align: nat)
    ensures NewHeader(HEAP_BASE + BLOCKSIZ, align) > HEAP_BASE + BLOCKSIZ <==> align > 5
  {
    var e := HEAP_BASE + BLOCKSIZ;
    NewHeaderFacts(e, align);
    LowOfRoot(align);
  }

  lemma LowOfRoot(k: nat)
    ensures Low(HEAP_BASE + 2 * BLOCKSIZ, k) == 0 <==> k <= 5
  {
    var x := HEAP_BASE + 2 * BLOCKSIZ;
    if k > 0 { assert Low(x, k) == 2 * Low(0x200010, k - 1); }
    if k > 1 { assert Low(0x200010, k - 1) == 2 * Low(0x100008, k - 2); }
    if k > 2 { assert Low(0x100008, k - 2) == 2 * Low(0x80004, k - 3); }
    if k > 3 { assert Low(0x80004, k - 3) == 2 * Low(0x40002, k - 4); }
    if k > 4 { assert Low(0x40002, k - 4) == 2 * Low(0x20001, k - 5); }
    if k > 5 { assert Low(0x20001, k - 5) == 1 + 2 * Low(0x10000, k - 6); }
  }

  /** The header appended to a sound heap, and when it gives the tail a size of zero or cuts into it. */
  lemma ExtendCondition(bs: seq<Block>, align: nat)
    requires Tiled(bs) && NoEmptyBlock(bs)
    ensures var t, p := Last(bs), NewHeader(Last(bs).End(), align);
            && p % 8 == 0 && Low(p + BLOCKSIZ, align) == 0 && p >= t.Data()
            && (p < t.End() <==> Misfit(bs, align))
            && (p == t.Data() <==> (Pristine(bs) && align <= 5) || (Misfit(bs, align) && t.size == 8))
  {
    var t := Last(bs);
    assert Sound(bs, |bs| - 1);
    NewHeaderFacts(t.End(), align);
    if t.size == 0 {
      assert bs[|bs| - 1].size == 0;
      assert bs == [Block(HEAP_BASE, 0, false)];
      PristineHeader(align);
    }
  }

  lemma ExtendGood(bs: seq<Block>, size: nat, align: nat)
    requires Tiled(bs) && NoEmptyBlock(bs) && size > 0 && size % 8 == 0
    ensures var bs' := Extend(bs, size, align);
            AllocGood(bs, bs', |bs|, size, align) <==>
            && !(Pristine(bs) && align <= 5)
            && (Misfit(bs, align) ==> !Last(bs).used && Last(bs).size > 8)
  {
    var bs', t := Extend(bs, size, align), Last(bs);
    var p := NewHeader(t.End(), align);
    ExtendCondition(bs, align);
    assert ExtendOf(bs, bs', size, p);
    ExtendTiled(bs, bs', size, p);
    ExtendKeeps(bs, bs', size, p);
    ExtendNoEmpty(bs, bs', size, p);
    assert Sound(bs, |bs| - 1);
    assert Misfit(bs, align) ==> t.size >= 8 by { assert p >= t.Data() && t.size % 8 == 0; }
  }

  /** A second extension behind a block that only looked used leaves that block as a phantom. */
  lemma PhantomBad(bs: seq<Block>, size: nat, align: nat)
    requires Tiled(bs) && NoEmptyBlock(bs) && size > 0 && size % 8 == 0 && Misfit(bs, align)
    ensures var bs' := Extend(Extend(bs, size, align), size, align);
            !AllocGood(bs, bs', |bs| + 1, size, align)
  {
    var b1 := Extend(bs, size, align);
    var b2 := Extend(b1, size, align);
    assert Sound(bs, |bs| - 1);
    NewHeaderFacts(Last(bs).End(), align);
    var p := NewHeader(Last(bs).End(), align);
    assert b2[|bs|].addr == p && b2[|bs|].used;
    if AllocGood(bs, b2, |bs| + 1, size, align) {
      OrderedAll(b2);
      assert HasLive(bs, p, 0);
      OrderedAll(bs);
      assert false;
    }
  }

  /**
   `kmalloca` hands out a new, aligned, disjoint allocation and keeps every live one if and only
   if a block fits, or the heap can be extended without moving the new header back over the tail.
   */
  lemma AllocGoodIffSafe(bs: seq<Block>, stale: bool, size: nat, align: nat)
    requires Tiled(bs) && NoEmptyBlock(bs) && size > 0 && size % 8 == 0
    requires stale ==> Misfit(bs, align)
    ensures var placed := Placed(bs, stale, size, align, 0);
            AllocGood(bs, placed.0, placed.1, size, align) <==> AllocSafe(bs, stale, size, align)
  {
    if Pristine(bs) && align == 0 {
      var bs' := Placed(bs, stale, size, align, 0).0;
      assert bs' == [Block(HEAP_BASE, size, true)] && Sound(bs', 0);
      assert !Misfit(bs, align);
    } else {
      WalkIsFirstFit(bs, stale, size, align, 0);
      var k := FirstFit(bs, size, align, 0);
      if k < |bs| {
        TakeGood(bs, k, size, align);
      } else if stale {
        PhantomBad(bs, size, align);
      } else {
        ExtendGood(bs, size, align);
      }
    }
  }

  // ----- Release ----------------------------------------------------------------------------

  /** `kfree` of block i leaves the list linked both ways. */
  predicate FreeSafe(bs: seq<Block>, i: nat)
    requires i < |bs|
  {
    !(PrevFree(bs, i) && NextFree(bs, i) && i + 2 < |bs|)
  }

  lemma FreedTiled(bs: seq<Block>, i: nat)
    requires Tiled(bs) && NoEmptyBlock(bs) && i < |bs| && bs[i].used
    ensures var bs' := Freed(bs, i);
            Tiled(bs') && NoEmptyBlock(bs') && Last(bs').End() == Last(bs).End()
  {
    var f := bs[i := bs[i].(used := false)];
    assert Tiled(f) by { MarkTiled(bs, i, false); }
    assert forall j | 0 <= j < |f| :: f[j].size > 0 by { OrderedAll(bs); }
    assert Last(f).End() == Last(bs).End();
    if PrevFree(bs, i) {
      FreedMerge(f, i - 1);
    } else if NextFree(bs, i) {
      FreedMerge(f, i);
    }
  }

  lemma FreedMerge(f: seq<Block>, k: nat)
    requires Tiled(f) && k + 1 < |f| && forall j | 0 <= j < |f| :: f[j].size > 0
    ensures var bs' := MergeAt(f, k);
            Tiled(bs') && NoEmptyBlock(bs') && Last(bs').End() == Last(f).End()
  {
    MergeTiled(f, k);
    MergeNoEmpty(f, k);
  }

  lemma MergeNoEmpty(f: seq<Block>, k: nat)
    requires k + 1 < |f| && forall j | 0 <= j < |f| :: f[j].size > 0
    ensures NoEmptyBlock(MergeAt(f, k))
  {
    var f' := MergeAt(f, k);
    forall j | 0 <= j < |f'| ensures f'[j].size > 0 {
      if j < k { assert f'[j] == f[j]; } else if j > k { assert f'[j] == f[j + 1]; }
    }
  }

  /** Releasing block i takes that allocation away and no other, and moves neither end of the heap. */
  lemma FreedKeepsOthers(bs: seq<Block>, i: nat)
    requires Tiled(bs) && NoEmptyBlock(bs) && i < |bs| && bs[i].used
    ensures var bs' := Freed(bs, i);
            && Tiled(bs') && NoEmptyBlock(bs') && Last(bs').End() == Last(bs).End()
            && forall b: Block | b.used :: b in bs' <==> b in bs && b != bs[i]
  {
    FreedTiled(bs, i);
    forall b: Block | b.used ensures b in Freed(bs, i) <==> b in bs && b != bs[i] { FreedMembers(bs, i, b); }
  }

  lemma FreedMembers(bs: seq<Block>, i: nat, b: Block)
    requires Tiled(bs) && i < |bs| && bs[i].used && b.used
    ensures b in Freed(bs, i) <==> b in bs && b != bs[i]
  {
    var bs' := Freed(bs, i);
    if b in bs && b != bs[i] {
      var j :| 0 <= j < |bs| && bs[j] == b;
      var k := if |bs'| == |bs| || j < i then j else j - 1;
      assert bs'[k] == b;
    }
    if b in bs' {
      var k :| 0 <= k < |bs'| && bs'[k] == b;
      var merged := if |bs'| == |bs| then |bs| else if PrevFree(bs, i) then i - 1 else i;
      var j := if k <= merged then k else k + 1;
      assert bs[j] == b && j != i;
      OrderedAll(bs);
    }
  }

  /** Releasing keeps "no two neighbours free" exactly when not both neighbours were free. */
  lemma FreedCoalesced(bs: seq<Block>, i: nat)
    requires i < |bs| && bs[i].used && Coalesced(bs)
    ensures Coalesced(Freed(bs, i)) <==> !(PrevFree(bs, i) && NextFree(bs, i))
  {
    var bs' := Freed(bs, i);
    if PrevFree(bs, i) && NextFree(bs, i) {
      assert !bs'[i - 1].used && bs'[i] == bs[i + 1];
    } else {
      var d := |bs| - |bs'|;
      forall j, k | 0 <= j < |bs'| && k == j + 1 && k < |bs'| ensures bs'[j].used || bs'[k].used {
        if PrevFree(bs, i) {
          assert bs'[j].used == bs[if j < i then j else j + 1].used;
          assert bs'[k].used == bs[if k < i then k else k + 1].used;
        }
      }
    }
  }
}
