/**
 The kernel heap as its list of blocks: what one pass of `lookup`, `split`, `merge`
 and `kfree` does to the list, and what every such list must satisfy.
 */
module Blocks {
  import opened Memory

  const HEAP_BASE := 0x400000
  const BLOCKSIZ := 16

  /** One header together with the data bytes that follow it. */
  datatype Block = Block(addr: int, size: int, used: bool) {
    function Data(): int { addr + BLOCKSIZ }
    function End(): int { addr + BLOCKSIZ + size }
  }

  function Last(bs: seq<Block>): Block
    requires |bs| > 0
  {
    bs[|bs| - 1]
  }

  // ----- Well-formedness -----------------------------------------------------------

  predicate Sound(bs: seq<Block>, i: nat)
    requires i < |bs|
  {
    && bs[i].addr % 8 == 0
    && bs[i].size >= 0
    && bs[i].size % 8 == 0
    && (i + 1 < |bs| ==> bs[i + 1].addr == bs[i].End())
  }

  /** The blocks cover HEAP_BASE up to the tail end with neither gap nor overlap. */
  predicate Tiled(bs: seq<Block>) {
    && |bs| > 0
    && bs[0].addr == HEAP_BASE
    && forall i {:trigger Sound(bs, i)} | 0 <= i < |bs| :: Sound(bs, i)
  }

  /** Only the untouched root may have size zero. */
  predicate NoEmptyBlock(bs: seq<Block>) {
    forall i | 0 <= i < |bs| && bs[i].size == 0 :: |bs| == 1 && !bs[i].used
  }

  predicate Pristine(bs: seq<Block>) {
    bs == [Block(HEAP_BASE, 0, false)]
  }

  /** No two neighbours are both free. */
  predicate Coalesced(bs: seq<Block>) {
    forall i, j | 0 <= i < |bs| && j == i + 1 && j < |bs| :: bs[i].used || bs[j].used
  }

  /** Address order is list order. */
  lemma {:induction false} Ordered(bs: seq<Block>, i: nat, j: nat)
    requires Tiled(bs) && i < j < |bs|
    ensures bs[i].End() <= bs[j].addr
    decreases j - i
  {
    assert Sound(bs, i);
    if i + 1 < j {
      Ordered(bs, i + 1, j);
      assert Sound(bs, i + 1);
    }
  }

  lemma OrderedAll(bs: seq<Block>)
    requires Tiled(bs)
    ensures forall i, j | 0 <= i < j < |bs| :: bs[i].End() <= bs[j].addr
    ensures forall i | 0 <= i < |bs| :: HEAP_BASE <= bs[i].addr && bs[i].size >= 0 && bs[i].End() <= Last(bs).End()
  {
    forall i, j | 0 <= i < j < |bs| ensures bs[i].End() <= bs[j].addr { Ordered(bs, i, j); }
    forall i | 0 <= i < |bs|
      ensures HEAP_BASE <= bs[i].addr && bs[i].size >= 0 && bs[i].End() <= Last(bs).End()
    {
      assert Sound(bs, i) && Sound(bs, 0) && Sound(bs, |bs| - 1);
      if i > 0 { Ordered(bs, 0, i); }
      if i < |bs| - 1 { Ordered(bs, i, |bs| - 1); }
    }
  }

  // ----- Allocation ----------------------------------------------------------------

  /** Free, large enough, and with its data a multiple of 2^align. */
  predicate Fits(b: Block, size: int, align: nat) {
    !b.used && b.size >= size && Low(b.Data(), align) == 0
  }

  /** Cuts block k down to `size` when it is not the tail and more than 24 bytes are left. */
  function SplitAt(bs: seq<Block>, k: nat, size: int): seq<Block>
    requires k < |bs|
  {
    var b := bs[k];
    if k == |bs| - 1 || b.size - size <= BLOCKSIZ + 8 then bs
    else
      bs[..k] + [Block(b.addr, size, b.used), Block(b.Data() + size, b.size - size - BLOCKSIZ, false)] + bs[k + 1..]
  }

  /** Where the header behind a heap ending at `e` goes so that its data is a multiple of 2^align. */
  function NewHeader(e: int, align: nat): int {
    if Low(e + BLOCKSIZ, align) != 0 then e - Low(e, align) + Pow2(align) - BLOCKSIZ else e
  }

  /** Appends a used block, handing the alignment padding to the old tail. */
  function Extend(bs: seq<Block>, size: int, align: nat): seq<Block>
    requires |bs| > 0
  {
    var t := Last(bs);
    var p := NewHeader(t.End(), align);
    bs[..|bs| - 1] + [t.(size := p - t.Data()), Block(p, size, true)]
  }

  /** A list of blocks and the index of the one handed out. */
  type Placement = p: (seq<Block>, nat) | p.1 < |p.0| witness ([Block(HEAP_BASE, 0, false)], 0)

  /**
   The list after `lookup` has walked from block i, and the index it hands out.
   `stale` says that the word where the appended header's `used` field goes is not zero.
   */
  function Placed(bs: seq<Block>, stale: bool, size: int, align: nat, i: nat): Placement
    requires |bs| > 0 && i <= |bs|
    decreases |bs| - i
  {
    if i == |bs| then
      if stale then (Extend(Extend(bs, size, align), size, align), |bs| + 1)
      else (Extend(bs, size, align), |bs|)
    else if Fits(bs[i], size, align) then
      (SplitAt(bs[i := bs[i].(used := true)], i, size), i)
    else if bs[i].size == 0 && align == 0 then
      (bs[i := Block(bs[i].addr, size, true)], i)
    else
      Placed(bs, stale, size, align, i + 1)
  }

  /** The request, rounded up to a multiple of eight. */
  function RoundUp8(size: nat): (r: nat)
    ensures r % 8 == 0 && size <= r < size + 8
  {
    if size % 8 != 0 then (size / 8 + 1) * 8 else size
  }

  // ----- Release -------------------------------------------------------------------

  function MergeAt(bs: seq<Block>, k: nat): seq<Block>
    requires k + 1 < |bs|
  {
    bs[..k] + [bs[k].(size := bs[k].size + BLOCKSIZ + bs[k + 1].size)] + bs[k + 2..]
  }

  predicate PrevFree(bs: seq<Block>, i: nat)
    requires i < |bs|
  {
    i > 0 && !bs[i - 1].used
  }

  predicate NextFree(bs: seq<Block>, i: nat)
    requires i < |bs|
  {
    i + 1 < |bs| && !bs[i + 1].used
  }

  /** The list after `kfree` of block i, followed along `next`. */
  function Freed(bs: seq<Block>, i: nat): seq<Block>
    requires i < |bs|
  {
    var f := bs[i := bs[i].(used := false)];
    if PrevFree(bs, i) then MergeAt(f, i - 1)
    else if NextFree(bs, i) then MergeAt(f, i)
    else f
  }

  // ----- Every step keeps the tiling ------------------------------------------------

  lemma MergeTiled(bs: seq<Block>, k: nat)
    requires Tiled(bs) && k + 1 < |bs|
    ensures Tiled(MergeAt(bs, k))
    ensures Last(MergeAt(bs, k)).End() == Last(bs).End()
  {
    var bs' := MergeAt(bs, k);
    assert Sound(bs, k) && Sound(bs, k + 1);
    forall i | 0 <= i < |bs'| ensures Sound(bs', i) {
      assert Sound(bs, if i <= k then i else i + 1);
    }
  }

  lemma SplitTiled(bs: seq<Block>, k: nat, size: nat)
    requires Tiled(bs) && k < |bs| && size % 8 == 0
    ensures Tiled(SplitAt(bs, k, size))
    ensures Last(SplitAt(bs, k, size)).End() == Last(bs).End()
  {
    var bs' := SplitAt(bs, k, size);
    assert Sound(bs, k);
    forall i | 0 <= i < |bs'| ensures Sound(bs', i) {
      assert Sound(bs, if i <= k || bs' == bs then i else i - 1);
    }
  }

  predicate SplitOf(bs: seq<Block>, bs': seq<Block>, k: nat, size: nat)
    requires k + 1 < |bs|
  {
    && |bs'| == |bs| + 1
    && bs'[k] == Block(bs[k].addr, size, bs[k].used)
    && bs'[k + 1] == Block(bs[k].Data() + size, bs[k].size - size - BLOCKSIZ, false)
    && (forall x | 0 <= x < k :: bs'[x] == bs[x])
    && (forall x | k + 2 <= x < |bs'| :: bs'[x] == bs[x - 1])
  }

  predicate ExtendOf(bs: seq<Block>, bs': seq<Block>, size: nat, p: int)
    requires |bs| > 0
  {
    && |bs'| == |bs| + 1
    && (forall x | 0 <= x < |bs| - 1 :: bs'[x] == bs[x])
    && bs'[|bs| - 1] == Last(bs).(size := p - Last(bs).Data())
    && bs'[|bs|] == Block(p, size, true)
  }

  lemma ExtendTiled(bs: seq<Block>, bs': seq<Block>, size: nat, p: int)
    requires Tiled(bs) && ExtendOf(bs, bs', size, p)
    requires p % 8 == 0 && size % 8 == 0 && p >= Last(bs).Data()
    ensures Tiled(bs')
  {
    forall i | 0 <= i < |bs'| ensures Sound(bs', i) {
      if i < |bs| { assert Sound(bs, i); }
    }
  }

  // ----- Where an appended header goes ----------------------------------------------

  /**
   The new header is eight-aligned and its data 2^align-aligned. It never lies more than eight
   bytes below the heap end, and lies below it only if the end is 8 short of a multiple of 2^align.
   */
  lemma NewHeaderFacts(e: int, align: nat)
    requires e % 8 == 0
    ensures var p := NewHeader(e, align);
            && p % 8 == 0
            && Low(p + BLOCKSIZ, align) == 0
            && (p < e <==> align >= 4 && Low(e, align) == Pow2(align) - 8)
            && (p < e ==> p == e - 8 && e % 16 == 8)
            && e - 8 <= p < e + Pow2(align)
  {
    if align <= 3 {
      LowOfMultiple8(e, align);
      LowOfMultiple8(e + BLOCKSIZ, align);
    } else {
      var ax, r := Pow2(align), Low(e, align);
      assert ax % 16 == 0 by { Pow2Multiple(align, 4); SmallPowers(4); }
      LowMod16(e, align);
      LowShift(e, align);
      NewHeaderCases(e, ax, r, NewHeader(e, align));
    }
  }

  lemma LowOfMultiple8(e: int, k: nat)
    requires e % 8 == 0 && k <= 3
    ensures Low(e, k) == 0
  {
    LowIsMod(e, k);
    SmallPowers(k);
    if k == 0 {
    } else if k == 1 {
      assert e % 2 == 0;
    } else if k == 2 {
      assert e % 4 == 0;
    }
  }

  lemma NewHeaderCases(e: int, ax: nat, r: int, p: int)
    requires e % 8 == 0 && ax % 16 == 0 && 0 <= r < ax && r % 16 == e % 16
    requires p == if r == ax - 16 then e else e - r + ax - BLOCKSIZ
    ensures p % 8 == 0 && e - 8 <= p < e + ax
    ensures p < e <==> r == ax - 8
    ensures p < e ==> p == e - 8 && e % 16 == 8
  {
    var c, k := ax / 16, r / 16;
    assert ax == 16 * c && r == 16 * k + e % 16;
    assert e % 16 == 0 || e % 16 == 8;
    assert k < c;
    if k == c - 1 {
    } else {
      assert r <= ax - 24;
    }
  }

  lemma LowMod16(e: int, k: nat)
    requires k >= 4
    ensures Low(e, k) % 16 == e % 16
  {
    assert Pow2(k) % 16 == 0 by { Pow2Multiple(k, 4); SmallPowers(4); }
    LowIsMod(e, k);
    RemainderMod16(e, Pow2(k));
  }

  lemma RemainderMod16(e: int, ax: nat)
    requires ax > 0 && ax % 16 == 0
    ensures (e % ax) % 16 == e % 16
  {
    var c, q, r := ax / 16, e / ax, e % ax;
    assert e == q * ax + r;
    assert q * ax == q * (16 * c) == 16 * (q * c);
    DivModUnique(e, 16, q * c + r / 16, r % 16);
  }

  lemma LowShift(e: int, k: nat)
    requires k >= 4
    ensures Low(e + BLOCKSIZ, k) == if Low(e, k) >= Pow2(k) - 16 then Low(e, k) + 16 - Pow2(k) else Low(e, k) + 16
    ensures Low(e - Low(e, k) + Pow2(k), k) == 0
  {
    var ax := Pow2(k);
    assert ax >= 16 by { Pow2Multiple(k, 4); SmallPowers(4); }
    LowIsMod(e, k);
    LowIsMod(e + BLOCKSIZ, k);
    LowIsMod(e - Low(e, k) + ax, k);
    RemainderShift(e, ax);
  }

  lemma RemainderShift(e: int, ax: nat)
    requires ax >= 16
    ensures (e + BLOCKSIZ) % ax == if e % ax >= ax - 16 then e % ax + 16 - ax else e % ax + 16
    ensures (e - e % ax + ax) % ax == 0
  {
    var q, r := e / ax, e % ax;
    assert e == q * ax + r;
    assert (q + 1) * ax == q * ax + ax;
    if r >= ax - 16 {
      DivModUnique(e + BLOCKSIZ, ax, q + 1, r + 16 - ax);
    } else {
      DivModUnique(e + BLOCKSIZ, ax, q, r + 16);
    }
    DivModUnique(e - r + ax, ax, q + 1, 0);
  }

  /** A tail that can be extended: shrinking it by eight bytes leaves no negative size. */
  predicate Growable(bs: seq<Block>)
    requires |bs| > 0
  {
    Last(bs).size == 0 ==> Last(bs).End() % 16 == 0
  }

  lemma GrowHeader(bs: seq<Block>, align: nat)
    requires Tiled(bs) && Growable(bs)
    ensures var p := NewHeader(Last(bs).End(), align);
            p % 8 == 0 && Last(bs).Data() <= p && Last(bs).End() <= p + 8
  {
    assert Sound(bs, |bs| - 1);
    NewHeaderFacts(Last(bs).End(), align);
  }
}
