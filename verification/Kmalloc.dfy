/**
 The kernel heap over raw memory: headers live in the words they manage, and every
 operation is proved to realise one step of the block list.
 */
module Kmalloc {
  import opened Memory
  import opened Blocks
  import opened HeapTheory

  // ----- Representation --------------------------------------------------------------

  function PrevOf(bs: seq<Block>, i: nat): int
    requires i < |bs|
  {
    if i == 0 then 0 else bs[i - 1].addr
  }

  function NextOf(bs: seq<Block>, i: nat): int
    requires i < |bs|
  {
    if i + 1 < |bs| then bs[i + 1].addr else 0
  }

  /** The four header words of block i: used, size, prev, next. */
  predicate HeaderOk(m: Mem, bs: seq<Block>, i: nat)
    requires i < |bs|
  {
    && (Rd(m, bs[i].addr) != 0) == bs[i].used
    && Rd(m, bs[i].addr + 4) == bs[i].size
    && Rd(m, bs[i].addr + 8) == PrevOf(bs, i)
    && Rd(m, bs[i].addr + 12) == NextOf(bs, i)
  }

  /** Following `next` from the root visits exactly `bs`, and `prev` is its inverse. */
  predicate Linked(m: Mem, bs: seq<Block>) {
    forall i {:trigger HeaderOk(m, bs, i)} | 0 <= i < |bs| :: HeaderOk(m, bs, i)
  }

  ghost predicate ZeroFrom(m: Mem, e: int) {
    forall a | a >= e :: Rd(m, a) == 0
  }

  ghost predicate Shape(m: Mem, bs: seq<Block>) {
    Tiled(bs) && Linked(m, bs) && ZeroFrom(m, Last(bs).End())
  }

  ghost predicate HeapInv(m: Mem, bs: seq<Block>) {
    Shape(m, bs) && NoEmptyBlock(bs)
  }

  predicate InHeader(bs: seq<Block>, a: int) {
    exists i | 0 <= i < |bs| :: bs[i].addr <= a < bs[i].Data()
  }

  /** Nothing but header words, old or new, and the word at address 8 differs. */
  ghost predicate OnlyHeaders(m: Mem, m': Mem, bs: seq<Block>, bs': seq<Block>) {
    forall a | a != 8 && !InHeader(bs, a) && !InHeader(bs', a) :: Rd(m', a) == Rd(m, a)
  }

  // ----- merge and split on memory -----------------------------------------------------

  function MergeMem(m: Mem, b: nat): Mem {
    var n := Rd(m, b + 12);
    if n != 0 && Rd(m, n) == 0 then
      var m1 := m[b + 4 := Rd(m, b + 4) + BLOCKSIZ + Rd(m, n + 4)];
      var nn := Rd(m1, n + 12);
      m1[b + 12 := nn][nn + 8 := b]
    else m
  }

  /** What `merge` of blocks k and k+1 writes, word by word. */
  ghost predicate MergeEffect(m: Mem, m': Mem, bs: seq<Block>, k: nat)
    requires k + 1 < |bs|
  {
    forall a :: Rd(m', a) ==
                if a == NextOf(bs, k + 1) + 8 then bs[k].addr
                else if a == bs[k].addr + 12 then NextOf(bs, k + 1)
                else if a == bs[k].addr + 4 then bs[k].size + BLOCKSIZ + bs[k + 1].size
                else Rd(m, a)
  }

  lemma MergeWords(m: Mem, bs: seq<Block>, k: nat)
    requires Tiled(bs) && Linked(m, bs)
    requires k + 1 < |bs| && !bs[k + 1].used
    ensures bs[k].addr > 0
    ensures MergeEffect(m, MergeMem(m, bs[k].addr), bs, k)
  {
    OrderedAll(bs);
    assert HeaderOk(m, bs, k) && HeaderOk(m, bs, k + 1);
  }

  lemma MergeLinked(m: Mem, m': Mem, bs: seq<Block>, k: nat)
    requires Shape(m, bs)
    requires k + 1 < |bs| && !bs[k + 1].used
    requires MergeEffect(m, m', bs, k)
    ensures Shape(m', MergeAt(bs, k))
    ensures OnlyHeaders(m, m', bs, bs)
  {
    OrderedAll(bs);
    MergeTiled(bs, k);
    var bs' := MergeAt(bs, k);
    forall i | 0 <= i < |bs'| ensures HeaderOk(m', bs', i) {
      MergeHeader(m, m', bs, k, i);
    }
    forall a | a != 8 && !InHeader(bs, a) ensures Rd(m', a) == Rd(m, a) {
      assert !(bs[k].addr <= a < bs[k].Data());
      if k + 2 < |bs| { assert !(bs[k + 2].addr <= a < bs[k + 2].Data()); }
    }
  }

  lemma MergeHeader(m: Mem, m': Mem, bs: seq<Block>, k: nat, i: nat)
    requires Tiled(bs) && Linked(m, bs)
    requires k + 1 < |bs| && i < |bs| - 1
    requires MergeEffect(m, m', bs, k)
    ensures HeaderOk(m', MergeAt(bs, k), i)
  {
    var j := if i <= k then i else i + 1;
    assert HeaderOk(m, bs, j) && Sound(bs, k) && Sound(bs, k + 1) && Sound(bs, 0);
    if j > 0 { Ordered(bs, 0, j); }
    if j < k { Ordered(bs, j, k); assert Sound(bs, j); }
    if j > k + 2 { Ordered(bs, k + 2, j); assert Sound(bs, k + 2); }
    var bs' := MergeAt(bs, k);
    assert bs'[i].addr == bs[j].addr && bs'[i].used == bs[j].used;
    assert i != k ==> bs'[i] == bs[j];
    assert PrevOf(bs', i) == if i == k + 1 then bs[k].addr else PrevOf(bs, j);
    assert NextOf(bs', i) == if i == k then NextOf(bs, k + 1) else NextOf(bs, j);
  }

  /** A value stored in an unsigned word: below zero it wraps around. */
  function Word(x: int): nat {
    if x >= 0 then x else x % 0x1_0000_0000
  }

  /** The writes of `split`, in its order. The new size is `next - new->data`. */
  function SplitMem(m: Mem, b: nat, size: nat): Mem {
    var n, next := b + BLOCKSIZ + size, Rd(m, b + 12);
    if next == 0 || Word(Rd(m, b + 4) - size) <= BLOCKSIZ + 8 then m
    else
      m[n + 12 := next][n + 4 := Word(next - (n + BLOCKSIZ))][next + 8 := n][n + 8 := b][n := 0][b + 12 := n][b + 4 := size]
  }

  /** What `split` of block k writes when it does cut. */
  ghost predicate SplitEffect(m: Mem, m': Mem, bs: seq<Block>, k: nat, size: nat)
    requires k + 1 < |bs|
  {
    var n := bs[k].Data() + size;
    forall a :: Rd(m', a) ==
                if a == bs[k].addr + 4 then size
                else if a == bs[k].addr + 12 then n
                else if a == n then 0
                else if a == n + 8 then bs[k].addr
                else if a == bs[k + 1].addr + 8 then n
                else if a == n + 4 then bs[k].size - size - BLOCKSIZ
                else if a == n + 12 then bs[k + 1].addr
                else Rd(m, a)
  }

  lemma SplitHeader(m: Mem, m': Mem, bs: seq<Block>, bs': seq<Block>, k: nat, size: nat, i: nat)
    requires Tiled(bs) && Linked(m, bs)
    requires k + 1 < |bs| && bs[k].size - size > BLOCKSIZ + 8 && i < |bs'|
    requires SplitEffect(m, m', bs, k, size) && SplitOf(bs, bs', k, size)
    ensures HeaderOk(m', bs', i)
  {
    assert Sound(bs, k);
    if i == k + 1 {
      assert PrevOf(bs', i) == bs[k].addr && NextOf(bs', i) == bs[k + 1].addr;
    } else {
      var j := if i <= k then i else i - 1;
      assert HeaderOk(m, bs, j);
      if j < k { Ordered(bs, j, k); assert Sound(bs, j); }
      if j > k + 1 { Ordered(bs, k + 1, j); assert Sound(bs, k + 1); }
      assert bs'[i].addr == bs[j].addr && bs'[i].used == bs[j].used;
      assert PrevOf(bs', i) == if i == k + 2 then bs'[k + 1].addr else PrevOf(bs, j);
      assert NextOf(bs', i) == if i == k then bs'[k + 1].addr else NextOf(bs, j);
    }
  }

  lemma SplitLinked(m: Mem, m': Mem, bs: seq<Block>, bs': seq<Block>, k: nat, size: nat)
    requires Shape(m, bs) && size % 8 == 0
    requires k + 1 < |bs| && bs[k].size - size > BLOCKSIZ + 8
    requires SplitEffect(m, m', bs, k, size) && SplitOf(bs, bs', k, size)
    requires Tiled(bs') && Last(bs').End() == Last(bs).End()
    ensures Shape(m', bs')
  {
    forall i | 0 <= i < |bs'| ensures HeaderOk(m', bs', i) {
      SplitHeader(m, m', bs, bs', k, size, i);
    }
    assert Sound(bs, k) && Sound(bs, k + 1) && Sound(bs, |bs| - 1);
    if k + 1 < |bs| - 1 { Ordered(bs, k + 1, |bs| - 1); }
    assert bs[k + 1].addr + BLOCKSIZ <= Last(bs).End();
  }

  lemma SplitWords(m: Mem, bs: seq<Block>, k: nat, size: nat)
    requires Tiled(bs) && Linked(m, bs) && k < |bs| && size <= bs[k].size
    ensures var b := bs[k].addr;
            && b > 0
            && if k == |bs| - 1 || bs[k].size - size <= BLOCKSIZ + 8 then SplitMem(m, b, size) == m
               else SplitEffect(m, SplitMem(m, b, size), bs, k, size)
  {
    assert HeaderOk(m, bs, k) && Sound(bs, k) && Sound(bs, 0);
    if k > 0 { Ordered(bs, 0, k); }
    if k + 1 < |bs| { assert Sound(bs, k + 1); }
  }

  /** `split` on memory realises SplitAt on the block list. */
  lemma SplitRealises(m: Mem, bs: seq<Block>, k: nat, size: nat)
    requires Shape(m, bs) && k < |bs| && size <= bs[k].size && size % 8 == 0
    ensures bs[k].addr > 0
    ensures var m', bs' := SplitMem(m, bs[k].addr, size), SplitAt(bs, k, size);
            Shape(m', bs') && OnlyHeaders(m, m', bs, bs')
  {
    SplitWords(m, bs, k, size);
    var m', bs' := SplitMem(m, bs[k].addr, size), SplitAt(bs, k, size);
    if k < |bs| - 1 && bs[k].size - size > BLOCKSIZ + 8 {
      SplitTiled(bs, k, size);
      assert SplitOf(bs, bs', k, size);
      SplitLinked(m, m', bs, bs', k, size);
      SplitOnlyHeaders(m, m', bs, bs', k, size);
    } else {
      assert m' == m && bs' == bs;
    }
  }

  lemma SplitOnlyHeaders(m: Mem, m': Mem, bs: seq<Block>, bs': seq<Block>, k: nat, size: nat)
    requires k + 1 < |bs| && SplitEffect(m, m', bs, k, size) && SplitOf(bs, bs', k, size)
    ensures OnlyHeaders(m, m', bs, bs')
  {
    forall a | a != 8 && !InHeader(bs, a) && !InHeader(bs', a) ensures Rd(m', a) == Rd(m, a) {
      assert !(bs[k].addr <= a < bs[k].Data()) && !(bs[k + 1].addr <= a < bs[k + 1].Data());
      assert !(bs'[k + 1].addr <= a < bs'[k + 1].Data());
    }
  }

  // ----- Growing the heap ----------------------------------------------------------------

  /** What appending a header at p behind the tail writes; the `used` word ends up non-zero. */
  ghost predicate ExtendEffect(m: Mem, m': Mem, bs: seq<Block>, size: nat, p: int)
    requires |bs| > 0
  {
    var t := Last(bs);
    && Rd(m', p) != 0
    && forall a | a != p :: Rd(m', a) ==
                            if a == p + 4 then size
                            else if a == p + 8 then t.addr
                            else if a == t.addr + 12 then p
                            else if a == t.addr + 4 then p - t.Data()
                            else Rd(m, a)
  }

  lemma ExtendHeader(m: Mem, m': Mem, bs: seq<Block>, bs': seq<Block>, size: nat, p: int, i: nat)
    requires Shape(m, bs) && ExtendOf(bs, bs', size, p) && ExtendEffect(m, m', bs, size, p)
    requires Last(bs).Data() <= p && Last(bs).End() <= p + 8 && i < |bs'|
    ensures HeaderOk(m', bs', i)
  {
    var n := |bs| - 1;
    if i < n {
      assert HeaderOk(m, bs, i) && Sound(bs, i);
      Ordered(bs, i, n);
      assert PrevOf(bs', i) == PrevOf(bs, i) && NextOf(bs', i) == NextOf(bs, i);
    } else {
      assert HeaderOk(m, bs, n);
      assert i == n ==> PrevOf(bs', i) == PrevOf(bs, i);
    }
  }

  lemma ExtendLinked(m: Mem, m': Mem, bs: seq<Block>, bs': seq<Block>, size: nat, p: int)
    requires Shape(m, bs) && ExtendOf(bs, bs', size, p) && ExtendEffect(m, m', bs, size, p)
    requires p % 8 == 0 && size % 8 == 0 && Last(bs).Data() <= p && Last(bs).End() <= p + 8
    ensures Shape(m', bs')
    ensures OnlyHeaders(m, m', bs, bs')
    ensures ZeroFrom(m', p + BLOCKSIZ)
  {
    ExtendTiled(bs, bs', size, p);
    forall i | 0 <= i < |bs'| ensures HeaderOk(m', bs', i) {
      ExtendHeader(m, m', bs, bs', size, p, i);
    }
    forall a | a != 8 && !InHeader(bs, a) && !InHeader(bs', a) ensures Rd(m', a) == Rd(m, a) {
      assert !(bs[|bs| - 1].addr <= a < bs[|bs| - 1].Data());
      assert !(bs'[|bs|].addr <= a < bs'[|bs|].Data());
    }
  }

  /** What `lookup` writes for a header it appends at p behind block b, before taking it. */
  ghost predicate AppendEffect(m: Mem, m': Mem, b: nat, size: nat, p: int) {
    forall a :: Rd(m', a) ==
                if a == p + 4 then size
                else if a == p + 8 then b
                else if a == b + 12 then p
                else if a == b + 4 then p - (b + BLOCKSIZ)
                else Rd(m, a)
  }

  lemma AppendTaken(m: Mem, m1: Mem, m': Mem, bs: seq<Block>, size: nat, p: int)
    requires |bs| > 0 && Last(bs).addr >= 0 && AppendEffect(m, m1, Last(bs).addr, size, p)
    requires (m' == m1 && Rd(m1, p) != 0) || m' == m1[p := 1]
    ensures ExtendEffect(m, m', bs, size, p)
  {
    forall a | a != p ensures Rd(m', a) == Rd(m1, a) {}
  }

  lemma MarkHeader(m: Mem, m': Mem, bs: seq<Block>, bs': seq<Block>, i: nat, v: nat, j: nat)
    requires Tiled(bs) && Linked(m, bs) && i < |bs| && j < |bs|
    requires m' == m[bs[i].addr := v] && bs' == bs[i := bs[i].(used := v != 0)]
    ensures HeaderOk(m', bs', j) && Sound(bs', j)
  {
    assert HeaderOk(m, bs, j) && Sound(bs, j) && Sound(bs, i);
    if j < i { Ordered(bs, j, i); }
    if i < j { Ordered(bs, i, j); }
    assert PrevOf(bs', j) == PrevOf(bs, j) && NextOf(bs', j) == NextOf(bs, j);
  }

  /** Writing the `used` word of block i. */
  lemma MarkRealises(m: Mem, m': Mem, bs: seq<Block>, bs': seq<Block>, i: nat, v: nat)
    requires Shape(m, bs) && i < |bs|
    requires m' == m[bs[i].addr := v] && bs' == bs[i := bs[i].(used := v != 0)]
    ensures Shape(m', bs') && OnlyHeaders(m, m', bs, bs')
  {
    forall j | 0 <= j < |bs'| ensures HeaderOk(m', bs', j) && Sound(bs', j) {
      MarkHeader(m, m', bs, bs', i, v, j);
    }
    OrderedAll(bs);
    forall a | a != 8 && !InHeader(bs, a) && !InHeader(bs', a) ensures Rd(m', a) == Rd(m, a) {
      assert !(bs[i].addr <= a < bs[i].Data());
    }
  }

  /** Sizing and taking the untouched root. */
  lemma RootRealises(m: Mem, bs: seq<Block>, size: nat)
    requires Shape(m, bs) && |bs| == 1 && size % 8 == 0 && bs[0].size == 0
    ensures var m', bs' := m[HEAP_BASE + 4 := size][HEAP_BASE := 1], [Block(HEAP_BASE, size, true)];
            Shape(m', bs') && OnlyHeaders(m, m', bs, bs')
  {
    var m', bs' := m[HEAP_BASE + 4 := size][HEAP_BASE := 1], [Block(HEAP_BASE, size, true)];
    assert HeaderOk(m, bs, 0) && Sound(bs, 0);
    assert HeaderOk(m', bs', 0) && Sound(bs', 0);
    forall a | a != 8 && !InHeader(bs, a) && !InHeader(bs', a) ensures Rd(m', a) == Rd(m, a) {
      assert !(bs[0].addr <= a < bs[0].Data());
    }
  }

  predicate SameHeaders(bs: seq<Block>, bs': seq<Block>) {
    |bs| <= |bs'| && forall i | 0 <= i < |bs| :: bs'[i].addr == bs[i].addr
  }

  lemma SameHeadersIn(bs: seq<Block>, bs': seq<Block>, a: int)
    ensures SameHeaders(bs, bs') && InHeader(bs, a) ==> InHeader(bs', a)
  {
    if SameHeaders(bs, bs') && InHeader(bs, a) {
      var i :| 0 <= i < |bs| && bs[i].addr <= a < bs[i].Data();
      assert bs'[i].addr <= a < bs'[i].Data();
    }
  }

  lemma OnlyHeadersTrans(m0: Mem, m1: Mem, m2: Mem, b0: seq<Block>, b1: seq<Block>, b2: seq<Block>)
    requires OnlyHeaders(m0, m1, b0, b1) && OnlyHeaders(m1, m2, b1, b2)
    requires SameHeaders(b1, b0) || SameHeaders(b1, b2)
    ensures OnlyHeaders(m0, m2, b0, b2)
  {
    forall a | a != 8 && !InHeader(b0, a) && !InHeader(b2, a) ensures Rd(m2, a) == Rd(m0, a) {
      SameHeadersIn(b1, b0, a);
      SameHeadersIn(b1, b2, a);
    }
  }

  /** The word where the appended header's `used` field would go is not zero. */
  predicate Stale(m: Mem, bs: seq<Block>, align: nat)
    requires |bs| > 0
  {
    Rd(m, NewHeader(Last(bs).End(), align)) != 0
  }

  lemma GrowRealises(m: Mem, m': Mem, bs: seq<Block>, size: nat, align: nat)
    requires Shape(m, bs) && Growable(bs) && size > 0 && size % 8 == 0
    requires ExtendEffect(m, m', bs, size, NewHeader(Last(bs).End(), align))
    ensures var bs' := Extend(bs, size, align);
            && Shape(m', bs')
            && OnlyHeaders(m, m', bs, bs')
            && Growable(bs')
            && !Stale(m', bs', align)
  {
    var p := NewHeader(Last(bs).End(), align);
    var bs' := Extend(bs, size, align);
    GrowHeader(bs, align);
    assert ExtendOf(bs, bs', size, p);
    ExtendLinked(m, m', bs, bs', size, p);
    GrowHeader(bs', align);
  }

  /** `*ptr` is the address of block i, or zero at the end of the list. */
  lemma PointerTo(m: Mem, bs: seq<Block>, i: nat)
    requires Tiled(bs) && Linked(m, bs) && i <= |bs|
    ensures forall j | 0 <= j < |bs| :: bs[j].addr > 0
    ensures i > 0 ==> Rd(m, bs[i - 1].addr + 12) == if i < |bs| then bs[i].addr else 0
    ensures i < |bs| ==> (Rd(m, bs[i].addr) != 0) == bs[i].used && Rd(m, bs[i].addr + 4) == bs[i].size
  {
    OrderedAll(bs);
    if i > 0 { assert HeaderOk(m, bs, i - 1); }
    if i < |bs| { assert HeaderOk(m, bs, i); }
  }

  // ----- lookup on memory ------------------------------------------------------------------

  /** Where `lookup` puts the header it appends behind block b. */
  function AppendAt(m: Mem, b: nat, align: nat): nat {
    Word(NewHeader(b + BLOCKSIZ + Rd(m, b + 4), align))
  }

  /** The writes of `lookup` for that header. */
  function AppendMem(m: Mem, b: nat, size: nat, align: nat): Mem {
    var e, q := b + BLOCKSIZ + Rd(m, b + 4), AppendAt(m, b, align);
    var m1 := if Low(e + BLOCKSIZ, align) != 0 then m[b + 12 := q][b + 4 := Word(q - (b + BLOCKSIZ))] else m[b + 12 := q];
    m1[q + 8 := b][q + 4 := size]
  }

  /** The block after b (the root after none), appended if there is none. */
  function Reached(m: Mem, b: nat, size: nat, align: nat): (Mem, nat) {
    var q := if b == 0 then HEAP_BASE else Rd(m, b + 12);
    if q == 0 then (AppendMem(m, b, size, align), AppendAt(m, b, align)) else (m, q)
  }

  /** The tests of `lookup` on the block at q. */
  predicate Takes(m: Mem, q: nat, size: nat, align: nat) {
    Rd(m, q + 4) >= size && Rd(m, q) == 0 && Low(q + BLOCKSIZ, align) == 0
  }

  predicate Sizes(m: Mem, q: nat, align: nat) {
    Rd(m, q + 4) == 0 && align == 0
  }

  predicate Settles(m: Mem, q: nat, size: nat, align: nat) {
    Takes(m, q, size, align) || Sizes(m, q, align)
  }

  /** The block at q is taken and cut, or given its size as the untouched root. */
  function SettleMem(m: Mem, q: nat, size: nat, align: nat): Mem {
    if Takes(m, q, size, align) then SplitMem(m[q := 1], q, size) else m[q + 4 := size][q := 1]
  }

  /** `lookup` called on block b ends within n further calls. */
  predicate Ends(m: Mem, b: nat, size: nat, align: nat, n: nat)
    decreases n
  {
    var (m1, q) := Reached(m, b, size, align);
    Settles(m1, q, size, align) || (n > 0 && Ends(m1, q, size, align, n - 1))
  }

  /** The memory that call leaves and the block it returns. */
  function LookupMem(m: Mem, b: nat, size: nat, align: nat, n: nat): (Mem, nat)
    decreases n
  {
    var (m1, q) := Reached(m, b, size, align);
    if Settles(m1, q, size, align) then (SettleMem(m1, q, size, align), q)
    else if n == 0 then (m1, q)
    else LookupMem(m1, q, size, align, n - 1)
  }

  lemma TakeRealises(m: Mem, bs: seq<Block>, i: nat, size: nat)
    requires Shape(m, bs) && i < |bs| && size <= bs[i].size && size % 8 == 0
    ensures bs[i].addr > 0
    ensures var m', bs' := SplitMem(m[bs[i].addr := 1], bs[i].addr, size), SplitAt(bs[i := bs[i].(used := true)], i, size);
            Shape(m', bs') && OnlyHeaders(m, m', bs, bs')
  {
    PointerTo(m, bs, i);
    var m1, b1 := m[bs[i].addr := 1], bs[i := bs[i].(used := true)];
    MarkRealises(m, m1, bs, b1, i, 1);
    SplitRealises(m1, b1, i, size);
    assert SameHeaders(b1, bs);
    OnlyHeadersTrans(m, m1, SplitMem(m1, bs[i].addr, size), bs, b1, SplitAt(b1, i, size));
  }

  lemma Overwritten(m: Mem, a: int, v: nat, w: nat)
    ensures m[a := v][a := w] == m[a := w]
  {
  }

  lemma AppendMemEffect(m: Mem, b: nat, size: nat, align: nat, p: nat)
    requires var e := b + BLOCKSIZ + Rd(m, b + 4);
             p == AppendAt(m, b, align) && p >= b + BLOCKSIZ && (Low(e + BLOCKSIZ, align) == 0 ==> p == e)
    ensures AppendEffect(m, AppendMem(m, b, size, align), b, size, p)
  {
  }

  lemma TailWords(m: Mem, bs: seq<Block>)
    requires Tiled(bs) && Linked(m, bs)
    ensures var b := Last(bs).addr;
            b > 0 && Rd(m, b + 12) == 0 && b + BLOCKSIZ + Rd(m, b + 4) == Last(bs).End() && Last(bs).End() % 8 == 0
  {
    PointerTo(m, bs, |bs|);
    PointerTo(m, bs, |bs| - 1);
    assert Sound(bs, |bs| - 1);
    Multiple8(Last(bs).addr, Last(bs).size);
  }

  lemma AppendWords(m: Mem, bs: seq<Block>, size: nat, align: nat)
    requires Tiled(bs) && Linked(m, bs) && Growable(bs)
    ensures Last(bs).addr > 0
    ensures var b, p := Last(bs).addr, NewHeader(Last(bs).End(), align);
            && p >= Last(bs).Data() && Low(p + BLOCKSIZ, align) == 0
            && Reached(m, b, size, align) == (AppendMem(m, b, size, align), p)
            && AppendEffect(m, AppendMem(m, b, size, align), b, size, p)
  {
    TailWords(m, bs);
    GrowHeader(bs, align);
    NewHeaderFacts(Last(bs).End(), align);
    AppendMemEffect(m, Last(bs).addr, size, align, NewHeader(Last(bs).End(), align));
  }

  /** Appending behind the tail: the block is taken unless its `used` word was already set. */
  lemma AppendStep(m: Mem, bs: seq<Block>, size: nat, align: nat)
    requires Shape(m, bs) && Growable(bs) && size > 0 && size % 8 == 0
    ensures Last(bs).addr > 0
    ensures var (m1, p) := Reached(m, Last(bs).addr, size, align);
            var m', bs' := (if Stale(m, bs, align) then m1 else m1[p := 1]), Extend(bs, size, align);
            && p > 0 && p == Last(bs').addr && !Sizes(m1, p, align)
            && (Takes(m1, p, size, align) <==> !Stale(m, bs, align))
            && (!Stale(m, bs, align) ==> SplitMem(m', p, size) == m')
            && Shape(m', bs') && OnlyHeaders(m, m', bs, bs') && Growable(bs') && !Stale(m', bs', align)
  {
    AppendWords(m, bs, size, align);
    var (m1, p) := Reached(m, Last(bs).addr, size, align);
    assert Rd(m1, p) == Rd(m, p) && Rd(m1, p + 4) == size;
    var m' := if Stale(m, bs, align) then m1 else m1[p := 1];
    AppendTaken(m, m1, m', bs, size, p);
    GrowRealises(m, m', bs, size, align);
  }

  /** `lookup` at block i of the list sees that block and leaves memory alone until it settles. */
  lemma ReachedIn(m: Mem, bs: seq<Block>, b: nat, size: nat, align: nat, i: nat)
    requires Tiled(bs) && Linked(m, bs) && i < |bs| && b == if i == 0 then 0 else bs[i - 1].addr
    ensures bs[i].addr > 0 && Reached(m, b, size, align) == (m, bs[i].addr)
    ensures Takes(m, bs[i].addr, size, align) <==> Fits(bs[i], size, align)
    ensures Sizes(m, bs[i].addr, align) <==> bs[i].size == 0 && align == 0
  {
    PointerTo(m, bs, i);
  }

  /** Settling at block i realises the choice that Placed makes there. */
  lemma SettleRealises(m: Mem, bs: seq<Block>, size: nat, align: nat, i: nat)
    requires Shape(m, bs) && size > 0 && size % 8 == 0 && (align == 0 ==> NoEmptyBlock(bs)) && i < |bs|
    requires Fits(bs[i], size, align) || (bs[i].size == 0 && align == 0)
    ensures bs[i].addr > 0
    ensures var placed, m' := Placed(bs, Stale(m, bs, align), size, align, i), SettleMem(m, bs[i].addr, size, align);
            Shape(m', placed.0) && OnlyHeaders(m, m', bs, placed.0) && bs[i].addr == placed.0[placed.1].addr
  {
    PointerTo(m, bs, i);
    ReachedIn(m, bs, if i == 0 then 0 else bs[i - 1].addr, size, align, i);
    if Fits(bs[i], size, align) {
      TakeRealises(m, bs, i, size);
    } else {
      RootRealises(m, bs, size);
      assert bs[i := Block(HEAP_BASE, size, true)] == [Block(HEAP_BASE, size, true)];
    }
  }

  /**
   `lookup` ends, and realises Placed: the new list is tiled, linked both ways and zero past its
   tail, only header words changed, and the block returned is the one placed.
   */
  lemma {:induction false} LookupRealises(m: Mem, bs: seq<Block>, b: nat, size: nat, align: nat, i: nat, n: nat)
    requires Shape(m, bs) && Growable(bs) && size > 0 && size % 8 == 0 && (align == 0 ==> NoEmptyBlock(bs))
    requires i <= |bs| && b == if i == 0 then 0 else bs[i - 1].addr
    requires n >= |bs| - i + if Stale(m, bs, align) then 1 else 0
    ensures Ends(m, b, size, align, n)
    ensures var placed := Placed(bs, Stale(m, bs, align), size, align, i);
            var (m', q) := LookupMem(m, b, size, align, n);
            Shape(m', placed.0) && OnlyHeaders(m, m', bs, placed.0) && q == placed.0[placed.1].addr
    decreases n
  {
    if i == |bs| {
      LookupAtEnd(m, bs, size, align, n);
    } else {
      ReachedIn(m, bs, b, size, align, i);
      if Fits(bs[i], size, align) || (bs[i].size == 0 && align == 0) {
        SettleRealises(m, bs, size, align, i);
      } else {
        LookupRealises(m, bs, bs[i].addr, size, align, i + 1, n - 1);
      }
    }
  }

  lemma LookupAtEnd(m: Mem, bs: seq<Block>, size: nat, align: nat, n: nat)
    requires Shape(m, bs) && Growable(bs) && size > 0 && size % 8 == 0 && (Stale(m, bs, align) ==> n > 0)
    ensures Last(bs).addr > 0
    ensures Ends(m, Last(bs).addr, size, align, n)
    ensures var placed := Placed(bs, Stale(m, bs, align), size, align, |bs|);
            var (m', q) := LookupMem(m, Last(bs).addr, size, align, n);
            Shape(m', placed.0) && OnlyHeaders(m, m', bs, placed.0) && q == placed.0[placed.1].addr
  {
    AppendStep(m, bs, size, align);
    if Stale(m, bs, align) {
      LookupAgain(m, bs, size, align, n);
    }
  }

  /** Behind an appended block that looked used, a second one is appended and taken. */
  lemma LookupAgain(m: Mem, bs: seq<Block>, size: nat, align: nat, n: nat)
    requires Shape(m, bs) && Growable(bs) && size > 0 && size % 8 == 0 && Stale(m, bs, align) && n > 0
    ensures Last(bs).addr > 0
    ensures Ends(m, Last(bs).addr, size, align, n)
    ensures var (m', q) := LookupMem(m, Last(bs).addr, size, align, n);
            var b2 := Extend(Extend(bs, size, align), size, align);
            Shape(m', b2) && OnlyHeaders(m, m', bs, b2) && q == Last(b2).addr
  {
    AppendStep(m, bs, size, align);
    var (m1, p) := Reached(m, Last(bs).addr, size, align);
    var b1 := Extend(bs, size, align);
    AppendStep(m1, b1, size, align);
    var m2 := LookupMem(m1, p, size, align, n - 1).0;
    assert SameHeaders(b1, Extend(b1, size, align));
    OnlyHeadersTrans(m, m1, m2, bs, b1, Extend(b1, size, align));
  }

  // ----- kfree on memory ----------------------------------------------------------------

  function FreeMem(m: Mem, b: nat): Mem {
    var m1 := m[b := 0];
    var p := Rd(m1, b + 8);
    var m2 := if p != 0 && Rd(m1, p) == 0 then MergeMem(m1, p) else m1;
    MergeMem(m2, b)
  }

  /** The trailing `merge` on block i after its predecessor has absorbed it. */
  lemma AbsorbedMerge(m1: Mem, m2: Mem, f: seq<Block>, i: nat)
    requires Tiled(f) && Linked(m1, f) && 0 < i < |f| && MergeEffect(m1, m2, f, i - 1)
    ensures f[i].addr > 0
    ensures !NextFree(f, i) ==> MergeMem(m2, f[i].addr) == m2
    ensures NextFree(f, i) ==>
              forall a :: Rd(MergeMem(m2, f[i].addr), a) ==
                          if a == NextOf(f, i + 1) + 8 then f[i].addr
                          else if a == f[i].addr + 12 then NextOf(f, i + 1)
                          else if a == f[i].addr + 4 then f[i].size + BLOCKSIZ + f[i + 1].size
                          else Rd(m2, a)
  {
    OrderedAll(f);
    assert HeaderOk(m1, f, i) && HeaderOk(m1, f, i - 1);
    if i + 1 < |f| { assert HeaderOk(m1, f, i + 1); }
  }

  /** After that, the list is linked both ways unless a later block names the absorbed header as `prev`. */
  lemma AbsorbedShape(m2: Mem, m3: Mem, f: seq<Block>, i: nat)
    requires Tiled(f) && 0 < i < |f| && Shape(m2, MergeAt(f, i - 1))
    requires NextFree(f, i)
    requires forall a :: Rd(m3, a) ==
                         if a == NextOf(f, i + 1) + 8 then f[i].addr
                         else if a == f[i].addr + 12 then NextOf(f, i + 1)
                         else if a == f[i].addr + 4 then f[i].size + BLOCKSIZ + f[i + 1].size
                         else Rd(m2, a)
    ensures Shape(m3, MergeAt(f, i - 1)) <==> i + 2 == |f|
  {
    var bs' := MergeAt(f, i - 1);
    OrderedAll(f);
    OrderedAll(bs');
    assert bs'[i] == f[i + 1];
    assert f[i].addr + BLOCKSIZ <= bs'[i - 1].End() by { assert Sound(f, i - 1) && Sound(f, i); }
    if i + 2 < |f| {
      assert bs'[i + 1] == f[i + 2];
      assert !HeaderOk(m3, bs', i + 1);
    } else {
      forall j | 0 <= j < |bs'| ensures HeaderOk(m3, bs', j) {
        assert HeaderOk(m2, bs', j);
      }
    }
  }

  lemma SameFrame(m: Mem, m1: Mem, m2: Mem, bs: seq<Block>, f: seq<Block>)
    requires OnlyHeaders(m, m1, bs, f) && OnlyHeaders(m1, m2, f, f)
    requires SameHeaders(f, bs)
    ensures OnlyHeaders(m, m2, bs, bs)
  {
    forall a | a != 8 && !InHeader(bs, a) ensures Rd(m2, a) == Rd(m, a) { SameHeadersIn(f, bs, a); }
  }

  lemma FreeFrame(m: Mem, m1: Mem, m2: Mem, bs: seq<Block>, f: seq<Block>, i: nat)
    requires Tiled(f) && Linked(m1, f) && 0 < i < |f| && MergeEffect(m1, m2, f, i - 1)
    requires OnlyHeaders(m, m1, bs, f) && OnlyHeaders(m1, m2, f, f) && SameHeaders(f, bs)
    ensures f[i].addr > 0
    ensures OnlyHeaders(m, MergeMem(m2, f[i].addr), bs, bs)
  {
    AbsorbedMerge(m1, m2, f, i);
    var m3 := MergeMem(m2, f[i].addr);
    forall a | a != 8 && !InHeader(f, a) ensures Rd(m3, a) == Rd(m2, a) {
      assert !(f[i].addr <= a < f[i].Data());
      if i + 2 < |f| { assert !(f[i + 2].addr <= a < f[i + 2].Data()); }
    }
    forall a | a != 8 && !InHeader(bs, a) ensures Rd(m3, a) == Rd(m, a) { SameHeadersIn(f, bs, a); }
  }

  /** The block list after only the `used` word of block i has been cleared. */
  function Cleared(bs: seq<Block>, i: nat): seq<Block>
    requires i < |bs|
  {
    bs[i := bs[i].(used := false)]
  }

  lemma ClearRealises(m: Mem, bs: seq<Block>, i: nat)
    requires Shape(m, bs) && i < |bs|
    ensures bs[i].addr > 0 && (i > 0 ==> bs[i - 1].addr > 0)
    ensures var m1, f := m[bs[i].addr := 0], Cleared(bs, i);
            && Shape(m1, f) && OnlyHeaders(m, m1, bs, f) && SameHeaders(f, bs)
            && FreeMem(m, bs[i].addr) ==
               if PrevFree(bs, i) then MergeMem(MergeMem(m1, f[i - 1].addr), f[i].addr) else MergeMem(m1, f[i].addr)
  {
    var m1, f := m[bs[i].addr := 0], Cleared(bs, i);
    PointerTo(m, bs, i);
    MarkRealises(m, m1, bs, f, i, 0);
    FreePrev(m1, f, i);
  }

  /** The test on `blk->prev` finds the preceding block free. */
  lemma FreePrev(m1: Mem, f: seq<Block>, i: nat)
    requires Tiled(f) && Linked(m1, f) && i < |f|
    ensures var p := Rd(m1, f[i].addr + 8);
            && p == (if i == 0 then 0 else f[i - 1].addr)
            && (p != 0 && Rd(m1, p) == 0 <==> PrevFree(f, i))
  {
    assert HeaderOk(m1, f, i);
    if i > 0 { PointerTo(m1, f, i - 1); }
  }

  lemma MergeStep(m: Mem, bs: seq<Block>, k: nat)
    requires Shape(m, bs) && k + 1 < |bs| && !bs[k + 1].used
    ensures bs[k].addr > 0
    ensures var m' := MergeMem(m, bs[k].addr);
            MergeEffect(m, m', bs, k) && Shape(m', MergeAt(bs, k)) && OnlyHeaders(m, m', bs, bs)
  {
    MergeWords(m, bs, k);
    MergeLinked(m, MergeMem(m, bs[k].addr), bs, k);
  }

  lemma AbsorbedStep(m1: Mem, m2: Mem, f: seq<Block>, i: nat)
    requires Tiled(f) && Linked(m1, f) && 0 < i < |f| && MergeEffect(m1, m2, f, i - 1)
    requires Shape(m2, MergeAt(f, i - 1))
    ensures f[i].addr > 0
    ensures Shape(MergeMem(m2, f[i].addr), MergeAt(f, i - 1)) <==> !(NextFree(f, i) && i + 2 < |f|)
  {
    AbsorbedMerge(m1, m2, f, i);
    if NextFree(f, i) { AbsorbedShape(m2, MergeMem(m2, f[i].addr), f, i); }
  }

  lemma FreeBehindFree(m: Mem, m1: Mem, bs: seq<Block>, f: seq<Block>, i: nat)
    requires Shape(m1, f) && OnlyHeaders(m, m1, bs, f) && SameHeaders(f, bs)
    requires i < |f| && PrevFree(f, i) && !f[i].used
    ensures f[i - 1].addr > 0 && f[i].addr > 0
    ensures var m3 := MergeMem(MergeMem(m1, f[i - 1].addr), f[i].addr);
            && (Shape(m3, MergeAt(f, i - 1)) <==> !(NextFree(f, i) && i + 2 < |f|))
            && OnlyHeaders(m, m3, bs, bs)
  {
    MergeStep(m1, f, i - 1);
    var m2 := MergeMem(m1, f[i - 1].addr);
    AbsorbedStep(m1, m2, f, i);
    FreeFrame(m, m1, m2, bs, f, i);
  }

  lemma FreeBehindUsed(m: Mem, m1: Mem, bs: seq<Block>, f: seq<Block>, i: nat)
    requires Shape(m1, f) && OnlyHeaders(m, m1, bs, f) && SameHeaders(f, bs) && i < |f|
    ensures f[i].addr > 0
    ensures var m3 := MergeMem(m1, f[i].addr);
            && Shape(m3, if NextFree(f, i) then MergeAt(f, i) else f)
            && OnlyHeaders(m, m3, bs, bs)
  {
    PointerTo(m1, f, i);
    if NextFree(f, i) {
      MergeStep(m1, f, i);
      SameFrame(m, m1, MergeMem(m1, f[i].addr), bs, f);
    } else {
      PointerTo(m1, f, i + 1);
      SameFrame(m, m1, m1, bs, f);
    }
  }

  /** `kfree` on memory realises Freed, and keeps the list linked both ways exactly when FreeSafe. */
  lemma FreeRealises(m: Mem, bs: seq<Block>, i: nat)
    requires HeapInv(m, bs) && i < |bs| && bs[i].used
    ensures bs[i].addr > 0
    ensures HeapInv(FreeMem(m, bs[i].addr), Freed(bs, i)) <==> FreeSafe(bs, i)
    ensures OnlyHeaders(m, FreeMem(m, bs[i].addr), bs, bs)
  {
    var m1, f := m[bs[i].addr := 0], Cleared(bs, i);
    FreedTiled(bs, i);
    ClearRealises(m, bs, i);
    if PrevFree(bs, i) { FreeBehindFree(m, m1, bs, f, i); } else { FreeBehindUsed(m, m1, bs, f, i); }
  }

  // ----- The memory determines the list -------------------------------------------------------

  predicate NextOk(m: Mem, bs: seq<Block>, i: nat)
    requires i < |bs|
  {
    && (Rd(m, bs[i].addr) != 0) == bs[i].used
    && Rd(m, bs[i].addr + 4) == bs[i].size
    && Rd(m, bs[i].addr + 12) == NextOf(bs, i)
  }

  /** Following `next` from the root visits exactly `bs`, whatever `prev` says. */
  predicate Chained(m: Mem, bs: seq<Block>) {
    Tiled(bs) && forall i {:trigger NextOk(m, bs, i)} | 0 <= i < |bs| :: NextOk(m, bs, i)
  }

  lemma LinkedIsChained(m: Mem, bs: seq<Block>)
    requires Tiled(bs) && Linked(m, bs)
    ensures Chained(m, bs)
  {
    forall i | 0 <= i < |bs| ensures NextOk(m, bs, i) { assert HeaderOk(m, bs, i); }
  }

  lemma {:induction false} ChainedAt(m: Mem, a: seq<Block>, b: seq<Block>, i: nat)
    requires Chained(m, a) && Chained(m, b) && i < |a|
    ensures i < |b| && a[i] == b[i]
  {
    if i > 0 {
      ChainedAt(m, a, b, i - 1);
      assert NextOk(m, a, i - 1) && NextOk(m, b, i - 1);
      OrderedAll(a);
    }
    assert NextOk(m, a, i) && NextOk(m, b, i);
  }

  /** Only one list can be read off a memory. */
  lemma ListIsUnique(m: Mem, a: seq<Block>, b: seq<Block>)
    requires Chained(m, a) && Chained(m, b)
    ensures a == b
  {
    ChainedAt(m, a, b, |a| - 1);
    ChainedAt(m, b, a, |b| - 1);
    forall i | 0 <= i < |a| ensures a[i] == b[i] { ChainedAt(m, a, b, i); }
  }

  lemma AbsorbedChained(m2: Mem, m3: Mem, f: seq<Block>, i: nat)
    requires Tiled(f) && 0 < i && i + 2 < |f| && Shape(m2, MergeAt(f, i - 1))
    requires forall a :: Rd(m3, a) ==
                         if a == f[i + 2].addr + 8 then f[i].addr
                         else if a == f[i].addr + 12 then f[i + 2].addr
                         else if a == f[i].addr + 4 then f[i].size + BLOCKSIZ + f[i + 1].size
                         else Rd(m2, a)
    ensures Chained(m3, MergeAt(f, i - 1))
  {
    var bs' := MergeAt(f, i - 1);
    OrderedAll(f);
    OrderedAll(bs');
    assert f[i].addr + BLOCKSIZ <= bs'[i - 1].End() by { assert Sound(f, i - 1) && Sound(f, i); }
    assert bs'[i + 1] == f[i + 2];
    forall j | 0 <= j < |bs'| ensures NextOk(m3, bs', j) { assert HeaderOk(m2, bs', j); }
  }

  lemma AbsorbedList(m1: Mem, f: seq<Block>, i: nat)
    requires Shape(m1, f) && i + 2 < |f| && PrevFree(f, i) && NextFree(f, i) && !f[i].used
    ensures f[i - 1].addr > 0 && f[i].addr > 0
    ensures Chained(MergeMem(MergeMem(m1, f[i - 1].addr), f[i].addr), MergeAt(f, i - 1))
  {
    MergeStep(m1, f, i - 1);
    var m2 := MergeMem(m1, f[i - 1].addr);
    AbsorbedMerge(m1, m2, f, i);
    AbsorbedChained(m2, MergeMem(m2, f[i].addr), f, i);
  }

  /** Safe or not, `next` leads through the freed list. */
  lemma FreedChained(m: Mem, bs: seq<Block>, i: nat)
    requires HeapInv(m, bs) && i < |bs| && bs[i].used
    ensures bs[i].addr > 0 && Chained(FreeMem(m, bs[i].addr), Freed(bs, i))
  {
    if FreeSafe(bs, i) {
      FreeRealises(m, bs, i);
      LinkedIsChained(FreeMem(m, bs[i].addr), Freed(bs, i));
    } else {
      ClearRealises(m, bs, i);
      AbsorbedList(m[bs[i].addr := 0], Cleared(bs, i), i);
    }
  }

  /** After an unsafe `kfree` the memory is no sound heap under any list at all. */
  lemma FreeExact(m: Mem, bs: seq<Block>, i: nat)
    requires HeapInv(m, bs) && i < |bs| && bs[i].used
    ensures bs[i].addr > 0
    ensures (exists x :: HeapInv(FreeMem(m, bs[i].addr), x)) <==> FreeSafe(bs, i)
  {
    FreeRealises(m, bs, i);
    FreedChained(m, bs, i);
    var m' := FreeMem(m, bs[i].addr);
    if x :| HeapInv(m', x) {
      LinkedIsChained(m', x);
      ListIsUnique(m', x, Freed(bs, i));
    }
  }

  /** Releasing block i merges the tail of the list away. */
  predicate AbsorbsTail(bs: seq<Block>, i: nat)
    requires i < |bs|
  {
    (PrevFree(bs, i) && i + 1 == |bs|) || (NextFree(bs, i) && i + 2 == |bs|)
  }

  /**
   `merge` stores through `next` without a test: the word at address 8 is overwritten exactly when
   the tail is absorbed, with the address of the last block that absorbed it.
   */
  lemma FreeWritesLow(m: Mem, bs: seq<Block>, i: nat)
    requires HeapInv(m, bs) && i < |bs| && bs[i].used
    ensures bs[i].addr > 0
    ensures Rd(FreeMem(m, bs[i].addr), 8) ==
            if !AbsorbsTail(bs, i) then Rd(m, 8) else if i + 1 == |bs| then bs[i - 1].addr else bs[i].addr
  {
    var m1, f := m[bs[i].addr := 0], Cleared(bs, i);
    ClearRealises(m, bs, i);
    assert Rd(m1, 8) == Rd(m, 8) by { OrderedAll(bs); }
    if PrevFree(bs, i) { LowBehindFree(m1, f, i); } else { LowBehindUsed(m1, f, i); }
  }

  lemma LowBehindFree(m1: Mem, f: seq<Block>, i: nat)
    requires Shape(m1, f) && i < |f| && PrevFree(f, i) && !f[i].used
    ensures f[i - 1].addr > 0 && f[i].addr > 0
    ensures Rd(MergeMem(MergeMem(m1, f[i - 1].addr), f[i].addr), 8) ==
            if !AbsorbsTail(f, i) then Rd(m1, 8) else if i + 1 == |f| then f[i - 1].addr else f[i].addr
  {
    MergeStep(m1, f, i - 1);
    var m2 := MergeMem(m1, f[i - 1].addr);
    LowAfterMerge(m1, m2, f, i - 1);
    AbsorbedMerge(m1, m2, f, i);
    OrderedAll(f);
  }

  lemma LowBehindUsed(m1: Mem, f: seq<Block>, i: nat)
    requires Shape(m1, f) && i < |f| && !PrevFree(f, i)
    ensures f[i].addr > 0
    ensures Rd(MergeMem(m1, f[i].addr), 8) == if AbsorbsTail(f, i) then f[i].addr else Rd(m1, 8)
  {
    PointerTo(m1, f, i);
    if NextFree(f, i) {
      MergeStep(m1, f, i);
      LowAfterMerge(m1, MergeMem(m1, f[i].addr), f, i);
    } else {
      PointerTo(m1, f, i + 1);
    }
  }

  lemma LowAfterMerge(m1: Mem, m2: Mem, f: seq<Block>, k: nat)
    requires Tiled(f) && k + 1 < |f| && MergeEffect(m1, m2, f, k)
    ensures Rd(m2, 8) == if k + 2 == |f| then f[k].addr else Rd(m1, 8)
  {
    OrderedAll(f);
  }

  // ----- One allocation as a step -----------------------------------------------------------

  lemma GrowableFromInv(m: Mem, bs: seq<Block>)
    requires HeapInv(m, bs)
    ensures Growable(bs)
  {
    if Last(bs).size == 0 {
      assert |bs| == 1;
    }
  }

  lemma StaleOnlyMisfit(m: Mem, bs: seq<Block>, align: nat)
    requires Shape(m, bs)
    ensures Stale(m, bs, align) ==> Misfit(bs, align)
  {
    assert Sound(bs, |bs| - 1);
    NewHeaderFacts(Last(bs).End(), align);
  }

  /** kmalloca(size, align) takes (m, bs) to (m', bs') and returns ptr. */
  ghost predicate AllocStep(m: Mem, bs: seq<Block>, m': Mem, bs': seq<Block>, size: nat, align: nat, ptr: int)
    requires |bs| > 0
  {
    && (m', ptr - BLOCKSIZ) == LookupMem(m, 0, size, align, |bs| + 1)
    && bs' == Placed(bs, Stale(m, bs, align), size, align, 0).0
  }

  /** From a sound heap, the walk over memory realises the walk over the list. */
  lemma AllocRealises(m: Mem, bs: seq<Block>, m': Mem, bs': seq<Block>, size: nat, align: nat, ptr: int)
    requires HeapInv(m, bs) && size > 0 && size % 8 == 0 && AllocStep(m, bs, m', bs', size, align, ptr)
    ensures Ends(m, 0, size, align, |bs| + 1)
    ensures Shape(m', bs') && OnlyHeaders(m, m', bs, bs')
    ensures var k := Placed(bs, Stale(m, bs, align), size, align, 0).1;
            ptr == bs'[k].Data() && bs'[k].used && Low(ptr, align) == 0 && size <= bs'[k].size
  {
    GrowableFromInv(m, bs);
    LookupRealises(m, bs, 0, size, align, 0, |bs| + 1);
    PlacedAligned(bs, Stale(m, bs, align), size, align, 0);
  }

  const EINVAL := 22

  class KernelHeap {
    var mem: Mem
    var root: nat
    var errno: int
    ghost var blocks: seq<Block>

    ghost predicate Valid()
      reads this
    {
      root == HEAP_BASE && HeapInv(mem, blocks)
    }

    method Merge(blk: nat)
      modifies this`mem
      ensures mem == MergeMem(old(mem), blk)
    {
      var n := Rd(mem, blk + 12);
      if n != 0 && Rd(mem, n) == 0 {
        mem := mem[blk + 4 := Rd(mem, blk + 4) + BLOCKSIZ + Rd(mem, n + 4)];
        mem := mem[blk + 12 := Rd(mem, n + 12)];
        mem := mem[Rd(mem, blk + 12) + 8 := blk];
      }
    }

    method Split(blk: nat, size: nat)
      modifies this`mem
      ensures mem == SplitMem(old(mem), blk, size)
    {
      var delta := Word(Rd(mem, blk + 4) - size);
      var n := blk + BLOCKSIZ + size;
      if Rd(mem, blk + 12) == 0 || delta <= BLOCKSIZ + 8 {
        return;
      }
      mem := mem[n + 12 := Rd(mem, blk + 12)];
      mem := mem[n + 4 := Word(Rd(mem, n + 12) - (n + BLOCKSIZ))];
      mem := mem[Rd(mem, n + 12) + 8 := n];
      mem := mem[n + 8 := blk];
      mem := mem[n := 0];
      mem := mem[blk + 12 := n];
      mem := mem[blk + 4 := size];
    }

    /** The first half of `lookup` at the end of the list: a header behind blk. */
    method Append(blk: nat, size: nat, align: nat) returns (q: nat)
      modifies this`mem
      ensures q == AppendAt(old(mem), blk, align) && mem == AppendMem(old(mem), blk, size, align)
    {
      var ax := Pow2(align);
      q := blk + BLOCKSIZ + Rd(mem, blk + 4);
      LowIsMod(q, align);
      LowIsMod(q + BLOCKSIZ, align);
      Overwritten(mem, blk + 12, q, AppendAt(mem, blk, align));
      var misaligned := align != 0 && (q + BLOCKSIZ) % ax != 0;
      mem := mem[blk + 12 := q];
      if misaligned {
        q := Word(q - q % ax + ax - BLOCKSIZ);
        mem := mem[blk + 12 := q];
        mem := mem[blk + 4 := Word(q - (blk + BLOCKSIZ))];
      }
      mem := mem[q + 8 := blk];
      mem := mem[q + 4 := size];
    }

    /** The tests of `lookup` on the block at q: take it if it fits, or size the untouched root. */
    method Settle(q: nat, size: nat, align: nat) returns (done: bool)
      modifies this`mem
      ensures done == Settles(old(mem), q, size, align)
      ensures mem == if done then SettleMem(old(mem), q, size, align) else old(mem)
    {
      LowIsMod(q + BLOCKSIZ, align);
      if Rd(mem, q + 4) >= size && Rd(mem, q) == 0 {
        if align != 0 && (q + BLOCKSIZ) % Pow2(align) != 0 {
          return false;
        }
        mem := mem[q := 1];
        Split(q, size);
        return true;
      }
      if Rd(mem, q + 4) == 0 && align == 0 {
        mem := mem[q + 4 := size];
        mem := mem[q := 1];
        return true;
      }
      return false;
    }

    /** The whole of `lookup`; LookupRealises shows that it ends on every sound heap. */
    method Lookup(blk: nat, size: nat, align: nat, ghost n: nat) returns (r: nat)
      requires root == HEAP_BASE && Ends(mem, blk, size, align, n)
      modifies this`mem
      ensures (mem, r) == LookupMem(old(mem), blk, size, align, n)
      decreases n
    {
      var q := if blk == 0 then root else Rd(mem, blk + 12);
      if q == 0 {
        q := Append(blk, size, align);
      }
      var done := Settle(q, size, align);
      r := q;
      if !done {
        r := Lookup(q, size, align, n - 1);
      }
    }

    /** The live block behind a pointer handed out by kmalloca. */
    ghost predicate Allocated(ptr: int, i: nat)
      reads this
    {
      i < |blocks| && blocks[i].used && blocks[i].Data() == ptr
    }

    method Kmalloca(request: nat, align: nat) returns (ptr: nat)
      requires Valid()
      modifies this
      ensures root == old(root) && Shape(mem, blocks)
      ensures request == 0 ==> ptr == 0 && errno == 22 && mem == old(mem) && blocks == old(blocks)
      ensures request > 0 ==>
                && errno == old(errno)
                && ptr % Pow2(align) == 0
                && AllocStep(old(mem), old(blocks), mem, blocks, RoundUp8(request), align, ptr)
      ensures request > 0 ==>
                var size, stale := RoundUp8(request), Stale(old(mem), old(blocks), align);
                var k := Placed(old(blocks), stale, size, align, 0).1;
                && ptr == blocks[k].Data() && OnlyHeaders(old(mem), mem, old(blocks), blocks)
                && (AllocGood(old(blocks), blocks, k, size, align) <==> AllocSafe(old(blocks), stale, size, align))
                && (AllocSafe(old(blocks), stale, size, align) ==> Valid())
    {
      if request == 0 {
        errno := EINVAL;
        return 0;
      }
      var size := RoundUp8(request);
      ghost var m, bs, stale := mem, blocks, Stale(mem, blocks, align);
      StaleOnlyMisfit(m, bs, align);
      AllocGoodIffSafe(bs, stale, size, align);
      ghost var bs' := Placed(bs, stale, size, align, 0).0;
      ghost var found := LookupMem(m, 0, size, align, |bs| + 1);
      AllocRealises(m, bs, found.0, bs', size, align, found.1 + BLOCKSIZ);
      var blk := Lookup(0, size, align, |bs| + 1);
      blocks := bs';
      ptr := blk + BLOCKSIZ;
      LowIsMod(ptr, align);
    }

    method KmallocBytes(request: nat) returns (ptr: nat)
      requires Valid()
      modifies this
      ensures Valid()
      ensures request == 0 ==> ptr == 0 && errno == 22 && mem == old(mem) && blocks == old(blocks)
      ensures request > 0 ==>
                && AllocStep(old(mem), old(blocks), mem, blocks, RoundUp8(request), 0, ptr)
                && KeepsLive(old(blocks), blocks) && NoOtherLive(old(blocks), blocks, ptr - BLOCKSIZ)
                && HasLive(blocks, ptr - BLOCKSIZ, request)
    {
      ptr := Kmalloca(request, 0);
    }

    /** The writes of `kfree`: clear `used`, merge with the predecessor, merge with the successor. */
    method Release(blk: nat)
      modifies this`mem
      ensures mem == FreeMem(old(mem), blk)
    {
      mem := mem[blk := 0];
      var prev := Rd(mem, blk + 8);
      if prev != 0 && Rd(mem, prev) == 0 {
        Merge(prev);
      }
      Merge(blk);
    }

    method Kfree(ptr: nat, ghost i: nat)
      requires Valid() && Allocated(ptr, i)
      modifies this`mem, this`blocks
      ensures ptr > HEAP_BASE && mem == FreeMem(old(mem), ptr - BLOCKSIZ)
      ensures blocks == Freed(old(blocks), i) && OnlyHeaders(old(mem), mem, old(blocks), old(blocks))
      ensures Valid() <==> FreeSafe(old(blocks), i)
    {
      assert blocks[i].addr >= HEAP_BASE by { OrderedAll(blocks); }
      FreeRealises(mem, blocks, i);
      blocks := Freed(blocks, i);
      Release(ptr - BLOCKSIZ);
    }
  }
}
