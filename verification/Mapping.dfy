/** Mapping one page: what `pmem_mapaddr` does to entries, frames and translations, on every sound heap. */
module Mapping {
  import opened Memory
  import opened Bits
  import opened Blocks
  import opened HeapTheory
  import opened Kmalloc
  import opened HeapRuns
  import opened Paging

  // ----- Writing the entry ----------------------------------------------------------------------

  /** The word that `pmem_map` or-s into an entry. */
  function MapWord(phys: nat, flags: nat): nat {
    Or(Or(phys, P_PRESENT), flags)
  }

  function MapMem(m: Mem, fs: nat, pg: nat, phys: nat, flags: nat): Mem {
    MarkWord(m[pg := Or(Rd(m, pg), MapWord(phys, flags))], fs, phys / PAGE)
  }

  /** The word is or-ed into page j's entry, and every other entry is as before. */
  ghost predicate EntersPage(m: Mem, m': Mem, dir: nat, j: nat, word: nat) {
    && Entry(m', dir, j) == Or(Entry(m, dir, j), word)
    && forall k | 0 <= k < 1024 * 1024 && k != j :: Entry(m', dir, k) == Entry(m, dir, k)
  }

  /** Exactly frame f joins the used frames; the bitmap holds 8 * PAGE of them. */
  ghost predicate AddsFrame(m: Mem, m': Mem, fs: nat, f: nat) {
    forall g | 0 <= g < 8 * PAGE :: FrameUsed(m', fs, g) <==> g == f || FrameUsed(m, fs, g)
  }

  lemma MapKeeps(m: Mem, bs: seq<Block>, fs: nat, dir: nat, j: nat, phys: nat, flags: nat)
    requires HeapInv(m, bs) && PagesOk(m, bs, fs, dir) && j < 1024 * 1024
    requires Rd(m, dir + 4 * (j / 1024)) != 0 && phys / PAGE < 8 * PAGE
    ensures var m' := MapMem(m, fs, EntryAddr(m, dir, j), phys, flags);
            && HeapInv(m', bs) && PagesOk(m', bs, fs, dir) && (HeapReady(m, bs) ==> HeapReady(m', bs))
            && EntersPage(m, m', dir, j, MapWord(phys, flags)) && AddsFrame(m, m', fs, phys / PAGE)
  {
    var pg, f := EntryAddr(m, dir, j), phys / PAGE;
    var v := Or(Rd(m, pg), MapWord(phys, flags));
    assert TableOk(m, bs, fs, dir, j / 1024);
    assert Rd(m, pg) == Entry(m, dir, j);
    EntryAddrsApart(m, bs, fs, dir, j, j);
    var m1 := m[pg := v];
    WriteBoth(m, bs, TableOf(m, dir, j / 1024), pg, v);
    EntryWrite(m, m1, bs, fs, dir, j, v);
    var w := fs + 4 * (f / 32);
    var m2 := MarkWord(m1, fs, f);
    WriteBoth(m1, bs, fs, w, Or(Rd(m1, w), Pow2(f % 32)));
    BitmapWrite(m1, m2, bs, fs, dir, w, Or(Rd(m1, w), Pow2(f % 32)));
    forall g | 0 <= g < 8 * PAGE ensures FrameUsed(m2, fs, g) <==> g == f || FrameUsed(m, fs, g) {
      MarkAdds(m1, fs, f, g);
      FramesKept(m, m1, fs, g);
    }
  }

  lemma WriteBoth(m: Mem, bs: seq<Block>, p: nat, a: int, v: nat)
    requires HeapInv(m, bs) && LivePage(bs, p) && p <= a < p + PAGE
    ensures HeapInv(m[a := v], bs) && (HeapReady(m, bs) ==> HeapReady(m[a := v], bs))
  {
    WritePage(m, bs, p, a, v);
    if HeapReady(m, bs) { WriteReady(m, bs, p, a, v); }
  }

  // ----- What the page then translates to ---------------------------------------------------------

  /** The frame address a word names. */
  function FrameOf(word: nat): nat {
    word - word % PAGE
  }

  /** The frame an entry names after a word is or-ed in: frame numbers blend bit by bit. */
  function Blend(entry: nat, word: nat): nat {
    PAGE * Or(entry / PAGE, word / PAGE)
  }

  predicate Writable(entry: nat) {
    entry / 2 % 2 == 1
  }

  /** For a frame on a page boundary and flags below a page, the word names that frame with those flags. */
  lemma AlignedWord(phys: nat, flags: nat)
    requires phys % PAGE == 0 && flags < PAGE
    ensures FrameOf(MapWord(phys, flags)) == phys && (Writable(MapWord(phys, flags)) <==> Writable(flags))
  {
    OrFlags(phys, flags);
  }

  /** Every bit of a is a bit of b. */
  ghost predicate Within(a: nat, b: nat) {
    forall i: nat :: Bit(a, i) ==> Bit(b, i)
  }

  /** The blend is the frame asked for exactly when the old frame number adds no bit to it. */
  lemma BlendIsFrame(entry: nat, word: nat)
    ensures Blend(entry, word) == FrameOf(word) <==> Within(entry / PAGE, word / PAGE)
  {
    OrIsSecond(entry / PAGE, word / PAGE);
    assert FrameOf(word) == PAGE * (word / PAGE);
  }

  lemma {:induction false} OrIsSecond(a: nat, b: nat)
    ensures Or(a, b) == b <==> Within(a, b)
  {
    if a == 0 {
      forall i: nat ensures !Bit(a, i) { ZeroBit(i); }
    } else if b == 0 {
      var i := NonZeroHasBit(a);
      ZeroBit(i);
    } else {
      OrIsSecond(a / 2, b / 2);
      if Within(a, b) {
        forall i: nat ensures Bit(a / 2, i) ==> Bit(b / 2, i) { assert Bit(a, i + 1) == Bit(a / 2, i); }
        assert Bit(a, 0) ==> Bit(b, 0);
      } else {
        var i: nat :| Bit(a, i) && !Bit(b, i);
        assert i > 0 ==> Bit(a / 2, i - 1) && !Bit(b / 2, i - 1);
      }
    }
  }

  /**
   What `pmem_mapaddr` does. The word is or-ed into what is found at page j, every other page has the
   entry found there, exactly frame f becomes used, and so every address translates. When page j had
   no table, t is the memory its new table is made of.
   */
  ghost predicate MapsFound(m: Mem, m': Mem, fs: nat, dir: nat, t: int, j: nat, word: nat, f: nat) {
    && (forall k | 0 <= k < 1024 * 1024 ::
          Entry(m', dir, k) == if k == j then Or(Found(m, dir, t, j, j), word) else Found(m, dir, t, j, k))
    && AddsFrame(m, m', fs, f)
    && (forall va | 0 <= va < ADDRESS_SPACE ::
          Walk(m', dir, va) ==
          if va / PAGE == j
          then Maps(Blend(Found(m, dir, t, j, j), word) + va % PAGE, Writable(Found(m, dir, t, j, j)) || Writable(word))
          else Translate(Found(m, dir, t, j, va / PAGE), va % PAGE))
  }

  /** The write of `pmem_map` after `vmem_get` has found or made the entry. */
  lemma MapAfterFound(m: Mem, m1: Mem, bs1: seq<Block>, fs: nat, dir: nat, t: int, j: nat, phys: nat, flags: nat)
    requires ShowsFound(m, m1, dir, t, j) && SameFrames(m, m1, fs)
    requires HeapInv(m1, bs1) && PagesOk(m1, bs1, fs, dir) && j < 1024 * 1024
    requires Rd(m1, dir + 4 * (j / 1024)) != 0 && phys / PAGE < 8 * PAGE
    ensures var m2 := MapMem(m1, fs, EntryAddr(m1, dir, j), phys, flags);
            && HeapInv(m2, bs1) && PagesOk(m2, bs1, fs, dir) && (HeapReady(m1, bs1) ==> HeapReady(m2, bs1))
            && MapsFound(m, m2, fs, dir, t, j, MapWord(phys, flags), phys / PAGE)
  {
    var m2 := MapMem(m1, fs, EntryAddr(m1, dir, j), phys, flags);
    MapKeeps(m1, bs1, fs, dir, j, phys, flags);
    forall g | 0 <= g < 8 * PAGE ensures FrameUsed(m1, fs, g) == FrameUsed(m, fs, g) { FramesKept(m, m1, fs, g); }
    OrPresent(phys, flags);
    EnteredWalk(m1, m2, bs1, fs, dir, j, MapWord(phys, flags));
  }

  lemma EnteredWalk(m: Mem, m': Mem, bs: seq<Block>, fs: nat, dir: nat, j: nat, word: nat)
    requires PagesOk(m', bs, fs, dir) && EntersPage(m, m', dir, j, word) && word % 2 == 1
    ensures forall va | 0 <= va < ADDRESS_SPACE ::
              Walk(m', dir, va) ==
              if va / PAGE == j
              then Maps(Blend(Entry(m, dir, j), word) + va % PAGE, Writable(Entry(m, dir, j)) || Writable(word))
              else Translate(Entry(m, dir, va / PAGE), va % PAGE)
  {
    OrEntry(Entry(m, dir, j), word);
    forall va | 0 <= va < ADDRESS_SPACE
      ensures Walk(m', dir, va) ==
              if va / PAGE == j
              then Maps(Blend(Entry(m, dir, j), word) + va % PAGE, Writable(Entry(m, dir, j)) || Writable(word))
              else Translate(Entry(m, dir, va / PAGE), va % PAGE)
    {
      WalkIsEntry(m', bs, fs, dir, va);
      assert 0 <= va / PAGE < 1024 * 1024;
    }
  }

  // ----- When only that page is mapped ----------------------------------------------------------------

  /** Page j translates to the frame at phys, and every address outside it translates as before. */
  ghost predicate MapsOnly(m: Mem, m': Mem, dir: nat, j: nat, phys: nat, writable: bool) {
    forall va | 0 <= va < ADDRESS_SPACE ::
      Walk(m', dir, va) == if va / PAGE == j then Maps(phys + va % PAGE, writable) else Walk(m, dir, va)
  }

  /**
   What is found at page j adds no frame bit and no permission, and a new table shows no other page
   as present.
   */
  ghost predicate CleanFor(m: Mem, dir: nat, t: int, j: nat, word: nat) {
    && Within(Found(m, dir, t, j, j) / PAGE, word / PAGE)
    && (Writable(Found(m, dir, t, j, j)) ==> Writable(word))
    && (Rd(m, dir + 4 * (j / 1024)) == 0 ==> forall i | 0 <= i < 1024 && i != j % 1024 :: Rd(m, t + 4 * i) % 2 == 0)
  }

  /** The page is mapped to exactly that frame, and no other translation changes, exactly when this is so. */
  lemma MapsOnlyIff(m: Mem, bs: seq<Block>, m': Mem, fs: nat, dir: nat, t: int, j: nat, word: nat, f: nat)
    requires PagesOk(m, bs, fs, dir) && j < 1024 * 1024 && MapsFound(m, m', fs, dir, t, j, word, f)
    ensures MapsOnly(m, m', dir, j, FrameOf(word), Writable(word)) <==> CleanFor(m, dir, t, j, word)
  {
    BlendIsFrame(Found(m, dir, t, j, j), word);
    if MapsOnly(m, m', dir, j, FrameOf(word), Writable(word)) { MapsOnlyIsClean(m, bs, m', fs, dir, t, j, word, f); }
    if CleanFor(m, dir, t, j, word) {
      forall va | 0 <= va < ADDRESS_SPACE
        ensures Walk(m', dir, va) ==
                if va / PAGE == j then Maps(FrameOf(word) + va % PAGE, Writable(word)) else Walk(m, dir, va)
      {
        if va / PAGE != j { CleanElsewhere(m, bs, fs, dir, t, j, va); }
      }
    }
  }

  /** Both together, for the memory that `pmem_map` leaves. */
  lemma MapResult(m: Mem, bs: seq<Block>, m1: Mem, bs1: seq<Block>, fs: nat, dir: nat, t: int, j: nat, phys: nat, flags: nat)
    requires PagesOk(m, bs, fs, dir) && ShowsFound(m, m1, dir, t, j) && SameFrames(m, m1, fs)
    requires HeapInv(m1, bs1) && PagesOk(m1, bs1, fs, dir) && j < 1024 * 1024
    requires Rd(m1, dir + 4 * (j / 1024)) != 0 && phys / PAGE < 8 * PAGE
    ensures var m2, word := MapMem(m1, fs, EntryAddr(m1, dir, j), phys, flags), MapWord(phys, flags);
            && HeapInv(m2, bs1) && PagesOk(m2, bs1, fs, dir) && (HeapReady(m1, bs1) ==> HeapReady(m2, bs1))
            && MapsFound(m, m2, fs, dir, t, j, word, phys / PAGE)
            && (MapsOnly(m, m2, dir, j, FrameOf(word), Writable(word)) <==> CleanFor(m, dir, t, j, word))
  {
    MapAfterFound(m, m1, bs1, fs, dir, t, j, phys, flags);
    var m2, word := MapMem(m1, fs, EntryAddr(m1, dir, j), phys, flags), MapWord(phys, flags);
    MapsOnlyIff(m, bs, m2, fs, dir, t, j, word, phys / PAGE);
  }

  /** An address outside page j translates as before exactly when no present entry was found there anew. */
  lemma CleanElsewhere(m: Mem, bs: seq<Block>, fs: nat, dir: nat, t: int, j: nat, va: nat)
    requires PagesOk(m, bs, fs, dir) && va < ADDRESS_SPACE
    ensures var k := va / PAGE;
            Translate(Found(m, dir, t, j, k), va % PAGE) == Walk(m, dir, va) <==>
            (Rd(m, dir + 4 * (j / 1024)) == 0 && k / 1024 == j / 1024 ==> Rd(m, t + 4 * (k % 1024)) % 2 == 0)
  {
    WalkIsEntry(m, bs, fs, dir, va);
    assert TableOk(m, bs, fs, dir, va / PAGE / 1024);
  }

  lemma MapsOnlyIsClean(m: Mem, bs: seq<Block>, m': Mem, fs: nat, dir: nat, t: int, j: nat, word: nat, f: nat)
    requires PagesOk(m, bs, fs, dir) && j < 1024 * 1024
    requires MapsFound(m, m', fs, dir, t, j, word, f) && MapsOnly(m, m', dir, j, FrameOf(word), Writable(word))
    ensures CleanFor(m, dir, t, j, word)
  {
    BlendIsFrame(Found(m, dir, t, j, j), word);
    var own := j * PAGE;
    assert own / PAGE == j && 0 <= own < ADDRESS_SPACE;
    assert Walk(m', dir, own) == Maps(FrameOf(word) + own % PAGE, Writable(word));
    if Rd(m, dir + 4 * (j / 1024)) == 0 {
      forall i | 0 <= i < 1024 && i != j % 1024 ensures Rd(m, t + 4 * i) % 2 == 0 {
        var k := j / 1024 * 1024 + i;
        var va := k * PAGE;
        assert k / 1024 == j / 1024 && k % 1024 == i && k != j;
        assert va / PAGE == k && va % PAGE == 0 && 0 <= va < ADDRESS_SPACE;
        CleanElsewhere(m, bs, fs, dir, t, j, va);
        assert Walk(m', dir, va) == Walk(m, dir, va);
      }
    }
  }

  /** An unmapped page is clean when its table exists, or is made of zero memory. */
  lemma UnmappedIsClean(m: Mem, dir: nat, t: int, j: nat, word: nat)
    requires Entry(m, dir, j) == 0
    requires Rd(m, dir + 4 * (j / 1024)) != 0 || forall a | t <= a < t + PAGE :: Rd(m, a) == 0
    ensures CleanFor(m, dir, t, j, word)
  {
    FoundIsEntry(m, dir, t, j, j);
    forall i: nat ensures !Bit(0, i) { ZeroBit(i); }
    forall i | 0 <= i < 1024 ensures t <= t + 4 * i < t + PAGE {}
  }

  /**
   On every sound heap, mapping an unmapped page changes that page alone when its table exists, or no
   free block fits a page: a table from fresh heap starts empty, whatever was written and freed before.
   */
  lemma FreshMapsOnly(m: Mem, bs: seq<Block>, m': Mem, fs: nat, dir: nat, t: int, j: nat, word: nat, f: nat)
    requires HeapInv(m, bs) && PagesOk(m, bs, fs, dir) && j < 1024 * 1024 && t == PageTaken(m, bs)
    requires Entry(m, dir, j) == 0 && (Rd(m, dir + 4 * (j / 1024)) != 0 || NoFreePage(bs))
    requires MapsFound(m, m', fs, dir, t, j, word, f)
    ensures MapsOnly(m, m', dir, j, FrameOf(word), Writable(word))
  {
    if Rd(m, dir + 4 * (j / 1024)) == 0 { FreshPageIsZero(m, bs); }
    UnmappedIsClean(m, dir, t, j, word);
    MapsOnlyIff(m, bs, m', fs, dir, t, j, word, f);
  }

  /** An unmapped page mapped to 0x1000 and then to 0x2000 translates to 0x3000, which is neither. */
  lemma MappedTwice(m: Mem, m1: Mem, m2: Mem, fs: nat, dir: nat, t: int, t1: int, j: nat, flags: nat)
    requires j < 1024 * 1024 && flags < PAGE && Found(m, dir, t, j, j) == 0
    requires MapsFound(m, m1, fs, dir, t, j, MapWord(0x1000, flags), 1)
    requires MapsFound(m1, m2, fs, dir, t1, j, MapWord(0x2000, flags), 2)
    ensures Walk(m1, dir, j * PAGE) == Maps(0x1000, Writable(flags))
    ensures Walk(m2, dir, j * PAGE) == Maps(0x3000, Writable(flags))
  {
    var e := MapWord(0x1000, flags);
    AlignedWord(0x1000, flags);
    AlignedWord(0x2000, flags);
    OrPresent(0x1000, flags);
    assert Entry(m1, dir, j) == Or(0, e) == e;
    assert Found(m1, dir, t1, j, j) == e;
    assert e / PAGE == 1 && MapWord(0x2000, flags) / PAGE == 2;
    assert Or(1, 2) == 3 by { assert Or(0, 1) == 1; }
    assert 0 <= j * PAGE < ADDRESS_SPACE && j * PAGE / PAGE == j;
  }

  // ----- The identity map -----------------------------------------------------------------------------

  /** A present, writable entry naming frame j. */
  predicate IdentityEntry(e: nat, j: nat) {
    e % 2 == 1 && e / 2 % 2 == 1 && e - e % PAGE == j * PAGE
  }

  /** Pages and frames below n are mapped one to one and used; the rest are unmapped and free. */
  ghost predicate IdentityUpTo(m: Mem, fs: nat, dir: nat, n: nat) {
    && (forall j | 0 <= j < 1024 * 1024 :: if j < n then IdentityEntry(Entry(m, dir, j), j) else Entry(m, dir, j) == 0)
    && (forall f | 0 <= f < 8 * PAGE :: FrameUsed(m, fs, f) <==> f < n)
  }

  lemma IdentityNext(m: Mem, m': Mem, fs: nat, dir: nat, t: int, n: nat)
    requires n < 4096 && IdentityUpTo(m, fs, dir, n) && MapsFound(m, m', fs, dir, t, n, MapWord(PAGE * n, P_WRITABLE), n)
    requires Rd(m, dir + 4 * (n / 1024)) != 0 || forall a | t <= a < t + PAGE :: Rd(m, a) == 0
    ensures IdentityUpTo(m', fs, dir, n + 1)
  {
    forall k: nat ensures Found(m, dir, t, n, k) == Entry(m, dir, k) { FoundIsEntry(m, dir, t, n, k); }
    assert Entry(m, dir, n) == 0;
    OrFlags(PAGE * n, P_WRITABLE);
  }

  /** With no free frame left the code names frame 0, which or-s nothing into an identity entry. */
  lemma IdentityAgain(m: Mem, m': Mem, fs: nat, dir: nat, t: int, n: nat)
    requires n < 4096 && IdentityUpTo(m, fs, dir, 4096) && MapsFound(m, m', fs, dir, t, n, MapWord(0, P_WRITABLE), 0)
    ensures IdentityUpTo(m', fs, dir, 4096)
  {
    assert IdentityEntry(Entry(m, dir, n), n);
    assert Rd(m, dir + 4 * (n / 1024)) != 0;
    forall k: nat ensures Found(m, dir, t, n, k) == Entry(m, dir, k) { FoundIsEntry(m, dir, t, n, k); }
    AlignedWord(0, P_WRITABLE);
    OrPresent(0, P_WRITABLE);
    OrEntry(Entry(m, dir, n), MapWord(0, P_WRITABLE));
    assert MapWord(0, P_WRITABLE) / PAGE == 0;
    assert Or(Entry(m, dir, n) / PAGE, 0) == Entry(m, dir, n) / PAGE;
  }

  lemma IdentityFreeFrame(m: Mem, fs: nat, dir: nat, n: nat)
    requires n < 4096 && IdentityUpTo(m, fs, dir, n)
    ensures FreeFrom(m, fs, 0) == n
  {
    FreeFromIsLeast(m, fs, 0, n);
  }

  /** Below 16 MB every address translates to itself, present and writable; above, nothing is mapped. */
  lemma IdentityWalk(m: Mem, bs: seq<Block>, fs: nat, dir: nat, va: nat)
    requires PagesOk(m, bs, fs, dir) && IdentityUpTo(m, fs, dir, 4096) && va < 0x1_0000_0000
    ensures Walk(m, dir, va) == if va < 0x100_0000 then Maps(va, true) else Fault
  {
    WalkIsEntry(m, bs, fs, dir, va);
    assert 0 <= va / PAGE < 1024 * 1024;
    var e := Entry(m, dir, va / PAGE);
    if va < 0x100_0000 {
      assert va / PAGE < 4096;
      assert IdentityEntry(e, va / PAGE);
    }
  }
}
