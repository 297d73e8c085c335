/** Inodes, directory search and path lookup. */
module FileSystem {
  import opened Blocks
  import opened HeapTheory
  import opened Kmalloc
  import opened HeapRuns
  import opened Strtok

  const FS_FILE := 1
  const FS_DIR := 2
  const FS_CHAR := 3
  const ENOTDIR := 20

  datatype Option<T> = None | Some(value: T)

  /** `finddir` and `readdir` say whether the driver provides that operation. */
  datatype Inode = Inode(name: string, flags: nat, size: nat, ino: nat, impl: nat,
                         readdir: bool, finddir: bool, ptr: seq<Inode>)

  datatype Dirent = Dirent(name: string, ino: nat)

  /** Every directory counts no more entries than it has. */
  predicate WellFormed(node: Inode) {
    && ((node.finddir || node.readdir) ==> node.impl <= |node.ptr|)
    && forall i | 0 <= i < |node.ptr| :: WellFormed(node.ptr[i])
  }

  // ----- Searching one directory ---------------------------------------------------------------

  /** The index of the first of the entries i.. named so, or their number. */
  function IndexOf(entries: seq<Inode>, name: string, i: nat): (k: nat)
    requires i <= |entries|
    ensures i <= k <= |entries|
    ensures k < |entries| ==> entries[k].name == name
    ensures forall j | i <= j < k :: entries[j].name != name
    decreases |entries| - i
  {
    if i == |entries| || entries[i].name == name then i else IndexOf(entries, name, i + 1)
  }

  /** Looking up the name listed at i finds entry i exactly when no earlier entry has that name. */
  lemma {:induction false} ListedIsFound(entries: seq<Inode>, k: nat, i: nat)
    requires k <= i < |entries|
    ensures IndexOf(entries, entries[i].name, k) == i <==> forall j | k <= j < i :: entries[j].name != entries[i].name
    decreases i - k
  {
    if k < i && entries[k].name != entries[i].name {
      ListedIsFound(entries, k + 1, i);
    }
  }

  /** The test of `CHECK_DIR` as C parses it: `flags & (0x7 != FS_DIR)`. */
  predicate Refused(flags: nat) {
    flags % 2 == 1
  }

  /** It does what it means to do for directories (type 2) and odd types only; a block device (4) slips through. */
  lemma RefusedAsIntended(flags: nat)
    ensures !Refused(4)
    ensures (Refused(flags) <==> flags % 8 != 2) <==> flags % 8 == 2 || flags % 2 == 1
  {
  }

  /** What a directory search finds. */
  function Child(node: Inode, name: string): Option<Inode>
    requires WellFormed(node)
  {
    if Refused(node.flags) || !node.finddir then None
    else
      var entries := node.ptr[..node.impl];
      var k := IndexOf(entries, name, 0);
      if k < |entries| then Some(entries[k]) else None
  }

  lemma ChildWellFormed(node: Inode, name: string)
    requires WellFormed(node)
    ensures Child(node, name).Some? ==> WellFormed(Child(node, name).value)
  {
  }

  // ----- Paths -----------------------------------------------------------------------------------

  const SEPARATOR := "/"

  /** Following names from a node; nothing is found below nothing. */
  function Descend(node: Option<Inode>, names: seq<string>): Option<Inode>
    requires node.Some? ==> WellFormed(node.value)
    decreases |names|
  {
    if names == [] || node.None? then node
    else
      ChildWellFormed(node.value, names[0]);
      Descend(Child(node.value, names[0]), names[1..])
  }

  function Resolve(root: Inode, path: string): Option<Inode>
    requires WellFormed(root)
  {
    var names := Tokens(path, SEPARATOR);
    if names == [] then Child(root, path) else Descend(Some(root), names)
  }

  lemma {:induction false} DescendAppend(node: Option<Inode>, a: seq<string>, b: seq<string>)
    requires node.Some? ==> WellFormed(node.value)
    ensures Descend(node, a).Some? ==> WellFormed(Descend(node, a).value)
    ensures Descend(node, a + b) == Descend(Descend(node, a), b)
    decreases |a|
  {
    if a == [] {
      assert a + b == b;
    } else if node.Some? {
      assert (a + b)[1..] == a[1..] + b;
      ChildWellFormed(node.value, a[0]);
      DescendAppend(Child(node.value, a[0]), a[1..], b);
    }
  }

  /** A path and its continuation resolve one after the other, however many separators stand between. */
  lemma ResolveJoin(root: Inode, a: string, b: string)
    requires WellFormed(root) && Tokens(a, SEPARATOR) != []
    ensures Resolve(root, a).Some? ==> WellFormed(Resolve(root, a).value)
    ensures Resolve(root, a + SEPARATOR + b) == Descend(Resolve(root, a), Tokens(b, SEPARATOR))
  {
    TokensOfJoin(a, '/', b, SEPARATOR);
    assert a + SEPARATOR + b == a + ['/'] + b;
    DescendAppend(Some(root), Tokens(a, SEPARATOR), Tokens(b, SEPARATOR));
  }

  /** Leading, trailing and doubled separators do not matter. */
  lemma SeparatorsDoNotMatter(root: Inode, a: string, b: string)
    requires WellFormed(root) && Tokens(a, SEPARATOR) != []
    ensures Resolve(root, SEPARATOR + a) == Resolve(root, a)
    ensures Resolve(root, a + SEPARATOR) == Resolve(root, a)
    ensures Resolve(root, a + SEPARATOR + SEPARATOR + b) == Resolve(root, a + SEPARATOR + b)
  {
    NoTokens();
    TokensOfJoin("", '/', a, SEPARATOR);
    assert "" + ['/'] + a == SEPARATOR + a;
    assert Tokens(SEPARATOR + a, SEPARATOR) == [] + Tokens(a, SEPARATOR) == Tokens(a, SEPARATOR);
    TokensOfJoin(a, '/', "", SEPARATOR);
    assert a + ['/'] + "" == a + SEPARATOR;
    assert Tokens(a + SEPARATOR, SEPARATOR) == Tokens(a, SEPARATOR) + [] == Tokens(a, SEPARATOR);
    TokensOfJoin(a, '/', b, SEPARATOR);
    assert a + ['/'] + b == a + SEPARATOR + b;
    TokensOfJoin(a + SEPARATOR, '/', b, SEPARATOR);
    assert a + SEPARATOR + ['/'] + b == a + SEPARATOR + SEPARATOR + b;
  }

  lemma NoTokens()
    ensures Tokens("", SEPARATOR) == []
  {
  }

  /** A path of separators alone names nothing, unless an entry of the root bears that very name. */
  lemma OnlySeparators(root: Inode, path: string)
    requires WellFormed(root) && forall i | 0 <= i < |path| :: path[i] == '/'
    ensures Resolve(root, path).Some? <==>
            root.flags % 2 == 0 && root.finddir && exists i | 0 <= i < root.impl :: root.ptr[i].name == path
    ensures Resolve(root, path).Some? ==> Resolve(root, path).value.name == path
  {
    NoTokensIn(path, 0);
    if root.finddir {
      var entries := root.ptr[..root.impl];
      var k := IndexOf(entries, path, 0);
      assert k < |entries| ==> root.ptr[k] == entries[k];
      forall i | 0 <= i < root.impl ensures root.ptr[i] == entries[i] {}
    }
  }

  lemma {:induction false} NoTokensIn(path: string, i: nat)
    requires i <= |path| && forall k | 0 <= k < |path| :: path[k] == '/'
    ensures TokensIn(path, "/", i, |path|) == []
    decreases |path| - i
  {
    if i < |path| { NoTokensIn(path, i + 1); }
  }

  /** Nothing lies below a regular file or a character device. */
  lemma NothingBelowFiles(root: Inode, a: string, b: string)
    requires WellFormed(root) && Tokens(a, SEPARATOR) != [] && Tokens(b, SEPARATOR) != []
    requires Resolve(root, a).Some? && Resolve(root, a).value.flags % 8 in [1, 3]
    ensures Resolve(root, a + SEPARATOR + b) == None
  {
    ResolveJoin(root, a, b);
  }

  // ----- The allocator under lookup -----------------------------------------------------------------

  /** The same allocations are live. */
  ghost predicate SameLive(bs: seq<Block>, bs': seq<Block>) {
    forall b: Block | b.used :: b in bs' <==> b in bs
  }

  /** Block k of bs is taken, and if d is 1 the rest of it was cut off. */
  predicate TakenFrom(bs: seq<Block>, taken: seq<Block>, k: nat, d: nat) {
    && k < |bs| && d <= 1 && |taken| == |bs| + d
    && taken[k].addr == bs[k].addr && (d == 1 ==> !taken[k + 1].used)
    && (forall i | 0 <= i < k :: taken[i] == bs[i])
    && (forall i | k < i < |bs| :: taken[i + d] == bs[i])
  }

  lemma TakenKeeps(bs: seq<Block>, taken: seq<Block>, k: nat, d: nat, b: Block)
    requires Tiled(bs) && TakenFrom(bs, taken, k, d) && !bs[k].used && b.used && b in bs
    ensures b in taken && b != taken[k]
  {
    var j :| 0 <= j < |bs| && bs[j] == b;
    assert taken[if j < k then j else j + d] == b;
    assert Sound(bs, j) && Sound(bs, k);
    if j < k { Ordered(bs, j, k); } else { Ordered(bs, k, j); }
  }

  lemma TakenAddsOne(bs: seq<Block>, taken: seq<Block>, k: nat, d: nat, b: Block)
    requires TakenFrom(bs, taken, k, d) && b.used && b in taken && b != taken[k]
    ensures b in bs
  {
    var j :| 0 <= j < |taken| && taken[j] == b;
    var i := if j < k then j else j - d;
    assert bs[i] == b;
  }

  lemma TakeFreeSameLive(bs: seq<Block>, taken: seq<Block>, k: nat, d: nat)
    requires Tiled(bs) && TakenFrom(bs, taken, k, d) && !bs[k].used
    requires Tiled(taken) && NoEmptyBlock(taken) && taken[k].used
    ensures SameLive(bs, Freed(taken, k))
  {
    FreedKeepsOthers(taken, k);
    forall b: Block | b.used ensures b in Freed(taken, k) <==> b in bs {
      if b in bs { TakenKeeps(bs, taken, k, d, b); }
      if b in taken && b != taken[k] { TakenAddsOne(bs, taken, k, d, b); }
    }
  }

  lemma SplitTakes(bs: seq<Block>, k: nat, size: nat)
    requires k < |bs|
    ensures var taken := SplitAt(bs[k := bs[k].(used := true)], k, size);
            |taken| >= |bs| && TakenFrom(bs, taken, k, |taken| - |bs|)
  {
    var b1 := bs[k := bs[k].(used := true)];
    var taken := SplitAt(b1, k, size);
    if k == |b1| - 1 || b1[k].size - size <= BLOCKSIZ + 8 {
      assert taken == b1;
    } else {
      assert SplitOf(b1, taken, k, size);
      forall i | k < i < |bs| ensures taken[i + 1] == bs[i] { assert taken[i + 1] == b1[i]; }
    }
  }

  lemma ReuseFreeSameLive(bs: seq<Block>, k: nat, size: nat)
    requires Tiled(bs) && NoEmptyBlock(bs) && size > 0 && size % 8 == 0
    requires k < |bs| && Fits(bs[k], size, 0)
    ensures var taken := SplitAt(bs[k := bs[k].(used := true)], k, size);
            && taken[k].used && SameLive(bs, Freed(taken, k))
            && (FreeSafe(taken, k) <==> !Wedged(bs, k, size))
            && (Coalesced(bs) ==> Freed(taken, k) == bs)
  {
    TakeThenFree(bs, k, size);
    TakeGood(bs, k, size, 0);
    SplitTakes(bs, k, size);
    var taken := SplitAt(bs[k := bs[k].(used := true)], k, size);
    TakeFreeSameLive(bs, taken, k, |taken| - |bs|);
  }

  /**
   Allocating without alignment and freeing again, on every sound heap: the same allocations are
   live, and the free is safe exactly when the block found is not wedged between free ones.
   */
  lemma AllocFreeSameLive(bs: seq<Block>, size: nat)
    requires Tiled(bs) && NoEmptyBlock(bs) && size > 0 && size % 8 == 0
    ensures var placed := Placed(bs, false, size, 0, 0);
            && placed.0[placed.1].used && SameLive(bs, Freed(placed.0, placed.1))
            && (FreeSafe(placed.0, placed.1) <==> !WedgedReuse(bs, size, 0))
            && (Coalesced(bs) ==> !WedgedReuse(bs, size, 0) && Coalesced(Freed(placed.0, placed.1)))
  {
    if Pristine(bs) {
      assert Placed(bs, false, size, 0, 0).0 == [Block(HEAP_BASE, size, true)];
    } else {
      WalkIsFirstFit(bs, false, size, 0, 0);
      var k := FirstFit(bs, size, 0, 0);
      if Coalesced(bs) { CoalescedNotWedged(bs, size, 0); }
      if k < |bs| {
        ReuseFreeSameLive(bs, k, size);
      } else {
        ExtendFreeSameLive(bs, size);
      }
    }
  }

  lemma ExtendFreeSameLive(bs: seq<Block>, size: nat)
    requires Tiled(bs) && NoEmptyBlock(bs) && size > 0 && size % 8 == 0 && !Pristine(bs)
    ensures var b1 := Extend(bs, size, 0);
            && FreeSafe(b1, |bs|) && SameLive(bs, Freed(b1, |bs|))
            && (Coalesced(bs) ==> Coalesced(Freed(b1, |bs|)))
  {
    var b1 := Extend(bs, size, 0);
    var added := Block(Last(bs).End(), size, true);
    assert b1 == bs + [added];
    ExtendGood(bs, size, 0);
    FreedKeepsOthers(b1, |bs|);
    OrderedAll(bs);
    if Coalesced(bs) {
      ExtendCoalesced(bs, size, 0);
      FreedCoalesced(b1, |bs|);
    }
  }

  // ----- fs_finddir and fs_lookup ---------------------------------------------------------------------

  /** `strcpy` into a fresh buffer of `strlen + 1` characters. */
  method Copied(path: string) returns (buf: array<char>)
    requires '\0' !in path
    ensures fresh(buf) && buf[..] == path + ['\0']
    ensures Terminated(buf[..], 0) && Text(buf[..], 0) == path
  {
    buf := new char[|path| + 1](i requires 0 <= i <= |path| => if i < |path| then path[i] else '\0');
    assert buf[..] == path + ['\0'];
    EndOfUnique(buf[..], 0, |path|);
  }

  class Vfs {
    const heap: KernelHeap
    const tok: Tokeniser
    var fsRoot: Inode
    var errno: int

    constructor (heap: KernelHeap, tok: Tokeniser, root: Inode)
      ensures this.heap == heap && this.tok == tok && fsRoot == root
    {
      this.heap, this.tok, fsRoot, errno := heap, tok, root, 0;
    }

    /** The search loop of the RAM file system. */
    method RamfsFinddir(node: Inode, name: string) returns (r: Option<Inode>)
      requires node.impl <= |node.ptr|
      ensures var k := IndexOf(node.ptr[..node.impl], name, 0);
              r == if k < node.impl then Some(node.ptr[k]) else None
    {
      for i := 0 to node.impl
        invariant IndexOf(node.ptr[..node.impl], name, i) == IndexOf(node.ptr[..node.impl], name, 0)
      {
        if node.ptr[i].name == name {
          return Some(node.ptr[i]);
        }
      }
      return None;
    }

    method FsFinddir(node: Inode, name: string) returns (r: Option<Inode>)
      requires WellFormed(node)
      modifies this`errno
      ensures r == Child(node, name)
      ensures errno == if Refused(node.flags) then 20 else old(errno)
    {
      if Refused(node.flags) {
        errno := ENOTDIR;
        return None;
      }
      if node.finddir {
        r := RamfsFinddir(node, name);
      } else {
        r := None;
      }
    }

    /** The entry that the RAM file system lists at an index. */
    method RamfsReaddir(node: Inode, index: nat) returns (r: Option<Dirent>)
      requires node.impl <= |node.ptr|
      ensures r == if index < node.impl then Some(Dirent(node.ptr[index].name, index)) else None
    {
      if index >= node.impl {
        return None;
      }
      r := Some(Dirent(node.ptr[index].name, index));
    }

    /**
     Listing a directory: every index below the count yields an entry, and looking its name up leads
     back to the node at that index exactly when no earlier entry has the same name.
     */
    method FsReaddir(node: Inode, index: nat) returns (r: Option<Dirent>)
      requires WellFormed(node)
      modifies this`errno
      ensures r.Some? <==> !Refused(node.flags) && node.readdir && index < node.impl
      ensures r.Some? ==>
                && r.value.ino == index && r.value.name == node.ptr[index].name
                && (node.finddir && (forall j | 0 <= j < index :: node.ptr[j].name != r.value.name) ==>
                      Child(node, r.value.name) == Some(node.ptr[index]))
                && (IndexOf(node.ptr[..node.impl], r.value.name, 0) == index <==>
                    forall j | 0 <= j < index :: node.ptr[j].name != r.value.name)
      ensures errno == if Refused(node.flags) then 20 else old(errno)
    {
      if Refused(node.flags) {
        errno := ENOTDIR;
        return None;
      }
      if node.readdir {
        r := RamfsReaddir(node, index);
        if index < node.impl { ListedIsFound(node.ptr[..node.impl], 0, index); }
      } else {
        r := None;
      }
    }

    /**
     Path lookup is the fold of directory search over the split path. The same allocations are live
     afterwards, and the heap stays sound exactly when the block lent to it was not wedged between
     free ones.
     */
    method FsLookup(path: string) returns (r: Option<Inode>)
      requires path != "" && '\0' !in path && WellFormed(fsRoot) && heap.Valid()
      modifies this`errno, heap, tok
      ensures r == Resolve(fsRoot, path)
      ensures SameLive(old(heap.blocks), heap.blocks)
      ensures heap.Valid() <==> !WedgedReuse(old(heap.blocks), RoundUp8(|path| + 1), 0)
      ensures Coalesced(old(heap.blocks)) ==> heap.Valid() && Coalesced(heap.blocks)
    {
      var size := |path| + 1;
      ghost var k;
      var tmp;
      tmp, k := Borrow(size);
      var buf, ptr := FirstComponent(path);
      if ptr == -1 {
        heap.Kfree(tmp, k);
        r := FsFinddir(fsRoot, path);
        return;
      }
      r := FollowAll(buf, ptr);
      heap.Kfree(tmp, k);
    }

    /** Every component, from the root. */
    method FollowAll(buf: array<char>, ptr: int) returns (node: Option<Inode>)
      requires tok.saved == buf && tok.Resumable() && 0 <= ptr <= buf.Length && WellFormed(fsRoot)
      modifies this`errno, tok, buf
      ensures node == Descend(Some(fsRoot), old([Text(buf[..], ptr)] + TokensAt(buf[..], tok.at, SEPARATOR)))
    {
      ghost var names := [Text(buf[..], ptr)] + TokensAt(buf[..], tok.at, SEPARATOR);
      assert names[1..] == TokensAt(buf[..], tok.at, SEPARATOR);
      ChildWellFormed(fsRoot, Text(buf[..], ptr));
      node := FsFinddir(fsRoot, Text(buf[..], ptr));
      node := FollowRest(node, buf);
    }

    /** The copy of the path and the first call of `strtok` on it. */
    method FirstComponent(path: string) returns (buf: array<char>, ptr: int)
      requires '\0' !in path
      modifies tok
      ensures fresh(buf) && tok.saved == buf && tok.Resumable()
      ensures if ptr == -1 then Tokens(path, SEPARATOR) == []
              else 0 <= ptr <= buf.Length &&
                   Tokens(path, SEPARATOR) == [Text(buf[..], ptr)] + TokensAt(buf[..], tok.at, SEPARATOR)
    {
      buf := Copied(path);
      TokensAtText(buf[..], 0, SEPARATOR);
      ptr := tok.Strtok(buf, 0, SEPARATOR);
    }

    /** The temporary allocation of `fs_lookup`, and what freeing it again will leave. */
    method Borrow(size: nat) returns (tmp: nat, ghost k: nat)
      requires size > 0 && heap.Valid()
      modifies heap
      ensures heap.Valid() && heap.Allocated(tmp, k) && SameLive(old(heap.blocks), Freed(heap.blocks, k))
      ensures FreeSafe(heap.blocks, k) <==> !WedgedReuse(old(heap.blocks), RoundUp8(size), 0)
      ensures Coalesced(old(heap.blocks)) ==> FreeSafe(heap.blocks, k) && Coalesced(Freed(heap.blocks, k))
    {
      ghost var m, bs := heap.mem, heap.blocks;
      StaleOnlyMisfit(m, bs, 0);
      AllocFreeSameLive(bs, RoundUp8(size));
      tmp := heap.Kmalloca(size, 0);
      k := Placed(bs, Stale(m, bs, 0), RoundUp8(size), 0, 0).1;
    }

    /** The loop of `fs_lookup` over the remaining components. */
    method FollowRest(first: Option<Inode>, buf: array<char>) returns (node: Option<Inode>)
      requires tok.saved == buf && tok.Resumable()
      requires first.Some? ==> WellFormed(first.value)
      modifies this`errno, tok, buf
      ensures node == Descend(first, TokensAt(old(buf[..]), old(tok.at), SEPARATOR))
    {
      node := first;
      ghost var names := TokensAt(buf[..], tok.at, SEPARATOR);
      ghost var all := names;
      var ptr := tok.Strtok(null, 0, SEPARATOR);
      while ptr != -1 && node.Some?
        invariant tok.saved == buf && tok.Resumable()
        invariant node.Some? ==> WellFormed(node.value)
        invariant Descend(node, names) == Descend(first, all)
        invariant if ptr == -1 then names == []
                  else 0 <= ptr <= buf.Length && names == [Text(buf[..], ptr)] + TokensAt(buf[..], tok.at, SEPARATOR)
        decreases |names|
      {
        ChildWellFormed(node.value, Text(buf[..], ptr));
        node := FsFinddir(node.value, Text(buf[..], ptr));
        names := names[1..];
        ptr := tok.Strtok(null, 0, SEPARATOR);
      }
    }
  }
}
