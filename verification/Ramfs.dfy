/** The RAM file system: a directory of the files found in a raw disk image, and the devices. */
module Ramfs {
  import opened Blocks
  import opened HeapTheory
  import opened Kmalloc
  import opened Strtok
  import opened FileSystem

  const RD_HEADSIG := 0xD158
  const RD_FILESIG := 0xDEADF11E
  const HEADER := 4
  const FILE_HEADER := 44
  const NAME_FIELD := 32
  /** `sizeof(struct inode)`. */
  const INODE := 76

  // ----- The image ---------------------------------------------------------------------------

  /** A disk image, byte by byte. */
  type Image = s: seq<char> | forall i | 0 <= i < |s| :: s[i] as int < 0x100

  function Le16(img: Image, o: nat): nat
    requires o + 2 <= |img|
  {
    img[o] as int + 0x100 * img[o + 1] as int
  }

  function Le32(img: Image, o: nat): nat
    requires o + 4 <= |img|
  {
    Le16(img, o) + 0x10000 * Le16(img, o + 2)
  }

  function NFiles(img: Image): nat
    requires |img| >= HEADER
  {
    Le16(img, 2)
  }

  function FileHeader(i: nat): nat {
    HEADER + FILE_HEADER * i
  }

  /** Every file header is present, marked and has a terminated name. */
  predicate GoodImage(img: Image) {
    && |img| >= HEADER
    && FileHeader(NFiles(img)) <= |img|
    && forall i | 0 <= i < NFiles(img) :: GoodHeader(img, i)
  }

  predicate GoodHeader(img: Image, i: nat) {
    && FileHeader(i) + FILE_HEADER <= |img|
    && Le32(img, FileHeader(i)) == RD_FILESIG
    && EndOf(img, FileHeader(i) + 4) < FileHeader(i) + 4 + NAME_FIELD
  }

  function FileInode(img: Image, i: nat): Inode
    requires GoodHeader(img, i)
  {
    Inode(Text(img, FileHeader(i) + 4), FS_FILE, Le32(img, FileHeader(i) + 40), i, Le32(img, FileHeader(i) + 36),
          false, false, [])
  }

  function DeviceInode(name: string, number: nat): Inode {
    Inode(name, FS_CHAR, 0, 0, number, false, false, [])
  }

  /** The directory of devices that closes the root directory. */
  function DevDirectory(ino: nat): Inode {
    Inode("dev", FS_DIR, 0, ino, 2, true, true, [DeviceInode("tty", 0), DeviceInode("ramdisk", 1)])
  }

  function Entries(img: Image): seq<Inode>
    requires GoodImage(img)
  {
    seq(NFiles(img), i requires 0 <= i < NFiles(img) => FileInode(img, i)) + [DevDirectory(NFiles(img))]
  }

  function Root(img: Image): Inode
    requires GoodImage(img)
  {
    Inode("ramdisk", FS_DIR, 0, 0, NFiles(img) + 1, true, true, Entries(img))
  }

  lemma RootWellFormed(img: Image)
    requires GoodImage(img)
    ensures WellFormed(Root(img))
  {
    var dev := DevDirectory(NFiles(img));
    assert WellFormed(dev.ptr[0]) && WellFormed(dev.ptr[1]);
    assert WellFormed(dev);
    forall i | 0 <= i < |Entries(img)| ensures WellFormed(Entries(img)[i]) {
      if i < NFiles(img) { assert Entries(img)[i] == FileInode(img, i); }
    }
  }

  // ----- The same byte by byte ---------------------------------------------------------------------

  /** The least significant byte comes first. */
  lemma LittleEndian(img: Image, o: nat)
    requires o + 4 <= |img|
    ensures Le16(img, o) == img[o] as int + 0x100 * img[o + 1] as int
    ensures Le32(img, o) ==
            img[o] as int + 0x100 * img[o + 1] as int + 0x10000 * img[o + 2] as int + 0x1000000 * img[o + 3] as int
  {
  }

  /** The signatures in memory: 58 D1 for the image, 1E F1 AD DE for a file. */
  lemma Signatures(img: Image, o: nat)
    requires o + 4 <= |img|
    ensures Le16(img, o) == RD_HEADSIG <==> img[o] as int == 0x58 && img[o + 1] as int == 0xD1
    ensures Le32(img, o) == RD_FILESIG <==>
            img[o] as int == 0x1E && img[o + 1] as int == 0xF1 && img[o + 2] as int == 0xAD && img[o + 3] as int == 0xDE
  {
    var a, b, c, d := img[o] as int, img[o + 1] as int, img[o + 2] as int, img[o + 3] as int;
    assert a < 0x100 && b < 0x100 && c < 0x100 && d < 0x100;
  }

  /** A file header is 44 bytes, marked, with a name that ends within 32 bytes. */
  lemma HeaderBytes(img: Image, i: nat)
    ensures GoodHeader(img, i) <==>
            var h := 4 + 44 * i;
            && h + 44 <= |img|
            && img[h] as int == 0x1E && img[h + 1] as int == 0xF1 && img[h + 2] as int == 0xAD && img[h + 3] as int == 0xDE
            && exists k | h + 4 <= k < h + 36 :: img[k] == '\0'
  {
    var h := 4 + 44 * i;
    assert FileHeader(i) == h;
    if h + 44 <= |img| {
      Signatures(img, h);
      EndOfSpec(img, h + 4);
    }
  }

  /** The node of a regular file (type 1) whose 44-byte header is at h: name at 4, offset at 36, size at 40. */
  predicate HoldsFile(img: Image, h: nat, i: nat, node: Inode)
    requires h + 44 <= |img|
  {
    && node.name == Text(img, h + 4) && node.flags == 1 && node.ino == i
    && node.impl == img[h + 36] as int + 0x100 * img[h + 37] as int + 0x10000 * img[h + 38] as int + 0x1000000 * img[h + 39] as int
    && node.size == img[h + 40] as int + 0x100 * img[h + 41] as int + 0x10000 * img[h + 42] as int + 0x1000000 * img[h + 43] as int
    && !node.finddir && !node.readdir
  }

  /** A directory (type 2) with a node for each of the files counted in bytes 2 and 3, and one for the devices. */
  predicate HoldsImage(img: Image, root: Inode)
    requires |img| >= 4
  {
    var n := img[2] as int + 0x100 * img[3] as int;
    && 4 + 44 * n <= |img|
    && root.name == "ramdisk" && root.flags == 2 && root.finddir && root.readdir
    && root.impl == n + 1 && |root.ptr| == n + 1
    && (forall i | 0 <= i < n :: HoldsFile(img, 4 + 44 * i, i, root.ptr[i]))
    && var dev := root.ptr[n];
       && dev.name == "dev" && dev.flags == 2 && dev.ino == n && dev.finddir && dev.readdir
       && dev.impl == 2 && |dev.ptr| == 2
  }

  lemma RootHoldsImage(img: Image)
    requires GoodImage(img)
    ensures HoldsImage(img, Root(img))
  {
    LittleEndian(img, 0);
    var n := NFiles(img);
    assert FileHeader(n) == 4 + 44 * n && n == img[2] as int + 0x100 * img[3] as int;
    forall i | 0 <= i < n ensures HoldsFile(img, 4 + 44 * i, i, Root(img).ptr[i]) {
      assert GoodHeader(img, i) && FileHeader(i) == 4 + 44 * i;
      LittleEndian(img, 4 + 44 * i + 36);
      LittleEndian(img, 4 + 44 * i + 40);
      assert Root(img).ptr[i] == FileInode(img, i);
    }
  }

  // ----- Listing and looking up -----------------------------------------------------------------

  predicate DistinctNames(img: Image)
    requires GoodImage(img)
  {
    && (forall j, k | 0 <= j < k < NFiles(img) :: FileInode(img, j).name != FileInode(img, k).name)
    && (forall j | 0 <= j < NFiles(img) :: FileInode(img, j).name != "dev")
  }

  /** With distinct file names, none of them "dev", every listed name leads back to its entry. */
  lemma RootLookup(img: Image, i: nat)
    requires GoodImage(img) && i <= NFiles(img) && DistinctNames(img)
    ensures WellFormed(Root(img))
    ensures Child(Root(img), Entries(img)[i].name) == Some(Entries(img)[i])
    ensures Entries(img)[NFiles(img)] == DevDirectory(NFiles(img))
  {
    RootWellFormed(img);
    var entries := Entries(img);
    assert entries[..Root(img).impl] == entries;
    forall j | 0 <= j < i ensures entries[j].name != entries[i].name {
      assert entries[j] == FileInode(img, j);
      if i < NFiles(img) { assert entries[i] == FileInode(img, i); }
    }
    ListedIsFound(entries, 0, i);
  }

  lemma KeepsLiveTrans(b0: seq<Block>, b1: seq<Block>, b2: seq<Block>)
    requires KeepsLive(b0, b1) && KeepsLive(b1, b2)
    ensures KeepsLive(b0, b2)
  {
    forall i | 0 <= i < |b0| && b0[i].used ensures HasLive(b2, b0[i].addr, b0[i].size) {
      var j :| 0 <= j < |b1| && b1[j].used && b1[j].addr == b0[i].addr && b1[j].size >= b0[i].size;
      assert HasLive(b2, b1[j].addr, b1[j].size);
    }
  }

  lemma LiveStays(bs: seq<Block>, bs': seq<Block>, a: int, n: int)
    requires KeepsLive(bs, bs') && HasLive(bs, a, n)
    ensures HasLive(bs', a, n)
  {
    var i :| 0 <= i < |bs| && bs[i].used && bs[i].addr == a && bs[i].size >= n;
    assert HasLive(bs', bs[i].addr, bs[i].size);
  }

  /** Any path whose one component is the name of file i resolves to that file. */
  lemma FileByPath(img: Image, path: string, i: nat)
    requires GoodImage(img) && DistinctNames(img) && i < NFiles(img)
    requires Tokens(path, SEPARATOR) == [FileInode(img, i).name]
    ensures WellFormed(Root(img)) && Resolve(Root(img), path) == Some(FileInode(img, i))
  {
    RootLookup(img, i);
    assert Entries(img)[i] == FileInode(img, i);
    var name := FileInode(img, i).name;
    assert Descend(Some(Root(img)), [name]) == Descend(Child(Root(img), name), []);
  }

  /** The devices: /dev/tty is character device (type 3) number 0, /dev/ramdisk number 1. */
  lemma DevicesByPath(img: Image)
    requires GoodImage(img) && DistinctNames(img)
    ensures WellFormed(Root(img))
    ensures var tty := Resolve(Root(img), "/dev/tty");
            tty.Some? && tty.value.name == "tty" && tty.value.flags == 3 && tty.value.impl == 0
    ensures var disk := Resolve(Root(img), "/dev/ramdisk");
            disk.Some? && disk.value.name == "ramdisk" && disk.value.flags == 3 && disk.value.impl == 1
  {
    RootLookup(img, NFiles(img));
    DevicePaths();
    DeviceByPath(img, "tty", 0);
    DeviceByPath(img, "ramdisk", 1);
  }

  lemma DevicePaths()
    ensures "/" + "dev" + "/" + "tty" == "/dev/tty"
    ensures "/" + "dev" + "/" + "ramdisk" == "/dev/ramdisk"
  {
  }

  lemma DeviceByPath(img: Image, name: string, number: nat)
    requires GoodImage(img) && DistinctNames(img) && number < 2 && name == ["tty", "ramdisk"][number]
    ensures WellFormed(Root(img))
    ensures Resolve(Root(img), "/" + "dev" + "/" + name) == Some(DeviceInode(name, number))
  {
    RootLookup(img, NFiles(img));
    var root, dev := Root(img), DevDirectory(NFiles(img));
    OneComponent("dev");
    OneComponent(name);
    TokensOfJoin("", '/', "dev", SEPARATOR);
    assert "" + ['/'] + "dev" == "/" + "dev";
    NoTokens();
    assert Tokens("/" + "dev", SEPARATOR) == [] + ["dev"] == ["dev"];
    ResolveJoin(root, "/" + "dev", name);
    assert Descend(Some(root), ["dev"]) == Descend(Child(root, "dev"), []) == Some(dev);
    assert Child(dev, name) == Some(DeviceInode(name, number)) by {
      var entries := dev.ptr[..2];
      assert entries == dev.ptr;
      assert IndexOf(entries, name, 0) == number by {
        assert IndexOf(entries, name, 0) == if number == 0 then 0 else IndexOf(entries, name, 1);
      }
    }
    assert Descend(Some(dev), [name]) == Descend(Child(dev, name), []);
  }

  /** A name without separators is its own one component. */
  lemma OneComponent(name: string)
    requires name != "" && '/' !in name
    ensures Tokens(name, SEPARATOR) == [name]
  {
    assert forall k | 0 <= k < |name| :: name[k] !in "/";
    StopUnique(name, "/", 0, |name|, |name|);
    assert Skip(name, "/", 0, |name|) == 0;
    assert name[0..|name|] == name;
    assert TokensIn(name, "/", |name|, |name|) == [];
  }

  // ----- Mounting and reading --------------------------------------------------------------------

  class Ramdisk {
    const image: Image
    const heap: KernelHeap
    var offset: nat

    constructor (image: Image, heap: KernelHeap)
      ensures this.image == image && this.heap == heap
    {
      this.image, this.heap, offset := image, heap, 0;
    }

    /** `dev_read` after `dev_seek`: copies len bytes of the image and moves the device offset on. */
    method ReadAt(from: nat, buf: array<char>, at: nat, len: nat)
      requires from + len <= |image| && at + len <= buf.Length
      modifies this`offset, buf
      ensures offset == from + len
      ensures buf[..] == old(buf[..at]) + image[from..from + len] + old(buf[at + len..])
    {
      offset := from;
      forall i | 0 <= i < len {
        buf[at + i] := image[from + i];
      }
      offset := offset + len;
    }

    /**
     ramfs_init: NULL for a bad signature, otherwise the root of the image. The inodes of the root,
     of its files and of the devices are allocated, which leaves every other allocation live.
     */
    method Init() returns (root: Option<Inode>)
      requires |image| >= HEADER && heap.Valid()
      requires Le16(image, 0) == RD_HEADSIG ==> GoodImage(image)
      modifies heap
      ensures root == if Le16(image, 0) != RD_HEADSIG then None else Some(Root(image))
      ensures root.Some? <==> image[0] as int == 0x58 && image[1] as int == 0xD1
      ensures root.Some? ==> HoldsImage(image, root.value)
      ensures heap.Valid() && KeepsLive(old(heap.blocks), heap.blocks)
      ensures root.None? ==> heap.mem == old(heap.mem) && heap.blocks == old(heap.blocks)
    {
      Signatures(image, 0);
      if Le16(image, 0) != RD_HEADSIG {
        return None;
      }
      RootHoldsImage(image);
      var n := NFiles(image);
      var rootAt, filesAt, devicesAt := MakeInodes(n);
      var files: seq<Inode> := [];
      for i := 0 to n
        invariant |files| == i && forall j | 0 <= j < i :: files[j] == FileInode(image, j)
      {
        assert GoodHeader(image, i);
        files := files + [FileInode(image, i)];
      }
      var entries := files + [DevDirectory(n)];
      assert entries == Entries(image);
      root := Some(Inode("ramdisk", FS_DIR, 0, 0, n + 1, true, true, entries));
    }

    /** The allocations of `ramfs_init` and `devfs_init`, 76 bytes a node: the root, its entries, and two devices. */
    method MakeInodes(n: nat) returns (root: nat, files: nat, devices: nat)
      requires heap.Valid()
      modifies heap
      ensures heap.Valid() && KeepsLive(old(heap.blocks), heap.blocks)
      ensures HasLive(heap.blocks, root - 16, 76) && HasLive(heap.blocks, files - 16, 76 * (n + 1))
      ensures HasLive(heap.blocks, devices - 16, 152)
    {
      ghost var b0 := heap.blocks;
      root := heap.KmallocBytes(INODE);
      ghost var b1 := heap.blocks;
      files := heap.KmallocBytes((n + 1) * INODE);
      KeepsLiveTrans(b0, b1, heap.blocks);
      LiveStays(b1, heap.blocks, root - BLOCKSIZ, INODE);
      ghost var b2 := heap.blocks;
      devices := heap.KmallocBytes(2 * INODE);
      KeepsLiveTrans(b0, b2, heap.blocks);
      LiveStays(b2, heap.blocks, root - BLOCKSIZ, INODE);
      LiveStays(b2, heap.blocks, files - BLOCKSIZ, (n + 1) * INODE);
    }

    /**
     Reading file i puts all its bytes, from behind the headers of the image, into buf at `off`;
     the size asked for is returned and `off` never selects a place in the file.
     */
    method Read(node: Inode, buf: array<char>, sz: nat, off: nat) returns (r: nat)
      requires GoodImage(image)
      requires FileHeader(NFiles(image)) + node.impl + node.size <= |image| && off + node.size <= buf.Length
      modifies this`offset, buf
      ensures var base := FileHeader(NFiles(image)) + node.impl;
              buf[off..off + node.size] == image[base..base + node.size]
      ensures buf[..off] == old(buf[..off]) && buf[off + node.size..] == old(buf[off + node.size..])
      ensures r == sz
    {
      ReadAt(FileHeader(NFiles(image)) + node.impl, buf, off, node.size);
      r := sz;
    }
  }

  /**
   From the image to the buffer: mounting it, looking a file's path up, and reading the node found
   delivers exactly the bytes the image holds for that file.
   */
  method MountAndRead(disk: Ramdisk, vfs: Vfs, path: string, buf: array<char>, ghost i: nat) returns (n: nat)
    requires disk.heap == vfs.heap && vfs.heap.Valid()
    requires GoodImage(disk.image) && Le16(disk.image, 0) == RD_HEADSIG && DistinctNames(disk.image)
    requires i < NFiles(disk.image) && path != "" && '\0' !in path
    requires Tokens(path, SEPARATOR) == [FileInode(disk.image, i).name]
    requires var file := FileInode(disk.image, i);
             FileHeader(NFiles(disk.image)) + file.impl + file.size <= |disk.image| && file.size <= buf.Length
    modifies disk, vfs, vfs.heap, vfs.tok, buf
    ensures HoldsImage(disk.image, vfs.fsRoot)
    ensures var img, count := disk.image, disk.image[2] as int + 0x100 * disk.image[3] as int;
            && i < count
            && var file := vfs.fsRoot.ptr[i];
               var base := 4 + 44 * count + file.impl;
               && HoldsFile(img, 4 + 44 * i, i, file)
               && n == file.size <= buf.Length && base + n <= |img|
               && buf[..n] == img[base..base + n] && buf[n..] == old(buf[n..])
  {
    FileIsHeld(disk.image, i);
    var node := MountAndFind(disk, vfs, path, i);
    n := disk.Read(node, buf, node.size, 0);
  }

  method MountAndFind(disk: Ramdisk, vfs: Vfs, path: string, ghost i: nat) returns (node: Inode)
    requires disk.heap == vfs.heap && vfs.heap.Valid()
    requires GoodImage(disk.image) && Le16(disk.image, 0) == RD_HEADSIG && DistinctNames(disk.image)
    requires i < NFiles(disk.image) && path != "" && '\0' !in path
    requires Tokens(path, SEPARATOR) == [FileInode(disk.image, i).name]
    modifies vfs, vfs.heap, vfs.tok
    ensures vfs.fsRoot == Root(disk.image) && node == FileInode(disk.image, i)
  {
    FileByPath(disk.image, path, i);
    var root := disk.Init();
    vfs.fsRoot := root.value;
    var found := vfs.FsLookup(path);
    node := found.value;
  }

  lemma FileIsHeld(img: Image, i: nat)
    requires GoodImage(img) && i < NFiles(img)
    ensures HoldsImage(img, Root(img)) && Root(img).ptr[i] == FileInode(img, i)
    ensures var count := img[2] as int + 0x100 * img[3] as int;
            i < count && FileHeader(NFiles(img)) == 4 + 44 * count && 4 + 44 * i + 44 <= |img| && HoldsFile(img, 4 + 44 * i, i, FileInode(img, i))
  {
    RootHoldsImage(img);
    assert FileHeader(i) == 4 + 44 * i && GoodHeader(img, i);
    assert HoldsFile(img, 4 + 44 * i, i, Root(img).ptr[i]);
  }
}
