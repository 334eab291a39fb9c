/**
  The two host programs together: a file put into an image with cohfsw.py and read back
  with cohfs.py, and what one write does to the other files.
 */
module ImageSession {
  import opened Layout
  import opened FreeChain
  import opened TreeSets
  import opened CohFs
  import opened ImageTree
  import opened ImageWriter

  /** All pointers of a partitioned volume stay inside the image. */
  lemma {:induction false} PartitionGood(v: Volume, free: set<nat>, lo: nat, hi: nat, i: nat)
    requires Partition(v, free, lo, hi) && i < |v.a|
    ensures GoodTree(v.d, v.a[i])
  {
    PathGood(v, free, lo, hi, i, Slot(10));
    PathGood(v, free, lo, hi, i, Slot(11));
    PathGood(v, free, lo, hi, i, Slot(12));
  }

  lemma {:induction false} PathGood(v: Volume, free: set<nat>, lo: nat, hi: nat, i: nat, p: Path)
    requires Partition(v, free, lo, hi) && InVolume(v, i, p)
    ensures GoodPointers(v.d, Node(v, i, p), Height(p))
    decreases Height(p)
  {
    if Height(p) > 1 && Node(v, i, p) != 0 {
      forall k: nat | k < NIND ensures GoodPointers(v.d, Ptr(v.d[Node(v, i, p)], k), Height(p) - 1) {
        UnderHeight(p, k);
        assert Node(v, i, Under(p, k)) == Ptr(v.d[Node(v, i, p)], k);
        PathGood(v, free, lo, hi, i, Under(p, k));
      }
    }
  }

  /** Inode `ino` can be read by cohfs.py: it is a file without gaps. */
  ghost predicate Readable(img: Image, ino: nat) {
    && HasInode(img, ino) && InodeOf(img, ino).size <= MAXBYTES
    && NoGap(InodeOf(img, ino).addr, (InodeOf(img, ino).size + BSIZE - 1) / BSIZE)
  }

  /** data is the beginning of file i. */
  ghost predicate BytesAre(v: Volume, i: nat, data: seq<byte>) {
    i < |v.a| && forall x: nat :: x < |data| ==> x < MAXBYTES && data[x] == FileByte(v, i, x)
  }

  lemma {:induction false} ByteIs(v: Volume, i: nat, data: seq<byte>, x: nat)
    requires BytesAre(v, i, data) && x < |data|
    ensures i < |v.a| && x < MAXBYTES && data[x] == FileByte(v, i, x)
  {
    var b := data[x];
    assert x < MAXBYTES;
  }

  /** What cat must give for file i with this inode: its bytes, or nothing for a device. */
  ghost predicate CatOf(v: Volume, i: nat, ip: Inode, data: seq<byte>) {
    if HasContents(ip.mode) then |data| == ip.size && BytesAre(v, i, data) else data == []
  }

  /** cohfs.py cat on a readable inode gives the file's bytes, and on a device nothing. */
  method Cat(fs: FSW, ino: nat) returns (data: seq<byte>)
    requires fs.Valid() && 1 <= ino <= fs.Inodes() && Readable(fs.img, ino)
    ensures CatOf(fs.Vol(), ino - 1, InodeOf(fs.img, ino), data)
  {
    hide Partition, FSW.FreeOK, FileByte, DecodeInode;
    fs.Bounds();
    InodesFit(fs.img, fs.isize);
    AddrsAt(fs.img, fs.Inodes());
    PartitionGood(fs.Vol(), fs.Free(), fs.isize, fs.fsize, ino - 1);
    ghost var v := fs.Vol();
    assert AddrIs(fs.img, ino, v.a[ino - 1]);
    var ip := InodeOf(fs.img, ino);
    ghost var blocks;
    data, blocks := Data(fs.img, ip);
    if !HasContents(ip.mode) {
      return;
    }
    DataIsFile(v, ino - 1, ip.size, blocks, data);
  }

  /** put and save, then cat of the same file from the saved image: the bytes come back as they
      were given, whatever the file held before, unless its mode makes it a device; and every
      other readable file reads as it did. */
  method PutThenCat(fs: FSW, ino: nat, ip: Inode, data: seq<byte>, t: nat, other: nat)
    returns (ok: bool, got: seq<byte>, before: seq<byte>, after: seq<byte>)
    requires fs.Valid() && fs.nfree > 0 && 1 <= ino <= fs.Inodes() && 1 <= other <= fs.Inodes() && other != ino
    requires Encodable(ip) && HasInode(fs.img, ino) && ip.addr == InodeOf(fs.img, ino).addr
    requires Readable(fs.img, other)
    modifies fs
    ensures ok <==> (BlocksFor(|data|) <= LIMIT && Need(BlocksFor(|data|))
                     <= |old(fs.Free())| + |SlotTrees(old(fs.D()), ip.addr, NADDR)|)
    ensures ok ==> fs.Valid() && Mountable(fs.img, fs.chain)
    ensures ok ==> got == (if HasContents(ip.mode) then data else []) && after == before
  {
    hide Partition, FSW.FreeOK, FileByte, DecodeInode, SlotTrees, Need, Replaced, CatOf, Mountable, NoGap, HasContents;
    got, after := [], [];
    before := Cat(fs, other);
    fs.Bounds();
    ghost var v := fs.Vol();
    InodesFit(fs.img, fs.isize);
    ghost var np;
    ok, np := fs.StoreFile(ino, ip, data, t);
    if ok {
      InodesFit(fs.img, fs.isize);
      AddrsAt(fs.img, fs.Inodes());
      ghost var w := fs.Vol();
      ReplacedNoGap(v, w, ino - 1, data);
      assert AddrIs(fs.img, ino, w.a[ino - 1]);
      got, after := SaveAndCat(fs, ino, other);
      NewBytes(v, w, ino - 1, data, np, got);
      OtherBytes(v, w, ino - 1, other - 1, data, InodeOf(fs.img, other), before, after);
    }
  }

  /** save, and cat of two files from the saved image: what the volume held before. */
  method SaveAndCat(fs: FSW, ino: nat, other: nat) returns (got: seq<byte>, after: seq<byte>)
    requires fs.Valid() && 1 <= ino <= fs.Inodes() && 1 <= other <= fs.Inodes()
    requires Readable(fs.img, ino) && Readable(fs.img, other)
    modifies fs
    ensures fs.Valid() && Mountable(fs.img, fs.chain)
    ensures HasInode(fs.img, other) && InodeOf(fs.img, other) == InodeOf(old(fs.img), other)
    ensures CatOf(old(fs.Vol()), ino - 1, InodeOf(old(fs.img), ino), got)
    ensures CatOf(old(fs.Vol()), other - 1, InodeOf(old(fs.img), other), after)
  {
    hide Partition, FSW.FreeOK, FileByte, DecodeInode, SameFiles, SavedSizes, CatOf, Mountable, NoGap, SuperSizes;
    fs.Bounds();
    InodesFit(fs.img, fs.isize);
    ghost var w := fs.Vol();
    fs.Save();
    InodesFit(fs.img, fs.isize);
    ghost var u := fs.Vol();
    var mounted := new FSW(fs.img, fs.chain);
    SizesAgree(fs.img, fs.isize, mounted.isize, fs.fsize, mounted.fsize);
    got := Cat(mounted, ino);
    after := Cat(mounted, other);
    SameCat(w, u, ino - 1, InodeOf(fs.img, ino), got);
    SameCat(w, u, other - 1, InodeOf(fs.img, other), after);
  }

  lemma {:induction false} SameCat(v: Volume, w: Volume, i: nat, ip: Inode, data: seq<byte>)
    requires SameFiles(v, w) && CatOf(w, i, ip, data)
    ensures CatOf(v, i, ip, data)
  {
    if HasContents(ip.mode) {
      SameBytes(v, w, i, data);
    }
  }

  lemma {:induction false} SameBytes(v: Volume, w: Volume, i: nat, data: seq<byte>)
    requires SameFiles(v, w) && BytesAre(w, i, data)
    ensures BytesAre(v, i, data)
  {
    if data != [] {
      ByteIs(w, i, data, |data| - 1);
    }
    forall x: nat | x < |data| ensures data[x] == FileByte(v, i, x) {
      ByteIs(w, i, data, x);
      var block := FileBlock(w, i, x / 512);
      assert FileBlock(v, i, x / 512) == block && data[x] == block[x % 512];
    }
  }

  lemma SizesAgree(img: Image, a: nat, b: nat, c: nat, d: nat)
    requires SavedSizes(img, a, c) && SavedSizes(img, b, d)
    ensures a == b && c == d
  {}

  lemma {:induction false} ReplacedNoGap(v: Volume, w: Volume, i: nat, data: seq<byte>)
    requires Replaced(v, w, i, data)
    ensures |w.a| == |v.a| && i < |w.a| && NoGap(w.a[i], BlocksFor(|data|)) && |data| <= MAXBYTES
  {}

  lemma {:induction false} NewBytes(v: Volume, w: Volume, i: nat, data: seq<byte>, ip: Inode, got: seq<byte>)
    requires Replaced(v, w, i, data) && CatOf(w, i, ip, got) && ip.size == |data|
    ensures got == if HasContents(ip.mode) then data else []
  {
    if HasContents(ip.mode) {
      forall x: nat | x < |data| ensures got[x] == data[x] {
        ByteIs(w, i, got, x);
      }
    }
  }

  lemma {:induction false} OtherBytes(v: Volume, w: Volume, i: nat, j: nat, data: seq<byte>, ip: Inode, a: seq<byte>, b: seq<byte>)
    requires Replaced(v, w, i, data) && j < |v.a| && j != i
    requires CatOf(v, j, ip, a) && CatOf(w, j, ip, b)
    ensures b == a
  {
    if HasContents(ip.mode) {
      forall x: nat | x < |a| ensures b[x] == a[x] {
        ByteIs(v, j, a, x);
        ByteIs(w, j, b, x);
        assert FileBlock(w, j, x / 512) == FileBlock(v, j, x / 512);
      }
    }
  }

  // ------------------------------------------------------- bfree on an empty list

  /** When no block is free, bfree makes the block the whole list and writes nothing into it,
      although balloc will read the next batch from it.  The result is a proper chain holding
      just that block if and only if the block happened to begin with a zero count. */
  lemma {:induction false} FreeIntoEmptyExactly(d: Disk, b: nat, lo: nat, hi: nat)
    requires lo <= b < hi && b < |d|
    ensures (exists c :: ListOf(c) == [b] && ChainOK(d, c, lo, hi) && FreeSet(c) == {b})
            <==> Word(d[b], 0) == 0
  {
    if Word(d[b], 0) == 0 {
      var c := Batch([b], Empty);
      assert Elements([b]) == {b} && FreeSet(c) == Elements([b]) + FreeSet(Empty);
      assert ListOf(c) == [b] && ChainOK(d, c, lo, hi) && FreeSet(c) == {b};
    }
    forall c | ListOf(c) == [b] && ChainOK(d, c, lo, hi) && FreeSet(c) == {b}
      ensures Word(d[b], 0) == 0
    {
      ChainHead(d, c.next, lo, hi);
      assert b in c.list;
      forall x | x in FreeSet(c.next) ensures x in FreeSet(c) {}
    }
  }

  /** Freed into an empty list, a block that begins with the byte 7 is no chain: balloc, once it
      has handed the block out, would take the next 7 entries from the file's old bytes. */
  lemma {:induction false} FreeIntoEmptyFails()
    ensures var d: Disk := [ZERO, ZERO, ZERO[0 := 7]];
            Word(d[2], 0) == 7 && !exists c :: ListOf(c) == [2] && ChainOK(d, c, 2, 3) && FreeSet(c) == {2}
  {
    var d: Disk := [ZERO, ZERO, ZERO[0 := 7]];
    FreeIntoEmptyExactly(d, 2, 2, 3);
    assert ZERO[1] == 0;
  }
}
