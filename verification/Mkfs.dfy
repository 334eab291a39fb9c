/**
  mkfs, zerofree and the superblock of cohfsw.py: a new image is a valid filesystem whose
  blocks are handed out in ascending order, saving and loading keep it, and zeroing the
  free blocks changes nothing that is in use.
 */
module Mkfs {
  import opened Wrappers
  import opened Lists
  import opened Layout
  import opened FreeChain
  import opened TreeSets
  import opened CohFs
  import opened ImageWriter
  import opened ImageSession
  import opened Superblock

  // ----------------------------------------------------------- the new free chain

  /** lo, lo + 1, ..., hi - 1. */
  function Range(lo: nat, hi: nat): (r: seq<nat>)
    requires lo <= hi
    ensures |r| == hi - lo && forall i :: 0 <= i < |r| ==> r[i] == lo + i
    decreases hi - lo
  {
    if lo == hi then [] else [lo] + Range(lo + 1, hi)
  }

  /** hi - 1, ..., lo: a batch's entries after its link. */
  function Backward(lo: nat, hi: nat): (r: seq<nat>)
    requires lo <= hi
    ensures |r| == hi - lo && forall i :: 0 <= i < |r| ==> r[i] == hi - 1 - i
    decreases hi - lo
  {
    if lo == hi then [] else [hi - 1] + Backward(lo, hi - 1)
  }

  /** Entries before the link of a batch that starts at lo. */
  function RunOf(lo: nat, hi: nat): nat
    requires lo < hi
  {
    if hi - lo - 1 < NICFREE - 1 then hi - lo - 1 else NICFREE - 1
  }

  function BatchFrom(lo: nat, hi: nat): seq<nat>
    requires lo < hi
  {
    [lo + RunOf(lo, hi)] + Backward(lo, lo + RunOf(lo, hi))
  }

  /** Ascending runs of 63 blocks plus a link block, the last link holding an empty list. */
  function NewChain(lo: nat, hi: nat): Chain
    requires lo <= hi
    decreases hi - lo
  {
    if lo == hi then Empty else Batch(BatchFrom(lo, hi), NewChain(lo + RunOf(lo, hi) + 1, hi))
  }

  /** The batch after each link is in the link's block. */
  ghost predicate LinksStored(d: Disk, c: Chain) {
    match c
    case Empty => true
    case Batch(l, next) => l != [] && l[0] < |d| && Stored(d[l[0]], ListOf(next)) && LinksStored(d, next)
  }

  lemma {:induction false} NewChainExact(d: Disk, lo: nat, hi: nat, first: nat)
    requires first <= lo <= hi <= |d| && LinksStored(d, NewChain(lo, hi))
    ensures ChainOK(d, NewChain(lo, hi), first, hi)
    ensures forall b :: b in FreeSet(NewChain(lo, hi)) <==> lo <= b < hi
    ensures Count(NewChain(lo, hi)) == hi - lo
    decreases hi - lo
  {
    if lo < hi {
      var k := RunOf(lo, hi);
      hide Stored;
      NewChainExact(d, lo + k + 1, hi, first);
      BatchMembers(lo, hi);
    }
  }

  /** A link block and the run before it, each once. */
  lemma {:induction false} BatchMembers(lo: nat, hi: nat)
    requires lo < hi
    ensures var l, k := BatchFrom(lo, hi), RunOf(lo, hi);
            && 0 < |l| == k + 1 <= NICFREE && NoDup(l) && forall b :: b in l <==> lo <= b < lo + k + 1
  {
    var l, k := BatchFrom(lo, hi), RunOf(lo, hi);
    forall b ensures b in l <==> lo <= b < lo + k + 1 {
      if lo <= b < lo + k {
        assert l[lo + k - b] == b;
      } else if b == lo + k {
        assert l[0] == b;
      }
    }
  }

  /** The order in which balloc empties a chain. */
  function Drain(c: Chain): seq<nat>
    requires AllNonEmpty(c)
    decreases Count(c)
  {
    if c.Empty? then [] else
      [Top(c)] + Drain(Pop(c))
  }

  predicate AllNonEmpty(c: Chain) {
    c.Empty? || (c.list != [] && AllNonEmpty(c.next))
  }

  /** A new filesystem hands out its free blocks once each, in ascending order. */
  lemma {:induction false} DrainsAscending(lo: nat, hi: nat)
    requires lo <= hi
    ensures AllNonEmpty(NewChain(lo, hi)) && Drain(NewChain(lo, hi)) == Range(lo, hi)
    decreases hi - lo
  {
    hide Drain, Range, Backward, AllNonEmpty;
    if lo == hi {
      NothingToDrain(lo);
    } else {
      var k := RunOf(lo, hi);
      DrainsAscending(lo + k + 1, hi);
      DrainBatch(lo, lo + k, NewChain(lo + k + 1, hi));
      assert Range(lo, hi) == Range(lo, lo + k + 1) + Range(lo + k + 1, hi);
    }
  }

  lemma NothingToDrain(lo: nat)
    ensures AllNonEmpty(Empty) && Drain(Empty) == Range(lo, lo) == []
  {}

  lemma {:induction false} DrainBatch(lo: nat, link: nat, next: Chain)
    requires lo <= link && AllNonEmpty(next)
    ensures var c := Batch([link] + Backward(lo, link), next);
            AllNonEmpty(c) && Drain(c) == Range(lo, link + 1) + Drain(next)
    decreases link - lo
  {
    var c := Batch([link] + Backward(lo, link), next);
    if lo == link {
      assert Pop(c) == next && Top(c) == link;
      assert Range(lo, link + 1) == [link];
    } else {
      DrainBatch(lo + 1, link, next);
      BackwardFront(lo, link);
      assert Top(c) == lo;
      assert Pop(c) == Batch([link] + Backward(lo + 1, link), next);
      assert Drain(c) == [lo] + (Range(lo + 1, link + 1) + Drain(next));
      assert Range(lo, link + 1) == [lo] + Range(lo + 1, link + 1);
    }
  }

  lemma BackwardFront(lo: nat, hi: nat)
    requires lo < hi
    ensures Backward(lo, hi) == Backward(lo + 1, hi) + [lo]
  {}

  /** Repeated balloc: every free block once, in the chain's order, then nothing. */
  method AllocAll(fs: FSW) returns (blocks: seq<nat>, ghost order: seq<nat>)
    requires fs.FreeOK() && AllNonEmpty(fs.chain)
    modifies fs
    ensures order == Drain(old(fs.chain)) && blocks == order
    ensures fs.FreeOK() && fs.tfree == 0 && fs.Free() == {}
  {
    hide FSW.FreeOK, FreeSet;
    order := Drain(fs.chain);
    blocks := [];
    while true
      invariant fs.FreeOK() && AllNonEmpty(fs.chain)
      invariant order == blocks + Drain(fs.chain)
      decreases Count(fs.chain)
    {
      ghost var c := fs.chain;
      ChainEmpty(fs);
      var b := fs.BAlloc();
      if b == 0 {
        ChainEmpty(fs);
        assert blocks + [] == blocks;
        return;
      }
      assert blocks + Drain(c) == (blocks + [b]) + Drain(Pop(c));
      blocks := blocks + [b];
    }
  }

  lemma {:induction false} ChainEmpty(fs: FSW)
    requires fs.FreeOK()
    ensures fs.Free() == {} <==> fs.chain.Empty?
    ensures fs.chain.Empty? ==> fs.tfree == 0
  {
    ChainHead(fs.D(), fs.chain, fs.isize, fs.fsize);
  }

  // ------------------------------------------------------------------------- mkfs

  /** Inodes for a filesystem of this size: one for seven blocks, in whole blocks. */
  function NInodes(nblocks: nat): nat {
    (nblocks / 7 + 7) / 8 * 8
  }

  /** It is the least multiple of eight, as many as fit a block, that has one for seven blocks. */
  lemma {:induction false} NInodesExactly(nblocks: nat)
    ensures NInodes(nblocks) % 8 == 0 && nblocks / 7 <= NInodes(nblocks) < nblocks / 7 + 8
    ensures 8 * (RootBlock(nblocks) - 2) == NInodes(nblocks)
  {
    var q := (nblocks / 7 + 7) / 8;
    assert NInodes(nblocks) == 8 * q && 8 * q * 64 / 512 == q;
  }

  /** The first data block, where the root directory goes. */
  function RootBlock(nblocks: nat): nat {
    2 + NInodes(nblocks) * INOSZ / BSIZE
  }

  /** The number of free inodes is stored in a word. */
  predicate Possible(nblocks: nat) {
    2 <= NInodes(nblocks) <= 65537
  }

  /** struct.pack of an unsigned word, which fails when the number does not fit. */
  function PackWord(v: int): (r: Option<seq<byte>>)
    ensures r.Some? <==> 0 <= v < 0x1_0000
    ensures r.Some? ==> |r.value| == 2 && Word(r.value, 0) == v
  {
    if 0 <= v < 0x1_0000 then
      WordRoundTrip(v);
      Some(WordBytes(v))
    else
      None
  }

  /** The words of the superblock that may not fit: s_isize and s_tinode. */
  lemma {:induction false} PacksExactly(nblocks: nat)
    ensures PackWord(RootBlock(nblocks)).Some? && PackWord(NInodes(nblocks) as int - 2).Some? <==> Possible(nblocks)
  {
    var q := (nblocks / 7 + 7) / 8;
    assert NInodes(nblocks) == 8 * q && 8 * q * 64 / 512 == q;
  }

  lemma {:induction false} Sizes(nblocks: nat)
    requires Possible(nblocks)
    ensures RootBlock(nblocks) == 2 + NInodes(nblocks) / 8 && InodeCount(RootBlock(nblocks)) == NInodes(nblocks) >= 8
    ensures 3 <= RootBlock(nblocks) < 65536 && RootBlock(nblocks) + 1 <= nblocks <= 0x100_0000
  {
    var q := (nblocks / 7 + 7) / 8;
    assert NInodes(nblocks) == 8 * q && 8 * q * 64 / 512 == q;
  }

  /** The directory entries "." and "..", both naming the root. */
  function RootEntries(): (r: seq<byte>)
    ensures |r| == 32
  {
    WordBytes(2) + [46] + Zeroes(13) + WordBytes(2) + [46, 46] + Zeroes(12)
  }

  const ROOTMODE: nat := 0x41FF   // S_IFDIR | 0777
  const FILEMODE: nat := 0x8000   // S_IFREG

  function RootInode(rootblk: nat): Inode {
    Inode(ROOTMODE, 3, 0, 0, 32, [rootblk, 0, 0, 0, 0, 0, 0, 0, 0, 0, 0, 0, 0])
  }

  /** The lists of a chain, the last one empty. */
  function ListsOf(c: Chain): (r: seq<seq<nat>>)
    ensures |r| >= 1
  {
    if c.Empty? then [[]] else [c.list] + ListsOf(c.next)
  }

  /** The grouping loop of mkfs. */
  method Groups(lo: nat, hi: nat) returns (lists: seq<seq<nat>>)
    requires lo <= hi
    ensures lists == ListsOf(NewChain(lo, hi))
  {
    var cur := lo;
    lists := [];
    while cur < hi
      invariant lo <= cur <= hi
      invariant ListsOf(NewChain(lo, hi)) == lists + ListsOf(NewChain(cur, hi))
    {
      lists := lists + [BatchFrom(cur, hi)];
      cur := cur + RunOf(cur, hi) + 1;
    }
    lists := lists + [[]];
  }

  /** Every list but the last starts with its link; links ascend. */
  ghost predicate LinksAscend(lists: seq<seq<nat>>, lo: nat, hi: nat) {
    forall m :: 0 <= m < |lists| - 1 ==>
      0 < |lists[m]| <= NICFREE && lo <= lists[m][0] < hi
      && forall g :: m < g < |lists| - 1 ==> 0 < |lists[g]| && lists[m][0] < lists[g][0]
  }

  /** Entries of the lists are block numbers below hi, and at most 64 in each. */
  ghost predicate ListsSmall(lists: seq<seq<nat>>, hi: nat) {
    forall m :: 0 <= m < |lists| ==> |lists[m]| <= NICFREE && forall b :: b in lists[m] ==> b < hi
  }

  lemma {:induction false} NewLists(lo: nat, hi: nat)
    requires lo <= hi
    ensures LinksAscend(ListsOf(NewChain(lo, hi)), lo, hi) && ListsSmall(ListsOf(NewChain(lo, hi)), hi)
    decreases hi - lo
  {
    if lo < hi {
      var next := lo + RunOf(lo, hi) + 1;
      NewLists(next, hi);
      var l, rest := BatchFrom(lo, hi), ListsOf(NewChain(next, hi));
      var all := [l] + rest;
      forall m | 0 <= m < |all| ensures |all[m]| <= NICFREE && forall b :: b in all[m] ==> b < hi {
        if m > 0 {
          assert all[m] == rest[m - 1];
        }
      }
      forall m | 0 <= m < |all| - 1
        ensures 0 < |all[m]| <= NICFREE && lo <= all[m][0] < hi
        ensures forall g :: m < g < |all| - 1 ==> 0 < |all[g]| && all[m][0] < all[g][0]
      {
        forall g | m < g < |all| - 1 ensures 0 < |all[g]| && all[m][0] < all[g][0] {
          assert all[g] == rest[g - 1];
        }
        if m > 0 {
          assert all[m] == rest[m - 1];
        }
      }
    }
  }

  /** The first n link blocks hold the list that follows theirs. */
  ghost predicate LinksWritten(d: Disk, lists: seq<seq<nat>>, n: nat) {
    n < |lists| && forall m :: 0 <= m < n ==>
      lists[m] != [] && lists[m][0] < |d| && Stored(d[lists[m][0]], lists[m + 1])
  }

  lemma {:induction false} WrittenIsStored(d: Disk, c: Chain)
    requires LinksWritten(d, ListsOf(c), |ListsOf(c)| - 1)
    ensures LinksStored(d, c)
  {
    if c.Batch? {
      var all, rest := ListsOf(c), ListsOf(c.next);
      forall m | 0 <= m < |rest| - 1
        ensures rest[m] != [] && rest[m][0] < |d| && Stored(d[rest[m][0]], rest[m + 1])
      {
        assert all[m + 1] == rest[m] && all[m + 2] == rest[m + 1];
      }
      assert all[0] == c.list && all[1] == rest[0];
      WrittenIsStored(d, c.next);
      assert ListOf(c.next) == rest[0];
    }
  }

  lemma {:induction false} WriteOneLink(d: Disk, e: Disk, lists: seq<seq<nat>>, n: nat, lo: nat, hi: nat)
    requires LinksWritten(d, lists, n) && LinksAscend(lists, lo, hi) && n + 1 < |lists|
    requires |e| == |d| && lists[n][0] < |e| && Stored(e[lists[n][0]], lists[n + 1])
    requires forall b :: 0 <= b < |d| && b != lists[n][0] ==> e[b] == d[b]
    ensures LinksWritten(e, lists, n + 1)
  {}

  /** The loop of mkfs over the groups: each link block gets the list after its own. */
  method WriteLinks(start: Image, lists: seq<seq<nat>>, lo: nat, hi: nat) returns (img: Image)
    requires lo <= hi <= NBlocks(start) && hi <= 0x100_0000 && lists != []
    requires LinksAscend(lists, lo, hi) && ListsSmall(lists, hi)
    ensures |img| == |start| && LinksWritten(DiskOf(img), lists, |lists| - 1)
    ensures forall x :: 0 <= x < |img| && !(512 * lo <= x < 512 * hi) ==> img[x] == start[x]
  {
    hide LinksWritten, DiskOf, Stored;
    img := start;
    var g: nat := 0;
    NoLinks(DiskOf(img), lists);
    while g + 1 < |lists|
      invariant g < |lists| && |img| == |start| && LinksWritten(DiskOf(img), lists, g)
      invariant forall x :: 0 <= x < |img| && !(512 * lo <= x < 512 * hi) ==> img[x] == start[x]
    {
      var link, list := lists[g][0], lists[g + 1];
      var entries := list + Repeat<nat>(0, NICFREE - |list|);
      var blk := PackBatch(|list|, entries);
      assert entries[..|list|] == list;
      StoredPack(blk, entries, list);
      ghost var was := img;
      WithBlockDisk(img, link, blk);
      img := WithBlock(img, link, blk);
      WriteOneLink(DiskOf(was), DiskOf(img), lists, g, lo, hi);
      g := g + 1;
    }
  }

  lemma NoLinks(d: Disk, lists: seq<seq<nat>>)
    requires lists != []
    ensures LinksWritten(d, lists, 0)
  {}

  // ---------------------------------------------------------- the parts put together

  /** The inodes of a new filesystem: the root directory is number 2, the others are empty. */
  function NewInode(j: nat, rootblk: nat): Inode {
    if j == 1 then Inode(FILEMODE, 0, 0, 0, 0, NOADDR)
    else if j == 2 then RootInode(rootblk)
    else Inode(0, 0, 0, 0, 0, NOADDR)
  }

  /** Inode j as mkfs wants it if it is among the first `done`, zero otherwise. */
  ghost predicate InodeIs(img: Image, j: nat, rootblk: nat, done: nat) {
    HasInode(img, j) && InodeOf(img, j) == NewInode(if j <= done then j else 3, rootblk)
  }

  /** Inodes up to `done` are as mkfs wants them, the rest still zero. */
  ghost predicate InodesDone(img: Image, rootblk: nat, done: nat) {
    forall j :: 1 <= j <= InodeCount(rootblk) ==> InodeIs(img, j, rootblk, done)
  }

  /** What that means: inode 1, for bad blocks, is an empty regular file nothing links to, inode 2 a
      directory of two entries with all permissions and three links, and the others are zero. */
  lemma {:induction false} InodesAre(img: Image, rootblk: nat, j: nat)
    requires j >= 1 && InodeIs(img, j, rootblk, 2)
    ensures InodeOf(img, j) ==
            if j == 1 then Inode(0x8000, 0, 0, 0, 0, NOADDR)
            else if j == 2 then Inode(0x4000 + 0x1FF, 3, 0, 0, 2 * 16, [rootblk, 0, 0, 0, 0, 0, 0, 0, 0, 0, 0, 0, 0])
            else Inode(0, 0, 0, 0, 0, NOADDR)
  {
    hide DecodeInode;
  }

  lemma {:induction false} ZeroInodes(img: Image, rootblk: nat)
    requires rootblk <= NBlocks(img) && forall x :: 1024 <= x < 512 * rootblk && x < |img| ==> img[x] == 0
    ensures InodesDone(img, rootblk, 0)
  {
    hide DecodeInode;
    InodesFit(img, rootblk);
    forall j | 1 <= j <= InodeCount(rootblk) ensures InodeIs(img, j, rootblk, 0) {
      var o := InodeOffset(j);
      var raw := img[o..o + INOSZ];
      forall x | 0 <= x < INOSZ ensures raw[x] == 0 {
        assert raw[x] == img[o + x];
      }
      ZeroInode(raw);
    }
  }

  lemma {:induction false} ZeroInode(raw: seq<byte>)
    requires |raw| == INOSZ && forall x :: 0 <= x < INOSZ ==> raw[x] == 0
    ensures DecodeInode(raw) == Inode(0, 0, 0, 0, 0, NOADDR)
  {
    hide Slots, L3;
    var a := Slots(raw, 0);
    forall i | 0 <= i < NADDR ensures a[i] == 0 {
      ZeroL3(raw, 12 + 3 * i);
    }
    assert a == NOADDR;
  }

  lemma ZeroL3(raw: seq<byte>, o: nat)
    requires o + 3 <= |raw| && forall x :: 0 <= x < |raw| ==> raw[x] == 0
    ensures L3(raw, o) == 0
  {}

  /** The inner function inode of mkfs. */
  method PutInode(start: Image, ino: nat, rootblk: nat, t: nat) returns (img: Image)
    requires 1 <= ino <= 2 && 3 <= rootblk < 0x100_0000 && rootblk <= NBlocks(start) && InodesDone(start, rootblk, ino - 1)
    ensures |img| == |start| && InodesDone(img, rootblk, ino)
    ensures forall n :: 0 <= n < NBlocks(img) && (n < 2 || n >= rootblk) ==> BlockOf(img, n) == BlockOf(start, n)
  {
    hide DecodeInode;
    InodesFit(start, rootblk);
    var raw := PackInode(NewInode(ino, rootblk), t);
    img := Splice(start, InodeOffset(ino), raw);
    SplicedInodes(start, ino, raw, rootblk);
    forall n | 0 <= n < 2 ensures BlockOf(img, n) == BlockOf(start, n) {
      assert img[512 * n..512 * n + 512] == start[512 * n..512 * n + 512];
    }
    forall j | 1 <= j <= InodeCount(rootblk) ensures InodeIs(img, j, rootblk, ino) {
      assert InodeIs(start, j, rootblk, ino - 1);
    }
  }

  /** Only the root directory owns a block, so the blocks after it can all be free. */
  lemma {:induction false} NewPartition(v: Volume, free: set<nat>, rootblk: nat, hi: nat)
    requires 0 < rootblk < hi <= |v.d| && hi <= 0x1_0000_0000 && |v.a| >= 2
    requires forall i :: 0 <= i < |v.a| ==> v.a[i] == NewInode(i + 1, rootblk).addr
    requires forall b :: b in free <==> rootblk < b < hi
    ensures Partition(v, free, rootblk, hi)
  {
    forall i, p | InVolume(v, i, p) ensures Node(v, i, p) == if i == 1 && p == Slot(0) then rootblk else 0 {
      NewNode(v, rootblk, i, p);
    }
    assert InVolume(v, 1, Slot(0)) && Node(v, 1, Slot(0)) == rootblk;
    assert Owned(v, rootblk);
  }

  lemma {:induction false} NewNode(v: Volume, rootblk: nat, i: int, p: Path)
    requires InVolume(v, i, p) && v.a[i] == NewInode(i + 1, rootblk).addr
    ensures Node(v, i, p) == if i == 1 && p == Slot(0) then rootblk else 0
  {
    if p.Under? {
      NewNode(v, rootblk, i, p.up);
    }
  }

  lemma {:induction false} NewAddrs(img: Image, a: seq<Addr>, rootblk: nat)
    requires AddrsMatch(img, a) && InodesDone(img, rootblk, 2) && |a| == InodeCount(rootblk)
    ensures forall i :: 0 <= i < |a| ==> a[i] == NewInode(i + 1, rootblk).addr
  {
    hide DecodeInode;
    forall i | 0 <= i < |a| ensures a[i] == NewInode(i + 1, rootblk).addr {
      assert AddrIs(img, i + 1, a[i]) && InodeIs(img, i + 1, rootblk, 2);
    }
  }

  /** The superblock, the links and the inodes together make a consistent filesystem. */
  lemma {:induction false} NewMountable(img: Image, nblocks: nat, s: Super)
    requires Possible(nblocks) && NBlocks(img) == nblocks && InodesDone(img, RootBlock(nblocks), 2)
    requires RootBlock(nblocks) < nblocks && LinksStored(DiskOf(img), NewChain(RootBlock(nblocks) + 1, nblocks))
    requires SuperSame(SuperOf(BlockOf(img, 1)), s) && s.isize == RootBlock(nblocks) && s.fsize == nblocks
    requires var l := ListOf(NewChain(RootBlock(nblocks) + 1, nblocks));
             |s.free| == NICFREE && |l| <= NICFREE && s.nfree == |l| && s.free[..|l|] == l
    requires s.tfree == nblocks - RootBlock(nblocks) - 1
    ensures Mountable(img, NewChain(RootBlock(nblocks) + 1, nblocks))
  {
    hide SuperOf, ChainOK, Partition, DecodeInode, DiskOf, NewChain, LinksStored, FreeSet, AddrsOf, RootBlock, Possible;
    var r := RootBlock(nblocks);
    var c := NewChain(r + 1, nblocks);
    Sizes(nblocks);
    NewChainExact(DiskOf(img), r + 1, nblocks, r);
    ChainHead(DiskOf(img), c, r, nblocks);
    SuperListSame(SuperOf(BlockOf(img, 1)), s, ListOf(c));
    InodesFit(img, r);
    var n := InodeCount(r);
    AddrsAt(img, n);
    NewAddrs(img, AddrsOf(img, n), r);
    NewPartition(Volume(DiskOf(img), AddrsOf(img, n)), FreeSet(c), r, nblocks);
  }

  /** The start of mkfs: superblock and links in an empty image. */
  method FreshImage(nblocks: nat) returns (img: Image, ghost s: Super)
    requires Possible(nblocks) && RootBlock(nblocks) < nblocks
    ensures |img| == 512 * nblocks && SuperSame(SuperOf(BlockOf(img, 1)), s)
    ensures s.isize == RootBlock(nblocks) && s.fsize == nblocks && |s.free| == NICFREE
    ensures var l := ListOf(NewChain(RootBlock(nblocks) + 1, nblocks)); |l| <= NICFREE && s.nfree == |l| && s.free[..|l|] == l
    ensures s.tfree == nblocks - RootBlock(nblocks) - 1
    ensures LinksStored(DiskOf(img), NewChain(RootBlock(nblocks) + 1, nblocks))
    ensures InodesDone(img, RootBlock(nblocks), 0)
  {
    hide SuperOf, SuperSame, DiskOf, NewChain, LinksStored, RootBlock, Possible, LinksWritten, LinksAscend, ListsSmall, InodesDone;
    Sizes(nblocks);
    var r := RootBlock(nblocks);
    var lists := Groups(r + 1, nblocks);
    NewLists(r + 1, nblocks);
    var first := lists[0];
    s := Super(r, nblocks, |first|, first + Repeat<nat>(0, NICFREE - |first|), nblocks - r - 1);
    var sb := PackSuper(ZERO, Super(r, nblocks, |first|, first + Repeat<nat>(0, NICFREE - |first|), nblocks - r - 1));
    img := Zeroes(512 * nblocks);
    img := WithBlock(img, 1, sb);
    img := WriteLinks(img, lists, r + 1, nblocks);
    WrittenIsStored(DiskOf(img), NewChain(r + 1, nblocks));
    assert BlockOf(img, 1) == sb;
    ZeroInodes(img, r);
  }

  lemma {:induction false} LinksKept(d: Disk, e: Disk, lo: nat, hi: nat)
    requires lo <= hi <= |d| == |e| && LinksStored(d, NewChain(lo, hi))
    requires forall b :: lo <= b < hi ==> e[b] == d[b]
    ensures LinksStored(e, NewChain(lo, hi))
    decreases hi - lo
  {
    hide Stored;
    if lo < hi {
      LinksKept(d, e, lo + RunOf(lo, hi) + 1, hi);
    }
  }

  lemma {:induction false} RootWritten(start: Image, mid: Image, img: Image, nblocks: nat)
    requires Possible(nblocks) && NBlocks(start) == NBlocks(mid) == NBlocks(img) == nblocks && RootBlock(nblocks) < nblocks
    requires forall n :: 0 <= n < nblocks && (n < 2 || n >= RootBlock(nblocks)) ==> BlockOf(mid, n) == BlockOf(start, n)
    requires InodesDone(mid, RootBlock(nblocks), 2) && img == WithBlock(mid, RootBlock(nblocks), Pad(RootEntries()))
    requires LinksStored(DiskOf(start), NewChain(RootBlock(nblocks) + 1, nblocks))
    ensures LinksStored(DiskOf(img), NewChain(RootBlock(nblocks) + 1, nblocks))
    ensures InodesDone(img, RootBlock(nblocks), 2) && BlockOf(img, 1) == BlockOf(start, 1)
    ensures BlockOf(img, RootBlock(nblocks)) == Pad(RootEntries())
  {
    hide NewChain, LinksStored, RootBlock, Possible, DecodeInode, RootEntries;
    Sizes(nblocks);
    var r := RootBlock(nblocks);
    WithBlockDisk(mid, r, Pad(RootEntries()));
    assert forall n :: 0 <= n < nblocks ==> BlockOf(img, n) == DiskOf(img)[n] && BlockOf(mid, n) == DiskOf(mid)[n];
    LinksKept(DiskOf(start), DiskOf(img), r + 1, nblocks);
    HeadInodes(mid, img, r);
    forall j | 1 <= j <= InodeCount(r) ensures InodeIs(img, j, r, 2) {
      assert InodeIs(mid, j, r, 2);
    }
  }

  /** mkfs with the usual number of inodes.  It fails exactly when a count does not fit its
      word.  Otherwise the image mounts with every block after the root directory free. */
  method MkFs(nblocks: nat, t: nat) returns (r: Option<Image>)
    ensures r.None? <==> !Possible(nblocks)
    ensures r.Some? ==> RootBlock(nblocks) < nblocks && |r.value| == 512 * nblocks
    ensures r.Some? ==> Mountable(r.value, NewChain(RootBlock(nblocks) + 1, nblocks))
    ensures r.Some? ==> SavedSizes(r.value, RootBlock(nblocks), nblocks)
    ensures r.Some? ==> InodesDone(r.value, RootBlock(nblocks), 2)
    ensures r.Some? ==> BlockOf(r.value, RootBlock(nblocks)) == Pad(RootEntries())
  {
    hide SuperOf, DiskOf, NewChain, LinksStored, InodesDone, Mountable, RootEntries;
    var isize, tinode := PackWord(RootBlock(nblocks)), PackWord(NInodes(nblocks) as int - 2);
    PacksExactly(nblocks);
    if isize.None? || tinode.None? {
      return None;
    }
    Sizes(nblocks);
    var img, s := FreshImage(nblocks);
    var root := RootBlock(nblocks);
    ghost var start := img;
    img := PutInode(img, 1, root, t);
    img := PutInode(img, 2, root, t);
    ghost var mid := img;
    img := WithBlock(img, root, Pad(RootEntries()));
    RootWritten(start, mid, img, nblocks);
    NewMountable(img, nblocks, s);
    return Some(img);
  }

  /** cohfs.py on a new image: inode 2 reads as the directory entries "." and "..". */
  method RootOfNew(nblocks: nat, t: nat) returns (data: seq<byte>)
    requires Possible(nblocks)
    ensures data == WordBytes(2) + ['.' as byte] + Zeroes(13) + WordBytes(2) + ['.' as byte, '.' as byte] + Zeroes(12)
  {
    hide Mountable, NewChain, InodesDone, DecodeInode, RootEntries, RootBlock, Possible, Pad, BytesAre, Partition, Zeroes;
    hide FSW.FreeOK, DiskOf, SuperOf, NoGap;
    var r := MkFs(nblocks, t);
    var fs := new FSW(r.value, NewChain(RootBlock(nblocks) + 1, nblocks));
    SizesAgree(fs.img, fs.isize, RootBlock(nblocks), fs.fsize, nblocks);
    RootReadable(fs.img, nblocks);
    data := Cat(fs, 2);
    RootBytes(fs, nblocks, data);
    DotAndDots();
  }

  lemma DotAndDots()
    ensures RootEntries() == WordBytes(2) + ['.' as byte] + Zeroes(13) + WordBytes(2) + ['.' as byte, '.' as byte] + Zeroes(12)
  {}

  lemma {:induction false} RootReadable(img: Image, nblocks: nat)
    requires Possible(nblocks) && InodesDone(img, RootBlock(nblocks), 2)
    ensures 2 <= InodeCount(RootBlock(nblocks)) && Readable(img, 2)
    ensures InodeOf(img, 2) == RootInode(RootBlock(nblocks)) && HasContents(InodeOf(img, 2).mode)
    ensures InodeOf(img, 2).size == 32 && RootBlock(nblocks) > 0
  {
    hide DecodeInode, RootBlock, Possible;
    Sizes(nblocks);
    assert InodeIs(img, 2, RootBlock(nblocks), 2);
    TypesOfMode(0x1FF);
  }

  lemma {:induction false} RootBytes(fs: FSW, nblocks: nat, data: seq<byte>)
    requires fs.Valid() && 2 <= fs.Inodes() && HasInode(fs.img, 2) && 0 < RootBlock(nblocks) < NBlocks(fs.img)
    requires InodeOf(fs.img, 2) == RootInode(RootBlock(nblocks))
    requires BlockOf(fs.img, RootBlock(nblocks)) == Pad(RootEntries())
    requires BytesAre(fs.Vol(), 1, data) && |data| == 32
    ensures data == RootEntries()
  {
    hide Partition, DecodeInode, RootEntries, DiskOf, FSW.FreeOK, RootBlock;
    fs.Bounds();
    InodesFit(fs.img, fs.isize);
    AddrsAt(fs.img, fs.Inodes());
    assert AddrIs(fs.img, 2, fs.Vol().a[1]);
    forall x: nat | x < 32 ensures data[x] == RootEntries()[x] {
      ByteIs(fs.Vol(), 1, data, x);
    }
  }

  /** On a new filesystem, zeroed free blocks or not, balloc returns every block from the one
      after the root directory to the last, once each and ascending, and then none. */
  method FillNew(nblocks: nat, t: nat, zero: bool) returns (blocks: seq<nat>, zeroed: nat, fs: FSW?)
    ensures fs == null <==> !Possible(nblocks)
    ensures fs != null ==> RootBlock(nblocks) < nblocks && blocks == Range(RootBlock(nblocks) + 1, nblocks)
    ensures fs != null && zero ==> zeroed == |blocks|
    ensures fs != null ==> fs.FreeOK() && fs.tfree == 0 && fs.Free() == {}
  {
    hide *;
    blocks, zeroed, fs := [], 0, null;
    var r := MkFs(nblocks, t);
    if r.Some? {
      var disk := new FSW(r.value, NewChain(RootBlock(nblocks) + 1, nblocks));
      blocks, zeroed := FillDisk(disk, RootBlock(nblocks) + 1, nblocks, zero);
      fs := disk;
    }
  }

  /** The same, once the new image is mounted. */
  method FillDisk(fs: FSW, ghost lo: nat, ghost hi: nat, zero: bool) returns (blocks: seq<nat>, zeroed: nat)
    requires fs.Valid() && lo <= hi && fs.chain == NewChain(lo, hi)
    modifies fs
    ensures blocks == Range(lo, hi) && (zero ==> zeroed == |blocks|)
    ensures fs.FreeOK() && fs.tfree == 0 && fs.Free() == {}
  {
    hide ChainOK, Partition, DiskOf, NewChain, FreeZeroed;
    zeroed := 0;
    DrainsAscending(lo, hi);
    NewCount(lo, hi);
    if zero {
      zeroed := fs.ZeroFree();
    }
    ghost var order;
    blocks, order := AllocAll(fs);
  }

  lemma {:induction false} NewCount(lo: nat, hi: nat)
    requires lo <= hi
    ensures Count(NewChain(lo, hi)) == hi - lo
    decreases hi - lo
  {
    if lo < hi {
      NewCount(lo + RunOf(lo, hi) + 1, hi);
    }
  }
}
