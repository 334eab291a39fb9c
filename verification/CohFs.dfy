/**
  cohfs.py: reading a COHERENT filesystem image on the host.  An image is a string of
  bytes; blocks, inodes and index blocks are decoded from it.
 */
module CohFs {
  import opened Lists
  import opened Layout

  const INOSZ: nat := 64

  type Image = seq<byte>

  function NBlocks(img: Image): nat {
    |img| / 512
  }

  function BlockOf(img: Image, n: nat): Block
    requires n < NBlocks(img)
  {
    img[512 * n..512 * n + 512]
  }

  /** The image as a device. */
  function DiskOf(img: Image): (d: Disk)
    ensures |d| == NBlocks(img)
    ensures forall n :: 0 <= n < |d| ==> d[n] == BlockOf(img, n)
  {
    seq(NBlocks(img), n requires 0 <= n < NBlocks(img) => BlockOf(img, n))
  }

  /** What FS.__init__ takes from the superblock: s_isize, s_fsize and, behind the free list, the
      inode cache, two bytes of locks and flags each and the time, s_tfree. */
  function SuperSizes(sb: Block): (nat, nat, nat) {
    (Word(sb, 0), PdpLong(sb, 2), PdpLong(sb, 2 + 4 + 2 + 64 * 4 + 2 + 100 * 2 + 4 + 4))
  }

  // --------------------------------------------------------------- inodes

  datatype Inode = Inode(mode: nat, nlink: int, uid: nat, gid: nat, size: nat, addr: Addr)

  /** l3: bits 16-23, bits 0-7, bits 8-15. */
  function L3(b: seq<byte>, o: nat): nat
    requires o + 3 <= |b|
  {
    b[o] as nat * 65536 + b[o + 1] as nat + b[o + 2] as nat * 256
  }

  /** An address in an inode is a long in the same order with its top byte dropped. */
  lemma {:induction false} L3DropsTop(b: seq<byte>)
    requires |b| == 4
    ensures L3([b[0], b[2], b[3]], 0) == PdpLong(b, 0) % 0x100_0000
    ensures L3([0x12, 0x78, 0x56], 0) == 0x125678
  {
    PdpOrder(b, 0);
    assert L3([0x12, 0x78, 0x56], 0) == 0x12 * 65536 + 0x78 + 0x56 * 256;
  }

  /** A word read as a signed one. */
  function Signed(w: nat): int {
    if w < 32768 then w else w - 65536
  }

  function InodeOffset(ino: nat): nat
    requires ino >= 1
  {
    2 * BSIZE + (ino - 1) * INOSZ
  }

  /** Inodes lie eight to a block from block 2 on. */
  lemma {:induction false} InodePlace(ino: nat)
    requires ino >= 1
    ensures InodeOffset(ino) == 512 * (2 + (ino - 1) / 8) + 64 * ((ino - 1) % 8)
  {}

  /** Address slots first..13 of a raw inode. */
  function Slots(raw: seq<byte>, first: nat): (a: seq<nat>)
    requires |raw| == INOSZ && first <= NADDR
    ensures |a| == NADDR - first
    ensures forall i :: 0 <= i < |a| ==> a[i] == L3(raw, 12 + 3 * (first + i))
    decreases NADDR - first
  {
    if first == NADDR then [] else [L3(raw, 12 + 3 * first)] + Slots(raw, first + 1)
  }

  function DecodeInode(raw: seq<byte>): Inode
    requires |raw| == INOSZ
  {
    Inode(Word(raw, 0), Signed(Word(raw, 2)), Word(raw, 4), Word(raw, 6), PdpLong(raw, 8), Slots(raw, 0))
  }

  predicate HasInode(img: Image, ino: nat) {
    ino >= 1 && InodeOffset(ino) + INOSZ <= |img|
  }

  function InodeOf(img: Image, ino: nat): Inode
    requires HasInode(img, ino)
  {
    DecodeInode(img[InodeOffset(ino)..InodeOffset(ino) + INOSZ])
  }

  /** S_IFCHR and S_IFBLK: no data to read. */
  predicate IsDevice(mode: nat) {
    mode / 4096 % 16 == 2 || mode / 4096 % 16 == 6
  }

  /** The mode's type, its upper four bits, is neither 0x2000 (character device) nor 0x6000
      (block device): the file has data to read. */
  predicate HasContents(mode: nat) {
    !(0x2000 <= mode % 0x1_0000 < 0x3000) && !(0x6000 <= mode % 0x1_0000 < 0x7000)
  }

  /** Regular files (0x8000) and directories (0x4000) are read, whatever their permissions. */
  lemma {:induction false} TypesOfMode(perms: nat)
    requires perms < 0x1000
    ensures HasContents(0x8000 + perms) && HasContents(0x4000 + perms)
    ensures !HasContents(0x2000 + perms) && !HasContents(0x6000 + perms)
    ensures forall mode: nat :: IsDevice(mode) <==> !HasContents(mode)
  {
    forall mode: nat ensures IsDevice(mode) <==> !HasContents(mode) {
      assert mode / 4096 % 16 == mode % 65536 / 4096;
    }
  }

  // -------------------------------------------------- the list of a file's blocks

  /** Data blocks below an index block of the given level. */
  function Span(level: nat): nat
    requires 1 <= level <= 3
  {
    if level == 1 then 128 else if level == 2 then 16384 else 2097152
  }

  /** Entry j of the list FS.indirect builds for index block a. */
  function EntryAt(d: Disk, a: nat, level: nat, j: nat): nat
    requires 1 <= level <= 3 && j < Span(level)
    decreases level
  {
    if a == 0 || a >= |d| then 0
    else if level == 1 then Ptr(d[a], j)
    else EntryAt(d, Ptr(d[a], j / Span(level - 1)), level - 1, j % Span(level - 1))
  }

  /** x is entry j of that list. */
  predicate IsEntry(d: Disk, a: nat, level: nat, j: int, x: nat)
    requires 1 <= level <= 3
  {
    0 <= j < Span(level) && x == EntryAt(d, a, level, j)
  }

  /** How many entries FS.indirect returns: none at all for an empty address. */
  function ListedUnder(d: Disk, addr: Addr, slot: nat): nat
    requires 10 <= slot < NADDR
  {
    if addr[slot] == 0 then 0 else Span(slot - 9)
  }

  /** Entry k of the concatenated lists, before Inode.blocks cuts them to size. */
  function ListedAt(d: Disk, addr: Addr, k: nat): nat
    requires k < ND + ListedUnder(d, addr, 10) + ListedUnder(d, addr, 11) + ListedUnder(d, addr, 12)
  {
    var k1 := ND + ListedUnder(d, addr, 10);
    var k2 := k1 + ListedUnder(d, addr, 11);
    if k < ND then addr[k]
    else if k < k1 then EntryAt(d, addr[10], 1, k - ND)
    else if k < k2 then EntryAt(d, addr[11], 2, k - k1)
    else EntryAt(d, addr[12], 3, k - k2)
  }

  function ListedCount(d: Disk, addr: Addr, n: nat): nat {
    var all := ND + ListedUnder(d, addr, 10) + ListedUnder(d, addr, 11) + ListedUnder(d, addr, 12);
    if n < all then n else all
  }

  ghost predicate GoodPointers(d: Disk, a: nat, level: nat)
    requires level <= 3
    decreases level
  {
    a < |d| && (level > 1 && a != 0 ==> forall i: nat :: i < NIND ==> GoodPointers(d, Ptr(d[a], i), level - 1))
  }

  ghost predicate GoodTree(d: Disk, addr: Addr) {
    GoodPointers(d, addr[10], 1) && GoodPointers(d, addr[11], 2) && GoodPointers(d, addr[12], 3)
  }

  /** All 128 entries of an index block. */
  method Pointers(b: Block) returns (out: seq<nat>)
    ensures |out| == NIND && forall j :: 0 <= j < NIND ==> out[j] == Ptr(b, j)
  {
    out := [];
    var i: nat := 0;
    while i < NIND
      invariant i <= NIND && |out| == i
      invariant forall j :: 0 <= j < i ==> out[j] == Ptr(b, j)
    {
      out := out + [Ptr(b, i)];
      i := i + 1;
    }
  }

  /** FS.indirect: the entries below an index block, zeroes for a missing one further down. */
  method Indirect(img: Image, a: nat, level: nat) returns (out: seq<nat>)
    requires 1 <= level <= 3 && GoodPointers(DiskOf(img), a, level)
    ensures |out| == if a == 0 then 0 else Span(level)
    ensures forall j :: 0 <= j < |out| ==> IsEntry(DiskOf(img), a, level, j, out[j])
    decreases level
  {
    if a == 0 {
      return [];
    }
    hide GoodPointers, EntryAt, IsEntry;
    PointersGood(DiskOf(img), a, level);
    var ptrs := Pointers(BlockOf(img, a));
    if level == 1 {
      forall j | 0 <= j < NIND ensures IsEntry(DiskOf(img), a, 1, j, ptrs[j]) {
        EntryLevel1(DiskOf(img), a, j);
      }
      return ptrs;
    }
    out := [];
    var each := Span(level - 1);
    var i: nat := 0;
    while i < NIND
      invariant i <= NIND && |out| == i * each
      invariant forall j :: 0 <= j < |out| ==> IsEntry(DiskOf(img), a, level, j, out[j])
    {
      var part;
      if ptrs[i] != 0 {
        part := Indirect(img, ptrs[i], level - 1);
      } else {
        part := Repeat<nat>(0, each);
        forall j | 0 <= j < each ensures IsEntry(DiskOf(img), 0, level - 1, j, part[j]) {
          EntryZero(DiskOf(img), level - 1, j);
        }
      }
      PartEntries(DiskOf(img), a, level, i, out, part);
      out := out + part;
      i := i + 1;
    }
  }

  lemma PointersGood(d: Disk, a: nat, level: nat)
    requires 1 <= level <= 3 && GoodPointers(d, a, level) && a != 0
    ensures a < |d|
    ensures level > 1 ==> forall i: nat :: i < NIND ==> GoodPointers(d, Ptr(d[a], i), level - 1)
  {}

  lemma EntryLevel1(d: Disk, a: nat, j: nat)
    requires 0 < a < |d| && j < NIND
    ensures IsEntry(d, a, 1, j, Ptr(d[a], j))
  {}

  lemma EntryZero(d: Disk, level: nat, j: nat)
    requires 1 <= level <= 3 && j < Span(level)
    ensures IsEntry(d, 0, level, j, 0)
  {}

  /** The next 128^(level-1) entries of the list are those below entry i. */
  lemma {:induction false} PartEntries(d: Disk, a: nat, level: nat, i: nat, out: seq<nat>, part: seq<nat>)
    requires 2 <= level <= 3 && 0 < a < |d| && i < NIND && |out| == i * Span(level - 1)
    requires forall j :: 0 <= j < |out| ==> IsEntry(d, a, level, j, out[j])
    requires |part| == Span(level - 1)
    requires forall j :: 0 <= j < |part| ==> IsEntry(d, Ptr(d[a], i), level - 1, j, part[j])
    ensures forall j :: 0 <= j < |out + part| ==> IsEntry(d, a, level, j, (out + part)[j])
  {
    hide EntryAt;
    forall j | 0 <= j < |out + part| ensures IsEntry(d, a, level, j, (out + part)[j]) {
      if j < |out| {
        assert (out + part)[j] == out[j];
      } else {
        EntrySplit(d, a, level, i, j - |out|);
        assert part[j - |out|] == (out + part)[j];
      }
    }
  }

  lemma {:induction false} EntrySplit(d: Disk, a: nat, level: nat, i: nat, j: nat)
    requires 2 <= level <= 3 && 0 < a < |d| && i < NIND && j < Span(level - 1)
    ensures i * Span(level - 1) + j < Span(level)
    ensures EntryAt(d, a, level, i * Span(level - 1) + j) == EntryAt(d, Ptr(d[a], i), level - 1, j)
  {
    var e := Span(level - 1);
    assert (i * e + j) / e == i && (i * e + j) % e == j;
  }

  lemma UnderCounts(d: Disk, addr: Addr)
    ensures forall slot :: 10 <= slot < NADDR ==>
              (ListedUnder(d, addr, slot) == if addr[slot] == 0 then 0 else Span(slot - 9))
  {}

  lemma ListedParts(d: Disk, addr: Addr, k: nat)
    requires k < ND + ListedUnder(d, addr, 10) + ListedUnder(d, addr, 11) + ListedUnder(d, addr, 12)
    ensures var k1 := ND + ListedUnder(d, addr, 10);
            var k2 := k1 + ListedUnder(d, addr, 11);
            ListedAt(d, addr, k) ==
            if k < ND then addr[k]
            else if k < k1 then EntryAt(d, addr[10], 1, k - ND)
            else if k < k2 then EntryAt(d, addr[11], 2, k - k1)
            else EntryAt(d, addr[12], 3, k - k2)
  {}

  /** Inode.blocks: the direct addresses and the three lists, cut to the file's length. */
  method Blocks(img: Image, ip: Inode) returns (out: seq<nat>)
    requires GoodTree(DiskOf(img), ip.addr)
    ensures |out| == ListedCount(DiskOf(img), ip.addr, (ip.size + BSIZE - 1) / BSIZE)
    ensures forall k :: 0 <= k < |out| ==> out[k] == ListedAt(DiskOf(img), ip.addr, k)
  {
    hide EntryAt, GoodPointers, ListedAt, ListedUnder;
    UnderCounts(DiskOf(img), ip.addr);
    var n := (ip.size + BSIZE - 1) / BSIZE;
    var one := Indirect(img, ip.addr[10], 1);
    var two := Indirect(img, ip.addr[11], 2);
    var three := Indirect(img, ip.addr[12], 3);
    out := ip.addr[..ND] + one + two + three;
    forall k | 0 <= k < |out| ensures out[k] == ListedAt(DiskOf(img), ip.addr, k) {
      ListedParts(DiskOf(img), ip.addr, k);
    }
    if n < |out| {
      out := out[..n];
    }
  }

  /** What Inode.data returns, given the list of blocks. */
  ghost predicate IsData(d: Disk, blocks: seq<nat>, size: nat, data: seq<byte>) {
    && |data| == (if size < 512 * |blocks| then size else 512 * |blocks|)
    && forall x :: 0 <= x < |data| ==> data[x] == BlockOrZero(d, blocks[x / 512])[x % 512]
  }

  /** Inode.data. */
  method Data(img: Image, ip: Inode) returns (data: seq<byte>, ghost blocks: seq<nat>)
    requires GoodTree(DiskOf(img), ip.addr)
    ensures !HasContents(ip.mode) ==> data == []
    ensures HasContents(ip.mode) ==>
              && |blocks| == ListedCount(DiskOf(img), ip.addr, (ip.size + BSIZE - 1) / BSIZE)
              && (forall k :: 0 <= k < |blocks| ==> blocks[k] == ListedAt(DiskOf(img), ip.addr, k))
              && IsData(DiskOf(img), blocks, ip.size, data)
  {
    data, blocks := [], [];
    TypesOfMode(0);
    if IsDevice(ip.mode) {
      return;
    }
    var list := Blocks(img, ip);
    blocks := list;
    var i: nat := 0;
    while i < |list|
      invariant i <= |list| && |data| == 512 * i
      invariant forall x :: 0 <= x < |data| ==> data[x] == BlockOrZero(DiskOf(img), list[x / 512])[x % 512]
    {
      ghost var was := data;
      var b := if list[i] != 0 && list[i] < NBlocks(img) then BlockOf(img, list[i]) else ZERO;
      data := data + b;
      forall x | 0 <= x < |data| ensures data[x] == BlockOrZero(DiskOf(img), list[x / 512])[x % 512] {
        if x >= |was| {
          assert x / 512 == i && x % 512 == x - 512 * i;
        }
      }
      i := i + 1;
    }
    if ip.size < |data| {
      data := data[..ip.size];
    }
  }

  // ------------------------------------------------- when the list is the block map

  /** First logical block under an indirect slot. */
  function FirstUnder(slot: nat): nat
    requires 10 <= slot < NADDR
  {
    if slot == 10 then ND else if slot == 11 then ND + SINGLE else ND + SINGLE + DOUBLE
  }

  /** No empty indirect slot stands before the end of the file. */
  predicate NoGap(addr: Addr, n: nat) {
    forall slot :: 10 <= slot < NADDR && addr[slot] == 0 ==> n <= FirstUnder(slot)
  }

  /** The list of blocks is the file's block map, in order and complete, when no indirect
      slot that should hold part of the file is empty. */
  lemma {:induction false} ListIsMap(v: Volume, i: nat, n: nat, k: nat)
    requires i < |v.a| && NoGap(v.a[i], n) && n <= MAXBLOCKS && k < n
    ensures ListedCount(v.d, v.a[i], n) == n
    ensures ListedAt(v.d, v.a[i], k) == Node(v, i, LeafOf(k))
  {
    var addr := v.a[i];
    if k >= ND + SINGLE + DOUBLE {
      assert addr[10] != 0 && addr[11] != 0 && addr[12] != 0;
      EntryIsTriple(v, i, k - ND - SINGLE - DOUBLE);
    } else if k >= ND + SINGLE {
      assert addr[10] != 0 && addr[11] != 0;
      EntryIsDouble(v, i, k - ND - SINGLE);
    } else if k >= ND {
      assert addr[10] != 0;
      EntryIsSingle(v, i, k - ND);
    }
  }

  lemma {:induction false} EntryIsSingle(v: Volume, i: nat, j: nat)
    requires i < |v.a| && j < SINGLE
    ensures EntryAt(v.d, v.a[i][10], 1, j) == Node(v, i, LeafOf(ND + j))
  {
    assert Node(v, i, Slot(10)) == v.a[i][10];
  }

  lemma {:induction false} EntryIsDouble(v: Volume, i: nat, j: nat)
    requires i < |v.a| && j < DOUBLE
    ensures EntryAt(v.d, v.a[i][11], 2, j) == Node(v, i, LeafOf(ND + SINGLE + j))
  {
    assert Node(v, i, Slot(11)) == v.a[i][11];
    UnderHeight(Slot(11), j / 128);
    var u := Under(Slot(11), j / 128);
    var n := Node(v, i, u);
    assert n == if v.a[i][11] == 0 || v.a[i][11] >= |v.d| then 0 else Ptr(v.d[v.a[i][11]], j / 128);
    assert LeafOf(ND + SINGLE + j) == Under(u, j % 128);
  }

  lemma {:induction false} EntryIsTriple(v: Volume, i: nat, j: nat)
    requires i < |v.a| && j < TRIPLE
    ensures EntryAt(v.d, v.a[i][12], 3, j) == Node(v, i, LeafOf(ND + SINGLE + DOUBLE + j))
  {
    var d, a := v.d, v.a[i][12];
    assert Node(v, i, Slot(12)) == a;
    UnderHeight(Slot(12), j / 16384);
    var u := Under(Slot(12), j / 16384);
    UnderHeight(u, j / 128 % 128);
    var w := Under(u, j / 128 % 128);
    assert LeafOf(ND + SINGLE + DOUBLE + j) == Under(w, j % 128);
    assert j % 16384 / 128 == j / 128 % 128 && j % 16384 % 128 == j % 128;
    var n, m := Node(v, i, u), Node(v, i, w);
    assert n == if a == 0 || a >= |d| then 0 else Ptr(d[a], j / 16384);
    assert m == if n == 0 || n >= |d| then 0 else Ptr(d[n], j / 128 % 128);
    assert Node(v, i, Under(w, j % 128)) == if m == 0 || m >= |d| then 0 else Ptr(d[m], j % 128);
    EntryThree(d, a, j);
    EntryTwo(d, n, j % 16384);
  }

  lemma EntryThree(d: Disk, a: nat, j: nat)
    requires j < TRIPLE
    ensures EntryAt(d, a, 3, j) ==
            if a == 0 || a >= |d| then 0 else EntryAt(d, Ptr(d[a], j / 16384), 2, j % 16384)
  {}

  lemma {:induction false} EntryTwo(d: Disk, a: nat, j: nat)
    requires j < DOUBLE
    ensures EntryAt(d, a, 2, j) ==
            if a == 0 || a >= |d| then 0
            else var u := Ptr(d[a], j / 128);
                 if u == 0 || u >= |d| then 0 else Ptr(d[u], j % 128)
  {}

  // ------------------------------------------------------------- whole files

  /** cohfs.py returns a file just as the filesystem holds it, holes included, provided that
      no indirect slot that should hold part of the file is empty. */
  lemma {:induction false} DataIsFile(v: Volume, i: nat, size: nat, blocks: seq<nat>, data: seq<byte>)
    requires i < |v.a| && size <= MAXBYTES && NoGap(v.a[i], (size + BSIZE - 1) / BSIZE)
    requires |blocks| == ListedCount(v.d, v.a[i], (size + BSIZE - 1) / BSIZE)
    requires forall k :: 0 <= k < |blocks| ==> blocks[k] == ListedAt(v.d, v.a[i], k)
    requires IsData(v.d, blocks, size, data)
    ensures |data| == size
    ensures forall x :: 0 <= x < size ==> data[x] == FileByte(v, i, x)
  {
    var n := (size + BSIZE - 1) / BSIZE;
    if n > 0 {
      ListIsMap(v, i, n, 0);
    }
    assert |blocks| == n;
    hide ListedAt, ListedCount, LeafOf;
    forall x | 0 <= x < size ensures data[x] == FileByte(v, i, x) {
      ListIsMap(v, i, n, x / 512);
      assert blocks[x / 512] == Node(v, i, LeafOf(x / 512));
    }
  }

  /** The list of blocks is the file's block map. */
  ghost predicate IsMap(v: Volume, i: nat, n: nat, blocks: seq<nat>)
    requires i < |v.a| && n <= MAXBLOCKS
  {
    |blocks| == n && forall k :: 0 <= k < n ==> blocks[k] == Node(v, i, LeafOf(k))
  }

  /** For a file whose last block is there (the kernel writes no other) Inode.blocks is right
      exactly when no indirect slot that should hold part of the file is empty. */
  lemma {:induction false} ListIsMapExactly(v: Volume, free: set<nat>, lo: nat, hi: nat, i: nat, n: nat, blocks: seq<nat>)
    requires Partition(v, free, lo, hi) && i < |v.a| && 0 < n <= MAXBLOCKS && Node(v, i, LeafOf(n - 1)) != 0
    requires |blocks| == ListedCount(v.d, v.a[i], n)
    requires forall k :: 0 <= k < |blocks| ==> blocks[k] == ListedAt(v.d, v.a[i], k)
    ensures IsMap(v, i, n, blocks) <==> NoGap(v.a[i], n)
  {
    hide ListedAt, ListedCount, LeafOf, Partition;
    if NoGap(v.a[i], n) {
      ListIsMap(v, i, n, 0);
      forall k | 0 <= k < n ensures blocks[k] == Node(v, i, LeafOf(k)) {
        ListIsMap(v, i, n, k);
      }
    } else {
      GapMisreads(v, free, lo, hi, i, n, blocks);
    }
  }

  /** With an empty slot on the way, the entry of the last block comes out wrong, or not at all. */
  lemma {:induction false} GapMisreads(v: Volume, free: set<nat>, lo: nat, hi: nat, i: nat, n: nat, blocks: seq<nat>)
    requires Partition(v, free, lo, hi) && i < |v.a| && 0 < n <= MAXBLOCKS && !NoGap(v.a[i], n)
    requires Node(v, i, LeafOf(n - 1)) != 0
    requires |blocks| == ListedCount(v.d, v.a[i], n)
    requires forall k :: 0 <= k < |blocks| ==> blocks[k] == ListedAt(v.d, v.a[i], k)
    ensures |blocks| < n || blocks[n - 1] != Node(v, i, LeafOf(n - 1))
  {
    if |blocks| == n {
      var m := ShiftedLeaf(v, i, n - 1);
      LeafBijection(m, LeafOf(n - 1));
      LeafBijection(n - 1, LeafOf(m));
      assert InVolume(v, i, LeafOf(m)) && InVolume(v, i, LeafOf(n - 1));
    }
  }

  /** Behind an empty slot the list holds some other logical block's entry, further on. */
  lemma {:induction false} ShiftedLeaf(v: Volume, i: nat, k: nat) returns (m: nat)
    requires i < |v.a| && !NoGap(v.a[i], k + 1)
    requires k < ND + ListedUnder(v.d, v.a[i], 10) + ListedUnder(v.d, v.a[i], 11) + ListedUnder(v.d, v.a[i], 12)
    ensures k < m < MAXBLOCKS && ListedAt(v.d, v.a[i], k) == Node(v, i, LeafOf(m))
  {
    var addr := v.a[i];
    var slot :| 10 <= slot < NADDR && addr[slot] == 0 && k + 1 > FirstUnder(slot);
    var k1 := ND + ListedUnder(v.d, addr, 10);
    var k2 := k1 + ListedUnder(v.d, addr, 11);
    if k < k2 {
      m := ND + SINGLE + (k - k1);
      EntryIsDouble(v, i, k - k1);
    } else {
      m := ND + SINGLE + DOUBLE + (k - k2);
      EntryIsTriple(v, i, k - k2);
    }
  }

  // ---- a file that is misread

  /** One file whose only data is byte 0 of logical block 138, the first below slot 11: blocks 2
      and 3 are its index blocks, block 4 its data, and slot 10 is empty. */
  function GapVolume(): Volume {
    Volume([ZERO, ZERO, SetPtr(ZERO, 0, 3), SetPtr(ZERO, 0, 4), ZERO[0 := 7]], [NOADDR[11 := 2]])
  }

  /** The volume comes about by putting three free blocks into an empty tree. */
  lemma {:induction false} GapVolumeOK(v: Volume)
    requires v == GapVolume()
    ensures Partition(v, {}, 2, 5) && Node(v, 0, LeafOf(138)) == 4
  {
    hide Partition, SetPtr, Ptr;
    var top, mid := Slot(11), Under(Slot(11), 0);
    UnderHeight(top, 0);
    UnderHeight(mid, 0);
    var none := Volume([ZERO, ZERO, ZERO, ZERO, ZERO[0 := 7]], [NOADDR]);
    var one := Volume(none.d, v.a);
    var two := Volume(none.d[2 := SetPtr(ZERO, 0, 3)], v.a);
    NoFiles(none, {2, 3, 4}, 2, 5);
    ZeroPtr(0);
    GrowKeepsPartition(none, one, {2, 3, 4}, 2, 5, 0, top, 2);
    assert {2, 3, 4} - {2} == {3, 4} && {3, 4} - {3} == {4} && {4} - {4} == {};
    GrowKeepsPartition(one, two, {3, 4}, 2, 5, 0, mid, 3);
    GrowKeepsPartition(two, v, {4}, 2, 5, 0, Under(mid, 0), 4);
  }

  lemma {:induction false} NoFiles(v: Volume, free: set<nat>, lo: nat, hi: nat)
    requires 0 < lo <= hi <= |v.d| && hi <= 0x1_0000_0000 && v.a == [NOADDR]
    requires forall b :: b in free <==> lo <= b < hi
    ensures Partition(v, free, lo, hi)
  {
    forall i, p | InVolume(v, i, p) ensures Node(v, i, p) == 0 {
      EmptyTree(v.d, p);
    }
  }

  lemma {:induction false} EmptyTree(d: Disk, p: Path)
    requires ValidPath(p)
    ensures NodeAt(d, NOADDR, p) == 0
  {
    if p.Under? {
      EmptyTree(d, p.up);
    }
  }

  /** Inode.data shows the byte of block 138 at the beginning of block 10, and a zero in its place. */
  lemma {:induction false} GapExample(v: Volume, size: nat, blocks: seq<nat>, data: seq<byte>)
    requires v == GapVolume() && size == 138 * 512 + 1
    requires |blocks| == ListedCount(v.d, v.a[0], 139)
    requires forall k :: 0 <= k < |blocks| ==> blocks[k] == ListedAt(v.d, v.a[0], k)
    requires IsData(v.d, blocks, size, data)
    ensures |data| == size
    ensures FileByte(v, 0, 138 * 512) == 7 && data[138 * 512] == 0
    ensures FileByte(v, 0, 10 * 512) == 0 && data[10 * 512] == 7
  {
    hide ListedAt, ListedCount, LeafOf, EntryAt, Node, Zeroes;
    GapVolumeOK(v);
    GapEntries(v);
    assert blocks[138] == 0 && blocks[10] == 4;
    assert ZERO[0 := 7][0] == 7 && ZERO[0] == 0;
  }

  lemma {:induction false} GapEntries(v: Volume)
    requires v == GapVolume()
    ensures ListedCount(v.d, v.a[0], 139) == 139
    ensures ListedAt(v.d, v.a[0], 10) == 4 && ListedAt(v.d, v.a[0], 138) == 0
    ensures Node(v, 0, LeafOf(10)) == 0
  {
    hide SetPtr, Ptr, EntryAt;
    SetPtrExact(ZERO, 0, 3, 0);
    SetPtrExact(ZERO, 0, 3, 1);
    SetPtrExact(ZERO, 0, 4, 0);
    ZeroPtr(0);
    ZeroPtr(1);
    EntryTwo(v.d, 2, 0);
    EntryTwo(v.d, 2, 128);
    assert Node(v, 0, Slot(10)) == 0;
  }
}
