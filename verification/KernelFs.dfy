/**
  The kernel's filesystem code: free-block list (fs2.c), block map, reading and writing
  (fs3.c) and truncation (fs1.c).  The buffer cache is seen through: a block read gives
  the disk's contents and a released modified buffer is on the disk.
 */
module KernelFs {
  import opened Lists
  import opened Layout
  import opened FreeChain
  import opened TreeSets

  /** daddr_add's list with the new block put before the first smaller one. */
  function InsertDown(s: seq<nat>, b: nat): (r: seq<nat>)
    ensures |r| == |s| + 1
  {
    if s == [] then [b]
    else if b > s[0] then [b] + s
    else [s[0]] + InsertDown(s[1..], b)
  }

  lemma {:induction false} InsertDownPermutes(s: seq<nat>, b: nat)
    ensures multiset(InsertDown(s, b)) == multiset(s) + multiset{b}
  {
    if s != [] {
      assert s == [s[0]] + s[1..];
      InsertDownPermutes(s[1..], b);
    }
  }

  predicate Falling(s: seq<nat>) {
    forall i, j :: 0 <= i < j < |s| ==> s[i] > s[j]
  }

  lemma {:induction false} InsertDownFalls(s: seq<nat>, b: nat)
    requires Falling(s) && b !in s
    ensures Falling(InsertDown(s, b))
  {
    if s != [] && b <= s[0] {
      InsertDownFalls(s[1..], b);
      InsertDownMembers(s[1..], b);
      var t := InsertDown(s[1..], b);
      forall j | 0 <= j < |t| ensures s[0] > t[j] {
        assert t[j] in t;
      }
    }
  }

  lemma {:induction false} InsertDownAt(s: seq<nat>, b: nat, i: nat)
    requires i <= |s|
    requires forall j :: 0 <= j < i ==> b <= s[j]
    requires i == |s| || b > s[i]
    ensures InsertDown(s, b) == s[..i] + [b] + s[i..]
  {
    if i > 0 {
      InsertDownAt(s[1..], b, i - 1);
      FrontAndBack(s, b, i);
    } else {
      assert s[..0] == [] && s[0..] == s;
    }
  }

  lemma FrontAndBack(s: seq<nat>, b: nat, i: nat)
    requires 0 < i <= |s|
    ensures [s[0]] + (s[1..][..i - 1] + [b] + s[1..][i - 1..]) == s[..i] + [b] + s[i..]
  {
    assert [s[0]] + s[1..][..i - 1] == s[..i] && s[1..][i - 1..] == s[i..];
  }

  lemma {:induction false} Shifted(s: seq<nat>, t: seq<nat>, i: nat, b: nat, out: nat)
    requires i < |s| == |t| && out == s[|s| - 1] && t[i] == b
    requires forall j :: 0 <= j < i ==> t[j] == s[j]
    requires forall j :: i < j < |s| ==> t[j] == s[j - 1]
    requires (forall j :: 0 <= j < i ==> b <= s[j]) && b > s[i]
    ensures t + [out] == InsertDown(s, b)
  {
    InsertDownAt(s, b, i);
    assert t + [out] == s[..i] + [b] + s[i..];
  }

  /** The shift inside daddr_add: move list[at..end] up by one over the last entry. */
  method ShiftIn(list: array<nat>, at: nat, end: nat, newblock: nat) returns (out: nat)
    requires at < end <= list.Length
    modifies list
    ensures out == old(list[end - 1])
    ensures forall j :: 0 <= j < list.Length && !(at <= j < end) ==> list[j] == old(list[j])
    ensures list[at] == newblock
    ensures forall j :: at < j < end ==> list[j] == old(list[j - 1])
  {
    out := list[end - 1];
    var e := end - 1;
    while at != e
      invariant at <= e <= end - 1
      invariant forall j :: 0 <= j < list.Length && !(e < j < end) ==> list[j] == old(list[j])
      invariant forall j :: e < j < end ==> list[j] == old(list[j - 1])
      decreases e - at
    {
      e := e - 1;
      list[e + 1] := list[e];
    }
    list[at] := newblock;
  }

  /** daddr_add on list[from..from+count], in place: the list keeps its length and the entry
      pushed out at the end is returned; 0 tells of a block that was in the list already. */
  method DaddrAdd(list: array<nat>, from: nat, count: nat, newblock: nat) returns (out: nat)
    requires from + count <= list.Length
    modifies list
    ensures forall i :: 0 <= i < list.Length && !(from <= i < from + count) ==> list[i] == old(list[i])
    ensures newblock !in old(list[from..from + count]) ==>
              list[from..from + count] + [out] == InsertDown(old(list[from..from + count]), newblock)
    ensures out == 0 && newblock != 0 && 0 !in old(list[from..from + count]) ==>
              newblock in old(list[from..from + count]) && list[..] == old(list[..])
  {
    ghost var s := list[from..from + count];
    var end := from + count;
    var i := from;
    while i != end
      invariant from <= i <= end
      invariant list[..] == old(list[..])
      invariant forall j :: 0 <= j < i - from ==> newblock < s[j]
      decreases end - i
    {
      assert list[i] == s[i - from];
      if newblock == list[i] {
        return 0;
      }
      if newblock > list[i] {
        out := ShiftIn(list, i, end, newblock);
        Shifted(s, list[from..end], i - from, newblock, out);
        return;
      }
      i := i + 1;
    }
    InsertDownAt(s, newblock, count);
    assert s[..count] + [newblock] + s[count..] == s + [newblock];
    return newblock;
  }

  /** The superblock's list with a freed block put in, its last entry still to be stored. */
  function NewList(l: seq<nat>, b: nat, sorted: bool): seq<nat> {
    if sorted && l != [] then [l[0]] + InsertDown(l[1..], b) else l + [b]
  }

  /** Putting the new block in keeps the list's members apart, its link first and its order. */
  lemma {:induction false} NewListInserted(l: seq<nat>, b: nat, sorted: bool)
    requires NoDup(l) && b !in l
    ensures Inserted(l, b, NewList(l, b, sorted))
  {
    if sorted && l != [] {
      var t := InsertDown(l[1..], b);
      assert l == [l[0]] + l[1..];
      InsertDownMembers(l[1..], b);
      InsertDownNoDup(l[1..], b);
      forall j | 0 <= j < |t| ensures l[0] != t[j] {
        assert t[j] in t;
      }
      assert Elements(NewList(l, b, sorted)) == Elements(l) + {b};
    }
  }

  lemma {:induction false} NewListDescends(l: seq<nat>, b: nat)
    requires NoDup(l) && b !in l && Descending(l)
    ensures Descending(NewList(l, b, true))
  {
    if l != [] {
      forall i, j | 0 <= i < j < |l[1..]| ensures l[1..][i] > l[1..][j] {
        assert l[1..][i] == l[i + 1] && l[1..][j] == l[j + 1];
      }
      InsertDownFalls(l[1..], b);
    }
  }

  lemma {:induction false} InsertDownMembers(s: seq<nat>, b: nat)
    ensures forall x :: x in InsertDown(s, b) <==> x in s || x == b
  {
    InsertDownPermutes(s, b);
    forall x ensures x in InsertDown(s, b) <==> x in s || x == b {
      assert x in InsertDown(s, b) <==> x in multiset(InsertDown(s, b));
      assert x in s <==> x in multiset(s);
    }
  }

  lemma {:induction false} InsertDownNoDup(s: seq<nat>, b: nat)
    requires NoDup(s) && b !in s
    ensures NoDup(InsertDown(s, b))
  {
    if s != [] && b <= s[0] {
      InsertDownNoDup(s[1..], b);
      InsertDownMembers(s[1..], b);
      var t := InsertDown(s[1..], b);
      forall j | 0 <= j < |t| ensures s[0] != t[j] {
        assert t[j] in t;
      }
    }
  }

  // --------------------------------------------------------------- block map

  /** The path whose steps lmap lists from the leaf up to the inode's slot. */
  function PathOf(list: seq<nat>): Path
    requires list != []
  {
    if |list| == 1 then Slot(list[0]) else Under(PathOf(list[1..]), list[0])
  }

  /** The place j entries further on in the same index block or among the direct slots. */
  function Sibling(p: Path, j: nat): Path {
    match p
    case Slot(n) => Slot(n + j)
    case Under(up, i) => Under(up, i + j)
  }

  /** How many blocks from k on have neighbouring entries. */
  function RunLength(k: nat): nat {
    if k < ND then ND - k else 128 - (k - ND) % 128
  }

  /** Over the count lmap reports only the leaf index moves. */
  lemma {:induction false} LeafRun(k: nat, j: nat)
    requires k < MAXBLOCKS && j < RunLength(k)
    ensures k + j < MAXBLOCKS && LeafOf(k + j) == Sibling(LeafOf(k), j)
  {
    hide LeafOf;
    if k < ND + SINGLE {
      LeafRunLow(k, j);
    } else if ND + SINGLE + DOUBLE <= k {
      ModShift(k - ND - SINGLE - DOUBLE, 129);
      LeafRunTriple(k - ND - SINGLE - DOUBLE, j);
      LeafRunTriple(k - ND - SINGLE - DOUBLE, 0);
    } else {
      ModShift(k - ND - SINGLE, 1);
      LeafRunDouble(k - ND - SINGLE, j);
      LeafRunDouble(k - ND - SINGLE, 0);
    }
  }

  lemma {:induction false} ModShift(a: nat, t: nat)
    ensures (a + 128 * t) % 128 == a % 128
  {}

  lemma {:induction false} LeafRunLow(k: nat, j: nat)
    requires k < ND + SINGLE && j < RunLength(k)
    ensures k + j < MAXBLOCKS && LeafOf(k + j) == Sibling(LeafOf(k), j)
  {}

  lemma {:induction false} LeafRunDouble(m: nat, j: nat)
    requires m < DOUBLE && m % 128 + j < 128
    ensures m + j < DOUBLE
    ensures LeafOf(ND + SINGLE + m + j) == Under(Under(Slot(11), m / 128), m % 128 + j)
  {
  }

  lemma {:induction false} LeafRunTriple(m: nat, j: nat)
    requires m < TRIPLE && m % 128 + j < 128
    ensures m + j < TRIPLE
    ensures LeafOf(ND + SINGLE + DOUBLE + m + j)
            == Under(Under(Under(Slot(12), m / 16384), m / 128 % 128), m % 128 + j)
  {
    SameBlock(m, j);
    SameBlock16384(m, j);
  }

  lemma {:induction false} SameBlock(m: nat, j: nat)
    requires m % 128 + j < 128
    ensures (m + j) / 128 == m / 128 && (m + j) % 128 == m % 128 + j
  {}

  lemma {:induction false} SameBlock16384(m: nat, j: nat)
    requires m % 128 + j < 128
    ensures (m + j) / 16384 == m / 16384
  {
    SameBlock(m, j);
    assert (m + j) / 16384 == (m + j) / 128 / 128;
    assert m / 16384 == m / 128 / 128;
  }

  /** lmap: fill list with the entry indices from the leaf up, and count the neighbours;
      0 is returned (for NULL, with EFBIG) past the triple-indirect range. */
  method LMap(blockofs: nat, list: array<nat>) returns (listp: nat, numblocks: nat)
    requires list.Length == 4
    modifies list
    ensures listp == 0 <==> blockofs >= MAXBLOCKS
    ensures listp != 0 ==> listp <= 4 && PathOf(list[..listp]) == LeafOf(blockofs)
    ensures listp != 0 ==> numblocks == RunLength(blockofs)
  {
    var ofs := blockofs;
    if ofs < ND {
      list[0] := ofs;
      assert list[..1] == [ofs];
      return 1, ND - ofs;
    }
    ofs := ofs - ND;
    var n := ofs % NIND;
    numblocks := NIND - n;
    list[0] := n;
    ofs := ofs / NIND;
    if ofs == 0 {
      list[1] := ND;
      assert list[..2] == [n, ND];
      assert [n, ND][1..] == [ND];
      return 2, numblocks;
    }
    ofs := ofs - 1;
    var n1 := ofs % NIND;
    list[1] := n1;
    ofs := ofs / NIND;
    if ofs == 0 {
      list[2] := ND + 1;
      PathOf3(list[..3], n, n1);
      return 3, numblocks;
    }
    ofs := ofs - 1;
    var n2 := ofs % NIND;
    list[2] := n2;
    ofs := ofs / NIND;
    if ofs == 0 {
      list[3] := ND + 2;
      PathOf4(list[..4], n, n1, n2);
      LMapTriple(blockofs);
      return 4, numblocks;
    }
    return 0, 0;
  }

  lemma {:induction false} PathOfOne(l: nat)
    ensures PathOf([l]) == Slot(l)
  {}

  lemma {:induction false} PathOf3(s: seq<nat>, n: nat, n1: nat)
    requires s == [n, n1, 11]
    ensures PathOf(s) == Under(Under(Slot(11), n1), n)
  {
    assert s[1..] == [n1, 11] && [n1, 11][1..] == [11];
    assert PathOf([11]) == Slot(11);
    assert PathOf([n1, 11]) == Under(Slot(11), n1);
  }

  lemma {:induction false} PathOf4(s: seq<nat>, n: nat, n1: nat, n2: nat)
    requires s == [n, n1, n2, 12]
    ensures PathOf(s) == Under(Under(Under(Slot(12), n2), n1), n)
  {
    assert s[1..] == [n1, n2, 12] && [n1, n2, 12][1..] == [n2, 12] && [n2, 12][1..] == [12];
    assert PathOf([12]) == Slot(12);
    assert PathOf([n2, 12]) == Under(Slot(12), n2);
    assert PathOf([n1, n2, 12]) == Under(Under(Slot(12), n2), n1);
  }

  lemma {:induction false} LMapTriple(k: nat)
    requires k >= ND && (k - ND) / 128 >= 1 && ((k - ND) / 128 - 1) / 128 >= 1
    requires (((k - ND) / 128 - 1) / 128 - 1) / 128 == 0
    ensures k < MAXBLOCKS
    ensures LeafOf(k) == Under(Under(Under(Slot(12), (((k - ND) / 128 - 1) / 128 - 1) % 128),
                                     ((k - ND) / 128 - 1) % 128), (k - ND) % 128)
  {
    var m := k - ND - SINGLE - DOUBLE;
    var u := (k - ND) / 128 - 1;
    assert u == m / 128 + 128 && (k - ND) % 128 == m % 128;
    assert u / 128 - 1 == m / 128 / 128 && u % 128 == m / 128 % 128;
    assert m / 128 / 128 == m / 16384;
  }

  /** The steps above a leaf: after the first `pos` entries of the list, pos levels remain. */
  lemma {:induction false} Ancestor(list: seq<nat>, pos: nat)
    requires pos < |list| && ValidPath(PathOf(list)) && Height(PathOf(list)) == 0
    ensures ValidPath(PathOf(list[pos..])) && Height(PathOf(list[pos..])) == pos
    ensures pos > 0 ==> PathOf(list[pos - 1..]) == Under(PathOf(list[pos..]), list[pos - 1])
    ensures pos > 0 ==> list[pos - 1] < NIND
  {
    if pos == 0 {
      assert list[0..] == list;
    } else {
      Ancestor(list, pos - 1);
      assert list[pos - 1..][1..] == list[pos..];
    }
  }

  /** Both volumes hold the same files. */
  ghost predicate SameContent(v: Volume, w: Volume) {
    |w.a| == |v.a| &&
    forall j, k: nat :: 0 <= j < |v.a| && k < MAXBLOCKS ==> FileBlock(w, j, k) == FileBlock(v, j, k)
  }

  /** A new, clear block in a tree changes no file. */
  lemma {:induction false} GrowSame(v: Volume, w: Volume, free: set<nat>, lo: nat, hi: nat, i: int, p: Path, b: nat)
    requires Partition(v, free, lo, hi) && b in free && Grown(v, w, i, p, b) && w.d[b] == ZERO
    ensures Partition(w, free - {b}, lo, hi) && Node(w, i, p) == b
    ensures SameContent(v, w) && SameBut(v, w, i, p)
  {
    GrowKeepsPartition(v, w, free, lo, hi, i, p, b);
    GrowSameBut(v, w, free, lo, hi, i, p, b);
    forall j, k: nat | 0 <= j < |v.a| && k < MAXBLOCKS ensures FileBlock(w, j, k) == FileBlock(v, j, k) {
      GrowContent(v, w, free, lo, hi, i, p, b, j, k);
    }
  }

  /** The places still to come on a way can only add to what is missing. */
  lemma {:induction false} MissingGrows(v: Volume, i: int, steps: seq<nat>, pos: nat)
    requires pos < |steps| && ValidPath(PathOf(steps)) && Height(PathOf(steps)) == 0 && 0 <= i < |v.a|
    ensures ValidPath(PathOf(steps[pos..]))
    ensures |Missing(v, i, PathOf(steps[pos..]))| <= |Missing(v, i, PathOf(steps))|
  {
    Ancestor(steps, pos);
    if pos == 0 {
      assert steps[0..] == steps;
    } else {
      MissingGrows(v, i, steps, pos - 1);
      MissingUnder(v, i, PathOf(steps[pos..]), steps[pos - 1]);
    }
  }

  /** The entry found on the way down tells whether one more was missing at the start. */
  lemma {:induction false} StepCounts(u: Volume, v: Volume, i: int, up: Path, l: nat)
    requires SameBut(u, v, i, up) && InVolume(u, i, Under(up, l))
    ensures InVolume(v, i, Under(up, l))
    ensures |Missing(u, i, Under(up, l))|
            == |Missing(u, i, up)| + if Node(v, i, Under(up, l)) == 0 then 1 else 0
  {
    MissingUnder(u, i, up, l);
    if Below(Under(up, l), up) {
      BelowDepth(Under(up, l), up);
    }
  }

  class FileSystem {
    var disk: Disk            // the blocks of the device
    var addr: seq<Addr>       // i_addr of each inode
    var size: seq<nat>        // i_size of each inode
    const sfree: array<nat>   // s_free
    var nfree: nat            // s_nfree
    var tfree: nat            // s_tfree
    const isize: nat          // s_isize, the first data block
    const fsize: nat          // s_fsize
    const sortblocks: bool    // t_sortblocks
    ghost var chain: Chain

    ghost function Vol(): Volume
      reads this
    {
      Volume(disk, addr)
    }

    ghost function Free(): set<nat>
      reads this
    {
      FreeSet(chain)
    }

    ghost predicate TreesOK(d: Disk)
      reads this
    {
      0 < isize <= fsize && |addr| == |size|
      && Partition(Volume(d, addr), Free(), isize, fsize)
      && forall i :: 0 <= i < |size| ==> size[i] <= MAXBYTES
    }

    ghost predicate Valid()
      reads this, sfree
    {
      FreeOK() && TreesOK(disk)
    }

    ghost predicate FreeOK()
      reads `disk, `nfree, `tfree, `chain, sfree
    {
      && sfree.Length == NICFREE && nfree <= NICFREE
      && 0 < isize <= fsize <= |disk| && fsize <= 0x1_0000_0000
      && sfree[..nfree] == ListOf(chain)
      && ChainOK(disk, chain, isize, fsize)
      && tfree == Count(chain)
    }

    /** With sorting on, positions 1 up of every batch are strictly descending. */
    ghost predicate Sorted()
      reads `chain
    {
      sortblocks ==> AllDescending(chain)
    }

    /** A mounted filesystem: the device's blocks, the inodes in core and the superblock. */
    constructor (d: Disk, inodes: seq<Addr>, sizes: seq<nat>, list: seq<nat>, total: nat,
                 first: nat, end: nat, sorted: bool, ghost c: Chain)
      requires 0 < first <= end <= |d| && end <= 0x1_0000_0000 && |list| <= NICFREE
      requires list == ListOf(c) && ChainOK(d, c, first, end) && total == Count(c)
      requires |sizes| == |inodes| && forall i :: 0 <= i < |sizes| ==> sizes[i] <= MAXBYTES
      requires Partition(Volume(d, inodes), FreeSet(c), first, end)
      ensures Valid() && fresh(sfree)
      ensures Vol() == Volume(d, inodes) && size == sizes && chain == c && sortblocks == sorted
    {
      hide ChainOK, FreeSet, Partition, Descending;
      disk, addr, size := d, inodes, sizes;
      nfree, tfree, isize, fsize, sortblocks := |list|, total, first, end, sorted;
      sfree := new nat[NICFREE](i => if 0 <= i < |list| then list[i] else 0);
      chain := c;
      new;
      assert sfree[..nfree] == list;
    }

    /** balloc: the last block of the superblock's list, or 0 when there is none. */
    method BAlloc() returns (b: nat)
      requires FreeOK()
      modifies this`nfree, this`tfree, this`chain, sfree
      ensures FreeOK()
      ensures b == 0 <==> old(Free()) == {}
      ensures b == 0 ==> chain == old(chain)
      ensures b != 0 ==> b in old(Free()) && Free() == old(Free()) - {b} && isize <= b < fsize
      ensures b != 0 ==> chain == Pop(old(chain)) && b == Top(old(chain))
      ensures old(Sorted()) ==> Sorted()
    {
      hide ChainOK, FreeSet, Stored, AllDescending, Descending;
      ChainHead(disk, chain, isize, fsize);
      if nfree == 0 || nfree > NICFREE {
        nfree := 0;
        return 0;
      }
      PopExact(disk, chain, isize, fsize);
      PopDescends(chain);
      ChainHead(disk, Pop(chain), isize, fsize);
      nfree := nfree - 1;
      b := sfree[nfree];
      sfree[nfree] := 0;
      if nfree == 0 {
        nfree := LoadBatch(disk[b], ListOf(Pop(chain)));
      }
      chain := Pop(chain);
      tfree := tfree - 1;
    }

    /** The part of balloc that takes in the batch kept in the block just handed out. */
    method LoadBatch(blk: Block, ghost l: seq<nat>) returns (n: nat)
      requires Stored(blk, l) && sfree.Length == NICFREE
      modifies sfree
      ensures n == |l| && n <= NICFREE && sfree[..n] == l
    {
      n := Word(blk, 0);
      var i := 0;
      while i < NICFREE
        invariant 0 <= i <= NICFREE
        invariant forall j :: 0 <= j < i ==> sfree[j] == FreeEntry(blk, j)
      {
        sfree[i] := FreeEntry(blk, i);
        i := i + 1;
      }
    }

    /** bfree: the block goes into the superblock's list, or takes a full list in. */
    method BFree(block: nat)
      requires FreeOK() && block !in Free()
      modifies this`disk, this`nfree, this`tfree, this`chain, sfree
      ensures FreeOK() && |disk| == old(|disk|)
      ensures isize <= block < fsize ==> Free() == old(Free()) + {block} && tfree == old(tfree) + 1
      ensures !(isize <= block < fsize) ==> chain == old(chain) && disk == old(disk)
      ensures forall n :: 0 <= n < |disk| && n !in Free() ==> disk[n] == old(disk[n])
      ensures isize <= block < fsize ==>
                chain == PushList(old(chain), NewList(ListOf(old(chain)), block, sortblocks))
      ensures old(Sorted()) ==> Sorted()
    {
      hide ChainOK, FreeSet, Stored, AllDescending, NewList, PushList, ListOf;
      if block >= fsize || block < isize {
        return;
      }
      KeepsSorted(disk, chain, isize, fsize, block, sortblocks);
      PutFree(block);
    }

    /** The rest of bfree, for a block of the filesystem. */
    method PutFree(block: nat)
      requires FreeOK() && block !in Free() && isize <= block < fsize
      modifies this`disk, this`nfree, this`tfree, this`chain, sfree
      ensures FreeOK() && |disk| == old(|disk|) && Free() == old(Free()) + {block} && tfree == old(tfree) + 1
      ensures forall n :: 0 <= n < |disk| && n !in Free() ==> disk[n] == old(disk[n])
      ensures chain == PushList(old(chain), NewList(ListOf(old(chain)), block, sortblocks))
    {
      hide ChainOK, FreeSet, Stored, AllDescending, Descending, Inserted, NewList, NoDup;
      ghost var m := NewList(ListOf(chain), block, sortblocks);
      ChainHead(disk, chain, isize, fsize);
      NewListInserted(ListOf(chain), block, sortblocks);
      MembersInRange(disk, chain, isize, fsize, block, m);
      var b := SortIn(block);
      assert m[..nfree] == sfree[..nfree] && m[nfree] == b;
      StoreLast(block, b, m);
    }

    /** The second part of bfree: b goes to the end of the list, the list into b first when
        it is empty or full. */
    method StoreLast(block: nat, b: nat, ghost m: seq<nat>)
      requires sfree.Length == NICFREE && nfree <= NICFREE && fsize <= |disk| && fsize <= 0x1_0000_0000
      requires ChainOK(disk, chain, isize, fsize) && isize <= block < fsize && block !in Free()
      requires Inserted(ListOf(chain), block, m) && |m| == nfree + 1
      requires forall i :: 0 <= i < |m| ==> isize <= m[i] < fsize && m[i] < |disk|
      requires sfree[..nfree] == m[..nfree] && b == m[nfree]
      modifies this`disk, this`nfree, this`tfree, this`chain, sfree
      ensures nfree <= NICFREE && sfree[..nfree] == ListOf(chain)
      ensures ChainOK(disk, chain, isize, fsize) && chain == PushList(old(chain), m)
      ensures Free() == old(Free()) + {block} && Count(chain) == Count(old(chain)) + 1
      ensures tfree == old(tfree) + 1 && |disk| == old(|disk|) && b in Free()
      ensures forall n :: 0 <= n < |disk| && n != b ==> disk[n] == old(disk[n])
    {
      hide ChainOK, FreeSet, NoDup, Elements;
      if nfree == 0 || nfree == NICFREE {
        var full := PackBatch(nfree, sfree[..]);
        assert m[..nfree] == sfree[..][..nfree];
        StoredPack(full, sfree[..], m[..nfree]);
        disk := disk[b := full];
        nfree := 0;
      }
      PushExact(old(disk), disk, chain, isize, fsize, block, m);
      sfree[nfree] := b;
      nfree := nfree + 1;
      tfree := tfree + 1;
      LastIsFree(chain, block, m);
      chain := PushList(chain, m);
    }

    /** The first part of bfree: with sorting on, the new block is put in its place and the
        smallest of the list comes out to be stored at its end. */
    method SortIn(block: nat) returns (b: nat)
      requires FreeOK() && block !in Free() && block != 0
      modifies sfree
      ensures sfree[..nfree] + [b] == NewList(old(sfree[..nfree]), block, sortblocks)
    {
      b := block;
      if sortblocks && nfree > 0 {
        ghost var l := sfree[..nfree];
        assert sfree[1..nfree] == l[1..] && l == ListOf(chain);
        b := DaddrAdd(sfree, 1, nfree - 1, b);
        assert sfree[..nfree] == [l[0]] + sfree[1..nfree];
      }
    }

    // ------------------------------------------------------ reading with allocation

    /** aread, an empty slot of the inode: allocate and note the block there. */
    method RootAlloc(ino: nat, l: nat) returns (block: nat)
      requires Valid() && ino < |addr| && l < NADDR && addr[ino][l] == 0
      modifies this`addr, this`nfree, this`tfree, this`chain, sfree
      ensures FreeOK() && |addr| == old(|addr|) && Free() <= old(Free())
      ensures block == 0 ==> addr == old(addr) && chain == old(chain) && Free() == {}
      ensures block != 0 ==>
                && block < |disk|
                && TreesOK(disk[block := ZERO]) && SameContent(old(Vol()), Volume(disk[block := ZERO], addr))
                && Node(Volume(disk[block := ZERO], addr), ino, Slot(l)) == block
                && SameBut(old(Vol()), Volume(disk[block := ZERO], addr), ino, Slot(l))
                && |Free()| == |old(Free())| - 1
      ensures old(Sorted()) ==> Sorted()
    {
      hide ChainOK, FreeSet, Partition, SameContent, SameBut, Sorted;
      block := BAlloc();
      if block == 0 {
        return;
      }
      addr := addr[ino := addr[ino][l := block]];
      GrowSame(old(Vol()), Volume(disk[block := ZERO], addr), old(Free()), isize, fsize, ino, Slot(l), block);
    }

    /** aread, an empty entry l of the index block u: allocate, read the index block again
        and store the new number in it. */
    method ChildAlloc(ino: nat, u: nat, l: nat, ghost up: Path) returns (block: nat)
      requires Valid() && InVolume(Vol(), ino, up) && Height(up) > 0 && l < NIND
      requires u == Node(Vol(), ino, up) && u != 0 && u < |disk| && Ptr(disk[u], l) == 0
      modifies this`disk, this`nfree, this`tfree, this`chain, sfree
      ensures FreeOK() && |disk| == old(|disk|) && Free() <= old(Free())
      ensures block == 0 ==> disk == old(disk) && chain == old(chain) && Free() == {}
      ensures block != 0 ==>
                && block < |disk|
                && TreesOK(disk[block := ZERO]) && SameContent(old(Vol()), Volume(disk[block := ZERO], addr))
                && Node(Volume(disk[block := ZERO], addr), ino, Under(up, l)) == block
                && SameBut(old(Vol()), Volume(disk[block := ZERO], addr), ino, Under(up, l))
                && |Free()| == |old(Free())| - 1
      ensures old(Sorted()) ==> Sorted()
    {
      hide ChainOK, FreeSet, Partition, SameContent, SameBut, Sorted;
      PartitionNode(Vol(), Free(), isize, fsize, ino, up);
      block := BAlloc();
      if block == 0 {
        return;
      }
      disk := disk[u := SetPtr(disk[u], l, block)];
      ChainFrame(old(disk), disk, chain, isize, fsize);
      GrowSame(old(Vol()), Volume(disk[block := ZERO], addr), old(Free()), isize, fsize, ino, Under(up, l), block);
    }

    /** The disk with a block that was just allocated read as zeroes: nothing has been written
        to it yet, and it is cleared when the walk comes to it. */
    ghost function Clean(block: nat, isNew: bool): (d: Disk)
      reads this
    {
      if isNew && block < |disk| then disk[block := ZERO] else disk
    }

    /** `need` blocks were to be allocated: without them nothing is handed out and all that is free
        has gone, otherwise just they have gone. */
    ghost predicate Taken(block: nat, before: nat, after: nat, need: nat) {
      (block == 0 <==> need > before) && after == if block == 0 then 0 else before - need
    }

    /** The walk of aread has come to `block`, the block of file ino at path p. */
    ghost predicate WalkAt(ino: nat, p: Path, block: nat, isNew: bool)
      reads this, sfree
    {
      && FreeOK() && TreesOK(Clean(block, isNew)) && ino < |addr| && ValidPath(p)
      && block != 0 && isize <= block < fsize && block !in Free()
      && block == Node(Volume(Clean(block, isNew), addr), ino, p)
    }

    /** aread, first step: the inode's slot. */
    method WalkRoot(ino: nat, l: nat) returns (block: nat, isNew: bool)
      requires Valid() && ino < |addr| && l < NADDR
      modifies this`addr, this`nfree, this`tfree, this`chain, sfree
      ensures |addr| == old(|addr|) && Free() <= old(Free())
      ensures block == 0 ==> Valid() && Free() == {} && !isNew
      ensures block != 0 ==> WalkAt(ino, Slot(l), block, isNew)
      ensures Taken(block, |old(Free())|, |Free()|, |Missing(old(Vol()), ino, Slot(l))|)
      ensures block != 0 ==> SameBut(old(Vol()), Volume(Clean(block, isNew), addr), ino, Slot(l))
      ensures SameContent(old(Vol()), Volume(Clean(block, isNew), addr))
      ensures old(Sorted()) ==> Sorted()
    {
      hide ChainOK, FreeSet, Partition, SameContent, SameBut, Sorted;
      SameRefl(Vol());
      SameButSelf(Vol(), ino, Slot(l));
      block := addr[ino][l];
      isNew := block == 0;
      if isNew {
        block := RootAlloc(ino, l);
        if block == 0 {
          return 0, false;
        }
      }
      PartitionNode(Volume(Clean(block, isNew), addr), Free(), isize, fsize, ino, Slot(l));
    }

    /** aread, next step: entry l of the index block just reached, cleared first if new. */
    method WalkDown(ino: nat, block: nat, wasNew: bool, l: nat, ghost up: Path) returns (next: nat, isNew: bool)
      requires WalkAt(ino, up, block, wasNew) && Height(up) > 0 && l < NIND
      modifies this`disk, this`nfree, this`tfree, this`chain, sfree
      ensures |disk| == old(|disk|) && Free() <= old(Free())
      ensures next == 0 ==> Valid() && Free() == {} && isNew == false
      ensures next != 0 ==> WalkAt(ino, Under(up, l), next, isNew)
      ensures Taken(next, |old(Free())|, |Free()|,
                    if Node(old(Volume(Clean(block, wasNew), addr)), ino, Under(up, l)) == 0 then 1 else 0)
      ensures next != 0 ==>
                SameBut(old(Volume(Clean(block, wasNew), addr)), Volume(Clean(next, isNew), addr), ino, Under(up, l))
      ensures SameContent(old(Volume(Clean(block, wasNew), addr)), Volume(Clean(next, isNew), addr))
      ensures old(Sorted()) ==> Sorted()
    {
      hide ChainOK, FreeSet, Partition, SameContent, SameBut, Sorted;
      ghost var v := Volume(Clean(block, wasNew), addr);
      if wasNew {
        disk := disk[block := ZERO];
        ChainFrame(old(disk), disk, chain, isize, fsize);
      }
      assert Vol() == v;
      SameRefl(v);
      SameButSelf(v, ino, Under(up, l));
      next := Ptr(disk[block], l);
      isNew := next == 0;
      if isNew {
        next := ChildAlloc(ino, block, l, up);
        if next == 0 {
          return 0, false;
        }
      }
      PartitionNode(Volume(Clean(next, isNew), addr), Free(), isize, fsize, ino, Under(up, l));
    }

    /** aread: walk the path of a block, allocating whatever is missing, and return the
        block's number and buffer.  A claimed buffer holds `stale`, anything at all, since
        its caller is about to overwrite it. */
    method ARead(ino: nat, blkofs: nat, claim: bool, stale: Block)
      returns (block: nat, buf: Block, isNew: bool)
      requires Valid() && ino < |addr|
      modifies this`disk, this`addr, this`nfree, this`tfree, this`chain, sfree
      ensures |addr| == old(|addr|) && |disk| == old(|disk|) && Free() <= old(Free())
      ensures SameContent(old(Vol()), Volume(Clean(block, isNew), addr))
      ensures block == 0 ==> Valid() && !isNew
      ensures blkofs >= MAXBLOCKS ==> block == 0 && Vol() == old(Vol()) && chain == old(chain)
      ensures blkofs < MAXBLOCKS ==>
                Taken(block, |old(Free())|, |Free()|, |Missing(old(Vol()), ino, LeafOf(blkofs))|)
      ensures block != 0 ==> blkofs < MAXBLOCKS && WalkAt(ino, LeafOf(blkofs), block, isNew)
      ensures block != 0 ==> FilledIn(old(Vol()), Volume(Clean(block, isNew), addr), ino, LeafOf(blkofs))
      ensures block != 0 && !claim ==> buf == Clean(block, isNew)[block]
      ensures old(Sorted()) ==> Sorted()
    {
      hide ChainOK, FreeSet, Partition, SameContent, WalkAt, Clean, FreeOK, TreesOK, LeafOf, PathOf, Sorted;
      hide Missing, SameBut, FilledIn;
      buf := stale;
      CleanOld(0);
      SameRefl(Vol());
      var list := new nat[4];
      var listp: nat, nblocks: nat := LMap(blkofs, list);
      if listp == 0 {
        return 0, buf, false;
      }
      ghost var steps := list[..listp];
      listp := listp - 1;
      Ancestor(steps, listp);
      assert |steps[listp..]| == 1 && steps[listp..][0] == list[listp];
      assert steps[listp..] == [list[listp]];
      PathOfOne(list[listp]);
      block, isNew := WalkRoot(ino, list[listp]);
      MissingGrows(old(Vol()), ino, steps, listp);
      if block == 0 {
        return;
      }
      while listp != 0
        invariant old(Sorted()) ==> Sorted()
        invariant listp < |steps| && steps == list[..|steps|]
        invariant ValidPath(PathOf(steps[listp..])) && Height(PathOf(steps[listp..])) == listp
        invariant WalkAt(ino, PathOf(steps[listp..]), block, isNew)
        invariant |disk| == old(|disk|) && |addr| == old(|addr|) && Free() <= old(Free())
        invariant SameContent(old(Vol()), Volume(Clean(block, isNew), addr))
        invariant block != 0 && SameBut(old(Vol()), Volume(Clean(block, isNew), addr), ino, PathOf(steps[listp..]))
        invariant Taken(block, |old(Free())|, |Free()|, |Missing(old(Vol()), ino, PathOf(steps[listp..]))|)
        decreases listp
      {
        ghost var v := Volume(Clean(block, isNew), addr);
        Ancestor(steps, listp);
        listp := listp - 1;
        Ancestor(steps, listp);
        block, isNew := WalkDown(ino, block, isNew, list[listp], PathOf(steps[listp + 1..]));
        SameTrans(old(Vol()), v, Volume(Clean(block, isNew), addr));
        StepCounts(old(Vol()), v, ino, PathOf(steps[listp + 1..]), list[listp]);
        MissingGrows(old(Vol()), ino, steps, listp);
        if block == 0 {
          return;
        }
        SameButDown(old(Vol()), v, Volume(Clean(block, isNew), addr), ino, PathOf(steps[listp + 1..]), list[listp]);
      }
      assert steps[0..] == steps;
      WalkFilled(old(Vol()), ino, LeafOf(blkofs), block, isNew);
      if !claim {
        WalkInRange(ino, LeafOf(blkofs), block, isNew);
        buf := if isNew then ZERO else disk[block];
      }
    }

    lemma {:induction false} WalkInRange(ino: nat, p: Path, block: nat, isNew: bool)
      requires WalkAt(ino, p, block, isNew)
      ensures block < |disk|
      ensures Clean(block, isNew)[block] == if isNew then ZERO else disk[block]
    {}

    lemma {:induction false} WalkFilled(v: Volume, ino: nat, p: Path, block: nat, isNew: bool)
      requires WalkAt(ino, p, block, isNew) && SameBut(v, Volume(Clean(block, isNew), addr), ino, p)
      ensures FilledIn(v, Volume(Clean(block, isNew), addr), ino, p)
    {
      FilledAbove(v, Volume(Clean(block, isNew), addr), ino, p);
    }

    lemma {:induction false} CleanOld(block: nat)
      ensures Clean(block, false) == disk
    {}

    // --------------------------------------------------------------------- writing

    /** One turn of fwrite: get the block (claimed when all of it is overwritten), put the
        bytes in and let it go. */
    method WriteBlock(ino: nat, lbn: nat, off: nat, chunk: seq<byte>, stale: Block) returns (ok: bool)
      requires Valid() && ino < |addr| && off + |chunk| <= BSIZE
      modifies this`disk, this`addr, this`nfree, this`tfree, this`chain, sfree
      ensures Valid() && |addr| == old(|addr|) && Free() <= old(Free())
      ensures ok <==> lbn < MAXBLOCKS && |Missing(old(Vol()), ino, LeafOf(lbn))| <= |old(Free())|
      ensures !ok ==> SameContent(old(Vol()), Vol())
      ensures !ok ==> if lbn >= MAXBLOCKS then Vol() == old(Vol()) && chain == old(chain) else Free() == {}
      ensures ok ==> OneBlockWritten(old(Vol()), Vol(), ino, lbn, off, chunk)
      ensures ok ==> FilledIn(old(Vol()), Vol(), ino, LeafOf(lbn))
      ensures ok ==> |Free()| == |old(Free())| - |Missing(old(Vol()), ino, LeafOf(lbn))|
      ensures old(Sorted()) ==> Sorted()
    {
      hide ChainOK, FreeSet, Partition, SameContent, LeafOf, OneBlockWritten, Sorted, Missing, FilledIn;
      var com := off == 0 && |chunk| == BSIZE;
      var block, buf, isNew := ARead(ino, lbn, com, stale);
      if block == 0 {
        return false;
      }
      ghost var v := Volume(Clean(block, isNew), addr);
      ghost var was := disk;
      disk := disk[block := Splice(buf, off, chunk)];
      ChainFrame(was, disk, chain, isize, fsize);
      LeafWrite(v, Vol(), Free(), isize, fsize, ino, lbn);
      FilledThenWritten(old(Vol()), v, Vol(), ino, LeafOf(lbn));
      assert buf == v.d[block] || com;
      WrittenSame(old(Vol()), v, Vol(), ino, lbn, off, chunk);
      return true;
    }

    lemma TreesMeans()
      requires TreesOK(disk)
      ensures 0 < isize <= fsize && |addr| == |size| && Partition(Vol(), Free(), isize, fsize)
      ensures forall i :: 0 <= i < |size| ==> size[i] <= MAXBYTES
    {}

    lemma SizesFit()
      requires 0 < isize <= fsize && |addr| == |size| && Partition(Vol(), Free(), isize, fsize)
      requires forall i :: 0 <= i < |size| ==> size[i] <= MAXBYTES
      ensures TreesOK(disk)
    {}

    /** fwrite on a regular file: `n` bytes are written before the volume or the file is full. */
    method FWrite(ino: nat, seek: nat, data: seq<byte>, stale: Block) returns (n: nat)
      requires Valid() && ino < |addr|
      modifies this`disk, this`addr, this`size, this`nfree, this`tfree, this`chain, sfree
      ensures Valid() && |addr| == old(|addr|) && n <= |data|
      ensures n > 0 ==> seek + n <= MAXBYTES
      ensures Enough(old(Vol()), ino, seek / BSIZE, Spans(seek, n), |old(Free())|)
      ensures n < |data| ==> n == 0 || (seek + n) % BSIZE == 0
      ensures n < |data| ==> !Enough(old(Vol()), ino, seek / BSIZE, Spans(seek, n) + 1, |old(Free())|)
      ensures n == |data| || seek + n >= MAXBYTES ==>
                |Free()| == |old(Free())| - |MissingRun(old(Vol()), ino, seek / BSIZE, Spans(seek, n))|
      ensures n < |data| && seek + n < MAXBYTES ==> Free() == {}
      ensures BytesWritten(old(Vol()), Vol(), ino, seek, data[..n])
      ensures size == old(size)[ino := if n > 0 && seek + n > old(size[ino]) then seek + n else old(size[ino])]
      ensures old(Sorted()) ==> Sorted()
    {
      hide ChainOK, FreeSet, Partition, SameContent, OneBlockWritten, BytesWritten, Sorted;
      hide MissingRun, Missing, Supplied, FilledIn, Enough, Spans, FreeOK, LeafOf, TreesOK, NodeAt;
      var lbn: nat, off: nat := seek / BSIZE, seek % BSIZE;
      n := 0;
      ghost var first: nat, turns: nat := lbn, 0;
      TreesMeans();
      NothingWritten(Vol(), ino, seek);
      NothingSupplied(Vol(), ino, first, |Free()|);
      SpansNone(seek);
      assert size == size[ino := size[ino]];
      while n < |data|
        invariant old(Sorted()) ==> Sorted()
        invariant Valid() && |addr| == old(|addr|) && n <= |data|
        invariant n < |data| ==> 512 * lbn + off == seek + n && off < BSIZE
        invariant n > 0 ==> seek + n <= MAXBYTES
        invariant lbn == first + turns && turns == Spans(seek, n)
        invariant n < |data| ==> n == 0 || off == 0
        invariant Supplied(old(Vol()), Vol(), ino, first, turns, |old(Free())|, |Free()|)
        invariant BytesWritten(old(Vol()), Vol(), ino, seek, data[..n])
        invariant size == old(size)[ino := if n > 0 && seek + n > old(size[ino]) then seek + n else old(size[ino])]
        decreases |data| - n
      {
        var m := if |data| - n < BSIZE - off then |data| - n else BSIZE - off;
        ghost var v := Vol();
        if lbn < MAXBLOCKS {
          RunGrows(old(Vol()), Vol(), ino, first, turns, |old(Free())|, |Free()|);
        }
        SpansMore(seek, n, m, lbn, off);
        ghost var mid := |Free()|;
        TreesMeans();
        var ok := WriteBlock(ino, lbn, off, data[n..n + m], stale);
        if !ok {
          WrittenThenSame(old(Vol()), v, Vol(), ino, seek, data[..n]);
          SuppliedSoFar(old(Vol()), v, ino, first, turns, |old(Free())|, mid);
          return;
        }
        WrittenMore(old(Vol()), v, Vol(), ino, seek, data, n, m, lbn, off);
        RunSupplied(old(Vol()), v, Vol(), ino, first, turns, |old(Free())|, mid, |Free()|);
        lbn, off, turns := lbn + 1, 0, turns + 1;
        n := n + m;
        TreesMeans();
        if seek + n > size[ino] {
          size := size[ino := seek + n];
          SizesFit();
        }
      }
      assert data[..n] == data;
      SuppliedSoFar(old(Vol()), Vol(), ino, first, turns, |old(Free())|, |Free()|);
    }

    // --------------------------------------------------------------------- reading

    /** Entry `idx` of the inode's slots or of the index block `buf`. */
    function Entry(ino: nat, root: bool, buf: Block, idx: nat): nat
      requires ino < |addr| && idx < (if root then NADDR else NIND)
      reads this
    {
      if root then addr[ino][idx] else Ptr(buf, idx)
    }

    /** buf holds the contents of a block that is there. */
    ghost predicate BlockHeld(block: nat, buf: Block)
      reads this
    {
      0 < block < |disk| && buf == disk[block]
    }

    /** The first loop of vmap: go down to the last index block, or find it missing. */
    method VWalk(ino: nat, steps: seq<nat>) returns (hole: bool, root: bool, buf: Block, ghost pos: nat)
      requires TreesOK(disk) && ino < |addr| && steps != []
      requires ValidPath(PathOf(steps)) && Height(PathOf(steps)) == 0
      ensures hole ==> 0 < pos < |steps| && ValidPath(PathOf(steps[pos..])) && Node(Vol(), ino, PathOf(steps[pos..])) == 0
      ensures !hole ==> root == PathOf(steps).Slot?
      ensures !hole && !root ==> BlockHeld(Node(Vol(), ino, PathOf(steps).up), buf)
    {
      hide Partition, BlockHeld, NodeAt, PathOf, TreesOK, Entry, FreeOK;
      root, buf, hole, pos := true, ZERO, false, 0;
      var listp := |steps| - 1;
      Ancestor(steps, listp);
      LastStep(steps);
      while listp != 0
        invariant 0 <= listp < |steps| && WalksAt(ino, steps, listp, root, buf)
        decreases listp
      {
        pos := listp;
        EntryIs(ino, steps, listp, root, buf);
        var block := Entry(ino, root, buf, steps[listp]);
        if block == 0 {
          hole := true;
          return;
        }
        StepDown(ino, steps, listp, root, buf);
        root, buf := false, disk[block];
        listp := listp - 1;
      }
      assert steps[0..] == steps;
    }

    /** The walk stands before step i: at the inode's slots, or with the index block in buf. */
    ghost predicate WalksAt(ino: nat, steps: seq<nat>, i: nat, root: bool, buf: Block)
      requires i < |steps|
      reads this
    {
      && ValidPath(PathOf(steps[i..])) && Height(PathOf(steps[i..])) == i && ino < |addr|
      && root == PathOf(steps[i..]).Slot? && (root ==> i == |steps| - 1)
      && (!root ==> BlockHeld(Node(Vol(), ino, PathOf(steps[i..]).up), buf))
    }

    lemma LastStep(steps: seq<nat>)
      requires steps != []
      ensures steps[|steps| - 1..] == [steps[|steps| - 1]]
      ensures PathOf(steps[|steps| - 1..]).Slot?
    {}

    lemma {:induction false} EntryIs(ino: nat, steps: seq<nat>, i: nat, root: bool, buf: Block)
      requires 0 < i < |steps| && WalksAt(ino, steps, i, root, buf)
      ensures steps[i] < if root then NADDR else NIND
      ensures Entry(ino, root, buf, steps[i]) == Node(Vol(), ino, PathOf(steps[i..]))
    {
      assert steps[i..][0] == steps[i] && steps[i..][1..] == steps[i + 1..];
    }

    lemma {:induction false} StepDown(ino: nat, steps: seq<nat>, i: nat, root: bool, buf: Block)
      requires TreesOK(disk) && 0 < i < |steps| && WalksAt(ino, steps, i, root, buf)
      requires ValidPath(PathOf(steps)) && Height(PathOf(steps)) == 0
      requires Node(Vol(), ino, PathOf(steps[i..])) != 0
      ensures var block := Node(Vol(), ino, PathOf(steps[i..]));
              block < |disk| && WalksAt(ino, steps, i - 1, false, disk[block])
    {
      hide Partition, NodeAt;
      Ancestor(steps, i);
      Ancestor(steps, i - 1);
      PartitionNode(Vol(), Free(), isize, fsize, ino, PathOf(steps[i..]));
    }

    /** vmap: the numbers of up to `count` neighbouring blocks, EMPTY_BLOCK for holes. */
    method VMap(ino: nat, blockofs: nat, count: nat) returns (ok: bool, blocks: seq<int>)
      requires TreesOK(disk) && ino < |addr| && count > 0
      ensures ok <==> blockofs < MAXBLOCKS
      ensures ok ==> |blocks| == Min(count, RunLength(blockofs))
      ensures ok ==> forall j :: 0 <= j < |blocks| ==> blocks[j] == Mapped(Vol(), ino, blockofs + j)
    {
      hide Partition, LeafOf, Mapped;
      blocks := [];
      var list := new nat[4];
      var listp: nat, nblocks: nat := LMap(blockofs, list);
      if listp == 0 {
        return false, [];
      }
      if nblocks > count {
        nblocks := count;
      }
      ghost var steps := list[..listp];
      var hole, root, buf, pos := VWalk(ino, list[..listp]);
      if hole {
        HoleRun(Vol(), ino, steps, pos, blockofs, nblocks);
        blocks := seq(nblocks, _ => EMPTY_BLOCK);
        return true, blocks;
      }
      while |blocks| < nblocks
        invariant |blocks| <= nblocks == Min(count, RunLength(blockofs)) && steps == list[..listp]
        invariant forall j :: 0 <= j < |blocks| ==> blocks[j] == Mapped(Vol(), ino, blockofs + j)
        decreases nblocks - |blocks|
      {
        EntryRun(Vol(), ino, steps, blockofs, |blocks|);
        var block := Entry(ino, root, buf, list[0] + |blocks|);
        blocks := blocks + [if block == 0 then EMPTY_BLOCK else block];
      }
      return true, blocks;
    }

    /** One turn of fread: bytes of a mapped block, or zeroes for a hole (ioclear). */
    method ReadChunk(ino: nat, k: nat, block: int, off: nat, n: nat) returns (chunk: seq<byte>)
      requires TreesOK(disk) && ino < |addr| && k < MAXBLOCKS && off + n <= BSIZE
      requires block == Mapped(Vol(), ino, k)
      ensures |chunk| == n && ReadsAs(Vol(), ino, 512 * k + off, chunk)
    {
      hide Partition, LeafOf, FileByte, Mapped;
      MappedBytes(Vol(), Free(), isize, fsize, ino, k, off, n);
      if block == EMPTY_BLOCK {
        return Zeroes(n);
      }
      return disk[block][off..off + n];
    }

    /** fread on a regular file: the bytes up to the end of the file, zeroes in holes,
        whatever the number of blocks mapped ahead. */
    method FRead(ino: nat, seek: nat, ioc: nat, ahead: nat) returns (data: seq<byte>)
      requires Valid() && ino < |addr|
      ensures |data| == ReadCount(size[ino], seek, ioc)
      ensures ReadsAs(Vol(), ino, seek, data)
    {
      hide Partition, LeafOf, FileByte, Mapped, ReadsAs, FreeOK, ChainOK, FreeSet;
      ReadsNothing(Vol(), ino, seek);
      data := [];
      if seek > size[ino] {
        return;
      }
      var res: nat := if size[ino] - seek > ioc then ioc else size[ino] - seek;
      if res == 0 {
        return;
      }
      var lbn: nat, off: nat := seek / BSIZE, seek % BSIZE;
      var abn: nat, zbn: nat := 0, 0;
      var list: seq<int> := [];
      var maxblk := (size[ino] + BSIZE - 1) / BSIZE;
      while res > 0
        invariant |data| + res == ReadCount(size[ino], seek, ioc)
        invariant res > 0 ==> 512 * lbn + off == seek + |data| && off < BSIZE
        invariant abn <= lbn && zbn == abn + |list|
        invariant forall j :: 0 <= j < |list| ==> list[j] == Mapped(Vol(), ino, abn + j)
        invariant ReadsAs(Vol(), ino, seek, data)
        decreases res
      {
        if lbn >= zbn {
          var count := (res + BSIZE - 1) / BSIZE + ahead;
          if count > READGROUP + READAHEAD {
            count := READGROUP + READAHEAD;
          }
          if lbn + count >= maxblk {
            count := maxblk - lbn;
          }
          var ok;
          ok, list := VMap(ino, lbn, count);
          abn, zbn := lbn, lbn + |list|;
        }
        var n := if res < BSIZE - off then res else BSIZE - off;
        var chunk := ReadChunk(ino, lbn, list[lbn - abn], off, n);
        ReadsMore(Vol(), ino, seek, data, chunk);
        data := data + chunk;
        lbn, off := lbn + 1, 0;
        res := res - n;
      }
    }

    // ------------------------------------------------------------------ truncating

    /** indfree: give back the tree below a pointer.  Its entries are read from a copy, since
        the block itself, like any block given back, may be overwritten with a free batch
        before the walk is over. */
    method IndFree(b: nat, level: nat)
      requires FreeOK() && Apart(disk, b, level) && TreeSet(disk, b, level) !! Free()
      requires forall x :: x in TreeSet(disk, b, level) ==> isize <= x < fsize
      modifies this`disk, this`nfree, this`tfree, this`chain, sfree
      ensures FreeOK() && |disk| == old(|disk|)
      ensures Free() == old(Free()) + TreeSet(old(disk), b, level)
      ensures forall n :: 0 <= n < |disk| && n !in Free() ==> disk[n] == old(disk[n])
      ensures old(Sorted()) ==> Sorted()
      decreases level
    {
      hide ChainOK, FreeSet, Children, ChildrenApart, Sorted;
      if b == 0 {
        return;
      }
      if level > 0 {
        ghost var d := disk;
        var copy := disk[b];
        var l := level - 1;
        var i: nat := NIND;
        LevelSets(d, b, level);
        while i > 0
          invariant old(Sorted()) ==> Sorted()
          invariant i <= NIND && FreeOK() && |disk| == |d|
          invariant Free() + Children(d, copy, l, i) == old(Free()) + Children(d, copy, l, NIND)
          invariant Free() !! Children(d, copy, l, i) && b !in Free()
          invariant ChildrenApart(d, copy, l, i) && b !in Children(d, copy, l, i)
          invariant forall x :: x in Children(d, copy, l, i) ==> isize <= x < fsize
          invariant forall n :: 0 <= n < |disk| && n !in Free() ==> disk[n] == d[n]
          decreases i
        {
          ChildrenStep(d, copy, l, i);
          i := i - 1;
          var b1 := Ptr(copy, i);
          if b1 == 0 {
            continue;
          }
          TreeFrame(d, disk, b1, l);
          if l == 0 {
            BFree(b1);
          } else {
            IndFree(b1, l);
          }
        }
        ChildrenNone(d, copy, l);
      }
      BFree(b);
    }

    /** One turn of itruncate: the tree below slot k. */
    method FreeSlot(k: nat, a: Addr, ghost ino: nat, ghost v: Volume, ghost free0: set<nat>)
      requires k < NADDR && FreeOK() && ino < |v.a| && a == v.a[ino] && |v.d| == |disk|
      requires Partition(v, free0, isize, fsize)
      requires TruncatedTo(v.d, a, free0, k + 1)
      modifies this`disk, this`nfree, this`tfree, this`chain, sfree
      ensures FreeOK() && |disk| == old(|disk|)
      ensures TruncatedTo(v.d, a, free0, k)
      ensures old(Sorted()) ==> Sorted()
    {
      hide ChainOK, FreeSet, Apart, TreeSet, SlotTrees, Partition, Sorted;
      SlotsApart(v, free0, isize, fsize, ino, k);
      SlotStep(v.d, a, k);
      SlotsInRange(v, free0, isize, fsize, ino);
      SlotsGrow(v.d, a, k + 1);
      TreeFrame(v.d, disk, a[k], SlotHeight(k));
      if a[k] != 0 {
        if k >= ND {
          IndFree(a[k], 1 + k - ND);
        } else {
          DirectTree(disk, a[k]);
          BFree(a[k]);
        }
      } else {
        NoTree(v.d, SlotHeight(k));
      }
    }

    /** The loops of itruncate: the index slots, then the direct ones. */
    method FreeSlots(a: Addr, ghost ino: nat, ghost v: Volume, ghost free0: set<nat>)
      requires FreeOK() && ino < |v.a| && a == v.a[ino] && |v.d| == |disk|
      requires Partition(v, free0, isize, fsize) && TruncatedTo(v.d, a, free0, NADDR)
      modifies this`disk, this`nfree, this`tfree, this`chain, sfree
      ensures FreeOK() && |disk| == old(|disk|) && TruncatedTo(v.d, a, free0, 0)
      ensures old(Sorted()) ==> Sorted()
    {
      hide ChainOK, FreeSet, SlotTrees, Partition, TruncatedTo, Sorted;
      var n := NADDR;
      while n > ND
        invariant ND <= n <= NADDR && FreeOK() && |disk| == |v.d| && TruncatedTo(v.d, a, free0, n)
        invariant old(Sorted()) ==> Sorted()
        decreases n
      {
        n := n - 1;
        FreeSlot(n, a, ino, v, free0);
      }
      while n > 0
        invariant 0 <= n <= ND && FreeOK() && |disk| == |v.d| && TruncatedTo(v.d, a, free0, n)
        invariant old(Sorted()) ==> Sorted()
        decreases n
      {
        n := n - 1;
        FreeSlot(n, a, ino, v, free0);
      }
    }

    /** The slots from k on have been given back; the blocks of the others are untouched. */
    ghost predicate TruncatedTo(d: Disk, a: Addr, free0: set<nat>, k: nat)
      requires k <= NADDR
      reads this
    {
      && |d| == |disk|
      && Free() + SlotTrees(d, a, k) == free0 + SlotTrees(d, a, NADDR)
      && Free() !! SlotTrees(d, a, k)
      && forall n :: 0 <= n < |disk| && n !in Free() ==> disk[n] == d[n]
    }

    lemma {:induction false} TruncateStart(a: Addr)
      requires Free() !! SlotTrees(disk, a, NADDR)
      ensures TruncatedTo(disk, a, Free(), NADDR)
    {}

    lemma {:induction false} TruncateEnd(d: Disk, a: Addr, free0: set<nat>)
      requires TruncatedTo(d, a, free0, 0)
      ensures |d| == |disk| && Free() == free0 + SlotTrees(d, a, NADDR)
      ensures forall n :: 0 <= n < |disk| && n !in Free() ==> disk[n] == d[n]
    {
      NoSlots(d, a);
    }

    /** itruncate on a regular file or directory: every block of the file, index blocks
        included, goes back to the free list, each once, and nothing else does. */
    method ITruncate(ino: nat)
      requires Valid() && ino < |addr|
      modifies this`disk, this`addr, this`size, this`nfree, this`tfree, this`chain, sfree
      ensures Valid() && addr == old(addr)[ino := NOADDR] && size == old(size)[ino := 0]
      ensures Free() == old(Free()) + SlotTrees(old(disk), old(addr[ino]), NADDR)
      ensures old(Free()) !! SlotTrees(old(disk), old(addr[ino]), NADDR)
      ensures tfree == |Free()|
      ensures forall k: nat :: k < MAXBLOCKS ==> FileBlock(Vol(), ino, k) == ZERO
      ensures forall j, k: nat :: 0 <= j < |addr| && j != ino && k < MAXBLOCKS ==>
                FileBlock(Vol(), j, k) == FileBlock(old(Vol()), j, k)
      ensures old(Sorted()) ==> Sorted()
    {
      hide ChainOK, FreeSet, SlotTrees, Partition, FileBlock, TruncatedTo, Sorted;
      ghost var v, free0 := Vol(), Free();
      var a := addr[ino];
      SlotsInRange(v, free0, isize, fsize, ino);
      TruncateStart(a);
      FreeSlots(a, ino, v, free0);
      TruncateEnd(v.d, a, free0);
      addr := addr[ino := NOADDR];
      size := size[ino := 0];
      TruncateKeepsPartition(v, Vol(), free0, isize, fsize, ino);
      CountIsSize(disk, chain, isize, fsize);
    }
  }

  lemma {:induction false} SlotsGrow(d: Disk, a: Addr, n: nat)
    requires n <= NADDR
    ensures SlotTrees(d, a, n) <= SlotTrees(d, a, NADDR)
    decreases NADDR - n
  {
    if n < NADDR {
      SlotsGrow(d, a, n + 1);
    }
  }

  const READGROUP: nat := 16
  const READAHEAD: nat := 8

  function ReadCount(size: nat, seek: nat, ioc: nat): nat {
    if seek > size then 0 else if size - seek > ioc then ioc else size - seek
  }

  /** data is what file i holds from seek on. */
  ghost predicate ReadsAs(v: Volume, i: nat, seek: nat, data: seq<byte>)
    requires i < |v.a|
  {
    forall j: nat :: j < |data| ==> ReadsByte(v, i, seek, data, j)
  }

  ghost predicate ReadsByte(v: Volume, i: nat, seek: nat, data: seq<byte>, j: nat)
    requires i < |v.a| && j < |data|
  {
    seek + j < MAXBYTES && data[j] == FileByte(v, i, seek + j)
  }

  lemma {:induction false} ReadsNothing(v: Volume, i: nat, seek: nat)
    requires i < |v.a|
    ensures ReadsAs(v, i, seek, [])
  {}

  lemma {:induction false} ReadsAt(v: Volume, i: nat, seek: nat, data: seq<byte>, j: nat)
    requires i < |v.a| && ReadsAs(v, i, seek, data) && j < |data|
    ensures seek + j < MAXBYTES && data[j] == FileByte(v, i, seek + j)
  {
    assert ReadsByte(v, i, seek, data, j);
  }

  lemma {:induction false} ReadsMore(v: Volume, i: nat, seek: nat, a: seq<byte>, b: seq<byte>)
    requires i < |v.a| && ReadsAs(v, i, seek, a) && ReadsAs(v, i, seek + |a|, b)
    ensures ReadsAs(v, i, seek, a + b)
  {
    forall j: nat | j < |a + b| ensures ReadsByte(v, i, seek, a + b, j) {
      if j < |a| {
        assert ReadsByte(v, i, seek, a, j);
      } else {
        assert ReadsByte(v, i, seek + |a|, b, j - |a|);
        assert seek + |a| + (j - |a|) == seek + j;
      }
    }
  }

  /** Bytes read through a mapped block number are the file's bytes. */
  lemma {:induction false} MappedBytes(v: Volume, free: set<nat>, lo: nat, hi: nat, i: nat, k: nat, off: nat, n: nat)
    requires Partition(v, free, lo, hi) && i < |v.a| && k < MAXBLOCKS && off + n <= BSIZE
    ensures var b := Mapped(v, i, k);
            && (b == EMPTY_BLOCK || 0 < b < |v.d|)
            && forall x :: 512 * k + off <= x < 512 * k + off + n ==>
                 x < MAXBYTES && FileByte(v, i, x) == if b == EMPTY_BLOCK then 0 else v.d[b][x - 512 * k]
  {
    assert InVolume(v, i, LeafOf(k));
    var b := Mapped(v, i, k);
    forall x | 512 * k + off <= x < 512 * k + off + n
      ensures x < MAXBYTES && FileByte(v, i, x) == if b == EMPTY_BLOCK then 0 else v.d[b][x - 512 * k]
    {
      assert x / 512 == k && x % 512 == x - 512 * k;
    }
  }

  const EMPTY_BLOCK: int := -1

  /** What vmap stores for logical block k. */
  function Mapped(v: Volume, i: nat, k: nat): int
    requires i < |v.a|
  {
    if k >= MAXBLOCKS || Node(v, i, LeafOf(k)) == 0 then EMPTY_BLOCK else Node(v, i, LeafOf(k))
  }

  /** The run of entries after the first all stand in the same place one level up. */
  lemma {:induction false} EntryRun(v: Volume, i: nat, steps: seq<nat>, k: nat, j: nat)
    requires i < |v.a| && steps != [] && k < MAXBLOCKS && j < RunLength(k) && PathOf(steps) == LeafOf(k)
    ensures var p := PathOf(steps);
            && steps[0] + j < (if p.Slot? then NADDR else NIND)
            && (p.Slot? ==> Mapped(v, i, k + j) == BlockOrEmpty(v.a[i][steps[0] + j]))
            && (p.Under? && 0 < Node(v, i, p.up) < |v.d| ==>
                  Mapped(v, i, k + j) == BlockOrEmpty(Ptr(v.d[Node(v, i, p.up)], steps[0] + j)))
  {
    LeafRun(k, j);
    assert ValidPath(LeafOf(k + j));
  }

  function BlockOrEmpty(n: nat): int {
    if n == 0 then EMPTY_BLOCK else n
  }

  /** A missing index block means that the whole run it leads to is missing. */
  lemma {:induction false} HoleRun(v: Volume, i: nat, steps: seq<nat>, pos: nat, k: nat, n: nat)
    requires 0 < pos < |steps| && k < MAXBLOCKS && i < |v.a|
    requires PathOf(steps) == LeafOf(k) && n <= RunLength(k)
    requires ValidPath(PathOf(steps[pos..])) && Node(v, i, PathOf(steps[pos..])) == 0
    ensures forall x :: k <= x < k + n ==> Mapped(v, i, x) == EMPTY_BLOCK
  {
    BelowSteps(steps, pos);
    forall x | k <= x < k + n ensures Mapped(v, i, x) == EMPTY_BLOCK {
      LeafRun(k, x - k);
      BelowEmpty(v, i, PathOf(steps[pos..]), LeafOf(x));
    }
  }

  lemma {:induction false} BelowSteps(steps: seq<nat>, pos: nat)
    requires 0 < pos < |steps|
    ensures PathOf(steps).Under? && Below(PathOf(steps[pos..]), PathOf(steps).up)
  {
    if pos > 1 {
      BelowSteps(steps[1..], pos - 1);
      assert steps[1..][pos - 1..] == steps[pos..];
    }
  }

  /** One block of one file has some of its bytes replaced; everything else reads as before. */
  ghost predicate OneBlockWritten(v: Volume, w: Volume, i: nat, k: nat, off: nat, chunk: seq<byte>)
    requires k < MAXBLOCKS && i < |v.a| && off + |chunk| <= BSIZE
  {
    && |w.a| == |v.a|
    && FileBlock(w, i, k) == Splice(FileBlock(v, i, k), off, chunk)
    && forall j, m: nat :: 0 <= j < |v.a| && m < MAXBLOCKS && !(j == i && m == k) ==>
         FileBlock(w, j, m) == FileBlock(v, j, m)
  }

  lemma {:induction false} WrittenSame(u: Volume, v: Volume, w: Volume, i: nat, k: nat, off: nat, chunk: seq<byte>)
    requires SameContent(u, v) && k < MAXBLOCKS && i < |u.a| && off + |chunk| <= BSIZE && |w.a| == |v.a|
    requires var b := Node(v, i, LeafOf(k));
             && 0 < b < |v.d| && |w.d| == |v.d|
             && exists buf: Block :: w.d[b] == Splice(buf, off, chunk)
                  && (buf == v.d[b] || (off == 0 && |chunk| == BSIZE))
    requires FileBlock(w, i, k) == w.d[Node(v, i, LeafOf(k))]
    requires forall j, m: nat :: 0 <= j < |v.a| && m < MAXBLOCKS && !(j == i && m == k) ==>
               FileBlock(w, j, m) == FileBlock(v, j, m)
    ensures OneBlockWritten(u, w, i, k, off, chunk)
  {
    var b := Node(v, i, LeafOf(k));
    var buf: Block :| w.d[b] == Splice(buf, off, chunk) && (buf == v.d[b] || (off == 0 && |chunk| == BSIZE));
    assert FileBlock(u, i, k) == FileBlock(v, i, k) == v.d[b];
    assert Splice(buf, off, chunk) == Splice(v.d[b], off, chunk);
  }

  /** The bytes from seek on are replaced; every other byte of every file is as before. */
  ghost predicate BytesWritten(v: Volume, w: Volume, i: nat, seek: nat, bytes: seq<byte>)
    requires i < |v.a|
  {
    && |w.a| == |v.a|
    && forall j, x: nat :: 0 <= j < |v.a| && x < MAXBYTES ==>
         FileByte(w, j, x) == if j == i && seek <= x < seek + |bytes| then bytes[x - seek] else FileByte(v, j, x)
  }

  /** The blocks that n bytes from seek on lie in. */
  function Spans(seek: nat, n: nat): nat {
    if n == 0 then 0 else (seek + n - 1) / BSIZE - seek / BSIZE + 1
  }

  lemma SpansNone(seek: nat)
    ensures Spans(seek, 0) == 0
  {}

  /** A piece up to the end of its block, or up to the end of the data, is one block more. */
  lemma {:induction false} SpansMore(seek: nat, n: nat, m: nat, lbn: nat, off: nat)
    requires 0 < m <= BSIZE - off && 512 * lbn + off == seek + n && (n == 0 || off == 0)
    ensures Spans(seek, n + m) == Spans(seek, n) + 1
    ensures off == 0 ==> (seek + n) % BSIZE == 0
    ensures lbn >= MAXBLOCKS <==> seek + n >= MAXBYTES
  {
    assert (seek + n + m - 1) / BSIZE == lbn == (seek + n) / BSIZE;
  }

  lemma SuppliedSoFar(u: Volume, v: Volume, i: int, first: nat, n: nat, before: nat, after: nat)
    requires Supplied(u, v, i, first, n, before, after)
    ensures Enough(u, i, first, n, before) && (first + n >= MAXBLOCKS ==> !Enough(u, i, first, n + 1, before))
    ensures after == before - |MissingRun(u, i, first, n)|
  {}

  lemma {:induction false} FilledThenWritten(u: Volume, v: Volume, w: Volume, i: nat, p: Path)
    requires FilledIn(u, v, i, p) && |w.a| == |v.a|
    requires forall j, q :: InVolume(v, j, q) ==> Node(w, j, q) == Node(v, j, q)
    ensures FilledIn(u, w, i, p)
  {
    forall j, q | InVolume(u, j, q) ensures Node(w, j, q) == Node(v, j, q) {
      assert InVolume(v, j, q);
    }
  }

  lemma {:induction false} NothingWritten(v: Volume, i: nat, seek: nat)
    requires i < |v.a|
    ensures BytesWritten(v, v, i, seek, [])
  {}

  lemma {:induction false} WrittenThenSame(u: Volume, v: Volume, w: Volume, i: nat, seek: nat, bytes: seq<byte>)
    requires i < |u.a| && BytesWritten(u, v, i, seek, bytes) && SameContent(v, w)
    ensures BytesWritten(u, w, i, seek, bytes)
  {
    forall j, x: nat | 0 <= j < |u.a| && x < MAXBYTES ensures FileByte(w, j, x) == FileByte(v, j, x) {
      assert FileBlock(w, j, x / 512) == FileBlock(v, j, x / 512);
    }
  }

  lemma {:induction false} WrittenMore(u: Volume, v: Volume, w: Volume, i: nat, seek: nat, data: seq<byte>,
                                       n: nat, m: nat, lbn: nat, off: nat)
    requires i < |u.a| && n + m <= |data| && BytesWritten(u, v, i, seek, data[..n])
    requires off + m <= BSIZE && 512 * lbn + off == seek + n && lbn < MAXBLOCKS
    requires OneBlockWritten(v, w, i, lbn, off, data[n..n + m])
    ensures BytesWritten(u, w, i, seek, data[..n + m])
  {
    forall j, x: nat | 0 <= j < |u.a| && x < MAXBYTES
      ensures FileByte(w, j, x) ==
              if j == i && seek <= x < seek + n + m then data[x - seek] else FileByte(u, j, x)
    {
      var k, o := x / 512, x % 512;
      assert x == 512 * k + o;
      if j == i && k == lbn {
        assert FileByte(w, j, x) == Splice(FileBlock(v, i, k), off, data[n..n + m])[o];
      } else {
        assert FileBlock(w, j, k) == FileBlock(v, j, k);
      }
      assert FileByte(v, j, x) == if j == i && seek <= x < seek + n then data[x - seek] else FileByte(u, j, x);
    }
  }

  lemma {:induction false} SameRefl(v: Volume)
    ensures SameContent(v, v)
  {}

  lemma {:induction false} SameTrans(u: Volume, v: Volume, w: Volume)
    requires SameContent(u, v) && SameContent(v, w)
    ensures SameContent(u, w)
  {}

  lemma {:induction false} PartitionNode(v: Volume, free: set<nat>, lo: nat, hi: nat, i: int, p: Path)
    requires Partition(v, free, lo, hi) && InVolume(v, i, p) && Node(v, i, p) != 0
    ensures lo <= Node(v, i, p) < hi <= |v.d| && Node(v, i, p) !in free
  {}

  lemma {:induction false} PopDescends(c: Chain)
    requires c.Batch? && c.list != []
    ensures AllDescending(c) ==> AllDescending(Pop(c))
  {}

  lemma {:induction false} LastIsFree(c: Chain, b: nat, m: seq<nat>)
    requires Inserted(ListOf(c), b, m)
    ensures m[|m| - 1] in FreeSet(c) + {b}
  {
    assert m[|m| - 1] in Elements(m);
  }

  /** With sorting on, freeing keeps every batch in descending order after its link. */
  lemma {:induction false} FreeKeepsDescending(d: Disk, c: Chain, lo: nat, hi: nat, b: nat)
    requires ChainOK(d, c, lo, hi) && b !in FreeSet(c) && AllDescending(c)
    ensures AllDescending(PushList(c, NewList(ListOf(c), b, true)))
  {
    ChainHead(d, c, lo, hi);
    NewListDescends(ListOf(c), b);
  }

  lemma {:induction false} KeepsSorted(d: Disk, c: Chain, lo: nat, hi: nat, b: nat, sorted: bool)
    requires ChainOK(d, c, lo, hi) && b !in FreeSet(c)
    ensures (sorted ==> AllDescending(c)) ==> sorted ==> AllDescending(PushList(c, NewList(ListOf(c), b, sorted)))
  {
    if sorted && AllDescending(c) {
      FreeKeepsDescending(d, c, lo, hi, b);
    }
  }
}
