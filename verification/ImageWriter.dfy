/**
  cohfsw.py: writing a COHERENT filesystem image on the host.  The object keeps the whole
  image and the superblock's fields; blocks come from and go to the free chain inside
  the image.
 */
module ImageWriter {
  import opened Lists
  import opened Layout
  import opened FreeChain
  import opened TreeSets
  import opened CohFs
  import opened ImageTree
  import opened Superblock

  // --------------------------------------------------------------- raw access

  /** ljust(BSIZE, b'\0'). */
  function Pad(data: seq<byte>): (b: Block)
    requires |data| <= BSIZE
    ensures forall i :: 0 <= i < BSIZE ==> b[i] == if i < |data| then data[i] else 0
  {
    data + Zeroes(BSIZE - |data|)
  }

  function WithBlock(img: Image, n: nat, b: Block): (r: Image)
    requires n < NBlocks(img)
    ensures |r| == |img|
  {
    Splice(img, 512 * n, b)
  }

  /** The blocks before block n, inodes included, are the same in both images. */
  ghost predicate HeadSame(a: Image, b: Image, n: nat) {
    |a| == |b| && forall x :: 0 <= x < 512 * n && x < |a| ==> b[x] == a[x]
  }

  lemma {:induction false} WithBlockDisk(img: Image, n: nat, b: Block)
    requires n < NBlocks(img)
    ensures DiskOf(WithBlock(img, n, b)) == DiskOf(img)[n := b]
  {
    var r := WithBlock(img, n, b);
    forall m | 0 <= m < NBlocks(img) ensures BlockOf(r, m) == if m == n then b else BlockOf(img, m) {
      forall x | 0 <= x < 512 ensures BlockOf(r, m)[x] == (if m == n then b else BlockOf(img, m))[x] {
        assert BlockOf(r, m)[x] == r[512 * m + x];
      }
    }
  }

  lemma AppendNoDup(al: seq<nat>, b: nat)
    requires NoDup(al) && b !in Elements(al)
    ensures NoDup(al + [b]) && Elements(al + [b]) == Elements(al) + {b}
  {}

  lemma {:induction false} EmptyList()
    ensures NoDup([]) && Elements([]) == {}
  {}

  lemma {:induction false} JoinNoDup(a: seq<nat>, b: seq<nat>)
    requires NoDup(a) && NoDup(b) && Elements(a) !! Elements(b)
    ensures NoDup(a + b) && Elements(a + b) == Elements(a) + Elements(b)
  {
    forall i, j | 0 <= i < j < |a + b| ensures (a + b)[i] != (a + b)[j] {
      assert (a + b)[i] in a || (a + b)[i] in b;
      if i < |a| <= j {
        assert (a + b)[i] in Elements(a) && (a + b)[j] in Elements(b);
      }
    }
  }

  class FSW {
    var img: Image
    var nfree: nat
    var free: seq<nat>
    var tfree: nat
    const isize: nat
    const fsize: nat
    ghost var chain: Chain

    function D(): Disk
      reads this
    {
      DiskOf(img)
    }

    ghost function Free(): set<nat>
      reads this
    {
      FreeSet(chain)
    }

    ghost predicate FreeOK()
      reads this
    {
      && 0 < isize <= fsize <= NBlocks(img) && fsize <= 0x100_0000
      && |free| == NICFREE && nfree <= NICFREE
      && free[..nfree] == ListOf(chain)
      && ChainOK(D(), chain, isize, fsize)
      && tfree == Count(chain)
    }

    /** wblock. */
    method WBlock(n: nat, data: seq<byte>)
      requires n < NBlocks(img) && |data| <= BSIZE
      modifies this`img
      ensures |img| == old(|img|) && D() == old(D())[n := Pad(data)]
      ensures forall x :: 0 <= x < |img| && !(512 * n <= x < 512 * n + 512) ==> img[x] == old(img)[x]
    {
      WithBlockDisk(img, n, Pad(data));
      img := WithBlock(img, n, Pad(data));
    }

    /** balloc: the last block of the list, cleared; fails only when nothing is free. */
    method BAlloc() returns (bno: nat)
      requires FreeOK()
      modifies this`img, this`nfree, this`free, this`tfree, this`chain
      ensures FreeOK() && |img| == old(|img|)
      ensures bno == 0 <==> old(Free()) == {}
      ensures bno == 0 ==> chain == old(chain) && img == old(img)
      ensures bno != 0 ==> bno in old(Free()) && Free() == old(Free()) - {bno} && isize <= bno < fsize
      ensures bno != 0 ==> chain == Pop(old(chain)) && bno == Top(old(chain))
      ensures bno != 0 ==> D() == old(D())[bno := ZERO]
      ensures HeadSame(old(img), img, isize)
    {
      hide ChainOK, FreeSet, Stored;
      ChainHead(D(), chain, isize, fsize);
      if nfree <= 0 {
        return 0;
      }
      PopExact(D(), chain, isize, fsize);
      ChainHead(D(), Pop(chain), isize, fsize);
      nfree := nfree - 1;
      bno := free[nfree];
      if nfree == 0 {
        nfree, free := UnpackBatch(BlockOf(img, bno));
        StoredList(BlockOf(img, bno), ListOf(Pop(chain)), free);
      }
      tfree := tfree - 1;
      ghost var was := D();
      WBlock(bno, []);
      assert Pad([]) == ZERO;
      chain := Pop(chain);
      ChainFrame(was, D(), chain, isize, fsize);
    }

    /** bfree, list full: it moves into the block that is being freed. */
    method SpillInto(bno: nat, ghost l: seq<nat>)
      requires |free| == NICFREE && nfree == NICFREE && l == free[..nfree]
      requires (forall x :: x in l ==> x < 0x1_0000_0000) && bno < NBlocks(img)
      modifies this`img, this`nfree, this`free
      ensures |img| == old(|img|) && nfree == 0 && |free| == NICFREE
      ensures |D()| == |old(D())| && Stored(D()[bno], l)
      ensures forall n :: 0 <= n < |D()| && n != bno ==> D()[n] == old(D())[n]
      ensures forall x :: 0 <= x < |img| && !(512 * bno <= x < 512 * bno + 512) ==> img[x] == old(img)[x]
    {
      hide Stored;
      var b := PackBatch(nfree, free);
      StoredPack(b, free, l);
      WBlock(bno, b);
      PadBlock(b);
      nfree := 0;
      free := Repeat<nat>(0, NICFREE);
    }

    /** bfree.  With blocks in the list the chain grows by the block; with none, the block
        becomes the list but no empty batch is written into it. */
    method BFree(bno: nat)
      requires FreeOK() && isize <= bno < fsize && bno !in Free()
      modifies this`img, this`nfree, this`free, this`tfree, this`chain
      ensures nfree > 0 && HeadSame(old(img), img, isize) && |D()| == |old(D())|
      ensures old(nfree) > 0 ==> FreeOK() && Free() == old(Free()) + {bno}
      ensures forall n :: 0 <= n < |D()| && n != bno ==> D()[n] == old(D())[n]
      ensures old(nfree) == 0 ==>
                img == old(img) && nfree == 1 && |free| == NICFREE && free[0] == bno && tfree == old(tfree) + 1
    {
      hide ChainOK, FreeSet, Stored, Inserted, DiskOf;
      ghost var l := ListOf(chain);
      ghost var m := l + [bno];
      ChainHead(D(), chain, isize, fsize);
      AppendInserted(l, bno);
      MembersInRange(D(), chain, isize, fsize, bno, m);
      ghost var was := D();
      ghost var empty := nfree == 0;
      if nfree >= NICFREE {
        SpillInto(bno, l);
      }
      if !empty {
        assert m[..|m| - 1] == l;
        PushExact(was, D(), chain, isize, fsize, bno, m);
        chain := PushList(chain, m);
      }
      free := free[nfree := bno];
      nfree := nfree + 1;
      tfree := tfree + 1;
    }

    // ------------------------------------------------------------------- truncate

    /** The inner function of _blocks: what lies below an index block, then the block. */
    method Below(a: nat, level: nat) returns (out: seq<nat>)
      requires 1 <= level <= 3 && Apart(D(), a, level)
      ensures NoDup(out) && Elements(out) == TreeSet(D(), a, level)
      decreases level
    {
      hide Apart, TreeSet, Children, ChildrenApart, NoDup, Elements;
      EmptyList();
      if a == 0 {
        NoTree(D(), level);
        return [];
      }
      LevelSets(D(), a, level);
      var b := BlockOf(img, a);
      out := [];
      var i: nat := 0;
      ChildrenNone(D(), b, level - 1);
      while i < NIND
        invariant i <= NIND
        invariant NoDup(out) && Elements(out) == Children(D(), b, level - 1, i)
      {
        var p := Ptr(b, i);
        ChildrenApartUpTo(D(), b, level - 1, NIND, i + 1);
        ChildrenStep(D(), b, level - 1, i + 1);
        if level > 1 {
          var more := Below(p, level - 1);
          JoinNoDup(out, more);
          out := out + more;
        } else if p != 0 {
          DirectTree(D(), p);
          AppendNoDup(out, p);
          out := out + [p];
        } else {
          NoTree(D(), 0);
        }
        i := i + 1;
      }
      AppendNoDup(out, a);
      out := out + [a];
    }

    /** _blocks: every block of the file, data and indirect alike, each once. */
    method TreeBlocks(addr: Addr, ghost v: Volume, ghost ino: nat, ghost held: set<nat>) returns (out: seq<nat>)
      requires v.d == D() && ino < |v.a| && v.a[ino] == addr && Partition(v, held, isize, fsize)
      ensures NoDup(out) && Elements(out) == SlotTrees(D(), addr, NADDR)
    {
      hide Apart, TreeSet, NoDup, Elements, SlotTrees, Partition;
      EmptyList();
      out := [];
      var k: nat := 0;
      NoSlots(D(), addr);
      while k < ND
        invariant k <= ND && NoDup(out) && Elements(out) == SlotTrees(D(), addr, k)
      {
        SlotStep(D(), addr, k);
        SlotsApart(v, held, isize, fsize, ino, k);
        if addr[k] != 0 {
          DirectTree(D(), addr[k]);
          AppendNoDup(out, addr[k]);
          out := out + [addr[k]];
        } else {
          NoTree(D(), 0);
        }
        k := k + 1;
      }
      while k < NADDR
        invariant ND <= k <= NADDR && NoDup(out) && Elements(out) == SlotTrees(D(), addr, k)
      {
        SlotStep(D(), addr, k);
        SlotsApart(v, held, isize, fsize, ino, k);
        var more := Below(addr[k], k - ND + 1);
        JoinNoDup(out, more);
        out := out + more;
        k := k + 1;
      }
    }

    /** truncate: the file's blocks go back, one by one, in the order of the list. */
    method Truncate(addr: Addr, ghost v: Volume, ghost ino: nat)
      requires FreeOK() && nfree > 0
      requires v.d == D() && ino < |v.a| && v.a[ino] == addr && Partition(v, Free(), isize, fsize)
      modifies this`img, this`nfree, this`free, this`tfree, this`chain
      ensures FreeOK() && nfree > 0 && |img| == old(|img|)
      ensures Free() == old(Free()) + SlotTrees(old(D()), addr, NADDR)
      ensures old(Free()) !! SlotTrees(old(D()), addr, NADDR)
      ensures forall n :: 0 <= n < |D()| && n !in Free() ==> D()[n] == old(D())[n]
      ensures HeadSame(old(img), img, isize)
    {
      hide ChainOK, FreeSet, SlotTrees, Partition, DiskOf;
      var list := TreeBlocks(addr, v, ino, Free());
      SlotsInRange(v, Free(), isize, fsize, ino);
      ghost var free0 := Free();
      var i: nat := 0;
      while i < |list|
        invariant i <= |list| && FreeOK() && nfree > 0 && |img| == old(|img|) && |D()| == |old(D())|
        invariant Free() == free0 + Elements(list[..i])
        invariant forall n :: 0 <= n < |D()| && n !in Free() ==> D()[n] == old(D())[n]
        invariant HeadSame(old(img), img, isize)
      {
        assert list[i] in Elements(list);
        assert list[..i + 1] == list[..i] + [list[i]];
        assert list[i] !in list[..i];
        BFree(list[i]);
        i := i + 1;
      }
      assert list[..i] == list;
    }

    // -------------------------------------------------------------------- setdata

    /** `al` has been taken from the free list since the disk was d0; only those blocks changed. */
    ghost predicate Took(d0: Disk, free0: set<nat>, al: seq<nat>)
      reads this
    {
      && |D()| == |d0| && NoDup(al) && Elements(al) <= free0 && Free() == free0 - Elements(al)
      && (forall n :: 0 <= n < |d0| && n !in Elements(al) ==> D()[n] == d0[n])
      && forall m :: 0 <= m < |al| ==> isize <= al[m] < fsize
    }

    /** balloc, and wblock of the new block. */
    method TakeBlock(data: seq<byte>, ghost d0: Disk, ghost free0: set<nat>, ghost al: seq<nat>) returns (b: nat)
      requires FreeOK() && |data| <= BSIZE && Took(d0, free0, al)
      modifies this`img, this`nfree, this`free, this`tfree, this`chain
      ensures FreeOK() && |img| == old(|img|) && |D()| == |old(D())|
      ensures b == 0 ==> Free() == {} && Took(d0, free0, al)
      ensures b != 0 ==> Took(d0, free0, al + [b]) && b < |D()| && D()[b] == Pad(data)
      ensures Untouched(old(D()), D(), al)
      ensures HeadSame(old(img), img, isize)
    {
      hide ChainOK, FreeSet, DiskOf;
      forall m | 0 <= m < |al| ensures al[m] in Elements(al) {}
      b := BAlloc();
      if b == 0 {
        return;
      }
      AppendNoDup(al, b);
      ghost var was := D();
      WBlock(b, data);
      ChainFrame(was, D(), chain, isize, fsize);
    }

    /** The first loop of setdata: the data blocks. */
    method TakeData(data: seq<byte>, n: nat, ghost d0: Disk, ghost free0: set<nat>) returns (ok: bool, blocks: seq<nat>)
      requires FreeOK() && n == BlocksFor(|data|) && Took(d0, free0, [])
      modifies this`img, this`nfree, this`free, this`tfree, this`chain
      ensures FreeOK() && |img| == old(|img|) && |D()| == |old(D())| && Took(d0, free0, blocks)
      ensures if ok then |blocks| == n else |blocks| < n && Free() == {}
      ensures HoldsData(D(), blocks, data)
      ensures HeadSame(old(img), img, isize)
    {
      hide ChainOK, FreeSet, DiskOf, FreeOK, Took, HoldsData;
      blocks := [];
      NoData(D(), data);
      var i: nat := 0;
      while i < n
        invariant i <= n && |blocks| == i
        invariant FreeOK() && |img| == old(|img|) && |D()| == |old(D())| && Took(d0, free0, blocks)
        invariant HoldsData(D(), blocks, data)
        invariant HeadSame(old(img), img, isize)
      {
        ghost var was := D();
        TookRange(d0, free0, blocks);
        var b := TakeBlock(Slice(data, i), d0, free0, blocks);
        if b == 0 {
          KeepData(was, D(), blocks, data);
          return false, blocks;
        }
        MoreData(was, D(), blocks, data, b);
        blocks := blocks + [b];
        i := i + 1;
      }
      ok := true;
    }

    lemma {:induction false} TookRange(d0: Disk, free0: set<nat>, al: seq<nat>)
      requires FreeOK() && Took(d0, free0, al)
      ensures forall m :: 0 <= m < |al| ==> 0 < al[m] < |D()| && al[m] < 0x100_0000
    {}

    /** _indirect: a new index block with these entries. */
    method IndirectBlock(ptrs: seq<nat>, ghost d0: Disk, ghost free0: set<nat>, ghost al: seq<nat>) returns (b: nat)
      requires FreeOK() && Took(d0, free0, al) && SmallNumbers(ptrs) && |ptrs| <= NIND
      modifies this`img, this`nfree, this`free, this`tfree, this`chain
      ensures FreeOK() && |D()| == |old(D())| && HeadSame(old(img), img, isize)
      ensures b == 0 ==> Free() == {} && Took(d0, free0, al)
      ensures b != 0 ==> Took(d0, free0, al + [b]) && b < |D()| && Packed(D()[b], ptrs)
      ensures Untouched(old(D()), D(), al)
    {
      hide ChainOK, FreeSet, DiskOf, FreeOK, Took, Packed;
      var blk := PackPtrs(ptrs);
      b := TakeBlock(blk, d0, free0, al);
      PadBlock(blk);
    }

    /** The double tree of setdata: an index block for each 128 numbers, then their root. */
    method DoubleTree(doubles: seq<nat>, ghost d0: Disk, ghost free0: set<nat>, ghost al: seq<nat>)
      returns (root: nat, ghost firsts: seq<nat>)
      requires FreeOK() && Took(d0, free0, al) && SmallNumbers(doubles) && 0 < |doubles| <= NIND * NIND
      modifies this`img, this`nfree, this`free, this`tfree, this`chain
      ensures FreeOK() && |D()| == |old(D())| && HeadSame(old(img), img, isize)
      ensures root == 0 ==> Free() == {} && Took(d0, free0, al + firsts) && |firsts| < (|doubles| + 127) / 128 + 1
      ensures root != 0 ==> Took(d0, free0, al + firsts + [root]) && |firsts| == (|doubles| + 127) / 128
      ensures root != 0 ==> root < |D()| && Packed(D()[root], firsts) && LeafBlocks(D(), firsts, doubles)
      ensures Untouched(old(D()), D(), al)
    {
      hide ChainOK, FreeSet, DiskOf, FreeOK, Took, Packed, LeafBlocks, Untouched;
      var list: seq<nat> := [];
      var i: nat := 0;
      var f := (|doubles| + 127) / 128;
      NoLeaves(D(), al, doubles);
      assert al + [] == al;
      while i < f
        invariant i == |list| <= f && SmallNumbers(list)
        invariant FreeOK() && |D()| == |old(D())| && HeadSame(old(img), img, isize)
        invariant Took(d0, free0, al + list) && Untouched(old(D()), D(), al)
        invariant LeafBlocks(D(), list, doubles)
      {
        ghost var was := D();
        var b := IndirectBlock(Piece(doubles, i), d0, free0, al + list);
        UntouchedTrans(old(D()), was, D(), al, list);
        if b == 0 {
          return 0, list;
        }
        TookRange(d0, free0, al + list + [b]);
        MoreLeaves(was, D(), al, list, doubles, b);
        assert al + list + [b] == al + (list + [b]);
        assert (al + list + [b])[|al| + |list|] == b;
        list := list + [b];
        i := i + 1;
      }
      ghost var was := D();
      root := IndirectBlock(list, d0, free0, al + list);
      UntouchedTrans(old(D()), was, D(), al, list);
      KeepLeaves(was, D(), al, list, doubles);
      firsts := list;
    }

    /** setdata after the truncation: data blocks, then index blocks, then the slots. */
    method BuildTree(data: seq<byte>, ghost d0: Disk, ghost free0: set<nat>) returns (r: SetResult, ghost al: seq<nat>)
      requires FreeOK() && Took(d0, free0, [])
      modifies this`img, this`nfree, this`free, this`tfree, this`chain
      ensures FreeOK() && |D()| == |old(D())| && HeadSame(old(img), img, isize)
      ensures r.Done? <==> BlocksFor(|data|) <= LIMIT && Need(BlocksFor(|data|)) <= |free0|
      ensures r.Full? <==> Wanted(BlocksFor(|data|)) > |free0|
      ensures r.Done? ==>
                && Took(d0, free0, al) && Linked(D(), r.addr, al, BlocksFor(|data|))
                && HoldsData(D(), al[..BlocksFor(|data|)], data)
    {
      hide ChainOK, FreeSet, DiskOf, FreeOK, Took, Packed, LeafBlocks, Untouched, HoldsData, Linked, Need, DirectSlots, Wanted;
      var n := BlocksFor(|data|);
      NeedMore(n);
      var ok, blocks := TakeData(data, n, d0, free0);
      al := blocks;
      TookSize(d0, free0, al);
      if !ok {
        return Full, al;
      }
      var s, root := 0, 0;
      ok, s := TakeSingle(blocks, data, d0, free0);
      if !ok {
        TookSize(d0, free0, al);
        return Full, al;
      }
      ghost var firsts: seq<nat> := [];
      if n > ND + SINGLE {
        root, firsts := TakeDouble(blocks, s, data, d0, free0);
        al := AllTaken(blocks, s, firsts, root);
        TookSize(d0, free0, al);
        if root == 0 {
          return Full, al;
        }
      }
      al := AllTaken(blocks, s, firsts, root);
      TookSize(d0, free0, al);
      if n > LIMIT {
        return TooLarge, al;
      }
      TookRange(d0, free0, al);
      var addr: Addr := DirectSlots(blocks) + [s, root, 0];
      LinkUp(D(), addr, al, blocks, s, firsts, root);
      assert al[..n] == blocks;
      return Done(addr), al;
    }

    /** The single index block, if the file needs one. */
    method TakeSingle(blocks: seq<nat>, data: seq<byte>, ghost d0: Disk, ghost free0: set<nat>) returns (ok: bool, s: nat)
      requires FreeOK() && Took(d0, free0, blocks) && HoldsData(D(), blocks, data)
      modifies this`img, this`nfree, this`free, this`tfree, this`chain
      ensures FreeOK() && |D()| == |old(D())| && HeadSame(old(img), img, isize) && HoldsData(D(), blocks, data)
      ensures !ok ==> |blocks| > ND && Free() == {} && Took(d0, free0, blocks)
      ensures ok && |blocks| > ND ==>
                Took(d0, free0, blocks + [s]) && s < |D()| && Packed(D()[s], SinglePiece(blocks))
      ensures ok && |blocks| <= ND ==> s == 0 && Took(d0, free0, blocks)
    {
      hide ChainOK, FreeSet, DiskOf, FreeOK, Took, Packed, Untouched, HoldsData;
      if |blocks| <= ND {
        return true, 0;
      }
      ghost var was := D();
      TookRange(d0, free0, blocks);
      s := IndirectBlock(SinglePiece(blocks), d0, free0, blocks);
      KeepData(was, D(), blocks, data);
      ok := s != 0;
    }

    /** The double tree, for a file that needs one. */
    method TakeDouble(blocks: seq<nat>, s: nat, data: seq<byte>, ghost d0: Disk, ghost free0: set<nat>)
      returns (root: nat, ghost firsts: seq<nat>)
      requires |blocks| > ND + SINGLE && s < |D()| && Packed(D()[s], SinglePiece(blocks))
      requires FreeOK() && Took(d0, free0, blocks + [s]) && HoldsData(D(), blocks, data)
      modifies this`img, this`nfree, this`free, this`tfree, this`chain
      ensures FreeOK() && |D()| == |old(D())| && HeadSame(old(img), img, isize) && HoldsData(D(), blocks, data)
      ensures s < |D()| && Packed(D()[s], SinglePiece(blocks))
      ensures Took(d0, free0, AllTaken(blocks, s, firsts, root))
      ensures root == 0 ==> Free() == {} && |firsts| < (|DoublePiece(blocks)| + 127) / 128 + 1
      ensures root != 0 ==> |firsts| == (|DoublePiece(blocks)| + 127) / 128 && root < |D()|
      ensures root != 0 ==> Packed(D()[root], firsts) && LeafBlocks(D(), firsts, DoublePiece(blocks))
    {
      hide ChainOK, FreeSet, DiskOf, FreeOK, Took, Packed, LeafBlocks, Untouched, HoldsData;
      ghost var was, al := D(), blocks + [s];
      TookRange(d0, free0, al);
      forall i | 0 <= i < |blocks| ensures blocks[i] == al[i] {}
      root, firsts := DoubleTree(DoublePiece(blocks), d0, free0, al);
      KeepPart(was, D(), al, blocks);
      KeepData(was, D(), blocks, data);
      assert al[|blocks|] == s;
      KeepOne(was, D(), al, |blocks|);
    }

    lemma {:induction false} TookSize(d0: Disk, free0: set<nat>, al: seq<nat>)
      requires Took(d0, free0, al)
      ensures |al| <= |free0|
      ensures Free() == {} ==> |al| == |free0|
    {
      ElementsSize(al);
      SubsetCard(Elements(al), free0);
      if Free() == {} {
        assert free0 == Elements(al) + (free0 - Elements(al));
      }
    }

    /** setdata: the old blocks go back, the data and its index blocks are allocated.  It
        succeeds exactly when the size is in range and the free blocks, with the file's own,
        are enough; a file that is too large is noticed only once its blocks have been found. */
    method SetData(addr: Addr, data: seq<byte>, ghost v: Volume, ghost ino: nat) returns (r: SetResult)
      requires FreeOK() && nfree > 0
      requires v.d == D() && ino < |v.a| && v.a[ino] == addr && Partition(v, Free(), isize, fsize)
      modifies this`img, this`nfree, this`free, this`tfree, this`chain
      ensures FreeOK() && |D()| == |old(D())| && HeadSame(old(img), img, isize)
      ensures r.Done? <==> (BlocksFor(|data|) <= LIMIT
                            && Need(BlocksFor(|data|)) <= |old(Free())| + |SlotTrees(old(D()), addr, NADDR)|)
      ensures r.Full? <==> Wanted(BlocksFor(|data|)) > |old(Free())| + |SlotTrees(old(D()), addr, NADDR)|
      ensures r.TooLarge? <==> (BlocksFor(|data|) > LIMIT
                                && Wanted(BlocksFor(|data|)) <= |old(Free())| + |SlotTrees(old(D()), addr, NADDR)|)
      ensures r.Done? ==> Replaced(v, Volume(D(), v.a[ino := r.addr]), ino, data)
      ensures r.Done? ==> Partition(Volume(D(), v.a[ino := r.addr]), Free(), isize, fsize)
    {
      hide ChainOK, FreeSet, DiskOf, Partition, SlotTrees, Need, LeafOf, FreeOK, FileBlock, Replaced, OthersSame;
      ghost var v1 := EmptyFile(addr, v, ino);
      r := FillFile(data, v, v1, ino);
    }

    /** The first line of setdata, with what it means for the volume. */
    method EmptyFile(addr: Addr, ghost v: Volume, ghost ino: nat) returns (ghost v1: Volume)
      requires FreeOK() && nfree > 0
      requires v.d == D() && ino < |v.a| && v.a[ino] == addr && Partition(v, Free(), isize, fsize)
      modifies this`img, this`nfree, this`free, this`tfree, this`chain
      ensures FreeOK() && |D()| == |old(D())| && HeadSame(old(img), img, isize)
      ensures |Free()| == |old(Free())| + |SlotTrees(old(D()), addr, NADDR)|
      ensures v1 == Volume(D(), v.a[ino := NOADDR]) && Partition(v1, Free(), isize, fsize) && OthersSame(v, v1, ino)
    {
      hide ChainOK, FreeSet, DiskOf, Partition, SlotTrees, FreeOK, FileBlock;
      Truncate(addr, v, ino);
      v1 := Volume(D(), v.a[ino := NOADDR]);
      TruncateKeepsPartition(v, v1, old(Free()), isize, fsize, ino);
    }

    /** The rest of setdata, for a file whose blocks have been given back. */
    method FillFile(data: seq<byte>, ghost v: Volume, ghost v1: Volume, ghost ino: nat) returns (r: SetResult)
      requires FreeOK() && v1.d == D() && ino < |v.a| && v1.a == v.a[ino := NOADDR]
      requires Partition(v1, Free(), isize, fsize) && OthersSame(v, v1, ino)
      modifies this`img, this`nfree, this`free, this`tfree, this`chain
      ensures FreeOK() && |D()| == |old(D())| && HeadSame(old(img), img, isize)
      ensures r.Done? <==> BlocksFor(|data|) <= LIMIT && Need(BlocksFor(|data|)) <= |old(Free())|
      ensures r.Full? <==> Wanted(BlocksFor(|data|)) > |old(Free())|
      ensures r.Done? ==> Replaced(v, Volume(D(), v.a[ino := r.addr]), ino, data)
      ensures r.Done? ==> Partition(Volume(D(), v.a[ino := r.addr]), Free(), isize, fsize)
    {
      hide ChainOK, FreeSet, DiskOf, Partition, Took, Linked, HoldsData, Need, LeafOf, FreeOK, Replaced, Built;
      ghost var d0, free0, al := D(), Free(), [];
      TookNothing();
      r, al := BuildTree(data, d0, free0);
      if r.Done? {
        ghost var w := Volume(D(), v.a[ino := r.addr]);
        TookBuilt(d0, free0, al, v1, w, ino, BlocksFor(|data|));
        BuiltPartition(v1, w, free0, isize, fsize, ino, al, BlocksFor(|data|));
        ReplacedBuilt(v, v1, w, free0, isize, fsize, ino, al, data);
      }
    }

    lemma {:induction false} TookNothing()
      requires FreeOK()
      ensures Took(D(), Free(), [])
    {}

    lemma {:induction false} TookBuilt(d0: Disk, free0: set<nat>, al: seq<nat>, v1: Volume, w: Volume, ino: nat, n: nat)
      requires Took(d0, free0, al) && v1.d == d0 && w.d == D() && ino < |v1.a| && v1.a[ino] == NOADDR
      requires |w.a| == |v1.a| && w.a == v1.a[ino := w.a[ino]] && Linked(w.d, w.a[ino], al, n)
      ensures Built(v1, w, free0, ino, al, n) && Free() == free0 - Elements(al) && |al| >= n
    {
      NeedMore(n);
    }

    // --------------------------------------------------------------------- inodes

    /** The inodes the image has room for before the data area. */
    function Inodes(): nat
      reads this
    {
      InodeCount(isize)
    }

    /** The volume the image describes: its blocks and the address slots of its inodes. */
    ghost function Vol(): Volume
      requires isize <= NBlocks(img)
      reads this
    {
      InodesFit(img, isize);
      Volume(D(), AddrsOf(img, Inodes()))
    }

    ghost predicate Valid()
      reads this
    {
      FreeOK() && 2 <= isize < 65536 && Partition(Vol(), Free(), isize, fsize)
    }

    /** iwrite: the inode's 64 bytes in their place in the inode area. */
    method IWrite(ino: nat, ip: Inode, t: nat)
      requires FreeOK() && isize >= 2 && 1 <= ino <= Inodes() && Encodable(ip)
      modifies this`img
      ensures FreeOK() && |img| == old(|img|)
      ensures HasInode(img, ino) && InodeOf(img, ino) == ip
      ensures forall j :: 1 <= j <= Inodes() && j != ino ==> HasInode(img, j) && InodeOf(img, j) == InodeOf(old(img), j)
      ensures forall n :: isize <= n < |D()| ==> D()[n] == old(D())[n]
    {
      hide ChainOK, FreeSet, DecodeInode, DiskOf;
      var raw := PackInode(ip, t);
      InodesFit(img, isize);
      ghost var was := img;
      img := Splice(img, InodeOffset(ino), raw);
      SplicedInodes(was, ino, raw, isize);
      ChainRanges(DiskOf(was), chain, isize, fsize);
      ChainFrame(DiskOf(was), D(), chain, isize, fsize);
    }

    lemma {:induction false} Bounds()
      requires FreeOK()
      ensures 0 < isize <= fsize <= NBlocks(img) && fsize <= 0x100_0000
    {}

    /** put, from setdata on: replace the contents of inode ino and write the inode. */
    method StoreFile(ino: nat, ip: Inode, data: seq<byte>, t: nat) returns (ok: bool, ghost ip': Inode)
      requires Valid() && nfree > 0 && 1 <= ino <= Inodes()
      requires Encodable(ip) && HasInode(img, ino) && ip.addr == InodeOf(img, ino).addr
      modifies this`img, this`nfree, this`free, this`tfree, this`chain
      ensures ok <==> (BlocksFor(|data|) <= LIMIT && Need(BlocksFor(|data|))
                       <= |old(Free())| + |SlotTrees(old(D()), ip.addr, NADDR)|)
      ensures ok ==> Valid() && |img| == old(|img|)
      ensures ok ==> Replaced(old(Vol()), Vol(), ino - 1, data)
      ensures ok ==> HasInode(img, ino) && InodeOf(img, ino) == ip' && ip' == ip.(addr := ip'.addr, size := |data|)
      ensures ok ==> forall j :: 1 <= j <= Inodes() && j != ino ==>
                HasInode(img, j) && InodeOf(img, j) == InodeOf(old(img), j)
    {
      hide ChainOK, FreeSet, Partition, DecodeInode, DiskOf, Replaced, SlotTrees, Need, FreeOK;
      ip' := ip;
      Bounds();
      InodesFit(img, isize);
      ghost var v := Vol();
      AddrsAt(img, Inodes());
      var r := SetData(ip.addr, data, v, ino - 1);
      if !r.Done? {
        return false, ip;
      }
      ghost var mid, w := img, Volume(D(), v.a[ino - 1 := r.addr]);
      HeadInodes(old(img), mid, isize);
      AddrsInRange(w, Free(), isize, fsize, ino - 1);
      var np := ip.(addr := r.addr, size := |data|);
      assert w.a[ino - 1] == np.addr;
      ip' := np;
      IWrite(ino, np, t);
      AddrsAt(img, Inodes());
      InodeAreaFrame(w, Vol(), Free(), isize, fsize);
      ReplacedSame(v, w, Vol(), ino - 1, data);
      return true, np;
    }

    // ------------------------------------------------------------- load and save

    /** FSW(path): the fields come from the superblock. */
    constructor (image: Image, ghost c: Chain)
      requires Mountable(image, c)
      ensures Valid() && img == image && chain == c && SavedSizes(image, isize, fsize)
    {
      hide ChainOK, Partition, FreeSet, DiskOf, AddrsOf, SuperList, Word, PdpLong;
      var s := SuperOf(BlockOf(image, 1));
      img, nfree, free, tfree, isize, fsize := image, s.nfree, s.free, s.tfree, s.isize, s.fsize;
      chain := c;
    }

    /** save: the fields go to the superblock; loading the image gives the same filesystem. */
    method Save()
      requires Valid()
      modifies this`img
      ensures Valid() && Mountable(img, chain) && |D()| == |old(D())|
      ensures forall n :: 0 <= n < |D()| && n != 1 ==> D()[n] == old(D())[n]
      ensures SavedSizes(img, isize, fsize) && SameFiles(old(Vol()), Vol())
      ensures SuperSizes(BlockOf(img, 1)) == (isize, fsize, tfree)
      ensures forall j :: 1 <= j <= Inodes() ==> HasInode(img, j) && InodeOf(img, j) == InodeOf(old(img), j)
    {
      hide ChainOK, FreeSet, DiskOf, Partition, SuperOf, DecodeInode;
      ChainRanges(D(), chain, isize, fsize);
      CountBound(D(), chain, isize, fsize);
      InodesFit(img, isize);
      AddrsAt(img, Inodes());
      ghost var s := Super(isize, fsize, nfree, free, tfree);
      var sb := PackSuper(BlockOf(img, 1), Super(isize, fsize, nfree, free, tfree));
      ghost var was, v := img, Vol();
      WBlock(1, sb);
      PadBlock(sb);
      ChainFrame(DiskOf(was), D(), chain, isize, fsize);
      InodesKept(was, img, isize);
      AddrsAt(img, Inodes());
      InodeAreaFrame(v, Vol(), Free(), isize, fsize);
      SuperListSame(SuperOf(BlockOf(img, 1)), s, ListOf(chain));
      SamePlaces(BlockOf(img, 1), 0);
    }

    // ------------------------------------------------------------------- zerofree

    /** zerofree: walk the chain, clear every free block but the links, and clear the links
        behind their batch.  The chain, the superblock and every block in use stay; the
        count is the number of free blocks. */
    method ZeroFree() returns (n: nat)
      requires FreeOK()
      modifies this`img
      ensures FreeOK() && n == |Free()| == tfree
      ensures FreeZeroed(old(D()), D(), chain, Empty)
    {
      hide ChainOK, FreeSet, DiskOf, Links, FreeZeroed, EntriesZeroed, Stored;
      ghost var rest := chain;
      var count: nat, list: seq<nat> := nfree, free;
      n := 0;
      CountIsSize(D(), chain, isize, fsize);
      ChainHead(D(), chain, isize, fsize);
      NothingZeroed(D(), chain);
      while count > 0
        invariant ChainOK(D(), chain, isize, fsize) && |img| == old(|img|)
        invariant IsSuffix(rest, chain) && n + Count(rest) == Count(chain)
        invariant |list| == NICFREE && count <= NICFREE && list[..count] == ListOf(rest)
        invariant count == 0 <==> rest.Empty?
        invariant FreeZeroed(old(D()), D(), chain, rest)
        decreases rest
      {
        ghost var was := D();
        SuffixOK(D(), chain, rest, isize, fsize);
        BatchFacts(D(), rest, isize, fsize);
        ZeroEntries(list[..count], rest);
        n := n + (count - 1);
        var link := list[0];
        assert link == ListOf(rest)[0];
        if link == 0 {
          assert false;
        }
        SuffixOK(D(), chain, rest, isize, fsize);
        BatchFacts(D(), rest, isize, fsize);
        var b := BlockOf(img, link);
        ghost var mid := D();
        count, list := UnpackBatch(b);
        StoredList(b, ListOf(rest.next), list);
        WBlock(link, b[..2 + 4 * NICFREE]);
        LinkRewritten(mid, D(), chain, rest, isize, fsize);
        BatchZeroed(old(D()), was, mid, D(), chain, rest, isize, fsize);
        n := n + 1;
        SuffixNext(chain, rest);
        rest := rest.next;
      }
    }

    /** The inner loop of zerofree: clear the batch's entries after the link. */
    method ZeroEntries(l: seq<nat>, ghost rest: Chain)
      requires ChainOK(D(), chain, isize, fsize) && IsSuffix(rest, chain) && rest.Batch? && l == rest.list
      requires 0 < |l| && forall i :: 0 <= i < |l| ==> l[i] < NBlocks(img)
      modifies this`img
      ensures ChainOK(D(), chain, isize, fsize) && |img| == old(|img|)
      ensures EntriesZeroed(old(D()), D(), l, |l|)
    {
      hide ChainOK, FreeSet, DiskOf, Links, EntriesZeroed;
      var i: nat := 1;
      NoEntriesZeroed(D(), l);
      while i < |l|
        invariant 1 <= i <= |l| && ChainOK(D(), chain, isize, fsize) && |img| == old(|img|)
        invariant EntriesZeroed(old(D()), D(), l, i)
      {
        ghost var was := D();
        WBlock(l[i], []);
        assert Pad([]) == ZERO;
        EntryCleared(was, D(), chain, rest, i, isize, fsize);
        EntryZeroed(old(D()), was, D(), l, i);
        i := i + 1;
      }
    }
  }

  /** Entries 1..i of the batch have been cleared and nothing else. */
  ghost predicate EntriesZeroed(d: Disk, e: Disk, l: seq<nat>, i: nat) {
    && 1 <= i <= |l| && |e| == |d|
    && (forall j :: 1 <= j < i ==> l[j] < |e| && e[l[j]] == ZERO)
    && forall b :: 0 <= b < |d| && b !in l[1..i] ==> e[b] == d[b]
  }

  lemma {:induction false} NoEntriesZeroed(d: Disk, l: seq<nat>)
    requires l != []
    ensures EntriesZeroed(d, d, l, 1)
  {}

  lemma {:induction false} EntryZeroed(c: Disk, d: Disk, e: Disk, l: seq<nat>, i: nat)
    requires EntriesZeroed(c, d, l, i) && i < |l| && l[i] < |d| && e == d[l[i] := ZERO]
    ensures EntriesZeroed(c, e, l, i + 1)
  {
    assert l[1..i + 1] == l[1..i] + [l[i]];
  }

  /** The bytes of a link block that hold its batch: the count and 64 entries. */
  const BATCHBYTES: nat := 258

  /** The free blocks of c before `rest` are cleared, the links among them behind their batches;
      the other free blocks have not been touched, and no block in use ever is. */
  ghost predicate FreeZeroed(d: Disk, e: Disk, c: Chain, rest: Chain) {
    && |e| == |d|
    && (forall b :: 0 <= b < |d| && b !in FreeSet(c) ==> e[b] == d[b])
    && (forall b :: b in FreeSet(c) && b < |d| && b !in FreeSet(rest) && b !in Links(c) ==> e[b] == ZERO)
    && (forall b :: b in FreeSet(c) && b < |d| && b !in FreeSet(rest) && b in Links(c) ==>
          e[b] == Pad(d[b][..BATCHBYTES]))
    && forall b :: b in FreeSet(rest) && b < |d| ==> e[b] == d[b]
  }

  lemma {:induction false} NothingZeroed(d: Disk, c: Chain)
    ensures FreeZeroed(d, d, c, c)
  {}

  lemma {:induction false} BatchZeroed(d0: Disk, d: Disk, m: Disk, e: Disk, c: Chain, r: Chain, lo: nat, hi: nat)
    requires FreeZeroed(d0, d, c, r) && ChainOK(d, c, lo, hi) && IsSuffix(r, c) && r.Batch? && r.list != []
    requires EntriesZeroed(d, m, r.list, |r.list|) && |e| == |m|
    requires forall b :: 0 <= b < |m| && b != r.list[0] ==> e[b] == m[b]
    requires r.list[0] < |m| && e[r.list[0]] == Pad(m[r.list[0]][..BATCHBYTES])
    ensures FreeZeroed(d0, e, c, r.next)
  {
    var l := r.list;
    SuffixOK(d, c, r, lo, hi);
    BatchFacts(d, r, lo, hi);
    SuffixLink(d, c, r, lo, hi);
    LinkTrimmed(d0, d, m, e, c, r, lo, hi);
    assert l[0] in l;
    forall b | b in l ensures b in FreeSet(c) {
      assert b in Elements(l);
    }
    forall b | b in FreeSet(c) && b < |d| && b !in FreeSet(r.next) && b !in Links(c) ensures e[b] == ZERO {
      if b in l {
        var j :| 0 <= j < |l| && l[j] == b;
      } else {
        assert b !in l[1..|l|];
      }
    }
    forall b | 0 <= b < |d| && b !in FreeSet(c) ensures e[b] == d0[b] {
      assert b !in l[1..|l|];
    }
  }

  /** The part of this about links and about what is still to come. */
  lemma {:induction false} LinkTrimmed(d0: Disk, d: Disk, m: Disk, e: Disk, c: Chain, r: Chain, lo: nat, hi: nat)
    requires FreeZeroed(d0, d, c, r) && ChainOK(d, c, lo, hi) && IsSuffix(r, c) && r.Batch? && r.list != []
    requires EntriesZeroed(d, m, r.list, |r.list|) && |e| == |m|
    requires forall b :: 0 <= b < |m| && b != r.list[0] ==> e[b] == m[b]
    requires r.list[0] < |m| && e[r.list[0]] == Pad(m[r.list[0]][..BATCHBYTES])
    ensures forall b :: b in FreeSet(c) && b < |d| && b !in FreeSet(r.next) && b in Links(c) ==>
              e[b] == Pad(d0[b][..BATCHBYTES])
    ensures forall b :: b in FreeSet(r.next) && b < |d| ==> e[b] == d0[b]
  {
    hide Links, Pad;
    var l := r.list;
    SuffixOK(d, c, r, lo, hi);
    BatchFacts(d, r, lo, hi);
    BatchApart(d, r, lo, hi);
    forall i | 1 <= i < |l| ensures l[i] !in Links(c) {
      EntryIsNoLink(d, c, r, i, lo, hi);
    }
    assert forall b :: b in l[1..|l|] ==> b in l;
    hide ChainOK;
    forall b | b in FreeSet(c) && b < |d| && b !in FreeSet(r.next) && b in Links(c)
      ensures e[b] == Pad(d0[b][..BATCHBYTES])
    {
      assert b !in l[1..|l|];
      assert m[b] == d[b];
    }
  }

  lemma {:induction false} BatchApart(d: Disk, r: Chain, lo: nat, hi: nat)
    requires ChainOK(d, r, lo, hi) && r.Batch?
    ensures forall b :: b in r.list ==> b !in FreeSet(r.next)
    ensures forall i, j :: 0 <= i < j < |r.list| ==> r.list[i] != r.list[j]
  {
    assert forall b :: b in r.list ==> b in Elements(r.list);
  }

  lemma {:induction false} SuffixLink(d: Disk, c: Chain, r: Chain, lo: nat, hi: nat)
    requires ChainOK(d, c, lo, hi) && IsSuffix(r, c) && r.Batch?
    ensures r.list != [] && r.list[0] in Links(c)
  {
    if r != c {
      SuffixLink(d, c.next, r, lo, hi);
    }
  }

  /** The link blocks of a chain. */
  function Links(c: Chain): set<nat> {
    if c.Empty? || c.list == [] then {} else {c.list[0]} + Links(c.next)
  }

  predicate IsSuffix(r: Chain, c: Chain) {
    r == c || (c.Batch? && IsSuffix(r, c.next))
  }

  lemma {:induction false} SuffixOK(d: Disk, c: Chain, r: Chain, lo: nat, hi: nat)
    requires ChainOK(d, c, lo, hi) && IsSuffix(r, c)
    ensures ChainOK(d, r, lo, hi) && FreeSet(r) <= FreeSet(c)
  {
    if r != c {
      SuffixOK(d, c.next, r, lo, hi);
    }
  }

  lemma {:induction false} SuffixNext(c: Chain, r: Chain)
    requires IsSuffix(r, c) && r.Batch?
    ensures IsSuffix(r.next, c)
  {
    if r != c {
      SuffixNext(c.next, r);
    }
  }

  lemma {:induction false} BatchFacts(d: Disk, r: Chain, lo: nat, hi: nat)
    requires ChainOK(d, r, lo, hi) && r.Batch?
    ensures 0 < |r.list| <= NICFREE && r.list[0] < |d| && Stored(d[r.list[0]], ListOf(r.next))
    ensures forall i :: 0 <= i < |r.list| ==> r.list[i] < |d| && lo <= r.list[i] && r.list[i] in FreeSet(r)
    ensures Count(r) == |r.list| + Count(r.next)
    ensures ListOf(r.next) == [] <==> r.next.Empty?
    ensures r.list[0] in Links(r)
    ensures forall b :: b in FreeSet(r) && b !in FreeSet(r.next) ==> b in r.list
  {
    assert forall i :: 0 <= i < |r.list| ==> r.list[i] in Elements(r.list);
  }

  lemma {:induction false} LinksAreFree(d: Disk, c: Chain, lo: nat, hi: nat)
    requires ChainOK(d, c, lo, hi)
    ensures Links(c) <= FreeSet(c)
  {
    if c.Batch? {
      LinksAreFree(d, c.next, lo, hi);
      assert c.list[0] in Elements(c.list);
    }
  }

  /** An entry after the link of its batch is no link of the chain. */
  lemma {:induction false} EntryIsNoLink(d: Disk, c: Chain, r: Chain, i: nat, lo: nat, hi: nat)
    requires ChainOK(d, c, lo, hi) && IsSuffix(r, c) && r.Batch? && 1 <= i < |r.list|
    ensures r.list[i] !in Links(c)
  {
    assert c.list[0] in Elements(c.list);
    if r == c {
      LinksAreFree(d, c.next, lo, hi);
      assert r.list[i] in Elements(c.list);
    } else {
      EntryIsNoLink(d, c.next, r, i, lo, hi);
      SuffixOK(d, c.next, r, lo, hi);
      assert r.list[i] in Elements(r.list);
    }
  }

  /** Both blocks hold the same batch. */
  ghost predicate SameBatch(a: Block, b: Block) {
    Word(a, 0) == Word(b, 0) && forall i :: 0 <= i < NICFREE ==> FreeEntry(a, i) == FreeEntry(b, i)
  }

  lemma {:induction false} LinksFrame(d: Disk, e: Disk, c: Chain, lo: nat, hi: nat)
    requires ChainOK(d, c, lo, hi) && |e| == |d|
    requires forall b :: b in Links(c) && b < |d| ==> SameBatch(d[b], e[b])
    ensures ChainOK(e, c, lo, hi)
  {
    if c.Batch? {
      LinksFrame(d, e, c.next, lo, hi);
      assert SameBatch(d[c.list[0]], e[c.list[0]]);
    }
  }

  lemma {:induction false} EntryCleared(d: Disk, e: Disk, c: Chain, r: Chain, i: nat, lo: nat, hi: nat)
    requires ChainOK(d, c, lo, hi) && IsSuffix(r, c) && r.Batch? && 1 <= i < |r.list| && r.list[i] < |d|
    requires e == d[r.list[i] := ZERO]
    ensures ChainOK(e, c, lo, hi)
  {
    EntryIsNoLink(d, c, r, i, lo, hi);
    LinksFrame(d, e, c, lo, hi);
  }

  lemma {:induction false} LinkRewritten(d: Disk, e: Disk, c: Chain, r: Chain, lo: nat, hi: nat)
    requires ChainOK(d, c, lo, hi) && IsSuffix(r, c) && r.Batch? && r.list != [] && r.list[0] < |d| && |e| == |d|
    requires SameBatch(d[r.list[0]], e[r.list[0]])
    requires forall b :: 0 <= b < |d| && b != r.list[0] ==> e[b] == d[b]
    ensures ChainOK(e, c, lo, hi)
  {
    LinksFrame(d, e, c, lo, hi);
  }

  predicate SavedSizes(img: Image, isize: nat, fsize: nat) {
    NBlocks(img) >= 2 && SuperOf(BlockOf(img, 1)).isize == isize && SuperOf(BlockOf(img, 1)).fsize == fsize
  }

  /** Every file has the same slots and holds the same. */
  ghost predicate SameFiles(v: Volume, w: Volume) {
    w.a == v.a && forall j, k: nat :: 0 <= j < |v.a| && k < MAXBLOCKS ==> FileBlock(w, j, k) == FileBlock(v, j, k)
  }

  /** The image holds a consistent filesystem whose free chain is c. */
  ghost predicate Mountable(img: Image, c: Chain) {
    NBlocks(img) >= 2 && MountsWith(img, SuperOf(BlockOf(img, 1)), c)
  }

  ghost predicate MountsWith(img: Image, s: Super, c: Chain) {
    && |s.free| == NICFREE && 2 <= s.isize <= s.fsize <= NBlocks(img) && s.isize < 65536 && s.fsize <= 0x100_0000
    && 0 <= s.nfree <= NICFREE && s.free[..s.nfree] == ListOf(c)
    && ChainOK(DiskOf(img), c, s.isize, s.fsize) && s.tfree == Count(c)
    && (InodeCount(s.isize) == 0 || InodeOffset(InodeCount(s.isize)) + INOSZ <= |img|)
    && Partition(Volume(DiskOf(img), AddrsOf(img, InodeCount(s.isize))), FreeSet(c), s.isize, s.fsize)
  }

  lemma {:induction false} CountBound(d: Disk, c: Chain, lo: nat, hi: nat)
    requires ChainOK(d, c, lo, hi)
    ensures Count(c) <= hi
  {
    CountIsSize(d, c, lo, hi);
    ChainRanges(d, c, lo, hi);
    SubsetCard(FreeSet(c), Interval(0, hi));
  }

  /** Rewriting block 1 leaves every inode as it was. */
  lemma {:induction false} InodesKept(a: Image, b: Image, isize: nat)
    requires |a| == |b| && isize <= NBlocks(a)
    requires forall x :: 0 <= x < |a| && !(512 <= x < 1024) ==> b[x] == a[x]
    ensures forall j :: 1 <= j <= InodeCount(isize) ==>
              HasInode(a, j) && HasInode(b, j) && InodeOf(a, j) == InodeOf(b, j)
  {
    hide DecodeInode;
    forall j | 1 <= j <= InodeCount(isize)
      ensures HasInode(a, j) && HasInode(b, j) && InodeOf(a, j) == InodeOf(b, j)
    {
      InodesFit(a, isize);
      var o := InodeOffset(j);
      assert a[o..o + INOSZ] == b[o..o + INOSZ];
    }
  }

  lemma {:induction false} SuperListSame(a: Super, s: Super, l: seq<nat>)
    requires SuperSame(a, s) && 0 <= s.nfree <= NICFREE && s.free[..s.nfree] == l
    requires forall b :: b in l ==> b < 0x1_0000_0000
    ensures a.free[..a.nfree] == l
  {
    forall j | 0 <= j < |l| ensures a.free[j] == l[j] {
      assert l[j] in l;
    }
  }

  // ------------------------------------------------------------------ inode codec

  predicate Encodable(ip: Inode) {
    && ip.mode < 65536 && -32768 <= ip.nlink < 32768 && ip.uid < 65536 && ip.gid < 65536
    && ip.size < 0x1_0000_0000 && forall i :: 0 <= i < NADDR ==> ip.addr[i] < 0x100_0000
  }

  /** putl3. */
  function L3Bytes(v: nat): (r: seq<byte>)
    ensures |r| == 3
  {
    [(v / 65536 % 256) as byte, (v % 256) as byte, (v / 256 % 256) as byte]
  }

  lemma {:induction false} L3RoundTrip(b: seq<byte>, o: nat, v: nat)
    requires o + 3 <= |b| && v < 0x100_0000
    ensures L3(Splice(b, o, L3Bytes(v)), o) == v
  {
    assert v == v / 65536 * 65536 + v % 256 + v / 256 % 256 * 256;
  }

  function AddrsOf(img: Image, n: nat): (a: seq<Addr>)
    requires n == 0 || InodeOffset(n) + INOSZ <= |img|
    ensures |a| == n
  {
    if n == 0 then [] else AddrsOf(img, n - 1) + [InodeOf(img, n).addr]
  }

  lemma {:induction false} AddrsAt(img: Image, n: nat)
    requires n == 0 || InodeOffset(n) + INOSZ <= |img|
    ensures AddrsMatch(img, AddrsOf(img, n))
  {
    hide DecodeInode;
    if n > 0 {
      AddrsAt(img, n - 1);
      var prev := AddrsOf(img, n - 1);
      var all := prev + [InodeOf(img, n).addr];
      forall i | 0 <= i < |all| ensures AddrIs(img, i + 1, all[i]) {
        if i < n - 1 {
          assert all[i] == prev[i];
        }
      }
      assert AddrsMatch(img, all);
      assert AddrsOf(img, n) == all;
    }
  }

  ghost predicate AddrsMatch(img: Image, a: seq<Addr>) {
    forall i :: 0 <= i < |a| ==> AddrIs(img, i + 1, a[i])
  }

  ghost predicate AddrIs(img: Image, ino: nat, addr: Addr) {
    HasInode(img, ino) && addr == InodeOf(img, ino).addr
  }

  function InodeCount(isize: nat): nat {
    if isize < 2 then 0 else (isize - 2) * 8
  }

  lemma {:induction false} InodesFit(img: Image, isize: nat)
    requires isize <= NBlocks(img)
    ensures forall j :: 1 <= j <= InodeCount(isize) ==> HasInode(img, j) && InodeOffset(j) + INOSZ <= 512 * isize
    ensures InodeCount(isize) == 0 || InodeOffset(InodeCount(isize)) + INOSZ <= |img|
  {}

  lemma {:induction false} HeadInodes(a: Image, b: Image, isize: nat)
    requires HeadSame(a, b, isize) && isize <= NBlocks(a)
    ensures forall j :: 1 <= j <= InodeCount(isize) ==>
              HasInode(a, j) && HasInode(b, j) && InodeOf(a, j) == InodeOf(b, j)
  {
    hide DecodeInode;
    forall j | 1 <= j <= InodeCount(isize)
      ensures HasInode(a, j) && HasInode(b, j) && InodeOf(a, j) == InodeOf(b, j)
    {
      InodesFit(a, isize);
      var o := InodeOffset(j);
      assert a[o..o + INOSZ] == b[o..o + INOSZ];
    }
  }

  /** Writing one inode's bytes changes that inode only and no block of the data area. */
  lemma {:induction false} SplicedInodes(img: Image, ino: nat, raw: seq<byte>, isize: nat)
    requires isize <= NBlocks(img) && 1 <= ino <= InodeCount(isize) && |raw| == INOSZ && HasInode(img, ino)
    ensures var r := Splice(img, InodeOffset(ino), raw);
            && HasInode(r, ino) && InodeOf(r, ino) == DecodeInode(raw)
            && (forall j :: 1 <= j <= InodeCount(isize) && j != ino ==>
                  HasInode(img, j) && HasInode(r, j) && InodeOf(r, j) == InodeOf(img, j))
            && (forall n :: isize <= n < NBlocks(img) ==> BlockOf(r, n) == BlockOf(img, n))
  {
    hide DecodeInode;
    InodesFit(img, isize);
    var r := Splice(img, InodeOffset(ino), raw);
    assert r[InodeOffset(ino)..InodeOffset(ino) + INOSZ] == raw;
    forall j | 1 <= j <= InodeCount(isize) && j != ino
      ensures HasInode(img, j) && HasInode(r, j) && InodeOf(r, j) == InodeOf(img, j)
    {
      var o := InodeOffset(j);
      assert o + INOSZ <= InodeOffset(ino) || InodeOffset(ino) + INOSZ <= o;
      assert r[o..o + INOSZ] == img[o..o + INOSZ];
    }
    forall n | isize <= n < NBlocks(img) ensures BlockOf(r, n) == BlockOf(img, n) {
      assert r[512 * n..512 * n + 512] == img[512 * n..512 * n + 512];
    }
  }

  lemma {:induction false} ChainRanges(d: Disk, c: Chain, lo: nat, hi: nat)
    requires ChainOK(d, c, lo, hi)
    ensures forall b :: b in FreeSet(c) ==> lo <= b < hi
  {
    forall b | b in FreeSet(c) ensures lo <= b < hi {
      ChainRange(d, c, lo, hi, b);
    }
  }

  lemma {:induction false} AddrsInRange(v: Volume, free: set<nat>, lo: nat, hi: nat, i: nat)
    requires Partition(v, free, lo, hi) && i < |v.a|
    ensures forall k :: 0 <= k < NADDR ==> v.a[i][k] < hi
  {
    forall k | 0 <= k < NADDR ensures v.a[i][k] < hi {
      assert InVolume(v, i, Slot(k)) && Node(v, i, Slot(k)) == v.a[i][k];
    }
  }

  /** Blocks before the data area do not matter to any file. */
  lemma {:induction false} InodeAreaFrame(v: Volume, w: Volume, free: set<nat>, lo: nat, hi: nat)
    requires Partition(v, free, lo, hi) && w.a == v.a && |w.d| == |v.d|
    requires forall n :: lo <= n < |v.d| ==> w.d[n] == v.d[n]
    ensures Partition(w, free, lo, hi)
    ensures forall j, k: nat :: 0 <= j < |v.a| && k < MAXBLOCKS ==> FileBlock(w, j, k) == FileBlock(v, j, k)
  {
    WriteKeepsPartition(v, w, free, lo, hi);
    forall j, k: nat | 0 <= j < |v.a| && k < MAXBLOCKS ensures FileBlock(w, j, k) == FileBlock(v, j, k) {
      assert InVolume(v, j, LeafOf(k));
    }
  }

  lemma {:induction false} ReplacedSame(v: Volume, w: Volume, u: Volume, i: nat, data: seq<byte>)
    requires Replaced(v, w, i, data) && u.a == w.a
    requires forall j, k: nat :: 0 <= j < |w.a| && k < MAXBLOCKS ==> FileBlock(u, j, k) == FileBlock(w, j, k)
    ensures Replaced(v, u, i, data)
  {
    forall x: nat | x < |data| ensures FileByte(u, i, x) == data[x] {
      assert FileByte(w, i, x) == data[x];
      assert FileBlock(u, i, x / 512) == FileBlock(w, i, x / 512);
    }
  }

  /** The packing half of iwrite. */
  method PackInode(ip: Inode, t: nat) returns (raw: seq<byte>)
    requires Encodable(ip)
    ensures |raw| == INOSZ && DecodeInode(raw) == ip
  {
    hide Word, PdpLong, L3, HeadOf, PutPdp;
    raw := PackHead(ip);
    var i: nat := 0;
    while i < NADDR
      invariant i <= NADDR && |raw| == INOSZ && HeadOf(raw, ip)
      invariant forall j :: 0 <= j < i ==> L3(raw, 12 + 3 * j) == ip.addr[j]
    {
      L3RoundTrip(raw, 12 + 3 * i, ip.addr[i]);
      HeadKept(raw, ip, 12 + 3 * i, L3Bytes(ip.addr[i]));
      forall j | 0 <= j < i ensures L3(Splice(raw, 12 + 3 * i, L3Bytes(ip.addr[i])), 12 + 3 * j) == L3(raw, 12 + 3 * j) {
        L3Kept(raw, 12 + 3 * i, L3Bytes(ip.addr[i]), 12 + 3 * j);
      }
      raw := Splice(raw, 12 + 3 * i, L3Bytes(ip.addr[i]));
      i := i + 1;
    }
    var times := PdpBytes(t) + PdpBytes(t) + PdpBytes(t);
    HeadKept(raw, ip, 52, times);
    forall j | 0 <= j < NADDR ensures L3(Splice(raw, 52, times), 12 + 3 * j) == L3(raw, 12 + 3 * j) {
      L3Kept(raw, 52, times, 12 + 3 * j);
    }
    raw := Splice(raw, 52, times);
  }

  lemma {:induction false} L3Kept(b: seq<byte>, o: nat, bytes: seq<byte>, p: nat)
    requires o + |bytes| <= |b| && p + 3 <= |b| && (p + 3 <= o || o + |bytes| <= p)
    ensures L3(Splice(b, o, bytes), p) == L3(b, p)
  {}

  lemma {:induction false} HeadKept(raw: seq<byte>, ip: Inode, o: nat, bytes: seq<byte>)
    requires |raw| == INOSZ && HeadOf(raw, ip) && 12 <= o && o + |bytes| <= INOSZ
    ensures HeadOf(Splice(raw, o, bytes), ip)
  {}

  /** The fields before the address slots. */
  ghost predicate HeadOf(raw: seq<byte>, ip: Inode)
    requires |raw| == INOSZ
  {
    && Word(raw, 0) == ip.mode && Signed(Word(raw, 2)) == ip.nlink && Word(raw, 4) == ip.uid && Word(raw, 6) == ip.gid
    && PdpLong(raw, 8) == ip.size
  }

  method PackHead(ip: Inode) returns (raw: seq<byte>)
    requires Encodable(ip)
    ensures |raw| == INOSZ && HeadOf(raw, ip)
  {
    hide Zeroes, Word, PdpLong;
    var nlink := if ip.nlink < 0 then ip.nlink + 65536 else ip.nlink;
    var head := WordBytes(ip.mode) + WordBytes(nlink) + WordBytes(ip.uid) + WordBytes(ip.gid);
    raw := Splice(Zeroes(INOSZ), 0, head);
    WordsAt(raw, ip.mode, nlink, ip.uid, ip.gid);
    PdpRoundTrip(raw, 8, ip.size);
    WordsKept(raw, PutPdp(raw, 8, ip.size));
    raw := PutPdp(raw, 8, ip.size);
  }

  lemma {:induction false} WordsAt(raw: seq<byte>, a: nat, b: nat, c: nat, d: nat)
    requires |raw| == INOSZ && a < 65536 && b < 65536 && c < 65536 && d < 65536
    requires raw[..8] == WordBytes(a) + WordBytes(b) + WordBytes(c) + WordBytes(d)
    ensures Word(raw, 0) == a && Word(raw, 2) == b && Word(raw, 4) == c && Word(raw, 6) == d
  {
    WordRoundTrip(a);
    WordRoundTrip(b);
    WordRoundTrip(c);
    WordRoundTrip(d);
    forall i | 0 <= i < 8 ensures raw[i] == raw[..8][i] {}
  }

  lemma {:induction false} WordsKept(a: seq<byte>, b: seq<byte>)
    requires |a| == |b| == INOSZ && forall i :: 0 <= i < 8 ==> a[i] == b[i]
    ensures Word(a, 0) == Word(b, 0) && Word(a, 2) == Word(b, 2) && Word(a, 4) == Word(b, 4) && Word(a, 6) == Word(b, 6)
  {}

  /** File i of w holds the data and has no gaps; every other file is as in v. */
  ghost predicate Replaced(v: Volume, w: Volume, i: nat, data: seq<byte>) {
    && |w.a| == |v.a| && i < |v.a| && BlocksFor(|data|) <= LIMIT
    && NoGap(w.a[i], BlocksFor(|data|))
    && (forall x: nat :: x < |data| ==> x < MAXBYTES && FileByte(w, i, x) == data[x])
    && OthersSame(v, w, i)
  }

  /** Every file but the i-th holds the same. */
  ghost predicate OthersSame(v: Volume, w: Volume, i: nat) {
    |w.a| == |v.a| &&
    forall j, k: nat :: 0 <= j < |v.a| && j != i && k < MAXBLOCKS ==> FileBlock(w, j, k) == FileBlock(v, j, k)
  }

  lemma {:induction false} ReplacedBuilt(v: Volume, v1: Volume, w: Volume, free: set<nat>, lo: nat, hi: nat, i: nat,
                                         al: seq<nat>, data: seq<byte>)
    requires Partition(v1, free, lo, hi) && Built(v1, w, free, i, al, BlocksFor(|data|))
    requires |al| >= BlocksFor(|data|) && HoldsData(w.d, al[..BlocksFor(|data|)], data)
    requires OthersSame(v, v1, i)
    ensures Replaced(v, w, i, data)
  {
    hide Partition, LeafOf, HoldsData, Built;
    var n := BlocksFor(|data|);
    BuiltNoGap(v1, w, free, i, al, n);
    forall x: nat | x < |data| ensures x < MAXBYTES && FileByte(w, i, x) == data[x] {
      BuiltContent(v1, w, free, lo, hi, i, al, n, i, x / 512);
      DataByte(w.d, al[..n], data, x);
    }
    forall j, k: nat | 0 <= j < |v.a| && j != i && k < MAXBLOCKS ensures FileBlock(w, j, k) == FileBlock(v, j, k) {
      BuiltContent(v1, w, free, lo, hi, i, al, n, j, k);
    }
  }

  lemma {:induction false} DataByte(d: Disk, blocks: seq<nat>, data: seq<byte>, x: nat)
    requires HoldsData(d, blocks, data) && x < |data| && x / 512 < |blocks|
    ensures blocks[x / 512] < |d| && d[blocks[x / 512]][x % 512] == data[x]
  {
    var k := x / 512;
    assert Slice(data, k)[x % 512] == data[x];
  }

  lemma {:induction false} BuiltNoGap(v: Volume, w: Volume, free: set<nat>, i: nat, al: seq<nat>, n: nat)
    requires Built(v, w, free, i, al, n)
    ensures n <= LIMIT && |w.a| == |v.a| && i < |v.a| && NoGap(w.a[i], n)
  {}

  datatype SetResult = Done(addr: Addr) | Full | TooLarge

  lemma {:induction false} SubsetCard(a: set<nat>, b: set<nat>)
    requires a <= b
    ensures |a| <= |b|
    decreases a
  {
    if x :| x in a {
      SubsetCard(a - {x}, b - {x});
    }
  }

  /** The ten direct slots: the first blocks, then zeroes. */
  function DirectSlots(blocks: seq<nat>): (a: seq<nat>)
    ensures |a| == ND && forall k :: 0 <= k < ND ==> a[k] == if k < |blocks| then blocks[k] else 0
  {
    if |blocks| >= ND then blocks[..ND] else blocks + Repeat<nat>(0, ND - |blocks|)
  }

  lemma {:induction false} KeepPart(d: Disk, e: Disk, al: seq<nat>, blocks: seq<nat>)
    requires Untouched(d, e, al) && |blocks| <= |al| && blocks == al[..|blocks|]
    ensures Untouched(d, e, blocks)
  {
    forall m | 0 <= m < |blocks| && blocks[m] < |d| ensures e[blocks[m]] == d[blocks[m]] {
      assert al[m] == blocks[m];
    }
  }

  lemma {:induction false} KeepOne(d: Disk, e: Disk, al: seq<nat>, m: nat)
    requires Untouched(d, e, al) && m < |al| && al[m] < |d|
    ensures |e| == |d| && e[al[m]] == d[al[m]]
  {}

  function SinglePiece(blocks: seq<nat>): (r: seq<nat>)
    requires |blocks| > ND
    ensures |r| <= NIND
  {
    blocks[ND..if |blocks| < ND + SINGLE then |blocks| else ND + SINGLE]
  }

  function DoublePiece(blocks: seq<nat>): (r: seq<nat>)
    requires |blocks| > ND + SINGLE
    ensures 0 < |r| <= NIND * NIND
  {
    blocks[ND + SINGLE..if |blocks| < LIMIT then |blocks| else LIMIT]
  }

  /** Everything taken for the file, in order. */
  function AllTaken(blocks: seq<nat>, s: nat, firsts: seq<nat>, root: nat): seq<nat> {
    if |blocks| <= ND then blocks
    else if |blocks| <= ND + SINGLE then blocks + [s]
    else if root == 0 then blocks + [s] + firsts
    else blocks + [s] + firsts + [root]
  }

  lemma {:induction false} NeedMore(n: nat)
    ensures Need(n) >= n && (n > ND ==> Need(n) >= n + 1)
    ensures n <= ND ==> Need(n) == n
    ensures ND < n <= ND + SINGLE ==> Need(n) == n + 1
    ensures n > ND + SINGLE ==> Need(n) == n + 1 + (n - ND - SINGLE + 127) / 128 + 1
    ensures Wanted(n) == if n <= LIMIT then Need(n) else n + 130
  {}

  /** The pieces setdata allocated are linked as ImageTree says. */
  lemma {:induction false} LinkUp(d: Disk, addr: Addr, al: seq<nat>, blocks: seq<nat>, s: nat, firsts: seq<nat>, root: nat)
    requires |blocks| <= LIMIT && (forall m :: 0 <= m < |al| ==> 0 < al[m] < |d|)
    requires addr == DirectSlots(blocks) + [s, root, 0] && al == AllTaken(blocks, s, firsts, root)
    requires |blocks| <= ND ==> s == 0
    requires |blocks| > ND ==> s < |d| && Packed(d[s], SinglePiece(blocks))
    requires |blocks| <= ND + SINGLE ==> root == 0
    requires |blocks| > ND + SINGLE ==>
               0 < root < |d| && |firsts| == Firsts(|blocks|) && Packed(d[root], firsts)
               && LeafBlocks(d, firsts, DoublePiece(blocks))
    ensures Linked(d, addr, al, |blocks|)
  {
    hide Packed, LeafBlocks;
    var n := |blocks|;
    if n > ND {
      assert al[n] == s && al[ND..if n < ND + SINGLE then n else ND + SINGLE] == SinglePiece(blocks);
    }
    if n > ND + SINGLE {
      assert al[n + 1..n + 1 + |firsts|] == firsts && al[n + 1 + |firsts|] == root;
      LinkLeaves(d, al, blocks, s, firsts, root);
    }
  }

  lemma {:induction false} LinkLeaves(d: Disk, al: seq<nat>, blocks: seq<nat>, s: nat, firsts: seq<nat>, root: nat)
    requires ND + SINGLE < |blocks| <= LIMIT && (forall m :: 0 <= m < |al| ==> 0 < al[m] < |d|)
    requires al == AllTaken(blocks, s, firsts, root) && root != 0 && |firsts| == Firsts(|blocks|)
    requires LeafBlocks(d, firsts, DoublePiece(blocks))
    ensures forall i :: 0 <= i < Firsts(|blocks|) ==> LeafIndex(d, al, |blocks|, i)
  {
    hide Packed;
    var n := |blocks|;
    forall i | 0 <= i < |firsts| ensures LeafIndex(d, al, n, i) {
      assert al[n + 1 + i] == firsts[i];
      LeafPiece(blocks, al, i);
    }
  }

  lemma {:induction false} LeafPiece(blocks: seq<nat>, al: seq<nat>, i: nat)
    requires ND + SINGLE + 128 * i < |blocks| <= LIMIT && |al| >= |blocks| && al[..|blocks|] == blocks
    ensures var lo, n := ND + SINGLE + 128 * i, |blocks|;
            Piece(DoublePiece(blocks), i) == al[lo..if n < lo + 128 then n else lo + 128]
  {
    var lo, n := ND + SINGLE + 128 * i, |blocks|;
    var p, a := Piece(DoublePiece(blocks), i), al[lo..if n < lo + 128 then n else lo + 128];
    assert DoublePiece(blocks) == blocks[ND + SINGLE..];
    assert |p| == |a|;
    forall j | 0 <= j < |p| ensures p[j] == a[j] {
      assert p[j] == blocks[lo + j] && al[..n][lo + j] == al[lo + j];
    }
  }

  predicate SmallNumbers(l: seq<nat>) {
    forall i :: 0 <= i < |l| ==> l[i] < 0x100_0000
  }

  /** An index block with the given entries and zeroes after them. */
  method PackPtrs(ptrs: seq<nat>) returns (b: Block)
    requires SmallNumbers(ptrs) && |ptrs| <= NIND
    ensures Packed(b, ptrs)
  {
    hide Ptr, SetPtr;
    b := ZERO;
    forall i: nat | i < NIND ensures Ptr(b, i) == 0 {
      ZeroPtr(i);
    }
    var n: nat := 0;
    while n < |ptrs|
      invariant n <= |ptrs|
      invariant forall i :: 0 <= i < NIND ==> Ptr(b, i) == if i < n then ptrs[i] else 0
    {
      forall i: nat | i < NIND ensures Ptr(SetPtr(b, n, ptrs[n]), i) == if i == n then ptrs[n] else Ptr(b, i) {
        SetPtrExact(b, n, ptrs[n], i);
      }
      b := SetPtr(b, n, ptrs[n]);
      n := n + 1;
    }
  }

  /** The blocks of the list hold on both disks the same. */
  ghost predicate Untouched(d: Disk, e: Disk, al: seq<nat>) {
    |e| == |d| && forall m :: 0 <= m < |al| && al[m] < |d| ==> e[al[m]] == d[al[m]]
  }

  lemma {:induction false} UntouchedTrans(c: Disk, d: Disk, e: Disk, al: seq<nat>, more: seq<nat>)
    requires Untouched(c, d, al) && Untouched(d, e, al + more)
    ensures Untouched(c, e, al)
  {
    forall m | 0 <= m < |al| && al[m] < |c| ensures e[al[m]] == c[al[m]] {
      assert (al + more)[m] == al[m];
    }
  }

  /** doubles[i:i + NIND], counting in index blocks. */
  function Piece(doubles: seq<nat>, i: nat): seq<nat>
    requires 128 * i < |doubles|
  {
    if 128 * i + 128 <= |doubles| then doubles[128 * i..128 * i + 128] else doubles[128 * i..]
  }

  /** Each block of the list is the index block of its piece of the numbers. */
  ghost predicate LeafBlocks(d: Disk, firsts: seq<nat>, doubles: seq<nat>) {
    && |firsts| <= (|doubles| + 127) / 128
    && forall i :: 0 <= i < |firsts| ==> firsts[i] < |d| && Packed(d[firsts[i]], Piece(doubles, i))
  }

  lemma {:induction false} NoLeaves(d: Disk, al: seq<nat>, doubles: seq<nat>)
    ensures LeafBlocks(d, [], doubles) && Untouched(d, d, al)
  {}

  lemma {:induction false} KeepLeaves(d: Disk, e: Disk, al: seq<nat>, firsts: seq<nat>, doubles: seq<nat>)
    requires LeafBlocks(d, firsts, doubles) && Untouched(d, e, al + firsts)
    ensures LeafBlocks(e, firsts, doubles)
  {
    forall i | 0 <= i < |firsts| ensures e[firsts[i]] == d[firsts[i]] {
      assert (al + firsts)[|al| + i] == firsts[i];
    }
  }

  lemma {:induction false} MoreLeaves(d: Disk, e: Disk, al: seq<nat>, firsts: seq<nat>, doubles: seq<nat>, b: nat)
    requires LeafBlocks(d, firsts, doubles) && Untouched(d, e, al + firsts)
    requires 128 * |firsts| < |doubles| && b < |e| && Packed(e[b], Piece(doubles, |firsts|))
    ensures LeafBlocks(e, firsts + [b], doubles)
  {
    KeepLeaves(d, e, al, firsts, doubles);
  }

  /** Blocks a file of this many bytes takes. */
  function BlocksFor(bytes: nat): nat {
    (bytes + BSIZE - 1) / BSIZE
  }

  /** data[i * BSIZE:(i + 1) * BSIZE] */
  function Slice(data: seq<byte>, i: nat): (r: seq<byte>)
    requires i < BlocksFor(|data|)
    ensures |r| <= BSIZE
  {
    if 512 * i + 512 <= |data| then data[512 * i..512 * i + 512] else data[512 * i..]
  }

  /** The blocks hold the first pieces of the data, padded with zeroes. */
  ghost predicate HoldsData(d: Disk, blocks: seq<nat>, data: seq<byte>) {
    && |blocks| <= BlocksFor(|data|)
    && forall k :: 0 <= k < |blocks| ==> blocks[k] < |d| && d[blocks[k]] == Pad(Slice(data, k))
  }

  lemma {:induction false} NoData(d: Disk, data: seq<byte>)
    ensures HoldsData(d, [], data)
  {}

  lemma {:induction false} KeepData(d: Disk, e: Disk, blocks: seq<nat>, data: seq<byte>)
    requires HoldsData(d, blocks, data) && |e| == |d|
    requires Untouched(d, e, blocks)
    ensures HoldsData(e, blocks, data)
  {}

  lemma {:induction false} MoreData(d: Disk, e: Disk, blocks: seq<nat>, data: seq<byte>, b: nat)
    requires HoldsData(d, blocks, data) && |blocks| < BlocksFor(|data|) && |e| == |d|
    requires Untouched(d, e, blocks)
    requires b < |e| && e[b] == Pad(Slice(data, |blocks|))
    ensures HoldsData(e, blocks + [b], data)
  {}

  lemma AppendInserted(l: seq<nat>, b: nat)
    requires NoDup(l) && b !in l
    ensures Inserted(l, b, l + [b])
  {}

  lemma PadBlock(b: Block)
    ensures Pad(b) == b
  {}

  lemma StoredList(b: Block, l: seq<nat>, free: seq<nat>)
    requires Stored(b, l) && |free| == NICFREE && forall i :: 0 <= i < NICFREE ==> free[i] == FreeEntry(b, i)
    ensures free[..|l|] == l
  {}

  /** A batch read from its link block: the count and all 64 entries. */
  method UnpackBatch(b: Block) returns (n: nat, free: seq<nat>)
    requires Signed(Word(b, 0)) >= 0
    ensures n == Word(b, 0) && |free| == NICFREE
    ensures forall i :: 0 <= i < NICFREE ==> free[i] == FreeEntry(b, i)
  {
    n, free := Word(b, 0), [];
    while |free| < NICFREE
      invariant |free| <= NICFREE
      invariant forall i :: 0 <= i < |free| ==> free[i] == FreeEntry(b, i)
      decreases NICFREE - |free|
    {
      free := free + [FreeEntry(b, |free|)];
    }
  }
}
