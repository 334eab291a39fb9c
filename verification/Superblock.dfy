/**
  The superblock of an image as cohfsw.py loads and stores it: the fields of the free
  list and the sizes of the filesystem.
 */
module Superblock {
  import opened Layout
  import opened FreeChain
  import opened CohFs

  datatype Super = Super(isize: nat, fsize: nat, nfree: int, free: seq<nat>, tfree: nat)

  /** s_free[i], at byte 8 of the superblock. */
  function SuperEntry(sb: Block, i: nat): nat
    requires i < NICFREE
  {
    PdpLong(sb, 8 + 4 * i)
  }

  function SuperList(sb: Block, from: nat): (r: seq<nat>)
    requires from <= NICFREE
    ensures |r| == NICFREE - from && forall i :: 0 <= i < |r| ==> r[i] == SuperEntry(sb, from + i)
    decreases NICFREE - from
  {
    if from == NICFREE then [] else [SuperEntry(sb, from)] + SuperList(sb, from + 1)
  }

  /** _load_super. */
  function SuperOf(sb: Block): Super {
    Super(Word(sb, 0), PdpLong(sb, 2), Signed(Word(sb, 6)), SuperList(sb, 0), PdpLong(sb, 474))
  }

  /** cohfs.py and cohfsw.py find the sizes and the number of free blocks in the same places; the
      list and its count lie between s_fsize and the inode cache. */
  lemma {:induction false} SamePlaces(sb: Block, i: nat)
    requires i < NICFREE
    ensures SuperSizes(sb) == (SuperOf(sb).isize, SuperOf(sb).fsize, SuperOf(sb).tfree)
    ensures SuperOf(sb).nfree == Signed(Word(sb, 2 + 4))
    ensures SuperOf(sb).free[i] == PdpLong(sb, 2 + 4 + 2 + 4 * i)
  {
    assert SuperList(sb, 0)[i] == SuperEntry(sb, i);
  }

  /** a is s, each list entry cut to 32 bits. */
  predicate SuperSame(a: Super, s: Super) {
    && a.isize == s.isize && a.fsize == s.fsize && a.nfree == s.nfree && a.tfree == s.tfree
    && |a.free| == |s.free| == NICFREE
    && forall j :: 0 <= j < NICFREE ==> a.free[j] == s.free[j] % 0x1_0000_0000
  }

  predicate SuperFits(s: Super) {
    && s.isize < 65536 && s.fsize < 0x1_0000_0000 && 0 <= s.nfree <= NICFREE && s.tfree < 0x1_0000_0000
    && |s.free| == NICFREE
  }

  /** _store_super, over the bytes that were there: the fields come back as they went in. */
  method PackSuper(was: Block, s: Super) returns (sb: Block)
    requires SuperFits(s)
    ensures SuperSame(SuperOf(sb), s)
    ensures forall x :: 264 <= x < BSIZE && !(474 <= x < 478) ==> sb[x] == was[x]
  {
    hide Word, PdpLong, SuperEntry, SuperHeadIs, EntriesAre, SuperOf;
    sb := Splice(was, 0, WordBytes(s.isize));
    SuperHead(was, s.isize, s.fsize, s.nfree);
    sb := Splice(PutPdp(sb, 2, s.fsize), 6, WordBytes(s.nfree));
    var i: nat := 0;
    NoEntries(sb, s.free);
    while i < NICFREE
      invariant i <= NICFREE && SuperHeadIs(sb, s.isize, s.fsize, s.nfree) && EntriesAre(sb, s.free, i)
      invariant forall x :: 264 <= x < BSIZE ==> sb[x] == was[x]
    {
      EntryStep(sb, s.free, i);
      SuperHeadKept(sb, 8 + 4 * i, s.free[i], s.isize, s.fsize, s.nfree);
      sb := PutPdp(sb, 8 + 4 * i, s.free[i]);
      i := i + 1;
    }
    SuperHeadKept(sb, 474, s.tfree, s.isize, s.fsize, s.nfree);
    EntriesKept(sb, s.free, s.tfree);
    PdpRoundTrip(sb, 474, s.tfree);
    sb := PutPdp(sb, 474, s.tfree);
    SuperDone(sb, s);
  }

  ghost predicate EntriesAre(sb: Block, free: seq<nat>, n: nat) {
    n <= NICFREE == |free| && forall j: nat :: j < n ==> SuperEntry(sb, j) == free[j] % 0x1_0000_0000
  }

  lemma NoEntries(sb: Block, free: seq<nat>)
    requires |free| == NICFREE
    ensures EntriesAre(sb, free, 0)
  {}

  lemma {:induction false} EntryStep(sb: Block, free: seq<nat>, i: nat)
    requires i < NICFREE && EntriesAre(sb, free, i)
    ensures EntriesAre(PutPdp(sb, 8 + 4 * i, free[i]), free, i + 1)
  {
    forall j: nat | j <= i ensures SuperEntry(PutPdp(sb, 8 + 4 * i, free[i]), j) == free[j] % 0x1_0000_0000 {
      SuperPut(sb, i, free[i], j);
    }
  }

  lemma {:induction false} EntriesKept(sb: Block, free: seq<nat>, v: nat)
    requires EntriesAre(sb, free, NICFREE)
    ensures EntriesAre(PutPdp(sb, 474, v), free, NICFREE)
  {
    forall j: nat | j < NICFREE ensures SuperEntry(PutPdp(sb, 474, v), j) == free[j] % 0x1_0000_0000 {
    }
  }

  lemma {:induction false} SuperDone(sb: Block, s: Super)
    requires SuperHeadIs(sb, s.isize, s.fsize, s.nfree) && EntriesAre(sb, s.free, NICFREE) && PdpLong(sb, 474) == s.tfree
    ensures SuperSame(SuperOf(sb), s)
  {
    hide SuperList, Word, PdpLong, SuperEntry;
    var l := SuperList(sb, 0);
  }

  ghost predicate SuperHeadIs(sb: Block, isize: nat, fsize: nat, nfree: int) {
    Word(sb, 0) == isize && PdpLong(sb, 2) == fsize && Signed(Word(sb, 6)) == nfree
  }

  lemma {:induction false} SuperHead(b: Block, isize: nat, fsize: nat, nfree: int)
    requires isize < 65536 && fsize < 0x1_0000_0000 && 0 <= nfree <= NICFREE
    ensures SuperHeadIs(Splice(PutPdp(Splice(b, 0, WordBytes(isize)), 2, fsize), 6, WordBytes(nfree)), isize, fsize, nfree)
  {
    WordRoundTrip(isize);
    WordRoundTrip(nfree);
    PdpRoundTrip(Splice(b, 0, WordBytes(isize)), 2, fsize);
  }

  lemma {:induction false} SuperHeadKept(sb: Block, o: nat, v: nat, isize: nat, fsize: nat, nfree: int)
    requires SuperHeadIs(sb, isize, fsize, nfree) && 8 <= o && o + 4 <= BSIZE
    ensures SuperHeadIs(PutPdp(sb, o, v), isize, fsize, nfree)
  {
    PdpElsewhere(sb, o, v, 2);
  }

  lemma {:induction false} SuperPut(sb: Block, i: nat, v: nat, j: nat)
    requires i < NICFREE && j < NICFREE
    ensures SuperEntry(PutPdp(sb, 8 + 4 * i, v), j) == if j == i then v % 0x1_0000_0000 else SuperEntry(sb, j)
  {
    if i == j {
      PdpRoundTrip(sb, 8 + 4 * i, v);
    } else {
      PdpElsewhere(sb, 8 + 4 * i, v, 8 + 4 * j);
    }
  }
}
