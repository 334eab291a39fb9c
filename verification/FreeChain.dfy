/**
  The free-block list: a batch of up to 64 block numbers held by the superblock, whose
  entry 0 names a block that holds the next batch, and so on to an empty batch.
 */
module FreeChain {
  import opened Lists
  import opened Layout

  const NICFREE: nat := 64

  datatype Chain = Empty | Batch(list: seq<nat>, next: Chain)

  function ListOf(c: Chain): seq<nat> {
    if c.Empty? then [] else c.list
  }

  function Elements(l: seq<nat>): set<nat> {
    set b | b in l
  }

  function FreeSet(c: Chain): set<nat> {
    match c
    case Empty => {}
    case Batch(l, next) => Elements(l) + FreeSet(next)
  }

  function Count(c: Chain): nat {
    match c
    case Empty => 0
    case Batch(l, next) => |l| + Count(next)
  }

  /** Entry i of the batch in a link block: df_free[i], after the two bytes of df_nfree. */
  function FreeEntry(b: Block, i: nat): nat
    requires i < NICFREE
  {
    PdpLong(b, 2 + 4 * i)
  }

  /** The block holds exactly this batch. */
  ghost predicate Stored(b: Block, l: seq<nat>) {
    && |l| <= NICFREE
    && Word(b, 0) == |l|
    && forall i :: 0 <= i < |l| ==> FreeEntry(b, i) == l[i]
  }

  /** A finite chain without repetitions, whose links are on the disk. */
  ghost predicate ChainOK(d: Disk, c: Chain, lo: nat, hi: nat) {
    match c
    case Empty => true
    case Batch(l, next) =>
      && 0 < |l| <= NICFREE
      && NoDup(l)
      && Elements(l) !! FreeSet(next)
      && (forall i :: 0 <= i < |l| ==> lo <= l[i] < hi && l[i] < |d|)
      && Stored(d[l[0]], ListOf(next))
      && ChainOK(d, next, lo, hi)
  }

  lemma {:induction false} ChainFrame(d: Disk, e: Disk, c: Chain, lo: nat, hi: nat)
    requires ChainOK(d, c, lo, hi) && |e| == |d|
    requires forall b :: b in FreeSet(c) && b < |d| ==> e[b] == d[b]
    ensures ChainOK(e, c, lo, hi)
  {
    if c.Batch? {
      assert c.list[0] in c.list;
      ChainFrame(d, e, c.next, lo, hi);
    }
  }

  lemma {:induction false} ChainRange(d: Disk, c: Chain, lo: nat, hi: nat, b: nat)
    requires ChainOK(d, c, lo, hi) && b in FreeSet(c)
    ensures lo <= b < hi && b < |d|
  {
    if b !in Elements(c.list) {
      ChainRange(d, c.next, lo, hi, b);
    }
  }

  /** Since no block is listed twice, the counters add up to the size of the free set. */
  lemma {:induction false} CountIsSize(d: Disk, c: Chain, lo: nat, hi: nat)
    requires ChainOK(d, c, lo, hi)
    ensures |FreeSet(c)| == Count(c)
  {
    if c.Batch? {
      CountIsSize(d, c.next, lo, hi);
      ElementsSize(c.list);
    }
  }

  /** The superblock's list: at most 64 different blocks, none exactly when no block is free. */
  lemma {:induction false} ChainHead(d: Disk, c: Chain, lo: nat, hi: nat)
    requires ChainOK(d, c, lo, hi)
    ensures |ListOf(c)| <= NICFREE && NoDup(ListOf(c))
    ensures forall b :: b in ListOf(c) ==> b in FreeSet(c) && lo <= b < hi
    ensures ListOf(c) == [] <==> c.Empty?
    ensures FreeSet(c) == {} <==> c.Empty?
  {
    if c.Batch? {
      assert c.list[0] in c.list;
    }
  }

  lemma {:induction false} ElementsSize(l: seq<nat>)
    requires NoDup(l)
    ensures |Elements(l)| == |l|
  {
    if l != [] {
      SplitLast(l);
      ElementsSize(l[..|l| - 1]);
    }
  }

  lemma {:induction false} SplitLast(l: seq<nat>)
    requires l != []
    ensures var front, last := l[..|l| - 1], l[|l| - 1];
            && Elements(l) == Elements(front) + {last}
            && (NoDup(l) ==> NoDup(front) && last !in Elements(front))
  {
    var front, last := l[..|l| - 1], l[|l| - 1];
    assert l == front + [last];
  }

  // -------------------------------------------------------------------- pop

  function Top(c: Chain): nat
    requires c.Batch? && c.list != []
  {
    c.list[|c.list| - 1]
  }

  function Pop(c: Chain): Chain
    requires c.Batch? && c.list != []
  {
    if |c.list| == 1 then c.next else Batch(c.list[..|c.list| - 1], c.next)
  }

  lemma {:induction false} PopExact(d: Disk, c: Chain, lo: nat, hi: nat)
    requires ChainOK(d, c, lo, hi) && c.Batch?
    ensures ChainOK(d, Pop(c), lo, hi)
    ensures Top(c) in FreeSet(c) && FreeSet(Pop(c)) == FreeSet(c) - {Top(c)}
    ensures Count(Pop(c)) == Count(c) - 1
    ensures lo <= Top(c) < hi && Top(c) < |d|
    ensures |c.list| == 1 ==> Stored(d[Top(c)], ListOf(Pop(c)))
    ensures |c.list| > 1 ==> ListOf(Pop(c)) == c.list[..|c.list| - 1]
  {
    SplitLast(c.list);
    assert Top(c) in c.list;
  }

  // ------------------------------------------------------------------- push

  /** The chain after block m[|m|-1] has been freed, m being the superblock's list with the
      new block put in: one more entry, or a new batch when the list was full. */
  function PushList(c: Chain, m: seq<nat>): Chain
    requires |m| > 0
  {
    if c.Empty? || |m| > NICFREE then
      Batch([m[|m| - 1]], if c.Empty? then Empty else Batch(m[..|m| - 1], c.next))
    else
      Batch(m, c.next)
  }

  /** m is the superblock's list with b put in somewhere after the link. */
  ghost predicate Inserted(l: seq<nat>, b: nat, m: seq<nat>) {
    && |m| == |l| + 1
    && NoDup(m)
    && Elements(m) == Elements(l) + {b}
    && (l != [] ==> m[0] == l[0])
  }

  lemma {:induction false} PushExact(d: Disk, e: Disk, c: Chain, lo: nat, hi: nat, b: nat, m: seq<nat>)
    requires ChainOK(d, c, lo, hi) && Inserted(ListOf(c), b, m)
    requires lo <= b < hi && b < |d| && b !in FreeSet(c)
    requires |e| == |d| && (forall i :: 0 <= i < |m| ==> lo <= m[i] < hi && m[i] < |d|)
    requires forall x :: 0 <= x < |d| && x != m[|m| - 1] ==> e[x] == d[x]
    requires if ListOf(c) == [] || |m| > NICFREE then Stored(e[m[|m| - 1]], m[..|m| - 1]) else e == d
    ensures ChainOK(e, PushList(c, m), lo, hi)
    ensures FreeSet(PushList(c, m)) == FreeSet(c) + {b}
    ensures Count(PushList(c, m)) == Count(c) + 1
  {
    if c.Empty? {
      assert m[..|m| - 1] == [] && m == [m[0]];
    } else if |m| > NICFREE {
      PushFull(d, e, c, lo, hi, b, m);
    } else {
      assert c.list[0] in c.list;
    }
  }

  lemma {:induction false} PushFull(d: Disk, e: Disk, c: Chain, lo: nat, hi: nat, b: nat, m: seq<nat>)
    requires c.Batch? && ChainOK(d, c, lo, hi) && Inserted(c.list, b, m) && |m| > NICFREE
    requires b !in FreeSet(c) && |e| == |d|
    requires forall i :: 0 <= i < |m| ==> lo <= m[i] < hi && m[i] < |d|
    requires forall x :: 0 <= x < |d| && x != m[|m| - 1] ==> e[x] == d[x]
    requires Stored(e[m[|m| - 1]], m[..|m| - 1])
    ensures ChainOK(e, PushList(c, m), lo, hi)
    ensures FreeSet(PushList(c, m)) == FreeSet(c) + {b}
    ensures Count(PushList(c, m)) == Count(c) + 1
  {
    var last, front := m[|m| - 1], m[..|m| - 1];
    SplitLast(m);
    assert c.list[0] in c.list && m[0] in m && front[0] == m[0];
    PushKeepsTail(d, e, c, lo, hi, m);
  }

  lemma {:induction false} PushKeepsTail(d: Disk, e: Disk, c: Chain, lo: nat, hi: nat, m: seq<nat>)
    requires c.Batch? && ChainOK(d, c, lo, hi) && |e| == |d| && |m| == |c.list| + 1
    requires m[0] == c.list[0] && NoDup(m) && Elements(m) !! FreeSet(c.next)
    requires forall x :: 0 <= x < |d| && x != m[|m| - 1] ==> e[x] == d[x]
    ensures ChainOK(e, c.next, lo, hi) && Stored(e[m[0]], ListOf(c.next))
  {
    assert m[|m| - 1] in m;
    forall x | x in FreeSet(c.next) ensures x != m[|m| - 1] {}
    ChainFrame(d, e, c.next, lo, hi);
  }

  lemma {:induction false} MembersInRange(d: Disk, c: Chain, lo: nat, hi: nat, b: nat, m: seq<nat>)
    requires ChainOK(d, c, lo, hi) && Inserted(ListOf(c), b, m) && lo <= b < hi <= |d|
    ensures forall i :: 0 <= i < |m| ==> lo <= m[i] < hi && m[i] < |d|
  {
    forall i | 0 <= i < |m| ensures lo <= m[i] < hi && m[i] < |d| {
      assert m[i] in Elements(m);
      if m[i] != b {
        assert m[i] in ListOf(c);
      }
    }
  }

  /** From position 1 on each batch is strictly descending, so the smallest goes first. */
  predicate Descending(l: seq<nat>) {
    forall i, j :: 1 <= i < j < |l| ==> l[i] > l[j]
  }

  predicate AllDescending(c: Chain) {
    match c
    case Empty => true
    case Batch(l, next) => Descending(l) && AllDescending(next)
  }

  // -------------------------------------------------------------- link blocks

  lemma {:induction false} PutEntry(b: Block, i: nat, v: nat, j: nat)
    requires i < NICFREE && j < NICFREE
    ensures FreeEntry(PutPdp(b, 2 + 4 * i, v), j) == if j == i then v % 0x1_0000_0000 else FreeEntry(b, j)
    ensures Word(PutPdp(b, 2 + 4 * i, v), 0) == Word(b, 0)
  {
    if i == j {
      PdpRoundTrip(b, 2 + 4 * i, v);
    } else {
      PdpElsewhere(b, 2 + 4 * i, v, 2 + 4 * j);
    }
  }

  lemma {:induction false} PutCount(n: nat)
    requires n < 65536
    ensures Word(Splice(ZERO, 0, WordBytes(n)), 0) == n
  {
    WordRoundTrip(n);
  }

  /** A link block: the count, then the 64 entries as disk longs (canndaddr, putpdp). */
  method PackBatch(n: nat, free: seq<nat>) returns (b: Block)
    requires n <= NICFREE && |free| == NICFREE
    ensures Word(b, 0) == n
    ensures forall i :: 0 <= i < NICFREE ==> FreeEntry(b, i) == free[i] % 0x1_0000_0000
  {
    hide FreeEntry, Word, PutPdp;
    b := Splice(ZERO, 0, WordBytes(n));
    PutCount(n);
    var i := 0;
    while i < NICFREE
      invariant 0 <= i <= NICFREE
      invariant Word(b, 0) == n
      invariant forall j :: 0 <= j < i ==> FreeEntry(b, j) == free[j] % 0x1_0000_0000
    {
      forall j: nat | j <= i
        ensures FreeEntry(PutPdp(b, 2 + 4 * i, free[i]), j)
                == if j == i then free[i] % 0x1_0000_0000 else FreeEntry(b, j)
        ensures Word(PutPdp(b, 2 + 4 * i, free[i]), 0) == Word(b, 0)
      {
        PutEntry(b, i, free[i], j);
      }
      PutEntry(b, i, free[i], i);
      b := PutPdp(b, 2 + 4 * i, free[i]);
      i := i + 1;
    }
  }

  lemma {:induction false} StoredPack(b: Block, free: seq<nat>, l: seq<nat>)
    requires |free| == NICFREE && |l| <= NICFREE && l == free[..|l|] && Word(b, 0) == |l|
    requires forall i :: 0 <= i < NICFREE ==> FreeEntry(b, i) == free[i] % 0x1_0000_0000
    requires forall x :: x in l ==> x < 0x1_0000_0000
    ensures Stored(b, l)
  {
    hide FreeEntry, Word;
    forall i | 0 <= i < |l| ensures FreeEntry(b, i) == l[i] {
      assert l[i] in l;
    }
  }
}
