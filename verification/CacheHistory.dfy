/**
  The buffer cache as its callers see it: any sequence of reads, writes and syncs by
  processes that hold one buffer at a time gives what direct access to the disks would.
 */
module CacheHistory {
  import opened Lists
  import opened Layout
  import opened BufferCache

  /** How a modified buffer is given back. */
  datatype Way = Delayed | Queued | AtOnce

  datatype Op =
    | Read(dev: nat, bno: nat)
    | ReadAhead(dev: nat, bno: nat)
    | Update(dev: nat, bno: nat, data: Block, way: Way)   // bread, then new contents
    | Replace(dev: nat, bno: nat, data: Block, way: Way)  // bclaim, then new contents
    | Sync
    | Interrupt

  predicate Proper(op: Op) {
    op.Sync? || op.Interrupt? || (op.dev != NODEV && op.bno < 0x1_0000_0000)
  }

  predicate Changes(op: Op) {
    op.Update? || op.Replace?
  }

  /** Direct access: the store after one operation, and what a read returns. */
  function Apply(s: Store, op: Op): Store {
    if Changes(op) then s[(op.dev, op.bno) := op.data] else s
  }

  function Reply(s: Store, op: Op): seq<Block> {
    if op.Read? then [Lookup(s, (op.dev, op.bno))] else []
  }

  function StoreAfter(s: Store, ops: seq<Op>): Store {
    if ops == [] then s else Apply(StoreAfter(s, ops[..|ops| - 1]), ops[|ops| - 1])
  }

  function Replies(s: Store, ops: seq<Op>): seq<Block> {
    if ops == [] then [] else
      Replies(s, ops[..|ops| - 1]) + Reply(StoreAfter(s, ops[..|ops| - 1]), ops[|ops| - 1])
  }

  /** Fill the held buffer and give it back. */
  method PutBack(c: Cache, bp: nat, data: Block, way: Way)
    requires c.Valid() && OnlyHeld(c.buf[..], bp) && c.buf[bp].lock == Held
    modifies c, c.buf
    ensures c.Valid() && NoneHeld(c.buf[..])
    ensures c.view == old(c.view)[old(PlaceOf(c.buf[bp])) := data]
  {
    hide CacheOK, HashOK, LruOK, Cache.LinksOK;
    ghost var b := c.buf[..];
    c.Fill(bp, data);
    StillOnly(b, c.buf[..], bp);
    match way
    case Delayed =>
      c.BRelease(bp);
    case Queued =>
      c.BWrite(bp, false);
    case AtOnce =>
      c.BWrite(bp, true);
      c.BRelease(bp);
  }

  method Perform(c: Cache, op: Op) returns (reply: seq<Block>)
    requires c.Valid() && NoneHeld(c.buf[..]) && Proper(op)
    modifies c, c.buf, c.hasharray, c.space
    ensures c.Valid() && NoneHeld(c.buf[..])
    ensures c.view == Apply(old(c.view), op) && reply == Reply(old(c.view), op)
  {
    hide CacheOK, HashOK, LruOK, Cache.LinksOK;
    reply := [];
    match op {
      case Read(dev, bno) =>
        var bp := c.BRead(dev, bno);
        reply := [c.buf[bp].data];
        c.BRelease(bp);
      case ReadAhead(dev, bno) =>
        ghost var taken := c.BReadAhead(dev, bno);
      case Update(dev, bno, data, way) =>
        var bp := c.BRead(dev, bno);
        PutBack(c, bp, data, way);
      case Replace(dev, bno, data, way) =>
        var bp := c.BClaim(dev, bno);
        PutBack(c, bp, data, way);
      case Sync =>
        ghost var started := c.BSync();
      case Interrupt =>
        ghost var b := c.buf[..];
        c.Interrupts();
    }
  }

  lemma {:induction false} RepliesStep(s: Store, ops: seq<Op>, i: nat)
    requires i < |ops|
    ensures StoreAfter(s, ops[..i + 1]) == Apply(StoreAfter(s, ops[..i]), ops[i])
    ensures Replies(s, ops[..i + 1]) == Replies(s, ops[..i]) + Reply(StoreAfter(s, ops[..i]), ops[i])
  {
    assert ops[..i + 1][..i] == ops[..i];
  }

  /** Any sequence of operations on a new cache, and then a sync: the replies are those of
      direct access, and so is what the disks hold in the end. */
  method Session(nbuf: nat, nhash: nat, contents: Store, ops: seq<Op>) returns (replies: seq<Block>, c: Cache)
    requires nbuf >= 32 && nhash >= 32 && forall i :: 0 <= i < |ops| ==> Proper(ops[i])
    ensures replies == Replies(contents, ops)
    ensures c.Valid() && forall a :: Lookup(c.disk, a) == Lookup(StoreAfter(contents, ops), a)
  {
    hide CacheOK, HashOK, LruOK, Cache.LinksOK, Apply, Reply;
    c := new Cache(nbuf, nhash, contents);
    replies := [];
    var i: nat := 0;
    while i < |ops|
      invariant i <= |ops| && c.Valid() && NoneHeld(c.buf[..])
      invariant c.view == StoreAfter(contents, ops[..i]) && replies == Replies(contents, ops[..i])
      invariant fresh(c) && fresh(c.buf) && fresh(c.hasharray) && fresh(c.space)
    {
      RepliesStep(contents, ops, i);
      var reply := Perform(c, ops[i]);
      replies := replies + reply;
      i := i + 1;
    }
    assert ops[..i] == ops;
    ghost var started := c.BSync();
  }

  // ---- two ways to break the cache, and one to sleep for ever

  /** Blocks 0 to n - 1 are being read ahead into n buffers; the rest are unused. */
  ghost predicate Reads(b: Bufs, n: nat) {
    && (forall i :: 0 <= i < |b| ==> !b[i].modified && if b[i].lock == Reading then PlaceOf(b[i]).1 < n else Unused(b[i]))
    && |Busy(b)| == n
  }

  predicate Unused(x: Buf) {
    x.lock == Idle && !Live(x)
  }

  ghost function Busy(b: Bufs): (s: set<nat>)
    ensures forall i: nat :: i in s <==> i < |b| && b[i].lock == Reading
  {
    set i: nat | i < |b| && b[i].lock == Reading
  }

  lemma {:induction false} NoReads(b: Bufs)
    requires forall i :: 0 <= i < |b| ==> Blank(b[i])
    ensures Reads(b, 0)
  {
    assert Busy(b) == {};
  }

  lemma {:induction false} SomeFree(b: Bufs, n: nat)
    requires Reads(b, n) && n < |b|
    ensures Calm(b)
  {
    var all := Interval(0, |b|);
    assert all * Busy(b) == Busy(b);
    assert |all - Busy(b)| == |b| - n;
    var i :| i in all - Busy(b);
    assert b[i].lock == Idle;
  }

  lemma {:induction false} NotYetRead(b: Bufs, n: nat)
    requires Reads(b, n)
    ensures NoneHeld(b) && !Resident(b, (1, n))
  {}

  lemma {:induction false} OneMoreRead(b: Bufs, c: Bufs, q: nat, n: nat)
    requires Reads(b, n) && Quietly(b, c, q) && c[q].lock == Reading && PlaceOf(c[q]) == (1, n) && !c[q].modified
    ensures Reads(c, n + 1)
  {
    assert Busy(c) == Busy(b) + {q};
  }

  lemma {:induction false} AllBusy(b: Bufs)
    requires Reads(b, |b|)
    ensures forall i :: 0 <= i < |b| ==> b[i].lock == Reading
  {
    var all := Interval(0, |b|);
    assert all * Busy(b) == Busy(b);
    assert |all - Busy(b)| == 0;
    forall i | 0 <= i < |b| ensures b[i].lock == Reading {
      assert i in all && i !in all - Busy(b);
    }
  }

  /** Buffers 0 and 1 have been read; the others are still in flight. */
  lemma {:induction false} TwoDone(b: Bufs, c: Bufs, d: Bufs, x: Store, y: Store)
    requires |b| > 2 && Reads(b, |b|) && (forall i :: 0 <= i < |b| ==> b[i].lock == Reading)
    requires c == b[0 := Done(b[0], x)] && d == c[1 := Done(c[1], y)]
    ensures Calm(d) && NoneHeld(d) && !Resident(d, (1, |b|))
    ensures forall i :: 0 <= i < |b| ==> !d[i].modified && (d[i].lock == Idle <==> i < 2)
  {
    assert d[0].lock == Idle;
    forall i | 0 <= i < |d| ensures PlaceOf(d[i]) != (1, |b|) {
      assert PlaceOf(d[i]) == PlaceOf(b[i]);
    }
  }

  lemma {:induction false} Second(b: Bufs, c: Bufs, byB: nat, byA: nat)
    requires |b| > 2 && Quietly(b, c, byB) && byA + byB == 1
    requires forall i :: 0 <= i < |b| ==> !b[i].modified && (b[i].lock == Idle <==> i < 2)
    ensures byA < |c| && c[byA].lock == Idle && !c[byA].modified
  {
    assert SameButLinks(b[byA], c[byA]);
  }

  lemma {:induction false} BothHold(b: Bufs, a: Place, i: nat, j: nat)
    requires i < |b| && j < |b| && i != j && PlaceOf(b[i]) == a && Live(b[i])
    ensures HeldBesides(b, a, j)
  {}

  lemma {:induction false} NotValid(c: Cache)
    requires !Unique(c.buf[..])
    ensures !c.Valid()
  {}

  /** A new cache of 32 buffers with 32 blocks on their way into it. */
  method AllReading() returns (c: Cache)
    ensures c.Valid() && c.buf.Length == 32 && Reads(c.buf[..], 32) && fresh(c) && fresh(c.buf) && fresh(c.hasharray)
    ensures fresh(c.space)
  {
    hide CacheOK, HashOK, LruOK, Cache.LinksOK, Calm, Quietly, Reads, Resident, NoneHeld;
    c := new Cache(32, 32, map[]);
    NoReads(c.buf[..]);
    var n: nat := 0;
    while n < 32
      invariant n <= 32 && c.Valid() && c.buf.Length == 32 && Reads(c.buf[..], n)
      invariant fresh(c) && fresh(c.buf) && fresh(c.hasharray) && fresh(c.space)
    {
      ghost var b := c.buf[..];
      SomeFree(b, n);
      NotYetRead(b, n);
      ghost var taken := c.BReadAhead(1, n);
      OneMoreRead(b, c.buf[..], taken, n);
      n := n + 1;
    }
  }

  /** While 32 blocks are read ahead, A claims block 32: it finds neither the block nor a buffer
      that is not locked, and sleeps.  Two reads end.  Before A runs, B claims the same block and
      gets one of the two buffers; A goes on with its scan and takes the other. */
  method TwoClaims() returns (c: Cache, byB: nat, byA: nat)
    ensures byA != byB && byA < c.buf.Length && byB < c.buf.Length
    ensures PlaceOf(c.buf[byA]) == PlaceOf(c.buf[byB]) == (1, 32) && c.buf[byA].lock == c.buf[byB].lock == Held
    ensures !Unique(c.buf[..]) && !c.Valid()
  {
    hide CacheOK, HashOK, LruOK, Cache.LinksOK, Calm, Reads, Resident, NoneHeld, HeldBesides, Unique;
    c := AllReading();
    ghost var b := c.buf[..];
    AllBusy(b);
    NotYetRead(b, 32);
    var found := c.BufferFind(1, 32);
    assert found == NULL && forall i :: 0 <= i < 32 ==> c.buf[i] == b[i] && b[i].lock != Idle;
    ghost var disk := c.disk;
    c.BIoDone(0);
    ghost var d := c.buf[..];
    c.BIoDone(1);
    TwoDone(b, d, c.buf[..], disk, disk);
    ghost var e := c.buf[..];
    byB := c.BClaim(1, 32);
    assert byB < 2;
    byA := 1 - byB;
    Second(e, c.buf[..], byB, byA);
    ghost var f := c.buf[..];
    BothHold(f, (1, 32), byB, byA);
    c.TakeOver(byA, 1, 32, Held);
    assert SameButLinks(f[byB], c.buf[byB]);
    NotValid(c);
  }

  /** While 32 blocks are read ahead, a process claims block 32 and finds no buffer that is not
      locked.  All the reads end before it masks interrupts and sleeps: nothing is left to wake it,
      although all 32 buffers are free. */
  method SleepThroughAll() returns (c: Cache, woken: bool)
    ensures c.Valid() && !woken && forall i :: 0 <= i < c.buf.Length ==> c.buf[i].lock == Idle && !c.buf[i].modified
  {
    hide CacheOK, HashOK, LruOK, Cache.LinksOK, Calm, Reads, Resident, Settled;
    c := AllReading();
    ghost var b := c.buf[..];
    AllBusy(b);
    NotYetRead(b, 32);
    var found := c.BufferFind(1, 32);
    assert found == NULL && forall i :: 0 <= i < 32 ==> c.buf[i] == b[i] && b[i].lock == Reading;
    var n: nat := 0;
    while n < 32
      invariant n <= 32 && c.Valid() && c.buf.Length == 32
      invariant forall i :: 0 <= i < n ==> c.buf[i].lock == Idle && !c.buf[i].modified
      invariant forall i :: n <= i < 32 ==> c.buf[i].lock == Reading
    {
      c.BIoDone(n);
      n := n + 1;
    }
    ghost var d := c.buf[..];
    assert !(d[0].lock == Idle && d[0].modified);
    ghost var clean;
    clean, woken := c.SleepForBuffer();
    assert forall i :: 0 <= i < 32 ==> c.buf[i] == d[i];
  }

  /** A block claimed to be replaced, and released without having been filled: the buffer says it
      has the block's data, and has not. */
  method ReleaseUnfilled() returns (c: Cache, bp: nat)
    ensures bp < c.buf.Length && PlaceOf(c.buf[bp]) == (1, 5) && HasData(c.buf[bp]) && !c.Valid()
    ensures c.buf[bp].data == ZERO && Lookup(c.view, (1, 5)) == ZERO[0 := 7]
  {
    hide CacheOK, HashOK, LruOK, Cache.LinksOK, Reads, NoneHeld;
    c := new Cache(32, 32, map[(1, 5) := ZERO[0 := 7]]);
    ghost var b := c.buf[..];
    assert b[0].lock == Idle && Calm(b) && !Resident(b, (1, 5));
    assert ZERO[0 := 7][0] == 7 && ZERO[0] == 0;
    bp := c.BClaim(1, 5);
    c.BRelease(bp);
  }
}
