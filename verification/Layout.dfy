/**
  The on-disk layout shared by the kernel (fs2.c, fs3.c) and the host tools (cohfs.py,
  cohfsw.py): 512-byte blocks, block numbers as longs in PDP-11 word order, ten direct
  and three indirect address slots per inode.
 */
module Layout {

  newtype byte = b: int | 0 <= b < 256

  const BSIZE: nat := 512
  const ND: nat := 10
  const NADDR: nat := 13
  const NIND: nat := 128

  type Block = b: seq<byte> | |b| == 512 witness Zeroes(512)
  type Addr = a: seq<nat> | |a| == 13 witness [0, 0, 0, 0, 0, 0, 0, 0, 0, 0, 0, 0, 0]

  function Zeroes(n: nat): (r: seq<byte>)
    ensures |r| == n && forall i :: 0 <= i < n ==> r[i] == 0
  {
    if n == 0 then [] else Zeroes(n - 1) + [0]
  }

  const ZERO: Block := Zeroes(512)
  const NOADDR: Addr := [0, 0, 0, 0, 0, 0, 0, 0, 0, 0, 0, 0, 0]

  // --------------------------------------------------------------- numbers

  function Word(b: seq<byte>, o: nat): nat
    requires o + 2 <= |b|
  {
    b[o] as nat + 256 * b[o + 1] as nat
  }

  function WordBytes(v: nat): seq<byte> {
    [(v % 256) as byte, (v / 256 % 256) as byte]
  }

  /** pdplong, and a daddr_t after candaddr: high word first, each word little-endian. */
  function PdpLong(b: seq<byte>, o: nat): nat
    requires o + 4 <= |b|
  {
    Word(b, o) * 65536 + Word(b, o + 2)
  }

  /** b with the bytes from o on replaced. */
  function Splice(b: seq<byte>, o: nat, bytes: seq<byte>): (r: seq<byte>)
    requires o + |bytes| <= |b|
    ensures |r| == |b|
    ensures forall i :: 0 <= i < |b| ==> r[i] == if o <= i < o + |bytes| then bytes[i - o] else b[i]
  {
    b[..o] + bytes + b[o + |bytes|..]
  }

  /** putpdp: the low 32 bits of v, in the same order. */
  function PdpBytes(v: nat): (r: seq<byte>)
    ensures |r| == 4
  {
    WordBytes(v / 65536) + WordBytes(v)
  }

  function PutPdp(b: seq<byte>, o: nat, v: nat): (r: seq<byte>)
    requires o + 4 <= |b|
    ensures |r| == |b|
  {
    Splice(b, o, PdpBytes(v))
  }

  lemma {:induction false} WordRoundTrip(v: nat)
    ensures Word(WordBytes(v), 0) == v % 65536
  {
    assert v % 65536 == v % 256 + 256 * (v / 256 % 256);
  }

  lemma {:induction false} PdpRoundTrip(b: seq<byte>, o: nat, v: nat)
    requires o + 4 <= |b|
    ensures PdpLong(PutPdp(b, o, v), o) == v % 0x1_0000_0000
  {
    WordRoundTrip(v);
    WordRoundTrip(v / 65536);
    assert v % 0x1_0000_0000 == v / 65536 % 65536 * 65536 + v % 65536;
  }

  /** The order of the bytes, and the long that the bytes 34 12 78 56 (hexadecimal) make. */
  lemma {:induction false} PdpOrder(b: seq<byte>, o: nat)
    requires o + 4 <= |b|
    ensures PdpLong(b, o) == 0x100_0000 * b[o + 1] as nat + 0x1_0000 * b[o] as nat + 0x100 * b[o + 3] as nat + b[o + 2] as nat
    ensures PdpLong([0x34, 0x12, 0x78, 0x56], 0) == 0x12345678
  {
    assert Word([0x34, 0x12, 0x78, 0x56], 0) == 0x1234 && Word([0x34, 0x12, 0x78, 0x56], 2) == 0x5678;
  }

  lemma PdpElsewhere(b: seq<byte>, o: nat, v: nat, o2: nat)
    requires o + 4 <= |b| && o2 + 4 <= |b| && (o2 + 4 <= o || o + 4 <= o2)
    ensures PdpLong(PutPdp(b, o, v), o2) == PdpLong(b, o2)
  {}

  // ---------------------------------------------------------- index blocks

  function Ptr(b: Block, i: nat): nat
    requires i < NIND
  {
    PdpLong(b, 4 * i)
  }

  function SetPtr(b: Block, i: nat, v: nat): Block
    requires i < NIND
  {
    PutPdp(b, 4 * i, v)
  }

  lemma {:induction false} SetPtrExact(b: Block, i: nat, v: nat, j: nat)
    requires i < NIND && j < NIND && v < 0x1_0000_0000
    ensures Ptr(SetPtr(b, i, v), j) == if j == i then v else Ptr(b, j)
  {
    if i == j {
      PdpRoundTrip(b, 4 * i, v);
    } else {
      PdpElsewhere(b, 4 * i, v, 4 * j);
    }
  }

  lemma ZeroPtr(i: nat)
    requires i < NIND
    ensures Ptr(ZERO, i) == 0
  {}

  // ------------------------------------------------------------------ paths

  /** A place in a file's tree: an address slot of the inode, or entry i of the index
      block at the place above. */
  datatype Path = Slot(n: nat) | Under(up: Path, i: nat)

  /** Levels of index blocks from here down to the data: 0 for a data block. */
  function Height(p: Path): int {
    match p
    case Slot(n) => if n < ND then 0 else n - ND + 1
    case Under(up, _) => Height(up) - 1
  }

  predicate ValidPath(p: Path)
    ensures ValidPath(p) ==> 0 <= Height(p) <= 3
  {
    match p
    case Slot(n) => n < NADDR
    case Under(up, i) => ValidPath(up) && i < NIND && Height(up) > 0
  }

  lemma UnderHeight(up: Path, i: nat)
    requires ValidPath(up) && Height(up) > 0 && i < NIND
    ensures ValidPath(Under(up, i)) && Height(Under(up, i)) == Height(up) - 1
  {}

  /** q is p or lies beneath it. */
  predicate Below(p: Path, q: Path) {
    q == p || (q.Under? && Below(p, q.up))
  }

  function SlotOf(p: Path): nat {
    match p
    case Slot(n) => n
    case Under(up, _) => SlotOf(up)
  }

  // ----------------------------------------------------- logical block numbers

  const SINGLE: nat := 128
  const DOUBLE: nat := 16384
  const TRIPLE: nat := 2097152
  const MAXBLOCKS: nat := 2113674   // 10 + 128 + 128^2 + 128^3
  const MAXBYTES: nat := 1082201088

  /** Where logical block k of a file sits in its tree. */
  function LeafOf(k: nat): (p: Path)
    requires k < MAXBLOCKS
    ensures ValidPath(p) && Height(p) == 0
  {
    if k < ND then Slot(k)
    else if k - ND < SINGLE then Under(Slot(10), k - ND)
    else if k - ND - SINGLE < DOUBLE then
      var j := k - ND - SINGLE;
      var first := Under(Slot(11), j / 128);
      assert ValidPath(first) && Height(first) == 1 by { UnderHeight(Slot(11), j / 128); }
      Under(first, j % 128)
    else
      var j := k - ND - SINGLE - DOUBLE;
      var first := Under(Slot(12), j / 16384);
      assert ValidPath(first) && Height(first) == 2 by { UnderHeight(Slot(12), j / 16384); }
      var second := Under(first, j / 128 % 128);
      assert ValidPath(second) && Height(second) == 1 by { UnderHeight(first, j / 128 % 128); }
      Under(second, j % 128)
  }

  /** The logical block a leaf holds. */
  function IndexOf(p: Path): nat
    requires ValidPath(p)
  {
    if p.Slot? then p.n
    else if p.up.Slot? then ND + p.i
    else if p.up.up.Slot? then ND + SINGLE + 128 * p.up.i + p.i
    else ND + SINGLE + DOUBLE + 16384 * p.up.up.i + 128 * p.up.i + p.i
  }

  /** Logical blocks and leaves correspond one to one. */
  lemma {:induction false} LeafBijection(k: nat, p: Path)
    requires k < MAXBLOCKS && ValidPath(p) && Height(p) == 0
    ensures IndexOf(LeafOf(k)) == k
    ensures IndexOf(p) < MAXBLOCKS && LeafOf(IndexOf(p)) == p
  {
    IndexOfLeaf(k);
    TopIsSlot(p);
    if p.Under? {
      TopIsSlot(p.up);
      if p.up.Slot? {
        assert p == Under(Slot(10), p.i);
      } else {
        TopIsSlot(p.up.up);
        if p.up.up.Slot? {
          LeafOfDouble(p.up.i, p.i);
        } else {
          TopIsSlot(p.up.up.up);
          LeafOfTriple(p.up.up.i, p.up.i, p.i);
        }
      }
    }
  }

  lemma {:induction false} IndexOfLeaf(k: nat)
    requires k < MAXBLOCKS
    ensures IndexOf(LeafOf(k)) == k
  {
    if ND + SINGLE + DOUBLE <= k {
      var j := k - ND - SINGLE - DOUBLE;
      assert j == 16384 * (j / 16384) + 128 * (j / 128 % 128) + j % 128;
    }
  }

  lemma {:induction false} LeafOfDouble(i: nat, j: nat)
    requires i < 128 && j < 128
    ensures var k := ND + SINGLE + 128 * i + j;
            k < MAXBLOCKS && LeafOf(k) == Under(Under(Slot(11), i), j)
  {
    DivMod(i, j);
  }

  lemma {:induction false} LeafOfTriple(i: nat, j: nat, m: nat)
    requires i < 128 && j < 128 && m < 128
    ensures var k := ND + SINGLE + DOUBLE + 16384 * i + 128 * j + m;
            k < MAXBLOCKS && LeafOf(k) == Under(Under(Under(Slot(12), i), j), m)
  {
    DivMod(128 * i + j, m);
    DivMod(i, j);
    assert (16384 * i + 128 * j + m) / 16384 == i;
  }

  /** How far a place can be from its slot. */
  lemma TopIsSlot(p: Path)
    requires ValidPath(p)
    ensures Height(p) == 3 ==> p == Slot(12)
    ensures Height(p) == 2 && p.Slot? ==> p == Slot(11)
    ensures Height(p) == 1 && p.Slot? ==> p == Slot(10)
    ensures Height(p) == 0 && p.Slot? ==> p.n < ND
    ensures p.Under? ==> Height(p.up) == Height(p) + 1
  {}

  lemma DivMod(i: nat, j: nat)
    requires j < 128
    ensures (128 * i + j) / 128 == i && (128 * i + j) % 128 == j
  {}

  // ------------------------------------------------------------------- trees

  type Disk = seq<Block>

  /** The block number stored at a place of a tree, 0 where there is none. */
  function NodeAt(d: Disk, addr: Addr, p: Path): nat
    requires ValidPath(p)
  {
    match p
    case Slot(n) => addr[n]
    case Under(up, i) =>
      var u := NodeAt(d, addr, up);
      if u == 0 || u >= |d| then 0 else Ptr(d[u], i)
  }

  /** A volume: the blocks and every inode's address slots. */
  datatype Volume = Volume(d: Disk, a: seq<Addr>)

  predicate InVolume(v: Volume, i: int, p: Path) {
    0 <= i < |v.a| && ValidPath(p)
  }

  function Node(v: Volume, i: int, p: Path): nat
    requires InVolume(v, i, p)
  {
    NodeAt(v.d, v.a[i], p)
  }

  function BlockOrZero(d: Disk, n: nat): Block {
    if n == 0 || n >= |d| then ZERO else d[n]
  }

  /** Contents of logical block k of file i; blocks that are not there read as zeroes. */
  function FileBlock(v: Volume, i: int, k: nat): Block
    requires 0 <= i < |v.a| && k < MAXBLOCKS
  {
    BlockOrZero(v.d, Node(v, i, LeafOf(k)))
  }

  function FileByte(v: Volume, i: int, x: nat): byte
    requires 0 <= i < |v.a| && x < MAXBYTES
  {
    FileBlock(v, i, x / 512)[x % 512]
  }

  ghost predicate Owned(v: Volume, b: nat) {
    exists i, p :: InVolume(v, i, p) && Node(v, i, p) == b
  }

  /** Every tree entry is a block of the data area lo..hi that is not free. */
  ghost predicate NodesUsed(v: Volume, free: set<nat>, lo: nat, hi: nat) {
    forall i, p :: InVolume(v, i, p) && Node(v, i, p) != 0 ==>
      lo <= Node(v, i, p) < hi && Node(v, i, p) !in free
  }

  /** No block is in two places. */
  ghost predicate NodesDistinct(v: Volume) {
    forall i, p, j, q :: InVolume(v, i, p) && InVolume(v, j, q) && Node(v, i, p) == Node(v, j, q) != 0
      ==> i == j && p == q
  }

  /** Each block of the data area is either free or in exactly one place of one tree. */
  ghost predicate Partition(v: Volume, free: set<nat>, lo: nat, hi: nat) {
    && 0 < lo <= hi <= |v.d| && hi <= 0x1_0000_0000
    && (forall b :: b in free ==> lo <= b < hi)
    && NodesUsed(v, free, lo, hi)
    && NodesDistinct(v)
    && (forall b :: lo <= b < hi && b !in free ==> Owned(v, b))
  }

  /** Trees do not change when no index block of theirs does. */
  lemma {:induction false} NodeFrame(d: Disk, e: Disk, addr: Addr, p: Path)
    requires ValidPath(p) && |e| == |d|
    requires forall q :: ValidPath(q) && Height(q) > 0 && 0 < NodeAt(d, addr, q) < |d| ==>
               e[NodeAt(d, addr, q)] == d[NodeAt(d, addr, q)]
    ensures NodeAt(e, addr, p) == NodeAt(d, addr, p)
  {
    match p
    case Slot(_) =>
    case Under(up, _) => NodeFrame(d, e, addr, up);
  }

  /** Writing blocks that are no index blocks leaves every tree as it is. */
  lemma {:induction false} WriteFrame(v: Volume, w: Volume, i: int, p: Path)
    requires w.a == v.a && |w.d| == |v.d| && InVolume(v, i, p)
    requires forall j, q :: InVolume(v, j, q) && Height(q) > 0 && 0 < Node(v, j, q) < |v.d| ==>
               w.d[Node(v, j, q)] == v.d[Node(v, j, q)]
    ensures Node(w, i, p) == Node(v, i, p)
  {
    forall q | ValidPath(q) && Height(q) > 0 && 0 < NodeAt(v.d, v.a[i], q) < |v.d|
      ensures w.d[NodeAt(v.d, v.a[i], q)] == v.d[NodeAt(v.d, v.a[i], q)]
    {
      assert InVolume(v, i, q) && Node(v, i, q) == NodeAt(v.d, v.a[i], q);
    }
    NodeFrame(v.d, w.d, v.a[i], p);
  }

  /** ... and therefore keeps the partition. */
  lemma {:induction false} WriteKeepsPartition(v: Volume, w: Volume, free: set<nat>, lo: nat, hi: nat)
    requires Partition(v, free, lo, hi)
    requires w.a == v.a && |w.d| == |v.d|
    requires forall j, q :: InVolume(v, j, q) && Height(q) > 0 && 0 < Node(v, j, q) < |v.d| ==>
               w.d[Node(v, j, q)] == v.d[Node(v, j, q)]
    ensures Partition(w, free, lo, hi)
    ensures forall i, p :: InVolume(v, i, p) ==> Node(w, i, p) == Node(v, i, p)
  {
    forall i, p | InVolume(v, i, p) ensures Node(w, i, p) == Node(v, i, p) {
      WriteFrame(v, w, i, p);
    }
    forall b | lo <= b < hi && b !in free ensures Owned(w, b) {
      var i, p :| InVolume(v, i, p) && Node(v, i, p) == b;
      assert InVolume(w, i, p) && Node(w, i, p) == b;
    }
  }

  // ------------------------------------------------------ one new block in a tree

  function Depth(p: Path): nat {
    match p
    case Slot(_) => 0
    case Under(up, _) => Depth(up) + 1
  }

  lemma {:induction false} BelowDepth(p: Path, q: Path)
    requires Below(p, q)
    ensures Depth(p) <= Depth(q)
    ensures Depth(p) == Depth(q) ==> p == q
  {
    if q != p {
      BelowDepth(p, q.up);
    }
  }

  /** Nothing hangs below an empty place. */
  lemma {:induction false} BelowEmpty(v: Volume, i: int, p: Path, q: Path)
    requires InVolume(v, i, p) && InVolume(v, i, q) && Below(p, q) && Node(v, i, p) == 0
    ensures Node(v, i, q) == 0
  {
    if q != p {
      BelowEmpty(v, i, p, q.up);
    }
  }

  /** w is v with block b put at the empty place p of file i; a new index block is clear,
      a new data block holds anything. */
  ghost predicate Grown(v: Volume, w: Volume, i: int, p: Path, b: nat) {
    && InVolume(v, i, p) && Node(v, i, p) == 0
    && |w.d| == |v.d| && b < |v.d| && b < 0x1_0000_0000
    && (Height(p) > 0 ==> w.d[b] == ZERO)
    && match p
       case Slot(n) =>
         && w.a == v.a[i := v.a[i][n := b]]
         && (forall m :: 0 <= m < |v.d| && m != b ==> w.d[m] == v.d[m])
       case Under(up, k) =>
         var u := Node(v, i, up);
         && w.a == v.a
         && 0 < u < |v.d| && u != b && w.d[u] == SetPtr(v.d[u], k, b)
         && (forall m :: 0 <= m < |v.d| && m != b && m != u ==> w.d[m] == v.d[m])
  }

  /** Only the new place changes: everything below it is empty, everything else as before. */
  lemma {:induction false} GrowNode(v: Volume, w: Volume, free: set<nat>, lo: nat, hi: nat, i: int, p: Path, b: nat, j: int, q: Path)
    requires Partition(v, free, lo, hi) && b in free && Grown(v, w, i, p, b) && InVolume(v, j, q)
    ensures Node(w, j, q) ==
            if j == i && q == p then b else if j == i && Below(p, q) then 0 else Node(v, j, q)
  {
    if q.Under? {
      var m := Node(v, j, q.up);
      GrowNode(v, w, free, lo, hi, i, p, b, j, q.up);
      if j == i && Below(p, q.up) {
        BelowDepth(p, q.up);
        ZeroPtr(q.i);
      } else if m != 0 && p.Under? && m == Node(v, i, p.up) {
        assert InVolume(v, i, p.up) && InVolume(v, j, q.up);
        assert j == i && q.up == p.up;
        SetPtrExact(v.d[m], p.i, b, q.i);
      }
    }
  }

  lemma {:induction false} GrowKeepsPartition(v: Volume, w: Volume, free: set<nat>, lo: nat, hi: nat, i: int, p: Path, b: nat)
    requires Partition(v, free, lo, hi) && b in free && Grown(v, w, i, p, b)
    ensures Partition(w, free - {b}, lo, hi)
    ensures Node(w, i, p) == b
  {
    forall j, q | InVolume(v, j, q)
      ensures Node(w, j, q) ==
              if j == i && q == p then b else if j == i && Below(p, q) then 0 else Node(v, j, q)
    {
      GrowNode(v, w, free, lo, hi, i, p, b, j, q);
    }
    forall c | lo <= c < hi && c !in free - {b} ensures Owned(w, c) {
      if c == b {
        assert InVolume(w, i, p) && Node(w, i, p) == b;
      } else {
        var j, q :| InVolume(v, j, q) && Node(v, j, q) == c;
        if j == i && Below(p, q) {
          BelowEmpty(v, i, p, q);
        }
        assert InVolume(w, j, q) && Node(w, j, q) == c;
      }
    }
    GrowDistinct(v, w, free, lo, hi, i, p, b);
  }

  lemma {:induction false} GrowDistinct(v: Volume, w: Volume, free: set<nat>, lo: nat, hi: nat, i: int, p: Path, b: nat)
    requires NodesUsed(v, free, lo, hi) && NodesDistinct(v) && b in free && InVolume(v, i, p)
    requires |w.a| == |v.a|
    requires forall j, q :: InVolume(v, j, q) ==>
               (Node(w, j, q) == if j == i && q == p then b else if j == i && Below(p, q) then 0 else Node(v, j, q))
    ensures NodesDistinct(w)
  {
    forall j, q, k, r | InVolume(w, j, q) && InVolume(w, k, r) && Node(w, j, q) == Node(w, k, r) != 0
      ensures j == k && q == r
    {
      assert InVolume(v, j, q) && InVolume(v, k, r);
    }
  }

  /** Contents change nowhere except, for a new data block, in that block. */
  lemma {:induction false} GrowContent(v: Volume, w: Volume, free: set<nat>, lo: nat, hi: nat, i: int, p: Path, b: nat, j: int, k: nat)
    requires Partition(v, free, lo, hi) && b in free && Grown(v, w, i, p, b)
    requires 0 <= j < |v.a| && k < MAXBLOCKS
    ensures !(j == i && LeafOf(k) == p) ==> FileBlock(w, j, k) == FileBlock(v, j, k)
    ensures j == i && LeafOf(k) == p ==> FileBlock(v, j, k) == ZERO && FileBlock(w, j, k) == w.d[b]
  {
    var q := LeafOf(k);
    GrowNode(v, w, free, lo, hi, i, p, b, j, q);
    assert InVolume(v, j, q);
    if j == i && Below(p, q) {
      BelowEmpty(v, i, p, q);
    } else if p.Under? {
      assert InVolume(v, i, p.up) && Height(p.up) > 0;
    }
  }

  // --------------------------------------------------- what is missing on a path

  /** The empty places on the way from the inode to p, p itself included. */
  ghost function Missing(v: Volume, i: int, p: Path): (s: set<Path>)
    requires InVolume(v, i, p)
    ensures forall q :: q in s <==> ValidPath(q) && Below(q, p) && Node(v, i, q) == 0
  {
    (if Node(v, i, p) == 0 then {p} else {}) + (if p.Under? then Missing(v, i, p.up) else {})
  }

  /** One step down: the place reached may be one more that is missing. */
  lemma {:induction false} MissingUnder(v: Volume, i: int, up: Path, l: nat)
    requires InVolume(v, i, Under(up, l))
    ensures |Missing(v, i, Under(up, l))| == |Missing(v, i, up)| + if Node(v, i, Under(up, l)) == 0 then 1 else 0
  {
    if Under(up, l) in Missing(v, i, up) {
      BelowDepth(Under(up, l), up);
    }
  }

  /** The trees of v and w differ at most in the places from the inode of file i down to p. */
  ghost predicate SameBut(v: Volume, w: Volume, i: int, p: Path) {
    |w.a| == |v.a| &&
    forall j, q :: InVolume(v, j, q) && !(j == i && Below(q, p)) ==> Node(w, j, q) == Node(v, j, q)
  }

  /** ... and there w has everything. */
  ghost predicate FilledIn(v: Volume, w: Volume, i: int, p: Path) {
    SameBut(v, w, i, p) && forall q :: InVolume(v, i, q) && Below(q, p) ==> Node(w, i, q) != 0
  }

  lemma SameButSelf(v: Volume, i: int, p: Path)
    ensures SameBut(v, v, i, p)
  {}

  lemma {:induction false} GrowSameBut(v: Volume, w: Volume, free: set<nat>, lo: nat, hi: nat, i: int, p: Path, b: nat)
    requires Partition(v, free, lo, hi) && b in free && Grown(v, w, i, p, b)
    ensures SameBut(v, w, i, p)
  {
    forall j, q | InVolume(v, j, q) && !(j == i && Below(q, p)) ensures Node(w, j, q) == Node(v, j, q) {
      GrowNode(v, w, free, lo, hi, i, p, b, j, q);
      if j == i && Below(p, q) {
        BelowEmpty(v, i, p, q);
      }
    }
  }

  /** A step down from u's path to w's: what lies at the new place is what was there before. */
  lemma {:induction false} SameButDown(u: Volume, v: Volume, w: Volume, i: int, up: Path, l: nat)
    requires SameBut(u, v, i, up) && SameBut(v, w, i, Under(up, l)) && InVolume(u, i, Under(up, l))
    ensures SameBut(u, w, i, Under(up, l))
    ensures Node(v, i, Under(up, l)) == Node(u, i, Under(up, l))
  {
    if Below(Under(up, l), up) {
      BelowDepth(Under(up, l), up);
    }
    forall j, q | InVolume(u, j, q) && !(j == i && Below(q, Under(up, l))) ensures Node(w, j, q) == Node(u, j, q) {
      assert Node(w, j, q) == Node(v, j, q);
    }
  }

  /** Where there is a block, everything above it is there. */
  lemma {:induction false} FilledAbove(v: Volume, w: Volume, i: int, p: Path)
    requires SameBut(v, w, i, p) && InVolume(w, i, p) && Node(w, i, p) != 0
    ensures FilledIn(v, w, i, p)
  {
    forall q | InVolume(v, i, q) && Below(q, p) ensures Node(w, i, q) != 0 {
      if Node(w, i, q) == 0 {
        BelowEmpty(w, i, q, p);
      }
    }
  }

  /** The empty places on the ways to n blocks of file i from `first` on. */
  ghost function MissingRun(v: Volume, i: int, first: nat, n: nat): (s: set<Path>)
    requires 0 <= i < |v.a| && (n == 0 || first + n <= MAXBLOCKS)
  {
    if n == 0 then {} else MissingRun(v, i, first, n - 1) + Missing(v, i, LeafOf(first + n - 1))
  }

  /** A free list of `free` blocks is enough to have all of these n blocks. */
  ghost predicate Enough(v: Volume, i: int, first: nat, n: nat, free: nat)
    requires 0 <= i < |v.a|
  {
    n == 0 || (first + n <= MAXBLOCKS && |MissingRun(v, i, first, n)| <= free)
  }

  /** A run of blocks that are all there takes nothing from the free list. */
  lemma {:induction false} PresentNeedsNothing(v: Volume, i: int, first: nat, n: nat)
    requires 0 <= i < |v.a| && first + n <= MAXBLOCKS
    requires forall k :: first <= k < first + n ==> Node(v, i, LeafOf(k)) != 0
    ensures MissingRun(v, i, first, n) == {} && Enough(v, i, first, n, 0)
  {
    if n > 0 {
      PresentNeedsNothing(v, i, first, n - 1);
      var p := LeafOf(first + n - 1);
      forall q | ValidPath(q) && Below(q, p) ensures Node(v, i, q) != 0 {
        if Node(v, i, q) == 0 {
          BelowEmpty(v, i, q, p);
        }
      }
    }
  }

  /** In w just the places `filled` of file i that are empty in v have been filled. */
  ghost predicate FilledSet(v: Volume, w: Volume, i: int, filled: set<Path>) {
    |w.a| == |v.a| && 0 <= i < |v.a| &&
    forall q :: ValidPath(q) ==> (Node(w, i, q) == 0 <==> Node(v, i, q) == 0 && q !in filled)
  }

  /** From u to v the first n blocks of the run have got all they lacked, and of `before` free
      blocks `after` are left. */
  ghost predicate Supplied(u: Volume, v: Volume, i: int, first: nat, n: nat, before: nat, after: nat) {
    && 0 <= i < |u.a| && Enough(u, i, first, n, before)
    && after == before - |MissingRun(u, i, first, n)|
    && FilledSet(u, v, i, MissingRun(u, i, first, n))
  }

  lemma NothingSupplied(v: Volume, i: int, first: nat, free: nat)
    requires 0 <= i < |v.a|
    ensures Supplied(v, v, i, first, 0, free, free)
  {}

  lemma RunUnfolds(v: Volume, i: int, first: nat, n: nat)
    requires 0 <= i < |v.a| && first + n < MAXBLOCKS
    ensures InVolume(v, i, LeafOf(first + n))
    ensures MissingRun(v, i, first, n + 1) == MissingRun(v, i, first, n) + Missing(v, i, LeafOf(first + n))
  {}

  /** What one block more takes is what the longer run takes beyond the shorter. */
  lemma {:induction false} RunGrows(u: Volume, v: Volume, i: int, first: nat, n: nat, before: nat, after: nat)
    requires Supplied(u, v, i, first, n, before, after) && first + n < MAXBLOCKS
    ensures InVolume(v, i, LeafOf(first + n))
    ensures |MissingRun(u, i, first, n + 1)| == |MissingRun(u, i, first, n)| + |Missing(v, i, LeafOf(first + n))|
    ensures Enough(u, i, first, n + 1, before) <==> |Missing(v, i, LeafOf(first + n))| <= after
  {
    RunUnfolds(u, i, first, n);
    hide LeafOf, NodeAt, MissingRun, Missing;
    var had, more := MissingRun(u, i, first, n), Missing(v, i, LeafOf(first + n));
    NewlyMissing(u, v, i, LeafOf(first + n), had);
    DisjointSizes(had, more);
  }

  lemma {:induction false} NewlyMissing(u: Volume, v: Volume, i: int, p: Path, had: set<Path>)
    requires FilledSet(u, v, i, had) && ValidPath(p)
    ensures had + Missing(u, i, p) == had + Missing(v, i, p) && had !! Missing(v, i, p)
  {
    hide Node;
  }

  lemma DisjointSizes(a: set<Path>, b: set<Path>)
    requires a !! b
    ensures |a + b| == |a| + |b|
  {}

  lemma {:induction false} RunSupplied(u: Volume, v: Volume, w: Volume, i: int, first: nat, n: nat,
                                       before: nat, mid: nat, after: nat)
    requires Supplied(u, v, i, first, n, before, mid) && first + n < MAXBLOCKS && |v.a| == |u.a|
    requires FilledIn(v, w, i, LeafOf(first + n))
    requires after + |Missing(v, i, LeafOf(first + n))| == mid
    ensures Supplied(u, w, i, first, n + 1, before, after)
  {
    hide LeafOf, NodeAt;
    RunGrows(u, v, i, first, n, before, mid);
    var p := LeafOf(first + n);
    forall q | ValidPath(q)
      ensures Node(w, i, q) == 0 <==> Node(u, i, q) == 0 && q !in MissingRun(u, i, first, n + 1)
    {
      assert InVolume(v, i, q);
      assert q in Missing(u, i, p) <==> Below(q, p) && Node(u, i, q) == 0;
    }
  }

  lemma {:induction false} LeafInjective(k: nat, m: nat)
    requires k < MAXBLOCKS && m < MAXBLOCKS && LeafOf(k) == LeafOf(m)
    ensures k == m
  {
    LeafBijection(k, LeafOf(k));
    LeafBijection(m, LeafOf(m));
  }

  /** Writing a data block changes that block of that file and nothing else. */
  lemma {:induction false} LeafWrite(v: Volume, w: Volume, free: set<nat>, lo: nat, hi: nat, i: int, k: nat)
    requires Partition(v, free, lo, hi) && 0 <= i < |v.a| && k < MAXBLOCKS
    requires var b := Node(v, i, LeafOf(k));
             && b != 0 && w.a == v.a && |w.d| == |v.d|
             && forall m :: 0 <= m < |v.d| && m != b ==> w.d[m] == v.d[m]
    ensures Partition(w, free, lo, hi)
    ensures forall j, q :: InVolume(v, j, q) ==> Node(w, j, q) == Node(v, j, q)
    ensures FileBlock(w, i, k) == w.d[Node(v, i, LeafOf(k))]
    ensures forall j, m: nat :: 0 <= j < |v.a| && m < MAXBLOCKS && !(j == i && m == k) ==>
              FileBlock(w, j, m) == FileBlock(v, j, m)
  {
    assert InVolume(v, i, LeafOf(k));
    WriteKeepsPartition(v, w, free, lo, hi);
    forall j, m: nat | 0 <= j < |v.a| && m < MAXBLOCKS && !(j == i && m == k)
      ensures FileBlock(w, j, m) == FileBlock(v, j, m)
    {
      assert InVolume(v, j, LeafOf(m));
      if j == i && LeafOf(m) == LeafOf(k) {
        LeafInjective(m, k);
      }
    }
  }
}
