/**
  The blocks under a pointer, as the truncation code meets them: a pointer's tree is the
  block itself and the trees of its 128 entries.  The lemmas connect this view with the
  paths of Layout.
 */
module TreeSets {
  import opened Layout

  /** All blocks of the tree with root b, h levels of index blocks deep. */
  function TreeSet(d: Disk, b: nat, h: nat): set<nat>
    decreases h, 1, 0
  {
    if b == 0 || b >= |d| then {}
    else if h == 0 then {b}
    else {b} + Children(d, d[b], h - 1, NIND)
  }

  /** The trees of the first n entries of an index block. */
  function Children(d: Disk, blk: Block, h: nat, n: nat): set<nat>
    requires n <= NIND
    decreases h, 2, n
  {
    if n == 0 then {} else Children(d, blk, h, n - 1) + TreeSet(d, Ptr(blk, n - 1), h)
  }

  /** No block stands at two places of the tree. */
  ghost predicate Apart(d: Disk, b: nat, h: nat)
    decreases h, 1, 0
  {
    b == 0 ||
    (&& b < |d|
     && (h > 0 ==> b !in Children(d, d[b], h - 1, NIND) && ChildrenApart(d, d[b], h - 1, NIND)))
  }

  ghost predicate ChildrenApart(d: Disk, blk: Block, h: nat, n: nat)
    requires n <= NIND
    decreases h, 2, n
  {
    n == 0 ||
    (&& ChildrenApart(d, blk, h, n - 1)
     && Apart(d, Ptr(blk, n - 1), h)
     && TreeSet(d, Ptr(blk, n - 1), h) !! Children(d, blk, h, n - 1))
  }

  /** A tree is the same on another disk that agrees on the tree's own blocks. */
  lemma {:induction false} TreeFrame(d: Disk, e: Disk, b: nat, h: nat)
    requires |e| == |d| && Apart(d, b, h)
    requires forall x :: x in TreeSet(d, b, h) && x < |d| ==> e[x] == d[x]
    ensures TreeSet(e, b, h) == TreeSet(d, b, h) && Apart(e, b, h)
    decreases h, 1, 0
  {
    if b != 0 && h > 0 {
      ChildrenFrame(d, e, d[b], h - 1, NIND);
    }
  }

  lemma {:induction false} ChildrenFrame(d: Disk, e: Disk, blk: Block, h: nat, n: nat)
    requires |e| == |d| && n <= NIND && ChildrenApart(d, blk, h, n)
    requires forall x :: x in Children(d, blk, h, n) && x < |d| ==> e[x] == d[x]
    ensures Children(e, blk, h, n) == Children(d, blk, h, n) && ChildrenApart(e, blk, h, n)
    decreases h, 2, n
  {
    if n > 0 {
      ChildrenFrame(d, e, blk, h, n - 1);
      TreeFrame(d, e, Ptr(blk, n - 1), h);
    }
  }

  lemma {:induction false} ChildIn(d: Disk, blk: Block, h: nat, n: nat, i: nat)
    requires i < n <= NIND
    ensures TreeSet(d, Ptr(blk, i), h) <= Children(d, blk, h, n)
  {
    if i < n - 1 {
      ChildIn(d, blk, h, n - 1, i);
    }
  }

  lemma {:induction false} ChildOf(d: Disk, blk: Block, h: nat, n: nat, b: nat) returns (i: nat)
    requires n <= NIND && b in Children(d, blk, h, n)
    ensures i < n && b in TreeSet(d, Ptr(blk, i), h)
  {
    if b in TreeSet(d, Ptr(blk, n - 1), h) {
      i := n - 1;
    } else {
      i := ChildOf(d, blk, h, n - 1, b);
    }
  }

  // ---------------------------------------------------------- trees and paths

  /** Every block of the tree below a place is some place's block below it. */
  lemma {:induction false} TreeToPath(v: Volume, i: int, p: Path, b: nat) returns (q: Path)
    requires InVolume(v, i, p) && b in TreeSet(v.d, Node(v, i, p), Height(p))
    ensures InVolume(v, i, q) && Below(p, q) && Node(v, i, q) == b && b != 0
    decreases Height(p)
  {
    hide Children;
    var u := Node(v, i, p);
    if b == u {
      q := p;
    } else {
      var k := ChildOf(v.d, v.d[u], Height(p) - 1, NIND, b);
      UnderHeight(p, k);
      assert Node(v, i, Under(p, k)) == Ptr(v.d[u], k);
      q := TreeToPath(v, i, Under(p, k), b);
      BelowUp(p, k, q);
    }
  }

  lemma {:induction false} BelowUp(p: Path, k: nat, q: Path)
    requires Below(Under(p, k), q)
    ensures Below(p, q)
  {
    if q != Under(p, k) {
      BelowUp(p, k, q.up);
    }
  }

  /** ... and every place's block below it is in its tree. */
  lemma {:induction false} PathToTree(v: Volume, i: int, p: Path, q: Path)
    requires InVolume(v, i, p) && InVolume(v, i, q) && Below(p, q) && Node(v, i, q) != 0
    requires forall r :: InVolume(v, i, r) ==> Node(v, i, r) < |v.d|
    ensures Node(v, i, q) in TreeSet(v.d, Node(v, i, p), Height(p))
    decreases Depth(q) - Depth(p)
  {
    BelowDepth(p, q);
    if q == p {
      assert Height(p) >= 0;
    } else {
      var s := StepToward(p, q);
      BelowDepth(s, q);
      PathToTree(v, i, s, q);
      if Node(v, i, p) == 0 {
        BelowEmpty(v, i, p, q);
      } else {
        TreeChild(v, i, p, s.i);
      }
    }
  }

  /** The tree below an entry is part of the tree. */
  lemma {:induction false} TreeChild(v: Volume, i: int, p: Path, k: nat)
    requires InVolume(v, i, p) && Height(p) > 0 && k < NIND && InVolume(v, i, Under(p, k)) && 0 < Node(v, i, p) < |v.d|
    ensures TreeSet(v.d, Node(v, i, Under(p, k)), Height(p) - 1) <= TreeSet(v.d, Node(v, i, p), Height(p))
  {
    var u := Node(v, i, p);
    ChildIn(v.d, v.d[u], Height(p) - 1, NIND, k);
    assert Node(v, i, Under(p, k)) == Ptr(v.d[u], k);
    hide Children, NodeAt, Ptr;
  }

  /** The place just below p on the way to q. */
  lemma {:induction false} StepToward(p: Path, q: Path) returns (s: Path)
    requires ValidPath(p) && ValidPath(q) && Below(p, q) && q != p
    ensures s.Under? && s.up == p && Below(s, q) && ValidPath(s) && Height(s) == Height(p) - 1
    ensures Height(p) > 0
  {
    if q.up == p {
      s := q;
    } else {
      s := StepToward(p, q.up);
    }
  }

  /** In a partitioned volume the tree below each place repeats no block. */
  lemma {:induction false} TreeApart(v: Volume, free: set<nat>, lo: nat, hi: nat, i: int, p: Path)
    requires Partition(v, free, lo, hi) && InVolume(v, i, p)
    ensures Apart(v.d, Node(v, i, p), Height(p))
    decreases Height(p), 1, 0
  {
    hide Children, ChildrenApart, TreeSet;
    var u := Node(v, i, p);
    if u != 0 && Height(p) > 0 {
      ChildrenAreApart(v, free, lo, hi, i, p, NIND);
      var c := Children(v.d, v.d[u], Height(p) - 1, NIND);
      forall b | b in c ensures b != u {
        var k := ChildOf(v.d, v.d[u], Height(p) - 1, NIND, b);
        ChildNotRoot(v, free, lo, hi, i, p, k, b);
      }
    }
  }

  lemma {:induction false} ChildNotRoot(v: Volume, free: set<nat>, lo: nat, hi: nat, i: int, p: Path, k: nat, b: nat)
    requires Partition(v, free, lo, hi) && InVolume(v, i, p) && Height(p) > 0 && k < NIND
    requires 0 < Node(v, i, p) < |v.d| && b in TreeSet(v.d, Ptr(v.d[Node(v, i, p)], k), Height(p) - 1)
    ensures b != Node(v, i, p)
  {
    UnderHeight(p, k);
    var q := TreeToPath(v, i, Under(p, k), b);
    BelowDepth(Under(p, k), q);
    assert q != p;
  }

  lemma {:induction false} ChildrenAreApart(v: Volume, free: set<nat>, lo: nat, hi: nat, i: int, p: Path, n: nat)
    requires Partition(v, free, lo, hi) && InVolume(v, i, p) && Node(v, i, p) != 0 && Height(p) > 0 && n <= NIND
    ensures Node(v, i, p) < |v.d|
    ensures ChildrenApart(v.d, v.d[Node(v, i, p)], Height(p) - 1, n)
    decreases Height(p), 0, n
  {
    hide Children, TreeSet, Apart;
    var blk := v.d[Node(v, i, p)];
    var h := Height(p) - 1;
    if n > 0 {
      ChildrenAreApart(v, free, lo, hi, i, p, n - 1);
      UnderHeight(p, n - 1);
      TreeApart(v, free, lo, hi, i, Under(p, n - 1));
      assert Node(v, i, Under(p, n - 1)) == Ptr(blk, n - 1);
      var c, t := Children(v.d, blk, h, n - 1), TreeSet(v.d, Ptr(blk, n - 1), h);
      forall b | b in c ensures b !in t {
        var k := ChildOf(v.d, blk, h, n - 1, b);
        SiblingsApart(v, free, lo, hi, i, p, k, n - 1, b);
      }
    }
  }

  /** Trees of different entries of one index block share no block. */
  lemma {:induction false} SiblingsApart(v: Volume, free: set<nat>, lo: nat, hi: nat, i: int, p: Path, k: nat, m: nat, b: nat)
    requires Partition(v, free, lo, hi) && InVolume(v, i, p) && Height(p) > 0 && k < m < NIND
    requires Node(v, i, p) != 0 && Node(v, i, p) < |v.d|
    requires b in TreeSet(v.d, Ptr(v.d[Node(v, i, p)], k), Height(p) - 1)
    ensures b !in TreeSet(v.d, Ptr(v.d[Node(v, i, p)], m), Height(p) - 1)
  {
    UnderHeight(p, k);
    UnderHeight(p, m);
    var q := TreeToPath(v, i, Under(p, k), b);
    var t := TreeSet(v.d, Ptr(v.d[Node(v, i, p)], m), Height(p) - 1);
    if b in t {
      var r := TreeToPath(v, i, Under(p, m), b);
      BelowBoth(p, k, m, q);
    }
  }

  /** Nothing lies below two different entries. */
  lemma {:induction false} BelowBoth(p: Path, k: nat, m: nat, q: Path)
    requires Below(Under(p, k), q) && k != m
    ensures !Below(Under(p, m), q)
  {
    if q == Under(p, k) {
      TooShallow(Under(p, m), p);
    } else {
      BelowBoth(p, k, m, q.up);
      BelowDepth(Under(p, k), q.up);
    }
  }

  lemma {:induction false} TooShallow(p: Path, q: Path)
    requires Depth(q) < Depth(p)
    ensures !Below(p, q)
  {
    if q.Under? {
      TooShallow(p, q.up);
    }
  }

  // ------------------------------------------------------------- a whole file

  function SlotHeight(n: nat): nat {
    if n < ND then 0 else n - ND + 1
  }

  /** The blocks under the first n address slots. */
  function SlotTrees(d: Disk, a: Addr, n: nat): set<nat>
    requires n <= NADDR
  {
    if n == 0 then {} else SlotTrees(d, a, n - 1) + TreeSet(d, a[n - 1], SlotHeight(n - 1))
  }

  lemma {:induction false} SlotOfTree(d: Disk, a: Addr, n: nat, b: nat) returns (k: nat)
    requires n <= NADDR && b in SlotTrees(d, a, n)
    ensures k < n && b in TreeSet(d, a[k], SlotHeight(k))
  {
    if b in TreeSet(d, a[n - 1], SlotHeight(n - 1)) {
      k := n - 1;
    } else {
      k := SlotOfTree(d, a, n - 1, b);
    }
  }

  lemma {:induction false} SlotIn(d: Disk, a: Addr, n: nat, k: nat)
    requires k < n <= NADDR
    ensures TreeSet(d, a[k], SlotHeight(k)) <= SlotTrees(d, a, n)
  {
    if k < n - 1 {
      SlotIn(d, a, n - 1, k);
    }
  }

  lemma {:induction false} BelowSlot(n: nat, q: Path)
    ensures Below(Slot(n), q) <==> SlotOf(q) == n
  {
    if q.Under? {
      BelowSlot(n, q.up);
    }
  }

  /** The slots' trees hold exactly the blocks the file owns. */
  lemma {:induction false} SlotTreesExact(v: Volume, free: set<nat>, lo: nat, hi: nat, i: int, b: nat)
    requires Partition(v, free, lo, hi) && 0 <= i < |v.a|
    ensures b in SlotTrees(v.d, v.a[i], NADDR) <==> b != 0 && exists p :: InVolume(v, i, p) && Node(v, i, p) == b
  {
    if b in SlotTrees(v.d, v.a[i], NADDR) {
      var k := SlotOfTree(v.d, v.a[i], NADDR, b);
      assert Node(v, i, Slot(k)) == v.a[i][k] && Height(Slot(k)) == SlotHeight(k);
      var q := TreeToPath(v, i, Slot(k), b);
    }
    forall p | b != 0 && InVolume(v, i, p) && Node(v, i, p) == b ensures b in SlotTrees(v.d, v.a[i], NADDR) {
      PathInSlots(v, free, lo, hi, i, p);
    }
  }

  lemma {:induction false} PathInSlots(v: Volume, free: set<nat>, lo: nat, hi: nat, i: int, p: Path)
    requires Partition(v, free, lo, hi) && InVolume(v, i, p) && Node(v, i, p) != 0
    ensures Node(v, i, p) in SlotTrees(v.d, v.a[i], NADDR)
  {
    SlotInRange(p);
    var k := SlotOf(p);
    BelowSlot(k, p);
    PathToTree(v, i, Slot(k), p);
    assert Node(v, i, Slot(k)) == v.a[i][k] && Height(Slot(k)) == SlotHeight(k);
    hide Partition, TreeSet, SlotTrees, NodeAt;
    SlotIn(v.d, v.a[i], NADDR, k);
  }

  lemma {:induction false} SlotInRange(p: Path)
    requires ValidPath(p)
    ensures SlotOf(p) < NADDR
  {
    if p.Under? {
      SlotInRange(p.up);
    }
  }

  /** The trees of different slots share no block, and each repeats none. */
  lemma {:induction false} SlotsApart(v: Volume, free: set<nat>, lo: nat, hi: nat, i: int, n: nat)
    requires Partition(v, free, lo, hi) && 0 <= i < |v.a| && n < NADDR
    ensures Apart(v.d, v.a[i][n], SlotHeight(n))
    ensures TreeSet(v.d, v.a[i][n], SlotHeight(n)) !! SlotTrees(v.d, v.a[i], n)
  {
    assert Node(v, i, Slot(n)) == v.a[i][n] && Height(Slot(n)) == SlotHeight(n);
    TreeApart(v, free, lo, hi, i, Slot(n));
    var t, s := TreeSet(v.d, v.a[i][n], SlotHeight(n)), SlotTrees(v.d, v.a[i], n);
    forall b | b in t ensures b !in s {
      var q := TreeToPath(v, i, Slot(n), b);
      BelowSlot(n, q);
      if b in s {
        var k := SlotOfTree(v.d, v.a[i], n, b);
        var r := TreeToPath(v, i, Slot(k), b);
        BelowSlot(k, r);
      }
    }
  }

  /** Giving a whole file's blocks back: the volume stays partitioned, the file becomes empty
      and the other files keep their blocks and contents. */
  lemma {:induction false} TruncateKeepsPartition(v: Volume, w: Volume, free: set<nat>, lo: nat, hi: nat, i: int)
    requires Partition(v, free, lo, hi) && 0 <= i < |v.a|
    requires w.a == v.a[i := NOADDR] && |w.d| == |v.d|
    requires var more := free + SlotTrees(v.d, v.a[i], NADDR);
             forall b :: 0 <= b < |v.d| && b !in more ==> w.d[b] == v.d[b]
    ensures Partition(w, free + SlotTrees(v.d, v.a[i], NADDR), lo, hi)
    ensures forall k: nat :: k < MAXBLOCKS ==> FileBlock(w, i, k) == ZERO
    ensures forall j, k: nat :: 0 <= j < |v.a| && j != i && k < MAXBLOCKS ==> FileBlock(w, j, k) == FileBlock(v, j, k)
  {
    var more := free + SlotTrees(v.d, v.a[i], NADDR);
    forall j, p | InVolume(w, j, p) ensures Node(w, j, p) == if j == i then 0 else Node(v, j, p) {
      if j == i {
        EmptyNode(w, i, p);
      } else {
        OtherNode(v, w, free, lo, hi, i, j, p);
      }
    }
    forall j, p | InVolume(v, j, p) && j != i && Node(v, j, p) != 0 ensures Node(v, j, p) !in more {
      NotInSlots(v, free, lo, hi, i, j, p);
    }
    forall b | b in more ensures lo <= b < hi {
      SlotTreesExact(v, free, lo, hi, i, b);
    }
    forall b | lo <= b < hi && b !in more ensures Owned(w, b) {
      var j, p :| InVolume(v, j, p) && Node(v, j, p) == b;
      SlotTreesExact(v, free, lo, hi, i, b);
      assert InVolume(w, j, p) && Node(w, j, p) == b;
    }
    forall j, k: nat | 0 <= j < |v.a| && k < MAXBLOCKS
      ensures FileBlock(w, j, k) == if j == i then ZERO else FileBlock(v, j, k)
    {
      assert InVolume(w, j, LeafOf(k)) && InVolume(v, j, LeafOf(k));
    }
  }

  lemma {:induction false} EmptyNode(w: Volume, i: int, p: Path)
    requires InVolume(w, i, p) && w.a[i] == NOADDR
    ensures Node(w, i, p) == 0
  {
    if p.Under? {
      EmptyNode(w, i, p.up);
    }
  }

  lemma {:induction false} NotInSlots(v: Volume, free: set<nat>, lo: nat, hi: nat, i: int, j: int, p: Path)
    requires Partition(v, free, lo, hi) && 0 <= i < |v.a| && InVolume(v, j, p) && j != i && Node(v, j, p) != 0
    ensures Node(v, j, p) !in free + SlotTrees(v.d, v.a[i], NADDR)
  {
    SlotTreesExact(v, free, lo, hi, i, Node(v, j, p));
  }

  lemma {:induction false} OtherNode(v: Volume, w: Volume, free: set<nat>, lo: nat, hi: nat, i: int, j: int, p: Path)
    requires Partition(v, free, lo, hi) && 0 <= i < |v.a| && InVolume(v, j, p) && j != i
    requires w.a == v.a[i := NOADDR] && |w.d| == |v.d|
    requires var more := free + SlotTrees(v.d, v.a[i], NADDR);
             forall b :: 0 <= b < |v.d| && b !in more ==> w.d[b] == v.d[b]
    ensures Node(w, j, p) == Node(v, j, p)
  {
    if p.Under? {
      OtherNode(v, w, free, lo, hi, i, j, p.up);
      if Node(v, j, p.up) != 0 {
        NotInSlots(v, free, lo, hi, i, j, p.up);
      }
    }
  }

  // ------------------------------------------------------- one step at a time

  lemma {:induction false} ChildrenNone(d: Disk, blk: Block, h: nat)
    ensures Children(d, blk, h, 0) == {}
  {}

  lemma {:induction false} LevelSets(d: Disk, b: nat, h: nat)
    requires b != 0 && h > 0 && Apart(d, b, h)
    ensures b < |d| && TreeSet(d, b, h) == {b} + Children(d, d[b], h - 1, NIND)
    ensures ChildrenApart(d, d[b], h - 1, NIND) && b !in Children(d, d[b], h - 1, NIND)
  {}

  lemma {:induction false} ChildrenStep(d: Disk, blk: Block, h: nat, n: nat)
    requires 0 < n <= NIND && ChildrenApart(d, blk, h, n)
    ensures Children(d, blk, h, n) == Children(d, blk, h, n - 1) + TreeSet(d, Ptr(blk, n - 1), h)
    ensures ChildrenApart(d, blk, h, n - 1) && Apart(d, Ptr(blk, n - 1), h)
    ensures TreeSet(d, Ptr(blk, n - 1), h) !! Children(d, blk, h, n - 1)
    ensures h == 0 && Ptr(blk, n - 1) != 0 ==> TreeSet(d, Ptr(blk, n - 1), h) == {Ptr(blk, n - 1)}
    ensures Ptr(blk, n - 1) == 0 ==> TreeSet(d, Ptr(blk, n - 1), h) == {}
  {}

  lemma {:induction false} SlotStep(d: Disk, a: Addr, k: nat)
    requires k < NADDR
    ensures SlotTrees(d, a, k + 1) == SlotTrees(d, a, k) + TreeSet(d, a[k], SlotHeight(k))
  {}

  lemma {:induction false} NoSlots(d: Disk, a: Addr)
    ensures SlotTrees(d, a, 0) == {}
  {}

  lemma {:induction false} NoTree(d: Disk, h: nat)
    ensures TreeSet(d, 0, h) == {}
  {}

  lemma {:induction false} DirectTree(d: Disk, b: nat)
    requires b != 0 && Apart(d, b, 0)
    ensures TreeSet(d, b, 0) == {b}
  {}

  lemma {:induction false} SlotsInRange(v: Volume, free: set<nat>, lo: nat, hi: nat, i: nat)
    requires Partition(v, free, lo, hi) && i < |v.a|
    ensures forall b :: b in SlotTrees(v.d, v.a[i], NADDR) ==> lo <= b < hi
    ensures free !! SlotTrees(v.d, v.a[i], NADDR)
  {
    forall b | b in SlotTrees(v.d, v.a[i], NADDR) ensures lo <= b < hi && b !in free {
      SlotTreesExact(v, free, lo, hi, i, b);
    }
  }

  lemma {:induction false} ChildrenApartUpTo(d: Disk, blk: Block, h: nat, n: nat, i: nat)
    requires i <= n <= NIND && ChildrenApart(d, blk, h, n)
    ensures ChildrenApart(d, blk, h, i)
  {
    if i < n {
      ChildrenApartUpTo(d, blk, h, n - 1, i);
    }
  }
}
