/**
  The tree that cohfsw.py's setdata builds for a file: the blocks it allocates, in order,
  are the data blocks, the single index block, the index blocks of the double tree and
  the root of the double tree.
 */
module ImageTree {
  import opened Lists
  import opened Layout
  import opened FreeChain
  import opened TreeSets
  import opened CohFs

  const LIMIT: nat := 16522   // 10 + 128 + 128 * 128 blocks

  /** Index blocks needed below the double slot by a file of n blocks. */
  function Firsts(n: nat): nat {
    if n <= ND + SINGLE then 0 else (n - ND - SINGLE + NIND - 1) / NIND
  }

  /** Blocks allocated for a file of n blocks, index blocks included. */
  function Need(n: nat): nat {
    n + (if n > ND then 1 else 0) + (if n > ND + SINGLE then Firsts(n) + 1 else 0)
  }

  /** Blocks setdata takes if it can, before it notices that the file is too large: all the data
      blocks, the single index block and a full double tree. */
  function Wanted(n: nat): nat {
    if n <= LIMIT then Need(n) else n + NIND + 2
  }

  /** Which of the allocated blocks stands at a place of the new tree; -1 for none. */
  function BuiltAt(n: nat, p: Path): int
    requires ValidPath(p)
  {
    if p.Slot? then
      if p.n < ND then (if p.n < n then p.n else -1)
      else if p.n == 10 then (if n > ND then n else -1)
      else if p.n == 11 then (if n > ND + SINGLE then n + 1 + Firsts(n) else -1)
      else -1
    else if p.up == Slot(10) then (if ND + p.i < n then ND + p.i else -1)
    else if p.up == Slot(11) then (if p.i < Firsts(n) then n + 1 + p.i else -1)
    else if p.up.Under? && p.up.up == Slot(11) && ND + SINGLE + 128 * p.up.i + p.i < n then
      ND + SINGLE + 128 * p.up.i + p.i
    else -1
  }

  /** The place of each allocated block. */
  function PlaceOf(n: nat, m: nat): (p: Path)
    requires n <= LIMIT && m < Need(n)
    ensures ValidPath(p) && BuiltAt(n, p) == m
  {
    if m < n then
      if m < ND then Slot(m)
      else if m < ND + SINGLE then
        UnderHeight(Slot(10), m - ND);
        Under(Slot(10), m - ND)
      else
        var j := m - ND - SINGLE;
        UnderHeight(Slot(11), j / 128);
        UnderHeight(Under(Slot(11), j / 128), j % 128);
        Under(Under(Slot(11), j / 128), j % 128)
    else if m == n then Slot(10)
    else if m < n + 1 + Firsts(n) then
      UnderHeight(Slot(11), m - n - 1);
      Under(Slot(11), m - n - 1)
    else Slot(11)
  }

  lemma {:induction false} BuiltInjective(n: nat, p: Path, q: Path)
    requires ValidPath(p) && ValidPath(q) && n <= LIMIT
    requires BuiltAt(n, p) == BuiltAt(n, q) >= 0
    ensures p == q
    ensures BuiltAt(n, p) < Need(n)
  {
    if n > ND + SINGLE {
      assert 128 * Firsts(n) >= n - ND - SINGLE;
    }
  }

  /** The index blocks among the allocated blocks `al`, and the inode's slots, point to
      one another as setdata leaves them. */
  ghost predicate Linked(d: Disk, addr: Addr, al: seq<nat>, n: nat) {
    && n <= LIMIT && |al| == Need(n)
    && (forall m :: 0 <= m < |al| ==> 0 < al[m] < |d|)
    && (forall k :: 0 <= k < ND ==> addr[k] == if k < n then al[k] else 0)
    && addr[10] == (if n > ND then al[n] else 0)
    && addr[11] == (if n > ND + SINGLE then al[n + 1 + Firsts(n)] else 0)
    && addr[12] == 0
    && (n > ND ==> Packed(d[al[n]], al[ND..if n < ND + SINGLE then n else ND + SINGLE]))
    && (n > ND + SINGLE ==>
          && Packed(d[al[n + 1 + Firsts(n)]], al[n + 1..n + 1 + Firsts(n)])
          && forall i :: 0 <= i < Firsts(n) ==> LeafIndex(d, al, n, i))
  }

  /** The i-th index block of the double tree. */
  ghost predicate LeafIndex(d: Disk, al: seq<nat>, n: nat, i: nat)
    requires n <= LIMIT && |al| == Need(n) && i < Firsts(n)
    requires forall m :: 0 <= m < |al| ==> 0 < al[m] < |d|
  {
    var lo := ND + SINGLE + 128 * i;
    Packed(d[al[n + 1 + i]], al[lo..if n < lo + 128 then n else lo + 128])
  }

  /** An index block holding the given numbers and zeroes after them. */
  ghost predicate Packed(b: Block, ptrs: seq<nat>) {
    |ptrs| <= NIND && forall i :: 0 <= i < NIND ==> Ptr(b, i) == if i < |ptrs| then ptrs[i] else 0
  }

  lemma {:induction false} BuiltRoot(d: Disk, addr: Addr, al: seq<nat>, n: nat, i: nat)
    requires Linked(d, addr, al, n) && i < NIND && ValidPath(Under(Slot(11), i))
    ensures NodeAt(d, addr, Under(Slot(11), i)) == if i < Firsts(n) then al[n + 1 + i] else 0
  {
    assert NodeAt(d, addr, Slot(11)) == addr[11];
    if n > ND + SINGLE {
      assert Ptr(d[al[n + 1 + Firsts(n)]], i) == if i < Firsts(n) then al[n + 1 + i] else 0;
    }
  }

  lemma {:induction false} BuiltDouble(d: Disk, addr: Addr, al: seq<nat>, n: nat, i: nat, j: nat)
    requires Linked(d, addr, al, n) && i < NIND && j < NIND && ValidPath(Under(Under(Slot(11), i), j))
    ensures var m := ND + SINGLE + 128 * i + j;
            NodeAt(d, addr, Under(Under(Slot(11), i), j)) == if m < n then al[m] else 0
  {
    BuiltRoot(d, addr, al, n, i);
    if i < Firsts(n) {
      assert LeafIndex(d, al, n, i);
    }
  }

  /** The tree as built: at each place the block that BuiltAt names. */
  lemma {:induction false} BuiltNode(d: Disk, addr: Addr, al: seq<nat>, n: nat, p: Path)
    requires Linked(d, addr, al, n) && ValidPath(p)
    ensures BuiltAt(n, p) < |al|
    ensures NodeAt(d, addr, p) == if BuiltAt(n, p) >= 0 then al[BuiltAt(n, p)] else 0
  {
    if p.Under? {
      BuiltNode(d, addr, al, n, p.up);
      var u := NodeAt(d, addr, p.up);
      if p.up == Slot(10) {
      } else if p.up == Slot(11) {
        BuiltRoot(d, addr, al, n, p.i);
      } else if p.up.Under? && p.up.up == Slot(11) {
        BuiltDouble(d, addr, al, n, p.up.i, p.i);
      } else {
      }
    }
  }

  // -------------------------------------------------------- the new file's volume

  /** v without file i, whose tree is empty, and w with the tree just built in its place. */
  ghost predicate Built(v: Volume, w: Volume, free: set<nat>, i: nat, al: seq<nat>, n: nat) {
    && i < |v.a| && v.a[i] == NOADDR && |w.d| == |v.d| && |w.a| == |v.a|
    && w.a == v.a[i := w.a[i]]
    && Linked(w.d, w.a[i], al, n)
    && NoDup(al) && Elements(al) <= free
    && forall b :: 0 <= b < |v.d| && b !in Elements(al) ==> w.d[b] == v.d[b]
  }

  lemma {:induction false} BuiltNodes(v: Volume, w: Volume, free: set<nat>, lo: nat, hi: nat, i: nat, al: seq<nat>, n: nat, j: int, p: Path)
    requires Partition(v, free, lo, hi) && Built(v, w, free, i, al, n) && InVolume(w, j, p)
    ensures j == i ==> BuiltAt(n, p) < |al| && Node(w, j, p) == if BuiltAt(n, p) >= 0 then al[BuiltAt(n, p)] else 0
    ensures j != i ==> Node(w, j, p) == Node(v, j, p)
  {
    if j == i {
      BuiltNode(w.d, w.a[i], al, n, p);
    } else if p.Under? {
      BuiltNodes(v, w, free, lo, hi, i, al, n, j, p.up);
      assert InVolume(v, j, p.up);
    }
  }

  lemma {:induction false} BuiltPartition(v: Volume, w: Volume, free: set<nat>, lo: nat, hi: nat, i: nat, al: seq<nat>, n: nat)
    requires Partition(v, free, lo, hi) && Built(v, w, free, i, al, n)
    ensures Partition(w, free - Elements(al), lo, hi)
  {
    hide BuiltAt, Linked;
    LinkedSize(w.d, w.a[i], al, n);
    forall j, p | InVolume(w, j, p)
      ensures j == i ==> BuiltAt(n, p) < |al| && Node(w, j, p) == if BuiltAt(n, p) >= 0 then al[BuiltAt(n, p)] else 0
      ensures j != i ==> Node(w, j, p) == Node(v, j, p)
    {
      BuiltNodes(v, w, free, lo, hi, i, al, n, j, p);
    }
    forall j, p | InVolume(w, j, p) && Node(w, j, p) != 0
      ensures lo <= Node(w, j, p) < hi && Node(w, j, p) !in free - Elements(al)
      ensures j != i ==> Node(w, j, p) !in free
      ensures j == i ==> Node(w, j, p) in Elements(al)
    {
      if j == i {
        assert al[BuiltAt(n, p)] in Elements(al);
      } else {
        assert InVolume(v, j, p);
      }
    }
    BuiltDistinct(v, w, free, i, al, n);
    forall b | lo <= b < hi && b !in free - Elements(al) ensures Owned(w, b) {
      BuiltOwned(v, w, free, lo, hi, i, al, n, b);
    }
  }

  lemma LinkedSize(d: Disk, addr: Addr, al: seq<nat>, n: nat)
    requires Linked(d, addr, al, n)
    ensures n <= LIMIT && |al| == Need(n) && forall m :: 0 <= m < |al| ==> 0 < al[m] < |d|
  {}

  lemma {:induction false} BuiltDistinct(v: Volume, w: Volume, free: set<nat>, i: nat, al: seq<nat>, n: nat)
    requires NodesDistinct(v) && |w.a| == |v.a| && i < |v.a| && NoDup(al) && n <= LIMIT
    requires forall j, p :: InVolume(w, j, p) && j == i ==>
               BuiltAt(n, p) < |al| && (Node(w, j, p) == if BuiltAt(n, p) >= 0 then al[BuiltAt(n, p)] else 0)
    requires forall j, p :: InVolume(w, j, p) && j != i ==> Node(w, j, p) == Node(v, j, p)
    requires forall j, p :: InVolume(w, j, p) && Node(w, j, p) != 0 ==>
               (j != i ==> Node(w, j, p) !in free) && (j == i ==> Node(w, j, p) in free)
    ensures NodesDistinct(w)
  {
    hide BuiltAt;
    forall j, q, k, r | InVolume(w, j, q) && InVolume(w, k, r) && Node(w, j, q) == Node(w, k, r) != 0
      ensures j == k && q == r
    {
      if j == i && k == i {
        BuiltInjective(n, q, r);
      } else if j != i && k != i {
        assert InVolume(v, j, q) && InVolume(v, k, r);
      }
    }
  }

  lemma {:induction false} BuiltOwned(v: Volume, w: Volume, free: set<nat>, lo: nat, hi: nat, i: nat, al: seq<nat>, n: nat, b: nat)
    requires Partition(v, free, lo, hi) && Built(v, w, free, i, al, n)
    requires lo <= b < hi && b !in free - Elements(al)
    ensures Owned(w, b)
  {
    LinkedSize(w.d, w.a[i], al, n);
    hide BuiltAt, Linked;
    if b in Elements(al) {
      var m :| 0 <= m < |al| && al[m] == b;
      var p := PlaceOf(n, m);
      BuiltNodes(v, w, free, lo, hi, i, al, n, i, p);
      assert InVolume(w, i, p) && Node(w, i, p) == b;
    } else {
      var j, p :| InVolume(v, j, p) && Node(v, j, p) == b;
      if j == i {
        EmptyNode(v, i, p);
      }
      BuiltNodes(v, w, free, lo, hi, i, al, n, j, p);
      assert InVolume(w, j, p) && Node(w, j, p) == b;
    }
  }

  /** The new file's k-th block is the k-th allocated one; the others' are as they were. */
  lemma {:induction false} BuiltContent(v: Volume, w: Volume, free: set<nat>, lo: nat, hi: nat, i: nat, al: seq<nat>, n: nat, j: nat, k: nat)
    requires Partition(v, free, lo, hi) && Built(v, w, free, i, al, n) && j < |v.a| && k < MAXBLOCKS
    ensures j == i && k < n ==> |al| == Need(n) && 0 < al[k] < |w.d| && FileBlock(w, i, k) == w.d[al[k]]
    ensures j != i ==> FileBlock(w, j, k) == FileBlock(v, j, k) && Node(w, j, LeafOf(k)) == Node(v, j, LeafOf(k))
  {
    LinkedSize(w.d, w.a[i], al, n);
    hide Linked;
    BuiltNodes(v, w, free, lo, hi, i, al, n, j, LeafOf(k));
    if j == i && k < n {
    }
    if j != i {
      assert InVolume(v, j, LeafOf(k));
    }
  }
}
