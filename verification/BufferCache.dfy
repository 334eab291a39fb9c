/**
  The buffer cache of bio.c: hash chains and one least-recently-used list threaded through
  an array of buffers, in front of the disks.

  I/O is free of errors; asynchronous transfers stay in flight until the driver reports them
  done.

  The ghost field view is what direct access to the disks would show.  Every operation keeps
  each live buffer holding the view's contents of its block, and each block without a live
  modified buffer equal to the view on the disk; so evicting a buffer cannot lose a write.
 */
module BufferCache {
  import opened Lists
  import opened Layout
  import R = RadixSort

  /** Who has the buffer's gate: nobody, a process, or a transfer in flight. */
  datatype Lock = Idle | Held | Writing | Reading

  /** buf_t.  Links are positions in buf_list, NULL is -1. */
  datatype Buf = Buf(dev: nat, bno: nat, data: Block, modified: bool, notPresent: bool, lock: Lock,
                     hashval: nat, hash: int, lruf: int, lrub: int)

  const NODEV: nat := 65535

  type Bufs = seq<Buf>
  type Place = (nat, nat)   // device and block number

  /** The contents of all devices; blocks never written are zero. */
  type Store = map<Place, Block>

  function Lookup(s: Store, a: Place): Block {
    if a in s then s[a] else ZERO
  }

  function PlaceOf(x: Buf): Place {
    (x.dev, x.bno)
  }

  predicate Live(x: Buf) {
    x.dev != NODEV
  }

  predicate InFlight(x: Buf) {
    x.lock == Writing || x.lock == Reading
  }

  /** The buffer's data is the block's: it was read, filled, or is being written. */
  predicate HasData(x: Buf) {
    x.lock == Writing || (x.lock != Reading && (!x.notPresent || x.modified))
  }

  function HashOf(a: Place, nhash: nat): (h: nat)
    requires nhash > 0
    ensures h < nhash
  {
    (a.0 * 257 + a.1) % nhash
  }

  // ------------------------------------------------------------- lists through the array

  ghost predicate ChainIs(b: Bufs, head: int, l: seq<nat>, h: nat) {
    && head == At(l, 0) && NoDup(l)
    && forall k :: 0 <= k < |l| ==> l[k] < |b| && b[l[k]].hashval == h && b[l[k]].hash == At(l, k + 1)
  }

  /** Every buffer is in the chain of its stored hash value and in no other, those in `out`
      aside, which are in none. */
  ghost predicate HashOK(b: Bufs, ha: seq<int>, ch: seq<seq<nat>>, out: set<nat>) {
    && |ch| == |ha|
    && (forall h :: 0 <= h < |ha| ==> ChainIs(b, ha[h], ch[h], h) && NoneOf(ch[h], out))
    && forall i: nat :: i < |b| ==> b[i].hashval < |ha| && (i !in out ==> i in ch[b[i].hashval])
  }

  predicate NoneOf(l: seq<nat>, out: set<nat>) {
    forall k :: 0 <= k < |l| ==> l[k] !in out
  }

  ghost predicate LruOK(b: Bufs, first: int, last: int, l: seq<nat>) {
    && first == At(l, 0) && last == At(l, |l| - 1) && NoDup(l)
    && (forall k :: 0 <= k < |l| ==> l[k] < |b| && b[l[k]].lruf == At(l, k + 1) && b[l[k]].lrub == At(l, k - 1))
    && forall i :: 0 <= i < |b| ==> i in l
  }

  /** The links are as they were. */
  ghost predicate SameLinks(b: Bufs, c: Bufs) {
    && |c| == |b|
    && forall i :: 0 <= i < |b| ==>
         && c[i].hashval == b[i].hashval && c[i].hash == b[i].hash
         && c[i].lruf == b[i].lruf && c[i].lrub == b[i].lrub
  }

  /** HASHinsert. */
  lemma {:induction false} InsertKeepsHash(b: Bufs, ha: seq<int>, ch: seq<seq<nat>>, i: nat, h: nat, out: set<nat>)
    requires HashOK(b, ha, ch, out) && i in out && i < |b| && h == b[i].hashval
    ensures HashOK(b[i := b[i].(hash := ha[h])], ha[h := i], ch[h := [i] + ch[h]], out - {i})
  {
    hide ChainIs, NoneOf;
    var c, l := b[i := b[i].(hash := ha[h])], [i] + ch[h];
    var ha', ch' := ha[h := i], ch[h := l];
    forall g | 0 <= g < |ha| ensures ChainIs(c, ha'[g], ch'[g], g) && NoneOf(ch'[g], out - {i}) {
      assert ChainIs(b, ha[g], ch[g], g) && NoneOf(ch[g], out);
      if g == h {
        PushChain(b, ha[h], ch[h], h, i, out);
      } else {
        ChainFrame(b, c, ha[g], ch[g], g, i, out);
      }
    }
  }

  lemma {:induction false} PushChain(b: Bufs, head: int, l: seq<nat>, h: nat, i: nat, out: set<nat>)
    requires ChainIs(b, head, l, h) && NoneOf(l, out) && i in out && i < |b| && b[i].hashval == h
    ensures ChainIs(b[i := b[i].(hash := head)], i, [i] + l, h) && NoneOf([i] + l, out - {i})
  {
    var c, m := b[i := b[i].(hash := head)], [i] + l;
    forall k | 0 <= k < |m| ensures m[k] < |c| && c[m[k]].hashval == h && c[m[k]].hash == At(m, k + 1) {
      assert k > 0 ==> m[k] == l[k - 1];
    }
  }

  lemma {:induction false} ChainFrame(b: Bufs, c: Bufs, head: int, l: seq<nat>, g: nat, i: nat, out: set<nat>)
    requires ChainIs(b, head, l, g) && NoneOf(l, out) && i in out && i < |b| == |c| && c == b[i := c[i]]
    ensures ChainIs(c, head, l, g) && NoneOf(l, out - {i})
  {}

  /** The buffers after HASHdelete has unlinked entry k of chain h. */
  function Unhashed(b: Bufs, l: seq<nat>, k: nat): Bufs
    requires k < |l| && forall j :: 0 <= j < |l| ==> l[j] < |b|
  {
    var i := l[k];
    var c := if k == 0 then b else b[l[k - 1] := b[l[k - 1]].(hash := b[i].hash)];
    c[i := c[i].(hash := NULL)]
  }

  lemma {:induction false} OnlyHashes(b: Bufs, l: seq<nat>, k: nat)
    requires k < |l| && forall j :: 0 <= j < |l| ==> l[j] < |b|
    ensures |Unhashed(b, l, k)| == |b|
    ensures forall i :: 0 <= i < |b| ==> Unhashed(b, l, k)[i] == b[i].(hash := Unhashed(b, l, k)[i].hash)
  {}

  lemma {:induction false} UnhashedAt(b: Bufs, l: seq<nat>, k: nat, j: nat)
    requires k < |l| && NoDup(l) && j < |b| && forall j :: 0 <= j < |l| ==> l[j] < |b|
    ensures |Unhashed(b, l, k)| == |b| && Unhashed(b, l, k)[j].hashval == b[j].hashval
    ensures Unhashed(b, l, k)[j].hash
            == if j == l[k] then NULL else if k > 0 && j == l[k - 1] then b[l[k]].hash else b[j].hash
  {}

  lemma {:induction false} DeleteKeepsHash(b: Bufs, ha: seq<int>, ch: seq<seq<nat>>, h: nat, k: nat)
    requires HashOK(b, ha, ch, {}) && h < |ha| && k < |ch[h]|
    ensures forall j :: 0 <= j < |ch[h]| ==> ch[h][j] < |b|
    ensures HashOK(Unhashed(b, ch[h], k), if k == 0 then ha[h := b[ch[h][k]].hash] else ha, ch[h := Cut(ch[h], k)], {ch[h][k]})
  {
    hide Unhashed, ChainIs;
    ChainRange(b, ha[h], ch[h], h);
    var l, i := ch[h], ch[h][k];
    var c, m := Unhashed(b, l, k), Cut(l, k);
    var ha', ch' := if k == 0 then ha[h := b[i].hash] else ha, ch[h := m];
    UnhashedAt(b, l, k, i);
    CutChain(b, ha[h], l, h, k);
    forall g | 0 <= g < |ha| ensures ChainIs(c, ha'[g], ch'[g], g) && NoneOf(ch'[g], {i}) {
      if g != h {
        OtherChain(b, ha, ch, h, k, g);
      }
    }
    forall j | 0 <= j < |b| ensures c[j].hashval < |ha| && (j != i ==> j in ch'[c[j].hashval]) {
      UnhashedAt(b, l, k, j);
      if c[j].hashval == h && j != i {
        CutMembers(l, k, j);
      }
    }
  }

  lemma {:induction false} ChainRange(b: Bufs, head: int, l: seq<nat>, h: nat)
    requires ChainIs(b, head, l, h)
    ensures NoDup(l) && forall j :: 0 <= j < |l| ==> l[j] < |b| && b[l[j]].hashval == h
  {}

  lemma {:induction false} CutChain(b: Bufs, head: int, l: seq<nat>, h: nat, k: nat)
    requires ChainIs(b, head, l, h) && k < |l|
    ensures ChainIs(Unhashed(b, l, k), if k == 0 then b[l[k]].hash else head, Cut(l, k), h) && l[k] !in Cut(l, k)
  {
    hide Unhashed, Cut;
    var c, m := Unhashed(b, l, k), Cut(l, k);
    UnhashedAt(b, l, k, l[k]);
    CutNoDup(l, k);
    forall p | 0 <= p < |m| ensures m[p] < |c| && c[m[p]].hashval == h && c[m[p]].hash == At(m, p + 1) {
      CutEntry(l, k, p);
      UnhashedAt(b, l, k, m[p]);
    }
  }

  lemma {:induction false} OtherChain(b: Bufs, ha: seq<int>, ch: seq<seq<nat>>, h: nat, k: nat, g: nat)
    requires HashOK(b, ha, ch, {}) && h < |ha| && g < |ha| && g != h && k < |ch[h]|
    requires forall j :: 0 <= j < |ch[h]| ==> ch[h][j] < |b|
    ensures ChainIs(Unhashed(b, ch[h], k), ha[g], ch[g], g) && ch[h][k] !in ch[g]
  {
    hide Unhashed;
    assert ChainIs(b, ha[h], ch[h], h) && ChainIs(b, ha[g], ch[g], g);
    var l, c := ch[g], Unhashed(b, ch[h], k);
    UnhashedAt(b, ch[h], k, ch[h][k]);
    forall p | 0 <= p < |l| ensures l[p] < |c| && c[l[p]].hashval == g && c[l[p]].hash == At(l, p + 1) {
      UnhashedAt(b, ch[h], k, l[p]);
      assert b[l[p]].hashval == g;
    }
  }

  lemma {:induction false} LinksKeepHash(b: Bufs, c: Bufs, ha: seq<int>, ch: seq<seq<nat>>)
    requires HashOK(b, ha, ch, {}) && SameLinks(b, c)
    ensures HashOK(c, ha, ch, {})
  {
    forall h | 0 <= h < |ha| ensures ChainIs(c, ha[h], ch[h], h) {
      assert ChainIs(b, ha[h], ch[h], h);
    }
  }

  lemma {:induction false} LinksKeepLru(b: Bufs, c: Bufs, first: int, last: int, l: seq<nat>)
    requires LruOK(b, first, last, l) && SameLinks(b, c)
    ensures LruOK(c, first, last, l)
  {}

  /** The buffers after LRUupdate has moved entry k > 0 of the list to the front. */
  function Moved(b: Bufs, l: seq<nat>, k: nat): Bufs
    requires 0 < k < |l| && forall j :: 0 <= j < |l| ==> l[j] < |b|
  {
    var i := l[k];
    var c := b[l[k - 1] := b[l[k - 1]].(lruf := At(l, k + 1))];
    var d := if k + 1 < |l| then c[l[k + 1] := c[l[k + 1]].(lrub := l[k - 1])] else c;
    var e := d[i := d[i].(lrub := NULL, lruf := l[0])];
    e[l[0] := e[l[0]].(lrub := i)]
  }

  lemma {:induction false} MovedAt(b: Bufs, l: seq<nat>, k: nat, j: nat)
    requires 0 < k < |l| && NoDup(l) && j < |b| && forall j :: 0 <= j < |l| ==> l[j] < |b|
    ensures |Moved(b, l, k)| == |b|
    ensures Moved(b, l, k)[j].lruf
            == if j == l[k] then l[0] else if j == l[k - 1] then At(l, k + 1) else b[j].lruf
    ensures Moved(b, l, k)[j].lrub
            == if j == l[k] then NULL else if j == l[0] then l[k]
               else if k + 1 < |l| && j == l[k + 1] then l[k - 1] else b[j].lrub
    ensures Moved(b, l, k)[j] == b[j].(lruf := Moved(b, l, k)[j].lruf, lrub := Moved(b, l, k)[j].lrub)
  {}

  /** LRUupdate: the buffer comes first, the others keep their order. */
  lemma {:induction false} MoveKeepsLru(b: Bufs, first: int, last: int, l: seq<nat>, k: nat)
    requires LruOK(b, first, last, l) && 0 < k < |l|
    ensures forall j :: 0 <= j < |l| ==> l[j] < |b|
    ensures LruOK(Moved(b, l, k), l[k], if k == |l| - 1 then l[k - 1] else last, [l[k]] + Cut(l, k))
    ensures SameChains(b, Moved(b, l, k))
  {
    hide Moved, Cut, NoDup, LruOK, SameChains;
    LruRange(b, first, last, l);
    var c, m := Moved(b, l, k), [l[k]] + Cut(l, k);
    MovedAt(b, l, k, l[k]);
    MoveEntry(l, k, m, |l| - 1);
    MoveNoDup(l, k);
    MovedRest(b, first, last, l, k);
    forall p | 0 <= p < |m| ensures m[p] < |c| && c[m[p]].lruf == At(m, p + 1) && c[m[p]].lrub == At(m, p - 1) {
      var j := if p == 0 then k else if p <= k then p - 1 else p;
      LruLinks(b, first, last, l, j);
      MoveOne(b, l, k, p, j);
    }
    LruMade(c, l[k], if k == |l| - 1 then l[k - 1] else last, m);
  }

  lemma {:induction false} LruRange(b: Bufs, first: int, last: int, l: seq<nat>)
    requires LruOK(b, first, last, l)
    ensures NoDup(l) && first == At(l, 0) && last == At(l, |l| - 1) && forall j :: 0 <= j < |l| ==> l[j] < |b|
  {}

  lemma {:induction false} LruMade(c: Bufs, first: int, last: int, m: seq<nat>)
    requires first == At(m, 0) && last == At(m, |m| - 1) && NoDup(m) && forall j :: 0 <= j < |c| ==> j in m
    requires forall p :: 0 <= p < |m| ==> m[p] < |c| && c[m[p]].lruf == At(m, p + 1) && c[m[p]].lrub == At(m, p - 1)
    ensures LruOK(c, first, last, m)
  {}

  lemma {:induction false} MovedRest(b: Bufs, first: int, last: int, l: seq<nat>, k: nat)
    requires LruOK(b, first, last, l) && 0 < k < |l|
    ensures SameChains(b, Moved(b, l, k))
    ensures forall j :: 0 <= j < |b| ==> j in [l[k]] + Cut(l, k)
  {
    hide Moved, Cut, NoDup;
    MovedAt(b, l, k, l[k]);
    forall j | 0 <= j < |b|
      ensures j in [l[k]] + Cut(l, k)
      ensures Moved(b, l, k)[j].hash == b[j].hash && Moved(b, l, k)[j].hashval == b[j].hashval
    {
      MovedAt(b, l, k, j);
      if j != l[k] {
        CutMembers(l, k, j);
      }
    }
  }

  lemma {:induction false} MoveNoDup(l: seq<nat>, k: nat)
    requires 0 < k < |l| && NoDup(l)
    ensures NoDup([l[k]] + Cut(l, k))
  {
    var m := [l[k]] + Cut(l, k);
    forall p, q | 0 <= p < q < |m| ensures m[p] != m[q] {
      MoveEntry(l, k, m, p);
      MoveEntry(l, k, m, q);
    }
  }

  lemma {:induction false} MoveOne(b: Bufs, l: seq<nat>, k: nat, p: nat, j: nat)
    requires NoDup(l) && 0 < k < |l| && p < |l| && forall i :: 0 <= i < |l| ==> l[i] < |b|
    requires j == (if p == 0 then k else if p <= k then p - 1 else p)
    requires b[l[j]].lruf == At(l, j + 1) && b[l[j]].lrub == At(l, j - 1)
    ensures var m, c := [l[k]] + Cut(l, k), Moved(b, l, k);
            m[p] < |c| && c[m[p]].lruf == At(m, p + 1) && c[m[p]].lrub == At(m, p - 1)
  {
    hide Moved, Cut, NoDup;
    var m := [l[k]] + Cut(l, k);
    MoveEntry(l, k, m, p);
    MovedAt(b, l, k, l[j]);
    Apart(l, k, j);
  }

  lemma Apart(l: seq<nat>, k: nat, j: nat)
    requires NoDup(l) && 0 < k < |l| && j < |l|
    ensures l[j] == l[k] <==> j == k
    ensures l[j] == l[k - 1] <==> j == k - 1
    ensures l[j] == l[0] <==> j == 0
    ensures k + 1 < |l| ==> (l[j] == l[k + 1] <==> j == k + 1)
  {}

  lemma MoveEntry(l: seq<nat>, k: nat, m: seq<nat>, p: nat)
    requires 0 < k < |l| && m == [l[k]] + Cut(l, k) && p < |l|
    ensures m[p] == if p == 0 then l[k] else if p <= k then l[p - 1] else l[p]
    ensures p + 1 < |m| ==> m[p + 1] == if p + 1 <= k then l[p] else l[p + 1]
    ensures p > 0 ==> m[p - 1] == if p == 1 then l[k] else if p - 1 <= k then l[p - 2] else l[p - 1]
    ensures |m| == |l|
  {}

  /** The hash links are as they were. */
  ghost predicate SameChains(b: Bufs, c: Bufs) {
    |c| == |b| && forall i :: 0 <= i < |b| ==> c[i].hashval == b[i].hashval && c[i].hash == b[i].hash
  }

  // -------------------------------------------------------------- cache and disk agree

  /** At most one live buffer per block; live buffers carry the hash value of their block. */
  ghost predicate Unique(b: Bufs) {
    forall i, j :: 0 <= i < j < |b| && Live(b[i]) && Live(b[j]) ==> PlaceOf(b[i]) != PlaceOf(b[j])
  }

  ghost predicate Hashed(b: Bufs, nhash: nat)
    requires nhash > 0
  {
    forall i :: 0 <= i < |b| && Live(b[i]) ==> b[i].hashval == HashOf(PlaceOf(b[i]), nhash)
  }

  /** What a buffer may be: only live buffers are used, and idle ones are present. */
  predicate BufOK(x: Buf) {
    && (!Live(x) ==> x.lock == Idle && !x.modified)
    && (x.lock == Idle ==> !x.notPresent)
    && (x.lock == Reading ==> !x.modified)
    && x.bno < 0x1_0000_0000
  }

  /** The buffer holds what the block should contain, and the disk does too unless it is modified. */
  ghost predicate Agrees(x: Buf, disk: Store, view: Store) {
    && (Live(x) && HasData(x) ==> Lookup(view, PlaceOf(x)) == x.data)
    && (Live(x) && !x.modified ==> Lookup(view, PlaceOf(x)) == Lookup(disk, PlaceOf(x)))
  }

  /** No buffer holds a modification of this block. */
  ghost predicate NoneModified(b: Bufs, a: Place) {
    forall i :: 0 <= i < |b| && Live(b[i]) && PlaceOf(b[i]) == a ==> !b[i].modified
  }

  /** The view is what the cache and the disk mean together. */
  ghost predicate CacheOK(b: Bufs, disk: Store, view: Store, nhash: nat)
    requires nhash > 0
  {
    && Unique(b) && Hashed(b, nhash)
    && (forall i :: 0 <= i < |b| ==> BufOK(b[i]) && Agrees(b[i], disk, view))
    && forall a :: NoneModified(b, a) ==> Lookup(view, a) == Lookup(disk, a)
  }

  /** The view is determined by the buffers and the disk. */
  lemma {:induction false} ViewIsDetermined(b: Bufs, disk: Store, v: Store, w: Store, nhash: nat, a: Place)
    requires nhash > 0 && CacheOK(b, disk, v, nhash) && CacheOK(b, disk, w, nhash)
    ensures Lookup(v, a) == Lookup(w, a)
  {
    if !NoneModified(b, a) {
      var i :| 0 <= i < |b| && Live(b[i]) && PlaceOf(b[i]) == a && b[i].modified;
      assert Agrees(b[i], disk, v) && Agrees(b[i], disk, w) && BufOK(b[i]);
    }
  }

  /** Changing one buffer without moving it to another block. */
  lemma {:induction false} BufferChanged(b: Bufs, disk: Store, view: Store, nhash: nat, i: nat, y: Buf, disk': Store, view': Store)
    requires nhash > 0 && CacheOK(b, disk, view, nhash) && i < |b| && BufOK(y) && Agrees(y, disk', view')
    requires y.dev == b[i].dev && y.bno == b[i].bno && y.hashval == b[i].hashval
    requires forall a :: a != PlaceOf(y) ==> Lookup(disk', a) == Lookup(disk, a) && Lookup(view', a) == Lookup(view, a)
    requires Live(y) || (disk' == disk && view' == view)
    ensures CacheOK(b[i := y], disk', view', nhash)
  {
    var c := b[i := y];
    forall j | 0 <= j < |c| ensures BufOK(c[j]) && Agrees(c[j], disk', view') {
      if j != i && Live(c[j]) && Live(y) {
        assert PlaceOf(c[j]) != PlaceOf(y);
      }
    }
    forall a | NoneModified(c, a) ensures Lookup(view', a) == Lookup(disk', a) {
      if a == PlaceOf(y) && Live(y) {
        assert c[i] == y && !y.modified;
      } else {
        forall j | 0 <= j < |b| && Live(b[j]) && PlaceOf(b[j]) == a ensures !b[j].modified {
          assert j != i ==> c[j] == b[j];
        }
        assert NoneModified(b, a);
      }
    }
  }

  /** Giving a clean idle buffer to a block no buffer holds. */
  lemma {:induction false} BufferMoved(b: Bufs, disk: Store, view: Store, nhash: nat, i: nat, y: Buf)
    requires nhash > 0 && CacheOK(b, disk, view, nhash) && i < |b| && !b[i].modified && BufOK(y) && Live(y)
    requires forall j :: 0 <= j < |b| && j != i && Live(b[j]) ==> PlaceOf(b[j]) != PlaceOf(y)
    requires y.hashval == HashOf(PlaceOf(y), nhash) && !HasData(y) && !y.modified
    ensures CacheOK(b[i := y], disk, view, nhash)
  {
    var c := b[i := y];
    assert NoneModified(b, PlaceOf(y));
    forall a | NoneModified(c, a) ensures Lookup(view, a) == Lookup(disk, a) {
      forall j | 0 <= j < |b| && Live(b[j]) && PlaceOf(b[j]) == a ensures !b[j].modified {
        assert j != i ==> c[j] == b[j];
      }
      assert NoneModified(b, a);
    }
  }

  /** The links play no part. */
  lemma {:induction false} LinksIgnored(b: Bufs, c: Bufs, disk: Store, view: Store, nhash: nat)
    requires nhash > 0 && CacheOK(b, disk, view, nhash) && |c| == |b|
    requires forall i :: 0 <= i < |b| ==> c[i] == b[i].(hash := c[i].hash, lruf := c[i].lruf, lrub := c[i].lrub)
    ensures CacheOK(c, disk, view, nhash)
  {
    forall a | NoneModified(c, a) ensures Lookup(view, a) == Lookup(disk, a) {
      forall j | 0 <= j < |b| && Live(b[j]) && PlaceOf(b[j]) == a ensures !b[j].modified {
        assert c[j].modified == b[j].modified;
      }
      assert NoneModified(b, a);
    }
    forall i | 0 <= i < |c| ensures BufOK(c[i]) && Agrees(c[i], disk, view) {
      assert BufOK(b[i]) && Agrees(b[i], disk, view);
    }
  }

  /** The same buffers in the same places of all lists, holding the same blocks. */
  ghost predicate SameIds(b: Bufs, c: Bufs) {
    && |c| == |b|
    && forall i :: 0 <= i < |b| ==> SameId(b[i], c[i])
  }

  predicate SameId(x: Buf, y: Buf) {
    y == x.(data := y.data, modified := y.modified, notPresent := y.notPresent, lock := y.lock)
  }

  ghost predicate NoneHeld(b: Bufs) {
    forall i :: 0 <= i < |b| ==> b[i].lock != Held
  }

  /** Transfers may have finished; nothing else has happened. */
  ghost predicate Settled(b: Bufs, c: Bufs) {
    && SameIds(b, c)
    && forall i :: 0 <= i < |b| ==> c[i] == b[i] || (InFlight(b[i]) && c[i].lock == Idle && !c[i].modified)
  }

  /** The buffer after its transfer. */
  function Done(x: Buf, disk: Store): Buf {
    x.(data := if x.lock == Reading then Lookup(disk, PlaceOf(x)) else x.data,
       modified := false, notPresent := false, lock := Idle)
  }

  function DiskAfter(x: Buf, disk: Store): Store {
    if x.lock == Writing then disk[PlaceOf(x) := x.data] else disk
  }

  lemma {:induction false} TransferDone(b: Bufs, disk: Store, view: Store, nhash: nat, i: nat)
    requires nhash > 0 && CacheOK(b, disk, view, nhash) && i < |b| && InFlight(b[i])
    ensures CacheOK(b[i := Done(b[i], disk)], DiskAfter(b[i], disk), view, nhash)
    ensures Settled(b, b[i := Done(b[i], disk)])
  {
    BufferChanged(b, disk, view, nhash, i, Done(b[i], disk), DiskAfter(b[i], disk), view);
  }

  class Cache {
    const buf: array<Buf>
    const hasharray: array<int>
    const space: array<R.Container?>
    var firstbuf: int
    var lastbuf: int
    var disk: Store
    ghost var view: Store
    ghost var lru: seq<nat>
    ghost var chains: seq<seq<nat>>

    ghost predicate LinksOK()
      reads this, buf, hasharray
    {
      && buf.Length > 0 && hasharray.Length > 0 && space.Length == 256
      && HashOK(buf[..], hasharray[..], chains, {})
      && LruOK(buf[..], firstbuf, lastbuf, lru)
    }

    ghost predicate Valid()
      reads this, buf, hasharray
    {
      LinksOK() && CacheOK(buf[..], disk, view, hasharray.Length)
    }

    // ------------------------------------------------------------------ transfers

    /** biodone: the driver has finished the buffer's transfer. */
    method BIoDone(i: nat)
      requires Valid() && i < buf.Length && InFlight(buf[i])
      modifies this`disk, buf
      ensures Valid() && Settled(old(buf[..]), buf[..]) && buf[i].lock == Idle
      ensures buf[..] == old(buf[..])[i := Done(old(buf[i]), old(disk))] && disk == DiskAfter(old(buf[i]), old(disk))
    {
      hide CacheOK, HashOK, LruOK;
      ghost var b := buf[..];
      TransferDone(b, disk, view, hasharray.Length, i);
      disk, buf[i] := DiskAfter(buf[i], disk), Done(buf[i], disk);
      assert buf[..] == b[i := Done(b[i], old(disk))];
      LinksKeepHash(b, buf[..], hasharray[..], chains);
      LinksKeepLru(b, buf[..], firstbuf, lastbuf, lru);
    }

    /** Any transfers may finish while a process sleeps. */
    method Interrupts()
      requires Valid()
      modifies this`disk, buf
      ensures Valid() && Settled(old(buf[..]), buf[..])
    {
      hide CacheOK, HashOK, LruOK, LinksOK;
      var i: nat := 0;
      while i < buf.Length
        invariant i <= buf.Length && Valid() && Settled(old(buf[..]), buf[..])
      {
        ghost var b := buf[..];
        if InFlight(buf[i]) {
          if * {
            BIoDone(i);
          }
        }
        i := i + 1;
      }
    }

    /** __LOCK_BUFFER as far as transfers go: sleep until the buffer's transfer is done. */
    method WaitFor(i: nat)
      requires Valid() && i < buf.Length && buf[i].lock != Held
      modifies this`disk, buf
      ensures Valid() && Settled(old(buf[..]), buf[..]) && buf[i].lock == Idle
    {
      hide CacheOK, HashOK, LruOK, LinksOK;
      if InFlight(buf[i]) {
        Interrupts();
        ghost var b := buf[..];
        if InFlight(buf[i]) {
          BIoDone(i);
        }
      }
    }

    // ------------------------------------------------------------------ the links

    /** HASHinsert: the buffer comes first in the chain of its hash value. */
    method HashInsert(bp: nat, ghost out: set<nat>)
      requires bp < buf.Length && HashOK(buf[..], hasharray[..], chains, out) && bp in out
      modifies buf, hasharray, this`chains
      ensures HashOK(buf[..], hasharray[..], chains, out - {bp})
      ensures buf[..] == old(buf[..])[bp := old(buf[bp]).(hash := buf[bp].hash)]
      ensures chains == old(chains)[buf[bp].hashval := [bp] + old(chains)[buf[bp].hashval]]
    {
      hide HashOK;
      ghost var b, ha := buf[..], hasharray[..];
      var h := buf[bp].hashval;
      HashRange(b, ha, chains, out, bp);
      buf[bp] := buf[bp].(hash := hasharray[h]);
      hasharray[h] := bp;
      InsertKeepsHash(b, ha, chains, bp, h, out);
      chains := chains[h := [bp] + chains[h]];
      assert buf[..] == b[bp := b[bp].(hash := ha[h])] && hasharray[..] == ha[h := bp];
    }

    /** HASHdelete: the buffer leaves its chain; the others stay in order. */
    method HashDelete(bp: nat)
      requires bp < buf.Length && HashOK(buf[..], hasharray[..], chains, {})
      modifies buf, hasharray, this`chains
      ensures HashOK(buf[..], hasharray[..], chains, {bp})
      ensures |buf[..]| == |old(buf[..])|
      ensures forall i :: 0 <= i < buf.Length ==> buf[i] == old(buf[i]).(hash := buf[i].hash)
    {
      hide HashOK, ChainIs, NoDup, Cut, Unhashed;
      ghost var b, ha := buf[..], hasharray[..];
      ghost var h := buf[bp].hashval;
      HashRange(b, ha, chains, {}, bp);
      ghost var l := chains[h];
      ghost var k: nat :| k < |l| && l[k] == bp;
      DeleteKeepsHash(b, ha, chains, h, k);
      Unlink(bp, l, k);
      OnlyHashes(b, l, k);
      forall i | 0 <= i < buf.Length ensures buf[i] == b[i].(hash := buf[i].hash) {
        assert buf[i] == Unhashed(b, l, k)[i];
      }
      chains := chains[h := Cut(l, k)];
    }

    /** The assignments of HASHdelete. */
    method Unlink(bp: nat, ghost l: seq<nat>, ghost k: nat)
      requires bp < buf.Length && buf[bp].hashval < hasharray.Length && hasharray[buf[bp].hashval] == At(l, 0)
      requires NoDup(l) && k < |l| && l[k] == bp
      requires forall j :: 0 <= j < |l| ==> l[j] < buf.Length && buf[l[j]].hash == At(l, j + 1)
      modifies buf, hasharray
      ensures buf[..] == Unhashed(old(buf[..]), l, k)
      ensures var h, ha := old(buf[bp]).hashval, old(hasharray[..]);
              hasharray[..] == if k == 0 then ha[h := old(buf[bp]).hash] else ha
    {
      hide NoDup;
      ghost var b := buf[..];
      var prev := hasharray[buf[bp].hashval];
      if prev == bp {
        FirstOnly(l, k);
        hasharray[buf[bp].hashval] := buf[bp].hash;
      } else {
        prev := FindPrevious(bp, l, k);
        buf[prev] := buf[prev].(hash := buf[bp].hash);
      }
      buf[bp] := buf[bp].(hash := NULL);
      assert buf[..] == Unhashed(b, l, k);
    }

    /** The linear search of HASHdelete. */
    method FindPrevious(bp: nat, ghost l: seq<nat>, ghost k: nat) returns (prev: int)
      requires bp < buf.Length && buf[bp].hashval < hasharray.Length && hasharray[buf[bp].hashval] == At(l, 0) != bp
      requires NoDup(l) && k < |l| && l[k] == bp
      requires forall j :: 0 <= j < |l| ==> l[j] < buf.Length && buf[l[j]].hash == At(l, j + 1)
      ensures k > 0 && prev == l[k - 1]
    {
      prev := hasharray[buf[bp].hashval];
      ghost var p: nat := 0;
      while buf[prev].hash != bp
        invariant p < k && prev == l[p]
        decreases k - p
      {
        prev := buf[prev].hash;
        if prev == NULL {
          assert false;
        }
        p := p + 1;
      }
    }

    /** LRUupdate: the buffer comes first in the list; the others keep their order. */
    method LruUpdate(bp: nat, ghost out: set<nat>)
      requires bp < buf.Length && LruOK(buf[..], firstbuf, lastbuf, lru) && HashOK(buf[..], hasharray[..], chains, out)
      modifies buf, this`firstbuf, this`lastbuf, this`lru
      ensures LruOK(buf[..], firstbuf, lastbuf, lru) && HashOK(buf[..], hasharray[..], chains, out)
      ensures lru != [] && lru[0] == bp
      ensures forall i :: 0 <= i < buf.Length ==> buf[i] == old(buf[i]).(lruf := buf[i].lruf, lrub := buf[i].lrub)
      ensures exists k: nat :: k < |old(lru)| && old(lru)[k] == bp && lru == [bp] + Cut(old(lru), k)
    {
      hide HashOK, LruOK, Cut, SameChains;
      ghost var b, l := buf[..], lru;
      LruMember(b, firstbuf, lastbuf, l, bp);
      ghost var k: nat :| k < |l| && l[k] == bp;
      LruLinks(b, firstbuf, lastbuf, l, k);
      if bp != firstbuf {
        MoveKeepsLru(b, firstbuf, lastbuf, l, k);
        MoveFront(bp, l, k);
        lru := [bp] + Cut(l, k);
        forall i | 0 <= i < buf.Length ensures buf[i] == b[i].(lruf := buf[i].lruf, lrub := buf[i].lrub) {
          MovedAt(b, l, k, i);
          assert buf[i] == buf[..][i];
        }
        ChainsKeepHash(b, buf[..], hasharray[..], chains, out);
      } else {
        CutFirst(l);
      }
    }

    /** The pointer assignments of LRUupdate. */
    method MoveFront(bp: nat, ghost l: seq<nat>, ghost k: nat)
      requires 0 < k < |l| && l[k] == bp && NoDup(l) && firstbuf == l[0] && lastbuf == l[|l| - 1]
      requires (forall j :: 0 <= j < |l| ==> l[j] < buf.Length)
      requires buf[bp].lruf == At(l, k + 1) && buf[bp].lrub == At(l, k - 1)
      modifies buf, this`firstbuf, this`lastbuf
      ensures buf[..] == Moved(old(buf[..]), l, k)
      ensures firstbuf == bp && lastbuf == if k == |l| - 1 then l[k - 1] else old(lastbuf)
    {
      ghost var b := buf[..];
      if bp == lastbuf {
        lastbuf := buf[bp].lrub;
      }
      if buf[bp].lrub != NULL {
        buf[buf[bp].lrub] := buf[buf[bp].lrub].(lruf := buf[bp].lruf);
      }
      ghost var c := b[l[k - 1] := b[l[k - 1]].(lruf := At(l, k + 1))];
      assert buf[..] == c;
      if buf[bp].lruf != NULL {
        buf[buf[bp].lruf] := buf[buf[bp].lruf].(lrub := buf[bp].lrub);
      }
      ghost var d := if k + 1 < |l| then c[l[k + 1] := c[l[k + 1]].(lrub := l[k - 1])] else c;
      assert buf[..] == d;
      buf[bp] := buf[bp].(lrub := NULL, lruf := firstbuf);
      ghost var e := d[bp := d[bp].(lrub := NULL, lruf := l[0])];
      assert buf[..] == e;
      buf[firstbuf] := buf[firstbuf].(lrub := bp);
      firstbuf := bp;
      assert buf[..] == Moved(b, l, k);
    }

    // ---------------------------------------------------------------------- sync

    /** build_sync_list: a container for every modified buffer, the last buffer first. */
    method BuildSyncList() returns (head: R.Container?, ghost l: seq<R.Container>)
      requires Valid() && NoneHeld(buf[..])
      modifies this`disk, buf
      ensures Valid() && Settled(old(buf[..]), buf[..])
      ensures R.IsList(R.LinksOf(l), head, l) && R.Distinct(l)
      ensures forall k :: 0 <= k < |l| ==> fresh(l[k]) && l[k].buf < buf.Length
      ensures forall i :: 0 <= i < buf.Length ==> buf[i].lock == Idle && (buf[i].modified ==> Listed(l, i))
    {
      hide CacheOK, HashOK, LruOK, LinksOK, R.IsList, R.LinksOf, R.Distinct, Listed;
      head, l := null, [];
      R.NoList();
      var i: nat := 0;
      while i < buf.Length
        invariant i <= buf.Length && Valid() && Settled(old(buf[..]), buf[..])
        invariant R.IsList(R.LinksOf(l), head, l) && R.Distinct(l)
        invariant forall k :: 0 <= k < |l| ==> fresh(l[k]) && l[k].buf < i
        invariant forall j :: 0 <= j < i ==> buf[j].lock == Idle && (buf[j].modified ==> Listed(l, j))
      {
        ghost var b := buf[..];
        WaitFor(i);
        BufferFacts(i);
        if !buf[i].notPresent && buf[i].modified {
          var c := new R.Container(i, head);
          R.NewHead(head, l, c);
          MoreListed(l, c);
          head, l := c, [c] + l;
        }
        i := i + 1;
      }
    }

    lemma {:induction false} BufferFacts(i: nat)
      requires Valid() && i < buf.Length
      ensures BufOK(buf[i]) && Agrees(buf[i], disk, view)
    {
      assert buf[..][i] == buf[i];
    }

    lemma {:induction false} Sizes()
      requires Valid()
      ensures space.Length == 256 && hasharray.Length > 0 && buf.Length > 0
    {}

    /** The block numbers of all buffers. */
    method BlockNumbers() returns (key: R.Keys)
      requires Valid()
      ensures |key| == buf.Length && forall i :: 0 <= i < |key| ==> key[i] == buf[i].bno < 0x1_0000_0000
    {
      hide CacheOK, LinksOK;
      key := [];
      while |key| < buf.Length
        invariant |key| <= buf.Length
        invariant forall i :: 0 <= i < |key| ==> key[i] == buf[i].bno < 0x1_0000_0000
        decreases buf.Length - |key|
      {
        BufferFacts(|key|);
        key := key + [buf[|key|].bno];
      }
    }

    /** buffer_write_start: the transfer of the buffer to its block begins. */
    method BufferWriteStart(bp: nat)
      requires Valid() && bp < buf.Length && !InFlight(buf[bp]) && Live(buf[bp]) && HasData(buf[bp])
      modifies buf
      ensures Valid() && buf[..] == old(buf[..])[bp := old(buf[bp]).(lock := Writing, notPresent := true)]
      ensures SameIds(old(buf[..]), buf[..])
    {
      hide CacheOK, HashOK, LruOK;
      ghost var b := buf[..];
      BufferFacts(bp);
      buf[bp] := buf[bp].(lock := Writing, notPresent := true);
      assert buf[..] == b[bp := buf[bp]];
      BufferChanged(b, disk, view, hasharray.Length, bp, buf[bp], disk, view);
      LinksKeepHash(b, buf[..], hasharray[..], chains);
      LinksKeepLru(b, buf[..], firstbuf, lastbuf, lru);
    }

    /** general_sync for all buffers.  The modified ones are listed, sorted by block number
        and written in that order; with `wait` it sleeps until all transfers are done. */
    method GeneralSync(wait: bool) returns (ghost started: seq<nat>)
      requires Valid() && NoneHeld(buf[..])
      modifies this`disk, buf, space
      ensures Valid() && SameIds(old(buf[..]), buf[..])
      ensures forall i :: 0 <= i < buf.Length ==> buf[i].lock != Held && (buf[i].lock == Idle ==> !buf[i].modified)
      ensures forall i :: 0 <= i < buf.Length && old(buf[i]).lock == Idle ==>
                if old(buf[i]).modified then i in started else buf[i] == old(buf[i])
      ensures forall k :: 0 <= k < |started| ==> started[k] < buf.Length && old(buf[..])[started[k]].modified
      ensures forall j, k :: 0 <= j < k < |started| ==> buf[started[j]].bno <= buf[started[k]].bno
      ensures wait ==> forall i :: 0 <= i < buf.Length ==> buf[i].lock == Idle && !buf[i].modified
    {
      hide CacheOK, HashOK, LruOK, LinksOK, R.IsList, R.LinksOf, R.Distinct, Listed;
      ghost var l;
      var head;
      head, l := BuildSyncList();
      ghost var b := buf[..];
      var key := BlockNumbers();
      ghost var out;
      Sizes();
      head, out := R.SortByBlock(head, key, space, l);
      SortedListed(l, out);
      started := WriteList(head, out, key);
      if wait {
        var i: nat := 0;
        while i < buf.Length
          invariant i <= buf.Length && Valid() && SameIds(b, buf[..])
          invariant forall j :: 0 <= j < buf.Length ==> buf[j].lock != Held && (buf[j].lock == Idle ==> !buf[j].modified)
          invariant forall j :: 0 <= j < buf.Length && !b[j].modified ==> buf[j] == b[j]
          invariant forall j :: 0 <= j < i ==> buf[j].lock == Idle
        {
          WaitFor(i);
          i := i + 1;
        }
      }
    }

    /** The writing loop of general_sync. */
    method WriteList(head: R.Container?, ghost out: seq<R.Container>, ghost key: R.Keys) returns (ghost started: seq<nat>)
      requires Valid() && R.IsList(R.LinksOf(out), head, out)
      requires forall k :: 0 <= k < |out| ==> out[k].buf < buf.Length
      requires forall i :: 0 <= i < buf.Length ==> buf[i].lock == Idle && (buf[i].modified ==> Listed(out, i))
      requires |key| == buf.Length && forall i :: 0 <= i < |key| ==> key[i] == buf[i].bno
      requires forall j, k :: 0 <= j < k < |out| ==> R.KeyOf(key, out[j]) <= R.KeyOf(key, out[k])
      modifies this`disk, buf
      ensures Valid() && SameIds(old(buf[..]), buf[..])
      ensures forall i :: 0 <= i < buf.Length ==> Written(old(buf[i]), buf[i], i in started)
      ensures forall k :: 0 <= k < |started| ==> started[k] < buf.Length && old(buf[..])[started[k]].modified
      ensures forall j, k :: 0 <= j < k < |started| ==> buf[started[j]].bno <= buf[started[k]].bno
    {
      hide CacheOK, HashOK, LruOK, LinksOK, R.IsList, R.LinksOf, Listed, StartedBefore;
      NoStart(key, out);
      started := [];
      var bp := head;
      ghost var n: nat := 0;
      assert out[0..] == out;
      while bp != null
        invariant n <= |out| && R.IsList(R.LinksOf(out), bp, out[n..])
        invariant Valid() && SameIds(old(buf[..]), buf[..])
        invariant forall i :: 0 <= i < buf.Length ==>
                    Written(old(buf[i]), buf[i], i in started) || (buf[i] == old(buf[i]) && Listed(out[n..], i))
        invariant forall k :: 0 <= k < |started| ==> started[k] < buf.Length && old(buf[..])[started[k]].modified
        invariant StartedBefore(started, key, out, n)
        decreases |out| - n
      {
        R.FirstOf(bp, out, n);
        ghost var was := buf[..];
        var i := bp.buf;
        assert i == out[n].buf;
        WaitFor(i);
        ghost var mid := buf[..];
        BufferFacts(i);
        var write := !buf[i].notPresent && buf[i].modified;
        if write {
          BufferWriteStart(i);
        }
        Turn(old(buf[..]), was, mid, buf[..], out, n, i, started, write);
        if write {
          MoreStarted(started, key, out, n);
          started := started + [i];
        } else {
          NotStarted(started, key, out, n);
        }
        bp := bp.next;
        n := n + 1;
      }
      R.NoneLeftOf(out, n);
      assert out[n..] == [];
      StartedOrder(started, key, out, n);
    }

    // -------------------------------------------------------------------- claim

    /** buffer_find without locking: the buffer that holds the block, if one does. */
    method BufferFind(dev: nat, bno: nat) returns (bp: int)
      requires Valid() && dev != NODEV
      ensures bp == NULL || 0 <= bp < buf.Length
      ensures bp == NULL <==> !Resident(buf[..], (dev, bno))
      ensures bp != NULL ==> Live(buf[bp]) && PlaceOf(buf[bp]) == (dev, bno)
    {
      hide CacheOK, HashOK, LruOK, LinksOK, HashOf, Resident, Cache.Valid;
      Sizes();
      var h := HashOf((dev, bno), hasharray.Length);
      FindFacts(h, (dev, bno));
      ghost var l := chains[h];
      ghost var k: nat := 0;
      bp := hasharray[h];
      while bp != NULL
        invariant k <= |l| && bp == At(l, k)
        invariant forall j :: 0 <= j < k ==> PlaceOf(buf[l[j]]) != (dev, bno)
        decreases |l| - k
      {
        NextInChain(h, k);
        if buf[bp].bno == bno && buf[bp].dev == dev {
          Found(buf[..], (dev, bno), bp);
          return;
        }
        bp := buf[bp].hash;
        k := k + 1;
      }
      NotFound(buf[..], (dev, bno), l);
    }

    lemma {:induction false} NextInChain(h: nat, k: nat)
      requires Valid() && h < hasharray.Length && h < |chains| && k < |chains[h]|
      ensures chains[h][k] < buf.Length && buf[chains[h][k]].hash == At(chains[h], k + 1)
    {
      hide CacheOK, HashOK, LruOK;
      ChainFacts(buf[..], hasharray[..], chains, h);
      assert buf[..][chains[h][k]].hash == At(chains[h], k + 1);
    }

    lemma {:induction false} FindFacts(h: nat, a: Place)
      requires Valid() && h == HashOf(a, hasharray.Length)
      ensures |chains| == hasharray.Length && hasharray[h] == At(chains[h], 0)
      ensures forall k :: 0 <= k < |chains[h]| ==> chains[h][k] < buf.Length
      ensures forall i :: 0 <= i < buf.Length && Live(buf[i]) && PlaceOf(buf[i]) == a ==> i in chains[h]
    {
      hide CacheOK, HashOK, LruOK;
      ChainFacts(buf[..], hasharray[..], chains, h);
      InItsChain(buf[..], disk, view, hasharray[..], chains, a);
      forall i | 0 <= i < buf.Length && Live(buf[i]) && PlaceOf(buf[i]) == a ensures i in chains[h] {
        assert buf[..][i] == buf[i];
      }
    }

    /** bclaim once no buffer holds the block: take over a clean idle buffer. */
    method TakeOver(bp: nat, dev: nat, bno: nat, lock: Lock)
      requires Valid() && bp < buf.Length && buf[bp].lock == Idle && !buf[bp].modified
      requires dev != NODEV && bno < 0x1_0000_0000 && (lock == Held || lock == Reading)
      modifies buf, hasharray, this`firstbuf, this`lastbuf, this`lru, this`chains
      ensures LinksOK() && lru != [] && lru[0] == bp
      ensures !HeldBesides(old(buf[..]), (dev, bno), bp) ==> Valid()
      ensures HeldBesides(old(buf[..]), (dev, bno), bp) ==> !Unique(buf[..])
      ensures PlaceOf(buf[bp]) == (dev, bno) && buf[bp].lock == lock && buf[bp].notPresent && !buf[bp].modified
      ensures buf[bp].data == old(buf[bp]).data
      ensures forall i :: 0 <= i < buf.Length && i != bp ==> SameButLinks(old(buf[i]), buf[i])
    {
      hide CacheOK, HashOK, LruOK, Unique, Hashed;
      ghost var b := buf[..];
      HashDelete(bp);
      LinksKeepList(b, buf[..], firstbuf, lastbuf, lru);
      LruUpdate(bp, {bp});
      ghost var c := buf[..];
      var h := HashOf((dev, bno), hasharray.Length);
      buf[bp] := buf[bp].(dev := dev, bno := bno, hashval := h, modified := false, notPresent := true, lock := lock);
      ghost var y := buf[bp];
      assert buf[..] == c[bp := y];
      OutMayChange(c, hasharray[..], chains, bp, y);
      LinksKeepList(c, buf[..], firstbuf, lastbuf, lru);
      ghost var d := buf[..];
      HashInsert(bp, {bp});
      assert {bp} - {bp} == {};
      LinksKeepList(d, buf[..], firstbuf, lastbuf, lru);
      forall i | 0 <= i < buf.Length && i != bp ensures SameButLinks(b[i], buf[i]) {
        assert d[i] == c[i];
      }
      if HeldBesides(b, (dev, bno), bp) {
        TwoHolders(b, buf[..], bp, (dev, bno));
      } else {
        MovedOver(b, buf[..], disk, view, hasharray.Length, bp);
      }
    }

    /** bclaim when a buffer holds the block: lock it and make it the most recent. */
    method TakeFound(bp: nat)
      requires Valid() && bp < buf.Length && buf[bp].lock == Idle && Live(buf[bp])
      modifies buf, this`firstbuf, this`lastbuf, this`lru
      ensures Valid() && lru != [] && lru[0] == bp
      ensures SameButLinks(old(buf[bp]).(lock := Held), buf[bp])
      ensures forall i :: 0 <= i < buf.Length && i != bp ==> SameButLinks(old(buf[i]), buf[i])
    {
      hide CacheOK, HashOK, LruOK;
      ghost var b := buf[..];
      BufferFacts(bp);
      buf[bp] := buf[bp].(lock := Held);
      ghost var c := buf[..];
      assert c == b[bp := buf[bp]];
      BufferChanged(b, disk, view, hasharray.Length, bp, buf[bp], disk, view);
      LinksKeepHash(b, c, hasharray[..], chains);
      LinksKeepLru(b, c, firstbuf, lastbuf, lru);
      LruUpdate(bp, {});
      LinksIgnored(c, buf[..], disk, view, hasharray.Length);
    }

    /** bclaim by a process that holds no other buffer.  A resident block is found with its
        data; otherwise the least recently used clean buffer is taken over, after all modified
        buffers have been queued for writing if one was in the way. */
    method BClaim(dev: nat, bno: nat) returns (bp: nat)
      requires Valid() && NoneHeld(buf[..]) && dev != NODEV && bno < 0x1_0000_0000
      modifies this`disk, this`firstbuf, this`lastbuf, this`lru, this`chains, buf, hasharray, space
      ensures Valid() && OnlyHeld(buf[..], bp) && buf[bp].lock == Held && PlaceOf(buf[bp]) == (dev, bno)
      ensures lru != [] && lru[0] == bp
      ensures buf[bp].notPresent <==> !Resident(old(buf[..]), (dev, bno))
      ensures buf[bp].notPresent ==> !buf[bp].modified
      ensures !Resident(old(buf[..]), (dev, bno)) && Calm(old(buf[..])) ==> Quietly(old(buf[..]), buf[..], bp)
      ensures !Resident(old(buf[..]), (dev, bno)) && HasClean(old(buf[..])) ==> Oldest(old(buf[..]), old(lru), bp)
    {
      hide CacheOK, HashOK, LruOK, LinksOK, Calm, Quietly, HasClean, Oldest;
      var found := BufferFind(dev, bno);
      if found == NULL {
        bp := ClaimNew(dev, bno, Held);
      } else {
        WaitFor(found);
        BufferFacts(found);
        TakeFound(found);
        bp := found;
      }
    }

    /** The rest of bclaim, when the block is not resident. */
    method ClaimNew(dev: nat, bno: nat, lock: Lock) returns (bp: nat)
      requires Valid() && NoneHeld(buf[..]) && dev != NODEV && bno < 0x1_0000_0000 && !Resident(buf[..], (dev, bno))
      requires lock == Held || lock == Reading
      modifies this`disk, this`firstbuf, this`lastbuf, this`lru, this`chains, buf, hasharray, space
      ensures Valid() && Taken(bp, dev, bno, lock)
      ensures Calm(old(buf[..])) ==> Quietly(old(buf[..]), buf[..], bp)
      ensures HasClean(old(buf[..])) ==> Oldest(old(buf[..]), old(lru), bp)
    {
      hide CacheOK, HashOK, LruOK, LinksOK, Taken, SomeNotWaiting, Calm, Quietly, HasClean, Oldest;
      ghost var clean, b0 := NULL, buf[..];
      while true
        invariant Valid() && NoneHeld(buf[..]) && !Resident(buf[..], (dev, bno))
        invariant clean == NULL || IsClean(buf[..], clean)
        invariant Calm(b0) ==> buf[..] == b0
        invariant HasClean(b0) ==> buf[..] == b0 && lru == old(lru)
        decreases if clean == NULL then 1 else 0
      {
        var taken := Scan(dev, bno, lock, clean);
        if taken != NULL {
          TakenIndex(taken, dev, bno, lock);
          return taken;
        }
        ghost var was := buf[..];
        Interrupts();
        StillNotWaiting(was, buf[..]);
        var woken;
        clean, woken := SleepForBuffer();
      }
    }

    lemma TakenIndex(bp: int, dev: nat, bno: nat, lock: Lock)
      requires Taken(bp, dev, bno, lock)
      ensures 0 <= bp < buf.Length
    {}

    /** The scan of bclaim from the least recently used buffer on. */
    method Scan(dev: nat, bno: nat, lock: Lock, ghost clean: int) returns (bp: int)
      requires Valid() && NoneHeld(buf[..]) && dev != NODEV && bno < 0x1_0000_0000 && !Resident(buf[..], (dev, bno))
      requires (clean == NULL || IsClean(buf[..], clean)) && (lock == Held || lock == Reading)
      modifies this`disk, this`firstbuf, this`lastbuf, this`lru, this`chains, buf, hasharray, space
      ensures Valid()
      ensures bp == NULL ==> NoneHeld(buf[..]) && !Resident(buf[..], (dev, bno)) && SomeNotWaiting(buf[..]) && clean == NULL
      ensures bp != NULL ==> Taken(bp, dev, bno, lock)
      ensures Calm(old(buf[..])) ==> bp != NULL && Quietly(old(buf[..]), buf[..], bp)
      ensures HasClean(old(buf[..])) ==> bp != NULL
      ensures bp != NULL ==> Oldest(old(buf[..]), old(lru), bp)
    {
      hide CacheOK, HashOK, LruOK, LinksOK, NoneHeld, Resident, SomeNotWaiting, IsClean, Taken, Quietly, Calm, HasClean, Oldest;
      hide CleanStay, NoneClean;
      ghost var b0 := buf[..];
      LruEnd();
      bp := lastbuf;
      ghost var l := lru;
      ghost var p := |lru| - 1;
      CleanListed(clean);
      NoneBehind(b0, l);
      while bp != NULL
        invariant Valid() && NoneHeld(buf[..]) && !Resident(buf[..], (dev, bno))
        invariant lru == l && -1 <= p < |l| && bp == At(l, p)
        invariant clean == NULL || (IsClean(buf[..], clean) && clean in l[..p + 1])
        invariant p == |l| - 1 || SomeNotWaiting(buf[..])
        invariant Calm(b0) ==> buf[..] == b0 && NoneIdle(b0, l, p)
        invariant CleanStay(b0, buf[..]) && NoneClean(b0, l, p)
        decreases p
      {
        LruBack(p);
        var q := bp;
        ghost var now := buf[..];
        Behind(b0, now, l, p);
        if buf[q].lock != Idle {
          Skipped(q, clean);
        } else if buf[q].modified {
          CalmMeans(b0, q, buf[..]);
          StartWrites(q, clean, (dev, bno));
          CleanStays(b0, now, buf[..]);
        } else {
          TakeClean(q, dev, bno, lock);
          return q;
        }
        LruBack(p);
        assert l[..p + 1] == l[..p] + [l[p]];
        bp := buf[q].lrub;
        p := p - 1;
      }
      if Calm(b0) {
        CalmScan(b0);
      }
      CleanFound(b0);
    }

    /** A scan to the front of the list has not missed a clean idle buffer. */
    lemma {:induction false} CleanFound(b: Bufs)
      requires Valid() && |b| == buf.Length && NoneClean(b, lru, -1)
      ensures !HasClean(b)
    {
      hide CacheOK, HashOK;
      forall i | 0 <= i < |b| ensures !IsClean(b, i) {
        LruMember(buf[..], firstbuf, lastbuf, lru, i);
        var k :| 0 <= k < |lru| && lru[k] == i;
      }
    }

    /** A calm cache has an idle buffer, which the scan cannot have missed. */
    lemma {:induction false} CalmScan(b: Bufs)
      requires Valid() && buf[..] == b && NoneIdle(b, lru, -1)
      ensures !Calm(b)
    {
      hide CacheOK, HashOK;
      forall i | 0 <= i < |b| ensures b[i].lock != Idle {
        LruMember(b, firstbuf, lastbuf, lru, i);
        var k :| 0 <= k < |lru| && lru[k] == i;
      }
    }

    /** The end of the scan: the buffer is clean and idle. */
    method TakeClean(q: nat, dev: nat, bno: nat, lock: Lock)
      requires Valid() && NoneHeld(buf[..]) && dev != NODEV && bno < 0x1_0000_0000 && !Resident(buf[..], (dev, bno))
      requires q < buf.Length && buf[q].lock == Idle && !buf[q].modified && (lock == Held || lock == Reading)
      modifies buf, hasharray, this`firstbuf, this`lastbuf, this`lru, this`chains
      ensures Valid() && Taken(q, dev, bno, lock) && Quietly(old(buf[..]), buf[..], q)
    {
      hide CacheOK, HashOK, LruOK, LinksOK, NoneHeld, Resident, HeldBesides, Unique;
      ghost var was := buf[..];
      NotElsewhere((dev, bno), q);
      TakeOver(q, dev, bno, lock);
      NowHeld(was, buf[..], q);
    }

    /** The general_sync of the scan: what is clean stays clean and nothing waits to be written. */
    method StartWrites(ghost q: nat, ghost clean: int, ghost a: Place)
      requires Valid() && NoneHeld(buf[..]) && !Resident(buf[..], a) && q < buf.Length
      requires buf[q].lock == Idle && buf[q].modified
      modifies this`disk, buf, space
      ensures Valid() && NoneHeld(buf[..]) && !Resident(buf[..], a) && SomeNotWaiting(buf[..])
      ensures IsClean(old(buf[..]), clean) ==> IsClean(buf[..], clean) && clean != q
      ensures CleanStay(old(buf[..]), buf[..])
    {
      hide CacheOK, HashOK, LruOK, LinksOK, NoneHeld, Resident, SomeNotWaiting, IsClean;
      ghost var was := buf[..];
      ghost var started := GeneralSync(false);
      Flushed(was, buf[..], q, clean, a);
    }

    /** The buffer is the caller's, first in the list, and has yet to be filled. */
    ghost predicate Taken(bp: int, dev: nat, bno: nat, lock: Lock)
      reads this, buf
    {
      && 0 <= bp < buf.Length && OnlyHeld(buf[..], bp) && PlaceOf(buf[bp]) == (dev, bno) && lru != [] && lru[0] == bp
      && buf[bp].notPresent && !buf[bp].modified && buf[bp].lock == lock
    }

    lemma {:induction false} CleanListed(clean: int)
      requires Valid() && (clean == NULL || IsClean(buf[..], clean))
      ensures clean == NULL || clean in lru[..|lru|]
    {
      hide CacheOK, HashOK;
      assert lru[..|lru|] == lru;
    }

    lemma {:induction false} Skipped(q: nat, clean: int)
      requires q < buf.Length && buf[q].lock != Idle
      ensures SomeNotWaiting(buf[..]) && (IsClean(buf[..], clean) ==> clean != q)
    {
      assert buf[..][q] == buf[q];
    }

    lemma {:induction false} NotElsewhere(a: Place, q: nat)
      requires !Resident(buf[..], a)
      ensures !HeldBesides(buf[..], a, q)
    {}

    /** bclaim found every buffer locked or modified and sleeps until one is unlocked.  The end of
        a transfer does that; when none is in flight any more, because the last one ended after
        the scan, the process sleeps on until some other process unlocks a buffer. */
    method SleepForBuffer() returns (ghost clean: int, woken: bool)
      requires Valid() && NoneHeld(buf[..]) && SomeNotWaiting(buf[..])
      modifies this`disk, buf
      ensures Valid() && Settled(old(buf[..]), buf[..]) && IsClean(buf[..], clean)
      ensures woken <==> SomeInFlight(old(buf[..]))
      ensures !woken ==> buf[..] == old(buf[..]) && disk == old(disk)
    {
      hide CacheOK, HashOK, LruOK, LinksOK;
      ghost var b := buf[..];
      var j: nat := 0;
      while j < buf.Length && !InFlight(buf[j])
        invariant j <= buf.Length && forall i :: 0 <= i < j ==> !InFlight(b[i])
      {
        j := j + 1;
      }
      ghost var i: nat :| i < buf.Length && !(buf[..][i].lock == Idle && buf[..][i].modified);
      clean, woken := i, false;
      if j < buf.Length {
        assert InFlight(b[j]);
        WaitFor(j);
        clean, woken := j, true;
      }
    }

    lemma {:induction false} StillNotWaiting(b: Bufs, c: Bufs)
      requires SomeNotWaiting(b) && Settled(b, c)
      ensures SomeNotWaiting(c)
    {
      var i :| 0 <= i < |b| && !(b[i].lock == Idle && b[i].modified);
      assert !(c[i].lock == Idle && c[i].modified);
    }

    lemma {:induction false} LruEnd()
      requires Valid()
      ensures lru != [] && lastbuf == At(lru, |lru| - 1)
    {
      hide CacheOK, HashOK;
      assert buf[..][0] == buf[0] && 0 in lru;
    }

    lemma {:induction false} LruBack(k: int)
      requires Valid() && 0 <= k < |lru|
      ensures lru[k] < buf.Length && buf[lru[k]].lrub == At(lru, k - 1)
    {
      hide CacheOK, HashOK;
      assert buf[..][lru[k]].lrub == At(lru, k - 1);
    }

    // ------------------------------------------------------- read, fill, write, release

    /** One buffer gets new contents or flags; links and the other buffers stay. */
    method SetBuffer(bp: nat, y: Buf, ghost disk0: Store, ghost view0: Store)
      requires Valid0(disk0, view0) && bp < buf.Length && BufOK(y) && Agrees(y, disk, view) && SameId(buf[bp], y) && Live(y)
      requires forall a :: a != PlaceOf(y) ==> Lookup(disk, a) == Lookup(disk0, a) && Lookup(view, a) == Lookup(view0, a)
      modifies buf
      ensures Valid() && buf[..] == old(buf[..])[bp := y]
    {
      hide CacheOK, HashOK, LruOK;
      ghost var b := buf[..];
      BufferChanged(b, disk0, view0, hasharray.Length, bp, y, disk, view);
      buf[bp] := y;
      assert buf[..] == b[bp := y];
      LinksKeepHash(b, buf[..], hasharray[..], chains);
      LinksKeepLru(b, buf[..], firstbuf, lastbuf, lru);
    }

    /** Valid() with the disk and the view as they were. */
    ghost predicate Valid0(disk0: Store, view0: Store)
      reads this, buf, hasharray
    {
      LinksOK() && CacheOK(buf[..], disk0, view0, hasharray.Length)
    }

    /** bread: the caller gets the locked buffer with the block's current contents. */
    method BRead(dev: nat, bno: nat) returns (bp: nat)
      requires Valid() && NoneHeld(buf[..]) && dev != NODEV && bno < 0x1_0000_0000
      modifies this`disk, this`firstbuf, this`lastbuf, this`lru, this`chains, buf, hasharray, space
      ensures Valid() && OnlyHeld(buf[..], bp) && buf[bp].lock == Held && PlaceOf(buf[bp]) == (dev, bno)
      ensures !buf[bp].notPresent && buf[bp].data == Lookup(view, (dev, bno))
      ensures lru != [] && lru[0] == bp
    {
      hide CacheOK, HashOK, LruOK, LinksOK, Resident;
      bp := BClaim(dev, bno);
      BufferFacts(bp);
      if buf[bp].notPresent {
        ghost var b := buf[..];
        SetBuffer(bp, buf[bp].(data := Lookup(disk, (dev, bno)), notPresent := false), disk, view);
        StillOnly(b, buf[..], bp);
      }
    }

    /** bread without waiting: the block is looked up, and read ahead if it is not resident. */
    method BReadAhead(dev: nat, bno: nat) returns (ghost taken: nat)
      requires Valid() && NoneHeld(buf[..]) && dev != NODEV && bno < 0x1_0000_0000
      modifies this`disk, this`firstbuf, this`lastbuf, this`lru, this`chains, buf, hasharray, space
      ensures Valid() && NoneHeld(buf[..]) && Resident(buf[..], (dev, bno)) && lru != [] && PlaceOf(buf[..][lru[0]]) == (dev, bno)
      ensures taken < buf.Length && PlaceOf(buf[taken]) == (dev, bno)
      ensures !Resident(old(buf[..]), (dev, bno)) ==> buf[taken].lock == Reading && !buf[taken].modified
      ensures !Resident(old(buf[..]), (dev, bno)) && Calm(old(buf[..])) ==> Quietly(old(buf[..]), buf[..], taken)
    {
      hide CacheOK, HashOK, LruOK, Calm, Quietly;
      var found := BufferFind(dev, bno);
      var bp: int := found;
      if found != NULL {
        ghost var b := buf[..];
        LruUpdate(found, {});
        LinksIgnored(b, buf[..], disk, view, hasharray.Length);
      } else {
        bp := ClaimNew(dev, bno, Reading);
      }
      taken := bp;
      assert PlaceOf(buf[..][bp]) == (dev, bno) && Live(buf[..][bp]);
    }

    /** The holder stores into the buffer and marks it modified. */
    method Fill(bp: nat, data: Block)
      requires Valid() && bp < buf.Length && buf[bp].lock == Held
      modifies buf, this`view
      ensures Valid() && buf[..] == old(buf[..])[bp := old(buf[bp]).(data := data, modified := true)]
      ensures view == old(view)[PlaceOf(old(buf[bp])) := data]
    {
      hide CacheOK, HashOK, LruOK;
      BufferFacts(bp);
      ghost var v := view;
      view := view[PlaceOf(buf[bp]) := data];
      SetBuffer(bp, buf[bp].(data := data, modified := true), disk, v);
    }

    /** bwrite: synchronously the block is on the disk and the buffer still the caller's;
        otherwise the transfer has the buffer. */
    method BWrite(bp: nat, wait: bool)
      requires Valid() && OnlyHeld(buf[..], bp) && buf[bp].lock == Held && HasData(buf[bp])
      modifies buf, this`disk
      ensures Valid() && PlaceOf(buf[bp]) == old(PlaceOf(buf[bp])) && OnlyHeld(buf[..], bp)
      ensures wait ==> buf[bp].lock == Held && HasData(buf[bp]) && !buf[bp].modified
      ensures wait ==> Lookup(disk, PlaceOf(buf[bp])) == Lookup(view, PlaceOf(buf[bp]))
      ensures !wait ==> buf[bp].lock == Writing && disk == old(disk)
    {
      hide CacheOK, HashOK, LruOK;
      BufferFacts(bp);
      ghost var b := buf[..];
      if wait {
        ghost var d := disk;
        disk := disk[PlaceOf(buf[bp]) := buf[bp].data];
        SetBuffer(bp, buf[bp].(modified := false, notPresent := false), d, view);
        BufferFacts(bp);
      } else {
        BufferWriteStart(bp);
      }
      StillOnly(b, buf[..], bp);
    }

    /** brelease.  The buffer counts as present from now on, so a block that was claimed but
        never filled keeps the cache right only if it happens to hold the right contents. */
    method BRelease(bp: nat)
      requires Valid() && OnlyHeld(buf[..], bp) && buf[bp].lock == Held
      modifies buf
      ensures NoneHeld(buf[..]) && LinksOK()
      ensures Valid() <==> (HasData(old(buf[bp])) || old(buf[bp]).data == Lookup(view, old(PlaceOf(buf[bp]))))
      ensures buf[..] == old(buf[..])[bp := old(buf[bp]).(lock := Idle, notPresent := false)]
    {
      hide CacheOK, HashOK, LruOK;
      BufferFacts(bp);
      ghost var b := buf[..];
      buf[bp] := buf[bp].(lock := Idle, notPresent := false);
      assert buf[..] == b[bp := buf[bp]];
      LinksKeepHash(b, buf[..], hasharray[..], chains);
      LinksKeepLru(b, buf[..], firstbuf, lastbuf, lru);
      if HasData(b[bp]) || b[bp].data == Lookup(view, PlaceOf(b[bp])) {
        BufferChanged(b, disk, view, hasharray.Length, bp, buf[bp], disk, view);
      } else {
        WrongData(buf[..], disk, view, hasharray.Length, bp);
      }
    }

    /** bsync: afterwards the disk alone holds everything. */
    method BSync() returns (ghost started: seq<nat>)
      requires Valid() && NoneHeld(buf[..])
      modifies this`disk, buf, space
      ensures Valid() && NoneHeld(buf[..]) && forall a :: Lookup(disk, a) == Lookup(view, a)
      ensures forall i :: 0 <= i < buf.Length ==> buf[i].lock == Idle && !buf[i].modified
      ensures forall k :: 0 <= k < |started| ==> started[k] < buf.Length && old(buf[..])[started[k]].modified
      ensures forall j, k :: 0 <= j < k < |started| ==> buf[started[j]].bno <= buf[started[k]].bno
    {
      hide CacheOK, HashOK, LruOK, LinksOK, SameIds;
      started := GeneralSync(true);
      Sizes();
      ghost var b := buf[..];
      forall i | 0 <= i < |b| ensures b[i] == buf[i] {}
      AllClean(b, disk, view, hasharray.Length);
    }

    // ------------------------------------------------------------------------ start

    /** bufinit, over disks with some contents. */
    constructor (nbuf: nat, nhash: nat, contents: Store)
      requires nbuf >= 32 && nhash >= 32
      ensures Valid() && NoneHeld(buf[..]) && view == disk == contents && fresh(buf) && fresh(hasharray) && fresh(space)
      ensures buf.Length == nbuf && forall i :: 0 <= i < nbuf ==> Blank(buf[i])
    {
      hide HashOK, LruOK, CacheOK, UpTo, Repeat, NewBuf, Interval, Zeroes;
      buf := new Buf[nbuf](i => NewBuf(i, nbuf, nhash));
      hasharray := new int[nhash](i => NULL);
      space := new R.Container?[256](i => null);
      firstbuf, lastbuf, disk, view := 0, nbuf - 1, contents, contents;
      lru := UpTo(nbuf);
      chains := Repeat<seq<nat>>([], nhash);
      new;
      ghost var b := buf[..];
      NewBuffers(b, hasharray[..], nbuf, nhash);
      InsertAll();
      NothingYet(b, buf[..], contents, hasharray.Length);
      forall i | 0 <= i < nbuf ensures Blank(buf[i]) {
        assert buf[i] == b[i].(hash := buf[i].hash);
      }
    }

    /** The loop of bufinit: every buffer goes on the chain of its hash value. */
    method InsertAll()
      requires HashOK(buf[..], hasharray[..], chains, Interval(0, buf.Length)) && LruOK(buf[..], firstbuf, lastbuf, lru)
      modifies buf, hasharray, this`chains
      ensures HashOK(buf[..], hasharray[..], chains, {}) && LruOK(buf[..], firstbuf, lastbuf, lru)
      ensures forall j :: 0 <= j < buf.Length ==> buf[j] == old(buf[j]).(hash := buf[j].hash)
    {
      hide HashOK, LruOK, Interval;
      var i: nat := 0;
      while i < buf.Length
        invariant i <= buf.Length && HashOK(buf[..], hasharray[..], chains, Interval(i, buf.Length))
        invariant LruOK(buf[..], firstbuf, lastbuf, lru)
        invariant forall j :: 0 <= j < buf.Length ==> buf[j] == old(buf[j]).(hash := buf[j].hash)
      {
        ghost var b := buf[..];
        ghost var out := Interval(i, buf.Length);
        HashInsert(i, out);
        forall j | 0 <= j < buf.Length ensures buf[j] == b[j].(hash := buf[j].hash) {
          assert buf[j] == buf[..][j];
        }
        LinksKeepList(b, buf[..], firstbuf, lastbuf, lru);
        assert out - {i} == Interval(i + 1, buf.Length);
        i := i + 1;
      }
      assert Interval(i, buf.Length) == {};
    }
  }

  predicate Blank(x: Buf) {
    !Live(x) && x.lock == Idle && !x.modified && x.data == ZERO
  }

  function NewBuf(i: nat, nbuf: nat, nhash: nat): Buf
    requires nhash > 0
  {
    Buf(NODEV, 0, ZERO, false, false, Idle, i % nhash, NULL, if i + 1 < nbuf then i + 1 else NULL, i as int - 1)
  }

  function UpTo(n: nat): (l: seq<nat>)
    ensures |l| == n && forall i :: 0 <= i < n ==> l[i] == i
  {
    if n == 0 then [] else UpTo(n - 1) + [n - 1]
  }

  lemma {:induction false} NewHash(b: Bufs, ha: seq<int>, ch: seq<seq<nat>>, nhash: nat, out: set<nat>)
    requires nhash > 0 && |ha| == |ch| == nhash && forall h :: 0 <= h < nhash ==> ha[h] == NULL && ch[h] == []
    requires forall i :: 0 <= i < |b| ==> b[i].hashval < nhash && i in out
    ensures HashOK(b, ha, ch, out)
  {
    forall h | 0 <= h < |ha| ensures ChainIs(b, ha[h], ch[h], h) && NoneOf(ch[h], out) {
      assert ch[h] == [];
    }
  }

  lemma {:induction false} NewLru(b: Bufs, n: nat)
    requires |b| == n > 0
    requires forall i :: 0 <= i < n ==> b[i].lruf == (if i + 1 < n then i + 1 else NULL) && b[i].lrub == i - 1
    ensures LruOK(b, 0, n - 1, UpTo(n))
  {
    var l := UpTo(n);
    forall i | 0 <= i < n ensures i in l {
      assert l[i] == i;
    }
  }

  lemma {:induction false} NewBuffers(b: Bufs, ha: seq<int>, nbuf: nat, nhash: nat)
    requires nhash > 0 && |b| == nbuf > 0 && forall i :: 0 <= i < nbuf ==> b[i] == NewBuf(i, nbuf, nhash)
    requires |ha| == nhash && forall h :: 0 <= h < nhash ==> ha[h] == NULL
    ensures HashOK(b, ha, Repeat<seq<nat>>([], nhash), Interval(0, nbuf)) && LruOK(b, 0, nbuf - 1, UpTo(nbuf))
    ensures forall i :: 0 <= i < nbuf ==> Blank(b[i]) && BufOK(b[i])
  {
    NewHash(b, ha, Repeat<seq<nat>>([], nhash), nhash, Interval(0, nbuf));
    NewLru(b, nbuf);
  }

  lemma {:induction false} NothingYet(b: Bufs, c: Bufs, disk: Store, nhash: nat)
    requires nhash > 0 && |c| == |b| && forall i :: 0 <= i < |b| ==> !Live(b[i]) && BufOK(b[i])
    requires forall i :: 0 <= i < |b| ==> c[i] == b[i].(hash := c[i].hash)
    ensures CacheOK(c, disk, disk, nhash) && NoneHeld(c)
  {}

  lemma {:induction false} StillOnly(b: Bufs, c: Bufs, i: nat)
    requires OnlyHeld(b, i) && |c| == |b| && c == b[i := c[i]]
    ensures OnlyHeld(c, i)
  {}

  lemma {:induction false} WrongData(b: Bufs, disk: Store, view: Store, nhash: nat, i: nat)
    requires nhash > 0 && i < |b| && Live(b[i]) && HasData(b[i]) && b[i].data != Lookup(view, PlaceOf(b[i]))
    ensures !CacheOK(b, disk, view, nhash)
  {
    assert !Agrees(b[i], disk, view);
  }

  lemma {:induction false} AllClean(b: Bufs, disk: Store, view: Store, nhash: nat)
    requires nhash > 0 && CacheOK(b, disk, view, nhash) && forall i :: 0 <= i < |b| ==> !b[i].modified
    ensures forall a :: Lookup(disk, a) == Lookup(view, a)
  {
    forall a ensures Lookup(disk, a) == Lookup(view, a) {
      assert NoneModified(b, a);
    }
  }

  /** No process holds any other buffer. */
  ghost predicate OnlyHeld(b: Bufs, i: nat) {
    i < |b| && forall j :: 0 <= j < |b| && j != i ==> b[j].lock != Held
  }

  lemma {:induction false} Flushed(b: Bufs, c: Bufs, q: nat, clean: int, a: Place)
    requires SameIds(b, c) && |b| > 0 && q < |b| && b[q].lock == Idle && b[q].modified && !Resident(b, a)
    requires forall i :: 0 <= i < |b| ==> c[i].lock != Held && (c[i].lock == Idle ==> !c[i].modified)
    requires forall i :: 0 <= i < |b| && b[i].lock == Idle && !b[i].modified ==> c[i] == b[i]
    ensures NoneHeld(c) && !Resident(c, a) && SomeNotWaiting(c)
    ensures IsClean(b, clean) ==> IsClean(c, clean) && clean != q
    ensures CleanStay(b, c)
  {
    assert !(c[0].lock == Idle && c[0].modified);
    forall i | 0 <= i < |c| && Live(c[i]) ensures PlaceOf(c[i]) != a {
      assert SameId(b[i], c[i]) && Live(b[i]);
    }
  }

  lemma {:induction false} NowHeld(b: Bufs, c: Bufs, q: nat)
    requires NoneHeld(b) && |c| == |b| && q < |b|
    requires forall i :: 0 <= i < |b| && i != q ==> SameButLinks(b[i], c[i])
    ensures OnlyHeld(c, q)
  {}

  ghost predicate IsClean(b: Bufs, i: int) {
    0 <= i < |b| && b[i].lock == Idle && !b[i].modified
  }

  ghost predicate SomeInFlight(b: Bufs) {
    exists i :: 0 <= i < |b| && InFlight(b[i])
  }

  /** Not every buffer is idle and modified. */
  ghost predicate SomeNotWaiting(b: Bufs) {
    exists i :: 0 <= i < |b| && !(b[i].lock == Idle && b[i].modified)
  }

  ghost predicate HasClean(b: Bufs) {
    exists i :: IsClean(b, i)
  }

  /** Every clean idle buffer of b is one of c still. */
  ghost predicate CleanStay(b: Bufs, c: Bufs) {
    |c| == |b| && forall i :: IsClean(b, i) ==> IsClean(c, i)
  }

  lemma CleanStays(a: Bufs, b: Bufs, c: Bufs)
    requires CleanStay(a, b) && CleanStay(b, c)
    ensures CleanStay(a, c)
  {}

  /** None of the buffers behind position p of the list was clean and idle. */
  ghost predicate NoneClean(b: Bufs, l: seq<nat>, p: int) {
    forall k :: 0 <= k < |l| && k > p ==> !IsClean(b, l[k])
  }

  /** Buffer bp was in the list, and no clean idle buffer had been used less recently. */
  ghost predicate Oldest(b: Bufs, l: seq<nat>, bp: int) {
    exists k :: 0 <= k < |l| && l[k] == bp && NoneClean(b, l, k)
  }

  lemma NoneBehind(b: Bufs, l: seq<nat>)
    ensures NoneClean(b, l, |l| - 1) && CleanStay(b, b)
  {}

  lemma {:induction false} Behind(b: Bufs, c: Bufs, l: seq<nat>, p: int)
    requires 0 <= p < |l| && NoneClean(b, l, p) && CleanStay(b, c) && l[p] < |c|
    ensures Oldest(b, l, l[p]) && (c[l[p]].lock != Idle || c[l[p]].modified ==> NoneClean(b, l, p - 1))
  {}

  /** Nothing waits to be written, and there is a free buffer. */
  ghost predicate Calm(b: Bufs) {
    (forall i :: 0 <= i < |b| ==> !b[i].modified) && exists i :: 0 <= i < |b| && b[i].lock == Idle
  }

  /** Idle buffer q has been given away, with its old data in it, and nothing else has happened. */
  ghost predicate Quietly(b: Bufs, c: Bufs, q: int) {
    && |c| == |b| && 0 <= q < |b| && b[q].lock == Idle && c[q].data == b[q].data
    && forall i :: 0 <= i < |b| && i != q ==> SameButLinks(b[i], c[i])
  }

  /** None of the buffers behind position p of the list is idle. */
  ghost predicate NoneIdle(b: Bufs, l: seq<nat>, p: int) {
    forall k :: 0 <= k < |l| && k > p ==> l[k] < |b| && b[l[k]].lock != Idle
  }

  lemma {:induction false} CalmMeans(b: Bufs, q: nat, c: Bufs)
    requires q < |c| && c[q].modified && (Calm(b) ==> c == b)
    ensures !Calm(b)
  {}

  /** Some buffer other than i holds the block. */
  ghost predicate HeldBesides(b: Bufs, a: Place, i: nat) {
    exists j :: 0 <= j < |b| && j != i && Live(b[j]) && PlaceOf(b[j]) == a
  }

  lemma {:induction false} TwoHolders(b: Bufs, c: Bufs, i: nat, a: Place)
    requires |c| == |b| && i < |b| && HeldBesides(b, a, i) && Live(c[i]) && PlaceOf(c[i]) == a
    requires forall j :: 0 <= j < |b| && j != i ==> SameButLinks(b[j], c[j])
    ensures !Unique(c)
  {
    var j :| 0 <= j < |b| && j != i && Live(b[j]) && PlaceOf(b[j]) == a;
    assert SameButLinks(b[j], c[j]);
    assert !(PlaceOf(c[i]) != PlaceOf(c[j]));
  }

  lemma {:induction false} MovedOver(b: Bufs, c: Bufs, disk: Store, view: Store, nhash: nat, i: nat)
    requires nhash > 0 && CacheOK(b, disk, view, nhash) && |c| == |b| && i < |b| && !b[i].modified
    requires !HeldBesides(b, PlaceOf(c[i]), i) && BufOK(c[i]) && Live(c[i]) && !HasData(c[i]) && !c[i].modified
    requires c[i].hashval == HashOf(PlaceOf(c[i]), nhash)
    requires forall j :: 0 <= j < |b| && j != i ==> SameButLinks(b[j], c[j])
    ensures CacheOK(c, disk, view, nhash)
  {
    BufferMoved(b, disk, view, nhash, i, c[i]);
    LinksIgnored(b[i := c[i]], c, disk, view, nhash);
  }

  /** The list only depends on its own links. */
  lemma {:induction false} LinksKeepList(b: Bufs, c: Bufs, first: int, last: int, l: seq<nat>)
    requires LruOK(b, first, last, l) && |c| == |b|
    requires forall i :: 0 <= i < |b| ==> c[i].lruf == b[i].lruf && c[i].lrub == b[i].lrub
    ensures LruOK(c, first, last, l)
  {}

  /** A buffer outside all chains may get another hash value. */
  lemma {:induction false} OutMayChange(b: Bufs, ha: seq<int>, ch: seq<seq<nat>>, i: nat, y: Buf)
    requires HashOK(b, ha, ch, {i}) && i < |b| && y.hashval < |ha|
    ensures HashOK(b[i := y], ha, ch, {i})
  {
    var c := b[i := y];
    forall h | 0 <= h < |ha| ensures ChainIs(c, ha[h], ch[h], h) && NoneOf(ch[h], {i}) {
      assert ChainIs(b, ha[h], ch[h], h) && NoneOf(ch[h], {i});
    }
  }

  /** Some buffer holds the block. */
  ghost predicate Resident(b: Bufs, a: Place) {
    exists i :: 0 <= i < |b| && Live(b[i]) && PlaceOf(b[i]) == a
  }

  lemma Found(b: Bufs, a: Place, i: nat)
    requires i < |b| && Live(b[i]) && PlaceOf(b[i]) == a
    ensures Resident(b, a)
  {}

  lemma {:induction false} NotFound(b: Bufs, a: Place, l: seq<nat>)
    requires forall j :: 0 <= j < |l| ==> l[j] < |b| && PlaceOf(b[l[j]]) != a
    requires forall i :: 0 <= i < |b| && Live(b[i]) && PlaceOf(b[i]) == a ==> i in l
    ensures !Resident(b, a)
  {}

  predicate SameButLinks(x: Buf, y: Buf) {
    y == x.(hash := y.hash, lruf := y.lruf, lrub := y.lrub)
  }

  lemma {:induction false} ChainFacts(b: Bufs, ha: seq<int>, ch: seq<seq<nat>>, h: nat)
    requires HashOK(b, ha, ch, {}) && h < |ha|
    ensures |ch| == |ha| && ha[h] == At(ch[h], 0)
    ensures forall k :: 0 <= k < |ch[h]| ==> ch[h][k] < |b| && b[ch[h][k]].hash == At(ch[h], k + 1)
  {
    assert ChainIs(b, ha[h], ch[h], h);
  }

  /** A buffer that holds the block is in the chain of the block's hash value. */
  lemma {:induction false} InItsChain(b: Bufs, disk: Store, view: Store, ha: seq<int>, ch: seq<seq<nat>>, a: Place)
    requires |ha| > 0 && HashOK(b, ha, ch, {}) && CacheOK(b, disk, view, |ha|)
    ensures forall i :: 0 <= i < |b| && Live(b[i]) && PlaceOf(b[i]) == a ==> i in ch[HashOf(a, |ha|)]
  {}

  /** What one turn of the writing loop does to every buffer. */
  lemma {:induction false} Turn(x: Bufs, w: Bufs, s: Bufs, y: Bufs, out: seq<R.Container>, n: nat, i: nat,
                                started: seq<nat>, write: bool)
    requires |x| == |w| == |s| == |y| && n < |out| && i == out[n].buf < |x| && Settled(w, s) && SameIds(x, w)
    requires forall j :: 0 <= j < |x| ==> x[j].lock == Idle
    requires forall j :: 0 <= j < |x| ==> Written(x[j], w[j], j in started) || (w[j] == x[j] && Listed(out[n..], j))
    requires s[i].lock == Idle && BufOK(s[i]) && write == (!s[i].notPresent && s[i].modified)
    requires y == if write then s[i := s[i].(lock := Writing, notPresent := true)] else s
    ensures SameIds(x, y) && (write ==> x[i].modified)
    ensures forall j :: 0 <= j < |x| ==>
              Written(x[j], y[j], j in if write then started + [i] else started)
              || (y[j] == x[j] && Listed(out[n + 1..], j))
  {
    hide Listed;
    forall j | 0 <= j < |x| ensures SameId(x[j], y[j]) {
      assert SameId(x[j], w[j]) && SameId(w[j], s[j]);
    }
    forall j | 0 <= j < |x| && j != i && Listed(out[n..], j) ensures Listed(out[n + 1..], j) {
      StillListed(out, n, j);
    }
  }

  lemma {:induction false} StillListed(out: seq<R.Container>, n: nat, j: nat)
    requires n < |out| && Listed(out[n..], j) && j != out[n].buf
    ensures Listed(out[n + 1..], j)
  {
    var k :| 0 <= k < |out| - n && out[n..][k].buf == j;
    assert out[n + 1..][k - 1] == out[n..][k];
  }

  lemma StartedOrder(started: seq<nat>, key: R.Keys, out: seq<R.Container>, n: nat)
    requires StartedBefore(started, key, out, n)
    ensures forall k :: 0 <= k < |started| ==> started[k] < |key|
    ensures forall j, k :: 0 <= j < k < |started| ==> key[started[j]] <= key[started[k]]
  {}

  lemma {:induction false} MoreStarted(started: seq<nat>, key: R.Keys, out: seq<R.Container>, n: nat)
    requires StartedBefore(started, key, out, n) && n < |out| && out[n].buf < |key|
    requires forall j, k :: 0 <= j < k < |out| ==> R.KeyOf(key, out[j]) <= R.KeyOf(key, out[k])
    ensures StartedBefore(started + [out[n].buf], key, out, n + 1)
  {
    assert R.KeyOf(key, out[n]) == key[out[n].buf];
  }

  lemma NoStart(key: R.Keys, out: seq<R.Container>)
    ensures StartedBefore([], key, out, 0) && forall j :: !Listed([], j)
  {}

  lemma NotStarted(started: seq<nat>, key: R.Keys, out: seq<R.Container>, n: nat)
    requires StartedBefore(started, key, out, n)
    ensures StartedBefore(started, key, out, n + 1)
  {}

  /** The buffer after its turn: untouched if it was clean, otherwise its write has begun. */
  predicate Written(x: Buf, y: Buf, started: bool) {
    if x.modified then started && y.lock != Held && (y.lock == Idle ==> !y.modified) else y == x
  }

  /** The started buffers ascend by block number, none above the next in the list. */
  ghost predicate StartedBefore(started: seq<nat>, key: R.Keys, out: seq<R.Container>, n: nat) {
    && (forall k :: 0 <= k < |started| ==> started[k] < |key|)
    && (forall j, k :: 0 <= j < k < |started| ==> key[started[j]] <= key[started[k]])
    && forall k, m :: 0 <= k < |started| && n <= m < |out| ==> key[started[k]] <= R.KeyOf(key, out[m])
  }

  lemma {:induction false} SortedListed(l: seq<R.Container>, out: seq<R.Container>)
    requires multiset(out) == multiset(l)
    ensures forall i :: Listed(l, i) ==> Listed(out, i)
    ensures forall k :: 0 <= k < |out| ==> out[k] in l
  {
    R.SameMembers(out, l);
    R.SameMembers(l, out);
    forall i | Listed(l, i) ensures Listed(out, i) {
      var k :| 0 <= k < |l| && l[k].buf == i;
      assert l[k] in out;
      var j :| 0 <= j < |out| && out[j] == l[k];
    }
  }

  /** Some container names buffer i. */
  ghost predicate Listed(l: seq<R.Container>, i: nat) {
    exists k :: 0 <= k < |l| && l[k].buf == i
  }

  lemma {:induction false} MoreListed(l: seq<R.Container>, c: R.Container)
    ensures Listed([c] + l, c.buf)
    ensures forall i :: Listed(l, i) ==> Listed([c] + l, i)
  {
    var m := [c] + l;
    assert m[0] == c;
    forall i | Listed(l, i) ensures Listed(m, i) {
      var k :| 0 <= k < |l| && l[k].buf == i;
      assert m[k + 1].buf == i;
    }
  }

  lemma {:induction false} HashRange(b: Bufs, ha: seq<int>, ch: seq<seq<nat>>, out: set<nat>, i: nat)
    requires HashOK(b, ha, ch, out) && i < |b|
    ensures |ch| == |ha| && b[i].hashval < |ha|
    ensures i !in out ==> i in ch[b[i].hashval]
    ensures ChainIs(b, ha[b[i].hashval], ch[b[i].hashval], b[i].hashval)
    ensures var l := ch[b[i].hashval];
            && NoDup(l) && ha[b[i].hashval] == At(l, 0)
            && forall j :: 0 <= j < |l| ==> l[j] < |b| && b[l[j]].hash == At(l, j + 1)
  {}

  lemma CutFirst(l: seq<nat>)
    requires l != []
    ensures l == [l[0]] + Cut(l, 0)
  {}

  lemma FirstOnly(l: seq<nat>, k: nat)
    requires NoDup(l) && k < |l| && l[0] == l[k]
    ensures k == 0
  {}

  lemma {:induction false} LruMember(b: Bufs, first: int, last: int, l: seq<nat>, i: nat)
    requires LruOK(b, first, last, l) && i < |b|
    ensures i in l
  {}

  lemma {:induction false} LruLinks(b: Bufs, first: int, last: int, l: seq<nat>, k: nat)
    requires LruOK(b, first, last, l) && k < |l|
    ensures first == l[0] && last == l[|l| - 1] && NoDup(l) && forall j :: 0 <= j < |l| ==> l[j] < |b|
    ensures b[l[k]].lruf == At(l, k + 1) && b[l[k]].lrub == At(l, k - 1)
    ensures l[k] == first <==> k == 0
    ensures l[k] == last <==> k == |l| - 1
  {}

  lemma {:induction false} ChainsKeepHash(b: Bufs, c: Bufs, ha: seq<int>, ch: seq<seq<nat>>, out: set<nat>)
    requires HashOK(b, ha, ch, out) && SameChains(b, c)
    ensures HashOK(c, ha, ch, out)
  {
    forall h | 0 <= h < |ha| ensures ChainIs(c, ha[h], ch[h], h) {
      assert ChainIs(b, ha[h], ch[h], h);
    }
  }
}
