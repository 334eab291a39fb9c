/**
  Record locks as values: byte ranges owned by processes, and the list operations of rlock.c.
 */
module RecordLock {
  import opened Wrappers

  // nextmeet, extract, remlock and addlock are functions on sequences here.  A list stands for
  // the chain rl_next of one inode; `free` is the number of records left in the free pool.
  // What a list means is the relation Holds, process p holds byte x with the given type, and
  // every result below is about that relation.

  type Proc = nat

  /** start..end inclusive; end == -1 means "to the end of the file, however long". */
  datatype Lock = Lock(start: nat, end: int, write: bool, owner: Proc)

  predicate Valid(k: Lock) {
    k.end == -1 || k.start <= k.end
  }

  predicate Covers(k: Lock, x: nat) {
    k.start <= x && (k.end == -1 || x <= k.end)
  }

  ghost predicate AllValid(s: seq<Lock>) {
    forall i :: 0 <= i < |s| ==> Valid(s[i])
  }

  /** The range test of nextmeet. */
  predicate Meets(b: Lock, k: Lock) {
    if k.end == -1 then
      b.end == -1 || b.end >= k.start
    else
      k.end >= b.start && (b.end == -1 || b.end >= k.start)
  }

  /** The conflict test of nextblock. */
  predicate Blocks(b: Lock, k: Lock) {
    Meets(b, k) && k.owner != b.owner && (k.write || b.write)
  }

  /** nextmeet's comparisons say exactly that the two ranges share a byte. */
  lemma {:induction false} MeetsIsOverlap(b: Lock, k: Lock)
    requires Valid(b) && Valid(k)
    ensures Meets(b, k) <==> exists x: nat :: Covers(b, x) && Covers(k, x)
  {
    var m := if b.start < k.start then k.start else b.start;
    if Meets(b, k) {
      assert Covers(b, m) && Covers(k, m);
    }
  }

  /** Process p holds byte x with type w (true = write) through some lock of s. */
  ghost predicate Holds(s: seq<Lock>, p: Proc, x: nat, w: bool) {
    exists i :: 0 <= i < |s| && Has(s[i], p, x, w)
  }

  predicate Has(k: Lock, p: Proc, x: nat, w: bool) {
    k.owner == p && k.write == w && Covers(k, x)
  }

  lemma {:induction false} HoldsConcat(s: seq<Lock>, t: seq<Lock>, p: Proc, x: nat, w: bool)
    ensures Holds(s + t, p, x, w) <==> Holds(s, p, x, w) || Holds(t, p, x, w)
  {
    if Holds(s, p, x, w) {
      var i :| 0 <= i < |s| && Has(s[i], p, x, w);
      assert (s + t)[i] == s[i];
    }
    if Holds(t, p, x, w) {
      var i :| 0 <= i < |t| && Has(t[i], p, x, w);
      assert (s + t)[|s| + i] == t[i];
    }
  }

  lemma {:induction false} HoldsCons(h: Lock, t: seq<Lock>, p: Proc, x: nat, w: bool)
    ensures Holds([h] + t, p, x, w) <==> Has(h, p, x, w) || Holds(t, p, x, w)
  {
    HoldsConcat([h], t, p, x, w);
    assert [h][0] == h;
  }

  // ------------------------------------------------------------- struct flock

  datatype LockKind = ReadLock | WriteLock | Unlock

  /** The range rlock makes of l_len and the absolute start; None is EINVAL. */
  function ToRange(base: int, len: int): (r: Option<(nat, int)>)
    ensures r.Some? ==> r.value.1 == -1 || r.value.0 <= r.value.1
  {
    var start := if len < 0 then base + len else base;
    var end := if len > 0 then base + len - 1 else if len == 0 then -1 else base - 1;
    if start < 0 || end < -1 || (end != -1 && start > end) then None else Some((start, end))
  }

  /** The bytes section 6.5.2 of IEEE Std 1003.1-1990 says a request is about. */
  predicate Requested(base: int, len: int, x: int) {
    if len > 0 then base <= x < base + len
    else if len < 0 then base + len <= x < base
    else base <= x
  }

  /** rlock refuses a range exactly when it asks for a byte before the file, and otherwise
      takes exactly the bytes asked for. */
  lemma {:induction false} ToRangeExact(base: int, len: int, x: nat)
    ensures ToRange(base, len).None? <==> exists b :: b < 0 && Requested(base, len, b)
    ensures ToRange(base, len).Some? ==>
              (InRange(ToRange(base, len).value, x) <==> Requested(base, len, x))
  {
    var first := if len < 0 then base + len else base;
    assert Requested(base, len, first);
  }

  predicate InRange(range: (nat, int), x: nat) {
    range.0 <= x && (range.1 == -1 || x <= range.1)
  }

  /** l_len as F_GETLK reports it for a blocking lock. */
  function ReportedLen(k: Lock): int {
    if k.end == -1 then 0 else k.end - k.start + 1
  }

  /** What F_GETLK reports, handed back to rlock, is the same range. */
  lemma ReportRoundTrip(k: Lock)
    requires Valid(k)
    ensures ToRange(k.start, ReportedLen(k)) == Some((k.start, k.end))
  {}

  // ---------------------------------------------------------------- remlock

  datatype Cut = Whole | Trim(rest: Lock) | Split(low: Lock, high: Lock)

  /** extract: what is left of `held` when the range of `cut` is taken out. */
  function Extract(held: Lock, cut: Lock): (r: Cut)
    requires Valid(held) && Valid(cut) && Meets(held, cut)
    ensures r.Trim? ==> Valid(r.rest)
    ensures r.Split? ==> Valid(r.low) && Valid(r.high)
  {
    if cut.start <= held.start then
      if cut.end == -1 || (held.end != -1 && cut.end >= held.end) then
        Whole
      else
        Trim(held.(start := cut.end + 1))
    else
      var low := held.(end := cut.start - 1);
      if cut.end == -1 || (held.end != -1 && cut.end >= held.end) then
        Trim(low)
      else
        Split(low, held.(start := cut.end + 1))
  }

  function Pieces(c: Cut): seq<Lock> {
    match c
    case Whole => []
    case Trim(rest) => [rest]
    case Split(low, high) => [low, high]
  }

  /** Records left in the pool after a cut: a whole lock gives one back, a split takes one. */
  function PoolAfter(c: Cut, free: nat): nat {
    match c
    case Whole => free + 1
    case Trim(_) => free
    case Split(_, _) => if free == 0 then 0 else free - 1
  }

  /** The pieces keep owner and type and cover exactly the bytes outside the cut. */
  lemma {:induction false} ExtractExact(held: Lock, cut: Lock, p: Proc, x: nat, w: bool)
    requires Valid(held) && Valid(cut) && Meets(held, cut)
    ensures Holds(Pieces(Extract(held, cut)), p, x, w) <==> Has(held, p, x, w) && !Covers(cut, x)
  {
    match Extract(held, cut)
    case Whole =>
    case Trim(rest) => assert Pieces(Trim(rest))[0] == rest;
    case Split(low, high) =>
      assert Pieces(Split(low, high))[0] == low && Pieces(Split(low, high))[1] == high;
  }

  datatype ListResult = ListResult(ok: bool, list: seq<Lock>, free: nat)

  predicate Own(h: Lock, k: Lock) {
    Meets(h, k) && h.owner == k.owner
  }

  /** remlock: take k's range out of each lock of k's owner; a split needs a free record. */
  function RemLock(s: seq<Lock>, k: Lock, free: nat): (r: ListResult)
    requires AllValid(s) && Valid(k)
    ensures AllValid(r.list)
    ensures |r.list| + r.free == |s| + free
  {
    if s == [] then ListResult(true, [], free)
    else if !Own(s[0], k) then
      Keep([s[0]], RemLock(s[1..], k, free))
    else
      var cut := Extract(s[0], k);
      if cut.Split? && free == 0 then
        ListResult(false, s, 0)
      else
        Keep(Pieces(cut), RemLock(s[1..], k, PoolAfter(cut, free)))
  }

  function Keep(front: seq<Lock>, r: ListResult): ListResult {
    r.(list := front + r.list)
  }

  lemma {:induction false} HoldsHead(s: seq<Lock>, p: Proc, x: nat, w: bool)
    requires s != []
    ensures Holds(s, p, x, w) <==> Has(s[0], p, x, w) || Holds(s[1..], p, x, w)
  {
    assert s == [s[0]] + s[1..];
    HoldsCons(s[0], s[1..], p, x, w);
  }

  /** A successful remlock clears exactly the owner's bytes in the range; a failed one
      clears nothing else and touches nobody else. */
  lemma {:induction false} RemLockExact(s: seq<Lock>, k: Lock, free: nat, p: Proc, x: nat, w: bool)
    requires AllValid(s) && Valid(k)
    ensures var r := RemLock(s, k, free);
            && (r.ok ==> (Holds(r.list, p, x, w) <==> Holds(s, p, x, w) && !(p == k.owner && Covers(k, x))))
            && (Holds(r.list, p, x, w) ==> Holds(s, p, x, w))
            && (Holds(s, p, x, w) && !(p == k.owner && Covers(k, x)) ==> Holds(r.list, p, x, w))
  {
    if s == [] {
    } else {
      HoldsHead(s, p, x, w);
      if !Own(s[0], k) {
        RemLockExact(s[1..], k, free, p, x, w);
        HoldsConcat([s[0]], RemLock(s[1..], k, free).list, p, x, w);
        assert [s[0]][0] == s[0];
        if s[0].owner == k.owner && Covers(s[0], x) && Covers(k, x) {
          MeetsIsOverlap(s[0], k);
        }
      } else {
        ExtractExact(s[0], k, p, x, w);
        var front := Pieces(Extract(s[0], k));
        var free' := PoolAfter(Extract(s[0], k), free);
        RemLockExact(s[1..], k, free', p, x, w);
        HoldsConcat(front, RemLock(s[1..], k, free').list, p, x, w);
        if Extract(s[0], k).Whole? {
          assert front + RemLock(s[1..], k, free').list == RemLock(s[1..], k, free').list;
        }
      }
    }
  }

  /** After a successful remlock none of the owner's locks meets the range. */
  lemma {:induction false} RemLockClears(s: seq<Lock>, k: Lock, free: nat, h: Lock)
    requires AllValid(s) && Valid(k) && RemLock(s, k, free).ok
    requires h in RemLock(s, k, free).list && h.owner == k.owner
    ensures !Meets(h, k)
  {
    MeetsIsOverlap(h, k);
    forall x: nat | Covers(h, x) ensures !Covers(k, x) {
      RemLockExact(s, k, free, h.owner, x, h.write);
      assert Has(h, h.owner, x, h.write);
    }
  }

  /** Locks of other owners survive remlock unchanged and in order. */
  lemma {:induction false} RemLockOthers(s: seq<Lock>, k: Lock, free: nat, b: Lock)
    requires AllValid(s) && Valid(k) && b.owner != k.owner
    ensures b in s <==> b in RemLock(s, k, free).list
  {
    if s == [] {
    } else if !Own(s[0], k) {
      RemLockOthers(s[1..], k, free, b);
    } else {
      RemLockOthers(s[1..], k, PoolAfter(Extract(s[0], k), free), b);
    }
  }

  // ---- when remlock fails

  /** h sticks out of k on both sides, so taking k out of h needs a second record. */
  predicate Straddles(h: Lock, k: Lock) {
    Own(h, k) && h.start < k.start && k.end != -1 && (h.end == -1 || k.end < h.end)
  }

  /** No byte is covered by two locks of one owner. */
  ghost predicate OwnDisjoint(s: seq<Lock>) {
    s == [] ||
    (&& (forall h :: h in s[1..] && h.owner == s[0].owner ==> !Meets(h, s[0]))
     && OwnDisjoint(s[1..]))
  }

  lemma {:induction false} RemLockNoOwn(s: seq<Lock>, k: Lock, free: nat)
    requires AllValid(s) && Valid(k)
    requires forall h :: h in s ==> !Own(h, k)
    ensures RemLock(s, k, free) == ListResult(true, s, free)
  {
    if s != [] {
      RemLockNoOwn(s[1..], k, free);
      assert s == [s[0]] + s[1..];
    }
  }

  /** With disjoint locks per owner, unlocking fails exactly when the range lies strictly
      inside one of the owner's locks and the pool is empty. */
  lemma {:induction false} RemLockFailsExactly(s: seq<Lock>, k: Lock, free: nat)
    requires AllValid(s) && Valid(k) && OwnDisjoint(s)
    ensures RemLock(s, k, free).ok <==> free > 0 || !exists h :: h in s && Straddles(h, k)
  {
    hide Meets;
    if s == [] {
    } else {
      assert s == [s[0]] + s[1..];
      assert forall h :: h in s <==> h == s[0] || h in s[1..];
      if !Own(s[0], k) {
        RemLockFailsExactly(s[1..], k, free);
      } else if Extract(s[0], k).Split? {
        assert s[0] in s && Straddles(s[0], k);
        forall h | h in s[1..] ensures !Own(h, k) {
          StraddlerIsAlone(s[0], k, h);
        }
        if free > 0 {
          RemLockNoOwn(s[1..], k, free - 1);
        }
      } else {
        var free' := PoolAfter(Extract(s[0], k), free);
        RemLockFailsExactly(s[1..], k, free');
        forall h | h in s[1..] ensures !Straddles(h, k) {
          StraddlerIsAlone(h, k, s[0]);
        }
      }
    }
  }

  /** The records remlock gives back, and the further records it takes, on its way through s. */
  function Wholes(s: seq<Lock>, k: Lock): nat
    requires AllValid(s) && Valid(k)
  {
    if s == [] then 0 else (if Own(s[0], k) && Extract(s[0], k).Whole? then 1 else 0) + Wholes(s[1..], k)
  }

  function Splits(s: seq<Lock>, k: Lock): nat {
    if s == [] then 0 else (if Straddles(s[0], k) then 1 else 0) + Splits(s[1..], k)
  }

  /** At lock i a record is needed and none is left. */
  predicate RunsOutAt(s: seq<Lock>, k: Lock, free: nat, i: nat)
    requires AllValid(s) && Valid(k) && i < |s|
  {
    Straddles(s[i], k) && free + Wholes(s[..i], k) <= Splits(s[..i], k)
  }

  /** On any list, redundant locks included: remlock fails exactly when it comes to a lock that
      sticks out of the range on both sides with the pool used up. */
  lemma {:induction false} RemLockRunsOut(s: seq<Lock>, k: Lock, free: nat)
    requires AllValid(s) && Valid(k)
    ensures !RemLock(s, k, free).ok <==> exists i :: 0 <= i < |s| && RunsOutAt(s, k, free, i)
  {
    if s != [] {
      var free' := if !Own(s[0], k) then free else PoolAfter(Extract(s[0], k), free);
      RemLockRunsOut(s[1..], k, free');
      var stuck := Straddles(s[0], k) && free == 0;
      assert stuck ==> RunsOutAt(s, k, free, 0);
      forall i | 0 <= i < |s| - 1 && !stuck
        ensures RunsOutAt(s[1..], k, free', i) <==> RunsOutAt(s, k, free, i + 1)
      {
        assert s[..i + 1][1..] == s[1..][..i];
      }
      if i :| 0 <= i < |s| && RunsOutAt(s, k, free, i) && !stuck {
        assert i > 0 && RunsOutAt(s[1..], k, free', i - 1);
      }
    }
  }

  /** Two locks of one owner that both meet k, one of them sticking out on both sides,
      also meet each other. */
  lemma StraddlerIsAlone(h: Lock, k: Lock, g: Lock)
    requires Valid(h) && Valid(k) && Valid(g)
    ensures Straddles(h, k) && Own(g, k) ==> Meets(h, g) && Meets(g, h)
  {}

  /** b is h with part of its range gone. */
  predicate PartOf(b: Lock, h: Lock) {
    && b.owner == h.owner && b.write == h.write
    && h.start <= b.start
    && (h.end == -1 || (b.end != -1 && b.end <= h.end))
  }

  lemma {:induction false} RemLockShrinks(s: seq<Lock>, k: Lock, free: nat, b: Lock)
    requires AllValid(s) && Valid(k) && b in RemLock(s, k, free).list
    ensures exists h :: h in s && PartOf(b, h)
  {
    if s == [] {
    } else if b in s {
      assert PartOf(b, b);
    } else if !Own(s[0], k) {
      RemLockShrinks(s[1..], k, free, b);
      var h :| h in s[1..] && PartOf(b, h);
      assert h in s;
    } else {
      var free' := PoolAfter(Extract(s[0], k), free);
      if b in Pieces(Extract(s[0], k)) {
        assert s[0] in s && PartOf(b, s[0]);
      } else {
        RemLockShrinks(s[1..], k, free', b);
        var h :| h in s[1..] && PartOf(b, h);
        assert h in s;
      }
    }
  }

  lemma PartsMiss(a: Lock, b: Lock, g: Lock, h: Lock)
    requires Valid(a) && Valid(b) && Valid(g) && Valid(h)
    requires PartOf(a, g) && PartOf(b, h) && !Meets(h, g)
    ensures !Meets(b, a)
  {}

  /** remlock keeps each owner's locks disjoint. */
  lemma {:induction false} RemLockKeepsDisjoint(s: seq<Lock>, k: Lock, free: nat)
    requires AllValid(s) && Valid(k) && OwnDisjoint(s)
    ensures OwnDisjoint(RemLock(s, k, free).list)
  {
    if s == [] {
    } else if Own(s[0], k) && Extract(s[0], k).Split? && free == 0 {
    } else {
      var front := if Own(s[0], k) then Pieces(Extract(s[0], k)) else [s[0]];
      var free' := if !Own(s[0], k) then free else PoolAfter(Extract(s[0], k), free);
      var rest := RemLock(s[1..], k, free').list;
      RemLockKeepsDisjoint(s[1..], k, free');
      forall a, b | a in front && b in rest && a.owner == b.owner
        ensures !Meets(b, a)
      {
        RemLockShrinks(s[1..], k, free', b);
        var h :| h in s[1..] && PartOf(b, h);
        PartsMiss(a, b, s[0], h);
      }
      DisjointAppend(front, rest);
      assert RemLock(s, k, free).list == front + rest;
    }
  }

  lemma {:induction false} DisjointAppend(front: seq<Lock>, rest: seq<Lock>)
    requires OwnDisjoint(front) && OwnDisjoint(rest)
    requires forall a, b :: a in front && b in rest && a.owner == b.owner ==> !Meets(b, a)
    ensures OwnDisjoint(front + rest)
  {
    if front == [] {
      assert front + rest == rest;
    } else {
      DisjointAppend(front[1..], rest);
      assert (front + rest)[1..] == front[1..] + rest;
    }
  }

  /** With disjoint locks per owner a failed remlock changes nothing. */
  lemma {:induction false} FailedUnlockKeeps(s: seq<Lock>, k: Lock, free: nat)
    requires AllValid(s) && Valid(k) && OwnDisjoint(s) && !RemLock(s, k, free).ok
    ensures RemLock(s, k, free) == ListResult(false, s, 0) && free == 0
  {
    RemLockFailsExactly(s, k, free);
    assert s == [s[0]] + s[1..];
    if !Own(s[0], k) {
      FailedUnlockKeeps(s[1..], k, free);
    } else {
      OnlyASplitFails(s, k, free);
    }
  }

  /** When the first lock is one to be cut, nothing behind it can make remlock fail. */
  lemma {:induction false} OnlyASplitFails(s: seq<Lock>, k: Lock, free: nat)
    requires AllValid(s) && Valid(k) && s != [] && OwnDisjoint(s) && Own(s[0], k)
    ensures RemLock(s, k, free).ok || (Extract(s[0], k).Split? && free == 0)
  {
    RemLockFailsExactly(s, k, free);
    forall h | h in s[1..] ensures !Straddles(h, k) {
      StraddlerIsAlone(h, k, s[0]);
    }
    assert s == [s[0]] + s[1..];
  }

  // ---------------------------------------------------------------- addlock

  /** The range nextmeet is called with in addlock: one byte wider on each side. */
  function Widened(k: Lock): Lock {
    k.(start := if k.start == 0 then 0 else k.start - 1,
       end := if k.end == -1 then -1 else k.end + 1)
  }

  datatype Merged = Merged(list: seq<Lock>, top: nat, bot: int, freed: nat)

  predicate SameKind(h: Lock, wide: Lock) {
    Meets(h, wide) && h.owner == wide.owner && h.write == wide.write
  }

  /** addlock's first loop: drop neighbours of the same owner and type, growing top..bot. */
  function Absorb(s: seq<Lock>, wide: Lock, top: nat, bot: int): (m: Merged)
    requires AllValid(s)
    ensures AllValid(m.list)
    ensures |m.list| + m.freed == |s|
    ensures m.top <= top
    ensures bot == -1 ==> m.bot == -1
    ensures bot != -1 ==> m.bot == -1 || bot <= m.bot
  {
    if s == [] then Merged([], top, bot, 0)
    else if SameKind(s[0], wide) then
      var m := Absorb(s[1..], wide, Lower(s[0], top), Upper(s[0], bot));
      m.(freed := m.freed + 1)
    else
      var m := Absorb(s[1..], wide, top, bot);
      m.(list := [s[0]] + m.list)
  }

  function Lower(h: Lock, top: nat): nat {
    if h.start < top then h.start else top
  }

  function Upper(h: Lock, bot: int): int {
    if bot != -1 && (h.end == -1 || h.end >= bot) then h.end else bot
  }

  function AddLock(s: seq<Lock>, k: Lock, free: nat): (r: ListResult)
    requires AllValid(s) && Valid(k)
    ensures AllValid(r.list)
    ensures |r.list| + r.free == |s| + free
  {
    var m := Absorb(s, Widened(k), k.start, k.end);
    if free + m.freed == 0 then
      ListResult(false, s, 0)
    else
      var grown := Lock(m.top, m.bot, k.write, k.owner);
      var r := RemLock(m.list, grown, free + m.freed - 1);
      ListResult(true, [grown] + r.list, r.free)
  }

  /** The byte is inside top..bot. */
  predicate InSpan(top: nat, bot: int, x: nat) {
    top <= x && (bot == -1 || x <= bot)
  }

  /** Growing the span over the absorbed neighbours adds exactly the bytes they cover. */
  lemma {:induction false} AbsorbExact(s: seq<Lock>, k: Lock, top: nat, bot: int, p: Proc, x: nat, w: bool)
    requires AllValid(s) && Valid(k)
    requires top <= k.start && (bot == -1 || (k.end != -1 && k.end <= bot))
    ensures var m := Absorb(s, Widened(k), top, bot);
            var mine := p == k.owner && w == k.write;
            && (Holds(m.list, p, x, w) || (mine && InSpan(m.top, m.bot, x))
                <==> Holds(s, p, x, w) || (mine && InSpan(top, bot, x)))
            && (Holds(m.list, p, x, w) ==> Holds(s, p, x, w))
            && (Holds(s, p, x, w) && !mine ==> Holds(m.list, p, x, w))
  {
    if s == [] {
    } else {
      var wide := Widened(k);
      HoldsHead(s, p, x, w);
      if SameKind(s[0], wide) {
        AbsorbExact(s[1..], k, Lower(s[0], top), Upper(s[0], bot), p, x, w);
      } else {
        AbsorbExact(s[1..], k, top, bot, p, x, w);
        HoldsCons(s[0], Absorb(s[1..], wide, top, bot).list, p, x, w);
      }
    }
  }

  /** The locks absorb leaves behind are some of those it was given, none of them a neighbour. */
  lemma {:induction false} AbsorbLeaves(s: seq<Lock>, wide: Lock, top: nat, bot: int, b: Lock)
    requires AllValid(s)
    ensures b in Absorb(s, wide, top, bot).list <==> b in s && !SameKind(b, wide)
  {
    if s == [] {
    } else {
      assert b in s <==> b == s[0] || b in s[1..];
      if SameKind(s[0], wide) {
        AbsorbLeaves(s[1..], wide, Lower(s[0], top), Upper(s[0], bot), b);
      } else {
        AbsorbLeaves(s[1..], wide, top, bot, b);
      }
    }
  }

  /** No process holds a byte with both types at once. */
  ghost predicate NonRedundant(s: seq<Lock>) {
    forall p, x :: !(Holds(s, p, x, true) && Holds(s, p, x, false))
  }

  /** The record addlock installs, and whether the removal of the other type went through. */
  function Grown(s: seq<Lock>, k: Lock): (g: Lock)
    requires AllValid(s) && Valid(k)
    ensures Valid(g)
  {
    var m := Absorb(s, Widened(k), k.start, k.end);
    Lock(m.top, m.bot, k.write, k.owner)
  }

  predicate CleanAdd(s: seq<Lock>, k: Lock, free: nat)
    requires AllValid(s) && Valid(k)
  {
    var m := Absorb(s, Widened(k), k.start, k.end);
    free + m.freed > 0 && RemLock(m.list, Grown(s, k), free + m.freed - 1).ok
  }

  /** Whatever happens, a successful addlock gives the owner its bytes with the new type,
      gives nobody anything else, and takes nothing from anybody but the owner's other type. */
  lemma {:induction false} AddLockBounds(s: seq<Lock>, k: Lock, free: nat, p: Proc, x: nat, w: bool)
    requires AllValid(s) && Valid(k) && AddLock(s, k, free).ok
    ensures var t := AddLock(s, k, free).list;
            && (p == k.owner && w == k.write && Covers(k, x) ==> Holds(t, p, x, w))
            && (Holds(t, p, x, w) ==> Holds(s, p, x, w) || (p == k.owner && w == k.write && Covers(k, x)))
            && (Holds(s, p, x, w) && !(p == k.owner && w != k.write) ==> Holds(t, p, x, w))
  {
    var m := Absorb(s, Widened(k), k.start, k.end);
    var g := Grown(s, k);
    var r := RemLock(m.list, g, free + m.freed - 1);
    AbsorbExact(s, k, k.start, k.end, p, x, w);
    RemLockExact(m.list, g, free + m.freed - 1, p, x, w);
    HoldsCons(g, r.list, p, x, w);
  }

  lemma AddLockIfClean(s: seq<Lock>, k: Lock, free: nat)
    requires AllValid(s) && Valid(k)
    ensures CleanAdd(s, k, free) ==> AddLock(s, k, free).ok
  {}

  /** Inside the range a clean addlock leaves no byte of the owner with the other type, and if no
      byte had two types it takes nothing outside the range, even when the pool runs out. */
  lemma {:induction false} AddLockOutside(s: seq<Lock>, k: Lock, free: nat, p: Proc, x: nat, w: bool)
    requires AllValid(s) && Valid(k) && AddLock(s, k, free).ok
    ensures var t := AddLock(s, k, free).list;
            && (CleanAdd(s, k, free) && p == k.owner && Covers(k, x) && w != k.write ==> !Holds(t, p, x, w))
            && (NonRedundant(s) && !(p == k.owner && Covers(k, x)) && Holds(s, p, x, w) ==> Holds(t, p, x, w))
  {
    hide Holds, Absorb, RemLock, Meets;
    var m := Absorb(s, Widened(k), k.start, k.end);
    var g := Grown(s, k);
    var r := RemLock(m.list, g, free + m.freed - 1);
    AbsorbExact(s, k, k.start, k.end, p, x, w);
    AbsorbExact(s, k, k.start, k.end, p, x, k.write);
    RemLockExact(m.list, g, free + m.freed - 1, p, x, w);
    HoldsCons(g, r.list, p, x, w);
  }

  /** When the removal went through and no byte had two types, addlock is a map update:
      exactly the owner's bytes in the range change, to exactly the new type. */
  lemma {:induction false} AddLockExact(s: seq<Lock>, k: Lock, free: nat, p: Proc, x: nat, w: bool)
    requires AllValid(s) && Valid(k) && CleanAdd(s, k, free) && NonRedundant(s)
    ensures AddLock(s, k, free).ok
    ensures Holds(AddLock(s, k, free).list, p, x, w)
            <==> if p == k.owner && Covers(k, x) then w == k.write else Holds(s, p, x, w)
  {
    var m := Absorb(s, Widened(k), k.start, k.end);
    var g := Grown(s, k);
    var r := RemLock(m.list, g, free + m.freed - 1);
    AbsorbExact(s, k, k.start, k.end, p, x, w);
    AbsorbExact(s, k, k.start, k.end, p, x, k.write);
    RemLockExact(m.list, g, free + m.freed - 1, p, x, w);
    RemLockExact(m.list, g, free + m.freed - 1, p, x, k.write);
    HoldsCons(g, r.list, p, x, w);
    HoldsCons(g, r.list, p, x, k.write);
  }

  lemma {:induction false} AddLockNonRedundant(s: seq<Lock>, k: Lock, free: nat)
    requires AllValid(s) && Valid(k) && CleanAdd(s, k, free) && NonRedundant(s)
    ensures NonRedundant(AddLock(s, k, free).list)
  {
    var t := AddLock(s, k, free).list;
    forall p, x ensures !(Holds(t, p, x, true) && Holds(t, p, x, false)) {
      AddLockExact(s, k, free, p, x, true);
      AddLockExact(s, k, free, p, x, false);
    }
  }

  lemma {:induction false} DisjointCons(g: Lock, t: seq<Lock>)
    requires OwnDisjoint(t)
    requires forall h :: h in t && h.owner == g.owner ==> !Meets(h, g)
    ensures OwnDisjoint([g] + t)
  {
    assert ([g] + t)[1..] == t;
  }

  /** addlock keeps each owner's locks disjoint as long as its removal goes through. */
  lemma {:induction false} AddLockKeepsDisjoint(s: seq<Lock>, k: Lock, free: nat)
    requires AllValid(s) && Valid(k) && OwnDisjoint(s) && CleanAdd(s, k, free)
    ensures OwnDisjoint(AddLock(s, k, free).list)
  {
    var m := Absorb(s, Widened(k), k.start, k.end);
    var g := Grown(s, k);
    AbsorbKeepsDisjoint(s, Widened(k), k.start, k.end);
    ReplaceKeepsDisjoint(m.list, g, free + m.freed - 1);
  }

  lemma {:induction false} ReplaceKeepsDisjoint(s: seq<Lock>, g: Lock, free: nat)
    requires AllValid(s) && Valid(g) && OwnDisjoint(s) && RemLock(s, g, free).ok
    ensures OwnDisjoint([g] + RemLock(s, g, free).list)
  {
    var t := RemLock(s, g, free).list;
    RemLockKeepsDisjoint(s, g, free);
    forall h | h in t && h.owner == g.owner ensures !Meets(h, g) {
      RemLockClears(s, g, free, h);
    }
    DisjointCons(g, t);
  }

  lemma {:induction false} AbsorbKeepsDisjoint(s: seq<Lock>, wide: Lock, top: nat, bot: int)
    requires AllValid(s) && OwnDisjoint(s)
    ensures OwnDisjoint(Absorb(s, wide, top, bot).list)
  {
    if s == [] {
    } else if SameKind(s[0], wide) {
      AbsorbKeepsDisjoint(s[1..], wide, Lower(s[0], top), Upper(s[0], bot));
    } else {
      AbsorbKeepsDisjoint(s[1..], wide, top, bot);
      var m := Absorb(s[1..], wide, top, bot);
      forall h | h in m.list ensures h in s[1..] {
        AbsorbLeaves(s[1..], wide, top, bot, h);
      }
      assert ([s[0]] + m.list)[1..] == m.list;
    }
  }

  /** The lock is not installed exactly when the pool is empty and there is nothing to merge,
      and then nothing changes. */
  lemma {:induction false} AddLockFailsExactly(s: seq<Lock>, k: Lock, free: nat)
    requires AllValid(s) && Valid(k)
    ensures AddLock(s, k, free).ok <==> free > 0 || exists h :: h in s && SameKind(h, Widened(k))
    ensures !AddLock(s, k, free).ok ==> AddLock(s, k, free) == ListResult(false, s, free)
  {
    var wide := Widened(k);
    var m := Absorb(s, wide, k.start, k.end);
    if m.freed == 0 && exists h :: h in s && SameKind(h, wide) {
      var h :| h in s && SameKind(h, wide);
      AbsorbKeepsAll(s, wide, k.start, k.end);
      AbsorbLeaves(s, wide, k.start, k.end, h);
      assert false;
    }
    if m.freed > 0 {
      AbsorbDrops(s, wide, k.start, k.end);
    }
  }

  lemma {:induction false} AbsorbKeepsAll(s: seq<Lock>, wide: Lock, top: nat, bot: int)
    requires AllValid(s)
    requires Absorb(s, wide, top, bot).freed == 0 || forall h :: h in s ==> !SameKind(h, wide)
    ensures Absorb(s, wide, top, bot) == Merged(s, top, bot, 0)
  {
    if s != [] {
      AbsorbKeepsAll(s[1..], wide, top, bot);
      assert s == [s[0]] + s[1..];
    }
  }

  lemma {:induction false} AbsorbDrops(s: seq<Lock>, wide: Lock, top: nat, bot: int)
    requires AllValid(s) && Absorb(s, wide, top, bot).freed > 0
    ensures exists h :: h in s && SameKind(h, wide)
  {
    if SameKind(s[0], wide) {
      assert s[0] in s;
    } else {
      AbsorbDrops(s[1..], wide, top, bot);
      var h :| h in s[1..] && SameKind(h, wide);
      assert h in s;
    }
  }

  // ---- when addlock leaves ENOLCK in the user error

  /** One of the owner's locks of the other type reaches past the request on both sides. */
  ghost predicate SplitsOther(s: seq<Lock>, k: Lock) {
    exists h :: h in s && h.write != k.write && Straddles(h, k)
  }

  ghost predicate HasNeighbour(s: seq<Lock>, k: Lock) {
    exists h :: h in s && SameKind(h, Widened(k))
  }

  lemma {:induction false} DisjointPair(s: seq<Lock>, a: Lock, b: Lock)
    requires AllValid(s) && OwnDisjoint(s) && a in s && b in s && a != b && a.owner == b.owner
    ensures !Meets(a, b)
  {
    if a != s[0] && b != s[0] {
      DisjointPair(s[1..], a, b);
    }
  }

  /** A lock of the other type around the request leaves no room for a neighbour to merge. */
  lemma {:induction false} SplitMeansAlone(s: seq<Lock>, k: Lock)
    requires AllValid(s) && Valid(k) && OwnDisjoint(s) && SplitsOther(s, k)
    ensures !HasNeighbour(s, k)
    ensures Absorb(s, Widened(k), k.start, k.end) == Merged(s, k.start, k.end, 0)
  {
    var h :| h in s && h.write != k.write && Straddles(h, k);
    forall g | g in s ensures !SameKind(g, Widened(k)) {
      if g.owner == k.owner && g.write == k.write {
        DisjointPair(s, g, h);
      }
    }
    AbsorbKeepsAll(s, Widened(k), k.start, k.end);
  }

  lemma {:induction false} StraddlesBoth(s: seq<Lock>, k: Lock, h: Lock)
    requires AllValid(s) && Valid(k) && h in Absorb(s, Widened(k), k.start, k.end).list
    ensures Straddles(h, Grown(s, k)) ==> h in s && h.write != k.write && Straddles(h, k) && SplitsOther(s, k)
  {
    AbsorbLeaves(s, Widened(k), k.start, k.end, h);
  }

  ghost predicate HasStraddler(s: seq<Lock>, k: Lock) {
    exists h :: h in s && Straddles(h, k)
  }

  /** What straddles the grown range in the rest of the list straddles the request in the list,
      and is of the other type. */
  lemma {:induction false} StraddlerIsOther(s: seq<Lock>, k: Lock)
    requires AllValid(s) && Valid(k) && OwnDisjoint(s)
    ensures HasStraddler(Absorb(s, Widened(k), k.start, k.end).list, Grown(s, k)) <==> SplitsOther(s, k)
  {
    var m, g := Absorb(s, Widened(k), k.start, k.end), Grown(s, k);
    if SplitsOther(s, k) {
      SplitMeansAlone(s, k);
      GrownAlone(s, k);
      hide Absorb, OwnDisjoint, Grown;
      var h :| h in s && h.write != k.write && Straddles(h, k);
      assert h in m.list && Straddles(h, g);
    }
    forall h | h in m.list && Straddles(h, g) ensures SplitsOther(s, k) {
      StraddlesBoth(s, k, h);
    }
  }

  /** The inner remlock fails exactly when the request takes the last record and a lock of the
      other type has to be split around it. */
  lemma {:induction false} InnerRemoveExactly(s: seq<Lock>, k: Lock, free: nat)
    requires AllValid(s) && Valid(k) && OwnDisjoint(s)
    requires free + Absorb(s, Widened(k), k.start, k.end).freed > 0
    ensures CleanAdd(s, k, free) <==> !(free == 1 && SplitsOther(s, k))
  {
    var m, g := Absorb(s, Widened(k), k.start, k.end), Grown(s, k);
    AbsorbKeepsDisjoint(s, Widened(k), k.start, k.end);
    RemLockFailsExactly(m.list, g, free + m.freed - 1);
    assert RemLock(m.list, g, free + m.freed - 1).ok <==> free + m.freed - 1 > 0 || !HasStraddler(m.list, g);
    hide Absorb, RemLock, OwnDisjoint, Grown, SplitsOther, HasStraddler;
    StraddlerIsOther(s, k);
    if SplitsOther(s, k) {
      SplitMeansAlone(s, k);
    }
  }

  lemma GrownAlone(s: seq<Lock>, k: Lock)
    requires AllValid(s) && Valid(k) && Absorb(s, Widened(k), k.start, k.end) == Merged(s, k.start, k.end, 0)
    ensures Grown(s, k) == k
  {}

  /** getlock fails, once or in the inner remlock, exactly when the pool is empty and there is
      nothing to merge, or when the last record is taken for the request and a lock of the
      other type has to be split around it.  In the second case the lock is installed. */
  lemma {:induction false} AddLockEnolckExactly(s: seq<Lock>, k: Lock, free: nat)
    requires AllValid(s) && Valid(k) && OwnDisjoint(s)
    ensures !CleanAdd(s, k, free)
            <==> (free == 0 && !HasNeighbour(s, k)) || (free == 1 && SplitsOther(s, k))
    ensures AddLock(s, k, free).ok <==> !(free == 0 && !HasNeighbour(s, k))
  {
    AddLockFailsExactly(s, k, free);
    AddLockNeedsOne(s, k, free);
    hide Absorb, RemLock, OwnDisjoint, AddLock, SplitsOther, HasNeighbour;
    if AddLock(s, k, free).ok {
      InnerRemoveExactly(s, k, free);
    } else {
      assert free == 0;
    }
  }

  lemma AddLockNeedsOne(s: seq<Lock>, k: Lock, free: nat)
    requires AllValid(s) && Valid(k)
    ensures AddLock(s, k, free).ok <==> free + Absorb(s, Widened(k), k.start, k.end).freed > 0
    ensures HasNeighbour(s, k) <==> exists h :: h in s && SameKind(h, Widened(k))
  {}

  /** With one record left, a read lock inside one's own write lock: getlock fails, the lock is
      on the list all the same, and byte 12 is held as a reader and as a writer. */
  lemma {:induction false} InstalledWithEnolck()
    ensures var s, k := [Lock(0, -1, true, 1)], Lock(10, 19, false, 1);
            && !CleanAdd(s, k, 1) && AddLock(s, k, 1) == ListResult(true, [k] + s, 0)
            && Holds([k] + s, 1, 12, true) && Holds([k] + s, 1, 12, false)
            && !OwnDisjoint([k] + s)
  {
    var s, k := [Lock(0, -1, true, 1)], Lock(10, 19, false, 1);
    assert Absorb(s[1..], Widened(k), k.start, k.end) == Merged([], 10, 19, 0);
    assert Absorb(s, Widened(k), k.start, k.end) == Merged(s, 10, 19, 0);
    assert Has(([k] + s)[0], 1, 12, false) && Has(([k] + s)[1], 1, 12, true);
    assert s[0] in ([k] + s)[1..] && Meets(s[0], k);
  }

  // ---- neighbours are merged

  /** The ranges overlap or one begins right behind the other. */
  predicate Touches(a: Lock, b: Lock) {
    (b.end == -1 || a.start <= b.end + 1) && (a.end == -1 || b.start <= a.end + 1)
  }

  lemma {:induction false} TouchesMeans(a: Lock, b: Lock)
    requires Valid(a) && Valid(b)
    ensures Touches(a, b) <==> exists x: nat, y: nat :: Covers(a, x) && Covers(b, y) && -1 <= x - y <= 1
  {
    if Touches(a, b) {
      var x := if b.end != -1 && b.end < a.start then a.start else if b.start < a.start then a.start
               else if a.end == -1 || b.start <= a.end then b.start else a.end;
      var y := if b.end != -1 && b.end < x then b.end else if x < b.start then b.start else x;
      assert Covers(a, x) && Covers(b, y);
    }
  }

  predicate Alike(a: Lock, b: Lock) {
    a.owner == b.owner && a.write == b.write
  }

  /** No two locks of one owner and type overlap or adjoin: each stretch is one record. */
  ghost predicate Coalesced(s: seq<Lock>) {
    s == [] || ((forall h :: h in s[1..] && Alike(h, s[0]) ==> !Touches(h, s[0])) && Coalesced(s[1..]))
  }

  lemma PartsApart(a: Lock, b: Lock, g: Lock, h: Lock)
    requires Valid(a) && Valid(b) && Valid(g) && Valid(h)
    requires PartOf(a, g) && PartOf(b, h) && !Touches(h, g)
    ensures !Touches(b, a)
  {}

  lemma {:induction false} CoalescedAppend(front: seq<Lock>, rest: seq<Lock>)
    requires Coalesced(front) && Coalesced(rest)
    requires forall a, b :: a in front && b in rest && Alike(a, b) ==> !Touches(b, a)
    ensures Coalesced(front + rest)
  {
    if front == [] {
      assert front + rest == rest;
    } else {
      CoalescedAppend(front[1..], rest);
      assert (front + rest)[1..] == front[1..] + rest;
    }
  }

  /** remlock leaves a gap where it splits, so nothing comes to adjoin, whether it fails or not. */
  lemma {:induction false} RemLockKeepsCoalesced(s: seq<Lock>, k: Lock, free: nat)
    requires AllValid(s) && Valid(k) && Coalesced(s)
    ensures Coalesced(RemLock(s, k, free).list)
  {
    if s == [] {
    } else if Own(s[0], k) && Extract(s[0], k).Split? && free == 0 {
    } else {
      var front := if Own(s[0], k) then Pieces(Extract(s[0], k)) else [s[0]];
      var free' := if !Own(s[0], k) then free else PoolAfter(Extract(s[0], k), free);
      var rest := RemLock(s[1..], k, free').list;
      RemLockKeepsCoalesced(s[1..], k, free');
      forall a, b | a in front && b in rest && Alike(a, b) ensures !Touches(b, a) {
        RemLockShrinks(s[1..], k, free', b);
        var h :| h in s[1..] && PartOf(b, h);
        PartsApart(a, b, s[0], h);
      }
      PiecesCoalesced(s[0], k);
      CoalescedAppend(front, rest);
      assert RemLock(s, k, free).list == front + rest;
    }
  }

  lemma {:induction false} PiecesCoalesced(held: Lock, k: Lock)
    requires Valid(held) && Valid(k)
    ensures Coalesced([held]) && (Meets(held, k) ==> Coalesced(Pieces(Extract(held, k))))
  {
    assert [held][1..] == [];
    if Meets(held, k) && Extract(held, k).Split? {
      var p := Pieces(Extract(held, k));
      assert p[1..] == [p[1]] && p[1..][1..] == [];
    }
  }

  lemma {:induction false} AbsorbKeepsCoalesced(s: seq<Lock>, wide: Lock, top: nat, bot: int)
    requires AllValid(s) && Coalesced(s)
    ensures Coalesced(Absorb(s, wide, top, bot).list)
  {
    if s == [] {
    } else if SameKind(s[0], wide) {
      AbsorbKeepsCoalesced(s[1..], wide, Lower(s[0], top), Upper(s[0], bot));
    } else {
      AbsorbKeepsCoalesced(s[1..], wide, top, bot);
      var m := Absorb(s[1..], wide, top, bot);
      forall h | h in m.list ensures h in s[1..] {
        AbsorbLeaves(s[1..], wide, top, bot, h);
      }
      assert ([s[0]] + m.list)[1..] == m.list;
    }
  }

  lemma {:induction false} CoalescedPair(s: seq<Lock>, a: Lock, b: Lock)
    requires Coalesced(s) && a in s && b in s && a != b && Alike(a, b)
    ensures !Touches(a, b)
  {
    assert s == [s[0]] + s[1..];
    assert Alike(a, s[0]) || Alike(b, s[0]) ==> Alike(a, s[0]) && Alike(b, s[0]);
    if a != s[0] && b != s[0] {
      CoalescedPair(s[1..], a, b);
    }
  }

  /** The span stays clear of a lock that touches neither it nor the neighbours it grows over. */
  lemma {:induction false} AbsorbApart(s: seq<Lock>, k: Lock, top: nat, bot: int, b: Lock)
    requires AllValid(s) && Valid(k) && Valid(b)
    requires top <= k.start && (bot == -1 || (k.end != -1 && k.end <= bot))
    requires !Touches(b, Lock(top, bot, k.write, k.owner))
    requires forall h :: h in s && SameKind(h, Widened(k)) ==> !Touches(b, h)
    ensures var m := Absorb(s, Widened(k), top, bot); !Touches(b, Lock(m.top, m.bot, k.write, k.owner))
  {
    if s != [] {
      assert s[0] in s;
      if SameKind(s[0], Widened(k)) {
        AbsorbApart(s[1..], k, Lower(s[0], top), Upper(s[0], bot), b);
      } else {
        AbsorbApart(s[1..], k, top, bot, b);
      }
    }
  }

  /** addlock merges all it can: with its inner remlock or without, no two locks of one owner and
      type come to overlap or adjoin. */
  lemma {:induction false} AddLockKeepsCoalesced(s: seq<Lock>, k: Lock, free: nat)
    requires AllValid(s) && Valid(k) && Coalesced(s)
    ensures Coalesced(AddLock(s, k, free).list)
  {
    var m := Absorb(s, Widened(k), k.start, k.end);
    if free + m.freed > 0 {
      var g := Grown(s, k);
      var t := RemLock(m.list, g, free + m.freed - 1).list;
      AbsorbKeepsCoalesced(s, Widened(k), k.start, k.end);
      RemLockKeepsCoalesced(m.list, g, free + m.freed - 1);
      hide Absorb, RemLock, Grown, Touches, Coalesced;
      forall b | b in t && Alike(b, g) ensures !Touches(b, g) {
        RemLockShrinks(m.list, g, free + m.freed - 1, b);
        var h :| h in m.list && PartOf(b, h);
        GrownApart(s, k, h);
        PartsApart(g, b, g, h);
      }
      CoalescedFront(g, t);
      AddLockIs(s, k, free);
    }
  }

  lemma CoalescedFront(g: Lock, t: seq<Lock>)
    requires Coalesced(t) && forall b :: b in t && Alike(b, g) ==> !Touches(b, g)
    ensures Coalesced([g] + t)
  {
    assert ([g] + t)[1..] == t;
  }

  lemma AddLockIs(s: seq<Lock>, k: Lock, free: nat)
    requires AllValid(s) && Valid(k)
    ensures var m := Absorb(s, Widened(k), k.start, k.end);
            free + m.freed > 0 ==>
              AddLock(s, k, free).list == [Grown(s, k)] + RemLock(m.list, Grown(s, k), free + m.freed - 1).list
  {}

  lemma {:induction false} GrownApart(s: seq<Lock>, k: Lock, b: Lock)
    requires AllValid(s) && Valid(k) && Coalesced(s)
    requires b in Absorb(s, Widened(k), k.start, k.end).list && Alike(b, k)
    ensures !Touches(b, Grown(s, k))
  {
    AbsorbLeaves(s, Widened(k), k.start, k.end, b);
    forall h | h in s && SameKind(h, Widened(k)) ensures !Touches(b, h) {
      CoalescedPair(s, b, h);
    }
    AbsorbApart(s, k, k.start, k.end, b);
  }

  // ------------------------------------------------------------ compatibility

  /** No two processes hold one byte when one of them holds it for writing. */
  ghost predicate Compatible(s: seq<Lock>) {
    forall p, q, x, w :: p != q && Holds(s, p, x, true) ==> !Holds(s, q, x, w)
  }

  predicate Blocked(s: seq<Lock>, k: Lock) {
    exists i :: 0 <= i < |s| && Blocks(s[i], k)
  }

  /** A request nextblock lets through conflicts with no byte anyone else holds. */
  lemma {:induction false} NotBlockedMeans(s: seq<Lock>, k: Lock, q: Proc, x: nat, w: bool)
    requires AllValid(s) && Valid(k) && !Blocked(s, k)
    requires q != k.owner && Covers(k, x) && (k.write || w)
    ensures !Holds(s, q, x, w)
  {
    forall i | 0 <= i < |s| ensures Has(s[i], q, x, w) ==> Blocks(s[i], k) {
      MeetsIsOverlap(s[i], k);
    }
  }

  /** Installing a request that nextblock let through keeps the list compatible, even
      when the pool runs out half way. */
  lemma {:induction false} AddLockCompatible(s: seq<Lock>, k: Lock, free: nat)
    requires AllValid(s) && Valid(k) && Compatible(s) && !Blocked(s, k)
    ensures Compatible(AddLock(s, k, free).list)
  {
    var r := AddLock(s, k, free);
    if r.ok {
      forall p, q, x, w | p != q && Holds(r.list, p, x, true)
        ensures !Holds(r.list, q, x, w)
      {
        AddLockBounds(s, k, free, p, x, true);
        AddLockBounds(s, k, free, q, x, w);
        if p == k.owner && k.write && Covers(k, x) {
          NotBlockedMeans(s, k, q, x, w);
        }
        if q == k.owner && w == k.write && Covers(k, x) {
          NotBlockedMeans(s, k, p, x, true);
        }
      }
    }
  }

  lemma {:induction false} RemLockCompatible(s: seq<Lock>, k: Lock, free: nat)
    requires AllValid(s) && Valid(k) && Compatible(s)
    ensures Compatible(RemLock(s, k, free).list)
  {
    var r := RemLock(s, k, free);
    forall p, q, x, w | p != q && Holds(r.list, p, x, true)
      ensures !Holds(r.list, q, x, w)
    {
      RemLockExact(s, k, free, p, x, true);
      RemLockExact(s, k, free, q, x, w);
    }
  }
}
