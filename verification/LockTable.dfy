/**
  The record-locking code of rlock.c with its loops and its global state.
 */
module LockTable {
  import opened Wrappers
  import opened RecordLock
  import opened LockSystem

  // The state is the lists of active locks, the pending records p_prl and the pool of free
  // records.  Each method is one stretch of code run under the gate __rlgate and is proved to be
  // the corresponding step of LockSystem; the deadlock search is proved to terminate and to find
  // exactly the wait-for paths.

  /** nextmeet: the first lock from position `from` on whose range meets k. */
  method NextMeet(list: seq<Lock>, from: nat, k: Lock) returns (j: nat)
    requires from <= |list|
    ensures from <= j <= |list|
    ensures forall i :: from <= i < j ==> !Meets(list[i], k)
    ensures j < |list| ==> Meets(list[j], k)
  {
    j := from;
    while j < |list| && !Meets(list[j], k)
      invariant from <= j <= |list|
      invariant forall i :: from <= i < j ==> !Meets(list[i], k)
    {
      j := j + 1;
    }
  }

  /** nextblock: the first lock from position `from` on that conflicts with k. */
  method NextBlock(list: seq<Lock>, from: nat, k: Lock) returns (j: nat)
    requires from <= |list|
    ensures from <= j <= |list|
    ensures forall i :: from <= i < j ==> !Blocks(list[i], k)
    ensures j < |list| ==> Blocks(list[j], k)
  {
    j := NextMeet(list, from, k);
    while j < |list| && !Blocks(list[j], k)
      invariant from <= j <= |list|
      invariant forall i :: from <= i < j ==> !Blocks(list[i], k)
      invariant j < |list| ==> Meets(list[j], k)
      decreases |list| - j
    {
      j := NextMeet(list, j + 1, k);
    }
  }

  lemma {:induction false} RemLockSkip(s: seq<Lock>, k: Lock, free: nat, n: nat)
    requires AllValid(s) && Valid(k) && n <= |s|
    requires forall i :: 0 <= i < n ==> !Own(s[i], k)
    ensures RemLock(s, k, free) == Keep(s[..n], RemLock(s[n..], k, free))
  {
    if n == 0 {
      assert s[0..] == s && [] + RemLock(s, k, free).list == RemLock(s, k, free).list;
    } else {
      RemLockSkip(s[1..], k, free, n - 1);
      assert s[1..][n - 1..] == s[n..];
      assert [s[0]] + s[1..][..n - 1] == s[..n];
      KeepKeep([s[0]], s[1..][..n - 1], RemLock(s[n..], k, free));
    }
  }

  lemma {:induction false} AbsorbSkip(s: seq<Lock>, wide: Lock, top: nat, bot: int, n: nat)
    requires AllValid(s) && n <= |s|
    requires forall i :: 0 <= i < n ==> !SameKind(s[i], wide)
    ensures Absorb(s, wide, top, bot).list == s[..n] + Absorb(s[n..], wide, top, bot).list
    ensures Absorb(s, wide, top, bot) == Absorb(s[n..], wide, top, bot).(list := Absorb(s, wide, top, bot).list)
  {
    if n == 0 {
      assert s[0..] == s;
    } else {
      AbsorbSkip(s[1..], wide, top, bot, n - 1);
      assert s[1..][n - 1..] == s[n..];
      assert [s[0]] + s[1..][..n - 1] == s[..n];
    }
  }

  lemma {:induction false} KeepKeep(a: seq<Lock>, b: seq<Lock>, r: ListResult)
    ensures Keep(a, Keep(b, r)) == Keep(a + b, r)
  {
    assert a + (b + r.list) == (a + b) + r.list;
  }

  /** What remlock's loop is heading for when it stands at position i. */
  ghost function CutGoal(list: seq<Lock>, i: nat, k: Lock, free: nat): ListResult
    requires i <= |list| && AllValid(list[i..]) && Valid(k)
  {
    Keep(list[..i], RemLock(list[i..], k, free))
  }

  lemma {:induction false} CutGoalSkip(list: seq<Lock>, i: nat, j: nat, k: Lock, free: nat)
    requires i <= j <= |list| && AllValid(list[i..]) && Valid(k)
    requires forall n :: i <= n < j ==> !Own(list[n], k)
    ensures AllValid(list[j..]) && CutGoal(list, i, k, free) == CutGoal(list, j, k, free)
  {
    var rest := list[i..];
    assert rest[..j - i] == list[i..j] && rest[j - i..] == list[j..];
    forall n | 0 <= n < |list[j..]| ensures Valid(list[j..][n]) {
      assert list[j..][n] == rest[n + j - i];
    }
    RemLockSkip(rest, k, free, j - i);
    KeepKeep(list[..i], list[i..j], RemLock(list[j..], k, free));
    assert list[..i] + list[i..j] == list[..j];
  }

  lemma {:induction false} CutGoalStep(list: seq<Lock>, i: nat, left: seq<Lock>, next: nat, k: Lock, free: nat)
    requires i < |list| && AllValid(list[i..]) && Valid(k) && Own(list[i], k) && next <= |left|
    requires !(Extract(list[i], k).Split? && free == 0)
    requires left[..next] == list[..i] + Pieces(Extract(list[i], k)) && left[next..] == list[i + 1..]
    ensures AllValid(left[next..])
    ensures CutGoal(list, i, k, free) == CutGoal(left, next, k, PoolAfter(Extract(list[i], k), free))
  {
    var rest := list[i..];
    assert rest[0] == list[i] && rest[1..] == list[i + 1..];
    KeepKeep(list[..i], Pieces(Extract(list[i], k)), RemLock(rest[1..], k, PoolAfter(Extract(list[i], k), free)));
  }

  lemma {:induction false} CutGoalStuck(list: seq<Lock>, i: nat, k: Lock)
    requires i < |list| && AllValid(list[i..]) && Valid(k) && Own(list[i], k) && Extract(list[i], k).Split?
    ensures CutGoal(list, i, k, 0) == ListResult(false, list, 0)
  {
    assert list[..i] + list[i..] == list;
  }

  lemma {:induction false} CutGoalEnd(list: seq<Lock>, k: Lock, free: nat)
    requires Valid(k)
    ensures CutGoal(list, |list|, k, free) == ListResult(true, list, free)
  {
    assert list[..|list|] + [] == list && list[|list|..] == [];
  }

  lemma {:induction false} CutGoalStart(list: seq<Lock>, k: Lock, free: nat)
    requires AllValid(list) && Valid(k)
    ensures list[0..] == list && CutGoal(list, 0, k, free) == RemLock(list, k, free)
  {
    assert list[0..] == list && [] + RemLock(list, k, free).list == RemLock(list, k, free).list;
  }

  /** What addlock's loop is heading for when it stands at position i with the span grown
      to top..bot and `freed` records given back. */
  ghost function MergeGoal(list: seq<Lock>, i: nat, wide: Lock, top: nat, bot: int, freed: nat): Merged
    requires i <= |list| && AllValid(list[i..])
  {
    var m := Absorb(list[i..], wide, top, bot);
    m.(list := list[..i] + m.list, freed := m.freed + freed)
  }

  lemma {:induction false} MergeGoalSkip(list: seq<Lock>, i: nat, j: nat, wide: Lock, top: nat, bot: int, freed: nat)
    requires i <= j <= |list| && AllValid(list[i..])
    requires forall n :: i <= n < j ==> !SameKind(list[n], wide)
    ensures AllValid(list[j..])
    ensures MergeGoal(list, i, wide, top, bot, freed) == MergeGoal(list, j, wide, top, bot, freed)
  {
    var rest := list[i..];
    assert rest[..j - i] == list[i..j] && rest[j - i..] == list[j..];
    forall n | 0 <= n < |list[j..]| ensures Valid(list[j..][n]) {
      assert list[j..][n] == rest[n + j - i];
    }
    AbsorbSkip(rest, wide, top, bot, j - i);
    var m := Absorb(list[j..], wide, top, bot);
    assert list[..i] + (list[i..j] + m.list) == list[..j] + m.list;
  }

  lemma {:induction false} MergeGoalStep(list: seq<Lock>, i: nat, wide: Lock, top: nat, bot: int, freed: nat)
    requires i < |list| && AllValid(list[i..]) && SameKind(list[i], wide)
    ensures var left := list[..i] + list[i + 1..];
            && left[i..] == list[i..][1..] && AllValid(left[i..])
            && MergeGoal(list, i, wide, top, bot, freed)
               == MergeGoal(left, i, wide, Lower(list[i], top), Upper(list[i], bot), freed + 1)
  {
    var left := list[..i] + list[i + 1..];
    assert list[i..][0] == list[i] && list[i..][1..] == list[i + 1..];
    assert left[..i] == list[..i] && left[i..] == list[i + 1..];
  }

  lemma {:induction false} MergeGoalEnds(list: seq<Lock>, wide: Lock, top: nat, bot: int, freed: nat)
    requires AllValid(list)
    ensures MergeGoal(list, |list|, wide, top, bot, freed) == Merged(list, top, bot, freed)
    ensures list[0..] == list && MergeGoal(list, 0, wide, top, bot, 0) == Absorb(list, wide, top, bot)
  {
    assert list[0..] == list && list[..0] == [] && list[..|list|] == list && list[|list|..] == [];
    assert [] + Absorb(list, wide, top, bot).list == Absorb(list, wide, top, bot).list;
  }

  class LockTable {
    var active: seq<seq<Lock>>
    var pending: map<Proc, Request>
    var free: nat

    ghost function State(): Sys
      reads this
    {
      Sys(active, pending, free)
    }

    /** rlinit: an empty list for every inode and RLOCKS records in the pool. */
    constructor (inodes: nat, rlocks: nat)
      ensures State() == Init(inodes, rlocks)
    {
      active := seq(inodes, _ => []);
      pending := map[];
      free := rlocks;
    }

    /** extract on record i, and freelock when nothing of it is left; `next` is where the
        scan goes on. */
    method CutAt(list: seq<Lock>, i: nat, k: Lock) returns (ok: bool, left: seq<Lock>, next: nat)
      requires i < |list| && Valid(list[i]) && Valid(k) && Own(list[i], k)
      modifies this`free
      ensures ok <==> !(Extract(list[i], k).Split? && old(free) == 0)
      ensures !ok ==> left == list && free == old(free)
      ensures ok ==> free == PoolAfter(Extract(list[i], k), old(free))
      ensures ok ==> next <= |left| && left[..next] == list[..i] + Pieces(Extract(list[i], k))
      ensures ok ==> left[next..] == list[i + 1..]
    {
      match Extract(list[i], k)
      case Whole =>
        free := free + 1;
        return true, list[..i] + list[i + 1..], i;
      case Trim(rest) =>
        return true, list[i := rest], i + 1;
      case Split(low, high) =>
        if free == 0 {
          return false, list, i;
        }
        free := free - 1;
        return true, list[..i] + [low, high] + list[i + 1..], i + 2;
    }

    /** remlock on the list of inode ino. */
    method DropRange(ino: Inode, k: Lock) returns (ok: bool)
      requires Inv(State()) && ino < |active| && Valid(k)
      modifies this
      ensures State() == Remove(old(State()), ino, k).0
      ensures ok <==> Remove(old(State()), ino, k).1 == Done
    {
      var list;
      ok, list := CutAll(active[ino], k);
      active := active[ino := list];
    }

    /** The loop of remlock. */
    method CutAll(s: seq<Lock>, k: Lock) returns (ok: bool, list: seq<Lock>)
      requires AllValid(s) && Valid(k)
      modifies this`free
      ensures ListResult(ok, list, free) == RemLock(s, k, old(free))
    {
      list := s;
      var i: nat := NextMeet(list, 0, k);
      CutGoalStart(list, k, free);
      CutGoalSkip(list, 0, i, k, free);
      while i < |list|
        invariant i <= |list| && AllValid(list[i..])
        invariant i < |list| ==> Meets(list[i], k)
        invariant RemLock(s, k, old(free)) == CutGoal(list, i, k, free)
        decreases |list| - i
      {
        assert list[i..][0] == list[i];
        if list[i].owner != k.owner {
          CutGoalSkip(list, i, i + 1, k, free);
          i := i + 1;
        } else {
          ghost var list0, i0, free0 := list, i, free;
          ok, list, i := CutAt(list, i, k);
          if !ok {
            CutGoalStuck(list0, i0, k);
            return;
          }
          CutGoalStep(list0, i0, list, i, k, free0);
        }
        var j: nat := NextMeet(list, i, k);
        CutGoalSkip(list, i, j, k, free);
        i := j;
      }
      CutGoalEnd(list, k, free);
      ok := true;
    }

    /** The first loop of addlock: free the neighbours of the same owner and type. */
    method MergeAll(s: seq<Lock>, wide: Lock, start: nat, end: int)
      returns (list: seq<Lock>, top: nat, bot: int)
      requires AllValid(s)
      modifies this`free
      ensures var m := Absorb(s, wide, start, end);
              list == m.list && top == m.top && bot == m.bot && free == old(free) + m.freed
    {
      list, top, bot := s, start, end;
      ghost var freed := 0;
      var i: nat := NextMeet(list, 0, wide);
      MergeGoalEnds(list, wide, top, bot, freed);
      MergeGoalSkip(list, 0, i, wide, top, bot, freed);
      while i < |list|
        invariant i <= |list| && AllValid(list[i..])
        invariant i < |list| ==> Meets(list[i], wide)
        invariant free == old(free) + freed
        invariant Absorb(s, wide, start, end) == MergeGoal(list, i, wide, top, bot, freed)
        decreases |list| - i
      {
        if list[i].owner != wide.owner || list[i].write != wide.write {
          MergeGoalSkip(list, i, i + 1, wide, top, bot, freed);
          i := i + 1;
        } else {
          MergeGoalStep(list, i, wide, top, bot, freed);
          top, bot := Lower(list[i], top), Upper(list[i], bot);
          list := list[..i] + list[i + 1..];
          free, freed := free + 1, freed + 1;
        }
        var j: nat := NextMeet(list, i, wide);
        MergeGoalSkip(list, i, j, wide, top, bot, freed);
        i := j;
      }
      MergeListValid(s, wide, start, end, list, top, bot, freed);
    }

    static lemma {:induction false} MergeListValid(s: seq<Lock>, wide: Lock, start: nat, end: int, list: seq<Lock>, top: nat, bot: int, freed: nat)
      requires AllValid(s) && AllValid(list[|list|..])
      requires Absorb(s, wide, start, end) == MergeGoal(list, |list|, wide, top, bot, freed)
      ensures Absorb(s, wide, start, end) == Merged(list, top, bot, freed)
    {
      assert list[..|list|] == list && list[|list|..] == [];
      assert list + [] == list;
    }

    /** addlock on the list of inode ino.  The result of the inner remlock is not looked at, but
        the ENOLCK its getlock leaves in the user error is what the caller is told. */
    method AddRange(ino: Inode, k: Lock) returns (r: Outcome)
      requires Inv(State()) && ino < |active| && Valid(k)
      modifies this
      ensures (State(), r) == Install(old(State()), ino, k)
    {
      var list, top, bot := MergeAll(active[ino], Widened(k), k.start, k.end);
      if free == 0 {
        AbsorbKeepsAll(active[ino], Widened(k), k.start, k.end);
        active := active[ino := list];
        return Enolck(false);
      }
      free := free - 1;
      var grown := Lock(top, bot, k.write, k.owner);
      var removed;
      removed, list := CutAll(list, grown);
      active := active[ino := [grown] + list];
      return if removed then Done else Enolck(true);
    }

    /** waiting: does pp wait, directly or through others, for self?  The gate is held, so
        the graph does not change under the search.  `trail` is the chain of callers. */
    method Waiting(self: Proc, pp: Proc, ghost trail: seq<Proc>) returns (found: bool)
      requires Wellformed(State()) && Acyclic(Detached(State(), self))
      requires pp != self && self !in trail
      requires IsTrail(Detached(State(), self), trail + [pp])
      ensures found <==> Reaches(State(), pp, self)
      decreases |pending| + 1 - |trail|
    {
      ReachesFromPending(State(), pp, self);
      if pp !in pending {
        return false;
      }
      TrailIsShort(Detached(State(), self), trail + [pp]);
      DetachedSize(State(), self);
      var req := pending[pp];
      var list := active[req.ino];
      var i: nat := NextBlock(list, 0, req.lock);
      while i < |list|
        invariant i <= |list| && (i < |list| ==> Blocks(list[i], req.lock))
        invariant forall n :: 0 <= n < i && Blocks(list[n], req.lock) ==>
                    list[n].owner != self && !Reaches(State(), list[n].owner, self)
        decreases |list| - i
      {
        var q := list[i].owner;
        assert WaitsFor(State(), pp, q);
        ReachesFromPending(State(), pp, self);
        if q == self {
          return true;
        }
        TrailExtends(State(), self, trail + [pp], q);
        var deeper := Waiting(self, q, trail + [pp]);
        if deeper {
          return true;
        }
        i := NextBlock(list, i + 1, req.lock);
      }
      found := false;
    }

    /** The inner loop of waitlock: does any owner of a blocking lock wait for p?  p's own
        request is pending already and `first` is its first blocker. */
    method ClosesCycle(p: Proc, first: nat) returns (found: bool)
      requires Wellformed(State()) && Acyclic(Detached(State(), p)) && p in pending
      requires first < |active[pending[p].ino]|
      requires Blocks(active[pending[p].ino][first], pending[p].lock)
      requires forall n :: 0 <= n < first ==> !Blocks(active[pending[p].ino][n], pending[p].lock)
      ensures found <==> Reaches(State(), p, p)
    {
      var req := pending[p];
      var list := active[req.ino];
      var i := first;
      while i < |list|
        invariant i <= |list| && (i < |list| ==> Blocks(list[i], req.lock))
        invariant forall n :: 0 <= n < i && Blocks(list[n], req.lock) ==>
                    !Reaches(State(), list[n].owner, p)
        decreases |list| - i
      {
        var deeper := Waiting(p, list[i].owner, []);
        if deeper {
          ReachesFromPending(State(), p, p);
          return true;
        }
        i := NextBlock(list, i + 1, req.lock);
      }
      ReachesFromPending(State(), p, p);
      found := false;
    }

    /** waitlock, up to the sleep or the return. */
    method WaitLock(p: Proc, ino: Inode, k: Lock) returns (r: Outcome)
      requires Inv(State()) && Enabled(State(), SetLkW(p, ino, k))
      modifies this
      ensures (State(), r) == Step(old(State()), SetLkW(p, ino, k))
    {
      var i := NextBlock(active[ino], 0, k);
      if i == |active[ino]| {
        r := AddRange(ino, k);
        return;
      }
      if free == 0 {
        return Enolck(false);
      }
      free := free - 1;
      pending := pending[p := Request(ino, k)];
      assert Detached(State(), p) == old(State()).(free := free) by {
        assert pending - {p} == old(pending);
      }
      SameGraph(old(State()), Detached(State(), p));
      var deadlock := ClosesCycle(p, i);
      if deadlock {
        pending := pending - {p};
        free := free + 1;
        assert pending == old(pending);
        return Edeadlk;
      }
      return Asleep;
    }

    /** waitlock, after a wakeup and up to the next sleep or the return. */
    method AfterSleep(p: Proc, signalled: bool) returns (r: Outcome)
      requires Inv(State()) && Enabled(State(), Wake(p, signalled))
      modifies this
      ensures (State(), r) == Step(old(State()), Wake(p, signalled))
      ensures r != Edeadlk && r != Enolck(false)
    {
      hide Absorb, RemLock, AddLock, CleanAdd, OwnDisjoint, SplitsOther, Compatible, Reaches, WaitsFor;
      WokenNeverRefused(State(), p, signalled);
      CleanupKeepsInv(State(), p);
      var req := pending[p];
      if !signalled {
        var i := NextBlock(active[req.ino], 0, req.lock);
        if i < |active[req.ino]| {
          DetachedAcyclic(State(), p);
          var deadlock := ClosesCycle(p, i);
          if deadlock {
            assert false;
          }
          return Asleep;
        }
      }
      pending := pending - {p};
      free := free + 1;
      if signalled {
        return Eintr;
      }
      r := AddRange(req.ino, req.lock);
    }

    /** F_SETLK: install at once or refuse. */
    method SetLock(p: Proc, ino: Inode, k: Lock) returns (r: Outcome)
      requires Inv(State()) && Enabled(State(), SetLk(p, ino, k))
      modifies this
      ensures (State(), r) == Step(old(State()), SetLk(p, ino, k))
    {
      var i := NextBlock(active[ino], 0, k);
      if i < |active[ino]| {
        return Eacces;
      }
      r := AddRange(ino, k);
    }

    /** rlock, F_SETLK and F_SETLKW: work out the range, check the file's mode, then unlock,
        wait or install.  `base` is l_start plus the seek pointer or the file size, as
        l_whence says; `mode` tells whether the file is open for reading and for writing. */
    method RLock(p: Proc, ino: Inode, kind: LockKind, base: int, len: int, wait: bool, readable: bool, writable: bool)
      returns (r: Option<Outcome>)
      requires Inv(State()) && p !in pending && ino < |active|
      modifies this
      ensures match ToRange(base, len)
              case None => r == None && State() == old(State())
              case Some(range) =>
                var k := Lock(range.0, range.1, kind == WriteLock, p);
                var call := if kind == Unlock then Unlk(p, ino, k)
                            else if wait then SetLkW(p, ino, k) else SetLk(p, ino, k);
                if (kind == ReadLock && !readable) || (kind == WriteLock && !writable) then
                  r == None && State() == old(State())
                else
                  r.Some? && (State(), r.value) == Step(old(State()), call)
    {
      var range := ToRange(base, len);
      if range.None? {
        return None;
      }
      var k := Lock(range.value.0, range.value.1, kind == WriteLock, p);
      if kind == Unlock {
        var ok := DropRange(ino, k);
        return Some(if ok then Done else Enolck(false));
      }
      if (kind == ReadLock && !readable) || (kind == WriteLock && !writable) {
        return None;
      }
      var out;
      if wait {
        out := WaitLock(p, ino, k);
      } else {
        out := SetLock(p, ino, k);
      }
      return Some(out);
    }

    /** F_GETLK: the first lock that would make F_SETLK fail, if there is one. */
    method GetLock(p: Proc, ino: Inode, k: Lock) returns (blocker: int)
      requires Inv(State()) && Enabled(State(), SetLk(p, ino, k))
      ensures blocker == -1 <==> Step(State(), SetLk(p, ino, k)).1 != Eacces
      ensures blocker != -1 ==> 0 <= blocker < |active[ino]| && Blocks(active[ino][blocker], k)
      ensures forall i :: 0 <= i < blocker ==> !Blocks(active[ino][i], k)
    {
      var i := NextBlock(active[ino], 0, k);
      return if i == |active[ino]| then -1 else i;
    }
  }

  // --------------------------------------------- termination of the deadlock search

  /** The graph without the edges that leave p. */
  ghost function Detached(s: Sys, p: Proc): Sys {
    s.(pending := s.pending - {p})
  }

  lemma {:induction false} DetachedAcyclic(s: Sys, p: Proc)
    requires Acyclic(s)
    ensures Acyclic(Detached(s, p))
  {
    AcyclicNewEdgesToSink(s, Detached(s, p), p);
  }

  lemma {:induction false} DetachedSize(s: Sys, p: Proc)
    ensures |Detached(s, p).pending| <= |s.pending|
  {
    SubsetSize(Detached(s, p).pending.Keys, s.pending.Keys);
  }

  /** A chain of processes, each waiting for the next. */
  ghost predicate IsTrail(s: Sys, trail: seq<Proc>) {
    forall i :: 0 <= i < |trail| - 1 ==> WaitsFor(s, trail[i], trail[i + 1])
  }

  lemma {:induction false} TrailExtends(s: Sys, self: Proc, trail: seq<Proc>, q: Proc)
    requires trail != [] && IsTrail(Detached(s, self), trail)
    requires trail[|trail| - 1] != self && WaitsFor(s, trail[|trail| - 1], q)
    ensures IsTrail(Detached(s, self), trail + [q])
  {
    var t := trail + [q];
    forall i | 0 <= i < |t| - 1 ensures WaitsFor(Detached(s, self), t[i], t[i + 1]) {
      if i < |trail| - 1 {
        assert WaitsFor(Detached(s, self), trail[i], trail[i + 1]);
      }
    }
  }

  lemma {:induction false} TrailIsShort(s: Sys, trail: seq<Proc>)
    requires Acyclic(s) && IsTrail(s, trail) && trail != [] && trail[|trail| - 1] in s.pending
    ensures |trail| <= |s.pending|
  {
    if |trail| == 1 {
      SubsetSize({trail[0]}, s.pending.Keys);
    } else {
      PathIsShort(s, trail);
    }
  }

  /** Everything pp reaches, it reaches through a lock that blocks its own request. */
  lemma {:induction false} ReachesFromPending(s: Sys, pp: Proc, q: Proc)
    ensures Reaches(s, pp, q) <==>
              pp in s.pending && s.pending[pp].ino < |s.active|
              && exists n :: 0 <= n < |s.active[s.pending[pp].ino]|
                   && Blocks(s.active[s.pending[pp].ino][n], s.pending[pp].lock)
                   && (s.active[s.pending[pp].ino][n].owner == q
                       || Reaches(s, s.active[s.pending[pp].ino][n].owner, q))
  {
    ReachesStep(s, pp, q);
    if exists r :: WaitsFor(s, pp, r) && Reaches(s, r, q) {
      var r :| WaitsFor(s, pp, r) && Reaches(s, r, q);
    }
    if pp in s.pending && s.pending[pp].ino < |s.active| {
      var l := s.active[s.pending[pp].ino];
      forall n | 0 <= n < |l| && Blocks(l[n], s.pending[pp].lock) ensures WaitsFor(s, pp, l[n].owner) {
      }
    }
  }
}
