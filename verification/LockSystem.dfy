/**
  The whole record-locking system of rlock.c as a state machine.
 */
module LockSystem {
  import opened RecordLock

  // The state is the lock list of every in-core inode, the request each sleeping process waits
  // for, and the pool of free records.  One step is one stretch of code between two points where
  // the global gate __rlgate is released, so steps interleave exactly as in the kernel.

  type Inode = nat

  /** The lock a sleeping process waits for: p_prl, whose rl_next names the inode's list. */
  datatype Request = Request(ino: Inode, lock: Lock)

  datatype Sys = Sys(active: seq<seq<Lock>>, pending: map<Proc, Request>, free: nat)

  datatype Call =
    | SetLk(p: Proc, ino: Inode, k: Lock)
    | Unlk(p: Proc, ino: Inode, k: Lock)
    | SetLkW(p: Proc, ino: Inode, k: Lock)
    | Wake(p: Proc, signalled: bool)

  /** What the caller of fcntl is told.  getlock leaves ENOLCK in the user error, which is the
      answer even when addlock went on without the record: then the lock is installed. */
  datatype Outcome = Done | Eacces | Enolck(installed: bool) | Edeadlk | Eintr | Asleep

  // ------------------------------------------------------- the wait-for graph

  /** p sleeps on a request and q owns an active lock that conflicts with it. */
  ghost predicate WaitsFor(s: Sys, p: Proc, q: Proc) {
    && p in s.pending
    && s.pending[p].ino < |s.active|
    && exists i :: 0 <= i < |s.active[s.pending[p].ino]|
         && Blocks(s.active[s.pending[p].ino][i], s.pending[p].lock)
         && s.active[s.pending[p].ino][i].owner == q
  }

  ghost predicate IsPath(s: Sys, path: seq<Proc>) {
    |path| >= 2 && forall i :: 0 <= i < |path| - 1 ==> WaitsFor(s, path[i], path[i + 1])
  }

  ghost predicate Reaches(s: Sys, p: Proc, q: Proc) {
    exists path :: IsPath(s, path) && path[0] == p && path[|path| - 1] == q
  }

  ghost predicate Acyclic(s: Sys) {
    forall p :: !Reaches(s, p, p)
  }

  lemma {:induction false} ReachesStep(s: Sys, p: Proc, q: Proc)
    ensures Reaches(s, p, q) <==> WaitsFor(s, p, q) || exists r :: WaitsFor(s, p, r) && Reaches(s, r, q)
  {
    if Reaches(s, p, q) {
      var path :| IsPath(s, path) && path[0] == p && path[|path| - 1] == q;
      assert WaitsFor(s, path[0], path[1]);
      if |path| > 2 {
        var rest := path[1..];
        forall i | 0 <= i < |rest| - 1 ensures WaitsFor(s, rest[i], rest[i + 1]) {
          assert WaitsFor(s, path[i + 1], path[i + 2]);
        }
        assert IsPath(s, rest) && rest[0] == path[1] && rest[|rest| - 1] == q;
        assert Reaches(s, path[1], q);
      }
    }
    if WaitsFor(s, p, q) {
      assert IsPath(s, [p, q]) && [p, q][0] == p && [p, q][1] == q;
    }
    if exists r :: WaitsFor(s, p, r) && Reaches(s, r, q) {
      var r :| WaitsFor(s, p, r) && Reaches(s, r, q);
      var path :| IsPath(s, path) && path[0] == r && path[|path| - 1] == q;
      var longer := [p] + path;
      assert IsPath(s, longer) && longer[0] == p && longer[|longer| - 1] == q;
    }
  }

  /** If every new edge ends in a process that is not waiting, no cycle can use it. */
  lemma {:induction false} AcyclicNewEdgesToSink(s: Sys, t: Sys, sink: Proc)
    requires Acyclic(s) && sink !in t.pending
    requires forall a, b :: WaitsFor(t, a, b) ==> WaitsFor(s, a, b) || b == sink
    ensures Acyclic(t)
  {
    forall p ensures !Reaches(t, p, p) {
      forall path | IsPath(t, path) && path[0] == p && path[|path| - 1] == p
        ensures IsPath(s, path)
      {
        forall i | 0 <= i < |path| - 1 ensures WaitsFor(s, path[i], path[i + 1]) {
          var next := if i + 1 < |path| - 1 then i + 1 else 0;
          assert WaitsFor(t, path[next], path[next + 1]);
          assert path[next] == path[i + 1];
        }
      }
      assert !Reaches(s, p, p);
    }
  }

  /** Letting p wait closes a cycle only if p then reaches itself. */
  lemma {:induction false} AcyclicNewWaiter(s: Sys, t: Sys, p: Proc)
    requires Acyclic(s) && !Reaches(t, p, p)
    requires forall a, b :: a != p && WaitsFor(t, a, b) ==> WaitsFor(s, a, b)
    ensures Acyclic(t)
  {
    forall c ensures !Reaches(t, c, c) {
      forall path | IsPath(t, path) && path[0] == c && path[|path| - 1] == c
        ensures IsPath(s, path)
      {
        forall i | 0 <= i < |path| - 1 ensures WaitsFor(s, path[i], path[i + 1]) {
          assert WaitsFor(t, path[i], path[i + 1]);
          if path[i] == p {
            Rotate(t, path, i);
          }
        }
      }
      assert !Reaches(s, c, c);
    }
  }

  /** A closed path through p, started at p. */
  lemma {:induction false} Rotate(s: Sys, path: seq<Proc>, i: nat)
    requires IsPath(s, path) && path[0] == path[|path| - 1] && i < |path| - 1
    ensures Reaches(s, path[i], path[i])
  {
    var turned := path[i..] + path[1..i + 1];
    var n := |path| - 1;
    forall j | 0 <= j < |turned| - 1 ensures WaitsFor(s, turned[j], turned[j + 1]) {
      if j < n - i {
        assert turned[j] == path[i + j] && turned[j + 1] == path[i + j + 1];
      } else {
        var m := j - (n - i);
        assert WaitsFor(s, path[m], path[m + 1]);
        assert turned[j] == path[m] && turned[j + 1] == path[m + 1];
      }
    }
    assert IsPath(s, turned) && turned[0] == path[i] && turned[|turned| - 1] == path[i];
  }

  // ------------------------------------------------------------------- steps

  predicate Enabled(s: Sys, c: Call) {
    match c
    case Wake(p, _) => p in s.pending
    case _ => c.p !in s.pending && c.ino < |s.active| && Valid(c.k) && c.k.owner == c.p
  }

  function Sleeping(s: Sys, p: Proc, ino: Inode, k: Lock): Sys
    requires s.free > 0
  {
    s.(pending := s.pending[p := Request(ino, k)], free := s.free - 1)
  }

  /** cleanup(): the pending record goes back to the pool. */
  function Cleanup(s: Sys, p: Proc): Sys {
    s.(pending := s.pending - {p}, free := s.free + 1)
  }

  function Install(s: Sys, ino: Inode, k: Lock): (Sys, Outcome)
    requires ino < |s.active| && AllValid(s.active[ino]) && Valid(k)
  {
    var r := AddLock(s.active[ino], k, s.free);
    (s.(active := s.active[ino := r.list], free := r.free),
     if CleanAdd(s.active[ino], k, s.free) then Done else Enolck(r.ok))
  }

  function Remove(s: Sys, ino: Inode, k: Lock): (Sys, Outcome)
    requires ino < |s.active| && AllValid(s.active[ino]) && Valid(k)
  {
    var r := RemLock(s.active[ino], k, s.free);
    (s.(active := s.active[ino := r.list], free := r.free), if r.ok then Done else Enolck(false))
  }

  ghost function Step(s: Sys, c: Call): (Sys, Outcome)
    requires Wellformed(s) && Enabled(s, c)
  {
    match c
    case Unlk(p, ino, k) => Remove(s, ino, k)
    case SetLk(p, ino, k) =>
      if Blocked(s.active[ino], k) then (s, Eacces) else Install(s, ino, k)
    case SetLkW(p, ino, k) =>
      if !Blocked(s.active[ino], k) then Install(s, ino, k)
      else if s.free == 0 then (s, Enolck(false))
      else
        var t := Sleeping(s, p, ino, k);
        if Reaches(t, p, p) then (s, Edeadlk) else (t, Asleep)
    case Wake(p, signalled) =>
      var req := s.pending[p];
      if signalled then (Cleanup(s, p), Eintr)
      else if !Blocked(s.active[req.ino], req.lock) then Install(Cleanup(s, p), req.ino, req.lock)
      else if Reaches(s, p, p) then (Cleanup(s, p), Edeadlk)
      else (s, Asleep)
  }

  ghost predicate Wellformed(s: Sys) {
    && (forall ino :: 0 <= ino < |s.active| ==> AllValid(s.active[ino]))
    && (forall p :: p in s.pending ==>
          s.pending[p].ino < |s.active| && s.pending[p].lock.owner == p && Valid(s.pending[p].lock))
  }

  ghost predicate Safe(s: Sys) {
    forall ino :: 0 <= ino < |s.active| ==> Compatible(s.active[ino])
  }

  ghost predicate Inv(s: Sys) {
    Wellformed(s) && Safe(s) && Acyclic(s)
  }

  /** Free, active and pending records together. */
  function Records(s: Sys): nat {
    Total(s.active) + |s.pending| + s.free
  }

  function Total(lists: seq<seq<Lock>>): nat {
    if lists == [] then 0 else |lists[0]| + Total(lists[1..])
  }

  lemma {:induction false} TotalUpdate(lists: seq<seq<Lock>>, i: nat, l: seq<Lock>)
    requires i < |lists|
    ensures Total(lists[i := l]) + |lists[i]| == Total(lists) + |l|
  {
    if i == 0 {
      assert lists[0 := l][1..] == lists[1..];
    } else {
      TotalUpdate(lists[1..], i - 1, l);
      assert lists[i := l][1..] == lists[1..][i - 1 := l];
    }
  }

  // ------------------------------------------------------- steps keep the invariant

  lemma {:induction false} AddLockOthers(s: seq<Lock>, k: Lock, free: nat, b: Lock)
    requires AllValid(s) && Valid(k) && b.owner != k.owner
    ensures b in AddLock(s, k, free).list <==> b in s
  {
    var m := Absorb(s, Widened(k), k.start, k.end);
    AbsorbLeaves(s, Widened(k), k.start, k.end, b);
    if free + m.freed > 0 {
      RemLockOthers(m.list, Grown(s, k), free + m.freed - 1, b);
    }
  }

  lemma {:induction false} InstallKeepsInv(s: Sys, ino: Inode, k: Lock)
    requires Inv(s) && ino < |s.active| && Valid(k) && k.owner !in s.pending
    requires !Blocked(s.active[ino], k)
    ensures Inv(Install(s, ino, k).0)
    ensures Records(Install(s, ino, k).0) == Records(s)
  {
    var t := Install(s, ino, k).0;
    AddLockCompatible(s.active[ino], k, s.free);
    forall b: Lock | b.owner != k.owner && b in t.active[ino] ensures b in s.active[ino] {
      AddLockOthers(s.active[ino], k, s.free, b);
    }
    AcyclicNewEdgesToSink(s, t, k.owner);
    TotalUpdate(s.active, ino, t.active[ino]);
  }

  lemma {:induction false} RemoveKeepsInv(s: Sys, ino: Inode, k: Lock)
    requires Inv(s) && ino < |s.active| && Valid(k) && k.owner !in s.pending
    ensures Inv(Remove(s, ino, k).0)
    ensures Records(Remove(s, ino, k).0) == Records(s)
  {
    var t := Remove(s, ino, k).0;
    RemLockCompatible(s.active[ino], k, s.free);
    forall b: Lock | b.owner != k.owner && b in t.active[ino] ensures b in s.active[ino] {
      RemLockOthers(s.active[ino], k, s.free, b);
    }
    AcyclicNewEdgesToSink(s, t, k.owner);
    TotalUpdate(s.active, ino, t.active[ino]);
  }

  lemma {:induction false} CleanupKeepsInv(s: Sys, p: Proc)
    requires Inv(s) && p in s.pending
    ensures Inv(Cleanup(s, p))
    ensures Records(Cleanup(s, p)) == Records(s)
  {
    var t := Cleanup(s, p);
    AcyclicNewEdgesToSink(s, t, p);
    assert t.pending.Keys == s.pending.Keys - {p};
  }

  lemma {:induction false} SleepKeepsInv(s: Sys, p: Proc, ino: Inode, k: Lock)
    requires Inv(s) && p !in s.pending && ino < |s.active| && Valid(k) && k.owner == p && s.free > 0
    requires !Reaches(Sleeping(s, p, ino, k), p, p)
    ensures Inv(Sleeping(s, p, ino, k))
    ensures Records(Sleeping(s, p, ino, k)) == Records(s)
  {
    var t := Sleeping(s, p, ino, k);
    AcyclicNewWaiter(s, t, p);
    assert t.pending.Keys == s.pending.Keys + {p};
  }

  /** Every step keeps the invariant and the number of records. */
  lemma {:induction false} StepKeepsInv(s: Sys, c: Call)
    requires Inv(s) && Enabled(s, c)
    ensures Inv(Step(s, c).0)
    ensures Records(Step(s, c).0) == Records(s)
    ensures |Step(s, c).0.active| == |s.active|
  {
    match c
    case Unlk(p, ino, k) => RemoveKeepsInv(s, ino, k);
    case SetLk(p, ino, k) =>
      if !Blocked(s.active[ino], k) {
        InstallKeepsInv(s, ino, k);
      }
    case SetLkW(p, ino, k) =>
      if !Blocked(s.active[ino], k) {
        InstallKeepsInv(s, ino, k);
      } else if s.free > 0 && !Reaches(Sleeping(s, p, ino, k), p, p) {
        SleepKeepsInv(s, p, ino, k);
      }
    case Wake(p, signalled) =>
      CleanupKeepsInv(s, p);
      var req := s.pending[p];
      if !signalled && !Blocked(s.active[req.ino], req.lock) {
        InstallKeepsInv(Cleanup(s, p), req.ino, req.lock);
      }
  }

  // --------------------------------------------------------------------- runs

  function Init(inodes: nat, rlocks: nat): Sys {
    Sys(seq(inodes, _ => []), map[], rlocks)
  }

  /** The state after a run; a call that cannot be made in a state (by a sleeping process,
      or a wakeup of one that does not sleep) leaves it as it is. */
  ghost function Run(s: Sys, calls: seq<Call>): Sys
    requires Inv(s)
    ensures Inv(Run(s, calls))
    decreases |calls|
  {
    if calls == [] then s
    else
      var t := if Enabled(s, calls[0]) then Step(s, calls[0]).0 else s;
      assert Inv(t) by {
        if Enabled(s, calls[0]) {
          StepKeepsInv(s, calls[0]);
        }
      }
      Run(t, calls[1..])
  }

  lemma {:induction false} InitInv(inodes: nat, rlocks: nat)
    ensures Inv(Init(inodes, rlocks))
    ensures Records(Init(inodes, rlocks)) == rlocks
  {
    var s := Init(inodes, rlocks);
    forall p ensures !Reaches(s, p, p) {
      ReachesStep(s, p, p);
    }
    TotalEmpty(s.active);
  }

  lemma {:induction false} TotalEmpty(lists: seq<seq<Lock>>)
    requires forall i :: 0 <= i < |lists| ==> lists[i] == []
    ensures Total(lists) == 0
  {
    if lists != [] {
      TotalEmpty(lists[1..]);
    }
  }

  lemma {:induction false} RunRecords(s: Sys, calls: seq<Call>)
    requires Inv(s)
    ensures Records(Run(s, calls)) == Records(s)
    decreases |calls|
  {
    if calls != [] {
      if Enabled(s, calls[0]) {
        StepKeepsInv(s, calls[0]);
        RunRecords(Step(s, calls[0]).0, calls[1..]);
      } else {
        RunRecords(s, calls[1..]);
      }
    }
  }

  /** Over every run of any number of processes: the wait-for graph has no cycle, no two
      processes hold a byte in conflicting ways, and no record is lost or made. */
  lemma {:induction false} EveryRun(inodes: nat, rlocks: nat, calls: seq<Call>)
    ensures Inv(Init(inodes, rlocks))
    ensures Acyclic(Run(Init(inodes, rlocks), calls))
    ensures Safe(Run(Init(inodes, rlocks), calls))
    ensures Records(Run(Init(inodes, rlocks), calls)) == rlocks
  {
    InitInv(inodes, rlocks);
    RunRecords(Init(inodes, rlocks), calls);
  }

  // ----------------------------------------------------------------- deadlock

  /** The graph with p waiting, whether or not there is a record for its request. */
  function WithWaiter(s: Sys, p: Proc, ino: Inode, k: Lock): Sys {
    s.(pending := s.pending[p := Request(ino, k)])
  }

  /** EDEADLK is the answer exactly when sleeping would close a cycle and there is a record to
      sleep with; without one it is ENOLCK, cycle or not. */
  lemma {:induction false} DeadlockExactly(s: Sys, p: Proc, ino: Inode, k: Lock)
    requires Inv(s) && Enabled(s, SetLkW(p, ino, k)) && Blocked(s.active[ino], k)
    ensures Step(s, SetLkW(p, ino, k)).1 == Edeadlk <==> s.free > 0 && !Acyclic(WithWaiter(s, p, ino, k))
    ensures s.free == 0 ==> Step(s, SetLkW(p, ino, k)) == (s, Enolck(false))
    ensures s.free > 0 && Acyclic(WithWaiter(s, p, ino, k)) ==> Step(s, SetLkW(p, ino, k)).1 == Asleep
  {
    if s.free > 0 {
      var t, w := Sleeping(s, p, ino, k), WithWaiter(s, p, ino, k);
      if Acyclic(w) {
        SameGraph(w, t);
      }
      if !Reaches(t, p, p) {
        SleepKeepsInv(s, p, ino, k);
        SameGraph(t, w);
      }
    }
  }

  /** Whether there are cycles does not depend on the pool. */
  lemma {:induction false} SameGraph(s: Sys, t: Sys)
    requires Acyclic(s) && t.active == s.active && t.pending == s.pending
    ensures Acyclic(t)
  {
    forall p ensures !Reaches(t, p, p) {
      forall path | IsPath(t, path) && path[0] == p && path[|path| - 1] == p ensures IsPath(s, path) {
        forall i | 0 <= i < |path| - 1 ensures WaitsFor(s, path[i], path[i + 1]) {
          assert WaitsFor(t, path[i], path[i + 1]);
        }
      }
      assert !Reaches(s, p, p);
    }
  }

  /** A process that has slept on its request never gets EDEADLK for it.  ENOLCK it gets exactly
      when the record it waited with is the only one left and a lock of its own, of the other
      type, has to be split around the request; the lock is installed then. */
  lemma {:induction false} WokenNeverRefused(s: Sys, p: Proc, signalled: bool)
    requires Inv(s) && p in s.pending
    ensures Step(s, Wake(p, signalled)).1 in {Done, Asleep, Eintr, Enolck(true)}
    ensures var req := s.pending[p];
            OwnDisjoint(s.active[req.ino]) ==>
              (Step(s, Wake(p, signalled)).1 == Enolck(true)
               <==> !signalled && s.free == 0 && !Blocked(s.active[req.ino], req.lock)
                    && SplitsOther(s.active[req.ino], req.lock))
  {
    var req := s.pending[p];
    if !signalled && !Blocked(s.active[req.ino], req.lock) {
      AddLockFailsExactly(s.active[req.ino], req.lock, Cleanup(s, p).free);
      if OwnDisjoint(s.active[req.ino]) {
        AddLockEnolckExactly(s.active[req.ino], req.lock, Cleanup(s, p).free);
      }
    }
  }

  // ------------------------------------------------- what each answer means

  /** What a call asks for: its own lock, or the one its process has slept on. */
  function Asked(s: Sys, c: Call): Request
    requires Enabled(s, c)
  {
    if c.Wake? then s.pending[c.p] else Request(c.ino, c.k)
  }

  ghost predicate IsBlocked(s: Sys, r: Request) {
    r.ino < |s.active| && Blocked(s.active[r.ino], r.lock)
  }

  ghost predicate Granted(out: Outcome) {
    out == Done || out == Enolck(true)
  }

  /** When each answer that grants nothing is given, and what it leaves behind: EINTR to a sleeper
      that was signalled and to nobody else, EACCES to a blocked F_SETLK and to nobody else, a
      sleep and EDEADLK as the wait-for graph says.  No list changes with any of them. */
  lemma {:induction false} RefusalsExactly(s: Sys, c: Call)
    requires Inv(s) && Enabled(s, c)
    ensures Step(s, c).1 == Eintr <==> c.Wake? && c.signalled
    ensures Step(s, c).1 == Eintr ==> Step(s, c).0 == Sys(s.active, s.pending - {c.p}, s.free + 1)
    ensures Step(s, c).1 == Eacces <==> c.SetLk? && IsBlocked(s, Asked(s, c))
    ensures Step(s, c).1 == Edeadlk
            <==> c.SetLkW? && IsBlocked(s, Asked(s, c)) && s.free > 0 && !Acyclic(WithWaiter(s, c.p, c.ino, c.k))
    ensures Step(s, c).1 in {Eacces, Edeadlk} ==> Step(s, c).0 == s
    ensures Step(s, c).1 == Asleep
            <==> IsBlocked(s, Asked(s, c))
                 && ((c.Wake? && !c.signalled) || (c.SetLkW? && s.free > 0 && Acyclic(WithWaiter(s, c.p, c.ino, c.k))))
    ensures Step(s, c).1 == Asleep ==>
              Step(s, c).0.active == s.active && Step(s, c).0.pending == s.pending[c.p := Asked(s, c)]
    ensures Granted(Step(s, c).1) ==> Step(s, c).0.pending == s.pending - {c.p}
  {
    match c
    case SetLkW(p, ino, k) =>
      if Blocked(s.active[ino], k) {
        DeadlockExactly(s, p, ino, k);
      }
      assert s.pending - {p} == s.pending;
    case Wake(p, signalled) => WokenNeverRefused(s, p, signalled);
    case _ => assert s.pending - {c.p} == s.pending;
  }

  /** What a granted call, or a failed one, does to the locks, as a map from process and byte to
      lock type.  A granted request holds all its bytes with its type and, unless the answer is
      ENOLCK, with no other; a successful unlock leaves none of its bytes; other files, other
      owners and bytes outside the range are as before. */
  lemma {:induction false} StepExact(s: Sys, c: Call, ino: Inode, q: Proc, x: nat, w: bool)
    requires Inv(s) && Enabled(s, c) && ino < |s.active|
    ensures |Step(s, c).0.active| == |s.active|
    ensures var t, out, r := Step(s, c).0.active[ino], Step(s, c).1, Asked(s, c);
            var mine := ino == r.ino && q == c.p && Covers(r.lock, x);
            && (ino != r.ino ==> t == s.active[ino])
            && (mine && Granted(out) && !c.Unlk? && w == r.lock.write ==> Holds(t, q, x, w))
            && (mine && out == Done && !c.Unlk? && w != r.lock.write ==> !Holds(t, q, x, w))
            && (mine && out == Done && c.Unlk? ==> !Holds(t, q, x, w))
            && (mine && !Granted(out) && Holds(t, q, x, w) ==> Holds(s.active[ino], q, x, w))
            && (!mine && (q != c.p || NonRedundant(s.active[ino])) ==>
                  (Holds(t, q, x, w) <==> Holds(s.active[ino], q, x, w)))
  {
    hide RemLock, AddLock, CleanAdd, Holds, NonRedundant, Acyclic, Safe, Reaches, Covers, Blocked, Install, Remove;
    StepKeepsInv(s, c);
    match c
    case Unlk(_, n, k) => RemoveExact(s, n, k, ino, q, x, w);
    case SetLk(_, n, k) => InstallExact(s, n, k, ino, q, x, w);
    case SetLkW(_, n, k) => InstallExact(s, n, k, ino, q, x, w);
    case Wake(p, _) => InstallExact(Cleanup(s, p), s.pending[p].ino, s.pending[p].lock, ino, q, x, w);
  }

  lemma {:induction false} RemoveExact(s: Sys, n: Inode, k: Lock, ino: Inode, q: Proc, x: nat, w: bool)
    requires Wellformed(s) && n < |s.active| && ino < |s.active| && Valid(k)
    ensures var t, out := Remove(s, n, k).0.active[ino], Remove(s, n, k).1;
            var mine := ino == n && q == k.owner && Covers(k, x);
            && (ino != n ==> t == s.active[ino]) && (out == Done || out == Enolck(false))
            && (mine && out == Done ==> !Holds(t, q, x, w))
            && (mine && Holds(t, q, x, w) ==> Holds(s.active[ino], q, x, w))
            && (!mine ==> (Holds(t, q, x, w) <==> Holds(s.active[ino], q, x, w)))
  {
    hide RemLock, Holds, Covers;
    RemLockExact(s.active[n], k, s.free, q, x, w);
  }

  lemma {:induction false} InstallExact(s: Sys, n: Inode, k: Lock, ino: Inode, q: Proc, x: nat, w: bool)
    requires Wellformed(s) && n < |s.active| && ino < |s.active| && Valid(k)
    ensures var t, out := Install(s, n, k).0.active[ino], Install(s, n, k).1;
            var mine := ino == n && q == k.owner && Covers(k, x);
            && (ino != n ==> t == s.active[ino])
            && (mine && Granted(out) && w == k.write ==> Holds(t, q, x, w))
            && (mine && out == Done && w != k.write ==> !Holds(t, q, x, w))
            && (mine && !Granted(out) ==> t == s.active[ino])
            && (!mine && (q != k.owner || NonRedundant(s.active[ino])) ==>
                  (Holds(t, q, x, w) <==> Holds(s.active[ino], q, x, w)))
  {
    AddLockFailsExactly(s.active[n], k, s.free);
    AddLockIfClean(s.active[n], k, s.free);
    hide AddLock, CleanAdd, Holds, NonRedundant, Covers, Blocked;
    if AddLock(s.active[n], k, s.free).ok {
      AddLockBounds(s.active[n], k, s.free, q, x, w);
      AddLockOutside(s.active[n], k, s.free, q, x, w);
    }
  }

  // ------------------------------------------------- redundant locks and ENOLCK

  /** Nowhere does one process cover a byte with two locks. */
  ghost predicate AllDisjoint(s: Sys) {
    forall ino :: 0 <= ino < |s.active| ==> OwnDisjoint(s.active[ino])
  }

  /** Whether a call can use up the pool: when fcntl answers ENOLCK, and whether the request is
      granted all the same, read off the state before the call. */
  ghost predicate RunsShort(s: Sys, ino: Inode, k: Lock, free: nat)
    requires ino < |s.active|
  {
    (free == 0 && !HasNeighbour(s.active[ino], k)) || (free == 1 && SplitsOther(s.active[ino], k))
  }

  /** ENOLCK for every kind of call, and whether the lock is installed with it. */
  lemma {:induction false} EnolckExactly(s: Sys, c: Call)
    requires Inv(s) && Enabled(s, c) && AllDisjoint(s)
    ensures match c
            case Unlk(_, ino, k) =>
              Step(s, c).1.Enolck? <==> s.free == 0 && exists h :: h in s.active[ino] && Straddles(h, k)
            case SetLk(_, ino, k) =>
              Step(s, c).1.Enolck? <==> !Blocked(s.active[ino], k) && RunsShort(s, ino, k, s.free)
            case SetLkW(_, ino, k) =>
              Step(s, c).1.Enolck?
              <==> if Blocked(s.active[ino], k) then s.free == 0 else RunsShort(s, ino, k, s.free)
            case Wake(p, signalled) =>
              var req := s.pending[p];
              Step(s, c).1.Enolck?
              <==> !signalled && !Blocked(s.active[req.ino], req.lock) && RunsShort(s, req.ino, req.lock, s.free + 1)
    ensures Step(s, c).1.Enolck? ==> (Step(s, c).1.installed <==> Step(s, c).0.active != s.active)
    ensures Step(s, c).1 == Enolck(false) ==> Step(s, c).0 == s
  {
    match c
    case Unlk(_, ino, k) =>
      RemLockFailsExactly(s.active[ino], k, s.free);
      if !RemLock(s.active[ino], k, s.free).ok {
        FailedUnlockKeeps(s.active[ino], k, s.free);
        assert s.active[ino := s.active[ino]] == s.active;
      }
    case SetLk(_, ino, k) => InstallEnolck(s, ino, k);
    case SetLkW(_, ino, k) => InstallEnolck(s, ino, k);
    case Wake(p, _) => InstallEnolck(Cleanup(s, p), s.pending[p].ino, s.pending[p].lock);
  }

  lemma {:induction false} InstallEnolck(s: Sys, ino: Inode, k: Lock)
    requires Wellformed(s) && AllDisjoint(s) && ino < |s.active| && Valid(k)
    ensures Install(s, ino, k).1.Enolck? <==> RunsShort(s, ino, k, s.free)
    ensures Install(s, ino, k).1 == Enolck(false) ==> Install(s, ino, k).0 == s && s.free == 0
    ensures Install(s, ino, k).1 == Enolck(true) ==> Install(s, ino, k).0.active != s.active
  {
    AddLockEnolckExactly(s.active[ino], k, s.free);
    AddLockFailsExactly(s.active[ino], k, s.free);
    assert s.active[ino := s.active[ino]] == s.active;
    if Install(s, ino, k).1 == Enolck(true) {
      SplitMeansAlone(s.active[ino], k);
      assert Install(s, ino, k).0.active[ino] != s.active[ino];
    }
  }

  /** As long as no lock is installed with ENOLCK, locks of one owner stay disjoint. */
  lemma {:induction false} StepKeepsDisjoint(s: Sys, c: Call)
    requires Inv(s) && Enabled(s, c) && AllDisjoint(s) && Step(s, c).1 != Enolck(true)
    ensures AllDisjoint(Step(s, c).0)
  {
    match c
    case Unlk(_, ino, k) => RemLockKeepsDisjoint(s.active[ino], k, s.free);
    case SetLk(_, ino, k) => InstallKeepsDisjoint(s, ino, k);
    case SetLkW(_, ino, k) => InstallKeepsDisjoint(s, ino, k);
    case Wake(p, _) => InstallKeepsDisjoint(Cleanup(s, p), s.pending[p].ino, s.pending[p].lock);
  }

  lemma {:induction false} InstallKeepsDisjoint(s: Sys, ino: Inode, k: Lock)
    requires Wellformed(s) && AllDisjoint(s) && ino < |s.active| && Valid(k)
    ensures Install(s, ino, k).1 != Enolck(true) ==> AllDisjoint(Install(s, ino, k).0)
  {
    if CleanAdd(s.active[ino], k, s.free) {
      AddLockKeepsDisjoint(s.active[ino], k, s.free);
    } else {
      AddLockFailsExactly(s.active[ino], k, s.free);
    }
  }

  ghost predicate NeverShort(s: Sys, calls: seq<Call>)
    requires Inv(s)
    decreases |calls|
  {
    calls == [] ||
    if Enabled(s, calls[0]) then
      StepKeepsInv(s, calls[0]);
      Step(s, calls[0]).1 != Enolck(true) && NeverShort(Step(s, calls[0]).0, calls[1..])
    else
      NeverShort(s, calls[1..])
  }

  /** Over every run: until the first ENOLCK given with an installed lock, no process covers a
      byte twice, so EnolckExactly and the exact map updates apply to every call. */
  lemma {:induction false} RunStaysDisjoint(s: Sys, calls: seq<Call>)
    requires Inv(s) && AllDisjoint(s) && NeverShort(s, calls)
    ensures AllDisjoint(Run(s, calls))
    decreases |calls|
  {
    if calls != [] {
      if Enabled(s, calls[0]) {
        StepKeepsInv(s, calls[0]);
        StepKeepsDisjoint(s, calls[0]);
        RunStaysDisjoint(Step(s, calls[0]).0, calls[1..]);
      } else {
        RunStaysDisjoint(s, calls[1..]);
      }
    }
  }

  ghost predicate AllCoalesced(s: Sys) {
    forall ino :: 0 <= ino < |s.active| ==> Coalesced(s.active[ino])
  }

  lemma {:induction false} StepKeepsCoalesced(s: Sys, c: Call)
    requires Inv(s) && Enabled(s, c) && AllCoalesced(s)
    ensures AllCoalesced(Step(s, c).0)
  {
    match c
    case Unlk(_, ino, k) => RemLockKeepsCoalesced(s.active[ino], k, s.free);
    case SetLk(_, ino, k) => AddLockKeepsCoalesced(s.active[ino], k, s.free);
    case SetLkW(_, ino, k) => AddLockKeepsCoalesced(s.active[ino], k, s.free);
    case Wake(p, _) => AddLockKeepsCoalesced(s.active[s.pending[p].ino], s.pending[p].lock, s.free + 1);
  }

  lemma {:induction false} RunKeepsCoalesced(s: Sys, calls: seq<Call>)
    requires Inv(s) && AllCoalesced(s)
    ensures AllCoalesced(Run(s, calls))
    decreases |calls|
  {
    if calls != [] {
      if Enabled(s, calls[0]) {
        StepKeepsInv(s, calls[0]);
        StepKeepsCoalesced(s, calls[0]);
        RunKeepsCoalesced(Step(s, calls[0]).0, calls[1..]);
      } else {
        RunKeepsCoalesced(s, calls[1..]);
      }
    }
  }

  /** Over every run, ENOLCK or not: no two locks of one process and type on a file overlap or
      adjoin, so no record is spent on a stretch that another one could cover. */
  lemma {:induction false} NeighboursMerged(inodes: nat, rlocks: nat, calls: seq<Call>)
    ensures Inv(Init(inodes, rlocks)) && AllCoalesced(Run(Init(inodes, rlocks), calls))
  {
    InitInv(inodes, rlocks);
    RunKeepsCoalesced(Init(inodes, rlocks), calls);
  }

  /** The shortest run into that case: one process, two records.  It locks the file for writing
      and asks to read bytes 10 to 19: ENOLCK, with the lock installed. */
  lemma {:induction false} EnolckWhileInstalled()
    ensures Inv(Init(1, 2))
    ensures var s := Run(Init(1, 2), [SetLk(1, 0, Lock(0, -1, true, 1))]);
            var c := SetLk(1, 0, Lock(10, 19, false, 1));
            && Inv(s) && Enabled(s, c) && Step(s, c).1 == Enolck(true)
            && Step(s, c).0.active[0] == [Lock(10, 19, false, 1), Lock(0, -1, true, 1)]
  {
    InitInv(1, 2);
    var i, first := Init(1, 2), SetLk(1, 0, Lock(0, -1, true, 1));
    var s := Step(i, first).0;
    assert i.active[0] == [];
    assert s.active[0] == [Lock(0, -1, true, 1)] && s.free == 1;
    StepKeepsInv(i, first);
    assert Run(i, [first]) == Run(s, [first][1..]) == s;
    InstalledWithEnolck();
  }

  /** And the same for a process that has slept: 1 reads the whole file, 2 reads bytes 10 to 19,
      1 asks to write 12 and sleeps, 2 unlocks, 3 takes the record this gives back, 1 wakes. */
  lemma {:induction false} EnolckAfterSleep(i: Sys, calls: seq<Call>)
    requires i == Init(1, 3) && calls == EnolckCalls()
    ensures Inv(i)
    ensures var s := Run(i, calls);
            Inv(s) && Enabled(s, Wake(1, false)) && Step(s, Wake(1, false)).1 == Enolck(true)
  {
    InitInv(1, 3);
    hide *;
    var one, three := Lock(0, -1, false, 1), Lock(500, 600, false, 3);
    var asleep := Sys([[Lock(10, 19, false, 2), one]], map[1 := Request(0, Lock(12, 12, true, 1))], 0);
    EnolckCallsAre();
    RunToSleep(i, calls, asleep);
    RunToWake(asleep, calls);
    WokenShort(asleep.(active := [[three, one]]));
  }

  lemma {:induction false} RunToWake(asleep: Sys, calls: seq<Call>)
    requires calls == EnolckCalls() && Inv(asleep) && |calls| == 5
    requires asleep == Sys([[Lock(10, 19, false, 2), Lock(0, -1, false, 1)]], map[1 := Request(0, Lock(12, 12, true, 1))], 0)
    ensures var s := asleep.(active := [[Lock(500, 600, false, 3), Lock(0, -1, false, 1)]]);
            Inv(s) && Run(asleep, calls[3..]) == s
  {
    hide *;
    var one, three := Lock(0, -1, false, 1), Lock(500, 600, false, 3);
    EnolckCallsAre();
    assert [three] + [one] == [three, one];
    UnlockReader(asleep);
    RunOne(asleep, calls, 3, asleep.(active := [[one]], free := 1));
    FirstLock(asleep.(active := [[one]], free := 1), [one], three);
    RunOne(asleep.(active := [[one]], free := 1), calls, 4, asleep.(active := [[three, one]]));
    RunNothing(asleep.(active := [[three, one]]), calls);
  }

  lemma {:induction false} RunToSleep(i: Sys, calls: seq<Call>, asleep: Sys)
    requires i == Init(1, 3) && calls == EnolckCalls() && Inv(i) && |calls| == 5
    requires asleep == Sys([[Lock(10, 19, false, 2), Lock(0, -1, false, 1)]], map[1 := Request(0, Lock(12, 12, true, 1))], 0)
    ensures Inv(asleep) && Run(i, calls) == Run(asleep, calls[3..])
  {
    hide *;
    var one, two := Lock(0, -1, false, 1), Lock(10, 19, false, 2);
    EnolckCallsAre();
    assert calls[0..] == calls && [one] + [] == [one] && [two] + [one] == [two, one];
    FirstLock(i, [], one);
    RunOne(i, calls, 0, i.(active := [[one]], free := 2));
    FirstLock(i.(active := [[one]], free := 2), [one], two);
    RunOne(i.(active := [[one]], free := 2), calls, 1, i.(active := [[two, one]], free := 1));
    SleepOnReader(i.(active := [[two, one]], free := 1), asleep.pending);
    RunOne(i.(active := [[two, one]], free := 1), calls, 2, asleep);
  }

  /** A process without a lock on the file is granted one that is not blocked. */
  lemma {:induction false} FirstLock(s: Sys, l: seq<Lock>, k: Lock)
    requires Inv(s) && s.active == [l] && s.free > 0 && k.owner !in s.pending && (k.end == -1 || k.start <= k.end)
    requires forall h :: h in l ==> h.owner != k.owner && !h.write && !k.write
    ensures Enabled(s, SetLk(k.owner, 0, k))
    ensures Step(s, SetLk(k.owner, 0, k)).0 == s.(active := [[k] + l], free := s.free - 1)
  {
    AbsorbKeepsAll(l, Widened(k), k.start, k.end);
    RemLockNoOwn(l, k, s.free - 1);
    assert s.active[0 := [k] + l] == [[k] + l];
  }

  lemma {:induction false} SleepOnReader(s: Sys, p: map<Proc, Request>)
    requires s == Sys([[Lock(10, 19, false, 2), Lock(0, -1, false, 1)]], map[], 1) && Inv(s)
    requires p == map[1 := Request(0, Lock(12, 12, true, 1))]
    ensures Enabled(s, SetLkW(1, 0, Lock(12, 12, true, 1)))
    ensures Step(s, SetLkW(1, 0, Lock(12, 12, true, 1))) == (Sys(s.active, p, 0), Asleep)
  {
    var t := Sys(s.active, p, 0);
    assert Blocks(s.active[0][0], Lock(12, 12, true, 1));
    assert t == Sleeping(s, 1, 0, Lock(12, 12, true, 1));
    forall q | WaitsFor(t, 1, q) ensures q == 2 && !Reaches(t, q, 1) {
      ReachesStep(t, 2, 1);
    }
    ReachesStep(t, 1, 1);
    assert !Reaches(t, 1, 1);
    assert Blocked(s.active[0], Lock(12, 12, true, 1));
    assert Enabled(s, SetLkW(1, 0, Lock(12, 12, true, 1)));
  }

  lemma {:induction false} UnlockReader(s: Sys)
    requires s == Sys([[Lock(10, 19, false, 2), Lock(0, -1, false, 1)]], s.pending, 0) && Inv(s) && 2 !in s.pending
    ensures Enabled(s, Unlk(2, 0, Lock(10, 19, false, 2)))
    ensures Step(s, Unlk(2, 0, Lock(10, 19, false, 2))).0 == Sys([[Lock(0, -1, false, 1)]], s.pending, 1)
  {
    var two, one := Lock(10, 19, false, 2), Lock(0, -1, false, 1);
    assert [two, one][1..] == [one];
    RemLockNoOwn([one], two, 1);
    assert RemLock([two, one], two, 0) == ListResult(true, [] + [one], 1) && [] + [one] == [one];
    assert s.active[0 := [one]] == [[one]];
  }

  lemma {:induction false} WokenShort(s: Sys)
    requires s == Sys([[Lock(500, 600, false, 3), Lock(0, -1, false, 1)]], map[1 := Request(0, Lock(12, 12, true, 1))], 0)
    requires Inv(s)
    ensures Enabled(s, Wake(1, false)) && Step(s, Wake(1, false)).1 == Enolck(true)
  {
    hide Inv, Step;
    var l, req := s.active[0], s.pending[1].lock;
    assert l[1] in l && Straddles(l[1], req);
    assert l[1..][1..] == [] && l[1..][0] == l[1];
    assert OwnDisjoint([]) && OwnDisjoint(l[1..]) && !Meets(l[0], req) && !Blocks(l[1], req);
    WokenNeverRefused(s, 1, false);
  }

  lemma {:induction false} RunNothing(s: Sys, calls: seq<Call>)
    requires Inv(s)
    ensures calls[0..] == calls && Run(s, calls[|calls|..]) == s
  {}

  lemma {:induction false} EnolckCallsAre()
    ensures Init(1, 3) == Sys([[]], map[], 3) && |EnolckCalls()| == 5
    ensures EnolckCalls()[0] == SetLk(1, 0, Lock(0, -1, false, 1))
    ensures EnolckCalls()[1] == SetLk(2, 0, Lock(10, 19, false, 2))
    ensures EnolckCalls()[2] == SetLkW(1, 0, Lock(12, 12, true, 1))
    ensures EnolckCalls()[3] == Unlk(2, 0, Lock(10, 19, false, 2))
    ensures EnolckCalls()[4] == SetLk(3, 0, Lock(500, 600, false, 3))
  {}

  function EnolckCalls(): seq<Call> {
    [SetLk(1, 0, Lock(0, -1, false, 1)), SetLk(2, 0, Lock(10, 19, false, 2)), SetLkW(1, 0, Lock(12, 12, true, 1)),
     Unlk(2, 0, Lock(10, 19, false, 2)), SetLk(3, 0, Lock(500, 600, false, 3))]
  }

  /** One step of a concrete run. */
  lemma {:induction false} RunOne(s: Sys, calls: seq<Call>, n: nat, t: Sys)
    requires Inv(s) && n < |calls| && Enabled(s, calls[n]) && Step(s, calls[n]).0 == t
    ensures Inv(t) && Run(s, calls[n..]) == Run(t, calls[n + 1..])
  {
    StepKeepsInv(s, calls[n]);
    assert calls[n..][0] == calls[n] && calls[n..][1..] == calls[n + 1..];
  }

  /** The inode whose sleepers rlock wakes when it returns. */
  function Woken(s: Sys, c: Call): Inode
    requires Wellformed(s) && Enabled(s, c)
  {
    if c.Wake? then s.pending[c.p].ino else c.ino
  }

  /** No lost wakeup: a sleeper's request can become grantable only in a step that ends by
      waking the sleepers of its own inode. */
  lemma {:induction false} GrantableOnlyWhenWoken(s: Sys, c: Call, p: Proc)
    requires Inv(s) && Enabled(s, c) && p in s.pending && p in Step(s, c).0.pending
    requires Blocked(s.active[s.pending[p].ino], s.pending[p].lock)
    ensures Inv(Step(s, c).0) && Step(s, c).0.pending[p] == s.pending[p]
    ensures Blocked(Step(s, c).0.active[s.pending[p].ino], s.pending[p].lock)
            || s.pending[p].ino == Woken(s, c)
  {
    StepKeepsInv(s, c);
  }

  lemma {:induction false} BlockedMeansEdge(s: Sys, p: Proc)
    requires Wellformed(s) && p in s.pending && Blocked(s.active[s.pending[p].ino], s.pending[p].lock)
    ensures exists q :: WaitsFor(s, p, q)
  {
    var l := s.active[s.pending[p].ino];
    var i :| 0 <= i < |l| && Blocks(l[i], s.pending[p].lock);
    assert WaitsFor(s, p, l[i].owner);
  }

  /** Nobody waits for ever because of a deadlock: behind every blocked process stands one
      that is running, or whose request can be granted at its next wakeup. */
  lemma {:induction false} SomeoneCanMove(s: Sys, p: Proc)
    requires Inv(s) && p in s.pending && Blocked(s.active[s.pending[p].ino], s.pending[p].lock)
    ensures exists q :: Reaches(s, p, q)
              && (q !in s.pending || !Blocked(s.active[s.pending[q].ino], s.pending[q].lock))
  {
    BlockedMeansEdge(s, p);
    var q :| WaitsFor(s, p, q);
    ReachesStep(s, p, q);
    WalkOut(s, p, [p, q]);
  }

  /** Follow edges from the end of a path; without cycles the walk cannot stay among the
      finitely many sleeping processes. */
  lemma {:induction false} WalkOut(s: Sys, p: Proc, path: seq<Proc>)
    requires Inv(s) && IsPath(s, path) && path[0] == p
    ensures exists q :: Reaches(s, p, q)
              && (q !in s.pending || !Blocked(s.active[s.pending[q].ino], s.pending[q].lock))
    decreases |s.pending| + 1 - |path|
  {
    var last := path[|path| - 1];
    assert Reaches(s, p, last);
    if last in s.pending && Blocked(s.active[s.pending[last].ino], s.pending[last].lock) {
      BlockedMeansEdge(s, last);
      var q :| WaitsFor(s, last, q);
      PathIsShort(s, path);
      WalkOut(s, p, path + [q]);
    }
  }

  ghost function Nodes(path: seq<Proc>): set<Proc> {
    set i | 0 <= i < |path| :: path[i]
  }

  lemma {:induction false} PathReaches(s: Sys, path: seq<Proc>, i: nat, j: nat)
    requires IsPath(s, path) && i < j < |path|
    ensures Reaches(s, path[i], path[j])
  {
    var part := path[i..j + 1];
    assert IsPath(s, part) && part[0] == path[i] && part[|part| - 1] == path[j];
  }

  lemma {:induction false} PathIsShort(s: Sys, path: seq<Proc>)
    requires Acyclic(s) && IsPath(s, path) && path[|path| - 1] in s.pending
    ensures |path| <= |s.pending|
  {
    forall i, j | 0 <= i < j < |path| ensures path[i] != path[j] {
      PathReaches(s, path, i, j);
    }
    DistinctSize(path);
    forall i | 0 <= i < |path| ensures path[i] in s.pending {
      if i < |path| - 1 {
        assert WaitsFor(s, path[i], path[i + 1]);
      }
    }
    SubsetSize(Nodes(path), s.pending.Keys);
  }

  lemma {:induction false} DistinctSize(path: seq<Proc>)
    requires forall i, j :: 0 <= i < j < |path| ==> path[i] != path[j]
    ensures |Nodes(path)| == |path|
  {
    if path == [] {
    } else {
      var front := path[..|path| - 1];
      DistinctSize(front);
      assert Nodes(path) == Nodes(front) + {path[|path| - 1]};
    }
  }

  lemma {:induction false} SubsetSize(a: set<Proc>, b: set<Proc>)
    requires a <= b
    ensures |a| <= |b|
  {
    if x :| x in a {
      SubsetSize(a - {x}, b - {x});
    }
  }
}
