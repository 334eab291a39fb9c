/**
  The timing wheel of timeout.c and clock.c: 32 doubly linked lists of armed timers, and the
  counters that carry clock ticks from the interrupt to the scan.

  A timer is on the list of the slot its due tick falls in.  The scan visits one list for each
  tick; a tick that was only counted while the scan could not run is served later, and the
  timers due at it with it.
 */
module Timers {
  import opened Lists

  const SLOTS: nat := 32

  /** t_last: where the pointer to this timer is kept. */
  datatype Place = Off | Head(slot: nat) | After(timer: nat)

  datatype Tim = Tim(next: int, last: Place, due: nat)

  function PlaceOf(q: seq<nat>, slot: nat, k: int): Place {
    if 0 < k <= |q| then After(q[k - 1]) else Head(slot)
  }

  /** The list of a slot runs through exactly these timers, linked both ways. */
  ghost predicate QueueIs(t: seq<Tim>, head: int, q: seq<nat>, slot: nat) {
    && head == At(q, 0) && NoDup(q)
    && forall k :: 0 <= k < |q| ==> q[k] < |t| && Linked(t[q[k]], q, slot, k)
  }

  predicate Linked(x: Tim, q: seq<nat>, slot: nat, k: int) {
    x.next == At(q, k + 1) && x.last == PlaceOf(q, slot, k) && x.due % SLOTS == slot
  }

  /** Every armed timer is in the list of its time and in no other; the rest are in none. */
  ghost predicate WheelOK(t: seq<Tim>, heads: seq<int>, qs: seq<seq<nat>>) {
    && |heads| == |qs| == SLOTS
    && (forall s :: 0 <= s < SLOTS ==> QueueIs(t, heads[s], qs[s], s))
    && forall i :: 0 <= i < |t| && t[i].last != Off ==> i in qs[t[i].due % SLOTS]
  }

  predicate Armed(x: Tim) {
    x.last != Off
  }

  // ------------------------------------------------------------------ unlink and link

  /** The timers after entry k of a list has been unlinked. */
  function Unlinked(t: seq<Tim>, q: seq<nat>, slot: nat, k: nat): seq<Tim>
    requires k < |q| && forall j :: 0 <= j < |q| ==> q[j] < |t|
  {
    var i := q[k];
    var a := t[i := t[i].(last := Off)];
    var b := if k > 0 then a[q[k - 1] := a[q[k - 1]].(next := At(q, k + 1))] else a;
    if k + 1 < |q| then b[q[k + 1] := b[q[k + 1]].(last := PlaceOf(q, slot, k))] else b
  }

  lemma {:induction false} UnlinkedAt(t: seq<Tim>, q: seq<nat>, slot: nat, k: nat, j: nat)
    requires k < |q| && NoDup(q) && j < |t| && forall m :: 0 <= m < |q| ==> q[m] < |t|
    ensures |Unlinked(t, q, slot, k)| == |t| && Unlinked(t, q, slot, k)[j].due == t[j].due
    ensures Unlinked(t, q, slot, k)[j].next == if k > 0 && j == q[k - 1] then At(q, k + 1) else t[j].next
    ensures Unlinked(t, q, slot, k)[j].last
            == if j == q[k] then Off else if k + 1 < |q| && j == q[k + 1] then PlaceOf(q, slot, k) else t[j].last
  {}

  lemma {:induction false} UnlinkQueue(t: seq<Tim>, head: int, q: seq<nat>, slot: nat, k: nat)
    requires QueueIs(t, head, q, slot) && k < |q|
    ensures QueueIs(Unlinked(t, q, slot, k), if k == 0 then t[q[k]].next else head, Cut(q, k), slot)
  {
    hide Unlinked, Cut;
    var u, m := Unlinked(t, q, slot, k), Cut(q, k);
    CutNoDup(q, k);
    UnlinkedAt(t, q, slot, k, q[k]);
    forall p | 0 <= p < |m| ensures m[p] < |u| && Linked(u[m[p]], m, slot, p) {
      UnlinkOne(t, head, q, slot, k, p);
    }
  }

  lemma {:induction false} UnlinkOne(t: seq<Tim>, head: int, q: seq<nat>, slot: nat, k: nat, p: nat)
    requires QueueIs(t, head, q, slot) && k < |q| && p + 1 < |q|
    ensures |Cut(q, k)| == |q| - 1 && Cut(q, k)[p] < |Unlinked(t, q, slot, k)|
    ensures Linked(Unlinked(t, q, slot, k)[Cut(q, k)[p]], Cut(q, k), slot, p)
  {
    hide Unlinked, Cut, NoDup;
    CutEntry(q, k, p);
    var j := if p < k then p else p + 1;
    Distinct(q, j, k);
    assert q[j] < |t| && Linked(t[q[j]], q, slot, j);
    assert NoDup(q) && forall m :: 0 <= m < |q| ==> q[m] < |t|;
    hide QueueIs;
    UnlinkedAt(t, q, slot, k, q[j]);
  }

  lemma Distinct(q: seq<nat>, j: nat, k: nat)
    requires NoDup(q) && j < |q| && k < |q| && j != k
    ensures q[j] != q[k] && (k > 0 ==> (q[j] == q[k - 1] <==> j == k - 1)) && (k + 1 < |q| ==> (q[j] == q[k + 1] <==> j == k + 1))
  {}

  lemma {:induction false} OtherQueue(t: seq<Tim>, head: int, q: seq<nat>, slot: nat, u: seq<Tim>)
    requires QueueIs(t, head, q, slot) && |u| == |t|
    requires forall k :: 0 <= k < |q| && q[k] < |t| ==> u[q[k]] == t[q[k]]
    ensures QueueIs(u, head, q, slot)
  {}

  /** The first half of timeout: a timer that is armed leaves its list. */
  lemma {:induction false} UnlinkKeepsWheel(t: seq<Tim>, heads: seq<int>, qs: seq<seq<nat>>, s: nat, k: nat)
    requires WheelOK(t, heads, qs) && s < SLOTS && k < |qs[s]|
    ensures forall j :: 0 <= j < |qs[s]| ==> qs[s][j] < |t|
    ensures WheelOK(Unlinked(t, qs[s], s, k), if k == 0 then heads[s := t[qs[s][k]].next] else heads, qs[s := Cut(qs[s], k)])
  {
    hide Unlinked, Cut;
    var q := qs[s];
    assert QueueIs(t, heads[s], q, s);
    var u, m := Unlinked(t, q, s, k), Cut(q, k);
    var hs, rs := if k == 0 then heads[s := t[q[k]].next] else heads, qs[s := m];
    CutNoDup(q, k);
    UnlinkQueue(t, heads[s], q, s, k);
    UnlinkedAt(t, q, s, k, q[k]);
    forall r | 0 <= r < SLOTS ensures QueueIs(u, hs[r], rs[r], r) {
      if r != s {
        OtherSlot(t, heads, qs, s, k, r);
      }
    }
    forall i | 0 <= i < |u| && u[i].last != Off ensures i in rs[u[i].due % SLOTS] {
      UnlinkedAt(t, q, s, k, i);
      assert i in q ==> i != q[k];
      QueueMembers(t, heads[s], q, s, i);
    }
  }

  lemma {:induction false} QueueMembers(t: seq<Tim>, head: int, q: seq<nat>, slot: nat, i: nat)
    requires QueueIs(t, head, q, slot)
    ensures i in q ==> i < |t| && t[i].due % SLOTS == slot && Armed(t[i])
  {
    if i in q {
      var k :| 0 <= k < |q| && q[k] == i;
      assert Linked(t[q[k]], q, slot, k);
    }
  }

  lemma {:induction false} OtherSlot(t: seq<Tim>, heads: seq<int>, qs: seq<seq<nat>>, s: nat, k: nat, r: nat)
    requires WheelOK(t, heads, qs) && s < SLOTS && r < SLOTS && r != s && k < |qs[s]|
    requires forall j :: 0 <= j < |qs[s]| ==> qs[s][j] < |t|
    ensures QueueIs(Unlinked(t, qs[s], s, k), heads[r], qs[r], r)
  {
    hide Unlinked;
    assert QueueIs(t, heads[s], qs[s], s) && QueueIs(t, heads[r], qs[r], r);
    var u := Unlinked(t, qs[s], s, k);
    UnlinkedAt(t, qs[s], s, k, qs[s][k]);
    forall j | 0 <= j < |qs[r]| ensures u[qs[r][j]] == t[qs[r][j]] {
      var i := qs[r][j];
      assert Linked(t[i], qs[r], r, j);
      QueueMembers(t, heads[s], qs[s], s, i);
      UnlinkedAt(t, qs[s], s, k, i);
    }
  }

  /** The timers after i has been put at the head of a list. */
  function LinkedIn(t: seq<Tim>, q: seq<nat>, slot: nat, i: nat, due: nat): seq<Tim>
    requires i < |t| && forall j :: 0 <= j < |q| ==> q[j] < |t|
  {
    var a := t[i := Tim(At(q, 0), Head(slot), due)];
    if q != [] then a[q[0] := a[q[0]].(last := After(i))] else a
  }

  lemma {:induction false} LinkQueue(t: seq<Tim>, head: int, q: seq<nat>, slot: nat, i: nat, due: nat)
    requires QueueIs(t, head, q, slot) && i < |t| && !Armed(t[i]) && due % SLOTS == slot
    ensures QueueIs(LinkedIn(t, q, slot, i, due), i, [i] + q, slot)
  {
    var u, m := LinkedIn(t, q, slot, i, due), [i] + q;
    QueueMembers(t, head, q, slot, i);
    forall p | 0 <= p < |m| ensures m[p] < |u| && Linked(u[m[p]], m, slot, p) {
      if p > 0 {
        assert m[p] == q[p - 1] && Linked(t[q[p - 1]], q, slot, p - 1);
        assert p + 1 < |m| ==> m[p + 1] == q[p];
      }
    }
  }

  /** The second half of timeout: the timer goes to the head of the list of its time. */
  lemma {:induction false} LinkKeepsWheel(t: seq<Tim>, heads: seq<int>, qs: seq<seq<nat>>, i: nat, due: nat)
    requires WheelOK(t, heads, qs) && i < |t| && !Armed(t[i])
    ensures var s := due % SLOTS;
            (forall j :: 0 <= j < |qs[s]| ==> qs[s][j] < |t|)
            && WheelOK(LinkedIn(t, qs[s], s, i, due), heads[s := i], qs[s := [i] + qs[s]])
  {
    hide LinkedIn, NoDup, Linked;
    var s := due % SLOTS;
    var q := qs[s];
    assert QueueIs(t, heads[s], q, s);
    var u, m := LinkedIn(t, q, s, i, due), [i] + q;
    var hs, rs := heads[s := i], qs[s := m];
    LinkQueue(t, heads[s], q, s, i, due);
    QueueMembers(t, heads[s], q, s, i);
    LinkedInAt(t, q, s, i, due, i);
    forall r | 0 <= r < SLOTS ensures QueueIs(u, hs[r], rs[r], r) {
      if r != s {
        OtherSlotLinked(t, heads, qs, s, i, due, r);
      }
    }
    hide QueueIs;
    forall j | 0 <= j < |u| && u[j].last != Off ensures j in rs[u[j].due % SLOTS] {
      LinkedInAt(t, q, s, i, due, j);
      if j != i && j in q {
        QueueMembers(t, heads[s], q, s, j);
      }
    }
  }

  lemma {:induction false} LinkedInAt(t: seq<Tim>, q: seq<nat>, slot: nat, i: nat, due: nat, j: nat)
    requires i < |t| && j < |t| && i !in q && forall m :: 0 <= m < |q| ==> q[m] < |t|
    ensures |LinkedIn(t, q, slot, i, due)| == |t|
    ensures j == i ==> LinkedIn(t, q, slot, i, due)[j].due == due
    ensures j != i ==> LinkedIn(t, q, slot, i, due)[j].due == t[j].due
    ensures j != i && (j !in q || t[j].last != Off) && LinkedIn(t, q, slot, i, due)[j].last != Off ==> t[j].last != Off
    ensures j != i && j !in q ==> LinkedIn(t, q, slot, i, due)[j] == t[j]
  {}

  lemma {:induction false} OtherSlotLinked(t: seq<Tim>, heads: seq<int>, qs: seq<seq<nat>>, s: nat, i: nat, due: nat, r: nat)
    requires WheelOK(t, heads, qs) && s < SLOTS && r < SLOTS && r != s && i < |t| && !Armed(t[i])
    requires forall j :: 0 <= j < |qs[s]| ==> qs[s][j] < |t|
    ensures QueueIs(LinkedIn(t, qs[s], s, i, due), heads[r], qs[r], r)
  {
    hide LinkedIn;
    assert QueueIs(t, heads[s], qs[s], s) && QueueIs(t, heads[r], qs[r], r);
    var u := LinkedIn(t, qs[s], s, i, due);
    QueueMembers(t, heads[s], qs[s], s, i);
    LinkedInAt(t, qs[s], s, i, due, i);
    forall j | 0 <= j < |qs[r]| ensures u[qs[r][j]] == t[qs[r][j]] {
      var x := qs[r][j];
      assert Linked(t[x], qs[r], r, j);
      QueueMembers(t, heads[s], qs[s], s, x);
      LinkedInAt(t, qs[s], s, i, due, x);
    }
  }

  lemma {:induction false} WheelAt(t: seq<Tim>, heads: seq<int>, qs: seq<seq<nat>>, i: nat)
    requires WheelOK(t, heads, qs) && i < |t| && Armed(t[i])
    ensures |qs| == |heads| == SLOTS && i in qs[t[i].due % SLOTS]
  {}

  lemma {:induction false} WheelEntry(t: seq<Tim>, heads: seq<int>, qs: seq<seq<nat>>, s: nat, k: nat)
    requires WheelOK(t, heads, qs) && s < SLOTS && k < |qs[s]|
    ensures |qs| == |heads| == SLOTS && NoDup(qs[s]) && qs[s][k] < |t| && Linked(t[qs[s][k]], qs[s], s, k)
    ensures forall j :: 0 <= j < |qs[s]| ==> qs[s][j] < |t| && Armed(t[qs[s][j]]) && t[qs[s][j]].due % SLOTS == s
  {
    assert QueueIs(t, heads[s], qs[s], s);
    forall j | 0 <= j < |qs[s]| ensures qs[s][j] < |t| && Armed(t[qs[s][j]]) && t[qs[s][j]].due % SLOTS == s {
      assert Linked(t[qs[s][j]], qs[s], s, j);
    }
  }

  // ---------------------------------------------------------------------- the wheel

  /** The tick a timer will fire at, -1 if it is not armed. */
  function Alarm(x: Tim): int {
    if Armed(x) then x.due else -1
  }

  /** The timers of a list that are due now, in list order. */
  function DueNow(q: seq<nat>, t: seq<Tim>, now: nat): seq<nat> {
    if q == [] then [] else
      var i := q[|q| - 1];
      DueNow(q[..|q| - 1], t, now) + if i < |t| && Alarm(t[i]) == now then [i] else []
  }

  function Stamped(l: seq<nat>, now: nat): (r: seq<(nat, nat)>)
    ensures |r| == |l| && forall k :: 0 <= k < |l| ==> r[k] == (l[k], now)
  {
    if l == [] then [] else Stamped(l[..|l| - 1], now) + [(l[|l| - 1], now)]
  }

  class Wheel {
    const tim: array<Tim>
    const timq: array<int>
    var lbolt: nat
    var clocks: nat
    var broken: nat
    ghost var qs: seq<seq<nat>>
    ghost var ticks: nat
    ghost var fired: seq<(nat, nat)>

    ghost predicate Valid()
      reads this, tim, timq
    {
      WheelOK(tim[..], timq[..], qs) && lbolt + broken + clocks == ticks
    }

    constructor (n: nat)
      ensures Valid() && tim.Length == n && fired == [] && lbolt == ticks == 0 && fresh(tim) && fresh(timq)
      ensures forall i :: 0 <= i < n ==> !Armed(tim[i])
    {
      tim := new Tim[n](i => Tim(NULL, Off, 0));
      timq := new int[SLOTS](i => NULL);
      lbolt, clocks, broken, ticks, fired := 0, 0, 0, 0, [];
      qs := seq(SLOTS, i => []);
    }

    /** Taking a timer off its list, if it is on one. */
    method Remove(i: nat)
      requires Valid() && i < tim.Length
      modifies tim, timq, `qs
      ensures Valid() && !Armed(tim[i])
      ensures forall j :: 0 <= j < tim.Length && j != i ==> Alarm(tim[j]) == old(Alarm(tim[j]))
      ensures forall j :: 0 <= j < tim.Length ==> tim[j].due == old(tim[j].due)
      ensures var s := old(tim[i].due) % SLOTS;
              if !old(Armed(tim[i])) then qs == old(qs)
              else exists k: nat :: k < |old(qs)[s]| && old(qs)[s][k] == i && qs == old(qs)[s := Cut(old(qs)[s], k)]
    {
      hide WheelOK;
      if tim[i].last != Off {
        ghost var t, h, s := tim[..], timq[..], tim[i].due % SLOTS;
        WheelAt(t, h, qs, i);
        ghost var k: nat :| k < |qs[s]| && qs[s][k] == i;
        ghost var q := qs[s];
        UnlinkKeepsWheel(t, h, qs, s, k);
        WheelEntry(t, h, qs, s, k);
        Unlink(i, q, s, k);
        forall j | 0 <= j < tim.Length ensures tim[j].due == t[j].due && (j != i ==> Alarm(tim[j]) == Alarm(t[j])) {
          UnlinkedAt(t, q, s, k, j);
          assert tim[j] == tim[..][j];
        }
        UnlinkedAt(t, q, s, k, i);
        assert tim[i] == tim[..][i];
        qs := qs[s := Cut(q, k)];
      }
    }

    /** The pointer assignments that unlink a timer. */
    method Unlink(i: nat, ghost q: seq<nat>, ghost s: nat, ghost k: nat)
      requires i < tim.Length && timq.Length == SLOTS && s < SLOTS && k < |q| && q[k] == i && NoDup(q)
      requires (forall j :: 0 <= j < |q| ==> q[j] < tim.Length) && Linked(tim[i], q, s, k)
      modifies tim, timq
      ensures tim[..] == Unlinked(old(tim[..]), q, s, k)
      ensures timq[..] == if k == 0 then old(timq[..])[s := old(tim[i].next)] else old(timq[..])
    {
      ghost var t, h := tim[..], timq[..];
      var qp, next := tim[i].last, tim[i].next;
      tim[i] := tim[i].(last := Off);
      match qp {
        case Head(slot) =>
          timq[slot] := next;
        case After(prev) =>
          tim[prev] := tim[prev].(next := next);
        case Off =>
          assert false;
      }
      if next != NULL {
        tim[next] := tim[next].(last := qp);
      }
      assert tim[..] == Unlinked(t, q, s, k);
    }

    /** Putting an unarmed timer at the head of the list of its tick. */
    method Insert(i: nat, due: nat)
      requires Valid() && i < tim.Length && !Armed(tim[i])
      modifies tim, timq, `qs
      ensures Valid() && Armed(tim[i]) && tim[i].due == due
      ensures forall j :: 0 <= j < tim.Length && j != i ==> Alarm(tim[j]) == old(Alarm(tim[j])) && tim[j].due == old(tim[j].due)
      ensures qs == old(qs)[due % SLOTS := [i] + old(qs)[due % SLOTS]]
    {
      hide WheelOK;
      ghost var t, h := tim[..], timq[..];
      var s := due % SLOTS;
      WheelHead(t, h, qs, s);
      ghost var q := qs[s];
      LinkKeepsWheel(t, h, qs, i, due);
      if q != [] {
        WheelEntry(t, h, qs, s, 0);
      }
      tim[i] := Tim(timq[s], Head(s), due);
      if timq[s] != NULL {
        tim[timq[s]] := tim[timq[s]].(last := After(i));
      }
      timq[s] := i;
      assert tim[..] == LinkedIn(t, q, s, i, due) && timq[..] == h[s := i];
      forall j | 0 <= j < tim.Length && j != i ensures Alarm(tim[j]) == Alarm(t[j]) && tim[j].due == t[j].due {
        assert tim[j] == tim[..][j];
      }
      qs := qs[s := [i] + q];
    }

    /** timeout: re-arm the timer for n ticks from now, or cancel it when there is no function.
        With n = 0 it is armed for a tick that has been served already. */
    method Timeout(i: nat, n: nat, f: bool)
      requires Valid() && i < tim.Length
      modifies tim, timq, `qs
      ensures Valid() && Alarm(tim[i]) == if f then lbolt + n else -1
      ensures forall j :: 0 <= j < tim.Length && j != i ==> Alarm(tim[j]) == old(Alarm(tim[j]))
      ensures !old(Armed(tim[i])) && f ==>
                qs == old(qs)[(lbolt + n) % SLOTS := [i] + old(qs)[(lbolt + n) % SLOTS]]
    {
      hide WheelOK;
      Remove(i);
      if f {
        Insert(i, lbolt + n);
      }
    }

    /** timeout2: likewise, but n = 0 cancels. */
    method Timeout2(i: nat, n: nat, f: bool)
      requires Valid() && i < tim.Length
      modifies tim, timq, `qs
      ensures Valid() && Alarm(tim[i]) == if f && n != 0 then lbolt + n else -1
      ensures forall j :: 0 <= j < tim.Length && j != i ==> Alarm(tim[j]) == old(Alarm(tim[j]))
      ensures !old(Armed(tim[i])) ==>
                qs == if f && n != 0 then old(qs)[(lbolt + n) % SLOTS := [i] + old(qs)[(lbolt + n) % SLOTS]] else old(qs)
    {
      hide WheelOK;
      Remove(i);
      if !f || n == 0 {
        return;
      }
      Insert(i, lbolt + n);
    }

    // ------------------------------------------------------------------------ ticks

    /** clock_intr counts a tick. */
    method ClockIntr()
      requires Valid()
      modifies `clocks, `ticks
      ensures Valid() && ticks == old(ticks) + 1
    {
      clocks, ticks := clocks + 1, ticks + 1;
    }

    /** return_from_interrupt hands the ticks over. */
    method ReturnFromInterrupt()
      requires Valid()
      modifies `clocks, `broken
      ensures Valid() && clocks == 0
    {
      while clocks != 0
        invariant Valid()
        decreases clocks
      {
        broken, clocks := broken + 1, clocks - 1;
      }
    }

    /** The function of a timer that has fired: it may start its own timer again, by either
        call and with any delay. */
    method Call(i: nat)
      requires Valid() && i < tim.Length && !Armed(tim[i])
      modifies tim, timq, `qs, `fired
      ensures Valid() && fired == old(fired) + [(i, lbolt)]
      ensures forall j :: 0 <= j < tim.Length && j != i ==> Alarm(tim[j]) == old(Alarm(tim[j]))
      ensures PushedSomewhere(old(qs), qs, i)
    {
      hide WheelOK;
      fired := fired + [(i, lbolt)];
      var n: nat, again: bool, long: bool := *, *, *;
      WheelHead(tim[..], timq[..], qs, 0);
      if !again {
        return;
      }
      if long {
        Timeout2(i, n, true);
      } else {
        Timeout(i, n, true);
      }
      assert qs == old(qs) || PushedOn(old(qs), qs, i, (lbolt + n) % SLOTS);
    }

    /** The scan for one tick: it fires the timers due at that very tick.  One whose tick has
        passed, because it was armed with no delay, stays on its list. */
    method Tick()
      requires Valid() && broken > 0
      modifies this, tim, timq
      ensures Valid() && lbolt == old(lbolt) + 1 && broken == old(broken) - 1 && ticks == old(ticks)
      ensures clocks == old(clocks)
      ensures fired == old(fired) + Stamped(DueNow(old(qs)[lbolt % SLOTS], old(tim[..]), lbolt), lbolt)
      ensures forall i :: 0 <= i < tim.Length && old(Alarm(tim[i])) != lbolt ==> Alarm(tim[i]) == old(Alarm(tim[i]))
    {
      hide WheelOK, NoDup, DueNow, Stamped, AllServed;
      lbolt, broken := lbolt + 1, broken - 1;
      ghost var t0 := tim[..];
      DueListed(t0, timq[..], qs, lbolt);
      ghost var q := qs[lbolt % SLOTS];
      Scan(q);
      AllServedMeans(t0, tim[..], lbolt, q, |q|);
      forall i | 0 <= i < tim.Length ensures tim[i] == tim[..][i] && old(tim[i]) == t0[i] {}
    }

    /** The loop over the list of the tick. */
    method Scan(ghost q: seq<nat>)
      requires Valid() && |qs| == SLOTS && q == qs[lbolt % SLOTS]
      modifies tim, timq, `qs, `fired
      ensures Valid() && AllServed(old(tim[..]), tim[..], lbolt, q, |q|)
      ensures fired == old(fired) + Stamped(DueNow(q, old(tim[..]), lbolt), lbolt)
    {
      hide WheelOK, NoDup, DueNow, Stamped, AllServed, Alarm;
      ghost var t0, s := tim[..], lbolt % SLOTS;
      WheelHead(t0, timq[..], qs, s);
      ghost var before: seq<nat>, j: nat := [], 0;
      NoneServed(t0, lbolt, q);
      NoneYet(t0, lbolt);
      var np := timq[lbolt % SLOTS];
      assert q[..0] == [] && before + q[0..] == q;
      while np != NULL
        invariant Valid() && j <= |q| && np == At(q, j) && |qs| == SLOTS && qs[s] == before + q[j..]
        invariant AllServed(t0, tim[..], lbolt, q, j)
        invariant fired == old(fired) + Stamped(DueNow(q[..j], t0, lbolt), lbolt)
        decreases |q| - j
      {
        np, before := ScanOne(np, s, before, q, j, t0, old(fired));
        j := j + 1;
      }
      assert q[..j] == q;
    }

    /** One turn of the loop: timer j of the list has been served. */
    method ScanOne(tp: nat, ghost s: nat, ghost before: seq<nat>, ghost q: seq<nat>, ghost j: nat,
                   ghost t0: seq<Tim>, ghost fired0: seq<(nat, nat)>)
      returns (np: int, ghost after: seq<nat>)
      requires Valid() && s == lbolt % SLOTS && |qs| == SLOTS && j < |q| && q[j] == tp && qs[s] == before + q[j..]
      requires NoDup(q) && AllServed(t0, tim[..], lbolt, q, j)
      requires fired == fired0 + Stamped(DueNow(q[..j], t0, lbolt), lbolt)
      modifies tim, timq, `qs, `fired
      ensures Valid() && np == At(q, j + 1) && |qs| == SLOTS && qs[s] == after + q[j + 1..]
      ensures AllServed(t0, tim[..], lbolt, q, j + 1)
      ensures fired == fired0 + Stamped(DueNow(q[..j + 1], t0, lbolt), lbolt)
    {
      hide WheelOK, NoDup, DueNow, Stamped, AllServed, Alarm;
      ghost var t := tim[..];
      np, after := Visit(tp, s, before, q, j);
      ServedFacts(t0, t, lbolt, q, j);
      DueStep(q, t0, lbolt, j);
      ServedStep(t0, t, tim[..], lbolt, q, j);
    }

    /** The body of the scan, for one timer of the list. */
    method Visit(tp: nat, ghost s: nat, ghost before: seq<nat>, ghost q: seq<nat>, ghost j: nat)
      returns (np: int, ghost after: seq<nat>)
      requires Valid() && s == lbolt % SLOTS && |qs| == SLOTS && j < |q| && q[j] == tp && qs[s] == before + q[j..]
      modifies tim, timq, `qs, `fired
      ensures Valid() && tp < tim.Length && np == At(q, j + 1) && |qs| == SLOTS && qs[s] == after + q[j + 1..]
      ensures forall i :: 0 <= i < tim.Length && i != tp ==> Alarm(tim[i]) == old(Alarm(tim[i]))
      ensures old(Alarm(tim[tp])) != lbolt ==> fired == old(fired) && Alarm(tim[tp]) == old(Alarm(tim[tp]))
      ensures old(Alarm(tim[tp])) == lbolt ==> fired == old(fired) + [(tp, lbolt)]
    {
      hide WheelOK, Grown;
      ScanEntry(tim[..], timq[..], qs, s, before, q, j);
      np := tim[tp].next;
      if tim[tp].due != lbolt {
        after := before + [q[j]];
        return;
      }
      Fire(tp, s, before, q, j);
      GrownIs(qs[s], before, tp, q[j + 1..]);
      after := if qs[s] == before + q[j + 1..] then before else [tp] + before;
    }

    /** Taking a timer that is due off the list being scanned, and calling its function. */
    method Fire(tp: nat, ghost s: nat, ghost before: seq<nat>, ghost q: seq<nat>, ghost j: nat)
      requires Valid() && tp < tim.Length && Armed(tim[tp]) && tim[tp].due % SLOTS == s
      requires |qs| == SLOTS && j < |q| && q[j] == tp && qs[s] == before + q[j..]
      modifies tim, timq, `qs, `fired
      ensures Valid() && fired == old(fired) + [(tp, lbolt)]
      ensures forall i :: 0 <= i < tim.Length && i != tp ==> Alarm(tim[i]) == old(Alarm(tim[i]))
      ensures |qs| == SLOTS && Grown(qs[s], before, tp, q[j + 1..])
    {
      hide WheelOK, Cut;
      ghost var w := qs[s];
      WheelHead(tim[..], timq[..], qs, s);
      Remove(tp);
      CutHere(before, q, j, tp);
      assert qs[s] == before + q[j + 1..];
      ghost var mid := qs;
      Call(tp);
    }

    /** The timing half of check_clock: all ticks that have been handed over. */
    method CheckClock()
      requires Valid()
      modifies this, tim, timq
      ensures Valid() && broken == 0 && lbolt == old(lbolt + broken) && ticks == old(ticks) && clocks == old(clocks)
      ensures |fired| >= |old(fired)| && fired[..|old(fired)|] == old(fired)
      ensures forall i :: 0 <= i < tim.Length ==>
                Kept(old(Alarm(tim[i])), Alarm(tim[i]), fired[|old(fired)|..], i, old(lbolt), lbolt)
    {
      hide WheelOK, Kept, Stamped, DueNow;
      ghost var f0, start := fired, lbolt;
      ghost var t0 := tim[..];
      StartKept(t0, lbolt, f0);
      while broken > 0
        invariant Valid() && start <= lbolt && lbolt + broken == old(lbolt + broken) && ticks == old(ticks) && clocks == old(clocks)
        invariant |fired| >= |f0| && fired[..|f0|] == f0
        invariant forall i :: 0 <= i < tim.Length ==> Kept(Alarm(t0[i]), Alarm(tim[i]), fired[|f0|..], i, start, lbolt)
        decreases broken
      {
        ghost var t, h, s, f, now := tim[..], timq[..], qs, fired, lbolt + 1;
        Tick();
        AllOnce(t, h, s, now);
        ghost var more := Stamped(DueNow(s[now % SLOTS], t, now), now);
        assert fired[|f0|..] == f[|f0|..] + more;
        forall i | 0 <= i < tim.Length ensures Kept(Alarm(t0[i]), Alarm(tim[i]), fired[|f0|..], i, start, lbolt) {
          KeptStep(Alarm(t0[i]), Alarm(t[i]), Alarm(tim[i]), f[|f0|..], more, i, start, now);
        }
      }
    }
  }

  /** Timer i is in the log exactly once at tick a, and not before. */
  ghost predicate OnceAt(log: seq<(nat, nat)>, i: nat, a: int) {
    && (exists k :: 0 <= k < |log| && log[k].0 == i && log[k].1 == a)
    && (forall k, m :: 0 <= k < m < |log| && log[k].0 == i && log[m].0 == i && log[k].1 == a ==> log[m].1 > a)
    && forall k :: 0 <= k < |log| && log[k].0 == i ==> log[k].1 >= a
  }

  predicate NotIn(log: seq<(nat, nat)>, i: nat) {
    forall k :: 0 <= k < |log| ==> log[k].0 != i
  }

  /** A timer whose alarm was a when lbolt was `start`: until tick a it is left alone, then it has
      fired once at a.  If tick a had passed before, it is left alone for ever. */
  ghost predicate Kept(a: int, alarm: int, log: seq<(nat, nat)>, i: nat, start: nat, now: nat) {
    && (a <= start || a > now ==> alarm == a && NotIn(log, i))
    && (start < a <= now ==> OnceAt(log, i, a))
  }

  lemma {:induction false} StartKept(t: seq<Tim>, now: nat, log: seq<(nat, nat)>)
    ensures forall i :: 0 <= i < |t| ==> Kept(Alarm(t[i]), Alarm(t[i]), log[|log|..], i, now, now)
  {}

  lemma {:induction false} KeptStep(a: int, x: int, y: int, log: seq<(nat, nat)>, more: seq<(nat, nat)>, i: nat, start: nat, now: nat)
    requires start < now && Kept(a, x, log, i, start, now - 1)
    requires x != now ==> y == x && NotIn(more, i)
    requires x == now ==> OnceAt(more, i, now)
    requires forall k :: 0 <= k < |more| ==> more[k].1 == now
    ensures Kept(a, y, log + more, i, start, now)
  {
    var all := log + more;
    if a == now {
      var k :| 0 <= k < |more| && more[k].0 == i && more[k].1 == now;
      assert all[|log| + k] == more[k];
    } else if start < a < now {
      var k :| 0 <= k < |log| && log[k].0 == i && log[k].1 == a;
      assert all[k] == log[k];
    }
  }

  /** Each timer is in its list once, so one tick fires it once if it is due and else not at all. */
  lemma {:induction false} AllOnce(t: seq<Tim>, heads: seq<int>, qs: seq<seq<nat>>, now: nat)
    requires WheelOK(t, heads, qs)
    ensures |qs| == SLOTS
    ensures var log := Stamped(DueNow(qs[now % SLOTS], t, now), now);
            && (forall k :: 0 <= k < |log| ==> log[k].1 == now)
            && forall i :: 0 <= i < |t| ==> (Alarm(t[i]) == now ==> OnceAt(log, i, now)) && (Alarm(t[i]) != now ==> NotIn(log, i))
  {
    hide WheelOK;
    WheelHead(t, heads, qs, now % SLOTS);
    DueListed(t, heads, qs, now);
    var q := qs[now % SLOTS];
    DueMembers(q, t, now);
    var d := DueNow(q, t, now);
    var log := Stamped(d, now);
    forall i | 0 <= i < |t| ensures (Alarm(t[i]) == now ==> OnceAt(log, i, now)) && (Alarm(t[i]) != now ==> NotIn(log, i)) {
      if Alarm(t[i]) == now {
        var k :| 0 <= k < |d| && d[k] == i;
        assert log[k] == (i, now);
      }
    }
  }

  lemma {:induction false} DueMembers(q: seq<nat>, t: seq<Tim>, now: nat)
    requires NoDup(q)
    ensures NoDup(DueNow(q, t, now))
    ensures forall i :: i in DueNow(q, t, now) <==> i in q && i < |t| && Alarm(t[i]) == now
  {
    if q != [] {
      DueMembers(q[..|q| - 1], t, now);
      assert q == q[..|q| - 1] + [q[|q| - 1]];
    }
  }

  // ---------------------------------------------------------------------- any run

  /** What can happen between and around the ticks. */
  datatype Op =
    | Arm(timer: nat, n: nat)       // timeout with a function
    | ArmLong(timer: nat, n: nat)   // timeout2 with a function
    | Cancel(timer: nat)
    | Clock
    | Return
    | Check
    | Turn                          // one turn of check_clock's loop, interrupts between turns

  /** The operation is on a timer of the wheel other than i. */
  predicate Elsewhere(op: Op, i: nat, n: nat) {
    match op
    case Arm(j, _) => j < n && j != i
    case ArmLong(j, _) => j < n && j != i
    case Cancel(j) => j < n && j != i
    case _ => true
  }

  method Perform(w: Wheel, op: Op, ghost i: nat, ghost a: int, ghost base: nat, ghost start: nat)
    requires w.Valid() && Elsewhere(op, i, w.tim.Length) && i < w.tim.Length && base <= |w.fired| && start <= w.lbolt
    requires Kept(a, Alarm(w.tim[i]), w.fired[base..], i, start, w.lbolt)
    modifies w, w.tim, w.timq
    ensures w.Valid() && base <= |w.fired| && start <= w.lbolt
    ensures Kept(a, Alarm(w.tim[i]), w.fired[base..], i, start, w.lbolt)
    ensures w.ticks == old(w.ticks) + (if op.Clock? then 1 else 0)
  {
    hide WheelOK, Kept;
    match op {
      case Arm(j, k) =>
        w.Timeout(j, k, true);
      case ArmLong(j, k) =>
        w.Timeout2(j, k, true);
      case Cancel(j) =>
        w.Timeout(j, 0, false);
      case Clock =>
        w.ClockIntr();
      case Return =>
        w.ReturnFromInterrupt();
      case Check =>
        ghost var x, f, now := Alarm(w.tim[i]), w.fired, w.lbolt;
        w.CheckClock();
        assert w.fired[base..] == f[base..] + w.fired[|f|..];
        KeptTrans(a, x, Alarm(w.tim[i]), f[base..], w.fired[|f|..], i, start, now, w.lbolt);
      case Turn =>
        if w.broken > 0 {
          OneTurn(w, i, a, base, start);
        }
    }
  }

  method OneTurn(w: Wheel, ghost i: nat, ghost a: int, ghost base: nat, ghost start: nat)
    requires w.Valid() && w.broken > 0 && i < w.tim.Length && base <= |w.fired| && start <= w.lbolt
    requires Kept(a, Alarm(w.tim[i]), w.fired[base..], i, start, w.lbolt)
    modifies w, w.tim, w.timq
    ensures w.Valid() && base <= |w.fired| && start <= w.lbolt && w.ticks == old(w.ticks)
    ensures Kept(a, Alarm(w.tim[i]), w.fired[base..], i, start, w.lbolt)
  {
    hide WheelOK, Kept, Stamped, DueNow;
    ghost var t, h, s, f, now := w.tim[..], w.timq[..], w.qs, w.fired, w.lbolt + 1;
    w.Tick();
    AllOnce(t, h, s, now);
    ghost var more := Stamped(DueNow(s[now % SLOTS], t, now), now);
    assert w.fired[base..] == f[base..] + more;
    KeptStep(a, Alarm(t[i]), Alarm(w.tim[i]), f[base..], more, i, start, now);
  }

  lemma {:induction false} KeptTrans(a: int, x: int, y: int, log: seq<(nat, nat)>, more: seq<(nat, nat)>, i: nat, start: nat, now: nat, later: nat)
    requires start <= now <= later && Kept(a, x, log, i, start, now) && Kept(x, y, more, i, now, later)
    ensures Kept(a, y, log + more, i, start, later)
  {
    var all := log + more;
    if now < a <= later {
      var k :| 0 <= k < |more| && more[k].0 == i && more[k].1 == a;
      assert all[|log| + k] == more[k];
    } else if start < a <= now {
      var k :| 0 <= k < |log| && log[k].0 == i && log[k].1 == a;
      assert all[k] == log[k];
    }
  }

  function Clocks(ops: seq<Op>): nat {
    if ops == [] then 0 else Clocks(ops[..|ops| - 1]) + if ops[|ops| - 1].Clock? then 1 else 0
  }

  /** A timer armed for n ticks from now, whatever happens to other timers, stale ones included:
      as long as lbolt has not got there it has not fired; from then on it has fired exactly
      once at that tick if n >= 1, and not at all if n is 0, when it stays armed for ever.
      Every clock interrupt is in lbolt or in a backlog. */
  method ArmAndRun(w: Wheel, i: nat, n: nat, ops: seq<Op>) returns (ghost due: nat, ghost log: seq<(nat, nat)>)
    requires w.Valid() && i < w.tim.Length
    requires forall k :: 0 <= k < |ops| ==> Elsewhere(ops[k], i, w.tim.Length)
    modifies w, w.tim, w.timq
    ensures w.Valid() && due == old(w.lbolt) + n
    ensures w.lbolt < due ==> Alarm(w.tim[i]) == due && NotIn(log, i)
    ensures w.lbolt >= due ==> (OnceAt(log, i, due) <==> n >= 1)
    ensures n == 0 ==> Alarm(w.tim[i]) == due && NotIn(log, i)
    ensures |old(w.fired)| <= |w.fired| && log == w.fired[|old(w.fired)|..]
    ensures w.lbolt + w.broken + w.clocks == old(w.lbolt + w.broken + w.clocks) + Clocks(ops)
  {
    hide WheelOK;
    w.Timeout(i, n, true);
    due := w.lbolt + n;
    ghost var base, start := |w.fired|, w.lbolt;
    var k: nat := 0;
    assert Clocks(ops[..0]) == 0;
    while k < |ops|
      invariant k <= |ops| && w.Valid() && base <= |w.fired| && start <= w.lbolt
      invariant Kept(due, Alarm(w.tim[i]), w.fired[base..], i, start, w.lbolt)
      invariant w.ticks == old(w.ticks) + Clocks(ops[..k])
    {
      assert ops[..k + 1][..k] == ops[..k];
      Perform(w, ops[k], i, due, base, start);
      k := k + 1;
    }
    assert ops[..k] == ops;
    log := w.fired[base..];
  }

  lemma {:induction false} ScanEntry(t: seq<Tim>, heads: seq<int>, qs: seq<seq<nat>>, s: nat, before: seq<nat>, q: seq<nat>, j: nat)
    requires WheelOK(t, heads, qs) && s < SLOTS && |qs| == SLOTS && j < |q| && qs[s] == before + q[j..]
    ensures q[j] < |t| && Armed(t[q[j]]) && t[q[j]].next == At(q, j + 1) && t[q[j]].due % SLOTS == s
    ensures qs[s] == (before + [q[j]]) + q[j + 1..]
  {
    hide WheelOK, NoDup;
    var k := |before|;
    assert qs[s][k] == q[j] && (j + 1 < |q| ==> qs[s][k + 1] == q[j + 1]);
    WheelEntry(t, heads, qs, s, k);
  }

  lemma {:induction false} CutHere(before: seq<nat>, q: seq<nat>, j: nat, tp: nat)
    requires j < |q| && q[j] == tp && NoDup(before + q[j..])
    ensures forall k: nat :: k < |before + q[j..]| && (before + q[j..])[k] == tp ==> Cut(before + q[j..], k) == before + q[j + 1..]
  {
    var w := before + q[j..];
    assert w[|before|] == tp;
    forall k: nat | k < |w| && w[k] == tp ensures Cut(w, k) == before + q[j + 1..] {
      assert k == |before|;
      assert w[..k] == before && w[k + 1..] == q[j + 1..];
    }
  }

  /** Timer i has been put at the head of one list, or of none. */
  ghost predicate PushedSomewhere(a: seq<seq<nat>>, b: seq<seq<nat>>, i: nat) {
    b == a || exists s :: PushedOn(a, b, i, s)
  }

  predicate PushedOn(a: seq<seq<nat>>, b: seq<seq<nat>>, i: nat, s: int) {
    0 <= s < |a| && b == a[s := [i] + a[s]]
  }

  predicate Grown(w: seq<nat>, before: seq<nat>, tp: nat, rest: seq<nat>) {
    w == before + rest || w == ([tp] + before) + rest
  }

  lemma GrownIs(w: seq<nat>, before: seq<nat>, tp: nat, rest: seq<nat>)
    requires Grown(w, before, tp, rest)
    ensures w == before + rest || w == ([tp] + before) + rest
  {}

  /** The first j timers of the list have been seen by the scan. */
  ghost predicate AllServed(x: seq<Tim>, y: seq<Tim>, now: nat, q: seq<nat>, j: nat) {
    j <= |q| && |y| == |x| && forall i :: 0 <= i < |x| ==> Served(x[i], y[i], now, i in q[..j])
  }

  lemma NoneServed(x: seq<Tim>, now: nat, q: seq<nat>)
    ensures AllServed(x, x, now, q, 0)
  {}

  lemma {:induction false} ServedStep(x: seq<Tim>, y: seq<Tim>, z: seq<Tim>, now: nat, q: seq<nat>, j: nat)
    requires AllServed(x, y, now, q, j) && NoDup(q) && j < |q| && q[j] < |x| && |z| == |x|
    requires forall i :: 0 <= i < |x| && i != q[j] ==> Alarm(z[i]) == Alarm(y[i])
    requires Alarm(y[q[j]]) != now ==> Alarm(z[q[j]]) == Alarm(y[q[j]])
    ensures AllServed(x, z, now, q, j + 1)
    ensures Alarm(x[q[j]]) == Alarm(y[q[j]])
  {
    assert q[..j + 1] == q[..j] + [q[j]] && q[j] !in q[..j];
    forall i | 0 <= i < |x| ensures Served(x[i], z[i], now, i in q[..j + 1]) {
      assert Served(x[i], y[i], now, i in q[..j]);
    }
  }

  lemma ServedFacts(x: seq<Tim>, y: seq<Tim>, now: nat, q: seq<nat>, j: nat)
    requires AllServed(x, y, now, q, j)
    ensures |y| == |x| && j <= |q|
  {}

  lemma {:induction false} AllServedMeans(x: seq<Tim>, y: seq<Tim>, now: nat, q: seq<nat>, j: nat)
    requires AllServed(x, y, now, q, j) && j == |q|
    ensures forall i :: 0 <= i < |x| && Alarm(x[i]) != now ==> Alarm(y[i]) == Alarm(x[i])
  {
    assert q[..j] == q;
    forall i | 0 <= i < |x| ensures Alarm(x[i]) != now ==> Alarm(y[i]) == Alarm(x[i]) {
      assert Served(x[i], y[i], now, i in q[..j]);
    }
  }

  lemma NoneYet(t: seq<Tim>, now: nat)
    ensures Stamped(DueNow([], t, now), now) == []
  {}

  lemma {:induction false} DueStep(q: seq<nat>, t: seq<Tim>, now: nat, j: nat)
    requires j < |q| && q[j] < |t|
    ensures DueNow(q[..j + 1], t, now) == DueNow(q[..j], t, now) + if Alarm(t[q[j]]) == now then [q[j]] else []
    ensures Alarm(t[q[j]]) == now ==> Stamped(DueNow(q[..j + 1], t, now), now) == Stamped(DueNow(q[..j], t, now), now) + [(q[j], now)]
  {
    assert q[..j + 1][..j] == q[..j];
    var d := DueNow(q[..j], t, now);
    assert (d + [q[j]])[..|d|] == d;
  }

  lemma {:induction false} DueListed(t: seq<Tim>, heads: seq<int>, qs: seq<seq<nat>>, now: nat)
    requires WheelOK(t, heads, qs)
    ensures |qs| == SLOTS && forall i :: 0 <= i < |t| && Alarm(t[i]) == now ==> i in qs[now % SLOTS]
  {}

  /** What the scan has done to a timer: it is as it was, unless it was due and has been seen. */
  predicate Served(x: Tim, y: Tim, now: nat, seen: bool) {
    (seen && Alarm(x) == now) || Alarm(y) == Alarm(x)
  }

  lemma {:induction false} WheelHead(t: seq<Tim>, heads: seq<int>, qs: seq<seq<nat>>, s: nat)
    requires WheelOK(t, heads, qs) && s < SLOTS
    ensures |qs| == |heads| == SLOTS && heads[s] == At(qs[s], 0) && NoDup(qs[s])
    ensures forall j :: 0 <= j < |qs[s]| ==> qs[s][j] < |t|
  {
    assert QueueIs(t, heads[s], qs[s], s);
  }
}
