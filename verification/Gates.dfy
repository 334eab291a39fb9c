/**
  Sleeping, waking and gates of proc.c.  Processes are linked into circular lists: one for
  each hash value of an event, and the run queue.  The current process is in none.
 */
module Gates {
  import opened Lists

  /** PROC and plink: a process, or the head of a list. */
  datatype Node = Node(lforw: nat, lback: nat, event: nat, asleep: bool, schedPri: nat, foodstamp: nat)

  type Nodes = seq<Node>

  function Next(r: seq<nat>, i: nat): nat
    requires i < |r|
  {
    if i + 1 < |r| then r[i + 1] else r[0]
  }

  function Prev(r: seq<nat>, i: nat): nat
    requires i < |r|
  {
    if i > 0 then r[i - 1] else r[|r| - 1]
  }

  predicate Linked(x: Node, r: seq<nat>, i: nat)
    requires i < |r|
  {
    x.lforw == Next(r, i) && x.lback == Prev(r, i)
  }

  /** These nodes form a circular list, in this order. */
  ghost predicate Ring(t: Nodes, r: seq<nat>) {
    r != [] && NoDup(r) && forall i :: 0 <= i < |r| ==> r[i] < |t| && Linked(t[r[i]], r, i)
  }

  // ------------------------------------------------------------- linking, unlinking

  /** The nodes after entry i of a ring has been taken out. */
  function Unlinked(t: Nodes, r: seq<nat>, i: nat): Nodes
    requires i < |r| && forall j :: 0 <= j < |r| ==> r[j] < |t|
  {
    var a := t[Prev(r, i) := t[Prev(r, i)].(lforw := Next(r, i))];
    a[Next(r, i) := a[Next(r, i)].(lback := Prev(r, i))]
  }

  lemma {:induction false} UnlinkedAt(t: Nodes, r: seq<nat>, i: nat, x: nat)
    requires 0 < i < |r| && NoDup(r) && x < |t| && forall j :: 0 <= j < |r| ==> r[j] < |t|
    ensures |Unlinked(t, r, i)| == |t|
    ensures Unlinked(t, r, i)[x] == t[x].(lforw := if x == Prev(r, i) then Next(r, i) else t[x].lforw,
                                          lback := if x == Next(r, i) then Prev(r, i) else t[x].lback)
  {}

  lemma CutRing(r: seq<nat>, i: nat, p: nat)
    requires 0 < i < |r| && p + 1 < |r|
    ensures |Cut(r, i)| == |r| - 1 && Cut(r, i)[p] == if p < i then r[p] else r[p + 1]
    ensures Next(Cut(r, i), p) == if p + 1 < i then r[p + 1] else if p + 2 < |r| then r[p + 2] else r[0]
    ensures Prev(Cut(r, i), p) == if p == 0 then (if i == |r| - 1 then r[|r| - 2] else r[|r| - 1])
                                  else if p - 1 < i then r[p - 1] else r[p]
  {}

  /** Unlinking any node but the head leaves a ring of the others. */
  lemma {:induction false} UnlinkRing(t: Nodes, r: seq<nat>, i: nat)
    requires Ring(t, r) && 0 < i < |r|
    ensures Ring(Unlinked(t, r, i), Cut(r, i))
  {
    hide Unlinked, Cut, Linked, Next, Prev;
    var u, m := Unlinked(t, r, i), Cut(r, i);
    CutNoDup(r, i);
    CutRing(r, i, 0);
    forall p | 0 <= p < |m| ensures m[p] < |u| && Linked(u[m[p]], m, p) {
      UnlinkOne(t, r, i, p, if p < i then p else p + 1);
    }
  }

  lemma {:induction false} UnlinkOne(t: Nodes, r: seq<nat>, i: nat, p: nat, j: nat)
    requires NoDup(r) && 0 < i < |r| && p + 1 < |r| && j == (if p < i then p else p + 1)
    requires (forall k :: 0 <= k < |r| ==> r[k] < |t|) && Linked(t[r[j]], r, j)
    ensures |Cut(r, i)| == |r| - 1 && Cut(r, i)[p] < |Unlinked(t, r, i)|
    ensures Linked(Unlinked(t, r, i)[Cut(r, i)[p]], Cut(r, i), p)
  {
    hide Unlinked, Cut, NoDup;
    CutRing(r, i, p);
    Neighbours(r, i, j);
    UnlinkedAt(t, r, i, r[j]);
    var x := Unlinked(t, r, i)[r[j]];
    assert x.lforw == Next(Cut(r, i), p) by {
      assert x.lforw == if j == i - 1 then Next(r, i) else Next(r, j);
    }
    assert x.lback == Prev(Cut(r, i), p) by {
      assert x.lback == if j == (if i + 1 < |r| then i + 1 else 0) then Prev(r, i) else Prev(r, j);
    }
  }

  lemma Neighbours(r: seq<nat>, i: nat, j: nat)
    requires NoDup(r) && 0 < i < |r| && j < |r| && j != i
    ensures r[j] == Prev(r, i) <==> j == i - 1
    ensures r[j] == Next(r, i) <==> j == if i + 1 < |r| then i + 1 else 0
  {}

  /** The nodes after x has been put behind the last entry of a ring. */
  function Appended(t: Nodes, r: seq<nat>, x: nat): Nodes
    requires r != [] && x < |t| && forall j :: 0 <= j < |r| ==> r[j] < |t|
  {
    var a := t[x := t[x].(lforw := r[0])];
    var b := a[r[0] := a[r[0]].(lback := x)];
    var c := b[x := b[x].(lback := r[|r| - 1])];
    c[r[|r| - 1] := c[r[|r| - 1]].(lforw := x)]
  }

  lemma {:induction false} AppendedAt(t: Nodes, r: seq<nat>, x: nat, y: nat)
    requires r != [] && NoDup(r) && x < |t| && y < |t| && x !in r && forall j :: 0 <= j < |r| ==> r[j] < |t|
    ensures |Appended(t, r, x)| == |t|
    ensures Appended(t, r, x)[y] == t[y].(
              lforw := if y == x then r[0] else if y == r[|r| - 1] then x else t[y].lforw,
              lback := if y == x then r[|r| - 1] else if y == r[0] then x else t[y].lback)
  {}

  lemma {:induction false} AppendRing(t: Nodes, r: seq<nat>, x: nat)
    requires Ring(t, r) && x < |t| && x !in r
    ensures Ring(Appended(t, r, x), r + [x])
  {
    hide Appended;
    var u, m := Appended(t, r, x), r + [x];
    forall p | 0 <= p < |m| ensures m[p] < |u| && Linked(u[m[p]], m, p) {
      AppendedAt(t, r, x, m[p]);
      if p < |r| {
        assert Linked(t[r[p]], r, p);
      }
    }
  }

  lemma {:induction false} RingKept(t: Nodes, u: Nodes, r: seq<nat>)
    requires Ring(t, r) && |u| == |t|
    requires forall i :: 0 <= i < |r| && r[i] < |t| ==> u[r[i]].lforw == t[r[i]].lforw && u[r[i]].lback == t[r[i]].lback
    ensures Ring(u, r)
  {}

  // ------------------------------------------------------------------- all the lists

  /** The list a process belongs in: its event's, or the run queue; -1 for none. */
  function Home(t: Nodes, p: nat, nh: nat, out: set<nat>): int
    requires p < |t| && nh > 0
  {
    if p in out then -1 else if t[p].asleep then t[p].event % nh else nh
  }

  /** List h with its head, which comes after the np processes. */
  function Headed(qs: seq<seq<nat>>, np: nat, h: nat): seq<nat>
    requires h < |qs|
  {
    [np + h] + qs[h]
  }

  ghost predicate QueueOK(t: Nodes, qs: seq<seq<nat>>, np: nat, nh: nat, out: set<nat>, h: nat) {
    && h < |qs| && nh > 0 && np <= |t|
    && Ring(t, Headed(qs, np, h))
    && forall k :: 0 <= k < |qs[h]| ==> qs[h][k] < np && Home(t, qs[h][k], nh, out) == h
  }

  /** Every process is in the list it belongs in and in no other; those in `out` are in none. */
  ghost predicate QueuesOK(t: Nodes, qs: seq<seq<nat>>, np: nat, nh: nat, out: set<nat>) {
    && nh > 0 && |t| == np + nh + 1 && |qs| == nh + 1
    && (forall h :: 0 <= h <= nh ==> QueueOK(t, qs, np, nh, out, h))
    && forall p: nat :: p < np && p !in out ==> p in qs[Home(t, p, nh, out)]
  }

  lemma {:induction false} HeadedMembers(t: Nodes, qs: seq<seq<nat>>, np: nat, nh: nat, out: set<nat>, h: nat, x: nat)
    requires QueueOK(t, qs, np, nh, out, h)
    ensures x in Headed(qs, np, h) <==> x == np + h || x in qs[h]
    ensures x in qs[h] ==> x < np && Home(t, x, nh, out) == h
  {
    if x in qs[h] {
      var k :| 0 <= k < |qs[h]| && qs[h][k] == x;
    }
  }

  /** Changes to nodes outside a list leave it alone. */
  lemma {:induction false} OtherQueue(t: Nodes, u: Nodes, qs: seq<seq<nat>>, rs: seq<seq<nat>>, np: nat, nh: nat, out: set<nat>, out': set<nat>, h: nat)
    requires QueueOK(t, qs, np, nh, out, h) && |u| == |t| && |rs| == |qs| && rs[h] == qs[h]
    requires forall x: nat :: x in Headed(qs, np, h) && x < |t| ==> u[x] == t[x]
    requires forall k :: 0 <= k < |qs[h]| ==> qs[h][k] !in out'
    ensures QueueOK(u, rs, np, nh, out', h)
  {
    var r := Headed(qs, np, h);
    forall i | 0 <= i < |r| && r[i] < |t| ensures u[r[i]] == t[r[i]] {
      assert r[i] in r;
    }
    RingKept(t, u, r);
    forall k | 0 <= k < |qs[h]| ensures Home(u, qs[h][k], nh, out') == h {
      assert qs[h][k] in r;
      assert Home(t, qs[h][k], nh, out) == h;
    }
  }

  lemma {:induction false} UnlinkedOutside(t: Nodes, r: seq<nat>, i: nat)
    requires 0 < i < |r| && NoDup(r) && forall j :: 0 <= j < |r| ==> r[j] < |t|
    ensures |Unlinked(t, r, i)| == |t|
    ensures forall x: nat :: x < |t| && x !in r ==> Unlinked(t, r, i)[x] == t[x]
    ensures forall x: nat :: x < |t| ==> SameButLinks(t[x], Unlinked(t, r, i)[x])
  {
    forall x: nat | x < |t| ensures SameButLinks(t[x], Unlinked(t, r, i)[x]) {
      UnlinkedAt(t, r, i, x);
    }
    assert Prev(r, i) in r && Next(r, i) in r;
  }

  predicate SameButLinks(x: Node, y: Node) {
    y == x.(lforw := y.lforw, lback := y.lback)
  }

  lemma CutHead(head: nat, q: seq<nat>, i: nat)
    requires i < |q|
    ensures Cut([head] + q, i + 1) == [head] + Cut(q, i)
  {}

  /** The list a process is taken from. */
  lemma {:induction false} TakenQueue(t: Nodes, u: Nodes, qs: seq<seq<nat>>, rs: seq<seq<nat>>, np: nat, nh: nat, out: set<nat>, h: nat, i: nat)
    requires QueueOK(t, qs, np, nh, out, h) && i < |qs[h]| && |u| == |t| && rs == qs[h := Cut(qs[h], i)]
    requires forall x: nat :: x < |t| ==> SameButLinks(t[x], u[x])
    requires Ring(u, Headed(rs, np, h))
    ensures QueueOK(u, rs, np, nh, out + {qs[h][i]}, h)
  {
    hide Ring, Linked;
    var q, m, p := qs[h], rs[h], qs[h][i];
    RingFacts(t, Headed(qs, np, h));
    forall k | 0 <= k < |m| ensures m[k] < np && Home(u, m[k], nh, out + {p}) == h {
      var j := if k < i then k else k + 1;
      assert m[k] == q[j] && Headed(qs, np, h)[j + 1] == q[j] && Headed(qs, np, h)[i + 1] == p;
      assert SameButLinks(t[q[j]], u[q[j]]);
      assert Home(t, q[j], nh, out) == h;
    }
  }

  /** A process is taken off its list. */
  lemma {:induction false} TakeOut(t: Nodes, qs: seq<seq<nat>>, np: nat, nh: nat, out: set<nat>, h: nat, i: nat)
    requires QueuesOK(t, qs, np, nh, out) && h <= nh && i < |qs[h]|
    ensures forall j :: 0 <= j < |Headed(qs, np, h)| ==> Headed(qs, np, h)[j] < |t|
    ensures QueuesOK(Unlinked(t, Headed(qs, np, h), i + 1), qs[h := Cut(qs[h], i)], np, nh, out + {qs[h][i]})
  {
    hide Unlinked, Cut, Ring, NoDup;
    var r, p := Headed(qs, np, h), qs[h][i];
    assert QueueOK(t, qs, np, nh, out, h) && r[i + 1] == p;
    RingFacts(t, r);
    UnlinkRing(t, r, i + 1);
    CutHead(np + h, qs[h], i);
    UnlinkedOutside(t, r, i + 1);
    var u, m, more := Unlinked(t, r, i + 1), qs[h := Cut(qs[h], i)], out + {p};
    forall g | 0 <= g <= nh ensures QueueOK(u, m, np, nh, more, g) {
      assert QueueOK(t, qs, np, nh, out, g);
      if g == h {
        TakenQueue(t, u, qs, m, np, nh, out, h, i);
      } else {
        OtherQueue(t, u, qs, m, np, nh, out, more, g);
      }
    }
    forall x: nat | x < np && x !in more ensures x in m[Home(u, x, nh, more)] {
      CutMembers(qs[h], i, x);
    }
  }

  lemma {:induction false} RingFacts(t: Nodes, r: seq<nat>)
    requires Ring(t, r)
    ensures NoDup(r) && r != [] && forall j :: 0 <= j < |r| ==> r[j] < |t|
  {}

  lemma {:induction false} AppendedOutside(t: Nodes, r: seq<nat>, p: nat)
    requires r != [] && NoDup(r) && p < |t| && p !in r && forall j :: 0 <= j < |r| ==> r[j] < |t|
    ensures |Appended(t, r, p)| == |t|
    ensures forall x: nat :: x < |t| && x !in r && x != p ==> Appended(t, r, p)[x] == t[x]
    ensures forall x: nat :: x < |t| ==> SameButLinks(t[x], Appended(t, r, p)[x])
  {
    forall x: nat | x < |t| ensures SameButLinks(t[x], Appended(t, r, p)[x]) {
      AppendedAt(t, r, p, x);
    }
    assert r[0] in r && r[|r| - 1] in r;
  }

  /** A process that is in no list goes to the end of the one it belongs in. */
  lemma {:induction false} PutIn(t: Nodes, qs: seq<seq<nat>>, np: nat, nh: nat, out: set<nat>, p: nat, h: nat)
    requires QueuesOK(t, qs, np, nh, out) && p in out && p < np && h == Home(t, p, nh, {})
    ensures h < |qs| && forall j :: 0 <= j < |Headed(qs, np, h)| ==> Headed(qs, np, h)[j] < |t|
    ensures QueuesOK(Appended(t, Headed(qs, np, h), p), qs[h := qs[h] + [p]], np, nh, out - {p})
  {
    hide Appended, Ring, NoDup;
    var r := Headed(qs, np, h);
    assert QueueOK(t, qs, np, nh, out, h);
    RingFacts(t, r);
    AppendRing(t, r, p);
    AppendedOutside(t, r, p);
    var u, m, fewer := Appended(t, r, p), qs[h := qs[h] + [p]], out - {p};
    assert Headed(m, np, h) == r + [p];
    forall g | 0 <= g <= nh ensures QueueOK(u, m, np, nh, fewer, g) {
      assert QueueOK(t, qs, np, nh, out, g);
      if g == h {
        PutQueue(t, u, qs, m, np, nh, out, h, p);
      } else {
        OtherQueue(t, u, qs, m, np, nh, out, fewer, g);
      }
    }
    forall x: nat | x < np && x !in fewer ensures x in m[Home(u, x, nh, fewer)] {
      assert SameButLinks(t[x], u[x]);
    }
  }

  lemma {:induction false} PutQueue(t: Nodes, u: Nodes, qs: seq<seq<nat>>, rs: seq<seq<nat>>, np: nat, nh: nat, out: set<nat>, h: nat, p: nat)
    requires QueueOK(t, qs, np, nh, out, h) && |u| == |t| && rs == qs[h := qs[h] + [p]] && p < np && h == Home(t, p, nh, {})
    requires forall x: nat :: x < |t| ==> SameButLinks(t[x], u[x])
    requires Ring(u, Headed(rs, np, h))
    ensures QueueOK(u, rs, np, nh, out - {p}, h)
  {
    var m := rs[h];
    forall k | 0 <= k < |m| ensures m[k] < np && Home(u, m[k], nh, out - {p}) == h {
      assert SameButLinks(t[m[k]], u[m[k]]);
      if k < |qs[h]| {
        assert m[k] == qs[h][k] && Home(t, m[k], nh, out) == h;
      }
    }
  }

  /** The fields of a process that is in no list do not matter. */
  lemma {:induction false} OutMayChange(t: Nodes, qs: seq<seq<nat>>, np: nat, nh: nat, out: set<nat>, p: nat, x: Node)
    requires QueuesOK(t, qs, np, nh, out) && p in out && p < np
    ensures QueuesOK(t[p := x], qs, np, nh, out)
  {
    var u := t[p := x];
    forall g | 0 <= g <= nh ensures QueueOK(u, qs, np, nh, out, g) {
      assert QueueOK(t, qs, np, nh, out, g);
      OtherQueue(t, u, qs, qs, np, nh, out, out, g);
    }
  }

  // ---------------------------------------------------------------------- the kernel

  /** The processes of a list that sleep on event e, and the others, in list order. */
  function Sleepers(q: seq<nat>, t: Nodes, e: nat): seq<nat> {
    if q == [] then [] else
      (if q[0] < |t| && t[q[0]].event == e then [q[0]] else []) + Sleepers(q[1..], t, e)
  }

  function Others(q: seq<nat>, t: Nodes, e: nat): seq<nat> {
    if q == [] then [] else
      (if q[0] < |t| && t[q[0]].event == e then [] else [q[0]]) + Others(q[1..], t, e)
  }

  /** Taking the first sleeper off a list. */
  lemma {:induction false} FirstSleeper(q: seq<nat>, t: Nodes, u: Nodes, e: nat, i: nat)
    requires i < |q| && q[i] < |t| && t[q[i]].event == e && |u| == |t|
    requires forall j :: 0 <= j < i ==> q[j] < |t| && t[q[j]].event != e
    requires forall x :: 0 <= x < |t| ==> u[x].event == t[x].event
    ensures Sleepers(q, t, e) == [q[i]] + Sleepers(Cut(q, i), u, e)
    ensures Others(q, t, e) == Others(Cut(q, i), u, e)
    decreases i
  {
    if i == 0 {
      assert Cut(q, 0) == q[1..];
      SameEvents(q[1..], t, u, e);
    } else {
      FirstSleeper(q[1..], t, u, e, i - 1);
      assert Cut(q, i)[1..] == Cut(q[1..], i - 1) && Cut(q, i)[0] == q[0];
    }
  }

  lemma {:induction false} SameEvents(q: seq<nat>, t: Nodes, u: Nodes, e: nat)
    requires |u| == |t| && forall x :: 0 <= x < |t| ==> u[x].event == t[x].event
    ensures Sleepers(q, u, e) == Sleepers(q, t, e) && Others(q, u, e) == Others(q, t, e)
  {
    if q != [] {
      SameEvents(q[1..], t, u, e);
    }
  }

  lemma {:induction false} NoSleepers(q: seq<nat>, t: Nodes, e: nat)
    requires forall j :: 0 <= j < |q| ==> q[j] < |t| && t[q[j]].event != e
    ensures Sleepers(q, t, e) == [] && Others(q, t, e) == q
  {
    if q != [] {
      NoSleepers(q[1..], t, e);
    }
  }

  // ------------------------------------------------------------------- priorities

  /** What get_next_process compares: priority and ageing counter, without the sign bit. */
  function Weight(x: Node): nat {
    ClearSignBit(x.schedPri + x.foodstamp)
  }

  predicate InRange(t: Nodes, q: seq<nat>) {
    q != [] && NoDup(q) && forall i :: 0 <= i < |q| ==> q[i] < |t|
  }

  /** The process at the end of the queue is taken unless another has more than its unmasked sum;
      then it is one with the most, the last of these in the queue. */
  ghost predicate IsChoice(t: Nodes, q: seq<nat>, ret: nat) {
    InRange(t, q) && ret in q &&
    var last := q[|q| - 1];
    var start := t[last].schedPri + t[last].foodstamp;
    && (forall i :: 0 <= i < |q| ==> Weight(t[q[i]]) <= start || Weight(t[q[i]]) <= Weight(t[ret]))
    && (ret != last ==> Weight(t[ret]) > start)
    && forall i, j :: 0 <= i < j < |q| && q[i] == ret ==> Weight(t[q[j]]) < Weight(t[ret])
  }

  /** The queue with one process taken out. */
  ghost predicate WithoutOne(q: seq<nat>, p: nat, r: seq<nat>) {
    exists i :: 0 <= i < |q| && q[i] == p && r == Cut(q, i)
  }

  lemma ChoiceListed(t: Nodes, q: seq<nat>, ret: nat)
    requires IsChoice(t, q, ret)
    ensures ret in q
  {}

  /** The choice among entries j.. of the queue, with `max` to be exceeded. */
  ghost predicate ChoiceSoFar(t: Nodes, q: seq<nat>, j: nat, ret: nat, max: nat) {
    InRange(t, q) && ret in q && j <= |q| &&
    var last := q[|q| - 1];
    var start := t[last].schedPri + t[last].foodstamp;
    && (max == Weight(t[ret]) || (max == start && ret == last)) && max >= start
    && (max == start || exists i :: j <= i < |q| && Weight(t[q[i]]) == max)
    && (ret != last ==> max > start)
    && (forall i :: j <= i < |q| ==> Weight(t[q[i]]) <= max)
    && (forall i, k :: 0 <= i < k < |q| && q[i] == ret ==> j <= k && Weight(t[q[k]]) < max)
  }

  /** Entry i weighs more than the start and than all entries behind it: it leads for a while. */
  ghost predicate Leads(t: Nodes, q: seq<nat>, i: nat)
    requires i < |q| && InRange(t, q)
  {
    var last := q[|q| - 1];
    Weight(t[q[i]]) > t[last].schedPri + t[last].foodstamp && forall j :: i < j < |q| ==> Weight(t[q[j]]) < Weight(t[q[i]])
  }

  /** What becomes of entry i on the way, and what in the end. */
  ghost function Aged(t: Nodes, q: seq<nat>, i: nat, me: int): Node
    requires i < |q| && InRange(t, q)
  {
    var x := t[q[i]];
    if q[i] == me || Leads(t, q, i) then x else x.(foodstamp := ClearSignBit(x.foodstamp + 1))
  }

  ghost function After(t: Nodes, q: seq<nat>, i: nat, ret: nat, me: int): Node
    requires i < |q| && InRange(t, q)
  {
    if q[i] == ret then t[ret].(foodstamp := 0) else Aged(t, q, i, me)
  }

  /** Entries j.. have been passed; the others are as they were. */
  ghost predicate Passed(u: Nodes, t: Nodes, q: seq<nat>, j: nat, me: int) {
    InRange(t, q) && |u| == |t| && j <= |q|
    && (forall i :: 0 <= i < |q| ==> u[q[i]] == if i < j then t[q[i]] else Aged(t, q, i, me))
    && forall x :: 0 <= x < |t| ==> SameButPriority(t[x], u[x])
  }

  lemma NonePassed(t: Nodes, q: seq<nat>, me: int)
    requires InRange(t, q)
    ensures Passed(t, t, q, |q|, me)
  {}

  lemma PassedAt(u: Nodes, t: Nodes, q: seq<nat>, j: nat, me: int)
    requires Passed(u, t, q, j, me) && 0 < j
    ensures q[j - 1] < |u| && u[q[j - 1]] == t[q[j - 1]]
  {}

  lemma {:induction false} PassedOne(u: Nodes, w: Nodes, t: Nodes, q: seq<nat>, j: nat, me: int)
    requires Passed(u, t, q, j, me) && 0 < j && |w| == |u| && w[q[j - 1]] == Aged(t, q, j - 1, me)
    requires forall x :: 0 <= x < |u| && x != q[j - 1] ==> w[x] == u[x]
    ensures Passed(w, t, q, j - 1, me)
  {}

  lemma {:induction false} PassedAll(u: Nodes, w: Nodes, t: Nodes, q: seq<nat>, me: int, ret: nat)
    requires Passed(u, t, q, 0, me) && |w| == |u| && ret in q && ret < |u| && w[ret] == u[ret].(foodstamp := 0)
    requires forall x :: 0 <= x < |u| && x != ret ==> w[x] == u[x]
    ensures forall i :: 0 <= i < |q| ==> q[i] < |w| && w[q[i]] == After(t, q, i, ret, me)
    ensures forall x :: 0 <= x < |t| ==> SameButPriority(t[x], w[x])
  {}

  lemma {:induction false} WhoAges(t: Nodes, q: seq<nat>, j: nat, ret: nat, max: nat, me: int)
    requires ChoiceSoFar(t, q, j, ret, max) && 0 < j
    ensures var x := t[q[j - 1]];
            Aged(t, q, j - 1, me)
            == if q[j - 1] == me || Weight(x) > max then x else x.(foodstamp := ClearSignBit(x.foodstamp + 1))
  {}

  lemma {:induction false} FirstChoice(t: Nodes, q: seq<nat>)
    requires InRange(t, q)
    ensures var last := q[|q| - 1]; ChoiceSoFar(t, q, |q|, last, t[last].schedPri + t[last].foodstamp)
  {}

  lemma {:induction false} NextChoice(t: Nodes, q: seq<nat>, j: nat, ret: nat, max: nat)
    requires ChoiceSoFar(t, q, j, ret, max) && 0 < j
    ensures var w := Weight(t[q[j - 1]]);
            if w > max then ChoiceSoFar(t, q, j - 1, q[j - 1], w) else ChoiceSoFar(t, q, j - 1, ret, max)
  {}

  lemma {:induction false} LastChoice(t: Nodes, q: seq<nat>, ret: nat, max: nat)
    requires ChoiceSoFar(t, q, 0, ret, max)
    ensures IsChoice(t, q, ret)
  {}

  lemma ApartAt(q: seq<nat>, j: nat)
    requires NoDup(q) && j < |q|
    ensures forall i :: 0 <= i < j ==> q[i] != q[j]
  {}

  lemma {:induction false} QueueApart(t: Nodes, qs: seq<seq<nat>>, np: nat, nh: nat, out: set<nat>, h: nat)
    requires QueuesOK(t, qs, np, nh, out) && h <= nh
    ensures NoDup(qs[h]) && forall i :: 0 <= i < |qs[h]| ==> qs[h][i] < np <= |t|
  {
    hide Ring, Home;
    var r := Headed(qs, np, h);
    assert QueueOK(t, qs, np, nh, out, h);
    RingFacts(t, r);
    forall i, j | 0 <= i < j < |qs[h]| ensures qs[h][i] != qs[h][j] {
      assert r[i + 1] == qs[h][i] && r[j + 1] == qs[h][j];
    }
  }

  class Kernel {
    const np: nat
    const nh: nat
    const ng: nat
    const node: array<Node>
    const lock: array<bool>
    const wanted: array<bool>
    const lastlock: array<nat>
    var self: int            // the current process, -1 while the system is idle
    ghost var qs: seq<seq<nat>>
    ghost var holds: seq<set<nat>>   // per gate, who has locked it and not yet unlocked it: a
                                     // lock adds its process, an unlock takes it out

    ghost function Out(): set<nat>
      reads `self
    {
      if self >= 0 then {self as nat} else {}
    }

    ghost predicate Lists(out: set<nat>)
      reads `qs, node
    {
      node.Length == np + nh + 1 && nh > 0 && QueuesOK(node[..], qs, np, nh, out)
    }

    /** Who sleeps on a gate sleeps because it is held, and the holder will know. */
    ghost predicate GatesOK()
      reads `self, `holds, node, lock, wanted, lastlock
    {
      && lock != wanted && lock.Length == wanted.Length == lastlock.Length == |holds| == ng && np <= node.Length
      && (forall p :: 0 <= p < np && node[p].asleep && node[p].event < ng ==> lock[node[p].event] && wanted[node[p].event])
      && (forall g :: 0 <= g < ng ==> holds[g] == if lock[g] then {lastlock[g]} else {})
    }

    ghost predicate Valid()
      reads this, node, lock, wanted, lastlock
    {
      Lists(Out()) && GatesOK() && -1 <= self < np && (self >= 0 ==> !node[self].asleep)
    }

    /** Unlinking one process, as wakeup and dispatch do it. */
    method Unlink(p: nat, ghost h: nat, ghost i: nat, ghost out: set<nat>)
      requires Lists(out) && h <= nh && i < |qs[h]| && qs[h][i] == p
      modifies node, `qs
      ensures Lists(out + {p}) && qs == old(qs)[h := Cut(old(qs)[h], i)]
      ensures forall x :: 0 <= x < node.Length ==> SameButLinks(old(node[x]), node[x])
    {
      hide QueuesOK, Unlinked, Cut;
      ghost var t := node[..];
      EntryLinks(t, qs, np, nh, out, h, i);
      ghost var r := Headed(qs, np, h);
      TakeOut(t, qs, np, nh, out, h, i);
      node[node[p].lback] := node[node[p].lback].(lforw := node[p].lforw);
      node[node[p].lforw] := node[node[p].lforw].(lback := node[p].lback);
      assert node[..] == Unlinked(t, r, i + 1);
      UnlinkedOutside(t, r, i + 1);
      forall x | 0 <= x < node.Length ensures SameButLinks(t[x], node[x]) {
        assert node[x] == node[..][x];
      }
      qs := qs[h := Cut(qs[h], i)];
    }

    /** Linking a process behind the last one of a list, as x_sleep does it. */
    method Append(p: nat, h: nat, ghost out: set<nat>)
      requires Lists(out) && p in out && p < np && h == Home(node[..], p, nh, {})
      modifies node, `qs
      ensures Lists(out - {p}) && h < |old(qs)| && qs == old(qs)[h := old(qs)[h] + [p]]
      ensures forall x :: 0 <= x < node.Length ==> SameButLinks(old(node[x]), node[x])
    {
      hide QueuesOK, Appended;
      ghost var t := node[..];
      PutIn(t, qs, np, nh, out, p, h);
      HeadLinks(t, qs, np, nh, out, h, p);
      ghost var r := Headed(qs, np, h);
      var fp := np + h;
      var bp := node[fp].lback;
      node[p] := node[p].(lforw := fp);
      node[fp] := node[fp].(lback := p);
      node[p] := node[p].(lback := bp);
      node[bp] := node[bp].(lforw := p);
      assert node[..] == Appended(t, r, p);
      AppendedOutside(t, r, p);
      forall x | 0 <= x < node.Length ensures SameButLinks(t[x], node[x]) {
        assert node[x] == node[..][x];
      }
      qs := qs[h := qs[h] + [p]];
    }

    /** wakeup: exactly the sleepers on the event become runnable, in the order they slept. */
    method Wakeup(e: nat)
      requires Lists(Out())
      modifies node, `qs
      ensures Lists(Out()) && |old(qs)| == |qs| == nh + 1
      ensures var h := e % nh;
              && qs[h] == Others(old(qs)[h], old(node[..]), e)
              && qs[nh] == old(qs)[nh] + Sleepers(old(qs)[h], old(node[..]), e)
              && forall g :: 0 <= g < nh && g != h ==> qs[g] == old(qs)[g]
      ensures forall x :: 0 <= x < node.Length ==> Woken(old(node[x]), node[x], e, x in Sleepers(old(qs)[e % nh], old(node[..]), e))
    {
      hide QueuesOK, Sleepers, Others, Headed, Waking, Woken;
      var h, head := e % nh, np + e % nh;
      ListCount(node[..], qs, np, nh, Out());
      ghost var t0, qs0 := node[..], qs;
      ghost var moved: seq<nat>, i: nat := [], 0;
      WakeStart(t0, qs0, nh, e);
      var pp := StepForward(head, h, i);
      while pp != head
        invariant Lists(Out()) && |qs| == nh + 1 && i <= |qs[h]| && pp == (if i < |qs[h]| then qs[h][i] else head)
        invariant Waking(t0, qs0, node[..], qs, nh, e, moved, i)
        decreases |qs[h]|, |qs[h]| - i
      {
        EntryRange(node[..], qs, np, nh, Out(), h, i);
        if node[pp].event == e {
          ghost var t, was := node[..], qs;
          SetRunnable(pp, h, i);
          WakeOne(t0, qs0, t, node[..], was, qs, nh, e, moved, i);
          moved := moved + [pp];
          pp, i := head, 0;
        } else {
          WakeSkip(t0, qs0, node[..], qs, nh, e, moved, i);
          i := i + 1;
        }
        pp := StepForward(pp, h, i);
      }
      AllSeen(node[..], qs, np, nh, Out(), h, i);
      WakeEnd(t0, qs0, node[..], qs, nh, e, moved, i);
      forall x | 0 <= x < node.Length ensures node[x] == node[..][x] && old(node[x]) == t0[x] {}
    }

    /** pp->p_lforw, where pp is the node before entry i of list h. */
    method StepForward(pp: nat, ghost h: nat, ghost i: nat) returns (next: nat)
      requires Lists(Out()) && h <= nh && |qs| == nh + 1 && i <= |qs[h]| && pp == (if i == 0 then np + h else qs[h][i - 1])
      ensures next == if i < |qs[h]| then qs[h][i] else np + h
    {
      hide QueuesOK;
      RingEntry(node[..], qs, np, nh, Out(), h, i);
      next := node[pp].lforw;
    }

    /** The process leaves its event's list for the end of the run queue. */
    method SetRunnable(p: nat, ghost h: nat, ghost i: nat)
      requires Lists(Out()) && h < nh && |qs| == nh + 1 && i < |qs[h]| && qs[h][i] == p
      modifies node, `qs
      ensures Lists(Out()) && qs == old(qs)[h := Cut(old(qs)[h], i)][nh := old(qs)[nh] + [p]]
      ensures forall x :: 0 <= x < node.Length ==> SameButLinks(old(node[x]).(asleep := old(node[x]).asleep && x != p), node[x])
    {
      hide QueuesOK, Cut;
      ghost var out := Out();
      EntryRange(node[..], qs, np, nh, out, h, i);
      Unlink(p, h, i, out);
      ghost var t := node[..];
      node[p] := node[p].(asleep := false);
      assert node[..] == t[p := node[p]];
      OutMayChange(t, qs, np, nh, out + {p}, p, node[p]);
      Append(p, nh, out + {p});
      assert out + {p} - {p} == out;
    }

    // --------------------------------------------------------------------- dispatch

    /** get_next_process: from the end of the run queue, the highest priority.  The others age,
        but for `me`, which is giving up the processor, and those that led on the way. */
    method GetNextProcess(me: int) returns (ret: nat)
      requires Lists({}) && |qs| == nh + 1
      modifies node
      ensures Lists({}) && (if qs[nh] == [] then ret == np + nh else IsChoice(old(node[..]), qs[nh], ret))
      ensures forall i :: 0 <= i < |qs[nh]| ==>
                qs[nh][i] < node.Length && node[qs[nh][i]] == After(old(node[..]), qs[nh], i, ret, me)
      ensures forall x :: 0 <= x < node.Length ==> SameButPriority(old(node[x]), node[x])
    {
      hide QueuesOK, Headed, ChoiceSoFar, IsChoice, NoDup, InRange, Passed, Aged, After;
      ghost var t0 := node[..];
      QueueApart(t0, qs, np, nh, {}, nh);
      var iprocp := np + nh;
      BackLinks(node[..], qs, np, nh, {}, nh);
      ghost var j: nat, q := |qs[nh]|, qs[nh];
      var cur := node[iprocp].lback;
      ret := cur;
      if cur == iprocp {
        return;
      }
      var max: nat := node[cur].schedPri + node[cur].foodstamp;
      FirstChoice(t0, q);
      NonePassed(t0, q, me);
      while cur != iprocp
        invariant ChoiceSoFar(t0, q, j, ret, max)
        invariant Passed(node[..], t0, q, j, me)
        invariant Lists({}) && qs == old(qs) && j <= |q| && cur == (if j > 0 then q[j - 1] else iprocp) && ret in q
        decreases j
      {
        ghost var t := node[..];
        BackLink(t, qs, np, nh, {}, nh, j - 1);
        PassedAt(t, t0, q, j, me);
        ret, max := Consider(cur, ret, max, me, t0, q, j);
        PassedOne(t, node[..], t0, q, j, me);
        BackLink(node[..], qs, np, nh, {}, nh, j - 1);
        cur := node[cur].lback;
        j := j - 1;
      }
      LastChoice(t0, q, ret, max);
      MemberRange(node[..], qs, np, nh, {}, nh, ret);
      ghost var t := node[..];
      SetFoodstamp(ret, 0);
      PassedAll(t, node[..], t0, q, me, ret);
    }

    /** One turn of the loop: cur leads now, or ages. */
    method Consider(cur: nat, ret0: nat, max0: nat, me: int, ghost t0: Nodes, ghost q: seq<nat>, ghost j: nat)
      returns (ret: nat, max: nat)
      requires Lists({}) && ChoiceSoFar(t0, q, j, ret0, max0) && 0 < j && q[j - 1] == cur
      requires cur < node.Length && node[cur] == t0[cur]
      modifies node
      ensures Lists({}) && ChoiceSoFar(t0, q, j - 1, ret, max) && (ret == ret0 || ret == cur)
      ensures node[cur] == Aged(t0, q, j - 1, me)
      ensures forall x :: 0 <= x < node.Length && x != cur ==> node[x] == old(node[x])
    {
      hide QueuesOK, ChoiceSoFar, Aged, ClearSignBit;
      NextChoice(t0, q, j, ret0, max0);
      WhoAges(t0, q, j, ret0, max0, me);
      ret, max := ret0, max0;
      var con := ClearSignBit(node[cur].schedPri + node[cur].foodstamp);
      if con > max {
        max, ret := con, cur;
      } else if cur != me {
        SetFoodstamp(cur, ClearSignBit(node[cur].foodstamp + 1));
      }
    }

    /** p_foodstamp, which no list depends on. */
    method SetFoodstamp(p: nat, n: nat)
      requires Lists({}) && p < node.Length
      modifies node
      ensures Lists({}) && node[p] == old(node[p]).(foodstamp := n)
      ensures forall x :: 0 <= x < node.Length && x != p ==> node[x] == old(node[x])
    {
      hide QueuesOK;
      ghost var t := node[..];
      node[p] := node[p].(foodstamp := n);
      PriorityIgnored(t, node[..], qs, np, nh, {});
    }

    /** dispatch: the chosen process leaves the run queue and becomes the current one. */
    method Dispatch(me: int)
      requires Lists({}) && GatesOK() && self == -1
      modifies node, `qs, `self
      ensures Valid() && |old(qs)| == nh + 1 && (self == -1 <==> old(qs)[nh] == [])
      ensures self >= 0 ==> IsChoice(old(node[..]), old(qs)[nh], self) && WithoutOne(old(qs)[nh], self, qs[nh])
      ensures self == -1 ==> qs == old(qs)
      ensures |qs| == nh + 1 && forall h :: 0 <= h < nh ==> qs[h] == old(qs)[h]
      ensures forall x :: 0 <= x < node.Length ==> SameSleep(old(node[x]), node[x])
    {
      hide QueuesOK, Cut, IsChoice;
      ListCount(node[..], qs, np, nh, {});
      ghost var was := node[..];
      var pp := GetNextProcess(me);
      if qs[nh] != [] {
        ChoiceListed(was, qs[nh], pp);
      }
      if pp != np + nh {
        ghost var i: nat :| i < |qs[nh]| && qs[nh][i] == pp;
        MemberRange(node[..], qs, np, nh, {}, nh, pp);
        Unlink(pp, nh, i, {});
        self := pp;
        assert {} + {pp} == Out();
      } else {
        HeadIsNone(node[..], qs, np, nh, {}, nh);
      }
    }

    /** The current process gives up the processor but stays runnable. */
    method Yield()
      requires Valid() && self >= 0
      modifies node, `qs, `self
      ensures Valid() && self >= 0
      ensures forall x :: 0 <= x < node.Length ==> SameSleep(old(node[x]), node[x])
    {
      hide QueuesOK;
      ghost var out := Out();
      var me := self;
      Append(self, nh, out);
      self := -1;
      assert out - {me} == {};
      Dispatch(me);
    }

    /** x_sleep without signals: queue on the event and dispatch. */
    method Sleep(e: nat)
      requires Valid() && self >= 0 && (e < ng ==> lock[e] && wanted[e])
      modifies node, `qs, `self
      ensures Valid() && node[old(self)].asleep && node[old(self)].event == e
      ensures |qs| == |old(qs)| == nh + 1 && qs[e % nh] == old(qs)[e % nh] + [old(self) as nat]
      ensures forall h :: 0 <= h < nh && h != e % nh ==> qs[h] == old(qs)[h]
      ensures forall x :: 0 <= x < node.Length && x != old(self) ==> SameSleep(old(node[x]), node[x])
    {
      hide QueuesOK;
      ghost var out, t := Out(), node[..];
      var me := self as nat;
      node[self] := node[self].(event := e, asleep := true);
      assert node[..] == t[me := node[me]];
      OutMayChange(t, qs, np, nh, out, me, node[me]);
      Append(self, e % nh, out);
      self := -1;
      assert out - {me} == {};
      Dispatch(me);
    }

    // ------------------------------------------------------------------------ gates

    /** __GATE_LOCK up to its end or its sleep; a woken process calls it again. */
    method GateLock(g: nat) returns (got: bool)
      requires Valid() && self >= 0 && g < ng
      modifies node, lock, wanted, lastlock, `qs, `self, `holds
      ensures Valid() && got == !old(lock[g])
      ensures got ==> holds == old(holds)[g := {old(self) as nat}] && self == old(self) && old(holds)[g] == {}
      ensures !got ==> holds == old(holds) && node[old(self)].asleep && node[old(self)].event == g
    {
      hide QueuesOK;
      if lock[g] {
        wanted[g] := true;
        Sleep(g);
        return false;
      }
      lock[g] := true;
      lastlock[g] := self;
      holds := holds[g := holds[g] + {self as nat}];
      return true;
    }

    /** __GATE_UNLOCK by the holder. */
    method GateUnlock(g: nat)
      requires Valid() && self >= 0 && g < ng && self in holds[g]
      modifies node, lock, wanted, `qs, `holds
      ensures Valid() && self == old(self) && holds == old(holds)[g := {}]
      ensures forall p :: 0 <= p < np && node[p].asleep ==> node[p].event != g
      ensures forall p :: 0 <= p < np && old(node[p]).asleep && old(node[p]).event != g ==> node[p].asleep
    {
      hide QueuesOK, Sleepers, Others;
      ghost var t, s := node[..], qs;
      SleeperListed(t, s, np, nh, Out(), g);
      ghost var sleepers := Sleepers(s[g % nh], t, g);
      lock[g] := false;
      holds := holds[g := holds[g] - {self as nat}];
      if wanted[g] {
        wanted[g] := false;
        Wakeup(g);
      }
    }

    /** Every process is the current one or in exactly one list. */
    lemma {:induction false} OnePlace(p: nat)
      requires Valid() && p < np
      ensures p == self ==> forall h :: 0 <= h < |qs| ==> p !in qs[h]
      ensures p != self ==> InOneList(qs, p)
    {
      hide QueuesOK;
      PlaceOf(node[..], qs, np, nh, Out(), p);
    }

    /** pcsinit and the first processes: number 0 runs, the others are runnable. */
    constructor (processes: nat, hashes: nat, gates: nat)
      requires processes > 0 && hashes > 0
      ensures Valid() && np == processes && nh == hashes && ng == gates && self == 0
      ensures fresh(node) && fresh(lock) && fresh(wanted) && fresh(lastlock)
      ensures forall g :: 0 <= g < gates ==> holds[g] == {}
    {
      hide QueuesOK, Repeat, Interval;
      np, nh, ng, self := processes, hashes, gates, 0;
      node := new Node[processes + hashes + 1](i => Node(i, i, 0, false, 0, 0));
      lock := new bool[gates](i => false);
      wanted := new bool[gates](i => false);
      lastlock := new nat[gates](i => 0);
      qs := Repeat<seq<nat>>([], hashes + 1);
      holds := Repeat<set<nat>>({}, gates);
      new;
      NewLists(node[..], processes, hashes);
      StartAll(Interval(0, processes));
    }

    /** All processes but the first go on the run queue. */
    method StartAll(ghost all: set<nat>)
      requires np > 0 && Lists(all) && |qs| == nh + 1 && all == Interval(0, np)
      requires forall x :: 0 <= x < node.Length ==> !node[x].asleep
      modifies node, `qs
      ensures Lists({0}) && forall x :: 0 <= x < node.Length ==> !node[x].asleep
    {
      hide QueuesOK, Interval;
      var p: nat := 1;
      ghost var out := all;
      while p < np
        invariant p <= np && Lists(out) && |qs| == nh + 1
        invariant out == {0} + Interval(p, np)
        invariant forall x :: 0 <= x < node.Length ==> !node[x].asleep
      {
        assert Home(node[..], p, nh, {}) == nh;
        ghost var t := node[..];
        Append(p, nh, out);
        forall x | 0 <= x < node.Length ensures !node[x].asleep {
          assert SameButLinks(t[x], node[x]);
        }
        assert out - {p} == {0} + Interval(p + 1, np);
        out := out - {p};
        p := p + 1;
      }
      assert out == {0};
    }
  }

  lemma {:induction false} NewLists(t: Nodes, np: nat, nh: nat)
    requires nh > 0 && np > 0 && |t| == np + nh + 1
    requires forall x :: 0 <= x < |t| ==> t[x].lforw == t[x].lback == x
    ensures QueuesOK(t, Repeat<seq<nat>>([], nh + 1), np, nh, {0} + Interval(1, np))
    ensures Interval(0, np) == {0} + Interval(1, np)
  {
    var qs, out := Repeat<seq<nat>>([], nh + 1), {0} + Interval(1, np);
    forall h | 0 <= h <= nh ensures QueueOK(t, qs, np, nh, out, h) {
      assert Headed(qs, np, h) == [np + h];
    }
  }

  // ------------------------------------------------------------------------ any run

  datatype Op = Lock(gate: nat) | Unlock(gate: nat) | SleepOn(event: nat) | Wake(event: nat) | Switch

  /** What the current process, or an interrupt, may do next; a gate is unlocked by its holder. */
  predicate Enabled(k: Kernel, op: Op)
    requires k.lock.Length == k.lastlock.Length == k.ng
    reads k, k.lock, k.lastlock
  {
    match op
    case Lock(g) => k.self >= 0 && g < k.ng
    case Unlock(g) => k.self >= 0 && g < k.ng && k.lock[g] && k.lastlock[g] == k.self
    case SleepOn(e) => k.self >= 0 && e >= k.ng
    case Wake(e) => e >= k.ng
    case Switch => true
  }

  /** One step of any process, or of an interrupt while none runs. */
  method Step(k: Kernel, op: Op)
    requires k.Valid() && Enabled(k, op)
    modifies k, k.node, k.lock, k.wanted, k.lastlock
    ensures k.Valid()
  {
    hide QueuesOK, Sleepers, Others;
    match op {
      case Lock(g) =>
        var got := k.GateLock(g);
      case Unlock(g) =>
        k.GateUnlock(g);
      case SleepOn(e) =>
        k.Sleep(e);
      case Wake(e) =>
        ghost var t, s := k.node[..], k.qs;
        SleeperListed(t, s, k.np, k.nh, k.Out(), e);
        ghost var sleepers := Sleepers(s[e % k.nh], t, e);
        k.Wakeup(e);
      case Switch =>
        if k.self >= 0 {
          k.Yield();
        } else {
          k.Dispatch(-1);
        }
    }
  }

  /** After any steps from the start: whoever sleeps on a gate sleeps on a held one whose holder
      will wake it, no gate has two holders, and every process is in exactly one place. */
  method Run(processes: nat, hashes: nat, gates: nat, ops: seq<Op>) returns (k: Kernel)
    requires processes > 0 && hashes > 0
    ensures k.Valid() && |k.qs| == hashes + 1 && k.np == processes && k.nh == hashes && k.ng == gates
    ensures forall p :: 0 <= p < k.np && k.node[p].asleep && k.node[p].event < k.ng ==>
              k.lock[k.node[p].event] && k.wanted[k.node[p].event]
    ensures forall g :: 0 <= g < k.ng ==> |k.holds[g]| <= 1 && (k.holds[g] != {} <==> k.lock[g])
    ensures forall p: nat :: p < k.np && p != k.self ==> InOneList(k.qs, p)
  {
    hide QueuesOK;
    k := new Kernel(processes, hashes, gates);
    for i := 0 to |ops|
      invariant k.Valid() && k.np == processes && k.nh == hashes && k.ng == gates
      invariant fresh(k) && fresh(k.node) && fresh(k.lock) && fresh(k.wanted) && fresh(k.lastlock)
    {
      if Enabled(k, ops[i]) {
        Step(k, ops[i]);
      }
    }
    forall p: nat | p < k.np && p != k.self ensures InOneList(k.qs, p) {
      k.OnePlace(p);
    }
    ListCount(k.node[..], k.qs, k.np, k.nh, k.Out());
  }

  function ClearSignBit(x: nat): nat {
    x % 0x8000_0000
  }

  predicate SameButPriority(x: Node, y: Node) {
    y == x.(schedPri := y.schedPri, foodstamp := y.foodstamp)
  }

  predicate SameSleep(x: Node, y: Node) {
    y.asleep == x.asleep && y.event == x.event
  }

  lemma {:induction false} BackLinks(t: Nodes, qs: seq<seq<nat>>, np: nat, nh: nat, out: set<nat>, h: nat)
    requires QueuesOK(t, qs, np, nh, out) && h <= nh && |qs| == nh + 1
    ensures np + h < |t| && t[np + h].lback == if qs[h] == [] then np + h else qs[h][|qs[h]| - 1]
    ensures qs[h] != [] ==> qs[h][|qs[h]| - 1] < np
  {
    hide NoDup, Home;
    assert QueueOK(t, qs, np, nh, out, h);
    var r := Headed(qs, np, h);
    assert r[0] == np + h && Linked(t[r[0]], r, 0);
  }

  lemma {:induction false} BackLink(t: Nodes, qs: seq<seq<nat>>, np: nat, nh: nat, out: set<nat>, h: nat, i: nat)
    requires QueuesOK(t, qs, np, nh, out) && h <= nh && |qs| == nh + 1 && i < |qs[h]|
    ensures qs[h][i] < np <= |t| && t[qs[h][i]].lback == if i == 0 then np + h else qs[h][i - 1]
  {
    hide NoDup, Home;
    assert QueueOK(t, qs, np, nh, out, h);
    var r := Headed(qs, np, h);
    assert r[i + 1] == qs[h][i] && Linked(t[r[i + 1]], r, i + 1);
    assert r[i] == if i == 0 then np + h else qs[h][i - 1];
  }

  lemma {:induction false} PriorityIgnored(t: Nodes, u: Nodes, qs: seq<seq<nat>>, np: nat, nh: nat, out: set<nat>)
    requires QueuesOK(t, qs, np, nh, out) && |u| == |t| && forall x :: 0 <= x < |t| ==> SameButPriority(t[x], u[x])
    ensures QueuesOK(u, qs, np, nh, out)
  {
    hide Ring;
    forall h | 0 <= h <= nh ensures QueueOK(u, qs, np, nh, out, h) {
      assert QueueOK(t, qs, np, nh, out, h);
      RingKept(t, u, Headed(qs, np, h));
      forall k | 0 <= k < |qs[h]| ensures Home(u, qs[h][k], nh, out) == h {
        assert Home(t, qs[h][k], nh, out) == h;
      }
    }
    forall p: nat | p < np && p !in out ensures p in qs[Home(u, p, nh, out)] {
      assert Home(u, p, nh, out) == Home(t, p, nh, out);
    }
  }

  lemma {:induction false} MemberRange(t: Nodes, qs: seq<seq<nat>>, np: nat, nh: nat, out: set<nat>, h: nat, p: nat)
    requires QueuesOK(t, qs, np, nh, out) && h <= nh && |qs| == nh + 1 && p in qs[h]
    ensures p < np <= |t| && p !in out && t[p].asleep == (h < nh)
  {
    assert QueueOK(t, qs, np, nh, out, h);
    var k :| 0 <= k < |qs[h]| && qs[h][k] == p;
    assert Home(t, qs[h][k], nh, out) == h;
  }

  lemma {:induction false} HeadIsNone(t: Nodes, qs: seq<seq<nat>>, np: nat, nh: nat, out: set<nat>, h: nat)
    requires QueuesOK(t, qs, np, nh, out) && h <= nh && |qs| == nh + 1
    ensures np + nh !in qs[h]
  {
    if np + nh in qs[h] {
      MemberRange(t, qs, np, nh, out, h, np + nh);
    }
  }

  /** Whoever sleeps on an event is found in the event's list. */
  lemma {:induction false} SleeperListed(t: Nodes, qs: seq<seq<nat>>, np: nat, nh: nat, out: set<nat>, e: nat)
    requires QueuesOK(t, qs, np, nh, out)
    ensures |qs| == nh + 1
    ensures forall p: nat :: p < np && p !in out && t[p].asleep && t[p].event == e ==> p in Sleepers(qs[e % nh], t, e)
    ensures forall p: nat :: p in Sleepers(qs[e % nh], t, e) ==> p < |t| && t[p].event == e
  {
    SleepersAre(qs[e % nh], t, e);
    forall p: nat | p < np && p !in out && t[p].asleep && t[p].event == e ensures p in Sleepers(qs[e % nh], t, e) {
      assert p in qs[Home(t, p, nh, out)];
    }
  }

  lemma {:induction false} SleepersAre(q: seq<nat>, t: Nodes, e: nat)
    ensures forall p: nat :: p in Sleepers(q, t, e) <==> p in q && p < |t| && t[p].event == e
  {
    if q != [] {
      SleepersAre(q[1..], t, e);
      assert q == [q[0]] + q[1..];
    }
  }

  ghost predicate InOneList(qs: seq<seq<nat>>, p: nat) {
    && (exists h :: 0 <= h < |qs| && p in qs[h])
    && forall g, h :: 0 <= g < h < |qs| ==> !(p in qs[g] && p in qs[h])
  }

  lemma {:induction false} PlaceOf(t: Nodes, qs: seq<seq<nat>>, np: nat, nh: nat, out: set<nat>, p: nat)
    requires QueuesOK(t, qs, np, nh, out) && p < np
    ensures |qs| == nh + 1
    ensures p in out ==> forall h :: 0 <= h <= nh ==> p !in qs[h]
    ensures p !in out ==> InOneList(qs, p)
  {
    forall h: nat | h <= nh ensures p in qs[h] ==> p !in out && Home(t, p, nh, out) == h {
      assert QueueOK(t, qs, np, nh, out, h);
      HeadedMembers(t, qs, np, nh, out, h, p);
    }
    if p !in out {
      assert p in qs[Home(t, p, nh, out)];
    }
  }

  /** The process is runnable if it was a sleeper on the event, and otherwise as it was. */
  predicate Woken(x: Node, y: Node, e: nat, sleeper: bool) {
    y == x.(lforw := y.lforw, lback := y.lback, asleep := x.asleep && !sleeper)
  }

  lemma {:induction false} ListCount(t: Nodes, qs: seq<seq<nat>>, np: nat, nh: nat, out: set<nat>)
    requires QueuesOK(t, qs, np, nh, out)
    ensures |qs| == nh + 1
  {}

  lemma {:induction false} RingEntry(t: Nodes, qs: seq<seq<nat>>, np: nat, nh: nat, out: set<nat>, h: nat, i: nat)
    requires QueuesOK(t, qs, np, nh, out) && h <= nh && |qs| == nh + 1 && i <= |qs[h]|
    ensures var pp := if i == 0 then np + h else qs[h][i - 1];
            pp < |t| && t[pp].lforw == if i < |qs[h]| then qs[h][i] else np + h
  {
    hide NoDup, Home;
    assert QueueOK(t, qs, np, nh, out, h);
    var r := Headed(qs, np, h);
    assert r[i] == (if i == 0 then np + h else qs[h][i - 1]) && Linked(t[r[i]], r, i);
  }

  lemma {:induction false} EntryRange(t: Nodes, qs: seq<seq<nat>>, np: nat, nh: nat, out: set<nat>, h: nat, i: nat)
    requires QueuesOK(t, qs, np, nh, out) && h <= nh && |qs| == nh + 1 && i < |qs[h]|
    ensures qs[h][i] < np && qs[h][i] !in out
  {
    assert QueueOK(t, qs, np, nh, out, h) && Home(t, qs[h][i], nh, out) == h;
  }

  /** Reaching the head again means that the whole list has been seen. */
  lemma {:induction false} AllSeen(t: Nodes, qs: seq<seq<nat>>, np: nat, nh: nat, out: set<nat>, h: nat, i: nat)
    requires QueuesOK(t, qs, np, nh, out) && h <= nh && |qs| == nh + 1 && i <= |qs[h]|
    requires (if i < |qs[h]| then qs[h][i] else np + h) == np + h
    ensures i == |qs[h]|
  {
    if i < |qs[h]| {
      EntryRange(t, qs, np, nh, out, h, i);
    }
  }

  /** wakeup under way: `moved` has gone to the run queue, and the first i entries of what is
      left of the list do not sleep on the event. */
  ghost predicate Waking(t0: Nodes, qs0: seq<seq<nat>>, t: Nodes, qs: seq<seq<nat>>, nh: nat, e: nat, moved: seq<nat>, i: nat) {
    && nh > 0 && |qs| == |qs0| == nh + 1 && |t| == |t0| && i <= |qs[e % nh]|
    && (forall k :: 0 <= k < i ==> qs[e % nh][k] < |t| && t[qs[e % nh][k]].event != e)
    && Sleepers(qs0[e % nh], t0, e) == moved + Sleepers(qs[e % nh], t, e)
    && Others(qs0[e % nh], t0, e) == Others(qs[e % nh], t, e)
    && qs[nh] == qs0[nh] + moved && (forall g :: 0 <= g < nh && g != e % nh ==> qs[g] == qs0[g])
    && forall x :: 0 <= x < |t| ==> Woken(t0[x], t[x], e, x in moved)
  }

  lemma {:induction false} WakeStart(t: Nodes, qs: seq<seq<nat>>, nh: nat, e: nat)
    requires nh > 0 && |qs| == nh + 1
    ensures Waking(t, qs, t, qs, nh, e, [], 0)
  {}

  lemma {:induction false} WakeSkip(t0: Nodes, qs0: seq<seq<nat>>, t: Nodes, qs: seq<seq<nat>>, nh: nat, e: nat, moved: seq<nat>, i: nat)
    requires Waking(t0, qs0, t, qs, nh, e, moved, i) && i < |qs[e % nh]| && qs[e % nh][i] < |t|
    requires t[qs[e % nh][i]].event != e
    ensures Waking(t0, qs0, t, qs, nh, e, moved, i + 1)
  {
    hide Sleepers, Others, Woken;
  }

  lemma {:induction false} WakeOne(t0: Nodes, qs0: seq<seq<nat>>, t: Nodes, u: Nodes, qs: seq<seq<nat>>, rs: seq<seq<nat>>, nh: nat, e: nat, moved: seq<nat>, i: nat)
    requires Waking(t0, qs0, t, qs, nh, e, moved, i) && i < |qs[e % nh]| && qs[e % nh][i] < |t| && |u| == |t|
    requires t[qs[e % nh][i]].event == e
    requires rs == qs[e % nh := Cut(qs[e % nh], i)][nh := qs[nh] + [qs[e % nh][i]]]
    requires forall x :: 0 <= x < |t| ==> SameButLinks(t[x].(asleep := t[x].asleep && x != qs[e % nh][i]), u[x])
    ensures Waking(t0, qs0, u, rs, nh, e, moved + [qs[e % nh][i]], 0)
  {
    hide Sleepers, Others, Cut;
    var q, p := qs[e % nh], qs[e % nh][i];
    FirstSleeper(q, t, u, e, i);
    assert moved + ([p] + Sleepers(rs[e % nh], u, e)) == (moved + [p]) + Sleepers(rs[e % nh], u, e);
    assert qs0[nh] + (moved + [p]) == (qs0[nh] + moved) + [p];
  }

  lemma {:induction false} WakeEnd(t0: Nodes, qs0: seq<seq<nat>>, t: Nodes, qs: seq<seq<nat>>, nh: nat, e: nat, moved: seq<nat>, i: nat)
    requires Waking(t0, qs0, t, qs, nh, e, moved, i) && i == |qs[e % nh]|
    ensures qs[e % nh] == Others(qs0[e % nh], t0, e) && moved == Sleepers(qs0[e % nh], t0, e)
    ensures qs[nh] == qs0[nh] + Sleepers(qs0[e % nh], t0, e) && forall g :: 0 <= g < nh && g != e % nh ==> qs[g] == qs0[g]
    ensures forall x :: 0 <= x < |t| ==> Woken(t0[x], t[x], e, x in Sleepers(qs0[e % nh], t0, e))
  {
    hide Sleepers, Others, Woken;
    NoSleepers(qs[e % nh], t, e);
    assert moved + [] == moved;
  }

  lemma {:induction false} HeadLinks(t: Nodes, qs: seq<seq<nat>>, np: nat, nh: nat, out: set<nat>, h: nat, p: nat)
    requires QueuesOK(t, qs, np, nh, out) && h <= nh && p in out && p < np
    ensures h < |qs| && np + h < |t|
    ensures var r := Headed(qs, np, h);
            && NoDup(r) && p !in r && t[np + h].lback == r[|r| - 1] && t[np + h].lforw == Next(r, 0)
            && (forall j :: 0 <= j < |r| ==> r[j] < |t|)
            && Appended(t, r, p)
               == (var a := t[p := t[p].(lforw := r[0])];
                   var b := a[r[0] := a[r[0]].(lback := p)];
                   var c := b[p := b[p].(lback := r[|r| - 1])];
                   c[r[|r| - 1] := c[r[|r| - 1]].(lforw := p)])
  {
    assert QueueOK(t, qs, np, nh, out, h);
    var r := Headed(qs, np, h);
    assert r[0] == np + h && Linked(t[r[0]], r, 0);
  }

  lemma {:induction false} EntryLinks(t: Nodes, qs: seq<seq<nat>>, np: nat, nh: nat, out: set<nat>, h: nat, i: nat)
    requires QueuesOK(t, qs, np, nh, out) && h <= nh && i < |qs[h]|
    ensures h < |qs|
    ensures var r, p := Headed(qs, np, h), qs[h][i];
            && p < np && NoDup(r) && t[p].lforw == Next(r, i + 1) && t[p].lback == Prev(r, i + 1)
            && Prev(r, i + 1) != p && (forall j :: 0 <= j < |r| ==> r[j] < |t|)
            && Unlinked(t, r, i + 1)
               == (var a := t[Prev(r, i + 1) := t[Prev(r, i + 1)].(lforw := Next(r, i + 1))];
                   a[Next(r, i + 1) := a[Next(r, i + 1)].(lback := Prev(r, i + 1))])
  {
    assert QueueOK(t, qs, np, nh, out, h);
    var r := Headed(qs, np, h);
    assert Linked(t[r[i + 1]], r, i + 1) && r[i + 1] == qs[h][i];
  }

}
