/**
  The radix sort of bio.c: four passes over a linked list of containers, one for each octet
  of the block number, least significant first.  A pass pushes every container on the stack
  of its octet and then pops the stacks, highest octet first, in front of the result.
 */
module RadixSort {
  /** buf_list_t: a container naming a buffer, linked into one list. */
  class Container {
    const buf: nat
    var next: Container?

    constructor (b: nat, n: Container?)
      ensures buf == b && next == n
    {
      buf, next := b, n;
    }
  }

  /** The links of some containers. */
  type Links = map<Container, Container?>

  ghost function LinksOf(l: seq<Container>): Links
    reads l
  {
    map c | c in l :: c.next
  }

  /** Following the links from head gives exactly the containers s. */
  ghost predicate IsList(x: Links, head: Container?, s: seq<Container>) {
    && head == At(s, 0)
    && forall k :: 0 <= k < |s| ==> LinkedTo(x, s[k], At(s, k + 1))
  }

  ghost function At(s: seq<Container>, k: int): Container? {
    if 0 <= k < |s| then s[k] else null
  }

  ghost predicate LinkedTo(x: Links, c: Container, n: Container?) {
    c in x && x[c] == n
  }

  lemma {:induction false} ListKept(x: Links, head: Container?, s: seq<Container>, c: Container, n: Container?)
    requires IsList(x, head, s) && forall k :: 0 <= k < |s| ==> s[k] != c
    ensures IsList(x[c := n], head, s)
  {
    var y := x[c := n];
    forall k | 0 <= k < |s| ensures s[k] in y && y[s[k]] == x[s[k]] {}
  }

  /** Taking the head off a list, and putting one in front of a list. */
  lemma {:induction false} ListTail(x: Links, s: seq<Container>)
    requires s != [] && IsList(x, s[0], s)
    ensures s[0] in x && IsList(x, x[s[0]], s[1..])
  {
    var t := s[1..];
    assert LinkedTo(x, s[0], At(s, 1));
    forall k | 0 <= k < |t| ensures LinkedTo(x, t[k], At(t, k + 1)) {
      assert t[k] == s[k + 1];
      assert LinkedTo(x, s[k + 1], At(s, k + 2));
      assert k + 1 < |t| ==> t[k + 1] == s[k + 2];
    }
  }

  lemma {:induction false} ListPush(x: Links, head: Container?, s: seq<Container>, c: Container)
    requires IsList(x, head, s) && forall k :: 0 <= k < |s| ==> s[k] != c
    ensures IsList(x[c := head], c, [c] + s)
  {
    ListKept(x, head, s, c, head);
    var y, r := x[c := head], [c] + s;
    forall k | 0 <= k < |r| ensures LinkedTo(y, r[k], At(r, k + 1)) {
      if k > 0 {
        assert r[k] == s[k - 1] && (k < |s| ==> r[k + 1] == s[k]);
        assert LinkedTo(x, s[k - 1], At(s, k));
      }
    }
  }

  lemma NoList()
    ensures IsList(LinksOf([]), null, []) && Distinct([])
  {}

  /** A new container in front of a list. */
  lemma {:induction false} NewHead(head: Container?, l: seq<Container>, c: Container)
    requires IsList(LinksOf(l), head, l) && Distinct(l) && c.next == head
    requires forall k :: 0 <= k < |l| ==> l[k] != c
    ensures IsList(LinksOf([c] + l), c, [c] + l) && Distinct([c] + l)
  {
    hide IsList;
    LinksOfFront(l, c);
    ListPush(LinksOf(l), head, l, c);
    hide LinksOf;
    DistinctFront(l, c);
  }

  lemma LinksOfFront(l: seq<Container>, c: Container)
    ensures LinksOf([c] + l) == LinksOf(l)[c := c.next]
  {}

  lemma DistinctFront(l: seq<Container>, c: Container)
    requires Distinct(l) && forall k :: 0 <= k < |l| ==> l[k] != c
    ensures Distinct([c] + l)
  {}

  lemma {:induction false} FirstOf(c: Container, l: seq<Container>, n: nat)
    requires n <= |l| && IsList(LinksOf(l), c, l[n..])
    ensures n < |l| && c == l[n] && IsList(LinksOf(l), c.next, l[n + 1..])
  {
    ListTail(LinksOf(l), l[n..]);
    assert l[n..][1..] == l[n + 1..];
  }

  lemma NoneLeftOf(l: seq<Container>, n: nat)
    requires n <= |l| && IsList(LinksOf(l), null, l[n..])
    ensures n == |l|
  {}

  ghost predicate Distinct(l: seq<Container>) {
    forall i, j :: 0 <= i < j < |l| ==> l[i] != l[j]
  }

  // ------------------------------------------------------------- what a pass computes

  /** Octet i of a block number of four octets. */
  function Octet(v: nat, i: nat): (r: nat)
    ensures r < 256
  {
    v / Weight(i) % 256
  }

  function Weight(i: nat): (w: nat)
    ensures w > 0
  {
    if i == 0 then 1 else if i == 1 then 0x100 else if i == 2 then 0x1_0000
    else if i == 3 then 0x100_0000 else 0x1_0000_0000
  }

  /** Block numbers by buffer. */
  type Keys = seq<nat>

  function KeyOf(key: Keys, c: Container): nat {
    if c.buf < |key| then key[c.buf] else 0
  }

  /** The containers whose octet is v, in list order. */
  function With(l: seq<Container>, key: Keys, i: nat, v: nat): seq<Container> {
    if l == [] then [] else
      With(l[..|l| - 1], key, i, v) + Only(l[|l| - 1], key, i, v)
  }

  function Only(c: Container, key: Keys, i: nat, v: nat): seq<Container> {
    if Octet(KeyOf(key, c), i) == v then [c] else []
  }

  /** The containers with octets v and up, by octet and then in list order. */
  function From(l: seq<Container>, key: Keys, i: nat, v: nat): seq<Container>
    decreases 256 - v
  {
    if v >= 256 then [] else With(l, key, i, v) + From(l, key, i, v + 1)
  }

  function Reversed(l: seq<Container>): (r: seq<Container>)
    ensures |r| == |l| && forall k :: 0 <= k < |l| ==> r[k] == l[|l| - 1 - k]
  {
    if l == [] then [] else [l[|l| - 1]] + Reversed(l[..|l| - 1])
  }

  lemma {:induction false} WithMembers(l: seq<Container>, key: Keys, i: nat, v: nat)
    ensures forall k :: 0 <= k < |With(l, key, i, v)| ==> BelongsTo(l, key, i, v, With(l, key, i, v)[k])
  {
    if l != [] {
      WithMembers(l[..|l| - 1], key, i, v);
    }
  }

  /** c is one of l and its octet is v. */
  predicate BelongsTo(l: seq<Container>, key: Keys, i: nat, v: nat, c: Container) {
    c in l && Octet(KeyOf(key, c), i) == v
  }

  lemma {:induction false} WithDistinct(l: seq<Container>, key: Keys, i: nat, v: nat)
    requires Distinct(l)
    ensures Distinct(With(l, key, i, v))
  {
    if l != [] {
      var front := l[..|l| - 1];
      WithDistinct(front, key, i, v);
      WithMembers(front, key, i, v);
      assert l[|l| - 1] !in front;
    }
  }

  lemma {:induction false} FromMembers(l: seq<Container>, key: Keys, i: nat, v: nat)
    ensures forall k :: 0 <= k < |From(l, key, i, v)| ==>
              From(l, key, i, v)[k] in l && Octet(KeyOf(key, From(l, key, i, v)[k]), i) >= v
    decreases 256 - v
  {
    if v < 256 {
      WithMembers(l, key, i, v);
      FromMembers(l, key, i, v + 1);
    }
  }

  // ----------------------------------------------------------------------- the pass

  /** Stack v after the first n containers of l have been dealt out. */
  ghost function Stack(l: seq<Container>, n: nat, key: Keys, i: nat, v: nat): seq<Container>
    requires n <= |l|
  {
    Reversed(With(l[..n], key, i, v))
  }

  /** The stacks below `to` hold what they should after n containers. */
  ghost predicate Stacks(x: Links, space: seq<Container?>, l: seq<Container>, n: nat, key: Keys, i: nat, to: nat) {
    |space| == 256 && n <= |l| && forall v :: 0 <= v < to && v < 256 ==> StackIs(x, space, l, n, key, i, v)
  }

  ghost predicate StackIs(x: Links, space: seq<Container?>, l: seq<Container>, n: nat, key: Keys, i: nat, v: nat) {
    |space| == 256 && n <= |l| && v < 256 && IsList(x, space[v], Stack(l, n, key, i, v))
  }

  lemma {:induction false} StackMembers(l: seq<Container>, n: nat, key: Keys, i: nat, v: nat)
    requires n <= |l|
    ensures forall k :: 0 <= k < |Stack(l, n, key, i, v)| ==> BelongsTo(l[..n], key, i, v, Stack(l, n, key, i, v)[k])
  {
    hide With, Octet;
    WithMembers(l[..n], key, i, v);
  }

  lemma {:induction false} StackStep(l: seq<Container>, n: nat, key: Keys, i: nat, v: nat)
    requires n < |l|
    ensures Octet(KeyOf(key, l[n]), i) == v ==> Stack(l, n + 1, key, i, v) == [l[n]] + Stack(l, n, key, i, v)
    ensures Octet(KeyOf(key, l[n]), i) != v ==> Stack(l, n + 1, key, i, v) == Stack(l, n, key, i, v)
  {
    hide Octet;
    var w, w1 := With(l[..n], key, i, v), With(l[..n + 1], key, i, v);
    assert l[..n + 1][..n] == l[..n];
    assert w1 == w + Only(l[n], key, i, v);
    assert w + [] == w;
    if Octet(KeyOf(key, l[n]), i) == v {
      assert w1[..|w|] == w;
      assert Reversed(w1) == [l[n]] + Reversed(w);
    }
  }

  /** Pushing container n on its stack. */
  lemma {:induction false} Dealt(x: Links, y: Links, space: seq<Container?>, l: seq<Container>, n: nat, key: Keys, i: nat, d: nat)
    requires Stacks(x, space, l, n, key, i, 256) && n < |l| && Distinct(l) && l[n] in x
    requires d == Octet(KeyOf(key, l[n]), i) && y == x[l[n] := space[d]]
    ensures Stacks(y, space[d := l[n]], l, n + 1, key, i, 256)
  {
    var s, m := space[d := l[n]], n + 1;
    forall v: nat | v < 256 ensures StackIs(y, s, l, m, key, i, v) {
      DealtOne(x, y, space, l, n, key, i, d, v);
    }
  }

  lemma {:induction false} DealtOne(x: Links, y: Links, space: seq<Container?>, l: seq<Container>, n: nat, key: Keys, i: nat,
                                    d: nat, v: nat)
    requires n < |l| && Distinct(l) && l[n] in x && StackIs(x, space, l, n, key, i, v)
    requires d == Octet(KeyOf(key, l[n]), i) && y == x[l[n] := space[d]]
    ensures StackIs(y, space[d := l[n]], l, n + 1, key, i, v)
  {
    hide Stack, Octet, IsList, Distinct;
    StackMembers(l, n, key, i, v);
    StackStep(l, n, key, i, v);
    var s := Stack(l, n, key, i, v);
    forall k | 0 <= k < |s| ensures s[k] != l[n] {
      assert BelongsTo(l[..n], key, i, v, s[k]);
      NotBefore(l, n);
    }
    if v == d {
      ListPush(x, space[v], s, l[n]);
    } else {
      ListKept(x, space[v], s, l[n], space[d]);
    }
  }

  lemma NotBefore(l: seq<Container>, n: nat)
    requires n < |l| && Distinct(l)
    ensures l[n] !in l[..n]
  {}

  /** What is left of stack v after m pops. */
  ghost function Left(l: seq<Container>, key: Keys, i: nat, v: nat, m: nat): seq<Container>
    requires m <= |With(l, key, i, v)|
  {
    Reversed(With(l, key, i, v))[m..]
  }

  /** The result list after m pops from stack v. */
  ghost function Built(l: seq<Container>, key: Keys, i: nat, v: nat, m: nat): seq<Container>
    requires m <= |With(l, key, i, v)|
  {
    With(l, key, i, v)[|With(l, key, i, v)| - m..] + From(l, key, i, v + 1)
  }

  /** Stacks below v, the rest of stack v, and the result so far. */
  ghost predicate Popping(x: Links, space: seq<Container?>, l: seq<Container>, key: Keys, i: nat, v: nat, m: nat,
                          bp: Container?, prev: Container?)
  {
    && v < 256 && m <= |With(l, key, i, v)|
    && Stacks(x, space, l, |l|, key, i, v)
    && IsList(x, bp, Left(l, key, i, v, m))
    && IsList(x, prev, Built(l, key, i, v, m))
  }

  /** Popping one container: it leaves stack v and becomes the head of the result. */
  lemma {:induction false} Popped(x: Links, space: seq<Container?>, l: seq<Container>, key: Keys, i: nat, v: nat, m: nat,
                                  c: Container, prev: Container?)
    requires Popping(x, space, l, key, i, v, m, c, prev) && Distinct(l)
    ensures c in x && c in l && m < |With(l, key, i, v)| && Popping(x[c := prev], space, l, key, i, v, m + 1, x[c], c)
  {
    hide Stacks, Left, Built, With, From;
    TopOf(x, l, key, i, v, m, c);
    LeftPopped(x, l, key, i, v, m, c, prev);
    BuiltPopped(x, l, key, i, v, m, c, prev);
    StacksKept(x, space, l, key, i, v, c, prev);
  }

  lemma {:induction false} TopOf(x: Links, l: seq<Container>, key: Keys, i: nat, v: nat, m: nat, c: Container)
    requires m <= |With(l, key, i, v)| && IsList(x, c, Left(l, key, i, v, m))
    ensures c in x && m < |With(l, key, i, v)| && c == With(l, key, i, v)[|With(l, key, i, v)| - 1 - m]
    ensures Left(l, key, i, v, m) == [c] + Left(l, key, i, v, m + 1)
    ensures Built(l, key, i, v, m + 1) == [c] + Built(l, key, i, v, m)
    ensures c in l && Octet(KeyOf(key, c), i) == v
  {
    hide With, From, Octet;
    var w := With(l, key, i, v);
    WithMembers(l, key, i, v);
    assert Left(l, key, i, v, m)[0] == Reversed(w)[m];
    assert w[|w| - m - 1..] == [c] + w[|w| - m..];
  }

  lemma {:induction false} LeftPopped(x: Links, l: seq<Container>, key: Keys, i: nat, v: nat, m: nat, c: Container, prev: Container?)
    requires m < |With(l, key, i, v)| && IsList(x, c, Left(l, key, i, v, m)) && Distinct(l)
    requires Left(l, key, i, v, m) == [c] + Left(l, key, i, v, m + 1)
    ensures c in x && IsList(x[c := prev], x[c], Left(l, key, i, v, m + 1))
  {
    hide With, Octet, IsList, LinksOf;
    var w, s := With(l, key, i, v), Left(l, key, i, v, m);
    WithDistinct(l, key, i, v);
    forall k | 1 <= k < |s| ensures s[k] != s[0] {
      assert s[k] == w[|w| - 1 - m - k] && s[0] == w[|w| - 1 - m];
    }
    ListTail(x, s);
    assert s[1..] == Left(l, key, i, v, m + 1);
    ListKept(x, x[c], s[1..], c, prev);
  }

  lemma {:induction false} BuiltPopped(x: Links, l: seq<Container>, key: Keys, i: nat, v: nat, m: nat, c: Container, prev: Container?)
    requires m < |With(l, key, i, v)| && IsList(x, prev, Built(l, key, i, v, m)) && Distinct(l)
    requires c == With(l, key, i, v)[|With(l, key, i, v)| - 1 - m] && Octet(KeyOf(key, c), i) == v
    requires Built(l, key, i, v, m + 1) == [c] + Built(l, key, i, v, m)
    ensures IsList(x[c := prev], c, Built(l, key, i, v, m + 1))
  {
    hide With, From, Octet;
    var w, s := With(l, key, i, v), Built(l, key, i, v, m);
    WithDistinct(l, key, i, v);
    FromMembers(l, key, i, v + 1);
    forall k | 0 <= k < |s| ensures s[k] != c {
      if k < m {
        assert s[k] == w[|w| - m + k];
      } else {
        assert s[k] == From(l, key, i, v + 1)[k - m];
      }
    }
    ListPush(x, prev, s, c);
  }

  lemma {:induction false} StacksKept(x: Links, space: seq<Container?>, l: seq<Container>, key: Keys, i: nat, v: nat,
                                      c: Container, prev: Container?)
    requires Stacks(x, space, l, |l|, key, i, v) && v < 256 && Octet(KeyOf(key, c), i) == v
    ensures Stacks(x[c := prev], space, l, |l|, key, i, v)
  {
    var y, n := x[c := prev], |l|;
    forall u: nat | u < v ensures StackIs(y, space, l, n, key, i, u) {
      StackKept(x, space, l, key, i, u, c, prev);
    }
  }

  lemma {:induction false} StackKept(x: Links, space: seq<Container?>, l: seq<Container>, key: Keys, i: nat, u: nat,
                                     c: Container, prev: Container?)
    requires StackIs(x, space, l, |l|, key, i, u) && Octet(KeyOf(key, c), i) != u
    ensures StackIs(x[c := prev], space, l, |l|, key, i, u)
  {
    hide Octet, Stack;
    StackMembers(l, |l|, key, i, u);
    var s := Stack(l, |l|, key, i, u);
    forall k | 0 <= k < |s| ensures s[k] != c {
      assert BelongsTo(l[..|l|], key, i, u, s[k]);
    }
    ListKept(x, space[u], s, c, prev);
  }

  /** The next stack: nothing of it has been popped. */
  lemma {:induction false} NextStack(x: Links, space: seq<Container?>, l: seq<Container>, key: Keys, i: nat, v: nat, prev: Container?)
    requires v < 256 && Stacks(x, space, l, |l|, key, i, v + 1) && IsList(x, prev, From(l, key, i, v + 1))
    ensures Popping(x, space, l, key, i, v, 0, space[v], prev)
  {
    assert l[..|l|] == l;
    var w := With(l, key, i, v);
    assert StackIs(x, space, l, |l|, key, i, v);
    assert Reversed(w)[0..] == Reversed(w);
    assert w[|w|..] + From(l, key, i, v + 1) == From(l, key, i, v + 1);
  }

  lemma {:induction false} StackDone(x: Links, space: seq<Container?>, l: seq<Container>, key: Keys, i: nat, v: nat, m: nat,
                                     prev: Container?)
    requires Popping(x, space, l, key, i, v, m, null, prev)
    ensures IsList(x, prev, From(l, key, i, v)) && Stacks(x, space, l, |l|, key, i, v)
  {
    var w := With(l, key, i, v);
    assert m == |w|;
    assert w[0..] == w;
  }

  lemma {:induction false} NoneDealt(x: Links, space: seq<Container?>, l: seq<Container>, key: Keys, i: nat)
    requires |space| == 256 && forall v :: 0 <= v < 256 ==> space[v] == null
    ensures Stacks(x, space, l, 0, key, i, 256)
  {}

  /** The first half of a pass: every container is pushed on the stack of its octet. */
  method Deal(head: Container?, key: Keys, i: nat, space: array<Container?>, ghost l: seq<Container>)
    requires IsList(LinksOf(l), head, l) && Distinct(l) && space.Length == 256
    modifies l, space
    ensures Stacks(LinksOf(l), space[..], l, |l|, key, i, 256)
  {
    hide Stacks, With, Octet, Distinct, Stack, IsList;
    var v: nat := 0;
    while v < 256
      invariant v <= 256 && forall w :: 0 <= w < v ==> space[w] == null
      invariant LinksOf(l) == old(LinksOf(l))
    {
      space[v] := null;
      v := v + 1;
    }
    var bp := head;
    ghost var n: nat := 0;
    NoneDealt(LinksOf(l), space[..], l, key, i);
    assert l[0..] == l;
    while bp != null
      invariant n <= |l| && Stacks(LinksOf(l), space[..], l, n, key, i, 256)
      invariant IsList(LinksOf(l), bp, l[n..])
      decreases |l| - n
    {
      var d := Octet(KeyOf(key, bp), i);
      ghost var x, s := LinksOf(l), space[..];
      Rest(x, l, n, bp, s[d]);
      var next := bp.next;
      bp.next := space[d];
      space[d] := bp;
      assert LinksOf(l) == x[bp := s[d]] && space[..] == s[d := bp];
      Dealt(x, LinksOf(l), s, l, n, key, i, d);
      bp := next;
      n := n + 1;
    }
    AtEnd(LinksOf(l), l[n..]);
  }

  lemma AtEnd(x: Links, s: seq<Container>)
    requires IsList(x, null, s)
    ensures s == []
  {}

  lemma {:induction false} Rest(x: Links, l: seq<Container>, n: nat, c: Container, p: Container?)
    requires Distinct(l) && n <= |l| && IsList(x, c, l[n..])
    ensures n < |l| && c == l[n] && c in x && IsList(x[c := p], x[c], l[n + 1..])
  {
    var s := l[n..];
    ListTail(x, s);
    assert s[1..] == l[n + 1..];
    ListKept(x, x[c], l[n + 1..], c, p);
  }

  /** One pass: the stacks are filled from the list, then emptied in front of the result.
      Both turn the order round, so the result has each octet's containers in list order. */
  method UnlockedRadixPass(head: Container?, key: Keys, i: nat, space: array<Container?>, ghost l: seq<Container>)
    returns (prev: Container?)
    requires IsList(LinksOf(l), head, l) && Distinct(l) && space.Length == 256
    modifies l, space
    ensures IsList(LinksOf(l), prev, From(l, key, i, 0))
  {
    hide Stacks, Popping, From, With, Octet, Distinct, IsList;
    Deal(head, key, i, space, l);
    prev := null;
    var v: nat := 256;
    NoneFrom(LinksOf(l), l, key, i);
    while v > 0
      invariant v <= 256 && Stacks(LinksOf(l), space[..], l, |l|, key, i, v)
      invariant IsList(LinksOf(l), prev, From(l, key, i, v))
    {
      v := v - 1;
      var bp := space[v];
      NextStack(LinksOf(l), space[..], l, key, i, v, prev);
      ghost var m: nat := 0;
      while bp != null
        invariant Popping(LinksOf(l), space[..], l, key, i, v, m, bp, prev)
        decreases |With(l, key, i, v)| - m
      {
        ghost var x := LinksOf(l);
        Popped(x, space[..], l, key, i, v, m, bp, prev);
        var next := bp.next;
        bp.next := prev;
        assert LinksOf(l) == x[bp := prev];
        prev := bp;
        bp := next;
        m := m + 1;
      }
      StackDone(LinksOf(l), space[..], l, key, i, v, m, prev);
    }
  }

  lemma NoneFrom(x: Links, l: seq<Container>, key: Keys, i: nat)
    ensures IsList(x, null, From(l, key, i, 256))
  {}

  // ---------------------------------------------------------------- what a pass means

  /** Appending a list appends within each octet. */
  lemma {:induction false} WithConcat(a: seq<Container>, b: seq<Container>, key: Keys, i: nat, v: nat)
    ensures With(a + b, key, i, v) == With(a, key, i, v) + With(b, key, i, v)
  {
    hide Octet;
    if b == [] {
      assert a + b == a;
    } else {
      var n := |b| - 1;
      assert (a + b)[..|a + b| - 1] == a + b[..n];
      WithConcat(a, b[..n], key, i, v);
    }
  }

  lemma {:induction false} WithWith(l: seq<Container>, key: Keys, i: nat, u: nat, v: nat)
    ensures With(With(l, key, i, u), key, i, v) == if u == v then With(l, key, i, v) else []
  {
    hide Octet;
    if l != [] {
      var n := |l| - 1;
      WithWith(l[..n], key, i, u, v);
      WithConcat(With(l[..n], key, i, u), Only(l[n], key, i, u), key, i, v);
      var o := Only(l[n], key, i, u);
      assert o == [] || o[..0] == [];
    }
  }

  lemma FromSplit(l: seq<Container>, key: Keys, i: nat, v: nat)
    requires v < 256
    ensures From(l, key, i, v) == With(l, key, i, v) + From(l, key, i, v + 1)
  {}

  /** A pass is stable: the containers of each octet are in the order they were in. */
  lemma {:induction false} PassIsStable(l: seq<Container>, key: Keys, i: nat, v: nat)
    requires v < 256
    ensures With(From(l, key, i, 0), key, i, v) == With(l, key, i, v)
  {
    hide Octet, From, With;
    StableFrom(l, key, i, 0, v);
  }

  lemma {:induction false} StableFrom(l: seq<Container>, key: Keys, i: nat, from: nat, v: nat)
    requires v < 256
    ensures from <= v ==> With(From(l, key, i, from), key, i, v) == With(l, key, i, v)
    ensures from > v ==> With(From(l, key, i, from), key, i, v) == []
    decreases 256 - from
  {
    hide Octet, From, With;
    if from >= 256 {
      FromNone(l, key, i, from, v);
    } else {
      StableFrom(l, key, i, from + 1, v);
      WithWith(l, key, i, from, v);
      FromSplit(l, key, i, from);
      WithConcat(With(l, key, i, from), From(l, key, i, from + 1), key, i, v);
    }
  }

  lemma FromNone(l: seq<Container>, key: Keys, i: nat, from: nat, v: nat)
    requires from >= 256
    ensures With(From(l, key, i, from), key, i, v) == []
  {}

  /** A pass loses nothing and adds nothing. */
  lemma {:induction false} PassPermutes(l: seq<Container>, key: Keys, i: nat)
    ensures multiset(From(l, key, i, 0)) == multiset(l)
  {
    hide Octet, From;
    if l == [] {
      FromNothing(key, i, 0);
    } else {
      var n := |l| - 1;
      PassPermutes(l[..n], key, i);
      FromLast(l, key, i, 0);
      assert l == l[..n] + [l[n]];
    }
  }

  lemma {:induction false} FromNothing(key: Keys, i: nat, v: nat)
    ensures From([], key, i, v) == []
    decreases 256 - v
  {
    if v < 256 {
      FromNothing(key, i, v + 1);
    }
  }

  lemma {:induction false} FromLast(l: seq<Container>, key: Keys, i: nat, v: nat)
    requires l != []
    ensures multiset(From(l, key, i, v)) == multiset(From(l[..|l| - 1], key, i, v))
              + if Octet(KeyOf(key, l[|l| - 1]), i) >= v then multiset{l[|l| - 1]} else multiset{}
    decreases 256 - v
  {
    hide Octet, From, With;
    var front, c := l[..|l| - 1], l[|l| - 1];
    if v >= 256 {
      NoneLeft(l, key, i, v);
      NoneLeft(front, key, i, v);
    } else {
      FromLast(l, key, i, v + 1);
      FromSplit(l, key, i, v);
      FromSplit(front, key, i, v);
      WithLast(l, key, i, v);
      var o := Only(c, key, i, v);
      assert multiset(o) == if Octet(KeyOf(key, c), i) == v then multiset{c} else multiset{};
    }
  }

  lemma NoneLeft(l: seq<Container>, key: Keys, i: nat, v: nat)
    requires v >= 256
    ensures From(l, key, i, v) == []
  {}

  lemma WithLast(l: seq<Container>, key: Keys, i: nat, v: nat)
    requires l != []
    ensures With(l, key, i, v) == With(l[..|l| - 1], key, i, v) + Only(l[|l| - 1], key, i, v)
  {}

  /** The list ascends by the last octets of the block number. */
  predicate Ascending(l: seq<Container>, key: Keys, m: nat)
    requires m > 0
  {
    forall a, b :: 0 <= a < b < |l| ==> KeyOf(key, l[a]) % m <= KeyOf(key, l[b]) % m
  }

  lemma {:induction false} WithAscending(l: seq<Container>, key: Keys, i: nat, v: nat, m: nat)
    requires m > 0 && Ascending(l, key, m)
    ensures Ascending(With(l, key, i, v), key, m)
  {
    hide Octet;
    if l != [] {
      var front := l[..|l| - 1];
      WithAscending(front, key, i, v, m);
      WithMembers(front, key, i, v);
      var w := With(front, key, i, v);
      forall k | 0 <= k < |w| ensures KeyOf(key, w[k]) % m <= KeyOf(key, l[|l| - 1]) % m {
        assert BelongsTo(front, key, i, v, w[k]);
        var j :| 0 <= j < |front| && front[j] == w[k];
        assert l[j] == w[k];
      }
    }
  }

  /** Sorting by one more octet, stably, extends the order by that octet. */
  lemma {:induction false} PassAscends(l: seq<Container>, key: Keys, i: nat, v: nat)
    requires i < 4 && Ascending(l, key, Weight(i))
    ensures Ascending(From(l, key, i, v), key, Weight(i + 1))
    decreases 256 - v
  {
    hide Octet, Ascending, Weight;
    if v >= 256 {
      NothingAscends(key, Weight(i + 1));
    } else {
      PassAscends(l, key, i, v + 1);
      WithAscending(l, key, i, v, Weight(i));
      WithMembers(l, key, i, v);
      FromMembers(l, key, i, v + 1);
      GroupAscends(With(l, key, i, v), key, i, v);
      JoinAscends(With(l, key, i, v), From(l, key, i, v + 1), l, key, i, v);
    }
  }

  lemma NothingAscends(key: Keys, m: nat)
    requires m > 0
    ensures Ascending([], key, m)
  {}

  lemma {:induction false} GroupAscends(w: seq<Container>, key: Keys, i: nat, v: nat)
    requires i < 4 && Ascending(w, key, Weight(i)) && forall k :: 0 <= k < |w| ==> Octet(KeyOf(key, w[k]), i) == v
    ensures Ascending(w, key, Weight(i + 1))
  {
    hide Weight, Octet;
    forall a, b | 0 <= a < b < |w| ensures KeyOf(key, w[a]) % Weight(i + 1) <= KeyOf(key, w[b]) % Weight(i + 1) {
      ByOctet(KeyOf(key, w[a]), i);
      ByOctet(KeyOf(key, w[b]), i);
    }
  }

  lemma {:induction false} JoinAscends(w: seq<Container>, f: seq<Container>, l: seq<Container>, key: Keys, i: nat, v: nat)
    requires i < 4 && Ascending(w, key, Weight(i + 1)) && Ascending(f, key, Weight(i + 1))
    requires forall k :: 0 <= k < |w| ==> BelongsTo(l, key, i, v, w[k])
    requires forall k :: 0 <= k < |f| ==> Octet(KeyOf(key, f[k]), i) >= v + 1
    ensures Ascending(w + f, key, Weight(i + 1))
  {
    hide Weight, Octet;
    var j, m := w + f, Weight(i + 1);
    forall a, b | 0 <= a < b < |j| ensures KeyOf(key, j[a]) % m <= KeyOf(key, j[b]) % m {
      if a < |w| <= b {
        assert BelongsTo(l, key, i, v, w[a]) && j[b] == f[b - |w|];
        ByOctet(KeyOf(key, j[a]), i);
        ByOctet(KeyOf(key, j[b]), i);
        OctetFirst(Octet(KeyOf(key, j[a]), i), Octet(KeyOf(key, j[b]), i), Weight(i),
                   KeyOf(key, j[a]) % Weight(i), KeyOf(key, j[b]) % Weight(i));
      } else if a >= |w| {
        assert j[a] == f[a - |w|] && j[b] == f[b - |w|];
      }
    }
  }

  lemma {:induction false} OctetFirst(p: nat, q: nat, w: nat, x: nat, y: nat)
    requires p < q && x < w
    ensures p * w + x <= q * w + y
  {
    assert (p + 1) * w <= q * w;
  }

  /** The low octets of x are octet i and then those below it. */
  lemma {:induction false} ByOctet(x: nat, i: nat)
    requires i < 4
    ensures x % Weight(i + 1) == Octet(x, i) * Weight(i) + x % Weight(i)
  {
    SecondOctet(x);
    ThirdOctet(x);
    FourthOctet(x);
  }

  lemma {:induction false} SecondOctet(x: nat)
    ensures x % 0x1_0000 == x / 0x100 % 256 * 0x100 + x % 0x100
  {
    var q := x / 0x100;
    assert x == 0x1_0000 * (q / 256) + (q % 256 * 0x100 + x % 0x100);
  }

  lemma {:induction false} ThirdOctet(x: nat)
    ensures x % 0x100_0000 == x / 0x1_0000 % 256 * 0x1_0000 + x % 0x1_0000
  {
    var q := x / 0x1_0000;
    assert x == 0x100_0000 * (q / 256) + (q % 256 * 0x1_0000 + x % 0x1_0000);
  }

  lemma {:induction false} FourthOctet(x: nat)
    ensures x % 0x1_0000_0000 == x / 0x100_0000 % 256 * 0x100_0000 + x % 0x100_0000
  {
    var q := x / 0x100_0000;
    assert x == 0x1_0000_0000 * (q / 256) + (q % 256 * 0x100_0000 + x % 0x100_0000);
  }

  // ------------------------------------------------------------------ the four passes

  /** The passes of general_sync: the same containers, by ascending block number. */
  method SortByBlock(head: Container?, key: Keys, space: array<Container?>, ghost l: seq<Container>)
    returns (r: Container?, ghost out: seq<Container>)
    requires IsList(LinksOf(l), head, l) && Distinct(l) && space.Length == 256
    requires forall j :: 0 <= j < |key| ==> key[j] < 0x1_0000_0000
    modifies l, space
    ensures IsList(LinksOf(out), r, out) && multiset(out) == multiset(l)
    ensures forall a, b :: 0 <= a < b < |out| ==> KeyOf(key, out[a]) <= KeyOf(key, out[b])
  {
    hide IsList, Distinct, From, Weight;
    r, out := head, l;
    var i: nat := 0;
    StartAscends(l, key);
    while i < 4
      invariant i <= 4 && IsList(LinksOf(out), r, out) && Distinct(out) && multiset(out) == multiset(l)
      invariant Ascending(out, key, Weight(i))
    {
      SameMembers(out, l);
      r := UnlockedRadixPass(r, key, i, space, out);
      PassPermutes(out, key, i);
      PassAscends(out, key, i, 0);
      PermutedDistinct(out, From(out, key, i, 0));
      SameLinks(out, From(out, key, i, 0));
      out := From(out, key, i, 0);
      i := i + 1;
    }
    FourOctets(out, key);
  }

  lemma {:induction false} FourOctets(l: seq<Container>, key: Keys)
    requires Ascending(l, key, Weight(4)) && forall j :: 0 <= j < |key| ==> key[j] < 0x1_0000_0000
    ensures forall a, b :: 0 <= a < b < |l| ==> KeyOf(key, l[a]) <= KeyOf(key, l[b])
  {
    forall a | 0 <= a < |l| ensures KeyOf(key, l[a]) % Weight(4) == KeyOf(key, l[a]) {}
  }

  lemma StartAscends(l: seq<Container>, key: Keys)
    ensures Ascending(l, key, Weight(0))
  {}

  lemma {:induction false} SameMembers(a: seq<Container>, b: seq<Container>)
    requires multiset(a) == multiset(b)
    ensures forall k :: 0 <= k < |a| ==> a[k] in b
  {
    forall k | 0 <= k < |a| ensures a[k] in b {
      assert a[k] in multiset(b);
    }
  }

  lemma {:induction false} SameLinks(a: seq<Container>, b: seq<Container>)
    requires multiset(b) == multiset(a)
    ensures LinksOf(b) == LinksOf(a)
  {
    forall c | c in b ensures c in a {
      assert c in multiset(a);
    }
    forall c | c in a ensures c in b {
      assert c in multiset(b);
    }
  }

  lemma {:induction false} PermutedDistinct(a: seq<Container>, b: seq<Container>)
    requires Distinct(a) && multiset(b) == multiset(a)
    ensures Distinct(b)
  {
    forall i, j | 0 <= i < j < |b| ensures b[i] != b[j] {
      CountTwo(b, i, j);
      assert b[i] in multiset(a);
      var k :| 0 <= k < |a| && a[k] == b[i];
      CountOne(a, k);
    }
  }

  lemma {:induction false} CountTwo(l: seq<Container>, i: nat, j: nat)
    requires i < j < |l|
    ensures l[i] == l[j] ==> multiset(l)[l[i]] >= 2
  {
    assert l == l[..j] + [l[j]] + l[j + 1..];
    assert l[i] in l[..j];
    assert multiset(l) == multiset(l[..j]) + multiset{l[j]} + multiset(l[j + 1..]);
  }

  lemma {:induction false} CountOne(l: seq<Container>, k: nat)
    requires Distinct(l) && k < |l|
    ensures multiset(l)[l[k]] == 1
  {
    assert l == l[..k] + [l[k]] + l[k + 1..];
    assert l[k] !in l[..k] && l[k] !in l[k + 1..];
    assert multiset(l) == multiset(l[..k]) + multiset{l[k]} + multiset(l[k + 1..]);
  }
}