/**
  Sequences of positions: what linked lists threaded through an array stand for.
 */
module Lists {
  const NULL: int := -1

  function Min(a: nat, b: nat): nat {
    if a < b then a else b
  }

  /** Entry k, or NULL past either end. */
  function At(l: seq<nat>, k: int): int {
    if 0 <= k < |l| then l[k] else NULL
  }

  predicate NoDup(l: seq<nat>) {
    forall i, j :: 0 <= i < j < |l| ==> l[i] != l[j]
  }

  /** The list without its entry k. */
  function Cut(l: seq<nat>, k: nat): seq<nat>
    requires k < |l|
  {
    l[..k] + l[k + 1..]
  }

  lemma CutEntry(l: seq<nat>, k: nat, p: nat)
    requires k < |l| && p + 1 < |l|
    ensures |Cut(l, k)| == |l| - 1 && Cut(l, k)[p] == if p < k then l[p] else l[p + 1]
    ensures p + 2 < |l| ==> Cut(l, k)[p + 1] == if p + 1 < k then l[p + 1] else l[p + 2]
    ensures p > 0 ==> Cut(l, k)[p - 1] == if p - 1 < k then l[p - 1] else l[p]
  {}

  lemma {:induction false} CutMembers(l: seq<nat>, k: nat, x: nat)
    requires k < |l|
    ensures x in l && x != l[k] ==> x in Cut(l, k)
  {
    if x in l && x != l[k] {
      var p :| 0 <= p < |l| && l[p] == x;
      assert x == if p < k then Cut(l, k)[p] else Cut(l, k)[p - 1];
    }
  }

  lemma {:induction false} CutNoDup(l: seq<nat>, k: nat)
    requires k < |l| && NoDup(l)
    ensures NoDup(Cut(l, k)) && l[k] !in Cut(l, k) && |Cut(l, k)| == |l| - 1
    ensures |l| > 1 ==> Cut(l, k)[0] == if k == 0 then l[1] else l[0]
    ensures forall x :: x in l && x != l[k] ==> x in Cut(l, k)
  {
    forall x | x in l && x != l[k] ensures x in Cut(l, k) {
      CutMembers(l, k, x);
    }
  }

  function Repeat<T>(x: T, n: nat): (l: seq<T>)
    ensures |l| == n && forall i :: 0 <= i < n ==> l[i] == x
  {
    if n == 0 then [] else Repeat(x, n - 1) + [x]
  }

  /** a, a + 1, ..., b - 1. */
  function Interval(a: nat, b: nat): (s: set<nat>)
    ensures forall x :: x in s <==> a <= x < b
    ensures a <= b ==> |s| == b - a
    decreases b - a
  {
    if a >= b then {} else {a} + Interval(a + 1, b)
  }
}
