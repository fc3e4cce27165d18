/** Sequences without repetitions, putting elements in, taking them out and moving them. */
module Sequences {

  ghost predicate Distinct<T>(s: seq<T>) { forall i, j | 0 <= i < j < |s| :: s[i] != s[j] }

  function RemoveAt<T>(s: seq<T>, k: nat): (r: seq<T>)
    requires k < |s|
    ensures |r| == |s| - 1
  {
    s[..k] + s[k + 1..]
  }

  /** Where element i of RemoveAt(s, k) stands in s. */
  function Skip(k: nat, i: nat): nat { if i < k then i else i + 1 }

  lemma {:induction false} RemoveAtElement<T>(s: seq<T>, k: nat, i: nat)
    requires k < |s| && i < |s| - 1
    ensures RemoveAt(s, k)[i] == s[Skip(k, i)] && Skip(k, i) < |s| && Skip(k, i) != k
  {
  }

  lemma {:induction false} RemoveAtBag<T>(s: seq<T>, k: nat)
    requires k < |s|
    ensures multiset(s) == multiset(RemoveAt(s, k)) + multiset{s[k]}
  {
    assert s == s[..k] + [s[k]] + s[k + 1..];
  }

  lemma {:induction false} RemovedDistinct<T>(s: seq<T>, k: nat)
    requires k < |s| && Distinct(s)
    ensures Distinct(RemoveAt(s, k))
  {
    hide RemoveAt;
    forall i, j | 0 <= i < j < |s| - 1 ensures RemoveAt(s, k)[i] != RemoveAt(s, k)[j] {
      RemoveAtElement(s, k, i);
      RemoveAtElement(s, k, j);
    }
  }

  lemma {:induction false} BagMembers<T>(s: seq<T>, t: seq<T>)
    requires multiset(s) == multiset(t)
    ensures forall x :: x in s <==> x in t
    ensures forall i | 0 <= i < |t| :: t[i] in s
  {
    forall x ensures x in s <==> x in t {
      assert x in s <==> x in multiset(s);
      assert x in t <==> x in multiset(t);
    }
  }

  lemma {:induction false} SameSize<T>(s: seq<T>, t: seq<T>)
    requires multiset(s) == multiset(t)
    ensures |s| == |t|
  {
    assert |multiset(s)| == |s| && |multiset(t)| == |t|;
  }

  function InsertAt<T>(s: seq<T>, p: nat, x: T): (r: seq<T>)
    requires p <= |s|
    ensures |r| == |s| + 1
  {
    s[..p] + [x] + s[p..]
  }

  lemma {:induction false} InsertAtMembers<T>(s: seq<T>, p: nat, y: T, x: T)
    requires p <= |s|
    ensures x in InsertAt(s, p, y) <==> x in s || x == y
  {
    assert s == s[..p] + s[p..];
  }

  lemma {:induction false} InsertAtElement<T>(s: seq<T>, p: nat, x: T, i: nat)
    requires p <= |s| && i <= |s|
    ensures InsertAt(s, p, x)[i] == if i < p then s[i] else if i == p then x else s[i - 1]
  {
  }

  /** Element k moves up to place `to`. */
  function MoveUp<T>(s: seq<T>, k: nat, to: nat): (r: seq<T>)
    requires to <= k < |s|
    ensures |r| == |s|
  {
    s[..to] + [s[k]] + s[to..k] + s[k + 1..]
  }

  lemma {:induction false} MoveUpBag<T>(s: seq<T>, k: nat, to: nat)
    requires to <= k < |s|
    ensures multiset(MoveUp(s, k, to)) == multiset(s)
  {
    assert s == s[..to] + s[to..k] + [s[k]] + s[k + 1..];
  }

  /** Where element i of MoveUp(s, k, to) comes from. */
  function From(k: nat, to: nat, i: nat): nat { if i < to || i > k then i else if i == to then k else i - 1 }

  lemma {:induction false} MoveUpElement<T>(s: seq<T>, k: nat, to: nat, i: nat)
    requires to <= k < |s| && i < |s|
    ensures From(k, to, i) < |s| && MoveUp(s, k, to)[i] == s[From(k, to, i)]
  {
  }

  ghost function Zeros(n: nat): seq<nat> { seq(n, i => 0) }
}
