/** Sorting by a comparison, as both partition tables use it. */
module Sorting {
  import opened Sequences

  /** On the elements of s the comparison is a strict weak order. */
  ghost predicate Orders<T(!new)>(less: (T, T) -> bool, s: seq<T>) {
    && (forall a, b | a in s && b in s && less(a, b) :: !less(b, a))
    && (forall a, b, c | a in s && b in s && c in s && !less(b, a) && !less(c, b) :: !less(c, a))
  }

  ghost predicate InOrder<T>(less: (T, T) -> bool, t: seq<T>) { forall i, j | 0 <= i < j < |t| :: !less(t[j], t[i]) }

  function Insert<T>(less: (T, T) -> bool, p: T, t: seq<T>): seq<T> {
    if t == [] || !less(t[0], p) then [p] + t else [t[0]] + Insert(less, p, t[1..])
  }

  function Sorted<T>(less: (T, T) -> bool, t: seq<T>): seq<T> {
    if t == [] then [] else Insert(less, t[0], Sorted(less, t[1..]))
  }

  lemma {:induction false} InsertBag<T>(less: (T, T) -> bool, p: T, t: seq<T>)
    ensures multiset(Insert(less, p, t)) == multiset(t) + multiset{p} && |Insert(less, p, t)| == |t| + 1
  {
    if t != [] {
      assert t == [t[0]] + t[1..];
      if less(t[0], p) { InsertBag(less, p, t[1..]); }
    }
  }

  lemma {:induction false} InsertMembers<T>(less: (T, T) -> bool, p: T, t: seq<T>)
    ensures forall x :: x in Insert(less, p, t) <==> x in t || x == p
  {
    InsertBag(less, p, t);
    forall x ensures x in Insert(less, p, t) <==> x in t || x == p {
      assert x in Insert(less, p, t) <==> x in multiset(t) + multiset{p};
      assert x in t <==> x in multiset(t);
    }
  }

  lemma {:induction false} InsertOrder<T(!new)>(less: (T, T) -> bool, p: T, t: seq<T>)
    requires InOrder(less, t) && Orders(less, [p] + t)
    ensures InOrder(less, Insert(less, p, t))
  {
    if t != [] && less(t[0], p) {
      var u := Insert(less, p, t[1..]);
      forall x | x in [p] + t[1..] ensures x in [p] + t { }
      InsertOrder(less, p, t[1..]);
      InsertMembers(less, p, t[1..]);
      ConsOrder(less, t[0], u, [p] + t);
    } else if t != [] {
      forall x | x in t ensures !less(x, p) { BehindFirst(less, p, t, x); }
      ConsOrder(less, p, t, [p] + t);
    }
  }

  lemma {:induction false} BehindFirst<T(!new)>(less: (T, T) -> bool, p: T, t: seq<T>, x: T)
    requires InOrder(less, t) && Orders(less, [p] + t) && t != [] && !less(t[0], p) && x in t
    ensures !less(x, p)
  {
    var i :| 0 <= i < |t| && t[i] == x;
    assert t[0] in [p] + t && p in [p] + t && x in [p] + t;
  }

  lemma {:induction false} ConsOrder<T>(less: (T, T) -> bool, h: T, u: seq<T>, all: seq<T>)
    requires InOrder(less, u) && forall x | x in u :: !less(x, h)
    ensures InOrder(less, [h] + u)
  {
    var v := [h] + u;
    forall i, j | 0 <= i < j < |v| ensures !less(v[j], v[i]) {
      assert v[j] == u[j - 1] && u[j - 1] in u;
      if i > 0 { assert v[i] == u[i - 1]; }
    }
  }

  lemma {:induction false} OrdersSub<T(!new)>(less: (T, T) -> bool, s: seq<T>, t: seq<T>)
    requires Orders(less, s) && forall x | x in t :: x in s
    ensures Orders(less, t)
  {
  }

  /** The sorted sequence is the sequence rearranged, in order. */
  lemma {:induction false} SortedOk<T(!new)>(less: (T, T) -> bool, t: seq<T>)
    requires Orders(less, t)
    ensures multiset(Sorted(less, t)) == multiset(t) && |Sorted(less, t)| == |t| && InOrder(less, Sorted(less, t))
  {
    if t != [] {
      assert t == [t[0]] + t[1..];
      OrdersSub(less, t, t[1..]);
      SortedOk(less, t[1..]);
      var s := Sorted(less, t[1..]);
      InsertBag(less, t[0], s);
      BagMembers(s, t[1..]);
      OrdersSub(less, t, [t[0]] + s);
      InsertOrder(less, t[0], s);
    }
  }

  // ----- Properties that do not depend on the order.

  ghost predicate Pairwise<T>(rel: (T, T) -> bool, t: seq<T>) { forall i, j | 0 <= i < |t| && 0 <= j < |t| && i != j :: rel(t[i], t[j]) }

  lemma {:induction false} Twice<T>(t: seq<T>, i: nat, j: nat)
    requires i < j < |t| && t[i] == t[j]
    ensures multiset(t)[t[i]] >= 2
  {
    assert t == t[..i] + [t[i]] + t[i + 1..j] + [t[j]] + t[j + 1..];
  }

  lemma {:induction false} TwiceBack<T>(t: seq<T>, p: T) returns (i: nat, j: nat)
    requires multiset(t)[p] >= 2
    ensures i < j < |t| && t[i] == p && t[j] == p
  {
    assert p in multiset(t);
    i :| i < |t| && t[i] == p;
    assert t == t[..i] + [t[i]] + t[i + 1..];
    if p in multiset(t[i + 1..]) {
      var k :| 0 <= k < |t[i + 1..]| && t[i + 1..][k] == p;
      j := i + 1 + k;
    } else {
      assert p in multiset(t[..i]);
      var k :| 0 <= k < i && t[..i][k] == p;
      i, j := k, i;
    }
  }

  lemma {:induction false} Related<T>(rel: (T, T) -> bool, t: seq<T>, u: seq<T>, i: nat, j: nat)
    requires Pairwise(rel, t) && multiset(t) == multiset(u) && i < |u| && j < |u| && i != j
    ensures rel(u[i], u[j])
  {
    BagMembers(t, u);
    if u[i] == u[j] {
      Twice(u, if i < j then i else j, if i < j then j else i);
      var a, b := TwiceBack(t, u[i]);
    } else {
      assert u[i] in t && u[j] in t;
    }
  }

  /** A relation between any two different entries survives rearrangement. */
  lemma {:induction false} PairwisePermuted<T>(rel: (T, T) -> bool, t: seq<T>, u: seq<T>)
    requires Pairwise(rel, t) && multiset(t) == multiset(u)
    ensures Pairwise(rel, u)
  {
    hide Pairwise;
    forall i, j | 0 <= i < |u| && 0 <= j < |u| && i != j ensures rel(u[i], u[j]) { Related(rel, t, u, i, j); }
    PairwiseIs(rel, u);
  }

  lemma {:induction false} PairwiseIs<T>(rel: (T, T) -> bool, t: seq<T>)
    requires forall i, j | 0 <= i < |t| && 0 <= j < |t| && i != j :: rel(t[i], t[j])
    ensures Pairwise(rel, t)
  {
  }
}
