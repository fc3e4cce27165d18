/** Free space of a GPT disk: what the searches over an unsorted partition table find. */
module GptSpace {

  /** A table entry. Kind 0 is the unused type. */
  datatype Part = Part(kind: nat, first: nat, last: nat, guid: nat) {
    predicate IsUsed() { kind != 0 }

    predicate Holds(x: int) { first <= x <= last }

    function Length(): nat { if first <= last then last - first + 1 else 0 }
  }

  const BLANK := Part(0, 0, 0, 0)

  /** Usable sectors of the disk. */
  datatype Disk = Disk(firstUsable: nat, lastUsable: nat)

  /** Some used partition holds the sector. */
  ghost predicate Covered(t: seq<Part>, x: int) { exists i :: 0 <= i < |t| && t[i].IsUsed() && t[i].Holds(x) }

  ghost predicate Free(d: Disk, t: seq<Part>, x: int) { d.firstUsable <= x <= d.lastUsable && !Covered(t, x) }

  /** Used partitions lie in the usable range and do not overlap; unused entries are blank. */
  ghost predicate Placed(d: Disk, t: seq<Part>) {
    && d.firstUsable >= 1
    && (forall i | 0 <= i < |t| && t[i].IsUsed() :: d.firstUsable <= t[i].first <= t[i].last <= d.lastUsable)
    && (forall i | 0 <= i < |t| && !t[i].IsUsed() :: t[i].first == 0 && t[i].last == 0)
    && (forall i, j | 0 <= i < |t| && 0 <= j < |t| && i != j && t[i].IsUsed() && t[j].IsUsed() :: Apart(t[i], t[j]))
  }

  predicate Apart(a: Part, b: Part) { a.last < b.first || b.last < a.first }

  /** Every used partition has two sectors or more. */
  ghost predicate TwoSectors(t: seq<Part>) { forall i | 0 <= i < |t| && t[i].IsUsed() :: t[i].first < t[i].last }

  /** A maximal run of free sectors. */
  ghost predicate Run(d: Disk, t: seq<Part>, a: int, b: int) {
    a <= b && !Free(d, t, a - 1) && !Free(d, t, b + 1) && forall x | a <= x <= b :: Free(d, t, x)
  }

  lemma {:induction false} HeldIsCovered(t: seq<Part>, i: int, x: int)
    requires 0 <= i < |t| && t[i].IsUsed() && t[i].Holds(x)
    ensures Covered(t, x)
  {
  }

  /** One pass of FindFirstAvailable over the table. */
  method MoveUpOnce(d: Disk, t: array<Part>, first0: nat) returns (first: nat, moved: bool)
    requires Placed(d, t[..]) && first0 <= d.lastUsable + 1
    ensures first0 <= first <= d.lastUsable + 1 || first == first0
    ensures forall x | first0 <= x < first :: Covered(t[..], x)
    ensures moved ==> first > first0
    ensures !moved ==> first == first0 && !Covered(t[..], first)
  {
    hide Placed, Covered;
    first, moved := first0, false;
    for i := 0 to t.Length
      invariant first0 <= first && (first <= d.lastUsable + 1 || first == first0)
      invariant forall x | first0 <= x < first :: Covered(t[..], x)
      invariant moved ==> first > first0
      invariant !moved ==> first == first0 && forall j | 0 <= j < i && t[j].IsUsed() :: !t[j].Holds(first)
    {
      if t[i].IsUsed() && first >= t[i].first && first <= t[i].last {
        InRange(d, t[..], i);
        forall x | first <= x <= t[i].last ensures Covered(t[..], x) { HeldIsCovered(t[..], i, x); }
        first := t[i].last + 1;
        moved := true;
      }
    }
    if !moved { NotCovered(t[..], first); }
  }

  lemma {:induction false} InRange(d: Disk, t: seq<Part>, i: int)
    requires Placed(d, t) && 0 <= i < |t| && t[i].IsUsed()
    ensures 1 <= d.firstUsable <= t[i].first <= t[i].last <= d.lastUsable
  {
  }

  lemma {:induction false} NotCovered(t: seq<Part>, x: int)
    requires forall j | 0 <= j < |t| && t[j].IsUsed() :: !t[j].Holds(x)
    ensures !Covered(t, x)
  {
  }

  /** The first free sector at or after start, 0 when there is none. */
  method FindFirstAvailable(d: Disk, t: array<Part>, start: nat) returns (first: nat)
    requires Placed(d, t[..])
    ensures first != 0 ==> start <= first && Free(d, t[..], first)
    ensures forall x: nat | start <= x && (first == 0 || x < first) :: !Free(d, t[..], x)
  {
    hide Placed, Covered;
    UsableStart(d, t[..]);
    first := if start < d.firstUsable then d.firstUsable else start;
    ghost var from := first;
    if first <= d.lastUsable + 1 {
      var moved := true;
      while moved
        invariant from <= first <= d.lastUsable + 1
        invariant forall x | from <= x < first :: Covered(t[..], x)
        invariant !moved ==> !Covered(t[..], first)
        decreases d.lastUsable + 1 - first, moved
      {
        first, moved := MoveUpOnce(d, t, first);
      }
    }
    if first > d.lastUsable {
      first := 0;
    }
  }

  lemma {:induction false} UsableStart(d: Disk, t: seq<Part>)
    requires Placed(d, t)
    ensures d.firstUsable >= 1
  {
  }

  /** The bound of FindLastInFree after its first n entries. */
  ghost function LastInFree(d: Disk, t: seq<Part>, start: nat, n: nat): int
    requires n <= |t|
  {
    if n == 0 then d.lastUsable
    else
      var bound := LastInFree(d, t, start, n - 1);
      if bound > t[n - 1].first && t[n - 1].first > start then t[n - 1].first - 1 else bound
  }

  /** The nearest partition start above `start`, less one, or the last usable sector. */
  method FindLastInFree(d: Disk, t: array<Part>, start: nat) returns (nearest: int)
    ensures nearest == LastInFree(d, t[..], start, t.Length)
  {
    nearest := d.lastUsable;
    for i := 0 to t.Length
      invariant nearest == LastInFree(d, t[..], start, i)
    {
      if nearest > t[i].first && t[i].first > start {
        nearest := t[i].first - 1;
      }
    }
  }

  /** The strict comparison passes over partition m: it starts on the last usable sector, or it fills the
      one sector before a partition that stands in front of it in the table and is not passed over. */
  ghost predicate Missed(d: Disk, t: seq<Part>, m: nat)
    requires m < |t|
  {
    t[m].IsUsed() && (t[m].first == d.lastUsable || exists k: nat :: k < m && StartsNext(t, m, k) && !Missed(d, t, k))
  }

  ghost predicate StartsNext(t: seq<Part>, m: nat, k: nat)
    requires m < |t| && k < |t|
  {
    t[k].IsUsed() && t[k].first == t[m].first + 1
  }

  /** A partition that is passed over starts at sector x. */
  ghost predicate MissedAt(d: Disk, t: seq<Part>, x: int) { exists m: nat :: m < |t| && Missed(d, t, m) && t[m].first == x }

  /** Partition m is the first on the disk above sector `start`, of the first n entries. */
  ghost predicate Nearest(t: seq<Part>, start: nat, n: nat, m: nat)
    requires n <= |t|
  {
    m < n && t[m].IsUsed() && t[m].first > start && forall j | 0 <= j < n && t[j].IsUsed() && t[j].first > start :: t[j].first >= t[m].first
  }

  ghost predicate NoneAbove(t: seq<Part>, start: nat, n: nat)
    requires n <= |t|
  {
    forall j | 0 <= j < n && t[j].IsUsed() :: t[j].first <= start
  }

  lemma {:induction false} UnusedIsBlank(d: Disk, t: seq<Part>, i: int)
    requires Placed(d, t) && 0 <= i < |t| && !t[i].IsUsed()
    ensures t[i].first == 0
  {
  }

  /** Different partitions start at different sectors. */
  lemma {:induction false} SameStart(d: Disk, t: seq<Part>, i: int, j: int)
    requires Placed(d, t) && 0 <= i < |t| && 0 <= j < |t| && t[i].IsUsed() && t[j].IsUsed() && t[i].first == t[j].first
    ensures i == j
  {
  }

  lemma {:induction false} OneNearest(d: Disk, t: seq<Part>, start: nat, n: nat, m: nat, m': nat)
    requires Placed(d, t) && n <= |t| && Nearest(t, start, n, m) && Nearest(t, start, n, m')
    ensures m == m'
  {
    hide Placed;
    SameStart(d, t, m, m');
  }

  /** After any number of entries the bound lies just before the nearest partition m among them, or on its
      first sector when that partition is passed over. */
  lemma {:induction false} BoundAfter(d: Disk, t: seq<Part>, start: nat, n: nat) returns (m: int)
    requires Placed(d, t) && n <= |t|
    ensures -1 <= m < n
    ensures m == -1 ==> NoneAbove(t, start, n) && LastInFree(d, t, start, n) == d.lastUsable
    ensures m >= 0 ==> Nearest(t, start, n, m) && LastInFree(d, t, start, n) == if Missed(d, t, m) then t[m].first else t[m].first - 1
  {
    hide Placed, Missed;
    if n == 0 {
      m := -1;
    } else {
      var i := n - 1;
      m := BoundAfter(d, t, start, i);
      if m >= 0 { InRange(d, t, m); }
      if !t[i].IsUsed() {
        UnusedIsBlank(d, t, i);
      } else if t[i].first > start {
        InRange(d, t, i);
        if m == -1 {
          FirstAbove(d, t, start, i);
          m := i;
        } else if t[i].first < t[m].first {
          NewNearest(d, t, start, i, m);
          m := i;
        } else {
          if t[i].first == t[m].first { SameStart(d, t, i, m); }
        }
      }
    }
  }

  lemma {:induction false} FirstAbove(d: Disk, t: seq<Part>, start: nat, i: nat)
    requires i < |t| && t[i].IsUsed() && t[i].first > start && NoneAbove(t, start, i)
    ensures Missed(d, t, i) <==> t[i].first == d.lastUsable
  {
  }

  /** A partition below the nearest one so far is passed over exactly when the bound is on its start. */
  lemma {:induction false} NewNearest(d: Disk, t: seq<Part>, start: nat, i: nat, m: nat)
    requires Placed(d, t) && i < |t| && Nearest(t, start, i, m) && t[i].IsUsed() && start < t[i].first < t[m].first <= d.lastUsable
    ensures Missed(d, t, i) <==> t[i].first == t[m].first - 1 && !Missed(d, t, m)
  {
    hide Placed;
    if t[i].first == t[m].first - 1 && !Missed(d, t, m) { assert StartsNext(t, i, m); }
    if Missed(d, t, i) {
      var k: nat :| k < i && StartsNext(t, i, k) && !Missed(d, t, k);
      assert t[k].first >= t[m].first;
      SameStart(d, t, k, m);
    }
  }

  /** The sectors from start to e are free and the next one is not. */
  ghost predicate RunEnd(d: Disk, t: seq<Part>, start: int, e: int) {
    start <= e && (forall x | start <= x <= e :: Free(d, t, x)) && !Free(d, t, e + 1)
  }

  /** From a free sector on the bound is the end of the free run, or, when the partition behind the run is
      passed over, one sector more. */
  lemma {:induction false} BoundOfRun(d: Disk, t: seq<Part>, start: nat) returns (e: int)
    requires Placed(d, t) && Free(d, t, start)
    ensures RunEnd(d, t, start, e) && LastInFree(d, t, start, |t|) == if MissedAt(d, t, e + 1) then e + 1 else e
    ensures forall m: nat | Nearest(t, start, |t|, m) :: MissedAt(d, t, e + 1) <==> Missed(d, t, m)
    ensures MissedAt(d, t, e + 1) ==> exists m: nat :: Nearest(t, start, |t|, m)
  {
    hide Placed, Covered, Missed, LastInFree, MissedAt, Nearest;
    var m := BoundAfter(d, t, start, |t|);
    if m == -1 {
      e := d.lastUsable;
      RunUpTo(d, t, start, e);
      NotMissedThere(d, t, e + 1);
      forall k: nat ensures !Nearest(t, start, |t|, k) { NoNearest(t, start, k); }
    } else {
      e := t[m].first - 1;
      NearestIs(d, t, start, m);
      RunUpTo(d, t, start, e);
      HeldIsCovered(t, m, e + 1);
      MissedThere(d, t, m);
      forall k: nat | Nearest(t, start, |t|, k) ensures k == m { OneNearest(d, t, start, |t|, k, m); }
    }
  }

  lemma {:induction false} NearestIs(d: Disk, t: seq<Part>, start: nat, m: nat)
    requires Placed(d, t) && Nearest(t, start, |t|, m)
    ensures m < |t| && t[m].IsUsed() && start < t[m].first <= t[m].last <= d.lastUsable
    ensures forall j | 0 <= j < |t| && t[j].IsUsed() && t[j].first > start :: t[j].first >= t[m].first
  {
    hide Placed;
    InRange(d, t, m);
  }

  lemma {:induction false} NoNearest(t: seq<Part>, start: nat, m: nat)
    requires NoneAbove(t, start, |t|)
    ensures !Nearest(t, start, |t|, m)
  {
  }

  lemma {:induction false} NotMissedThere(d: Disk, t: seq<Part>, x: int)
    requires Placed(d, t) && x > d.lastUsable
    ensures !MissedAt(d, t, x)
  {
    hide Placed;
    forall k: nat | k < |t| && Missed(d, t, k) ensures t[k].first != x { InRange(d, t, k); }
  }

  lemma {:induction false} MissedThere(d: Disk, t: seq<Part>, m: nat)
    requires Placed(d, t) && m < |t| && t[m].IsUsed()
    ensures MissedAt(d, t, t[m].first) <==> Missed(d, t, m)
  {
    hide Placed, Missed;
    MissedUsed(d, t);
    forall k: nat | k < |t| && Missed(d, t, k) && t[k].first == t[m].first ensures k == m { SameStart(d, t, k, m); }
  }

  lemma {:induction false} MissedUsed(d: Disk, t: seq<Part>)
    ensures forall m: nat | m < |t| && Missed(d, t, m) :: t[m].IsUsed()
  {
  }

  lemma {:induction false} OneEnd(d: Disk, t: seq<Part>, start: int, e: int, e': int)
    requires RunEnd(d, t, start, e) && RunEnd(d, t, start, e')
    ensures e == e'
  {
    hide Free;
  }

  /** Exactly when the search for the end of a free run is right: the nearest partition above the start, if
      there is one, is not passed over; in terms of the loop, the bound it meets is not its first sector. */
  lemma {:induction false} LastInFreeExact(d: Disk, t: seq<Part>, start: nat)
    requires Placed(d, t) && Free(d, t, start)
    ensures RunEnd(d, t, start, LastInFree(d, t, start, |t|)) <==> forall m: nat | Nearest(t, start, |t|, m) :: !Missed(d, t, m)
    ensures forall m: nat | Nearest(t, start, |t|, m) :: Missed(d, t, m) <==> LastInFree(d, t, start, m) == t[m].first
  {
    hide Placed, Free, Missed, LastInFree, RunEnd, MissedAt, Nearest;
    var e := BoundOfRun(d, t, start);
    if RunEnd(d, t, start, LastInFree(d, t, start, |t|)) { OneEnd(d, t, start, e, LastInFree(d, t, start, |t|)); }
    forall m: nat | Nearest(t, start, |t|, m)
      ensures m < |t| && (Missed(d, t, m) <==> LastInFree(d, t, start, m) == t[m].first)
    {
      NearestIs(d, t, start, m);
      MetBound(d, t, start, m);
    }
  }

  lemma {:induction false} MetBound(d: Disk, t: seq<Part>, start: nat, m: nat)
    requires Placed(d, t) && Nearest(t, start, |t|, m)
    ensures Missed(d, t, m) <==> LastInFree(d, t, start, m) == t[m].first
  {
    hide Placed, Missed, LastInFree;
    var k := BoundAfter(d, t, start, m);
    InRange(d, t, m);
    if k == -1 {
      FirstAbove(d, t, start, m);
    } else {
      InRange(d, t, k);
      LowerStart(d, t, m, k);
      NewNearest(d, t, start, m, k);
    }
  }

  lemma {:induction false} LowerStart(d: Disk, t: seq<Part>, m: nat, k: nat)
    requires Placed(d, t) && k < m < |t| && t[k].IsUsed() && t[m].IsUsed() && t[m].first <= t[k].first
    ensures t[m].first < t[k].first
  {
  }

  /** Partitions of two sectors or more are never passed over. */
  lemma {:induction false} TwoSectorsMet(d: Disk, t: seq<Part>, m: nat)
    requires Placed(d, t) && TwoSectors(t) && m < |t|
    ensures !Missed(d, t, m)
  {
    if t[m].IsUsed() {
      forall k: nat | k < m ensures !StartsNext(t, m, k) {
        if StartsNext(t, m, k) { TwoApart(d, t, k, m); }
      }
    }
  }

  lemma {:induction false} TwoApart(d: Disk, t: seq<Part>, k: nat, m: nat)
    requires Placed(d, t) && TwoSectors(t) && k < |t| && m < |t| && t[k].IsUsed() && t[m].IsUsed()
    ensures t[k].first != t[m].first + 1
  {
  }

  /** From a free sector on, when every partition has two sectors, the bound is the end of the free run. */
  lemma {:induction false} LastInFreeIsRunEnd(d: Disk, t: seq<Part>, start: nat)
    requires Placed(d, t) && TwoSectors(t) && Free(d, t, start)
    ensures RunEnd(d, t, start, LastInFree(d, t, start, |t|))
  {
    hide Placed, Free, TwoSectors, Missed, RunEnd, LastInFree;
    LastInFreeExact(d, t, start);
    forall m: nat | Nearest(t, start, |t|, m) ensures !Missed(d, t, m) { TwoSectorsMet(d, t, m); }
  }

  /** No partition starts between a free sector and the bound, so the whole stretch is free. */
  lemma {:induction false} RunUpTo(d: Disk, t: seq<Part>, start: int, nearest: int)
    requires Free(d, t, start) && nearest <= d.lastUsable
    requires forall j | 0 <= j < |t| && t[j].IsUsed() && t[j].first > start :: t[j].first > nearest
    ensures forall x | start <= x <= nearest :: Free(d, t, x)
  {
    forall x | start <= x <= nearest ensures !Covered(t, x) {
      forall j | 0 <= j < |t| && t[j].IsUsed() ensures !t[j].Holds(x) {
        if t[j].first <= start && t[j].Holds(x) { HeldIsCovered(t, j, start); }
      }
    }
  }

  // ----- The free runs, all of them.

  type Segment = (int, int)

  function SegmentSize(s: Segment): int { s.1 - s.0 + 1 }

  /** segs lists, in order, the free runs below the sector `from`. */
  ghost predicate RunsBelow(d: Disk, t: seq<Part>, segs: seq<Segment>, from: int) {
    && (forall i | 0 <= i < |segs| :: Run(d, t, segs[i].0, segs[i].1) && segs[i].1 < from)
    && (forall i, j | 0 <= i < j < |segs| :: segs[i].1 < segs[j].0)
    && (forall x | x < from && Free(d, t, x) :: Listed(segs, x))
  }

  /** Some segment holds the sector. */
  ghost predicate Listed(segs: seq<Segment>, x: int) { exists i :: 0 <= i < |segs| && segs[i].0 <= x <= segs[i].1 }

  /** The next run, found behind the last one, extends the list. */
  lemma {:induction false} NextRun(d: Disk, t: seq<Part>, segs: seq<Segment>, from: int, a: int, b: int)
    requires RunsBelow(d, t, segs, from) && !Free(d, t, from) && from <= a <= b
    requires (forall x | from <= x < a :: !Free(d, t, x)) && (forall x | a <= x <= b :: Free(d, t, x)) && !Free(d, t, b + 1)
    ensures RunsBelow(d, t, segs + [(a, b)], b + 1)
  {
    hide Free;
    var u := segs + [(a, b)];
    forall x | x < b + 1 && Free(d, t, x) ensures Listed(u, x) {
      if x < from {
        var i :| 0 <= i < |segs| && segs[i].0 <= x <= segs[i].1;
        assert u[i] == segs[i];
      } else {
        assert u[|segs|] == (a, b);
      }
    }
  }

  ghost function Total(segs: seq<Segment>): int {
    if segs == [] then 0 else Total(segs[..|segs| - 1]) + SegmentSize(segs[|segs| - 1])
  }

  /** Size of the largest segment, 0 for none. */
  ghost function Largest(segs: seq<Segment>): int {
    if segs == [] then 0
    else
      var m, z := Largest(segs[..|segs| - 1]), SegmentSize(segs[|segs| - 1]);
      if z > m then z else m
  }

  lemma {:induction false} Append(segs: seq<Segment>, z: Segment)
    ensures Total(segs + [z]) == Total(segs) + SegmentSize(z)
    ensures Largest(segs + [z]) == if SegmentSize(z) > Largest(segs) then SegmentSize(z) else Largest(segs)
  {
    assert (segs + [z])[..|segs|] == segs;
  }

  lemma {:induction false} NothingBelow(d: Disk, t: seq<Part>)
    requires Placed(d, t)
    ensures RunsBelow(d, t, [], 0) && !Free(d, t, 0)
  {
    hide Covered;
  }

  /** The list is complete once no free sector is left above. */
  ghost predicate AllRuns(d: Disk, t: seq<Part>, segs: seq<Segment>) {
    && (forall i, j | 0 <= i < j < |segs| :: segs[i].1 < segs[j].0)
    && (forall a, b :: Run(d, t, a, b) <==> (a, b) in segs)
    && (forall x | Free(d, t, x) :: Listed(segs, x))
  }

  lemma {:induction false} Complete(d: Disk, t: seq<Part>, segs: seq<Segment>, from: int)
    requires RunsBelow(d, t, segs, from) && forall x | x >= from :: !Free(d, t, x)
    ensures AllRuns(d, t, segs)
  {
    hide Free, Run;
    forall a, b | Run(d, t, a, b) ensures (a, b) in segs { RunIsListed(d, t, segs, from, a, b); }
    forall a, b | (a, b) in segs ensures Run(d, t, a, b) {
      var i :| 0 <= i < |segs| && segs[i] == (a, b);
    }
  }

  lemma {:induction false} RunIsListed(d: Disk, t: seq<Part>, segs: seq<Segment>, from: int, a: int, b: int)
    requires RunsBelow(d, t, segs, from) && (forall x | x >= from :: !Free(d, t, x)) && Run(d, t, a, b)
    ensures (a, b) in segs
  {
    hide Free;
    assert Free(d, t, a);
    var i :| 0 <= i < |segs| && segs[i].0 <= a <= segs[i].1;
    SameRun(d, t, a, b, segs[i].0, segs[i].1, a);
  }

  /** Two maximal runs with a common sector are the same. */
  lemma {:induction false} SameRun(d: Disk, t: seq<Part>, a: int, b: int, a': int, b': int, x: int)
    requires Run(d, t, a, b) && Run(d, t, a', b') && a <= x <= b && a' <= x <= b'
    ensures a == a' && b == b'
  {
    hide Free;
  }

  // ----- What the searches count.

  /** A free run as the searches see it: with the first sector of the partition behind it, if that is passed over. */
  ghost function Seen(d: Disk, t: seq<Part>, z: Segment): Segment {
    (z.0, if MissedAt(d, t, z.1 + 1) then z.1 + 1 else z.1)
  }

  ghost function AllSeen(d: Disk, t: seq<Part>, segs: seq<Segment>): (r: seq<Segment>)
    ensures |r| == |segs|
  {
    if segs == [] then [] else AllSeen(d, t, segs[..|segs| - 1]) + [Seen(d, t, segs[|segs| - 1])]
  }

  lemma {:induction false} SeenAt(d: Disk, t: seq<Part>, segs: seq<Segment>, i: nat)
    requires i < |segs|
    ensures AllSeen(d, t, segs)[i] == Seen(d, t, segs[i])
  {
    hide Seen;
    if i < |segs| - 1 { SeenAt(d, t, segs[..|segs| - 1], i); }
  }

  lemma {:induction false} SeenNext(d: Disk, t: seq<Part>, segs: seq<Segment>, z: Segment)
    ensures AllSeen(d, t, segs + [z]) == AllSeen(d, t, segs) + [Seen(d, t, z)]
  {
    hide Seen;
    assert (segs + [z])[..|segs|] == segs;
  }

  /** Neither the sector of a partition passed over nor the one behind it is free. */
  lemma {:induction false} BehindMissed(d: Disk, t: seq<Part>, x: int)
    requires Placed(d, t) && MissedAt(d, t, x)
    ensures 0 <= x <= d.lastUsable && !Free(d, t, x) && !Free(d, t, x + 1)
  {
    hide Placed, Covered;
    var m: nat :| m < |t| && Missed(d, t, m) && t[m].first == x;
    InRange(d, t, m);
    HeldIsCovered(t, m, x);
    if x < d.lastUsable {
      var k: nat :| k < m && StartsNext(t, m, k) && !Missed(d, t, k);
      InRange(d, t, k);
      HeldIsCovered(t, k, x + 1);
    }
  }

  lemma {:induction false} RunsBelowLater(d: Disk, t: seq<Part>, segs: seq<Segment>, from: int, to: int)
    requires RunsBelow(d, t, segs, from) && from <= to && forall x | from <= x < to :: !Free(d, t, x)
    ensures RunsBelow(d, t, segs, to)
  {
    hide Free, Run, Listed;
  }

  /** The run that starts at the first free sector from start on extends the list of runs, and the bound
      reported for it is that of the run as the searches see it. */
  lemma {:induction false} SeenRun(d: Disk, t: seq<Part>, segs: seq<Segment>, start: nat, first: nat) returns (z: Segment)
    requires Placed(d, t) && RunsBelow(d, t, segs, start) && !Free(d, t, start)
    requires start <= first && Free(d, t, first) && forall x | start <= x < first :: !Free(d, t, x)
    ensures Seen(d, t, z) == (first, LastInFree(d, t, first, |t|)) && z.0 == first <= z.1
    ensures var next := LastInFree(d, t, first, |t|) + 1;
            first < next <= d.lastUsable + 1 && RunsBelow(d, t, segs + [z], next) && !Free(d, t, next)
  {
    hide Placed, Free, MissedAt, RunsBelow, LastInFree, Run;
    var e := BoundOfRun(d, t, first);
    z := (first, e);
    NextRun(d, t, segs, start, first, e);
    FreeInRange(d, t, e);
    if MissedAt(d, t, e + 1) {
      BehindMissed(d, t, e + 1);
      RunsBelowLater(d, t, segs + [z], e + 1, e + 2);
    }
  }

  /** Number of free segments, the size of the largest one, and the total, each run counted as the searches
      see it; the runs themselves are the ghost result. */
  method FindFreeBlocks(d: Disk, t: array<Part>, diskSize: nat) returns (total: nat, num: nat, largest: nat, ghost segs: seq<Segment>)
    requires Placed(d, t[..])
    ensures diskSize > 0 ==> AllRuns(d, t[..], segs)
    ensures diskSize == 0 ==> segs == []
    ensures num == |segs| && total == Total(AllSeen(d, t[..], segs)) && largest == Largest(AllSeen(d, t[..], segs))
  {
    hide Placed, Free, RunsBelow, AllRuns, Seen, LastInFree, Total, Largest;
    var start := 0;
    NothingSeen(d, t[..]);
    total, num, largest, segs := 0, 0, 0, [];
    if diskSize > 0 {
      NothingBelow(d, t[..]);
      var more := true;
      while more
        invariant 0 <= start <= d.lastUsable + 1
        invariant RunsBelow(d, t[..], segs, start) && !Free(d, t[..], start)
        invariant !more ==> forall x | x >= start :: !Free(d, t[..], x)
        invariant num == |segs| && total == Total(AllSeen(d, t[..], segs)) && largest == Largest(AllSeen(d, t[..], segs))
        decreases d.lastUsable + 1 - start, more
      {
        var first := FindFirstAvailable(d, t, start);
        if first != 0 {
          var last := FindLastInFree(d, t, first);
          ghost var z := SeenRun(d, t[..], segs, start, first);
          Append(AllSeen(d, t[..], segs), (first, last));
          SeenNext(d, t[..], segs, z);
          segs := segs + [z];
          var size := last - first + 1;
          if size > largest {
            largest := size;
          }
          total := total + size;
          num := num + 1;
          start := last + 1;
        } else {
          more := false;
        }
      }
      Complete(d, t[..], segs, start);
    }
  }

  lemma {:induction false} NothingSeen(d: Disk, t: seq<Part>)
    ensures AllSeen(d, t, []) == [] && Total([]) == 0 && Largest([]) == 0
  {
  }

  ghost function SeenCount(d: Disk, t: seq<Part>, segs: seq<Segment>): nat {
    if segs == [] then 0
    else SeenCount(d, t, segs[..|segs| - 1]) + if MissedAt(d, t, segs[|segs| - 1].1 + 1) then 1 else 0
  }

  /** Each run in front of a partition passed over counts one sector too many. */
  lemma {:induction false} SeenTotal(d: Disk, t: seq<Part>, segs: seq<Segment>)
    ensures Total(AllSeen(d, t, segs)) == Total(segs) + SeenCount(d, t, segs)
  {
    hide MissedAt;
    if segs != [] {
      SeenTotal(d, t, segs[..|segs| - 1]);
      Append(AllSeen(d, t, segs[..|segs| - 1]), Seen(d, t, segs[|segs| - 1]));
    }
  }

  lemma {:induction false} NoneSeen(d: Disk, t: seq<Part>, segs: seq<Segment>)
    ensures SeenCount(d, t, segs) == 0 <==> forall i | 0 <= i < |segs| :: !MissedAt(d, t, segs[i].1 + 1)
    ensures SeenCount(d, t, segs) == 0 ==> AllSeen(d, t, segs) == segs
  {
    hide MissedAt;
    if segs != [] {
      var rest := segs[..|segs| - 1];
      NoneSeen(d, t, rest);
      assert segs == rest + [segs[|segs| - 1]];
      if SeenCount(d, t, segs) == 0 {
        forall i | 0 <= i < |segs| ensures !MissedAt(d, t, segs[i].1 + 1) { if i < |segs| - 1 { assert segs[i] == rest[i]; } }
      }
      if forall i | 0 <= i < |segs| :: !MissedAt(d, t, segs[i].1 + 1) {
        forall i | 0 <= i < |rest| ensures !MissedAt(d, t, rest[i].1 + 1) { assert rest[i] == segs[i]; }
      }
    }
  }

  /** No partition behind a free sector is passed over. */
  ghost predicate AllMet(d: Disk, t: seq<Part>) {
    forall m: nat | m < |t| && Missed(d, t, m) :: !Free(d, t, t[m].first - 1)
  }

  /** Exactly when the total is the number of free sectors, and the segments seen are the free runs: no
      partition that is passed over stands directly behind a free sector. */
  lemma {:induction false} FreeBlocksExact(d: Disk, t: seq<Part>, segs: seq<Segment>)
    requires Placed(d, t) && AllRuns(d, t, segs)
    ensures Total(AllSeen(d, t, segs)) == Total(segs) <==> AllMet(d, t)
    ensures AllSeen(d, t, segs) == segs <==> AllMet(d, t)
  {
    hide Placed, Free, Missed, AllRuns;
    SeenTotal(d, t, segs);
    NoneSeen(d, t, segs);
    if AllMet(d, t) {
      forall i | 0 <= i < |segs| ensures !MissedAt(d, t, segs[i].1 + 1) { LastOfRun(d, t, segs, i); }
    } else {
      var m: nat :| m < |t| && Missed(d, t, m) && Free(d, t, t[m].first - 1);
      var i := RunBefore(d, t, segs, t[m].first - 1);
    }
  }

  lemma {:induction false} LastOfRun(d: Disk, t: seq<Part>, segs: seq<Segment>, i: nat)
    requires AllRuns(d, t, segs) && i < |segs|
    ensures Free(d, t, segs[i].1)
  {
    hide Free;
    var (a, b) := segs[i];
    assert (a, b) in segs;
    assert Run(d, t, a, b);
  }

  lemma {:induction false} RunBefore(d: Disk, t: seq<Part>, segs: seq<Segment>, x: int) returns (i: nat)
    requires Placed(d, t) && AllRuns(d, t, segs) && Free(d, t, x) && MissedAt(d, t, x + 1)
    ensures i < |segs| && segs[i].1 == x
  {
    hide Placed, Free, MissedAt;
    BehindMissed(d, t, x + 1);
    i :| i < |segs| && segs[i].0 <= x <= segs[i].1;
    var (a, b) := segs[i];
    assert (a, b) in segs;
    assert Run(d, t, a, b);
  }

  /** Two sectors in every partition are enough. */
  lemma {:induction false} TwoSectorsAllMet(d: Disk, t: seq<Part>)
    requires Placed(d, t) && TwoSectors(t)
    ensures AllMet(d, t)
  {
    hide Placed, TwoSectors, Free, Missed;
    forall m: nat | m < |t| ensures !Missed(d, t, m) { TwoSectorsMet(d, t, m); }
  }

  lemma {:induction false} FreeInRange(d: Disk, t: seq<Part>, x: int)
    requires Free(d, t, x)
    ensures 1 <= d.firstUsable ==> 1 <= x
    ensures x <= d.lastUsable
  {
  }

  /** The start of the first of the largest free runs, as the searches see them, 0 when nothing is free. */
  method FindFirstInLargest(d: Disk, t: array<Part>) returns (selected: nat, ghost segs: seq<Segment>)
    requires Placed(d, t[..])
    ensures AllRuns(d, t[..], segs)
    ensures if segs == [] then selected == 0 else FirstLargest(AllSeen(d, t[..], segs), selected)
  {
    hide Placed, Free, RunsBelow, AllRuns, FirstLargest, Seen, LastInFree, Largest;
    var start, selectedSize, more := 0, 0, true;
    selected, segs := 0, [];
    NothingSeen(d, t[..]);
    NothingBelow(d, t[..]);
    while more
      invariant 0 <= start <= d.lastUsable + 1
      invariant RunsBelow(d, t[..], segs, start) && !Free(d, t[..], start)
      invariant !more ==> forall x | x >= start :: !Free(d, t[..], x)
      invariant selectedSize == Largest(AllSeen(d, t[..], segs))
      invariant if segs == [] then selected == 0 else FirstLargest(AllSeen(d, t[..], segs), selected)
      decreases d.lastUsable + 1 - start, more
    {
      var first := FindFirstAvailable(d, t, start);
      if first != 0 {
        var last := FindLastInFree(d, t, first);
        ghost var seen := AllSeen(d, t[..], segs);
        ghost var z := SeenRun(d, t[..], segs, start, first);
        Append(seen, (first, last));
        SeenNext(d, t[..], segs, z);
        SelectNext(seen, (first, last), selected);
        segs := segs + [z];
        var size := last - first + 1;
        if size > selectedSize {
          selectedSize := size;
          selected := first;
        }
        start := last + 1;
      } else {
        more := false;
      }
    }
    Complete(d, t[..], segs, start);
  }

  /** Exactly when the start selected is that of a largest run: some largest run counts one sector too many,
      or no run in front of the first largest one is a sector shorter and counts one too many. */
  lemma {:induction false} SelectedIsLargest(d: Disk, t: seq<Part>, segs: seq<Segment>, i: nat)
    requires AllRuns(d, t, segs) && i < |segs| && First(AllSeen(d, t, segs), i)
    ensures SegmentSize(segs[i]) == Largest(segs) <==>
            || (exists j: nat :: LargestAt(segs, j) && MissedAt(d, t, segs[j].1 + 1))
            || (exists j: nat :: LargestAt(segs, j) && forall k | 0 <= k < j :: !Overtakes(d, t, segs, k))
  {
    hide MissedAt, Largest, AllRuns;
    RunStarts(d, t, segs, 0);
    forall j: nat | j < |segs| ensures AllSeen(d, t, segs)[j] == Seen(d, t, segs[j]) && SegmentSize(segs[j]) <= Largest(segs) {
      SeenAt(d, t, segs, j);
      LargestBounds(segs, j);
    }
    var m := LargestIn(segs);
    if SegmentSize(segs[i]) == Largest(segs) {
      assert LargestAt(segs, i);
      forall k | 0 <= k < i && !MissedAt(d, t, segs[i].1 + 1) ensures !Overtakes(d, t, segs, k) {
        assert SegmentSize(AllSeen(d, t, segs)[k]) < SegmentSize(AllSeen(d, t, segs)[i]);
      }
    }
    forall j: nat | LargestAt(segs, j) && MissedAt(d, t, segs[j].1 + 1) ensures SegmentSize(segs[i]) == Largest(segs) {
      assert SegmentSize(AllSeen(d, t, segs)[j]) <= SegmentSize(AllSeen(d, t, segs)[i]);
    }
    forall j: nat | LargestAt(segs, j) && forall k | 0 <= k < j :: !Overtakes(d, t, segs, k)
      ensures SegmentSize(segs[i]) == Largest(segs)
    {
      assert SegmentSize(AllSeen(d, t, segs)[j]) <= SegmentSize(AllSeen(d, t, segs)[i]);
      assert !(i < j && Overtakes(d, t, segs, i));
    }
  }

  ghost predicate LargestAt(segs: seq<Segment>, j: nat) { j < |segs| && SegmentSize(segs[j]) == Largest(segs) }

  /** A run one sector short of the largest that counts as one of the largest. */
  ghost predicate Overtakes(d: Disk, t: seq<Part>, segs: seq<Segment>, k: int) {
    0 <= k < |segs| && SegmentSize(segs[k]) == Largest(segs) - 1 && MissedAt(d, t, segs[k].1 + 1)
  }

  lemma {:induction false} LargestBounds(segs: seq<Segment>, j: nat)
    requires j < |segs|
    ensures SegmentSize(segs[j]) <= Largest(segs)
  {
    if j < |segs| - 1 { LargestBounds(segs[..|segs| - 1], j); }
  }

  lemma {:induction false} LargestIn(segs: seq<Segment>) returns (j: nat)
    requires segs != [] && SegmentSize(segs[0]) > 0
    ensures LargestAt(segs, j)
  {
    var rest := segs[..|segs| - 1];
    if rest == [] {
      j := 0;
    } else {
      j := LargestIn(rest);
      if SegmentSize(segs[|segs| - 1]) > Largest(rest) { j := |segs| - 1; }
    }
  }

  /** a starts the first segment of the largest size. */
  ghost predicate FirstLargest(segs: seq<Segment>, a: int) {
    exists i :: 0 <= i < |segs| && segs[i].0 == a && First(segs, i)
  }

  ghost predicate First(segs: seq<Segment>, i: nat)
    requires i < |segs|
  {
    && SegmentSize(segs[i]) == Largest(segs)
    && (forall j | 0 <= j < |segs| :: SegmentSize(segs[j]) <= SegmentSize(segs[i]))
    && (forall j | 0 <= j < i :: SegmentSize(segs[j]) < SegmentSize(segs[i]))
  }

  lemma {:induction false} SelectNext(segs: seq<Segment>, z: Segment, a: int)
    requires if segs == [] then true else FirstLargest(segs, a)
    requires SegmentSize(z) > 0
    ensures FirstLargest(segs + [z], if SegmentSize(z) > Largest(segs) then z.0 else a)
  {
    hide Largest;
    Append(segs, z);
    var u := segs + [z];
    LargestOfNone();
    if segs == [] {
      assert First(u, 0);
    } else {
      var i :| 0 <= i < |segs| && segs[i].0 == a && First(segs, i);
      if SegmentSize(z) > Largest(segs) { assert First(u, |segs|); } else { assert First(u, i); }
    }
  }

  lemma {:induction false} LargestOfNone()
    ensures Largest([]) == 0
  {
  }

  // ----- Counting sectors.

  /** Free sectors below x. */
  ghost function FreeBelow(d: Disk, t: seq<Part>, x: int): nat
    decreases x - d.firstUsable
  {
    if x <= d.firstUsable then 0 else FreeBelow(d, t, x - 1) + if Free(d, t, x - 1) then 1 else 0
  }

  /** Usable sectors below x that one of the first k entries holds. */
  ghost function UsedBelow(d: Disk, t: seq<Part>, k: nat, x: int): nat
    requires k <= |t|
    decreases x - d.firstUsable
  {
    if x <= d.firstUsable then 0 else UsedBelow(d, t, k, x - 1) + if Covered(t[..k], x - 1) then 1 else 0
  }

  ghost function Lengths(t: seq<Part>): nat {
    if t == [] then 0 else Lengths(t[..|t| - 1]) + if t[|t| - 1].IsUsed() then t[|t| - 1].Length() else 0
  }

  lemma {:induction false} FreeAndUsed(d: Disk, t: seq<Part>, x: int)
    requires d.firstUsable <= x <= d.lastUsable + 1
    ensures FreeBelow(d, t, x) + UsedBelow(d, t, |t|, x) == x - d.firstUsable
    decreases x - d.firstUsable
  {
    hide Covered;
    assert t[..|t|] == t;
    if x > d.firstUsable { FreeAndUsed(d, t, x - 1); }
  }

  /** Sectors of p from the start of the usable range up to x. */
  function Part0(d: Disk, p: Part, x: int): int {
    if !p.IsUsed() || x <= p.first then 0 else if x <= p.last then x - p.first else p.Length()
  }

  lemma {:induction false} CoveredBy(t: seq<Part>, k: nat, x: int)
    requires k < |t|
    ensures Covered(t[..k + 1], x) <==> Covered(t[..k], x) || (t[k].IsUsed() && t[k].Holds(x))
  {
    if Covered(t[..k + 1], x) {
      var i :| 0 <= i < k + 1 && t[..k + 1][i].IsUsed() && t[..k + 1][i].Holds(x);
      if i < k { assert t[..k][i].Holds(x) && t[..k][i].IsUsed(); }
    }
    if Covered(t[..k], x) {
      var i :| 0 <= i < k && t[..k][i].IsUsed() && t[..k][i].Holds(x);
      assert t[..k + 1][i].IsUsed() && t[..k + 1][i].Holds(x);
    }
    if t[k].IsUsed() && t[k].Holds(x) { assert t[..k + 1][k].Holds(x); }
  }

  lemma {:induction false} NotTwice(d: Disk, t: seq<Part>, k: nat, x: int)
    requires Placed(d, t) && k < |t| && t[k].IsUsed() && t[k].Holds(x)
    ensures !Covered(t[..k], x)
  {
    forall i | 0 <= i < k && t[..k][i].IsUsed() ensures !t[..k][i].Holds(x) { assert Apart(t[i], t[k]); }
  }

  lemma {:induction false} OneMorePart(d: Disk, t: seq<Part>, k: nat, x: int)
    requires Placed(d, t) && k < |t| && d.firstUsable <= x
    ensures UsedBelow(d, t, k + 1, x) == UsedBelow(d, t, k, x) + Part0(d, t[k], x)
    decreases x - d.firstUsable
  {
    hide Covered, Placed;
    if t[k].IsUsed() { InRange(d, t, k); }
    if x > d.firstUsable {
      OneMorePart(d, t, k, x - 1);
      CoveredBy(t, k, x - 1);
      if t[k].IsUsed() && t[k].Holds(x - 1) { NotTwice(d, t, k, x - 1); }
    }
  }

  lemma {:induction false} UsedIsLengths(d: Disk, t: seq<Part>, k: nat)
    requires Placed(d, t) && k <= |t| && d.firstUsable <= d.lastUsable + 1
    ensures UsedBelow(d, t, k, d.lastUsable + 1) == Lengths(t[..k])
  {
    hide Placed, Covered;
    if k == 0 {
      NoneUsed(d, t, d.lastUsable + 1);
    } else {
      UsedIsLengths(d, t, k - 1);
      OneMorePart(d, t, k - 1, d.lastUsable + 1);
      assert t[..k][..k - 1] == t[..k - 1] && t[..k][k - 1] == t[k - 1];
      WholePart(d, t, k - 1);
    }
  }

  lemma {:induction false} WholePart(d: Disk, t: seq<Part>, k: nat)
    requires Placed(d, t) && k < |t|
    ensures Part0(d, t[k], d.lastUsable + 1) == if t[k].IsUsed() then t[k].Length() else 0
  {
    hide Placed;
    if t[k].IsUsed() { InRange(d, t, k); }
  }

  lemma {:induction false} NoneUsed(d: Disk, t: seq<Part>, x: int)
    ensures UsedBelow(d, t, 0, x) == 0
    decreases x - d.firstUsable
  {
    if x > d.firstUsable { NoneUsed(d, t, x - 1); }
  }

  lemma {:induction false} FreeStretch(d: Disk, t: seq<Part>, a: int, b: int, free: bool)
    requires a <= b && forall x | a <= x < b :: Free(d, t, x) == free
    ensures FreeBelow(d, t, b) == FreeBelow(d, t, a) + if free then b - a else 0
    decreases b - a
  {
    hide Covered;
    if a < b {
      FreeStretch(d, t, a, b - 1, free);
      assert Free(d, t, b - 1) == free;
      FreeNext(d, t, b);
    }
  }

  lemma {:induction false} FreeNext(d: Disk, t: seq<Part>, x: int)
    ensures FreeBelow(d, t, x) == FreeBelow(d, t, x - 1) + if Free(d, t, x - 1) then 1 else 0
  {
    hide Covered;
    if x <= d.firstUsable { assert FreeBelow(d, t, x - 1) == 0; }
  }

  lemma {:induction false} TotalIsFree(d: Disk, t: seq<Part>, segs: seq<Segment>, k: nat)
    requires AllRuns(d, t, segs) && k <= |segs|
    ensures Total(segs[..k]) == FreeBelow(d, t, if k == 0 then 0 else segs[k - 1].1 + 1)
  {
    hide Free, FreeBelow;
    if k == 0 {
      NoneFree(d, t);
    } else {
      TotalIsFree(d, t, segs, k - 1);
      assert segs[..k][..k - 1] == segs[..k - 1];
      var from := if k == 1 then 0 else segs[k - 2].1 + 1;
      var (a, b) := segs[k - 1];
      assert (a, b) in segs;
      assert Run(d, t, a, b);
      GapIsUsed(d, t, segs, k - 1);
      FreeStretch(d, t, from, a, false);
      FreeStretch(d, t, a, b + 1, true);
    }
  }

  lemma {:induction false} NoneFree(d: Disk, t: seq<Part>)
    ensures FreeBelow(d, t, 0) == 0
  {
  }

  /** Between two listed runs nothing is free. */
  lemma {:induction false} GapIsUsed(d: Disk, t: seq<Part>, segs: seq<Segment>, k: nat)
    requires AllRuns(d, t, segs) && k < |segs|
    ensures var from := if k == 0 then 0 else segs[k - 1].1 + 1;
            from <= segs[k].0 && forall x | from <= x < segs[k].0 :: !Free(d, t, x)
  {
    hide Free, Run;
    forall i | 0 <= i < |segs| ensures 0 <= segs[i].0 <= segs[i].1 { RunStarts(d, t, segs, i); }
    var from := if k == 0 then 0 else segs[k - 1].1 + 1;
    forall x | from <= x < segs[k].0 ensures !Free(d, t, x) {
      if Listed(segs, x) { NotListed(segs, k, x); }
    }
  }

  lemma {:induction false} RunStarts(d: Disk, t: seq<Part>, segs: seq<Segment>, k: nat)
    requires AllRuns(d, t, segs) && k < |segs|
    ensures 0 <= segs[k].0 <= segs[k].1
  {
    var (a, b) := segs[k];
    assert (a, b) in segs;
    assert Run(d, t, a, b) && Free(d, t, a);
  }

  lemma {:induction false} NotListed(segs: seq<Segment>, k: nat, x: int)
    requires (forall i, j | 0 <= i < j < |segs| :: segs[i].1 < segs[j].0) && k < |segs|
    requires forall i | 0 <= i < |segs| :: segs[i].0 <= segs[i].1
    requires (k == 0 || segs[k - 1].1 < x) && x < segs[k].0
    ensures !Listed(segs, x)
  {
    forall i | 0 <= i < |segs| ensures !(segs[i].0 <= x <= segs[i].1) { }
  }

  /** Free-space decomposition: the free segments and the used partitions together make up the usable
      range, sector for sector. */
  lemma {:induction false} Decomposition(d: Disk, t: seq<Part>, segs: seq<Segment>)
    requires Placed(d, t) && AllRuns(d, t, segs) && d.firstUsable <= d.lastUsable + 1
    ensures Total(segs) + Lengths(t) == d.lastUsable + 1 - d.firstUsable
  {
    hide Placed, Free, AllRuns;
    var from := if |segs| == 0 then 0 else segs[|segs| - 1].1 + 1;
    TotalIsFree(d, t, segs, |segs|);
    assert segs[..|segs|] == segs && t[..|t|] == t;
    UsedIsLengths(d, t, |t|);
    FreeAndUsed(d, t, d.lastUsable + 1);
    RestIsUsed(d, t, segs);
    FreeStretch(d, t, from, d.lastUsable + 1, false);
  }

  /** Exactly when the total that is reported and the used partitions make up the usable range: no partition
      that is passed over stands directly behind a free sector. Two sectors in every partition are enough. */
  lemma {:induction false} TotalExact(d: Disk, t: seq<Part>, segs: seq<Segment>)
    requires Placed(d, t) && AllRuns(d, t, segs) && d.firstUsable <= d.lastUsable + 1
    ensures Total(AllSeen(d, t, segs)) + Lengths(t) == d.lastUsable + 1 - d.firstUsable <==> AllMet(d, t)
    ensures TwoSectors(t) ==> Total(AllSeen(d, t, segs)) + Lengths(t) == d.lastUsable + 1 - d.firstUsable
  {
    hide Placed, AllRuns, TwoSectors, AllMet;
    Decomposition(d, t, segs);
    FreeBlocksExact(d, t, segs);
    if TwoSectors(t) { TwoSectorsAllMet(d, t); }
  }

  lemma {:induction false} RestIsUsed(d: Disk, t: seq<Part>, segs: seq<Segment>)
    requires AllRuns(d, t, segs)
    ensures var from := if |segs| == 0 then 0 else segs[|segs| - 1].1 + 1;
            0 <= from <= d.lastUsable + 1 && forall x | x >= from :: !Free(d, t, x)
  {
    hide Run;
    var from := if |segs| == 0 then 0 else segs[|segs| - 1].1 + 1;
    if |segs| > 0 { LastRun(d, t, segs); }
    forall x | x >= from ensures !Free(d, t, x) {
      if Listed(segs, x) { NotListedAbove(segs, x); }
    }
  }

  lemma {:induction false} LastRun(d: Disk, t: seq<Part>, segs: seq<Segment>)
    requires AllRuns(d, t, segs) && |segs| > 0
    ensures 0 <= segs[|segs| - 1].0 <= segs[|segs| - 1].1 <= d.lastUsable
  {
    var (a, b) := segs[|segs| - 1];
    assert (a, b) in segs;
    assert Run(d, t, a, b) && Free(d, t, a) && Free(d, t, b);
  }

  lemma {:induction false} NotListedAbove(segs: seq<Segment>, x: int)
    requires (forall i, j | 0 <= i < j < |segs| :: segs[i].1 < segs[j].0)
    requires |segs| > 0 ==> segs[|segs| - 1].0 <= segs[|segs| - 1].1 < x
    ensures !Listed(segs, x)
  {
    forall i | 0 <= i < |segs| ensures !(segs[i].0 <= x <= segs[i].1) {
      if i < |segs| - 1 { assert segs[i].1 < segs[|segs| - 1].0; }
    }
  }

  /** One-sector partitions can be passed over: one on the last usable sector is, and of two that adjoin the
      lower one is when it comes later in the table, but not when it comes first. */
  lemma {:induction false} OneSectorMissed()
    ensures var d, t := Disk(1, 10), [Part(1, 10, 10, 7)];
            Placed(d, t) && Free(d, t, 1) && !Free(d, t, 10) && LastInFree(d, t, 1, 1) == 10
    ensures var d, t := Disk(1, 10), [Part(1, 6, 8, 1), Part(1, 5, 5, 2)];
            Placed(d, t) && Free(d, t, 1) && !Free(d, t, 5) && LastInFree(d, t, 1, 2) == 5
    ensures var d, t := Disk(1, 10), [Part(1, 5, 5, 2), Part(1, 6, 8, 1)];
            Placed(d, t) && Free(d, t, 1) && !Free(d, t, 5) && LastInFree(d, t, 1, 2) == 4
  {
    MissedLast();
    var d, u, v := Disk(1, 10), [Part(1, 6, 8, 1), Part(1, 5, 5, 2)], [Part(1, 5, 5, 2), Part(1, 6, 8, 1)];
    PlacedPair(d, u);
    PlacedPair(d, v);
    NotCovered(u, 1);
    HeldIsCovered(u, 1, 5);
    NotCovered(v, 1);
    HeldIsCovered(v, 0, 5);
    hide Placed, Covered;
    assert LastInFree(d, u, 1, 0) == 10 && LastInFree(d, v, 1, 0) == 10;
    assert LastInFree(d, u, 1, 1) == 5 && LastInFree(d, v, 1, 1) == 4;
  }

  lemma {:induction false} MissedLast()
    ensures var d, t := Disk(1, 10), [Part(1, 10, 10, 7)];
            Placed(d, t) && Free(d, t, 1) && !Free(d, t, 10) && LastInFree(d, t, 1, 1) == 10
  {
    var t := [Part(1, 10, 10, 7)];
    NotCovered(t, 1);
    HeldIsCovered(t, 0, 10);
    assert LastInFree(Disk(1, 10), t, 1, 0) == 10;
  }

  lemma {:induction false} PlacedPair(d: Disk, t: seq<Part>)
    requires |t| == 2 && d.firstUsable >= 1 && Apart(t[0], t[1])
    requires forall i | 0 <= i < 2 :: t[i].IsUsed() && d.firstUsable <= t[i].first <= t[i].last <= d.lastUsable
    ensures Placed(d, t)
  {
  }
}
