/** Preparing an MBR table for writing: primaries to the first four entries, logicals behind them in disk
    order, and an extended partition that holds the logicals. */
module EbrLayout {
  import opened Sequences
  import opened Sorting
  import opened EbrChain

  // ----- Legal tables.

  predicate Apart(a: Part, b: Part) { a.LastLBA() < b.first || b.LastLBA() < a.first }

  /** The sector before a logical, its boot record, is outside the other partition. */
  predicate RoomBefore(a: Part, b: Part) { a.incl == LOGICAL && b.incl != NONE ==> !(b.first <= a.first - 1 <= b.LastLBA()) }

  predicate Compatible(a: Part, b: Part) { (a.incl != NONE && b.incl != NONE ==> Apart(a, b)) && RoomBefore(a, b) && RoomBefore(b, a) }

  /** An included entry is within 32 bits; only an empty one starts at 0; neither is of an extended type. */
  predicate Fine(p: Part) {
    && (p.incl != NONE ==> p.length >= 1 && p.first >= 2 && p.first + p.length <= WORD)
    && (p.length == 0 <==> p.first == 0)
    && (p.incl != NONE || p.length == 0 ==> !IsExtended(p.kind))
  }

  ghost predicate AllFine(t: seq<Part>) { forall i | 0 <= i < |t| :: Fine(t[i]) }

  predicate IsPrimary(p: Part) { p.incl == PRIMARY }
  predicate IsLogical(p: Part) { p.incl == LOGICAL }

  /** Data to be moved out of the first four entries. */
  predicate Displaced(p: Part) { p.incl != PRIMARY && p.length > 0 }

  predicate Blank(p: Part) { p.incl == NONE && p.length == 0 }

  ghost function Count(f: Part -> bool, t: seq<Part>): nat {
    if t == [] then 0 else Count(f, t[..|t| - 1]) + if f(t[|t| - 1]) then 1 else 0
  }

  /** What the legality test asks for, with room among the later entries for what has to move there. */
  ghost predicate Legal(t: seq<Part>) {
    && |t| == MAX_PARTS && AllFine(t) && Pairwise(Compatible, t)
    && Count(IsPrimary, t) + (if Count(IsLogical, t) > 0 then 1 else 0) <= 4
    && Count(Displaced, t[..4]) <= Count(Blank, t[4..])
  }

  // ----- Counting.

  lemma {:induction false} CountUpdate(f: Part -> bool, t: seq<Part>, i: nat, p: Part)
    requires i < |t|
    ensures Count(f, t[i := p]) == Count(f, t) - (if f(t[i]) then 1 else 0) + (if f(p) then 1 else 0)
  {
    var n := |t| - 1;
    if i < n {
      assert t[i := p][..n] == t[..n][i := p];
      CountUpdate(f, t[..n], i, p);
    } else {
      assert t[i := p][..n] == t[..n];
    }
  }

  lemma {:induction false} CountConcat(f: Part -> bool, s: seq<Part>, t: seq<Part>)
    ensures Count(f, s + t) == Count(f, s) + Count(f, t)
  {
    if t == [] {
      assert s + t == s;
    } else {
      assert (s + t)[..|s + t| - 1] == s + t[..|t| - 1];
      CountConcat(f, s, t[..|t| - 1]);
    }
  }

  lemma {:induction false} CountBounds(f: Part -> bool, t: seq<Part>)
    ensures Count(f, t) <= |t|
    ensures Count(f, t) > 0 <==> exists i :: 0 <= i < |t| && f(t[i])
    ensures Count(f, t) < |t| <==> exists i :: 0 <= i < |t| && !f(t[i])
  {
    if t != [] {
      var n := |t| - 1;
      CountBounds(f, t[..n]);
      assert forall i | 0 <= i < n :: t[..n][i] == t[i];
    }
  }

  // ----- Where entries go.

  /** The entry may be replaced by a primary. */
  predicate Open(p: Part) { p.incl != PRIMARY }

  /** The index of entry number r, counted from 0, among those in [from, end) that satisfy f; `end` if there
      are not so many. */
  ghost function Nth(f: Part -> bool, t: seq<Part>, from: nat, end: nat, r: nat): (i: nat)
    requires from <= end <= |t|
    ensures from <= i <= end && (i < end ==> f(t[i]))
    decreases end - from
  {
    if from == end then end
    else if f(t[from]) then (if r == 0 then from else Nth(f, t, from + 1, end, r - 1))
    else Nth(f, t, from + 1, end, r)
  }

  lemma {:induction false} NthFirst(f: Part -> bool, t: seq<Part>, from: nat, end: nat, j: nat)
    requires from <= j < end <= |t| && f(t[j]) && forall k | from <= k < j :: !f(t[k])
    ensures Nth(f, t, from, end, 0) == j
    decreases end - from
  {
    if from < j { NthFirst(f, t, from + 1, end, j); }
  }

  /** When the first of them no longer is one, the others move up. */
  lemma {:induction false} NthGone(f: Part -> bool, t: seq<Part>, u: seq<Part>, from: nat, end: nat, j: nat, q: nat)
    requires from <= j < end <= |t| == |u| && f(t[j]) && !f(u[j])
    requires (forall k | from <= k < j :: !f(t[k]) && !f(u[k])) && forall k | j < k < end :: f(u[k]) == f(t[k])
    ensures Nth(f, u, from, end, q) == Nth(f, t, from, end, q + 1)
    decreases end - from
  {
    if from < j { NthGone(f, t, u, from + 1, end, j, q); } else { NthSame(f, t, u, from + 1, end, q); }
  }

  lemma {:induction false} NthSame(f: Part -> bool, t: seq<Part>, u: seq<Part>, from: nat, end: nat, q: nat)
    requires from <= end <= |t| == |u| && forall k | from <= k < end :: f(u[k]) == f(t[k])
    ensures Nth(f, u, from, end, q) == Nth(f, t, from, end, q)
    decreases end - from
  {
    if from < end {
      NthSame(f, t, u, from + 1, end, q);
      if q > 0 { NthSame(f, t, u, from + 1, end, q - 1); }
    }
  }

  /** Where the entry comes from that stands at index k < 4 once all displaced data has moved out: displaced
      entries give way to the blank ones behind, in order. */
  ghost function OutFrom(t: seq<Part>, k: nat): nat
    requires k < 4 <= |t|
  {
    if Displaced(t[k]) then Nth(Blank, t, 4, |t|, Count(Displaced, t[..k])) else k
  }

  /** The index of the entry whose place the extended partition takes: primaries from behind take the first
      open places in front, and it the next one. */
  ghost function ReusedIndex(t: seq<Part>): nat
    requires |t| == MAX_PARTS
  {
    var i := Nth(Open, t, 0, 4, Count(IsPrimary, t[4..]));
    if i < 4 then OutFrom(t, i) else i
  }

  /** An entry of this type would remain beside the extended partition. */
  ghost predicate TypeRemains(t: seq<Part>, kind: nat)
    requires |t| == MAX_PARTS
  {
    exists i :: 0 <= i < |t| && i != ReusedIndex(t) && t[i].kind == kind
  }

  // ----- Moving entries.

  ghost function Swap(t: seq<Part>, i: nat, j: nat): (u: seq<Part>)
    requires i < |t| && j < |t|
    ensures |u| == |t|
  {
    t[i := t[j]][j := t[i]]
  }

  lemma {:induction false} SwapBag(t: seq<Part>, i: nat, j: nat)
    requires i < |t| && j < |t|
    ensures multiset(Swap(t, i, j)) == multiset(t)
  {
  }

  lemma {:induction false} SwapCount(f: Part -> bool, t: seq<Part>, i: nat, j: nat)
    requires i < 4 <= j < |t|
    ensures Count(f, Swap(t, i, j)[..4]) == Count(f, t[..4]) - (if f(t[i]) then 1 else 0) + (if f(t[j]) then 1 else 0)
    ensures Count(f, Swap(t, i, j)[4..]) == Count(f, t[4..]) - (if f(t[j]) then 1 else 0) + (if f(t[i]) then 1 else 0)
  {
    assert Swap(t, i, j)[..4] == t[..4][i := t[j]];
    assert Swap(t, i, j)[4..] == t[4..][j - 4 := t[i]];
    CountUpdate(f, t[..4], i, t[j]);
    CountUpdate(f, t[4..], j - 4, t[i]);
  }

  method SwapEntries(t: array<Part>, i: nat, j: nat)
    requires i < t.Length && j < t.Length
    modifies t
    ensures t[..] == Swap(old(t[..]), i, j)
  {
    t[i], t[j] := t[j], t[i];
  }

  /** The first blank entry from 4 on, exchanged with entry i. */
  method MoveOut(t: array<Part>, i: nat) returns (swapped: bool)
    requires t.Length == MAX_PARTS && i < 4 && Count(Blank, t[4..]) > 0
    modifies t
    ensures swapped && var j := Nth(Blank, old(t[..]), 4, MAX_PARTS, 0); j < MAX_PARTS && t[..] == Swap(old(t[..]), i, j)
  {
    hide Count;
    swapped := false;
    var j := 4;
    BlankBehind(t[..]);
    while j < MAX_PARTS && !swapped
      invariant 4 <= j <= MAX_PARTS
      invariant !swapped ==> t[..] == old(t[..]) && forall k | 4 <= k < j :: !Blank(t[k])
      invariant swapped ==> 4 < j && Nth(Blank, old(t[..]), 4, MAX_PARTS, 0) == j - 1 && t[..] == Swap(old(t[..]), i, j - 1)
    {
      if t[j].incl == NONE && t[j].length == 0 {
        NthFirst(Blank, t[..], 4, MAX_PARTS, j);
        SwapEntries(t, i, j);
        swapped := true;
      }
      j := j + 1;
    }
  }

  lemma {:induction false} BlankBehind(t: seq<Part>)
    requires |t| == MAX_PARTS && Count(Blank, t[4..]) > 0
    ensures exists j :: 4 <= j < MAX_PARTS && Blank(t[j])
  {
    CountBounds(Blank, t[4..]);
    var k :| 0 <= k < |t[4..]| && Blank(t[4..][k]);
    assert Blank(t[k + 4]);
  }

  lemma {:induction false} FirstFour(f: Part -> bool, t: seq<Part>, i: nat)
    requires |t| == MAX_PARTS && i < 4 && f(t[i])
    ensures Count(f, t[..4]) > 0
  {
    CountBounds(f, t[..4]);
    assert f(t[..4][i]);
  }

  /** With i entries of the first four done: what they have become, and the blank entries left behind. */
  ghost predicate OutBelow(s: seq<Part>, t: seq<Part>, i: nat)
    requires |s| == |t| == MAX_PARTS && i <= 4
  {
    && (forall k: nat | k < i :: OutFrom(s, k) < MAX_PARTS && t[k] == s[OutFrom(s, k)])
    && (forall k | i <= k < 4 :: t[k] == s[k])
    && (forall k | 4 <= k < MAX_PARTS && Blank(t[k]) :: t[k] == s[k])
    && (forall q: nat :: Nth(Blank, t, 4, MAX_PARTS, q) == Nth(Blank, s, 4, MAX_PARTS, q + Count(Displaced, s[..i])))
  }

  lemma {:induction false} OutStart(s: seq<Part>)
    requires |s| == MAX_PARTS
    ensures OutBelow(s, s, 0)
  {
    hide Nth;
  }

  lemma {:induction false} OutSkip(s: seq<Part>, t: seq<Part>, i: nat)
    requires |s| == |t| == MAX_PARTS && i < 4 && OutBelow(s, t, i) && !Displaced(t[i])
    ensures OutBelow(s, t, i + 1)
  {
    hide Nth;
    assert s[..i + 1][..i] == s[..i];
  }

  lemma {:induction false} OutNext(s: seq<Part>, t: seq<Part>, i: nat, j: nat)
    requires |s| == |t| == MAX_PARTS && i < 4 && OutBelow(s, t, i) && Displaced(t[i])
    requires j == Nth(Blank, t, 4, MAX_PARTS, 0) < MAX_PARTS
    ensures OutBelow(s, Swap(t, i, j), i + 1)
  {
    hide Nth;
    var u := Swap(t, i, j);
    assert s[..i + 1][..i] == s[..i];
    assert Nth(Blank, t, 4, MAX_PARTS, 0) == Nth(Blank, s, 4, MAX_PARTS, 0 + Count(Displaced, s[..i]));
    NthBefore(Blank, t, 4, MAX_PARTS);
    forall q: nat ensures Nth(Blank, u, 4, MAX_PARTS, q) == Nth(Blank, s, 4, MAX_PARTS, q + Count(Displaced, s[..i + 1])) {
      NthGone(Blank, t, u, 4, MAX_PARTS, j, q);
      assert Nth(Blank, t, 4, MAX_PARTS, q + 1) == Nth(Blank, s, 4, MAX_PARTS, q + 1 + Count(Displaced, s[..i]));
    }
  }

  /** None stands before the first. */
  lemma {:induction false} NthBefore(f: Part -> bool, t: seq<Part>, from: nat, end: nat)
    requires from <= end <= |t|
    ensures forall k | from <= k < Nth(f, t, from, end, 0) :: !f(t[k])
    decreases end - from
  {
    if from < end { NthBefore(f, t, from + 1, end); }
  }

  method RemoveLogicalsFromFirstFour(t: array<Part>) returns (numMoved: nat)
    requires t.Length == MAX_PARTS && Count(Displaced, t[..4]) <= Count(Blank, t[4..])
    modifies t
    ensures multiset(t[..]) == multiset(old(t[..]))
    ensures forall i | 0 <= i < 4 :: !Displaced(t[i])
    ensures OutBelow(old(t[..]), t[..], 4) && Count(IsPrimary, t[4..]) == Count(IsPrimary, old(t[4..]))
    ensures numMoved == Count(Displaced, old(t[..4]))
  {
    hide Count, OutBelow, Nth;
    numMoved := 0;
    ghost var s0 := t[..];
    OutStart(s0);
    for i := 0 to 4
      invariant multiset(t[..]) == multiset(old(t[..])) && Count(Displaced, t[..4]) <= Count(Blank, t[4..])
      invariant numMoved + Count(Displaced, t[..4]) == Count(Displaced, s0[..4])
      invariant forall k | 0 <= k < i :: !Displaced(t[k])
      invariant OutBelow(s0, t[..], i) && Count(IsPrimary, t[4..]) == Count(IsPrimary, s0[4..])
    {
      if t[i].incl != PRIMARY && t[i].length > 0 {
        ghost var s := t[..];
        FirstFour(Displaced, s, i);
        var swapped := MoveOut(t, i);
        ghost var j := Nth(Blank, s, 4, MAX_PARTS, 0);
        SwapBag(s, i, j);
        SwapCount(Displaced, s, i, j);
        SwapCount(Blank, s, i, j);
        SwapCount(IsPrimary, s, i, j);
        OutNext(s0, s, i, j);
        numMoved := numMoved + 1;
      } else {
        OutSkip(s0, t[..], i);
      }
    }
    CountBounds(Displaced, t[..4]);
  }

  /** The first entry of the first four that is no primary, exchanged with entry i. */
  method MoveIn(t: array<Part>, i: nat) returns (swapped: bool)
    requires t.Length == MAX_PARTS && 4 <= i < MAX_PARTS && Count(IsPrimary, t[..4]) < 4
    modifies t
    ensures swapped && var j := Nth(Open, old(t[..]), 0, 4, 0); j < 4 && t[..] == Swap(old(t[..]), j, i)
  {
    hide Count;
    swapped := false;
    var j := 0;
    RoomInFront(t[..]);
    while j < 4 && !swapped
      invariant 0 <= j <= 4
      invariant !swapped ==> t[..] == old(t[..]) && forall k | 0 <= k < j :: IsPrimary(t[k])
      invariant swapped ==> 0 < j && Nth(Open, old(t[..]), 0, 4, 0) == j - 1 && t[..] == Swap(old(t[..]), j - 1, i)
    {
      if t[j].incl != PRIMARY {
        NthFirst(Open, t[..], 0, 4, j);
        SwapEntries(t, j, i);
        swapped := true;
      }
      j := j + 1;
    }
  }

  lemma {:induction false} RoomInFront(t: seq<Part>)
    requires |t| == MAX_PARTS && Count(IsPrimary, t[..4]) < 4
    ensures exists j :: 0 <= j < 4 && !IsPrimary(t[j])
  {
    CountBounds(IsPrimary, t[..4]);
    var k :| 0 <= k < 4 && !IsPrimary(t[..4][k]);
    assert !IsPrimary(t[k]);
  }

  lemma {:induction false} PrimaryBehind(t: seq<Part>, i: nat)
    requires |t| == MAX_PARTS && 4 <= i < MAX_PARTS && IsPrimary(t[i]) && Count(IsPrimary, t) <= 4
    ensures Count(IsPrimary, t[..4]) < 4
  {
    assert t == t[..4] + t[4..];
    CountConcat(IsPrimary, t[..4], t[4..]);
    CountBounds(IsPrimary, t[4..]);
    assert IsPrimary(t[4..][i - 4]);
  }

  lemma {:induction false} SwapTotal(f: Part -> bool, t: seq<Part>, i: nat, j: nat)
    requires i < 4 <= j < |t|
    ensures Count(f, Swap(t, i, j)) == Count(f, t)
  {
    var u := Swap(t, i, j);
    assert t == t[..4] + t[4..] && u == u[..4] + u[4..];
    SwapCount(f, t, i, j);
    CountConcat(f, t[..4], t[4..]);
    CountConcat(f, u[..4], u[4..]);
  }

  lemma {:induction false} MovedIn(t: seq<Part>, j: nat, i: nat)
    requires j < 4 <= i < |t| && IsPrimary(t[i]) && !IsPrimary(t[j]) && forall k | 0 <= k < 4 :: !Displaced(t[k])
    ensures var u := Swap(t, j, i);
            && (forall k | 0 <= k < 4 :: !Displaced(u[k])) && u[i].incl != PRIMARY
            && forall k | 4 <= k < |t| && k != i :: u[k] == t[k]
  {
  }

  /** With the entries behind done up to i: the open places left in front, and the entries still to come. */
  ghost predicate InBelow(s: seq<Part>, t: seq<Part>, i: nat)
    requires |s| == |t| == MAX_PARTS && 4 <= i <= MAX_PARTS
  {
    && (forall k | 0 <= k < 4 && Open(t[k]) :: t[k] == s[k])
    && (forall k | i <= k < MAX_PARTS :: t[k] == s[k])
    && (forall q: nat :: Nth(Open, t, 0, 4, q) == Nth(Open, s, 0, 4, q + Count(IsPrimary, s[4..i])))
  }

  lemma {:induction false} InStart(s: seq<Part>)
    requires |s| == MAX_PARTS
    ensures InBelow(s, s, 4)
  {
    hide Nth;
  }

  lemma {:induction false} InSkip(s: seq<Part>, t: seq<Part>, i: nat)
    requires |s| == |t| == MAX_PARTS && 4 <= i < MAX_PARTS && InBelow(s, t, i) && !IsPrimary(t[i])
    ensures InBelow(s, t, i + 1)
  {
    hide Nth;
    assert s[4..i + 1][..i - 4] == s[4..i];
  }

  lemma {:induction false} InNext(s: seq<Part>, t: seq<Part>, i: nat, j: nat)
    requires |s| == |t| == MAX_PARTS && 4 <= i < MAX_PARTS && InBelow(s, t, i) && IsPrimary(t[i])
    requires j == Nth(Open, t, 0, 4, 0) < 4
    ensures InBelow(s, Swap(t, j, i), i + 1)
  {
    hide Nth;
    var u := Swap(t, j, i);
    assert s[4..i + 1][..i - 4] == s[4..i];
    NthBefore(Open, t, 0, 4);
    forall q: nat ensures Nth(Open, u, 0, 4, q) == Nth(Open, s, 0, 4, q + Count(IsPrimary, s[4..i + 1])) {
      NthGone(Open, t, u, 0, 4, j, q);
      assert Nth(Open, t, 0, 4, q + 1) == Nth(Open, s, 0, 4, q + 1 + Count(IsPrimary, s[4..i]));
    }
  }

  method MovePrimariesToFirstFour(t: array<Part>) returns (numMoved: nat)
    requires t.Length == MAX_PARTS && Count(IsPrimary, t[..]) <= 4 && forall i | 0 <= i < 4 :: !Displaced(t[i])
    modifies t
    ensures multiset(t[..]) == multiset(old(t[..])) && Count(IsPrimary, t[..]) == Count(IsPrimary, old(t[..]))
    ensures forall i | 0 <= i < 4 :: !Displaced(t[i])
    ensures forall i | 4 <= i < MAX_PARTS :: t[i].incl != PRIMARY
    ensures InBelow(old(t[..]), t[..], MAX_PARTS) && numMoved == Count(IsPrimary, old(t[4..]))
  {
    hide Count, Swap, InBelow, Nth;
    numMoved := 0;
    ghost var s0 := t[..];
    InStart(s0);
    CountBounds(IsPrimary, s0[4..4]);
    for i := 4 to MAX_PARTS
      invariant multiset(t[..]) == multiset(old(t[..])) && Count(IsPrimary, t[..]) == Count(IsPrimary, old(t[..]))
      invariant forall k | 0 <= k < 4 :: !Displaced(t[k])
      invariant forall k | 4 <= k < i :: t[k].incl != PRIMARY
      invariant InBelow(s0, t[..], i) && numMoved == Count(IsPrimary, s0[4..i])
    {
      CountedNext(s0, t[..], i);
      if t[i].incl == PRIMARY {
        ghost var s := t[..];
        PrimaryBehind(s, i);
        var swapped := MoveIn(t, i);
        ghost var j := Nth(Open, s, 0, 4, 0);
        SwapBag(s, j, i);
        SwapTotal(IsPrimary, s, j, i);
        MovedIn(s, j, i);
        InNext(s0, s, i, j);
        numMoved := numMoved + 1;
      } else {
        InSkip(s0, t[..], i);
      }
    }
    assert s0[4..MAX_PARTS] == s0[4..];
  }

  lemma {:induction false} CountedNext(s: seq<Part>, t: seq<Part>, i: nat)
    requires |s| == |t| == MAX_PARTS && 4 <= i < MAX_PARTS && InBelow(s, t, i)
    ensures Count(IsPrimary, s[4..i + 1]) == Count(IsPrimary, s[4..i]) + if IsPrimary(t[i]) then 1 else 0
  {
    hide Nth;
    assert s[4..i + 1][..i - 4] == s[4..i] && t[i] == s[i];
  }

  /** Once all entries are in place, the first open entry in front is the one the extended partition takes. */
  ghost predicate SlotKept(s: seq<Part>, t: seq<Part>)
    requires |s| == |t| == MAX_PARTS
  {
    var k := Nth(Open, t, 0, 4, 0);
    k < 4 ==> ReusedIndex(s) < MAX_PARTS && t[k] == s[ReusedIndex(s)]
  }

  lemma {:induction false} SlotTraced(s: seq<Part>, t: seq<Part>, u: seq<Part>)
    requires |s| == |t| == |u| == MAX_PARTS && OutBelow(s, t, 4) && InBelow(t, u, MAX_PARTS)
    requires Count(IsPrimary, t[4..]) == Count(IsPrimary, s[4..]) && forall k | 0 <= k < 4 :: !Displaced(t[k])
    ensures SlotKept(s, u)
  {
    hide Nth, Count;
    var m := Count(IsPrimary, s[4..]);
    assert t[4..MAX_PARTS] == t[4..];
    assert Nth(Open, u, 0, 4, 0) == Nth(Open, t, 0, 4, 0 + Count(IsPrimary, t[4..MAX_PARTS]));
    forall k: nat | k < 4 ensures Open(t[k]) == Open(s[k]) { OutOpen(s, t, k); }
    NthSame(Open, s, t, 0, 4, m);
    var k := Nth(Open, u, 0, 4, 0);
    if k < 4 { assert OutFrom(s, k) < MAX_PARTS; }
  }

  lemma {:induction false} OutOpen(s: seq<Part>, t: seq<Part>, k: nat)
    requires |s| == |t| == MAX_PARTS && OutBelow(s, t, 4) && k < 4
    ensures Open(t[k]) == Open(s[k])
  {
    hide Nth, Count;
    assert OutFrom(s, k) < MAX_PARTS;
  }

  // ----- Sorting the logicals.

  /** The order of the table: by start, entries without length last. */
  predicate Less(a: Part, b: Part) { if a.length > 0 && b.length > 0 then a.first < b.first else b.first < a.first }

  lemma {:induction false} LessOrders(t: seq<Part>)
    requires forall i | 0 <= i < |t| :: Fine(t[i])
    ensures Orders(Less, t)
  {
  }

  lemma {:induction false} TailBag(t: seq<Part>, u: seq<Part>, k: nat)
    requires k <= |t| && u[..] == t[..k] + Sorted(Less, t[k..]) && Orders(Less, t[k..])
    ensures multiset(u) == multiset(t)
  {
    SortedOk(Less, t[k..]);
    assert t == t[..k] + t[k..];
  }

  /** SortMBR */
  method SortMBR(t: array<Part>, start: nat)
    requires start <= t.Length && AllFine(t[..])
    modifies t
    ensures multiset(t[..]) == multiset(old(t[..])) && t[..start] == old(t[..start])
    ensures InOrder(Less, t[start..])
  {
    hide Sorted, InOrder, Orders, Less;
    ghost var s := t[..];
    LessOrders(t[start..]);
    SortedOk(Less, t[start..]);
    var u := Sorted(Less, t[start..]);
    forall i | start <= i < t.Length {
      t[i] := u[i - start];
    }
    assert t[start..] == u;
    assert t[..] == t[..start] + t[start..];
    TailBag(s, t[..], start);
  }

  // ----- The logicals of a table.

  /** Included entries from 4 on are logicals, in disk order with a sector between them. */
  ghost predicate Ready(t: seq<Part>) {
    && |t| == MAX_PARTS
    && (forall i | 4 <= i < |t| && t[i].incl != NONE :: t[i].incl == LOGICAL && Fine(t[i]))
    && (forall i, j | 4 <= i < j < |t| && t[i].incl != NONE && t[j].incl != NONE :: t[i].first + t[i].length < t[j].first)
  }

  lemma {:induction false} SortedIsReady(t: seq<Part>)
    requires |t| == MAX_PARTS && AllFine(t) && Pairwise(Compatible, t) && InOrder(Less, t[4..])
    requires forall i | 4 <= i < MAX_PARTS :: t[i].incl != PRIMARY
    ensures Ready(t)
  {
    forall i, j | 4 <= i < j < |t| && t[i].incl != NONE && t[j].incl != NONE ensures t[i].first + t[i].length < t[j].first {
      assert Compatible(t[i], t[j]);
      assert t[4..][i - 4] == t[i] && t[4..][j - 4] == t[j];
      assert !Less(t[j], t[i]);
    }
  }

  lemma {:induction false} InUseMember(t: seq<Part>, i: nat, x: Part) returns (k: nat)
    requires i <= |t| && x in InUse(t, i)
    ensures i <= k < |t| && t[k] == x && x.incl != NONE
    decreases |t| - i
  {
    if t[i].incl != NONE && x == t[i] { k := i; } else { k := InUseMember(t, i + 1, x); }
  }

  lemma {:induction false} ReadyChainable(t: seq<Part>, i: nat)
    requires Ready(t) && 4 <= i <= |t|
    ensures Chainable(InUse(t, i))
    decreases |t| - i
  {
    hide Ready;
    if i < |t| {
      ReadyChainable(t, i + 1);
      if t[i].incl != NONE {
        ReadyAt(t, i, i);
        forall x | x in InUse(t, i + 1) ensures t[i].first + t[i].length < x.first {
          var k := InUseMember(t, i + 1, x);
          ReadyAt(t, i, k);
        }
        ConsChainable(t[i], InUse(t, i + 1));
      }
    }
  }

  lemma {:induction false} ReadyAt(t: seq<Part>, i: nat, k: nat)
    requires Ready(t) && 4 <= i <= k < |t| && t[i].incl != NONE && t[k].incl != NONE
    ensures t[i].incl == LOGICAL && Fine(t[i]) && (i < k ==> t[i].first + t[i].length < t[k].first)
  {
  }

  lemma {:induction false} ConsChainable(p: Part, ps: seq<Part>)
    requires Chainable(ps) && p.incl == LOGICAL && Fine(p) && forall x | x in ps :: p.first + p.length < x.first
    ensures Chainable([p] + ps)
  {
    var qs := [p] + ps;
    forall i, j | 0 <= i < j < |qs| ensures qs[i].first + qs[i].length < qs[j].first {
      assert qs[j] == ps[j - 1] && ps[j - 1] in ps;
    }
  }

  /** InUse lists the included entries, as often as they occur. */
  lemma {:induction false} InUseBag(t: seq<Part>, i: nat, p: Part)
    requires i <= |t| && p.incl != NONE
    ensures multiset(InUse(t, i))[p] == multiset(t[i..])[p]
    decreases |t| - i
  {
    if i < |t| {
      InUseBag(t, i + 1, p);
      assert t[i..] == [t[i]] + t[i + 1..];
    }
  }

  // ----- The extended partition.

  method FirstLogicalLBA(t: array<Part>) returns (first: nat)
    ensures forall i | 0 <= i < t.Length && t[i].incl == LOGICAL :: first <= t[i].first
    ensures first == WORD - 1 || exists i :: 0 <= i < t.Length && t[i].incl == LOGICAL && t[i].first == first
  {
    first := WORD - 1;
    for i := 0 to t.Length
      invariant forall k | 0 <= k < i && t[k].incl == LOGICAL :: first <= t[k].first
      invariant first == WORD - 1 || exists k :: 0 <= k < i && t[k].incl == LOGICAL && t[k].first == first
    {
      if t[i].incl == LOGICAL && t[i].first < first {
        first := t[i].first;
      }
    }
  }

  method LastLogicalLBA(t: array<Part>) returns (last: nat)
    ensures forall i | 0 <= i < t.Length && t[i].incl == LOGICAL :: t[i].LastLBA() <= last
    ensures last == 0 || exists i :: 0 <= i < t.Length && t[i].incl == LOGICAL && t[i].LastLBA() == last
  {
    last := 0;
    for i := 0 to t.Length
      invariant forall k | 0 <= k < i && t[k].incl == LOGICAL :: t[k].LastLBA() <= last
      invariant last == 0 || exists k :: 0 <= k < i && t[k].incl == LOGICAL && t[k].LastLBA() == last
    {
      if t[i].incl == LOGICAL && t[i].LastLBA() > last {
        last := t[i].LastLBA();
      }
    }
  }

  method NumLogicals(t: array<Part>) returns (num: nat)
    ensures num == Count(IsLogical, t[..])
  {
    num := 0;
    for i := 0 to t.Length
      invariant num == Count(IsLogical, t[..i])
    {
      assert t[..i + 1][..i] == t[..i];
      if t[i].incl == LOGICAL {
        num := num + 1;
      }
    }
    assert t[..t.Length] == t[..];
  }

  lemma {:induction false} LegalKept(t: seq<Part>, u: seq<Part>)
    requires AllFine(t) && Pairwise(Compatible, t) && multiset(t) == multiset(u)
    ensures AllFine(u) && Pairwise(Compatible, u) && |u| == |t|
  {
    hide Pairwise, Fine;
    BagMembers(t, u);
    PairwisePermuted(Compatible, t, u);
    assert |multiset(t)| == |t| && |multiset(u)| == |u|;
    forall i | 0 <= i < |u| ensures Fine(u[i]) { assert u[i] in t; }
  }

  /** The table rearranged for writing: no data but primaries in front, no primary behind, and, when there
      are logicals, these in disk order. */
  ghost predicate Arranged(t: seq<Part>) {
    && Ready(t) && AllFine(t) && Pairwise(Compatible, t) && Count(IsPrimary, t) + (if Count(IsLogical, t) > 0 then 1 else 0) <= 4
    && (forall i | 0 <= i < 4 :: !Displaced(t[i]))
  }

  method Arrange(t: array<Part>) returns (logicals: nat)
    requires t.Length == MAX_PARTS && Legal(t[..])
    modifies t
    ensures Arranged(t[..]) && multiset(t[..]) == multiset(old(t[..])) && logicals == Count(IsLogical, t[..])
    ensures SlotKept(old(t[..]), t[..])
  {
    hide Count, Pairwise, AllFine, Ready, InOrder, Displaced, Legal, OutBelow, InBelow, SlotKept, Nth;
    ghost var s := t[..];
    LegalFacts(s);
    var moved := RemoveLogicalsFromFirstFour(t);
    CountBag(IsPrimary, s, t[..]);
    CountBag(IsLogical, s, t[..]);
    ghost var out := t[..];
    moved := MovePrimariesToFirstFour(t);
    SlotTraced(s, out, t[..]);
    LegalKept(s, t[..]);
    CountBag(IsPrimary, s, t[..]);
    CountBag(IsLogical, s, t[..]);
    logicals := NumLogicals(t);
    ghost var u := t[..];
    if logicals > 0 {
      SortMBR(t, 4);
      LegalKept(u, t[..]);
      CountBag(IsPrimary, u, t[..]);
      CountBag(IsLogical, u, t[..]);
      SameFront(u, t[..]);
      TailKept(u, t[..]);
      SortedIsReady(t[..]);
      SlotSorted(s, u, t[..]);
    } else {
      NoneBehind(u);
    }
  }

  lemma {:induction false} SlotSorted(s: seq<Part>, t: seq<Part>, u: seq<Part>)
    requires |s| == |t| == |u| == MAX_PARTS && SlotKept(s, t) && t[..4] == u[..4]
    ensures SlotKept(s, u)
  {
    hide Nth, ReusedIndex;
    forall k | 0 <= k < 4 ensures t[k] == u[k] { assert t[..4][k] == u[..4][k]; }
    NthSame(Open, t, u, 0, 4, 0);
  }

  lemma {:induction false} LegalFacts(t: seq<Part>)
    requires Legal(t)
    ensures AllFine(t) && Pairwise(Compatible, t) && Count(IsPrimary, t) <= 4 && Count(Displaced, t[..4]) <= Count(Blank, t[4..])
    ensures Count(IsPrimary, t) + (if Count(IsLogical, t) > 0 then 1 else 0) <= 4
  {
    hide AllFine, Pairwise, Count;
  }

  lemma {:induction false} CountOne(f: Part -> bool, t: seq<Part>, i: nat)
    requires i < |t|
    ensures Count(f, t) == Count(f, t[..i] + t[i + 1..]) + if f(t[i]) then 1 else 0
  {
    assert t == t[..i] + ([t[i]] + t[i + 1..]);
    CountConcat(f, t[..i], [t[i]] + t[i + 1..]);
    CountConcat(f, [t[i]], t[i + 1..]);
    CountConcat(f, t[..i], t[i + 1..]);
    assert [t[i]][..0] == [];
    assert Count(f, [t[i]]) == Count(f, []) + if f(t[i]) then 1 else 0;
  }

  lemma {:induction false} RemoveBag(t: seq<Part>, i: nat)
    requires i < |t|
    ensures multiset(t[..i] + t[i + 1..]) == multiset(t) - multiset{t[i]}
  {
    assert t == t[..i] + [t[i]] + t[i + 1..];
  }

  lemma {:induction false} Tail(t: seq<Part>)
    requires t != []
    ensures multiset(t[1..]) == multiset(t) - multiset{t[0]} && t[..0] + t[1..] == t[1..]
  {
    assert t == [t[0]] + t[1..];
  }

  lemma {:induction false} Whereabouts(t: seq<Part>, u: seq<Part>) returns (i: nat)
    requires multiset(t) == multiset(u) && t != []
    ensures i < |u| && u[i] == t[0]
  {
    BagMembers(t, u);
    assert t[0] in u;
    i :| 0 <= i < |u| && u[i] == t[0];
  }

  lemma {:induction false} CountBag(f: Part -> bool, t: seq<Part>, u: seq<Part>)
    requires multiset(t) == multiset(u)
    ensures Count(f, t) == Count(f, u)
    decreases |t|
  {
    hide Count;
    if t == [] {
      assert |multiset(t)| == 0 && |multiset(u)| == |u|;
    } else {
      var i := Whereabouts(t, u);
      Tail(t);
      RemoveBag(u, i);
      CountBag(f, t[1..], u[..i] + u[i + 1..]);
      CountOne(f, t, 0);
      CountOne(f, u, i);
    }
  }

  lemma {:induction false} SameFront(t: seq<Part>, u: seq<Part>)
    requires |t| >= 4 && |u| >= 4 && t[..4] == u[..4] && forall i | 0 <= i < 4 :: !Displaced(t[i])
    ensures forall i | 0 <= i < 4 :: !Displaced(u[i])
  {
    hide Displaced;
    forall i | 0 <= i < 4 ensures u[i] == t[i] { assert t[..4][i] == u[..4][i]; }
  }

  /** Sorting the tail brings no primary into it. */
  lemma {:induction false} TailKept(t: seq<Part>, u: seq<Part>)
    requires |t| == |u| == MAX_PARTS && t[..4] == u[..4] && multiset(t) == multiset(u)
    requires forall i | 4 <= i < MAX_PARTS :: t[i].incl != PRIMARY
    ensures forall i | 4 <= i < MAX_PARTS :: u[i].incl != PRIMARY
  {
    assert t == t[..4] + t[4..] && u == u[..4] + u[4..];
    assert multiset(t[4..]) == multiset(t) - multiset(t[..4]);
    assert multiset(u[4..]) == multiset(u) - multiset(u[..4]);
    BagMembers(t[4..], u[4..]);
    forall i | 4 <= i < MAX_PARTS ensures u[i].incl != PRIMARY { assert u[4..][i - 4] in u[4..]; }
  }

  lemma {:induction false} NoneBehind(t: seq<Part>)
    requires |t| == MAX_PARTS && Count(IsLogical, t) == 0 && forall i | 4 <= i < MAX_PARTS :: t[i].incl != PRIMARY
    ensures Ready(t)
  {
    CountBounds(IsLogical, t);
    forall i | 4 <= i < MAX_PARTS ensures t[i].incl == NONE { assert !IsLogical(t[i]); }
  }

  /** The extended partition goes into the first of the first four entries that is unused. */
  method PlaceExtended(t: array<Part>, temp: Part) returns (swapped: bool, ghost k: nat)
    requires t.Length == MAX_PARTS && Arranged(t[..]) && Count(IsLogical, t[..]) > 0
    modifies t
    ensures swapped && k < 4 && old(t[k]).length == 0 && t[..] == old(t[..])[k := temp]
    ensures k == Nth(Open, old(t[..]), 0, 4, 0)
  {
    hide Count, Ready, AllFine, Pairwise, Arranged, Nth;
    SlotInFront(t[..]);
    swapped, k := false, 0;
    var i := 0;
    while i < 4 && !swapped
      invariant 0 <= i <= 4
      invariant !swapped ==> t[..] == old(t[..]) && forall j | 0 <= j < i :: !(t[j].incl == NONE || t[j].length == 0)
      invariant swapped ==> k < 4 && old(t[k]).length == 0 && t[..] == old(t[..])[k := temp] && k == Nth(Open, old(t[..]), 0, 4, 0)
    {
      if t[i].incl == NONE || t[i].length == 0 {
        SlotIsBlank(t[..], i);
        SlotIsFirst(t[..], i);
        k := i;
        t[i] := temp;
        swapped := true;
      }
      i := i + 1;
    }
  }

  lemma {:induction false} SlotInFront(t: seq<Part>)
    requires Arranged(t) && Count(IsLogical, t) > 0
    ensures |t| == MAX_PARTS && exists j :: 0 <= j < 4 && (t[j].incl == NONE || t[j].length == 0)
  {
    hide Pairwise;
    assert t == t[..4] + t[4..];
    CountConcat(IsPrimary, t[..4], t[4..]);
    CountBounds(IsPrimary, t[..4]);
    var j :| 0 <= j < 4 && !IsPrimary(t[..4][j]);
    assert !Displaced(t[j]);
  }

  lemma {:induction false} SlotIsBlank(t: seq<Part>, i: nat)
    requires Arranged(t) && i < 4 && |t| == MAX_PARTS && (t[i].incl == NONE || t[i].length == 0)
    ensures t[i].length == 0
  {
    hide Pairwise, Count;
    assert !Displaced(t[i]);
  }

  lemma {:induction false} SlotIsFirst(t: seq<Part>, i: nat)
    requires Arranged(t) && i < 4 && |t| == MAX_PARTS && (t[i].incl == NONE || t[i].length == 0)
    requires forall j | 0 <= j < i :: !(t[j].incl == NONE || t[j].length == 0)
    ensures Nth(Open, t, 0, 4, 0) == i
  {
    hide Pairwise, Count, Nth;
    forall j | 0 <= j < i ensures !Open(t[j]) { assert !Displaced(t[j]); }
    assert Fine(t[i]);
    NthFirst(Open, t, 0, 4, i);
  }

  /** InUse depends on the entries from i on only. */
  lemma {:induction false} InUseSame(t: seq<Part>, u: seq<Part>, i: nat)
    requires |t| == |u| && forall k | i <= k < |t| :: t[k] == u[k]
    ensures InUse(t, i) == InUse(u, i)
    decreases |t| - i
  {
    if i < |t| { InUseSame(t, u, i + 1); }
  }

  /** The entries of t are those of s, but that p takes the place of an empty one: the one that ReusedIndex
      gives. */
  ghost predicate Replaces(s: seq<Part>, t: seq<Part>, p: Part)
    requires |s| == MAX_PARTS
  {
    var i := ReusedIndex(s);
    i < MAX_PARTS && s[i].length == 0 && multiset(t) == multiset(s) - multiset{s[i]} + multiset{p}
  }

  lemma {:induction false} SlotReplaced(s: seq<Part>, a: seq<Part>, k: nat, p: Part)
    requires |s| == |a| == MAX_PARTS && multiset(a) == multiset(s) && SlotKept(s, a) && k == Nth(Open, a, 0, 4, 0) < 4 && a[k].length == 0
    ensures Replaces(s, a[k := p], p)
  {
    hide Nth, ReusedIndex;
    assert a == a[..k] + [a[k]] + a[k + 1..] && a[k := p] == a[..k] + [p] + a[k + 1..];
  }

  /** CreateExtended, on a legal table: the logicals stand in order from entry 4 on, and one of the first
      four entries is an extended partition from the sector before the first logical to the end of the
      last. It fails exactly when it has put an extended partition beside an EFI GPT partition. */
  method CreateExtended(t: array<Part>) returns (ok: bool, swapped: bool, ghost k: nat)
    requires t.Length == MAX_PARTS && Legal(t[..])
    modifies t
    ensures Chainable(InUse(t[..], 4)) && (swapped <==> InUse(t[..], 4) != []) && (swapped ==> k < 4)
    ensures ok <==> !(swapped && HasType(t[..], EFI_GPT))
    ensures ok <==> !(swapped && TypeRemains(old(t[..]), EFI_GPT))
    ensures swapped && HasDataOfType(old(t[..]), EFI_GPT) ==> !ok
    ensures !ok ==> HasType(old(t[..]), EFI_GPT)
    ensures forall p: Part | p.incl == LOGICAL :: multiset(InUse(t[..], 4))[p] == multiset(old(t[..]))[p]
    ensures swapped ==> Holds(t[k], InUse(t[..], 4)) && forall i | 0 <= i < 4 && i != k :: t[i].kind != EXTENDED
    ensures !swapped ==> forall i | 0 <= i < 4 :: t[i].kind != EXTENDED
    ensures if swapped then Replaces(old(t[..]), t[..], t[k]) else multiset(t[..]) == multiset(old(t[..]))
  {
    hide Count, Ready, AllFine, Pairwise, Legal, Arranged, InUse, Chainable, Holds, SlotKept, Nth, TypeRemains, Replaces;
    ghost var s := t[..];
    var logicals := Arrange(t);
    ghost var a := t[..];
    swapped, k := false, 0;
    ArrangedFacts(s, a);
    if logicals > 0 {
      var first := FirstLogicalLBA(t);
      var last := LastLogicalLBA(t);
      LogicalEnds(a, first, last);
      swapped, k := PlaceExtended(t, Part(EXTENDED, first - 1, last - first + 2, PRIMARY));
      InUseSame(a, t[..], 4);
      SlotReplaced(s, a, k, Part(EXTENDED, first - 1, last - first + 2, PRIMARY));
      TypesKept(s, a, k, Part(EXTENDED, first - 1, last - first + 2, PRIMARY), EFI_GPT);
      TypesExact(s, a, k, Part(EXTENDED, first - 1, last - first + 2, PRIMARY), EFI_GPT);
    }
    ok := true;
    for i := 0 to MAX_PARTS
      invariant ok <==> !(swapped && exists j :: 0 <= j < i && t[..][j].kind == EFI_GPT)
    {
      if swapped && t[i].kind == EFI_GPT {
        ok := false;
      }
    }
  }

  ghost predicate HasType(t: seq<Part>, kind: nat) { exists i :: 0 <= i < |t| && t[i].kind == kind }

  ghost predicate HasDataOfType(t: seq<Part>, kind: nat) { exists i :: 0 <= i < |t| && t[i].kind == kind && t[i].length > 0 }

  /** Rearranging the table and reusing an empty entry keeps every partition's type and adds only that of
      the new entry. */
  lemma {:induction false} TypesKept(s: seq<Part>, t: seq<Part>, k: nat, p: Part, kind: nat)
    requires multiset(s) == multiset(t) && k < |t| && t[k].length == 0 && p.kind != kind
    ensures HasDataOfType(s, kind) ==> HasType(t[k := p], kind)
    ensures HasType(t[k := p], kind) ==> HasType(s, kind)
  {
    if HasDataOfType(s, kind) {
      var i :| 0 <= i < |s| && s[i].kind == kind && s[i].length > 0;
      assert s[i] in multiset(s);
      var j :| 0 <= j < |t| && t[j] == s[i];
      assert t[k := p][j].kind == kind;
    }
    if HasType(t[k := p], kind) {
      var j :| 0 <= j < |t| && t[k := p][j].kind == kind;
      assert t[j] in multiset(t);
      assert t[j] in multiset(s);
    }
  }

  /** Which types are left, exactly: those of all entries but the one whose place is taken. */
  lemma {:induction false} TypesExact(s: seq<Part>, t: seq<Part>, k: nat, p: Part, kind: nat)
    requires |s| == |t| == MAX_PARTS && multiset(s) == multiset(t) && SlotKept(s, t) && k == Nth(Open, t, 0, 4, 0) < 4 && p.kind != kind
    ensures HasType(t[k := p], kind) <==> TypeRemains(s, kind)
  {
    hide Nth, ReusedIndex, RemoveAt;
    var r := ReusedIndex(s);
    RemoveAtBag(s, r);
    RemoveAtBag(t, k);
    assert multiset(RemoveAt(s, r)) == multiset(s) - multiset{s[r]};
    assert multiset(RemoveAt(t, k)) == multiset(t) - multiset{t[k]};
    BagMembers(RemoveAt(s, r), RemoveAt(t, k));
    if HasType(t[k := p], kind) {
      var j :| 0 <= j < |t| && t[k := p][j].kind == kind;
      var i := FoundAfter(t, k, j, s, r);
    }
    if TypeRemains(s, kind) {
      var j :| 0 <= j < |s| && j != r && s[j].kind == kind;
      var i := FoundAfter(s, r, j, t, k);
      assert t[k := p][i].kind == kind;
    }
  }

  lemma {:induction false} FoundAfter(t: seq<Part>, k: nat, j: nat, s: seq<Part>, r: nat) returns (i: nat)
    requires k < |t| && j < |t| && j != k && r < |s| && forall x :: x in RemoveAt(s, r) <==> x in RemoveAt(t, k)
    ensures i < |s| && i != r && s[i] == t[j]
  {
    var j' := if j < k then j else j - 1;
    RemoveAtElement(t, k, j');
    assert t[j] in RemoveAt(t, k);
    var i' :| 0 <= i' < |RemoveAt(s, r)| && RemoveAt(s, r)[i'] == t[j];
    RemoveAtElement(s, r, i');
    i := Skip(r, i');
  }

  /** p is the extended partition for these logicals. */
  ghost predicate Holds(p: Part, ps: seq<Part>) {
    ps != [] && p.kind == EXTENDED && p.first + 1 == ps[0].first && p.length > 0 && p.LastLBA() == ps[|ps| - 1].LastLBA()
  }

  lemma {:induction false} ArrangedFacts(s: seq<Part>, t: seq<Part>)
    requires Arranged(t) && multiset(s) == multiset(t)
    ensures |t| == MAX_PARTS && Chainable(InUse(t, 4)) && (Count(IsLogical, t) > 0 <==> InUse(t, 4) != [])
    ensures forall p: Part | p.incl == LOGICAL :: multiset(InUse(t, 4))[p] == multiset(s)[p]
    ensures forall i | 0 <= i < 4 :: t[i].kind != EXTENDED
  {
    hide Pairwise, Chainable, Count, InUse, AllFine, Displaced;
    ReadyChainable(t, 4);
    forall p: Part | p.incl == LOGICAL ensures multiset(InUse(t, 4))[p] == multiset(s)[p] {
      InUseBag(t, 4, p);
      NotInFront(t, p);
    }
    LogicalIff(t);
    forall i | 0 <= i < 4 ensures t[i].kind != EXTENDED { FrontKind(t, i); }
  }

  lemma {:induction false} FrontKind(t: seq<Part>, i: nat)
    requires i < |t| && AllFine(t) && !Displaced(t[i])
    ensures t[i].kind != EXTENDED
  {
    assert Fine(t[i]);
  }

  lemma {:induction false} LogicalIff(t: seq<Part>)
    requires |t| == MAX_PARTS && Ready(t)
    requires forall p: Part | p.incl == LOGICAL :: multiset(InUse(t, 4))[p] == multiset(t)[p]
    ensures Count(IsLogical, t) > 0 <==> InUse(t, 4) != []
  {
    hide InUse;
    CountBounds(IsLogical, t);
    if Count(IsLogical, t) > 0 {
      var i :| 0 <= i < |t| && IsLogical(t[i]);
      assert t[i] in multiset(t);
      assert t[i] in multiset(InUse(t, 4));
    }
    if InUse(t, 4) != [] {
      var i := InUseMember(t, 4, InUse(t, 4)[0]);
      assert IsLogical(t[i]);
    }
  }

  lemma {:induction false} NotInFront(t: seq<Part>, p: Part)
    requires |t| == MAX_PARTS && (forall i | 0 <= i < 4 :: !Displaced(t[i])) && AllFine(t) && p.incl == LOGICAL
    ensures multiset(t)[p] == multiset(t[4..])[p]
  {
    assert t == t[..4] + t[4..];
    forall i | 0 <= i < 4 ensures t[..4][i] != p { assert !Displaced(t[i]) && Fine(t[i]); }
    assert p !in t[..4];
  }

  /** The first sector of any logical is that of the head of the chain. */
  lemma {:induction false} FirstIs(t: seq<Part>, ps: seq<Part>, first: nat)
    requires Chainable(ps) && ps != [] && (forall i | 0 <= i < |t| && t[i].incl == LOGICAL :: t[i] in ps) && ps[0] in t
    requires forall i | 0 <= i < |t| && t[i].incl == LOGICAL :: first <= t[i].first
    requires first == WORD - 1 || exists i :: 0 <= i < |t| && t[i].incl == LOGICAL && t[i].first == first
    ensures first == ps[0].first
  {
    hide Chainable;
    EndsOfChain(ps);
    assert ps[0] in ps;
    var a :| 0 <= a < |t| && t[a] == ps[0];
  }

  /** The last sector of any logical is that of the end of the chain. */
  lemma {:induction false} LastIs(t: seq<Part>, ps: seq<Part>, last: nat)
    requires Chainable(ps) && ps != [] && (forall i | 0 <= i < |t| && t[i].incl == LOGICAL :: t[i] in ps) && ps[|ps| - 1] in t
    requires forall i | 0 <= i < |t| && t[i].incl == LOGICAL :: t[i].LastLBA() <= last
    requires last == 0 || exists i :: 0 <= i < |t| && t[i].incl == LOGICAL && t[i].LastLBA() == last
    ensures last == ps[|ps| - 1].LastLBA()
  {
    hide Chainable;
    EndsOfChain(ps);
    assert ps[|ps| - 1] in ps;
    var a :| 0 <= a < |t| && t[a] == ps[|ps| - 1];
  }

  /** The extended partition is built from the ends of the chain. */
  lemma {:induction false} LogicalEnds(t: seq<Part>, first: nat, last: nat)
    requires Arranged(t) && Count(IsLogical, t) > 0
    requires forall i | 0 <= i < |t| && t[i].incl == LOGICAL :: first <= t[i].first
    requires forall i | 0 <= i < |t| && t[i].incl == LOGICAL :: t[i].LastLBA() <= last
    requires first == WORD - 1 || exists i :: 0 <= i < |t| && t[i].incl == LOGICAL && t[i].first == first
    requires last == 0 || exists i :: 0 <= i < |t| && t[i].incl == LOGICAL && t[i].LastLBA() == last
    ensures first >= 2 && last >= first && Holds(Part(EXTENDED, first - 1, last - first + 2, PRIMARY), InUse(t, 4))
  {
    hide Pairwise, Count, Arranged, InUse, Chainable;
    ArrangedFacts(t, t);
    var ps := InUse(t, 4);
    LogicalsListed(t);
    InUseIn(t, 4);
    FirstIs(t, ps, first);
    LastIs(t, ps, last);
    EndsOfChain(ps);
    LastAfterFirst(ps);
  }

  lemma {:induction false} InUseIn(t: seq<Part>, i: nat)
    requires i <= |t|
    ensures forall x | x in InUse(t, i) :: x in t
  {
    forall x | x in InUse(t, i) ensures x in t { var k := InUseMember(t, i, x); }
  }

  lemma {:induction false} LastAfterFirst(ps: seq<Part>)
    requires Chainable(ps) && ps != []
    ensures ps[0] in ps && ps[|ps| - 1] in ps && ps[0].first >= 2 && ps[|ps| - 1].LastLBA() >= ps[0].first
  {
    LogicalFacts(ps, |ps| - 1);
  }

  lemma {:induction false} LogicalsListed(t: seq<Part>)
    requires Arranged(t)
    ensures forall i | 0 <= i < |t| && t[i].incl == LOGICAL :: t[i] in InUse(t, 4)
  {
    hide Pairwise, Count, Arranged, InUse;
    ArrangedFacts(t, t);
    forall i | 0 <= i < |t| && t[i].incl == LOGICAL ensures t[i] in InUse(t, 4) {
      assert t[i] in multiset(t);
      assert t[i] in multiset(InUse(t, 4));
    }
  }

  lemma {:induction false} EndsOfChain(ps: seq<Part>)
    requires Chainable(ps) && ps != []
    ensures forall x | x in ps :: 2 <= ps[0].first <= x.first < WORD && 1 < x.LastLBA() <= ps[|ps| - 1].LastLBA() && x.incl == LOGICAL
  {
    forall x | x in ps ensures 2 <= ps[0].first <= x.first < WORD && 1 < x.LastLBA() <= ps[|ps| - 1].LastLBA() && x.incl == LOGICAL {
      var i :| 0 <= i < |ps| && ps[i] == x;
      if i > 0 { assert ps[0].first + ps[0].length < ps[i].first; }
      if i < |ps| - 1 { assert ps[i].first + ps[i].length < ps[|ps| - 1].first; }
    }
  }

  // ----- Writing and reading back.

  predicate ExtendedInUse(p: Part) { IsExtended(p.kind) && p.length > 0 }

  /** DeleteExtendedParts: the number of extended partitions, which become blank entries. */
  method DeleteExtendedParts(t: array<Part>) returns (numDeleted: nat)
    requires t.Length == MAX_PARTS
    modifies t
    ensures numDeleted == Count(ExtendedInUse, old(t[..]))
    ensures forall i | 0 <= i < MAX_PARTS :: t[i] == if IsExtended(old(t[i]).kind) && old(t[i]).length > 0 then EMPTY else old(t[i])
  {
    numDeleted := 0;
    ghost var s := t[..];
    for i := 0 to MAX_PARTS
      invariant numDeleted == Count(ExtendedInUse, s[..i])
      invariant forall j | 0 <= j < i :: t[j] == if IsExtended(old(t[j]).kind) && old(t[j]).length > 0 then EMPTY else old(t[j])
      invariant forall j | i <= j < MAX_PARTS :: t[j] == old(t[j])
    {
      assert s[..i + 1][..i] == s[..i];
      if IsExtended(t[i].kind) && t[i].length > 0 {
        t[i] := EMPTY;
        numDeleted := numDeleted + 1;
      }
    }
    assert s[..MAX_PARTS] == s;
  }

  /** The table keeps its data, extended partitions excepted. */
  ghost predicate DataKept(s: seq<Part>, t: seq<Part>) {
    && (forall i | 0 <= i < |t| :: !ExtendedInUse(t[i]))
    && forall p: Part | p.length > 0 && !ExtendedInUse(p) :: multiset(t)[p] == multiset(s)[p]
  }

  lemma {:induction false} DeletedKeeps(s: seq<Part>, t: seq<Part>, p: Part)
    requires |s| == |t| && forall i | 0 <= i < |s| :: t[i] == if ExtendedInUse(s[i]) then EMPTY else s[i]
    requires p.length > 0 && !ExtendedInUse(p)
    ensures multiset(t)[p] == multiset(s)[p]
  {
    if s != [] {
      var n := |s| - 1;
      DeletedKeeps(s[..n], t[..n], p);
      assert s == s[..n] + [s[n]] && t == t[..n] + [t[n]];
    }
  }

  /** The extended partition that was created goes again; the entry it took was empty. */
  lemma {:induction false} WrittenKeeps(s: seq<Part>, t: seq<Part>, u: seq<Part>, swapped: bool, k: nat)
    requires |s| == |t| == |u| == MAX_PARTS && (swapped ==> k < MAX_PARTS && t[k].kind == EXTENDED && t[k].length > 0)
    requires if swapped then Replaces(s, t, t[k]) else multiset(t) == multiset(s)
    requires forall i | 0 <= i < |t| :: u[i] == if ExtendedInUse(t[i]) then EMPTY else t[i]
    ensures DataKept(s, u)
  {
    hide ReusedIndex;
    forall p: Part | p.length > 0 && !ExtendedInUse(p) ensures multiset(u)[p] == multiset(s)[p] { DeletedKeeps(t, u, p); }
  }

  /** Where the extended partition of the first four entries starts. */
  method FindExtended(t: array<Part>) returns (found: bool, first: nat)
    requires t.Length == MAX_PARTS
    ensures !found ==> forall i | 0 <= i < 4 :: t[i].kind != EXTENDED
    ensures found ==> exists i :: 0 <= i < 4 && t[i].kind == EXTENDED && t[i].first == first
  {
    found, first := false, 0;
    for i := 0 to 4
      invariant !found ==> forall j | 0 <= j < i :: t[j].kind != EXTENDED
      invariant found ==> exists j :: 0 <= j < i && t[j].kind == EXTENDED && t[j].first == first
    {
      if t[i].kind == EXTENDED {
        found, first := true, t[i].first;
      }
    }
  }

  /** ps lists the logicals of the table, in disk order. */
  ghost predicate LogicalsOf(ps: seq<Part>, t: seq<Part>) {
    Chainable(ps) && forall p: Part | p.incl == LOGICAL :: multiset(ps)[p] == multiset(t)[p]
  }

  /** WriteMBRData, on a legal table: the chain of boot records of its logicals, from the start of the
      extended partition on; no other sector is written (sector 0, with the main record, is outside this
      model). It fails only for logicals beside an EFI GPT partition. */
  method WriteMBRData(t: array<Part>, disk0: map<nat, Record>) returns (ok: bool, disk: map<nat, Record>, more: bool, ext: nat, ghost ps: seq<Part>)
    requires t.Length == MAX_PARTS && Legal(t[..])
    modifies t
    ensures LogicalsOf(ps, old(t[..])) && |ps| <= MAX_PARTS - 4
    ensures ok <==> !(ps != [] && TypeRemains(old(t[..]), EFI_GPT))
    ensures ps != [] && HasDataOfType(old(t[..]), EFI_GPT) ==> !ok
    ensures !ok ==> ps != [] && HasType(old(t[..]), EFI_GPT)
    ensures ok ==> (more <==> ps != [])
    ensures DataKept(old(t[..]), t[..])
    ensures ok && more ==> Chained(disk, ext, ps) && LinksCover(disk, ext, ps) && ps[0].first == ext + 1
    ensures forall s | s in disk0 && !(ok && AnEbr(ps, s)) :: s in disk && disk[s] == disk0[s]
  {
    hide Legal, InUse, Chainable, Chained, LinksCover, AnEbr, TypeRemains, Replaces, DataKept;
    var swapped;
    ghost var k;
    ok, swapped, k := CreateExtended(t);
    ps := InUse(t[..], 4);
    InUseSize(t[..], 4);
    disk, more, ext := disk0, false, 0;
    if ok {
      more, ext := FindExtended(t);
      if more {
        ExtendedIs(t[..], ext, k, ps, swapped);
        disk := WriteLogicals(t, disk0, ext);
      } else {
        NoExtended(t[..], k, ps, swapped);
      }
    }
    ghost var written := t[..];
    var n := DeleteExtendedParts(t);
    WrittenKeeps(old(t[..]), written, t[..], swapped, k);
  }

  lemma {:induction false} ExtendedIs(t: seq<Part>, ext: nat, k: nat, ps: seq<Part>, swapped: bool)
    requires |t| == MAX_PARTS && (swapped <==> ps != []) && exists i :: 0 <= i < 4 && t[i].kind == EXTENDED && t[i].first == ext
    requires swapped ==> k < 4 && Holds(t[k], ps) && forall i | 0 <= i < 4 && i != k :: t[i].kind != EXTENDED
    requires !swapped ==> forall i | 0 <= i < 4 :: t[i].kind != EXTENDED
    ensures ps != [] && ps[0].first == ext + 1
  {
  }

  lemma {:induction false} NoExtended(t: seq<Part>, k: nat, ps: seq<Part>, swapped: bool)
    requires |t| == MAX_PARTS && (swapped <==> ps != []) && forall i | 0 <= i < 4 :: t[i].kind != EXTENDED
    requires swapped ==> k < 4 && Holds(t[k], ps)
    ensures ps == []
  {
  }

  /** Round trip: what is written for a legal table reads back, from the start of the extended partition,
      as its logicals in disk order, each with its start, length and type, and nothing else: the reader's
      result is the index of the last of them, and the other entries stay. */
  method SaveAndReload(t: array<Part>, disk0: map<nat, Record>, u: array<Part>) returns (ok: bool, last: int, ghost ps: seq<Part>)
    requires t.Length == MAX_PARTS == u.Length && t != u && Legal(t[..])
    modifies t, u
    ensures LogicalsOf(ps, old(t[..])) && |ps| <= MAX_PARTS - 4
    ensures ok <==> !(ps != [] && TypeRemains(old(t[..]), EFI_GPT))
    ensures ps == [] || !HasType(old(t[..]), EFI_GPT) ==> ok
    ensures last == if ok then 4 + |ps| - 1 else 3
    ensures forall i | 0 <= i < |ps| && ok :: u[4 + i] == ps[i]
    ensures forall i | 0 <= i < MAX_PARTS && !(ok && 4 <= i < 4 + |ps|) :: u[i] == old(u[i])
  {
    hide Legal, InUse, Chained, LinksCover, LogicalsOf, TypeRemains, DataKept;
    var disk, more, ext;
    ok, disk, more, ext, ps := WriteMBRData(t, disk0);
    last := 3;
    if ok && more {
      ListedChainable(ps, old(t[..]));
      last := ReadLogicalParts(disk, ext, 4, u, ps);
      forall i | 0 <= i < |ps| ensures AsRead(ps[i]) == ps[i] { LogicalRead(ps, i); }
    }
  }

  lemma {:induction false} ListedChainable(ps: seq<Part>, t: seq<Part>)
    requires LogicalsOf(ps, t)
    ensures Chainable(ps)
  {
  }

  lemma {:induction false} LogicalRead(ps: seq<Part>, i: nat)
    requires Chainable(ps) && i < |ps|
    ensures AsRead(ps[i]) == ps[i]
  {
  }
}
