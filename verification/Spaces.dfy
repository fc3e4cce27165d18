/** The doubly linked list of spaces that cgdisk shows: one for every partition and one for every gap. */
module Spaces {
  import opened Sequences
  import opened GptSpace

  class Space {
    const firstLBA: nat
    const lastLBA: nat
    /** The partition's number, -1 for a gap. */
    const partNum: int
    var nextSpace: Space?
    var prevSpace: Space?

    constructor (first: nat, last: nat, part: int)
      ensures firstLBA == first && lastLBA == last && partNum == part
    {
      firstLBA, lastLBA, partNum, nextSpace, prevSpace := first, last, part, null, null;
    }
  }

  // ----- Chains of nodes.

  ghost function NextOf(s: seq<Space>, i: int): Space?
    requires 0 <= i < |s|
  {
    if i + 1 < |s| then s[i + 1] else null
  }

  ghost function PrevOf(s: seq<Space>, i: int): Space?
    requires 0 <= i < |s|
  {
    if i > 0 then s[i - 1] else null
  }

  /** The nodes are linked to each other in this order, both ways. */
  ghost predicate Linked(s: seq<Space>)
    reads s
  {
    Distinct(s) && forall i | 0 <= i < |s| :: s[i].nextSpace == NextOf(s, i) && s[i].prevSpace == PrevOf(s, i)
  }

  ghost function HeadOf(s: seq<Space>): Space? { if s == [] then null else s[0] }

  ghost function TailOf(s: seq<Space>): Space? { if s == [] then null else s[|s| - 1] }

  /** Ascending by first sector. */
  ghost predicate Ascending(s: seq<Space>) { forall i, j | 0 <= i < j < |s| :: s[i].firstLBA <= s[j].firstLBA }

  lemma {:induction false} LinksOf(s: seq<Space>)
    requires Linked(s)
    ensures Distinct(s) && forall i | 0 <= i < |s| :: s[i].nextSpace == NextOf(s, i) && s[i].prevSpace == PrevOf(s, i)
  {
  }

  /** A chain whose last node leads to x, which leads back, is a longer chain. */
  lemma {:induction false} LinkedLonger(s: seq<Space>, x: Space)
    requires Distinct(s) && x !in s && x.nextSpace == null && x.prevSpace == TailOf(s)
    requires forall i | 0 <= i < |s| :: s[i].prevSpace == PrevOf(s, i) && s[i].nextSpace == if i == |s| - 1 then x else NextOf(s, i)
    ensures Linked(s + [x])
  {
  }

  lemma {:induction false} NextWithout(s: seq<Space>, k: nat, i: nat)
    requires k < |s| && i < |s| - 1
    ensures RemoveAt(s, k)[i] == s[Skip(k, i)]
    ensures NextOf(RemoveAt(s, k), i) == NextOf(s, if Skip(k, i) + 1 == k then k else Skip(k, i))
    ensures PrevOf(RemoveAt(s, k), i) == PrevOf(s, if Skip(k, i) == k + 1 then k else Skip(k, i))
  {
    RemoveAtElement(s, k, i);
    if i + 1 < |s| - 1 { RemoveAtElement(s, k, i + 1); }
    if i > 0 { RemoveAtElement(s, k, i - 1); }
  }

  lemma {:induction false} Neighbours(s: seq<Space>, k: nat)
    requires k < |s|
    ensures NextOf(s, k) == if k + 1 < |s| then s[k + 1] else null
    ensures PrevOf(s, k) == if k > 0 then s[k - 1] else null
  {
  }

  lemma {:induction false} DistinctAt(s: seq<Space>, i: nat, j: nat)
    requires Distinct(s) && i < |s| && j < |s|
    ensures s[i] == s[j] <==> i == j
  {
  }

  /** Every node but k is linked to its neighbours past k. */
  ghost predicate LinkedPast(s: seq<Space>, k: nat)
    reads s
    requires k < |s|
  {
    forall j | 0 <= j < |s| && j != k ::
      s[j].nextSpace == NextOf(s, if j + 1 == k then k else j) && s[j].prevSpace == PrevOf(s, if j == k + 1 then k else j)
  }

  lemma {:induction false} WithoutLinks(s: seq<Space>, k: nat)
    requires k < |s| && Distinct(s) && LinkedPast(s, k)
    ensures Linked(RemoveAt(s, k))
  {
    hide Distinct, RemoveAt, NextOf, PrevOf;
    RemovedDistinct(s, k);
    forall i | 0 <= i < |s| - 1
      ensures RemoveAt(s, k)[i].nextSpace == NextOf(RemoveAt(s, k), i) && RemoveAt(s, k)[i].prevSpace == PrevOf(RemoveAt(s, k), i)
    {
      NextWithout(s, k, i);
      assert Skip(k, i) != k;
    }
  }

  class SpaceList {
    var firstSpace: Space?
    var lastSpace: Space?
    var numSpaces: int
    /** The nodes of the list, in order. */
    ghost var spaces: seq<Space>

    ghost predicate Valid()
      reads this, spaces
    {
      && firstSpace == HeadOf(spaces) && lastSpace == TailOf(spaces)
      && numSpaces == |spaces| && Linked(spaces)
    }

    constructor ()
      ensures Valid() && spaces == []
    {
      firstSpace, lastSpace, numSpaces, spaces := null, null, 0, [];
    }

    /** The two ends and the links, whatever the count. */
    ghost predicate Ends()
      reads this, spaces
    {
      firstSpace == HeadOf(spaces) && lastSpace == TailOf(spaces) && Linked(spaces)
    }

    method LinkToEnd(theSpace: Space)
      requires Ends() && theSpace !in spaces
      modifies this, theSpace, lastSpace
      ensures Ends() && spaces == old(spaces) + [theSpace] && numSpaces == old(numSpaces) + 1
    {
      hide Linked, NextOf, PrevOf;
      ghost var s := spaces;
      LinksOf(s);
      if lastSpace == null {
        firstSpace, lastSpace := theSpace, theSpace;
        theSpace.nextSpace := null;
        theSpace.prevSpace := null;
      } else {
        theSpace.prevSpace := lastSpace;
        theSpace.nextSpace := null;
        lastSpace.nextSpace := theSpace;
        lastSpace := theSpace;
      }
      numSpaces := numSpaces + 1;
      spaces := spaces + [theSpace];
      LinkedLonger(s, theSpace);
    }

    /** theSpace->prevSpace->nextSpace = theSpace->nextSpace */
    method PassNext(theSpace: Space, ghost chain: seq<Space>, ghost k: nat)
      requires Linked(chain) && k < |chain| && chain[k] == theSpace
      modifies chain
      ensures forall j | 0 <= j < |chain| :: chain[j].nextSpace == NextOf(chain, if j + 1 == k then k else j)
      ensures forall j | 0 <= j < |chain| :: chain[j].prevSpace == PrevOf(chain, j)
    {
      hide Distinct, NextOf, PrevOf;
      Neighbours(chain, k);
      if theSpace.prevSpace != null {
        theSpace.prevSpace.nextSpace := theSpace.nextSpace;
      }
      forall j | 0 <= j < |chain|
        ensures chain[j].nextSpace == NextOf(chain, if j + 1 == k then k else j)
      {
        if k > 0 { DistinctAt(chain, j, k - 1); }
      }
    }

    /** theSpace->nextSpace->prevSpace = theSpace->prevSpace */
    method PassPrev(theSpace: Space, ghost chain: seq<Space>, ghost k: nat)
      requires Distinct(chain) && k < |chain| && chain[k] == theSpace
      requires forall j | 0 <= j < |chain| :: chain[j].nextSpace == NextOf(chain, if j + 1 == k then k else j)
      requires forall j | 0 <= j < |chain| :: chain[j].prevSpace == PrevOf(chain, j)
      modifies chain
      ensures forall j | 0 <= j < |chain| :: chain[j].nextSpace == NextOf(chain, if j + 1 == k then k else j)
      ensures forall j | 0 <= j < |chain| :: chain[j].prevSpace == PrevOf(chain, if j == k + 1 then k else j)
    {
      hide Distinct, NextOf, PrevOf;
      Neighbours(chain, k);
      if theSpace.nextSpace != null {
        theSpace.nextSpace.prevSpace := theSpace.prevSpace;
      }
      forall j | 0 <= j < |chain|
        ensures chain[j].prevSpace == PrevOf(chain, if j == k + 1 then k else j)
      {
        if k + 1 < |chain| { DistinctAt(chain, j, k + 1); }
      }
    }

    /** Takes node k out of the chain it stands in. */
    method UnlinkSpace(theSpace: Space, ghost chain: seq<Space>, ghost k: nat)
      requires Linked(chain) && k < |chain| && chain[k] == theSpace
      modifies this`firstSpace, this`lastSpace, this`numSpaces, chain
      ensures Linked(RemoveAt(chain, k)) && numSpaces == old(numSpaces) - 1
      ensures theSpace.nextSpace == null && theSpace.prevSpace == null
      ensures firstSpace == if theSpace == old(firstSpace) then NextOf(chain, k) else old(firstSpace)
      ensures lastSpace == if theSpace == old(lastSpace) then PrevOf(chain, k) else old(lastSpace)
    {
      hide RemoveAt, Distinct, NextOf, PrevOf;
      PassNext(theSpace, chain, k);
      PassPrev(theSpace, chain, k);
      if theSpace == firstSpace {
        firstSpace := theSpace.nextSpace;
      }
      if theSpace == lastSpace {
        lastSpace := theSpace.prevSpace;
      }
      theSpace.nextSpace := null;
      theSpace.prevSpace := null;
      numSpaces := numSpaces - 1;
      forall j | 0 <= j < |chain| && j != k ensures chain[j] != theSpace { DistinctAt(chain, j, k); }
      WithoutLinks(chain, k);
    }

    /** The earliest node of a chain, the first of them if several start at the same sector. */
    method Earliest(head: Space, ghost chain: seq<Space>) returns (earliest: Space, ghost k: nat)
      requires Linked(chain) && chain != [] && head == chain[0]
      ensures k < |chain| && earliest == chain[k]
      ensures forall i | 0 <= i < |chain| :: earliest.firstLBA <= chain[i].firstLBA
      ensures forall i | 0 <= i < k :: earliest.firstLBA < chain[i].firstLBA
    {
      hide Linked;
      earliest, k := head, 0;
      var current: Space? := head;
      ghost var c := 0;
      while current != null
        invariant 0 <= c <= |chain| && current == (if c < |chain| then chain[c] else null)
        invariant k < |chain| && (k < c || (c == 0 && k == 0)) && earliest == chain[k]
        invariant forall i | 0 <= i < c :: earliest.firstLBA <= chain[i].firstLBA
        invariant forall i | 0 <= i < k :: earliest.firstLBA < chain[i].firstLBA
        decreases |chain| - c
      {
        if current.firstLBA < earliest.firstLBA {
          earliest, k := current, c;
        }
        NextIs(chain, c);
        current := current.nextSpace;
        c := c + 1;
      }
    }

    /** Selection sort: the earliest node of the old chain goes to the end of the new one, until none is
        left. The nodes are the same, and ascend. */
    method SortSpaces()
      requires Valid()
      modifies this, spaces
      ensures Valid() && multiset(spaces) == multiset(old(spaces)) && Ascending(spaces)
    {
      hide Linked, HeadOf, TailOf, NextOf, PrevOf, RemoveAt, Distinct, Ascending, Split;
      ghost var rest, all := spaces, spaces;
      var oldFirst, oldLast := firstSpace, lastSpace;
      firstSpace, lastSpace, spaces := null, null, [];
      SplitStart(all);
      while oldFirst != null
        invariant Ends() && Linked(rest) && oldFirst == HeadOf(rest) && oldLast == TailOf(rest)
        invariant Split(rest, spaces, all) && numSpaces == |rest| + |spaces|
        decreases |rest|
      {
        SplitFacts(rest, spaces, all);
        EndsOf(rest);
        EndsOf(spaces);
        var earliest, k := Earliest(oldFirst, rest);
        NextIs(rest, k);
        SplitMove(rest, spaces, all, k);
        if oldFirst == earliest {
          oldFirst := earliest.nextSpace;
        }
        if oldLast == earliest {
          oldLast := earliest.prevSpace;
        }
        SplitFacts(RemoveAt(rest, k), spaces + [earliest], all);
        UnlinkSpace(earliest, rest, k);
        assert (spaces + [earliest])[|spaces|] == earliest;
        LinkToEnd(earliest);
        rest := RemoveAt(rest, k);
      }
      SplitDone(rest, spaces, all);
    }

    /** Adds a gap to the list and sorts it. */
    method AddEmptySpace(first: nat, last: nat) returns (ghost added: Space)
      requires Valid()
      modifies this, spaces
      ensures Valid() && Ascending(spaces) && fresh(added)
      ensures multiset(spaces) == multiset(old(spaces)) + multiset{added}
      ensures added.firstLBA == first && added.lastLBA == last && added.partNum == -1
      ensures |spaces| == |old(spaces)| + 1
    {
      hide Linked, HeadOf, TailOf, Ascending;
      ghost var was := spaces;
      EndsOf(spaces);
      var tempSpace := new Space(first, last, -1);
      added := tempSpace;
      LinkToEnd(tempSpace);
      SortSpaces();
      SameSize(was + [tempSpace], spaces);
    }

    /** Adds a gap wherever the sorted list leaves sectors of the usable range uncovered, and counts them. */
    method AddEmptySpaces(d: Disk) returns (numAdded: nat)
      requires Valid() && d.firstUsable <= d.lastUsable && InRangeApart(d, spaces)
      modifies this, spaces
      ensures Valid() && Ascending(spaces) && InRangeApart(d, spaces) && Filled(d, spaces, d.lastUsable + 1)
      ensures Kept(old(spaces), spaces) && numAdded == |spaces| - |old(spaces)|
    {
      hide Linked, HeadOf, TailOf, Ascending, InRangeApart, Filled, Kept;
      ghost var was := spaces;
      KeptSelf(was);
      SortSpaces();
      ReorderKeeps(d, was, spaces);
      BagMembers(was, spaces);
      SameSize(was, spaces);
      numAdded := 0;
      EndsOf(spaces);
      if firstSpace == null {
        GapFits0(d, spaces);
        ghost var s := spaces;
        ghost var x := AddEmptySpace(d.firstUsable, d.lastUsable);
        AddKeeps(d, was, s, spaces, x);
        FillsUp(d, s, spaces, x, d.firstUsable);
        numAdded := 1;
      } else {
        numAdded := FillGaps(d, was);
      }
    }

    /** The list as the loop of AddEmptySpaces keeps it. */
    ghost predicate Good(d: Disk, was: seq<Space>)
      reads this, spaces
    {
      Valid() && Ascending(spaces) && InRangeApart(d, spaces) && Kept(was, spaces)
    }

    /** A gap that fits is added. */
    method AddFitting(d: Disk, first: nat, last: nat, ghost was: seq<Space>) returns (ghost added: Space)
      requires Good(d, was) && Fits(d, spaces, first, last)
      modifies this, spaces
      ensures Good(d, was) && fresh(added) && added.firstLBA == first && added.lastLBA == last
      ensures multiset(spaces) == multiset(old(spaces)) + multiset{added} && |spaces| == |old(spaces)| + 1
      ensures forall x :: x in spaces <==> x in old(spaces) || x == added
    {
      hide Linked, HeadOf, TailOf, Ascending, InRangeApart, Kept, Fits;
      ghost var s := spaces;
      added := AddEmptySpace(first, last);
      AddKeeps(d, was, s, spaces, added);
      BagAdded(s, spaces, added);
    }

    /** The gap before the first node. */
    method HeadGap(d: Disk, current: Space, ghost was: seq<Space>, ghost upto: nat) returns (added: nat, ghost upto': nat)
      requires Good(d, was) && current in spaces && Ready(d, spaces, current, upto)
      modifies this, spaces
      ensures Good(d, was) && current in spaces && Ready(d, spaces, current, upto')
      ensures upto' == current.firstLBA || Precedes(spaces, current)
      ensures forall i | 0 <= i < |spaces| :: spaces[i] in old(spaces) || fresh(spaces[i])
      ensures added == |spaces| - |old(spaces)|
    {
      hide Linked, HeadOf, TailOf, Ascending, InRangeApart, Kept, Fits, Ready, Precedes;
      added, upto' := 0, upto;
      ReadyBounds(d, spaces, current, upto);
      PointerFacts(d, spaces, current);
      if current == firstSpace && current.firstLBA > d.firstUsable {
        ghost var s := spaces;
        HeadFits(d, s, current, upto);
        ghost var x := AddFitting(d, d.firstUsable, current.firstLBA - 1, was);
        upto' := current.firstLBA;
        ReadyFilled(d, s, spaces, current, upto, x);
        added := 1;
      } else if current == firstSpace {
        HeadDone(d, spaces, current, upto);
      }
    }

    /** The gap behind the last node. */
    method TailGap(d: Disk, current: Space, ghost was: seq<Space>, ghost upto: nat) returns (added: nat)
      requires Good(d, was) && current in spaces && Ready(d, spaces, current, upto)
      requires upto == current.firstLBA || Precedes(spaces, current)
      modifies this, spaces
      ensures Good(d, was) && current in spaces && Ready(d, spaces, current, upto)
      ensures upto == current.firstLBA || Precedes(spaces, current)
      ensures current.lastLBA == d.lastUsable || Follows(spaces, current)
      ensures forall i | 0 <= i < |spaces| :: spaces[i] in old(spaces) || fresh(spaces[i])
      ensures added == |spaces| - |old(spaces)|
    {
      hide Linked, HeadOf, TailOf, Ascending, InRangeApart, Kept, Fits, Ready, Precedes, Follows;
      added := 0;
      PointerFacts(d, spaces, current);
      ghost var s := spaces;
      if current == lastSpace && current.lastLBA < d.lastUsable {
        TailFits(d, s, current);
        InRangeOf(d, s, current);
        ghost var x := AddFitting(d, current.lastLBA + 1, d.lastUsable, was);
        ReadyTail(d, s, spaces, current, upto, x);
        added := 1;
      } else {
        TailDone(d, s, current);
      }
    }

    /** The gap between a node and the one before it. */
    method PrevGap(d: Disk, current: Space, ghost was: seq<Space>, ghost upto: nat) returns (added: nat)
      requires Good(d, was) && current in spaces && Ready(d, spaces, current, upto)
      requires upto == current.firstLBA || Precedes(spaces, current)
      requires current.lastLBA == d.lastUsable || Follows(spaces, current)
      modifies this, spaces
      ensures Good(d, was) && current in spaces && Ready(d, spaces, current, current.firstLBA)
      ensures current.lastLBA == d.lastUsable || Follows(spaces, current)
      ensures forall i | 0 <= i < |spaces| :: spaces[i] in old(spaces) || fresh(spaces[i])
      ensures added == |spaces| - |old(spaces)|
    {
      hide Linked, HeadOf, TailOf, Ascending, InRangeApart, Kept, Fits, Ready, Precedes, Follows, IsPrev;
      added := 0;
      ReadyBounds(d, spaces, current, upto);
      PointerFacts(d, spaces, current);
      ghost var s := spaces;
      var prev := current.prevSpace;
      if prev != null {
        PrevEnds(d, s, current, prev, upto);
        if prev.lastLBA < current.firstLBA - 1 {
          PrevFits(d, s, current, upto);
          ghost var x := AddFitting(d, prev.lastLBA + 1, current.firstLBA - 1, was);
          ReadyFilled(d, s, spaces, current, upto, x);
          StillFollows(s, spaces, current, x);
          added := 1;
        }
      }
    }

    /** The loop over the sorted list. */
    method FillGaps(d: Disk, ghost was: seq<Space>) returns (numAdded: nat)
      requires Good(d, was) && firstSpace != null
      modifies this, spaces
      ensures Good(d, was) && Filled(d, spaces, d.lastUsable + 1) && numAdded == |spaces| - |old(spaces)|
    {
      hide Linked, HeadOf, TailOf, Ascending, InRangeApart, Filled, Kept, Ready, Precedes, Follows, IsNext;
      numAdded := 0;
      var current := firstSpace;
      EndsOf(spaces);
      ghost var upto: nat := d.firstUsable;
      ReadyFirst(d, spaces);
      while current != null
        invariant Good(d, was) && numAdded == |spaces| - |old(spaces)|
        invariant current != null ==> current in spaces && Ready(d, spaces, current, upto)
        invariant current == null ==> Filled(d, spaces, d.lastUsable + 1)
        invariant forall i | 0 <= i < |spaces| :: spaces[i] in old(spaces) || fresh(spaces[i])
        decreases if current == null then 0 else d.lastUsable + 1 - current.firstLBA
      {
        var n;
        ghost var u: nat;
        InRangeOf(d, spaces, current);
        n, u := HeadGap(d, current, was, upto);
        upto := u;
        numAdded := numAdded + n;
        n := TailGap(d, current, was, upto);
        numAdded := numAdded + n;
        n := PrevGap(d, current, was, upto);
        numAdded := numAdded + n;
        PointerFacts(d, spaces, current);
        var next := current.nextSpace;
        if next != null {
          ReadyNext(d, spaces, current, next);
          upto := current.lastLBA + 1;
        } else {
          ReadyLast(d, spaces, current);
        }
        current := next;
      }
    }

    method EmptySpaces()
      requires Valid()
      modifies this
      ensures Valid() && spaces == []
    {
      ghost var c := 0;
      while firstSpace != null
        invariant 0 <= c <= |spaces| && firstSpace == (if c < |spaces| then spaces[c] else null) && spaces == old(spaces) && Linked(spaces)
        decreases |spaces| - c
      {
        firstSpace := firstSpace.nextSpace;
        c := c + 1;
      }
      numSpaces, lastSpace, spaces := 0, null, [];
    }

    /** One space for every used partition, in table order. */
    method MakeSpacesFromParts(t: array<Part>)
      requires Valid()
      modifies this
      ensures Valid() && Shows(spaces, t[..], t.Length)
      ensures forall i | 0 <= i < |spaces| :: fresh(spaces[i])
    {
      hide Linked, HeadOf, TailOf, Shows;
      EmptySpaces();
      ShowsNone(t[..]);
      EndsOf(spaces);
      for i := 0 to t.Length
        invariant Valid() && Shows(spaces, t[..], i)
        invariant forall k | 0 <= k < |spaces| :: fresh(spaces[k])
      {
        EndsOf(spaces);
        if t[i].IsUsed() {
          ghost var s := spaces;
          var tempSpace := new Space(t[i].first, t[i].last, i);
          LinkToEnd(tempSpace);
          ShowsOneMore(s, t[..], i, tempSpace);
        } else {
          ShowsUnused(spaces, t[..], i);
        }
      }
    }

    /** The spaces of a disk: the list tiles the usable range, and every used partition is one of them. */
    method IdentifySpaces(d: Disk, t: array<Part>)
      requires Valid() && Placed(d, t[..]) && d.firstUsable <= d.lastUsable
      modifies this
      ensures Valid() && Tiles(d, spaces) && Labels(spaces, t[..])
    {
      hide Linked, HeadOf, TailOf, Shows, Placed, InRangeApart, Ascending, Filled, Kept;
      MakeSpacesFromParts(t);
      ghost var was := spaces;
      ShowsApart(d, was, t[..]);
      var added := AddEmptySpaces(d);
      KeptLabels(was, spaces, t[..]);
      IsTiled(d, spaces);
    }
  }

  // ----- Spaces and partitions.

  /** s shows the used ones of the first n partitions, in order. */
  ghost predicate Shows(s: seq<Space>, t: seq<Part>, n: nat)
    requires n <= |t|
  {
    && (forall x | x in s :: 0 <= x.partNum < n && t[x.partNum].IsUsed() && x.firstLBA == t[x.partNum].first && x.lastLBA == t[x.partNum].last)
    && (forall x, y | x in s && y in s && x != y :: x.partNum != y.partNum)
    && (forall i | 0 <= i < n && t[i].IsUsed() :: Shown(s, i))
  }

  ghost predicate Shown(s: seq<Space>, i: int) { exists x :: x in s && x.partNum == i }

  lemma {:induction false} ShowsNone(t: seq<Part>)
    ensures Shows([], t, 0)
  {
  }

  lemma {:induction false} ShowsUnused(s: seq<Space>, t: seq<Part>, i: nat)
    requires i < |t| && Shows(s, t, i) && !t[i].IsUsed()
    ensures Shows(s, t, i + 1)
  {
    hide Shown;
  }

  lemma {:induction false} ShowsOneMore(s: seq<Space>, t: seq<Part>, i: nat, x: Space)
    requires i < |t| && Shows(s, t, i) && t[i].IsUsed() && x.partNum == i && x.firstLBA == t[i].first && x.lastLBA == t[i].last
    ensures Shows(s + [x], t, i + 1)
  {
    forall j | 0 <= j < i + 1 && t[j].IsUsed() ensures Shown(s + [x], j) {
      if j < i {
        assert Shown(s, j);
        var y :| y in s && y.partNum == j;
        assert y in s + [x];
      } else {
        assert x in s + [x];
      }
    }
  }

  lemma {:induction false} ShowsApart(d: Disk, s: seq<Space>, t: seq<Part>)
    requires Placed(d, t) && Shows(s, t, |t|)
    ensures InRangeApart(d, s)
  {
    hide Shown;
    forall x, y | x in s && y in s && x != y ensures x.lastLBA < y.firstLBA || y.lastLBA < x.firstLBA {
      assert GptSpace.Apart(t[x.partNum], t[y.partNum]);
    }
  }

  /** Every used partition is shown by exactly one space, at its place; all other spaces are gaps. */
  ghost predicate Labels(s: seq<Space>, t: seq<Part>) {
    && (forall x | x in s ::
          x.partNum == -1
          || (0 <= x.partNum < |t| && t[x.partNum].IsUsed() && x.firstLBA == t[x.partNum].first && x.lastLBA == t[x.partNum].last))
    && (forall x, y | x in s && y in s && x != y && x.partNum >= 0 :: x.partNum != y.partNum)
    && (forall i | 0 <= i < |t| && t[i].IsUsed() :: Shown(s, i))
  }

  lemma {:induction false} KeptLabels(s: seq<Space>, u: seq<Space>, t: seq<Part>)
    requires Shows(s, t, |t|) && Kept(s, u)
    ensures Labels(u, t)
  {
    forall i | 0 <= i < |t| && t[i].IsUsed() ensures Shown(u, i) {
      assert Shown(s, i);
      var x :| x in s && x.partNum == i;
      assert x in u;
    }
  }

  /** The spaces follow each other without gap or overlap from the first usable sector to the last. */
  ghost predicate Tiles(d: Disk, s: seq<Space>) {
    && s != [] && s[0].firstLBA == d.firstUsable && s[|s| - 1].lastLBA == d.lastUsable
    && (forall i | 0 <= i < |s| :: s[i].firstLBA <= s[i].lastLBA)
    && (forall i, j | 0 <= i < |s| && j == i + 1 < |s| :: s[i].lastLBA + 1 == s[j].firstLBA)
  }

  lemma {:induction false} IsTiled(d: Disk, s: seq<Space>)
    requires Linked(s) && Ascending(s) && InRangeApart(d, s) && Filled(d, s, d.lastUsable + 1) && d.firstUsable <= d.lastUsable
    ensures Tiles(d, s)
  {
    hide InRangeApart, Ascending, In;
    StrictlyAscending(d, s);
    forall i | 0 <= i < |s| ensures d.firstUsable <= s[i].firstLBA <= s[i].lastLBA <= d.lastUsable { InRangeOf(d, s, s[i]); }
    HasSector(d, s, d.firstUsable);
    HasSector(d, s, d.lastUsable);
    forall i, j | 0 <= i < |s| && j == i + 1 < |s| ensures s[i].lastLBA + 1 == s[j].firstLBA { NoGap(d, s, i); }
    EndsReached(d, s);
  }

  lemma {:induction false} HasSector(d: Disk, s: seq<Space>, y: int)
    requires Filled(d, s, d.lastUsable + 1) && d.firstUsable <= y <= d.lastUsable
    ensures exists k :: 0 <= k < |s| && s[k].firstLBA <= y <= s[k].lastLBA
  {
    assert In(s, y);
    var x :| x in s && x.firstLBA <= y <= x.lastLBA;
    var k :| 0 <= k < |s| && s[k] == x;
  }

  lemma {:induction false} NoGap(d: Disk, s: seq<Space>, i: nat)
    requires i + 1 < |s| && InRangeApart(d, s) && Filled(d, s, d.lastUsable + 1)
    requires forall i, j | 0 <= i < j < |s| :: s[i].firstLBA < s[j].firstLBA
    ensures s[i].lastLBA + 1 == s[i + 1].firstLBA
  {
    hide Filled;
    assert s[i] in s && s[i + 1] in s;
    var y := s[i].lastLBA + 1;
    if y < s[i + 1].firstLBA {
      NotBetween(d, s, i, y);
      HasSector(d, s, y);
    }
  }

  lemma {:induction false} NotBetween(d: Disk, s: seq<Space>, i: nat, y: int)
    requires i + 1 < |s| && InRangeApart(d, s) && s[i].lastLBA < y < s[i + 1].firstLBA
    requires forall i, j | 0 <= i < j < |s| :: s[i].firstLBA < s[j].firstLBA
    ensures forall k | 0 <= k < |s| :: !(s[k].firstLBA <= y <= s[k].lastLBA)
  {
    assert s[i] in s && s[i + 1] in s;
    forall k | 0 <= k < |s| ensures !(s[k].firstLBA <= y <= s[k].lastLBA) { assert s[k] in s; }
  }

  lemma {:induction false} EndsReached(d: Disk, s: seq<Space>)
    requires InRangeApart(d, s) && Filled(d, s, d.lastUsable + 1) && d.firstUsable <= d.lastUsable
    requires forall i, j | 0 <= i < j < |s| :: s[i].firstLBA < s[j].firstLBA
    ensures s != [] && s[0].firstLBA == d.firstUsable && s[|s| - 1].lastLBA == d.lastUsable
  {
    hide Filled;
    HasSector(d, s, d.firstUsable);
    HasSector(d, s, d.lastUsable);
    var a :| 0 <= a < |s| && s[a].firstLBA <= d.firstUsable <= s[a].lastLBA;
    var b :| 0 <= b < |s| && s[b].firstLBA <= d.lastUsable <= s[b].lastLBA;
    assert s[a] in s && s[b] in s && s[0] in s && s[|s| - 1] in s;
  }

  // ----- Neighbours by position on the disk.

  ghost predicate IsPrev(s: seq<Space>, x: Space, p: Space) {
    p in s && p.firstLBA < x.firstLBA && forall y | y in s && y.firstLBA < x.firstLBA :: y.firstLBA <= p.firstLBA
  }

  ghost predicate IsNext(s: seq<Space>, x: Space, n: Space) {
    n in s && x.firstLBA < n.firstLBA && forall y | y in s && x.firstLBA < y.firstLBA :: n.firstLBA <= y.firstLBA
  }

  /** Some node starts before x. */
  ghost predicate Precedes(s: seq<Space>, x: Space) { exists y :: y in s && y.firstLBA < x.firstLBA }

  /** Some node starts after x. */
  ghost predicate Follows(s: seq<Space>, x: Space) { exists y :: y in s && x.firstLBA < y.firstLBA }

  lemma {:induction false} StrictlyAscending(d: Disk, s: seq<Space>)
    requires Distinct(s) && Ascending(s) && InRangeApart(d, s)
    ensures forall i, j | 0 <= i < j < |s| :: s[i].firstLBA < s[j].firstLBA
  {
    forall i, j | 0 <= i < j < |s| ensures s[i].firstLBA < s[j].firstLBA {
      assert s[i] in s && s[j] in s && s[i] != s[j];
    }
  }

  /** In a sorted list without overlaps the links lead to the neighbours on the disk. */
  lemma {:induction false} PointerFacts(d: Disk, s: seq<Space>, x: Space)
    requires Linked(s) && Ascending(s) && InRangeApart(d, s) && x in s
    ensures x.prevSpace == null <==> !Precedes(s, x)
    ensures x.prevSpace != null ==> IsPrev(s, x, x.prevSpace)
    ensures x.nextSpace == null <==> !Follows(s, x)
    ensures x.nextSpace != null ==> IsNext(s, x, x.nextSpace)
    ensures (x == HeadOf(s) <==> x.prevSpace == null) && (x == TailOf(s) <==> x.nextSpace == null)
  {
    hide InRangeApart, Ascending;
    var c :| 0 <= c < |s| && s[c] == x;
    StrictlyAscending(d, s);
    NextIs(s, c);
    forall y | y in s ensures (y.firstLBA < x.firstLBA ==> c > 0 && y.firstLBA <= s[c - 1].firstLBA)
                           && (x.firstLBA < y.firstLBA ==> c + 1 < |s| && s[c + 1].firstLBA <= y.firstLBA)
    {
      var i :| 0 <= i < |s| && s[i] == y;
    }
    if c > 0 { assert s[c - 1] in s; }
    if c + 1 < |s| { assert s[c + 1] in s; }
  }

  /** Everything below upto is covered, and nothing that starts before c reaches it. */
  ghost predicate Ready(d: Disk, s: seq<Space>, c: Space, upto: nat) {
    Filled(d, s, upto) && d.firstUsable <= upto <= c.firstLBA && forall x | x in s && x.firstLBA < c.firstLBA :: x.lastLBA < upto
  }

  lemma {:induction false} ReadyBounds(d: Disk, s: seq<Space>, c: Space, upto: nat)
    requires Ready(d, s, c, upto)
    ensures d.firstUsable <= upto <= c.firstLBA
  {
  }

  lemma {:induction false} InRangeOf(d: Disk, s: seq<Space>, x: Space)
    requires InRangeApart(d, s) && x in s
    ensures d.firstUsable <= x.firstLBA <= x.lastLBA <= d.lastUsable
  {
  }

  lemma {:induction false} ReadyFirst(d: Disk, s: seq<Space>)
    requires Linked(s) && Ascending(s) && InRangeApart(d, s) && HeadOf(s) != null
    ensures Ready(d, s, HeadOf(s), d.firstUsable)
  {
    hide Linked, InRangeApart, Ascending;
    var h := HeadOf(s);
    assert h in s;
    PointerFacts(d, s, h);
    InRangeOf(d, s, h);
  }

  lemma {:induction false} HeadFits(d: Disk, s: seq<Space>, c: Space, upto: nat)
    requires InRangeApart(d, s) && c in s && Ready(d, s, c, upto) && !Precedes(s, c) && d.firstUsable < c.firstLBA
    ensures Fits(d, s, d.firstUsable, c.firstLBA - 1)
  {
    forall x | x in s ensures c.firstLBA <= x.firstLBA { }
  }

  /** With the last gap below it filled, a node is ready up to its own start. */
  lemma {:induction false} ReadyFilled(d: Disk, s: seq<Space>, t: seq<Space>, c: Space, upto: nat, x: Space)
    requires Ready(d, s, c, upto) && multiset(t) == multiset(s) + multiset{x}
    requires x.firstLBA <= upto && x.lastLBA + 1 == c.firstLBA
    ensures Ready(d, t, c, c.firstLBA) && (x.firstLBA < c.firstLBA ==> Precedes(t, c))
  {
    BagAdded(s, t, x);
    FillsUp(d, s, t, x, upto);
  }

  lemma {:induction false} HeadDone(d: Disk, s: seq<Space>, c: Space, upto: nat)
    requires InRangeApart(d, s) && c in s && c.firstLBA <= d.firstUsable && Ready(d, s, c, upto)
    ensures upto == c.firstLBA
  {
  }

  lemma {:induction false} TailFits(d: Disk, s: seq<Space>, c: Space)
    requires InRangeApart(d, s) && c in s && !Follows(s, c) && c.lastLBA < d.lastUsable
    ensures Fits(d, s, c.lastLBA + 1, d.lastUsable)
  {
    forall x | x in s ensures x.firstLBA <= c.firstLBA { }
  }

  lemma {:induction false} ReadyTail(d: Disk, s: seq<Space>, t: seq<Space>, c: Space, upto: nat, x: Space)
    requires Ready(d, s, c, upto) && multiset(t) == multiset(s) + multiset{x} && c.firstLBA < x.firstLBA
    ensures Ready(d, t, c, upto) && Follows(t, c) && (Precedes(s, c) ==> Precedes(t, c))
  {
    hide In;
    BagAdded(s, t, x);
    StillIn(s, t);
    if Precedes(s, c) {
      var y :| y in s && y.firstLBA < c.firstLBA;
      assert y in t;
    }
  }

  lemma {:induction false} StillIn(s: seq<Space>, t: seq<Space>)
    requires forall x | x in s :: x in t
    ensures forall y | In(s, y) :: In(t, y)
  {
    forall y | In(s, y) ensures In(t, y) {
      var x :| x in s && x.firstLBA <= y <= x.lastLBA;
      assert x in t;
    }
  }

  lemma {:induction false} TailDone(d: Disk, s: seq<Space>, c: Space)
    requires InRangeApart(d, s) && c in s && (Follows(s, c) || c.lastLBA >= d.lastUsable)
    ensures c.lastLBA == d.lastUsable || Follows(s, c)
  {
  }

  /** The node before c ends where the covered stretch does. */
  lemma {:induction false} PrevEnds(d: Disk, s: seq<Space>, c: Space, p: Space, upto: nat)
    requires InRangeApart(d, s) && Ready(d, s, c, upto) && IsPrev(s, c, p)
    ensures p.lastLBA + 1 == upto
  {
    assert In(s, upto - 1);
    var w :| w in s && w.firstLBA <= upto - 1 <= w.lastLBA;
    assert w.lastLBA < upto;
  }

  lemma {:induction false} PrevFits(d: Disk, s: seq<Space>, c: Space, upto: nat)
    requires InRangeApart(d, s) && c in s && Ready(d, s, c, upto) && upto < c.firstLBA
    ensures Fits(d, s, upto, c.firstLBA - 1)
  {
  }

  lemma {:induction false} StillFollows(s: seq<Space>, t: seq<Space>, c: Space, x: Space)
    requires multiset(t) == multiset(s) + multiset{x}
    ensures Follows(s, c) ==> Follows(t, c)
  {
    BagAdded(s, t, x);
    if Follows(s, c) {
      var y :| y in s && c.firstLBA < y.firstLBA;
      assert y in t;
    }
  }

  lemma {:induction false} ReadyNext(d: Disk, s: seq<Space>, c: Space, n: Space)
    requires InRangeApart(d, s) && c in s && Ready(d, s, c, c.firstLBA) && IsNext(s, c, n)
    ensures n in s && Ready(d, s, n, c.lastLBA + 1) && c.firstLBA < n.firstLBA
  {
    FilledBy(d, s, c);
  }

  lemma {:induction false} FilledBy(d: Disk, s: seq<Space>, c: Space)
    requires c in s && Filled(d, s, c.firstLBA)
    ensures Filled(d, s, c.lastLBA + 1)
  {
  }

  lemma {:induction false} ReadyLast(d: Disk, s: seq<Space>, c: Space)
    requires c in s && Ready(d, s, c, c.firstLBA) && c.lastLBA == d.lastUsable
    ensures Filled(d, s, d.lastUsable + 1)
  {
    FilledBy(d, s, c);
  }

  // ----- Lists by their members.

  /** The nodes lie in the usable range and do not overlap. */
  ghost predicate InRangeApart(d: Disk, s: seq<Space>) {
    && (forall x | x in s :: d.firstUsable <= x.firstLBA <= x.lastLBA <= d.lastUsable)
    && (forall x, y | x in s && y in s && x != y :: x.lastLBA < y.firstLBA || y.lastLBA < x.firstLBA)
  }

  /** Every usable sector below z is in some node. */
  ghost predicate Filled(d: Disk, s: seq<Space>, z: int) { forall y | d.firstUsable <= y < z :: In(s, y) }

  ghost predicate In(s: seq<Space>, y: int) { exists x :: x in s && x.firstLBA <= y <= x.lastLBA }

  /** t has all nodes of s, and gaps. */
  ghost predicate Kept(s: seq<Space>, t: seq<Space>) {
    (forall x | x in s :: x in t) && forall x | x in t && x !in s :: x.partNum == -1
  }

  lemma {:induction false} KeptSelf(s: seq<Space>)
    ensures Kept(s, s)
  {
  }

  lemma {:induction false} ReorderKeeps(d: Disk, s: seq<Space>, t: seq<Space>)
    requires multiset(s) == multiset(t)
    ensures (InRangeApart(d, s) ==> InRangeApart(d, t)) && Kept(s, t)
  {
    BagMembers(s, t);
  }

  lemma {:induction false} BagAdded(s: seq<Space>, t: seq<Space>, x: Space)
    requires multiset(t) == multiset(s) + multiset{x}
    ensures forall y :: y in t <==> y in s || y == x
  {
    forall y ensures y in t <==> y in s || y == x {
      assert y in s <==> y in multiset(s);
      assert y in t <==> y in multiset(t);
    }
  }

  /** A gap over sectors that no node covers. */
  ghost predicate Fits(d: Disk, s: seq<Space>, first: nat, last: nat) {
    d.firstUsable <= first <= last <= d.lastUsable && forall x | x in s :: x.lastLBA < first || last < x.firstLBA
  }

  lemma {:induction false} GapFits0(d: Disk, s: seq<Space>)
    requires s == [] && d.firstUsable <= d.lastUsable
    ensures Fits(d, s, d.firstUsable, d.lastUsable) && Filled(d, s, d.firstUsable)
  {
  }

  lemma {:induction false} AddKeeps(d: Disk, was: seq<Space>, s: seq<Space>, t: seq<Space>, x: Space)
    requires multiset(t) == multiset(s) + multiset{x} && InRangeApart(d, s) && Kept(was, s) && x.partNum == -1
    requires Fits(d, s, x.firstLBA, x.lastLBA)
    ensures InRangeApart(d, t) && Kept(was, t)
  {
    BagAdded(s, t, x);
  }

  lemma {:induction false} FillsUp(d: Disk, s: seq<Space>, t: seq<Space>, x: Space, upto: nat)
    requires multiset(t) == multiset(s) + multiset{x} && Filled(d, s, upto) && x.firstLBA <= upto
    ensures Filled(d, t, x.lastLBA + 1) && Filled(d, t, upto)
  {
    BagAdded(s, t, x);
    forall y | d.firstUsable <= y < upto ensures In(t, y) {
      assert In(s, y);
      var w :| w in s && w.firstLBA <= y <= w.lastLBA;
      assert w in t;
    }
    forall y | d.firstUsable <= y < x.lastLBA + 1 ensures In(t, y) {
      if y >= upto { assert x in t; }
    }
  }

  ghost predicate Apart2(a: seq<Space>, b: seq<Space>) { forall x | x in a :: x !in b }

  /** No node of a starts after one of b. */
  ghost predicate Below(a: seq<Space>, b: seq<Space>) { forall x, y | x in a && y in b :: x.firstLBA <= y.firstLBA }

  /** In the middle of the sort: some nodes still in the old chain, the others in order in the new one. */
  ghost predicate Split(rest: seq<Space>, spaces: seq<Space>, all: seq<Space>) {
    Distinct(rest) && Apart2(rest, spaces) && Ascending(spaces) && Below(spaces, rest) && multiset(rest) + multiset(spaces) == multiset(all)
  }

  lemma {:induction false} SplitStart(all: seq<Space>)
    requires Linked(all)
    ensures Split(all, [], all) && Linked([]) && HeadOf([]) == null == TailOf([])
  {
  }

  lemma {:induction false} SplitFacts(rest: seq<Space>, spaces: seq<Space>, all: seq<Space>)
    requires Split(rest, spaces, all)
    ensures Apart2(rest, spaces) && (forall x | x in rest :: x in all) && (forall x | x in spaces :: x in all)
    ensures forall i | 0 <= i < |rest| :: rest[i] in rest
    ensures forall i | 0 <= i < |spaces| :: spaces[i] in spaces
  {
    hide Distinct, Ascending;
    forall x | x in rest || x in spaces ensures x in all {
      assert x in multiset(rest) + multiset(spaces);
      assert x in multiset(all);
    }
  }

  lemma {:induction false} EndsOf(s: seq<Space>)
    ensures HeadOf(s) != null ==> s != [] && HeadOf(s) == s[0]
    ensures TailOf(s) != null ==> s != [] && TailOf(s) == s[|s| - 1]
    ensures s == [] <==> HeadOf(s) == null
  {
  }

  lemma {:induction false} SplitDone(rest: seq<Space>, spaces: seq<Space>, all: seq<Space>)
    requires Split(rest, spaces, all) && HeadOf(rest) == null
    ensures |rest| == 0 && multiset(spaces) == multiset(all) && Ascending(spaces)
  {
    assert rest == [];
    assert multiset(rest) == multiset{};
  }

  /** Moving the earliest node to the end of the new chain. */
  lemma {:induction false} SplitMove(rest: seq<Space>, spaces: seq<Space>, all: seq<Space>, k: nat)
    requires k < |rest| && Split(rest, spaces, all)
    requires forall i | 0 <= i < |rest| :: rest[k].firstLBA <= rest[i].firstLBA
    ensures Split(RemoveAt(rest, k), spaces + [rest[k]], all)
    ensures HeadOf(RemoveAt(rest, k)) == if rest[k] == HeadOf(rest) then NextOf(rest, k) else HeadOf(rest)
    ensures TailOf(RemoveAt(rest, k)) == if rest[k] == TailOf(rest) then PrevOf(rest, k) else TailOf(rest)
  {
    var r, s := RemoveAt(rest, k), spaces + [rest[k]];
    RemovedDistinct(rest, k);
    RemoveAtBag(rest, k);
    assert multiset(s) == multiset(spaces) + multiset{rest[k]};
    forall x | x in r ensures x in rest && x != rest[k] && rest[k].firstLBA <= x.firstLBA { WithoutMember(rest, k, x); }
    AscendMore(spaces, rest[k]);
    WithoutEnds(rest, k);
  }

  lemma {:induction false} WithoutMember(s: seq<Space>, k: nat, x: Space)
    requires k < |s| && Distinct(s) && x in RemoveAt(s, k)
    ensures x in s && x != s[k] && exists i :: 0 <= i < |s| && s[i] == x
  {
    var i :| 0 <= i < |s| - 1 && RemoveAt(s, k)[i] == x;
    RemoveAtElement(s, k, i);
  }

  lemma {:induction false} AscendMore(s: seq<Space>, x: Space)
    requires Ascending(s) && forall y | y in s :: y.firstLBA <= x.firstLBA
    ensures Ascending(s + [x])
  {
  }

  lemma {:induction false} WithoutEnds(s: seq<Space>, k: nat)
    requires k < |s| && Distinct(s)
    ensures HeadOf(RemoveAt(s, k)) == if s[k] == HeadOf(s) then NextOf(s, k) else HeadOf(s)
    ensures TailOf(RemoveAt(s, k)) == if s[k] == TailOf(s) then PrevOf(s, k) else TailOf(s)
  {
    if |s| > 1 {
      RemoveAtElement(s, k, 0);
      RemoveAtElement(s, k, |s| - 2);
    }
  }

  lemma {:induction false} NextIs(chain: seq<Space>, c: nat)
    requires Linked(chain) && c < |chain|
    ensures chain[c].nextSpace == NextOf(chain, c) && chain[c].prevSpace == PrevOf(chain, c)
  {
  }
}
