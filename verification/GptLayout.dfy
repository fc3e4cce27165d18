/** Operations that change the partition table, and that no sequence of them makes partitions overlap or
    leave the usable range. */
module GptLayout {
  import opened Bits
  import opened Sequences
  import opened Sorting
  import opened GptSpace

  const DEFAULT_GPT_TYPE := 0x8300

  // ----- Alignment.

  ghost predicate AllFree(d: Disk, t: seq<Part>, from: int, to: int) { forall x | from <= x < to :: Free(d, t, x) }

  /** The start sector the alignment gives: the multiple below when everything from it up to the sector is
      free, else the multiple above when everything from the sector up to it is free, else no change. */
  ghost function Aligned(d: Disk, t: seq<Part>, alignment: nat, sector: nat): nat
    requires alignment >= 1
  {
    var earlier := sector / alignment * alignment;
    if sector % alignment == 0 then sector
    else if earlier >= d.firstUsable && AllFree(d, t, earlier, sector) then earlier
    else if earlier + alignment <= d.lastUsable && AllFree(d, t, sector + 1, earlier + alignment + 1) then earlier + alignment
    else sector
  }

  lemma {:induction false} Multiple(q: nat, a: nat)
    requires a >= 1
    ensures q * a % a == 0 && (q * a + a) % a == 0
  {
    assert q * a + a == a * (q + 1);
    DivModUnique(q * a, a, q, 0);
    DivModUnique(q * a + a, a, q + 1, 0);
  }

  /** When the alignment moves a sector, the result is a multiple of the alignment less than one step away,
      and every sector between the two is free. */
  lemma {:induction false} AlignedMoves(d: Disk, t: seq<Part>, alignment: nat, sector: nat)
    requires alignment >= 1 && Aligned(d, t, alignment, sector) != sector
    ensures var s := Aligned(d, t, alignment, sector);
            && s % alignment == 0 && sector % alignment != 0
            && s < sector + alignment && sector < s + alignment
            && (s < sector ==> AllFree(d, t, s, sector))
            && (s > sector ==> AllFree(d, t, sector + 1, s + 1))
  {
    hide AllFree;
    Multiple(sector / alignment, alignment);
    assert sector == alignment * (sector / alignment) + sector % alignment;
  }

  /** What alignment is to give: a sector on a multiple stays; any other goes down to the next multiple when
      every sector on the way is free, up to the next one when that does not hold and every sector on that
      way is free, and stays only when neither way is free. Free sectors lie in the usable range. */
  ghost predicate NearestFree(d: Disk, t: seq<Part>, alignment: nat, x: nat, s: nat)
    requires alignment >= 1
  {
    && (s == x || (x % alignment != 0 && s % alignment == 0))
    && (s < x ==> x < s + alignment && AllFree(d, t, s, x))
    && (s > x ==> s < x + alignment && AllFree(d, t, x + 1, s + 1))
    && (s >= x && x % alignment != 0 ==> forall m: nat | MultipleBelow(alignment, x, m) :: !AllFree(d, t, m, x))
    && (s == x && x % alignment != 0 ==> forall m: nat | MultipleAbove(alignment, x, m) :: !AllFree(d, t, x + 1, m + 1))
  }

  ghost predicate MultipleBelow(alignment: nat, x: nat, m: nat)
    requires alignment >= 1
  {
    m % alignment == 0 && m < x < m + alignment
  }

  ghost predicate MultipleAbove(alignment: nat, x: nat, m: nat)
    requires alignment >= 1
  {
    m % alignment == 0 && x < m < x + alignment
  }

  ghost function Below(a: nat, x: nat): nat
    requires a >= 1
  {
    x / a * a
  }

  lemma {:induction false} OnlyMultiples(a: nat, x: nat, m: nat)
    requires a >= 1
    ensures x % a != 0 ==> (MultipleBelow(a, x, m) <==> m == Below(a, x)) && (MultipleAbove(a, x, m) <==> m == Below(a, x) + a)
  {
    Multiple(x / a, a);
    assert x == a * (x / a) + x % a;
    assert m == a * (m / a) + m % a;
    if m % a == 0 {
      if m < x < m + a { DivModUnique(x, a, m / a, x - m); }
      if x < m < x + a { DivModUnique(x, a, m / a - 1, x - m + a); }
    }
  }

  lemma {:induction false} FreeInRange(d: Disk, t: seq<Part>, from: int, to: int)
    ensures from < to && AllFree(d, t, from, to) ==> from >= d.firstUsable && to - 1 <= d.lastUsable
  {
    if from < to && AllFree(d, t, from, to) { assert Free(d, t, from) && Free(d, t, to - 1); }
  }

  lemma {:induction false} NearestCases(d: Disk, t: seq<Part>, a: nat, x: nat, s: nat)
    requires a >= 1 && x % a != 0
    ensures var e := Below(a, x);
            NearestFree(d, t, a, x, s) <==>
              || (s == e && AllFree(d, t, e, x))
              || (s == e + a && !AllFree(d, t, e, x) && AllFree(d, t, x + 1, e + a + 1))
              || (s == x && !AllFree(d, t, e, x) && !AllFree(d, t, x + 1, e + a + 1))
  {
    hide AllFree, Below;
    var e := Below(a, x);
    OnlyMultiples(a, x, s);
    OnlyMultiples(a, x, e);
    OnlyMultiples(a, x, e + a);
    if NearestFree(d, t, a, x, s) {
      if s < x { assert MultipleBelow(a, x, s); }
      if s > x { assert MultipleAbove(a, x, s); }
    } else {
      hide MultipleBelow, MultipleAbove;
      forall m: nat | MultipleBelow(a, x, m) ensures m == e { OnlyMultiples(a, x, m); }
      forall m: nat | MultipleAbove(a, x, m) ensures m == e + a { OnlyMultiples(a, x, m); }
    }
  }

  /** The alignment gives that sector and no other. */
  lemma {:induction false} AlignedExact(d: Disk, t: seq<Part>, alignment: nat, x: nat, s: nat)
    requires alignment >= 1
    ensures NearestFree(d, t, alignment, x, s) <==> s == Aligned(d, t, alignment, x)
  {
    hide AllFree;
    if x % alignment != 0 {
      hide NearestFree;
      var e := Below(alignment, x);
      NearestCases(d, t, alignment, x, s);
      Between(x, alignment);
      FreeInRange(d, t, e, x);
      FreeInRange(d, t, x + 1, e + alignment + 1);
    }
  }

  method IsFree(d: Disk, t: array<Part>, sector: int) returns (isFree: bool)
    requires Placed(d, t[..])
    ensures isFree <==> Free(d, t[..], sector)
  {
    hide Placed, Covered;
    isFree := true;
    UsableStart(d, t[..]);
    for i := 0 to t.Length
      invariant isFree ==> forall j | 0 <= j < i && t[j].IsUsed() :: !t[j].Holds(sector)
      invariant !isFree ==> Covered(t[..], sector) || sector < d.firstUsable
    {
      if sector >= t[i].first && sector <= t[i].last {
        isFree := false;
        if t[i].IsUsed() { HeldIsCovered(t[..], i, sector); } else { BlankHolds(d, t[..], i, sector); }
      }
    }
    if isFree { NotCovered(t[..], sector); }
    if sector < d.firstUsable || sector > d.lastUsable {
      isFree := false;
    }
  }

  lemma {:induction false} BlankHolds(d: Disk, t: seq<Part>, i: int, x: int)
    requires Placed(d, t) && 0 <= i < |t| && !t[i].IsUsed() && t[i].Holds(x)
    ensures x < d.firstUsable
  {
  }

  method AlignEarlier(d: Disk, t: array<Part>, earlier: nat, sector: nat) returns (ok: bool)
    requires Placed(d, t[..]) && earlier < sector
    ensures ok <==> AllFree(d, t[..], earlier, sector)
  {
    hide Placed, Free;
    var test := earlier;
    ok := IsFree(d, t, test);
    test := test + 1;
    while ok && test < sector
      invariant earlier < test <= sector
      invariant ok ==> AllFree(d, t[..], earlier, test)
      invariant !ok ==> !Free(d, t[..], test - 1)
    {
      ok := IsFree(d, t, test);
      test := test + 1;
    }
  }

  method AlignLater(d: Disk, t: array<Part>, later: nat, sector: nat) returns (ok: bool)
    requires Placed(d, t[..]) && sector < later
    ensures ok <==> AllFree(d, t[..], sector + 1, later + 1)
  {
    hide Placed, Free;
    var test: int := later;
    ok := IsFree(d, t, test);
    test := test - 1;
    while ok && test > sector
      invariant sector <= test < later
      invariant ok ==> AllFree(d, t[..], test + 1, later + 1)
      invariant !ok ==> !Free(d, t[..], test + 1)
    {
      ok := IsFree(d, t, test);
      test := test - 1;
    }
  }

  method Align(d: Disk, t: array<Part>, alignment: nat, sector0: nat) returns (sector: nat, changed: bool)
    requires Placed(d, t[..]) && alignment >= 1
    ensures sector == Aligned(d, t[..], alignment, sector0) && changed == (sector != sector0)
    ensures NearestFree(d, t[..], alignment, sector0, sector)
  {
    hide Placed, AllFree, NearestFree;
    sector, changed := sector0, false;
    if sector0 % alignment != 0 {
      var earlier := sector0 / alignment * alignment;
      var later := earlier + alignment;
      Between(sector0, alignment);
      var sectorOk := false;
      if earlier >= d.firstUsable {
        sectorOk := AlignEarlier(d, t, earlier, sector0);
        if sectorOk {
          sector, changed := earlier, true;
        }
      }
      if !sectorOk && later <= d.lastUsable {
        sectorOk := AlignLater(d, t, later, sector0);
        if sectorOk {
          sector, changed := later, true;
        }
      }
    }
    AlignedExact(d, t[..], alignment, sector0, sector);
  }

  lemma {:induction false} Between(s: nat, a: nat)
    requires a >= 1 && s % a != 0
    ensures s / a * a < s < s / a * a + a
  {
    assert s == a * (s / a) + s % a;
  }

  // ----- The table after a change.

  lemma {:induction false} FreeApart(d: Disk, t: seq<Part>, i: int, a: int, b: int)
    requires Placed(d, t) && 0 <= i < |t| && t[i].IsUsed() && a <= b && forall x | a <= x <= b :: Free(d, t, x)
    ensures t[i].last < a || b < t[i].first
  {
    if t[i].first <= b && a <= t[i].last {
      var x := if t[i].first < a then a else t[i].first;
      assert Free(d, t, x);
      HeldIsCovered(t, i, x);
    }
  }

  /** A partition over free sectors joins the others. */
  lemma {:induction false} PlaceNew(d: Disk, t: seq<Part>, k: int, p: Part)
    requires Placed(d, t) && 0 <= k < |t| && !t[k].IsUsed() && p.IsUsed() && p.first <= p.last
    requires forall x | p.first <= x <= p.last :: Free(d, t, x)
    ensures Placed(d, t[k := p])
    ensures TwoSectors(t) ==> (TwoSectors(t[k := p]) <==> p.first < p.last)
  {
    hide Covered;
    assert Free(d, t, p.first) && Free(d, t, p.last) && t[k := p][k] == p;
    forall i | 0 <= i < |t| && t[i].IsUsed() ensures Apart(t[i], p) && Apart(p, t[i]) { FreeApart(d, t, i, p.first, p.last); }
  }

  lemma {:induction false} PlaceBlank(d: Disk, t: seq<Part>, k: int)
    requires Placed(d, t) && 0 <= k < |t|
    ensures Placed(d, t[k := BLANK]) && (TwoSectors(t) ==> TwoSectors(t[k := BLANK]))
  {
  }

  /** Used partitions do not overlap. */
  predicate Compatible(a: Part, b: Part) { a.IsUsed() && b.IsUsed() ==> Apart(a, b) }

  /** The order of the entries does not matter. */
  lemma {:induction false} Permuted(d: Disk, t: seq<Part>, u: seq<Part>)
    requires Placed(d, t) && multiset(t) == multiset(u)
    ensures Placed(d, u) && (TwoSectors(t) ==> TwoSectors(u))
  {
    BagMembers(t, u);
    assert Pairwise(Compatible, t);
    PairwisePermuted(Compatible, t, u);
    forall i | 0 <= i < |u| ensures u[i] in t { }
    forall i, j | 0 <= i < |u| && 0 <= j < |u| && i != j ensures Compatible(u[i], u[j]) { }
  }

  // ----- Sorting.

  /** The order of the table: by start sector, empty entries last. */
  predicate Less(a: Part, b: Part) {
    if a.first != 0 && b.first != 0 then a.first < b.first else b.first < a.first
  }

  lemma {:induction false} LessOrders(t: seq<Part>)
    ensures Orders(Less, t)
  {
  }

  /** The used entries come first, by ascending start sector. */
  ghost predicate Ascending(t: seq<Part>) {
    forall i, j | 0 <= i < j < |t| && t[j].IsUsed() :: t[i].IsUsed() && t[i].first < t[j].first
  }

  lemma {:induction false} SortedAscends(d: Disk, t: seq<Part>)
    requires Placed(d, t) && InOrder(Less, t)
    ensures Ascending(t)
  {
    forall i, j | 0 <= i < j < |t| && t[j].IsUsed() ensures t[i].IsUsed() && t[i].first < t[j].first {
      assert !Less(t[j], t[i]);
    }
  }

  // ----- The operations.

  /** A sector range of which every sector is free. */
  ghost predicate Room(d: Disk, t: seq<Part>, first: nat, last: nat) { first <= last && forall x | first <= x <= last :: Free(d, t, x) }

  /** The range is free but for its last sector, the start of a partition that is passed over. */
  ghost predicate Overrun(d: Disk, t: seq<Part>, first: nat, last: nat) {
    first < last && Room(d, t, first, last - 1) && MissedAt(d, t, last)
  }

  /** Exactly when the bound reported for a free sector covers `last`: the range is free, or it overruns a
      partition by one sector. */
  lemma {:induction false} RoomIff(d: Disk, t: seq<Part>, first: nat, last: nat)
    requires Placed(d, t) && Free(d, t, first) && first <= last
    ensures LastInFree(d, t, first, |t|) >= last <==> Room(d, t, first, last) || Overrun(d, t, first, last)
    ensures !(Room(d, t, first, last) && Overrun(d, t, first, last))
  {
    hide Placed, Free, LastInFree, MissedAt;
    var e := BoundOfRun(d, t, first);
    if MissedAt(d, t, last) { BehindMissed(d, t, last); }
  }

  /** No overrun where every partition has two sectors. */
  lemma {:induction false} TwoSectorsNoOverrun(d: Disk, t: seq<Part>, first: nat, last: nat)
    requires Placed(d, t) && TwoSectors(t)
    ensures !Overrun(d, t, first, last)
  {
    hide Placed, TwoSectors, Missed, Free;
    forall m: nat | m < |t| ensures !Missed(d, t, m) { TwoSectorsMet(d, t, m); }
  }

  /** A partition that overruns another one destroys the layout. */
  lemma {:induction false} OverrunMisplaces(d: Disk, t: seq<Part>, k: int, p: Part)
    requires Placed(d, t) && 0 <= k < |t| && !t[k].IsUsed() && p.IsUsed() && Overrun(d, t, p.first, p.last)
    ensures !Placed(d, t[k := p])
  {
    hide Free, Missed;
    MissedUsed(d, t);
    var m: nat :| m < |t| && Missed(d, t, m) && t[m].first == p.last;
    var u := t[k := p];
    assert u[m] == t[m] && u[k] == p;
    assert !Apart(u[m], u[k]);
  }

  ghost predicate Granted(d: Disk, t: seq<Part>, first: nat, last: nat) { Room(d, t, first, last) || Overrun(d, t, first, last) }

  /** What a new partition that is granted its sectors makes of the layout. */
  lemma {:induction false} CreatedIn(d: Disk, t: seq<Part>, k: int, p: Part)
    requires Placed(d, t) && 0 <= k < |t| && !t[k].IsUsed() && p.IsUsed() && Granted(d, t, p.first, p.last)
    ensures Placed(d, t[k := p]) <==> !Overrun(d, t, p.first, p.last)
    ensures TwoSectors(t) ==> !Overrun(d, t, p.first, p.last) && (TwoSectors(t[k := p]) <==> p.first < p.last)
  {
    hide Placed, Overrun, TwoSectors, Free;
    if TwoSectors(t) { TwoSectorsNoOverrun(d, t, p.first, p.last); }
    if Overrun(d, t, p.first, p.last) { OverrunMisplaces(d, t, k, p); } else { PlaceNew(d, t, k, p); }
  }

  class GptData {
    const partitions: array<Part>
    var disk: Disk
    var alignment: nat

    ghost function Table(): seq<Part>
      reads this, partitions
    {
      partitions[..]
    }

    /** Used partitions are in range and disjoint. */
    ghost predicate Valid()
      reads this, partitions
    {
      alignment >= 1 && Placed(disk, Table())
    }

    /** A table of numParts blank entries. */
    constructor (numParts: nat, firstUsable: nat, lastUsable: nat, align: nat)
      requires firstUsable >= 1 && align >= 1
      ensures Valid() && TwoSectors(Table()) && fresh(partitions)
      ensures partitions.Length == numParts && disk == Disk(firstUsable, lastUsable) && alignment == align
      ensures forall i | 0 <= i < numParts :: Table()[i] == BLANK
    {
      partitions := new Part[numParts](i => BLANK);
      disk, alignment := Disk(firstUsable, lastUsable), align;
    }

    predicate IsFreePartNum(partNum: nat)
      reads this, partitions
    {
      partNum < partitions.Length && !partitions[partNum].IsUsed()
    }

    /** Creates a partition at the aligned start; it succeeds exactly when the entry is unused and every
        sector from there to the end is free, or all but the last and that one is overrun. Exactly an
        overrun makes partitions overlap. */
    method CreatePartition(partNum: nat, startSector: nat, endSector: nat, guid: nat) returns (ok: bool)
      requires Valid()
      modifies partitions
      ensures var start := Aligned(disk, old(Table()), alignment, startSector);
              && NearestFree(disk, old(Table()), alignment, startSector, start)
              && (ok <==> old(IsFreePartNum(partNum)) && Granted(disk, old(Table()), start, endSector))
              && Table() == (if ok then old(Table())[partNum := Part(DEFAULT_GPT_TYPE, start, endSector, guid)] else old(Table()))
              && (Valid() <==> !(ok && Overrun(disk, old(Table()), start, endSector)))
              && (old(TwoSectors(Table())) ==> Valid() && (TwoSectors(Table()) <==> !ok || start < endSector))
    {
      hide Placed, TwoSectors, Free, Aligned, LastInFree, MissedAt, NearestFree;
      ok := false;
      AlignedExact(disk, Table(), alignment, startSector, Aligned(disk, Table(), alignment, startSector));
      if IsFreePartNum(partNum) {
        var start, moved := Align(disk, partitions, alignment, startSector);
        var free := IsFree(disk, partitions, start);
        if free && start <= endSector {
          RoomIff(disk, Table(), start, endSector);
          var last := FindLastInFree(disk, partitions, start);
          if last >= endSector {
            ghost var t, p := Table(), Part(DEFAULT_GPT_TYPE, start, endSector, guid);
            CreatedIn(disk, t, partNum, p);
            partitions[partNum] := Part(DEFAULT_GPT_TYPE, start, endSector, guid);
            ok := true;
            assert Table() == t[partNum := p];
          }
        }
      }
    }

    /** The lowest and highest used entries, and how many are used. */
    method GetPartRange() returns (found: nat, low: nat, high: nat)
      ensures found == 0 ==> low == 0 && high == 0 && forall i | 0 <= i < |Table()| :: !Table()[i].IsUsed()
      ensures found > 0 ==>
                && low <= high < |Table()| && Table()[low].IsUsed() && Table()[high].IsUsed()
                && forall i | 0 <= i < |Table()| && Table()[i].IsUsed() :: low <= i <= high
    {
      var numParts := partitions.Length;
      found, low, high := 0, numParts + 1, 0;
      for i := 0 to numParts
        invariant found == 0 ==> low == numParts + 1 && high == 0 && forall j | 0 <= j < i :: !partitions[j].IsUsed()
        invariant found > 0 ==>
                    && low <= high < i && partitions[low].IsUsed() && partitions[high].IsUsed()
                    && forall j | 0 <= j < i && partitions[j].IsUsed() :: low <= j <= high
      {
        if partitions[i].IsUsed() {
          high := i;
          if low == numParts + 1 {
            low := i;
          }
          found := found + 1;
        }
      }
      if low == numParts + 1 {
        low := 0;
      }
    }

    /** Blanks an entry that lies between the lowest and the highest used ones. */
    method DeletePartition(partNum: nat) returns (ok: bool)
      requires Valid()
      modifies partitions
      ensures Valid() && (old(TwoSectors(Table())) ==> TwoSectors(Table()))
      ensures ok <==> exists i, j :: 0 <= i <= partNum <= j < |old(Table())| && old(Table())[i].IsUsed() && old(Table())[j].IsUsed()
      ensures Table() == if ok then old(Table())[partNum := BLANK] else old(Table())
    {
      hide Placed, TwoSectors;
      var found, low, high := GetPartRange();
      ok := found > 0 && low <= partNum <= high;
      if ok {
        ghost var t := Table();
        PlaceBlank(disk, t, partNum);
        partitions[partNum] := BLANK;
        assert Table() == t[partNum := BLANK];
      }
    }

    /** Exchanges two entries when both numbers are legal. */
    method SwapPartitions(a: nat, b: nat) returns (ok: bool)
      requires Valid()
      modifies partitions
      ensures Valid() && (old(TwoSectors(Table())) ==> TwoSectors(Table()))
      ensures ok <==> a < |old(Table())| && b < |old(Table())|
      ensures Table() == if ok then old(Table())[a := old(Table())[b]][b := old(Table())[a]] else old(Table())
    {
      hide Placed, TwoSectors;
      ok := a < partitions.Length && b < partitions.Length;
      ghost var t := Table();
      if ok && a != b {
        partitions[a], partitions[b] := partitions[b], partitions[a];
        assert Table() == t[a := t[b]][b := t[a]];
        Permuted(disk, t, Table());
      }
    }

    /** Sorts the entries by start sector, empty ones last. */
    method SortGPT()
      requires Valid()
      modifies partitions
      ensures Valid() && (old(TwoSectors(Table())) ==> TwoSectors(Table()))
      ensures multiset(Table()) == multiset(old(Table())) && InOrder(Less, Table()) && Ascending(Table())
    {
      hide Placed, TwoSectors, InOrder, Sorted, Orders, Ascending;
      ghost var t := Table();
      var u := Sorted(Less, partitions[..]);
      LessOrders(t);
      SortedOk(Less, t);
      forall i | 0 <= i < partitions.Length {
        partitions[i] := u[i];
      }
      assert Table() == u;
      Permuted(disk, t, u);
      SortedAscends(disk, u);
    }
  }

  // ----- Runs of operations.

  datatype Change = Create(partNum: nat, start: nat, end: nat, guid: nat) | Delete(partNum: nat) | Swap(a: nat, b: nat) | Sort

  /** What one operation makes of the table. */
  ghost function After(d: Disk, alignment: nat, t: seq<Part>, c: Change): seq<Part>
    requires alignment >= 1
  {
    match c
    case Create(k, start, end, guid) =>
      var first := Aligned(d, t, alignment, start);
      if k < |t| && !t[k].IsUsed() && Granted(d, t, first, end) then t[k := Part(DEFAULT_GPT_TYPE, first, end, guid)] else t
    case Delete(k) =>
      if exists i, j :: 0 <= i <= k <= j < |t| && t[i].IsUsed() && t[j].IsUsed() then t[k := BLANK] else t
    case Swap(a, b) => if a < |t| && b < |t| then t[a := t[b]][b := t[a]] else t
    case Sort => Sorted(Less, t)
  }

  /** The operation creates a partition that overruns another one. */
  ghost predicate Overruns(d: Disk, alignment: nat, t: seq<Part>, c: Change)
    requires alignment >= 1
  {
    c.Create? && c.partNum < |t| && !t[c.partNum].IsUsed() && Overrun(d, t, Aligned(d, t, alignment, c.start), c.end)
  }

  /** The aligned start leaves a new partition two sectors. */
  ghost predicate Roomy(d: Disk, alignment: nat, t: seq<Part>, c: Change)
    requires alignment >= 1
  {
    c.Create? ==> Aligned(d, t, alignment, c.start) < c.end
  }

  ghost function AfterAll(d: Disk, alignment: nat, t: seq<Part>, cs: seq<Change>): seq<Part>
    requires alignment >= 1
  {
    if cs == [] then t else After(d, alignment, AfterAll(d, alignment, t, cs[..|cs| - 1]), cs[|cs| - 1])
  }

  ghost predicate AllRoomy(d: Disk, alignment: nat, t: seq<Part>, cs: seq<Change>)
    requires alignment >= 1
  {
    cs == [] || (AllRoomy(d, alignment, t, cs[..|cs| - 1]) && Roomy(d, alignment, AfterAll(d, alignment, t, cs[..|cs| - 1]), cs[|cs| - 1]))
  }

  /** One operation keeps the layout exactly when it does not overrun a partition. */
  lemma {:induction false} ChangeKeepsIff(d: Disk, alignment: nat, t: seq<Part>, c: Change)
    requires alignment >= 1 && Placed(d, t)
    ensures Placed(d, After(d, alignment, t, c)) <==> !Overruns(d, alignment, t, c)
    ensures |After(d, alignment, t, c)| == |t|
  {
    hide Placed, TwoSectors, Aligned, Free, Sorted, InOrder, Orders, Room, Overrun;
    match c
    case Create(k, start, end, guid) =>
      var first := Aligned(d, t, alignment, start);
      if k < |t| && !t[k].IsUsed() && Granted(d, t, first, end) { CreatedIn(d, t, k, Part(DEFAULT_GPT_TYPE, first, end, guid)); }
    case Delete(k) =>
      if k < |t| { PlaceBlank(d, t, k); }
    case Swap(a, b) =>
      if a < |t| && b < |t| { Permuted(d, t, t[a := t[b]][b := t[a]]); }
    case Sort =>
      LessOrders(t);
      SortedOk(Less, t);
      Permuted(d, t, Sorted(Less, t));
  }

  lemma {:induction false} ChangeKeeps(d: Disk, alignment: nat, t: seq<Part>, c: Change)
    requires alignment >= 1 && Placed(d, t) && TwoSectors(t) && Roomy(d, alignment, t, c)
    ensures !Overruns(d, alignment, t, c) && TwoSectors(After(d, alignment, t, c))
  {
    hide Placed, TwoSectors, Aligned, Free, Sorted, InOrder, Orders, Room, Overrun;
    match c
    case Create(k, start, end, guid) =>
      var first := Aligned(d, t, alignment, start);
      TwoSectorsNoOverrun(d, t, first, end);
      if k < |t| && !t[k].IsUsed() && Granted(d, t, first, end) { CreatedIn(d, t, k, Part(DEFAULT_GPT_TYPE, first, end, guid)); }
    case Delete(k) =>
      if k < |t| { PlaceBlank(d, t, k); }
    case Swap(a, b) =>
      if a < |t| && b < |t| { Permuted(d, t, t[a := t[b]][b := t[a]]); }
    case Sort =>
      LessOrders(t);
      SortedOk(Less, t);
      Permuted(d, t, Sorted(Less, t));
  }

  /** After each operation of a run the used partitions are disjoint and inside the usable range. */
  ghost predicate PlacedThroughout(d: Disk, alignment: nat, t: seq<Part>, cs: seq<Change>)
    requires alignment >= 1
  {
    Placed(d, AfterAll(d, alignment, t, cs)) && (cs == [] || PlacedThroughout(d, alignment, t, cs[..|cs| - 1]))
  }

  ghost predicate NeverOverruns(d: Disk, alignment: nat, t: seq<Part>, cs: seq<Change>)
    requires alignment >= 1
  {
    cs == [] || (NeverOverruns(d, alignment, t, cs[..|cs| - 1]) && !Overruns(d, alignment, AfterAll(d, alignment, t, cs[..|cs| - 1]), cs[|cs| - 1]))
  }

  /** Exactly when a sequence of creations, deletions, swaps and sorts keeps the layout throughout: none of
      the creations overruns a partition that the free-space bound passes over. */
  lemma {:induction false} LayoutKeptIff(d: Disk, alignment: nat, t: seq<Part>, cs: seq<Change>)
    requires alignment >= 1 && Placed(d, t)
    ensures PlacedThroughout(d, alignment, t, cs) <==> NeverOverruns(d, alignment, t, cs)
  {
    hide Placed, After, Overruns;
    if cs != [] {
      LayoutKeptIff(d, alignment, t, cs[..|cs| - 1]);
      var u := AfterAll(d, alignment, t, cs[..|cs| - 1]);
      LastPlaced(d, alignment, t, cs[..|cs| - 1]);
      if Placed(d, u) { ChangeKeepsIff(d, alignment, u, cs[|cs| - 1]); }
    }
  }

  lemma {:induction false} LastPlaced(d: Disk, alignment: nat, t: seq<Part>, cs: seq<Change>)
    requires alignment >= 1
    ensures PlacedThroughout(d, alignment, t, cs) ==> Placed(d, AfterAll(d, alignment, t, cs))
  {
  }

  /** Layout safety: any sequence of creations, deletions, swaps and sorts, every new partition having two
      sectors, keeps the used partitions disjoint and inside the usable range. */
  lemma {:induction false} LayoutSafe(d: Disk, alignment: nat, t: seq<Part>, cs: seq<Change>)
    requires alignment >= 1 && Placed(d, t) && TwoSectors(t) && AllRoomy(d, alignment, t, cs)
    ensures Placed(d, AfterAll(d, alignment, t, cs)) && TwoSectors(AfterAll(d, alignment, t, cs))
    ensures |AfterAll(d, alignment, t, cs)| == |t|
  {
    hide Placed, TwoSectors, After, Roomy, Overruns;
    if cs != [] {
      LayoutSafe(d, alignment, t, cs[..|cs| - 1]);
      var u := AfterAll(d, alignment, t, cs[..|cs| - 1]);
      ChangeKeeps(d, alignment, u, cs[|cs| - 1]);
      ChangeKeepsIff(d, alignment, u, cs[|cs| - 1]);
    }
  }

  /** A run that overruns: one sector is created at the end of the disk, then a partition up to it. */
  lemma {:induction false} OverrunningRun()
    ensures var d, t := Disk(1, 10), [BLANK, BLANK];
            Placed(d, t) && TwoSectors(t) && !PlacedThroughout(d, 1, t, [Create(0, 10, 10, 7), Create(1, 1, 10, 8)])
  {
    var d, t := Disk(1, 10), [BLANK, BLANK];
    var cs := [Create(0, 10, 10, 7), Create(1, 1, 10, 8)];
    assert cs[..1] == [cs[0]] && cs[..1][..0] == [];
    var u := [Part(DEFAULT_GPT_TYPE, 10, 10, 7), BLANK];
    FirstCreated();
    SecondOverruns();
    assert AfterAll(d, 1, t, cs[..1]) == u by {
      assert AfterAll(d, 1, t, []) == t;
      hide After;
    }
    hide Overruns, After;
    LayoutKeptIff(d, 1, t, cs);
  }

  lemma {:induction false} FirstCreated()
    ensures var d, t := Disk(1, 10), [BLANK, BLANK];
            After(d, 1, t, Create(0, 10, 10, 7)) == [Part(DEFAULT_GPT_TYPE, 10, 10, 7), BLANK]
  {
    var d, t := Disk(1, 10), [BLANK, BLANK];
    NotCovered(t, 10);
    assert Room(d, t, 10, 10);
  }

  lemma {:induction false} SecondOverruns()
    ensures var d, u := Disk(1, 10), [Part(DEFAULT_GPT_TYPE, 10, 10, 7), BLANK];
            Overruns(d, 1, u, Create(1, 1, 10, 8))
  {
    var d, u := Disk(1, 10), [Part(DEFAULT_GPT_TYPE, 10, 10, 7), BLANK];
    forall x | 1 <= x <= 9 ensures Free(d, u, x) { NotCovered(u, x); }
    assert Missed(d, u, 0);
    assert MissedAt(d, u, 10);
  }
}
