/** The linked list of extended boot records that holds the logical partitions of an MBR disk. The disk is
    a map from sectors to records. */
module EbrChain {

  const MAX_PARTS := 128
  const WORD := 0x1_0000_0000
  const SIGNATURE := 0xAA55
  const EXTENDED := 0x0f
  const EFI_GPT := 0xEE

  datatype Inclusion = NONE | PRIMARY | LOGICAL

  /** A table entry: type code, start, length and what it is to be written as. */
  datatype Part = Part(kind: nat, first: nat, length: nat, incl: Inclusion) {
    function LastLBA(): nat { if length > 0 then first + length - 1 else 0 }
  }

  const EMPTY := Part(0, 0, 0, NONE)

  /** The part of a boot record that the chain uses: the signature and the first two of its four entries. */
  datatype Record = Record(signature: nat, kind0: nat, first0: nat, length0: nat, kind1: nat, first1: nat, length1: nat)

  predicate IsExtended(kind: nat) { kind == 0x05 || kind == 0x0f || kind == 0x85 }

  /** Entries that are to be written, from entry i on. */
  ghost function InUse(t: seq<Part>, i: nat): seq<Part>
    decreases |t| - i
  {
    if i >= |t| then [] else if t[i].incl == NONE then InUse(t, i + 1) else [t[i]] + InUse(t, i + 1)
  }

  /** Logicals that can be chained: in order, none overlapping the sector before the next, within 32 bits. */
  ghost predicate Chainable(ps: seq<Part>) {
    && (forall i | 0 <= i < |ps| :: ps[i].incl == LOGICAL && ps[i].length >= 1 && ps[i].first >= 2 && ps[i].first + ps[i].length <= WORD)
    && (forall i | 0 <= i < |ps| :: !IsExtended(ps[i].kind))
    && (forall i, j | 0 <= i < j < |ps| :: ps[i].first + ps[i].length < ps[j].first)
  }

  /** The record in front of ps[0]: its own partition one sector on, and the place of the next record,
      counted from the start of the extended partition. */
  ghost function RecordFor(ext: nat, ps: seq<Part>): Record
    requires ps != []
  {
    if |ps| > 1
    then Record(SIGNATURE, ps[0].kind, 1, ps[0].length, EXTENDED, (ps[1].first - ext - 1) % WORD, (ps[1].length + 1) % WORD)
    else Record(SIGNATURE, ps[0].kind, 1, ps[0].length, 0, 0, 0)
  }

  /** The disk holds the chain for ps, its first record in the sector before ps[0]. */
  ghost predicate Chained(disk: map<nat, Record>, ext: nat, ps: seq<Part>) {
    forall i | 0 <= i < |ps| :: ChainedAt(disk, ext, ps, i)
  }

  ghost predicate ChainedAt(disk: map<nat, Record>, ext: nat, ps: seq<Part>, i: nat)
    requires i < |ps|
  {
    ps[i].first >= 1 && ps[i].first - 1 in disk && disk[ps[i].first - 1] == RecordFor(ext, ps[i..])
  }

  /** What the records on the disk say, entry by entry: the first describes the record's own logical, from
      one sector on, and the second the extent of the next record, which reaches from that record to the end
      of its logical. The last record links nowhere. */
  ghost predicate LinksCover(disk: map<nat, Record>, ext: nat, ps: seq<Part>) {
    forall k | 0 <= k < |ps| :: ps[k].first >= 1 && ps[k].first - 1 in disk && Covers(disk[ps[k].first - 1], ext, ps, k)
  }

  ghost predicate Covers(r: Record, ext: nat, ps: seq<Part>, k: nat)
    requires k < |ps|
  {
    && r.signature == 0xAA55 && r.kind0 == ps[k].kind && r.first0 == 1 && r.length0 == ps[k].length
    && (k + 1 < |ps| ==>
          && r.kind1 == 0x0f && ext + r.first1 == ps[k + 1].first - 1
          && ext + r.first1 + r.length1 == ps[k + 1].first + ps[k + 1].length)
    && (k + 1 == |ps| ==> r.kind1 == r.first1 == r.length1 == 0)
  }

  ghost predicate AnEbr(ps: seq<Part>, s: nat) { exists i :: 0 <= i < |ps| && ps[i].first - 1 == s }

  method FindNextInUse(t: array<Part>, start0: int) returns (start: int)
    requires t.Length == MAX_PARTS && start0 >= 0
    ensures start == -1 ==> InUse(t[..], start0) == []
    ensures start != -1 ==>
              && start0 <= start < MAX_PARTS && t[start].incl != NONE
              && InUse(t[..], start0) == InUse(t[..], start) == [t[start]] + InUse(t[..], start + 1)
  {
    start := start0;
    if start >= MAX_PARTS {
      start := -1;
    }
    while start < MAX_PARTS && start >= 0 && t[start].incl == NONE
      invariant start == -1 ==> start0 >= MAX_PARTS
      invariant start != -1 ==> start0 <= start <= MAX_PARTS && InUse(t[..], start0) == InUse(t[..], start)
      decreases MAX_PARTS - start
    {
      start := start + 1;
    }
    if start < 0 || start >= MAX_PARTS {
      start := -1;
    }
  }

  /** The loop of WriteMBRData over the logicals, from the first free of them on. */
  method WriteLogicals(t: array<Part>, disk0: map<nat, Record>, ext: nat) returns (disk: map<nat, Record>)
    requires t.Length == MAX_PARTS && Chainable(InUse(t[..], 4)) && InUse(t[..], 4) != [] && InUse(t[..], 4)[0].first == ext + 1
    ensures Chained(disk, ext, InUse(t[..], 4)) && LinksCover(disk, ext, InUse(t[..], 4))
    ensures forall s | s in disk0 && !AnEbr(InUse(t[..], 4), s) :: s in disk && disk[s] == disk0[s]
  {
    hide InUse, Chainable, ChainedAt, AnEbr;
    ghost var ps := InUse(t[..], 4);
    ghost var k := 0;
    disk := disk0;
    var partNum := FindNextInUse(t, 4);
    var writeEbrTo := ext;
    var more := true;
    assert ps[0..] == ps;
    while more && partNum < MAX_PARTS && partNum >= 0
      invariant 0 <= k <= |ps| && (more ==> k < |ps|) && (!more ==> k == |ps|)
      invariant more ==> 4 <= partNum < MAX_PARTS && t[partNum].incl != NONE && InUse(t[..], partNum) == ps[k..] && writeEbrTo == ps[k].first - 1
      invariant forall i | 0 <= i < k :: ChainedAt(disk, ext, ps, i)
      invariant forall s | s in disk0 && !AnEbr(ps, s) :: s in disk && disk[s] == disk0[s]
      decreases |ps| - k, more
    {
      HeadOf(t[..], partNum, ps, k);
      var next := FindNextInUse(t, partNum + 1);
      LogicalFacts(ps, k);
      if next != -1 { HeadOf(t[..], next, ps, k + 1); }
      var record;
      if next < MAX_PARTS && next > 0 && t[next].first > 0 {
        record := Record(SIGNATURE, t[partNum].kind, 1, t[partNum].length, EXTENDED, (t[next].first - ext - 1) % WORD, (t[next].length + 1) % WORD);
      } else {
        record := Record(SIGNATURE, t[partNum].kind, 1, t[partNum].length, 0, 0, 0);
        more := false;
      }
      ghost var d := disk;
      disk := disk[writeEbrTo := record];
      WriteKeeps(d, disk, ext, ps, k);
      writeEbrTo := record.first1 + ext;
      partNum := next;
      k := k + 1;
    }
    ChainCovers(disk, ext, ps);
  }

  /** Neighbours in the chain. */
  lemma {:induction false} LogicalFacts(ps: seq<Part>, k: nat)
    requires Chainable(ps) && k < |ps|
    ensures ps[k].first >= 2 && ps[k].first >= ps[0].first && ps[k].first + ps[k].length <= WORD
    ensures k + 1 < |ps| ==> ps[k + 1].first > ps[k].first && (ps[k + 1].first - ps[0].first) % WORD == ps[k + 1].first - ps[0].first > 0
  {
    if k > 0 { assert ps[0].first + ps[0].length < ps[k].first; }
    if k + 1 < |ps| { assert ps[0].first + ps[0].length < ps[k + 1].first <= WORD - 1; }
  }

  /** The extents of a chain, on the disk. */
  lemma {:induction false} ChainCovers(disk: map<nat, Record>, ext: nat, ps: seq<Part>)
    requires Chainable(ps) && Chained(disk, ext, ps) && (ps != [] ==> ps[0].first == ext + 1)
    ensures LinksCover(disk, ext, ps)
  {
    hide Chainable;
    forall k: nat | k < |ps| ensures ps[k].first >= 1 && ps[k].first - 1 in disk && Covers(disk[ps[k].first - 1], ext, ps, k) {
      AtChain(disk, ext, ps, k);
      LogicalFacts(ps, k);
      if k + 1 < |ps| { LogicalFacts(ps, k + 1); }
    }
  }

  lemma {:induction false} WriteKeeps(disk: map<nat, Record>, d: map<nat, Record>, ext: nat, ps: seq<Part>, k: nat)
    requires Chainable(ps) && k < |ps| && ps[k].first >= 1 && d == disk[ps[k].first - 1 := RecordFor(ext, ps[k..])]
    requires forall i | 0 <= i < k :: ChainedAt(disk, ext, ps, i)
    ensures AnEbr(ps, ps[k].first - 1)
    ensures forall i | 0 <= i < k + 1 :: ChainedAt(d, ext, ps, i)
  {
    forall i | 0 <= i < k ensures ChainedAt(d, ext, ps, i) {
      assert ChainedAt(disk, ext, ps, i);
      assert ps[i].first + ps[i].length < ps[k].first;
    }
  }

  lemma {:induction false} HeadOf(t: seq<Part>, partNum: nat, ps: seq<Part>, k: nat)
    requires partNum < |t| && k <= |ps| && InUse(t, partNum) == ps[k..] && t[partNum].incl != NONE
    ensures k < |ps| && ps[k] == t[partNum] && InUse(t, partNum + 1) == ps[k + 1..]
  {
    assert |ps[k..]| > 0;
    assert ps[k..] == [ps[k]] + ps[k + 1..];
  }

  // ----- Reading the chain back.

  /** What the reader makes of a logical: the same place and type, included as a logical. */
  function AsRead(p: Part): Part { Part(p.kind, p.first, p.length, LOGICAL) }

  lemma {:induction false} RecordRead(ext: nat, ps: seq<Part>, k: nat)
    requires Chainable(ps) && k < |ps| && ext + 1 == ps[0].first
    ensures var r := RecordFor(ext, ps[k..]);
            && r.signature == SIGNATURE && r.kind0 == ps[k].kind && r.first0 == 1 && r.length0 == ps[k].length
            && (r.first1 != 0 <==> k + 1 < |ps|)
            && (k + 1 < |ps| ==> r.first1 + ext == ps[k + 1].first - 1)
  {
    LogicalFacts(ps, k);
  }

  /** A chain never visits a sector twice. */
  lemma {:induction false} StartsDiffer(ps: seq<Part>, i: nat, j: nat)
    requires Chainable(ps) && i < j < |ps|
    ensures ps[i].first < ps[j].first && ps[i].first >= 2
  {
  }

  /** ReadLogicalParts, on a chain as the writer leaves it: the entries from partNum0 on become the
      logicals, in order, and the result is the last index used. */
  method ReadLogicalParts(disk: map<nat, Record>, ext: nat, partNum0: nat, t: array<Part>, ghost ps: seq<Part>) returns (result: int)
    requires t.Length == MAX_PARTS && Chainable(ps) && ps != [] && ps[0].first == ext + 1 && Chained(disk, ext, ps)
    requires 0 < partNum0 && partNum0 + |ps| <= MAX_PARTS
    modifies t
    ensures result == partNum0 + |ps| - 1
    ensures forall i | 0 <= i < |ps| :: t[partNum0 + i] == AsRead(ps[i])
    ensures forall i | 0 <= i < MAX_PARTS && !(partNum0 <= i < partNum0 + |ps|) :: t[i] == old(t[i])
  {
    hide Chainable, ChainedAt;
    var partNum: int, another, allOk := partNum0, true, 1;
    var offset := ext;
    var ebrLocations := new nat[MAX_PARTS](i => 0);
    ghost var k := 0;
    LogicalFacts(ps, 0);
    while another && partNum < MAX_PARTS && partNum >= 0 && allOk > 0
      invariant fresh(ebrLocations) && ebrLocations.Length == MAX_PARTS && allOk == 1
      invariant 0 <= k <= |ps| && (another ==> k < |ps| && partNum == partNum0 + k && offset == ps[k].first - 1)
      invariant !another ==> k == |ps| && partNum == partNum0 + |ps| - 1
      invariant forall i | 0 <= i < MAX_PARTS :: ebrLocations[i] == if partNum0 <= i < partNum0 + k then ps[i - partNum0].first - 1 else 0
      invariant forall i | 0 <= i < k :: t[partNum0 + i] == AsRead(ps[i])
      invariant forall i | 0 <= i < MAX_PARTS && !(partNum0 <= i < partNum0 + k) :: t[i] == old(t[i])
      decreases |ps| - k
    {
      LogicalFacts(ps, k);
      RecordRead(ext, ps, k);
      AtChain(disk, ext, ps, k);
      allOk := CheckLoop(ebrLocations, offset, ps, k, partNum0);
      ebrLocations[partNum] := offset;
      var ebr := disk[offset];
      if ebr.signature != SIGNATURE {
        allOk := -1;
      }
      t[partNum] := Part(ebr.kind0, ebr.first0 + offset, ebr.length0, LOGICAL);
      k := k + 1;
      if ebr.first1 != 0 && partNum < MAX_PARTS - 1 {
        offset := ext + ebr.first1;
        partNum := partNum + 1;
      } else {
        another := false;
      }
    }
    result := partNum * allOk;
  }

  lemma {:induction false} AtChain(disk: map<nat, Record>, ext: nat, ps: seq<Part>, k: nat)
    requires Chained(disk, ext, ps) && k < |ps|
    ensures ps[k].first >= 1 && ps[k].first - 1 in disk && disk[ps[k].first - 1] == RecordFor(ext, ps[k..])
  {
    assert ChainedAt(disk, ext, ps, k);
  }

  /** The search for a record read before: -1 when the chain loops. */
  method CheckLoop(ebrLocations: array<nat>, offset: nat, ghost ps: seq<Part>, ghost k: nat, ghost partNum0: nat) returns (allOk: int)
    requires ebrLocations.Length == MAX_PARTS && Chainable(ps) && k < |ps| && offset == ps[k].first - 1
    requires forall i | 0 <= i < MAX_PARTS :: ebrLocations[i] == if partNum0 <= i < partNum0 + k then ps[i - partNum0].first - 1 else 0
    ensures allOk == 1
  {
    hide Chainable;
    allOk := 1;
    for i := 0 to MAX_PARTS
      invariant allOk == 1
    {
      LogicalFacts(ps, k);
      if partNum0 <= i < partNum0 + k { StartsDiffer(ps, i - partNum0, k); }
      if ebrLocations[i] == offset {
        allOk := -1;
      }
    }
  }

  /** The sectors of the chain lie in the extended partition, which starts one sector before the first
      logical and ends with the last, and in no logical. */
  lemma {:induction false} EbrsOutside(ps: seq<Part>, i: nat)
    requires Chainable(ps) && i < |ps|
    ensures var ebr, last := ps[i].first - 1, ps[|ps| - 1];
            && ps[0].first - 1 <= ebr <= last.first + last.length - 1
            && forall j | 0 <= j < |ps| :: !(ps[j].first <= ebr <= ps[j].LastLBA())
  {
    forall j | 0 <= j < |ps| ensures !(ps[j].first <= ps[i].first - 1 <= ps[j].LastLBA()) {
      if j < i { assert ps[j].first + ps[j].length < ps[i].first; }
      if i < j { assert ps[i].first + ps[i].length < ps[j].first; }
    }
  }

  lemma {:induction false} InUseSize(t: seq<Part>, i: nat)
    requires i <= |t|
    ensures |InUse(t, i)| <= |t| - i
    decreases |t| - i
  {
    if i < |t| { InUseSize(t, i + 1); }
  }
}
