/** The operations on the cache as functions of its state, and every run of them. */
module DnsRuns {
  import opened DnsRecords
  import opened Options
  import opened Sequences
  import opened DnsSteps
  import opened DnsScan
  import opened DnsLookup
  import opened DnsAnswers
  import opened DnsInsert
  import opened DnsAliases

  const SMALL_NAME := 40

  /** Flags with which the program inserts: a forward record with an address family or an alias, or a
      reverse record with a family. */
  predicate Insertable(flags: set<Flag>) {
    && Hosts !in flags && Dhcp !in flags && BigName !in flags
    && (Forward in flags <==> Reverse !in flags)
    && (Ipv4 in flags || Ipv6 in flags || (Forward in flags && Cname in flags))
  }

  /** The cache and whether an insertion of the current batch has failed. */
  datatype Machine = Machine(s: State, failed: bool)

  // ----- The cache as cache_init leaves it.

  const BLANK := Record({}, "", 0, 0, Address(0, 0), None, 0)

  ghost function Newest(n: nat): seq<Id> { if n == 0 then [] else [n - 1] + Newest(n - 1) }

  ghost function Pool(n: nat): map<Id, Record> { map id: Id | id < n :: BLANK.(uid := id) }

  /** Every record of the pool is free, the youngest has the highest number. */
  ghost function Initial(n: nat, mix: bv32 -> bv32, size: nat): State {
    State(n, mix, Pool(n), Newest(n), seq(size, b => []), [], map[], 0, n / 10, n)
  }

  lemma {:induction false} PoolStarts()
    ensures Newest(0) == [] && Pool(0) == map[]
  {
  }

  lemma {:induction false} PoolGrows(i: nat)
    ensures Newest(i + 1) == [i] + Newest(i) && Pool(i + 1) == Pool(i)[i := BLANK.(uid := i)]
  {
  }

  lemma {:induction false} NewestBag(n: nat)
    ensures multiset(Newest(n)) == multiset(Ids(n)) && |Newest(n)| == n
  {
    if n > 0 {
      NewestBag(n - 1);
      OneMore(Newest(n - 1), Ids(n - 1), n - 1);
    } else {
      assert Newest(0) == [] && Ids(0) == {};
    }
  }

  lemma {:induction false} OneMore(s: seq<Id>, m: set<Id>, x: Id)
    requires multiset(s) == multiset(m) && x !in m
    ensures multiset([x] + s) == multiset(m + {x})
  {
    assert multiset(m + {x}) == multiset(m) + multiset{x};
  }

  lemma {:induction false} InitialUntouched(n: nat, mix: bv32 -> bv32, size: nat)
    requires size > 0
    ensures Untouched(Initial(n, mix, size)) && |Initial(n, mix, size).lru| == n
  {
    hide Newest, Ids;
    NewestBag(n);
  }

  ghost predicate Untouched(s: State) {
    && s.pending == [] && multiset(s.lru) == multiset(Ids(s.n)) && |s.chains| > 0 && (forall b | 0 <= b < |s.chains| :: s.chains[b] == [])
    && (forall x: Id :: x in s.recs <==> x < s.n)
    && (forall x: Id | x < s.n :: s.recs[x].flags == {} && s.recs[x].target == None && s.recs[x].uid == x)
    && s.uid == s.n && s.bigFree == 0 && s.bigLeft == s.n / 10
  }

  lemma {:induction false} UntouchedSound(s: State)
    requires Untouched(s)
    ensures Sound(s) && TargetsNewer(s) && forall x :: !Hashed(s.chains, x)
  {
    hide TableOk, BigCount, PoolOk, UsedPrefix, Hashed;
    EmptyTable(s.mix, s.recs, s.chains);
    FreshPool(s);
    NoBigNames(s.recs, s.n);
  }

  lemma {:induction false} EmptyTable(mix: bv32 -> bv32, recs: map<Id, Record>, t: seq<seq<Id>>)
    requires |t| > 0 && forall b | 0 <= b < |t| :: t[b] == []
    ensures TableOk(mix, recs, t) && forall x: Id :: !Hashed(t, x)
  {
    hide Bucket, Rank;
  }

  lemma {:induction false} FreshPool(s: State)
    requires s.pending == [] && multiset(s.lru) == multiset(Ids(s.n))
    requires forall x: Id :: x in s.recs <==> x < s.n
    requires forall x: Id | x < s.n :: s.recs[x].flags == {}
    ensures PoolOk(s.n, s.lru, s.pending) && (forall x | x in s.lru :: x in s.recs) && UsedPrefix(s.recs, s.lru)
  {
    forall x | x in s.lru ensures x in s.recs { PoolMembers(s.n, s.lru, s.pending, x); }
  }

  lemma {:induction false} NoBigNames(recs: map<Id, Record>, n: nat)
    requires forall x: Id | x < n && x in recs :: BigName !in recs[x].flags
    ensures BigCount(recs, n) == 0
  {
    if n > 0 { NoBigNames(recs, n - 1); }
  }

  // ----- cache_start_insert.

  ghost function Recycled(s: State): (t: State)
    requires Sound(s)
    ensures Sound(t) && t.pending == [] && t.n == s.n && t.lru == s.lru + s.pending && t.chains == s.chains && t.links == s.links
    decreases |s.pending|
  {
    if s.pending == [] then s
    else
      RecycleSound(s);
      assert s.lru + [s.pending[0]] + s.pending[1..] == s.lru + s.pending;
      Recycled(Recycle(s))
  }

  // ----- cache_insert.

  /** A NULL name is the empty one. */
  function Text(name: Option<string>): string { if name.Some? then name.value else "" }

  function QueryOf(name: string, addr: Option<Address>, flags: set<Flag>): Query {
    if Forward in flags then ByName(name, flags) else ByAddr(addr, flags)
  }

  /** h is a hosts or DHCP record that keeps the name out. */
  ghost predicate Refuses(s: State, h: Id, name: string, flags: set<Flag>) {
    h >= s.n && Hashed(s.chains, h) && h in s.recs && Conflict(s.recs[h], name, flags)
  }

  /** The record heads the pending chain, filled in, and nothing it replaces is left in the table. */
  ghost predicate Entered(t: State, pending: seq<Id>, id: Id, name: string, addr: Option<Address>, ttd: int, flags: set<Flag>) {
    && t.pending == [id] + pending && id in t.recs && !Hashed(t.chains, id)
    && Filled(t.recs[id], name, addr, ttd, flags)
    && Replaced(t, QueryOf(name, addr, flags))
  }

  lemma {:induction false} SamePending(s: State, t: State)
    requires Framed(s, t)
    ensures t.n == s.n && t.pending == s.pending && (TargetsNewer(s) ==> TargetsNewer(t))
  {
    forall i | 0 <= i < |t.pending| ensures t.pending[i] in s.recs && t.pending[i] in t.recs && t.recs[t.pending[i]] == s.recs[t.pending[i]] {
      assert t.pending[i] in s.pending;
    }
  }

  lemma {:induction false} GrabNewer(s: State, t: State, id: Id, r: Record)
    requires Inv(s) && TargetsNewer(s) && t.recs == s.recs[id := r] && t.pending == [id] + s.pending && r.target == None && id in s.lru
    ensures TargetsNewer(t)
  {
    hide TableOk, UsedPrefix, BigOk, UidOk, PoolOk, RecordOk, StaticOk;
    PoolMembers(s.n, s.lru, s.pending, id);
    forall i, j | 0 <= i <= j < |t.pending| && t.pending[i] in t.recs ensures t.recs[t.pending[i]].target != Some(t.pending[j]) {
      if i > 0 {
        assert t.pending[i] == s.pending[i - 1] && t.pending[j] == s.pending[j - 1];
        assert t.pending[i] in s.pending;
      }
    }
  }

  lemma {:induction false} WithoutConfig(flags: set<Flag>)
    requires Insertable(flags)
    ensures Insertable(flags - {Config})
  {
  }

  lemma {:induction false} NewRecord(r: Record, flags: set<Flag>, big: bool)
    requires Insertable(flags) && r.flags == (if big then flags + {BigName} else flags)
    ensures !Static(r) && SelfReplacing(r) && r.flags - {BigName} == flags - {BigName}
    ensures BigName in r.flags <==> big
  {
  }

  lemma {:induction false} GrabEnters(s: State, t: State, id: Id, r: Record, name: string, addr: Option<Address>, ttd: int, flags: set<Flag>)
    requires Sound(s) && t.chains == s.chains && t.recs == s.recs[id := r] && t.pending == [id] + s.pending
    requires id in s.lru && id in s.recs && !InUse(s.recs[id]) && Replaced(s, QueryOf(name, addr, flags))
    requires Filled(r, name, addr, ttd, flags)
    ensures Entered(t, s.pending, id, name, addr, ttd, flags)
  {
    hide Inv, Findable, Hashed, InUse, Conflict, ReverseConflict, Filled;
    TailNotHashed(s, id);
  }

  lemma {:induction false} ReplacedStill(s: State, t: State, name: string, addr: Option<Address>, flags: set<Flag>)
    requires Replaced(s, QueryOf(name, addr, flags)) && Undisturbed(s, t)
    ensures Replaced(t, QueryOf(name, addr, flags))
  {
    hide Hashed, Conflict, ReverseConflict;
  }

  lemma {:induction false} EmptyIff(s: State)
    requires Sound(s)
    ensures s.lru == [] <==> |s.pending| == s.n
  {
    hide Findable, TableOk, UsedPrefix, BigOk, UidOk, RecordOk, StaticOk, PoolOk;
    PoolSize(s.n, s.lru, s.pending);
  }

  lemma {:induction false} TailListed(s: State)
    requires FreeTail(s)
    ensures s.lru != [] && s.lru[|s.lru| - 1] in s.recs
  {
  }

  /** The contents of a new record. */
  ghost predicate Filled(r: Record, name: string, addr: Option<Address>, ttd: int, flags: set<Flag>) {
    && r.name == name && r.ttd == ttd && r.target == None && (addr.Some? ==> r.addr == addr.value)
    && r.flags == (if |name| >= SMALL_NAME then flags + {BigName} else flags)
  }

  lemma {:induction false} ListedRecord(s: State, k: nat)
    requires Sound(s) && k < |s.lru|
    ensures s.lru[k] in s.lru && s.lru[k] in s.recs
  {
    hide Findable, TableOk, UsedPrefix, BigOk, UidOk, RecordOk, StaticOk, PoolOk;
  }

  lemma {:induction false} SoundInv(s: State)
    requires Sound(s)
    ensures Inv(s)
  {
  }

  /** The scan for what an insertion replaces. */
  ghost function Scanned(s: State, name: string, addr: Option<Address>, now: int, flags: set<Flag>): (r: (State, bool))
    requires Sound(s)
  {
    HasChains(s);
    if Forward in flags then Sweep(s, Bucket(s.mix, name, |s.chains|), 0, ByName(name, flags), now)
    else (SweepAll(s, 0, ByAddr(addr, flags), now), true)
  }

  lemma {:induction false} ScannedOk(s: State, name: string, addr: Option<Address>, now: int, flags: set<Flag>)
    requires Sound(s)
    ensures var (t, ok) := Scanned(s, name, addr, now, flags);
            && Sound(t) && Undisturbed(s, t) && Framed(s, t)
            && (ok ==> Replaced(t, QueryOf(name, addr, flags)))
  {
    hide Sound, Inv, Undisturbed, Framed, Replaced, Hashed, Conflict, Sweep, SweepAll;
    SoundInv(s);
    HasChains(s);
    if Forward in flags { NameScanned(s, name, flags, now); } else { TableScanned(s, addr, flags, now); }
  }

  /** The scan for the tail's own name or address. */
  ghost function Spilled(s: State, id: Id, now: int, scrap: string): State
    requires Sound(s) && id in s.recs
  {
    HasChains(s);
    var r := s.recs[id];
    if Forward in r.flags then SweepOwn(s, Chain(s, r), 0, ByName(r.name, r.flags), now, Some(id), scrap).0
    else SweepAll(s, 0, ByAddr(Some(r.addr), r.flags), now)
  }

  lemma {:induction false} SpilledOk(s: State, id: Id, now: int, scrap: string)
    requires Sound(s) && s.lru != [] && id == s.lru[|s.lru| - 1] && id in s.recs && InUse(s.recs[id])
    ensures var t := Spilled(s, id, now, scrap);
            && Sound(t) && Undisturbed(s, t) && Framed(s, t)
            && (FreeTail(t) <==> !GivesUp(s, now, true))
  {
    hide Sound, Inv, InUse, Undisturbed, Framed, Replaced, SweepAll, SweepOwn, Sweep, Bucket, Hashed, Stops, FreeTail;
    var r := s.recs[id];
    SoundInv(s);
    HasChains(s);
    if Forward in r.flags {
      SpillTail(s, now, scrap);
      SweepOwnLeaves(s, Chain(s, r), 0, ByName(r.name, r.flags), now, Some(id), scrap);
      StaysSound(s, SweepOwn(s, Chain(s, r), 0, ByName(r.name, r.flags), now, Some(id), scrap).0);
    } else {
      OwnAddressFreesTail(s, id, now);
      TableScanned(s, Some(r.addr), r.flags, now);
    }
  }

  /** The search for a free record at the tail gives up on the list: no cached record has expired (the first
      pass, unless it is skipped, would have freed it), the tail is in use, and the scan for its own name
      comes to a live hosts or DHCP record of that name before it comes to a record that it would free. */
  ghost predicate GivesUp(s: State, now: int, freedAll: bool) {
    && s.lru != [] && |s.chains| > 0 && (freedAll || NoneExpired(s, now))
    && s.lru[|s.lru| - 1] in s.recs
    && var r := s.recs[s.lru[|s.lru| - 1]];
       InUse(r) && Forward in r.flags && Stops(s, Chain(s, r), 0, ByName(r.name, r.flags), now)
  }

  /** The state in which the loop that looks for a free record at the tail ends. */
  ghost function Room(s: State, now: int, freedAll: bool, scrap: string): (t: State)
    requires Sound(s)
    decreases if freedAll then 0 else 1
  {
    if s.lru == [] || FreeTail(s) then s
    else
      ListedRecord(s, |s.lru| - 1);
      if freedAll then Spilled(s, s.lru[|s.lru| - 1], now, scrap)
      else
        TableScanned(s, None, {}, now);
        Room(SweepAll(s, 0, ByAddr(None, {}), now), now, true, scrap)
  }

  /** Exactly when the search for room ends with a free record at the tail: the list is not empty and the
      search does not give up on it. */
  lemma {:induction false} RoomExact(s: State, now: int, freedAll: bool, scrap: string)
    requires Sound(s)
    ensures var t := Room(s, now, freedAll, scrap);
            && Sound(t) && Undisturbed(s, t) && Framed(s, t)
            && (FreeTail(t) <==> s.lru != [] && !GivesUp(s, now, freedAll))
    ensures GivesUp(s, now, freedAll) ==> s.lru != []
    decreases if freedAll then 0 else 1
  {
    hide Sound, Inv, InUse, Undisturbed, Framed, Replaced, SweepAll, Spilled, Hashed, Expired, NoneExpired, Stops;
    SoundInv(s);
    SelfUndisturbed(s);
    SelfFramed(s);
    if s.lru != [] && !FreeTail(s) {
      ListedRecord(s, |s.lru| - 1);
      if freedAll {
        SpilledOk(s, s.lru[|s.lru| - 1], now, scrap);
      } else {
        var t := SweepAll(s, 0, ByAddr(None, {}), now);
        TableScanned(s, None, {}, now);
        RoomExact(t, now, true, scrap);
        UndisturbedTrans(s, t, Room(t, now, true, scrap));
        FramedTrans(s, t, Room(t, now, true, scrap));
        FirstPass(s, t, now);
      }
    }
  }

  /** What the first pass, which frees all expired records, does to the condition. */
  lemma {:induction false} FirstPass(s: State, t: State, now: int)
    requires Sound(s) && Sound(t) && s.lru != [] && !FreeTail(s) && t == SweepAll(s, 0, ByAddr(None, {}), now)
    ensures t.lru != [] && (GivesUp(t, now, true) <==> GivesUp(s, now, false))
  {
    hide Sound, Inv, InUse, SweepAll, Hashed, Expired, NoneExpired, Stops, Framed, Bucket;
    SoundInv(s);
    HasChains(s);
    TableScanned(s, None, {}, now);
    FramedSizes(s, t);
    if NoneExpired(s, now) {
      ListedRecord(s, |s.lru| - 1);
      var r := s.recs[s.lru[|s.lru| - 1]];
      SweepAllQuiet(s, 0, now, Chain(s, r), ByName(r.name, r.flags));
    } else {
      ExpiredFreed(s, t, now);
    }
  }

  lemma {:induction false} FramedSizes(s: State, t: State)
    requires Framed(s, t)
    ensures |t.lru| == |s.lru| && |t.chains| == |s.chains| && t.mix == s.mix && t.n == s.n
  {
  }

  lemma {:induction false} ExpiredFreed(s: State, t: State, now: int)
    requires Sound(s) && Sound(t) && t == SweepAll(s, 0, ByAddr(None, {}), now) && !NoneExpired(s, now)
    ensures FreeTail(t) && !GivesUp(t, now, true)
  {
    hide Inv, Findable, InUse, SweepAll, Hashed, Expired, Stops, Framed, Undisturbed;
    TableScanned(s, None, {}, now);
    forall x | Hashed(s.chains, x) ensures x in s.recs { HashedIs(s, x); }
    var x: Id :| x < s.n && Hashed(s.chains, x) && Expired(s.recs[x], now);
    HashedListed(s, x);
    if Hashed(t.chains, x) { UndisturbedAt(s, t, x); }
    TailIsFree(s, t, x);
  }

  lemma {:induction false} HashedListed(s: State, x: Id)
    requires Inv(s) && x < s.n && Hashed(s.chains, x)
    ensures x in s.lru
  {
    hide TableOk, UsedPrefix, BigOk, UidOk, PoolOk, Hashed, StaticOk;
    assert RecordOk(s, x);
  }

  lemma {:induction false} UndisturbedAt(s: State, t: State, x: Id)
    requires Undisturbed(s, t) && Hashed(t.chains, x)
    ensures x in s.recs && x in t.recs && t.recs[x] == s.recs[x]
  {
    hide Hashed;
  }

  /** The search never gives up where no record is shadowed. */
  lemma {:induction false} UnshadowedRoom(s: State, now: int, freedAll: bool)
    requires Sound(s) && Unshadowed(s)
    ensures !GivesUp(s, now, freedAll)
  {
    hide Inv, Hashed, NoneExpired, Expired, Outdated, Conflict, Bucket, InUse;
    if GivesUp(s, now, freedAll) {
      var id := s.lru[|s.lru| - 1];
      var r := s.recs[id];
      var b, q := Chain(s, r), ByName(r.name, r.flags);
      InUseHashed(s, id);
      var i: nat :| i < |s.chains[b]| && FateAt(s, b, i, q, now) == Refuse;
      HashedRecord(s, b, i);
      RefusesAs(s, b, i, q, now);
    }
  }

  lemma {:induction false} RefusesAs(s: State, b: nat, i: nat, q: Query, now: int)
    requires b < |s.chains| && i < |s.chains[b]| && q.ByName? && FateAt(s, b, i, q, now) == Refuse
    ensures s.chains[b][i] in s.recs && Static(s.recs[s.chains[b][i]]) && Conflict(s.recs[s.chains[b][i]], q.name, q.flags)
  {
    hide Expired, Outdated, Conflict;
  }

  /** The record that is grabbed, filled in. */
  function Fill(r: Record, name: string, addr: Option<Address>, ttd: int, flags: set<Flag>): Record {
    r.(flags := if |name| >= SMALL_NAME then flags + {BigName} else flags, name := name, ttd := ttd, target := None,
       addr := if addr.Some? then addr.value else r.addr)
  }

  /** The part of an insertion behind its first scan. */
  ghost function EnterNew(s: State, name: string, addr: Option<Address>, now: int, ttd: int, flags: set<Flag>, scrap: string): Machine
    requires Sound(s)
  {
    RoomExact(s, now, Reverse in flags, scrap);
    var u := Room(s, now, Reverse in flags, scrap);
    if !FreeTail(u) || (|name| >= SMALL_NAME && u.bigFree == 0 && u.bigLeft == 0) then Machine(u, true)
    else Machine(Grab(u, Fill(u.recs[u.lru[|u.lru| - 1]], name, addr, ttd, flags)), false)
  }

  ghost function InsertInto(m: Machine, name: string, addr: Option<Address>, now: int, ttd: int, flags: set<Flag>, scrap: string): Machine
    requires Sound(m.s)
  {
    if m.failed then m
    else
      ScannedOk(m.s, name, addr, now, flags);
      var (t, ok) := Scanned(m.s, name, addr, now, flags);
      if ok then EnterNew(t, name, addr, now, ttd, flags, scrap) else Machine(t, true)
  }

  lemma {:induction false} EnterNewOk(s: State, name: string, addr: Option<Address>, now: int, ttd: int, flags: set<Flag>, scrap: string)
    requires Sound(s) && Insertable(flags)
    ensures var m := EnterNew(s, name, addr, now, ttd, flags, scrap);
            && Sound(m.s) && Undisturbed(s, m.s) && m.s.n == s.n && (TargetsNewer(s) ==> TargetsNewer(m.s))
            && (m.failed ==> m.s.pending == s.pending)
  {
    hide Sound, Inv, Undisturbed, Framed, Replaced, Hashed, Insertable, TargetsNewer, Room, FreeTail, GivesUp;
    RoomExact(s, now, Reverse in flags, scrap);
    var u := Room(s, now, Reverse in flags, scrap);
    SamePending(s, u);
    if FreeTail(u) && !(|name| >= SMALL_NAME && u.bigFree == 0 && u.bigLeft == 0) {
      GrabFilled(u, name, addr, ttd, flags);
      UndisturbedTrans(s, u, EnterNew(s, name, addr, now, ttd, flags, scrap).s);
    }
  }

  lemma {:induction false} InsertKeeps(m: Machine, name: string, addr: Option<Address>, now: int, ttd: int, flags: set<Flag>, scrap: string)
    requires Sound(m.s) && TargetsNewer(m.s) && Insertable(flags)
    ensures var r := InsertInto(m, name, addr, now, ttd, flags, scrap).s; Sound(r) && TargetsNewer(r) && r.n == m.s.n
  {
    hide Sound, Inv, Undisturbed, Framed, Replaced, Hashed, Insertable, TargetsNewer, Scanned, EnterNew;
    if !m.failed {
      ScannedOk(m.s, name, addr, now, flags);
      var (t, ok) := Scanned(m.s, name, addr, now, flags);
      SamePending(m.s, t);
      if ok { EnterNewOk(t, name, addr, now, ttd, flags, scrap); }
    }
  }

  lemma {:induction false} GrabFilled(s: State, name: string, addr: Option<Address>, ttd: int, flags: set<Flag>)
    requires Sound(s) && FreeTail(s) && Insertable(flags)
    requires |name| >= SMALL_NAME ==> s.bigFree + s.bigLeft > 0
    ensures var t := Grab(s, Fill(s.recs[s.lru[|s.lru| - 1]], name, addr, ttd, flags));
            && Sound(t) && Undisturbed(s, t) && t.n == s.n && (TargetsNewer(s) ==> TargetsNewer(t))
            && (Replaced(s, QueryOf(name, addr, flags)) ==> Entered(t, s.pending, s.lru[|s.lru| - 1], name, addr, ttd, flags))
  {
    hide Sound, Inv, Undisturbed, Framed, Replaced, Hashed, InUse, TargetsNewer, Entered;
    var id := s.lru[|s.lru| - 1];
    var r := Fill(s.recs[id], name, addr, ttd, flags);
    var t := Grab(s, r);
    NewRecord(r, flags, |name| >= SMALL_NAME);
    GrabSound(s, r);
    SoundInv(s);
    if Replaced(s, QueryOf(name, addr, flags)) { GrabEnters(s, t, id, r, name, addr, ttd, flags); }
    if TargetsNewer(s) { GrabNewer(s, t, id, r); }
  }

  // ----- The target of an alias, and a larger table.

  /** The state after an alias is pointed at the newest record. */
  ghost function Aimed(s: State, alias: Id): State
    requires s.pending != [] && alias in s.recs && s.pending[0] in s.recs
  {
    s.(recs := s.recs[alias := s.recs[alias].(target := Some(s.pending[0]), targetUid := s.recs[s.pending[0]].uid)])
  }

  lemma {:induction false} TargetKeepsSound(s: State, alias: Id)
    requires Sound(s) && s.pending != [] && alias in s.pending[1..] && TargetsNewer(s)
    ensures alias in s.recs && s.pending[0] in s.recs
    ensures Sound(Aimed(s, alias)) && TargetsNewer(Aimed(s, alias))
  {
    hide Inv, Hashed, Conflict, Family, Static;
    assert alias in s.pending;
    PendingRecord(s, alias);
    PendingRecord(s, s.pending[0]);
    PendingOnce(s);
    var t := Aimed(s, alias);
    AimedInv(s, t, alias);
    forall x | Candidate(t, x) ensures Candidate(s, x) && x in s.recs { CandidateRecord(s, x); }
    forall h | h >= s.n && Hashed(t.chains, h) ensures h in s.recs { HashedIs(s, h); }
    AimedNewer(s, t, alias);
  }

  lemma {:induction false} AimedNewer(s: State, t: State, alias: Id)
    requires TargetsNewer(s) && s.pending != [] && alias in s.recs && s.pending[0] in s.recs && t == Aimed(s, alias)
    requires Distinct(s.pending) && alias != s.pending[0]
    ensures TargetsNewer(t)
  {
    forall i, j | 0 <= i <= j < |t.pending| && t.pending[i] in t.recs ensures t.recs[t.pending[i]].target != Some(t.pending[j]) {
    }
  }

  lemma {:induction false} AimedInv(s: State, t: State, alias: Id)
    requires Inv(s) && s.pending != [] && alias in s.recs && s.pending[0] in s.recs && t == Aimed(s, alias)
    requires alias < s.n && s.pending[0] < s.n && !Hashed(s.chains, alias)
    ensures Inv(t) && Distinct(s.pending)
  {
    hide TableOk, BigOk, Hashed, PoolOk, Static, InUse, BigCount;
    PoolDistinct(s.n, s.lru, s.pending);
    TableUpdate(s.mix, s.recs, s.chains, alias, t.recs[alias]);
    forall x: Id | x < t.n ensures RecordOk(t, x) { assert RecordOk(s, x); StillStatic(s.recs[alias], t.recs[alias]); }
    forall x: Id ensures StaticOk(t, x) { assert StaticOk(s, x); }
    StillStatic(s.recs[alias], t.recs[alias]);
    AimedBig(s, t, alias);
  }

  lemma {:induction false} StillStatic(a: Record, b: Record)
    requires a.flags == b.flags
    ensures Static(a) == Static(b) && InUse(a) == InUse(b)
  {
  }

  lemma {:induction false} AimedBig(s: State, t: State, alias: Id)
    requires BigOk(s) && s.pending != [] && alias in s.recs && s.pending[0] in s.recs && t == Aimed(s, alias)
    ensures BigOk(t)
  {
    hide BigCount;
    BigCountUpdate(s.recs, s.n, alias, t.recs[alias]);
  }

  lemma {:induction false} RehashSound(s: State, t: State)
    requires Sound(s) && t == s.(chains := t.chains) && TableOk(s.mix, s.recs, t.chains)
    requires forall x :: Hashed(t.chains, x) <==> Hashed(s.chains, x)
    ensures Sound(t)
  {
    hide TableOk, Hashed, UsedPrefix, PoolOk, BigOk, SelfReplacing, Conflict;
    forall x: Id | x < t.n ensures RecordOk(t, x) { assert RecordOk(s, x); }
    forall x: Id ensures StaticOk(t, x) { assert StaticOk(s, x); }
    BigSame(s, t);
    forall x ensures Candidate(t, x) <==> Candidate(s, x) { }
  }

  // ----- cache_unhash_dhcp.

  /** From record k of chain b on, the records of DHCP leases leave the table. */
  ghost function Unleased(s: State, b: nat, k: nat): (t: State)
    requires Inv(s) && b <= |s.chains| && (b < |s.chains| ==> k <= |s.chains[b]|)
    ensures Inv(t) && t == s.(chains := t.chains) && |t.chains| == |s.chains|
    decreases |s.chains| - b, if b < |s.chains| then |s.chains[b]| - k else 0
  {
    if b == |s.chains| then s
    else if k == |s.chains[b]| then Unleased(s, b + 1, 0)
    else
      HashedRecord(s, b, k);
      if Dhcp in s.recs[s.chains[b][k]].flags then DropKeeps(s, b, k); Unleased(Drop(s, b, k), b, k)
      else Unleased(s, b, k + 1)
  }

  lemma {:induction false} NoneBefore(chains: seq<seq<Id>>)
    ensures forall x: Id :: !Before(chains, 0, 0, x)
  {
  }

  /** x stands in one of the first i chains or among the first k records of chain i. */
  ghost predicate Before(chains: seq<seq<Id>>, i: nat, k: nat, x: Id) {
    (exists b :: 0 <= b < i && b < |chains| && x in chains[b]) || (i < |chains| && k <= |chains[i]| && Passed(chains[i], k, x))
  }

  lemma {:induction false} BeforeNext(chains: seq<seq<Id>>, i: nat, k: nat, x: Id)
    requires i < |chains| && k < |chains[i]|
    ensures Before(chains, i, k + 1, x) <==> Before(chains, i, k, x) || x == chains[i][k]
  {
    hide Passed;
    PassedNext(chains[i], k, x);
  }

  lemma {:induction false} BeforeChain(chains: seq<seq<Id>>, i: nat, x: Id)
    requires i < |chains|
    ensures Before(chains, i, |chains[i]|, x) <==> Before(chains, i + 1, 0, x)
  {
    if x in chains[i] {
      var k := IndexOf(chains[i], x);
      assert Passed(chains[i], |chains[i]|, x);
    }
  }

  lemma {:induction false} AllBefore(chains: seq<seq<Id>>)
    ensures forall x :: Before(chains, |chains|, 0, x) <==> Hashed(chains, x)
  {
  }

  lemma {:induction false} BeforeEnd(chains: seq<seq<Id>>, k: nat, x: Id)
    ensures Before(chains, |chains|, k, x) <==> Hashed(chains, x)
  {
  }

  /** Exactly the records of leases leave. */
  lemma {:induction false} UnleasedExact(s: State, b: nat, k: nat, x: Id)
    requires Inv(s) && b <= |s.chains| && (b < |s.chains| ==> k <= |s.chains[b]|)
    requires Before(s.chains, b, k, x) ==> x in s.recs && Dhcp !in s.recs[x].flags
    ensures Hashed(Unleased(s, b, k).chains, x) <==> Hashed(s.chains, x) && x in s.recs && Dhcp !in s.recs[x].flags
    decreases |s.chains| - b, if b < |s.chains| then |s.chains[b]| - k else 0
  {
    hide Inv, Hashed, Before;
    if b == |s.chains| {
      BeforeEnd(s.chains, k, x);
      if Hashed(s.chains, x) { HashedIs(s, x); }
    } else if k == |s.chains[b]| {
      BeforeChain(s.chains, b, x);
      UnleasedExact(s, b + 1, 0, x);
    } else {
      HashedRecord(s, b, k);
      var id := s.chains[b][k];
      if Dhcp in s.recs[id].flags {
        var t := Drop(s, b, k);
        DropKeeps(s, b, k);
        DropTable(s, b, k, x);
        BeforeDrop(s.chains, b, k, x);
        UnleasedExact(t, b, k, x);
      } else {
        BeforeNext(s.chains, b, k, x);
        UnleasedExact(s, b, k + 1, x);
      }
    }
  }

  lemma {:induction false} DropTable(s: State, b: nat, k: nat, x: Id)
    requires Inv(s) && b < |s.chains| && k < |s.chains[b]|
    ensures Hashed(Drop(s, b, k).chains, x) <==> Hashed(s.chains, x) && x != s.chains[b][k]
  {
    hide PoolOk, UsedPrefix, BigOk, UidOk, RecordOk, StaticOk, TableOk, Hashed, RemoveAt;
    DropHashed(s, b, k, x);
  }

  lemma {:induction false} BeforeDrop(chains: seq<seq<Id>>, b: nat, k: nat, x: Id)
    requires b < |chains| && k < |chains[b]|
    ensures Before(chains[b := RemoveAt(chains[b], k)], b, k, x) <==> Before(chains, b, k, x)
  {
    hide RemoveAt;
    var t := chains[b := RemoveAt(chains[b], k)];
    forall i | 0 <= i < k ensures t[b][i] == chains[b][i] { RemoveAtElement(chains[b], k, i); }
    forall c | 0 <= c < b ensures t[c] == chains[c] { }
  }

  lemma {:induction false} UnleasedSound(s: State)
    requires Sound(s)
    ensures Sound(Unleased(s, 0, 0))
  {
    hide Inv, Hashed, SelfReplacing, Unleased;
    var t := Unleased(s, 0, 0);
    forall x | Candidate(t, x) ensures Candidate(s, x) && x in s.recs {
      NoneBefore(s.chains);
      UnleasedExact(s, 0, 0, x);
      CandidateRecord(t, x);
    }
    NoNewsSound(s, t);
  }

  // ----- Runs.

  datatype Op =
    | Start
    | Insert(name: string, addr: Option<Address>, now: int, ttd: int, flags: set<Flag>, scrap: string)
    | Aim(alias: Id)
    | End
    | Ask(ask: Ask, now: int)
    | Rehash(chains: seq<seq<Id>>)
    | Enter(id: Id, r: Record)
    | Unlease

  /** What the program sees to before it does an operation. */
  ghost predicate Allowed(m: Machine, op: Op) {
    match op
    case Insert(_, _, _, _, flags, _) => Insertable(flags)
    case Aim(alias) => m.s.pending != [] && alias in m.s.pending[1..]
    case Rehash(chains) => SameRecords(m.s, chains)
    case Enter(id, r) => MayEnter(m.s, id, r)
    case _ => true
  }

  /** A well-formed table of the same records. */
  ghost predicate SameRecords(s: State, chains: seq<seq<Id>>) {
    TableOk(s.mix, s.recs, chains) && forall x :: Hashed(chains, x) <==> Hashed(s.chains, x)
  }

  ghost predicate MayEnter(s: State, id: Id, r: Record) {
    && id >= s.n && !Hashed(s.chains, id) && Static(r)
    && (r.target.Some? && r.target.value < s.n ==> r.targetUid < s.uid)
  }

  ghost predicate Good(m: Machine) { Sound(m.s) && TargetsNewer(m.s) }

  /** What an operation makes of the cache; one that is not allowed does not take place. */
  ghost function After(m: Machine, op: Op): Machine
    requires Good(m)
  {
    SoundInv(m.s);
    if !Allowed(m, op) then m
    else
      match op
      case Start => Machine(Recycled(m.s), false)
      case Insert(name, addr, now, ttd, flags, scrap) => InsertInto(m, name, addr, now, ttd, flags, scrap)
      case Aim(alias) => TargetKeepsSound(m.s, alias); m.(s := Aimed(m.s, alias))
      case End => if m.failed then m else m.(s := Drain(m.s))
      case Ask(ask, now) => m.(s := Lookup(m.s, ask, now).state)
      case Rehash(chains) => m.(s := m.s.(chains := chains))
      case Enter(id, r) => AddStaticSound(m.s, id, r); m.(s := AddStatic(m.s, id, r))
      case Unlease => m.(s := Unleased(m.s, 0, 0))
  }

  lemma {:induction false} AfterGood(m: Machine, op: Op)
    requires Good(m)
    ensures Good(After(m, op)) && After(m, op).s.n == m.s.n
  {
    hide Sound, Inv, TargetsNewer, Insertable, InsertInto, Lookup, Drain, Recycled, AddStatic, TableOk, Hashed, Static;
    SoundInv(m.s);
    if Allowed(m, op) {
      match op
      case Start => NonePending(Recycled(m.s));
      case Insert(name, addr, now, ttd, flags, scrap) => InsertKeeps(m, name, addr, now, ttd, flags, scrap);
      case Aim(alias) => TargetKeepsSound(m.s, alias);
      case End => if !m.failed { NonePending(Drain(m.s)); }
      case Ask(ask, now) => LookupGood(m.s, ask, now);
      case Rehash(chains) =>
        RehashSound(m.s, m.s.(chains := chains));
        SamePendingRecords(m.s, m.s.(chains := chains));
      case Enter(id, r) => EnterGood(m.s, id, r);
      case Unlease =>
        UnleasedSound(m.s);
        SamePendingRecords(m.s, Unleased(m.s, 0, 0));
    }
  }

  lemma {:induction false} NonePending(s: State)
    requires s.pending == []
    ensures TargetsNewer(s)
  {
  }

  lemma {:induction false} SamePendingRecords(s: State, t: State)
    requires t.pending == s.pending && t.recs == s.recs && TargetsNewer(s)
    ensures TargetsNewer(t)
  {
  }

  lemma {:induction false} LookupGood(s: State, ask: Ask, now: int)
    requires Sound(s) && TargetsNewer(s)
    ensures Sound(Lookup(s, ask, now).state) && TargetsNewer(Lookup(s, ask, now).state)
  {
    hide Sound, Inv, TargetsNewer, Walk, Framed;
    SoundInv(s);
    LookupSound(s, ask, now);
    WalkFramed(s, ask, now);
    SamePending(s, Walk(s, ask, now).state);
    SamePendingRecords(Walk(s, ask, now).state, Lookup(s, ask, now).state);
  }

  lemma {:induction false} EnterGood(s: State, id: Id, r: Record)
    requires Sound(s) && TargetsNewer(s) && MayEnter(s, id, r)
    ensures |s.chains| > 0 && forall b, x | 0 <= b < |s.chains| && x in s.chains[b] :: x in s.recs
    ensures Sound(AddStatic(s, id, r)) && TargetsNewer(AddStatic(s, id, r)) && AddStatic(s, id, r).n == s.n
  {
    hide Sound, Inv, Hashed, Static, HashIn;
    AddStaticSound(s, id, r);
    SoundInv(s);
    forall x | x in s.pending ensures x != id { PendingRecord(s, x); }
    var t := AddStatic(s, id, r);
    forall i, j | 0 <= i <= j < |t.pending| && t.pending[i] in t.recs ensures t.recs[t.pending[i]].target != Some(t.pending[j]) {
      assert t.pending[i] in s.pending;
    }
  }

  ghost function AfterAll(m: Machine, ops: seq<Op>): (r: Machine)
    requires Good(m)
    ensures Good(r)
  {
    if ops == [] then m
    else
      var r := AfterAll(m, ops[..|ops| - 1]);
      AfterGood(r, ops[|ops| - 1]);
      After(r, ops[|ops| - 1])
  }

  lemma {:induction false} PoolSizeKept(m: Machine, ops: seq<Op>)
    requires Good(m)
    ensures AfterAll(m, ops).s.n == m.s.n
  {
    hide Good, After;
    if ops != [] {
      PoolSizeKept(m, ops[..|ops| - 1]);
      AfterGood(AfterAll(m, ops[..|ops| - 1]), ops[|ops| - 1]);
    }
  }

  /** Pool conservation: from cache_init on, after any sequence of batches, whether ended or given up,
      lookups, table enlargements, and entries and removals of hosts and DHCP records, the list and the pending chain
      together hold exactly the records of the pool, each once; the in-use ones on the list are a prefix of
      it and exactly the hashed ones that are not hosts or DHCP records; the long-name buffers add up; and
      no alias of the batch points at itself or an older record of it. */
  lemma {:induction false} RunConserves(s: State, ops: seq<Op>)
    requires Untouched(s)
    ensures Good(Machine(s, false))
    ensures var t := AfterAll(Machine(s, false), ops).s;
            t.n == s.n && Conserved(t) && Sound(t) && TargetsNewer(t)
  {
    hide Sound, TargetsNewer, Untouched, Conserved, AfterAll;
    UntouchedSound(s);
    SoundInv(AfterAll(Machine(s, false), ops).s);
    PoolSizeKept(Machine(s, false), ops);
    Conservation(AfterAll(Machine(s, false), ops).s);
  }
}
