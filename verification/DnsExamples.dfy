/** Two runs from cache_init: one that ends where a lookup returns an outdated alias, and one that ends where
    an insertion gives up although the list is not empty. */
module DnsExamples {
  import opened DnsRecords
  import opened Options
  import opened Sequences
  import opened DnsSteps
  import opened DnsScan
  import opened DnsAnswers
  import opened DnsInsert
  import opened DnsAliases
  import opened DnsRuns

  // ----- Single operations in simple cases.

  lemma {:induction false} LastOf(m: Machine, ops: seq<Op>, op: Op)
    requires Good(m)
    ensures AfterAll(m, ops + [op]) == After(AfterAll(m, ops), op)
  {
    hide Good, After;
    assert (ops + [op])[..|ops|] == ops;
  }

  lemma {:induction false} StartsEmpty(m: Machine)
    requires Good(m) && m.s.pending == []
    ensures After(m, Start) == Machine(m.s, false)
  {
    hide Sound, TargetsNewer;
  }

  /** With a free tail and nothing in the chain of the name an insertion takes the tail. */
  lemma {:induction false} InsertsAtOnce(m: Machine, name: string, addr: Option<Address>, now: int, ttd: int, flags: set<Flag>)
    requires Good(m) && !m.failed && Insertable(flags) && Forward in flags && |name| < SMALL_NAME && FreeTail(m.s)
    requires |m.s.chains| > 0 && m.s.chains[Bucket(m.s.mix, name, |m.s.chains|)] == []
    ensures After(m, Insert(name, addr, now, ttd, flags, "")) == Machine(Grab(m.s, Fill(m.s.recs[m.s.lru[|m.s.lru| - 1]], name, addr, ttd, flags)), false)
  {
    hide Inv, Findable, TargetsNewer, Bucket, InUse, Insertable;
    assert Scanned(m.s, name, addr, now, flags) == (m.s, true);
    assert Room(m.s, now, false, "") == m.s && Room(m.s, now, true, "") == m.s;
  }

  lemma {:induction false} EndsUnfailed(m: Machine)
    requires Good(m) && !m.failed
    ensures After(m, End) == Machine(Drain(m.s), false)
  {
    hide Sound, TargetsNewer, Drain;
  }

  lemma {:induction false} DrainFirst(s: State)
    requires Sound(s) && s.pending != [] && s.pending[0] in s.recs && !Outdated(s.recs, s.recs[s.pending[0]])
    ensures |s.chains| > 0 && forall b, x | 0 <= b < |s.chains| && x in s.chains[b] :: x in s.recs
    ensures Sound(Commit(s)) && Drain(s) == Drain(Commit(s))
  {
    hide Sound, Outdated, HashIn;
    CommitSound(s);
  }

  // ----- A batch of an alias and its target.

  const ALIAS_FLAGS: set<Flag> := {Forward, Cname}
  const HOST_FLAGS: set<Flag> := {Forward, Ipv4}

  ghost function AliasRecord(alias: string): Record { Record(ALIAS_FLAGS, alias, 100, 0, Address(0, 0), None, 0) }

  ghost function TargetRecord(target: string): Record { Record(HOST_FLAGS, target, 10, 1, Address(0, 0), None, 0) }

  ghost function BatchOps(alias: string, target: string): seq<Op> {
    [Start, Insert(alias, None, 0, 100, ALIAS_FLAGS, ""), Insert(target, None, 0, 10, HOST_FLAGS, ""), Aim(0), End]
  }

  ghost function EmptyTable64(): seq<seq<Id>> { seq(64, b => []) }

  /** Both records uncommitted, the alias not yet aimed. */
  ghost function Batched(mix: bv32 -> bv32, alias: string, target: string): State {
    State(2, mix, map[0 := AliasRecord(alias), 1 := TargetRecord(target)], [], EmptyTable64(), [1, 0], map[], 0, 0, 2)
  }

  lemma {:induction false} Initial2(mix: bv32 -> bv32)
    ensures Initial(2, mix, 64) == State(2, mix, map[0 := BLANK, 1 := BLANK.(uid := 1)], [1, 0], EmptyTable64(), [], map[], 0, 0, 2)
  {
    assert Newest(1) == [0] && Newest(2) == [1, 0];
  }

  /** The alias uncommitted, its target still to come. */
  ghost function Half(mix: bv32 -> bv32, alias: string): State {
    State(2, mix, map[0 := AliasRecord(alias), 1 := BLANK.(uid := 1)], [1], EmptyTable64(), [0], map[], 0, 0, 2)
  }

  lemma {:induction false} AliasInserted(mix: bv32 -> bv32, alias: string)
    requires |alias| < SMALL_NAME && Good(Machine(Initial(2, mix, 64), false))
    ensures After(Machine(Initial(2, mix, 64), false), Insert(alias, None, 0, 100, ALIAS_FLAGS, "")) == Machine(Half(mix, alias), false)
  {
    hide Sound, TargetsNewer, Bucket;
    Initial2(mix);
    InsertsAtOnce(Machine(Initial(2, mix, 64), false), alias, None, 0, 100, ALIAS_FLAGS);
  }

  lemma {:induction false} TargetInserted(mix: bv32 -> bv32, alias: string, target: string)
    requires |target| < SMALL_NAME && Good(Machine(Half(mix, alias), false))
    ensures After(Machine(Half(mix, alias), false), Insert(target, None, 0, 10, HOST_FLAGS, "")) == Machine(Batched(mix, alias, target), false)
  {
    hide Sound, TargetsNewer, Bucket;
    InsertsAtOnce(Machine(Half(mix, alias), false), target, None, 0, 10, HOST_FLAGS);
  }

  lemma {:induction false} InitialGood(n: nat, mix: bv32 -> bv32)
    ensures Good(Machine(Initial(n, mix, 64), false))
  {
    hide Sound, TargetsNewer, Untouched, Initial;
    InitialUntouched(n, mix, 64);
    UntouchedSound(Initial(n, mix, 64));
  }

  lemma {:induction false} BatchInserted(mix: bv32 -> bv32, alias: string, target: string)
    requires |alias| < SMALL_NAME && |target| < SMALL_NAME
    ensures Good(Machine(Initial(2, mix, 64), false))
    ensures AfterAll(Machine(Initial(2, mix, 64), false), BatchOps(alias, target)[..3]) == Machine(Batched(mix, alias, target), false)
  {
    hide Good, After, AfterAll, AliasRecord, Half, Batched;
    var m, ops := Machine(Initial(2, mix, 64), false), BatchOps(alias, target);
    InitialGood(2, mix);
    assert ops[..1] == [] + [ops[0]] && ops[..2] == ops[..1] + [ops[1]] && ops[..3] == ops[..2] + [ops[2]];
    NothingDone(m);
    LastOf(m, [], ops[0]);
    StartsEmpty(m);
    LastOf(m, ops[..1], ops[1]);
    AliasInserted(mix, alias);
    LastOf(m, ops[..2], ops[2]);
    AfterGood(m, ops[1]);
    TargetInserted(mix, alias, target);
  }

  lemma {:induction false} NothingDone(m: Machine)
    requires Good(m)
    ensures AfterAll(m, []) == m
  {
    hide Good;
  }

  lemma {:induction false} BatchDrained(mix: bv32 -> bv32, alias: string, target: string)
    requires Bucket(mix, alias, 64) == Bucket(mix, target, 64)
    requires Sound(Aimed(Batched(mix, alias, target), 0))
    ensures Drain(Aimed(Batched(mix, alias, target), 0)) == StaleState(mix, alias, target)
  {
    hide Sound, Bucket, Drain;
    var b := Bucket(mix, alias, 64);
    var s := Aimed(Batched(mix, alias, target), 0);
    DrainFirst(s);
    var t := Commit(s);
    assert t.chains[b] == [1];
    DrainFirst(t);
    var u := Commit(t);
    assert u.chains[b] == [0, 1];
    assert u.chains == StaleState(mix, alias, target).chains;
    DrainDone(u);
  }

  /** A batch with an alias and its target in one chain, from cache_init on, leads to the state in which a
      lookup after the target has expired answers with an outdated alias. */
  lemma {:induction false} StaleRun(mix: bv32 -> bv32, alias: string, target: string)
    requires Bucket(mix, alias, 64) == Bucket(mix, target, 64)
    requires |alias| < SMALL_NAME && |target| < SMALL_NAME
    ensures Good(Machine(Initial(2, mix, 64), false))
    ensures AfterAll(Machine(Initial(2, mix, 64), false), BatchOps(alias, target)) == Machine(StaleState(mix, alias, target), false)
  {
    hide Sound, TargetsNewer, Bucket, Drain, Initial;
    var m, ops := Machine(Initial(2, mix, 64), false), BatchOps(alias, target);
    BatchInserted(mix, alias, target);
    assert ops[..4] == ops[..3] + [ops[3]] && ops == ops[..4] + [ops[4]];
    LastOf(m, ops[..3], ops[3]);
    LastOf(m, ops[..4], ops[4]);
    var n := AfterAll(m, ops[..3]);
    AfterGood(n, ops[3]);
    EndsUnfailed(After(n, ops[3]));
    BatchDrained(mix, alias, target);
  }

  // ----- The alias of a lease in front of a cached record.

  /** A live record of a lease enters a chain that starts with no reverse record; if it conflicts with the
      tail of the list, the search for room gives up from then on, as long as no cached record expires. */
  lemma {:induction false} ShadowingEntry(s: State, id: Id, r: Record, now: int, freedAll: bool)
    requires Sound(s) && MayEnter(s, id, r) && s.lru != [] && s.lru[|s.lru| - 1] in s.recs
    requires var x := s.recs[s.lru[|s.lru| - 1]]; InUse(x) && Forward in x.flags && Conflict(r, x.name, x.flags)
    requires Reverse !in r.flags && Immortal !in r.flags && !Expired(r, now) && !Outdated(s.recs[id := r], r)
    requires |s.chains| > 0 && forall b, x | 0 <= b < |s.chains| && x in s.chains[b] :: x in s.recs
    requires var chain := s.chains[Bucket(s.mix, r.name, |s.chains|)]; chain != [] ==> chain[0] in s.recs && Reverse !in s.recs[chain[0]].flags
    requires freedAll || NoneExpired(s, now)
    ensures GivesUp(AddStatic(s, id, r), now, freedAll)
  {
    hide Inv, Findable, Hashed, Bucket, SameName, Expired, Outdated, Family, InUse;
    var t, y := AddStatic(s, id, r), s.lru[|s.lru| - 1];
    var x := s.recs[y];
    var b := Bucket(s.mix, r.name, |s.chains|);
    SoundIsInv(s);
    ListedSmall(s, y);
    SameBucket(s.mix, r.name, x.name, |s.chains|);
    assert t.chains[b][0] == id;
    assert FateAt(t, b, 0, ByName(x.name, x.flags), now) == Refuse;
    forall z: Id | z < t.n && Hashed(t.chains, z) && !freedAll ensures z in t.recs && !Expired(t.recs[z], now) {
      HashInHashed(s.mix, t.recs, s.chains, id, z);
    }
  }

  lemma {:induction false} ListedSmall(s: State, y: Id)
    requires Inv(s) && y in s.lru
    ensures y < s.n
  {
    hide TableOk, UsedPrefix, BigOk, UidOk, RecordOk, StaticOk, PoolOk;
    PoolMembers(s.n, s.lru, s.pending, y);
  }

  const LEASE_FLAGS: set<Flag> := {Dhcp, Forward, Reverse, Ipv4}
  const LEASE_ALIAS_FLAGS: set<Flag> := {Dhcp, Config, Forward, Cname}

  ghost function CachedRecord(name: string): Record { Record(HOST_FLAGS, name, 100, 0, Address(0, 0), None, 0) }

  ghost function LeaseRecord(host: string): Record { Record(LEASE_FLAGS, host, 200, 1, Address(0, 0), None, 0) }

  ghost function LeaseAlias(name: string): Record { Record(LEASE_ALIAS_FLAGS, name, 200, 0, Address(0, 0), Some(1), 1) }

  ghost function LeaseOps(name: string, host: string): seq<Op> {
    [Start, Insert(name, None, 0, 100, HOST_FLAGS, ""), End, Enter(1, LeaseRecord(host)), Enter(2, LeaseAlias(name))]
  }

  /** A cache of one record, and that one cached. */
  ghost function OneCached(mix: bv32 -> bv32, name: string): State {
    var b := Bucket(mix, name, 64);
    State(1, mix, map[0 := CachedRecord(name)], [0], seq(64, c => if c == b then [0] else []), [], map[], 0, 0, 1)
  }

  ghost function OnePending(mix: bv32 -> bv32, name: string): State {
    State(1, mix, map[0 := CachedRecord(name)], [], EmptyTable64(), [0], map[], 0, 0, 1)
  }

  lemma {:induction false} OneInserted(mix: bv32 -> bv32, name: string)
    requires |name| < SMALL_NAME && Good(Machine(Initial(1, mix, 64), false))
    ensures After(Machine(Initial(1, mix, 64), false), Insert(name, None, 0, 100, HOST_FLAGS, "")) == Machine(OnePending(mix, name), false)
  {
    hide Sound, TargetsNewer, Bucket;
    assert Newest(1) == [0];
    assert Initial(1, mix, 64) == State(1, mix, map[0 := BLANK], [0], EmptyTable64(), [], map[], 0, 0, 1);
    InsertsAtOnce(Machine(Initial(1, mix, 64), false), name, None, 0, 100, HOST_FLAGS);
  }

  lemma {:induction false} OneDrained(mix: bv32 -> bv32, name: string)
    requires Sound(OnePending(mix, name))
    ensures Drain(OnePending(mix, name)) == OneCached(mix, name)
  {
    hide Sound, Bucket, Drain;
    var s := OnePending(mix, name);
    DrainFirst(s);
    var t := Commit(s);
    assert t.chains[Bucket(mix, name, 64)] == [0];
    assert t.chains == OneCached(mix, name).chains;
    DrainDone(t);
  }

  lemma {:induction false} OneRun(mix: bv32 -> bv32, name: string, host: string)
    requires |name| < SMALL_NAME
    ensures Good(Machine(Initial(1, mix, 64), false))
    ensures AfterAll(Machine(Initial(1, mix, 64), false), LeaseOps(name, host)[..3]) == Machine(OneCached(mix, name), false)
  {
    hide Good, After, AfterAll, OneCached, OnePending;
    var m, ops := Machine(Initial(1, mix, 64), false), LeaseOps(name, host);
    InitialGood(1, mix);
    assert ops[..1] == [] + [ops[0]] && ops[..2] == ops[..1] + [ops[1]] && ops[..3] == ops[..2] + [ops[2]];
    NothingDone(m);
    LastOf(m, [], ops[0]);
    StartsEmpty(m);
    LastOf(m, ops[..1], ops[1]);
    OneInserted(mix, name);
    LastOf(m, ops[..2], ops[2]);
    AfterGood(m, ops[1]);
    GoodSound(Machine(OnePending(mix, name), false));
    EndsUnfailed(Machine(OnePending(mix, name), false));
    OneDrained(mix, name);
  }

  lemma {:induction false} GoodSound(m: Machine)
    requires Good(m)
    ensures Sound(m.s)
  {
    hide Sound;
  }

  /** The lease in the table. */
  ghost function Leased(mix: bv32 -> bv32, name: string, host: string): State {
    var b, c := Bucket(mix, name, 64), Bucket(mix, host, 64);
    State(1, mix, map[0 := CachedRecord(name), 1 := LeaseRecord(host)], [0],
          seq(64, d => if d == c then [1] else if d == b then [0] else []), [], map[], 0, 0, 1)
  }

  /** The alias of the lease as well. */
  ghost function Shadowed(mix: bv32 -> bv32, name: string, host: string): State {
    var b, c := Bucket(mix, name, 64), Bucket(mix, host, 64);
    State(1, mix, map[0 := CachedRecord(name), 1 := LeaseRecord(host), 2 := LeaseAlias(name)], [0],
          seq(64, d => if d == c then [1] else if d == b then [2, 0] else []), [], map[], 0, 0, 1)
  }

  lemma {:induction false} LeaseEntered(mix: bv32 -> bv32, name: string, host: string)
    requires Good(Machine(OneCached(mix, name), false)) && Bucket(mix, host, 64) != Bucket(mix, name, 64)
    ensures After(Machine(OneCached(mix, name), false), Enter(1, LeaseRecord(host))) == Machine(Leased(mix, name, host), false)
  {
    hide Sound, TargetsNewer, Bucket;
    var s := OneCached(mix, name);
    forall c | 0 <= c < |s.chains| ensures 1 !in s.chains[c] { }
    assert MayEnter(s, 1, LeaseRecord(host));
    SoundIsInv(s);
    AddStaticSound(s, 1, LeaseRecord(host));
    var t := AddStatic(s, 1, LeaseRecord(host));
    assert s.chains[Bucket(mix, host, 64)] == [];
    assert t.chains[Bucket(mix, host, 64)] == [1];
    assert t.chains == Leased(mix, name, host).chains;
  }

  lemma {:induction false} AliasEntered(mix: bv32 -> bv32, name: string, host: string)
    requires Good(Machine(Leased(mix, name, host), false)) && Bucket(mix, host, 64) != Bucket(mix, name, 64)
    ensures After(Machine(Leased(mix, name, host), false), Enter(2, LeaseAlias(name))) == Machine(Shadowed(mix, name, host), false)
    ensures GivesUp(Shadowed(mix, name, host), 50, false)
  {
    hide Sound, TargetsNewer, Bucket, GivesUp;
    var s, r := Leased(mix, name, host), LeaseAlias(name);
    forall c | 0 <= c < |s.chains| ensures 2 !in s.chains[c] { }
    assert MayEnter(s, 2, r);
    AddStaticSound(s, 2, r);
    assert s.chains[Bucket(mix, name, 64)] == [0];
    var t := AddStatic(s, 2, r);
    assert t.chains[Bucket(mix, name, 64)] == [2, 0];
    assert t.chains == Shadowed(mix, name, host).chains;
    SameAsItself(name);
    ShadowingEntry(s, 2, r, 50, false);
  }

  lemma {:induction false} SameAsItself(name: string)
    ensures SameName(name, name)
  {
  }

  /** A scan that keeps every record of the chain changes nothing. */
  lemma {:induction false} SweepNothing(s: State, b: nat, k: nat, q: Query, now: int)
    requires Inv(s) && b < |s.chains| && k <= |s.chains[b]| && forall i: nat | k <= i < |s.chains[b]| :: FateAt(s, b, i, q, now) == Keep
    ensures Sweep(s, b, k, q, now) == (s, true)
    decreases |s.chains[b]| - k
  {
    hide Inv, FateOf;
    if k < |s.chains[b]| {
      HashedRecord(s, b, k);
      assert FateAt(s, b, k, q, now) == Keep;
      SweepNothing(s, b, k + 1, q, now);
    }
  }

  lemma {:induction false} OtherScanned(mix: bv32 -> bv32, name: string, host: string, other: string)
    requires Sound(Shadowed(mix, name, host)) && !SameName(name, other) && !SameName(host, other)
    ensures Scanned(Shadowed(mix, name, host), other, None, 50, HOST_FLAGS) == (Shadowed(mix, name, host), true)
  {
    hide Sound, Bucket, SameName;
    var s := Shadowed(mix, name, host);
    var b, q := Bucket(mix, other, 64), ByName(other, HOST_FLAGS);
    SoundIsInv(s);
    forall i: nat | i < |s.chains[b]| ensures FateAt(s, b, i, q, 50) == Keep { }
    SweepNothing(s, b, 0, q, 50);
  }

  lemma {:induction false} GivesUpInserting(m: Machine, name: string, now: int, ttd: int, scrap: string)
    requires Good(m) && !m.failed && Scanned(m.s, name, None, now, HOST_FLAGS) == (m.s, true) && GivesUp(m.s, now, false)
    ensures After(m, Insert(name, None, now, ttd, HOST_FLAGS, scrap)).failed
  {
    hide Sound, TargetsNewer, Scanned, GivesUp, Room;
    RoomExact(m.s, now, false, scrap);
  }

  /** From cache_init on: a name is cached in a cache of one record, and a lease enters whose host has that
      name as an alias. The next insertion, of any other name, is not refused, finds the list in use, frees
      nothing, and gives up. */
  lemma {:induction false} GiveUpRun(mix: bv32 -> bv32, name: string, host: string, other: string, scrap: string)
    requires |name| < SMALL_NAME && Bucket(mix, host, 64) != Bucket(mix, name, 64)
    requires !SameName(name, other) && !SameName(host, other)
    ensures Good(Machine(Initial(1, mix, 64), false))
    ensures var m := AfterAll(Machine(Initial(1, mix, 64), false), LeaseOps(name, host));
            && !m.failed && m.s.lru == [0] && GivesUp(m.s, 50, false)
            && Scanned(m.s, other, None, 50, HOST_FLAGS).1
            && After(m, Insert(other, None, 50, 150, HOST_FLAGS, scrap)).failed
  {
    hide Good, After, AfterAll, OneCached, Leased, GivesUp, Scanned, Bucket, SameName;
    var m, ops := Machine(Initial(1, mix, 64), false), LeaseOps(name, host);
    OneRun(mix, name, host);
    assert ops[..4] == ops[..3] + [ops[3]] && ops == ops[..4] + [ops[4]];
    LastOf(m, ops[..3], ops[3]);
    LeaseEntered(mix, name, host);
    LastOf(m, ops[..4], ops[4]);
    AliasEntered(mix, name, host);
    var n := Machine(Shadowed(mix, name, host), false);
    GoodSound(n);
    OtherScanned(mix, name, host, other);
    GivesUpInserting(n, other, 50, 150, scrap);
  }
}
