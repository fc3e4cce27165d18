/** What the scans and the end of a batch take out, in terms of the state they start from. */
module DnsSwept {
  import opened DnsRecords
  import opened Options
  import opened Sequences
  import opened DnsSteps
  import opened DnsScan
  import opened DnsLookup
  import opened DnsAnswers
  import opened DnsInsert
  import opened DnsAliases
  import opened DnsFates

  // ----- The scan for a name.

  /** What a scan for a name takes out. */
  ghost function Swept(name: string, flags: set<Flag>, now: int): Record -> bool {
    r => Expired(r, now) || (Conflict(r, name, flags) && !Static(r))
  }

  /** Record i of the chain is a hosts or DHCP record of the name that the scan leaves: it refuses it. */
  ghost predicate Refusing(recs: map<Id, Record>, n: nat, chain: seq<Id>, i: nat, name: string, flags: set<Flag>, now: int)
    requires i < |chain|
  {
    && chain[i] in recs && Static(recs[chain[i]]) && Conflict(recs[chain[i]], name, flags)
    && !Falls(recs, n, chain, i, Swept(name, flags, now))
  }

  /** Record i leaves the chain: it falls, and the scan comes to it. */
  ghost predicate Leaves(recs: map<Id, Record>, n: nat, chain: seq<Id>, i: nat, name: string, flags: set<Flag>, now: int)
    requires i < |chain|
  {
    Falls(recs, n, chain, i, Swept(name, flags, now)) && forall j: nat | j < i :: !Refusing(recs, n, chain, j, name, flags, now)
  }

  lemma {:induction false} RefusingNext(recs: map<Id, Record>, recs': map<Id, Record>, n: nat, chain: seq<Id>, i: nat,
                                        name: string, flags: set<Flag>, now: int)
    requires chain != [] && Leads(recs, recs', n, chain, Swept(name, flags, now)) && 1 <= i < |chain|
    ensures Refusing(recs', n, chain[1..], i - 1, name, flags, now) <==> Refusing(recs, n, chain, i, name, flags, now)
  {
    hide Falls, Leads, Conflict, Static;
    FallsNext(recs, recs', n, chain, i, Swept(name, flags, now));
    SameLater(recs, recs', n, chain, i, Swept(name, flags, now));
  }

  lemma {:induction false} LeavesNext(recs: map<Id, Record>, recs': map<Id, Record>, n: nat, chain: seq<Id>, i: nat,
                                      name: string, flags: set<Flag>, now: int)
    requires chain != [] && Leads(recs, recs', n, chain, Swept(name, flags, now)) && 1 <= i < |chain|
    requires !Refusing(recs, n, chain, 0, name, flags, now)
    ensures Leaves(recs', n, chain[1..], i - 1, name, flags, now) <==> Leaves(recs, n, chain, i, name, flags, now)
  {
    hide Falls, Leads, Refusing;
    FallsNext(recs, recs', n, chain, i, Swept(name, flags, now));
    forall j: nat | 1 <= j < i ensures Refusing(recs', n, chain[1..], j - 1, name, flags, now) <==> Refusing(recs, n, chain, j, name, flags, now) {
      RefusingNext(recs, recs', n, chain, j, name, flags, now);
    }
    if Leaves(recs', n, chain[1..], i - 1, name, flags, now) {
      forall j: nat | j < i ensures !Refusing(recs, n, chain, j, name, flags, now) {
        if j > 0 { assert !Refusing(recs', n, chain[1..], j - 1, name, flags, now); }
      }
    }
    if Leaves(recs, n, chain, i, name, flags, now) {
      forall j: nat | j < i - 1 ensures !Refusing(recs', n, chain[1..], j, name, flags, now) {
        assert !Refusing(recs, n, chain, j + 1, name, flags, now);
      }
    }
  }

  /** The outcome of a scan from record k on: whether it is refused, and who is left in the chain. */
  ghost predicate ScannedFrom(s: State, b: nat, k: nat, name: string, flags: set<Flag>, now: int, r: (State, bool))
    requires b < |s.chains| && k <= |s.chains[b]| && b < |r.0.chains|
  {
    var rest := s.chains[b][k..];
    && (r.1 <==> forall i: nat | i < |rest| :: !Refusing(s.recs, s.n, rest, i, name, flags, now))
    && forall i: nat | i < |rest| :: rest[i] in r.0.chains[b] <==> !Leaves(s.recs, s.n, rest, i, name, flags, now)
  }

  lemma {:induction false} FirstFate(s: State, b: nat, k: nat, name: string, flags: set<Flag>, now: int)
    requires Inv(s) && b < |s.chains| && k < |s.chains[b]|
    ensures s.chains[b][k] in s.recs
    ensures var fate, rest := FateOf(s.recs, s.recs[s.chains[b][k]], ByName(name, flags), now), s.chains[b][k..];
            && (fate == Unhash || fate == Reclaim <==> Falls(s.recs, s.n, rest, 0, Swept(name, flags, now)))
            && (fate == Refuse <==> Refusing(s.recs, s.n, rest, 0, name, flags, now))
            && fate != Leave
  {
    hide Inv, Expired, Outdated, Conflict, Static;
    HashedRecord(s, b, k);
  }

  /** A step of the scan past a record, or over one that it takes out. */
  lemma {:induction false} ScannedNext(s: State, t: State, b: nat, k: nat, k': nat, name: string, flags: set<Flag>, now: int, r: (State, bool))
    requires b < |s.chains| && k < |s.chains[b]| && b < |t.chains| && k' <= |t.chains[b]| && b < |r.0.chains|
    requires ScannedFrom(t, b, k', name, flags, now, r) && t.n == s.n && t.chains[b][k'..] == s.chains[b][k..][1..]
    requires Leads(s.recs, t.recs, s.n, s.chains[b][k..], Swept(name, flags, now))
    requires !Refusing(s.recs, s.n, s.chains[b][k..], 0, name, flags, now)
    requires s.chains[b][k] in r.0.chains[b] <==> !Falls(s.recs, s.n, s.chains[b][k..], 0, Swept(name, flags, now))
    ensures ScannedFrom(s, b, k, name, flags, now, r)
  {
    hide Falls, Refusing, Leads, Leaves;
    var rest := s.chains[b][k..];
    FirstLeaves(s.recs, s.n, rest, name, flags, now);
    forall i: nat | 1 <= i < |rest|
      ensures Refusing(t.recs, s.n, rest[1..], i - 1, name, flags, now) <==> Refusing(s.recs, s.n, rest, i, name, flags, now)
      ensures rest[i] in r.0.chains[b] <==> !Leaves(s.recs, s.n, rest, i, name, flags, now)
    {
      RefusingNext(s.recs, t.recs, s.n, rest, i, name, flags, now);
      LeavesNext(s.recs, t.recs, s.n, rest, i, name, flags, now);
      assert rest[1..][i - 1] == rest[i];
    }
    if r.1 {
      forall i: nat | i < |rest| ensures !Refusing(s.recs, s.n, rest, i, name, flags, now) {
        if i > 0 { assert !Refusing(t.recs, s.n, rest[1..], i - 1, name, flags, now); }
      }
    } else {
      var i: nat :| i < |rest[1..]| && Refusing(t.recs, s.n, rest[1..], i, name, flags, now);
      assert Refusing(s.recs, s.n, rest, i + 1, name, flags, now);
    }
  }

  lemma {:induction false} FirstLeaves(recs: map<Id, Record>, n: nat, chain: seq<Id>, name: string, flags: set<Flag>, now: int)
    requires chain != []
    ensures Leaves(recs, n, chain, 0, name, flags, now) <==> Falls(recs, n, chain, 0, Swept(name, flags, now))
  {
    hide Falls;
  }

  lemma {:induction false} RefusedHere(s: State, b: nat, k: nat, name: string, flags: set<Flag>, now: int)
    requires b < |s.chains| && k < |s.chains[b]| && Refusing(s.recs, s.n, s.chains[b][k..], 0, name, flags, now)
    ensures ScannedFrom(s, b, k, name, flags, now, (s, false))
  {
    hide Falls, Conflict, Static, Swept;
    forall i: nat | i < |s.chains[b][k..]| ensures !Leaves(s.recs, s.n, s.chains[b][k..], i, name, flags, now) { }
  }

  lemma {:induction false} SweptAway(s: State, b: nat, k: nat, q: Query, now: int)
    requires Inv(s) && b < |s.chains| && k < |s.chains[b]|
    ensures s.chains[b][k] !in Sweep(Remove(s, b, k), b, k, q, now).0.chains[b]
  {
    hide Inv, Remove, Sweep, Undisturbed;
    var t := Remove(s, b, k);
    var u := Sweep(t, b, k, q, now).0;
    SweepUndisturbed(t, b, k, q, now);
    ChainDistinct(s, b);
    RemoveAtMembers(s.chains[b], k, s.chains[b][k]);
    if s.chains[b][k] in u.chains[b] { StaysIn(t, u, b, s.chains[b][k]); }
  }

  lemma {:induction false} SweepFate(s: State, b: nat, k: nat, name: string, flags: set<Flag>, now: int)
    requires Inv(s) && b < |s.chains| && k <= |s.chains[b]|
    ensures ScannedFrom(s, b, k, name, flags, now, Sweep(s, b, k, ByName(name, flags), now))
    decreases |s.chains[b]| - k
  {
    hide Inv, FateOf, Remove, Falls, Leads, Refusing, Leaves, ScannedFrom, Swept;
    var q := ByName(name, flags);
    if k == |s.chains[b]| {
      NothingScanned(s, b, name, flags, now);
    } else {
      FirstFate(s, b, k, name, flags, now);
      var id := s.chains[b][k];
      var fate, goes := FateOf(s.recs, s.recs[id], q, now), Swept(name, flags, now);
      if fate == Refuse {
        RefusedHere(s, b, k, name, flags, now);
      } else if fate == Keep {
        SweepFate(s, b, k + 1, name, flags, now);
        SweepUndisturbed(s, b, k + 1, q, now);
        var u := Sweep(s, b, k + 1, q, now).0;
        assert u.chains[b][k] == u.chains[b][..k + 1][k] == s.chains[b][..k + 1][k];
        LeadsSame(s, b, k, goes);
        ScannedNext(s, s, b, k, k + 1, name, flags, now, Sweep(s, b, k, q, now));
      } else {
        var t := Remove(s, b, k);
        LeadsRemove(s, b, k, goes);
        SweepFate(t, b, k, name, flags, now);
        SweptAway(s, b, k, q, now);
        ScannedNext(s, t, b, k, k, name, flags, now, Sweep(s, b, k, q, now));
      }
    }
  }

  lemma {:induction false} NothingScanned(s: State, b: nat, name: string, flags: set<Flag>, now: int)
    requires b < |s.chains|
    ensures ScannedFrom(s, b, |s.chains[b]|, name, flags, now, (s, true))
  {
  }

  /** The chain of the name holds a hosts or DHCP record of the name that does not fall. */
  ghost predicate Refused(s: State, name: string, flags: set<Flag>, now: int) {
    && |s.chains| > 0
    && var chain := s.chains[Bucket(s.mix, name, |s.chains|)];
       exists i: nat :: i < |chain| && Refusing(s.recs, s.n, chain, i, name, flags, now)
  }

  /** Exactly when a scan for a name is refused. */
  lemma {:induction false} RefusedExactly(s: State, name: string, flags: set<Flag>, now: int)
    requires Inv(s)
    ensures |s.chains| > 0
    ensures Sweep(s, Bucket(s.mix, name, |s.chains|), 0, ByName(name, flags), now).1 <==> !Refused(s, name, flags, now)
  {
    hide Inv, Sweep, Refusing, Leaves, Bucket;
    HasChains(s);
    var b := Bucket(s.mix, name, |s.chains|);
    SweepFate(s, b, 0, name, flags, now);
    assert s.chains[b][0..] == s.chains[b];
  }

  /** x stands in chain b and leaves it. */
  ghost predicate LeavesIn(s: State, b: nat, name: string, flags: set<Flag>, now: int, x: Id)
    requires b < |s.chains|
  {
    exists i: nat :: i < |s.chains[b]| && s.chains[b][i] == x && Leaves(s.recs, s.n, s.chains[b], i, name, flags, now)
  }

  /** A record is in the table after a scan for a name exactly when it was before and does not leave. */
  lemma {:induction false} NameScanExact(s: State, name: string, flags: set<Flag>, now: int, x: Id)
    requires Inv(s) && |s.chains| > 0
    ensures var b := Bucket(s.mix, name, |s.chains|);
            Hashed(Sweep(s, b, 0, ByName(name, flags), now).0.chains, x) <==> Hashed(s.chains, x) && !LeavesIn(s, b, name, flags, now, x)
  {
    hide Inv, Sweep, Leaves, Undisturbed, Bucket, Refusing;
    var b, q := Bucket(s.mix, name, |s.chains|), ByName(name, flags);
    var t := Sweep(s, b, 0, q, now).0;
    SweepUndisturbed(s, b, 0, q, now);
    SweepFate(s, b, 0, name, flags, now);
    assert s.chains[b][0..] == s.chains[b];
    if x in s.chains[b] {
      OnlyIn(s, b, x);
      if x in t.chains[b] { OnlyIn(t, b, x); } else { NotElsewhere(s, t, b, x); }
      var i := IndexOf(s.chains[b], x);
      ChainDistinct(s, b);
    } else {
      if x in t.chains[b] { StaysIn(s, t, b, x); }
      if Hashed(t.chains, x) { HashedSame(s, t, x); }
      if Hashed(s.chains, x) {
        var c :| 0 <= c < |s.chains| && x in s.chains[c];
        assert x in t.chains[c];
      }
    }
  }

  // ----- The scan of the whole table.

  lemma {:induction false} RowRemoves(s: State, b: nat, k: nat, q: Query, now: int, x: Id)
    requires Inv(s) && b < |s.chains| && k <= |s.chains[b]| && q.ByAddr?
    ensures Hashed(s.chains, x) && !Hashed(Sweep(s, b, k, q, now).0.chains, x) ==> x in s.recs && Offends(s.recs[x], q, now)
  {
    hide Inv, Sweep, Hashed, Offends;
    if Hashed(s.chains, x) && !Hashed(Sweep(s, b, k, q, now).0.chains, x) { SweepRemoves(s, b, k, q, now, x); }
  }

  lemma {:induction false} TableRemoves(s: State, b: nat, q: Query, now: int, x: Id)
    requires Inv(s) && b <= |s.chains| && q.ByAddr?
    ensures Hashed(s.chains, x) && !Hashed(SweepAll(s, b, q, now).chains, x) ==> x in s.recs && Offends(s.recs[x], q, now)
    decreases |s.chains| - b
  {
    hide Inv, Sweep, Hashed, Offends, Undisturbed;
    if b < |s.chains| {
      var t := Sweep(s, b, 0, q, now).0;
      RowRemoves(s, b, 0, q, now, x);
      SweepUndisturbed(s, b, 0, q, now);
      TableRemoves(t, b + 1, q, now, x);
      if Hashed(t.chains, x) { HashedSame(s, t, x); }
    }
  }

  /** The scan of the whole table takes out exactly the expired records and those the insertion replaces. */
  lemma {:induction false} TableScanExact(s: State, addr: Option<Address>, flags: set<Flag>, now: int, x: Id)
    requires Inv(s)
    ensures Hashed(SweepAll(s, 0, ByAddr(addr, flags), now).chains, x) <==>
            Hashed(s.chains, x) && x in s.recs && !Expired(s.recs[x], now) && !ReverseConflict(s.recs[x], addr, flags)
  {
    hide Inv, SweepAll, Hashed, Expired, ReverseConflict, Undisturbed, CleanFrom, Sweep;
    var q := ByAddr(addr, flags);
    var t := SweepAll(s, 0, q, now);
    TableRemoves(s, 0, q, now, x);
    SweepAllCleans(s, 0, q, now);
    if Hashed(t.chains, x) {
      HashedSame(s, t, x);
      var b := ChainOfRecord(t, x);
      CleanAt(t, b, q, now, x);
    } else if Hashed(s.chains, x) {
      HashedIs(s, x);
    }
  }

  // ----- The end of a batch.

  ghost function Never(): Record -> bool { r => false }

  /** Of a batch exactly the records enter the table that do not fall: an outdated alias does not, nor an
      alias for a newer record of the batch that does not. */
  lemma {:induction false} DrainExact(s: State, k: nat)
    requires Sound(s) && k < |s.pending|
    ensures Hashed(Drain(s).chains, s.pending[k]) <==> !Falls(s.recs, s.n, s.pending, k, Never())
    decreases |s.pending|
  {
    hide Sound, Hashed, Turn, Drain, Falls, Leads;
    var id, t := s.pending[0], Turn(s);
    TurnLeads(s);
    if k > 0 {
      DrainExact(t, k - 1);
      FallsNext(s.recs, t.recs, s.n, s.pending, k, Never());
      assert s.pending[k] == t.pending[k - 1];
    } else {
      TurnFacts(s);
      DrainFrame(t, id);
      HeadNotHashed(s);
      HeadFalls(s);
    }
  }

  /** The records of a batch that entered the table, oldest of the batch first. */
  ghost function OldestFirst(chains: seq<seq<Id>>, batch: seq<Id>): seq<Id> {
    if batch == [] then [] else OldestFirst(chains, batch[1..]) + if Hashed(chains, batch[0]) then [batch[0]] else []
  }

  /** Where a batch goes in the list: the records that enter stand at the head, oldest of the batch first, and
      the dropped ones at the tail. */
  lemma {:induction false} DrainOrder(s: State) returns (dropped: seq<Id>)
    requires Sound(s)
    ensures Drain(s).lru == OldestFirst(Drain(s).chains, s.pending) + s.lru + dropped
    ensures forall x | x in dropped :: x in s.pending && !Hashed(Drain(s).chains, x)
    decreases |s.pending|
  {
    hide Sound, Hashed, Turn, Drain;
    if s.pending == [] {
      DrainDone(s);
      dropped := [];
    } else {
      var id, t := s.pending[0], Turn(s);
      TurnFacts(s);
      TurnList(s);
      DrainFrame(t, id);
      HeadNotHashed(s);
      dropped := DrainOrder(t);
      if Outdated(s.recs, s.recs[id]) { dropped := [id] + dropped; }
    }
  }

  lemma {:induction false} TurnList(s: State)
    requires Sound(s) && s.pending != [] && s.pending[0] in s.recs
    ensures Turn(s).lru == if Outdated(s.recs, s.recs[s.pending[0]]) then s.lru + [s.pending[0]] else [s.pending[0]] + s.lru
  {
    hide Sound, Outdated, HashIn;
    RecycleSound(s);
    CommitSound(s);
  }

  lemma {:induction false} HeadFalls(s: State)
    requires s.pending != [] && s.pending[0] in s.recs
    ensures Falls(s.recs, s.n, s.pending, 0, Never()) <==> Outdated(s.recs, s.recs[s.pending[0]])
  {
    hide Outdated;
  }

  lemma {:induction false} TurnLeads(s: State)
    requires Sound(s) && s.pending != []
    ensures Leads(s.recs, Turn(s).recs, s.n, s.pending, Never())
  {
    hide Sound, Hashed, Turn, Falls;
    TurnFacts(s);
    HeadFalls(s);
    SoundPending(s);
    var id, t := s.pending[0], Turn(s);
    forall q: nat | 1 <= q < |s.pending|
      ensures s.pending[q] in s.recs && s.pending[q] in t.recs && t.recs[s.pending[q]] == s.recs[s.pending[q]]
      ensures Outdated(t.recs, s.recs[s.pending[q]]) <==>
              Outdated(s.recs, s.recs[s.pending[q]]) || (Outdated(s.recs, s.recs[id]) && AimsAt(s.recs[s.pending[q]], s.n, id))
    {
      assert s.pending[q] == s.pending[1..][q - 1];
      PendingIn(s, s.pending[q]);
      KnownTarget(s, s.pending[q]);
    }
  }

  lemma {:induction false} PendingIn(s: State, x: Id)
    requires Sound(s) && x in s.pending
    ensures x in s.recs
  {
    hide Inv, Findable;
    PendingRecord(s, x);
  }
}
