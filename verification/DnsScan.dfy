/** The scans that remove records: the chain of one name, or every chain of the table up to its first
    immortal non-reverse record. */
module DnsScan {
  import opened DnsRecords
  import opened Options
  import opened Sequences
  import opened DnsSteps

  predicate Expired(r: Record, now: int) { Immortal !in r.flags && r.ttd <= now }

  /** An alias whose target is gone or has been reused. */
  predicate Outdated(recs: map<Id, Record>, r: Record) {
    Cname in r.flags && !(r.target.Some? && r.target.value in recs && recs[r.target.value].uid == r.targetUid)
  }

  predicate Family(a: set<Flag>, b: set<Flag>) {
    (Ipv4 in a && Ipv4 in b) || (Ipv6 in a && Ipv6 in b)
  }

  /** A forward record that an insertion of this name with these flags replaces. */
  predicate Conflict(r: Record, name: string, flags: set<Flag>) {
    Forward in r.flags && (Family(flags, r.flags) || Cname in r.flags || Cname in flags) && SameName(r.name, name)
  }

  /** memcmp over 4 or 16 bytes. */
  predicate SameAddress(a: Address, b: Address, wide: bool) { a.first == b.first && (wide ==> a.rest == b.rest) }

  /** A reverse record that an insertion of this address with these flags replaces. */
  predicate ReverseConflict(r: Record, addr: Option<Address>, flags: set<Flag>) {
    && !Static(r) && Reverse in flags && Reverse in r.flags && Family(flags, r.flags)
    && addr.Some? && SameAddress(r.addr, addr.value, Ipv6 in flags)
  }

  datatype Query = ByName(name: string, flags: set<Flag>) | ByAddr(addr: Option<Address>, flags: set<Flag>)

  /** What a scan does with a record: pass over it, unhash it, unhash and free it, give the scan up
      because a hosts or DHCP record has the name, or leave the rest of the chain alone. */
  datatype Fate = Keep | Unhash | Reclaim | Refuse | Leave

  function Dead(r: Record): Fate { if Static(r) then Unhash else Reclaim }

  function FateOf(recs: map<Id, Record>, r: Record, q: Query, now: int): Fate {
    match q
    case ByName(name, flags) =>
      if Expired(r, now) || Outdated(recs, r) then Dead(r)
      else if Conflict(r, name, flags) then (if Static(r) then Refuse else Reclaim)
      else Keep
    case ByAddr(addr, flags) =>
      if Reverse !in r.flags && Immortal in r.flags then Leave
      else if Expired(r, now) then Dead(r)
      else if ReverseConflict(r, addr, flags) then Reclaim
      else Keep
  }

  lemma {:induction false} HashedRecord(s: State, b: nat, k: nat)
    requires Inv(s) && b < |s.chains| && k < |s.chains[b]|
    ensures var id := s.chains[b][k];
            && id in s.recs && Hashed(s.chains, id) && Bucket(s.mix, s.recs[id].name, |s.chains|) == b
            && (id < s.n <==> !Static(s.recs[id]))
            && (id < s.n ==> id in s.lru && InUse(s.recs[id]))
  {
    hide PoolOk, UsedPrefix, BigOk, UidOk, Hashed, Bucket, Distinct, InOrder, Static;
    var id := s.chains[b][k];
    HashedAt(s.chains, b, k);
    ChainOfTable(s.mix, s.recs, s.chains, b);
    if id < s.n { assert RecordOk(s, id); }
    assert StaticOk(s, id);
  }

  /** Removal of record k of chain b according to its fate. */
  ghost function Remove(s: State, b: nat, k: nat): (t: State)
    requires Inv(s) && b < |s.chains| && k < |s.chains[b]|
    ensures Inv(t) && t.n == s.n && t.mix == s.mix
    ensures t.chains == s.chains[b := RemoveAt(s.chains[b], k)]
  {
    HashedRecord(s, b, k);
    if s.chains[b][k] < s.n then FreeAtKeeps(s, b, k); FreeAt(s, b, k)
    else DropKeeps(s, b, k); Drop(s, b, k)
  }

  /** The scan of chain b from record k on; false when it was refused. */
  ghost function Sweep(s: State, b: nat, k: nat, q: Query, now: int): (r: (State, bool))
    requires Inv(s) && b < |s.chains| && k <= |s.chains[b]|
    ensures Inv(r.0) && r.0.n == s.n && r.0.mix == s.mix && |r.0.chains| == |s.chains|
    decreases |s.chains[b]| - k
  {
    if k == |s.chains[b]| then (s, true)
    else
      HashedRecord(s, b, k);
      match FateOf(s.recs, s.recs[s.chains[b][k]], q, now)
      case Keep => Sweep(s, b, k + 1, q, now)
      case Refuse => (s, false)
      case Leave => (s, true)
      case _ => Sweep(Remove(s, b, k), b, k, q, now)
  }

  /** The scan of every chain from chain b on. */
  ghost function SweepAll(s: State, b: nat, q: Query, now: int): (t: State)
    requires Inv(s) && b <= |s.chains| && q.ByAddr?
    ensures Inv(t) && t.n == s.n && t.mix == s.mix && |t.chains| == |s.chains|
    decreases |s.chains| - b
  {
    if b == |s.chains| then s else SweepAll(Sweep(s, b, 0, q, now).0, b + 1, q, now)
  }

  // ----- What a scan leaves behind.

  /** Records that are still hashed are the records they were. */
  ghost predicate Undisturbed(s: State, t: State) {
    forall id | Hashed(t.chains, id) :: Hashed(s.chains, id) && id in s.recs && id in t.recs && t.recs[id] == s.recs[id]
  }

  lemma {:induction false} RemoveUndisturbed(s: State, b: nat, k: nat)
    requires Inv(s) && b < |s.chains| && k < |s.chains[b]|
    ensures Undisturbed(s, Remove(s, b, k))
  {
    hide PoolOk, UsedPrefix, BigOk, UidOk, Hashed, RecordOk, StaticOk, TableOk;
    var t := Remove(s, b, k);
    forall id | Hashed(t.chains, id) ensures Hashed(s.chains, id) && id in s.recs && id in t.recs && t.recs[id] == s.recs[id] {
      DropHashed(s, b, k, id);
      HashedIn(s, id);
    }
  }

  lemma {:induction false} HashedIn(s: State, id: Id)
    requires TableOk(s.mix, s.recs, s.chains) && Hashed(s.chains, id)
    ensures id in s.recs && id in s.chains[Bucket(s.mix, s.recs[id].name, |s.chains|)]
  {
    hide Distinct, InOrder, Bucket;
    var b :| 0 <= b < |s.chains| && id in s.chains[b];
    assert ChainOk(s.mix, s.recs, s.chains[b], b, |s.chains|);
  }

  lemma {:induction false} UndisturbedTrans(s: State, t: State, u: State)
    requires Undisturbed(s, t) && Undisturbed(t, u)
    ensures Undisturbed(s, u)
  {
    hide Hashed;
  }

  lemma {:induction false} SweepUndisturbed(s: State, b: nat, k: nat, q: Query, now: int)
    requires Inv(s) && b < |s.chains| && k <= |s.chains[b]|
    ensures Undisturbed(s, Sweep(s, b, k, q, now).0)
    ensures forall c | 0 <= c < |s.chains| && c != b :: Sweep(s, b, k, q, now).0.chains[c] == s.chains[c]
    ensures |Sweep(s, b, k, q, now).0.chains[b]| >= k && Sweep(s, b, k, q, now).0.chains[b][..k] == s.chains[b][..k]
    decreases |s.chains[b]| - k
  {
    hide Inv, Hashed, FateOf, Remove;
    if k < |s.chains[b]| {
      HashedRecord(s, b, k);
      var fate := FateOf(s.recs, s.recs[s.chains[b][k]], q, now);
      if fate == Keep {
        SweepUndisturbed(s, b, k + 1, q, now);
        assert s.chains[b][..k + 1][..k] == s.chains[b][..k];
      } else if fate == Unhash || fate == Reclaim {
        var t := Remove(s, b, k);
        RemoveUndisturbed(s, b, k);
        SweepUndisturbed(t, b, k, q, now);
        UndisturbedTrans(s, t, Sweep(t, b, k, q, now).0);
      } else {
        SelfUndisturbed(s);
      }
    } else {
      SelfUndisturbed(s);
    }
  }

  lemma {:induction false} SelfUndisturbed(s: State)
    requires Inv(s)
    ensures Undisturbed(s, s)
  {
    hide PoolOk, UsedPrefix, BigOk, UidOk, Hashed, RecordOk, StaticOk, TableOk;
    forall id | Hashed(s.chains, id) ensures id in s.recs { HashedIn(s, id); }
  }

  /** Records that a completed scan does not leave in a chain it went through. */
  predicate Offends(r: Record, q: Query, now: int) {
    Expired(r, now) || match q case ByName(name, flags) => Conflict(r, name, flags) case ByAddr(addr, flags) => ReverseConflict(r, addr, flags)
  }

  ghost predicate CleanFrom(s: State, b: nat, k: nat, q: Query, now: int)
    requires b < |s.chains|
  {
    forall i | k <= i < |s.chains[b]| :: s.chains[b][i] in s.recs && !Offends(s.recs[s.chains[b][i]], q, now)
  }

  lemma {:induction false} KeptIsClean(recs: map<Id, Record>, r: Record, q: Query, now: int)
    ensures FateOf(recs, r, q, now) == Keep ==> !Offends(r, q, now)
    ensures FateOf(recs, r, q, now) == Leave ==> Rank(r) == 2
    ensures Rank(r) == 2 && q.ByAddr? ==> !Offends(r, q, now)
    ensures FateOf(recs, r, q, now) == Refuse ==> q.ByName? && Static(r) && !Expired(r, now) && Conflict(r, q.name, q.flags)
    ensures FateOf(recs, r, q, now) == Leave ==> q.ByAddr?
  {
    hide Conflict, Family, SameAddress, Outdated;
  }

  lemma {:induction false} RankTwoOn(s: State, b: nat, k: nat, q: Query, now: int)
    requires Inv(s) && b < |s.chains| && k < |s.chains[b]| && s.chains[b][k] in s.recs
    requires Rank(s.recs[s.chains[b][k]]) == 2 && q.ByAddr?
    ensures CleanFrom(s, b, k, q, now)
  {
    hide PoolOk, UsedPrefix, BigOk, UidOk, Hashed, RecordOk, StaticOk, Bucket, Distinct, Offends;
    var chain := s.chains[b];
    assert ChainOk(s.mix, s.recs, chain, b, |s.chains|);
    forall i | k <= i < |chain| ensures chain[i] in s.recs && !Offends(s.recs[chain[i]], q, now) {
      assert chain[i] in chain;
      KeptIsClean(s.recs, s.recs[chain[i]], q, now);
      if k < i { assert Rank(s.recs[chain[k]]) <= Rank(s.recs[chain[i]]); }
    }
  }

  /** A completed scan of a chain leaves no expired record in it and none that offends the query. */
  lemma {:induction false} SweepCleans(s: State, b: nat, k: nat, q: Query, now: int)
    requires Inv(s) && b < |s.chains| && k <= |s.chains[b]|
    ensures Sweep(s, b, k, q, now).1 ==> CleanFrom(Sweep(s, b, k, q, now).0, b, k, q, now)
    decreases |s.chains[b]| - k
  {
    hide Inv, Hashed, FateOf, Remove, Offends, Rank;
    if k < |s.chains[b]| {
      HashedRecord(s, b, k);
      var id := s.chains[b][k];
      KeptIsClean(s.recs, s.recs[id], q, now);
      var fate := FateOf(s.recs, s.recs[id], q, now);
      if fate == Keep {
        SweepCleans(s, b, k + 1, q, now);
        KeptStays(s, b, k, q, now);
      } else if fate == Unhash || fate == Reclaim {
        SweepCleans(Remove(s, b, k), b, k, q, now);
      } else if fate == Leave {
        RankTwoOn(s, b, k, q, now);
      }
    }
  }

  lemma {:induction false} KeptStays(s: State, b: nat, k: nat, q: Query, now: int)
    requires Inv(s) && b < |s.chains| && k < |s.chains[b]|
    ensures var t := Sweep(s, b, k + 1, q, now).0;
            k < |t.chains[b]| && t.chains[b][k] == s.chains[b][k] && s.chains[b][k] in s.recs && s.chains[b][k] in t.recs
            && t.recs[s.chains[b][k]] == s.recs[s.chains[b][k]]
  {
    hide Inv, Sweep, Hashed;
    var t, id := Sweep(s, b, k + 1, q, now).0, s.chains[b][k];
    SweepUndisturbed(s, b, k + 1, q, now);
    assert t.chains[b][..k + 1][k] == s.chains[b][..k + 1][k];
    HashedAt(t.chains, b, k);
  }

  /** A refused scan met a live hosts or DHCP record of the name, and left it in place. */
  lemma {:induction false} RefusedBy(s: State, b: nat, k: nat, q: Query, now: int) returns (i: nat)
    requires Inv(s) && b < |s.chains| && k <= |s.chains[b]| && !Sweep(s, b, k, q, now).1
    ensures var t := Sweep(s, b, k, q, now).0;
            && q.ByName? && i < |t.chains[b]| && t.chains[b][i] in t.recs
            && Static(t.recs[t.chains[b][i]]) && !Expired(t.recs[t.chains[b][i]], now)
            && Conflict(t.recs[t.chains[b][i]], q.name, q.flags)
    decreases |s.chains[b]| - k
  {
    hide Inv, Hashed, FateOf, Remove, Offends, Rank, Conflict, Expired, Static;
    HashedRecord(s, b, k);
    var id := s.chains[b][k];
    KeptIsClean(s.recs, s.recs[id], q, now);
    var fate := FateOf(s.recs, s.recs[id], q, now);
    if fate == Keep {
      i := RefusedBy(s, b, k + 1, q, now);
    } else if fate == Unhash || fate == Reclaim {
      i := RefusedBy(Remove(s, b, k), b, k, q, now);
    } else {
      i := k;
    }
  }

  /** The refusing record was in the table from the start. */
  lemma {:induction false} RefusingRecord(s: State, b: nat, q: Query, now: int) returns (h: Id)
    requires Inv(s) && b < |s.chains| && !Sweep(s, b, 0, q, now).1
    ensures q.ByName? && h >= s.n && Hashed(s.chains, h) && h in s.recs && Conflict(s.recs[h], q.name, q.flags)
  {
    hide Inv, Hashed, Sweep, Conflict, Expired, Static;
    var t := Sweep(s, b, 0, q, now).0;
    var i := RefusedBy(s, b, 0, q, now);
    SweepUndisturbed(s, b, 0, q, now);
    HashedRecord(t, b, i);
    h := t.chains[b][i];
  }

  ghost predicate CleanBelow(s: State, b: nat, q: Query, now: int)
    requires b <= |s.chains|
  {
    forall c | 0 <= c < b :: CleanFrom(s, c, 0, q, now)
  }

  lemma {:induction false} CleanElsewhere(s: State, t: State, b: nat, q: Query, now: int)
    requires b < |s.chains| == |t.chains| && CleanBelow(s, b, q, now) && Undisturbed(s, t)
    requires forall c | 0 <= c < b :: t.chains[c] == s.chains[c]
    ensures CleanBelow(t, b, q, now)
  {
    hide Offends, Hashed;
    forall c | 0 <= c < b ensures CleanFrom(t, c, 0, q, now) {
      assert CleanFrom(s, c, 0, q, now);
      forall i | 0 <= i < |t.chains[c]| ensures t.chains[c][i] in t.recs && !Offends(t.recs[t.chains[c][i]], q, now) {
        HashedAt(t.chains, c, i);
      }
    }
  }

  /** Although each chain is scanned only up to its first immortal non-reverse record, the whole-table
      scan leaves no expired record and no replaced reverse record anywhere. */
  lemma {:induction false} SweepAllCleans(s: State, b: nat, q: Query, now: int)
    requires Inv(s) && b <= |s.chains| && q.ByAddr? && CleanBelow(s, b, q, now)
    ensures CleanBelow(SweepAll(s, b, q, now), |s.chains|, q, now)
    ensures Undisturbed(s, SweepAll(s, b, q, now))
    decreases |s.chains| - b
  {
    hide Inv, Hashed, Sweep, CleanFrom, Undisturbed;
    if b < |s.chains| {
      var t := Sweep(s, b, 0, q, now).0;
      SweepUndisturbed(s, b, 0, q, now);
      AddrNotRefused(s, b, 0, q, now);
      SweepCleans(s, b, 0, q, now);
      CleanElsewhere(s, t, b, q, now);
      SweepAllCleans(t, b + 1, q, now);
      UndisturbedTrans(s, t, SweepAll(s, b, q, now));
    } else {
      SelfUndisturbed(s);
    }
  }

  lemma {:induction false} AddrNotRefused(s: State, b: nat, k: nat, q: Query, now: int)
    requires Inv(s) && b < |s.chains| && k <= |s.chains[b]| && q.ByAddr?
    ensures Sweep(s, b, k, q, now).1
  {
    hide Inv, Sweep;
    if !Sweep(s, b, k, q, now).1 { var i := RefusedBy(s, b, k, q, now); }
  }

  // ----- What a scan leaves alone.

  ghost predicate Framed(s: State, t: State) {
    && t.n == s.n && t.mix == s.mix && t.pending == s.pending && t.bigLeft == s.bigLeft
    && |t.chains| == |s.chains| && |t.lru| == |s.lru|
    && (forall id | id in s.pending :: id in s.recs && id in t.recs && t.recs[id] == s.recs[id])
  }

  lemma {:induction false} FramedTrans(s: State, t: State, u: State)
    requires Framed(s, t) && Framed(t, u)
    ensures Framed(s, u)
  {
  }

  lemma {:induction false} SizesAgree(s: State, t: State)
    requires PoolOk(s.n, s.lru, s.pending) && PoolOk(t.n, t.lru, t.pending) && s.n == t.n && s.pending == t.pending
    ensures |s.lru| == |t.lru|
  {
    var m := multiset(s.pending);
    assert |multiset(s.lru) + m| == |s.lru| + |s.pending|;
    assert |multiset(t.lru) + m| == |t.lru| + |t.pending|;
  }

  lemma {:induction false} PendingRecord(s: State, id: Id)
    requires Inv(s) && id in s.pending
    ensures id < s.n && id in s.recs && !Static(s.recs[id]) && !Hashed(s.chains, id) && id !in s.lru
  {
    hide TableOk, UsedPrefix, BigOk, UidOk, Hashed, PoolOk, Static;
    PoolMembers(s.n, s.lru, s.pending, id);
    assert RecordOk(s, id);
  }

  lemma {:induction false} RemoveFramed(s: State, b: nat, k: nat)
    requires Inv(s) && b < |s.chains| && k < |s.chains[b]|
    ensures Framed(s, Remove(s, b, k))
  {
    hide TableOk, UsedPrefix, BigOk, UidOk, Hashed, PoolOk, RecordOk, StaticOk;
    var t := Remove(s, b, k);
    SizesAgree(s, t);
    forall id | id in s.pending ensures id in s.recs && id in t.recs && t.recs[id] == s.recs[id] {
      PendingRecord(s, id);
      HashedAt(s.chains, b, k);
    }
  }

  lemma {:induction false} SelfFramed(s: State)
    requires Inv(s)
    ensures Framed(s, s)
  {
    hide Inv;
    forall id | id in s.pending ensures id in s.recs { PendingRecord(s, id); }
  }

  lemma {:induction false} SweepFramed(s: State, b: nat, k: nat, q: Query, now: int)
    requires Inv(s) && b < |s.chains| && k <= |s.chains[b]|
    ensures Framed(s, Sweep(s, b, k, q, now).0)
    decreases |s.chains[b]| - k
  {
    hide Inv, FateOf, Remove;
    SelfFramed(s);
    if k < |s.chains[b]| {
      HashedRecord(s, b, k);
      var fate := FateOf(s.recs, s.recs[s.chains[b][k]], q, now);
      if fate == Keep {
        SweepFramed(s, b, k + 1, q, now);
      } else if fate == Unhash || fate == Reclaim {
        RemoveFramed(s, b, k);
        SweepFramed(Remove(s, b, k), b, k, q, now);
      }
    }
  }

  lemma {:induction false} SweepAllFramed(s: State, b: nat, q: Query, now: int)
    requires Inv(s) && b <= |s.chains| && q.ByAddr?
    ensures Framed(s, SweepAll(s, b, q, now))
    decreases |s.chains| - b
  {
    hide Inv, Sweep;
    SelfFramed(s);
    if b < |s.chains| {
      SweepFramed(s, b, 0, q, now);
      SweepAllFramed(Sweep(s, b, 0, q, now).0, b + 1, q, now);
    }
  }

  /** A removed record had expired, offended the query, or was an alias that is outdated. */
  ghost predicate Removable(t: State, r: Record, q: Query, now: int) {
    Offends(r, q, now) || (q.ByName? && Outdated(t.recs, r))
  }

  lemma {:induction false} SweepOutdated(s: State, b: nat, k: nat, q: Query, now: int, r: Record)
    requires Inv(s) && b < |s.chains| && k <= |s.chains[b]| && Outdated(s.recs, r)
    requires r.target.Some? && r.target.value < s.n ==> r.targetUid < s.uid
    ensures Outdated(Sweep(s, b, k, q, now).0.recs, r)
    decreases |s.chains[b]| - k
  {
    hide Inv, FateOf, Remove;
    if k < |s.chains[b]| {
      HashedRecord(s, b, k);
      var fate := FateOf(s.recs, s.recs[s.chains[b][k]], q, now);
      if fate == Keep {
        SweepOutdated(s, b, k + 1, q, now, r);
      } else if fate == Unhash || fate == Reclaim {
        RemoveOutdated(s, b, k, r);
        SweepOutdated(Remove(s, b, k), b, k, q, now, r);
      }
    }
  }

  lemma {:induction false} RemoveOutdated(s: State, b: nat, k: nat, r: Record)
    requires Inv(s) && b < |s.chains| && k < |s.chains[b]| && Outdated(s.recs, r)
    requires r.target.Some? && r.target.value < s.n ==> r.targetUid < s.uid
    ensures var t := Remove(s, b, k);
            Outdated(t.recs, r) && (r.target.Some? && r.target.value < t.n ==> r.targetUid < t.uid)
  {
    hide TableOk, UsedPrefix, BigOk, PoolOk, RecordOk, StaticOk, Hashed, RemoveAt;
    HashedRecord(s, b, k);
  }

  /** A scan removes nothing else. */
  lemma {:induction false} SweepRemoves(s: State, b: nat, k: nat, q: Query, now: int, id: Id)
    requires Inv(s) && b < |s.chains| && k <= |s.chains[b]|
    requires Hashed(s.chains, id) && !Hashed(Sweep(s, b, k, q, now).0.chains, id)
    ensures id in s.recs && Removable(Sweep(s, b, k, q, now).0, s.recs[id], q, now)
    decreases |s.chains[b]| - k
  {
    hide Inv, Hashed, FateOf, Remove, Offends, Outdated, Static;
    if k < |s.chains[b]| {
      HashedRecord(s, b, k);
      var x := s.chains[b][k];
      var fate := FateOf(s.recs, s.recs[x], q, now);
      if fate == Keep {
        SweepRemoves(s, b, k + 1, q, now, id);
      } else if fate == Unhash || fate == Reclaim {
        var t := Remove(s, b, k);
        RemovedWhy(s.recs, s.recs[x], q, now);
        RemoveHashed(s, b, k, id);
        if id == x {
          if Outdated(s.recs, s.recs[x]) {
            RemovedAlias(s, b, k);
            SweepOutdated(t, b, k, q, now, s.recs[x]);
          }
        } else {
          SweepRemoves(t, b, k, q, now, id);
          RemoveUndisturbed(s, b, k);
        }
      }
    }
  }

  lemma {:induction false} RemovedWhy(recs: map<Id, Record>, r: Record, q: Query, now: int)
    requires FateOf(recs, r, q, now) == Unhash || FateOf(recs, r, q, now) == Reclaim
    ensures Offends(r, q, now) || (q.ByName? && Outdated(recs, r))
  {
    hide Conflict, Family, SameAddress, Outdated, Static;
  }

  lemma {:induction false} RemoveHashed(s: State, b: nat, k: nat, id: Id)
    requires Inv(s) && b < |s.chains| && k < |s.chains[b]|
    ensures Hashed(Remove(s, b, k).chains, id) <==> Hashed(s.chains, id) && id != s.chains[b][k]
  {
    hide PoolOk, UsedPrefix, BigOk, UidOk, Hashed, RecordOk, StaticOk, TableOk, RemoveAt;
    DropHashed(s, b, k, id);
  }

  lemma {:induction false} RemovedAlias(s: State, b: nat, k: nat)
    requires Inv(s) && b < |s.chains| && k < |s.chains[b]| && s.chains[b][k] in s.recs
    requires Outdated(s.recs, s.recs[s.chains[b][k]])
    ensures var r, t := s.recs[s.chains[b][k]], Remove(s, b, k);
            Outdated(t.recs, r) && (r.target.Some? && r.target.value < t.n ==> r.targetUid < t.uid)
  {
    hide PoolOk, UsedPrefix, BigOk, Hashed, RecordOk, StaticOk, TableOk, Remove, Outdated;
    RemoveOutdated(s, b, k, s.recs[s.chains[b][k]]);
  }

  // ----- Reclaiming the tail of the list.

  ghost predicate Candidate(s: State, id: Id) { id < s.n && (Hashed(s.chains, id) || id in s.pending) }

  /** A cached or uncommitted record replaces itself when it is inserted again. */
  predicate SelfReplacing(r: Record) {
    if Forward in r.flags then Family(r.flags, r.flags) || Cname in r.flags
    else Reverse in r.flags && Family(r.flags, r.flags)
  }

  ghost predicate Findable(s: State) {
    forall id | Candidate(s, id) :: id in s.recs && SelfReplacing(s.recs[id])
  }

  ghost predicate Sound(s: State) { Inv(s) && Findable(s) }

  /** No hosts or DHCP record shares its name with a cached or uncommitted forward record it would
      have kept out. The alias of a lease can enter the table and break this. */
  ghost predicate Unshadowed(s: State) {
    forall id, h | Candidate(s, id) && h >= s.n && Hashed(s.chains, h) ::
      id in s.recs && h in s.recs && (Forward in s.recs[id].flags ==> !Conflict(s.recs[h], s.recs[id].name, s.recs[id].flags))
  }

  lemma {:induction false} StaysSound(s: State, t: State)
    requires Sound(s) && Inv(t) && Framed(s, t) && Undisturbed(s, t)
    ensures Sound(t)
  {
    hide Inv, Hashed, SelfReplacing, Conflict;
    forall id | Candidate(t, id) ensures Candidate(s, id) && id in s.recs && id in t.recs && t.recs[id] == s.recs[id] { }
  }

  lemma {:induction false} SelfConflict(r: Record)
    requires SelfReplacing(r)
    ensures Forward in r.flags ==> Conflict(r, r.name, r.flags)
    ensures Forward !in r.flags && !Static(r) ==> ReverseConflict(r, Some(r.addr), r.flags)
  {
  }

  ghost predicate FreeTail(s: State) {
    s.lru != [] && s.lru[|s.lru| - 1] in s.recs && !InUse(s.recs[s.lru[|s.lru| - 1]])
  }

  /** A pool record that leaves the table is free, and so is the tail of the list. */
  lemma {:induction false} TailIsFree(s: State, t: State, id: Id)
    requires Inv(s) && Inv(t) && Framed(s, t) && id in s.lru && !Hashed(t.chains, id)
    ensures FreeTail(t)
  {
    hide TableOk, BigOk, UidOk, Hashed, PoolOk, InUse;
    PoolMembers(s.n, s.lru, s.pending, id);
    PoolMembers(t.n, t.lru, t.pending, id);
    assert RecordOk(t, id);
    var k := IndexOf(t.lru, id);
    assert t.lru[|t.lru| - 1] in t.lru;
  }

  /** The scan of chain b from record k on for a name that lies in the long-name buffer of the record
      `own`: once that record is freed, the buffer has joined the free ones and reads as `scrap`. */
  ghost function SweepOwn(s: State, b: nat, k: nat, q: Query, now: int, own: Option<Id>, scrap: string): (r: (State, bool))
    requires Inv(s) && b < |s.chains| && k <= |s.chains[b]| && q.ByName?
    ensures Inv(r.0) && r.0.n == s.n && r.0.mix == s.mix && |r.0.chains| == |s.chains|
    decreases |s.chains[b]| - k
  {
    if own == None then Sweep(s, b, k, q, now)
    else if k == |s.chains[b]| then (s, true)
    else
      HashedRecord(s, b, k);
      var id := s.chains[b][k];
      match FateOf(s.recs, s.recs[id], q, now)
      case Keep => SweepOwn(s, b, k + 1, q, now, own, scrap)
      case Refuse => (s, false)
      case Leave => (s, true)
      case _ =>
        if Overwritten(s.recs[id], id, own) then SweepOwn(Remove(s, b, k), b, k, ByName(scrap, q.flags), now, None, scrap)
        else SweepOwn(Remove(s, b, k), b, k, q, now, own, scrap)
  }

  /** Freeing the record overwrites the name that is scanned for. */
  predicate Overwritten(r: Record, id: Id, own: Option<Id>) { own == Some(id) && BigName in r.flags }

  /** What the scan does with the record it has come to. */
  lemma {:induction false} SweepOwnStep(s: State, b: nat, k: nat, q: Query, now: int, own: Option<Id>, scrap: string)
    requires Inv(s) && b < |s.chains| && k <= |s.chains[b]| && q.ByName?
    ensures k == |s.chains[b]| ==> SweepOwn(s, b, k, q, now, own, scrap) == (s, true)
    ensures k < |s.chains[b]| ==>
              var id := s.chains[b][k];
              && id in s.recs
              && var fate, over := FateOf(s.recs, s.recs[id], q, now), Overwritten(s.recs[id], id, own);
              && (fate == Keep ==> SweepOwn(s, b, k, q, now, own, scrap) == SweepOwn(s, b, k + 1, q, now, own, scrap))
              && (fate == Refuse ==> SweepOwn(s, b, k, q, now, own, scrap) == (s, false))
              && (fate == Unhash || fate == Reclaim ==>
                    SweepOwn(s, b, k, q, now, own, scrap)
                    == SweepOwn(Remove(s, b, k), b, k, if over then ByName(scrap, q.flags) else q, now, if over then None else own, scrap))
  {
    hide Inv, FateOf, Remove;
    if k < |s.chains[b]| { HashedRecord(s, b, k); }
  }

  lemma {:induction false} SweepOwnLeaves(s: State, b: nat, k: nat, q: Query, now: int, own: Option<Id>, scrap: string)
    requires Inv(s) && b < |s.chains| && k <= |s.chains[b]| && q.ByName?
    ensures Undisturbed(s, SweepOwn(s, b, k, q, now, own, scrap).0) && Framed(s, SweepOwn(s, b, k, q, now, own, scrap).0)
    decreases |s.chains[b]| - k
  {
    hide Inv, FateOf, Remove, Hashed, Sweep, Undisturbed, Framed;
    SweepUndisturbed(s, b, k, q, now);
    SweepFramed(s, b, k, q, now);
    SelfUndisturbed(s);
    SelfFramed(s);
    if own.Some? && k < |s.chains[b]| {
      HashedRecord(s, b, k);
      var id := s.chains[b][k];
      var fate := FateOf(s.recs, s.recs[id], q, now);
      if fate == Keep {
        SweepOwnLeaves(s, b, k + 1, q, now, own, scrap);
      } else if fate == Unhash || fate == Reclaim {
        var t, over := Remove(s, b, k), Overwritten(s.recs[id], id, own);
        RemoveUndisturbed(s, b, k);
        RemoveFramed(s, b, k);
        SweepOwnLeaves(t, b, k, if over then ByName(scrap, q.flags) else q, now, if over then None else own, scrap);
        UndisturbedTrans(s, t, SweepOwn(s, b, k, q, now, own, scrap).0);
        FramedTrans(s, t, SweepOwn(s, b, k, q, now, own, scrap).0);
      }
    }
  }

  /** Whatever the buffer reads as in the end, the record itself goes if the name, left alone, removes it. */
  lemma {:induction false} SweepOwnFrees(s: State, b: nat, k: nat, q: Query, now: int, id: Id, scrap: string)
    requires Inv(s) && b < |s.chains| && k <= |s.chains[b]| && q.ByName?
    requires Hashed(s.chains, id) && Sweep(s, b, k, q, now).1 && !Hashed(Sweep(s, b, k, q, now).0.chains, id)
    ensures !Hashed(SweepOwn(s, b, k, q, now, Some(id), scrap).0.chains, id)
    decreases |s.chains[b]| - k
  {
    hide Inv, FateOf, Remove, Hashed, Undisturbed;
    if k < |s.chains[b]| {
      HashedRecord(s, b, k);
      var x := s.chains[b][k];
      var fate := FateOf(s.recs, s.recs[x], q, now);
      if fate == Keep {
        SweepOwnFrees(s, b, k + 1, q, now, id, scrap);
      } else if fate == Unhash || fate == Reclaim {
        var t := Remove(s, b, k);
        RemoveHashed(s, b, k, id);
        if x != id {
          SweepOwnFrees(t, b, k, q, now, id, scrap);
        } else {
          GoneForGood(t, b, k, q, now, Some(id), scrap, id);
          GoneForGood(t, b, k, ByName(scrap, q.flags), now, None, scrap, id);
        }
      } else {
        KeptIsClean(s.recs, s.recs[x], q, now);
      }
    }
  }

  lemma {:induction false} GoneForGood(s: State, b: nat, k: nat, q: Query, now: int, own: Option<Id>, scrap: string, id: Id)
    requires Inv(s) && b < |s.chains| && k <= |s.chains[b]| && q.ByName? && !Hashed(s.chains, id)
    ensures !Hashed(SweepOwn(s, b, k, q, now, own, scrap).0.chains, id)
  {
    hide Inv, Hashed, SweepOwn;
    SweepOwnLeaves(s, b, k, q, now, own, scrap);
  }

  // ----- When the scan for the tail's own name frees nothing.

  /** The scan from record k on comes to a live hosts or DHCP record of the name before it comes to a record
      that it would free. */
  ghost predicate Stops(s: State, b: nat, k: nat, q: Query, now: int)
    requires b < |s.chains| && q.ByName?
  {
    exists i: nat :: k <= i < |s.chains[b]| && FateAt(s, b, i, q, now) == Refuse && forall j: nat | k <= j < i :: FateAt(s, b, j, q, now) != Reclaim
  }

  ghost function FateAt(s: State, b: nat, i: nat, q: Query, now: int): Fate
    requires b < |s.chains| && i < |s.chains[b]|
  {
    if s.chains[b][i] in s.recs then FateOf(s.recs, s.recs[s.chains[b][i]], q, now) else Keep
  }

  /** Removing a hosts or DHCP record leaves all other records and the list as they are. */
  lemma {:induction false} Unhashed(s: State, b: nat, m: nat)
    requires Inv(s) && b < |s.chains| && m < |s.chains[b]| && s.chains[b][m] in s.recs && Static(s.recs[s.chains[b][m]])
    ensures Remove(s, b, m) == s.(chains := s.chains[b := RemoveAt(s.chains[b], m)])
  {
    hide Inv, Static;
    HashedRecord(s, b, m);
  }

  lemma {:induction false} FateStatic(s: State, b: nat, m: nat, q: Query, now: int)
    requires b < |s.chains| && m < |s.chains[b]|
    ensures FateAt(s, b, m, q, now) == Unhash ==> s.chains[b][m] in s.recs && Static(s.recs[s.chains[b][m]])
    ensures FateAt(s, b, m, q, now) == Reclaim ==> s.chains[b][m] in s.recs && !Static(s.recs[s.chains[b][m]])
  {
    hide Expired, Outdated, Conflict, Family, SameAddress;
  }

  /** An expired hosts or DHCP record makes no difference to whether a scan for a name stops. */
  lemma {:induction false} StopsWithout(s: State, b: nat, m: nat, c: nat, k: nat, q: Query, now: int)
    requires Inv(s) && b < |s.chains| && m < |s.chains[b]| && c < |s.chains| && q.ByName? && (c == b ==> k <= m)
    requires s.chains[b][m] in s.recs && Static(s.recs[s.chains[b][m]])
    requires c == b ==> FateAt(s, b, m, q, now) == Unhash
    ensures Stops(s, c, k, q, now) <==> Stops(Remove(s, b, m), c, k, q, now)
  {
    hide Inv, Remove, FateOf, RemoveAt, Static;
    var t := Remove(s, b, m);
    Unhashed(s, b, m);
    if c == b {
      forall i: nat | i < |t.chains[b]| ensures FateAt(t, b, i, q, now) == FateAt(s, b, Skip(m, i), q, now) {
        RemoveAtElement(s.chains[b], m, i);
      }
      StopsShorter(s, t, b, m, k, q, now);
    } else {
      forall i: nat | i < |s.chains[c]| ensures FateAt(t, c, i, q, now) == FateAt(s, c, i, q, now) { }
    }
  }

  lemma {:induction false} StopsShorter(s: State, t: State, b: nat, m: nat, k: nat, q: Query, now: int)
    requires b < |s.chains| && b < |t.chains| && k <= m < |s.chains[b]| && |t.chains[b]| == |s.chains[b]| - 1 && q.ByName?
    requires forall i: nat | i < |t.chains[b]| :: FateAt(t, b, i, q, now) == FateAt(s, b, Skip(m, i), q, now)
    requires FateAt(s, b, m, q, now) == Unhash
    ensures Stops(s, b, k, q, now) <==> Stops(t, b, k, q, now)
  {
    hide FateAt;
    if Stops(s, b, k, q, now) {
      var i: nat :| k <= i < |s.chains[b]| && FateAt(s, b, i, q, now) == Refuse && forall j: nat | k <= j < i :: FateAt(s, b, j, q, now) != Reclaim;
      var i' := if i < m then i else i - 1;
      assert Skip(m, i') == i;
      forall j: nat | k <= j < i' ensures FateAt(t, b, j, q, now) != Reclaim { }
    }
    if Stops(t, b, k, q, now) {
      var i: nat :| k <= i < |t.chains[b]| && FateAt(t, b, i, q, now) == Refuse && forall j: nat | k <= j < i :: FateAt(t, b, j, q, now) != Reclaim;
      forall j: nat | k <= j < Skip(m, i) ensures FateAt(s, b, j, q, now) != Reclaim {
        if j < m { assert Skip(m, j) == j; } else if j > m { assert Skip(m, j - 1) == j; }
      }
    }
  }

  lemma {:induction false} StopsStep(s: State, b: nat, k: nat, q: Query, now: int)
    requires b < |s.chains| && k < |s.chains[b]| && q.ByName?
    ensures FateAt(s, b, k, q, now) == Refuse ==> Stops(s, b, k, q, now)
    ensures FateAt(s, b, k, q, now) == Reclaim ==> !Stops(s, b, k, q, now)
    ensures FateAt(s, b, k, q, now) == Keep ==> (Stops(s, b, k, q, now) <==> Stops(s, b, k + 1, q, now))
  {
    hide FateAt;
    if FateAt(s, b, k, q, now) == Keep && Stops(s, b, k, q, now) {
      var i: nat :| k <= i < |s.chains[b]| && FateAt(s, b, i, q, now) == Refuse && forall j: nat | k <= j < i :: FateAt(s, b, j, q, now) != Reclaim;
    }
  }

  /** The scan for the tail's own name leaves a free record at the tail exactly when it does not stop first;
      then it has not freed anything. */
  lemma {:induction false} SpillExact(s: State, b: nat, k: nat, q: Query, now: int, id: Id, scrap: string)
    requires Inv(s) && b < |s.chains| && k <= |s.chains[b]| && q.ByName?
    requires exists i: nat :: k <= i < |s.chains[b]| && s.chains[b][i] == id && FateAt(s, b, i, q, now) == Reclaim
    ensures var (t, ok) := SweepOwn(s, b, k, q, now, Some(id), scrap);
            if Stops(s, b, k, q, now) then !ok && t.lru == s.lru && t.recs == s.recs else FreeTail(t)
    decreases |s.chains[b]| - k
  {
    hide Inv, FateOf, Remove, Sweep, SweepOwn, Stops, FreeTail, Overwritten;
    var i: nat :| k <= i < |s.chains[b]| && s.chains[b][i] == id && FateAt(s, b, i, q, now) == Reclaim;
    SweepOwnStep(s, b, k, q, now, Some(id), scrap);
    StopsStep(s, b, k, q, now);
    FateStatic(s, b, k, q, now);
    HashedRecord(s, b, k);
    match FateAt(s, b, k, q, now)
    case Keep => SpillExact(s, b, k + 1, q, now, id, scrap);
    case Refuse =>
    case Leave => KeptIsClean(s.recs, s.recs[s.chains[b][k]], q, now);
    case Unhash =>
      StopsWithout(s, b, k, b, k, q, now);
      StillReclaimed(s, b, k, q, now, i);
      Unhashed(s, b, k);
      NotOverwritten(s, b, k, i);
      SpillExact(Remove(s, b, k), b, k, q, now, id, scrap);
    case Reclaim =>
      var x := s.chains[b][k];
      var over := Overwritten(s.recs[x], x, Some(id));
      FreedNow(s, b, k, if over then ByName(scrap, q.flags) else q, now, if over then None else Some(id), scrap);
  }

  /** No cached record has expired. */
  ghost predicate NoneExpired(s: State, now: int) {
    forall x: Id | x < s.n && Hashed(s.chains, x) :: x in s.recs && !Expired(s.recs[x], now)
  }

  /** The scan for expired records, where no cached one has expired: it unhashes hosts and DHCP records only,
      and none that matters to a scan for a name. */
  lemma {:induction false} SweepQuiet(s: State, b: nat, k: nat, now: int, c: nat, q: Query)
    requires Inv(s) && b < |s.chains| && k <= |s.chains[b]| && c < |s.chains| && q.ByName? && NoneExpired(s, now)
    ensures var t := Sweep(s, b, k, ByAddr(None, {}), now).0;
            t.lru == s.lru && t.recs == s.recs && NoneExpired(t, now) && (Stops(t, c, 0, q, now) <==> Stops(s, c, 0, q, now))
    decreases |s.chains[b]| - k
  {
    hide Inv, FateOf, Remove, Stops, Hashed, Static;
    if k < |s.chains[b]| {
      HashedRecord(s, b, k);
      var r := s.recs[s.chains[b][k]];
      ExpiryFate(s, b, k, now, q);
      var fate := FateOf(s.recs, r, ByAddr(None, {}), now);
      if fate == Keep {
        SweepQuiet(s, b, k + 1, now, c, q);
      } else if fate == Unhash {
        var t := Remove(s, b, k);
        StopsWithout(s, b, k, c, 0, q, now);
        Unhashed(s, b, k);
        forall x: Id | Hashed(t.chains, x) ensures Hashed(s.chains, x) { RemoveHashed(s, b, k, x); }
        SweepQuiet(t, b, k, now, c, q);
      }
    }
  }

  lemma {:induction false} ExpiryFate(s: State, b: nat, k: nat, now: int, q: Query)
    requires Inv(s) && b < |s.chains| && k < |s.chains[b]| && q.ByName? && NoneExpired(s, now) && s.chains[b][k] in s.recs
    ensures var r := s.recs[s.chains[b][k]];
            var fate := FateOf(s.recs, r, ByAddr(None, {}), now);
            && (fate == Keep || fate == Leave || (fate == Unhash && Static(r) && FateAt(s, b, k, q, now) == Unhash))
  {
    hide Inv, Expired, Outdated, Conflict, Hashed;
    HashedRecord(s, b, k);
  }

  lemma {:induction false} SweepAllQuiet(s: State, b: nat, now: int, c: nat, q: Query)
    requires Inv(s) && b <= |s.chains| && c < |s.chains| && q.ByName? && NoneExpired(s, now)
    ensures var t := SweepAll(s, b, ByAddr(None, {}), now);
            t.lru == s.lru && t.recs == s.recs && (Stops(t, c, 0, q, now) <==> Stops(s, c, 0, q, now))
    decreases |s.chains| - b
  {
    hide Inv, Sweep, Stops, NoneExpired;
    if b < |s.chains| {
      SweepQuiet(s, b, 0, now, c, q);
      SweepAllQuiet(Sweep(s, b, 0, ByAddr(None, {}), now).0, b + 1, now, c, q);
    }
  }

  lemma {:induction false} NotOverwritten(s: State, b: nat, k: nat, i: nat)
    requires Inv(s) && b < |s.chains| && k < i < |s.chains[b]| && s.chains[b][k] in s.recs
    ensures !Overwritten(s.recs[s.chains[b][k]], s.chains[b][k], Some(s.chains[b][i]))
  {
    hide PoolOk, UsedPrefix, BigOk, UidOk, RecordOk, StaticOk, InOrder, Bucket;
    ChainOfTable(s.mix, s.recs, s.chains, b);
  }

  lemma {:induction false} StillReclaimed(s: State, b: nat, k: nat, q: Query, now: int, i: nat)
    requires Inv(s) && b < |s.chains| && k <= i < |s.chains[b]| && FateAt(s, b, i, q, now) == Reclaim && FateAt(s, b, k, q, now) == Unhash
    ensures var t := Remove(s, b, k);
            k < i && i - 1 < |t.chains[b]| && t.chains[b][i - 1] == s.chains[b][i] && FateAt(t, b, i - 1, q, now) == Reclaim
  {
    hide Inv, Remove, FateOf;
    FateStatic(s, b, k, q, now);
    Unhashed(s, b, k);
    RemoveAtElement(s.chains[b], k, i - 1);
  }

  /** Once a pool record is freed the tail stays free. */
  lemma {:induction false} FreedNow(s: State, b: nat, k: nat, q: Query, now: int, own: Option<Id>, scrap: string)
    requires Inv(s) && b < |s.chains| && k < |s.chains[b]| && q.ByName? && s.chains[b][k] in s.recs && !Static(s.recs[s.chains[b][k]])
    ensures FreeTail(SweepOwn(Remove(s, b, k), b, k, q, now, own, scrap).0)
  {
    hide Inv, Remove, SweepOwn, Hashed, FreeTail, Framed, Undisturbed, Static;
    var t, id := Remove(s, b, k), s.chains[b][k];
    var u := SweepOwn(t, b, k, q, now, own, scrap).0;
    HashedRecord(s, b, k);
    RemoveHashed(s, b, k, id);
    RemoveFramed(s, b, k);
    SweepOwnLeaves(t, b, k, q, now, own, scrap);
    FramedTrans(s, t, u);
    GoneForGood(t, b, k, q, now, own, scrap, id);
    TailIsFree(s, u, id);
  }

  /** The tail's own name is scanned for in vain exactly when a live hosts or DHCP record that conflicts with
      it stands in its chain before every record that the scan would free. */
  lemma {:induction false} SpillTail(s: State, now: int, scrap: string)
    requires Sound(s) && s.lru != [] && s.lru[|s.lru| - 1] in s.recs && |s.chains| > 0
    requires var r := s.recs[s.lru[|s.lru| - 1]]; InUse(r) && Forward in r.flags
    ensures var id := s.lru[|s.lru| - 1];
            var b, q := Chain(s, s.recs[id]), ByName(s.recs[id].name, s.recs[id].flags);
            FreeTail(SweepOwn(s, b, 0, q, now, Some(id), scrap).0) <==> !Stops(s, b, 0, q, now)
  {
    hide Inv, Hashed, SweepOwn, Conflict, SelfReplacing, Bucket, InUse, Stops, Expired, Outdated;
    var id := s.lru[|s.lru| - 1];
    var r, b := s.recs[id], Chain(s, s.recs[id]);
    InUseHashed(s, id);
    SelfConflict(r);
    SoundIsInv(s);
    InOwnChain(s, id);
    var i := IndexOf(s.chains[b], id);
    assert FateAt(s, b, i, ByName(r.name, r.flags), now) == Reclaim;
    SpillExact(s, b, 0, ByName(r.name, r.flags), now, id, scrap);
  }

  lemma {:induction false} SoundIsInv(s: State)
    requires Sound(s)
    ensures Inv(s)
  {
  }

  lemma {:induction false} InOwnChain(s: State, id: Id)
    requires Inv(s) && Hashed(s.chains, id) && |s.chains| > 0
    ensures id in s.recs && id in s.chains[Chain(s, s.recs[id])]
  {
    hide PoolOk, UsedPrefix, BigOk, UidOk, RecordOk, StaticOk, Hashed, Bucket;
    HashedIn(s, id);
  }

  /** Where no record is shadowed the scan for the tail's own name frees it, even where that overwrites the
      name. */
  lemma {:induction false} OwnNameFreesTail(s: State, id: Id, now: int, scrap: string)
    requires Sound(s) && Unshadowed(s)
    requires id in s.lru && id in s.recs && InUse(s.recs[id]) && Forward in s.recs[id].flags && |s.chains| > 0
    ensures FreeTail(SweepOwn(s, Chain(s, s.recs[id]), 0, ByName(s.recs[id].name, s.recs[id].flags), now, Some(id), scrap).0)
  {
    hide Inv, Hashed, Sweep, SweepOwn, Conflict, SelfReplacing, Bucket, InUse, CleanFrom, Offends, Undisturbed;
    var r, b := s.recs[id], Chain(s, s.recs[id]);
    var q := ByName(r.name, r.flags);
    var t := Sweep(s, b, 0, q, now);
    InUseHashed(s, id);
    SelfConflict(r);
    SweepUndisturbed(s, b, 0, q, now);
    NotRefused(s, id, b, q, now);
    SweepCleans(s, b, 0, q, now);
    OffendsWhen(r, q, now);
    if Hashed(t.0.chains, id) { StillThere(s, t.0, b, id, q, now); }
    SweepOwnFrees(s, b, 0, q, now, id, scrap);
    var u := SweepOwn(s, b, 0, q, now, Some(id), scrap).0;
    SweepOwnLeaves(s, b, 0, q, now, Some(id), scrap);
    TailIsFree(s, u, id);
  }

  lemma {:induction false} NotRefused(s: State, id: Id, b: nat, q: Query, now: int)
    requires Sound(s) && Unshadowed(s) && Candidate(s, id) && id in s.recs && Forward in s.recs[id].flags && b < |s.chains|
    requires q == ByName(s.recs[id].name, s.recs[id].flags)
    ensures Sweep(s, b, 0, q, now).1
  {
    hide Inv, Hashed, Sweep, Conflict, SelfReplacing, Bucket;
    if !Sweep(s, b, 0, q, now).1 { var h := RefusingRecord(s, b, q, now); }
  }

  lemma {:induction false} InUseHashed(s: State, id: Id)
    requires Inv(s) && id in s.lru && id in s.recs && InUse(s.recs[id])
    ensures id < s.n && Hashed(s.chains, id) && Candidate(s, id) && !Static(s.recs[id])
  {
    hide TableOk, UsedPrefix, BigOk, UidOk, Hashed, PoolOk, InUse, Static;
    PoolMembers(s.n, s.lru, s.pending, id);
    assert RecordOk(s, id);
  }

  lemma {:induction false} StillThere(s: State, t: State, b: nat, id: Id, q: Query, now: int)
    requires Inv(t) && Hashed(t.chains, id) && Undisturbed(s, t) && b < |t.chains| && CleanFrom(t, b, 0, q, now)
    requires id in s.recs && b == Bucket(t.mix, s.recs[id].name, |t.chains|)
    ensures !Offends(s.recs[id], q, now)
  {
    hide PoolOk, UsedPrefix, BigOk, UidOk, Hashed, RecordOk, StaticOk, TableOk, Offends, Bucket;
    HashedIn(t, id);
    var k := IndexOf(t.chains[b], id);
  }

  lemma {:induction false} OwnAddressFreesTail(s: State, id: Id, now: int)
    requires Sound(s) && id in s.lru && id in s.recs && InUse(s.recs[id]) && Forward !in s.recs[id].flags
    ensures FreeTail(SweepAll(s, 0, ByAddr(Some(s.recs[id].addr), s.recs[id].flags), now))
  {
    hide Inv, Hashed, SweepAll, ReverseConflict, SelfReplacing, Bucket, InUse, Offends, Static;
    var r, q := s.recs[id], ByAddr(Some(s.recs[id].addr), s.recs[id].flags);
    var t := SweepAll(s, 0, q, now);
    InUseHashed(s, id);
    SelfConflict(r);
    SweepAllCleans(s, 0, q, now);
    SweepAllFramed(s, 0, q, now);
    if Hashed(t.chains, id) {
      var b := SomeChain(t, id);
      assert CleanFrom(t, b, 0, q, now);
      StillThere(s, t, b, id, q, now);
      OffendsWhen(r, q, now);
    }
    TailIsFree(s, t, id);
  }

  lemma {:induction false} OffendsWhen(r: Record, q: Query, now: int)
    ensures q.ByAddr? && ReverseConflict(r, q.addr, q.flags) ==> Offends(r, q, now)
    ensures q.ByName? && Conflict(r, q.name, q.flags) ==> Offends(r, q, now)
  {
    hide ReverseConflict, Conflict;
  }

  lemma {:induction false} SomeChain(t: State, id: Id) returns (b: nat)
    requires Inv(t) && Hashed(t.chains, id)
    ensures id in t.recs && |t.chains| > 0 && b == Bucket(t.mix, t.recs[id].name, |t.chains|)
  {
    hide PoolOk, UsedPrefix, BigOk, UidOk, Hashed, RecordOk, StaticOk, Bucket;
    HashedIn(t, id);
    b := Bucket(t.mix, t.recs[id].name, |t.chains|);
  }
}
