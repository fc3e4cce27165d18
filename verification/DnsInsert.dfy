/** What the insertion steps need and keep: every cached or uncommitted record can be replaced by itself. */
module DnsInsert {
  import opened DnsRecords
  import opened Options
  import opened Sequences
  import opened DnsSteps
  import opened DnsScan

  /** The candidates of t are candidates of s. */
  ghost predicate NoNews(s: State, t: State) {
    s.n == t.n && forall id | Candidate(t, id) :: Candidate(s, id) && id in s.recs && id in t.recs && t.recs[id] == s.recs[id]
  }

  lemma {:induction false} NoNewsSound(s: State, t: State)
    requires Sound(s) && Inv(t) && NoNews(s, t)
    ensures Sound(t)
  {
    hide Inv, Hashed, SelfReplacing, Conflict, Candidate;
  }

  lemma {:induction false} CandidateRecord(s: State, id: Id)
    requires Inv(s) && Candidate(s, id)
    ensures id in s.recs
  {
    hide TableOk, UsedPrefix, BigOk, UidOk, PoolOk, Hashed;
    assert RecordOk(s, id);
  }

  lemma {:induction false} RecycleSound(s: State)
    requires Sound(s) && s.pending != []
    ensures s.pending[0] in s.recs && Sound(Recycle(s))
  {
    hide Inv, Findable, Hashed;
    RecycleKeeps(s);
    var id, t := s.pending[0], Recycle(s);
    PendingRecord(s, id);
    PendingOnce(s);
    forall x | Candidate(t, x) ensures Candidate(s, x) && x in s.recs && x != id { CandidateRecord(s, x); }
    NoNewsSound(s, t);
  }

  lemma {:induction false} HashedIs(s: State, h: Id)
    requires Inv(s) && Hashed(s.chains, h)
    ensures h in s.recs
  {
    hide PoolOk, UsedPrefix, BigOk, UidOk, RecordOk, StaticOk, Hashed, Bucket;
    HashedIn(s, h);
  }

  lemma {:induction false} PendingOnce(s: State)
    requires Inv(s) && s.pending != []
    ensures s.pending[0] !in s.pending[1..]
  {
    hide TableOk, UsedPrefix, BigOk, UidOk, RecordOk, StaticOk, PoolOk;
    PoolDistinct(s.n, s.lru, s.pending);
  }

  lemma {:induction false} CommitSound(s: State)
    requires Sound(s) && s.pending != []
    ensures |s.chains| > 0 && forall b, x | 0 <= b < |s.chains| && x in s.chains[b] :: x in s.recs
    ensures s.pending[0] in s.recs && Sound(Commit(s))
  {
    hide Inv, Hashed, HashIn, InUse;
    var id := s.pending[0];
    PendingRecord(s, id);
    PendingInUse(s, id);
    CommitKeeps(s);
    var t := Commit(s);
    forall x ensures Hashed(t.chains, x) <==> Hashed(s.chains, x) || x == id { HashInHashed(s.mix, s.recs, s.chains, id, x); }
    forall x | Candidate(t, x) ensures Candidate(s, x) && x in s.recs { CandidateRecord(s, x); }
    NoNewsSound(s, t);
  }

  lemma {:induction false} PendingInUse(s: State, id: Id)
    requires Inv(s) && Findable(s) && id in s.pending
    ensures id in s.recs && InUse(s.recs[id])
  {
    hide Inv, Hashed, Family;
    PendingRecord(s, id);
    assert Candidate(s, id);
  }

  lemma {:induction false} GrabSound(s: State, r: Record)
    requires Sound(s) && FreeTail(s)
    requires !Static(r) && r.target == None && r.uid == s.recs[s.lru[|s.lru| - 1]].uid
    requires BigName in r.flags ==> s.bigFree + s.bigLeft > 0
    requires SelfReplacing(r)
    ensures Sound(Grab(s, r)) && Undisturbed(s, Grab(s, r))
  {
    hide Inv, Hashed, InUse, Static, SelfReplacing;
    var id, t := s.lru[|s.lru| - 1], Grab(s, r);
    GrabKeeps(s, r);
    TailNotHashed(s, id);
    forall x | Candidate(t, x) ensures x == id || (Candidate(s, x) && x in s.recs) {
      if x != id { CandidateRecord(s, x); }
    }
    forall x | Hashed(t.chains, x) ensures x in s.recs { HashedIs(s, x); }
  }

  lemma {:induction false} TailNotHashed(s: State, id: Id)
    requires Inv(s) && id in s.lru && id in s.recs && !InUse(s.recs[id])
    ensures id < s.n && !Hashed(s.chains, id) && id !in s.pending
  {
    hide TableOk, UsedPrefix, BigOk, UidOk, PoolOk, Hashed, InUse;
    PoolMembers(s.n, s.lru, s.pending, id);
    assert RecordOk(s, id);
  }

  lemma {:induction false} AddStaticSound(s: State, h: Id, r: Record)
    requires Sound(s) && h >= s.n && !Hashed(s.chains, h) && Static(r)
    requires r.target.Some? && r.target.value < s.n ==> r.targetUid < s.uid
    ensures |s.chains| > 0 && forall b, x | 0 <= b < |s.chains| && x in s.chains[b] :: x in s.recs
    ensures Sound(AddStatic(s, h, r))
  {
    hide Inv, Hashed, Static, SelfReplacing, HashIn, Conflict;
    AddStaticKeeps(s, h, r);
    var t := AddStatic(s, h, r);
    forall x ensures Hashed(t.chains, x) <==> Hashed(s.chains, x) || x == h { HashInHashed(s.mix, t.recs, s.chains, h, x); }
    forall x | Candidate(t, x) ensures x != h && Candidate(s, x) && x in s.recs { CandidateRecord(s, x); }
  }

  // ----- The scan that starts an insertion.

  /** No record left in the table is one the insertion replaces. */
  ghost predicate Replaced(s: State, q: Query) {
    forall x | Hashed(s.chains, x) :: x in s.recs
      && match q case ByName(name, flags) => !Conflict(s.recs[x], name, flags) case ByAddr(addr, flags) => !ReverseConflict(s.recs[x], addr, flags)
  }

  lemma {:induction false} ConflictInChain(s: State, x: Id, name: string, flags: set<Flag>)
    requires Inv(s) && |s.chains| > 0 && Hashed(s.chains, x) && x in s.recs && Conflict(s.recs[x], name, flags)
    ensures x in s.chains[Bucket(s.mix, name, |s.chains|)]
  {
    hide PoolOk, UsedPrefix, BigOk, UidOk, RecordOk, StaticOk, Hashed, Bucket, SameName, Family;
    HashedIn(s, x);
    SameBucket(s.mix, s.recs[x].name, name, |s.chains|);
  }

  /** After an accepted scan for a name no record of the table keeps it out or is replaced by it. */
  lemma {:induction false} NameScanned(s: State, name: string, flags: set<Flag>, now: int)
    requires Sound(s) && |s.chains| > 0
    ensures var (t, ok) := Sweep(s, Bucket(s.mix, name, |s.chains|), 0, ByName(name, flags), now);
            && Sound(t) && Undisturbed(s, t) && Framed(s, t)
            && (ok ==> Replaced(t, ByName(name, flags)))
  {
    hide Inv, Sweep, Bucket, Hashed, Conflict, Findable, Expired;
    var b, q := Bucket(s.mix, name, |s.chains|), ByName(name, flags);
    var (t, ok) := Sweep(s, b, 0, q, now);
    SweepUndisturbed(s, b, 0, q, now);
    SweepFramed(s, b, 0, q, now);
    StaysSound(s, t);
    if ok {
      SweepCleans(s, b, 0, q, now);
      forall x | Hashed(t.chains, x) ensures x in t.recs && !Conflict(t.recs[x], name, flags) {
        HashedIs(t, x);
        if Conflict(t.recs[x], name, flags) {
          ConflictInChain(t, x, name, flags);
          CleanAt(t, b, q, now, x);
        }
      }
    }
  }

  lemma {:induction false} CleanAt(t: State, b: nat, q: Query, now: int, x: Id)
    requires b < |t.chains| && CleanFrom(t, b, 0, q, now) && x in t.chains[b]
    ensures x in t.recs && !Offends(t.recs[x], q, now)
  {
    hide Offends;
    var i := IndexOf(t.chains[b], x);
  }

  lemma {:induction false} TableScanned(s: State, addr: Option<Address>, flags: set<Flag>, now: int)
    requires Sound(s)
    ensures var t := SweepAll(s, 0, ByAddr(addr, flags), now);
            && Sound(t) && Undisturbed(s, t) && Framed(s, t) && Replaced(t, ByAddr(addr, flags))
            && forall x | Hashed(t.chains, x) :: x in t.recs && !Expired(t.recs[x], now)
  {
    hide Inv, SweepAll, Bucket, Hashed, ReverseConflict, Findable, Expired, CleanFrom;
    var q := ByAddr(addr, flags);
    var t := SweepAll(s, 0, q, now);
    SweepAllCleans(s, 0, q, now);
    SweepAllFramed(s, 0, q, now);
    StaysSound(s, t);
    forall x | Hashed(t.chains, x) ensures x in t.recs && !Expired(t.recs[x], now) && !ReverseConflict(t.recs[x], addr, flags) {
      HashedIs(t, x);
      var b := ChainOfRecord(t, x);
      assert CleanFrom(t, b, 0, q, now);
      CleanAt(t, b, q, now, x);
    }
  }

  lemma {:induction false} ChainOfRecord(t: State, x: Id) returns (b: nat)
    requires Hashed(t.chains, x)
    ensures b < |t.chains| && x in t.chains[b]
  {
    b :| 0 <= b < |t.chains| && x in t.chains[b];
  }

  // ----- The end of a batch.

  /** cache_end_insert: newest first, aliases without a target are dropped, the rest enters the table. */
  ghost function Drain(s: State): (t: State)
    requires Sound(s)
    ensures Sound(t) && t.pending == [] && t.n == s.n && t.mix == s.mix && t.links == s.links
    decreases |s.pending|
  {
    if s.pending == [] then s
    else
      RecycleSound(s);
      CommitSound(s);
      Drain(if Outdated(s.recs, s.recs[s.pending[0]]) then Recycle(s) else Commit(s))
  }

  /** One turn of the loop. */
  ghost function Turn(s: State): (t: State)
    requires Sound(s) && s.pending != []
    ensures Sound(t) && t.pending == s.pending[1..] && t.n == s.n
    ensures Drain(s) == Drain(t)
  {
    RecycleSound(s);
    CommitSound(s);
    if Outdated(s.recs, s.recs[s.pending[0]]) then Recycle(s) else Commit(s)
  }

  lemma {:induction false} TurnFacts(s: State)
    requires Sound(s) && s.pending != []
    ensures var t, id := Turn(s), s.pending[0];
            && id in s.recs && id !in s.pending[1..]
            && (Outdated(s.recs, s.recs[id]) ==> t.recs == s.recs[id := Cleared(s.recs[id], s.uid)] && t.chains == s.chains && t.uid == s.uid + 1)
            && (!Outdated(s.recs, s.recs[id]) ==> t.recs == s.recs && t.uid == s.uid)
            && forall x :: Hashed(t.chains, x) <==> Hashed(s.chains, x) || (x == id && !Outdated(s.recs, s.recs[id]))
  {
    hide Inv, Findable, Hashed, HashIn, Outdated;
    var t, id := Turn(s), s.pending[0];
    RecycleSound(s);
    CommitSound(s);
    PendingOnce(s);
    forall x ensures Hashed(t.chains, x) <==> Hashed(s.chains, x) || (x == id && !Outdated(s.recs, s.recs[id])) {
      if !Outdated(s.recs, s.recs[id]) { HashInHashed(s.mix, s.recs, s.chains, id, x); }
    }
  }

  lemma {:induction false} DrainFrame(s: State, x: Id)
    requires Sound(s) && x in s.recs && x !in s.pending
    ensures x in Drain(s).recs && Drain(s).recs[x] == s.recs[x]
    ensures Hashed(Drain(s).chains, x) <==> Hashed(s.chains, x)
    decreases |s.pending|
  {
    hide Sound, Hashed, Outdated, Turn;
    if s.pending != [] {
      TurnFacts(s);
      assert x !in s.pending[1..];
      DrainFrame(Turn(s), x);
    }
  }

  lemma {:induction false} DrainOutdated(s: State, r: Record)
    requires Sound(s) && Outdated(s.recs, r) && (r.target.Some? && r.target.value < s.n ==> r.targetUid < s.uid)
    ensures Outdated(Drain(s).recs, r)
    decreases |s.pending|
  {
    hide Sound, Hashed, Turn, Drain;
    if s.pending != [] {
      TurnFacts(s);
      SoundPending(s);
      DrainOutdated(Turn(s), r);
    } else {
      DrainDone(s);
    }
  }

  lemma {:induction false} DrainDone(s: State)
    requires Sound(s) && s.pending == []
    ensures Drain(s) == s
  {
  }

  lemma {:induction false} SoundPending(s: State)
    requires Sound(s) && s.pending != []
    ensures s.pending[0] < s.n
  {
    hide Inv, Findable;
    PendingRecord(s, s.pending[0]);
  }

  /** No alias of the batch points at itself or at a record inserted before it. */
  ghost predicate TargetsNewer(s: State) {
    forall i, j | 0 <= i <= j < |s.pending| && s.pending[i] in s.recs :: s.recs[s.pending[i]].target != Some(s.pending[j])
  }

  lemma {:induction false} TurnNewer(s: State)
    requires Sound(s) && s.pending != [] && TargetsNewer(s)
    ensures TargetsNewer(Turn(s))
  {
    hide Sound, Hashed, Outdated, Turn;
    TurnFacts(s);
    var t := Turn(s);
    forall i, j | 0 <= i <= j < |t.pending| && t.pending[i] in t.recs ensures t.recs[t.pending[i]].target != Some(t.pending[j]) {
      assert t.pending[i] == s.pending[i + 1] && t.pending[j] == s.pending[j + 1];
    }
  }

  lemma {:induction false} KnownTarget(s: State, id: Id)
    requires Sound(s) && id in s.recs
    ensures s.recs[id].target.Some? && s.recs[id].target.value < s.n ==> s.recs[id].targetUid < s.uid
  {
    hide TableOk, UsedPrefix, BigOk, PoolOk, RecordOk, StaticOk, Findable;
  }

  /** Of a batch whose aliases point at newer records, exactly the records enter the table that are not
      outdated aliases in the end: dropping one alias drops the whole chain of aliases that leads to it. */
  lemma {:induction false} DrainCommits(s: State, k: nat)
    requires Sound(s) && TargetsNewer(s) && k < |s.pending|
    ensures s.pending[k] in s.recs
    ensures Hashed(Drain(s).chains, s.pending[k]) <==> !Outdated(Drain(s).recs, s.recs[s.pending[k]])
    decreases |s.pending|
  {
    hide Sound, Hashed, Outdated, Turn, Drain, TargetsNewer;
    var id, t := s.pending[0], Turn(s);
    TurnFacts(s);
    if k > 0 {
      TurnNewer(s);
      DrainCommits(t, k - 1);
      assert s.pending[k] == t.pending[k - 1] && s.pending[k] != id;
    } else {
      HeadCommits(s);
    }
  }

  lemma {:induction false} HeadCommits(s: State)
    requires Sound(s) && TargetsNewer(s) && s.pending != []
    ensures s.pending[0] in s.recs
    ensures Hashed(Drain(s).chains, s.pending[0]) <==> !Outdated(Drain(s).recs, s.recs[s.pending[0]])
  {
    hide Sound, Hashed, Turn, Drain;
    TurnFacts(s);
    var id, t := s.pending[0], Turn(s);
    var r := s.recs[id];
    DrainFrame(t, id);
    KnownTarget(s, id);
    HeadNotHashed(s);
    if Outdated(s.recs, r) {
      SoundPending(s);
      assert Outdated(t.recs, r);
      DrainOutdated(t, r);
    } else if r.target.Some? && r.target.value in s.recs {
      assert forall j | 0 <= j < |s.pending| :: r.target != Some(s.pending[j]);
      DrainFrame(t, r.target.value);
    }
  }

  lemma {:induction false} HeadNotHashed(s: State)
    requires Sound(s) && s.pending != []
    ensures !Hashed(s.chains, s.pending[0])
  {
    hide Inv, Findable, Hashed;
    PendingRecord(s, s.pending[0]);
  }

  // ----- Conservation.

  /** The pool records stand on the list or in the pending chain, each once; the in-use ones on the list
      come first and are exactly the hashed ones that are not hosts or DHCP records; and the long-name
      buffers are in use, free or unallocated. */
  ghost predicate Conserved(s: State) {
    && |s.lru| + |s.pending| == s.n
    && (forall id: Id :: id < s.n <==> id in s.lru || id in s.pending)
    && (forall id | id in s.lru :: id !in s.pending)
    && (forall id | Hashed(s.chains, id) :: id in s.recs)
    && (forall id | id in s.recs :: (id in s.lru && InUse(s.recs[id]) <==> Hashed(s.chains, id) && !Static(s.recs[id])))
    && (forall i, j | 0 <= i < j < |s.lru| && s.lru[i] in s.recs && s.lru[j] in s.recs && InUse(s.recs[s.lru[j]]) :: InUse(s.recs[s.lru[i]]))
    && BigCount(s.recs, s.n) + s.bigFree + s.bigLeft == s.n / 10
  }

  lemma {:induction false} Conservation(s: State)
    requires Inv(s)
    ensures Conserved(s)
  {
    hide TableOk, UsedPrefix, UidOk, PoolOk, Hashed, Findable, Static, InUse;
    PoolSize(s.n, s.lru, s.pending);
    forall id: Id ensures (id < s.n <==> id in s.lru || id in s.pending) && !(id in s.lru && id in s.pending) {
      PoolMembers(s.n, s.lru, s.pending, id);
    }
    forall id | Hashed(s.chains, id) ensures id in s.recs { HashedIs(s, id); }
    forall id | Hashed(s.chains, id) && !Static(s.recs[id]) ensures id in s.lru && InUse(s.recs[id]) {
      assert StaticOk(s, id);
      assert RecordOk(s, id);
    }
    forall id | id in s.lru && id in s.recs && InUse(s.recs[id]) ensures Hashed(s.chains, id) && !Static(s.recs[id]) {
      assert RecordOk(s, id);
    }
    assert UsedPrefix(s.recs, s.lru);
    PrefixIs(s.recs, s.lru);
  }

  lemma {:induction false} PrefixIs(recs: map<Id, Record>, lru: seq<Id>)
    requires (forall id | id in lru :: id in recs) && UsedPrefix(recs, lru)
    ensures forall i, j | 0 <= i < j < |lru| && lru[i] in recs && lru[j] in recs && InUse(recs[lru[j]]) :: InUse(recs[lru[i]])
  {
    hide InUse;
  }

  lemma {:induction false} PoolSize(n: nat, lru: seq<Id>, pending: seq<Id>)
    requires PoolOk(n, lru, pending)
    ensures |lru| + |pending| == n
  {
    assert |multiset(lru) + multiset(pending)| == |lru| + |pending|;
    assert |multiset(Ids(n))| == n;
  }
}
