/** The cache itself: its lists are fields that the operations update in place. */
module DnsCache {
  import opened Bits
  import opened DnsRecords
  import opened Options
  import opened Sequences
  import opened DnsSteps
  import opened DnsScan
  import opened DnsLookup
  import opened DnsAnswers
  import opened DnsInsert
  import opened DnsAliases
  import opened DnsFates
  import opened DnsRuns
  import opened DnsSwept
  import opened DnsRotation

  /** Why an insertion gives nothing: an earlier one of the batch failed, a hosts or DHCP record has the
      name, every pool record is uncommitted, the search for a free one gives up, or a long name finds no
      buffer. */
  datatype Outcome = Inserted | Earlier | NameTaken | PoolEmpty | GaveUp | NoBuffer

  /** The least of 64, 128, 256, .. that is at least a tenth of what the table is to hold. */
  ghost predicate SizeFor(size: nat, newSize: nat) {
    && newSize >= size / 10 && (newSize == 64 || newSize / 2 < size / 10)
    && exists e: nat :: newSize == 64 * Pow2(e)
  }

  method TableSize(size: nat) returns (newSize: nat)
    ensures SizeFor(size, newSize) && newSize >= 64
  {
    newSize := 64;
    ghost var e := 0;
    while newSize < size / 10
      invariant newSize >= 64 && newSize == 64 * Pow2(e) && (newSize == 64 || newSize / 2 < size / 10)
    {
      newSize := newSize * 2;
      e := e + 1;
    }
  }

  /** x enters the new table when y is already in it. */
  ghost predicate MovedAfter(was: seq<seq<Id>>, x: Id, y: Id) {
    exists i: nat, k: nat :: i < |was| && k < |was[i]| && was[i][k] == x && Before(was, i, k, y)
  }

  /** Of two records of a kind in a chain, the one moved later stands in front. */
  ghost predicate NewestFirst(recs: map<Id, Record>, chains: seq<seq<Id>>, was: seq<seq<Id>>) {
    forall c, p, q | 0 <= c < |chains| && 0 <= p < q < |chains[c]| ::
      InFront(recs, was, chains[c][p], chains[c][q])
  }

  ghost predicate InFront(recs: map<Id, Record>, was: seq<seq<Id>>, x: Id, y: Id) {
    x in recs && y in recs && (Rank(recs[x]) == Rank(recs[y]) ==> MovedAfter(was, x, y))
  }

  lemma {:induction false} HashInNewest(mix: bv32 -> bv32, recs: map<Id, Record>, chains: seq<seq<Id>>, was: seq<seq<Id>>, i: nat, k: nat)
    requires i < |was| && k < |was[i]| && TableOk(mix, recs, chains) && was[i][k] in recs && NewestFirst(recs, chains, was)
    requires forall x :: Hashed(chains, x) <==> Before(was, i, k, x)
    ensures |chains| > 0 && forall b, x | 0 <= b < |chains| && x in chains[b] :: x in recs
    ensures NewestFirst(recs, HashIn(mix, recs, chains, was[i][k]), was)
  {
    hide InsertAt, HashPos, Bucket, Before, InFront, ChainOk, Precedes;
    TableRecords(mix, recs, chains);
    var id := was[i][k];
    var b := Bucket(mix, recs[id].name, |chains|);
    var chain, at, t := chains[b], HashPos(recs, chains[b], recs[id]), HashIn(mix, recs, chains, id);
    ChainInOrder(mix, recs, chains, b);
    HashPosInOrder(recs, chain, recs[id]);
    forall c, p, q | 0 <= c < |t| && 0 <= p < q < |t[c]| ensures InFront(recs, was, t[c][p], t[c][q]) {
      if c == b {
        InsertAtElement(chain, at, id, p);
        InsertAtElement(chain, at, id, q);
        if p == at {
          NewInFront(recs, chains, was, i, k, b, q - 1);
        } else if q == at {
          assert Rank(recs[chain[p]]) < Rank(recs[id]);
          NotOfAKind(recs, was, chain[p], id);
        }
      }
    }
  }

  lemma {:induction false} ChainInOrder(mix: bv32 -> bv32, recs: map<Id, Record>, chains: seq<seq<Id>>, b: nat)
    requires TableOk(mix, recs, chains) && b < |chains|
    ensures (forall id | id in chains[b] :: id in recs) && InOrder(recs, chains[b])
  {
    hide Distinct, Bucket;
    ChainOfTable(mix, recs, chains, b);
  }

  lemma {:induction false} NewInFront(recs: map<Id, Record>, chains: seq<seq<Id>>, was: seq<seq<Id>>, i: nat, k: nat, b: nat, q: nat)
    requires i < |was| && k < |was[i]| && b < |chains| && q < |chains[b]| && was[i][k] in recs && chains[b][q] in recs
    requires forall x :: Hashed(chains, x) <==> Before(was, i, k, x)
    ensures InFront(recs, was, was[i][k], chains[b][q])
  {
    hide Before, Rank;
    HashedAt(chains, b, q);
  }

  lemma {:induction false} NotOfAKind(recs: map<Id, Record>, was: seq<seq<Id>>, x: Id, y: Id)
    requires x in recs && y in recs && Rank(recs[x]) < Rank(recs[y])
    ensures InFront(recs, was, x, y)
  {
    hide Rank;
  }

  lemma {:induction false} EmptyNewest(recs: map<Id, Record>, was: seq<seq<Id>>, size: nat)
    ensures NewestFirst(recs, seq(size, b => []), was)
  {
  }

  /** The next record to be moved has not been moved. */
  lemma {:induction false} NotBefore(s: State, i: nat, k: nat)
    requires Sound(s) && i < |s.chains| && k < |s.chains[i]|
    ensures s.chains[i][k] in s.recs && !Before(s.chains, i, k, s.chains[i][k])
  {
    hide PoolOk, UsedPrefix, BigOk, UidOk, RecordOk, StaticOk, ChainOk, Findable, Passed;
    var id := s.chains[i][k];
    HashedRecord(s, i, k);
    ChainDistinct(s, i);
    NotPassed(s.chains[i], k);
    if b :| 0 <= b < i && id in s.chains[b] {
      OneChain(s.mix, s.recs, s.chains, b, i, id);
    }
  }

  class Cache {
    const n: nat
    const mix: bv32 -> bv32
    var recs: map<Id, Record>
    var lru: seq<Id>
    var chains: seq<seq<Id>>
    var pending: seq<Id>
    var links: map<Id, Option<Id>>
    var bigFree: nat
    var bigLeft: nat
    var uid: int
    var insertError: bool

    ghost function Now(): State
      reads this
    {
      State(n, mix, recs, lru, chains, pending, links, bigFree, bigLeft, uid)
    }

    /** cache_init: every pool record is free, the youngest has the highest number. */
    constructor (cachesize: nat, mixTable: bv32 -> bv32)
      ensures Now() == Initial(cachesize, mixTable, |chains|) && Untouched(Now()) && Sound(Now()) && n == cachesize && !insertError
      ensures pending == [] && |lru| == n && forall x :: !Hashed(chains, x)
      ensures SizeFor(cachesize, |chains|)
    {
      hide Sound, Untouched, Newest, Pool, Hashed, SizeFor;
      n, mix := cachesize, mixTable;
      recs, lru, chains, pending, links := map[], [], [], [], map[];
      bigFree, bigLeft, uid, insertError := 0, cachesize / 10, 0, false;
      new;
      LinkPool();
      var size := TableSize(cachesize);
      chains := seq(size, b => []);
      InitialUntouched(cachesize, mixTable, size);
      UntouchedSound(Now());
    }

    /** cache_link of every pool record. */
    method LinkPool()
      requires lru == [] && recs == map[] && uid == 0 && !insertError
      modifies this
      ensures Now() == old(Now()).(lru := Newest(n), recs := Pool(n), uid := n) && !insertError
    {
      hide Newest, Pool;
      ghost var s := Now();
      PoolStarts();
      var i := 0;
      while i < n
        invariant 0 <= i <= n && !insertError
        invariant Now() == s.(lru := Newest(i), recs := Pool(i), uid := i)
      {
        PoolGrows(i);
        Link(i);
        recs := recs[i := BLANK.(uid := i)];
        uid := uid + 1;
        i := i + 1;
      }
    }

    /** rehash, when a table exists: when the size for the load exceeds that of the table, a table of that
        size takes over every record, each in front of those of its kind that came before it. */
    method Rehash(size: nat) returns (ghost newSize: nat)
      requires Sound(Now())
      modifies this
      ensures Sound(Now()) && insertError == old(insertError)
      ensures SizeFor(size, newSize) && |chains| == (if newSize > |old(chains)| then newSize else |old(chains)|)
      ensures Now() == old(Now()).(chains := chains) && SameRecords(old(Now()), chains)
      ensures if newSize > |old(chains)| then NewestFirst(recs, chains, old(chains)) else chains == old(chains)
    {
      hide Sound, Inv, TableOk, Hashed, InChains, HashIn, SizeFor, NewestFirst;
      ghost var s := Now();
      SoundInv(s);
      HasChains(s);
      var tableSize := TableSize(size);
      newSize := tableSize;
      if tableSize <= |chains| {
        return;
      }
      var was := chains;
      chains := seq(tableSize, b => []);
      EmptyTable(mix, recs, chains);
      EmptyNewest(recs, was, tableSize);
      NoneBefore(was);
      var i := 0;
      while i < |was|
        invariant i <= |was| && |chains| == tableSize && insertError == old(insertError)
        invariant Now() == s.(chains := chains) && TableOk(mix, recs, chains) && NewestFirst(recs, chains, was)
        invariant forall x :: Hashed(chains, x) <==> Before(was, i, 0, x)
      {
        RehashChain(s, was, i);
        i := i + 1;
      }
      AllBefore(was);
      RehashSound(s, Now());
    }

    /** The records of one old chain enter the new table. */
    method RehashChain(ghost s: State, was: seq<seq<Id>>, i: nat)
      requires Sound(s) && was == s.chains && i < |was|
      requires Now() == s.(chains := chains) && TableOk(mix, recs, chains) && NewestFirst(recs, chains, was)
      requires forall x :: Hashed(chains, x) <==> Before(was, i, 0, x)
      modifies this
      ensures |chains| == old(|chains|) && insertError == old(insertError)
      ensures Now() == s.(chains := chains) && TableOk(mix, recs, chains) && NewestFirst(recs, chains, was)
      ensures forall x :: Hashed(chains, x) <==> Before(was, i + 1, 0, x)
    {
      hide Sound, Inv, TableOk, Hashed, Before, HashIn, NewestFirst;
      var k := 0;
      while k < |was[i]|
        invariant k <= |was[i]| && |chains| == old(|chains|) && insertError == old(insertError)
        invariant Now() == s.(chains := chains) && TableOk(mix, recs, chains) && NewestFirst(recs, chains, was)
        invariant forall x :: Hashed(chains, x) <==> Before(was, i, k, x)
      {
        var id := was[i][k];
        NotBefore(s, i, k);
        ghost var c := chains;
        HashInTable(mix, recs, chains, id);
        HashInNewest(mix, recs, chains, was, i, k);
        Hash(id);
        forall x ensures Hashed(chains, x) <==> Before(was, i, k + 1, x) {
          HashInHashed(mix, recs, c, id, x);
          BeforeNext(was, i, k, x);
        }
        k := k + 1;
      }
      forall x ensures Before(was, i, |was[i]|, x) <==> Before(was, i + 1, 0, x) { BeforeChain(was, i, x); }
    }

    /** cache_unlink */
    method Unlink(id: Id)
      requires id in lru
      modifies this
      ensures Now() == old(Now()).(lru := Without(old(lru), id)) && insertError == old(insertError)
    {
      lru := Without(lru, id);
    }

    /** cache_link */
    method Link(id: Id)
      modifies this
      ensures Now() == old(Now()).(lru := [id] + old(lru)) && insertError == old(insertError)
    {
      lru := [id] + lru;
    }

    /** cache_free */
    method Free(id: Id)
      requires id in recs
      modifies this
      ensures Now() == Freed(old(Now()), id) && insertError == old(insertError)
    {
      var r := recs[id];
      recs := recs[id := r.(flags := r.flags - {Forward, Reverse}, uid := uid)];
      uid := uid + 1;
      lru := lru + [id];
      if BigName in r.flags {
        bigFree := bigFree + 1;
      }
      recs := recs[id := recs[id].(flags := recs[id].flags - {BigName})];
      assert r.flags - {Forward, Reverse} - {BigName} == r.flags - {Forward, Reverse, BigName};
    }

    /** *up = crecp->hash_next, and the record is freed unless it is a hosts or DHCP record. */
    method TakeOut(b: nat, k: nat)
      requires Inv(Now()) && b < |chains| && k < |chains[b]|
      modifies this
      ensures Inv(Now()) && Now() == Remove(old(Now()), b, k) && insertError == old(insertError)
    {
      hide Inv, RemoveAt, Without;
      ghost var s := Now();
      HashedRecord(s, b, k);
      var id := chains[b][k];
      chains := chains[b := RemoveAt(chains[b], k)];
      assert Now() == Drop(s, b, k);
      if !Static(recs[id]) {
        Unlink(id);
        assert Now() == Drop(s, b, k).(lru := Without(s.lru, id));
        Free(id);
        assert Now() == FreeAt(s, b, k);
      }
      assert Now() == Remove(s, b, k);
    }

    /** cache_scan_free; when the name lies in the long-name buffer of the record `own`, the buffer reads as
        `scrap` once that record is freed. */
    method ScanFree(name: string, addr: Option<Address>, now: int, flags: set<Flag>, own: Option<Id>, scrap: string) returns (ok: bool)
      requires Inv(Now()) && |chains| > 0
      modifies this
      ensures Inv(Now()) && insertError == old(insertError) && |chains| > 0
      ensures Forward in flags ==>
                (Now(), ok) == SweepOwn(old(Now()), Bucket(mix, name, |old(chains)|), 0, ByName(name, flags), now, own, scrap)
      ensures Forward !in flags ==> ok && Now() == SweepAll(old(Now()), 0, ByAddr(addr, flags), now)
    {
      if Forward in flags {
        ok := ScanChain(name, now, flags, own, scrap);
      } else {
        ok := true;
        ScanTable(addr, now, flags);
      }
    }

    method ScanChain(name: string, now: int, flags: set<Flag>, own: Option<Id>, scrap: string) returns (ok: bool)
      requires Inv(Now()) && |chains| > 0
      modifies this
      ensures Inv(Now()) && insertError == old(insertError) && |chains| > 0
      ensures (Now(), ok) == SweepOwn(old(Now()), Bucket(mix, name, |old(chains)|), 0, ByName(name, flags), now, own, scrap)
    {
      hide Inv, Remove, Expired, Outdated, Conflict, Bucket, Overwritten, SweepOwn;
      var b := Bucket(mix, name, |chains|);
      var up := 0;
      var text, owner := name, own;
      while up < |chains[b]|
        invariant Inv(Now()) && b < |chains| && up <= |chains[b]| && insertError == old(insertError)
        invariant SweepOwn(Now(), b, up, ByName(text, flags), now, owner, scrap)
               == SweepOwn(old(Now()), b, 0, ByName(name, flags), now, own, scrap)
        decreases |chains[b]| - up
      {
        var id := chains[b][up];
        SweepOwnStep(Now(), b, up, ByName(text, flags), now, owner, scrap);
        var r := recs[id];
        if Expired(r, now) || Outdated(recs, r) {
          TakeOut(b, up);
          if Overwritten(r, id, owner) {
            text, owner := scrap, None;
          }
        } else if Conflict(r, text, flags) {
          if Static(r) {
            return false;
          }
          TakeOut(b, up);
          if Overwritten(r, id, owner) {
            text, owner := scrap, None;
          }
        } else {
          up := up + 1;
        }
      }
      SweepOwnStep(Now(), b, up, ByName(text, flags), now, owner, scrap);
      ok := true;
    }

    method ScanTable(addr: Option<Address>, now: int, flags: set<Flag>)
      requires Inv(Now())
      modifies this
      ensures Inv(Now()) && insertError == old(insertError) && |chains| == old(|chains|)
      ensures Now() == SweepAll(old(Now()), 0, ByAddr(addr, flags), now)
    {
      hide Inv, Sweep;
      var i := 0;
      ghost var q := ByAddr(addr, flags);
      while i < |chains|
        invariant Inv(Now()) && i <= |chains| == old(|chains|) && insertError == old(insertError)
        invariant SweepAll(Now(), i, q, now) == SweepAll(old(Now()), 0, q, now)
      {
        ScanRow(i, addr, now, flags);
        i := i + 1;
      }
    }

    /** One chain of the whole-table scan. */
    method ScanRow(b: nat, addr: Option<Address>, now: int, flags: set<Flag>)
      requires Inv(Now()) && b < |chains|
      modifies this
      ensures Inv(Now()) && insertError == old(insertError) && |chains| == old(|chains|)
      ensures Now() == Sweep(old(Now()), b, 0, ByAddr(addr, flags), now).0
    {
      hide Inv, Remove, Expired, ReverseConflict;
      var up := 0;
      ghost var q := ByAddr(addr, flags);
      while up < |chains[b]|
        invariant Inv(Now()) && b < |chains| == old(|chains|) && up <= |chains[b]| && insertError == old(insertError)
        invariant Sweep(Now(), b, up, q, now) == Sweep(old(Now()), b, 0, q, now)
        decreases |chains[b]| - up
      {
        HashedRecord(Now(), b, up);
        var r := recs[chains[b][up]];
        if !(Reverse in r.flags || Immortal !in r.flags) {
          return;
        }
        if Expired(r, now) || ReverseConflict(r, addr, flags) {
          TakeOut(b, up);
        } else {
          up := up + 1;
        }
      }
    }

    /** cache_start_insert: uncommitted records of a batch that was given up go back to the pool. */
    method StartInsert()
      requires Sound(Now())
      modifies this
      ensures Sound(Now()) && !insertError && pending == []
      ensures lru == old(lru) + old(pending) && chains == old(chains) && links == old(links)
      ensures Now() == Recycled(old(Now()))
    {
      hide Sound, Inv;
      while pending != []
        invariant Sound(Now()) && chains == old(chains) && links == old(links)
        invariant lru + pending == old(lru) + old(pending) && Recycled(Now()) == Recycled(old(Now()))
        decreases |pending|
      {
        RecycleSound(Now());
        var id := pending[0];
        assert lru + pending == lru + [id] + pending[1..];
        pending := pending[1..];
        Free(id);
      }
      insertError := false;
    }

    /** The scan for the tail's own name or address. */
    method ScanOwn(id: Id, now: int, scrap: string)
      requires Sound(Now()) && id in recs
      modifies this
      ensures Inv(Now()) && insertError == old(insertError) && Now() == Spilled(old(Now()), id, now, scrap)
    {
      hide Sound, Inv, SweepOwn, SweepAll, Bucket;
      SoundInv(Now());
      HasChains(Now());
      var ok := ScanFree(recs[id].name, Some(recs[id].addr), now, recs[id].flags, Some(id), scrap);
    }

    /** The scan of cache_insert for what it replaces; the ghost result names a record that refuses it. */
    method ScanReplaced(name: string, addr: Option<Address>, now: int, flags: set<Flag>) returns (ok: bool, ghost h: Id)
      requires Sound(Now())
      modifies this
      ensures Inv(Now()) && insertError == old(insertError)
      ensures (Now(), ok) == Scanned(old(Now()), name, addr, now, flags)
      ensures !ok ==> Refuses(old(Now()), h, name, flags)
      ensures ok <==> !(Forward in flags && Refused(old(Now()), name, flags, now))
    {
      hide Sound, Inv, Hashed, Conflict, Sweep, SweepAll, Bucket, Refused;
      ghost var s := Now();
      SoundInv(s);
      HasChains(s);
      h := 0;
      ok := ScanFree(name, addr, now, flags, None, "");
      RefusedExactly(s, name, flags, now);
      if !ok {
        h := RefusingRecord(s, Bucket(mix, name, |s.chains|), ByName(name, flags), now);
      }
    }

    /** The loop of cache_insert that looks for a free record at the tail: at most one scan of the whole
        table and one scan for the tail itself. It finds one exactly when the list is not empty and it does
        not come to the tail in use a third time. */
    method MakeRoom(now: int, flags: set<Flag>, scrap: string) returns (found: bool)
      requires Sound(Now())
      modifies this
      ensures Sound(Now()) && insertError == old(insertError)
      ensures Now() == Room(old(Now()), now, Reverse in flags, scrap) && found == FreeTail(Now())
      ensures found <==> old(lru) != [] && !GivesUp(old(Now()), now, Reverse in flags)
    {
      hide Sound, Inv, InUse, FreeTail, Spilled, SweepAll, Undisturbed, Framed, GivesUp;
      RoomExact(Now(), now, Reverse in flags, scrap);
      var freedAll, freeAvail := Reverse in flags, false;
      while true
        invariant Sound(Now()) && insertError == old(insertError)
        invariant freeAvail ==> freedAll && Now() == Room(old(Now()), now, Reverse in flags, scrap)
        invariant !freeAvail ==> Room(Now(), now, freedAll, scrap) == Room(old(Now()), now, Reverse in flags, scrap)
        decreases (if freedAll then 0 else 1) + (if freeAvail then 0 else 1)
      {
        if lru == [] {
          NoTail();
          return false;
        }
        var id := lru[|lru| - 1];
        ListedRecord(Now(), |lru| - 1);
        TailFreeIs(id);
        if !InUse(recs[id]) {
          return true;
        }
        if freeAvail {
          return false;
        }
        if freedAll {
          freeAvail := true;
          SpilledOk(Now(), id, now, scrap);
          ScanOwn(id, now, scrap);
        } else {
          freedAll := true;
          ScanExpired(now);
        }
      }
    }

    lemma {:induction false} NoTail()
      requires lru == []
      ensures !FreeTail(Now())
    {
    }

    lemma {:induction false} TailFreeIs(id: Id)
      requires lru != [] && id == lru[|lru| - 1] && id in recs
      ensures FreeTail(Now()) <==> !InUse(recs[id])
    {
    }

    /** cache_scan_free(NULL, NULL, now, 0) */
    method ScanExpired(now: int)
      requires Sound(Now())
      modifies this
      ensures Sound(Now()) && insertError == old(insertError) && Inv(old(Now()))
      ensures Now() == SweepAll(old(Now()), 0, ByAddr(None, {}), now)
      ensures forall x | Hashed(chains, x) :: x in recs && !Expired(recs[x], now)
    {
      hide Sound, Inv, Undisturbed, Framed, Replaced, Hashed, SweepAll, Expired;
      SoundInv(Now());
      HasChains(Now());
      TableScanned(Now(), None, {}, now);
      var ok := ScanFree("", None, now, {}, None, "");
    }

    /** cache_insert; `scrap` is what a long name that the insertion spills reads as after its buffer is
        freed. */
    method Insert(name: Option<string>, addr: Option<Address>, now: int, ttl: nat, flags0: set<Flag>, scrap: string)
      returns (r: Option<Id>, ghost why: Outcome, ghost h: Id)
      requires Sound(Now()) && Insertable(flags0)
      requires (Forward in flags0 ==> name.Some?) && (Reverse in flags0 ==> addr.Some?)
      modifies this
      ensures Sound(Now()) && Undisturbed(old(Now()), Now())
      ensures Machine(Now(), insertError)
           == InsertInto(Machine(old(Now()), old(insertError)), Text(name), addr, now, now + ttl, flags0 - {Config}, scrap)
      ensures (r.Some? <==> why == Inserted) && insertError == (why != Inserted)
      ensures why == Earlier <==> old(insertError)
      ensures why == NameTaken <==> !old(insertError) && Forward in flags0 && Refused(old(Now()), Text(name), flags0 - {Config}, now)
      ensures why == NameTaken ==> Refuses(old(Now()), h, Text(name), flags0 - {Config})
      ensures why == PoolEmpty <==> (why != Earlier && why != NameTaken && |old(pending)| == n)
      ensures why == GaveUp <==>
                && why != Earlier && why != NameTaken
                && GivesUp(Scanned(old(Now()), Text(name), addr, now, flags0 - {Config}).0, now, Reverse in flags0)
      ensures why == NoBuffer ==> |Text(name)| >= SMALL_NAME && bigFree == 0 && bigLeft == 0
      ensures why != Inserted ==> pending == old(pending)
      ensures why == Inserted ==> Entered(Now(), old(pending), r.value, Text(name), addr, now + ttl, flags0 - {Config})
      ensures TargetsNewer(old(Now())) ==> TargetsNewer(Now())
    {
      hide Sound, Inv, Undisturbed, Framed, Replaced, Hashed, Insertable, Entered, TargetsNewer, Scanned, EnterNew, GivesUp, Refuses, Refused;
      ghost var s := Now();
      r, h := None, 0;
      SoundInv(s);
      SelfUndisturbed(s);
      var flags := flags0 - {Config};
      if insertError {
        why := Earlier;
        return;
      }
      var ok;
      ok, h := ScanReplaced(Text(name), addr, now, flags);
      ghost var t := Now();
      ScannedOk(s, Text(name), addr, now, flags);
      SamePending(s, t);
      if !ok {
        insertError := true;
        why := NameTaken;
        return;
      }
      WithoutConfig(flags0);
      r, why := InsertScanned(Text(name), addr, now, now + ttl, flags, scrap);
      UndisturbedTrans(s, t, Now());
    }

    /** The part of cache_insert behind its first scan. */
    method InsertScanned(name: string, addr: Option<Address>, now: int, ttd: int, flags: set<Flag>, scrap: string)
      returns (r: Option<Id>, ghost why: Outcome)
      requires Sound(Now()) && Insertable(flags) && Replaced(Now(), QueryOf(name, addr, flags)) && !insertError
      modifies this
      ensures Sound(Now()) && Undisturbed(old(Now()), Now())
      ensures Machine(Now(), insertError) == EnterNew(old(Now()), name, addr, now, ttd, flags, scrap)
      ensures (r.Some? <==> why == Inserted) && insertError == (why != Inserted) && why != Earlier && why != NameTaken
      ensures why == PoolEmpty <==> |old(pending)| == n
      ensures why == GaveUp <==> GivesUp(old(Now()), now, Reverse in flags)
      ensures why == NoBuffer ==> |name| >= SMALL_NAME && bigFree == 0 && bigLeft == 0
      ensures why != Inserted ==> pending == old(pending)
      ensures why == Inserted ==> Entered(Now(), old(pending), r.value, name, addr, ttd, flags)
      ensures TargetsNewer(old(Now())) ==> TargetsNewer(Now())
    {
      hide Sound, Inv, Undisturbed, Framed, Replaced, Hashed, InUse, FreeTail, Insertable, Entered, TargetsNewer, Room, GivesUp;
      ghost var t := Now();
      r := None;
      EnterNewOk(t, name, addr, now, ttd, flags, scrap);
      var found := MakeRoom(now, flags, scrap);
      ghost var u := Now();
      RoomExact(t, now, Reverse in flags, scrap);
      SamePending(t, u);
      EmptyIff(t);
      if FreeTail(u) { TailListed(u); }
      if !found {
        insertError := true;
        why := if t.lru == [] then PoolEmpty else GaveUp;
        return;
      }
      if |name| >= SMALL_NAME && bigFree == 0 && bigLeft == 0 {
        insertError := true;
        why := NoBuffer;
        return;
      }
      ReplacedStill(t, u, name, addr, flags);
      GrabFilled(u, name, addr, ttd, flags);
      var id := GrabTail(name, addr, ttd, flags);
      r, why := Some(id), Inserted;
    }

    /** The record at the tail leaves the list, is filled in and heads the pending chain. */
    method GrabTail(name: string, addr: Option<Address>, ttd: int, flags: set<Flag>) returns (id: Id)
      requires lru != [] && lru[|lru| - 1] in recs && Insertable(flags)
      requires |name| >= SMALL_NAME ==> bigFree + bigLeft > 0
      modifies this
      ensures id == old(lru)[|old(lru)| - 1] && insertError == old(insertError)
      ensures Now() == Grab(old(Now()), Fill(old(recs)[id], name, addr, ttd, flags))
    {
      id := lru[|lru| - 1];
      var big := |name| >= SMALL_NAME;
      if big {
        if bigFree > 0 {
          bigFree := bigFree - 1;
        } else {
          bigLeft := bigLeft - 1;
        }
      }
      lru := lru[..|lru| - 1];
      recs := recs[id := Fill(recs[id], name, addr, ttd, flags)];
      pending := [id] + pending;
    }

    /** The callers' write to an alias they have just inserted: its target is the newest record. */
    method SetTarget(alias: Id)
      requires Sound(Now()) && pending != [] && alias in pending[1..] && TargetsNewer(Now())
      modifies this
      ensures Sound(Now()) && TargetsNewer(Now()) && pending == old(pending) && chains == old(chains) && lru == old(lru)
      ensures insertError == old(insertError)
      ensures alias in old(recs) && pending[0] in old(recs)
      ensures recs == old(recs)[alias := old(recs[alias]).(target := Some(pending[0]), targetUid := old(recs[pending[0]].uid))]
    {
      hide Sound, Inv, TargetsNewer;
      ghost var s := Now();
      TargetKeepsSound(s, alias);
      recs := recs[alias := recs[alias].(target := Some(pending[0]), targetUid := recs[pending[0]].uid)];
      assert Now() == Aimed(s, alias);
    }

    /** cache_end_insert */
    method EndInsert()
      requires Sound(Now())
      modifies this
      ensures Sound(Now()) && insertError == old(insertError)
      ensures Now() == if insertError then old(Now()) else Drain(old(Now()))
    {
      hide Sound, Inv, Outdated, HashIn, Drain;
      if insertError {
        return;
      }
      while pending != []
        invariant Sound(Now()) && insertError == old(insertError) && Drain(Now()) == Drain(old(Now()))
        decreases |pending|
      {
        CommitOne();
      }
      DrainDone(Now());
    }

    method CommitOne()
      requires Sound(Now()) && pending != []
      modifies this
      ensures Sound(Now()) && insertError == old(insertError) && Now() == Turn(old(Now()))
    {
      hide Sound, Inv, Outdated, HashIn;
      ghost var s := Now();
      RecycleSound(s);
      CommitSound(s);
      var id := pending[0];
      if Outdated(recs, recs[id]) {
        pending := pending[1..];
        Free(id);
      } else {
        Hash(id);
        Link(id);
        pending := pending[1..];
      }
      assert Now() == Turn(s);
    }

    /** cache_hash */
    method Hash(id: Id)
      requires |chains| > 0 && id in recs && forall b, x | 0 <= b < |chains| && x in chains[b] :: x in recs
      modifies this
      ensures Now() == old(Now()).(chains := HashIn(mix, old(recs), old(chains), id)) && insertError == old(insertError)
    {
      hide InsertAt, Bucket;
      var r := recs[id];
      var b := Bucket(mix, r.name, |chains|);
      var up := 0;
      if Reverse !in r.flags {
        while up < |chains[b]| && Reverse in recs[chains[b][up]].flags
          invariant up <= |chains[b]| && SkipReverse(recs, chains[b], up) == SkipReverse(recs, chains[b], 0)
        {
          up := up + 1;
        }
        if Immortal in r.flags {
          ghost var from := up;
          while up < |chains[b]| && Immortal !in recs[chains[b][up]].flags
            invariant from <= up <= |chains[b]| && SkipMortal(recs, chains[b], up) == SkipMortal(recs, chains[b], from)
          {
            up := up + 1;
          }
        }
      }
      chains := chains[b := InsertAt(chains[b], up, id)];
    }

    /** A record of the hosts files or of a lease is filled in and hashed. */
    method EnterStatic(id: Id, r: Record)
      requires Sound(Now()) && id >= n && !Hashed(chains, id) && Static(r)
      requires r.target.Some? && r.target.value < n ==> r.targetUid < uid
      modifies this
      ensures Sound(Now()) && insertError == old(insertError)
      ensures recs == old(recs)[id := r] && lru == old(lru) && pending == old(pending) && |old(chains)| > 0
      ensures (forall b, x | 0 <= b < |old(chains)| && x in old(chains)[b] :: x in old(recs)) && Now() == AddStatic(old(Now()), id, r)
      ensures forall x :: Hashed(chains, x) <==> Hashed(old(chains), x) || x == id
    {
      hide Sound, Inv, Hashed, HashIn;
      ghost var s := Now();
      AddStaticSound(s, id, r);
      recs := recs[id := r];
      Hash(id);
      assert Now() == AddStatic(s, id, r);
      forall x ensures Hashed(chains, x) <==> Hashed(old(chains), x) || x == id { HashInHashed(mix, recs, s.chains, id, x); }
    }

    /** cache_unhash_dhcp */
    method UnhashDhcp()
      requires Sound(Now())
      modifies this
      ensures Sound(Now()) && insertError == old(insertError)
      ensures Inv(old(Now())) && Now() == Unleased(old(Now()), 0, 0)
      ensures forall x :: Hashed(chains, x) <==> Hashed(old(chains), x) && x in recs && Dhcp !in recs[x].flags
    {
      hide Sound, Inv, Hashed, Before;
      ghost var s := Now();
      SoundInv(s);
      UnleasedSound(s);
      forall x ensures Hashed(Unleased(s, 0, 0).chains, x) <==> Hashed(s.chains, x) && x in s.recs && Dhcp !in s.recs[x].flags {
        NoneBefore(s.chains);
        UnleasedExact(s, 0, 0, x);
      }
      var i := 0;
      while i < |chains|
        invariant i <= |chains| && Inv(Now()) && insertError == old(insertError)
        invariant Unleased(Now(), i, 0) == Unleased(s, 0, 0)
        decreases |chains| - i
      {
        UnhashRow(i);
        i := i + 1;
      }
    }

    method UnhashRow(i: nat)
      requires Inv(Now()) && i < |chains|
      modifies this
      ensures Inv(Now()) && |chains| == old(|chains|) && insertError == old(insertError)
      ensures Unleased(Now(), i + 1, 0) == Unleased(old(Now()), i, 0)
    {
      hide Inv;
      var up := 0;
      while up < |chains[i]|
        invariant |chains| == old(|chains|) && up <= |chains[i]| && Inv(Now()) && insertError == old(insertError)
        invariant Unleased(Now(), i, up) == Unleased(old(Now()), i, 0)
        decreases |chains[i]| - up
      {
        var id := chains[i][up];
        HashedRecord(Now(), i, up);
        if Dhcp in recs[id].flags {
          DropKeeps(Now(), i, up);
          chains := chains[i := RemoveAt(chains[i], up)];
        } else {
          up := up + 1;
        }
      }
    }

    // ----- Lookups.

    /** An answer: hosts and DHCP records are linked behind the last one, cached ones become the youngest. */
    method NoteAnswer(b: nat, k: nat, last: Option<Id>)
      requires Inv(Now()) && b < |chains| && k < |chains[b]|
      modifies this
      ensures Inv(Now()) && Now() == Note(old(Now()), b, k, last) && insertError == old(insertError)
    {
      hide Inv, Static, Without;
      ghost var s := Now();
      HashedRecord(s, b, k);
      var id := chains[b][k];
      if Static(recs[id]) {
        if last.Some? {
          links := links[last.value := Some(id)];
        }
      } else {
        Unlink(id);
        Link(id);
      }
      assert Now() == Note(s, b, k, last);
    }

    /** The round-robin: answers after the first move up the chain to `to`, flags permitting. */
    method PlaceAnswer(b: nat, k: nat, to: Option<nat>, toFlags: set<Flag>) returns (next: Option<nat>, nextFlags: set<Flag>)
      requires Inv(Now()) && b < |chains| && k < |chains[b]| && ToOk(Now(), b, k, to)
      requires to.Some? ==> toFlags == OrderFlags(recs[chains[b][to.value]])
      modifies this
      ensures Inv(Now()) && Now() == Place(old(Now()), b, k, to) && insertError == old(insertError)
      ensures old(chains[b][k]) in recs && forall ask: Ask | ask.Name? :: next == NextTo(old(Now()), b, k, to, ask)
      ensures next.Some? && next.value <= k && chains[b][next.value] in recs && nextFlags == OrderFlags(recs[chains[b][next.value]])
    {
      hide Inv, MoveUp, OrderFlags;
      ghost var s := Now();
      HashedRecord(s, b, k);
      var id := chains[b][k];
      next, nextFlags := to, toFlags;
      if to.Some? && OrderFlags(recs[id]) == toFlags {
        MoveUpElement(chains[b], k, to.value, to.value + 1);
        chains := chains[b := MoveUp(chains[b], k, to.value)];
        next := Some(to.value + 1);
      } else if to == None {
        next, nextFlags := Some(k), OrderFlags(recs[id]);
      }
      assert Now() == Place(s, b, k, to);
    }

    method AnswerName(b: nat, k: nat, to: Option<nat>, toFlags: set<Flag>, last: Option<Id>, ghost ask: Ask)
      returns (next: Option<nat>, nextFlags: set<Flag>)
      requires Inv(Now()) && b < |chains| && k < |chains[b]| && ToOk(Now(), b, k, to) && ask.Name?
      requires to.Some? ==> PlaceHeld(Now(), b, to.value, toFlags)
      modifies this
      ensures Inv(Now()) && Now() == Answer(old(Now()), b, k, to, last) && insertError == old(insertError)
      ensures |chains| == old(|chains|) && |chains[b]| == old(|chains[b]|) && old(chains[b][k]) in old(recs)
      ensures next == NextTo(old(Now()), b, k, to, ask) && ToOk(Now(), b, k + 1, next)
      ensures next.Some? ==> next.value <= k && PlaceHeld(Now(), b, next.value, nextFlags)
    {
      hide Inv, Note, Place, OrderFlags, Static, MoveUp;
      ghost var s := Now();
      HashedRecord(s, b, k);
      NoteAnswer(b, k, last);
      next, nextFlags := PlaceAnswer(b, k, to, toFlags);
      NextToOk(s, b, k, to, last, ask);
    }

    /** The first search of cache_find_by_name; first is the first hosts or DHCP answer. */
    method WalkName(name: string, now: int, prot: set<Flag>) returns (first: Option<Id>, last: Option<Id>)
      requires Inv(Now()) && |chains| > 0
      modifies this
      ensures Inv(Now()) && insertError == old(insertError)
      ensures var f := Walk(old(Now()), Name(name, prot), now);
              Now() == f.state && last == f.last && first == Head(f.hosts)
    {
      hide Inv, Remove, Answer, OrderFlags, Wanted, Bucket, Static, Gone, Ends, NextTo, ToOk, Find, Completes;
      ghost var ask, hosts, cached := Name(name, prot), [], [];
      var b, up := Bucket(mix, name, |chains|), 0;
      var insert: Option<nat>, insFlags: set<Flag> := None, {};
      first, last := None, None;
      NoPlace(Now(), b);
      ghost var f := Find(Now(), b, 0, ask, now, None, None);
      CompletesStart(f);
      while up < |chains[b]|
        invariant Inv(Now()) && b < |chains| && up <= |chains[b]| && insertError == old(insertError)
        invariant ToOk(Now(), b, up, insert)
        invariant insert.Some? ==> insert.value < up && PlaceHeld(Now(), b, insert.value, insFlags)
        invariant Completes(f, hosts, cached, Find(Now(), b, up, ask, now, insert, last))
        invariant first == Head(hosts) && last == LastOf(hosts)
        decreases |chains[b]| - up
      {
        ghost var s := Now();
        HashedRecord(s, b, up);
        var id := chains[b][up];
        var r := recs[id];
        NameGone(recs, r, ask, now);
        FindUnfold(s, b, up, ask, now, insert, last);
        if !Expired(r, now) && !Outdated(recs, r) {
          if Wanted(r, Name(name, prot)) {
            insert, insFlags := AnswerName(b, up, insert, insFlags, last, ask);
            up := up + 1;
            if Static(r) {
              last := Some(id);
              if first == None {
                first := Some(id);
              }
            }
            CompletesStep(f, hosts, cached, Find(Now(), b, up, ask, now, insert, last), id, Static(r));
            hosts, cached := if Static(r) then hosts + [id] else hosts, if Static(r) then cached else cached + [id];
          } else {
            ToLater(s, b, up, insert);
            up := up + 1;
          }
        } else {
          RemoveTo(s, b, up, insert);
          if insert.Some? { RemoveHeld(s, b, up, insert.value, insFlags); }
          TakeOut(b, up);
        }
      }
      FindUnfold(Now(), b, up, ask, now, insert, last);
      CompletesEnd(f, hosts, cached, Now(), last);
      WalkByName(old(Now()), name, prot, now);
    }

    /** The reverse records of one chain. */
    method WalkRow(b: nat, addr: Address, now: int, prot: set<Flag>, first0: Option<Id>, last0: Option<Id>)
      returns (first: Option<Id>, last: Option<Id>)
      requires Inv(Now()) && b < |chains|
      modifies this
      ensures Inv(Now()) && insertError == old(insertError)
      ensures var f := Find(old(Now()), b, 0, Addr(addr, prot), now, None, last0);
              Now() == f.state && last == f.last && first == if first0.Some? then first0 else Head(f.hosts)
    {
      hide Inv, Remove, Answer, Wanted, Static, Gone, Ends, ToOk, Find, Completes, Note;
      ghost var ask, hosts, cached := Addr(addr, prot), [], [];
      var up := 0;
      first, last := first0, last0;
      NoPlace(Now(), b);
      ghost var f := Find(Now(), b, 0, ask, now, None, last0);
      CompletesStart(f);
      var more := true;
      while more && up < |chains[b]|
        invariant Inv(Now()) && b < |chains| && up <= |chains[b]| && insertError == old(insertError) && ToOk(Now(), b, up, None)
        invariant more ==> Completes(f, hosts, cached, Find(Now(), b, up, ask, now, None, last))
        invariant !more ==> Completes(f, hosts, cached, Found(Now(), [], [], last))
        invariant first == if first0.Some? then first0 else Head(hosts)
        decreases more, |chains[b]| - up
      {
        ghost var s := Now();
        HashedRecord(s, b, up);
        var id := chains[b][up];
        var r := recs[id];
        NameGone(recs, r, ask, now);
        FindUnfold(s, b, up, ask, now, None, last);
        if Reverse !in r.flags {
          more := false;
        } else if !Expired(r, now) {
          if Wanted(r, Addr(addr, prot)) {
            AnswerInPlace(s, b, up, last);
            NoteAnswer(b, up, last);
            up := up + 1;
            if Static(r) {
              last := Some(id);
              if first == None {
                first := Some(id);
              }
            }
            CompletesStep(f, hosts, cached, Find(Now(), b, up, ask, now, None, last), id, Static(r));
            hosts, cached := if Static(r) then hosts + [id] else hosts, if Static(r) then cached else cached + [id];
          } else {
            up := up + 1;
          }
        } else {
          TakeOut(b, up);
        }
      }
      if more { FindUnfold(Now(), b, up, ask, now, None, last); }
      CompletesEnd(f, hosts, cached, Now(), last);
    }

    /** The first search of cache_find_by_addr. */
    method WalkAddr(addr: Address, now: int, prot: set<Flag>) returns (first: Option<Id>, last: Option<Id>)
      requires Inv(Now())
      modifies this
      ensures Inv(Now()) && insertError == old(insertError)
      ensures var f := Walk(old(Now()), Addr(addr, prot), now);
              Now() == f.state && last == f.last && first == Head(f.hosts)
    {
      hide Inv, Find, Completes;
      ghost var ask, hosts, cached := Addr(addr, prot), [], [];
      first, last := None, None;
      ghost var f := FindInAll(Now(), 0, ask, now, None);
      CompletesStart(f);
      var i := 0;
      while i < |chains|
        invariant Inv(Now()) && i <= |chains| && insertError == old(insertError)
        invariant Completes(f, hosts, cached, FindInAll(Now(), i, ask, now, last))
        invariant first == Head(hosts)
      {
        ghost var g := Find(Now(), i, 0, ask, now, None, last);
        first, last := WalkRow(i, addr, now, prot, first, last);
        CompletesJoin(f, hosts, cached, g, FindInAll(Now(), i + 1, ask, now, last));
        hosts, cached := hosts + g.hosts, cached + g.cached;
        i := i + 1;
      }
      CompletesEnd(f, hosts, cached, Now(), last);
    }

    /** A first search: what ans is at its end. */
    method Search(ask: Ask, now: int) returns (ans: Option<Id>)
      requires Sound(Now())
      modifies this
      ensures Inv(Now()) && Now() == Lookup(old(Now()), ask, now).state && insertError == old(insertError)
      ensures ans == Current(Lookup(old(Now()), ask, now), 0)
    {
      hide Inv, Sound, Walk;
      SoundInv(Now());
      HasChains(Now());
      var last;
      match ask {
        case Name(name, prot) => ans, last := WalkName(name, now, prot);
        case Addr(addr, prot) => ans, last := WalkAddr(addr, now, prot);
      }
      ghost var w := Walk(old(Now()), ask, now);
      WalkLast(old(Now()), ask, now);
      var head := if lru == [] then None else Some(lru[0]);
      if last.Some? {
        links := links[last.value := head];
      } else {
        ans := head;
      }
      assert Now() == LinkAfter(w.state, w.last, Head(w.state.lru));
      LookupFields(old(Now()), ask, now);
    }

    /** The check at the end of both lookups. */
    function Checked(ans: Option<Id>, ask: Ask): Option<Id>
      reads this
    {
      if ans.Some? && ans.value in recs && Wanted(recs[ans.value], ask) then ans else None
    }

    /** crecp->next */
    function Following(id: Id): (next: Option<Id>)
      reads this
      ensures next == Next(Now(), id)
    {
      if id in lru then (var k := IndexOf(lru, id) + 1; if k < |lru| then Some(lru[k]) else None)
      else if id in links then links[id] else None
    }

    /** cache_find_by_name and cache_find_by_addr: the first search, or the next answer after crecp. */
    method FindBy(crecp: Option<Id>, ask: Ask, now: int) returns (r: Option<Id>)
      requires Sound(Now())
      modifies this
      ensures Sound(Now()) && insertError == old(insertError)
      ensures crecp == None ==> Now() == Lookup(old(Now()), ask, now).state && r == Checked(Current(Lookup(old(Now()), ask, now), 0), ask)
      ensures crecp == None ==> Rearranged(old(Now()), Now(), ask, now)
      ensures crecp.Some? ==> Now() == old(Now()) && r == Checked(Next(old(Now()), crecp.value), ask)
    {
      hide Sound, Inv, Wanted, Next, Lookup, Current, Rearranged;
      ghost var s := Now();
      SoundInv(s);
      LookupRearranges(s, ask, now);
      var ans;
      if crecp.Some? {
        ans := Following(crecp.value);
      } else {
        LookupSound(s, ask, now);
        ans := Search(ask, now);
      }
      r := Checked(ans, ask);
    }

    /** The callers' loop: ask for the first answer, then for the one after it until there is none. It
        gives every record of the table that answers the question and is not struck by the lookup, once
        each, hosts and DHCP records first, and nothing else; the struck records are gone, and the chains
        are in the order that the round-robin gives them. */
    method AllAnswers(ask: Ask, now: int) returns (ids: seq<Id>)
      requires Sound(Now())
      modifies this
      ensures Sound(Now()) && insertError == old(insertError)
      ensures var f := Lookup(old(Now()), ask, now);
              Now() == f.state && ids == Answers(f) && Exactly(Now(), ask, now, f.hosts, f.cached)
      ensures AnswersTo(old(Now()), ask, now, ids) && StruckOut(old(Now()), Now(), ask, now)
      ensures Rearranged(old(Now()), Now(), ask, now)
    {
      hide Sound, Inv, Wanted, Next, Lookup, Current, Answers, Exactly, AnswersTo, StruckOut, Rearranged;
      ghost var s := Now();
      SoundInv(s);
      ghost var f := Lookup(s, ask, now);
      LookupExact(s, ask, now);
      LookupMeaning(s, ask, now);
      LookupRearranges(s, ask, now);
      ids := [];
      var crecp := FindBy(None, ask, now);
      AnswerChecked(s, ask, now, 0);
      while crecp.Some?
        invariant Sound(Now()) && Now() == f.state && insertError == old(insertError)
        invariant |ids| <= |Answers(f)| && ids == Answers(f)[..|ids|]
        invariant crecp == if |ids| < |Answers(f)| then Some(Answers(f)[|ids|]) else None
        decreases |Answers(f)| - |ids|
      {
        NextAnswer(s, ask, now, |ids|);
        ids := ids + [crecp.value];
        crecp := FindBy(crecp, ask, now);
        AnswerChecked(s, ask, now, |ids|);
      }
    }
  }

  /** The check lets every answer through and stops the iteration behind the last one. */
  lemma {:induction false} AnswerChecked(s: State, ask: Ask, now: int, i: nat)
    requires Inv(s) && i <= |Answers(Lookup(s, ask, now))|
    ensures var f := Lookup(s, ask, now);
            var c := Current(f, i);
            (if c.Some? && c.value in f.state.recs && Wanted(f.state.recs[c.value], ask) then c else None)
            == if i < |Answers(f)| then Some(Answers(f)[i]) else None
  {
    hide Inv, Wanted, Lookup, Current, InChains, Expired, Static, Distinct, Rev;
    if i < |Answers(Lookup(s, ask, now))| {
      var f := Lookup(s, ask, now);
      NextAnswer(s, ask, now, i);
      LookupExact(s, ask, now);
      RevMembers(f.cached, Answers(f)[i]);
      assert Answers(f)[i] in f.hosts || Answers(f)[i] in Rev(f.cached);
    } else {
      IterationStops(s, ask, now);
    }
  }

  lemma {:induction false} WalkLast(s: State, ask: Ask, now: int)
    requires Inv(s)
    ensures var f := Walk(s, ask, now); f.last.Some? <==> f.hosts != []
  {
    hide Inv, Walk;
    WalkLinks(s, ask, now);
  }

  /** In a reverse walk nothing moves up. */
  lemma {:induction false} AnswerInPlace(s: State, b: nat, k: nat, last: Option<Id>)
    requires Inv(s) && b < |s.chains| && k < |s.chains[b]|
    ensures s.chains[b][k] in s.recs && ToOk(s, b, k, None)
    ensures Answer(s, b, k, None, last) == Note(s, b, k, last)
    ensures forall ask: Ask | ask.Addr? :: NextTo(s, b, k, None, ask) == None
  {
    hide Inv, Note;
    HashedRecord(s, b, k);
  }

  lemma {:induction false} CompletesJoin(f: Found, hosts: seq<Id>, cached: seq<Id>, g: Found, h: Found)
    requires Completes(f, hosts, cached, Join(g, h))
    ensures Completes(f, hosts + g.hosts, cached + g.cached, h)
  {
    assert hosts + (g.hosts + h.hosts) == hosts + g.hosts + h.hosts;
    assert cached + (g.cached + h.cached) == cached + g.cached + h.cached;
  }

  /** The place `to` of chain b is held by a record with these order flags. */
  ghost predicate PlaceHeld(s: State, b: nat, to: nat, flags: set<Flag>) {
    b < |s.chains| && to < |s.chains[b]| && s.chains[b][to] in s.recs && OrderFlags(s.recs[s.chains[b][to]]) == flags
  }

  lemma {:induction false} RemoveHeld(s: State, b: nat, k: nat, to: nat, flags: set<Flag>)
    requires Inv(s) && b < |s.chains| && to < k < |s.chains[b]| && PlaceHeld(s, b, to, flags)
    ensures PlaceHeld(Remove(s, b, k), b, to, flags)
  {
    hide Inv, Remove, OrderFlags;
    var t := Remove(s, b, k);
    RemoveAtElement(s.chains[b], k, to);
    RemoveUndisturbed(s, b, k);
    HashedAt(t.chains, b, to);
  }

  lemma {:induction false} CompletesStart(f: Found)
    ensures Completes(f, [], [], f)
  {
    assert [] + f.hosts == f.hosts && [] + f.cached == f.cached;
  }

  lemma {:induction false} CompletesEnd(f: Found, hosts: seq<Id>, cached: seq<Id>, t: State, last: Option<Id>)
    requires Completes(f, hosts, cached, Found(t, [], [], last))
    ensures f == Found(t, hosts, cached, last)
  {
    assert hosts + [] == hosts && cached + [] == cached;
  }

  lemma {:induction false} WalkByName(s: State, name: string, prot: set<Flag>, now: int)
    requires Inv(s) && |s.chains| > 0
    ensures Walk(s, Name(name, prot), now) == Find(s, Bucket(s.mix, name, |s.chains|), 0, Name(name, prot), now, None, None)
  {
    hide Inv, Find, Bucket;
  }

  ghost function LastOf(hosts: seq<Id>): Option<Id> { if hosts == [] then None else Some(hosts[|hosts| - 1]) }

  lemma {:induction false} NameGone(recs: map<Id, Record>, r: Record, ask: Ask, now: int)
    ensures ask.Name? ==> !Ends(r, ask) && (Gone(recs, r, ask, now) <==> Expired(r, now) || Outdated(recs, r))
    ensures ask.Addr? ==> (Ends(r, ask) <==> Reverse !in r.flags) && (Gone(recs, r, ask, now) <==> Expired(r, now))
  {
  }

  /** What is still to be found completes what has been found. */
  ghost predicate Completes(f: Found, hosts: seq<Id>, cached: seq<Id>, g: Found) {
    f == Found(g.state, hosts + g.hosts, cached + g.cached, g.last)
  }

  lemma {:induction false} CompletesStep(f: Found, hosts: seq<Id>, cached: seq<Id>, g: Found, id: Id, host: bool)
    requires Completes(f, hosts, cached, Prepend(g, id, host))
    ensures Completes(f, if host then hosts + [id] else hosts, if host then cached else cached + [id], g)
  {
    if host {
      assert hosts + ([id] + g.hosts) == hosts + [id] + g.hosts;
    } else {
      assert cached + ([id] + g.cached) == cached + [id] + g.cached;
    }
  }
}
