/** What lookups leave alone, and when a lookup by name returns an alias whose target it has itself freed. */
module DnsAliases {
  import opened DnsRecords
  import opened Options
  import opened Sequences
  import opened DnsSteps
  import opened DnsScan
  import opened DnsLookup
  import opened DnsAnswers
  import opened DnsInsert

  lemma {:induction false} AnswerFramed(s: State, b: nat, k: nat, to: Option<nat>, last: Option<Id>)
    requires Inv(s) && b < |s.chains| && k < |s.chains[b]| && ToOk(s, b, k, to)
    ensures Framed(s, Answer(s, b, k, to, last)) && Answer(s, b, k, to, last).uid == s.uid
  {
    hide TableOk, UsedPrefix, BigOk, UidOk, PoolOk, RecordOk, StaticOk, Without, MoveUp, OrderFlags, Static;
    var t := Answer(s, b, k, to, last);
    HashedRecord(s, b, k);
    SelfFramed(s);
    assert t.pending == s.pending && t.bigLeft == s.bigLeft && t.uid == s.uid;
    SizesAgree(s, t);
  }

  lemma {:induction false} FindFramed(s: State, b: nat, k: nat, ask: Ask, now: int, to: Option<nat>, last: Option<Id>)
    requires Inv(s) && b < |s.chains| && k <= |s.chains[b]| && ToOk(s, b, k, to)
    ensures Framed(s, Find(s, b, k, ask, now, to, last).state)
    decreases |s.chains[b]| - k
  {
    hide Inv, Gone, Ends, Wanted, Static, Framed, Remove, Answer, ToOk, NextTo;
    SelfFramed(s);
    if k < |s.chains[b]| {
      HashedRecord(s, b, k);
      var r := s.recs[s.chains[b][k]];
      if Ends(r, ask) {
      } else if Gone(s.recs, r, ask, now) {
        RemoveTo(s, b, k, to);
        RemoveFramed(s, b, k);
        FindFramed(Remove(s, b, k), b, k, ask, now, to, last);
        FramedTrans(s, Remove(s, b, k), Find(s, b, k, ask, now, to, last).state);
      } else if Wanted(r, ask) {
        var t, l := Answer(s, b, k, to, last), if Static(r) then Some(s.chains[b][k]) else last;
        AnswerFramed(s, b, k, to, last);
        NextToOk(s, b, k, to, last, ask);
        FindFramed(t, b, k + 1, ask, now, NextTo(s, b, k, to, ask), l);
        FramedTrans(s, t, Find(s, b, k, ask, now, to, last).state);
      } else {
        ToLater(s, b, k, to);
        FindFramed(s, b, k + 1, ask, now, to, last);
      }
    }
  }

  lemma {:induction false} FindInAllFramed(s: State, b: nat, ask: Ask, now: int, last: Option<Id>)
    requires Inv(s) && b <= |s.chains|
    ensures Framed(s, FindInAll(s, b, ask, now, last).state)
    decreases |s.chains| - b
  {
    hide Inv, Find, Framed;
    SelfFramed(s);
    if b < |s.chains| {
      var f := Find(s, b, 0, ask, now, None, last);
      FindFramed(s, b, 0, ask, now, None, last);
      FindInAllFramed(f.state, b + 1, ask, now, f.last);
      FramedTrans(s, f.state, FindInAll(s, b, ask, now, last).state);
    }
  }

  lemma {:induction false} WalkFramed(s: State, ask: Ask, now: int)
    requires Inv(s)
    ensures Framed(s, Walk(s, ask, now).state)
  {
    hide Inv, Find, FindInAll, Bucket, Framed;
    HasChains(s);
    match ask
    case Name(name, prot) => FindFramed(s, Bucket(s.mix, name, |s.chains|), 0, ask, now, None, None);
    case Addr(addr, prot) => FindInAllFramed(s, 0, ask, now, None);
  }

  /** A lookup keeps the whole invariant. */
  lemma {:induction false} LookupSound(s: State, ask: Ask, now: int)
    requires Sound(s)
    ensures Sound(Lookup(s, ask, now).state)
  {
    hide Inv, Walk, Undisturbed;
    WalkExact(s, ask, now);
    WalkFramed(s, ask, now);
    StaysSound(s, Walk(s, ask, now).state);
    var w := Walk(s, ask, now);
    LinkSound(w.state, Lookup(s, ask, now).state);
  }

  lemma {:induction false} LinkSound(s: State, t: State)
    requires Sound(s) && Inv(t) && t.recs == s.recs && t.chains == s.chains && t.pending == s.pending && t.n == s.n
    ensures Sound(t)
  {
    hide Inv, Hashed, SelfReplacing, Conflict;
    forall id ensures Candidate(t, id) <==> Candidate(s, id) { }
  }

  // ----- Records a lookup takes out of the table.

  lemma {:induction false} FindOutdated(s: State, b: nat, k: nat, ask: Ask, now: int, to: Option<nat>, last: Option<Id>, r: Record)
    requires Inv(s) && b < |s.chains| && k <= |s.chains[b]| && ToOk(s, b, k, to) && Outdated(s.recs, r)
    requires r.target.Some? && r.target.value < s.n ==> r.targetUid < s.uid
    ensures Outdated(Find(s, b, k, ask, now, to, last).state.recs, r)
    decreases |s.chains[b]| - k
  {
    hide Inv, Gone, Ends, Wanted, Static, Remove, Answer, ToOk, NextTo, Outdated;
    if k < |s.chains[b]| {
      HashedRecord(s, b, k);
      var q := s.recs[s.chains[b][k]];
      if Ends(q, ask) {
      } else if Gone(s.recs, q, ask, now) {
        RemoveTo(s, b, k, to);
        RemoveOutdated(s, b, k, r);
        FindOutdated(Remove(s, b, k), b, k, ask, now, to, last, r);
      } else if Wanted(q, ask) {
        var t, l := Answer(s, b, k, to, last), if Static(q) then Some(s.chains[b][k]) else last;
        AnswerFramed(s, b, k, to, last);
        NextToOk(s, b, k, to, last, ask);
        FindOutdated(t, b, k + 1, ask, now, NextTo(s, b, k, to, ask), l, r);
      } else {
        ToLater(s, b, k, to);
        FindOutdated(s, b, k + 1, ask, now, to, last, r);
      }
    }
  }

  /** A lookup takes a record out of the table only because it has expired or is an outdated alias. */
  lemma {:induction false} FindRemoves(s: State, b: nat, k: nat, ask: Ask, now: int, to: Option<nat>, last: Option<Id>, id: Id)
    requires Inv(s) && b < |s.chains| && k <= |s.chains[b]| && ToOk(s, b, k, to)
    requires Hashed(s.chains, id) && !Hashed(Find(s, b, k, ask, now, to, last).state.chains, id)
    ensures id in s.recs
    ensures Expired(s.recs[id], now) || (ask.Name? && Outdated(Find(s, b, k, ask, now, to, last).state.recs, s.recs[id]))
    ensures !Ends(s.recs[id], ask)
    decreases |s.chains[b]| - k
  {
    hide Inv, Hashed, Ends, Wanted, Static, Remove, Answer, ToOk, NextTo, Outdated, Expired;
    if k < |s.chains[b]| {
      HashedRecord(s, b, k);
      var x := s.chains[b][k];
      var q := s.recs[x];
      if Ends(q, ask) {
      } else if Gone(s.recs, q, ask, now) {
        var t := Remove(s, b, k);
        RemoveTo(s, b, k, to);
        RemoveHashed(s, b, k, id);
        if id != x {
          FindRemoves(t, b, k, ask, now, to, last, id);
          RemoveUndisturbed(s, b, k);
        } else if Outdated(s.recs, q) {
          RemovedAlias(s, b, k);
          FindOutdated(t, b, k, ask, now, to, last, q);
        }
      } else if Wanted(q, ask) {
        var t, l := Answer(s, b, k, to, last), if Static(q) then Some(x) else last;
        AnswerHashed(s, b, k, to, last, id);
        NextToOk(s, b, k, to, last, ask);
        FindRemoves(t, b, k + 1, ask, now, NextTo(s, b, k, to, ask), l, id);
      } else {
        ToLater(s, b, k, to);
        FindRemoves(s, b, k + 1, ask, now, to, last, id);
      }
    }
  }

  lemma {:induction false} AnswerHashed(s: State, b: nat, k: nat, to: Option<nat>, last: Option<Id>, id: Id)
    requires Inv(s) && b < |s.chains| && k < |s.chains[b]| && ToOk(s, b, k, to)
    ensures Hashed(Answer(s, b, k, to, last).chains, id) <==> Hashed(s.chains, id)
  {
    hide Inv, Answer, Passed;
    var t := Answer(s, b, k, to, last);
    AnswerChain(s, b, k, to, last);
    if Hashed(t.chains, id) {
      var c :| 0 <= c < |t.chains| && id in t.chains[c];
      assert id in s.chains[c];
    }
    if Hashed(s.chains, id) {
      var c :| 0 <= c < |s.chains| && id in s.chains[c];
      assert id in t.chains[c];
    }
  }

  // ----- Aliases among the answers.

  /** The target of an alias was in the table before and was freed on the way. */
  ghost predicate TargetFreed(s: State, t: State, r: Record) {
    Cname in r.flags && r.target.Some? && r.target.value < s.n && Hashed(s.chains, r.target.value) && !Hashed(t.chains, r.target.value)
  }

  ghost predicate TargetKnown(s: State, r: Record) { r.target.Some? && r.target.value < s.n ==> r.targetUid < s.uid }

  lemma {:induction false} RemoveTarget(s: State, b: nat, k: nat, r: Record)
    requires Inv(s) && b < |s.chains| && k < |s.chains[b]| && TargetKnown(s, r) && !Outdated(s.recs, r)
    ensures var t := Remove(s, b, k);
            TargetKnown(t, r) && (Outdated(t.recs, r) <==> Cname in r.flags && r.target == Some(s.chains[b][k]) && s.chains[b][k] < s.n)
  {
    hide TableOk, UsedPrefix, BigOk, PoolOk, RecordOk, StaticOk, Hashed, RemoveAt;
    HashedRecord(s, b, k);
  }

  /** An alias that is up to date when the walk comes to it goes out of date exactly when the rest of the
      walk frees its target. */
  lemma {:induction false} AliasFate(s: State, b: nat, k: nat, ask: Ask, now: int, to: Option<nat>, last: Option<Id>, r: Record)
    requires Inv(s) && b < |s.chains| && k <= |s.chains[b]| && ToOk(s, b, k, to) && TargetKnown(s, r) && !Outdated(s.recs, r)
    ensures var t := Find(s, b, k, ask, now, to, last).state; Outdated(t.recs, r) <==> TargetFreed(s, t, r)
    decreases |s.chains[b]| - k
  {
    hide Inv, Hashed, Ends, Gone, Wanted, Static, Remove, Answer, ToOk, NextTo, Outdated;
    if k < |s.chains[b]| {
      HashedRecord(s, b, k);
      var x := s.chains[b][k];
      var q := s.recs[x];
      if Ends(q, ask) {
      } else if Gone(s.recs, q, ask, now) {
        var t := Remove(s, b, k);
        RemoveTo(s, b, k, to);
        RemoveTarget(s, b, k, r);
        if r.target.Some? { RemoveHashed(s, b, k, r.target.value); }
        if Outdated(t.recs, r) {
          FindOutdated(t, b, k, ask, now, to, last, r);
          FindUndisturbed(t, b, k, ask, now, to, last);
        } else {
          AliasFate(t, b, k, ask, now, to, last, r);
        }
      } else if Wanted(q, ask) {
        var t, l := Answer(s, b, k, to, last), if Static(q) then Some(x) else last;
        AnswerFramed(s, b, k, to, last);
        if r.target.Some? { AnswerHashed(s, b, k, to, last, r.target.value); }
        NextToOk(s, b, k, to, last, ask);
        AliasFate(t, b, k + 1, ask, now, NextTo(s, b, k, to, ask), l, r);
      } else {
        ToLater(s, b, k, to);
        AliasFate(s, b, k + 1, ask, now, to, last, r);
      }
    }
  }

  /** A lookup by name never answers with an alias that was outdated when it began. */
  lemma {:induction false} SkipsOutdated(s: State, b: nat, k: nat, ask: Ask, now: int, to: Option<nat>, last: Option<Id>, r: Record, x: Id)
    requires Inv(s) && b < |s.chains| && k <= |s.chains[b]| && ToOk(s, b, k, to) && TargetKnown(s, r) && Outdated(s.recs, r) && ask.Name?
    requires var f := Find(s, b, k, ask, now, to, last); x in f.hosts || x in f.cached
    ensures var t := Find(s, b, k, ask, now, to, last).state; x in t.recs && t.recs[x] != r
    decreases |s.chains[b]| - k
  {
    hide Inv, Hashed, Ends, Wanted, Static, Remove, Answer, ToOk, NextTo, Outdated, Expired, Exact, Undisturbed;
    HashedRecord(s, b, k);
    NeverEnds(s.recs, s.recs[s.chains[b][k]], ask);
    var id := s.chains[b][k];
    var q := s.recs[id];
    if Gone(s.recs, q, ask, now) {
      RemoveTo(s, b, k, to);
      RemoveOutdated(s, b, k, r);
      SkipsOutdated(Remove(s, b, k), b, k, ask, now, to, last, r, x);
    } else if Wanted(q, ask) {
      var t, l := Answer(s, b, k, to, last), if Static(q) then Some(id) else last;
      AnswerFramed(s, b, k, to, last);
      NextToOk(s, b, k, to, last, ask);
      if x == id {
        AnswerStays(s, b, k, ask, now, to, last);
      } else {
        SkipsOutdated(t, b, k + 1, ask, now, NextTo(s, b, k, to, ask), l, r, x);
      }
    } else {
      ToLater(s, b, k, to);
      SkipsOutdated(s, b, k + 1, ask, now, to, last, r, x);
    }
  }

  lemma {:induction false} NeverEnds(recs: map<Id, Record>, r: Record, ask: Ask)
    requires ask.Name?
    ensures !Ends(r, ask)
  {
  }

  /** An answer is still in the table at the end, unchanged. */
  lemma {:induction false} AnswerStays(s: State, b: nat, k: nat, ask: Ask, now: int, to: Option<nat>, last: Option<Id>)
    requires Inv(s) && b < |s.chains| && k < |s.chains[b]| && ToOk(s, b, k, to) && s.chains[b][k] in s.recs
    requires var r := s.recs[s.chains[b][k]]; !Ends(r, ask) && !Gone(s.recs, r, ask, now) && Wanted(r, ask)
    ensures var t := Find(s, b, k, ask, now, to, last).state;
            s.chains[b][k] in t.recs && t.recs[s.chains[b][k]] == s.recs[s.chains[b][k]]
  {
    hide Inv, Gone, Ends, Wanted, Static, Remove, Answer, ToOk, NextTo, Expired, Exact, Undisturbed, Passed;
    var id, r, t := s.chains[b][k], s.recs[s.chains[b][k]], Answer(s, b, k, to, last);
    var l := if Static(r) then Some(id) else last;
    NextToOk(s, b, k, to, last, ask);
    AnswerChain(s, b, k, to, last);
    FindExact(t, b, k + 1, ask, now, NextTo(s, b, k, to, ask), l);
    var f := Find(t, b, k + 1, ask, now, NextTo(s, b, k, to, ask), l);
    PassedStays(t, b, k + 1, ask, now, f, id);
    FindUndisturbed(t, b, k + 1, ask, now, NextTo(s, b, k, to, ask), l);
    SameRecord(t, f.state, b, id);
  }

  lemma {:induction false} RecordTarget(s: State, r: Record, id: Id)
    requires Inv(s) && id in s.recs && s.recs[id] == r
    ensures TargetKnown(s, r)
  {
    hide TableOk, UsedPrefix, BigOk, PoolOk, RecordOk, StaticOk;
  }

  /** An answer is an outdated alias at the end exactly when the walk has freed its target. */
  lemma {:induction false} AnswerFate(s: State, b: nat, k: nat, ask: Ask, now: int, to: Option<nat>, last: Option<Id>, x: Id)
    requires Inv(s) && b < |s.chains| && k <= |s.chains[b]| && ToOk(s, b, k, to) && ask.Name?
    requires var f := Find(s, b, k, ask, now, to, last); x in f.hosts || x in f.cached
    ensures var t := Find(s, b, k, ask, now, to, last).state;
            x in t.recs && (Outdated(t.recs, t.recs[x]) <==> TargetFreed(s, t, t.recs[x]))
    decreases |s.chains[b]| - k
  {
    hide Inv, Hashed, Ends, Wanted, Static, Remove, Answer, ToOk, NextTo, Outdated, Expired, TargetKnown;
    HashedRecord(s, b, k);
    NeverEnds(s.recs, s.recs[s.chains[b][k]], ask);
    var id := s.chains[b][k];
    var q := s.recs[id];
    if Gone(s.recs, q, ask, now) {
      RemoveTo(s, b, k, to);
      AnswerFate(Remove(s, b, k), b, k, ask, now, to, last, x);
      FateAfterRemove(s, b, k, ask, now, to, last, x);
    } else if Wanted(q, ask) {
      var t, l := Answer(s, b, k, to, last), if Static(q) then Some(id) else last;
      NextToOk(s, b, k, to, last, ask);
      if x == id {
        AnswerStays(s, b, k, ask, now, to, last);
        AnswerFramed(s, b, k, to, last);
        RecordTarget(t, q, id);
        AliasFate(t, b, k + 1, ask, now, NextTo(s, b, k, to, ask), l, q);
        if q.target.Some? { AnswerHashed(s, b, k, to, last, q.target.value); }
      } else {
        AnswerFate(t, b, k + 1, ask, now, NextTo(s, b, k, to, ask), l, x);
        var r := Find(s, b, k, ask, now, to, last).state.recs[x];
        if r.target.Some? { AnswerHashed(s, b, k, to, last, r.target.value); }
      }
    } else {
      ToLater(s, b, k, to);
      AnswerFate(s, b, k + 1, ask, now, to, last, x);
    }
  }

  lemma {:induction false} AnswerRecord(s: State, b: nat, k: nat, ask: Ask, now: int, to: Option<nat>, last: Option<Id>, x: Id)
    requires Inv(s) && b < |s.chains| && k <= |s.chains[b]| && ToOk(s, b, k, to)
    requires var f := Find(s, b, k, ask, now, to, last); x in f.hosts || x in f.cached
    ensures var t := Find(s, b, k, ask, now, to, last).state;
            x in t.recs && x in s.recs && t.recs[x] == s.recs[x] && TargetKnown(s, s.recs[x])
  {
    hide Inv, Hashed, Wanted, Static, Ends, Expired, Find, ToOk, Passed, Distinct;
    var t := Find(s, b, k, ask, now, to, last).state;
    FindExact(s, b, k, ask, now, to, last);
    FindUndisturbed(s, b, k, ask, now, to, last);
    var i := IndexOf(t.chains[b], x);
    HashedAt(t.chains, b, i);
    RecordTarget(s, s.recs[x], x);
  }

  lemma {:induction false} FateAfterRemove(s: State, b: nat, k: nat, ask: Ask, now: int, to: Option<nat>, last: Option<Id>, x: Id)
    requires Inv(s) && b < |s.chains| && k < |s.chains[b]| && ToOk(s, b, k, to) && ask.Name? && ToOk(Remove(s, b, k), b, k, to)
    requires var f := Find(Remove(s, b, k), b, k, ask, now, to, last); x in f.hosts || x in f.cached
    ensures var t := Find(Remove(s, b, k), b, k, ask, now, to, last).state;
            x in t.recs && (TargetFreed(Remove(s, b, k), t, t.recs[x]) <==> TargetFreed(s, t, t.recs[x]))
  {
    hide Inv, Hashed, Find, Remove, Outdated, ToOk, Undisturbed;
    var u := Remove(s, b, k);
    var t := Find(u, b, k, ask, now, to, last).state;
    AnswerRecord(u, b, k, ask, now, to, last, x);
    var r := t.recs[x];
    RemovedRecordStays(s, b, k, ask, now, to, last, x);
    if r.target.Some? {
      RemoveHashed(s, b, k, r.target.value);
      if r.target.value == s.chains[b][k] && Cname in r.flags && r.target.value < s.n {
        if Outdated(s.recs, r) { RemoveOutdated(s, b, k, r); } else { RemoveTarget(s, b, k, r); }
        SkipsOutdated(u, b, k, ask, now, to, last, r, x);
      }
    }
  }

  lemma {:induction false} RemovedRecordStays(s: State, b: nat, k: nat, ask: Ask, now: int, to: Option<nat>, last: Option<Id>, x: Id)
    requires Inv(s) && b < |s.chains| && k < |s.chains[b]| && ToOk(Remove(s, b, k), b, k, to)
    requires var f := Find(Remove(s, b, k), b, k, ask, now, to, last); x in f.hosts || x in f.cached
    ensures x in s.recs && x in Remove(s, b, k).recs && Remove(s, b, k).recs[x] == s.recs[x] && TargetKnown(s, s.recs[x])
  {
    hide Inv, Hashed, Find, Remove, ToOk, Wanted, Static, Ends, Expired, Passed, Distinct;
    var u := Remove(s, b, k);
    var t := Find(u, b, k, ask, now, to, last).state;
    FindExact(u, b, k, ask, now, to, last);
    FindUndisturbed(u, b, k, ask, now, to, last);
    RemoveUndisturbed(s, b, k);
    var i := IndexOf(t.chains[b], x);
    HashedAt(t.chains, b, i);
    RecordTarget(s, s.recs[x], x);
  }

  /** An answer of a lookup by name is outdated at the end exactly when the lookup has freed its target. */
  lemma {:induction false} AnswerTarget(s: State, name: string, prot: set<Flag>, now: int, x: Id)
    requires Inv(s)
    requires var f := Lookup(s, Name(name, prot), now); x in f.hosts || x in f.cached
    ensures var t := Lookup(s, Name(name, prot), now).state;
            x in t.recs && (Outdated(t.recs, t.recs[x]) <==> TargetFreed(s, t, t.recs[x]))
  {
    hide Inv, Find, Bucket, Outdated, Hashed;
    HasChains(s);
    AnswerFate(s, Bucket(s.mix, name, |s.chains|), 0, Name(name, prot), now, None, None, x);
  }

  // ----- A lookup that answers with an alias it makes outdated.

  /** Record 0 is an alias for record 1, which has expired and stands behind it in the same chain. */
  ghost function StaleState(mix: bv32 -> bv32, alias: string, target: string): State {
    var b := Bucket(mix, alias, 64);
    State(2, mix,
          map[0 := Record({Forward, Cname}, alias, 100, 0, Address(0, 0), Some(1), 1),
              1 := Record({Forward, Ipv4}, target, 10, 1, Address(0, 0), None, 0)],
          [0, 1], seq(64, c => if c == b then [0, 1] else []), [], map[], 0, 0, 2)
  }

  lemma {:induction false} StaleInv(mix: bv32 -> bv32, alias: string, target: string)
    requires Bucket(mix, alias, 64) == Bucket(mix, target, 64)
    ensures Inv(StaleState(mix, alias, target))
  {
    hide Bucket, TableOk, PoolOk, BigCount, Hashed;
    var s := StaleState(mix, alias, target);
    var b := Bucket(mix, alias, 64);
    StaleTable(mix, alias, target);
    assert BigCount(s.recs, 2) == 0 by { StaleBig(s.recs); }
    assert PoolOk(2, s.lru, s.pending) by { StalePool(); }
    forall x: Id ensures Hashed(s.chains, x) <==> x < 2 { StaleHashed(s.chains, b, x); }
  }

  lemma {:induction false} StaleHashed(chains: seq<seq<Id>>, b: nat, x: Id)
    requires b < |chains| && chains[b] == [0, 1] && forall c | 0 <= c < |chains| && c != b :: chains[c] == []
    ensures Hashed(chains, x) <==> x < 2
  {
    if x < 2 { assert x in chains[b]; }
  }

  lemma {:induction false} StalePool()
    ensures PoolOk(2, [0, 1], [])
  {
    assert Ids(2) == {0, 1};
  }

  lemma {:induction false} StaleBig(recs: map<Id, Record>)
    requires 0 in recs && 1 in recs && BigName !in recs[0].flags && BigName !in recs[1].flags
    ensures BigCount(recs, 2) == 0
  {
    assert BigCount(recs, 1) == 0;
  }

  lemma {:induction false} StaleTable(mix: bv32 -> bv32, alias: string, target: string)
    requires Bucket(mix, alias, 64) == Bucket(mix, target, 64)
    ensures var s := StaleState(mix, alias, target); TableOk(mix, s.recs, s.chains)
  {
    hide Bucket;
  }

  /** The lookup by name is not exact about aliases: here its one answer is outdated when it returns. */
  lemma {:induction false} StaleAnswer(mix: bv32 -> bv32, alias: string, target: string)
    requires Bucket(mix, alias, 64) == Bucket(mix, target, 64) && !SameName(target, alias)
    ensures Inv(StaleState(mix, alias, target))
    ensures var f := Lookup(StaleState(mix, alias, target), Name(alias, {Cname}), 50);
            && f.hosts == [] && f.cached == [0]
            && 0 in f.state.recs && !Expired(f.state.recs[0], 50) && Outdated(f.state.recs, f.state.recs[0])
  {
    hide Inv, Bucket, Find, Remove, Answer, NextTo, SameName, ToOk, Hashed;
    var s, ask := StaleState(mix, alias, target), Name(alias, {Cname});
    StaleInv(mix, alias, target);
    var b := Bucket(mix, alias, 64);
    SelfWanted(s.recs[0], alias);
    assert ToOk(s, b, 0, None) by { NoPlace(s, b); }
    FindUnfold(s, b, 0, ask, 50, None, None);
    var t, to := Answer(s, b, 0, None, None), NextTo(s, b, 0, None, ask);
    AnswerChain(s, b, 0, None, None);
    AnswerFramed(s, b, 0, None, None);
    assert t.chains[b][1] == 1;
    FindUnfold(t, b, 1, ask, 50, to, None);
    var u := Remove(t, b, 1);
    StaleRemoved(t, b);
    FindUnfold(u, b, 1, ask, 50, to, None);
  }

  lemma {:induction false} SelfWanted(r: Record, alias: string)
    requires Forward in r.flags && Cname in r.flags && r.name == alias
    ensures Wanted(r, Name(alias, {Cname}))
  {
    assert Cname in r.flags * {Cname};
  }

  lemma {:induction false} StaleRemoved(t: State, b: nat)
    requires Inv(t) && b < |t.chains| && |t.chains[b]| == 2 && t.chains[b][1] == 1 && t.n == 2 && t.uid == 2
    requires 0 in t.recs && 1 in t.recs && t.recs[0].target == Some(1) && t.recs[0].targetUid == 1 && Cname in t.recs[0].flags
    ensures var u := Remove(t, b, 1);
            |u.chains[b]| == 1 && 0 in u.recs && u.recs[0] == t.recs[0] && Outdated(u.recs, u.recs[0])
  {
    hide TableOk, UsedPrefix, BigOk, UidOk, PoolOk, RecordOk, StaticOk, Hashed, RemoveAt;
    HashedRecord(t, b, 1);
  }
}
