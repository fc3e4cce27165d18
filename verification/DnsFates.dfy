/** What a lookup takes out of the table and what it answers, in terms of the table it starts from. */
module DnsFates {
  import opened DnsRecords
  import opened Options
  import opened Sequences
  import opened DnsSteps
  import opened DnsScan
  import opened DnsLookup
  import opened DnsAnswers
  import opened DnsInsert
  import opened DnsAliases

  /** r is an alias for the pool record id. */
  ghost predicate AimsAt(r: Record, n: nat, id: Id) { Cname in r.flags && r.target == Some(id) && id < n }

  /** Record i of a chain leaves it when a walk along the chain takes out what meets `goes` and outdated
      aliases: it does so itself, or it is an alias for a pool record in front of it that leaves. */
  ghost predicate Falls(recs: map<Id, Record>, n: nat, chain: seq<Id>, i: nat, goes: Record -> bool)
    requires i < |chain|
  {
    && chain[i] in recs
    && var r := recs[chain[i]];
       goes(r) || Outdated(recs, r) || exists j: nat :: j < i && AimsAt(r, n, chain[j]) && Falls(recs, n, chain, j, goes)
  }

  /** Record i of the chain stays and answers the question, as a hosts or DHCP record or not. */
  ghost predicate Replies(recs: map<Id, Record>, n: nat, chain: seq<Id>, i: nat, ask: Ask, goes: Record -> bool, host: bool)
    requires i < |chain|
  {
    chain[i] in recs && !Falls(recs, n, chain, i, goes) && Wanted(recs[chain[i]], ask) && Static(recs[chain[i]]) == host
  }

  /** The answers among the first m records of the chain, in chain order. */
  ghost function Met(recs: map<Id, Record>, n: nat, chain: seq<Id>, m: nat, ask: Ask, goes: Record -> bool, host: bool): seq<Id>
    requires m <= |chain|
  {
    if m == 0 then []
    else Met(recs, n, chain, m - 1, ask, goes, host) + if Replies(recs, n, chain, m - 1, ask, goes, host) then [chain[m - 1]] else []
  }

  /** The records after the first are the same in both tables, and out of date in the second if they were
      before or the first falls and they are aliases for it. */
  ghost predicate Leads(recs: map<Id, Record>, recs': map<Id, Record>, n: nat, chain: seq<Id>, goes: Record -> bool)
    requires chain != []
  {
    forall q: nat | 1 <= q < |chain| ::
      && chain[q] in recs && chain[q] in recs' && recs'[chain[q]] == recs[chain[q]]
      && (Outdated(recs', recs[chain[q]]) <==>
            Outdated(recs, recs[chain[q]]) || (Falls(recs, n, chain, 0, goes) && AimsAt(recs[chain[q]], n, chain[0])))
  }

  /** The fate of the later records can be read off the rest of the chain. */
  lemma {:induction false} FallsNext(recs: map<Id, Record>, recs': map<Id, Record>, n: nat, chain: seq<Id>, i: nat, goes: Record -> bool)
    requires chain != [] && Leads(recs, recs', n, chain, goes) && 1 <= i < |chain|
    ensures Falls(recs', n, chain[1..], i - 1, goes) <==> Falls(recs, n, chain, i, goes)
  {
    hide Outdated, AimsAt;
    var rest, r := chain[1..], recs[chain[i]];
    forall j: nat | 1 <= j < i ensures Falls(recs', n, rest, j - 1, goes) <==> Falls(recs, n, chain, j, goes) {
      FallsNext(recs, recs', n, chain, j, goes);
    }
    forall j: nat | j < |rest| ensures rest[j] == chain[j + 1] { }
    if Falls(recs, n, chain, i, goes) && !goes(r) && !Outdated(recs, r) {
      var j: nat :| j < i && AimsAt(r, n, chain[j]) && Falls(recs, n, chain, j, goes);
      if j > 0 { assert AimsAt(r, n, rest[j - 1]); }
    }
    if Falls(recs', n, rest, i - 1, goes) && !goes(r) && !Outdated(recs', r) {
      var j: nat :| j < i - 1 && AimsAt(r, n, rest[j]) && Falls(recs', n, rest, j, goes);
      assert AimsAt(r, n, chain[j + 1]);
    }
  }

  lemma {:induction false} MetNext(recs: map<Id, Record>, recs': map<Id, Record>, n: nat, chain: seq<Id>, m: nat, ask: Ask, goes: Record -> bool, host: bool)
    requires chain != [] && Leads(recs, recs', n, chain, goes) && 1 <= m <= |chain|
    ensures Met(recs, n, chain, m, ask, goes, host)
         == (if Replies(recs, n, chain, 0, ask, goes, host) then [chain[0]] else []) + Met(recs', n, chain[1..], m - 1, ask, goes, host)
  {
    hide Falls, Wanted, Static, Leads;
    if m == 1 {
      assert Met(recs, n, chain, 0, ask, goes, host) == [];
    } else {
      MetNext(recs, recs', n, chain, m - 1, ask, goes, host);
      FallsNext(recs, recs', n, chain, m - 1, goes);
      SameLater(recs, recs', n, chain, m - 1, goes);
    }
  }

  lemma {:induction false} SameLater(recs: map<Id, Record>, recs': map<Id, Record>, n: nat, chain: seq<Id>, q: nat, goes: Record -> bool)
    requires chain != [] && Leads(recs, recs', n, chain, goes) && 1 <= q < |chain|
    ensures chain[q] in recs && chain[q] in recs' && recs'[chain[q]] == recs[chain[q]]
  {
    hide Falls;
  }

  // ----- The steps of the walk.

  /** What a lookup takes out. */
  ghost function Lapsed(now: int): Record -> bool { r => Expired(r, now) }

  lemma {:induction false} FallsFirst(s: State, b: nat, k: nat, ask: Ask, now: int)
    requires Inv(s) && b < |s.chains| && k < |s.chains[b]| && ask.Name?
    ensures s.chains[b][k] in s.recs
    ensures Falls(s.recs, s.n, s.chains[b][k..], 0, Lapsed(now)) <==> Gone(s.recs, s.recs[s.chains[b][k]], ask, now)
  {
    hide Inv, Expired, Outdated;
    HashedRecord(s, b, k);
  }

  lemma {:induction false} LeadsRemove(s: State, b: nat, k: nat, goes: Record -> bool)
    requires Inv(s) && b < |s.chains| && k < |s.chains[b]| && Falls(s.recs, s.n, s.chains[b][k..], 0, goes)
    ensures Leads(s.recs, Remove(s, b, k).recs, s.n, s.chains[b][k..], goes)
    ensures Remove(s, b, k).chains[b][k..] == s.chains[b][k..][1..]
  {
    hide Inv, Remove, Outdated, Falls, Hashed;
    var t, chain := Remove(s, b, k), s.chains[b];
    forall q: nat | k < q < |chain|
      ensures chain[q] in s.recs && chain[q] in t.recs && t.recs[chain[q]] == s.recs[chain[q]]
      ensures Outdated(t.recs, s.recs[chain[q]]) <==> Outdated(s.recs, s.recs[chain[q]]) || AimsAt(s.recs[chain[q]], s.n, chain[k])
    {
      LeadsLater(s, b, k, q);
    }
    assert forall q: nat | 1 <= q < |chain| - k :: chain[k..][q] == chain[k + q];
  }

  lemma {:induction false} LeadsLater(s: State, b: nat, k: nat, q: nat)
    requires Inv(s) && b < |s.chains| && k < q < |s.chains[b]|
    ensures var t, id := Remove(s, b, k), s.chains[b][q];
            && id in s.recs && id in t.recs && t.recs[id] == s.recs[id]
            && (Outdated(t.recs, s.recs[id]) <==> Outdated(s.recs, s.recs[id]) || AimsAt(s.recs[id], s.n, s.chains[b][k]))
  {
    hide Inv, Remove, Outdated, Hashed;
    var t, id := Remove(s, b, k), s.chains[b][q];
    HashedRecord(s, b, q);
    RemoveUndisturbed(s, b, k);
    HashedAt(t.chains, b, q - 1);
    RecordTarget(s, s.recs[id], id);
    if Outdated(s.recs, s.recs[id]) { RemoveOutdated(s, b, k, s.recs[id]); } else { RemoveTarget(s, b, k, s.recs[id]); }
  }

  lemma {:induction false} LeadsSame(s: State, b: nat, k: nat, goes: Record -> bool)
    requires Inv(s) && b < |s.chains| && k < |s.chains[b]| && !Falls(s.recs, s.n, s.chains[b][k..], 0, goes)
    ensures Leads(s.recs, s.recs, s.n, s.chains[b][k..], goes)
  {
    hide Inv, Falls, Outdated;
    forall q: nat | k < q < |s.chains[b]| ensures s.chains[b][q] in s.recs { HashedRecord(s, b, q); }
  }

  /** The walk from record k on: the answers in chain order, and who is left in the chain. */
  ghost predicate Walked(s: State, b: nat, k: nat, ask: Ask, now: int, f: Found)
    requires b < |s.chains| && k <= |s.chains[b]| && b < |f.state.chains|
  {
    var rest := s.chains[b][k..];
    && f.hosts == Met(s.recs, s.n, rest, |rest|, ask, Lapsed(now), true)
    && f.cached == Met(s.recs, s.n, rest, |rest|, ask, Lapsed(now), false)
    && forall i: nat | i < |rest| :: rest[i] in f.state.chains[b] <==> !Falls(s.recs, s.n, rest, i, Lapsed(now))
  }

  /** A step over a record, answer or not. */
  lemma {:induction false} WalkedNext(s: State, t: State, b: nat, k: nat, k': nat, ask: Ask, now: int, f: Found, g: Found)
    requires b < |s.chains| && k < |s.chains[b]| && b < |t.chains| && k' <= |t.chains[b]| && b < |f.state.chains|
    requires Walked(t, b, k', ask, now, f) && t.n == s.n && t.chains[b][k'..] == s.chains[b][k..][1..]
    requires Leads(s.recs, t.recs, s.n, s.chains[b][k..], Lapsed(now)) && g.state == f.state
    requires s.chains[b][k] in f.state.chains[b] <==> !Falls(s.recs, s.n, s.chains[b][k..], 0, Lapsed(now))
    requires s.chains[b][k] in s.recs
    requires var r, id := s.recs[s.chains[b][k]], s.chains[b][k];
             g == if !Falls(s.recs, s.n, s.chains[b][k..], 0, Lapsed(now)) && Wanted(r, ask) then Prepend(f, id, Static(r)).(last := g.last) else f.(last := g.last)
    ensures Walked(s, b, k, ask, now, g)
  {
    hide Falls, Wanted, Static, Leads, Met;
    var rest := s.chains[b][k..];
    MetNext(s.recs, t.recs, s.n, rest, |rest|, ask, Lapsed(now), true);
    MetNext(s.recs, t.recs, s.n, rest, |rest|, ask, Lapsed(now), false);
    forall i: nat | i < |rest| ensures rest[i] in g.state.chains[b] <==> !Falls(s.recs, s.n, rest, i, Lapsed(now)) {
      if i > 0 {
        FallsNext(s.recs, t.recs, s.n, rest, i, Lapsed(now));
        assert rest[1..][i - 1] == rest[i];
      }
    }
  }

  lemma {:induction false} RemovedLeaves(s: State, b: nat, k: nat, ask: Ask, now: int, to: Option<nat>, last: Option<Id>)
    requires Inv(s) && b < |s.chains| && k < |s.chains[b]| && ToOk(Remove(s, b, k), b, k, to)
    ensures s.chains[b][k] !in Find(Remove(s, b, k), b, k, ask, now, to, last).state.chains[b]
  {
    hide Inv, Remove, Find, ToOk, Undisturbed;
    var t := Remove(s, b, k);
    var f := Find(t, b, k, ask, now, to, last);
    FindUndisturbed(t, b, k, ask, now, to, last);
    ChainDistinct(s, b);
    RemoveAtMembers(s.chains[b], k, s.chains[b][k]);
    if s.chains[b][k] in f.state.chains[b] { StaysIn(t, f.state, b, s.chains[b][k]); }
  }

  lemma {:induction false} KeptStays(s: State, b: nat, k: nat, ask: Ask, now: int, to: Option<nat>, last: Option<Id>, x: Id)
    requires Inv(s) && b < |s.chains| && k <= |s.chains[b]| && ToOk(s, b, k, to) && Passed(s.chains[b], k, x)
    ensures x in Find(s, b, k, ask, now, to, last).state.chains[b]
  {
    hide Inv, Find, ToOk, Passed, Exact;
    FindExact(s, b, k, ask, now, to, last);
    PassedStays(s, b, k, ask, now, Find(s, b, k, ask, now, to, last), x);
  }

  lemma {:induction false} FindFate(s: State, b: nat, k: nat, ask: Ask, now: int, to: Option<nat>, last: Option<Id>)
    requires Inv(s) && b < |s.chains| && k <= |s.chains[b]| && ToOk(s, b, k, to) && ask.Name?
    ensures Walked(s, b, k, ask, now, Find(s, b, k, ask, now, to, last))
    decreases |s.chains[b]| - k
  {
    hide Inv, Gone, Ends, Wanted, Static, Remove, Answer, ToOk, NextTo, Falls, Leads, Passed, Walked, Find;
    var f := Find(s, b, k, ask, now, to, last);
    FindUnfold(s, b, k, ask, now, to, last);
    if k == |s.chains[b]| {
      NothingWalked(s, b, ask, now, last);
    } else {
      FallsFirst(s, b, k, ask, now);
      var id := s.chains[b][k];
      var r := s.recs[id];
      NeverEnds(s.recs, r, ask);
      if Gone(s.recs, r, ask, now) {
        var t := Remove(s, b, k);
        LeadsRemove(s, b, k, Lapsed(now));
        FindFate(t, b, k, ask, now, to, last);
        RemovedLeaves(s, b, k, ask, now, to, last);
        WalkedNext(s, t, b, k, k, ask, now, f, f);
      } else {
        LeadsSame(s, b, k, Lapsed(now));
        if Wanted(r, ask) {
          AnswerWalked(s, b, k, ask, now, to, last);
        } else {
          FindFate(s, b, k + 1, ask, now, to, last);
          PassedNext(s.chains[b], k, id);
          KeptStays(s, b, k + 1, ask, now, to, last, id);
          WalkedNext(s, s, b, k, k + 1, ask, now, f, f);
        }
      }
    }
  }

  lemma {:induction false} NothingWalked(s: State, b: nat, ask: Ask, now: int, last: Option<Id>)
    requires b < |s.chains|
    ensures Walked(s, b, |s.chains[b]|, ask, now, Found(s, [], [], last))
  {
  }

  lemma {:induction false} AnswerWalked(s: State, b: nat, k: nat, ask: Ask, now: int, to: Option<nat>, last: Option<Id>)
    requires Inv(s) && b < |s.chains| && k < |s.chains[b]| && ToOk(s, b, k, to) && ask.Name? && s.chains[b][k] in s.recs
    requires var r := s.recs[s.chains[b][k]]; !Ends(r, ask) && !Gone(s.recs, r, ask, now) && Wanted(r, ask)
    requires !Falls(s.recs, s.n, s.chains[b][k..], 0, Lapsed(now)) && Leads(s.recs, s.recs, s.n, s.chains[b][k..], Lapsed(now))
    ensures Walked(s, b, k, ask, now, Find(s, b, k, ask, now, to, last))
    decreases |s.chains[b]| - k, 0
  {
    hide Inv, Gone, Ends, Wanted, Static, Answer, ToOk, NextTo, Falls, Leads, Passed, Walked, Find;
    var f := Find(s, b, k, ask, now, to, last);
    FindUnfold(s, b, k, ask, now, to, last);
    var id := s.chains[b][k];
    var t, to', l := Answer(s, b, k, to, last), NextTo(s, b, k, to, ask), if Static(s.recs[id]) then Some(id) else last;
    AnswerChain(s, b, k, to, last);
    FindFate(t, b, k + 1, ask, now, to', l);
    KeptStays(t, b, k + 1, ask, now, to', l, id);
    assert t.chains[b][k + 1..] == s.chains[b][k..][1..];
    WalkedNext(s, t, b, k, k + 1, ask, now, Find(t, b, k + 1, ask, now, to', l), f);
  }

  // ----- Lookups by address.

  lemma {:induction false} AddrClean(s: State, b: nat, ask: Ask, now: int, last: Option<Id>, x: Id)
    requires Inv(s) && b < |s.chains| && ask.Addr?
    requires x in Find(s, b, 0, ask, now, None, last).state.chains[b]
    ensures x in s.recs && (Reverse in s.recs[x].flags ==> !Expired(s.recs[x], now))
  {
    hide Inv, Find, Wanted, Static, Expired, Distinct, Passed;
    var f := Find(s, b, 0, ask, now, None, last);
    FindExact(s, b, 0, ask, now, None, last);
    FindUndisturbed(s, b, 0, ask, now, None, last);
    NothingPassed(s.chains[b], x);
    SameInChain(s, f.state, b, x);
  }

  lemma {:induction false} NothingPassed(chain: seq<Id>, x: Id)
    ensures !Passed(chain, 0, x)
  {
  }

  /** Through all chains: no reverse record that is left has expired. */
  lemma {:induction false} AddrAllClean(s: State, b: nat, ask: Ask, now: int, last: Option<Id>, x: Id)
    requires Inv(s) && b <= |s.chains| && ask.Addr? && InChains(FindInAll(s, b, ask, now, last).state, b, x)
    ensures x in s.recs && (Reverse in s.recs[x].flags ==> !Expired(s.recs[x], now))
    decreases |s.chains| - b
  {
    hide Inv, Find, Expired, InChains, Undisturbed;
    var t := FindInAll(s, b, ask, now, last).state;
    if b == |s.chains| {
      NoneBeyond(t, x);
    } else {
      var f := Find(s, b, 0, ask, now, None, last);
      FindUndisturbed(s, b, 0, ask, now, None, last);
      FindInAllUndisturbed(f.state, b + 1, ask, now, f.last);
      ChainsSplit(t, b, x);
      if x in t.chains[b] {
        AddrClean(s, b, ask, now, last, x);
      } else {
        AddrAllClean(f.state, b + 1, ask, now, f.last, x);
        InChainsSame(f.state, t, b + 1, x);
        HashedSame(s, f.state, x);
      }
    }
  }

  lemma {:induction false} NoneBeyond(t: State, x: Id)
    ensures !InChains(t, |t.chains|, x)
  {
  }

  lemma {:induction false} InChainsSame(s: State, t: State, b: nat, x: Id)
    requires Undisturbed(s, t) && InChains(t, b, x)
    ensures x in s.recs && x in t.recs && t.recs[x] == s.recs[x] && Hashed(s.chains, x)
  {
    assert Hashed(t.chains, x);
  }

  /** What the walk through the chains takes out is expired reverse records. */
  lemma {:induction false} AddrAllRemoves(s: State, b: nat, ask: Ask, now: int, last: Option<Id>, x: Id)
    requires Inv(s) && b <= |s.chains| && ask.Addr?
    requires Hashed(s.chains, x) && !Hashed(FindInAll(s, b, ask, now, last).state.chains, x)
    ensures x in s.recs && Reverse in s.recs[x].flags && Expired(s.recs[x], now)
    decreases |s.chains| - b
  {
    hide Inv, Find, Expired, Hashed, Undisturbed;
    if b < |s.chains| {
      var f := Find(s, b, 0, ask, now, None, last);
      if Hashed(f.state.chains, x) {
        AddrAllRemoves(f.state, b + 1, ask, now, f.last, x);
        FindUndisturbed(s, b, 0, ask, now, None, last);
        HashedSame(s, f.state, x);
      } else {
        FindRemoves(s, b, 0, ask, now, None, last, x);
      }
    }
  }

  lemma {:induction false} HashedSame(s: State, t: State, x: Id)
    requires Undisturbed(s, t) && Hashed(t.chains, x)
    ensures Hashed(s.chains, x) && x in s.recs && x in t.recs && t.recs[x] == s.recs[x]
  {
    hide Hashed;
  }

  // ----- Whole lookups.

  /** A lookup takes x out of the table: by name, the records of the name's chain that fall; by address,
      the expired reverse records of every chain. */
  ghost predicate Struck(s: State, ask: Ask, now: int, x: Id)
    requires |s.chains| > 0
  {
    match ask
    case Name(name, _) => FallsIn(s, Bucket(s.mix, name, |s.chains|), now, x)
    case Addr(_, _) => x in s.recs && Reverse in s.recs[x].flags && Expired(s.recs[x], now)
  }

  ghost predicate FallsIn(s: State, b: nat, now: int, x: Id)
    requires b < |s.chains|
  {
    exists i: nat :: i < |s.chains[b]| && s.chains[b][i] == x && Falls(s.recs, s.n, s.chains[b], i, Lapsed(now))
  }

  lemma {:induction false} NameHashed(s: State, b: nat, ask: Ask, now: int, x: Id)
    requires Inv(s) && b < |s.chains| && ask.Name?
    ensures Hashed(Find(s, b, 0, ask, now, None, None).state.chains, x) <==> Hashed(s.chains, x) && !FallsIn(s, b, now, x)
  {
    hide Inv, Find, Falls, Undisturbed, Met;
    var t := Find(s, b, 0, ask, now, None, None).state;
    FindUndisturbed(s, b, 0, ask, now, None, None);
    FindFate(s, b, 0, ask, now, None, None);
    assert s.chains[b][0..] == s.chains[b];
    if x in s.chains[b] {
      OnlyIn(s, b, x);
      if x in t.chains[b] { OnlyIn(t, b, x); }
      var i := IndexOf(s.chains[b], x);
      ChainDistinct(s, b);
      if x !in t.chains[b] { NotElsewhere(s, t, b, x); }
    } else {
      if x in t.chains[b] { StaysIn(s, t, b, x); }
      if Hashed(t.chains, x) { HashedSame(s, t, x); }
      if Hashed(s.chains, x) {
        var c :| 0 <= c < |s.chains| && x in s.chains[c];
        assert x in t.chains[c];
      }
    }
  }

  lemma {:induction false} NotElsewhere(s: State, t: State, b: nat, x: Id)
    requires Inv(s) && b < |s.chains| == |t.chains| && x in s.chains[b] && x !in t.chains[b]
    requires forall c | 0 <= c < |s.chains| && c != b :: t.chains[c] == s.chains[c]
    ensures !Hashed(t.chains, x)
  {
    hide Inv;
    OnlyIn(s, b, x);
  }

  lemma {:induction false} OnlyIn(s: State, b: nat, x: Id)
    requires Inv(s) && b < |s.chains| && x in s.chains[b]
    ensures Hashed(s.chains, x) && forall c: nat | c < |s.chains| && x in s.chains[c] :: c == b
  {
    hide PoolOk, UsedPrefix, BigOk, UidOk, RecordOk, StaticOk, ChainOk;
    forall c: nat | c < |s.chains| && x in s.chains[c] ensures c == b { OneChain(s.mix, s.recs, s.chains, b, c, x); }
  }

  /** The table after a lookup is the table before without the records it strikes: nothing else goes, and
      none of those stays. */
  lemma {:induction false} LookupRemoves(s: State, ask: Ask, now: int, x: Id)
    requires Inv(s)
    ensures |s.chains| > 0
    ensures Hashed(Lookup(s, ask, now).state.chains, x) <==> Hashed(s.chains, x) && !Struck(s, ask, now, x)
  {
    hide Inv, Walk, Lookup, Find, FindInAll, Bucket, Expired, FallsIn, Hashed, Undisturbed;
    HasChains(s);
    LookupFields(s, ask, now);
    WalkIs(s, ask, now);
    match ask
    case Name(name, _) => NameHashed(s, Bucket(s.mix, name, |s.chains|), ask, now, x);
    case Addr(_, _) =>
      var t := FindInAll(s, 0, ask, now, None).state;
      FindInAllUndisturbed(s, 0, ask, now, None);
      if Hashed(t.chains, x) {
        HashedSame(s, t, x);
        HashedIsInChains(t, x);
        AddrAllClean(s, 0, ask, now, None, x);
      } else if Hashed(s.chains, x) {
        AddrAllRemoves(s, 0, ask, now, None, x);
      }
  }

  lemma {:induction false} WalkIs(s: State, ask: Ask, now: int)
    requires Inv(s) && |s.chains| > 0
    ensures match ask
            case Name(name, _) => Walk(s, ask, now) == Find(s, Bucket(s.mix, name, |s.chains|), 0, ask, now, None, None)
            case Addr(_, _) => Walk(s, ask, now) == FindInAll(s, 0, ask, now, None)
  {
    hide Inv, Find, FindInAll, Bucket;
  }

  /** A lookup answers, on the table it starts from, with exactly the records of the question that it does
      not strike. */
  lemma {:induction false} LookupAnswers(s: State, ask: Ask, now: int, x: Id)
    requires Inv(s)
    ensures |s.chains| > 0
    ensures var f := Lookup(s, ask, now);
            x in f.hosts || x in f.cached <==>
            Hashed(s.chains, x) && x in s.recs && Wanted(s.recs[x], ask) && !Struck(s, ask, now, x)
  {
    hide Inv, Lookup, Bucket, Wanted, Static, Expired, Distinct, Struck, InChains, Hashed, Undisturbed;
    var f := Lookup(s, ask, now);
    LookupRemoves(s, ask, now, x);
    LookupExact(s, ask, now);
    HashedIsInChains(f.state, x);
    if Hashed(f.state.chains, x) { HashedSame(s, f.state, x); }
  }

  /** ids lists, once each, the records of the table that answer the question and are not struck. */
  ghost predicate AnswersTo(s: State, ask: Ask, now: int, ids: seq<Id>) {
    && |s.chains| > 0 && Distinct(ids)
    && forall x :: x in ids <==> Hashed(s.chains, x) && x in s.recs && Wanted(s.recs[x], ask) && !Struck(s, ask, now, x)
  }

  /** The table of t is that of s without the struck records. */
  ghost predicate StruckOut(s: State, t: State, ask: Ask, now: int) {
    |s.chains| > 0 && forall x :: Hashed(t.chains, x) <==> Hashed(s.chains, x) && !Struck(s, ask, now, x)
  }

  /** A lookup in terms of the table it starts from: what it answers, in iteration order, and what it leaves. */
  lemma {:induction false} LookupMeaning(s: State, ask: Ask, now: int)
    requires Inv(s)
    ensures AnswersTo(s, ask, now, Answers(Lookup(s, ask, now)))
    ensures StruckOut(s, Lookup(s, ask, now).state, ask, now)
  {
    hide Inv, Lookup, Wanted, Static, Expired, Struck, InChains, Hashed, Undisturbed, Distinct, Rev;
    var f := Lookup(s, ask, now);
    HasChains(s);
    LookupExact(s, ask, now);
    RevDistinct(f.cached);
    forall x ensures x in Rev(f.cached) <==> x in f.cached { RevMembers(f.cached, x); }
    forall x | x in f.hosts ensures x !in f.cached { }
    ConcatDistinct(f.hosts, Rev(f.cached));
    forall x
      ensures x in Answers(f) <==> Hashed(s.chains, x) && x in s.recs && Wanted(s.recs[x], ask) && !Struck(s, ask, now, x)
      ensures Hashed(f.state.chains, x) <==> Hashed(s.chains, x) && !Struck(s, ask, now, x)
    {
      LookupAnswers(s, ask, now, x);
      LookupRemoves(s, ask, now, x);
    }
  }

  lemma {:induction false} RevDistinct(s: seq<Id>)
    requires Distinct(s)
    ensures Distinct(Rev(s))
  {
    if s != [] {
      forall i, j | 0 <= i < j < |s| - 1 ensures s[1..][i] != s[1..][j] { assert s[1..][i] == s[i + 1] && s[1..][j] == s[j + 1]; }
      RevDistinct(s[1..]);
      RevMembers(s[1..], s[0]);
      OneIsDistinct(s[0]);
      ConcatDistinct(Rev(s[1..]), [s[0]]);
    }
  }

  lemma {:induction false} OneIsDistinct(x: Id)
    ensures Distinct([x])
  {
  }

  /** The answers of a lookup by name, in order: those of the name's chain as it was, in chain order. */
  lemma {:induction false} NameAnswers(s: State, name: string, prot: set<Flag>, now: int)
    requires Inv(s)
    ensures |s.chains| > 0
    ensures var f, chain := Lookup(s, Name(name, prot), now), s.chains[Bucket(s.mix, name, |s.chains|)];
            && f.hosts == Met(s.recs, s.n, chain, |chain|, Name(name, prot), Lapsed(now), true)
            && f.cached == Met(s.recs, s.n, chain, |chain|, Name(name, prot), Lapsed(now), false)
  {
    hide Inv, Walk, Lookup, Find, Bucket, Met, Falls;
    HasChains(s);
    LookupFields(s, Name(name, prot), now);
    WalkIs(s, Name(name, prot), now);
    var b := Bucket(s.mix, name, |s.chains|);
    FindFate(s, b, 0, Name(name, prot), now, None, None);
    assert s.chains[b][0..] == s.chains[b];
  }

  /** A lookup by name never answers with an alias that is outdated when it begins. */
  lemma {:induction false} LookupSkipsOutdated(s: State, name: string, prot: set<Flag>, now: int, x: Id)
    requires Inv(s) && x in s.recs && Outdated(s.recs, s.recs[x])
    ensures var f := Lookup(s, Name(name, prot), now); x !in f.hosts && x !in f.cached
  {
    hide Inv, Lookup, Bucket, Wanted, Expired, Outdated, Hashed;
    LookupAnswers(s, Name(name, prot), now, x);
    var f := Lookup(s, Name(name, prot), now);
    if x in f.hosts || x in f.cached { InItsChain(s, Name(name, prot), now, x); }
  }

  lemma {:induction false} InItsChain(s: State, ask: Ask, now: int, x: Id)
    requires Inv(s) && |s.chains| > 0 && ask.Name? && Hashed(s.chains, x) && x in s.recs && Wanted(s.recs[x], ask)
    ensures x in s.chains[Bucket(s.mix, ask.name, |s.chains|)]
  {
    hide Inv, Bucket, Wanted, Hashed;
    HashedIsInChains(s, x);
    NameChain(s, ask, x);
  }

  /** Exactly when an answer of a lookup by name is an outdated alias at the end: its target stands behind
      it in the same chain and falls. */
  lemma {:induction false} LookupAliases(s: State, name: string, prot: set<Flag>, now: int, i: nat)
    requires Inv(s) && |s.chains| > 0
    requires i < |s.chains[Bucket(s.mix, name, |s.chains|)]|
    ensures var f, chain := Lookup(s, Name(name, prot), now), s.chains[Bucket(s.mix, name, |s.chains|)];
            var t := f.state;
            chain[i] in f.hosts || chain[i] in f.cached ==>
              && chain[i] in s.recs && chain[i] in t.recs && t.recs[chain[i]] == s.recs[chain[i]]
              && (Outdated(t.recs, t.recs[chain[i]]) <==>
                    exists j: nat :: i < j < |chain| && AimsAt(s.recs[chain[i]], s.n, chain[j]) && Falls(s.recs, s.n, chain, j, Lapsed(now)))
  {
    hide Inv, Lookup, Bucket;
    var f, x := Lookup(s, Name(name, prot), now), s.chains[Bucket(s.mix, name, |s.chains|)][i];
    if x in f.hosts || x in f.cached { AnsweredAlias(s, name, prot, now, i); }
  }

  lemma {:induction false} AnsweredAlias(s: State, name: string, prot: set<Flag>, now: int, i: nat)
    requires Inv(s) && |s.chains| > 0
    requires i < |s.chains[Bucket(s.mix, name, |s.chains|)]|
    requires var f := Lookup(s, Name(name, prot), now);
             var x := s.chains[Bucket(s.mix, name, |s.chains|)][i]; x in f.hosts || x in f.cached
    ensures var t, chain := Lookup(s, Name(name, prot), now).state, s.chains[Bucket(s.mix, name, |s.chains|)];
            && chain[i] in s.recs && chain[i] in t.recs && t.recs[chain[i]] == s.recs[chain[i]]
            && (Outdated(t.recs, t.recs[chain[i]]) <==>
                  exists j: nat :: i < j < |chain| && AimsAt(s.recs[chain[i]], s.n, chain[j]) && Falls(s.recs, s.n, chain, j, Lapsed(now)))
  {
    hide Inv, Lookup, Bucket, Wanted, Static, Expired, Outdated, Hashed, Undisturbed, Struck, InChains;
    var ask, b := Name(name, prot), Bucket(s.mix, name, |s.chains|);
    var chain := s.chains[b];
    var x, t := chain[i], Lookup(s, ask, now).state;
    LookupExact(s, ask, now);
    HashedIsInChains(t, x);
    HashedSame(s, t, x);
    AnswerTarget(s, name, prot, now, x);
    LookupRemoves(s, ask, now, x);
    var r := s.recs[x];
    StruckByName(s, ask, now, x);
    NotFallen(s, b, now, i);
    if r.target.Some? {
      LookupRemoves(s, ask, now, r.target.value);
      StruckByName(s, ask, now, r.target.value);
    }
    TargetFalls(s, t, b, now, i);
  }

  lemma {:induction false} StruckByName(s: State, ask: Ask, now: int, x: Id)
    requires |s.chains| > 0 && ask.Name?
    ensures Struck(s, ask, now, x) <==> FallsIn(s, Bucket(s.mix, ask.name, |s.chains|), now, x)
  {
    hide Bucket, FallsIn;
  }

  lemma {:induction false} NotFallen(s: State, b: nat, now: int, i: nat)
    requires b < |s.chains| && i < |s.chains[b]| && !FallsIn(s, b, now, s.chains[b][i])
    ensures !Falls(s.recs, s.n, s.chains[b], i, Lapsed(now))
  {
    hide Falls;
  }

  lemma {:induction false} TargetFalls(s: State, t: State, b: nat, now: int, i: nat)
    requires Inv(s) && b < |s.chains| && i < |s.chains[b]| && s.chains[b][i] in s.recs && !Falls(s.recs, s.n, s.chains[b], i, Lapsed(now))
    requires var r := s.recs[s.chains[b][i]];
             r.target.Some? ==> (Hashed(t.chains, r.target.value) <==> Hashed(s.chains, r.target.value) && !FallsIn(s, b, now, r.target.value))
    ensures var r, chain := s.recs[s.chains[b][i]], s.chains[b];
            TargetFreed(s, t, r) <==> exists j: nat :: i < j < |chain| && AimsAt(r, s.n, chain[j]) && Falls(s.recs, s.n, chain, j, Lapsed(now))
  {
    hide Inv, Hashed, Expired, Outdated;
    var r, chain := s.recs[s.chains[b][i]], s.chains[b];
    if TargetFreed(s, t, r) {
      var j: nat :| j < |chain| && chain[j] == r.target.value && Falls(s.recs, s.n, chain, j, Lapsed(now));
      assert AimsAt(r, s.n, chain[j]);
    }
    if j: nat :| i < j < |chain| && AimsAt(r, s.n, chain[j]) && Falls(s.recs, s.n, chain, j, Lapsed(now)) {
      HashedAt(s.chains, b, j);
    }
  }
}
