/** Whole lookups, by name in one chain or by address in all of them, and the walk over their answers. */
module DnsAnswers {
  import opened DnsRecords
  import opened Options
  import opened Sequences
  import opened DnsSteps
  import opened DnsScan
  import opened DnsLookup

  /** The reverse lookup goes through every chain. */
  ghost function FindInAll(s: State, b: nat, ask: Ask, now: int, last: Option<Id>): (f: Found)
    requires Inv(s) && b <= |s.chains|
    ensures Inv(f.state) && f.state.n == s.n && f.state.mix == s.mix && |f.state.chains| == |s.chains|
    decreases |s.chains| - b
  {
    if b == |s.chains| then Found(s, [], [], last)
    else
      var f := Find(s, b, 0, ask, now, None, last);
      Join(f, FindInAll(f.state, b + 1, ask, now, f.last))
  }

  function Join(f: Found, g: Found): Found { Found(g.state, f.hosts + g.hosts, f.cached + g.cached, g.last) }

  function Head(lru: seq<Id>): Option<Id> { if lru == [] then None else Some(lru[0]) }

  lemma {:induction false} HasChains(s: State)
    requires Inv(s)
    ensures |s.chains| > 0
  {
    hide PoolOk, UsedPrefix, BigOk, UidOk, RecordOk, StaticOk, ChainOk;
  }

  /** The walk of a lookup, before the last answer link is closed. */
  ghost function Walk(s: State, ask: Ask, now: int): (f: Found)
    requires Inv(s)
    ensures Inv(f.state) && f.state.n == s.n && f.state.mix == s.mix && |f.state.chains| == |s.chains|
  {
    HasChains(s);
    match ask
    case Name(name, prot) => Find(s, Bucket(s.mix, name, |s.chains|), 0, ask, now, None, None)
    case Addr(addr, prot) => FindInAll(s, 0, ask, now, None)
  }

  /** A lookup: the last host links to the head of the list. */
  ghost function Lookup(s: State, ask: Ask, now: int): (f: Found)
    requires Inv(s)
    ensures Inv(f.state) && f.state.n == s.n && f.state.mix == s.mix && |f.state.chains| == |s.chains|
  {
    var f := Walk(s, ask, now);
    LinkKeeps(f.state, f.last, Head(f.state.lru));
    f.(state := LinkAfter(f.state, f.last, Head(f.state.lru)))
  }

  // ----- Exactness.

  ghost predicate InChains(t: State, b: nat, x: Id) { exists c :: b <= c < |t.chains| && x in t.chains[c] }

  /** hosts and cached list exactly the live records of the chains from b on that answer the question,
      each once. */
  ghost predicate ExactFrom(t: State, b: nat, ask: Ask, now: int, hosts: seq<Id>, cached: seq<Id>) {
    && (forall x | InChains(t, b, x) && x in t.recs && Wanted(t.recs[x], ask) ::
          !Expired(t.recs[x], now) && x in if Static(t.recs[x]) then hosts else cached)
    && (forall x | x in hosts || x in cached :: InChains(t, b, x) && x in t.recs && Wanted(t.recs[x], ask))
    && (forall x | x in hosts :: x in t.recs && Static(t.recs[x]))
    && (forall x | x in cached :: x in t.recs && !Static(t.recs[x]))
    && Distinct(hosts) && Distinct(cached)
  }

  lemma {:induction false} ChainsSplit(t: State, b: nat, x: Id)
    requires b < |t.chains|
    ensures InChains(t, b, x) <==> x in t.chains[b] || InChains(t, b + 1, x)
  {
    if InChains(t, b, x) {
      var c :| b <= c < |t.chains| && x in t.chains[c];
      if c != b { assert InChains(t, b + 1, x); }
    }
    if InChains(t, b + 1, x) {
      var c :| b + 1 <= c < |t.chains| && x in t.chains[c];
      assert b <= c;
    }
  }

  lemma {:induction false} FindInAllUndisturbed(s: State, b: nat, ask: Ask, now: int, last: Option<Id>)
    requires Inv(s) && b <= |s.chains|
    ensures var t := FindInAll(s, b, ask, now, last).state;
            Undisturbed(s, t) && forall c | 0 <= c < b :: t.chains[c] == s.chains[c]
    decreases |s.chains| - b
  {
    hide Inv, Find, Undisturbed;
    SelfUndisturbed(s);
    if b < |s.chains| {
      var f := Find(s, b, 0, ask, now, None, last);
      FindUndisturbed(s, b, 0, ask, now, None, last);
      FindInAllUndisturbed(f.state, b + 1, ask, now, f.last);
      UndisturbedTrans(s, f.state, FindInAll(s, b, ask, now, last).state);
    }
  }

  lemma {:induction false} ConcatDistinct(a: seq<Id>, b: seq<Id>)
    requires Distinct(a) && Distinct(b) && forall x | x in a :: x !in b
    ensures Distinct(a + b)
  {
    var s := a + b;
    forall i, j | 0 <= i < j < |s| ensures s[i] != s[j] {
      if i < |a| <= j { assert s[i] == a[i] && s[j] == b[j - |a|] && a[i] in a && b[j - |a|] in b; }
    }
  }

  lemma {:induction false} NotInLater(t: State, b: nat, x: Id)
    requires Inv(t) && b < |t.chains| && x in t.chains[b]
    ensures !InChains(t, b + 1, x)
  {
    hide PoolOk, UsedPrefix, BigOk, UidOk, RecordOk, StaticOk, ChainOk;
    if InChains(t, b + 1, x) {
      var c :| b + 1 <= c < |t.chains| && x in t.chains[c];
      OneChain(t.mix, t.recs, t.chains, b, c, x);
    }
  }

  /** The answers of chain b join those of the later chains. */
  lemma {:induction false} JoinExact(u: State, t: State, b: nat, ask: Ask, now: int, f: Found, g: Found)
    requires Inv(t) && b < |t.chains| == |u.chains| && f.state == u && g.state == t
    requires ExactIn(u, b, ask, now, f.hosts, f.cached) && ExactFrom(t, b + 1, ask, now, g.hosts, g.cached)
    requires Undisturbed(u, t) && t.chains[b] == u.chains[b]
    ensures ExactFrom(t, b, ask, now, f.hosts + g.hosts, f.cached + g.cached)
  {
    hide Inv, Exact, Wanted, Expired, Static, Distinct, InChains, Hashed, Undisturbed;
    forall x ensures InChains(t, b, x) <==> x in t.chains[b] || InChains(t, b + 1, x) { ChainsSplit(t, b, x); }
    forall x | x in t.chains[b] ensures !InChains(t, b + 1, x) && x in t.recs && x in u.recs && t.recs[x] == u.recs[x] {
      NotInLater(t, b, x);
      SameInChain(u, t, b, x);
    }
    ConcatDistinct(f.hosts, g.hosts);
    ConcatDistinct(f.cached, g.cached);
  }

  lemma {:induction false} SameInChain(u: State, t: State, b: nat, x: Id)
    requires Undisturbed(u, t) && b < |t.chains| && x in t.chains[b]
    ensures x in t.recs && x in u.recs && t.recs[x] == u.recs[x]
  {
    assert Hashed(t.chains, x);
  }

  /** hosts and cached list exactly the live answers of chain b. */
  ghost predicate ExactIn(t: State, b: nat, ask: Ask, now: int, hosts: seq<Id>, cached: seq<Id>)
    requires b < |t.chains|
  {
    && (forall x | x in t.chains[b] && x in t.recs && Wanted(t.recs[x], ask) ::
          !Expired(t.recs[x], now) && x in if Static(t.recs[x]) then hosts else cached)
    && (forall x | x in hosts || x in cached :: x in t.chains[b] && x in t.recs && Wanted(t.recs[x], ask))
    && (forall x | x in hosts :: x in t.recs && Static(t.recs[x]))
    && (forall x | x in cached :: x in t.recs && !Static(t.recs[x]))
    && Distinct(hosts) && Distinct(cached)
  }

  lemma {:induction false} WantedNotEnds(r: Record, ask: Ask)
    requires Wanted(r, ask)
    ensures !Ends(r, ask)
  {
    hide SameName, SameAddress;
  }

  lemma {:induction false} FindExactIn(s: State, b: nat, ask: Ask, now: int, last: Option<Id>)
    requires Inv(s) && b < |s.chains|
    ensures var f := Find(s, b, 0, ask, now, None, last); ExactIn(f.state, b, ask, now, f.hosts, f.cached)
  {
    hide Inv, Find, Wanted, Expired, Static, Distinct, Ends;
    FindExact(s, b, 0, ask, now, None, last);
    var f := Find(s, b, 0, ask, now, None, last);
    forall x ensures !Passed(s.chains[b], 0, x) { }
    forall x | x in f.state.chains[b] && x in f.state.recs && Wanted(f.state.recs[x], ask)
      ensures !Expired(f.state.recs[x], now)
    {
      WantedNotEnds(f.state.recs[x], ask);
    }
  }

  lemma {:induction false} FindInAllExact(s: State, b: nat, ask: Ask, now: int, last: Option<Id>)
    requires Inv(s) && b <= |s.chains|
    ensures var f := FindInAll(s, b, ask, now, last); ExactFrom(f.state, b, ask, now, f.hosts, f.cached)
    decreases |s.chains| - b
  {
    hide Inv, Find, ExactFrom, ExactIn, Undisturbed;
    if b == |s.chains| {
      NothingBeyond(s, ask, now);
    } else {
      var f := Find(s, b, 0, ask, now, None, last);
      var g := FindInAll(f.state, b + 1, ask, now, f.last);
      FindExactIn(s, b, ask, now, last);
      FindInAllExact(f.state, b + 1, ask, now, f.last);
      FindInAllUndisturbed(f.state, b + 1, ask, now, f.last);
      JoinExact(f.state, g.state, b, ask, now, f, g);
    }
  }

  lemma {:induction false} NothingBeyond(s: State, ask: Ask, now: int)
    ensures ExactFrom(s, |s.chains|, ask, now, [], [])
  {
    hide Wanted, Expired, Static;
  }

  // ----- The head of the list and the links, over all chains.

  lemma {:induction false} FindInAllFront(s: State, b: nat, ask: Ask, now: int, last: Option<Id>, pre: seq<Id>)
    requires Inv(s) && b <= |s.chains| && |pre| <= |s.lru| && s.lru[..|pre|] == pre
    requires forall x | x in pre :: !InChains(s, b, x)
    ensures var f := FindInAll(s, b, ask, now, last);
            var p := Rev(f.cached) + pre;
            |p| <= |f.state.lru| && f.state.lru[..|p|] == p
    decreases |s.chains| - b
  {
    hide Inv, Find, InChains, Front;
    if b == |s.chains| {
      assert Rev([]) + pre == pre;
    } else {
      var f := Find(s, b, 0, ask, now, None, last);
      var q := Rev(f.cached) + pre;
      FrontOf(s, b, pre);
      FindFront(s, b, 0, ask, now, None, last, pre);
      NotMetAgain(s, b, ask, now, last, pre);
      FindInAllFront(f.state, b + 1, ask, now, f.last, q);
      var g := FindInAll(f.state, b + 1, ask, now, f.last);
      RevConcat(f.cached, g.cached);
      assert Rev(g.cached) + q == Rev(f.cached + g.cached) + pre;
    }
  }

  lemma {:induction false} FrontOf(s: State, b: nat, pre: seq<Id>)
    requires b < |s.chains| && |pre| <= |s.lru| && s.lru[..|pre|] == pre && forall x | x in pre :: !InChains(s, b, x)
    ensures Front(s, b, 0, pre)
  {
    forall x | x in pre ensures Behind(s.chains[b], 0, x) {
      forall i | 0 <= i < |s.chains[b]| ensures s.chains[b][i] != x { assert s.chains[b][i] in s.chains[b]; }
    }
  }

  lemma {:induction false} NotMetAgain(s: State, b: nat, ask: Ask, now: int, last: Option<Id>, pre: seq<Id>)
    requires Inv(s) && b < |s.chains| && forall x | x in pre :: !InChains(s, b, x)
    ensures var f := Find(s, b, 0, ask, now, None, last);
            forall x | x in Rev(f.cached) + pre :: !InChains(f.state, b + 1, x)
  {
    hide Inv, Find, InChains, Wanted, Expired, Static, Distinct;
    var f := Find(s, b, 0, ask, now, None, last);
    FindExactIn(s, b, ask, now, last);
    FindUndisturbed(s, b, 0, ask, now, None, last);
    forall x | x in Rev(f.cached) + pre ensures !InChains(f.state, b + 1, x) {
      if x in pre {
        ChainsSplit(s, b, x);
        LaterSame(s, f.state, b, x);
      } else {
        RevMembers(f.cached, x);
        NotInLater(f.state, b, x);
      }
    }
  }

  lemma {:induction false} LaterSame(s: State, t: State, b: nat, x: Id)
    requires b < |s.chains| == |t.chains| && (forall c | 0 <= c < |s.chains| && c != b :: t.chains[c] == s.chains[c]) && !InChains(s, b + 1, x)
    ensures !InChains(t, b + 1, x)
  {
  }

  lemma {:induction false} RevMembers(s: seq<Id>, x: Id)
    ensures x in Rev(s) <==> x in s
  {
    if s != [] { RevMembers(s[1..], x); }
  }

  lemma {:induction false} RevConcat(a: seq<Id>, b: seq<Id>)
    ensures Rev(a + b) == Rev(b) + Rev(a)
  {
    if a == [] {
      assert a + b == b;
    } else {
      assert (a + b)[1..] == a[1..] + b;
      RevConcat(a[1..], b);
    }
  }

  /** Every host but the last links to the next one. */
  lemma {:induction false} FindInAllLinks(s: State, b: nat, ask: Ask, now: int, last: Option<Id>)
    requires Inv(s) && b <= |s.chains| && (last.Some? ==> !InChains(s, b, last.value))
    ensures LinkedAfter(FindInAll(s, b, ask, now, last), last)
    ensures OtherLinks(s, FindInAll(s, b, ask, now, last), last)
    decreases |s.chains| - b
  {
    hide Inv, Find, InChains, LinkedAfter, OtherLinks, Behind;
    if b == |s.chains| {
      SelfLinked(s, last);
    } else {
      var f := Find(s, b, 0, ask, now, None, last);
      if last.Some? { BehindAll(s, b, last.value); }
      FindLinks(s, b, 0, ask, now, None, last);
      LastNotMet(s, b, ask, now, last);
      FindInAllLinks(f.state, b + 1, ask, now, f.last);
      var g := FindInAll(f.state, b + 1, ask, now, f.last);
      HostsApart(s, b, ask, now, last, g);
      JoinLinks(s, f, g, last);
    }
  }

  lemma {:induction false} BehindAll(s: State, b: nat, x: Id)
    requires b < |s.chains| && !InChains(s, b, x)
    ensures Behind(s.chains[b], 0, x)
  {
    forall i | 0 <= i < |s.chains[b]| ensures s.chains[b][i] != x { assert s.chains[b][i] in s.chains[b]; }
  }

  lemma {:induction false} LastNotMet(s: State, b: nat, ask: Ask, now: int, last: Option<Id>)
    requires Inv(s) && b < |s.chains| && (last.Some? ==> !InChains(s, b, last.value))
    requires LinkedAfter(Find(s, b, 0, ask, now, None, last), last)
    ensures var f := Find(s, b, 0, ask, now, None, last); f.last.Some? ==> !InChains(f.state, b + 1, f.last.value)
  {
    hide Inv, Find, InChains, Wanted, Expired, Static, Distinct, LinkedAt;
    var f := Find(s, b, 0, ask, now, None, last);
    FindExactIn(s, b, ask, now, last);
    FindUndisturbed(s, b, 0, ask, now, None, last);
    if f.hosts != [] {
      NotInLater(f.state, b, f.hosts[|f.hosts| - 1]);
    } else if last.Some? {
      ChainsSplit(s, b, last.value);
      LaterSame(s, f.state, b, last.value);
    }
  }

  /** Hosts of later chains are neither `last` nor hosts of this one. */
  lemma {:induction false} HostsApart(s: State, b: nat, ask: Ask, now: int, last: Option<Id>, g: Found)
    requires Inv(s) && b < |s.chains| && (last.Some? ==> !InChains(s, b, last.value))
    requires g == FindInAll(Find(s, b, 0, ask, now, None, last).state, b + 1, ask, now, Find(s, b, 0, ask, now, None, last).last)
    ensures last.Some? ==> last.value !in g.hosts && last.value !in Find(s, b, 0, ask, now, None, last).hosts
    ensures Distinct(Find(s, b, 0, ask, now, None, last).hosts)
    ensures forall x | x in Find(s, b, 0, ask, now, None, last).hosts :: x !in g.hosts
  {
    hide Inv, Find, InChains, Wanted, Expired, Static, Distinct, FindInAll, Undisturbed;
    var f := Find(s, b, 0, ask, now, None, last);
    FindExactIn(s, b, ask, now, last);
    FindUndisturbed(s, b, 0, ask, now, None, last);
    FindInAllExact(f.state, b + 1, ask, now, f.last);
    FindInAllUndisturbed(f.state, b + 1, ask, now, f.last);
    forall x | x in f.hosts ensures x !in g.hosts {
      assert x in g.state.chains[b];
      NotInLater(g.state, b, x);
    }
    if last.Some? {
      ChainsSplit(s, b, last.value);
      LaterSame(s, f.state, b, last.value);
      StillNotIn(f.state, g.state, b + 1, last.value);
      BehindAll(s, b, last.value);
      HostsAhead(s, b, 0, ask, now, None, last, last.value);
    }
  }

  lemma {:induction false} StillNotIn(s: State, t: State, b: nat, x: Id)
    requires Inv(s) && Inv(t) && s.mix == t.mix && Undisturbed(s, t) && |s.chains| == |t.chains| && !InChains(s, b, x)
    ensures !InChains(t, b, x)
  {
    hide Inv, Undisturbed;
    if InChains(t, b, x) {
      var c :| b <= c < |t.chains| && x in t.chains[c];
      StaysIn(s, t, c, x);
    }
  }

  lemma {:induction false} JoinLinks(s: State, f: Found, g: Found, last: Option<Id>)
    requires LinkedAfter(f, last) && OtherLinks(s, f, last) && LinkedAfter(g, f.last) && OtherLinks(f.state, g, f.last)
    requires (last.Some? ==> last.value !in g.hosts) && (forall x | x in f.hosts :: x !in g.hosts) && Distinct(f.hosts)
    requires last.Some? ==> last.value !in f.hosts
    ensures LinkedAfter(Join(f, g), last) && OtherLinks(s, Join(f, g), last)
  {
    var j := Join(f, g);
    forall i | 0 <= i < |j.hosts| ensures LinkedAt(j, i) {
      if i < |f.hosts| {
        assert LinkedAt(f, i) && f.hosts[i] in f.hosts;
      } else {
        assert LinkedAt(g, i - |f.hosts|);
      }
    }
  }

  // ----- A whole lookup.

  ghost predicate Exactly(t: State, ask: Ask, now: int, hosts: seq<Id>, cached: seq<Id>) { ExactFrom(t, 0, ask, now, hosts, cached) }

  lemma {:induction false} HashedIsInChains(t: State, x: Id)
    ensures Hashed(t.chains, x) <==> InChains(t, 0, x)
  {
  }

  lemma {:induction false} NameChain(t: State, ask: Ask, x: Id)
    requires Inv(t) && |t.chains| > 0 && ask.Name? && InChains(t, 0, x) && x in t.recs && Wanted(t.recs[x], ask)
    ensures x in t.chains[Bucket(t.mix, ask.name, |t.chains|)]
  {
    hide PoolOk, UsedPrefix, BigOk, UidOk, RecordOk, StaticOk, TableOk, Bucket, SameName;
    HashedIsInChains(t, x);
    HashedIn(t, x);
    SameBucket(t.mix, t.recs[x].name, ask.name, |t.chains|);
  }

  /** The walk meets exactly the live records of the table that answer the question. */
  lemma {:induction false} WalkExact(s: State, ask: Ask, now: int)
    requires Inv(s)
    ensures var f := Walk(s, ask, now); Exactly(f.state, ask, now, f.hosts, f.cached) && Undisturbed(s, f.state)
  {
    hide Inv, Find, FindInAll, InChains, Wanted, Expired, Static, Distinct, Undisturbed, Bucket;
    HasChains(s);
    match ask
    case Name(name, prot) =>
      var b := Bucket(s.mix, name, |s.chains|);
      FindExactIn(s, b, ask, now, None);
      FindUndisturbed(s, b, 0, ask, now, None, None);
      NameExact(Find(s, b, 0, ask, now, None, None), b, ask, now);
    case Addr(addr, prot) =>
      FindInAllExact(s, 0, ask, now, None);
      FindInAllUndisturbed(s, 0, ask, now, None);
  }

  lemma {:induction false} NameExact(f: Found, b: nat, ask: Ask, now: int)
    requires Inv(f.state) && |f.state.chains| > 0 && ask.Name? && b == Bucket(f.state.mix, ask.name, |f.state.chains|)
    requires ExactIn(f.state, b, ask, now, f.hosts, f.cached)
    ensures Exactly(f.state, ask, now, f.hosts, f.cached)
  {
    hide Inv, Wanted, Expired, Static, Distinct, Bucket;
    var t := f.state;
    forall x | InChains(t, 0, x) && x in t.recs && Wanted(t.recs[x], ask) ensures x in t.chains[b] { NameChain(t, ask, x); }
    forall x | x in t.chains[b] ensures InChains(t, 0, x) { }
  }

  lemma {:induction false} WalkFront(s: State, ask: Ask, now: int)
    requires Inv(s)
    ensures var f := Walk(s, ask, now); |f.cached| <= |f.state.lru| && f.state.lru[..|f.cached|] == Rev(f.cached)
  {
    hide Inv, Find, FindInAll, Bucket;
    HasChains(s);
    match ask
    case Name(name, prot) =>
      FindFront(s, Bucket(s.mix, name, |s.chains|), 0, ask, now, None, None, []);
      var f := Walk(s, ask, now);
      assert Rev(f.cached) + [] == Rev(f.cached);
    case Addr(addr, prot) =>
      FindInAllFront(s, 0, ask, now, None, []);
      var f := Walk(s, ask, now);
      assert Rev(f.cached) + [] == Rev(f.cached);
  }

  lemma {:induction false} WalkLinks(s: State, ask: Ask, now: int)
    requires Inv(s)
    ensures LinkedAfter(Walk(s, ask, now), None)
  {
    hide Inv, Find, FindInAll, Bucket;
    HasChains(s);
    match ask
    case Name(name, prot) => FindLinks(s, Bucket(s.mix, name, |s.chains|), 0, ask, now, None, None);
    case Addr(addr, prot) => FindInAllLinks(s, 0, ask, now, None);
  }

  /** The answers in the order the iteration gives them: hosts and DHCP records in chain order, then the
      cached ones, the one met last first. */
  ghost function Answers(f: Found): seq<Id> { f.hosts + Rev(f.cached) }

  /** What ans holds after i steps of the iteration. */
  ghost function Current(f: Found, i: nat): Option<Id> {
    if i < |f.hosts| then Some(f.hosts[i])
    else if i - |f.hosts| < |f.state.lru| then Some(f.state.lru[i - |f.hosts|]) else None
  }

  /** crecp->next */
  ghost function Next(t: State, id: Id): Option<Id> {
    if id in t.lru then (var k := IndexOf(t.lru, id) + 1; if k < |t.lru| then Some(t.lru[k]) else None)
    else if id in t.links then t.links[id] else None
  }

  lemma {:induction false} LookupFields(s: State, ask: Ask, now: int)
    requires Inv(s)
    ensures var f, w := Lookup(s, ask, now), Walk(s, ask, now);
            && f.hosts == w.hosts && f.cached == w.cached && f.state.lru == w.state.lru && f.state.recs == w.state.recs
            && f.state.chains == w.state.chains
  {
    hide Inv, Walk;
  }

  /** The lookup lists exactly the live records of the table that answer the question, each once. */
  lemma {:induction false} LookupExact(s: State, ask: Ask, now: int)
    requires Inv(s)
    ensures var f := Lookup(s, ask, now); Exactly(f.state, ask, now, f.hosts, f.cached) && Undisturbed(s, f.state)
  {
    hide Inv, Walk, Lookup, Wanted, Expired, Static, Distinct, Hashed;
    LookupFields(s, ask, now);
    WalkExact(s, ask, now);
    SameTable(Walk(s, ask, now).state, Lookup(s, ask, now).state);
  }

  lemma {:induction false} SameTable(t: State, u: State)
    requires t.chains == u.chains
    ensures forall x, b: nat :: InChains(t, b, x) <==> InChains(u, b, x)
  {
  }

  lemma {:induction false} LinkStep(s: State, ask: Ask, now: int, i: nat)
    requires Inv(s) && i < |Lookup(s, ask, now).hosts|
    ensures var f := Lookup(s, ask, now);
            f.hosts[i] in f.state.links && f.state.links[f.hosts[i]] == Current(f, i + 1)
  {
    hide Inv, Walk, Wanted, Expired, Static;
    WalkLinks(s, ask, now);
    WalkExact(s, ask, now);
    var w := Walk(s, ask, now);
    assert LinkedAt(w, i);
  }

  /** Each step of the iteration leads to the next answer. */
  lemma {:induction false} NextAnswer(s: State, ask: Ask, now: int, i: nat)
    requires Inv(s) && i < |Answers(Lookup(s, ask, now))|
    ensures var f := Lookup(s, ask, now);
            Current(f, i) == Some(Answers(f)[i]) && Next(f.state, Answers(f)[i]) == Current(f, i + 1)
  {
    hide Inv, Walk, Lookup, Wanted, Expired, Static, InChains, Distinct, Rev;
    var f := Lookup(s, ask, now);
    var a := Answers(f)[i];
    LookupFields(s, ask, now);
    WalkFront(s, ask, now);
    if i < |f.hosts| {
      LinkStep(s, ask, now, i);
      HostNotListed(s, ask, now, a);
    } else {
      var j := i - |f.hosts|;
      assert a == f.state.lru[..|f.cached|][j];
      IndexUnique(f.state, j);
    }
  }

  lemma {:induction false} IndexUnique(t: State, j: nat)
    requires Inv(t) && j < |t.lru|
    ensures t.lru[j] in t.lru && IndexOf(t.lru, t.lru[j]) == j
  {
    hide TableOk, UsedPrefix, BigOk, UidOk, RecordOk, StaticOk, PoolOk;
    PoolDistinct(t.n, t.lru, t.pending);
  }

  lemma {:induction false} HostNotListed(s: State, ask: Ask, now: int, a: Id)
    requires Inv(s) && a in Lookup(s, ask, now).hosts
    ensures a !in Lookup(s, ask, now).state.lru
  {
    hide Inv, Walk, Lookup, Wanted, Expired, Static, Distinct;
    LookupExact(s, ask, now);
    if a in Lookup(s, ask, now).state.lru { ListedNotStatic(Lookup(s, ask, now).state, a); }
  }

  lemma {:induction false} ListedNotStatic(t: State, a: Id)
    requires Inv(t) && a in t.lru
    ensures a in t.recs && !Static(t.recs[a])
  {
    hide TableOk, UsedPrefix, BigOk, UidOk, PoolOk, Hashed, Static;
    PoolMembers(t.n, t.lru, t.pending, a);
    assert RecordOk(t, a);
  }

  /** The iteration stops after the last answer. */
  lemma {:induction false} IterationStops(s: State, ask: Ask, now: int)
    requires Inv(s)
    ensures var f := Lookup(s, ask, now);
            var x := Current(f, |Answers(f)|);
            x.Some? ==> x.value in f.state.recs && !Wanted(f.state.recs[x.value], ask)
  {
    hide Walk, Lookup, Wanted, Expired, TableOk, UsedPrefix, BigOk, UidOk, PoolOk, Hashed, Static, InChains, Distinct, Rev, InUse;
    var f := Lookup(s, ask, now);
    var t, m := f.state, |f.cached|;
    LookupFields(s, ask, now);
    WalkFront(s, ask, now);
    LookupExact(s, ask, now);
    if m < |t.lru| {
      var x := t.lru[m];
      PoolMembers(t.n, t.lru, t.pending, x);
      assert RecordOk(t, x);
      if Wanted(t.recs[x], ask) {
        WantedInUse(t.recs[x], ask);
        HashedIsInChains(t, x);
        RevMembers(f.cached, x);
        TwiceListed(t, m, x);
      }
    }
  }

  lemma {:induction false} WantedInUse(r: Record, ask: Ask)
    requires Wanted(r, ask)
    ensures InUse(r)
  {
    hide SameName, SameAddress;
  }

  lemma {:induction false} TwiceListed(t: State, m: nat, x: Id)
    requires Inv(t) && m < |t.lru| && x == t.lru[m]
    ensures x !in t.lru[..m]
  {
    hide TableOk, UsedPrefix, BigOk, UidOk, RecordOk, StaticOk, PoolOk;
    PoolDistinct(t.n, t.lru, t.pending);
  }
}
