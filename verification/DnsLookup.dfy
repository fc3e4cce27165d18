/** The lookup by name: it frees what has expired, links the hosts and DHCP answers to each other, puts
    the cached answers at the head of the list and rotates the answers within their chain. */
module DnsLookup {
  import opened DnsRecords
  import opened Options
  import opened Sequences
  import opened DnsSteps
  import opened DnsScan

  /** A question: the records of a name with some of these types, or those of an address. */
  datatype Ask = Name(name: string, prot: set<Flag>) | Addr(addr: Address, prot: set<Flag>)

  predicate Wanted(r: Record, ask: Ask) {
    match ask
    case Name(name, prot) => Forward in r.flags && r.flags * prot != {} && SameName(r.name, name)
    case Addr(addr, prot) => Reverse in r.flags && r.flags * prot != {} && SameAddress(r.addr, addr, prot == {Ipv6})
  }

  /** A record the lookup takes out of its chain on the way. */
  predicate Gone(recs: map<Id, Record>, r: Record, ask: Ask, now: int) {
    Expired(r, now) || (ask.Name? && Outdated(recs, r))
  }

  /** Only the reverse records at the start of a chain can answer for an address. */
  predicate Ends(r: Record, ask: Ask) { ask.Addr? && Reverse !in r.flags }

  /** The part of the flags that decides a record's place in its chain. */
  function OrderFlags(r: Record): set<Flag> { r.flags * {Reverse, Immortal} }

  lemma {:induction false} SameOrderFlags(a: Record, b: Record)
    requires OrderFlags(a) == OrderFlags(b)
    ensures Rank(a) == Rank(b)
  {
    assert Reverse in a.flags <==> Reverse in OrderFlags(a);
    assert Reverse in b.flags <==> Reverse in OrderFlags(b);
    assert Immortal in a.flags <==> Immortal in OrderFlags(a);
    assert Immortal in b.flags <==> Immortal in OrderFlags(b);
  }

  /** *chainp = id: the answer after `last`. */
  function LinkAfter(s: State, last: Option<Id>, id: Option<Id>): State {
    if last.Some? then s.(links := s.links[last.value := id]) else s
  }

  lemma {:induction false} LinkKeeps(s: State, last: Option<Id>, id: Option<Id>)
    requires Inv(s)
    ensures Inv(LinkAfter(s, last, id))
  {
    hide TableOk, UsedPrefix, PoolOk, Hashed, BigOk;
    var t := LinkAfter(s, last, id);
    forall x: Id | x < t.n ensures RecordOk(t, x) { assert RecordOk(s, x); }
    forall x: Id ensures StaticOk(t, x) { assert StaticOk(s, x); }
    BigSame(s, t);
  }

  /** What happens to an answer before the chain is rearranged. */
  ghost function Note(s: State, b: nat, k: nat, last: Option<Id>): (t: State)
    requires Inv(s) && b < |s.chains| && k < |s.chains[b]|
    ensures Inv(t) && t.chains == s.chains && t.recs == s.recs && t.n == s.n && t.mix == s.mix
  {
    HashedRecord(s, b, k);
    var id := s.chains[b][k];
    if Static(s.recs[id]) then LinkKeeps(s, last, Some(id)); LinkAfter(s, last, Some(id))
    else TouchKeeps(s, id); Touch(s, id)
  }

  /** The place `to` where the next answer is put back is held by a record passed before k. */
  ghost predicate ToOk(s: State, b: nat, k: nat, to: Option<nat>)
    requires b < |s.chains| && k <= |s.chains[b]|
  {
    to.Some? ==> to.value < k && s.chains[b][to.value] in s.recs
  }

  lemma {:induction false} NoPlace(s: State, b: nat)
    requires b < |s.chains|
    ensures ToOk(s, b, 0, None)
  {
  }

  /** The second and later answers move up to `to` when that does not break the chain order. */
  ghost predicate Moves(s: State, b: nat, k: nat, to: Option<nat>)
    requires b < |s.chains| && k < |s.chains[b]| && s.chains[b][k] in s.recs && ToOk(s, b, k, to)
  {
    to.Some? && OrderFlags(s.recs[s.chains[b][k]]) == OrderFlags(s.recs[s.chains[b][to.value]])
  }

  ghost function Place(s: State, b: nat, k: nat, to: Option<nat>): (t: State)
    requires Inv(s) && b < |s.chains| && k < |s.chains[b]| && ToOk(s, b, k, to)
    ensures Inv(t) && t.n == s.n && t.mix == s.mix && t.recs == s.recs && |t.chains| == |s.chains| && |t.chains[b]| == |s.chains[b]|
  {
    HashedRecord(s, b, k);
    if Moves(s, b, k, to) then
      SameOrderFlags(s.recs[s.chains[b][k]], s.recs[s.chains[b][to.value]]);
      ShiftKeeps(s, b, k, to.value);
      Shift(s, b, k, to.value)
    else s
  }

  ghost function NextTo(s: State, b: nat, k: nat, to: Option<nat>, ask: Ask): Option<nat>
    requires b < |s.chains| && k < |s.chains[b]| && s.chains[b][k] in s.recs && ToOk(s, b, k, to)
  {
    if Moves(s, b, k, to) then Some(to.value + 1) else if to == None && ask.Name? then Some(k) else to
  }

  /** Note and Place together. */
  ghost function Answer(s: State, b: nat, k: nat, to: Option<nat>, last: Option<Id>): (t: State)
    requires Inv(s) && b < |s.chains| && k < |s.chains[b]| && ToOk(s, b, k, to)
    ensures Inv(t) && t.n == s.n && t.mix == s.mix && t.recs == s.recs && |t.chains| == |s.chains| && |t.chains[b]| == |s.chains[b]|
  {
    Place(Note(s, b, k, last), b, k, to)
  }

  datatype Found = Found(state: State, hosts: seq<Id>, cached: seq<Id>, last: Option<Id>)

  /** An answer in front of those found after it. */
  function Prepend(f: Found, id: Id, host: bool): Found {
    if host then f.(hosts := [id] + f.hosts) else f.(cached := [id] + f.cached)
  }

  /** The walk along chain b from record k on, with the answers met from there on. */
  ghost function Find(s: State, b: nat, k: nat, ask: Ask, now: int, to: Option<nat>, last: Option<Id>): (f: Found)
    requires Inv(s) && b < |s.chains| && k <= |s.chains[b]| && ToOk(s, b, k, to)
    ensures Inv(f.state) && f.state.n == s.n && f.state.mix == s.mix && |f.state.chains| == |s.chains|
    decreases |s.chains[b]| - k
  {
    if k == |s.chains[b]| then Found(s, [], [], last)
    else
      HashedRecord(s, b, k);
      var id := s.chains[b][k];
      var r := s.recs[id];
      if Ends(r, ask) then Found(s, [], [], last)
      else if Gone(s.recs, r, ask, now) then
        RemoveTo(s, b, k, to);
        Find(Remove(s, b, k), b, k, ask, now, to, last)
      else if Wanted(r, ask) then
        NextToOk(s, b, k, to, last, ask);
        Prepend(Find(Answer(s, b, k, to, last), b, k + 1, ask, now, NextTo(s, b, k, to, ask), if Static(r) then Some(id) else last),
                id, Static(r))
      else Find(s, b, k + 1, ask, now, to, last)
  }

  lemma {:induction false} RemoveTo(s: State, b: nat, k: nat, to: Option<nat>)
    requires Inv(s) && b < |s.chains| && k < |s.chains[b]| && ToOk(s, b, k, to)
    ensures ToOk(Remove(s, b, k), b, k, to)
  {
    hide TableOk, UsedPrefix, PoolOk, Hashed, BigOk, UidOk, RecordOk, StaticOk;
    HashedRecord(s, b, k);
    if to.Some? { RemoveAtElement(s.chains[b], k, to.value); }
  }

  lemma {:induction false} NextToOk(s: State, b: nat, k: nat, to: Option<nat>, last: Option<Id>, ask: Ask)
    requires Inv(s) && b < |s.chains| && k < |s.chains[b]| && ToOk(s, b, k, to)
    ensures s.chains[b][k] in s.recs && ToOk(Answer(s, b, k, to, last), b, k + 1, NextTo(s, b, k, to, ask))
  {
    hide Inv, OrderFlags, MoveUp, Static, Note;
    HashedRecord(s, b, k);
    if Moves(s, b, k, to) { MoveUpElement(s.chains[b], k, to.value, to.value + 1); }
  }

  /** What the walk does with the record it has come to. */
  lemma {:induction false} FindUnfold(s: State, b: nat, k: nat, ask: Ask, now: int, to: Option<nat>, last: Option<Id>)
    requires Inv(s) && b < |s.chains| && k <= |s.chains[b]| && ToOk(s, b, k, to)
    ensures k == |s.chains[b]| ==> Find(s, b, k, ask, now, to, last) == Found(s, [], [], last)
    ensures k < |s.chains[b]| ==>
              var id := s.chains[b][k];
              id in s.recs &&
              var r := s.recs[id];
              var l := if Static(r) then Some(id) else last;
              && (Ends(r, ask) ==> Find(s, b, k, ask, now, to, last) == Found(s, [], [], last))
              && (!Ends(r, ask) && Gone(s.recs, r, ask, now) ==>
                    ToOk(Remove(s, b, k), b, k, to) && Find(s, b, k, ask, now, to, last) == Find(Remove(s, b, k), b, k, ask, now, to, last))
              && (!Ends(r, ask) && !Gone(s.recs, r, ask, now) && Wanted(r, ask) ==>
                    ToOk(Answer(s, b, k, to, last), b, k + 1, NextTo(s, b, k, to, ask)) &&
                    Find(s, b, k, ask, now, to, last)
                    == Prepend(Find(Answer(s, b, k, to, last), b, k + 1, ask, now, NextTo(s, b, k, to, ask), l), id, Static(r)))
              && (!Ends(r, ask) && !Gone(s.recs, r, ask, now) && !Wanted(r, ask) ==>
                    ToOk(s, b, k + 1, to) && Find(s, b, k, ask, now, to, last) == Find(s, b, k + 1, ask, now, to, last))
  {
    hide Inv, Remove, Answer, Wanted, Static, Gone, Ends, NextTo, ToOk, Prepend;
    if k < |s.chains[b]| {
      HashedRecord(s, b, k);
      RemoveTo(s, b, k, to);
      NextToOk(s, b, k, to, last, ask);
      ToLater(s, b, k, to);
    }
  }

  // ----- What one answer changes.

  /** id is among the first k records of a chain. */
  ghost predicate Passed(chain: seq<Id>, k: nat, id: Id)
    requires k <= |chain|
  {
    exists i :: 0 <= i < k && chain[i] == id
  }

  lemma {:induction false} PassedNext(chain: seq<Id>, k: nat, id: Id)
    requires k < |chain|
    ensures Passed(chain, k + 1, id) <==> Passed(chain, k, id) || id == chain[k]
  {
    if Passed(chain, k + 1, id) {
      var i :| 0 <= i < k + 1 && chain[i] == id;
      if i < k { assert Passed(chain, k, id); }
    }
    if Passed(chain, k, id) {
      var i :| 0 <= i < k && chain[i] == id;
      assert 0 <= i < k + 1;
    }
    if id == chain[k] { assert 0 <= k < k + 1; }
  }

  lemma {:induction false} PassedMoved(chain: seq<Id>, k: nat, to: nat, id: Id)
    requires to <= k < |chain|
    ensures Passed(MoveUp(chain, k, to), k + 1, id) <==> Passed(chain, k + 1, id)
  {
    hide MoveUp;
    var t := MoveUp(chain, k, to);
    if Passed(t, k + 1, id) {
      var i :| 0 <= i < k + 1 && t[i] == id;
      MoveUpElement(chain, k, to, i);
      assert 0 <= From(k, to, i) < k + 1;
    }
    if Passed(chain, k + 1, id) {
      var i :| 0 <= i < k + 1 && chain[i] == id;
      var j := if i < to then i else if i == k then to else i + 1;
      MoveUpElement(chain, k, to, j);
      assert 0 <= j < k + 1;
    }
  }

  ghost predicate SameMembers(a: seq<Id>, b: seq<Id>) { forall x :: x in a <==> x in b }

  lemma {:induction false} AnswerChain(s: State, b: nat, k: nat, to: Option<nat>, last: Option<Id>)
    requires Inv(s) && b < |s.chains| && k < |s.chains[b]| && ToOk(s, b, k, to)
    ensures var t := Answer(s, b, k, to, last);
            && SameMembers(t.chains[b], s.chains[b])
            && (forall c | 0 <= c < |s.chains| && c != b :: t.chains[c] == s.chains[c])
            && Passed(t.chains[b], k + 1, s.chains[b][k])
            && (forall i | k < i < |s.chains[b]| :: t.chains[b][i] == s.chains[b][i])
            && forall x :: Passed(t.chains[b], k + 1, x) <==> Passed(s.chains[b], k, x) || x == s.chains[b][k]
  {
    hide Inv, Passed, MoveUp, Note, OrderFlags;
    HashedRecord(s, b, k);
    var t, chain, u := Answer(s, b, k, to, last), s.chains[b], Note(s, b, k, last);
    forall x ensures Passed(t.chains[b], k + 1, x) <==> Passed(chain, k, x) || x == chain[k] {
      PassedNext(chain, k, x);
      if Moves(u, b, k, to) { PassedMoved(chain, k, to.value, x); }
    }
    forall i | k < i < |chain| ensures t.chains[b][i] == chain[i] {
      if Moves(u, b, k, to) { MoveUpElement(chain, k, to.value, i); }
    }
    assert Passed(t.chains[b], k + 1, chain[k]) by {
      PassedNext(chain, k, chain[k]);
      if Moves(u, b, k, to) { PassedMoved(chain, k, to.value, chain[k]); }
    }
    if Moves(u, b, k, to) {
      MoveUpBag(chain, k, to.value);
      forall x ensures x in t.chains[b] <==> x in chain { SameBag(t.chains[b], chain, x); }
    }
  }

  lemma {:induction false} AnswerUndisturbed(s: State, b: nat, k: nat, to: Option<nat>, last: Option<Id>)
    requires Inv(s) && b < |s.chains| && k < |s.chains[b]| && ToOk(s, b, k, to)
    ensures Undisturbed(s, Answer(s, b, k, to, last))
  {
    hide Inv, Answer;
    var t := Answer(s, b, k, to, last);
    AnswerChain(s, b, k, to, last);
    SelfUndisturbed(s);
    forall id | Hashed(t.chains, id) ensures Hashed(s.chains, id) {
      var c :| 0 <= c < |t.chains| && id in t.chains[c];
      assert id in s.chains[c];
    }
  }

  // ----- What a lookup leaves behind.

  /** The answers met from record k on, against the chain they were met in. */
  ghost predicate Exact(s: State, b: nat, k: nat, ask: Ask, now: int, f: Found)
    requires b < |s.chains| && k <= |s.chains[b]| && b < |f.state.chains|
  {
    var t := f.state;
    && (forall x | Passed(s.chains[b], k, x) :: x in t.chains[b])
    && (forall x | x in t.chains[b] && !Passed(s.chains[b], k, x) ::
          x in t.recs && (!Ends(t.recs[x], ask) ==> !Expired(t.recs[x], now))
          && (Wanted(t.recs[x], ask) ==> x in if Static(t.recs[x]) then f.hosts else f.cached))
    && (forall x | x in f.hosts || x in f.cached ::
          x in t.chains[b] && !Passed(s.chains[b], k, x) && x in t.recs && Wanted(t.recs[x], ask))
    && (forall x | x in f.hosts :: x in t.recs && Static(t.recs[x]))
    && (forall x | x in f.cached :: x in t.recs && !Static(t.recs[x]))
    && Distinct(f.hosts) && Distinct(f.cached)
  }

  lemma {:induction false} ExactNone(s: State, b: nat, ask: Ask, now: int, last: Option<Id>)
    requires b < |s.chains|
    ensures Exact(s, b, |s.chains[b]|, ask, now, Found(s, [], [], last))
  {
    hide Expired, Wanted, Static, Ends;
    forall x | x in s.chains[b] ensures Passed(s.chains[b], |s.chains[b]|, x) {
      var i := IndexOf(s.chains[b], x);
    }
  }

  /** Behind the first non-reverse record of a chain there is no answer for an address. */
  lemma {:induction false} ExactEnds(s: State, b: nat, k: nat, ask: Ask, now: int, last: Option<Id>)
    requires Inv(s) && b < |s.chains| && k < |s.chains[b]| && s.chains[b][k] in s.recs && Ends(s.recs[s.chains[b][k]], ask)
    ensures Exact(s, b, k, ask, now, Found(s, [], [], last))
  {
    hide PoolOk, UsedPrefix, BigOk, UidOk, RecordOk, StaticOk, Bucket, Distinct, Expired, SameAddress, Static;
    var chain := s.chains[b];
    ChainOfTable(s.mix, s.recs, s.chains, b);
    forall x | x in chain && !Passed(chain, k, x) ensures x in s.recs && Ends(s.recs[x], ask) && !Wanted(s.recs[x], ask) {
      var i := IndexOf(chain, x);
      assert k <= i;
      if k < i { assert Rank(s.recs[chain[k]]) <= Rank(s.recs[chain[i]]); }
    }
    DistinctNone();
  }

  lemma {:induction false} DistinctNone()
    ensures Distinct<Id>([])
  {
  }

  /** A passed record that is no answer. */
  lemma {:induction false} ExactSkip(s: State, b: nat, k: nat, ask: Ask, now: int, f: Found)
    requires b < |s.chains| && k < |s.chains[b]| && b < |f.state.chains| && Exact(s, b, k + 1, ask, now, f)
    requires s.chains[b][k] in f.state.recs
    requires !Expired(f.state.recs[s.chains[b][k]], now) && !Wanted(f.state.recs[s.chains[b][k]], ask)
    ensures Exact(s, b, k, ask, now, f)
  {
    hide Expired, Wanted, Static, Passed, Distinct, Ends;
    forall x ensures Passed(s.chains[b], k + 1, x) <==> Passed(s.chains[b], k, x) || x == s.chains[b][k] { PassedNext(s.chains[b], k, x); }
  }

  lemma {:induction false} ExactRemoved(s: State, t: State, b: nat, k: nat, ask: Ask, now: int, f: Found)
    requires b < |s.chains| == |t.chains| && k < |s.chains[b]| && b < |f.state.chains|
    requires t.chains[b] == RemoveAt(s.chains[b], k) && Exact(t, b, k, ask, now, f)
    ensures Exact(s, b, k, ask, now, f)
  {
    hide Expired, Wanted, Static, Passed, Distinct, Ends;
    forall x ensures Passed(s.chains[b], k, x) <==> Passed(t.chains[b], k, x) { PassedRemoved(s.chains[b], k, x); }
  }

  lemma {:induction false} PassedRemoved(chain: seq<Id>, k: nat, x: Id)
    requires k < |chain|
    ensures Passed(RemoveAt(chain, k), k, x) <==> Passed(chain, k, x)
  {
    if Passed(chain, k, x) {
      var i :| 0 <= i < k && chain[i] == x;
      RemoveAtElement(chain, k, i);
    }
    if Passed(RemoveAt(chain, k), k, x) {
      var i :| 0 <= i < k && RemoveAt(chain, k)[i] == x;
      RemoveAtElement(chain, k, i);
    }
  }

  lemma {:induction false} ConsDistinct(id: Id, s: seq<Id>)
    requires Distinct(s) && id !in s
    ensures Distinct([id] + s)
  {
  }

  lemma {:induction false} NotPassed(chain: seq<Id>, k: nat)
    requires Distinct(chain) && k < |chain|
    ensures !Passed(chain, k, chain[k])
  {
  }

  /** An answer joins the answers after it. */
  lemma {:induction false} ExactAnswer(s: State, t: State, b: nat, k: nat, ask: Ask, now: int, f: Found, g: Found)
    requires b < |s.chains| == |t.chains| && k < |s.chains[b]| == |t.chains[b]| && b < |f.state.chains| && Exact(t, b, k + 1, ask, now, f)
    requires forall x :: Passed(t.chains[b], k + 1, x) <==> Passed(s.chains[b], k, x) || x == s.chains[b][k]
    requires Distinct(s.chains[b]) && s.chains[b][k] in f.state.recs
    requires var r := f.state.recs[s.chains[b][k]];
             && !Expired(r, now) && Wanted(r, ask)
             && g == Prepend(f, s.chains[b][k], Static(r))
    ensures Exact(s, b, k, ask, now, g)
  {
    hide Expired, Wanted, Static, Passed, Distinct, Ends;
    var id := s.chains[b][k];
    NotPassed(s.chains[b], k);
    if Static(f.state.recs[id]) { ConsDistinct(id, f.hosts); } else { ConsDistinct(id, f.cached); }
  }

  lemma {:induction false} FindUndisturbed(s: State, b: nat, k: nat, ask: Ask, now: int, to: Option<nat>, last: Option<Id>)
    requires Inv(s) && b < |s.chains| && k <= |s.chains[b]| && ToOk(s, b, k, to)
    ensures var t := Find(s, b, k, ask, now, to, last).state;
            Undisturbed(s, t) && forall c | 0 <= c < |s.chains| && c != b :: t.chains[c] == s.chains[c]
    decreases |s.chains[b]| - k
  {
    hide Inv, Gone, Ends, Wanted, Static, Undisturbed, Remove, Answer, ToOk, NextTo;
    SelfUndisturbed(s);
    if k < |s.chains[b]| {
      HashedRecord(s, b, k);
      var r := s.recs[s.chains[b][k]];
      if Ends(r, ask) {
      } else if Gone(s.recs, r, ask, now) {
        RemoveTo(s, b, k, to);
        RemoveUndisturbed(s, b, k);
        FindUndisturbed(Remove(s, b, k), b, k, ask, now, to, last);
        UndisturbedTrans(s, Remove(s, b, k), Find(s, b, k, ask, now, to, last).state);
      } else if Wanted(r, ask) {
        var t, l := Answer(s, b, k, to, last), if Static(r) then Some(s.chains[b][k]) else last;
        AnswerUndisturbed(s, b, k, to, last);
        AnswerChain(s, b, k, to, last);
        NextToOk(s, b, k, to, last, ask);
        FindUndisturbed(t, b, k + 1, ask, now, NextTo(s, b, k, to, ask), l);
        UndisturbedTrans(s, t, Find(s, b, k, ask, now, to, last).state);
      } else {
        ToLater(s, b, k, to);
        FindUndisturbed(s, b, k + 1, ask, now, to, last);
      }
    }
  }

  lemma {:induction false} ToLater(s: State, b: nat, k: nat, to: Option<nat>)
    requires b < |s.chains| && k < |s.chains[b]| && ToOk(s, b, k, to)
    ensures ToOk(s, b, k + 1, to)
  {
  }

  lemma {:induction false} ChainDistinct(s: State, b: nat)
    requires Inv(s) && b < |s.chains|
    ensures Distinct(s.chains[b])
  {
    hide PoolOk, UsedPrefix, BigOk, UidOk, RecordOk, StaticOk, InOrder, Bucket;
    ChainOfTable(s.mix, s.recs, s.chains, b);
  }

  /** A record that is still in its chain is the record it was. */
  lemma {:induction false} SameRecord(s: State, t: State, b: nat, id: Id)
    requires Undisturbed(s, t) && b < |t.chains| && id in t.chains[b] && id in s.recs
    ensures id in t.recs && t.recs[id] == s.recs[id]
  {
    assert Hashed(t.chains, id);
  }

  /** A record passed is still in the chain at the end. */
  lemma {:induction false} PassedStays(s: State, b: nat, k: nat, ask: Ask, now: int, f: Found, id: Id)
    requires b < |s.chains| && k <= |s.chains[b]| && b < |f.state.chains|
    requires Exact(s, b, k, ask, now, f) && Passed(s.chains[b], k, id)
    ensures id in f.state.chains[b]
  {
    hide Wanted, Expired, Static, Distinct, Passed, Ends;
  }

  lemma {:induction false} NotGone(recs: map<Id, Record>, r: Record, ask: Ask, now: int)
    requires !Gone(recs, r, ask, now)
    ensures !Expired(r, now)
  {
    hide Expired, Outdated;
  }

  /** The answers of a walk are exactly the live records of the chain that match, each once. */
  lemma {:induction false} FindExact(s: State, b: nat, k: nat, ask: Ask, now: int, to: Option<nat>, last: Option<Id>)
    requires Inv(s) && b < |s.chains| && k <= |s.chains[b]| && ToOk(s, b, k, to)
    ensures Exact(s, b, k, ask, now, Find(s, b, k, ask, now, to, last))
    decreases |s.chains[b]| - k
  {
    hide Inv, Gone, Ends, Wanted, Static, Undisturbed, Remove, Answer, ToOk, NextTo, Exact, Passed, Prepend, Expired;
    if k == |s.chains[b]| {
      ExactNone(s, b, ask, now, last);
    } else {
      HashedRecord(s, b, k);
      var r := s.recs[s.chains[b][k]];
      if Ends(r, ask) {
        ExactEnds(s, b, k, ask, now, last);
      } else if Gone(s.recs, r, ask, now) {
        RemoveTo(s, b, k, to);
        FindExact(Remove(s, b, k), b, k, ask, now, to, last);
        ExactRemoved(s, Remove(s, b, k), b, k, ask, now, Find(s, b, k, ask, now, to, last));
      } else if Wanted(r, ask) {
        AnswerStep(s, b, k, ask, now, to, last);
      } else {
        SkipStep(s, b, k, ask, now, to, last);
      }
    }
  }

  lemma {:induction false} SkipStep(s: State, b: nat, k: nat, ask: Ask, now: int, to: Option<nat>, last: Option<Id>)
    requires Inv(s) && b < |s.chains| && k < |s.chains[b]| && ToOk(s, b, k, to) && s.chains[b][k] in s.recs
    requires var r := s.recs[s.chains[b][k]]; !Ends(r, ask) && !Gone(s.recs, r, ask, now) && !Wanted(r, ask)
    ensures Exact(s, b, k, ask, now, Find(s, b, k, ask, now, to, last))
    decreases |s.chains[b]| - k, 0
  {
    hide Inv, Gone, Ends, Wanted, Static, Undisturbed, Remove, Answer, ToOk, NextTo, Exact, Passed, Prepend, Expired;
    var id := s.chains[b][k];
    ToLater(s, b, k, to);
    NotGone(s.recs, s.recs[id], ask, now);
    FindExact(s, b, k + 1, ask, now, to, last);
    FindUndisturbed(s, b, k + 1, ask, now, to, last);
    var f := Find(s, b, k + 1, ask, now, to, last);
    PassedNext(s.chains[b], k, id);
    PassedStays(s, b, k + 1, ask, now, f, id);
    SameRecord(s, f.state, b, id);
    ExactSkip(s, b, k, ask, now, f);
  }

  lemma {:induction false} AnswerStep(s: State, b: nat, k: nat, ask: Ask, now: int, to: Option<nat>, last: Option<Id>)
    requires Inv(s) && b < |s.chains| && k < |s.chains[b]| && ToOk(s, b, k, to) && s.chains[b][k] in s.recs
    requires var r := s.recs[s.chains[b][k]]; !Ends(r, ask) && !Gone(s.recs, r, ask, now) && Wanted(r, ask)
    ensures Exact(s, b, k, ask, now, Find(s, b, k, ask, now, to, last))
    decreases |s.chains[b]| - k, 0
  {
    hide Inv, Gone, Ends, Wanted, Static, Undisturbed, Remove, Answer, ToOk, NextTo, Exact, Passed, Prepend, Expired;
    var id := s.chains[b][k];
    var r, t, to' := s.recs[id], Answer(s, b, k, to, last), NextTo(s, b, k, to, ask);
    var l := if Static(r) then Some(id) else last;
    AnswerChain(s, b, k, to, last);
    NextToOk(s, b, k, to, last, ask);
    NotGone(s.recs, r, ask, now);
    FindExact(t, b, k + 1, ask, now, to', l);
    FindUndisturbed(t, b, k + 1, ask, now, to', l);
    var f := Find(t, b, k + 1, ask, now, to', l);
    PassedStays(t, b, k + 1, ask, now, f, id);
    SameRecord(t, f.state, b, id);
    ChainDistinct(s, b);
    ExactAnswer(s, t, b, k, ask, now, f, Prepend(f, id, Static(r)));
  }

  // ----- The list after a lookup.

  ghost function Rev(s: seq<Id>): (r: seq<Id>)
    ensures |r| == |s|
  {
    if s == [] then [] else Rev(s[1..]) + [s[0]]
  }

  lemma {:induction false} IndexPast(pre: seq<Id>, w: seq<Id>, id: Id)
    requires id in pre + w && id !in pre
    ensures id in w && Without(pre + w, id) == pre + Without(w, id)
  {
    var s, k := pre + w, IndexOf(pre + w, id);
    IndexAfter(pre, w, id);
    assert RemoveAt(s, k) == pre + RemoveAt(w, k - |pre|);
  }

  lemma {:induction false} IndexAfter(pre: seq<Id>, w: seq<Id>, id: Id)
    requires id !in pre && id in pre + w && id in w
    ensures IndexOf(pre + w, id) == |pre| + IndexOf(w, id)
  {
    if pre == [] {
      assert pre + w == w;
    } else {
      assert (pre + w)[1..] == pre[1..] + w;
      IndexAfter(pre[1..], w, id);
    }
  }

  /** id is not among the records from k on. */
  ghost predicate Behind(chain: seq<Id>, k: nat, id: Id) { forall i | k <= i < |chain| :: chain[i] != id }

  /** The list starts with records the walk will not meet. */
  ghost predicate Front(s: State, b: nat, k: nat, pre: seq<Id>)
    requires b < |s.chains| && k <= |s.chains[b]|
  {
    |pre| <= |s.lru| && s.lru[..|pre|] == pre && forall x | x in pre :: Behind(s.chains[b], k, x)
  }

  lemma {:induction false} BehindRemoved(chain: seq<Id>, k: nat, x: Id)
    requires k < |chain| && Behind(chain, k, x)
    ensures Behind(RemoveAt(chain, k), k, x)
  {
    forall i | k <= i < |chain| - 1 ensures RemoveAt(chain, k)[i] != x { RemoveAtElement(chain, k, i); }
  }

  lemma {:induction false} FrontRemoved(s: State, b: nat, k: nat, pre: seq<Id>)
    requires Inv(s) && b < |s.chains| && k < |s.chains[b]| && Front(s, b, k, pre)
    ensures Front(Remove(s, b, k), b, k, pre)
  {
    hide PoolOk, UsedPrefix, BigOk, UidOk, RecordOk, StaticOk, TableOk, RemoveAt, Hashed, Behind;
    var t, id := Remove(s, b, k), s.chains[b][k];
    HashedRecord(s, b, k);
    NotBehind(s.chains[b], k);
    forall x | x in pre ensures Behind(t.chains[b], k, x) { BehindRemoved(s.chains[b], k, x); }
    if id < s.n {
      assert s.lru == pre + s.lru[|pre|..];
      IndexPast(pre, s.lru[|pre|..], id);
      SizesAgree(s, t);
    }
  }

  lemma {:induction false} NotBehind(chain: seq<Id>, k: nat)
    requires k < |chain|
    ensures !Behind(chain, k, chain[k])
  {
  }

  lemma {:induction false} BehindLater(chain: seq<Id>, t: seq<Id>, k: nat)
    requires Distinct(chain) && k < |chain| == |t| && forall i | k < i < |chain| :: t[i] == chain[i]
    ensures Behind(t, k + 1, chain[k])
    ensures forall x | Behind(chain, k, x) :: Behind(t, k + 1, x)
  {
  }

  lemma {:induction false} FrontAnswered(s: State, b: nat, k: nat, to: Option<nat>, last: Option<Id>, pre: seq<Id>)
    requires Inv(s) && b < |s.chains| && k < |s.chains[b]| && ToOk(s, b, k, to) && Front(s, b, k, pre)
    ensures s.chains[b][k] in s.recs
    ensures Front(Answer(s, b, k, to, last), b, k + 1, if Static(s.recs[s.chains[b][k]]) then pre else [s.chains[b][k]] + pre)
  {
    hide Inv, Passed, RemoveAt, Hashed, MoveUp, Static, OrderFlags, Without, Behind;
    var t, id := Answer(s, b, k, to, last), s.chains[b][k];
    HashedRecord(s, b, k);
    AnswerChain(s, b, k, to, last);
    ChainDistinct(s, b);
    NotBehind(s.chains[b], k);
    BehindLater(s.chains[b], t.chains[b], k);
    if !Static(s.recs[id]) {
      assert s.lru == pre + s.lru[|pre|..];
      IndexPast(pre, s.lru[|pre|..], id);
      assert t.lru == [id] + (pre + Without(s.lru[|pre|..], id));
    }
  }

  /** The cached answers, last one first, come to stand at the head of the list. */
  lemma {:induction false} FindFront(s: State, b: nat, k: nat, ask: Ask, now: int, to: Option<nat>, last: Option<Id>, pre: seq<Id>)
    requires Inv(s) && b < |s.chains| && k <= |s.chains[b]| && ToOk(s, b, k, to) && Front(s, b, k, pre)
    ensures var f := Find(s, b, k, ask, now, to, last);
            var p := Rev(f.cached) + pre;
            |p| <= |f.state.lru| && f.state.lru[..|p|] == p
    decreases |s.chains[b]| - k
  {
    hide Inv, Gone, Ends, Wanted, Static, Remove, Answer, ToOk, NextTo, Front;
    FrontDone(s, b, k, pre);
    if k < |s.chains[b]| {
      HashedRecord(s, b, k);
      var id := s.chains[b][k];
      var r := s.recs[id];
      if Ends(r, ask) {
      } else if Gone(s.recs, r, ask, now) {
        RemoveTo(s, b, k, to);
        FrontRemoved(s, b, k, pre);
        FindFront(Remove(s, b, k), b, k, ask, now, to, last, pre);
      } else if Wanted(r, ask) {
        var t, l := Answer(s, b, k, to, last), if Static(r) then Some(id) else last;
        FrontAnswered(s, b, k, to, last, pre);
        NextToOk(s, b, k, to, last, ask);
        FindFront(t, b, k + 1, ask, now, NextTo(s, b, k, to, ask), l, if Static(r) then pre else [id] + pre);
        RevPrepend(Find(t, b, k + 1, ask, now, NextTo(s, b, k, to, ask), l), id, Static(r), pre);
      } else {
        ToLater(s, b, k, to);
        FrontLater(s, b, k, pre);
        FindFront(s, b, k + 1, ask, now, to, last, pre);
      }
    }
  }

  lemma {:induction false} RevPrepend(f: Found, id: Id, host: bool, pre: seq<Id>)
    ensures Rev(Prepend(f, id, host).cached) + pre == Rev(f.cached) + if host then pre else [id] + pre
  {
    if !host {
      assert ([id] + f.cached)[1..] == f.cached;
    }
  }

  lemma {:induction false} FrontDone(s: State, b: nat, k: nat, pre: seq<Id>)
    requires b < |s.chains| && k <= |s.chains[b]| && Front(s, b, k, pre)
    ensures Rev([]) + pre == pre && |pre| <= |s.lru| && s.lru[..|pre|] == pre
  {
  }

  lemma {:induction false} FrontLater(s: State, b: nat, k: nat, pre: seq<Id>)
    requires b < |s.chains| && k < |s.chains[b]| && Front(s, b, k, pre)
    ensures Front(s, b, k + 1, pre)
  {
  }

  // ----- The answer links.

  /** Each host links to the next, `last` to the first; the last one is still open. */
  ghost predicate LinkedAfter(f: Found, last: Option<Id>) {
    && f.last == (if f.hosts == [] then last else Some(f.hosts[|f.hosts| - 1]))
    && (last.Some? && f.hosts != [] ==> last.value in f.state.links && f.state.links[last.value] == Some(f.hosts[0]))
    && (forall i | 0 <= i < |f.hosts| :: LinkedAt(f, i))
  }

  ghost predicate LinkedAt(f: Found, i: nat)
    requires i < |f.hosts|
  {
    i + 1 < |f.hosts| ==> f.hosts[i] in f.state.links && f.state.links[f.hosts[i]] == Some(f.hosts[i + 1])
  }

  /** Links of records that are neither `last` nor among the hosts found stay as they were. */
  ghost predicate OtherLinks(s: State, f: Found, last: Option<Id>) {
    forall x | x in s.links && last != Some(x) && x !in f.hosts :: x in f.state.links && f.state.links[x] == s.links[x]
  }

  ghost predicate LastBehind(s: State, b: nat, k: nat, last: Option<Id>)
    requires b < |s.chains| && k <= |s.chains[b]|
  {
    last.Some? ==> Behind(s.chains[b], k, last.value)
  }

  lemma {:induction false} PrependLinked(s: State, t: State, f: Found, id: Id, last: Option<Id>)
    requires t.links == LinkAfter(s, last, Some(id)).links && LinkedAfter(f, Some(id)) && OtherLinks(t, f, Some(id))
    requires id !in f.hosts && last != Some(id) && (last.Some? ==> last.value !in f.hosts)
    ensures LinkedAfter(Prepend(f, id, true), last) && OtherLinks(s, Prepend(f, id, true), last)
  {
    var g := Prepend(f, id, true);
    forall i | 0 <= i < |g.hosts| ensures LinkedAt(g, i) {
      if i > 0 { assert LinkedAt(f, i - 1); }
    }
  }

  lemma {:induction false} PrependCached(s: State, t: State, f: Found, id: Id, last: Option<Id>)
    requires t.links == s.links && LinkedAfter(f, last) && OtherLinks(t, f, last)
    ensures LinkedAfter(Prepend(f, id, false), last) && OtherLinks(s, Prepend(f, id, false), last)
  {
    var g := Prepend(f, id, false);
    forall i | 0 <= i < |g.hosts| ensures LinkedAt(g, i) { assert LinkedAt(f, i); }
  }

  lemma {:induction false} RemoveLinks(s: State, b: nat, k: nat)
    requires Inv(s) && b < |s.chains| && k < |s.chains[b]|
    ensures Remove(s, b, k).links == s.links
  {
    hide PoolOk, UsedPrefix, BigOk, UidOk, RecordOk, StaticOk, TableOk;
  }

  lemma {:induction false} AnswerLinks(s: State, b: nat, k: nat, to: Option<nat>, last: Option<Id>)
    requires Inv(s) && b < |s.chains| && k < |s.chains[b]| && ToOk(s, b, k, to)
    ensures var id := s.chains[b][k];
            id in s.recs && Answer(s, b, k, to, last).links == if Static(s.recs[id]) then LinkAfter(s, last, Some(id)).links else s.links
  {
    hide Inv, OrderFlags, Static, MoveUp;
    HashedRecord(s, b, k);
  }

  lemma {:induction false} SelfLinked(s: State, last: Option<Id>)
    ensures LinkedAfter(Found(s, [], [], last), last) && OtherLinks(s, Found(s, [], [], last), last)
  {
  }

  /** The walk links the hosts it finds behind `last`, in chain order. */
  lemma {:induction false} FindLinks(s: State, b: nat, k: nat, ask: Ask, now: int, to: Option<nat>, last: Option<Id>)
    requires Inv(s) && b < |s.chains| && k <= |s.chains[b]| && ToOk(s, b, k, to) && LastBehind(s, b, k, last)
    ensures LinkedAfter(Find(s, b, k, ask, now, to, last), last)
    ensures OtherLinks(s, Find(s, b, k, ask, now, to, last), last)
    decreases |s.chains[b]| - k
  {
    hide Inv, Gone, Ends, Wanted, Static, Remove, Answer, ToOk, NextTo, LinkedAfter, OtherLinks, Behind;
    SelfLinked(s, last);
    if k < |s.chains[b]| {
      HashedRecord(s, b, k);
      var r := s.recs[s.chains[b][k]];
      if Ends(r, ask) {
      } else if Gone(s.recs, r, ask, now) {
        RemoveTo(s, b, k, to);
        if last.Some? { BehindRemoved(s.chains[b], k, last.value); }
        RemoveLinks(s, b, k);
        FindLinks(Remove(s, b, k), b, k, ask, now, to, last);
        LinksOnly(s, Remove(s, b, k), Find(s, b, k, ask, now, to, last), last);
      } else if Wanted(r, ask) {
        AnswerFindLinks(s, b, k, ask, now, to, last);
      } else {
        ToLater(s, b, k, to);
        ChainDistinct(s, b);
        BehindLater(s.chains[b], s.chains[b], k);
        FindLinks(s, b, k + 1, ask, now, to, last);
      }
    }
  }

  lemma {:induction false} LinksOnly(s: State, t: State, f: Found, last: Option<Id>)
    requires s.links == t.links && OtherLinks(t, f, last)
    ensures OtherLinks(s, f, last)
  {
  }

  lemma {:induction false} AnswerFindLinks(s: State, b: nat, k: nat, ask: Ask, now: int, to: Option<nat>, last: Option<Id>)
    requires Inv(s) && b < |s.chains| && k < |s.chains[b]| && ToOk(s, b, k, to) && LastBehind(s, b, k, last) && s.chains[b][k] in s.recs
    requires var r := s.recs[s.chains[b][k]]; !Ends(r, ask) && !Gone(s.recs, r, ask, now) && Wanted(r, ask)
    ensures LinkedAfter(Find(s, b, k, ask, now, to, last), last)
    ensures OtherLinks(s, Find(s, b, k, ask, now, to, last), last)
    decreases |s.chains[b]| - k, 0
  {
    hide Inv, Gone, Ends, Wanted, Static, Remove, Answer, ToOk, NextTo, LinkedAfter, OtherLinks, Passed, Prepend, LinkAfter, Behind;
    var id := s.chains[b][k];
    var r, t := s.recs[id], Answer(s, b, k, to, last);
    var l, to' := if Static(r) then Some(id) else last, NextTo(s, b, k, to, ask);
    AnswerChain(s, b, k, to, last);
    AnswerLinks(s, b, k, to, last);
    ChainDistinct(s, b);
    NotBehind(s.chains[b], k);
    BehindLater(s.chains[b], t.chains[b], k);
    NextToOk(s, b, k, to, last, ask);
    FindLinks(t, b, k + 1, ask, now, to', l);
    var f := Find(t, b, k + 1, ask, now, to', l);
    if Static(r) {
      HostsAhead(t, b, k + 1, ask, now, to', l, id);
      if last.Some? { HostsAhead(t, b, k + 1, ask, now, to', l, last.value); }
      PrependLinked(s, t, f, id, last);
    } else {
      PrependCached(s, t, f, id, last);
    }
  }

  lemma {:induction false} HostsAhead(s: State, b: nat, k: nat, ask: Ask, now: int, to: Option<nat>, last: Option<Id>, x: Id)
    requires Inv(s) && b < |s.chains| && k <= |s.chains[b]| && ToOk(s, b, k, to) && Behind(s.chains[b], k, x)
    ensures x !in Find(s, b, k, ask, now, to, last).hosts && x !in Find(s, b, k, ask, now, to, last).cached
  {
    hide Inv, Ends, Gone, Wanted, Static, Expired, Distinct, ToOk, Find, Passed, Behind;
    var f := Find(s, b, k, ask, now, to, last);
    FindExact(s, b, k, ask, now, to, last);
    FindUndisturbed(s, b, k, ask, now, to, last);
    if x in f.hosts || x in f.cached {
      StaysIn(s, f.state, b, x);
      BehindIsPassed(s.chains[b], k, x);
    }
  }

  lemma {:induction false} BehindIsPassed(chain: seq<Id>, k: nat, x: Id)
    requires k <= |chain| && x in chain && Behind(chain, k, x)
    ensures Passed(chain, k, x)
  {
    var i := IndexOf(chain, x);
    assert i < k;
  }

  /** A record in chain b at the end was in chain b before. */
  lemma {:induction false} StaysIn(s: State, t: State, b: nat, x: Id)
    requires Inv(s) && Inv(t) && Undisturbed(s, t) && s.mix == t.mix && b < |s.chains| == |t.chains| && x in t.chains[b]
    ensures x in s.chains[b]
  {
    hide PoolOk, UsedPrefix, BigOk, UidOk, RecordOk, StaticOk, Hashed, Bucket, Distinct, InOrder;
    var i := IndexOf(t.chains[b], x);
    HashedAt(t.chains, b, i);
    ChainOfTable(t.mix, t.recs, t.chains, b);
    HashedIn(s, x);
  }
}
