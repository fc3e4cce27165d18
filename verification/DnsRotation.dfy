/** The order a lookup by name leaves its chain in: the round-robin over the answers. */
module DnsRotation {
  import opened DnsRecords
  import opened Options
  import opened Sequences
  import opened DnsSteps
  import opened DnsScan
  import opened DnsLookup
  import opened DnsAnswers
  import opened DnsAliases
  import opened DnsFates

  /** The two flags that decide a record's place in its chain agree. */
  predicate SameOrder(a: Record, b: Record) {
    (Reverse in a.flags <==> Reverse in b.flags) && (Immortal in a.flags <==> Immortal in b.flags)
  }

  /** All records, those that answer, or, against the first answer, the answers of its order and the others. */
  datatype Pick = All | Answering | Movers(first: Record) | Others(first: Record)

  predicate Picks(r: Record, ask: Ask, pick: Pick) {
    match pick
    case All => true
    case Answering => Wanted(r, ask)
    case Movers(first) => Wanted(r, ask) && SameOrder(r, first)
    case Others(first) => !(Wanted(r, ask) && SameOrder(r, first))
  }

  /** Record i of the chain stays and is picked. */
  ghost predicate Chooses(recs: map<Id, Record>, n: nat, chain: seq<Id>, i: nat, ask: Ask, goes: Record -> bool, pick: Pick)
    requires i < |chain|
  {
    chain[i] in recs && !Falls(recs, n, chain, i, goes) && Picks(recs[chain[i]], ask, pick)
  }

  /** The records from lo to m that stay and are picked, in chain order. */
  ghost function Chosen(recs: map<Id, Record>, n: nat, chain: seq<Id>, lo: nat, m: nat, ask: Ask, goes: Record -> bool, pick: Pick): seq<Id>
    requires m <= |chain|
  {
    if m <= lo then []
    else Chosen(recs, n, chain, lo, m - 1, ask, goes, pick) + if Chooses(recs, n, chain, m - 1, ask, goes, pick) then [chain[m - 1]] else []
  }

  /** Record i is the first answer. */
  ghost predicate FirstReply(recs: map<Id, Record>, n: nat, chain: seq<Id>, i: nat, ask: Ask, goes: Record -> bool)
    requires i < |chain|
  {
    chain[i] in recs && Chooses(recs, n, chain, i, ask, goes, Answering) && forall j: nat | j < i :: !Chooses(recs, n, chain, j, ask, goes, Answering)
  }

  ghost predicate NoReply(recs: map<Id, Record>, n: nat, chain: seq<Id>, ask: Ask, goes: Record -> bool) {
    forall j: nat | j < |chain| :: !Chooses(recs, n, chain, j, ask, goes, Answering)
  }

  /** The chain when record i is the first answer: the later answers of its order, in order, stand right in
      front of it; all other records that stay keep their order. */
  ghost function TurnedAt(recs: map<Id, Record>, n: nat, chain: seq<Id>, i: nat, ask: Ask, goes: Record -> bool): seq<Id>
    requires i < |chain| && chain[i] in recs
  {
    Chosen(recs, n, chain, 0, i, ask, goes, All)
    + Chosen(recs, n, chain, i + 1, |chain|, ask, goes, Movers(recs[chain[i]]))
    + [chain[i]]
    + Chosen(recs, n, chain, i + 1, |chain|, ask, goes, Others(recs[chain[i]]))
  }

  /** t is what the round-robin makes of the chain, behind `front`; without an answer the records that stay
      keep their order. */
  ghost predicate Turned(recs: map<Id, Record>, n: nat, chain: seq<Id>, ask: Ask, goes: Record -> bool, front: seq<Id>, t: seq<Id>) {
    && (NoReply(recs, n, chain, ask, goes) ==> t == front + Chosen(recs, n, chain, 0, |chain|, ask, goes, All))
    && forall i: nat | i < |chain| && FirstReply(recs, n, chain, i, ask, goes) :: t == front + TurnedAt(recs, n, chain, i, ask, goes)
  }

  // ----- The rest of a chain.

  lemma {:induction false} ChoosesNext(recs: map<Id, Record>, recs': map<Id, Record>, n: nat, chain: seq<Id>, i: nat, ask: Ask, goes: Record -> bool, pick: Pick)
    requires chain != [] && Leads(recs, recs', n, chain, goes) && 1 <= i < |chain|
    ensures Chooses(recs', n, chain[1..], i - 1, ask, goes, pick) <==> Chooses(recs, n, chain, i, ask, goes, pick)
    ensures chain[i] in recs && chain[i] in recs' && recs'[chain[i]] == recs[chain[i]] && chain[1..][i - 1] == chain[i]
  {
    hide Falls, Leads, Picks;
    FallsNext(recs, recs', n, chain, i, goes);
    SameLater(recs, recs', n, chain, i, goes);
  }

  lemma {:induction false} ChosenNext(recs: map<Id, Record>, recs': map<Id, Record>, n: nat, chain: seq<Id>, lo: nat, m: nat, ask: Ask, goes: Record -> bool, pick: Pick)
    requires chain != [] && Leads(recs, recs', n, chain, goes) && 1 <= lo && 1 <= m <= |chain|
    ensures Chosen(recs, n, chain, lo, m, ask, goes, pick) == Chosen(recs', n, chain[1..], lo - 1, m - 1, ask, goes, pick)
  {
    hide Chooses, Leads, Chosen;
    ChosenLast(recs, n, chain, lo, m, ask, goes, pick);
    ChosenLast(recs', n, chain[1..], lo - 1, m - 1, ask, goes, pick);
    if m > lo {
      ChosenNext(recs, recs', n, chain, lo, m - 1, ask, goes, pick);
      ChoosesNext(recs, recs', n, chain, m - 1, ask, goes, pick);
    }
  }

  lemma {:induction false} ChosenLast(recs: map<Id, Record>, n: nat, chain: seq<Id>, lo: nat, m: nat, ask: Ask, goes: Record -> bool, pick: Pick)
    requires m <= |chain|
    ensures Chosen(recs, n, chain, lo, m, ask, goes, pick)
         == if m <= lo then [] else
              Chosen(recs, n, chain, lo, m - 1, ask, goes, pick) + if Chooses(recs, n, chain, m - 1, ask, goes, pick) then [chain[m - 1]] else []
  {
    hide Chooses;
  }

  lemma {:induction false} ChosenFirst(recs: map<Id, Record>, n: nat, chain: seq<Id>, m: nat, ask: Ask, goes: Record -> bool, pick: Pick)
    requires 1 <= m <= |chain|
    ensures Chosen(recs, n, chain, 0, m, ask, goes, pick)
         == (if Chooses(recs, n, chain, 0, ask, goes, pick) then [chain[0]] else []) + Chosen(recs, n, chain, 1, m, ask, goes, pick)
  {
    hide Chooses;
    if m > 1 {
      ChosenFirst(recs, n, chain, m - 1, ask, goes, pick);
    } else {
      assert Chosen(recs, n, chain, 0, 0, ask, goes, pick) == [] == Chosen(recs, n, chain, 1, 1, ask, goes, pick);
    }
  }

  /** Both together: the first record and what the rest gives. */
  lemma {:induction false} ChosenStep(recs: map<Id, Record>, recs': map<Id, Record>, n: nat, chain: seq<Id>, ask: Ask, goes: Record -> bool, pick: Pick)
    requires chain != [] && Leads(recs, recs', n, chain, goes)
    ensures Chosen(recs, n, chain, 0, |chain|, ask, goes, pick)
         == (if Chooses(recs, n, chain, 0, ask, goes, pick) then [chain[0]] else []) + Chosen(recs', n, chain[1..], 0, |chain| - 1, ask, goes, pick)
  {
    hide Chooses, Leads, Chosen;
    ChosenFirst(recs, n, chain, |chain|, ask, goes, pick);
    ChosenNext(recs, recs', n, chain, 1, |chain|, ask, goes, pick);
  }

  // ----- Behind the first answer.

  /** The chain at the end of a walk that is at record k, the first answer at j. */
  ghost function Behind(s: State, b: nat, k: nat, j: nat, ask: Ask, now: int): seq<Id>
    requires b < |s.chains| && j < k <= |s.chains[b]| && s.chains[b][j] in s.recs
  {
    var chain := s.chains[b];
    var a, rest := s.recs[chain[j]], chain[k..];
    chain[..j] + Chosen(s.recs, s.n, rest, 0, |rest|, ask, Lapsed(now), Movers(a))
    + chain[j..k] + Chosen(s.recs, s.n, rest, 0, |rest|, ask, Lapsed(now), Others(a))
  }

  lemma {:induction false} BehindEnd(s: State, b: nat, j: nat, ask: Ask, now: int)
    requires b < |s.chains| && j < |s.chains[b]| && s.chains[b][j] in s.recs
    ensures Behind(s, b, |s.chains[b]|, j, ask, now) == s.chains[b]
  {
  }

  lemma {:induction false} BehindGone(s: State, b: nat, k: nat, j: nat, ask: Ask, now: int)
    requires Inv(s) && b < |s.chains| && j < k < |s.chains[b]| && s.chains[b][j] in s.recs && Falls(s.recs, s.n, s.chains[b][k..], 0, Lapsed(now))
    ensures var t := Remove(s, b, k);
            && t.chains[b][j] == s.chains[b][j] && t.chains[b][j] in t.recs
            && Behind(s, b, k, j, ask, now) == Behind(t, b, k, j, ask, now)
  {
    hide Inv, Remove, Falls, Leads, Chosen, Picks;
    var t, chain := Remove(s, b, k), s.chains[b];
    LeadsRemove(s, b, k, Lapsed(now));
    RemoveUndisturbed(s, b, k);
    assert t.chains[b][..k] == chain[..k];
    assert t.chains[b][j] == t.chains[b][..k][j] == chain[j];
    SameInChain(s, t, b, chain[j]);
    ChosenStep(s.recs, t.recs, s.n, chain[k..], ask, Lapsed(now), Movers(s.recs[chain[j]]));
    ChosenStep(s.recs, t.recs, s.n, chain[k..], ask, Lapsed(now), Others(s.recs[chain[j]]));
    assert t.chains[b][..j] == chain[..j] && t.chains[b][j..k] == chain[j..k];
  }

  /** A record that stays where it is. */
  lemma {:induction false} BehindStays(s: State, t: State, b: nat, k: nat, j: nat, ask: Ask, now: int)
    requires Inv(s) && b < |s.chains| && j < k < |s.chains[b]| && s.chains[b][j] in s.recs && s.chains[b][k] in s.recs
    requires t.chains == s.chains && t.recs == s.recs && t.n == s.n
    requires !Falls(s.recs, s.n, s.chains[b][k..], 0, Lapsed(now))
    requires !(Wanted(s.recs[s.chains[b][k]], ask) && SameOrder(s.recs[s.chains[b][k]], s.recs[s.chains[b][j]]))
    ensures Behind(s, b, k, j, ask, now) == Behind(t, b, k + 1, j, ask, now)
  {
    hide Inv, Falls, Leads, Chosen, Wanted, SameOrder;
    var chain := s.chains[b];
    LeadsSame(s, b, k, Lapsed(now));
    ChosenStep(s.recs, s.recs, s.n, chain[k..], ask, Lapsed(now), Movers(s.recs[chain[j]]));
    ChosenStep(s.recs, s.recs, s.n, chain[k..], ask, Lapsed(now), Others(s.recs[chain[j]]));
    assert chain[k..][1..] == chain[k + 1..] && chain[j..k + 1] == chain[j..k] + [chain[k]];
  }

  /** An answer that moves up. */
  lemma {:induction false} BehindMoves(s: State, t: State, b: nat, k: nat, j: nat, ask: Ask, now: int)
    requires Inv(s) && b < |s.chains| && j < k < |s.chains[b]| && s.chains[b][j] in s.recs && s.chains[b][k] in s.recs
    requires t.chains == s.chains[b := MoveUp(s.chains[b], k, j)] && t.recs == s.recs && t.n == s.n
    requires !Falls(s.recs, s.n, s.chains[b][k..], 0, Lapsed(now))
    requires Wanted(s.recs[s.chains[b][k]], ask) && SameOrder(s.recs[s.chains[b][k]], s.recs[s.chains[b][j]])
    ensures t.chains[b][j + 1] == s.chains[b][j] && Behind(s, b, k, j, ask, now) == Behind(t, b, k + 1, j + 1, ask, now)
  {
    hide Inv, Falls, Leads, Chosen, Wanted, SameOrder;
    var chain := s.chains[b];
    LeadsSame(s, b, k, Lapsed(now));
    ChosenStep(s.recs, s.recs, s.n, chain[k..], ask, Lapsed(now), Movers(s.recs[chain[j]]));
    ChosenStep(s.recs, s.recs, s.n, chain[k..], ask, Lapsed(now), Others(s.recs[chain[j]]));
    MovedParts(chain, k, j);
  }

  lemma {:induction false} MovedParts(chain: seq<Id>, k: nat, j: nat)
    requires j < k < |chain|
    ensures var t := MoveUp(chain, k, j);
            && t[..j + 1] == chain[..j] + [chain[k]] && t[j + 1..k + 1] == chain[j..k] && t[k + 1..] == chain[k..][1..] && t[j + 1] == chain[j]
  {
  }

  /** What an answer does to its chain. */
  lemma {:induction false} AnswerMoves(s: State, b: nat, k: nat, to: Option<nat>, last: Option<Id>)
    requires Inv(s) && b < |s.chains| && k < |s.chains[b]| && ToOk(s, b, k, to) && s.chains[b][k] in s.recs
    ensures var t := Answer(s, b, k, to, last);
            t.recs == s.recs && t.n == s.n
            && t.chains == if Moves(s, b, k, to) then s.chains[b := MoveUp(s.chains[b], k, to.value)] else s.chains
    ensures to.Some? ==> (Moves(s, b, k, to) <==> SameOrder(s.recs[s.chains[b][k]], s.recs[s.chains[b][to.value]]))
  {
    hide Inv, MoveUp, Note;
    if to.Some? { SameOrderIff(s.recs[s.chains[b][k]], s.recs[s.chains[b][to.value]]); }
  }

  lemma {:induction false} SameOrderIff(a: Record, b: Record)
    ensures SameOrder(a, b) <==> OrderFlags(a) == OrderFlags(b)
  {
    forall r: Record ensures (Reverse in r.flags <==> Reverse in OrderFlags(r)) && (Immortal in r.flags <==> Immortal in OrderFlags(r)) { }
  }

  lemma {:induction false} AfterFirst(s: State, b: nat, k: nat, ask: Ask, now: int, j: nat, last: Option<Id>)
    requires Inv(s) && b < |s.chains| && j < k <= |s.chains[b]| && ToOk(s, b, k, Some(j)) && s.chains[b][j] in s.recs && ask.Name?
    ensures Find(s, b, k, ask, now, Some(j), last).state.chains[b] == Behind(s, b, k, j, ask, now)
    decreases |s.chains[b]| - k
  {
    hide Inv, Gone, Ends, Wanted, Static, Remove, Answer, ToOk, Falls, SameOrder, Moves, Find, Behind;
    FindUnfold(s, b, k, ask, now, Some(j), last);
    if k == |s.chains[b]| {
      BehindEnd(s, b, j, ask, now);
    } else {
      FallsFirst(s, b, k, ask, now);
      var id := s.chains[b][k];
      var r := s.recs[id];
      NeverEnds(s.recs, r, ask);
      if Gone(s.recs, r, ask, now) {
        BehindGone(s, b, k, j, ask, now);
        AfterFirst(Remove(s, b, k), b, k, ask, now, j, last);
      } else if Wanted(r, ask) {
        AnswerBehind(s, b, k, ask, now, j, last);
      } else {
        BehindStays(s, s, b, k, j, ask, now);
        AfterFirst(s, b, k + 1, ask, now, j, last);
      }
    }
  }

  lemma {:induction false} AnswerBehind(s: State, b: nat, k: nat, ask: Ask, now: int, j: nat, last: Option<Id>)
    requires Inv(s) && b < |s.chains| && j < k < |s.chains[b]| && ToOk(s, b, k, Some(j)) && s.chains[b][j] in s.recs && ask.Name?
    requires s.chains[b][k] in s.recs && !Falls(s.recs, s.n, s.chains[b][k..], 0, Lapsed(now))
    requires var r := s.recs[s.chains[b][k]]; !Ends(r, ask) && !Gone(s.recs, r, ask, now) && Wanted(r, ask)
    ensures Find(s, b, k, ask, now, Some(j), last).state.chains[b] == Behind(s, b, k, j, ask, now)
    decreases |s.chains[b]| - k, 0
  {
    hide Inv, Gone, Ends, Wanted, Static, Answer, ToOk, Falls, SameOrder, Moves, MoveUp, Find, Behind;
    FindUnfold(s, b, k, ask, now, Some(j), last);
    AnswerMoves(s, b, k, Some(j), last);
    var id := s.chains[b][k];
    var t, l := Answer(s, b, k, Some(j), last), if Static(s.recs[id]) then Some(id) else last;
    if Moves(s, b, k, Some(j)) {
      BehindMoves(s, t, b, k, j, ask, now);
      AfterFirst(t, b, k + 1, ask, now, j + 1, l);
    } else {
      BehindStays(s, t, b, k, j, ask, now);
      AfterFirst(t, b, k + 1, ask, now, j, l);
    }
  }

  // ----- Up to the first answer.

  lemma {:induction false} TurnedNext(recs: map<Id, Record>, recs': map<Id, Record>, n: nat, chain: seq<Id>, ask: Ask, goes: Record -> bool,
      front: seq<Id>, front': seq<Id>, t: seq<Id>)
    requires chain != [] && Leads(recs, recs', n, chain, goes) && !Chooses(recs, n, chain, 0, ask, goes, Answering)
    requires front' == front + if Chooses(recs, n, chain, 0, ask, goes, All) then [chain[0]] else []
    requires Turned(recs', n, chain[1..], ask, goes, front', t)
    ensures Turned(recs, n, chain, ask, goes, front, t)
  {
    hide Chooses, Leads, Chosen, NoReply, TurnedAt;
    var rest := chain[1..];
    if NoReply(recs, n, chain, ask, goes) {
      NoReplyNext(recs, recs', n, chain, ask, goes);
      ChosenStep(recs, recs', n, chain, ask, goes, All);
    }
    forall i: nat | i < |chain| && FirstReply(recs, n, chain, i, ask, goes)
      ensures t == front + TurnedAt(recs, n, chain, i, ask, goes)
    {
      FirstReplyNext(recs, recs', n, chain, i, ask, goes);
      TurnedAtNext(recs, recs', n, chain, i, ask, goes);
    }
  }

  lemma {:induction false} NoReplyNext(recs: map<Id, Record>, recs': map<Id, Record>, n: nat, chain: seq<Id>, ask: Ask, goes: Record -> bool)
    requires chain != [] && Leads(recs, recs', n, chain, goes) && NoReply(recs, n, chain, ask, goes)
    ensures NoReply(recs', n, chain[1..], ask, goes)
  {
    hide Chooses, Leads;
    forall j: nat | j < |chain[1..]| ensures !Chooses(recs', n, chain[1..], j, ask, goes, Answering) {
      ChoosesNext(recs, recs', n, chain, j + 1, ask, goes, Answering);
    }
  }

  lemma {:induction false} FirstReplyNext(recs: map<Id, Record>, recs': map<Id, Record>, n: nat, chain: seq<Id>, i: nat, ask: Ask, goes: Record -> bool)
    requires i < |chain| && Leads(recs, recs', n, chain, goes) && FirstReply(recs, n, chain, i, ask, goes)
    requires !Chooses(recs, n, chain, 0, ask, goes, Answering)
    ensures i > 0 && FirstReply(recs', n, chain[1..], i - 1, ask, goes)
  {
    hide Chooses, Leads;
    ChoosesNext(recs, recs', n, chain, i, ask, goes, Answering);
    forall j: nat | j < i - 1 ensures !Chooses(recs', n, chain[1..], j, ask, goes, Answering) {
      ChoosesNext(recs, recs', n, chain, j + 1, ask, goes, Answering);
    }
  }

  lemma {:induction false} TurnedAtNext(recs: map<Id, Record>, recs': map<Id, Record>, n: nat, chain: seq<Id>, i: nat, ask: Ask, goes: Record -> bool)
    requires 0 < i < |chain| && Leads(recs, recs', n, chain, goes)
    ensures chain[i] in recs && chain[1..][i - 1] in recs'
    ensures TurnedAt(recs, n, chain, i, ask, goes)
         == (if Chooses(recs, n, chain, 0, ask, goes, All) then [chain[0]] else []) + TurnedAt(recs', n, chain[1..], i - 1, ask, goes)
  {
    hide Chooses, Leads, Chosen;
    ChoosesNext(recs, recs', n, chain, i, ask, goes, All);
    var a := recs[chain[i]];
    ChosenFirst(recs, n, chain, i, ask, goes, All);
    ChosenNext(recs, recs', n, chain, 1, i, ask, goes, All);
    ChosenNext(recs, recs', n, chain, i + 1, |chain|, ask, goes, Movers(a));
    ChosenNext(recs, recs', n, chain, i + 1, |chain|, ask, goes, Others(a));
  }

  /** The first record is the first answer. */
  lemma {:induction false} TurnedHere(recs: map<Id, Record>, n: nat, chain: seq<Id>, ask: Ask, goes: Record -> bool, front: seq<Id>, t: seq<Id>)
    requires chain != [] && Leads(recs, recs, n, chain, goes) && Chooses(recs, n, chain, 0, ask, goes, Answering) && chain[0] in recs
    requires var a, rest := recs[chain[0]], chain[1..];
             t == front + Chosen(recs, n, rest, 0, |rest|, ask, goes, Movers(a)) + [chain[0]] + Chosen(recs, n, rest, 0, |rest|, ask, goes, Others(a))
    ensures Turned(recs, n, chain, ask, goes, front, t)
  {
    hide Chooses, Leads;
    var a := recs[chain[0]];
    assert !NoReply(recs, n, chain, ask, goes);
    ChosenNext(recs, recs, n, chain, 1, |chain|, ask, goes, Movers(a));
    ChosenNext(recs, recs, n, chain, 1, |chain|, ask, goes, Others(a));
    assert Chosen(recs, n, chain, 0, 0, ask, goes, All) == [];
    assert t == front + TurnedAt(recs, n, chain, 0, ask, goes);
    forall i: nat | i < |chain| && FirstReply(recs, n, chain, i, ask, goes) ensures i == 0 { }
  }

  lemma {:induction false} UpToFirst(s: State, b: nat, k: nat, ask: Ask, now: int, last: Option<Id>)
    requires Inv(s) && b < |s.chains| && k <= |s.chains[b]| && ToOk(s, b, k, None) && ask.Name?
    ensures Turned(s.recs, s.n, s.chains[b][k..], ask, Lapsed(now), s.chains[b][..k], Find(s, b, k, ask, now, None, last).state.chains[b])
    decreases |s.chains[b]| - k
  {
    hide Inv, Gone, Ends, Wanted, Static, Remove, Answer, ToOk, Falls, Leads, Turned, Find;
    FindUnfold(s, b, k, ask, now, None, last);
    var chain, goes := s.chains[b], Lapsed(now);
    if k == |chain| {
      NothingTurned(s, b, ask, now);
    } else {
      FallsFirst(s, b, k, ask, now);
      var r := s.recs[chain[k]];
      NeverEnds(s.recs, r, ask);
      var t := Find(s, b, k, ask, now, None, last).state.chains[b];
      if Gone(s.recs, r, ask, now) {
        var u := Remove(s, b, k);
        LeadsRemove(s, b, k, goes);
        UpToFirst(u, b, k, ask, now, last);
        assert u.chains[b][..k] == chain[..k];
        TurnedNext(s.recs, u.recs, s.n, chain[k..], ask, goes, chain[..k], chain[..k], t);
      } else {
        LeadsSame(s, b, k, goes);
        if Wanted(r, ask) {
          FirstAnswer(s, b, k, ask, now, last);
        } else {
          UpToFirst(s, b, k + 1, ask, now, last);
          assert chain[k..][1..] == chain[k + 1..];
          TurnedNext(s.recs, s.recs, s.n, chain[k..], ask, goes, chain[..k], chain[..k + 1], t);
        }
      }
    }
  }

  lemma {:induction false} NothingTurned(s: State, b: nat, ask: Ask, now: int)
    requires b < |s.chains|
    ensures Turned(s.recs, s.n, s.chains[b][|s.chains[b]|..], ask, Lapsed(now), s.chains[b][..|s.chains[b]|], s.chains[b])
  {
  }

  lemma {:induction false} FirstAnswer(s: State, b: nat, k: nat, ask: Ask, now: int, last: Option<Id>)
    requires Inv(s) && b < |s.chains| && k < |s.chains[b]| && ToOk(s, b, k, None) && ask.Name? && s.chains[b][k] in s.recs
    requires !Falls(s.recs, s.n, s.chains[b][k..], 0, Lapsed(now)) && Leads(s.recs, s.recs, s.n, s.chains[b][k..], Lapsed(now))
    requires var r := s.recs[s.chains[b][k]]; !Ends(r, ask) && !Gone(s.recs, r, ask, now) && Wanted(r, ask)
    ensures Turned(s.recs, s.n, s.chains[b][k..], ask, Lapsed(now), s.chains[b][..k], Find(s, b, k, ask, now, None, last).state.chains[b])
  {
    hide Inv, Gone, Ends, Wanted, Static, Answer, ToOk, Falls, Leads, Turned, Find, Chosen;
    FindUnfold(s, b, k, ask, now, None, last);
    AnswerMoves(s, b, k, None, last);
    var id, chain := s.chains[b][k], s.chains[b];
    var t, l := Answer(s, b, k, None, last), if Static(s.recs[id]) then Some(id) else last;
    AfterFirst(t, b, k + 1, ask, now, k, l);
    assert chain[k..][1..] == chain[k + 1..] && chain[k..k + 1] == [id];
    TurnedHere(s.recs, s.n, chain[k..], ask, Lapsed(now), chain[..k], Find(s, b, k, ask, now, None, last).state.chains[b]);
  }

  // ----- Whole lookups by name.

  /** A lookup by name turns the name's chain and no other. */
  ghost predicate NameTurned(s: State, t: State, ask: Ask, now: int, b: nat) {
    && b < |s.chains| == |t.chains|
    && Turned(s.recs, s.n, s.chains[b], ask, Lapsed(now), [], t.chains[b])
    && forall c | 0 <= c < |s.chains| && c != b :: t.chains[c] == s.chains[c]
  }

  lemma {:induction false} LookupTurns(s: State, ask: Ask, now: int)
    requires Inv(s) && ask.Name?
    ensures |s.chains| > 0 && NameTurned(s, Lookup(s, ask, now).state, ask, now, Bucket(s.mix, ask.name, |s.chains|))
  {
    hide Inv, Walk, Lookup, Find, Bucket, Turned, Undisturbed, ToOk;
    HasChains(s);
    LookupFields(s, ask, now);
    WalkIs(s, ask, now);
    var b := Bucket(s.mix, ask.name, |s.chains|);
    NoPlace(s, b);
    UpToFirst(s, b, 0, ask, now, None);
    FindUndisturbed(s, b, 0, ask, now, None, None);
    assert s.chains[b][0..] == s.chains[b] && s.chains[b][..0] == [];
  }

  // ----- Round robin.

  /** The records of a list that meet p. */
  ghost function Sift(recs: map<Id, Record>, ids: seq<Id>, p: Record -> bool): seq<Id> {
    if ids == [] then []
    else
      var id := ids[|ids| - 1];
      Sift(recs, ids[..|ids| - 1], p) + if id in recs && p(recs[id]) then [id] else []
  }

  ghost function Asked(ask: Ask): Record -> bool { r => Wanted(r, ask) }

  /** Hosts and DHCP records, or cached ones. */
  ghost function Kind(host: bool): Record -> bool { r => Static(r) == host }

  /** The answers of a chain, in chain order. */
  ghost function Live(s: State, b: nat, ask: Ask, now: int): seq<Id>
    requires b < |s.chains|
  {
    Chosen(s.recs, s.n, s.chains[b], 0, |s.chains[b]|, ask, Lapsed(now), Answering)
  }

  ghost predicate OneOrder(recs: map<Id, Record>, ids: seq<Id>) {
    forall x, y | x in ids && y in ids :: x in recs && y in recs && SameOrder(recs[x], recs[y])
  }

  /** The first element goes to the end. */
  function Rotated(ids: seq<Id>): seq<Id> { if ids == [] then [] else ids[1..] + [ids[0]] }

  lemma {:induction false} SiftJoin(recs: map<Id, Record>, x: seq<Id>, y: seq<Id>, p: Record -> bool)
    ensures Sift(recs, x + y, p) == Sift(recs, x, p) + Sift(recs, y, p)
  {
    if y == [] {
      assert x + y == x;
    } else {
      var n := |y| - 1;
      assert (x + y)[..|x| + n] == x + y[..n];
      SiftJoin(recs, x, y[..n], p);
    }
  }

  lemma {:induction false} SiftOne(recs: map<Id, Record>, id: Id, p: Record -> bool)
    ensures Sift(recs, [id], p) == if id in recs && p(recs[id]) then [id] else []
  {
    assert [id][..0] == [];
  }

  lemma {:induction false} SiftNone(recs: map<Id, Record>, p: Record -> bool)
    ensures Sift(recs, [], p) == []
  {
  }

  lemma {:induction false} SiftMembers(recs: map<Id, Record>, ids: seq<Id>, p: Record -> bool, x: Id)
    ensures x in Sift(recs, ids, p) <==> x in ids && x in recs && p(recs[x])
  {
    if ids != [] {
      var n := |ids| - 1;
      SiftMembers(recs, ids[..n], p, x);
      assert ids == ids[..n] + [ids[n]];
    }
  }

  lemma {:induction false} SiftSame(recs: map<Id, Record>, recs': map<Id, Record>, ids: seq<Id>, p: Record -> bool)
    requires forall x | x in ids :: x in recs && x in recs' && recs[x] == recs'[x]
    ensures Sift(recs, ids, p) == Sift(recs', ids, p)
  {
    if ids != [] {
      var n := |ids| - 1;
      assert ids[n] in ids;
      forall x | x in ids[..n] ensures x in ids { }
      SiftSame(recs, recs', ids[..n], p);
    }
  }

  lemma {:induction false} SiftAll(recs: map<Id, Record>, ids: seq<Id>, p: Record -> bool)
    requires forall x | x in ids :: x in recs && p(recs[x])
    ensures Sift(recs, ids, p) == ids
  {
    if ids != [] {
      var n := |ids| - 1;
      assert ids[n] in ids && ids == ids[..n] + [ids[n]];
      forall x | x in ids[..n] ensures x in ids { }
      SiftAll(recs, ids[..n], p);
    }
  }

  /** The answers among the records that are picked, when every answer is of one order. */
  lemma {:induction false} AskedChosen(recs: map<Id, Record>, n: nat, chain: seq<Id>, lo: nat, m: nat, ask: Ask, goes: Record -> bool, a: Record)
    requires m <= |chain|
    requires forall i: nat | lo <= i < m && Chooses(recs, n, chain, i, ask, goes, Answering) :: chain[i] in recs && SameOrder(recs[chain[i]], a)
    ensures var w := Chosen(recs, n, chain, lo, m, ask, goes, Answering);
            && Sift(recs, Chosen(recs, n, chain, lo, m, ask, goes, All), Asked(ask)) == w
            && Sift(recs, Chosen(recs, n, chain, lo, m, ask, goes, Movers(a)), Asked(ask)) == w
            && Sift(recs, Chosen(recs, n, chain, lo, m, ask, goes, Others(a)), Asked(ask)) == []
  {
    hide Falls, Wanted, SameOrder, Sift;
    SiftNone(recs, Asked(ask));
    if m > lo {
      AskedChosen(recs, n, chain, lo, m - 1, ask, goes, a);
      AddChosen(recs, n, chain, lo, m, ask, goes, All);
      AddChosen(recs, n, chain, lo, m, ask, goes, Movers(a));
      AddChosen(recs, n, chain, lo, m, ask, goes, Others(a));
    }
  }

  lemma {:induction false} AddChosen(recs: map<Id, Record>, n: nat, chain: seq<Id>, lo: nat, m: nat, ask: Ask, goes: Record -> bool, pick: Pick)
    requires lo < m <= |chain|
    ensures Sift(recs, Chosen(recs, n, chain, lo, m, ask, goes, pick), Asked(ask))
         == Sift(recs, Chosen(recs, n, chain, lo, m - 1, ask, goes, pick), Asked(ask))
            + if Chooses(recs, n, chain, m - 1, ask, goes, pick) && Wanted(recs[chain[m - 1]], ask) then [chain[m - 1]] else []
  {
    hide Falls, Wanted, SameOrder, Sift;
    SiftOne(recs, chain[m - 1], Asked(ask));
    SiftNone(recs, Asked(ask));
    SiftJoin(recs, Chosen(recs, n, chain, lo, m - 1, ask, goes, pick),
                if Chooses(recs, n, chain, m - 1, ask, goes, pick) then [chain[m - 1]] else [], Asked(ask));
  }

  lemma {:induction false} ChosenSplit(recs: map<Id, Record>, n: nat, chain: seq<Id>, i: nat, m: nat, ask: Ask, goes: Record -> bool, pick: Pick)
    requires i < m <= |chain|
    ensures Chosen(recs, n, chain, 0, m, ask, goes, pick)
         == Chosen(recs, n, chain, 0, i, ask, goes, pick)
            + (if Chooses(recs, n, chain, i, ask, goes, pick) then [chain[i]] else [])
            + Chosen(recs, n, chain, i + 1, m, ask, goes, pick)
  {
    hide Chooses;
    if m > i + 1 { ChosenSplit(recs, n, chain, i, m - 1, ask, goes, pick); }
  }

  lemma {:induction false} NoneChosen(recs: map<Id, Record>, n: nat, chain: seq<Id>, m: nat, ask: Ask, goes: Record -> bool)
    requires m <= |chain| && forall j: nat | j < m :: !Chooses(recs, n, chain, j, ask, goes, Answering)
    ensures Chosen(recs, n, chain, 0, m, ask, goes, Answering) == []
  {
    hide Chooses;
    if m > 0 { NoneChosen(recs, n, chain, m - 1, ask, goes); }
  }

  lemma {:induction false} ChosenHas(recs: map<Id, Record>, n: nat, chain: seq<Id>, i: nat, m: nat, ask: Ask, goes: Record -> bool, pick: Pick)
    requires i < m <= |chain| && Chooses(recs, n, chain, i, ask, goes, pick)
    ensures chain[i] in Chosen(recs, n, chain, 0, m, ask, goes, pick)
  {
    hide Chooses;
    ChosenSplit(recs, n, chain, i, m, ask, goes, pick);
  }

  /** The first answer, if there is one. */
  lemma {:induction false} FirstExists(recs: map<Id, Record>, n: nat, chain: seq<Id>, m: nat, ask: Ask, goes: Record -> bool) returns (i: nat)
    requires m <= |chain|
    ensures i <= m && (i < m ==> FirstReply(recs, n, chain, i, ask, goes))
    ensures i == m ==> forall j: nat | j < m :: !Chooses(recs, n, chain, j, ask, goes, Answering)
  {
    hide Chooses;
    i := 0;
    while i < m && !Chooses(recs, n, chain, i, ask, goes, Answering)
      invariant i <= m && forall j: nat | j < i :: !Chooses(recs, n, chain, j, ask, goes, Answering)
    {
      i := i + 1;
    }
    if i < m { FirstWanted(recs, n, chain, i, ask, goes); }
  }

  /** Round robin in one chain. */
  lemma {:induction false} TurnedRotates(recs: map<Id, Record>, n: nat, chain: seq<Id>, ask: Ask, goes: Record -> bool, t: seq<Id>)
    requires Turned(recs, n, chain, ask, goes, [], t)
    requires OneOrder(recs, Chosen(recs, n, chain, 0, |chain|, ask, goes, Answering))
    ensures Sift(recs, t, Asked(ask)) == Rotated(Chosen(recs, n, chain, 0, |chain|, ask, goes, Answering))
  {
    hide Chooses, Chosen, Sift, SameOrder, OneOrder, TurnedAt;
    var m := |chain|;
    var i := FirstExists(recs, n, chain, m, ask, goes);
    if i == m {
      NoneChosen(recs, n, chain, m, ask, goes);
      NoneAsked(recs, n, chain, m, ask, goes);
      assert NoReply(recs, n, chain, ask, goes);
      assert t == Chosen(recs, n, chain, 0, m, ask, goes, All);
    } else {
      assert t == TurnedAt(recs, n, chain, i, ask, goes);
      RotatesAt(recs, n, chain, i, ask, goes);
    }
  }

  lemma {:induction false} RotatesAt(recs: map<Id, Record>, n: nat, chain: seq<Id>, i: nat, ask: Ask, goes: Record -> bool)
    requires i < |chain| && FirstReply(recs, n, chain, i, ask, goes)
    requires OneOrder(recs, Chosen(recs, n, chain, 0, |chain|, ask, goes, Answering))
    ensures Sift(recs, TurnedAt(recs, n, chain, i, ask, goes), Asked(ask)) == Rotated(Chosen(recs, n, chain, 0, |chain|, ask, goes, Answering))
  {
    hide Chooses, Chosen, Sift, SameOrder;
    var m, a := |chain|, recs[chain[i]];
    var front, movers, others := Chosen(recs, n, chain, 0, i, ask, goes, All), Chosen(recs, n, chain, i + 1, m, ask, goes, Movers(a)), Chosen(recs, n, chain, i + 1, m, ask, goes, Others(a));
    NoneChosen(recs, n, chain, i, ask, goes);
    NoneAsked(recs, n, chain, i, ask, goes);
    ChosenSplit(recs, n, chain, i, m, ask, goes, Answering);
    ChosenHas(recs, n, chain, i, m, ask, goes, Answering);
    forall j: nat | i + 1 <= j < m && Chooses(recs, n, chain, j, ask, goes, Answering) ensures chain[j] in recs && SameOrder(recs[chain[j]], a) {
      ChosenHas(recs, n, chain, j, m, ask, goes, Answering);
    }
    AskedChosen(recs, n, chain, i + 1, m, ask, goes, a);
    FirstWanted(recs, n, chain, i, ask, goes);
    SiftFour(recs, front, movers, chain[i], others, Asked(ask));
  }

  lemma {:induction false} SiftFour(recs: map<Id, Record>, x: seq<Id>, y: seq<Id>, id: Id, z: seq<Id>, p: Record -> bool)
    requires id in recs && p(recs[id])
    ensures Sift(recs, x + y + [id] + z, p) == Sift(recs, x, p) + Sift(recs, y, p) + [id] + Sift(recs, z, p)
  {
    hide Sift;
    SiftOne(recs, id, p);
    SiftJoin(recs, x, y, p);
    SiftJoin(recs, x + y, [id], p);
    SiftJoin(recs, x + y + [id], z, p);
  }

  lemma {:induction false} FirstWanted(recs: map<Id, Record>, n: nat, chain: seq<Id>, i: nat, ask: Ask, goes: Record -> bool)
    requires i < |chain| && Chooses(recs, n, chain, i, ask, goes, Answering)
    ensures chain[i] in recs && Wanted(recs[chain[i]], ask)
  {
    hide Wanted, Falls;
  }

  lemma {:induction false} NoneAsked(recs: map<Id, Record>, n: nat, chain: seq<Id>, m: nat, ask: Ask, goes: Record -> bool)
    requires m <= |chain| && forall j: nat | j < m :: !Chooses(recs, n, chain, j, ask, goes, Answering)
    ensures Sift(recs, Chosen(recs, n, chain, 0, m, ask, goes, All), Asked(ask)) == []
  {
    hide Falls, Wanted, Sift;
    SiftNone(recs, Asked(ask));
    if m > 0 {
      NoneAsked(recs, n, chain, m - 1, ask, goes);
      assert !Chooses(recs, n, chain, m - 1, ask, goes, Answering);
      AddChosen(recs, n, chain, 0, m, ask, goes, All);
    }
  }

  /** Round robin: when the answers a1, .., an of a lookup by name are all of one order, the answers of the
      chain it leaves stand in the order a2, .., an, a1. */
  lemma {:induction false} RoundRobin(s: State, ask: Ask, now: int)
    requires Inv(s) && ask.Name? && |s.chains| > 0
    requires OneOrder(s.recs, Live(s, Bucket(s.mix, ask.name, |s.chains|), ask, now))
    ensures var b, t := Bucket(s.mix, ask.name, |s.chains|), Lookup(s, ask, now).state;
            Sift(t.recs, t.chains[b], Asked(ask)) == Rotated(Live(s, b, ask, now))
  {
    hide Inv, Lookup, Bucket, Turned, Chosen, Sift, SameOrder, Undisturbed, OneOrder, Exactly;
    var b, t := Bucket(s.mix, ask.name, |s.chains|), Lookup(s, ask, now).state;
    LookupTurns(s, ask, now);
    TurnedRotates(s.recs, s.n, s.chains[b], ask, Lapsed(now), t.chains[b]);
    LookupExact(s, ask, now);
    forall x | x in t.chains[b] ensures x in s.recs && x in t.recs && t.recs[x] == s.recs[x] { SameInChain(s, t, b, x); }
    SiftSame(s.recs, t.recs, t.chains[b], Asked(ask));
  }

  // ----- The next lookup.

  lemma {:induction false} StaysUp(recs: map<Id, Record>, n: nat, chain: seq<Id>, i: nat, now: int)
    requires i < |chain| && chain[i] in recs && Cname !in recs[chain[i]].flags && !Expired(recs[chain[i]], now)
    ensures !Falls(recs, n, chain, i, Lapsed(now))
  {
    hide Expired;
  }

  /** When no answer leaves, the answers are all records asked for. */
  lemma {:induction false} AllStay(recs: map<Id, Record>, n: nat, chain: seq<Id>, m: nat, ask: Ask, goes: Record -> bool)
    requires m <= |chain|
    requires forall i: nat | i < m && chain[i] in recs && Wanted(recs[chain[i]], ask) :: !Falls(recs, n, chain, i, goes)
    ensures Chosen(recs, n, chain, 0, m, ask, goes, Answering) == Sift(recs, chain[..m], Asked(ask))
  {
    hide Falls, Wanted;
    if m > 0 {
      AllStay(recs, n, chain, m - 1, ask, goes);
      assert chain[..m][..m - 1] == chain[..m - 1];
    }
  }

  /** The hosts and the cached answers are those of the answers in chain order. */
  lemma {:induction false} MetIsSifted(recs: map<Id, Record>, n: nat, chain: seq<Id>, m: nat, ask: Ask, goes: Record -> bool, host: bool)
    requires m <= |chain|
    ensures Met(recs, n, chain, m, ask, goes, host) == Sift(recs, Chosen(recs, n, chain, 0, m, ask, goes, Answering), Kind(host))
  {
    hide Falls, Wanted, Static, Sift;
    SiftNone(recs, Kind(host));
    if m > 0 {
      MetIsSifted(recs, n, chain, m - 1, ask, goes, host);
      SiftOne(recs, chain[m - 1], Kind(host));
      SiftJoin(recs, Chosen(recs, n, chain, 0, m - 1, ask, goes, Answering),
               if Chooses(recs, n, chain, m - 1, ask, goes, Answering) then [chain[m - 1]] else [], Kind(host));
    }
  }

  lemma {:induction false} LookupSifted(s: State, ask: Ask, now: int)
    requires Inv(s) && ask.Name? && |s.chains| > 0
    ensures var f, a := Lookup(s, ask, now), Live(s, Bucket(s.mix, ask.name, |s.chains|), ask, now);
            f.hosts == Sift(s.recs, a, Kind(true)) && f.cached == Sift(s.recs, a, Kind(false))
  {
    hide Inv, Lookup, Bucket, Met, Chosen, Sift;
    var b := Bucket(s.mix, ask.name, |s.chains|);
    NameAnswers(s, ask.name, ask.prot, now);
    MetIsSifted(s.recs, s.n, s.chains[b], |s.chains[b]|, ask, Lapsed(now), true);
    MetIsSifted(s.recs, s.n, s.chains[b], |s.chains[b]|, ask, Lapsed(now), false);
  }

  /** The records neither expire by then nor are aliases. */
  ghost predicate Lasting(recs: map<Id, Record>, ids: seq<Id>, now: int) {
    forall x | x in ids :: x in recs && Cname !in recs[x].flags && !Expired(recs[x], now)
  }

  lemma {:induction false} RotatedMembers(ids: seq<Id>, x: Id)
    ensures x in Rotated(ids) <==> x in ids
  {
    if ids != [] { assert ids == [ids[0]] + ids[1..]; }
  }

  /** The answers of the next lookup in chain order are the rotated ones. */
  lemma {:induction false} NextLive(s: State, ask: Ask, now: int, later: int)
    requires Inv(s) && ask.Name? && |s.chains| > 0
    requires var a := Live(s, Bucket(s.mix, ask.name, |s.chains|), ask, now); OneOrder(s.recs, a) && Lasting(s.recs, a, later)
    ensures var b, t := Bucket(s.mix, ask.name, |s.chains|), Lookup(s, ask, now).state;
            && Live(t, b, ask, later) == Rotated(Live(s, b, ask, now))
            && forall x | x in Live(s, b, ask, now) :: x in s.recs && x in t.recs && t.recs[x] == s.recs[x]
  {
    hide Inv, Lookup, Bucket, Chosen, SameOrder, Undisturbed, Exactly, Sift, Wanted, Expired, OneOrder, Rotated;
    var b, t := Bucket(s.mix, ask.name, |s.chains|), Lookup(s, ask, now).state;
    var chain, a := t.chains[b], Live(s, b, ask, now);
    RoundRobin(s, ask, now);
    LookupExact(s, ask, now);
    forall i: nat | i < |chain| && chain[i] in t.recs && Wanted(t.recs[chain[i]], ask)
      ensures !Falls(t.recs, t.n, chain, i, Lapsed(later))
    {
      SiftMembers(t.recs, chain, Asked(ask), chain[i]);
      RotatedMembers(a, chain[i]);
      SameInChain(s, t, b, chain[i]);
      StaysUp(t.recs, t.n, chain, i, later);
    }
    AllStay(t.recs, t.n, chain, |chain|, ask, Lapsed(later));
    assert chain[..|chain|] == chain;
    forall x | x in a ensures x in s.recs && x in t.recs && t.recs[x] == s.recs[x] {
      RotatedMembers(a, x);
      SiftMembers(t.recs, chain, Asked(ask), x);
      SameInChain(s, t, b, x);
    }
  }

  /** Two lookups of the same question in succession: when the answers are of one order, are no aliases and
      do not expire in between, the second gives the answers of the first with the first one last. When all
      are hosts or DHCP records, these are the lists that the caller iterates over. */
  lemma {:induction false} NextLookup(s: State, ask: Ask, now: int, later: int)
    requires Inv(s) && ask.Name? && |s.chains| > 0
    requires var a := Live(s, Bucket(s.mix, ask.name, |s.chains|), ask, now); OneOrder(s.recs, a) && Lasting(s.recs, a, later)
    ensures var a, f := Live(s, Bucket(s.mix, ask.name, |s.chains|), ask, now), Lookup(s, ask, now);
            var g := Lookup(f.state, ask, later);
            && f.hosts == Sift(s.recs, a, Kind(true)) && f.cached == Sift(s.recs, a, Kind(false))
            && g.hosts == Sift(s.recs, Rotated(a), Kind(true)) && g.cached == Sift(s.recs, Rotated(a), Kind(false))
            && (f.cached == [] ==> g.hosts == Rotated(f.hosts) && g.cached == [])
  {
    hide Inv, Lookup, Bucket, Chosen, SameOrder, Sift, OneOrder, Lasting, Rotated, Static;
    var b, f := Bucket(s.mix, ask.name, |s.chains|), Lookup(s, ask, now);
    var t, a := f.state, Live(s, b, ask, now);
    NextLive(s, ask, now, later);
    LookupSifted(s, ask, now);
    LookupSifted(t, ask, later);
    forall x | x in Rotated(a) ensures x in a { RotatedMembers(a, x); }
    SiftSame(s.recs, t.recs, Rotated(a), Kind(true));
    SiftSame(s.recs, t.recs, Rotated(a), Kind(false));
    if f.cached == [] { OnlyHosts(s.recs, a); }
  }

  lemma {:induction false} OnlyHosts(recs: map<Id, Record>, a: seq<Id>)
    requires Sift(recs, a, Kind(false)) == [] && forall x | x in a :: x in recs
    ensures Sift(recs, a, Kind(true)) == a && Sift(recs, Rotated(a), Kind(true)) == Rotated(a) && Sift(recs, Rotated(a), Kind(false)) == []
  {
    hide Sift, Static, Rotated;
    forall x | x in a ensures Static(recs[x]) { SiftMembers(recs, a, Kind(false), x); }
    forall x ensures x in Rotated(a) <==> x in a { RotatedMembers(a, x); }
    SiftAll(recs, a, Kind(true));
    SiftAll(recs, Rotated(a), Kind(true));
    var c := Sift(recs, Rotated(a), Kind(false));
    if c != [] { SiftMembers(recs, Rotated(a), Kind(false), c[0]); }
  }

  // ----- Lookups by address.

  /** What a lookup by address leaves. */
  ghost function Lasts(now: int): Record -> bool { (r: Record) => !(Reverse in r.flags && Expired(r, now)) }

  lemma {:induction false} SiftFirst(recs: map<Id, Record>, ids: seq<Id>, p: Record -> bool)
    requires ids != [] && ids[0] in recs
    ensures Sift(recs, ids, p) == (if p(recs[ids[0]]) then [ids[0]] else []) + Sift(recs, ids[1..], p)
  {
    hide Sift;
    assert ids == [ids[0]] + ids[1..];
    SiftJoin(recs, [ids[0]], ids[1..], p);
    SiftOne(recs, ids[0], p);
  }

  /** A walk by address takes the expired reverse records out of its chain; the others keep their order. */
  lemma {:induction false} AddrRow(s: State, b: nat, k: nat, ask: Ask, now: int, last: Option<Id>)
    requires Inv(s) && b < |s.chains| && k <= |s.chains[b]| && ToOk(s, b, k, None) && ask.Addr?
    ensures Find(s, b, k, ask, now, None, last).state.chains[b] == s.chains[b][..k] + Sift(s.recs, s.chains[b][k..], Lasts(now))
    decreases |s.chains[b]| - k
  {
    hide Inv, Wanted, Static, Remove, Answer, ToOk, Find, Sift, Expired;
    FindUnfold(s, b, k, ask, now, None, last);
    var chain := s.chains[b];
    if k == |chain| {
      SiftNone(s.recs, Lasts(now));
      assert chain[k..] == [] && chain[..k] == chain;
    } else {
      var id := chain[k];
      var r := s.recs[id];
      SiftFirst(s.recs, chain[k..], Lasts(now));
      assert chain[k..][1..] == chain[k + 1..] && chain[..k + 1] == chain[..k] + [id];
      if Ends(r, ask) {
        AddrTail(s, b, k, now);
      } else if Gone(s.recs, r, ask, now) {
        AddrGone(s, b, k, now);
        AddrRow(Remove(s, b, k), b, k, ask, now, last);
      } else if Wanted(r, ask) {
        AnswerMoves(s, b, k, None, last);
        AddrRow(Answer(s, b, k, None, last), b, k + 1, ask, now, if Static(r) then Some(id) else last);
      } else {
        AddrRow(s, b, k + 1, ask, now, last);
      }
    }
  }

  /** Behind the first record that is not a reverse one there is none. */
  lemma {:induction false} AddrTail(s: State, b: nat, k: nat, now: int)
    requires Inv(s) && b < |s.chains| && k < |s.chains[b]| && s.chains[b][k] in s.recs && Reverse !in s.recs[s.chains[b][k]].flags
    ensures Sift(s.recs, s.chains[b][k..], Lasts(now)) == s.chains[b][k..]
  {
    hide PoolOk, UsedPrefix, BigOk, UidOk, RecordOk, StaticOk, Bucket, Distinct, Sift, Expired;
    var chain := s.chains[b];
    ChainOfTable(s.mix, s.recs, s.chains, b);
    forall x | x in chain[k..] ensures x in s.recs && Reverse !in s.recs[x].flags {
      var i := IndexOf(chain[k..], x);
      if i > 0 { assert Rank(s.recs[chain[k]]) <= Rank(s.recs[chain[k + i]]); }
    }
    SiftAll(s.recs, chain[k..], Lasts(now));
  }

  lemma {:induction false} AddrGone(s: State, b: nat, k: nat, now: int)
    requires Inv(s) && b < |s.chains| && k < |s.chains[b]|
    ensures var t := Remove(s, b, k);
            && t.chains[b][..k] == s.chains[b][..k] && t.chains[b][k..] == s.chains[b][k + 1..]
            && Sift(t.recs, t.chains[b][k..], Lasts(now)) == Sift(s.recs, s.chains[b][k + 1..], Lasts(now))
  {
    hide Inv, Remove, Sift, Undisturbed;
    var t := Remove(s, b, k);
    RemoveUndisturbed(s, b, k);
    forall x | x in t.chains[b][k..] ensures x in t.recs && x in s.recs && t.recs[x] == s.recs[x] { SameInChain(s, t, b, x); }
    SiftSame(t.recs, s.recs, t.chains[b][k..], Lasts(now));
  }

  lemma {:induction false} AddrRows(s: State, b: nat, ask: Ask, now: int, last: Option<Id>, c: nat)
    requires Inv(s) && b <= |s.chains| && ask.Addr? && b <= c < |s.chains|
    ensures FindInAll(s, b, ask, now, last).state.chains[c] == Sift(s.recs, s.chains[c], Lasts(now))
    decreases |s.chains| - b
  {
    hide Inv, Find, Sift, Undisturbed, ToOk;
    NoPlace(s, b);
    var f := Find(s, b, 0, ask, now, None, last);
    var u := f.state;
    FindUndisturbed(s, b, 0, ask, now, None, last);
    if b == c {
      AddrRow(s, b, 0, ask, now, last);
      assert s.chains[b][0..] == s.chains[b] && s.chains[b][..0] == [];
      FindInAllUndisturbed(u, b + 1, ask, now, f.last);
    } else {
      AddrRows(u, b + 1, ask, now, f.last, c);
      forall x | x in u.chains[c] ensures x in u.recs && x in s.recs && u.recs[x] == s.recs[x] { SameInChain(s, u, c, x); }
      SiftSame(u.recs, s.recs, u.chains[c], Lasts(now));
    }
  }

  // ----- All lookups.

  /** What a lookup makes of the chains: by name, the round-robin in one of them; by address, every chain
      without its expired reverse records, in order. */
  ghost predicate Rearranged(s: State, t: State, ask: Ask, now: int) {
    && |s.chains| == |t.chains| > 0
    && match ask
       case Name(name, _) => NameTurned(s, t, ask, now, Bucket(s.mix, name, |s.chains|))
       case Addr(_, _) => forall c | 0 <= c < |s.chains| :: t.chains[c] == Sift(s.recs, s.chains[c], Lasts(now))
  }

  lemma {:induction false} LookupRearranges(s: State, ask: Ask, now: int)
    requires Inv(s)
    ensures Rearranged(s, Lookup(s, ask, now).state, ask, now)
  {
    hide Inv, Lookup, Walk, Bucket, NameTurned, Sift;
    HasChains(s);
    match ask
    case Name(name, _) => LookupTurns(s, ask, now);
    case Addr(_, _) =>
      LookupFields(s, ask, now);
      WalkIs(s, ask, now);
      forall c: nat | c < |s.chains| ensures FindInAll(s, 0, ask, now, None).state.chains[c] == Sift(s.recs, s.chains[c], Lasts(now)) {
        AddrRows(s, 0, ask, now, None, c);
      }
  }
}
