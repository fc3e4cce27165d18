/** The list, the chain of uncommitted insertions and the hash chains as the records link them: relinking a
    few pointers does to them what the cache does to its sequences. */
module DnsLinks {
  import opened Sequences

  class Crec {
    var next: Crec?
    var prev: Crec?
    var hashNext: Crec?
  }

  ghost function At(s: seq<Crec>, i: int): Crec? { if 0 <= i < |s| then s[i] else null }

  lemma {:induction false} AtIndex(s: seq<Crec>, i: int)
    requires 0 <= i < |s|
    ensures At(s, i) == s[i]
  {
  }

  // ----- The list of records, youngest first.

  ghost predicate Linked(s: seq<Crec>)
    reads s
  {
    Distinct(s) && forall i | 0 <= i < |s| :: s[i].next == At(s, i + 1) && s[i].prev == At(s, i - 1)
  }

  /** Linked, with record k left out. */
  ghost predicate LinkedPast(s: seq<Crec>, k: nat)
    reads s
    requires k < |s|
  {
    Distinct(s) && forall i | 0 <= i < |s| && i != k ::
      s[i].next == At(s, if i + 1 == k then k + 1 else i + 1) && s[i].prev == At(s, if i - 1 == k then k - 1 else i - 1)
  }

  lemma {:induction false} AtRemoved(s: seq<Crec>, k: nat, i: nat)
    requires k < |s| && i < |s| - 1
    ensures var j := Skip(k, i);
            && RemoveAt(s, k)[i] == s[j] && j != k
            && At(RemoveAt(s, k), i + 1) == At(s, if j + 1 == k then k + 1 else j + 1)
            && At(RemoveAt(s, k), i - 1) == At(s, if j - 1 == k then k - 1 else j - 1)
  {
    RemoveAtElement(s, k, i);
    if i + 1 < |s| - 1 { RemoveAtElement(s, k, i + 1); }
    if i > 0 { RemoveAtElement(s, k, i - 1); }
  }

  lemma {:induction false} RemovedLinked(s: seq<Crec>, k: nat)
    requires k < |s| && LinkedPast(s, k)
    ensures Linked(RemoveAt(s, k))
  {
    hide At, RemoveAt, Distinct;
    RemovedDistinct(s, k);
    forall i | 0 <= i < |s| - 1
      ensures RemoveAt(s, k)[i].next == At(RemoveAt(s, k), i + 1) && RemoveAt(s, k)[i].prev == At(RemoveAt(s, k), i - 1)
    {
      AtRemoved(s, k, i);
    }
  }

  lemma {:induction false} RemovedEnds(s: seq<Crec>, k: nat)
    requires k < |s|
    ensures At(RemoveAt(s, k), 0) == if k == 0 then At(s, 1) else At(s, 0)
    ensures At(RemoveAt(s, k), |s| - 2) == if k == |s| - 1 then At(s, k - 1) else At(s, |s| - 1)
  {
    if |s| > 1 {
      RemoveAtElement(s, k, 0);
      RemoveAtElement(s, k, |s| - 2);
    }
  }

  /** A record in front of a linked list. */
  lemma {:induction false} LinkedFront(s: seq<Crec>, x: Crec)
    requires Distinct(s) && x !in s && x.prev == null && x.next == At(s, 0)
    requires forall i | 0 <= i < |s| :: s[i].next == At(s, i + 1) && s[i].prev == if i == 0 then x else At(s, i - 1)
    ensures Linked([x] + s)
  {
  }

  /** A record behind a linked list. */
  lemma {:induction false} LinkedBack(s: seq<Crec>, x: Crec)
    requires Distinct(s) && x !in s && x.next == null && x.prev == At(s, |s| - 1)
    requires forall i | 0 <= i < |s| :: s[i].prev == At(s, i - 1) && s[i].next == if i == |s| - 1 then x else At(s, i + 1)
    ensures Linked(s + [x])
  {
  }

  lemma {:induction false} LinksOf(s: seq<Crec>)
    requires Linked(s)
    ensures Distinct(s) && forall i | 0 <= i < |s| :: s[i].next == At(s, i + 1) && s[i].prev == At(s, i - 1)
  {
  }

  lemma {:induction false} PastLinked(s: seq<Crec>, k: nat)
    requires k < |s| && Distinct(s)
    requires forall i | 0 <= i < |s| :: s[i].next == At(s, if i == k - 1 then k + 1 else i + 1)
    requires forall i | 0 <= i < |s| :: s[i].prev == At(s, if i == k + 1 then k - 1 else i - 1)
    ensures LinkedPast(s, k)
  {
    hide At;
  }

  lemma {:induction false} RemovedIn<T>(s: seq<T>, k: nat)
    requires k < |s|
    ensures forall i | 0 <= i < |s| - 1 :: RemoveAt(s, k)[i] in s
    ensures forall y | y in RemoveAt(s, k) :: y in s
  {
  }

  // ----- A hash chain.

  ghost predicate Chained(s: seq<Crec>)
    reads s
  {
    Distinct(s) && forall i | 0 <= i < |s| :: s[i].hashNext == At(s, i + 1)
  }

  lemma {:induction false} ChainOf(s: seq<Crec>)
    requires Chained(s)
    ensures Distinct(s) && forall i | 0 <= i < |s| :: s[i].hashNext == At(s, i + 1)
  {
  }

  lemma {:induction false} InsertedChain(s: seq<Crec>, p: nat, x: Crec)
    requires Distinct(s) && x !in s && p <= |s| && x.hashNext == At(s, p)
    requires forall i | 0 <= i < |s| :: s[i].hashNext == if i + 1 == p then x else At(s, i + 1)
    ensures Chained(InsertAt(s, p, x)) && At(InsertAt(s, p, x), 0) == if p == 0 then x else At(s, 0)
  {
    var t := InsertAt(s, p, x);
    forall i | 0 <= i < |t| ensures t[i] == if i < p then s[i] else if i == p then x else s[i - 1] { InsertAtElement(s, p, x, i); }
    hide InsertAt;
  }

  lemma {:induction false} ShorterChain(s: seq<Crec>, k: nat)
    requires Distinct(s) && k < |s|
    requires forall i | 0 <= i < |s| :: s[i].hashNext == At(s, if i + 1 == k then k + 1 else i + 1)
    ensures Chained(RemoveAt(s, k)) && At(RemoveAt(s, k), 0) == if k == 0 then At(s, 1) else At(s, 0)
  {
    hide Distinct;
    RemovedDistinct(s, k);
    RemovedEnds(s, k);
    forall i | 0 <= i < |s| - 1 ensures RemoveAt(s, k)[i].hashNext == At(RemoveAt(s, k), i + 1) { AtRemoved(s, k, i); }
  }

  /** What the three assignments of the round-robin leave: record k leads to record `to`, the record before
      `to` leads to record k, and the record before k to the one after it. */
  ghost predicate Spliced(s: seq<Crec>, k: nat, to: nat)
    reads s
    requires to < k < |s|
  {
    forall i | 0 <= i < |s| ::
      s[i].hashNext == if i == k then s[to] else if i == to - 1 then s[k] else if i == k - 1 then At(s, k + 1) else At(s, i + 1)
  }

  lemma {:induction false} MovedAt(s: seq<Crec>, k: nat, to: nat, i: nat)
    requires to < k < |s| && i < |s|
    ensures MoveUp(s, k, to)[i] == s[From(k, to, i)]
    ensures At(MoveUp(s, k, to), i + 1)
         == if i == to then s[to] else if i == to - 1 then s[k] else if i == k then At(s, k + 1) else At(s, From(k, to, i) + 1)
  {
    MoveUpElement(s, k, to, i);
    if i + 1 < |s| { MoveUpElement(s, k, to, i + 1); }
  }

  lemma {:induction false} SplicedChain(s: seq<Crec>, k: nat, to: nat)
    requires Distinct(s) && to < k < |s| && Spliced(s, k, to)
    ensures Chained(MoveUp(s, k, to)) && At(MoveUp(s, k, to), 0) == if to == 0 then s[k] else At(s, 0)
    ensures MoveUp(s, k, to)[to] == s[k] && MoveUp(s, k, to)[k] == s[k - 1]
  {
    hide MoveUp;
    var t := MoveUp(s, k, to);
    MovedDistinct(s, k, to);
    hide Distinct;
    forall i | 0 <= i < |t| ensures t[i].hashNext == At(t, i + 1) { MovedAt(s, k, to, i); }
    MoveUpElement(s, k, to, 0);
    MoveUpElement(s, k, to, to);
    MoveUpElement(s, k, to, k);
  }

  lemma {:induction false} MovedDistinct<T>(s: seq<T>, k: nat, to: nat)
    requires Distinct(s) && to < k < |s|
    ensures Distinct(MoveUp(s, k, to))
  {
    hide MoveUp;
    var t := MoveUp(s, k, to);
    forall i, j | 0 <= i < j < |t| ensures t[i] != t[j] {
      MoveUpElement(s, k, to, i);
      MoveUpElement(s, k, to, j);
    }
  }

  // ----- All links of the cache.

  /** What `up` and `insert` point at: the head of a chain, or the hash_next of a record. */
  datatype Place = Slot | NextOf(crecp: Crec)

  /** The place that holds the pointer to record k of a chain. */
  ghost function PlaceOf(s: seq<Crec>, k: nat): Place
    requires k <= |s|
  {
    if k == 0 then Slot else NextOf(s[k - 1])
  }

  /** No record stands in two chains, or twice in one. */
  ghost predicate Separate(chains: seq<seq<Crec>>) {
    && (forall b | 0 <= b < |chains| :: Distinct(chains[b]))
    && (forall b, c, i, j | 0 <= b < |chains| && 0 <= c < |chains| && b != c && 0 <= i < |chains[b]| && 0 <= j < |chains[c]| ::
          chains[b][i] != chains[c][j])
  }

  lemma {:induction false} SeparateStill(chains: seq<seq<Crec>>, b: nat, s: seq<Crec>)
    requires Separate(chains) && b < |chains| && Distinct(s) && forall y | y in s :: y in chains[b] || InNoChain(chains, y)
    ensures Separate(chains[b := s])
  {
    hide Distinct;
    forall c, i | 0 <= c < |chains| && c != b && 0 <= i < |chains[c]| ensures chains[c][i] !in s { assert chains[c][i] in chains[c]; }
  }

  /** Chains are linked by hash_next. */
  ghost predicate ChainsOk(chains: seq<seq<Crec>>)
    reads set b, i | 0 <= b < |chains| && 0 <= i < |chains[b]| :: chains[b][i]
  {
    Separate(chains) && forall b, i | 0 <= b < |chains| && 0 <= i < |chains[b]| :: chains[b][i].hashNext == At(chains[b], i + 1)
  }

  ghost predicate Queued(s: seq<Crec>)
    reads s
  {
    Distinct(s) && forall i | 0 <= i < |s| :: s[i].next == At(s, i + 1)
  }

  ghost predicate Disjoint(s: seq<Crec>, t: seq<Crec>) { forall i | 0 <= i < |s| :: s[i] !in t }

  ghost predicate InNoChain(chains: seq<seq<Crec>>, x: Crec) { forall b | 0 <= b < |chains| :: x !in chains[b] }

  lemma {:induction false} ChainAt(chains: seq<seq<Crec>>, b: nat)
    requires ChainsOk(chains) && b < |chains|
    ensures Distinct(chains[b]) && forall i | 0 <= i < |chains[b]| :: chains[b][i].hashNext == At(chains[b], i + 1)
  {
  }

  lemma {:induction false} ChainsApart(chains: seq<seq<Crec>>, b: nat)
    requires ChainsOk(chains) && b < |chains|
    ensures forall c, i | 0 <= c < |chains| && c != b && 0 <= i < |chains[c]| :: chains[c][i] !in chains[b]
  {
  }

  /** The links as the records hold them. A record can stand on the list and in a chain at once; its next
      field serves the list, the chain of uncommitted insertions, or, for hosts and DHCP records, the answer
      links. */
  class Links {
    const slots: array<Crec?>
    var cacheHead: Crec?
    var cacheTail: Crec?
    var newChain: Crec?
    ghost var lru: seq<Crec>
    ghost var pending: seq<Crec>
    ghost var chains: seq<seq<Crec>>

    ghost predicate ListValid()
      reads this, lru
    {
      Linked(lru) && cacheHead == At(lru, 0) && cacheTail == At(lru, |lru| - 1)
    }

    ghost predicate QueueValid()
      reads this, pending
    {
      Queued(pending) && newChain == At(pending, 0)
    }

    ghost predicate ListsValid()
      reads this, lru, pending
    {
      ListValid() && QueueValid() && Disjoint(lru, pending)
    }

    ghost predicate TableValid()
      reads this, slots, set b, i | 0 <= b < |chains| && 0 <= i < |chains[b]| :: chains[b][i]
    {
      && |chains| == slots.Length && ChainsOk(chains)
      && forall b | 0 <= b < |chains| :: slots[b] == At(chains[b], 0)
    }

    ghost predicate Valid()
      reads this, lru, pending, slots, set b, i | 0 <= b < |chains| && 0 <= i < |chains[b]| :: chains[b][i]
    {
      ListsValid() && TableValid()
    }

    /** Assignments to next and prev leave the table as it is. */
    twostate lemma {:induction false} TableKept()
      requires old(TableValid()) && chains == old(chains)
      requires forall b | 0 <= b < slots.Length :: slots[b] == old(slots[b])
      requires forall b, i | 0 <= b < |chains| && 0 <= i < |chains[b]| :: chains[b][i].hashNext == old(chains[b][i].hashNext)
      ensures TableValid()
    {
    }

    /** Assignments to the fields of other records leave the chain of insertions as it is. */
    twostate lemma {:induction false} QueueKept()
      requires old(QueueValid()) && pending == old(pending) && newChain == old(newChain)
      requires forall i | 0 <= i < |pending| :: pending[i].next == old(pending[i].next)
      ensures QueueValid()
    {
    }

    /** Assignments to the fields of other records leave the list as it is. */
    twostate lemma {:induction false} ListKept()
      requires old(ListValid()) && lru == old(lru) && cacheHead == old(cacheHead) && cacheTail == old(cacheTail)
      requires forall i | 0 <= i < |lru| :: lru[i].next == old(lru[i].next) && lru[i].prev == old(lru[i].prev)
      ensures ListValid()
    {
    }

    /** One chain changes, the records of the others keep their links. */
    twostate lemma {:induction false} ChainKept(b: nat)
      requires old(TableValid()) && b < |old(chains)| == |chains| && chains == old(chains)[b := chains[b]]
      requires Chained(chains[b]) && slots[b] == At(chains[b], 0) && forall c | 0 <= c < slots.Length && c != b :: slots[c] == old(slots[c])
      requires forall c, i | 0 <= c < |chains| && c != b && 0 <= i < |chains[c]| :: chains[c][i].hashNext == old(chains[c][i].hashNext)
      requires forall y | y in chains[b] :: y in old(chains)[b] || InNoChain(old(chains), y)
      ensures TableValid()
    {
      hide At, Separate, InNoChain;
      ChainOf(chains[b]);
      SeparateStill(old(chains), b, chains[b]);
    }

    /** Assignments to hash_next leave the lists as they are. */
    twostate lemma {:induction false} ListsKept()
      requires old(ListsValid()) && lru == old(lru) && pending == old(pending)
      requires cacheHead == old(cacheHead) && cacheTail == old(cacheTail) && newChain == old(newChain)
      requires forall i | 0 <= i < |lru| :: lru[i].next == old(lru[i].next) && lru[i].prev == old(lru[i].prev)
      requires forall i | 0 <= i < |pending| :: pending[i].next == old(pending[i].next)
      ensures ListsValid()
    {
    }

    constructor (size: nat)
      ensures Valid() && fresh(slots) && lru == [] && pending == [] && chains == seq(size, b => [])
    {
      slots := new Crec?[size](b => null);
      cacheHead, cacheTail, newChain := null, null, null;
      lru, pending, chains := [], [], seq(size, b => []);
    }

    /** cache_link */
    method Link(crecp: Crec)
      requires Valid() && crecp !in lru && crecp !in pending
      modifies this`cacheHead, this`cacheTail, this`lru, crecp`next, crecp`prev, lru`prev
      ensures Valid() && lru == [crecp] + old(lru)
    {
      hide ListValid, TableValid, QueueValid, Disjoint;
      DisjointMore(lru, pending, crecp);
      LinkFirst(crecp);
      QueueKept();
      TableKept();
    }

    method LinkFirst(crecp: Crec)
      requires ListValid() && crecp !in lru
      modifies this`cacheHead, this`cacheTail, this`lru, crecp`next, crecp`prev, lru`prev
      ensures ListValid() && lru == [crecp] + old(lru)
    {
      hide Linked;
      ghost var s := lru;
      LinksOf(s);
      if cacheHead != null {
        cacheHead.prev := crecp;
      }
      crecp.next := cacheHead;
      crecp.prev := null;
      cacheHead := crecp;
      if cacheTail == null {
        cacheTail := crecp;
      }
      lru := [crecp] + s;
      LinkedFront(s, crecp);
    }

    /** The end of cache_free: the record goes to the tail. */
    method LinkTail(crecp: Crec)
      requires Valid() && crecp !in lru && crecp !in pending
      modifies this`cacheHead, this`cacheTail, this`lru, crecp`next, crecp`prev, lru`next
      ensures Valid() && lru == old(lru) + [crecp]
    {
      hide ListValid, TableValid, QueueValid, Disjoint;
      DisjointMore(lru, pending, crecp);
      LinkLast(crecp);
      QueueKept();
      TableKept();
    }

    method LinkLast(crecp: Crec)
      requires ListValid() && crecp !in lru
      modifies this`cacheHead, this`cacheTail, this`lru, crecp`next, crecp`prev, lru`next
      ensures ListValid() && lru == old(lru) + [crecp]
    {
      hide Linked;
      ghost var s := lru;
      LinksOf(s);
      if cacheTail != null {
        cacheTail.next := crecp;
      } else {
        cacheHead := crecp;
      }
      crecp.prev := cacheTail;
      crecp.next := null;
      cacheTail := crecp;
      lru := s + [crecp];
      LinkedBack(s, crecp);
    }

    /** cache_unlink */
    method Unlink(crecp: Crec, ghost k: nat)
      requires Valid() && k < |lru| && lru[k] == crecp
      modifies this`cacheHead, this`cacheTail, this`lru, lru`next, lru`prev
      ensures Valid() && lru == RemoveAt(old(lru), k)
    {
      hide ListValid, TableValid, QueueValid, Disjoint, RemoveAt;
      DisjointFewer(lru, pending, k);
      NotPending(lru, pending);
      PassOver(crecp, k);
      QueueKept();
      TableKept();
    }

    method PassOver(crecp: Crec, ghost k: nat)
      requires ListValid() && k < |lru| && lru[k] == crecp
      modifies this`cacheHead, this`cacheTail, this`lru, lru`next, lru`prev
      ensures ListValid() && lru == RemoveAt(old(lru), k)
    {
      hide Linked, LinkedPast, RemoveAt, Distinct, At;
      ghost var s := lru;
      LinksOf(s);
      PassNext(crecp, s, k);
      PassPrev(crecp, s, k);
      lru := RemoveAt(s, k);
      PastLinked(s, k);
      RemovedLinked(s, k);
      RemovedEnds(s, k);
    }

    /** The record in front of crecp passes it over. */
    method PassNext(crecp: Crec, ghost s: seq<Crec>, ghost k: nat)
      requires k < |s| && s[k] == crecp && Distinct(s) && crecp.prev == At(s, k - 1) && crecp.next == At(s, k + 1)
      modifies this`cacheHead, s`next
      ensures cacheHead == if k == 0 then At(s, 1) else old(cacheHead)
      ensures forall i | 0 <= i < |s| :: s[i].next == if i == k - 1 then At(s, k + 1) else old(s[i].next)
    {
      if crecp.prev != null {
        crecp.prev.next := crecp.next;
      } else {
        cacheHead := crecp.next;
      }
    }

    /** The record behind crecp passes it over. */
    method PassPrev(crecp: Crec, ghost s: seq<Crec>, ghost k: nat)
      requires k < |s| && s[k] == crecp && Distinct(s) && crecp.prev == At(s, k - 1) && crecp.next == At(s, k + 1)
      modifies this`cacheTail, s`prev
      ensures cacheTail == if k == |s| - 1 then At(s, k - 1) else old(cacheTail)
      ensures forall i | 0 <= i < |s| :: s[i].prev == if i == k + 1 then At(s, k - 1) else old(s[i].prev)
    {
      if crecp.next != null {
        crecp.next.prev := crecp.prev;
      } else {
        cacheTail := crecp.prev;
      }
    }

    /** The end of cache_insert: the record heads the chain of uncommitted insertions. */
    method Push(crecp: Crec)
      requires Valid() && crecp !in lru && crecp !in pending
      modifies this`newChain, this`pending, crecp`next
      ensures Valid() && pending == [crecp] + old(pending)
    {
      hide ListValid, TableValid, Disjoint, Queued;
      ghost var s := pending;
      QueueOf(s);
      crecp.next := newChain;
      newChain := crecp;
      pending := [crecp] + s;
      QueuedFront(s, crecp);
      DisjointFront(lru, s, crecp);
      ListKept();
      TableKept();
    }

    /** One turn of the loops over new_chain: its head leaves it. */
    method Pop() returns (crecp: Crec)
      requires Valid() && pending != []
      modifies this`newChain, this`pending
      ensures Valid() && crecp == old(pending)[0] && pending == old(pending)[1..]
      ensures crecp !in lru && crecp !in pending
    {
      hide ListValid, TableValid, Disjoint, Queued;
      ghost var s := pending;
      QueueOf(s);
      NotPending(lru, s);
      crecp := newChain;
      newChain := newChain.next;
      pending := s[1..];
      QueuedRest(s);
      DisjointRest(lru, s);
      ListKept();
      TableKept();
    }

    /** *chainp = x, where chainp is the next field of a hosts or DHCP record. */
    method SetAnswer(crecp: Crec, x: Crec?)
      requires Valid() && crecp !in lru && crecp !in pending
      modifies crecp`next
      ensures Valid() && crecp.next == x
    {
      hide ListValid, QueueValid, TableValid, Disjoint;
      crecp.next := x;
      ListKept();
      QueueKept();
      TableKept();
    }

    lemma {:induction false} SlotAt(b: nat)
      requires TableValid() && b < |chains|
      ensures |chains| == slots.Length && slots[b] == At(chains[b], 0) && ChainsOk(chains)
    {
    }

    /** *up */
    method Get(b: nat, up: Place, ghost k: nat) returns (crecp: Crec?)
      requires TableValid() && b < |chains| && k <= |chains[b]| && up == PlaceOf(chains[b], k)
      ensures crecp == At(chains[b], k)
    {
      match up
      case Slot => crecp := slots[b];
      case NextOf(r) => crecp := r.hashNext;
    }

    /** *up = crecp */
    method Set(b: nat, up: Place, crecp: Crec?, ghost s: seq<Crec>, ghost k: nat)
      requires b < slots.Length && Distinct(s) && k <= |s| && up == PlaceOf(s, k)
      modifies slots, s`hashNext
      ensures slots[b] == if k == 0 then crecp else old(slots[b])
      ensures forall c | 0 <= c < slots.Length && c != b :: slots[c] == old(slots[c])
      ensures forall i | 0 <= i < |s| :: s[i].hashNext == if i == k - 1 then crecp else old(s[i].hashNext)
    {
      match up
      case Slot => slots[b] := crecp;
      case NextOf(r) => r.hashNext := crecp;
    }

    /** The end of cache_hash: the record goes in where `up` points. */
    method Enter(b: nat, up: Place, crecp: Crec, ghost p: nat)
      requires Valid() && b < |chains| && InNoChain(chains, crecp) && p <= |chains[b]| && up == PlaceOf(chains[b], p)
      modifies this`chains, slots, chains[b]`hashNext, crecp`hashNext
      ensures Valid() && chains == old(chains)[b := InsertAt(old(chains)[b], p, crecp)]
    {
      hide Chained, InsertAt, ListsValid, ChainsOk, InNoChain, TableValid, Distinct;
      ghost var s, was := chains[b], chains;
      SlotAt(b);
      ChainAt(was, b);
      ChainsApart(was, b);
      NotThere(was, crecp);
      PutIn(b, up, crecp, s, p);
      InsertedChain(s, p, crecp);
      InsertedIn(s, p, crecp);
      chains := was[b := InsertAt(s, p, crecp)];
      ChainKept(b);
      ListsKept();
    }

    /** The two assignments. */
    method PutIn(b: nat, up: Place, crecp: Crec, ghost s: seq<Crec>, ghost p: nat)
      requires b < slots.Length && Distinct(s) && crecp !in s && p <= |s| && up == PlaceOf(s, p)
      requires slots[b] == At(s, 0) && forall i | 0 <= i < |s| :: s[i].hashNext == At(s, i + 1)
      modifies slots, s`hashNext, crecp`hashNext
      ensures crecp.hashNext == At(s, p) && forall i | 0 <= i < |s| :: s[i].hashNext == if i + 1 == p then crecp else At(s, i + 1)
      ensures slots[b] == (if p == 0 then crecp else At(s, 0)) && forall c | 0 <= c < slots.Length && c != b :: slots[c] == old(slots[c])
    {
      crecp.hashNext := if up == Slot then slots[b] else up.crecp.hashNext;
      Set(b, up, crecp, s, p);
    }

    /** *up = crecp->hash_next */
    method Leave(b: nat, up: Place, ghost k: nat)
      requires Valid() && b < |chains| && k < |chains[b]| && up == PlaceOf(chains[b], k)
      modifies this`chains, slots, chains[b]`hashNext
      ensures Valid() && chains == old(chains)[b := RemoveAt(old(chains)[b], k)]
    {
      hide Chained, RemoveAt, ListsValid, ChainsOk, InNoChain, TableValid, Distinct;
      ghost var s, was := chains[b], chains;
      SlotAt(b);
      ChainAt(was, b);
      ChainsApart(was, b);
      var crecp := Get(b, up, k);
      Set(b, up, crecp.hashNext, s, k);
      ShorterChain(s, k);
      RemovedIn(s, k);
      chains := was[b := RemoveAt(s, k)];
      ChainKept(b);
      ListsKept();
    }

    /** The round-robin: the record `up` points at moves to where `insert` points, which moves on behind it;
        `up` points at the record that followed. */
    method Splice(b: nat, up: Place, insert0: Place, ghost k: nat, ghost to: nat) returns (insert: Place)
      requires Valid() && b < |chains| && to < k < |chains[b]| && up == PlaceOf(chains[b], k) && insert0 == PlaceOf(chains[b], to)
      modifies this`chains, slots, chains[b]`hashNext
      ensures Valid() && chains == old(chains)[b := MoveUp(old(chains)[b], k, to)]
      ensures insert == PlaceOf(chains[b], to + 1) && up == PlaceOf(chains[b], k + 1)
    {
      hide Chained, MoveUp, ListsValid, ChainsOk, InNoChain, Spliced, TableValid, Distinct, At;
      ghost var s, was := chains[b], chains;
      SlotAt(b);
      ChainAt(was, b);
      ChainsApart(was, b);
      AtIndex(s, k);
      var crecp := Get(b, up, k);
      insert := Relink(b, up, insert0, crecp, s, k, to);
      SplicedChain(s, k, to);
      MovedMembers(s, k, to);
      chains := was[b := MoveUp(s, k, to)];
      ChainKept(b);
      ListsKept();
    }

    /** The three assignments. */
    method Relink(b: nat, up: Place, insert0: Place, crecp: Crec, ghost s: seq<Crec>, ghost k: nat, ghost to: nat) returns (insert: Place)
      requires b < slots.Length && Distinct(s) && to < k < |s| && s[k] == crecp && up == PlaceOf(s, k) && insert0 == PlaceOf(s, to)
      requires slots[b] == At(s, 0) && forall i | 0 <= i < |s| :: s[i].hashNext == At(s, i + 1)
      modifies slots, s`hashNext
      ensures Spliced(s, k, to) && insert == NextOf(crecp)
      ensures slots[b] == (if to == 0 then crecp else At(s, 0)) && forall c | 0 <= c < slots.Length && c != b :: slots[c] == old(slots[c])
    {
      Set(b, up, crecp.hashNext, s, k);
      var first := if insert0 == Slot then slots[b] else insert0.crecp.hashNext;
      crecp.hashNext := first;
      Set(b, insert0, crecp, s, to);
      insert := NextOf(crecp);
    }
  }

  lemma {:induction false} NotThere(chains: seq<seq<Crec>>, x: Crec)
    requires InNoChain(chains, x)
    ensures forall c, i | 0 <= c < |chains| && 0 <= i < |chains[c]| :: chains[c][i] != x
    ensures forall c | 0 <= c < |chains| :: x !in chains[c]
  {
  }

  lemma {:induction false} DisjointMore(s: seq<Crec>, t: seq<Crec>, x: Crec)
    requires Disjoint(s, t) && x !in t
    ensures Disjoint([x] + s, t) && Disjoint(s + [x], t) && forall i | 0 <= i < |t| :: t[i] !in s && t[i] != x
  {
  }

  lemma {:induction false} DisjointFewer(s: seq<Crec>, t: seq<Crec>, k: nat)
    requires Disjoint(s, t) && k < |s|
    ensures Disjoint(RemoveAt(s, k), t)
  {
    RemovedIn(s, k);
    forall i | 0 <= i < |s| - 1 ensures RemoveAt(s, k)[i] !in t { RemoveAtElement(s, k, i); }
  }

  lemma {:induction false} DisjointFront(s: seq<Crec>, t: seq<Crec>, x: Crec)
    requires Disjoint(s, t) && x !in s
    ensures Disjoint(s, [x] + t)
  {
  }

  lemma {:induction false} DisjointRest(s: seq<Crec>, t: seq<Crec>)
    requires Disjoint(s, t) && t != []
    ensures Disjoint(s, t[1..])
  {
  }

  lemma {:induction false} QueueOf(s: seq<Crec>)
    requires Queued(s)
    ensures Distinct(s) && forall i | 0 <= i < |s| :: s[i].next == At(s, i + 1)
  {
  }

  lemma {:induction false} QueuedFront(s: seq<Crec>, x: Crec)
    requires Distinct(s) && x !in s && x.next == At(s, 0) && forall i | 0 <= i < |s| :: s[i].next == At(s, i + 1)
    ensures Queued([x] + s)
  {
  }

  lemma {:induction false} QueuedRest(s: seq<Crec>)
    requires s != [] && Distinct(s) && forall i | 0 <= i < |s| :: s[i].next == At(s, i + 1)
    ensures Queued(s[1..]) && At(s[1..], 0) == At(s, 1) && s[0] !in s[1..]
  {
  }

  lemma {:induction false} NotPending(s: seq<Crec>, t: seq<Crec>)
    requires Disjoint(s, t)
    ensures forall i | 0 <= i < |t| :: t[i] !in s
  {
  }

  lemma {:induction false} InsertedIn<T>(s: seq<T>, p: nat, x: T)
    requires p <= |s|
    ensures forall y :: y in InsertAt(s, p, x) <==> y in s || y == x
  {
    forall y ensures y in InsertAt(s, p, x) <==> y in s || y == x { InsertAtMembers(s, p, x, y); }
  }

  lemma {:induction false} MovedMembers<T>(s: seq<T>, k: nat, to: nat)
    requires to < k < |s|
    ensures forall y :: y in MoveUp(s, k, to) <==> y in s
  {
    MoveUpBag(s, k, to);
    BagMembers(MoveUp(s, k, to), s);
  }
}
