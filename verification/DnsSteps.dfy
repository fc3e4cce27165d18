/** The elementary changes of the cache, each a few pointer assignments in the program, and the proof
    that each keeps every invariant. */
module DnsSteps {
  import opened DnsRecords
  import opened Options
  import opened Sequences

  // ----- Removal from a chain.

  function Drop(s: State, b: nat, k: nat): State
    requires b < |s.chains| && k < |s.chains[b]|
  {
    s.(chains := s.chains[b := RemoveAt(s.chains[b], k)])
  }

  lemma {:induction false} RemoveAtOrder(recs: map<Id, Record>, chain: seq<Id>, k: nat)
    requires (forall id | id in chain :: id in recs) && k < |chain| && InOrder(recs, chain)
    ensures (forall id | id in RemoveAt(chain, k) :: id in recs) && InOrder(recs, RemoveAt(chain, k))
  {
    hide Rank;
    forall i, j | 0 <= i < j < |chain| - 1
      ensures RemoveAt(chain, k)[i] in recs && RemoveAt(chain, k)[j] in recs
      ensures Rank(recs[RemoveAt(chain, k)[i]]) <= Rank(recs[RemoveAt(chain, k)[j]])
    {
      RemoveAtElement(chain, k, i);
      RemoveAtElement(chain, k, j);
    }
  }

  lemma {:induction false} DropTable(s: State, b: nat, k: nat)
    requires TableOk(s.mix, s.recs, s.chains) && b < |s.chains| && k < |s.chains[b]|
    ensures TableOk(s.mix, s.recs, Drop(s, b, k).chains)
  {
    hide Distinct, InOrder, Bucket, RemoveAt;
    var chain, chains, t := s.chains[b], s.chains, Drop(s, b, k).chains;
    assert ChainOk(s.mix, s.recs, chain, b, |chains|);
    RemovedDistinct(chain, k);
    RemoveAtOrder(s.recs, chain, k);
    forall c | 0 <= c < |t| ensures ChainOk(s.mix, s.recs, t[c], c, |t|) {
      assert ChainOk(s.mix, s.recs, chains[c], c, |chains|);
      if c == b {
        forall id | id in t[b] ensures id in chain { RemoveAtMembers(chain, k, id); }
      }
    }
  }

  lemma {:induction false} DropHashed(s: State, b: nat, k: nat, id: Id)
    requires TableOk(s.mix, s.recs, s.chains) && b < |s.chains| && k < |s.chains[b]|
    ensures Hashed(Drop(s, b, k).chains, id) <==> Hashed(s.chains, id) && id != s.chains[b][k]
  {
    hide InOrder, Bucket, RemoveAt, TableOk;
    var chain, chains, t := s.chains[b], s.chains, Drop(s, b, k).chains;
    assert ChainOk(s.mix, s.recs, chain, b, |chains|) by { ChainOfTable(s.mix, s.recs, chains, b); }
    RemoveAtMembers(chain, k, id);
    if Hashed(t, id) {
      var c :| 0 <= c < |t| && id in t[c];
      assert id in chains[c];
      if id == chain[k] { OneChain(s.mix, s.recs, chains, b, c, id); }
    }
    if Hashed(chains, id) && id != chain[k] {
      var c :| 0 <= c < |chains| && id in chains[c];
      assert id in t[c];
    }
  }

  lemma {:induction false} ChainOfTable(mix: bv32 -> bv32, recs: map<Id, Record>, chains: seq<seq<Id>>, b: nat)
    requires TableOk(mix, recs, chains) && b < |chains|
    ensures ChainOk(mix, recs, chains[b], b, |chains|)
  {
  }

  /** An expired hosts or DHCP record leaves its chain and nothing else. */
  lemma {:induction false} DropKeeps(s: State, b: nat, k: nat)
    requires Inv(s) && b < |s.chains| && k < |s.chains[b]| && s.chains[b][k] >= s.n
    ensures Inv(Drop(s, b, k))
  {
    hide TableOk, PoolOk, UsedPrefix, BigOk, Hashed;
    var t := Drop(s, b, k);
    DropTable(s, b, k);
    forall id: Id ensures Hashed(t.chains, id) <==> Hashed(s.chains, id) && id != s.chains[b][k] { DropHashed(s, b, k, id); }
    forall id: Id | id < s.n ensures RecordOk(t, id) { assert RecordOk(s, id); }
    forall id: Id ensures StaticOk(t, id) { assert StaticOk(s, id); }
    BigSame(s, t);
  }

  lemma {:induction false} BigSame(s: State, t: State)
    requires BigOk(s) && s.recs == t.recs && s.n == t.n && s.bigFree == t.bigFree && s.bigLeft == t.bigLeft
    ensures BigOk(t)
  {
  }

  // ----- Returning a record to the free end of the list.

  function Cleared(r: Record, uid: int): Record {
    r.(flags := r.flags - {Forward, Reverse, BigName}, uid := uid)
  }

  /** cache_free: the record goes to the tail of the list, its long name to the free buffers. */
  function Freed(s: State, id: Id): State
    requires id in s.recs
  {
    s.(recs := s.recs[id := Cleared(s.recs[id], s.uid)], lru := s.lru + [id], uid := s.uid + 1,
       bigFree := s.bigFree + if BigName in s.recs[id].flags then 1 else 0)
  }

  /** Removal of record k of chain b from its chain and from the list, then cache_free. */
  function FreeAt(s: State, b: nat, k: nat): State
    requires b < |s.chains| && k < |s.chains[b]| && s.chains[b][k] in s.recs && s.chains[b][k] in s.lru
  {
    var id := s.chains[b][k];
    Freed(Drop(s, b, k).(lru := Without(s.lru, id)), id)
  }

  lemma {:induction false} SameBag(a: seq<Id>, b: seq<Id>, id: Id)
    requires multiset(a) == multiset(b)
    ensures id in a <==> id in b
  {
    assert id in a <==> id in multiset(a);
    assert id in b <==> id in multiset(b);
  }

  lemma {:induction false} MoveToTail(lru: seq<Id>, id: Id)
    requires id in lru
    ensures multiset(Without(lru, id) + [id]) == multiset(lru)
  {
    hide RemoveAt;
    RemoveAtBag(lru, IndexOf(lru, id));
  }

  /** The table does not see a change to a record that is not hashed. */
  lemma {:induction false} TableUpdate(mix: bv32 -> bv32, recs: map<Id, Record>, chains: seq<seq<Id>>, id: Id, r: Record)
    requires TableOk(mix, recs, chains) && !Hashed(chains, id)
    ensures TableOk(mix, recs[id := r], chains)
  {
    hide Distinct, Bucket, Rank;
    forall c | 0 <= c < |chains| ensures ChainOk(mix, recs[id := r], chains[c], c, |chains|) {
      assert ChainOk(mix, recs, chains[c], c, |chains|);
      assert id !in chains[c];
    }
  }

  lemma {:induction false} FreedPrefix(recs: map<Id, Record>, lru: seq<Id>, id: Id, uid: int)
    requires (forall x | x in lru :: x in recs) && UsedPrefix(recs, lru) && Distinct(lru) && id in lru
    ensures var t := Without(lru, id) + [id];
            var recs' := recs[id := Cleared(recs[id], uid)];
            (forall x | x in t :: x in recs') && UsedPrefix(recs', t)
  {
    hide RemoveAt;
    var k := IndexOf(lru, id);
    var w := RemoveAt(lru, k);
    var t, recs' := w + [id], recs[id := Cleared(recs[id], uid)];
    forall i | 0 <= i < |w| ensures w[i] in recs && w[i] != id && w[i] == lru[Skip(k, i)] {
      RemoveAtElement(lru, k, i);
      assert w[i] == lru[Skip(k, i)];
    }
    forall i, j | 0 <= i < j < |t| && InUse(recs'[t[j]]) ensures InUse(recs'[t[i]]) {
      assert j < |w|;
      assert t[i] == w[i] && t[j] == w[j];
      assert Skip(k, i) < Skip(k, j);
    }
  }

  lemma {:induction false} FreedBig(s: State, t: State, id: Id)
    requires BigOk(s) && id < s.n && id in s.recs && s.n == t.n && s.bigLeft == t.bigLeft
    requires t.recs == s.recs[id := Cleared(s.recs[id], s.uid)]
    requires t.bigFree == s.bigFree + if BigName in s.recs[id].flags then 1 else 0
    ensures BigOk(t)
  {
    hide BigCount;
    BigCountUpdate(s.recs, s.n, id, Cleared(s.recs[id], s.uid));
  }

  lemma {:induction false} FreeAtKeeps(s: State, b: nat, k: nat)
    requires Inv(s) && b < |s.chains| && k < |s.chains[b]| && s.chains[b][k] < s.n
    ensures s.chains[b][k] in s.recs && s.chains[b][k] in s.lru
    ensures Inv(FreeAt(s, b, k))
  {
    hide TableOk, UsedPrefix, BigOk, Hashed, Without, PoolOk;
    var id := s.chains[b][k];
    assert RecordOk(s, id) && Hashed(s.chains, id) by { HashedAt(s.chains, b, k); }
    var d, t := Drop(s, b, k), FreeAt(s, b, k);
    DropTable(s, b, k);
    forall x: Id ensures Hashed(t.chains, x) <==> Hashed(s.chains, x) && x != id { DropHashed(s, b, k, x); }
    TableUpdate(s.mix, s.recs, t.chains, id, t.recs[id]);
    MoveToTail(s.lru, id);
    PoolDistinct(s.n, s.lru, s.pending);
    FreedPrefix(s.recs, s.lru, id, s.uid);
    FreedBig(s, t, id);
    FreedRecords(s, t, id);
  }

  lemma {:induction false} HashedAt(chains: seq<seq<Id>>, b: nat, k: nat)
    requires b < |chains| && k < |chains[b]|
    ensures Hashed(chains, chains[b][k])
  {
  }

  lemma {:induction false} FreedRecords(s: State, t: State, id: Id)
    requires Inv(s) && id < s.n && s.n == t.n && id in s.recs && t.uid == s.uid + 1
    requires t.recs == s.recs[id := Cleared(s.recs[id], s.uid)] && multiset(t.lru) == multiset(s.lru) && t.pending == s.pending
    requires forall x: Id :: Hashed(t.chains, x) <==> Hashed(s.chains, x) && x != id
    ensures (forall x: Id | x < t.n :: RecordOk(t, x)) && (forall x: Id :: StaticOk(t, x)) && UidOk(t)
    ensures PoolOk(t.n, t.lru, t.pending)
  {
    hide TableOk, UsedPrefix, BigOk, Hashed;
    forall x: Id ensures x in t.lru <==> x in s.lru { SameBag(t.lru, s.lru, x); }
    forall x: Id | x < t.n ensures RecordOk(t, x) { assert RecordOk(s, x); }
    forall x: Id ensures StaticOk(t, x) { assert StaticOk(s, x); }
  }

  // ----- An uncommitted record goes back to the pool.

  function Recycle(s: State): State
    requires s.pending != [] && s.pending[0] in s.recs
  {
    Freed(s.(pending := s.pending[1..]), s.pending[0])
  }

  lemma {:induction false} RecycleBag(lru: seq<Id>, pending: seq<Id>)
    requires pending != []
    ensures multiset(lru + [pending[0]]) + multiset(pending[1..]) == multiset(lru) + multiset(pending)
    ensures multiset([pending[0]] + lru) + multiset(pending[1..]) == multiset(lru) + multiset(pending)
  {
    assert pending == [pending[0]] + pending[1..];
  }

  lemma {:induction false} RecycleKeeps(s: State)
    requires Inv(s) && s.pending != []
    ensures s.pending[0] in s.recs && Inv(Recycle(s))
  {
    hide TableOk, BigOk, Hashed, PoolOk;
    var id := s.pending[0];
    PoolMembers(s.n, s.lru, s.pending, id);
    assert RecordOk(s, id);
    var t := Recycle(s);
    RecyclePool(s.n, s.lru, s.pending);
    TableUpdate(s.mix, s.recs, s.chains, id, t.recs[id]);
    FreedBig(s, t, id);
    RecycleRecords(s, t, id);
  }

  lemma {:induction false} RecyclePool(n: nat, lru: seq<Id>, pending: seq<Id>)
    requires PoolOk(n, lru, pending) && pending != []
    ensures PoolOk(n, lru + [pending[0]], pending[1..]) && PoolOk(n, [pending[0]] + lru, pending[1..])
  {
    RecycleBag(lru, pending);
  }

  lemma {:induction false} RecycleRecords(s: State, t: State, id: Id)
    requires Inv(s) && id < s.n && s.n == t.n && id in s.recs && id !in s.lru && t.uid == s.uid + 1 && t.chains == s.chains
    requires t.recs == s.recs[id := Cleared(s.recs[id], s.uid)] && t.lru == s.lru + [id]
    ensures (forall x: Id | x < t.n :: RecordOk(t, x)) && (forall x: Id :: StaticOk(t, x)) && UidOk(t)
    ensures (forall x | x in t.lru :: x in t.recs) && UsedPrefix(t.recs, t.lru)
  {
    hide TableOk, PoolOk, BigOk, Hashed;
    forall x: Id | x < t.n ensures RecordOk(t, x) { assert RecordOk(s, x); }
    forall x: Id ensures StaticOk(t, x) { assert StaticOk(s, x); }
  }

  // ----- Promotion to the head of the list.

  /** cache_unlink, cache_link: the record becomes the youngest. */
  function Touch(s: State, id: Id): State
    requires id in s.lru
  {
    s.(lru := [id] + Without(s.lru, id))
  }

  lemma {:induction false} MoveToHead(lru: seq<Id>, id: Id)
    requires id in lru
    ensures multiset([id] + Without(lru, id)) == multiset(lru)
  {
    hide RemoveAt;
    RemoveAtBag(lru, IndexOf(lru, id));
  }

  lemma {:induction false} TouchPrefix(recs: map<Id, Record>, lru: seq<Id>, id: Id)
    requires (forall x | x in lru :: x in recs) && UsedPrefix(recs, lru) && id in lru && InUse(recs[id])
    ensures var t := [id] + Without(lru, id);
            (forall x | x in t :: x in recs) && UsedPrefix(recs, t)
  {
    hide RemoveAt, InUse;
    var k := IndexOf(lru, id);
    var w := RemoveAt(lru, k);
    var t := [id] + w;
    forall i | 0 <= i < |w| ensures w[i] in recs && w[i] == lru[Skip(k, i)] {
      RemoveAtElement(lru, k, i);
      assert w[i] == lru[Skip(k, i)];
    }
    forall i, j | 0 <= i < j < |t| && InUse(recs[t[j]]) ensures InUse(recs[t[i]]) {
      if i > 0 {
        assert t[i] == w[i - 1] && t[j] == w[j - 1];
        assert Skip(k, i - 1) < Skip(k, j - 1);
      }
    }
  }

  lemma {:induction false} TouchKeeps(s: State, id: Id)
    requires Inv(s) && id in s.lru && InUse(s.recs[id])
    ensures Inv(Touch(s, id))
  {
    hide TableOk, Hashed, UsedPrefix, Without, InUse, BigOk;
    var t := Touch(s, id);
    MoveToHead(s.lru, id);
    TouchPrefix(s.recs, s.lru, id);
    forall x: Id ensures x in t.lru <==> x in s.lru { SameBag(t.lru, s.lru, x); }
    forall x: Id | x < t.n ensures RecordOk(t, x) { assert RecordOk(s, x); }
    forall x: Id ensures StaticOk(t, x) { assert StaticOk(s, x); }
    BigSame(s, t);
  }

  // ----- Moving a record up its chain.

  function Shift(s: State, b: nat, k: nat, to: nat): State
    requires b < |s.chains| && to <= k < |s.chains[b]|
  {
    s.(chains := s.chains[b := MoveUp(s.chains[b], k, to)])
  }

  /** Between two records of equal rank every record has that rank, so the order survives the move. */
  lemma {:induction false} MoveUpOk(mix: bv32 -> bv32, recs: map<Id, Record>, chain: seq<Id>, b: nat, size: nat, k: nat, to: nat)
    requires b < size && ChainOk(mix, recs, chain, b, size) && to <= k < |chain|
    requires Rank(recs[chain[k]]) == Rank(recs[chain[to]])
    ensures ChainOk(mix, recs, MoveUp(chain, k, to), b, size)
  {
    hide MoveUp, Rank, Bucket;
    var t := MoveUp(chain, k, to);
    MoveUpBag(chain, k, to);
    forall id ensures id in t <==> id in chain { SameBag(t, chain, id); }
    forall i, j | 0 <= i < j < |t|
      ensures t[i] != t[j] && Rank(recs[t[i]]) <= Rank(recs[t[j]])
    {
      MoveUpElement(chain, k, to, i);
      MoveUpElement(chain, k, to, j);
    }
  }

  lemma {:induction false} ShiftHashed(s: State, b: nat, k: nat, to: nat, id: Id)
    requires b < |s.chains| && to <= k < |s.chains[b]|
    ensures Hashed(Shift(s, b, k, to).chains, id) <==> Hashed(s.chains, id)
  {
    hide MoveUp;
    var t := Shift(s, b, k, to);
    MoveUpBag(s.chains[b], k, to);
    SameBag(t.chains[b], s.chains[b], id);
    if Hashed(t.chains, id) {
      var c :| 0 <= c < |t.chains| && id in t.chains[c];
      assert id in s.chains[c];
    }
    if Hashed(s.chains, id) {
      var c :| 0 <= c < |s.chains| && id in s.chains[c];
      assert id in t.chains[c];
    }
  }

  lemma {:induction false} ShiftTable(s: State, b: nat, k: nat, to: nat)
    requires TableOk(s.mix, s.recs, s.chains) && b < |s.chains| && to <= k < |s.chains[b]|
    requires s.chains[b][k] in s.recs && s.chains[b][to] in s.recs
    requires Rank(s.recs[s.chains[b][k]]) == Rank(s.recs[s.chains[b][to]])
    ensures TableOk(s.mix, s.recs, Shift(s, b, k, to).chains)
  {
    hide MoveUp, ChainOk, Rank;
    var chains, t := s.chains, Shift(s, b, k, to).chains;
    assert ChainOk(s.mix, s.recs, chains[b], b, |chains|);
    MoveUpOk(s.mix, s.recs, chains[b], b, |chains|, k, to);
    forall c | 0 <= c < |t| ensures ChainOk(s.mix, s.recs, t[c], c, |t|) {
      assert ChainOk(s.mix, s.recs, chains[c], c, |chains|);
    }
  }

  lemma {:induction false} ShiftKeeps(s: State, b: nat, k: nat, to: nat)
    requires Inv(s) && b < |s.chains| && to <= k < |s.chains[b]|
    requires s.chains[b][k] in s.recs && s.chains[b][to] in s.recs
    requires Rank(s.recs[s.chains[b][k]]) == Rank(s.recs[s.chains[b][to]])
    ensures Inv(Shift(s, b, k, to))
  {
    hide TableOk, Hashed, UsedPrefix, BigOk, MoveUp, Rank, PoolOk;
    var t := Shift(s, b, k, to);
    ShiftTable(s, b, k, to);
    forall x: Id ensures Hashed(t.chains, x) <==> Hashed(s.chains, x) { ShiftHashed(s, b, k, to, x); }
    forall x: Id | x < t.n ensures RecordOk(t, x) { assert RecordOk(s, x); }
    forall x: Id ensures StaticOk(t, x) { assert StaticOk(s, x); }
    BigSame(s, t);
  }

  // ----- Hashing a record.

  function SkipReverse(recs: map<Id, Record>, chain: seq<Id>, i: nat): (p: nat)
    requires (forall id | id in chain :: id in recs) && i <= |chain|
    ensures i <= p <= |chain|
    ensures forall j | i <= j < p :: Reverse in recs[chain[j]].flags
    ensures p < |chain| ==> Reverse !in recs[chain[p]].flags
    decreases |chain| - i
  {
    if i < |chain| && Reverse in recs[chain[i]].flags then SkipReverse(recs, chain, i + 1) else i
  }

  function SkipMortal(recs: map<Id, Record>, chain: seq<Id>, i: nat): (p: nat)
    requires (forall id | id in chain :: id in recs) && i <= |chain|
    ensures i <= p <= |chain|
    ensures forall j | i <= j < p :: Immortal !in recs[chain[j]].flags
    ensures p < |chain| ==> Immortal in recs[chain[p]].flags
    decreases |chain| - i
  {
    if i < |chain| && Immortal !in recs[chain[i]].flags then SkipMortal(recs, chain, i + 1) else i
  }

  /** Where cache_hash puts a record: reverse entries first, immortal ones before the other immortal
      ones, the rest right after the reverse entries. */
  function HashPos(recs: map<Id, Record>, chain: seq<Id>, r: Record): (p: nat)
    requires forall id | id in chain :: id in recs
    ensures p <= |chain|
  {
    if Reverse in r.flags then 0
    else if Immortal in r.flags then SkipMortal(recs, chain, SkipReverse(recs, chain, 0))
    else SkipReverse(recs, chain, 0)
  }

  /** A record that a new record r goes behind: a reverse one when r is none, and one that can expire when r
      is immortal. */
  predicate Precedes(a: Record, r: Record) {
    Reverse !in r.flags && (Reverse in a.flags || (Immortal in r.flags && Immortal !in a.flags))
  }

  /** The place is behind exactly the records of an earlier kind, so in front of those of its own kind. */
  lemma {:induction false} HashPosInOrder(recs: map<Id, Record>, chain: seq<Id>, r: Record)
    requires (forall id | id in chain :: id in recs) && InOrder(recs, chain)
    ensures forall j | 0 <= j < |chain| :: j < HashPos(recs, chain, r) <==> Precedes(recs[chain[j]], r)
    ensures forall j | 0 <= j < HashPos(recs, chain, r) :: Rank(recs[chain[j]]) < Rank(r)
    ensures forall j | HashPos(recs, chain, r) <= j < |chain| :: Rank(r) <= Rank(recs[chain[j]])
  {
    var p, q := HashPos(recs, chain, r), SkipReverse(recs, chain, 0);
    forall j | p <= j < |chain| ensures Rank(r) <= Rank(recs[chain[j]]) {
      if p < j { assert Rank(recs[chain[p]]) <= Rank(recs[chain[j]]); }
      if q < p { assert Rank(recs[chain[q]]) <= Rank(recs[chain[p]]); }
    }
  }

  function Chain(s: State, r: Record): nat
    requires |s.chains| > 0
    ensures Chain(s, r) < |s.chains|
  {
    Bucket(s.mix, r.name, |s.chains|)
  }

  /** cache_hash on a table of chains. */
  function HashIn(mix: bv32 -> bv32, recs: map<Id, Record>, chains: seq<seq<Id>>, id: Id): (t: seq<seq<Id>>)
    requires |chains| > 0 && id in recs && forall b, x | 0 <= b < |chains| && x in chains[b] :: x in recs
    ensures |t| == |chains|
  {
    var b := Bucket(mix, recs[id].name, |chains|);
    chains[b := InsertAt(chains[b], HashPos(recs, chains[b], recs[id]), id)]
  }

  lemma {:induction false} TableRecords(mix: bv32 -> bv32, recs: map<Id, Record>, chains: seq<seq<Id>>)
    requires TableOk(mix, recs, chains)
    ensures |chains| > 0 && forall b, x | 0 <= b < |chains| && x in chains[b] :: x in recs
  {
    hide Distinct, InOrder, Bucket;
    forall b, x | 0 <= b < |chains| && x in chains[b] ensures x in recs {
      assert ChainOk(mix, recs, chains[b], b, |chains|);
    }
  }

  lemma {:induction false} InsertChainOk(mix: bv32 -> bv32, recs: map<Id, Record>, chain: seq<Id>, b: nat, size: nat, id: Id)
    requires b < size && ChainOk(mix, recs, chain, b, size) && id in recs && id !in chain && Bucket(mix, recs[id].name, size) == b
    ensures ChainOk(mix, recs, InsertAt(chain, HashPos(recs, chain, recs[id]), id), b, size)
  {
    hide InsertAt, HashPos, Bucket, Rank;
    var p := HashPos(recs, chain, recs[id]);
    var t := InsertAt(chain, p, id);
    forall x ensures x in t <==> x in chain || x == id { InsertAtMembers(chain, p, id, x); }
    HashPosInOrder(recs, chain, recs[id]);
    forall i, j | 0 <= i < j < |t|
      ensures t[i] != t[j] && Rank(recs[t[i]]) <= Rank(recs[t[j]])
    {
      InsertAtElement(chain, p, id, i);
      InsertAtElement(chain, p, id, j);
    }
  }

  lemma {:induction false} HashInTable(mix: bv32 -> bv32, recs: map<Id, Record>, chains: seq<seq<Id>>, id: Id)
    requires TableOk(mix, recs, chains) && id in recs && !Hashed(chains, id)
    ensures |chains| > 0 && forall b, x | 0 <= b < |chains| && x in chains[b] :: x in recs
    ensures TableOk(mix, recs, HashIn(mix, recs, chains, id))
  {
    hide InsertAt, HashPos, ChainOk, Bucket;
    TableRecords(mix, recs, chains);
    var t, b := HashIn(mix, recs, chains, id), Bucket(mix, recs[id].name, |chains|);
    assert id !in chains[b];
    InsertChainOk(mix, recs, chains[b], b, |chains|, id);
    forall c | 0 <= c < |t| ensures ChainOk(mix, recs, t[c], c, |t|) {
      assert ChainOk(mix, recs, chains[c], c, |chains|);
    }
  }

  lemma {:induction false} HashInHashed(mix: bv32 -> bv32, recs: map<Id, Record>, chains: seq<seq<Id>>, id: Id, x: Id)
    requires |chains| > 0 && id in recs && forall b, y | 0 <= b < |chains| && y in chains[b] :: y in recs
    ensures Hashed(HashIn(mix, recs, chains, id), x) <==> Hashed(chains, x) || x == id
  {
    hide InsertAt, HashPos, Bucket;
    var t, b := HashIn(mix, recs, chains, id), Bucket(mix, recs[id].name, |chains|);
    InsertAtMembers(chains[b], HashPos(recs, chains[b], recs[id]), id, x);
    if Hashed(t, x) {
      var c :| 0 <= c < |t| && x in t[c];
      if x != id { assert x in chains[c]; }
    }
    if Hashed(chains, x) {
      var c :| 0 <= c < |chains| && x in chains[c];
      assert x in t[c];
    }
    if x == id { assert x in t[b]; }
  }

  // ----- Committing the newest uncommitted record.

  function Commit(s: State): State
    requires s.pending != [] && s.pending[0] in s.recs
    requires |s.chains| > 0 && forall b, x | 0 <= b < |s.chains| && x in s.chains[b] :: x in s.recs
  {
    var id := s.pending[0];
    s.(pending := s.pending[1..], chains := HashIn(s.mix, s.recs, s.chains, id), lru := [id] + s.lru)
  }

  lemma {:induction false} CommitKeeps(s: State)
    requires Inv(s) && s.pending != [] && s.pending[0] in s.recs && InUse(s.recs[s.pending[0]])
    ensures |s.chains| > 0 && forall b, x | 0 <= b < |s.chains| && x in s.chains[b] :: x in s.recs
    ensures Inv(Commit(s))
  {
    hide TableOk, BigOk, Hashed, PoolOk, HashIn, InUse;
    var id := s.pending[0];
    PoolMembers(s.n, s.lru, s.pending, id);
    assert RecordOk(s, id);
    TableRecords(s.mix, s.recs, s.chains);
    var t := Commit(s);
    RecyclePool(s.n, s.lru, s.pending);
    HashInTable(s.mix, s.recs, s.chains, id);
    forall x: Id ensures Hashed(t.chains, x) <==> Hashed(s.chains, x) || x == id { HashInHashed(s.mix, s.recs, s.chains, id, x); }
    forall x: Id | x < t.n ensures RecordOk(t, x) { assert RecordOk(s, x); }
    forall x: Id ensures StaticOk(t, x) { assert StaticOk(s, x); }
    BigSame(s, t);
  }

  // ----- A record of the hosts files or of a lease enters the table.

  function AddStatic(s: State, id: Id, r: Record): State
    requires |s.chains| > 0 && forall b, x | 0 <= b < |s.chains| && x in s.chains[b] :: x in s.recs
  {
    s.(recs := s.recs[id := r], chains := HashIn(s.mix, s.recs[id := r], s.chains, id))
  }

  lemma {:induction false} AddStaticKeeps(s: State, id: Id, r: Record)
    requires Inv(s) && id >= s.n && !Hashed(s.chains, id) && Static(r)
    requires r.target.Some? && r.target.value < s.n ==> r.targetUid < s.uid
    ensures |s.chains| > 0 && forall b, x | 0 <= b < |s.chains| && x in s.chains[b] :: x in s.recs
    ensures Inv(AddStatic(s, id, r))
  {
    hide TableOk, BigOk, Hashed, PoolOk, HashIn, InUse, Static;
    TableRecords(s.mix, s.recs, s.chains);
    var t := AddStatic(s, id, r);
    TableUpdate(s.mix, s.recs, s.chains, id, r);
    HashInTable(s.mix, t.recs, s.chains, id);
    forall x: Id ensures Hashed(t.chains, x) <==> Hashed(s.chains, x) || x == id { HashInHashed(s.mix, t.recs, s.chains, id, x); }
    forall x: Id | x < t.n ensures RecordOk(t, x) { assert RecordOk(s, x); }
    forall x: Id ensures StaticOk(t, x) { assert StaticOk(s, x); }
    AddStaticRest(s, t, id, r);
  }

  lemma {:induction false} AddStaticRest(s: State, t: State, id: Id, r: Record)
    requires Inv(s) && id >= s.n && t.recs == s.recs[id := r] && t.n == s.n && t.lru == s.lru && t.pending == s.pending
    requires t.bigFree == s.bigFree && t.bigLeft == s.bigLeft
    ensures (forall x | x in t.lru :: x in t.recs) && UsedPrefix(t.recs, t.lru) && BigOk(t)
  {
    hide TableOk, Hashed, PoolOk, RecordOk, StaticOk, InUse, BigCount;
    forall x | x in t.lru ensures x != id && x in s.recs && t.recs[x] == s.recs[x] { PoolMembers(s.n, s.lru, s.pending, x); }
    forall i, j | 0 <= i < j < |t.lru| && InUse(t.recs[t.lru[j]]) ensures InUse(t.recs[t.lru[i]]) {
      assert t.lru[i] in t.lru && t.lru[j] in t.lru;
    }
    BigCountStatic(s.recs, s.n, id, r);
  }

  lemma {:induction false} BigCountStatic(recs: map<Id, Record>, n: nat, id: Id, r: Record)
    requires id >= n
    ensures BigCount(recs[id := r], n) == BigCount(recs, n)
  {
    if n > 0 { BigCountStatic(recs, n - 1, id, r); }
  }

  // ----- Taking the free record at the tail of the list.

  /** The tail leaves the list with its new contents and heads the pending chain; a long name takes a
      free buffer, or else one not yet allocated. */
  function Grab(s: State, r: Record): State
    requires s.lru != []
  {
    var id, big := s.lru[|s.lru| - 1], BigName in r.flags;
    s.(lru := s.lru[..|s.lru| - 1], pending := [id] + s.pending, recs := s.recs[id := r],
       bigFree := if big && s.bigFree > 0 then s.bigFree - 1 else s.bigFree,
       bigLeft := if big && s.bigFree == 0 && s.bigLeft > 0 then s.bigLeft - 1 else s.bigLeft)
  }

  lemma {:induction false} GrabBag(lru: seq<Id>, pending: seq<Id>)
    requires lru != []
    ensures multiset(lru[..|lru| - 1]) + multiset([lru[|lru| - 1]] + pending) == multiset(lru) + multiset(pending)
  {
    assert lru == lru[..|lru| - 1] + [lru[|lru| - 1]];
  }

  lemma {:induction false} GrabKeeps(s: State, r: Record)
    requires Inv(s) && s.lru != [] && s.lru[|s.lru| - 1] in s.recs && !InUse(s.recs[s.lru[|s.lru| - 1]])
    requires !Static(r) && r.target == None && r.uid == s.recs[s.lru[|s.lru| - 1]].uid
    requires BigName in r.flags ==> s.bigFree + s.bigLeft > 0
    ensures Inv(Grab(s, r))
  {
    hide TableOk, BigOk, Hashed, InUse, Static;
    var id, t := s.lru[|s.lru| - 1], Grab(s, r);
    GrabBag(s.lru, s.pending);
    PoolMembers(s.n, s.lru, s.pending, id);
    assert RecordOk(s, id);
    PoolMembers(t.n, t.lru, t.pending, id);
    TableUpdate(s.mix, s.recs, s.chains, id, r);
    GrabRecords(s, t, id, r);
    GrabBig(s, t, id, r);
  }

  lemma {:induction false} GrabRecords(s: State, t: State, id: Id, r: Record)
    requires Inv(s) && s.lru != [] && id == s.lru[|s.lru| - 1] && id < s.n && !Hashed(s.chains, id)
    requires t == Grab(s, r) && id !in t.lru && !Static(r) && r.target == None && r.uid == s.recs[id].uid
    ensures (forall x: Id | x < t.n :: RecordOk(t, x)) && (forall x: Id :: StaticOk(t, x)) && UidOk(t)
    ensures (forall x | x in t.lru :: x in t.recs) && UsedPrefix(t.recs, t.lru)
  {
    hide TableOk, BigOk, Hashed, InUse, Static, PoolOk;
    assert RecordOk(s, id);
    forall x | x != id ensures x in t.lru <==> x in s.lru { RemoveAtLast(s.lru, x); }
    forall x: Id | x < t.n ensures RecordOk(t, x) { assert RecordOk(s, x); }
    forall x: Id ensures StaticOk(t, x) { assert StaticOk(s, x); }
    forall i, j | 0 <= i < j < |t.lru| && InUse(t.recs[t.lru[j]]) ensures InUse(t.recs[t.lru[i]]) {
      assert t.lru[i] == s.lru[i] && t.lru[j] == s.lru[j];
      assert t.lru[i] in t.lru && t.lru[j] in t.lru;
    }
  }

  lemma {:induction false} RemoveAtLast(lru: seq<Id>, x: Id)
    requires lru != [] && x != lru[|lru| - 1]
    ensures x in lru[..|lru| - 1] <==> x in lru
  {
    assert lru == lru[..|lru| - 1] + [lru[|lru| - 1]];
  }

  lemma {:induction false} GrabBig(s: State, t: State, id: Id, r: Record)
    requires BigOk(s) && id < s.n && id in s.recs && BigName !in s.recs[id].flags && t.n == s.n && t.recs == s.recs[id := r]
    requires t.bigFree + t.bigLeft == s.bigFree + s.bigLeft - if BigName in r.flags then 1 else 0
    ensures BigOk(t)
  {
    hide BigCount;
    BigCountUpdate(s.recs, s.n, id, r);
  }
}
