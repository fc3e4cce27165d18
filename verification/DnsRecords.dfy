/** The records of the DNS cache and the structures they sit in: the table of hash chains, the
    least-recently-used list, the chain of uncommitted insertions and the pool of long-name buffers. */
module DnsRecords {
  import opened Options
  import opened Sequences

  /** A record is known by its place in memory: the pool records are 0 .. n-1, records of the hosts
      files and of DHCP leases lie above. */
  type Id = nat

  datatype Flag = Immortal | Config | Reverse | Forward | Dhcp | Neg | Hosts | Ipv4 | Ipv6 | BigName
                | Upstream | Server | NxDomain | Query | Cname | NoErr

  /** An address: its first four bytes and the twelve that only IPv6 uses. */
  datatype Address = Address(first: nat, rest: nat)

  /** `target` and `targetUid` are what an alias expects to find at its target. */
  datatype Record = Record(flags: set<Flag>, name: string, ttd: int, uid: int, addr: Address,
                           target: Option<Id>, targetUid: int)

  /** lru runs from cache_head to cache_tail, pending from new_chain; links are the answer links of hosts
      and DHCP records, whose next field serves nothing else. */
  datatype State = State(n: nat, mix: bv32 -> bv32, recs: map<Id, Record>, lru: seq<Id>, chains: seq<seq<Id>>,
                         pending: seq<Id>, links: map<Id, Option<Id>>, bigFree: nat, bigLeft: nat, uid: int)

  // ----- Names and buckets.

  function LowerChar(c: char): char { if 'A' <= c <= 'Z' then c - 'A' + 'a' else c }

  /** Equal but for the case of ASCII letters. */
  predicate SameName(a: string, b: string) {
    |a| == |b| && forall i | 0 <= i < |a| :: LowerChar(a[i]) == LowerChar(b[i])
  }

  function CharValue(c: char): bv32 { (c as int % 256) as bv32 }

  /** One turn of the hash loop; mix stands for the 64-entry mixing table. */
  function MixIn(mix: bv32 -> bv32, val: bv32, c: bv32): bv32 {
    ((val << 7) | (val >> 25)) + (mix((val + c) & 0x3F) ^ c)
  }

  function HashValue(mix: bv32 -> bv32, name: string, val: bv32): bv32 {
    if name == "" then val else HashValue(mix, name[1..], MixIn(mix, val, CharValue(LowerChar(name[0]))))
  }

  function Fold(val: bv32): nat { (val ^ (val >> 16)) as nat }

  /** The chain a name hashes to, in a table of `size` chains. */
  function Bucket(mix: bv32 -> bv32, name: string, size: nat): (b: nat)
    requires size > 0
    ensures b < size
  {
    Fold(HashValue(mix, name, 7989)) % size
  }

  lemma {:induction false} SameHash(mix: bv32 -> bv32, a: string, b: string, val: bv32)
    requires SameName(a, b)
    ensures HashValue(mix, a, val) == HashValue(mix, b, val)
  {
    hide CharValue, MixIn;
    if a != "" {
      assert LowerChar(a[0]) == LowerChar(b[0]);
      SameTail(a, b);
      SameHash(mix, a[1..], b[1..], MixIn(mix, val, CharValue(LowerChar(a[0]))));
    }
  }

  /** One value of the hash, over a mixing table of zeros. */
  lemma {:induction false} HashOfOne()
    ensures Bucket(v => 0, "a", 64) == Bucket(v => 0, "A", 64) == 46
  {
    hide MixIn, CharValue, Fold, LowerChar;
    var mix: bv32 -> bv32 := v => 0;
    TurnOfOne(mix);
    assert "a"[1..] == "" && "A"[1..] == "";
    assert 0xF9AEE % 64 == 46;
  }

  lemma {:induction false} TurnOfOne(mix: bv32 -> bv32)
    requires forall v :: mix(v) == 0
    ensures MixIn(mix, 7989, CharValue(LowerChar('a'))) == 0xF9AE1 == MixIn(mix, 7989, CharValue(LowerChar('A')))
    ensures Fold(0xF9AE1) == 0xF9AEE
  {
    assert LowerChar('a') == 'a' == LowerChar('A');
    OneChar();
    OneFold();
  }

  lemma {:induction false} OneChar()
    ensures CharValue('a') == 0x61
  {
  }

  lemma {:induction false} OneFold()
    ensures Fold(0xF9AE1) == 0xF9AEE
  {
  }

  lemma {:induction false} SameTail(a: string, b: string)
    requires SameName(a, b) && a != ""
    ensures SameName(a[1..], b[1..])
  {
    forall i | 0 <= i < |a| - 1 ensures LowerChar(a[1..][i]) == LowerChar(b[1..][i]) {
      assert a[1..][i] == a[i + 1] && b[1..][i] == b[i + 1];
    }
  }

  /** Names equal up to case share a bucket. */
  lemma {:induction false} SameBucket(mix: bv32 -> bv32, a: string, b: string, size: nat)
    requires SameName(a, b) && size > 0
    ensures Bucket(mix, a, size) == Bucket(mix, b, size)
  {
    hide HashValue, SameName, Fold;
    SameHash(mix, a, b, 7989);
  }

  // ----- Sequences of records.

  /** Where id stands in s. */
  function IndexOf(s: seq<Id>, id: Id): (k: nat)
    requires id in s
    ensures k < |s| && s[k] == id
  {
    if s[0] == id then 0 else 1 + IndexOf(s[1..], id)
  }

  /** s without its first occurrence of id. */
  function Without(s: seq<Id>, id: Id): seq<Id>
    requires id in s
  {
    RemoveAt(s, IndexOf(s, id))
  }

  lemma {:induction false} RemoveAtMembers(s: seq<Id>, k: nat, id: Id)
    requires k < |s| && Distinct(s)
    ensures id in RemoveAt(s, k) <==> id in s && id != s[k]
  {
    if id in s && id != s[k] {
      var j := IndexOf(s, id);
      var i := if j < k then j else j - 1;
      RemoveAtElement(s, k, i);
    }
    if id in RemoveAt(s, k) {
      var i := IndexOf(RemoveAt(s, k), id);
      RemoveAtElement(s, k, i);
    }
  }

  // ----- Invariants.

  predicate InUse(r: Record) { Forward in r.flags || Reverse in r.flags }

  /** Records of the hosts files and of DHCP leases are never in the pool. */
  predicate Static(r: Record) { Hosts in r.flags || Dhcp in r.flags }

  /** Position in a chain: reverse entries, then the others, then the immortal ones. */
  function Rank(r: Record): nat {
    if Reverse in r.flags then 0 else if Immortal in r.flags then 2 else 1
  }

  ghost predicate InOrder(recs: map<Id, Record>, chain: seq<Id>)
    requires forall id | id in chain :: id in recs
  {
    forall i, j | 0 <= i < j < |chain| :: Rank(recs[chain[i]]) <= Rank(recs[chain[j]])
  }

  /** Chain b of a table of `size` chains holds records that hash there, once each and in order. */
  ghost predicate ChainOk(mix: bv32 -> bv32, recs: map<Id, Record>, chain: seq<Id>, b: nat, size: nat)
    requires b < size
  {
    && (forall id | id in chain :: id in recs && Bucket(mix, recs[id].name, size) == b)
    && Distinct(chain)
    && InOrder(recs, chain)
  }

  ghost predicate TableOk(mix: bv32 -> bv32, recs: map<Id, Record>, chains: seq<seq<Id>>) {
    |chains| > 0 && forall b | 0 <= b < |chains| :: ChainOk(mix, recs, chains[b], b, |chains|)
  }

  ghost predicate Hashed(chains: seq<seq<Id>>, id: Id) {
    exists b :: 0 <= b < |chains| && id in chains[b]
  }

  ghost function Ids(n: nat): (s: set<Id>)
    ensures |s| == n && forall id: Id :: id in s <==> id < n
  {
    if n == 0 then {} else Ids(n - 1) + {n - 1}
  }

  /** The used list and the pending chain share the pool records between them, each exactly once. */
  ghost predicate PoolOk(n: nat, lru: seq<Id>, pending: seq<Id>) {
    multiset(lru) + multiset(pending) == multiset(Ids(n))
  }

  /** In-use records come first. */
  ghost predicate UsedPrefix(recs: map<Id, Record>, lru: seq<Id>)
    requires forall id | id in lru :: id in recs
  {
    forall i, j | 0 <= i < j < |lru| && InUse(recs[lru[j]]) :: InUse(recs[lru[i]])
  }

  /** A pool record is hashed exactly when it is on the list and in use; a free one has no long name. */
  ghost predicate RecordOk(s: State, id: Id) {
    && id in s.recs && !Static(s.recs[id])
    && (Hashed(s.chains, id) <==> id in s.lru && InUse(s.recs[id]))
    && (id in s.lru && !InUse(s.recs[id]) ==> BigName !in s.recs[id].flags)
  }

  ghost predicate StaticOk(s: State, id: Id) { Hashed(s.chains, id) && id >= s.n ==> id in s.recs && Static(s.recs[id]) }

  ghost function BigCount(recs: map<Id, Record>, n: nat): nat {
    if n == 0 then 0
    else BigCount(recs, n - 1) + if n - 1 in recs && BigName in recs[n - 1].flags then 1 else 0
  }

  /** Long-name buffers: in use, free, and not yet allocated. */
  ghost predicate BigOk(s: State) { BigCount(s.recs, s.n) + s.bigFree + s.bigLeft == s.n / 10 }

  /** The next uid is fresh: no pool record has it and no alias of a pool record expects it. */
  ghost predicate UidOk(s: State) {
    forall id | id in s.recs ::
      && (id < s.n ==> s.recs[id].uid < s.uid)
      && (s.recs[id].target.Some? && s.recs[id].target.value < s.n ==> s.recs[id].targetUid < s.uid)
  }

  ghost predicate Inv(s: State) {
    && PoolOk(s.n, s.lru, s.pending)
    && (forall id: Id | id < s.n :: RecordOk(s, id))
    && (forall id: Id :: StaticOk(s, id))
    && TableOk(s.mix, s.recs, s.chains)
    && (forall id | id in s.lru :: id in s.recs) && UsedPrefix(s.recs, s.lru)
    && BigOk(s) && UidOk(s)
  }

  // ----- Facts about the pool.

  lemma {:induction false} PoolMembers(n: nat, lru: seq<Id>, pending: seq<Id>, id: Id)
    requires PoolOk(n, lru, pending)
    ensures id < n <==> id in lru || id in pending
    ensures !(id in lru && id in pending)
    ensures multiset(lru)[id] <= 1 && multiset(pending)[id] <= 1
  {
    var m := multiset(lru) + multiset(pending);
    assert m[id] == multiset(lru)[id] + multiset(pending)[id];
    assert m[id] == multiset(Ids(n))[id];
    assert id in lru <==> id in multiset(lru);
    assert id in pending <==> id in multiset(pending);
  }

  lemma {:induction false} OnceIsDistinct(s: seq<Id>)
    requires forall id :: multiset(s)[id] <= 1
    ensures Distinct(s)
  {
    forall i, j | 0 <= i < j < |s| ensures s[i] != s[j] { TwiceCounts(s, i, j); }
  }

  lemma {:induction false} TwiceCounts(s: seq<Id>, i: nat, j: nat)
    requires i < j < |s|
    ensures s[i] == s[j] ==> multiset(s)[s[i]] >= 2
  {
    assert s == s[..i] + [s[i]] + s[i + 1..j] + [s[j]] + s[j + 1..];
  }

  lemma {:induction false} PoolDistinct(n: nat, lru: seq<Id>, pending: seq<Id>)
    requires PoolOk(n, lru, pending)
    ensures Distinct(lru) && Distinct(pending)
  {
    hide PoolOk;
    forall id: Id ensures multiset(lru)[id] <= 1 && multiset(pending)[id] <= 1 { PoolMembers(n, lru, pending, id); }
    OnceIsDistinct(lru);
    OnceIsDistinct(pending);
  }

  lemma {:induction false} BigCountUpdate(recs: map<Id, Record>, n: nat, id: Id, r: Record)
    requires id in recs
    ensures BigCount(recs[id := r], n) == BigCount(recs, n)
            + (if id < n then (if BigName in r.flags then 1 else 0) - (if BigName in recs[id].flags then 1 else 0) else 0)
  {
    if n > 0 { BigCountUpdate(recs, n - 1, id, r); }
  }

  /** A record stands in no chain but the one it hashes to. */
  lemma {:induction false} OneChain(mix: bv32 -> bv32, recs: map<Id, Record>, chains: seq<seq<Id>>, b: nat, c: nat, id: Id)
    requires TableOk(mix, recs, chains) && b < |chains| && c < |chains| && id in chains[b] && id in chains[c]
    ensures b == c
  {
    hide Distinct, InOrder, Bucket;
    assert ChainOk(mix, recs, chains[b], b, |chains|) && ChainOk(mix, recs, chains[c], c, |chains|);
  }
}
