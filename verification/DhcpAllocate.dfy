/** The DHCP address allocator, with pings switched off: leases are a set, configured hosts a list. */
module DhcpAllocate {
  import opened Bits
  import opened Options

  const WORD := 0x1_0000_0000

  /** A dhcp-range on the interface the request came in on. */
  datatype Context = Context(start: nat, end: nat, router: nat, isStatic: bool, filter: seq<string>, addrEpoch: nat)

  /** A dhcp-host entry, with an address or without. */
  datatype Config = Config(hasAddr: bool, addr: nat)

  /** Ranges hold at least one address and are not the whole address space. */
  ghost predicate Ranges(cs: seq<Context>) {
    forall i | 0 <= i < |cs| :: cs[i].start <= cs[i].end < WORD && cs[i].end - cs[i].start < WORD - 1 && cs[i].addrEpoch < WORD
  }

  // ----- Tags.

  /** One filter tag against the tags of the request: '#' asks for absence. */
  predicate TagMatches(tag: string, pool: seq<string>) {
    if tag != "" && tag[0] == '#' then tag[1..] !in pool else tag in pool
  }

  ghost predicate Matches(check: seq<string>, pool: seq<string>, tagNotNeeded: bool) {
    (check != [] || tagNotNeeded) && forall i | 0 <= i < |check| :: TagMatches(check[i], pool)
  }

  method FindTag(tag: string, pool: seq<string>) returns (found: bool)
    ensures found <==> tag in pool
  {
    found := false;
    var i := 0;
    while i < |pool| && !found
      invariant i <= |pool| && (found <==> tag in pool[..i])
    {
      found := tag == pool[i];
      i := i + 1;
    }
    assert !found ==> pool[..i] == pool;
  }

  method MatchNetid(check: seq<string>, pool: seq<string>, tagNotNeeded: bool) returns (ok: bool)
    ensures ok <==> Matches(check, pool, tagNotNeeded)
  {
    if check == [] && !tagNotNeeded {
      return false;
    }
    for i := 0 to |check|
      invariant forall k | 0 <= k < i :: TagMatches(check[k], pool)
    {
      var found;
      if check[i] == "" || check[i][0] != '#' {
        found := FindTag(check[i], pool);
        if !found {
          return false;
        }
      } else {
        found := FindTag(check[i][1..], pool);
        if found {
          return false;
        }
      }
    }
    return true;
  }

  // ----- Addresses that may be given out.

  predicate ClassC(addr: nat) { addr / 0x2000_0000 == 6 }

  ghost predicate Configured(configs: seq<Config>, addr: nat) {
    exists i :: 0 <= i < |configs| && configs[i].hasAddr && configs[i].addr == addr
  }

  ghost predicate IsRouter(cs: seq<Context>, addr: nat) { exists i :: 0 <= i < |cs| && cs[i].router == addr }

  /** Not the server's own, not leased, not configured for a host, and not an end of a class C network. */
  ghost predicate Admissible(cs: seq<Context>, leases: set<nat>, configs: seq<Config>, addr: nat) {
    !IsRouter(cs, addr) && addr !in leases && !Configured(configs, addr)
    && (ClassC(addr) ==> addr % 256 != 255 && addr % 256 != 0)
  }

  method FindByAddress(configs: seq<Config>, addr: nat) returns (found: bool)
    ensures found <==> Configured(configs, addr)
  {
    for i := 0 to |configs|
      invariant forall k | 0 <= k < i :: !(configs[k].hasAddr && configs[k].addr == addr)
    {
      if configs[i].hasAddr && configs[i].addr == addr {
        return true;
      }
    }
    return false;
  }

  method Allowed(cs: seq<Context>, leases: set<nat>, configs: seq<Config>, addr: nat) returns (ok: bool)
    ensures ok <==> Admissible(cs, leases, configs, addr)
  {
    var d := 0;
    while d < |cs| && addr != cs[d].router
      invariant d <= |cs| && forall k | 0 <= k < d :: cs[k].router != addr
    {
      d := d + 1;
    }
    if d < |cs| || addr in leases {
      return false;
    }
    var configured := FindByAddress(configs, addr);
    return !configured && (!ClassC(addr) || (addr % 256 != 255 && addr % 256 != 0));
  }

  // ----- The seeded walk through a range.

  function Size(c: Context): int { c.end - c.start + 1 }

  /** The address k steps after the seed, wrapping round at the end of the range. */
  ghost function Visit(c: Context, seed: nat, k: nat): nat
    requires c.start <= c.end
  {
    c.start + (seed + k) % Size(c)
  }

  lemma {:induction false} VisitInRange(c: Context, seed: nat, k: nat)
    requires c.start <= c.end
    ensures c.start <= Visit(c, seed, k) <= c.end
  {
  }

  lemma {:induction false} NextVisit(c: Context, seed: nat, k: nat)
    requires c.start <= c.end
    ensures Visit(c, seed, k + 1) == if Visit(c, seed, k) == c.end then c.start else Visit(c, seed, k) + 1
  {
    var n, x := Size(c), seed + k;
    var q, r := x / n, x % n;
    if r == n - 1 {
      assert n * (q + 1) == n * q + n;
      DivModUnique(x + 1, n, q + 1, 0);
    } else {
      DivModUnique(x + 1, n, q, r + 1);
    }
  }

  /** The walk comes back to its start after Size steps and not before. */
  lemma {:induction false} VisitsOnce(c: Context, seed: nat, j: nat, k: nat)
    requires c.start <= c.end && j < k <= Size(c)
    ensures Visit(c, seed, j) == Visit(c, seed, k) <==> j == 0 && k == Size(c)
  {
    var n := Size(c);
    var x, y := seed + j, seed + k;
    if k == n && j == 0 {
      assert n * (x / n + 1) == n * (x / n) + n;
      DivModUnique(y, n, x / n + 1, x % n);
    } else if x % n == y % n {
      assert y - x == n * (y / n) - n * (x / n);
      assert n * (y / n - x / n) == n * (y / n) - n * (x / n);
      NonzeroMultiple(n, y / n - x / n);
    }
  }

  /** Every address of the range is visited within Size steps. */
  lemma {:induction false} VisitsAll(c: Context, seed: nat, addr: int) returns (k: nat)
    requires c.start <= addr <= c.end
    ensures k < Size(c) && Visit(c, seed, k) == addr
  {
    var n, s, o := Size(c), seed % Size(c), addr - c.start;
    var q := seed / n;
    if s <= o {
      k := o - s;
      DivModUnique(seed + k, n, q, o);
    } else {
      k := o + n - s;
      assert n * (q + 1) == n * q + n;
      DivModUnique(seed + k, n, q + 1, o);
    }
  }

  /** The first admissible address of a range in walking order, if there is one. */
  ghost predicate FirstFree(cs: seq<Context>, leases: set<nat>, configs: seq<Config>, c: Context, seed: nat, r: Option<nat>)
    requires c.start <= c.end
  {
    match r
    case None => forall addr | c.start <= addr <= c.end :: !Admissible(cs, leases, configs, addr)
    case Some(addr) =>
      && c.start <= addr <= c.end && Admissible(cs, leases, configs, addr)
      && exists k :: 0 <= k < Size(c) && FoundAt(cs, leases, configs, c, seed, k, addr)
  }

  ghost predicate FoundAt(cs: seq<Context>, leases: set<nat>, configs: seq<Config>, c: Context, seed: nat, k: nat, addr: nat)
    requires c.start <= c.end
  {
    Visit(c, seed, k) == addr && forall j | 0 <= j < k :: !Admissible(cs, leases, configs, Visit(c, seed, j))
  }

  method NextAddress(c: Context, addr: nat) returns (next: nat)
    requires c.start <= addr <= c.end < WORD
    ensures next == if addr == c.end then c.start else addr + 1
  {
    next := (addr + 1) % WORD;
    if next == (c.end + 1) % WORD {
      next := c.start;
    }
  }

  method WalkRange(cs: seq<Context>, leases: set<nat>, configs: seq<Config>, c: Context, j: nat) returns (r: Option<nat>)
    requires c.start <= c.end < WORD && c.end - c.start < WORD - 1
    ensures FirstFree(cs, leases, configs, c, (j + c.addrEpoch) % WORD, r)
  {
    hide Admissible, Visit, Size;
    ghost var seed := (j + c.addrEpoch) % WORD;
    var start := c.start + (j + c.addrEpoch) % WORD % ((1 + c.end - c.start) % WORD);
    var addr := start;
    ghost var k := 0;
    SeedVisit(c, seed);
    while true
      invariant 0 <= k < Size(c) && addr == Visit(c, seed, k) && start == Visit(c, seed, 0)
      invariant forall i | 0 <= i < k :: !Admissible(cs, leases, configs, Visit(c, seed, i))
      decreases Size(c) - k
    {
      VisitInRange(c, seed, k);
      var ok := Allowed(cs, leases, configs, addr);
      if ok {
        assert FoundAt(cs, leases, configs, c, seed, k, addr);
        return Some(addr);
      }
      NextVisit(c, seed, k);
      VisitsOnce(c, seed, 0, k + 1);
      addr := NextAddress(c, addr);
      k := k + 1;
      if addr == start {
        NothingFree(cs, leases, configs, c, seed);
        return None;
      }
    }
  }

  lemma {:induction false} SeedVisit(c: Context, seed: nat)
    requires c.start <= c.end < WORD && c.end - c.start < WORD - 1
    ensures (1 + c.end - c.start) % WORD == Size(c)
    ensures c.start + seed % Size(c) == Visit(c, seed, 0)
  {
  }

  lemma {:induction false} NothingFree(cs: seq<Context>, leases: set<nat>, configs: seq<Config>, c: Context, seed: nat)
    requires c.start <= c.end && forall i | 0 <= i < Size(c) :: !Admissible(cs, leases, configs, Visit(c, seed, i))
    ensures forall addr | c.start <= addr <= c.end :: !Admissible(cs, leases, configs, addr)
  {
    hide Admissible, Visit;
    forall addr | c.start <= addr <= c.end ensures !Admissible(cs, leases, configs, addr) {
      var k := VisitsAll(c, seed, addr);
    }
  }

  // ----- The allocator.

  ghost predicate Eligible(c: Context, netids: seq<string>, pass: nat) { !c.isStatic && Matches(c.filter, netids, pass == 1) }

  ghost predicate HasFree(cs: seq<Context>, leases: set<nat>, configs: seq<Config>, c: Context) {
    exists addr: nat :: c.start <= addr <= c.end && Admissible(cs, leases, configs, addr)
  }

  /** No range passed over up to (pass, i) could have served the request. */
  ghost predicate PassedOver(cs: seq<Context>, leases: set<nat>, configs: seq<Config>, netids: seq<string>, pass: nat, i: nat)
    requires i <= |cs|
  {
    && (pass > 0 ==> forall k | 0 <= k < |cs| :: Eligible(cs[k], netids, 0) ==> !HasFree(cs, leases, configs, cs[k]))
    && (forall k | 0 <= k < i :: Eligible(cs[k], netids, pass) ==> !HasFree(cs, leases, configs, cs[k]))
  }

  /** The seed: bytes of the hardware address, each counted at three positions of the word. */
  ghost function HwHash(hw: seq<nat>): nat {
    if hw == [] then 0 else (HwHash(hw[..|hw| - 1]) + hw[|hw| - 1] + hw[|hw| - 1] * 0x100 + hw[|hw| - 1] * 0x10000) % WORD
  }

  ghost function ByteSum(hw: seq<nat>): nat {
    if hw == [] then 0 else ByteSum(hw[..|hw| - 1]) + hw[|hw| - 1]
  }

  lemma {:induction false} SeedIsSum(hw: seq<nat>)
    ensures HwHash(hw) == 0x10101 * ByteSum(hw) % 0x1_0000_0000
  {
    hide ByteSum, HwHash;
    if hw == [] {
      NoBytes();
    } else {
      var n := |hw| - 1;
      SeedIsSum(hw[..n]);
      OneMore(hw);
      AddModulo(0x10101 * ByteSum(hw[..n]), 0x10101 * hw[n]);
    }
  }

  lemma {:induction false} NoBytes()
    ensures HwHash([]) == ByteSum([]) == 0
  {
  }

  lemma {:induction false} OneMore(hw: seq<nat>)
    requires hw != []
    ensures HwHash(hw) == (HwHash(hw[..|hw| - 1]) + 0x10101 * hw[|hw| - 1]) % 0x1_0000_0000
    ensures ByteSum(hw) == ByteSum(hw[..|hw| - 1]) + hw[|hw| - 1]
  {
  }

  lemma {:induction false} AddModulo(a: nat, b: nat)
    ensures (a % 0x1_0000_0000 + b) % 0x1_0000_0000 == (a + b) % 0x1_0000_0000
  {
  }

  method HashAddress(hw: seq<nat>) returns (j: nat)
    ensures j == HwHash(hw) == 0x10101 * ByteSum(hw) % 0x1_0000_0000
  {
    SeedIsSum(hw);
    j := 0;
    for i := 0 to |hw|
      invariant j == HwHash(hw[..i])
    {
      assert hw[..i + 1][..i] == hw[..i];
      j := (j + hw[i] + hw[i] * 0x100 + hw[i] * 0x10000) % WORD;
    }
    assert hw[..|hw|] == hw;
  }

  /** The two passes over the ranges: the address, and the pass and range it came from. */
  method SearchRanges(cs: seq<Context>, hw: seq<nat>, netids: seq<string>, leases: set<nat>, configs: seq<Config>)
    returns (r: Option<nat>, pass: nat, i: nat)
    requires Ranges(cs)
    ensures r.Some? ==>
              && pass <= 1 && i < |cs| && Eligible(cs[i], netids, pass)
              && FirstFree(cs, leases, configs, cs[i], (HwHash(hw) + cs[i].addrEpoch) % WORD, r)
              && PassedOver(cs, leases, configs, netids, pass, i)
    ensures r == None ==> PassedOver(cs, leases, configs, netids, 1, |cs|)
  {
    hide Matches, FirstFree, HasFree;
    var j := HashAddress(hw);
    pass, i := 0, 0;
    while pass <= 1
      invariant pass <= 2
      invariant PassedOver(cs, leases, configs, netids, if pass == 0 then 0 else pass - 1, if pass == 0 then 0 else |cs|)
      invariant pass == 2 ==> PassedOver(cs, leases, configs, netids, 1, |cs|)
    {
      i := 0;
      while i < |cs|
        invariant i <= |cs| && PassedOver(cs, leases, configs, netids, pass, i)
      {
        var matched := MatchNetid(cs[i].filter, netids, pass == 1);
        if !cs[i].isStatic && matched {
          r := WalkRange(cs, leases, configs, cs[i], j);
          if r.Some? {
            return;
          }
          NoneIsNone(cs, leases, configs, cs[i], (j + cs[i].addrEpoch) % WORD);
        }
        i := i + 1;
      }
      pass := pass + 1;
    }
    r := None;
  }

  lemma {:induction false} NoneIsNone(cs: seq<Context>, leases: set<nat>, configs: seq<Config>, c: Context, seed: nat)
    requires c.start <= c.end && FirstFree(cs, leases, configs, c, seed, None)
    ensures !HasFree(cs, leases, configs, c)
  {
    hide Admissible;
  }

  lemma {:induction false} EligibleBoth(c: Context, netids: seq<string>)
    requires Eligible(c, netids, 0)
    ensures Eligible(c, netids, 1)
  {
  }

  /** What a result means: there is an address exactly when some eligible range holds an admissible one,
      and then it is an admissible one of an eligible range, of one whose tags match if such a range holds
      any. */
  lemma {:induction false} AllocationMeaning(cs: seq<Context>, hw: seq<nat>, netids: seq<string>, leases: set<nat>, configs: seq<Config>,
                                             r: Option<nat>, pass: nat, i: nat)
    requires Ranges(cs)
    requires r.Some? ==>
               && pass <= 1 && i < |cs| && Eligible(cs[i], netids, pass)
               && FirstFree(cs, leases, configs, cs[i], (HwHash(hw) + cs[i].addrEpoch) % WORD, r)
               && PassedOver(cs, leases, configs, netids, pass, i)
    requires r == None ==> PassedOver(cs, leases, configs, netids, 1, |cs|)
    ensures r.Some? <==> exists k :: 0 <= k < |cs| && Eligible(cs[k], netids, 1) && HasFree(cs, leases, configs, cs[k])
    ensures r.Some? ==> Admissible(cs, leases, configs, r.value) && cs[i].start <= r.value <= cs[i].end && Eligible(cs[i], netids, 1)
    ensures r.Some? && (exists k :: 0 <= k < |cs| && Eligible(cs[k], netids, 0) && HasFree(cs, leases, configs, cs[k])) ==> Eligible(cs[i], netids, 0)
  {
    hide Admissible, Matches, Visit;
    if r.Some? {
      if pass == 0 { EligibleBoth(cs[i], netids); }
      assert HasFree(cs, leases, configs, cs[i]);
    }
  }

  /** address_allocate */
  method AddressAllocate(cs: seq<Context>, hw: seq<nat>, netids: seq<string>, leases: set<nat>, configs: seq<Config>) returns (r: Option<nat>)
    requires Ranges(cs)
    ensures r.Some? <==> exists k :: 0 <= k < |cs| && Eligible(cs[k], netids, 1) && HasFree(cs, leases, configs, cs[k])
    ensures r.Some? ==> exists i :: 0 <= i < |cs| && ServedFrom(cs, hw, netids, leases, configs, i, r.value)
  {
    hide Admissible, Matches, Visit, FirstFree, HasFree, PassedOver;
    var pass, i;
    r, pass, i := SearchRanges(cs, hw, netids, leases, configs);
    AllocationMeaning(cs, hw, netids, leases, configs, r, pass, i);
    if r.Some? { assert ServedFrom(cs, hw, netids, leases, configs, i, r.value); }
  }

  /** Range i serves the request: it is eligible, by its tags if any range with matching tags could serve,
      and the address is the first admissible one on its seeded walk. */
  ghost predicate ServedFrom(cs: seq<Context>, hw: seq<nat>, netids: seq<string>, leases: set<nat>, configs: seq<Config>, i: nat, addr: nat)
    requires i < |cs| && Ranges(cs)
  {
    && Eligible(cs[i], netids, 1)
    && ((exists k :: 0 <= k < |cs| && Eligible(cs[k], netids, 0) && HasFree(cs, leases, configs, cs[k])) ==> Eligible(cs[i], netids, 0))
    && FirstFree(cs, leases, configs, cs[i], (HwHash(hw) + cs[i].addrEpoch) % WORD, Some(addr))
  }
}
