/** The codec control block and its construction: field tables, the inverse of prim, and the
    generator polynomial in index form. */
module RsCodec {
  import opened Bits
  import opened Sets
  import opened GaloisField
  import opened FieldSums
  import opened BerlekampMassey
  import opened CodeTheory

  // ----- Reduction modulo nn by folding the high bits back in.

  lemma {:induction false} FoldResidue(x: int, nn: int, n: int)
    requires nn >= 1 && n == nn + 1 && x >= nn
    ensures var y := x - nn;
            0 <= y / n + y % n < x && (y / n + y % n) % nn == x % nn
  {
    var y := x - nn;
    var q := y / n;
    QuotientNonneg(y, n);
    assert y == n * q + y % n;
    assert n * q == nn * q + q;
    assert q + y % n == x + nn * (-1 - q) by {
      assert nn * (-1 - q) == -nn - nn * q;
    }
    ModShift(x, nn, -1 - q);
    assert nn * q >= 0;
  }

  lemma {:induction false} QuotientNonneg(y: int, n: int)
    requires y >= 0 && n > 0
    ensures y / n >= 0 && y % n >= 0
  {
  }

  method ModNN(mm: nat, nn: nat, x0: int) returns (x: int)
    requires nn >= 1 && nn == Pow2(mm) - 1
    ensures x0 >= 0 ==> x == x0 % nn
    ensures x0 < 0 ==> x == x0
  {
    hide Pow2;
    x := x0;
    while x >= nn
      invariant x0 < 0 ==> x == x0
      invariant x0 >= 0 ==> x >= 0 && x % nn == x0 % nn
      decreases x
    {
      FoldResidue(x, nn, Pow2(mm));
      x := x - nn;
      x := x / Pow2(mm) + x % Pow2(mm);
    }
    if x0 >= 0 { SmallMod(x, nn); }
  }

  // ----- Field tables.

  ghost function ToIndex(f: GF, x: nat): nat
    requires x < f.Size()
  {
    if x == 0 then f.NN() else Log(f, x)
  }

  ghost predicate Tables(f: GF, nn: nat, alphaTo: array<nat>, indexOf: array<nat>)
    reads alphaTo, indexOf
  {
    && nn == f.NN() && alphaTo.Length == nn + 1 && indexOf.Length == nn + 1
    && (forall i | 0 <= i < nn :: alphaTo[i] == E(f, i))
    && alphaTo[nn] == 0
    && (forall x | 0 <= x <= nn :: indexOf[x] == ToIndex(f, x))
  }

  lemma {:induction false} EModNN(f: GF, x: int)
    ensures f.NN() >= 1 && 0 <= x % f.NN() < f.NN() && E(f, x % f.NN()) == E(f, x)
  {
    EIs(f, x);
    EIs(f, x % f.NN());
    SmallMod(x % f.NN(), f.NN());
  }

  /** The table read alphaTo[modnn(x)]: alpha to the power x. */
  method AlphaOf(mm: nat, nn: nat, alphaTo: array<nat>, indexOf: array<nat>, x: int, ghost f: GF) returns (y: nat)
    requires mm == f.mm && Tables(f, nn, alphaTo, indexOf) && x >= 0
    ensures y == E(f, x) && 0 < y < f.Size()
  {
    hide E, Pow2, ToIndex;
    EModNN(f, x);
    EIn(f, x);
    var i := ModNN(mm, nn, x);
    y := alphaTo[i];
  }

  lemma {:induction false} LogSum(f: GF, x: nat, k: int)
    requires 0 < x < f.Size()
    ensures E(f, Log(f, x) + k) == Mul(f, x, E(f, k)) && E(f, Log(f, x)) == x
  {
    hide E, Mul;
    LogE(f, x);
    MulE(f, Log(f, x), k);
  }

  /** The table-filling loop after n clocks: every register state seen so far has an index. */
  ghost predicate Filled(f: Field, n: nat, a: seq<nat>, x: seq<nat>) {
    && f.mm >= 1 && |a| == f.Size() == |x| && n <= f.NN()
    && (forall j | 0 <= j < n :: a[j] == Iter(f, j, 1) && a[j] < f.Size())
    && (forall j | 0 <= j < n :: x[a[j]] < n && a[x[a[j]]] == a[j])
    && ((forall j | 0 <= j < n :: a[j] != 0) ==> x[0] == f.NN())
    && a[f.NN()] == 0
  }

  lemma {:induction false} FillStep(f: Field, n: nat, a: seq<nat>, x: seq<nat>, sr: nat)
    requires Filled(f, n, a, x) && n < f.NN() && sr == Iter(f, n, 1) && sr < f.Size()
    ensures Filled(f, n + 1, a[n := sr], x[sr := n])
  {
    hide Iter, Pow2;
    var a', x' := a[n := sr], x[sr := n];
    forall j | 0 <= j < n + 1
      ensures a'[j] == Iter(f, j, 1) && a'[j] < f.Size()
      ensures x'[a'[j]] < n + 1 && a'[x'[a'[j]]] == a'[j]
    {
    }
    if forall j | 0 <= j < n + 1 :: a'[j] != 0 {
      assert a'[n] == sr;
      forall j | 0 <= j < n ensures a[j] != 0 { assert a'[j] == a[j]; }
    }
  }

  /** sr <<= 1; fold the overflow bit; mask. */
  method Clock(symsize: nat, gfpoly: nat, sr0: nat) returns (sr: nat)
    ensures sr == Step(Field(symsize, gfpoly), sr0)
  {
    hide Pow2, Xor;
    sr := 2 * sr0;
    if sr / Pow2(symsize) % 2 == 1 {
      sr := Xor(sr, gfpoly);
    }
    sr := sr % Pow2(symsize);
  }

  method BuildTables(symsize: nat, gfpoly: nat, alphaTo: array<nat>, indexOf: array<nat>) returns (sr: nat)
    requires symsize >= 1 && alphaTo != indexOf
    requires alphaTo.Length == Pow2(symsize) == indexOf.Length
    modifies alphaTo, indexOf
    ensures sr == Iter(Field(symsize, gfpoly), Pow2(symsize) - 1, 1)
    ensures Filled(Field(symsize, gfpoly), Pow2(symsize) - 1, alphaTo[..], indexOf[..])
  {
    hide Pow2, Xor, Iter, Step;
    ghost var f := Field(symsize, gfpoly);
    var nn := Pow2(symsize) - 1;
    HalfSize(f);
    indexOf[0] := nn;
    alphaTo[nn] := 0;
    sr := 1;
    IterStart(f);
    assert Filled(f, 0, alphaTo[..], indexOf[..]);
    hide Filled;
    for i := 0 to nn
      invariant sr == Iter(f, i, 1) && sr < f.Size()
      invariant Filled(f, i, alphaTo[..], indexOf[..])
    {
      IterNext(f, i, 1);
      StepForm(f, sr);
      FillStep(f, i, alphaTo[..], indexOf[..], sr);
      ghost var a, x := alphaTo[..], indexOf[..];
      indexOf[sr] := i;
      alphaTo[i] := sr;
      assert alphaTo[..] == a[i := sr] && indexOf[..] == x[sr := i];
      sr := Clock(symsize, gfpoly, sr);
    }
  }

  lemma {:induction false} IterStart(f: Field)
    ensures Iter(f, 0, 1) == 1
  {
  }

  lemma {:induction false} IterNext(f: Field, k: nat, x: nat)
    ensures Iter(f, k + 1, x) == Step(f, Iter(f, k, x))
  {
  }

  /** For a primitive register the filled tables are the exponential and the logarithm. */
  lemma {:induction false} FilledIsTables(f: GF, nn: nat, alphaTo: array<nat>, indexOf: array<nat>)
    requires nn == f.NN() && alphaTo.Length == f.Size() == indexOf.Length
    requires Filled(f, nn, alphaTo[..], indexOf[..])
    ensures Tables(f, nn, alphaTo, indexOf)
  {
    hide Iter, Pow2, E;
    assert forall i | 0 <= i <= nn :: alphaTo[i] == alphaTo[..][i] && indexOf[i] == indexOf[..][i];
    forall i | 0 <= i < nn ensures alphaTo[i] == E(f, i) && alphaTo[i] != 0 {
      EIter(f, i);
      EIn(f, i);
    }
    forall x | 0 < x <= nn ensures indexOf[x] == Log(f, x) {
      var i := Log(f, x);
      LogE(f, x);
      assert alphaTo[i] == x;
      ELog(f, indexOf[x]);
      SmallMod(indexOf[x], nn);
    }
  }

  lemma {:induction false} EIter(f: GF, i: int)
    requires 0 <= i < f.NN()
    ensures E(f, i) == Iter(f, i, 1)
  {
    EIs(f, i);
    SmallMod(i, f.NN());
  }

  // ----- What the test sr == 1 establishes.

  /** The register is back at 1 after nn clocks. */
  ghost predicate Returns(f: Field) { f.mm >= 1 && Iter(f, f.NN(), 1) == 1 }

  /** The test accepts x^4 + x^3 + x^2 + x + 1, whose register already returns after 5 clocks. */
  lemma {:induction false} TestAcceptsImprimitive(f: Field)
    requires f == Field(4, 0x1f)
    ensures Returns(f) && Iter(f, 5, 1) == 1 && 0 < 5 < f.NN() && !Primitive(f)
  {
    hide Iter, Pow2;
    SizeOf4();
    CycleOf5(f);
    IterAdd(f, 5, 5, 1);
    IterAdd(f, 5, 10, 1);
  }

  lemma {:induction false} SizeOf4()
    ensures Pow2(4) == 16
  {
    assert Pow2(1) == 2 && Pow2(2) == 4 && Pow2(3) == 8;
  }

  lemma {:induction false} CycleOf5(f: Field)
    requires f == Field(4, 0x1f)
    ensures Iter(f, 5, 1) == 1
  {
    hide Step;
    StepShifts(f, 1);
    StepShifts(f, 2);
    StepShifts(f, 4);
    StepFolds(f, 8);
    StepFolds(f, 15);
    XorOfTop();
    assert Iter(f, 1, 1) == Step(f, Iter(f, 0, 1));
    assert Iter(f, 3, 1) == Step(f, Iter(f, 2, 1));
  }

  lemma {:induction false} StepShifts(f: Field, x: nat)
    requires f == Field(4, 0x1f) && x < 8
    ensures Step(f, x) == 2 * x
  {
    SizeOf4();
  }

  lemma {:induction false} StepFolds(f: Field, x: nat)
    requires f == Field(4, 0x1f) && 8 <= x < 16
    ensures Step(f, x) == Xor(2 * x, 0x1f) % 16
  {
    hide Xor;
    SizeOf4();
  }

  lemma {:induction false} XorOfTop()
    ensures Xor(16, 0x1f) == 15 && Xor(30, 0x1f) == 1
  {
    assert Xor(1, 1) == 0 && Xor(2, 3) == 1 && Xor(4, 7) == 3 && Xor(8, 15) == 7;
    assert Xor(3, 3) == 0 && Xor(7, 7) == 0 && Xor(15, 15) == 0;
  }

  /** A register that passes the test is primitive exactly when it visits every nonzero state. */
  lemma {:induction false} PrimitiveIffAllVisited(f: Field)
    requires Returns(f)
    ensures Primitive(f) <==> forall a | 0 < a < f.Size() :: PowerBelow(f, f.NN(), a)
  {
    hide Iter, PowerBelow;
    if Primitive(f) {
      forall a | 0 < a < f.Size() ensures PowerBelow(f, f.NN(), a) { EveryElementIsPower(f, a); }
    } else {
      var i :| 0 < i < f.NN() && Iter(f, i, 1) == 1;
      if forall a | 0 < a < f.Size() :: PowerBelow(f, f.NN(), a) {
        ShortCycle(f, i);
      }
    }
  }

  /** What the test leaves out: no proper divisor of nn is a period of the register. */
  ghost predicate NoShortPeriod(f: Field) { forall e: nat | ProperDivisor(f.NN(), e) :: Iter(f, e, 1) != 1 }

  ghost predicate ProperDivisor(n: nat, e: nat) { 0 < e < n && n % e == 0 }

  /** A register that passes the test is primitive exactly when no proper divisor of nn is a period of it. */
  lemma {:induction false} PrimitiveIffNoShortPeriod(f: Field)
    requires Returns(f)
    ensures Primitive(f) <==> NoShortPeriod(f)
  {
    hide Iter;
    if !Primitive(f) {
      var i :| 0 < i < f.NN() && Iter(f, i, 1) == 1;
      var p := LeastPeriod(f, i);
      IterMod(f, p, f.NN());
      assert ProperDivisor(f.NN(), p);
    }
  }

  lemma {:induction false} LeastPeriod(f: Field, i: nat) returns (p: nat)
    requires i > 0 && Iter(f, i, 1) == 1
    ensures 0 < p <= i && Iter(f, p, 1) == 1 && forall j | 0 < j < p :: Iter(f, j, 1) != 1
  {
    hide Iter;
    p := i;
    if j :| 0 < j < i && Iter(f, j, 1) == 1 { p := LeastPeriod(f, j); }
  }

  /** A period can be taken out of the number of clocks as often as it fits. */
  lemma {:induction false} IterMod(f: Field, p: nat, j: nat)
    requires p > 0 && Iter(f, p, 1) == 1
    ensures Iter(f, j, 1) == Iter(f, j % p, 1)
    decreases j
  {
    hide Iter;
    if j >= p {
      IterAdd(f, j - p, p, 1);
      IterMod(f, p, j - p);
      ModLess(j, p);
    }
  }

  lemma {:induction false} ModLess(j: nat, p: nat)
    requires 0 < p <= j
    ensures (j - p) % p == j % p
  {
    DivModUnique(j, p, (j - p) / p + 1, (j - p) % p);
  }

  lemma {:induction false} CycleReduces(f: Field, i: nat, j: nat)
    requires i > 0 && Iter(f, i, 1) == 1
    ensures PowerBelow(f, i, Iter(f, j, 1))
    decreases j
  {
    hide Iter;
    if j >= i {
      IterAdd(f, j - i, i, 1);
      CycleReduces(f, i, j - i);
    }
  }

  /** A cycle of length i visits at most i states. */
  lemma {:induction false} ShortCycle(f: Field, i: nat)
    requires f.mm >= 1 && 0 < i < f.NN() && Iter(f, i, 1) == 1
    ensures !forall a | 0 < a < f.Size() :: PowerBelow(f, f.NN(), a)
  {
    hide Iter, PowerBelow;
    if forall a | 0 < a < f.Size() :: PowerBelow(f, f.NN(), a) {
      var b := Interval(1, f.NN() + 1);
      var s := Visited(f, i);
      forall a | a in b ensures a in s {
        assert PowerBelow(f, f.NN(), a);
        VisitedEarly(f, i, a);
      }
      SubsetSmaller(b, s);
    }
  }

  lemma {:induction false} VisitedEarly(f: Field, i: nat, a: nat)
    requires i > 0 && Iter(f, i, 1) == 1 && PowerBelow(f, f.NN(), a)
    ensures PowerBelow(f, i, a)
  {
    var j :| 0 <= j < f.NN() && a == Iter(f, j, 1);
    hide Iter;
    CycleReduces(f, i, j);
  }

  lemma {:induction false} Visited(f: Field, n: nat) returns (s: set<nat>)
    ensures |s| <= n && forall a :: PowerBelow(f, n, a) ==> a in s
  {
    hide Iter;
    s := {};
    if n > 0 {
      s := Visited(f, n - 1);
      forall a | PowerBelow(f, n, a) ensures a in s + {Iter(f, n - 1, 1)} {
        var j :| 0 <= j < n && a == Iter(f, j, 1);
        if j < n - 1 { assert PowerBelow(f, n - 1, a); }
      }
      s := s + {Iter(f, n - 1, 1)};
    }
  }

  // ----- The search for the inverse of prim.

  ghost predicate Coprime(a: nat, b: nat) {
    forall d | d > 1 :: !(a % d == 0 && b % d == 0)
  }

  /** The search stops: some 1 + q * nn with q < prim is a multiple of prim. */
  ghost predicate SearchStops(nn: nat, prim: nat) {
    prim >= 1 && exists q :: StopsAt(nn, prim, q)
  }

  ghost predicate StopsAt(nn: nat, prim: nat, q: int)
    requires prim >= 1
  {
    0 <= q < prim && (1 + q * nn) % prim == 0
  }

  lemma {:induction false} CommonDivisor(a: nat, b: nat, d: nat)
    requires b > 0 && d > 1 && b % d == 0 && a % b % d == 0
    ensures a % d == 0
  {
    ExactQuotient(b, d);
    ExactQuotient(a % b, d);
    var x, y, q := b / d, a % b / d, a / b;
    assert a == b * q + a % b;
    assert b * q == d * (x * q) by { assert d * x * q == d * (x * q); }
    assert a == d * (x * q + y);
    DivModUnique(a, d, x * q + y, 0);
  }

  lemma {:induction false} Bezout(a: nat, b: nat) returns (u: int, v: int)
    requires a > 0 && Coprime(a, b)
    ensures u * a + v * b == 1
    decreases b
  {
    if b == 0 {
      if a > 1 { SelfDivides(a); }
      u, v := 1, 0;
    } else {
      forall d | d > 1 ensures !(b % d == 0 && a % b % d == 0) {
        if b % d == 0 && a % b % d == 0 { CommonDivisor(a, b, d); }
      }
      var u', v' := Bezout(b, a % b);
      u, v := v', u' - v' * (a / b);
      EuclidStep(a, b, u', v');
    }
  }

  lemma {:induction false} SelfDivides(a: nat)
    requires a > 0
    ensures a % a == 0 && 0 % a == 0
  {
    DivModUnique(a, a, 1, 0);
    SmallMod(0, a);
  }

  lemma {:induction false} EuclidStep(a: nat, b: nat, u: int, v: int)
    requires b > 0 && u * b + v * (a % b) == 1
    ensures v * a + (u - v * (a / b)) * b == 1
  {
    var q := a / b;
    assert a % b == a - b * q;
    calc {
      v * a + (u - v * q) * b;
      v * a + u * b - v * q * b;
      { assert v * q * b == v * (b * q); }
      v * a + u * b - v * (b * q);
      u * b + v * (a - b * q);
    }
  }

  /** Exactly when gcd(prim, nn) = 1 does the search for iprim terminate. */
  lemma {:induction false} SearchStopsIffCoprime(nn: nat, prim: nat)
    requires nn >= 1 && prim >= 1
    ensures SearchStops(nn, prim) <==> Coprime(prim, nn)
  {
    if Coprime(prim, nn) {
      var u, v := Bezout(prim, nn);
      StopIndex(nn, prim, u, v);
    }
    if SearchStops(nn, prim) {
      var q :| StopsAt(nn, prim, q);
      forall d | d > 1 ensures !(prim % d == 0 && nn % d == 0) {
        if prim % d == 0 && nn % d == 0 { StopExcludesDivisor(nn, prim, q, d); }
      }
    }
  }

  lemma {:induction false} StopIndex(nn: nat, prim: nat, u: int, v: int)
    requires nn >= 1 && prim >= 1 && u * prim + v * nn == 1
    ensures StopsAt(nn, prim, -v % prim)
  {
    var q := -v % prim;
    var t := -v / prim;
    assert -v == prim * t + q;
    assert q * nn == -v * nn - prim * t * nn;
    assert prim * t * nn == prim * (t * nn);
    assert 1 + q * nn == prim * (u - t * nn) + 0;
    DivModUnique(1 + q * nn, prim, u - t * nn, 0);
  }

  lemma {:induction false} StopExcludesDivisor(nn: nat, prim: nat, q: int, d: nat)
    requires prim >= 1 && StopsAt(nn, prim, q) && d > 1
    ensures prim % d != 0 || nn % d != 0
  {
    if prim % d == 0 && nn % d == 0 {
      ExactQuotient(1 + q * nn, prim);
      ExactQuotient(prim, d);
      ExactQuotient(nn, d);
      var m, x, y := (1 + q * nn) / prim, prim / d, nn / d;
      assert prim * m == d * (x * m) by { assert d * x * m == d * (x * m); }
      assert q * nn == d * (q * y) by { assert q * (d * y) == d * (q * y); }
      assert 1 == d * (x * m - q * y);
      NonzeroMultiple(d, x * m - q * y);
    }
  }

  method FindIprim(prim: nat, nn: nat) returns (iprim: nat)
    requires nn >= 1 && prim >= 1 && Coprime(prim, nn)
    ensures PrimInverse(nn, prim, iprim) && 1 <= iprim <= nn
  {
    SearchStopsIffCoprime(nn, prim);
    ghost var stop :| StopsAt(nn, prim, stop);
    ghost var q := 0;
    iprim := 1;
    while iprim % prim != 0
      invariant 0 <= q <= stop && iprim == 1 + q * nn
      decreases stop - q
    {
      NextCandidate(nn, q);
      iprim := iprim + nn;
      q := q + 1;
    }
    InverseFound(nn, prim, iprim, q);
    iprim := iprim / prim;
  }

  lemma {:induction false} NextCandidate(nn: nat, q: int)
    ensures 1 + (q + 1) * nn == 1 + q * nn + nn
  {
  }

  lemma {:induction false} InverseFound(nn: nat, prim: nat, raw: int, q: int)
    requires nn >= 1 && prim >= 1 && 0 <= q < prim && raw == 1 + q * nn && raw % prim == 0
    ensures PrimInverse(nn, prim, raw / prim) && 1 <= raw / prim <= nn
  {
    ExactQuotient(raw, prim);
    DivModUnique(q * nn, nn, q, 0);
    CandidateBound(nn, prim, q);
    InverseRange(nn, prim, raw / prim);
  }

  lemma {:induction false} CandidateBound(nn: nat, prim: nat, q: int)
    requires nn >= 1 && 0 <= q < prim
    ensures 1 <= 1 + q * nn <= prim * nn
  {
    assert (prim - 1 - q) * nn >= 0;
    assert prim * nn == (prim - 1 - q) * nn + q * nn + nn;
  }

  lemma {:induction false} InverseRange(nn: nat, prim: nat, i: int)
    requires prim >= 1 && 1 <= prim * i <= prim * nn
    ensures 1 <= i <= nn
  {
    if i > nn { MulMono(prim, nn, i); }
    if i < 1 { MulMono(prim, i, 1); }
  }

  lemma {:induction false} MulMono(p: int, x: int, y: int)
    requires p >= 1 && x < y
    ensures p * x + p <= p * y
  {
    assert p * (y - x - 1) >= 0;
  }

  // ----- The generator polynomial, multiplied together in place.

  ghost predicate HoldsGen(f: GF, prim: int, fcr: int, i: nat, genPoly: array<nat>)
    reads genPoly
  {
    i < genPoly.Length && forall j | 0 <= j <= i :: genPoly[j] == GenCoef(f, prim, fcr, i, j)
  }

  lemma {:induction false} GenNext(f: GF, prim: int, fcr: int, i: nat, j: int)
    ensures GenCoef(f, prim, fcr, i + 1, j)
         == Xor(GenCoef(f, prim, fcr, i, j - 1), Mul(f, GenCoef(f, prim, fcr, i, j), E(f, Root(prim, fcr, i))))
    ensures GenCoef(f, prim, fcr, i, j) < f.Size()
    ensures j <= 0 ==> GenCoef(f, prim, fcr, i, j - 1) == 0
    ensures j == i ==> GenCoef(f, prim, fcr, i + 1, j + 1) == 1
  {
    hide Mul, E, Xor, Root;
    GenShape(f, prim, fcr, i, j);
    GenShape(f, prim, fcr, i, j - 1);
    GenShape(f, prim, fcr, i + 1, j + 1);
  }

  method MultiplyRoot(mm: nat, nn: nat, alphaTo: array<nat>, indexOf: array<nat>, genPoly: array<nat>,
                      i: nat, root: int, ghost f: GF, ghost prim: int, ghost fcr: int)
    requires mm == f.mm && Tables(f, nn, alphaTo, indexOf)
    requires genPoly != alphaTo && genPoly != indexOf
    requires i + 1 < genPoly.Length && HoldsGen(f, prim, fcr, i, genPoly)
    requires root == Root(prim, fcr, i) && root >= 0 && GenCoef(f, prim, fcr, i, 0) != 0
    modifies genPoly
    ensures HoldsGen(f, prim, fcr, i + 1, genPoly)
  {
    hide E, Mul, Xor, GenCoef, Root, Pow2;
    genPoly[i + 1] := 1;
    GenNext(f, prim, fcr, i, i);
    var j := i;
    while j > 0
      invariant 0 <= j <= i
      invariant forall t | 0 <= t <= j :: genPoly[t] == GenCoef(f, prim, fcr, i, t)
      invariant forall t | j < t <= i + 1 :: genPoly[t] == GenCoef(f, prim, fcr, i + 1, t)
    {
      GenNext(f, prim, fcr, i, j);
      if genPoly[j] != 0 {
        LogSum(f, genPoly[j], root);
        var a := AlphaOf(mm, nn, alphaTo, indexOf, indexOf[genPoly[j]] + root, f);
        genPoly[j] := Xor(genPoly[j - 1], a);
      } else {
        MulZero(f, E(f, root));
        XorZero(genPoly[j - 1]);
        genPoly[j] := genPoly[j - 1];
      }
      j := j - 1;
    }
    GenNext(f, prim, fcr, i, 0);
    LogSum(f, genPoly[0], root);
    var a := AlphaOf(mm, nn, alphaTo, indexOf, indexOf[genPoly[0]] + root, f);
    XorZero(a);
    genPoly[0] := a;
  }

  /** The index form of the generator: no entry is the reserved index of zero. */
  ghost predicate IndexGen(f: GF, prim: int, fcr: int, nroots: nat, genPoly: array<nat>)
    reads genPoly
  {
    && genPoly.Length == nroots + 1
    && forall j | 0 <= j <= nroots ::
         genPoly[j] < f.NN() && E(f, genPoly[j]) == GenCoef(f, prim, fcr, nroots, j)
  }

  lemma {:induction false} RootNext(prim: int, fcr: int, i: int)
    ensures Root(prim, fcr, i + 1) == Root(prim, fcr, i) + prim
    ensures Root(prim, fcr, 0) == fcr * prim
  {
    hide Times;
    TimesIs(prim, fcr + i + 1);
    TimesIs(prim, fcr + i);
    TimesIs(prim, fcr);
    assert prim * (fcr + i + 1) == prim * (fcr + i) + prim;
  }

  method BuildGenerator(mm: nat, nn: nat, alphaTo: array<nat>, indexOf: array<nat>, genPoly: array<nat>,
                        fcr: nat, prim: nat, nroots: nat, ghost f: GF, ghost iprim: int)
    requires mm == f.mm && Tables(f, nn, alphaTo, indexOf)
    requires genPoly != alphaTo && genPoly != indexOf
    requires PrimInverse(nn, prim, iprim) && nroots < nn && genPoly.Length == nroots + 1
    modifies genPoly
    ensures IndexGen(f, prim, fcr, nroots, genPoly)
  {
    hide E, Mul, Xor, GenCoef, Root, Pow2, PrimInverse, HoldsGen, Tables;
    genPoly[0] := 1;
    GenShape(f, prim, fcr, 0, 0);
    HoldsGenDef(f, prim, fcr, 0, genPoly);
    TablesNN(f, nn, alphaTo, indexOf);
    var root := fcr * prim;
    RootNext(prim, fcr, 0);
    for i := 0 to nroots
      invariant root == Root(prim, fcr, i) && root >= 0
      invariant HoldsGen(f, prim, fcr, i, genPoly)
    {
      GenNonzero(f, prim, iprim, fcr, i, 0);
      MultiplyRoot(mm, nn, alphaTo, indexOf, genPoly, i, root, f, prim, fcr);
      RootNext(prim, fcr, i);
      root := root + prim;
    }
    GeneratorToIndex(nn, alphaTo, indexOf, genPoly, fcr, prim, nroots, f, iprim);
  }

  /** Converts the generator to index form in place. */
  method GeneratorToIndex(nn: nat, alphaTo: array<nat>, indexOf: array<nat>, genPoly: array<nat>,
                          ghost fcr: nat, ghost prim: nat, nroots: nat, ghost f: GF, ghost iprim: int)
    requires Tables(f, nn, alphaTo, indexOf) && genPoly != alphaTo && genPoly != indexOf
    requires PrimInverse(nn, prim, iprim) && nroots < nn && genPoly.Length == nroots + 1
    requires HoldsGen(f, prim, fcr, nroots, genPoly)
    modifies genPoly
    ensures IndexGen(f, prim, fcr, nroots, genPoly)
  {
    hide E, GenCoef, Pow2, PrimInverse;
    for i := 0 to nroots + 1
      invariant forall j | i <= j <= nroots :: genPoly[j] == GenCoef(f, prim, fcr, nroots, j)
      invariant forall j | 0 <= j < i ::
                  genPoly[j] < f.NN() && E(f, genPoly[j]) == GenCoef(f, prim, fcr, nroots, j)
    {
      GenNonzero(f, prim, iprim, fcr, nroots, i);
      GenShape(f, prim, fcr, nroots, i);
      LogE(f, genPoly[i]);
      genPoly[i] := indexOf[genPoly[i]];
    }
  }

  lemma {:induction false} TablesNN(f: GF, nn: nat, alphaTo: array<nat>, indexOf: array<nat>)
    requires Tables(f, nn, alphaTo, indexOf)
    ensures nn == f.NN()
  {
  }

  lemma {:induction false} HoldsGenDef(f: GF, prim: int, fcr: int, i: nat, genPoly: array<nat>)
    ensures HoldsGen(f, prim, fcr, i, genPoly)
       <==> i < genPoly.Length && forall j | 0 <= j <= i :: genPoly[j] == GenCoef(f, prim, fcr, i, j)
  {
  }

  // ----- The control block.

  class Codec {
    const mm: nat
    const nn: nat
    const alphaTo: array<nat>
    const indexOf: array<nat>
    const genPoly: array<nat>
    const nroots: nat
    const fcr: nat
    const prim: nat
    const iprim: nat
    const pad: nat
    ghost const gf: Field

    constructor (mm: nat, nn: nat, alphaTo: array<nat>, indexOf: array<nat>, genPoly: array<nat>,
                 nroots: nat, fcr: nat, prim: nat, iprim: nat, pad: nat, ghost gf: Field)
      ensures this.mm == mm && this.nn == nn && this.alphaTo == alphaTo && this.indexOf == indexOf
      ensures this.genPoly == genPoly && this.nroots == nroots && this.fcr == fcr && this.prim == prim
      ensures this.iprim == iprim && this.pad == pad && this.gf == gf
    {
      this.mm, this.nn, this.alphaTo, this.indexOf, this.genPoly := mm, nn, alphaTo, indexOf, genPoly;
      this.nroots, this.fcr, this.prim, this.iprim, this.pad := nroots, fcr, prim, iprim, pad;
      this.gf := gf;
    }

    ghost predicate Valid()
      reads alphaTo, indexOf, genPoly
    {
      && Primitive(gf) && gf.mm == mm
      && Tables(gf, nn, alphaTo, indexOf)
      && PrimInverse(nn, prim, iprim) && 1 <= prim && 1 <= iprim <= nn
      && nroots + pad < nn
      && IndexGen(gf, prim, fcr, nroots, genPoly)
    }
  }

  /** The parameter ranges init accepts, for data symbols of at most maxBits bits. */
  predicate ParamsInRange(maxBits: nat, symsize: int, fcr: int, prim: int, nroots: int, pad: int) {
    && 0 <= symsize <= maxBits
    && 0 <= fcr < Pow2(symsize)
    && 0 < prim < Pow2(symsize)
    && 0 <= nroots < Pow2(symsize)
    && 0 <= pad < Pow2(symsize) - 1 - nroots
  }

  lemma {:induction false} SymsizePositive(maxBits: nat, symsize: int, fcr: int, prim: int, nroots: int, pad: int)
    requires ParamsInRange(maxBits, symsize, fcr, prim, nroots, pad)
    ensures symsize >= 1
  {
  }

  /** Null for parameters out of range and for registers that have not returned after nn clocks.
      The source leaves two hypotheses to its caller: a register that has returned has no shorter period
      that divides nn, and prim is coprime to nn. */
  method Init(maxBits: nat, symsize: int, gfpoly: nat, fcr: int, prim: int, nroots: int, pad: int)
      returns (rs: Codec?)
    requires ParamsInRange(maxBits, symsize, fcr, prim, nroots, pad) && Returns(Field(symsize, gfpoly)) ==>
               Coprime(prim, Pow2(symsize) - 1) && NoShortPeriod(Field(symsize, gfpoly))
    ensures rs != null <==>
              && ParamsInRange(maxBits, symsize, fcr, prim, nroots, pad)
              && Returns(Field(symsize, gfpoly))
    ensures rs != null ==> rs.Valid() && fresh(rs) && fresh(rs.alphaTo) && fresh(rs.indexOf) && fresh(rs.genPoly)
    ensures rs != null ==>
              && rs.gf == Field(symsize, gfpoly)
              && rs.fcr == fcr && rs.prim == prim && rs.nroots == nroots && rs.pad == pad
  {
    hide Iter, E, PrimInverse, Coprime, GenCoef, NoShortPeriod;
    rs := null;
    if !ParamsInRange(maxBits, symsize, fcr, prim, nroots, pad) {
      return;
    }
    SymsizePositive(maxBits, symsize, fcr, prim, nroots, pad);
    hide Pow2;
    var nn := Pow2(symsize) - 1;
    var alphaTo := new nat[nn + 1];
    var indexOf := new nat[nn + 1];
    var sr := BuildTables(symsize, gfpoly, alphaTo, indexOf);
    ghost var f := Field(symsize, gfpoly);
    if sr != 1 {
      return;
    }
    PrimitiveIffNoShortPeriod(f);
    FilledIsTables(f, nn, alphaTo, indexOf);
    var genPoly := new nat[nroots + 1];
    var iprim := FindIprim(prim, nn);
    BuildGenerator(symsize, nn, alphaTo, indexOf, genPoly, fcr, prim, nroots, f, iprim);
    rs := new Codec(symsize, nn, alphaTo, indexOf, genPoly, nroots, fcr, prim, iprim, pad, f);
  }
}
