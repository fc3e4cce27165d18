/** When the syndromes come from few enough errors and erasures, the register length never exceeds
    their number and the final locator vanishes at exactly their positions. */
module ErrorLocator {
  import opened Bits
  import opened GaloisField
  import opened FieldSums
  import opened BerlekampMassey

  /** Syndrome m is the power sum of the error values c(p) at the location logs a(p). */
  ghost predicate Explains(f: GF, s: seq<nat>, n: int, c: int -> nat, a: int -> int) {
    forall m | 0 <= m < |s| :: s[m] == PowerSum(f, n, c, a, m)
  }

  // ----- A convolution with power sums is a power sum with the locator's values as weights.

  /** Error values weighted by the locator at the inverse locations. */
  ghost function Weighted(f: GF, len: int, lam: int -> nat, c: int -> nat, a: int -> int): int -> nat {
    p => Mul(f, c(p), Ev(f, len, lam, -a(p)))
  }

  ghost function Grid(f: GF, lam: int -> nat, c: int -> nat, a: int -> int, m: int): (int, int) -> nat {
    (i, p) => Mul(f, lam(i), Mul(f, c(p), E(f, Times(a(p), m - i))))
  }

  lemma {:induction false} ConvRow(f: GF, n: int, lam: int -> nat, s: int -> nat, c: int -> nat, a: int -> int, m: int, i: int)
    requires 0 <= i <= m && s(m - i) == PowerSum(f, n, c, a, m - i)
    ensures ConvTerm(f, lam, s, m)(i) == Row(n, Grid(f, lam, c, a, m))(i)
  {
    hide Mul, E, Times, Xor;
    var t := PowerTerm(f, c, a, m - i);
    var g := Grid(f, lam, c, a, m);
    var h := p => g(i, p);
    SumScale(f, n, lam(i), t, h);
  }

  lemma {:induction false} GridEntry(f: GF, l: nat, c: nat, x: int, m: int, i: int)
    ensures Mul(f, l, Mul(f, c, E(f, Times(x, m - i)))) == Mul(f, Mul(f, c, E(f, Times(x, m))), Mul(f, l, E(f, Times(-x, i))))
  {
    hide Mul, E;
    var u, v := E(f, Times(x, m)), E(f, Times(-x, i));
    assert Times(x, m - i) == Times(x, m) + Times(-x, i) by { TimesDifference(x, m, i); }
    hide Times;
    MulE(f, Times(x, m), Times(-x, i));
    MulAssoc(f, c, u, v);
    MulSwap(f, l, Mul(f, c, u), v);
  }

  lemma {:induction false} TimesDifference(x: int, m: int, i: int)
    ensures Times(x, m - i) == Times(x, m) + Times(-x, i)
  {
    hide Times;
    TimesIs(x, m - i);
    TimesIs(x, m);
    TimesIs(-x, i);
  }

  lemma {:induction false} GridColumnSum(f: GF, len: int, lam: int -> nat, c: int -> nat, a: int -> int, m: int, p: int)
    requires len >= 0
    ensures Col(len, Grid(f, lam, c, a, m))(p)
         == Mul(f, Mul(f, c(p), E(f, Times(a(p), m))), Ev(f, len, lam, -a(p)))
  {
    hide Mul, E, Times, Xor;
    var u := Mul(f, c(p), E(f, Times(a(p), m)));
    var t, g := EvTerm(f, lam, -a(p)), Grid(f, lam, c, a, m);
    var h := i => g(i, p);
    forall i | 0 <= i < len ensures h(i) == Mul(f, u, t(i)) { GridEntry(f, lam(i), c(p), a(p), m, i); }
    SumScale(f, len, u, t, h);
  }

  lemma {:induction false} GridColumn(f: GF, len: int, lam: int -> nat, c: int -> nat, a: int -> int, m: int, p: int)
    requires len >= 0
    ensures Col(len, Grid(f, lam, c, a, m))(p) == PowerTerm(f, Weighted(f, len, lam, c, a), a, m)(p)
  {
    hide Mul, E, Times, Xor, Ev, Col, Grid;
    GridColumnSum(f, len, lam, c, a, m, p);
    WeightTerm(f, c(p), E(f, Times(a(p), m)), Ev(f, len, lam, -a(p)));
  }

  lemma {:induction false} WeightTerm(f: GF, c: nat, e: nat, w: nat)
    ensures Mul(f, Mul(f, c, e), w) == Mul(f, Mul(f, c, w), e)
  {
    hide Mul;
    MulAssoc(f, c, e, w);
    MulComm(f, e, w);
    MulAssoc(f, c, w, e);
  }

  lemma {:induction false} ConvTruncate(f: GF, len: int, lam: int -> nat, s: int -> nat, m: int)
    requires 0 <= len <= m + 1 && forall i | len <= i <= m :: lam(i) == 0
    ensures Conv(f, lam, s, m) == Sum(len, ConvTerm(f, lam, s, m))
  {
    hide Mul, Xor;
    var t := ConvTerm(f, lam, s, m);
    forall i | len <= i < m + 1 ensures t(i) == 0 { MulZero(f, s(m - i)); }
    SumExtend(len, m + 1, t);
  }

  lemma {:induction false} ConvIsPowerSum(f: GF, n: int, len: int, lam: int -> nat, s: seq<nat>, c: int -> nat, a: int -> int, m: int)
    requires Explains(f, s, n, c, a)
    requires 0 <= len <= m + 1 <= |s| && forall i | len <= i <= m :: lam(i) == 0
    ensures Conv(f, lam, Fn(s), m) == PowerSum(f, n, Weighted(f, len, lam, c, a), a, m)
  {
    hide Mul, E, Times, Xor, Sum;
    var g := Grid(f, lam, c, a, m);
    ConvTruncate(f, len, lam, Fn(s), m);
    forall i | 0 <= i < len ensures ConvTerm(f, lam, Fn(s), m)(i) == Row(n, g)(i) {
      ConvRow(f, n, lam, Fn(s), c, a, m, i);
    }
    SumCong(len, ConvTerm(f, lam, Fn(s), m), Row(n, g));
    SumSwap(len, n, g);
    var w := PowerTerm(f, Weighted(f, len, lam, c, a), a, m);
    forall p | 0 <= p < n ensures Col(len, g)(p) == w(p) { GridColumn(f, len, lam, c, a, m, p); }
    SumCong(n, Col(len, g), w);
  }

  // ----- Roots of the erasure locator stay roots.

  ghost predicate BothVanish(f: GF, st: State, k: int) {
    && |st.lam| == |st.b|
    && Ev(f, |st.lam|, Fn(st.lam), k) == 0
    && Ev(f, |st.lam|, Fn(st.b), k) == 0
  }

  lemma {:induction false} ShiftVanishes(f: GF, b: seq<nat>, k: int)
    requires |b| >= 1 && b[|b| - 1] == 0 && Ev(f, |b|, Fn(b), k) == 0
    ensures Ev(f, |b|, ShiftFn(Fn(b)), k) == 0
    ensures Ev(f, |b|, Fn(Shift(b)), k) == 0
  {
    hide Mul, E, Xor, Ev;
    EvExtend(f, |b| - 1, |b|, Fn(b), k);
    EvShift(f, |b| - 1, Fn(b), k);
    MulZero(f, E(f, k));
    EvCong(f, |b|, Fn(Shift(b)), ShiftFn(Fn(b)), k);
  }

  lemma {:induction false} CombineVanishes(f: GF, lam: seq<nat>, d: nat, b: seq<nat>, k: int)
    requires |lam| == |b| >= 1 && b[|b| - 1] == 0
    requires Ev(f, |b|, Fn(b), k) == 0 && Ev(f, |b|, Fn(lam), k) == 0
    ensures Ev(f, |b|, Fn(AddShifted(f, lam, d, b)), k) == 0
  {
    hide Mul, E, Xor, Ev;
    ShiftVanishes(f, b, k);
    var q := Combine(f, Fn(lam), d, ShiftFn(Fn(b)));
    EvCombine(f, Fn(lam), d, ShiftFn(Fn(b)), |b|, k);
    EvCong(f, |b|, Fn(AddShifted(f, lam, d, b)), q, k);
    MulZero(f, d);
    XorZero(0);
  }

  lemma {:induction false} ScaleVanishes(f: GF, c: nat, p: seq<nat>, k: int)
    requires Ev(f, |p|, Fn(p), k) == 0
    ensures Ev(f, |p|, Fn(Scale(f, c, p)), k) == 0
  {
    hide Mul, E, Xor, Ev;
    var q := Combine(f, ZeroFn(), c, Fn(p));
    EvCombine(f, ZeroFn(), c, Fn(p), |p|, k);
    EvZero(f, |p|, k);
    forall i | 0 <= i < |p| ensures Fn(Scale(f, c, p))(i) == q(i) { XorZero(Mul(f, c, At(p, i))); }
    EvCong(f, |p|, Fn(Scale(f, c, p)), q, k);
    MulZero(f, c);
    XorZero(0);
  }

  lemma {:induction false} StepKeepsRoots(f: GF, s: seq<nat>, rho: int, st: State, r: int, k: int)
    requires BothVanish(f, st, k) && |st.b| >= 1 && st.b[|st.b| - 1] == 0
    ensures BothVanish(f, BmStep(f, s, rho, st, r), k)
  {
    hide Mul, E, Xor, Ev, Discrepancy, Inv;
    var d := Discrepancy(f, st.lam, s, r);
    DiscrepancyBound(f, st.lam, s, r);
    ShiftVanishes(f, st.b, k);
    CombineVanishes(f, st.lam, d, st.b, k);
    if d != 0 { ScaleVanishes(f, Inv(f, d), st.lam, k); }
  }

  lemma {:induction false} RunKeepsRoots(f: GF, s: seq<nat>, rho: int, gamma: seq<nat>, r: int, k: int)
    requires Starting(f, s, rho, gamma) && rho <= r <= |s| && Ev(f, |gamma|, Fn(gamma), k) == 0
    ensures BothVanish(f, BmRun(f, s, rho, gamma, r), k)
    decreases r - rho
  {
    hide BmStep, Ev, Starting;
    if r > rho {
      RunKeepsRoots(f, s, rho, gamma, r - 1, k);
      ShiftLosesNothing(f, s, rho, gamma, r - 1);
      StepKeepsRoots(f, s, rho, BmRun(f, s, rho, gamma, r - 1), r - 1, k);
    }
  }

  // ----- The register is never longer than the number of errors and erasures.

  ghost predicate AllDistinct(f: GF, n: int, a: int -> int) {
    forall p, q | 0 <= p < n && 0 <= q < n && p != q :: E(f, a(p)) != E(f, a(q))
  }

  lemma {:induction false} DistinctSubset(f: GF, n: int, a: int -> int, s: set<int>)
    requires AllDistinct(f, n, a) && forall p | p in s :: 0 <= p < n
    ensures DistinctOn(f, s, a)
  {
    hide E;
  }

  /** Errors at errs (outside the erasures), erasures at eras; all locations distinct. The erasure
      locator vanishes at the inverse of every erased location. */
  ghost predicate Pattern(f: GF, s: seq<nat>, n: int, c: int -> nat, a: int -> int,
                          errs: set<int>, eras: set<int>, gamma: seq<nat>) {
    && Explains(f, s, n, c, a)
    && (forall p | 0 <= p < n :: c(p) < f.Size())
    && (forall p | 0 <= p < n && c(p) != 0 :: p in errs || p in eras)
    && (forall p | p in errs :: 0 <= p < n && c(p) != 0)
    && (forall p | p in eras :: 0 <= p < n && Ev(f, |gamma|, Fn(gamma), -a(p)) == 0)
    && errs !! eras
    && AllDistinct(f, n, a)
  }

  lemma {:induction false} WeightedSupport(f: GF, s: seq<nat>, n: int, c: int -> nat, a: int -> int,
                          errs: set<int>, eras: set<int>, gamma: seq<nat>, len: int, lam: int -> nat)
    requires Pattern(f, s, n, c, a, errs, eras, gamma)
    requires forall p | p in eras :: Ev(f, len, lam, -a(p)) == 0
    ensures SupportedOn(f, n, Weighted(f, len, lam, c, a), errs) && DistinctOn(f, errs, a)
  {
    hide Mul, E, Ev, Explains, AllDistinct, DistinctOn;
    DistinctSubset(f, n, a, errs);
    forall p | 0 <= p < n
      ensures Weighted(f, len, lam, c, a)(p) < f.Size()
      ensures p !in errs ==> Weighted(f, len, lam, c, a)(p) == 0
    {
      MulIn(f, c(p), Ev(f, len, lam, -a(p)));
      MulZero(f, c(p));
      MulZero(f, Ev(f, len, lam, -a(p)));
    }
  }

  /** Predicting as many consecutive syndromes as there are errors forces the locator to vanish at
      every error. */
  lemma {:induction false} WeightsVanish(f: GF, s: seq<nat>, n: int, c: int -> nat, a: int -> int,
                        errs: set<int>, eras: set<int>, gamma: seq<nat>, len: int, lam: int -> nat, r: int)
    requires Pattern(f, s, n, c, a, errs, eras, gamma)
    requires forall p | p in eras :: Ev(f, len, lam, -a(p)) == 0
    requires 1 <= len <= r + 1 && r <= |s| && forall i | len <= i <= |s| :: lam(i) == 0
    requires Vanishes(f, lam, Fn(s), len - 1, r) && r - (len - 1) >= |errs|
    ensures forall p | 0 <= p < n :: Weighted(f, len, lam, c, a)(p) == 0
  {
    hide Mul, E, Ev, Weighted, PowerSum, Conv, DistinctOn, SupportedOn, AllDistinct;
    WeightedSupport(f, s, n, c, a, errs, eras, gamma, len, lam);
    forall i | len - 1 <= i < len - 1 + |errs| ensures PowerSum(f, n, Weighted(f, len, lam, c, a), a, i) == 0 {
      ConvIsPowerSum(f, n, len, lam, s, c, a, i);
      assert Conv(f, lam, Fn(s), i) == 0;
    }
    SparseVandermonde(f, n, Weighted(f, len, lam, c, a), a, errs, len - 1);
  }

  lemma {:induction false} ZeroWeights(f: GF, n: int, w: int -> nat, a: int -> int, m: int)
    requires forall p | 0 <= p < n :: w(p) == 0
    ensures PowerSum(f, n, w, a, m) == 0
  {
    hide Mul, E, Times;
    forall p | 0 <= p < n ensures PowerTerm(f, w, a, m)(p) == 0 { MulZero(f, E(f, Times(a(p), m))); }
    SumZero(n, PowerTerm(f, w, a, m));
  }

  lemma {:induction false} LocatorAtErasures(f: GF, s: seq<nat>, n: int, c: int -> nat, a: int -> int,
                            errs: set<int>, eras: set<int>, gamma: seq<nat>, rho: int, r: int)
    requires Pattern(f, s, n, c, a, errs, eras, gamma)
    requires Starting(f, s, rho, gamma) && rho <= r <= |s|
    ensures var st := BmRun(f, s, rho, gamma, r);
            |st.lam| == |s| + 1 && st.el + 1 >= 0
            && forall p | p in eras :: Ev(f, st.el + 1, Fn(st.lam), -a(p)) == 0
  {
    hide Mul, E, Ev, BmRun, AllDistinct, Explains;
    var st := BmRun(f, s, rho, gamma, r);
    BmRunInv(f, s, rho, gamma, r);
    forall p | p in eras ensures Ev(f, st.el + 1, Fn(st.lam), -a(p)) == 0 {
      RunKeepsRoots(f, s, rho, gamma, r, -a(p));
      EvExtend(f, st.el + 1, |st.lam|, Fn(st.lam), -a(p));
    }
  }

  /** If the register already spans the errors, the next discrepancy is zero. */
  lemma {:induction false} SpannedDiscrepancy(f: GF, s: seq<nat>, n: int, c: int -> nat, a: int -> int,
                             errs: set<int>, eras: set<int>, gamma: seq<nat>, rho: int, r: int)
    requires Pattern(f, s, n, c, a, errs, eras, gamma)
    requires Starting(f, s, rho, gamma) && rho <= r < |s|
    requires r - BmRun(f, s, rho, gamma, r).el >= |errs|
    ensures Discrepancy(f, BmRun(f, s, rho, gamma, r).lam, s, r) == 0
  {
    hide Mul, E, Ev, BmRun, AllDistinct, Conv, PowerSum, Weighted;
    var st := BmRun(f, s, rho, gamma, r);
    BmRunInv(f, s, rho, gamma, r);
    LocatorAtErasures(f, s, n, c, a, errs, eras, gamma, rho, r);
    WeightsVanish(f, s, n, c, a, errs, eras, gamma, st.el + 1, Fn(st.lam), r);
    ConvIsPowerSum(f, n, st.el + 1, Fn(st.lam), s, c, a, r);
    ZeroWeights(f, n, Weighted(f, st.el + 1, Fn(st.lam), c, a), a, r);
  }

  lemma {:induction false} LengthBound(f: GF, s: seq<nat>, n: int, c: int -> nat, a: int -> int,
                      errs: set<int>, eras: set<int>, gamma: seq<nat>, rho: int, r: int)
    requires Pattern(f, s, n, c, a, errs, eras, gamma)
    requires Starting(f, s, rho, gamma) && rho <= r <= |s|
    ensures BmRun(f, s, rho, gamma, r).el <= rho + |errs|
    decreases r - rho
  {
    hide Pattern, Starting, Discrepancy, BmStep;
    if r > rho {
      LengthBound(f, s, n, c, a, errs, eras, gamma, rho, r - 1);
      var st := BmRun(f, s, rho, gamma, r - 1);
      StepLength(f, s, rho, st, r - 1);
      if r - 1 - st.el >= |errs| {
        SpannedDiscrepancy(f, s, n, c, a, errs, eras, gamma, rho, r - 1);
      }
    }
  }

  lemma {:induction false} StepLength(f: GF, s: seq<nat>, rho: int, st: State, r: int)
    ensures var el := BmStep(f, s, rho, st, r).el;
            el == st.el || (el == r + 1 + rho - st.el && Discrepancy(f, st.lam, s, r) != 0)
  {
    hide Discrepancy, AddShifted, Shift, Scale, Inv;
  }

  lemma {:induction false} FactorZero(f: GF, x: nat, y: nat)
    requires 0 < x < f.Size() && y < f.Size() && Mul(f, x, y) == 0
    ensures y == 0
  {
    hide Mul;
    MulComm(f, x, y);
    ProductZero(f, y, x);
  }

  /** Within half the distance, the final locator vanishes at every error and every erasure. */
  lemma {:induction false} LocatorAtErrata(f: GF, s: seq<nat>, n: int, c: int -> nat, a: int -> int,
                          errs: set<int>, eras: set<int>, gamma: seq<nat>, rho: int)
    requires Pattern(f, s, n, c, a, errs, eras, gamma)
    requires Starting(f, s, rho, gamma) && 2 * |errs| + rho <= |s|
    ensures var st := BmRun(f, s, rho, gamma, |s|);
            |st.lam| == |s| + 1 && st.el + 1 >= 0
            && forall p | p in errs || p in eras :: Ev(f, st.el + 1, Fn(st.lam), -a(p)) == 0
  {
    hide Mul, E, Ev, BmRun, AllDistinct, Conv, PowerSum;
    var st := BmRun(f, s, rho, gamma, |s|);
    BmRunInv(f, s, rho, gamma, |s|);
    LengthBound(f, s, n, c, a, errs, eras, gamma, rho, |s|);
    LocatorAtErasures(f, s, n, c, a, errs, eras, gamma, rho, |s|);
    WeightsVanish(f, s, n, c, a, errs, eras, gamma, st.el + 1, Fn(st.lam), |s|);
    forall p | p in errs ensures Ev(f, st.el + 1, Fn(st.lam), -a(p)) == 0 {
      assert Weighted(f, st.el + 1, Fn(st.lam), c, a)(p) == 0;
      EvBound(f, st.el + 1, Fn(st.lam), -a(p));
      FactorZero(f, c(p), Ev(f, st.el + 1, Fn(st.lam), -a(p)));
    }
  }

  // ----- A locator with as many roots as its length has no others.

  ghost predicate RootAmong(f: GF, k: int, a: int -> int, u: set<int>) {
    exists p :: p in u && E(f, k) == E(f, -a(p))
  }

  /** lam has degree exactly v and its roots are exactly the inverse locations in u. */
  ghost predicate Locates(f: GF, lam: int -> nat, v: int, a: int -> int, u: set<int>) {
    && v == |u|
    && PolyIn(f, v + 1, lam)
    && lam(0) == 1 && lam(v) != 0
    && (forall p | p in u :: Ev(f, v + 1, lam, -a(p)) == 0)
    && (forall k :: Ev(f, v + 1, lam, k) == 0 ==> RootAmong(f, k, a, u))
  }

  lemma {:induction false} ExactDegree(f: GF, lam: int -> nat, el: int, a: int -> int, u: set<int>)
    requires 0 <= el <= |u| && PolyIn(f, el + 1, lam) && lam(0) == 1
    requires DistinctOn(f, u, a) && forall p | p in u :: Ev(f, el + 1, lam, -a(p)) == 0
    ensures el == |u| && lam(el) != 0
  {
    hide Ev, E, Mul, DistinctOn;
    RootCount(f, el + 1, lam, a, u);
    if lam(el) == 0 {
      forall p | p in u ensures Ev(f, el, lam, -a(p)) == 0 { EvExtend(f, el, el + 1, lam, -a(p)); }
      RootCount(f, el, lam, a, u);
    }
  }

  lemma {:induction false} NoOtherRoot(f: GF, lam: int -> nat, v: int, a: int -> int, u: set<int>, k: int)
    requires v == |u| && PolyIn(f, v + 1, lam) && lam(0) == 1
    requires DistinctOn(f, u, a) && forall p | p in u :: 0 <= p && Ev(f, v + 1, lam, -a(p)) == 0
    requires Ev(f, v + 1, lam, k) == 0
    ensures RootAmong(f, k, a, u)
  {
    hide Ev, E, Mul, DistinctOn;
    if forall p | p in u :: E(f, k) != E(f, -a(p)) {
      ExtraRoot(f, lam, v, a, u, k);
    }
  }

  lemma {:induction false} NegatedDistinct(f: GF, x: int, y: int)
    requires E(f, -x) != E(f, -y)
    ensures E(f, x) != E(f, y)
  {
    EDistinct(f, x, y);
    EDistinct(f, -x, -y);
    hide E;
    NNPositive(f);
    SameResidue(x, y, f.NN());
    assert -x - -y == y - x;
    NegatedMultiple(x - y, f.NN());
  }

  lemma {:induction false} NegatedMultiple(d: int, n: int)
    requires n > 0
    ensures d % n == 0 ==> -d % n == 0
  {
    if d % n == 0 { DivModUnique(-d, n, -(d / n), 0); }
  }

  lemma {:induction false} ExtraRoot(f: GF, lam: int -> nat, v: int, a: int -> int, u: set<int>, k: int)
    requires v == |u| && PolyIn(f, v + 1, lam) && lam(0) == 1
    requires DistinctOn(f, u, a) && forall p | p in u :: 0 <= p && Ev(f, v + 1, lam, -a(p)) == 0
    requires forall p | p in u :: E(f, k) != E(f, -a(p))
    ensures Ev(f, v + 1, lam, k) != 0
  {
    hide Ev, E, Mul;
    var a' := j => if j == -1 then -k else a(j);
    var u' := u + {-1};
    assert |u'| == v + 1;
    forall p | p in u ensures E(f, -k) != E(f, a(p)) {
      assert -(-k) == k;
      NegatedDistinct(f, -k, a(p));
    }
    if Ev(f, v + 1, lam, k) == 0 {
      assert forall p | p in u' :: Ev(f, v + 1, lam, -a'(p)) == 0;
      RootCount(f, v + 1, lam, a', u');
    }
  }

  /** The final locator of a correctable word: degree the number of errata, roots exactly theirs. */
  lemma {:induction false} LocatorFound(f: GF, s: seq<nat>, n: int, c: int -> nat, a: int -> int,
                       errs: set<int>, eras: set<int>, gamma: seq<nat>, rho: int, u: set<int>)
    requires Pattern(f, s, n, c, a, errs, eras, gamma) && Starting(f, s, rho, gamma)
    requires |eras| == rho && 2 * |errs| + rho <= |s|
    requires |u| == |errs| + rho && forall p :: p in u <==> p in errs || p in eras
    ensures var st := BmRun(f, s, rho, gamma, |s|);
            |st.lam| == |s| + 1 && st.el == |u| && DegreeAtMost(st.lam, st.el)
            && Locates(f, Fn(st.lam), |u|, a, u)
  {
    hide Mul, E, Ev, BmRun, AllDistinct, Vanishes, Explains, DistinctOn, Pattern, Locates;
    var st := BmRun(f, s, rho, gamma, |s|);
    BmRunInv(f, s, rho, gamma, |s|);
    LengthBound(f, s, n, c, a, errs, eras, gamma, rho, |s|);
    LocatorAtErrata(f, s, n, c, a, errs, eras, gamma, rho);
    ErrataDistinct(f, s, n, c, a, errs, eras, gamma, u);
    OnlyTheseRoots(f, Fn(st.lam), st.el, a, u);
  }

  lemma {:induction false} ErrataDistinct(f: GF, s: seq<nat>, n: int, c: int -> nat, a: int -> int,
                         errs: set<int>, eras: set<int>, gamma: seq<nat>, u: set<int>)
    requires Pattern(f, s, n, c, a, errs, eras, gamma)
    requires forall p :: p in u <==> p in errs || p in eras
    ensures DistinctOn(f, u, a) && forall p | p in u :: 0 <= p < n
  {
    hide E, AllDistinct, DistinctOn, Explains;
    DistinctSubset(f, n, a, u);
  }

  lemma {:induction false} OnlyTheseRoots(f: GF, lam: int -> nat, el: int, a: int -> int, u: set<int>)
    requires 0 <= el <= |u| && PolyIn(f, el + 1, lam) && lam(0) == 1
    requires DistinctOn(f, u, a) && forall p | p in u :: 0 <= p && Ev(f, el + 1, lam, -a(p)) == 0
    ensures el == |u| && Locates(f, lam, |u|, a, u)
  {
    hide E, Ev, DistinctOn, RootAmong;
    ExactDegree(f, lam, el, a, u);
    var v := |u|;
    forall k | Ev(f, v + 1, lam, k) == 0 ensures RootAmong(f, k, a, u) {
      NoOtherRoot(f, lam, v, a, u, k);
    }
  }
}
