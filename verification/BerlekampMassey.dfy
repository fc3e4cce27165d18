/** The Berlekamp-Massey iteration with erasures, on sequences of coefficients. */
module BerlekampMassey {
  import opened Bits
  import opened GaloisField
  import opened FieldSums

  /** Coefficient i of a polynomial kept as a sequence. */
  ghost function At(p: seq<nat>, i: int): nat {
    if 0 <= i < |p| then p[i] else 0
  }

  ghost function Fn(p: seq<nat>): int -> nat { i => At(p, i) }

  ghost function ShiftFn(b: int -> nat): int -> nat { i => b(i - 1) }

  // ----- Convolutions: what a locator predicts for syndrome n.

  ghost function ConvTerm(f: GF, lam: int -> nat, s: int -> nat, n: int): int -> nat {
    i => Mul(f, lam(i), s(n - i))
  }

  ghost function Conv(f: GF, lam: int -> nat, s: int -> nat, n: int): nat {
    Sum(n + 1, ConvTerm(f, lam, s, n))
  }

  ghost predicate Vanishes(f: GF, lam: int -> nat, s: int -> nat, lo: int, hi: int) {
    forall n | lo <= n < hi :: Conv(f, lam, s, n) == 0
  }

  lemma {:induction false} ConvShift(f: GF, b: int -> nat, s: int -> nat, n: int)
    requires n >= 0 && b(-1) == 0
    ensures Conv(f, ShiftFn(b), s, n) == Conv(f, b, s, n - 1)
  {
    hide Mul, Xor;
    var g, h := ConvTerm(f, ShiftFn(b), s, n), ConvTerm(f, b, s, n - 1);
    forall i | 0 <= i < n ensures h(i) == g(i + 1) {
      assert n - 1 - i == n - (i + 1);
    }
    SumFirst(n, g, h);
    MulZero(f, s(n));
    XorZero(Sum(n, h));
  }

  /** lam + d * b, coefficient by coefficient. */
  ghost function Combine(f: GF, lam: int -> nat, d: nat, b: int -> nat): int -> nat {
    i => Xor(lam(i), Mul(f, d, b(i)))
  }

  lemma {:induction false} ConvCombine(f: GF, lam: int -> nat, d: nat, b: int -> nat, s: int -> nat, n: int)
    ensures Conv(f, Combine(f, lam, d, b), s, n) == Xor(Conv(f, lam, s, n), Mul(f, d, Conv(f, b, s, n)))
  {
    hide Mul, Xor;
    var t, g, h := ConvTerm(f, Combine(f, lam, d, b), s, n), ConvTerm(f, lam, s, n), ConvTerm(f, b, s, n);
    var k := i => Mul(f, d, h(i));
    forall i | 0 <= i < n + 1 ensures t(i) == Xor(g(i), k(i)) {
      MulXor(f, s(n - i), lam(i), Mul(f, d, b(i)));
      MulAssoc(f, d, b(i), s(n - i));
    }
    SumXor(n + 1, g, k, t);
    SumScale(f, n + 1, d, h, k);
  }

  lemma {:induction false} EvCombine(f: GF, lam: int -> nat, d: nat, b: int -> nat, n: int, k: int)
    ensures Ev(f, n, Combine(f, lam, d, b), k) == Xor(Ev(f, n, lam, k), Mul(f, d, Ev(f, n, b, k)))
  {
    hide Mul, Xor, E, Times;
    var t, g, h := EvTerm(f, Combine(f, lam, d, b), k), EvTerm(f, lam, k), EvTerm(f, b, k);
    var m := i => Mul(f, d, h(i));
    forall i | 0 <= i < n ensures t(i) == Xor(g(i), m(i)) {
      var e := E(f, Times(k, i));
      MulXor(f, e, lam(i), Mul(f, d, b(i)));
      MulAssoc(f, d, b(i), e);
    }
    SumXor(n, g, m, t);
    SumScale(f, n, d, h, m);
  }

  ghost function ZeroFn(): int -> nat { i => 0 }

  lemma {:induction false} EvZero(f: GF, n: int, k: int)
    ensures Ev(f, n, ZeroFn(), k) == 0
  {
    hide Mul, Xor, E, Times;
    forall i | 0 <= i < n ensures EvTerm(f, ZeroFn(), k)(i) == 0 { MulZero(f, E(f, Times(k, i))); }
    SumZero(n, EvTerm(f, ZeroFn(), k));
  }

  lemma {:induction false} ConvZero(f: GF, s: int -> nat, n: int)
    ensures Conv(f, ZeroFn(), s, n) == 0
  {
    hide Mul, Xor;
    forall i | 0 <= i < n + 1 ensures ConvTerm(f, ZeroFn(), s, n)(i) == 0 { MulZero(f, s(n - i)); }
    SumZero(n + 1, ConvTerm(f, ZeroFn(), s, n));
  }

  lemma {:induction false} ConvCong(f: GF, p: int -> nat, q: int -> nat, s: int -> nat, n: int)
    requires forall i | 0 <= i <= n :: p(i) == q(i)
    ensures Conv(f, p, s, n) == Conv(f, q, s, n)
  {
    hide Mul, Xor;
    SumCong(n + 1, ConvTerm(f, p, s, n), ConvTerm(f, q, s, n));
  }

  lemma {:induction false} EvCong(f: GF, n: int, p: int -> nat, q: int -> nat, k: int)
    requires forall i | 0 <= i < n :: p(i) == q(i)
    ensures Ev(f, n, p, k) == Ev(f, n, q, k)
  {
    hide Mul, Xor, E, Times;
    SumCong(n, EvTerm(f, p, k), EvTerm(f, q, k));
  }

  /** Multiplying by x multiplies the value by the point. */
  lemma {:induction false} EvShift(f: GF, n: int, b: int -> nat, k: int)
    requires n >= 0 && b(-1) == 0
    ensures Ev(f, n + 1, ShiftFn(b), k) == Mul(f, E(f, k), Ev(f, n, b, k))
  {
    hide Mul, Xor, E, Times;
    var g, h := EvTerm(f, ShiftFn(b), k), EvTerm(f, b, k);
    var m := i => g(i + 1);
    SumFirst(n, g, m);
    MulZero(f, E(f, Times(k, 0)));
    forall i | 0 <= i < n ensures m(i) == Mul(f, E(f, k), h(i)) {
      assert i + 1 - 1 == i;
      TimesNext(k, i);
      MulE(f, k, Times(k, i));
      MulSwap(f, b(i), E(f, k), E(f, Times(k, i)));
    }
    SumScale(f, n, E(f, k), h, m);
    XorZero(Sum(n, m));
  }

  lemma {:induction false} MulSwap(f: GF, a: nat, b: nat, c: nat)
    ensures Mul(f, a, Mul(f, b, c)) == Mul(f, b, Mul(f, a, c))
  {
    hide Mul;
    MulAssoc(f, a, b, c);
    MulAssoc(f, b, a, c);
    MulComm(f, a, b);
  }

  lemma {:induction false} EvExtend(f: GF, m: int, n: int, p: int -> nat, k: int)
    requires 0 <= m <= n && forall i | m <= i < n :: p(i) == 0
    ensures Ev(f, n, p, k) == Ev(f, m, p, k)
  {
    hide Mul, Xor, E, Times;
    forall i | m <= i < n ensures EvTerm(f, p, k)(i) == 0 { MulZero(f, E(f, Times(k, i))); }
    SumExtend(m, n, EvTerm(f, p, k));
  }

  // ----- The iteration.

  /** The locator, the auxiliary polynomial of the last length change, and the register length. */
  datatype State = State(lam: seq<nat>, b: seq<nat>, el: int)

  ghost function Shift(b: seq<nat>): (r: seq<nat>) { seq(|b|, (i: int) => At(b, i - 1)) }

  ghost function Scale(f: GF, c: nat, p: seq<nat>): (r: seq<nat>) { seq(|p|, (i: int) => Mul(f, c, At(p, i))) }

  ghost function AddShifted(f: GF, lam: seq<nat>, d: nat, b: seq<nat>): (r: seq<nat>) {
    seq(|lam|, (i: int) => Xor(At(lam, i), Mul(f, d, At(b, i - 1))))
  }

  ghost function Discrepancy(f: GF, lam: seq<nat>, s: seq<nat>, r: int): nat {
    Conv(f, Fn(lam), Fn(s), r)
  }

  lemma {:induction false} DiscrepancyBound(f: GF, lam: seq<nat>, s: seq<nat>, r: int)
    ensures Discrepancy(f, lam, s, r) < f.Size()
  {
    hide Mul, Xor;
    var t := ConvTerm(f, Fn(lam), Fn(s), r);
    forall i | 0 <= i < r + 1 ensures t(i) < f.Size() { MulIn(f, At(lam, i), At(s, r - i)); }
    SumBound(f, r + 1, t);
  }

  /** One step: it looks at syndrome r (counted from 0) with rho erasures declared. */
  ghost function BmStep(f: GF, s: seq<nat>, rho: int, st: State, r: int): State {
    var d := Discrepancy(f, st.lam, s, r);
    DiscrepancyBound(f, st.lam, s, r);
    if d == 0 then
      State(st.lam, Shift(st.b), st.el)
    else if 2 * st.el <= r + rho then
      State(AddShifted(f, st.lam, d, st.b), Scale(f, Inv(f, d), st.lam), r + 1 + rho - st.el)
    else
      State(AddShifted(f, st.lam, d, st.b), Shift(st.b), st.el)
  }

  /** The state after the steps rho, ..., r - 1, started from the erasure locator. */
  ghost function BmRun(f: GF, s: seq<nat>, rho: int, gamma: seq<nat>, r: int): State
    decreases r - rho
  {
    if r <= rho then State(gamma, gamma, rho)
    else BmStep(f, s, rho, BmRun(f, s, rho, gamma, r - 1), r - 1)
  }

  ghost predicate SeqIn(f: Field, p: seq<nat>) { forall i | 0 <= i < |p| :: p[i] < f.Size() }

  ghost predicate DegreeAtMost(p: seq<nat>, d: int) { forall i | 0 <= i < |p| && i > d :: p[i] == 0 }

  /** What holds after step r: the locator has constant term 1 and degree at most el, it predicts
      every syndrome from el up to r, and the auxiliary polynomial has room to be shifted. */
  ghost predicate BmInv(f: GF, s: seq<nat>, rho: int, st: State, r: int) {
    && |st.lam| == |s| + 1 == |st.b|
    && SeqIn(f, st.lam) && SeqIn(f, st.b)
    && st.lam[0] == 1
    && 0 <= rho <= st.el <= r <= |s|
    && DegreeAtMost(st.lam, st.el)
    && DegreeAtMost(st.b, r - st.el + rho)
    && Vanishes(f, Fn(st.lam), Fn(s), st.el, r)
    && (st.el > rho ==>
          && Vanishes(f, Fn(st.b), Fn(s), r - st.el + rho, r - 1)
          && Conv(f, Fn(st.b), Fn(s), r - 1) == 1)
  }

  /** A starting locator: the erasure locator, of degree at most rho. */
  ghost predicate Starting(f: GF, s: seq<nat>, rho: int, gamma: seq<nat>) {
    && |gamma| == |s| + 1 && SeqIn(f, gamma) && gamma[0] == 1
    && 0 <= rho <= |s| && DegreeAtMost(gamma, rho)
  }

  lemma {:induction false} ShiftConv(f: GF, s: seq<nat>, b: seq<nat>, n: int)
    requires 0 <= n < |b|
    ensures Conv(f, Fn(Shift(b)), Fn(s), n) == Conv(f, Fn(b), Fn(s), n - 1)
  {
    hide Mul, Xor, Conv;
    ConvShift(f, Fn(b), Fn(s), n);
    ConvCong(f, Fn(Shift(b)), ShiftFn(Fn(b)), Fn(s), n);
  }

  lemma {:induction false} AddShiftedConv(f: GF, s: seq<nat>, lam: seq<nat>, d: nat, b: seq<nat>, n: int)
    requires 0 <= n < |lam| == |b|
    ensures Conv(f, Fn(AddShifted(f, lam, d, b)), Fn(s), n)
         == Xor(Conv(f, Fn(lam), Fn(s), n), Mul(f, d, Conv(f, Fn(b), Fn(s), n - 1)))
  {
    hide Mul, Xor, Conv;
    var q := Combine(f, Fn(lam), d, ShiftFn(Fn(b)));
    ConvCombine(f, Fn(lam), d, ShiftFn(Fn(b)), Fn(s), n);
    ConvShift(f, Fn(b), Fn(s), n);
    ConvCong(f, Fn(AddShifted(f, lam, d, b)), q, Fn(s), n);
  }

  lemma {:induction false} ScaleConv(f: GF, s: seq<nat>, c: nat, p: seq<nat>, n: int)
    requires 0 <= n < |p|
    ensures Conv(f, Fn(Scale(f, c, p)), Fn(s), n) == Mul(f, c, Conv(f, Fn(p), Fn(s), n))
  {
    hide Mul, Xor, Conv;
    var q := Combine(f, ZeroFn(), c, Fn(p));
    ConvCombine(f, ZeroFn(), c, Fn(p), Fn(s), n);
    ConvZero(f, Fn(s), n);
    forall i | 0 <= i <= n ensures Fn(Scale(f, c, p))(i) == q(i) { XorZero(Mul(f, c, At(p, i))); }
    ConvCong(f, Fn(Scale(f, c, p)), q, Fn(s), n);
    XorZero(Mul(f, c, Conv(f, Fn(p), Fn(s), n)));
  }

  // ----- Each step keeps the invariant.

  lemma {:induction false} ShiftDegree(b: seq<nat>, d: int)
    requires DegreeAtMost(b, d)
    ensures DegreeAtMost(Shift(b), d + 1)
  {
  }

  lemma {:induction false} AddShiftedShape(f: GF, lam: seq<nat>, d: nat, b: seq<nat>, el: int, db: int)
    requires |lam| == |b| >= 1 && SeqIn(f, lam) && DegreeAtMost(lam, el) && DegreeAtMost(b, db)
    ensures |AddShifted(f, lam, d, b)| == |lam| && SeqIn(f, AddShifted(f, lam, d, b))
    ensures AddShifted(f, lam, d, b)[0] == lam[0]
    ensures DegreeAtMost(AddShifted(f, lam, d, b), if el >= db + 1 then el else db + 1)
  {
    hide Mul, Xor;
    var t := AddShifted(f, lam, d, b);
    forall i | 0 <= i < |t|
      ensures t[i] < f.Size()
      ensures i > el && i > db + 1 ==> t[i] == 0
      ensures i == 0 ==> t[i] == lam[0]
    {
      MulIn(f, d, At(b, i - 1));
      XorBound(At(lam, i), Mul(f, d, At(b, i - 1)), f.mm);
      MulZero(f, d);
      XorZero(At(lam, i));
    }
  }

  lemma {:induction false} ScaleShape(f: GF, c: nat, p: seq<nat>, d: int)
    requires DegreeAtMost(p, d)
    ensures |Scale(f, c, p)| == |p| && SeqIn(f, Scale(f, c, p)) && DegreeAtMost(Scale(f, c, p), d)
  {
    hide Mul;
    forall i | 0 <= i < |p| ensures Scale(f, c, p)[i] < f.Size() && (i > d ==> Scale(f, c, p)[i] == 0) {
      MulIn(f, c, At(p, i));
      MulZero(f, c);
    }
  }

  /** Zero discrepancy: the locator already predicts syndrome r. */
  lemma {:induction false} StepNoChange(f: GF, s: seq<nat>, rho: int, st: State, r: int)
    requires BmInv(f, s, rho, st, r) && r < |s| && Discrepancy(f, st.lam, s, r) == 0
    ensures BmInv(f, s, rho, State(st.lam, Shift(st.b), st.el), r + 1)
  {
    hide Mul, Xor, Conv;
    var b' := Shift(st.b);
    ShiftDegree(st.b, r - st.el + rho);
    forall n | 0 <= n <= r ensures Conv(f, Fn(b'), Fn(s), n) == Conv(f, Fn(st.b), Fn(s), n - 1) {
      ShiftConv(f, s, st.b, n);
    }
  }

  /** The corrected locator predicts every syndrome that both polynomials handle, and syndrome r. */
  lemma {:induction false} CorrectedLocator(f: GF, s: seq<nat>, rho: int, st: State, r: int, d: nat, lo: int)
    requires BmInv(f, s, rho, st, r) && r < |s|
    requires d == Discrepancy(f, st.lam, s, r) && d < f.Size()
    requires lo >= st.el && (st.el == rho ==> lo > r) && (st.el > rho ==> lo >= r + 1 - st.el + rho)
    ensures Vanishes(f, Fn(AddShifted(f, st.lam, d, st.b)), Fn(s), lo, r + 1)
  {
    hide Mul, Xor, Conv;
    var t := AddShifted(f, st.lam, d, st.b);
    forall n | lo <= n < r + 1 ensures Conv(f, Fn(t), Fn(s), n) == 0 {
      AddShiftedConv(f, s, st.lam, d, st.b, n);
      MulZero(f, d);
      MulOne(f, d);
      XorSelf(d);
      XorZero(0);
      assert n < r ==> Conv(f, Fn(st.lam), Fn(s), n) == 0;
      assert n < r ==> Conv(f, Fn(st.b), Fn(s), n - 1) == 0;
    }
  }

  /** Nonzero discrepancy without a length change. */
  lemma {:induction false} StepSameLength(f: GF, s: seq<nat>, rho: int, st: State, r: int, d: nat)
    requires BmInv(f, s, rho, st, r) && r < |s|
    requires d == Discrepancy(f, st.lam, s, r) && d < f.Size() && 2 * st.el > r + rho
    ensures BmInv(f, s, rho, State(AddShifted(f, st.lam, d, st.b), Shift(st.b), st.el), r + 1)
  {
    hide Mul, Xor, Conv, AddShifted;
    AddShiftedShape(f, st.lam, d, st.b, st.el, r - st.el + rho);
    CorrectedLocator(f, s, rho, st, r, d, st.el);
    ShiftDegree(st.b, r - st.el + rho);
    forall n | 0 <= n <= r ensures Conv(f, Fn(Shift(st.b)), Fn(s), n) == Conv(f, Fn(st.b), Fn(s), n - 1) {
      ShiftConv(f, s, st.b, n);
    }
  }

  /** Nonzero discrepancy with a length change: the old locator becomes the auxiliary polynomial. */
  lemma {:induction false} StepLonger(f: GF, s: seq<nat>, rho: int, st: State, r: int, d: nat)
    requires BmInv(f, s, rho, st, r) && r < |s|
    requires d == Discrepancy(f, st.lam, s, r) && 0 < d < f.Size() && 2 * st.el <= r + rho
    ensures BmInv(f, s, rho,
              State(AddShifted(f, st.lam, d, st.b), Scale(f, Inv(f, d), st.lam), r + 1 + rho - st.el), r + 1)
  {
    hide Mul, Xor, Conv, AddShifted, Inv, Scale;
    AddShiftedShape(f, st.lam, d, st.b, st.el, r - st.el + rho);
    CorrectedLocator(f, s, rho, st, r, d, r + 1 + rho - st.el);
    OldLocatorScaled(f, s, rho, st, r, d);
  }

  lemma {:induction false} OldLocatorScaled(f: GF, s: seq<nat>, rho: int, st: State, r: int, d: nat)
    requires BmInv(f, s, rho, st, r) && r < |s|
    requires d == Discrepancy(f, st.lam, s, r) && 0 < d < f.Size()
    ensures |Scale(f, Inv(f, d), st.lam)| == |st.lam| && SeqIn(f, Scale(f, Inv(f, d), st.lam))
    ensures DegreeAtMost(Scale(f, Inv(f, d), st.lam), st.el)
    ensures Vanishes(f, Fn(Scale(f, Inv(f, d), st.lam)), Fn(s), st.el, r)
    ensures Conv(f, Fn(Scale(f, Inv(f, d), st.lam)), Fn(s), r) == 1
  {
    hide Mul, Xor, Conv, Inv, Scale;
    var c := Inv(f, d);
    ScaleShape(f, c, st.lam, st.el);
    forall n | st.el <= n <= r
      ensures Conv(f, Fn(Scale(f, c, st.lam)), Fn(s), n) == Mul(f, c, Conv(f, Fn(st.lam), Fn(s), n))
    {
      ScaleConv(f, s, c, st.lam, n);
    }
    MulZero(f, c);
    LogE(f, d);
    InvCorrect(f, d, Log(f, d));
  }

  lemma {:induction false} BmStepInv(f: GF, s: seq<nat>, rho: int, st: State, r: int)
    requires BmInv(f, s, rho, st, r) && r < |s|
    ensures BmInv(f, s, rho, BmStep(f, s, rho, st, r), r + 1)
  {
    hide BmInv, Inv, AddShifted, Scale, Shift, Discrepancy;
    var d := Discrepancy(f, st.lam, s, r);
    DiscrepancyBound(f, st.lam, s, r);
    if d == 0 {
      StepNoChange(f, s, rho, st, r);
    } else if 2 * st.el <= r + rho {
      StepLonger(f, s, rho, st, r, d);
    } else {
      StepSameLength(f, s, rho, st, r, d);
    }
  }

  /** After every step, for every syndrome sequence and every erasure locator. */
  lemma {:induction false} BmRunInv(f: GF, s: seq<nat>, rho: int, gamma: seq<nat>, r: int)
    requires Starting(f, s, rho, gamma) && rho <= r <= |s|
    ensures BmInv(f, s, rho, BmRun(f, s, rho, gamma, r), r)
    decreases r - rho
  {
    hide BmStep, Mul, Xor, Conv;
    if r > rho {
      hide BmInv;
      BmRunInv(f, s, rho, gamma, r - 1);
      BmStepInv(f, s, rho, BmRun(f, s, rho, gamma, r - 1), r - 1);
    }
  }

  /** While steps remain, the top entry of the auxiliary array is zero, so shifting loses nothing. */
  lemma {:induction false} ShiftLosesNothing(f: GF, s: seq<nat>, rho: int, gamma: seq<nat>, r: int)
    requires Starting(f, s, rho, gamma) && rho <= r < |s|
    ensures |BmRun(f, s, rho, gamma, r).b| == |s| + 1 && BmRun(f, s, rho, gamma, r).b[|s|] == 0
  {
    hide BmRun, Conv;
    BmRunInv(f, s, rho, gamma, r);
  }
}
