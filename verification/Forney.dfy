/** Error values from the evaluator polynomial and the formal derivative of the locator. */
module ErrorValues {
  import opened Bits
  import opened GaloisField
  import opened FieldSums
  import opened BerlekampMassey
  import opened ErrorLocator

  /** Coefficients of s(x) * lam(x) modulo x^v. */
  ghost function Omega(f: GF, lam: int -> nat, s: seq<nat>): int -> nat {
    i => Conv(f, lam, Fn(s), i)
  }

  // ----- The evaluator is the error-weighted sum of the quotients lam / (1 + X x).

  ghost function QuotGrid(f: GF, lam: int -> nat, c: int -> nat, a: int -> int, k: int): (int, int) -> nat {
    (i, p) => Mul(f, c(p), Mul(f, Quot(f, lam, a(p), i), E(f, Times(k, i))))
  }

  lemma {:induction false} OmegaTerm(f: GF, lam: int -> nat, c: nat, x: int, i: int)
    requires i >= 0 && PolyIn(f, i + 1, lam)
    ensures Mul(f, Mul(f, c, Ev(f, i + 1, lam, -x)), E(f, Times(x, i))) == Mul(f, c, Quot(f, lam, x, i))
  {
    hide Mul, E, Times, Ev, Quot, Xor;
    QuotHorner(f, lam, x, i);
    MulAssoc(f, c, Ev(f, i + 1, lam, -x), E(f, Times(x, i)));
    MulComm(f, Ev(f, i + 1, lam, -x), E(f, Times(x, i)));
  }

  lemma {:induction false} OmegaRow(f: GF, n: int, lam: int -> nat, s: seq<nat>, c: int -> nat, a: int -> int, k: int, i: int)
    requires Explains(f, s, n, c, a) && 0 <= i < |s| && PolyIn(f, i + 1, lam)
    ensures EvTerm(f, Omega(f, lam, s), k)(i) == Row(n, QuotGrid(f, lam, c, a, k))(i)
  {
    hide Mul, E, Times, Ev, Quot, Xor, Sum, Conv, Explains;
    ConvIsPowerSum(f, n, i + 1, lam, s, c, a, i);
    var e := E(f, Times(k, i));
    var t := PowerTerm(f, Weighted(f, i + 1, lam, c, a), a, i);
    var g := QuotGrid(f, lam, c, a, k);
    var h := p => g(i, p);
    forall p | 0 <= p < n ensures h(p) == Mul(f, e, t(p)) { OmegaCell(f, lam, c, a, k, i, p); }
    hide PowerTerm, QuotGrid, Weighted;
    SumScale(f, n, e, t, h);
    MulComm(f, Sum(n, t), e);
  }

  lemma {:induction false} OmegaCell(f: GF, lam: int -> nat, c: int -> nat, a: int -> int, k: int, i: int, p: int)
    requires i >= 0 && PolyIn(f, i + 1, lam)
    ensures QuotGrid(f, lam, c, a, k)(i, p) == Mul(f, E(f, Times(k, i)), PowerTerm(f, Weighted(f, i + 1, lam, c, a), a, i)(p))
  {
    hide Mul, E, Times, Ev, Quot, Xor;
    OmegaEntry(f, lam, c(p), a(p), i, E(f, Times(k, i)));
  }

  lemma {:induction false} OmegaEntry(f: GF, lam: int -> nat, c: nat, x: int, i: int, e: nat)
    requires i >= 0 && PolyIn(f, i + 1, lam)
    ensures Mul(f, c, Mul(f, Quot(f, lam, x, i), e))
         == Mul(f, e, Mul(f, Mul(f, c, Ev(f, i + 1, lam, -x)), E(f, Times(x, i))))
  {
    hide Mul, E, Times, Ev, Quot, Xor;
    OmegaTerm(f, lam, c, x, i);
    MulComm(f, Quot(f, lam, x, i), e);
    MulSwap(f, c, e, Quot(f, lam, x, i));
  }

  lemma {:induction false} QuotColumn(f: GF, v: int, lam: int -> nat, c: int -> nat, a: int -> int, k: int, p: int)
    requires v >= 0
    ensures Col(v, QuotGrid(f, lam, c, a, k))(p) == Mul(f, c(p), Ev(f, v, QuotFn(f, lam, a(p)), k))
  {
    hide Mul, E, Times, Quot, Xor;
    var t, g := EvTerm(f, QuotFn(f, lam, a(p)), k), QuotGrid(f, lam, c, a, k);
    SumScale(f, v, c(p), t, i => g(i, p));
  }

  lemma {:induction false} OmegaAtPoint(f: GF, n: int, v: int, lam: int -> nat, s: seq<nat>, c: int -> nat, a: int -> int, k: int)
    requires Explains(f, s, n, c, a) && 0 <= v <= |s| && PolyIn(f, v, lam)
    ensures Ev(f, v, Omega(f, lam, s), k) == Sum(n, Col(v, QuotGrid(f, lam, c, a, k)))
  {
    hide Mul, E, Times, Quot, Xor, Sum, Conv, Explains, Omega, QuotGrid, Row, Col, EvTerm;
    var g := QuotGrid(f, lam, c, a, k);
    forall i | 0 <= i < v ensures EvTerm(f, Omega(f, lam, s), k)(i) == Row(n, g)(i) {
      OmegaRow(f, n, lam, s, c, a, k, i);
    }
    SumCong(v, EvTerm(f, Omega(f, lam, s), k), Row(n, g));
    SumSwap(v, n, g);
  }

  /** At the inverse of location q only the quotient of q survives. */
  lemma {:induction false} OmegaAtLocation(f: GF, n: int, lam: int -> nat, s: seq<nat>, c: int -> nat, a: int -> int,
                          u: set<int>, q: int)
    requires Explains(f, s, n, c, a) && |u| <= |s| && Locates(f, lam, |u|, a, u)
    requires AllDistinct(f, n, a) && 0 <= q < n && q in u
    requires forall p | 0 <= p < n && c(p) != 0 :: p in u
    ensures Ev(f, |u|, Omega(f, lam, s), -a(q)) == Mul(f, c(q), Ev(f, |u|, QuotFn(f, lam, a(q)), -a(q)))
  {
    hide Mul, E, Times, Quot, Xor, Sum, Conv, Explains, Omega, QuotGrid, Col, Ev;
    var g := QuotGrid(f, lam, c, a, -a(q));
    OmegaAtPoint(f, n, |u|, lam, s, c, a, -a(q));
    forall p | 0 <= p < n && p != q ensures Col(|u|, g)(p) == 0 {
      QuotColumn(f, |u|, lam, c, a, -a(q), p);
      MulZero(f, c(p));
      MulZero(f, Ev(f, |u|, QuotFn(f, lam, a(p)), -a(q)));
      if c(p) != 0 { OtherRoot(f, |u| + 1, lam, a(p), a(q)); }
    }
    SumSingle(n, q, Col(|u|, g));
    QuotColumn(f, |u|, lam, c, a, -a(q), q);
  }

  // ----- The quotient at its own root is the formal derivative.

  ghost function OddTerm(t: int -> nat): int -> nat { j => if j % 2 == 1 then t(j) else 0 }

  ghost function Partial(t: int -> nat): int -> nat { i => Sum(i + 1, t) }

  /** In characteristic 2, summing the partial sums keeps every second term. */
  lemma {:induction false} SumOfPartials(n: int, t: int -> nat)
    requires n >= 1
    ensures Sum(n - 1, Partial(t)) == if n % 2 == 1 then Sum(n, OddTerm(t)) else Xor(Sum(n, OddTerm(t)), Sum(n, t))
    decreases n
  {
    hide Xor;
    if n == 1 {
      XorZero(0);
      assert Sum(1, OddTerm(t)) == Xor(Sum(0, OddTerm(t)), OddTerm(t)(0));
    } else {
      SumOfPartials(n - 1, t);
      var d, p, x := Sum(n - 1, OddTerm(t)), Sum(n - 1, t), t(n - 1);
      assert Sum(n - 1, Partial(t)) == Xor(Sum(n - 2, Partial(t)), Partial(t)(n - 2));
      XorFour(d, x, p, x);
      XorSelf(x);
      XorZero(Xor(d, p));
      XorZero(d);
      XorCancel(d, p);
    }
  }

  lemma {:induction false} QuotAtRootTerm(f: GF, lam: int -> nat, x: int, i: int)
    requires i >= 0 && PolyIn(f, i + 1, lam)
    ensures EvTerm(f, QuotFn(f, lam, x), -x)(i) == Ev(f, i + 1, lam, -x)
  {
    hide Mul, E, Times, Ev, Quot, Xor;
    var w, e, e' := Ev(f, i + 1, lam, -x), E(f, Times(x, i)), E(f, Times(-x, i));
    QuotHorner(f, lam, x, i);
    TimesNegative(x, i);
    EInverse(f, Times(x, i));
    MulComm(f, Mul(f, e, w), e');
    MulAssoc(f, e', e, w);
    MulComm(f, e', e);
    EvBound(f, i + 1, lam, -x);
    MulOne(f, w);
  }

  /** lam'(alpha^k): the terms of odd degree, lowered by one. */
  ghost function DerivTerm(f: GF, lam: int -> nat, k: int): int -> nat {
    j => if j % 2 == 1 then Mul(f, lam(j), E(f, Times(k, j - 1))) else 0
  }

  ghost function Deriv(f: GF, len: int, lam: int -> nat, k: int): nat { Sum(len, DerivTerm(f, lam, k)) }

  lemma {:induction false} OddSumIsDeriv(f: GF, len: int, lam: int -> nat, k: int)
    ensures Sum(len, OddTerm(EvTerm(f, lam, k))) == Mul(f, E(f, k), Deriv(f, len, lam, k))
  {
    hide Mul, E, Times, Xor;
    var t, d := OddTerm(EvTerm(f, lam, k)), DerivTerm(f, lam, k);
    forall j | 0 <= j < len ensures t(j) == Mul(f, E(f, k), d(j)) {
      TimesNext(k, j - 1);
      MulE(f, k, Times(k, j - 1));
      MulSwap(f, E(f, k), lam(j), E(f, Times(k, j - 1)));
      MulZero(f, E(f, k));
    }
    SumScale(f, len, E(f, k), d, t);
  }

  lemma {:induction false} QuotAtOwnRoot(f: GF, v: int, lam: int -> nat, x: int)
    requires v >= 0 && PolyIn(f, v + 1, lam) && Ev(f, v + 1, lam, -x) == 0
    ensures Ev(f, v, QuotFn(f, lam, x), -x) == Mul(f, E(f, -x), Deriv(f, v + 1, lam, -x))
  {
    hide Mul, E, Times, Quot, Xor, Sum, Deriv;
    var t := EvTerm(f, lam, -x);
    forall i | 0 <= i < v ensures EvTerm(f, QuotFn(f, lam, x), -x)(i) == Partial(t)(i) {
      QuotAtRootTerm(f, lam, x, i);
    }
    SumCong(v, EvTerm(f, QuotFn(f, lam, x), -x), Partial(t));
    SumOfPartials(v + 1, t);
    XorZero(Sum(v + 1, OddTerm(t)));
    OddSumIsDeriv(f, v + 1, lam, -x);
  }

  /** The roots of a locator are simple. */
  lemma {:induction false} DerivNonzero(f: GF, n: int, lam: int -> nat, a: int -> int, u: set<int>, q: int)
    requires Locates(f, lam, |u|, a, u) && AllDistinct(f, n, a) && q in u
    requires forall p | p in u :: 0 <= p < n
    ensures Ev(f, |u|, QuotFn(f, lam, a(q)), -a(q)) != 0
  {
    hide Mul, E, Times, Quot, QuotFn, Xor, Ev, AllDistinct;
    var v, d := |u|, QuotFn(f, lam, a(q));
    if Ev(f, v, d, -a(q)) == 0 {
      forall p | p in u ensures Ev(f, v, d, -a(p)) == 0 {
        if p != q {
          LocationsDiffer(f, n, a, q, p);
          OtherRoot(f, v + 1, lam, a(q), a(p));
        }
      }
      DistinctSubset(f, n, a, u);
      QuotIn(f, v + 1, lam, a(q));
      RootCount(f, v, d, a, u);
    }
  }

  lemma {:induction false} LocationsDiffer(f: GF, n: int, a: int -> int, p: int, q: int)
    requires AllDistinct(f, n, a) && 0 <= p < n && 0 <= q < n && p != q
    ensures E(f, a(p)) != E(f, a(q))
  {
    hide E;
  }

  // ----- Putting the fraction together.

  lemma {:induction false} Fraction(f: GF, c: nat, x: int, den: nat, fcr: int)
    requires 0 < den < f.Size()
    ensures Mul(f, Mul(f, Mul(f, c, Mul(f, E(f, -x), den)), E(f, Times(-x, fcr - 1))), Inv(f, den))
         == Mul(f, c, E(f, Times(-x, fcr)))
  {
    hide Mul, E, Times, Inv;
    var y, w, i := E(f, -x), E(f, Times(-x, fcr - 1)), Inv(f, den);
    TimesNext(-x, fcr - 1);
    MulE(f, -x, Times(-x, fcr - 1));
    LogE(f, den);
    InvCorrect(f, den, Log(f, den));
    FractionAlgebra(f, c, y, den, w, i);
  }

  lemma {:induction false} FractionAlgebra(f: GF, c: nat, y: nat, den: nat, w: nat, i: nat)
    requires Mul(f, i, den) == 1
    ensures Mul(f, Mul(f, Mul(f, c, Mul(f, y, den)), w), i) == Mul(f, c, Mul(f, y, w))
  {
    hide Mul;
    calc {
      Mul(f, Mul(f, Mul(f, c, Mul(f, y, den)), w), i);
      { MulAssoc(f, Mul(f, c, Mul(f, y, den)), w, i); }
      Mul(f, Mul(f, c, Mul(f, y, den)), Mul(f, w, i));
      { MulAssoc(f, c, Mul(f, y, den), Mul(f, w, i)); }
      Mul(f, c, Mul(f, Mul(f, y, den), Mul(f, w, i)));
      { MulAssoc(f, y, den, Mul(f, w, i)); }
      Mul(f, c, Mul(f, y, Mul(f, den, Mul(f, w, i))));
      { MulSwap(f, den, w, i); MulComm(f, den, i); MulComm(f, w, 1); MulIn(f, y, w); MulMaskOne(f, w); }
      Mul(f, c, Mul(f, y, w % f.Size()));
      { MulMaskRight(f, y, w); }
      Mul(f, c, Mul(f, y, w));
    }
  }

  lemma {:induction false} MulMaskOne(f: GF, w: nat)
    ensures Mul(f, w, 1) == w % f.Size()
  {
    MulComm(f, w, 1);
    MulMask(f, 1, w);
    hide Mul;
    MulComm(f, 1, w);
    MulOne(f, w % f.Size());
    OneIn(f);
  }

  lemma {:induction false} OneIn(f: GF)
    ensures 1 < f.Size() && 1 % f.Size() == 1
  {
    hide E;
    EZero(f);
    EIn(f, 0);
    SmallMod(1, f.Size());
  }

  lemma {:induction false} MulMaskRight(f: GF, y: nat, w: nat)
    ensures Mul(f, y, w % f.Size()) == Mul(f, y, w)
  {
    MulMask(f, y, w);
    MulMask(f, y, w % f.Size());
    SmallMod(w % f.Size(), f.Size());
  }

  /** The value the decoder adds at location q is the error that was made there. */
  lemma {:induction false} ForneyCorrect(f: GF, n: int, lam: int -> nat, s: seq<nat>, c: int -> nat, a: int -> int,
                        u: set<int>, q: int, e: nat, fcr: int)
    requires Explains(f, s, n, c, a) && |u| <= |s| && Locates(f, lam, |u|, a, u)
    requires AllDistinct(f, n, a) && q in u && forall p | p in u :: 0 <= p < n
    requires forall p | 0 <= p < n && c(p) != 0 :: p in u
    requires e < f.Size() && c(q) == Mul(f, e, E(f, Times(a(q), fcr)))
    ensures var num1, num2, den := Ev(f, |u|, Omega(f, lam, s), -a(q)), E(f, Times(-a(q), fcr - 1)),
                                   Deriv(f, |u| + 1, lam, -a(q));
            && 0 < den < f.Size()
            && num1 < f.Size() && (num1 == 0 <==> e == 0)
            && Mul(f, Mul(f, num1, num2), Inv(f, den)) == e
  {
    hide Mul, E, Times, Inv, Ev, Deriv, Omega, QuotFn, Locates, Explains, AllDistinct;
    var x, den := a(q), Deriv(f, |u| + 1, lam, -a(q));
    OmegaAtLocation(f, n, lam, s, c, a, u, q);
    DerivNonzero(f, n, lam, a, u, q);
    LocatesRoot(f, lam, a, u, q);
    QuotAtOwnRoot(f, |u|, lam, x);
    DerivBound(f, |u| + 1, lam, -x);
    MulZero(f, E(f, -x));
    ErrorRecovered(f, e, x, den, fcr);
    EvBound(f, |u|, Omega(f, lam, s), -x);
  }

  lemma {:induction false} LocatesRoot(f: GF, lam: int -> nat, a: int -> int, u: set<int>, q: int)
    requires Locates(f, lam, |u|, a, u) && q in u
    ensures PolyIn(f, |u| + 1, lam) && Ev(f, |u| + 1, lam, -a(q)) == 0
  {
    hide E, Ev, Mul;
  }

  lemma {:induction false} DerivBound(f: GF, len: int, lam: int -> nat, k: int)
    ensures Deriv(f, len, lam, k) < f.Size()
  {
    hide Mul, E, Times, Xor;
    forall j | 0 <= j < len ensures DerivTerm(f, lam, k)(j) < f.Size() { MulIn(f, lam(j), E(f, Times(k, j - 1))); }
    SumBound(f, len, DerivTerm(f, lam, k));
  }

  lemma {:induction false} ErrorRecovered(f: GF, e: nat, x: int, den: nat, fcr: int)
    requires e < f.Size() && 0 < den < f.Size()
    ensures var c := Mul(f, e, E(f, Times(x, fcr)));
            var num1 := Mul(f, c, Mul(f, E(f, -x), den));
            Mul(f, Mul(f, num1, E(f, Times(-x, fcr - 1))), Inv(f, den)) == e && (num1 == 0 <==> e == 0)
  {
    hide Mul, E, Times, Inv;
    var c := Mul(f, e, E(f, Times(x, fcr)));
    Fraction(f, c, x, den, fcr);
    MulAssoc(f, e, E(f, Times(x, fcr)), E(f, Times(-x, fcr)));
    TimesNegative(x, fcr);
    EInverse(f, Times(x, fcr));
    MulOne(f, e);
    MulZero(f, E(f, Times(x, fcr)));
    MulZero(f, Mul(f, E(f, -x), den));
    MulZero(f, E(f, Times(-x, fcr - 1)));
    MulZero(f, Inv(f, den));
  }
}
