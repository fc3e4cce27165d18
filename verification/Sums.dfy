/** Finite sums of field elements and the two uniqueness facts the codec rests on: few terms
    cannot vanish at many consecutive powers, and a polynomial has at most its degree of roots. */
module FieldSums {
  import opened Bits
  import opened GaloisField

  /** A product of exponents, by repeated addition. */
  ghost function Times(a: int, b: int): int
    decreases if b < 0 then -b else b
  {
    if b == 0 then 0 else if b > 0 then a + Times(a, b - 1) else Times(a, b + 1) - a
  }

  lemma {:induction false} TimesIs(a: int, b: int)
    ensures Times(a, b) == a * b
    decreases if b < 0 then -b else b
  {
    if b > 0 {
      TimesIs(a, b - 1);
      assert a * b == a * (b - 1) + a;
    } else if b < 0 {
      TimesIs(a, b + 1);
      assert a * b == a * (b + 1) - a;
    }
  }

  lemma {:induction false} TimesNext(a: int, b: int)
    ensures Times(a, b + 1) == a + Times(a, b)
  {
  }

  lemma {:induction false} TimesNegative(a: int, b: int)
    ensures Times(-a, b) == -Times(a, b)
  {
    hide Times;
    TimesIs(a, b);
    TimesIs(-a, b);
  }

  ghost function Sum(n: int, g: int -> nat): nat {
    if n <= 0 then 0 else Xor(Sum(n - 1, g), g(n - 1))
  }

  lemma {:induction false} SumCong(n: int, g: int -> nat, h: int -> nat)
    requires forall i | 0 <= i < n :: g(i) == h(i)
    ensures Sum(n, g) == Sum(n, h)
    decreases if n < 0 then 0 else n
  {
    hide E, Mul, Times;
    if n > 0 { SumCong(n - 1, g, h); }
  }

  lemma {:induction false} SumZero(n: int, g: int -> nat)
    requires forall i | 0 <= i < n :: g(i) == 0
    ensures Sum(n, g) == 0
    decreases if n < 0 then 0 else n
  {
    hide E, Mul, Times;
    if n > 0 { SumZero(n - 1, g); }
  }

  lemma {:induction false} SumXor(n: int, g: int -> nat, h: int -> nat, k: int -> nat)
    requires forall i | 0 <= i < n :: k(i) == Xor(g(i), h(i))
    ensures Sum(n, k) == Xor(Sum(n, g), Sum(n, h))
    decreases if n < 0 then 0 else n
  {
    hide E, Mul, Times;
    hide Xor;
    XorZero(0);
    if n > 0 {
      SumXor(n - 1, g, h, k);
      XorFour(Sum(n - 1, g), Sum(n - 1, h), g(n - 1), h(n - 1));
    }
  }

  lemma {:induction false} SumScale(f: GF, n: int, c: nat, g: int -> nat, k: int -> nat)
    requires forall i | 0 <= i < n :: k(i) == Mul(f, c, g(i))
    ensures Sum(n, k) == Mul(f, c, Sum(n, g))
    decreases if n < 0 then 0 else n
  {
    hide E, Mul, Times;
    if n > 0 {
      SumScale(f, n - 1, c, g, k);
      MulXor(f, c, Sum(n - 1, g), g(n - 1));
    } else {
      MulZero(f, c);
    }
  }

  lemma {:induction false} SumBound(f: GF, n: int, g: int -> nat)
    requires forall i | 0 <= i < n :: g(i) < f.Size()
    ensures Sum(n, g) < f.Size()
    decreases if n < 0 then 0 else n
  {
    hide E, Mul, Times;
    if n > 0 {
      SumBound(f, n - 1, g);
      XorBound(Sum(n - 1, g), g(n - 1), f.mm);
    }
  }

  /** Terms that vanish can be appended. */
  lemma {:induction false} SumExtend(m: int, n: int, g: int -> nat)
    requires 0 <= m <= n && forall i | m <= i < n :: g(i) == 0
    ensures Sum(n, g) == Sum(m, g)
    decreases n - m
  {
    if m < n {
      SumExtend(m, n - 1, g);
      XorSelf(0);
      XorComm(Sum(n - 1, g), 0);
    }
  }

  lemma {:induction false} SumFirst(n: int, g: int -> nat, h: int -> nat)
    requires n >= 0 && forall i | 0 <= i < n :: h(i) == g(i + 1)
    ensures Sum(n + 1, g) == Xor(g(0), Sum(n, h))
    decreases n
  {
    hide E, Mul, Times;
    if n > 0 {
      SumFirst(n - 1, g, h);
      XorAssoc(g(0), Sum(n - 1, h), h(n - 1));
    } else {
      XorComm(g(0), 0);
      assert Sum(1, g) == Xor(Sum(0, g), g(0));
    }
  }

  /** A sum with one nonzero term. */
  lemma {:induction false} SumSingle(n: int, j: int, g: int -> nat)
    requires 0 <= j < n && forall i | 0 <= i < n && i != j :: g(i) == 0
    ensures Sum(n, g) == g(j)
  {
    hide E, Mul, Times;
    SumZero(j, g);
    assert Sum(j + 1, g) == Xor(Sum(j, g), g(j));
    SumExtend(j + 1, n, g);
  }

  /** A sum read from its last term to its first. */
  lemma {:induction false} SumReverse(n: int, g: int -> nat, h: int -> nat)
    requires n >= 0 && forall i | 0 <= i < n :: h(i) == g(n - 1 - i)
    ensures Sum(n, h) == Sum(n, g)
    decreases n
  {
    hide Xor;
    if n > 0 {
      var h' := i => h(i + 1);
      SumFirst(n - 1, h, h');
      forall i | 0 <= i < n - 1 ensures h'(i) == g(n - 2 - i) { assert h(i + 1) == g(n - 1 - (i + 1)); }
      SumReverse(n - 1, g, h');
      XorComm(h(0), Sum(n - 1, h'));
    }
  }

  // ----- Exchanging the order of summation.

  ghost function Row(m: int, g: (int, int) -> nat): int -> nat { i => Sum(m, j => g(i, j)) }

  ghost function Col(n: int, g: (int, int) -> nat): int -> nat { j => Sum(n, i => g(i, j)) }

  lemma {:induction false} SumSwap(n: int, m: int, g: (int, int) -> nat)
    requires n >= 0
    ensures Sum(n, Row(m, g)) == Sum(m, Col(n, g))
    decreases n
  {
    hide E, Mul, Times;
    if n == 0 {
      SumZero(m, Col(0, g));
    } else {
      SumSwap(n - 1, m, g);
      SumXor(m, Col(n - 1, g), j => g(n - 1, j), Col(n, g));
    }
  }

  // ----- Power sums.

  /** The terms c(j) * alpha^(a(j) * i). */
  ghost function PowerTerm(f: GF, c: int -> nat, a: int -> int, i: int): int -> nat {
    j => Mul(f, c(j), E(f, Times(a(j), i)))
  }

  ghost function PowerSum(f: GF, n: int, c: int -> nat, a: int -> int, i: int): nat {
    Sum(n, PowerTerm(f, c, a, i))
  }

  ghost predicate DistinctOn(f: GF, s: set<int>, a: int -> int) {
    forall j, k | j in s && k in s && j != k :: E(f, a(j)) != E(f, a(k))
  }

  ghost predicate SupportedOn(f: GF, n: int, c: int -> nat, s: set<int>) {
    && (forall j | j in s :: 0 <= j < n)
    && (forall j | 0 <= j < n :: c(j) < f.Size() && (j !in s ==> c(j) == 0))
  }

  /** Removes the term at p: each coefficient is scaled by the difference of its base from that of p. */
  ghost function Deflate(f: GF, c: int -> nat, a: int -> int, p: int): int -> nat {
    j => Mul(f, c(j), Xor(E(f, a(j)), E(f, a(p))))
  }

  lemma {:induction false} DeflateTerm(f: GF, c: nat, x: int, y: int, i: int)
    ensures Mul(f, Mul(f, c, Xor(E(f, x), E(f, y))), E(f, Times(x, i)))
         == Xor(Mul(f, c, E(f, Times(x, i + 1))), Mul(f, E(f, y), Mul(f, c, E(f, Times(x, i)))))
  {
    hide E, Mul, Times;
    var w := E(f, Times(x, i));
    MulXor(f, c, E(f, x), E(f, y));
    MulXor(f, w, Mul(f, c, E(f, x)), Mul(f, c, E(f, y)));
    MulAssoc(f, c, E(f, x), w);
    MulE(f, x, Times(x, i));
    TimesNext(x, i);
    MulComm(f, c, E(f, y));
    MulAssoc(f, E(f, y), c, w);
  }

  lemma {:induction false} DeflateSum(f: GF, n: int, c: int -> nat, a: int -> int, p: int, i: int)
    requires PowerSum(f, n, c, a, i) == 0 && PowerSum(f, n, c, a, i + 1) == 0
    ensures PowerSum(f, n, Deflate(f, c, a, p), a, i) == 0
  {
    hide E, Mul, Times;
    var y := E(f, a(p));
    var t0, t1 := PowerTerm(f, c, a, i), PowerTerm(f, c, a, i + 1);
    var s0 := j => Mul(f, y, t0(j));
    var d := PowerTerm(f, Deflate(f, c, a, p), a, i);
    forall j | 0 <= j < n ensures d(j) == Xor(t1(j), s0(j)) {
      DeflateTerm(f, c(j), a(j), a(p), i);
    }
    SumXor(n, t1, s0, d);
    SumScale(f, n, y, t0, s0);
    MulZero(f, y);
  }

  lemma {:induction false} NonemptyHas(s: set<int>)
    ensures |s| == 0 || exists x :: x in s
  {
    if forall x :: x !in s { assert s == {}; }
  }

  lemma {:induction false} RemoveOne(s: set<int>) returns (p: int, s': set<int>)
    requires |s| > 0
    ensures Without(s, p, s') && p in s && |s'| == |s| - 1
  {
    NonemptyHas(s);
    var x :| x in s;
    p, s' := x, s - {x};
  }

  ghost predicate Without(s: set<int>, p: int, s': set<int>) {
    p in s && |s'| == |s| - 1 && forall j :: j in s' <==> j in s && j != p
  }

  lemma {:induction false} DeflateSupport(f: GF, n: int, c: int -> nat, a: int -> int, s: set<int>, p: int, s': set<int>)
    requires SupportedOn(f, n, c, s) && Without(s, p, s')
    ensures SupportedOn(f, n, Deflate(f, c, a, p), s')
  {
    hide E, Mul, Times;
    forall j | 0 <= j < n
      ensures Deflate(f, c, a, p)(j) < f.Size()
      ensures j !in s' ==> Deflate(f, c, a, p)(j) == 0
    {
      var x := Xor(E(f, a(j)), E(f, a(p)));
      MulIn(f, c(j), x);
      MulZero(f, x);
      MulZero(f, c(j));
      XorSelf(E(f, a(p)));
    }
  }

  lemma {:induction false} ProductZero(f: GF, x: nat, y: nat)
    requires x < f.Size() && 0 < y < f.Size() && Mul(f, x, y) == 0
    ensures x == 0
  {
    hide E, Mul, Times;
    if x != 0 { MulNonzero(f, x, y); }
  }

  /** As many consecutive power sums as there are terms determine the terms: if they all vanish,
      so does every coefficient. */
  lemma {:induction false} SparseVandermonde(f: GF, n: int, c: int -> nat, a: int -> int, s: set<int>, m: int)
    requires SupportedOn(f, n, c, s) && DistinctOn(f, s, a)
    requires forall i | m <= i < m + |s| :: PowerSum(f, n, c, a, i) == 0
    ensures forall j | 0 <= j < n :: c(j) == 0
    decreases |s|
  {
    if |s| > 0 {
      hide *;
      var p, s' := RemoveOne(s);
      DeflateAll(f, n, c, a, s, m, p, s');
      SparseVandermonde(f, n, Deflate(f, c, a, p), a, s', m);
      Undeflate(f, n, c, a, s, m, p);
    }
  }

  lemma {:induction false} DeflateAll(f: GF, n: int, c: int -> nat, a: int -> int, s: set<int>, m: int, p: int, s': set<int>)
    requires SupportedOn(f, n, c, s) && DistinctOn(f, s, a) && Without(s, p, s')
    requires forall i | m <= i < m + |s| :: PowerSum(f, n, c, a, i) == 0
    ensures SupportedOn(f, n, Deflate(f, c, a, p), s') && DistinctOn(f, s', a)
    ensures forall i | m <= i < m + |s'| :: PowerSum(f, n, Deflate(f, c, a, p), a, i) == 0
    ensures PowerSum(f, n, c, a, m) == 0
  {
    hide E, Mul, Times, PowerSum, Deflate, SupportedOn;
    DeflateSupport(f, n, c, a, s, p, s');
    DeflateSums(f, n, c, a, p, m, |s|);
  }

  lemma {:induction false} Undeflate(f: GF, n: int, c: int -> nat, a: int -> int, s: set<int>, m: int, p: int)
    requires SupportedOn(f, n, c, s) && DistinctOn(f, s, a) && p in s
    requires forall j | 0 <= j < n :: Deflate(f, c, a, p)(j) == 0
    requires PowerSum(f, n, c, a, m) == 0
    ensures forall j | 0 <= j < n :: c(j) == 0
  {
    hide E, Mul, Times, PowerSum, Deflate, DistinctOn;
    DeflatedZero(f, n, c, a, s, p);
    LastTerm(f, n, c, a, p, m);
  }

  lemma {:induction false} DeflateSums(f: GF, n: int, c: int -> nat, a: int -> int, p: int, m: int, w: nat)
    requires forall i | m <= i < m + w :: PowerSum(f, n, c, a, i) == 0
    ensures forall i | m <= i < m + w - 1 :: PowerSum(f, n, Deflate(f, c, a, p), a, i) == 0
  {
    hide E, Mul, Times, PowerSum, Deflate;
    forall i | m <= i < m + w - 1 ensures PowerSum(f, n, Deflate(f, c, a, p), a, i) == 0 {
      assert PowerSum(f, n, c, a, i + 1) == 0;
      DeflateSum(f, n, c, a, p, i);
    }
  }

  lemma {:induction false} DeflatedZero(f: GF, n: int, c: int -> nat, a: int -> int, s: set<int>, p: int)
    requires SupportedOn(f, n, c, s) && DistinctOn(f, s, a) && p in s
    requires forall j | 0 <= j < n :: Deflate(f, c, a, p)(j) == 0
    ensures forall j | 0 <= j < n && j != p :: c(j) == 0
  {
    hide E, Mul, Times;
    forall j | 0 <= j < n && j != p && j in s ensures c(j) == 0 {
      assert Deflate(f, c, a, p)(j) == 0;
      DifferenceIn(f, a(j), a(p));
      ProductZero(f, c(j), Xor(E(f, a(j)), E(f, a(p))));
    }
  }

  lemma {:induction false} DifferenceIn(f: GF, x: int, y: int)
    requires E(f, x) != E(f, y)
    ensures 0 < Xor(E(f, x), E(f, y)) < f.Size()
  {
    hide E, Mul, Times;
    EIn(f, x);
    EIn(f, y);
    XorBound(E(f, x), E(f, y), f.mm);
    XorCancel(E(f, x), E(f, y));
  }

  lemma {:induction false} LastTerm(f: GF, n: int, c: int -> nat, a: int -> int, p: int, m: int)
    requires 0 <= p < n && c(p) < f.Size() && forall j | 0 <= j < n && j != p :: c(j) == 0
    requires PowerSum(f, n, c, a, m) == 0
    ensures c(p) == 0
  {
    hide E, Mul, Times;
    var t := PowerTerm(f, c, a, m);
    forall j | 0 <= j < n && j != p ensures t(j) == 0 {
      MulZero(f, E(f, Times(a(j), m)));
    }
    SumSingle(n, p, t);
    EIn(f, Times(a(p), m));
    ProductZero(f, c(p), E(f, Times(a(p), m)));
  }

  // ----- Polynomials with n coefficients, evaluated at powers of alpha.

  ghost function EvTerm(f: GF, p: int -> nat, k: int): int -> nat {
    i => Mul(f, p(i), E(f, Times(k, i)))
  }

  ghost function Ev(f: GF, n: int, p: int -> nat, k: int): nat {
    Sum(n, EvTerm(f, p, k))
  }

  /** Coefficient i of p / (1 + alpha^a x) as a power series. */
  ghost function Quot(f: GF, p: int -> nat, a: int, i: int): nat
    decreases if i < 0 then 0 else i + 1
  {
    if i < 0 then 0 else Xor(p(i), Mul(f, E(f, a), Quot(f, p, a, i - 1)))
  }

  ghost function QuotFn(f: GF, p: int -> nat, a: int): int -> nat { i => Quot(f, p, a, i) }

  lemma {:induction false} EvLast(f: GF, p: int -> nat, a: int, i: int)
    requires i >= 0 && p(i) < f.Size()
    ensures Mul(f, E(f, Times(a, i)), Ev(f, i + 1, p, -a)) == Xor(p(i), Mul(f, E(f, Times(a, i)), Ev(f, i, p, -a)))
  {
    hide E, Mul, Times;
    var t := EvTerm(f, p, -a);
    var w := E(f, Times(a, i));
    MulXor(f, w, Sum(i, t), t(i));
    MulComm(f, p(i), E(f, Times(-a, i)));
    MulAssoc(f, w, E(f, Times(-a, i)), p(i));
    TimesNegative(a, i);
    EInverse(f, Times(a, i));
    MulOne(f, p(i));
    XorComm(Mul(f, w, Sum(i, t)), p(i));
  }

  /** The quotient coefficients are the scaled partial evaluations at the root. */
  lemma {:induction false} QuotHorner(f: GF, p: int -> nat, a: int, i: int)
    requires i >= 0 && forall j | 0 <= j <= i :: p(j) < f.Size()
    ensures Quot(f, p, a, i) == Mul(f, E(f, Times(a, i)), Ev(f, i + 1, p, -a))
    decreases i
  {
    hide E, Mul, Times;
    EvLast(f, p, a, i);
    if i == 0 {
      MulZero(f, E(f, Times(a, i)));
      MulZero(f, E(f, a));
    } else {
      QuotHorner(f, p, a, i - 1);
      MulE(f, a, Times(a, i - 1));
      TimesNext(a, i - 1);
      MulAssoc(f, E(f, a), E(f, Times(a, i - 1)), Ev(f, i, p, -a));
    }
  }

  lemma {:induction false} QuotBound(f: GF, p: int -> nat, a: int, i: int)
    requires i >= 0 ==> p(i) < f.Size()
    ensures Quot(f, p, a, i) < f.Size()
  {
    hide E, Mul, Times;
    if i >= 0 {
      MulIn(f, E(f, a), Quot(f, p, a, i - 1));
      XorBound(p(i), Mul(f, E(f, a), Quot(f, p, a, i - 1)), f.mm);
    }
  }

  ghost predicate PolyIn(f: GF, n: int, p: int -> nat) {
    forall i | 0 <= i < n :: p(i) < f.Size()
  }

  /** When alpha^-a is a root, the division is exact: the last quotient coefficient is zero. */
  lemma {:induction false} QuotExact(f: GF, n: int, p: int -> nat, a: int)
    requires n >= 1 && PolyIn(f, n, p) && Ev(f, n, p, -a) == 0
    ensures Quot(f, p, a, n - 1) == 0
  {
    hide E, Mul, Times;
    QuotHorner(f, p, a, n - 1);
    MulZero(f, E(f, Times(a, n - 1)));
  }

  /** The part of the quotient's evaluation that the recurrence feeds back. */
  ghost function Feedback(f: GF, p: int -> nat, a: int, k: int): int -> nat {
    i => Mul(f, E(f, a), Mul(f, Quot(f, p, a, i - 1), E(f, Times(k, i))))
  }

  lemma {:induction false} FeedbackSplit(f: GF, n: int, p: int -> nat, a: int, k: int)
    ensures Ev(f, n, QuotFn(f, p, a), k) == Xor(Ev(f, n, p, k), Sum(n, Feedback(f, p, a, k)))
  {
    hide E, Mul, Times;
    var tp, tq, r := EvTerm(f, p, k), EvTerm(f, QuotFn(f, p, a), k), Feedback(f, p, a, k);
    forall i | 0 <= i < n ensures tq(i) == Xor(tp(i), r(i)) {
      var e, q' := E(f, Times(k, i)), Quot(f, p, a, i - 1);
      MulXor(f, e, p(i), Mul(f, E(f, a), q'));
      MulAssoc(f, E(f, a), q', e);
    }
    SumXor(n, tp, r, tq);
  }

  /** p(y) = (1 + alpha^a y) q(y). */
  lemma {:induction false} QuotEval(f: GF, n: int, p: int -> nat, a: int, k: int)
    requires n >= 1 && PolyIn(f, n, p) && Ev(f, n, p, -a) == 0
    ensures Ev(f, n, p, k) == Mul(f, Xor(1, E(f, a + k)), Ev(f, n - 1, QuotFn(f, p, a), k))
  {
    hide E, Mul, Times;
    var q := QuotFn(f, p, a);
    FeedbackSplit(f, n, p, a, k);
    FeedbackShift(f, n, p, a, k);
    QuotLast(f, n, p, a, k);
    var w := Ev(f, n - 1, q, k);
    var v := Mul(f, E(f, a + k), w);
    XorCancel(Ev(f, n, p, k), v);
    MulXor(f, w, 1, E(f, a + k));
    EvBound(f, n - 1, q, k);
    MulOne(f, w);
  }

  lemma {:induction false} QuotLast(f: GF, n: int, p: int -> nat, a: int, k: int)
    requires n >= 1 && PolyIn(f, n, p) && Ev(f, n, p, -a) == 0
    ensures Ev(f, n, QuotFn(f, p, a), k) == Ev(f, n - 1, QuotFn(f, p, a), k)
  {
    hide E, Mul, Times;
    QuotExact(f, n, p, a);
    MulZero(f, E(f, Times(k, n - 1)));
    XorZero(Ev(f, n - 1, QuotFn(f, p, a), k));
  }

  lemma {:induction false} EvBound(f: GF, n: int, p: int -> nat, k: int)
    ensures Ev(f, n, p, k) < f.Size()
  {
    hide E, Mul, Times;
    forall i | 0 <= i < n ensures EvTerm(f, p, k)(i) < f.Size() { MulIn(f, p(i), E(f, Times(k, i))); }
    SumBound(f, n, EvTerm(f, p, k));
  }

  lemma {:induction false} FeedbackShift(f: GF, n: int, p: int -> nat, a: int, k: int)
    requires n >= 1
    ensures Sum(n, Feedback(f, p, a, k)) == Mul(f, E(f, a + k), Ev(f, n - 1, QuotFn(f, p, a), k))
  {
    hide E, Mul, Times;
    var r, tq := Feedback(f, p, a, k), EvTerm(f, QuotFn(f, p, a), k);
    var h := i => r(i + 1);
    FeedbackFirst(f, p, a, k);
    SumFirst(n - 1, r, h);
    forall i | 0 <= i < n - 1 ensures h(i) == Mul(f, E(f, a + k), tq(i)) {
      FeedbackTerm(f, Quot(f, p, a, i), a, k, i);
    }
    SumScale(f, n - 1, E(f, a + k), tq, h);
  }

  lemma {:induction false} FeedbackFirst(f: GF, p: int -> nat, a: int, k: int)
    ensures Feedback(f, p, a, k)(0) == 0
  {
    hide E, Mul, Times;
    MulZero(f, E(f, Times(k, 0)));
    MulZero(f, E(f, a));
  }

  lemma {:induction false} FeedbackTerm(f: GF, q: nat, a: int, k: int, i: int)
    ensures Mul(f, E(f, a), Mul(f, q, E(f, Times(k, i + 1)))) == Mul(f, E(f, a + k), Mul(f, q, E(f, Times(k, i))))
  {
    hide E, Mul, Times;
    MulComm(f, q, E(f, Times(k, i + 1)));
    MulComm(f, q, E(f, Times(k, i)));
    MulAssoc(f, E(f, a), E(f, Times(k, i + 1)), q);
    MulAssoc(f, E(f, a + k), E(f, Times(k, i)), q);
    MulE(f, a, Times(k, i + 1));
    MulE(f, a + k, Times(k, i));
    TimesNext(k, i);
  }

  /** A polynomial of n coefficients with constant term nonzero has fewer than n roots. */
  lemma {:induction false} RootCount(f: GF, n: int, p: int -> nat, a: int -> int, s: set<int>)
    requires n >= 1 && PolyIn(f, n, p) && p(0) != 0
    requires DistinctOn(f, s, a)
    requires forall j | j in s :: Ev(f, n, p, -a(j)) == 0
    ensures |s| < n
    decreases n
  {
    if |s| > 0 {
      hide *;
      var j0, s' := RemoveOne(s);
      ConstantRoots(f, n, p, -a(j0));
      QuotIn(f, n, p, a(j0));
      OtherRoots(f, n, p, a, s, j0, s');
      RootCount(f, n - 1, QuotFn(f, p, a(j0)), a, s');
    }
  }

  lemma {:induction false} OtherRoots(f: GF, n: int, p: int -> nat, a: int -> int, s: set<int>, j0: int, s': set<int>)
    requires n >= 1 && PolyIn(f, n, p) && DistinctOn(f, s, a) && Without(s, j0, s')
    requires forall j | j in s :: Ev(f, n, p, -a(j)) == 0
    ensures DistinctOn(f, s', a)
    ensures forall j | j in s' :: Ev(f, n - 1, QuotFn(f, p, a(j0)), -a(j)) == 0
  {
    hide E, Mul, Times, Ev, Quot, QuotFn;
    forall j | j in s' ensures Ev(f, n - 1, QuotFn(f, p, a(j0)), -a(j)) == 0 {
      OtherRoot(f, n, p, a(j0), a(j));
    }
  }

  lemma {:induction false} QuotIn(f: GF, n: int, p: int -> nat, a: int)
    requires n >= 1 && PolyIn(f, n, p)
    ensures PolyIn(f, n, QuotFn(f, p, a)) && QuotFn(f, p, a)(0) == p(0)
  {
    hide E, Mul, Times;
    forall i | 0 <= i < n ensures QuotFn(f, p, a)(i) < f.Size() { QuotBound(f, p, a, i); }
    MulZero(f, E(f, a));
    XorZero(p(0));
  }

  lemma {:induction false} ConstantRoots(f: GF, n: int, p: int -> nat, k: int)
    requires n >= 1 && PolyIn(f, n, p) && p(0) != 0 && Ev(f, n, p, k) == 0
    ensures n > 1
  {
    if n == 1 { ConstantNoRoot(f, p, k); }
  }

  lemma {:induction false} ConstantNoRoot(f: GF, p: int -> nat, k: int)
    requires 0 < p(0) < f.Size()
    ensures Ev(f, 1, p, k) != 0
  {
    hide E, Mul, Times;
    assert Ev(f, 1, p, k) == Xor(Sum(0, EvTerm(f, p, k)), EvTerm(f, p, k)(0));
    EIn(f, Times(k, 0));
    MulNonzero(f, p(0), E(f, Times(k, 0)));
  }

  lemma {:induction false} OtherRoot(f: GF, n: int, p: int -> nat, a: int, b: int)
    requires n >= 1 && PolyIn(f, n, p)
    requires Ev(f, n, p, -a) == 0 && Ev(f, n, p, -b) == 0 && E(f, a) != E(f, b)
    ensures Ev(f, n - 1, QuotFn(f, p, a), -b) == 0
  {
    hide E, Mul, Times;
    var q := QuotFn(f, p, a);
    QuotEval(f, n, p, a, -b);
    EvBound(f, n - 1, q, -b);
    UnitDifference(f, a, b);
    MulComm(f, Xor(1, E(f, a - b)), Ev(f, n - 1, q, -b));
    ProductZero(f, Ev(f, n - 1, q, -b), Xor(1, E(f, a - b)));
  }

  lemma {:induction false} UnitDifference(f: GF, a: int, b: int)
    requires E(f, a) != E(f, b)
    ensures 0 < Xor(1, E(f, a - b)) < f.Size()
  {
    hide E, Mul, Times;
    EZero(f);
    EDistinct(f, a, b);
    EDistinct(f, a - b, 0);
    DifferenceIn(f, 0, a - b);
  }
}
