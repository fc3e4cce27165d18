/** The code: words that vanish at nroots consecutive powers of alpha^prim, the polynomial with
    exactly those roots, and the distinctness of the location logs. */
module CodeTheory {
  import opened Bits
  import opened Sets
  import opened GaloisField
  import opened FieldSums
  import opened BerlekampMassey
  import opened ErrorLocator

  // ----- prim is invertible modulo nn, so multiples of it are distinct powers.

  ghost predicate PrimInverse(nn: int, prim: int, iprim: int) {
    nn >= 1 && (prim * iprim - 1) % nn == 0
  }

  lemma {:induction false} PrimDistinct(f: GF, prim: int, iprim: int, x: int, y: int)
    requires PrimInverse(f.NN(), prim, iprim)
    requires 0 <= x < f.NN() && 0 <= y < f.NN() && x != y
    ensures E(f, Times(prim, x)) != E(f, Times(prim, y))
  {
    hide E;
    EDistinct(f, Times(prim, x), Times(prim, y));
    ProductDifference(prim, x, y);
    if prim * (x - y) % f.NN() == 0 {
      CancelPrim(f.NN(), prim, iprim, x - y);
      SmallMultipleOf(x - y, f.NN());
    }
  }

  lemma {:induction false} ProductDifference(prim: int, x: int, y: int)
    ensures Times(prim, x) - Times(prim, y) == prim * (x - y)
  {
    hide Times;
    TimesIs(prim, x);
    TimesIs(prim, y);
  }

  lemma {:induction false} CancelPrim(n: int, prim: int, iprim: int, d: int)
    requires PrimInverse(n, prim, iprim) && prim * d % n == 0
    ensures d % n == 0
  {
    var q, t := prim * d / n, (prim * iprim - 1) / n;
    ExactQuotient(prim * d, n);
    ExactQuotient(prim * iprim - 1, n);
    CancelArithmetic(n, prim, iprim, d, q, t);
    DivModUnique(d, n, iprim * q - t * d, 0);
  }

  lemma {:induction false} ExactQuotient(a: int, n: int)
    requires n > 0 && a % n == 0
    ensures a == n * (a / n)
  {
  }

  lemma {:induction false} CancelArithmetic(n: int, prim: int, iprim: int, d: int, q: int, t: int)
    requires prim * d == n * q && prim * iprim - 1 == n * t
    ensures d == n * (iprim * q - t * d) + 0
  {
    calc {
      d;
      (prim * iprim - n * t) * d;
      prim * iprim * d - n * t * d;
      { assert prim * iprim * d == iprim * (prim * d); }
      iprim * (n * q) - n * t * d;
      { assert iprim * (n * q) == n * (iprim * q); assert n * t * d == n * (t * d); }
      n * (iprim * q) - n * (t * d);
      n * (iprim * q - t * d);
    }
  }

  lemma {:induction false} SmallMultipleOf(d: int, n: int)
    requires -n < d < n && d % n == 0
    ensures d == 0
  {
    if d >= 0 { SmallMod(d, n); } else { DivModUnique(d, n, -1, d + n); }
  }

  /** The log of the location of (padded) position p in a block of nn symbols. */
  ghost function Location(nn: int, prim: int): int -> int { p => Times(prim, nn - 1 - p) }

  lemma {:induction false} LocationsDistinct(f: GF, prim: int, iprim: int)
    requires PrimInverse(f.NN(), prim, iprim)
    ensures AllDistinct(f, f.NN(), Location(f.NN(), prim))
  {
    hide E, Times, PrimInverse;
    var n := f.NN();
    forall p, q | 0 <= p < n && 0 <= q < n && p != q
      ensures E(f, Location(n, prim)(p)) != E(f, Location(n, prim)(q))
    {
      PrimDistinct(f, prim, iprim, n - 1 - p, n - 1 - q);
    }
  }

  // ----- Words and their values.

  /** Horner's rule: the first symbol has the highest power. */
  ghost function Horner(f: GF, w: seq<nat>, k: int): nat {
    if |w| == 0 then 0 else Xor(Mul(f, Horner(f, w[..|w| - 1], k), E(f, k)), w[|w| - 1])
  }

  /** The exponent of root t of the generator. */
  ghost function Root(prim: int, fcr: int, t: int): int { Times(prim, fcr + t) }

  lemma {:induction false} RootIs(prim: int, fcr: int, t: int)
    ensures Root(prim, fcr, t) == prim * (fcr + t)
  {
    TimesIs(prim, fcr + t);
  }

  ghost predicate IsCodeword(f: GF, prim: int, fcr: int, nroots: int, w: seq<nat>) {
    forall t | 0 <= t < nroots :: Horner(f, w, Root(prim, fcr, t)) == 0
  }

  ghost function RevFn(w: seq<nat>): int -> nat { i => At(w, |w| - 1 - i) }

  lemma {:induction false} HornerIsEv(f: GF, w: seq<nat>, k: int)
    requires SeqIn(f, w)
    ensures Horner(f, w, k) == Ev(f, |w|, RevFn(w), k)
    decreases |w|
  {
    hide Mul, E, Xor, Times, Ev;
    if |w| == 0 {
      SumZero(0, EvTerm(f, RevFn(w), k));
      EvEmpty(f, RevFn(w), k);
    } else {
      var w' := w[..|w| - 1];
      HornerIsEv(f, w', k);
      EvRevLast(f, w, k);
      MulComm(f, Horner(f, w', k), E(f, k));
      XorComm(w[|w| - 1], Mul(f, E(f, k), Horner(f, w', k)));
    }
  }

  lemma {:induction false} EvEmpty(f: GF, p: int -> nat, k: int)
    ensures Ev(f, 0, p, k) == 0
  {
  }

  lemma {:induction false} EvRevLast(f: GF, w: seq<nat>, k: int)
    requires |w| >= 1 && SeqIn(f, w)
    ensures Ev(f, |w|, RevFn(w), k) == Xor(w[|w| - 1], Mul(f, E(f, k), Ev(f, |w| - 1, RevFn(w[..|w| - 1]), k)))
  {
    hide Mul, E, Xor, Times;
    var n := |w| - 1;
    var g, h := EvTerm(f, RevFn(w), k), EvTerm(f, RevFn(w[..n]), k);
    var m := i => g(i + 1);
    SumFirst(n, g, m);
    assert RevFn(w)(0) == At(w, n);
    ConstantTerm(f, w[n], k);
    forall i | 0 <= i < n ensures m(i) == Mul(f, E(f, k), h(i)) { RevRaised(f, w, k, i); }
    SumScale(f, n, E(f, k), h, m);
  }

  lemma {:induction false} RevRaised(f: GF, w: seq<nat>, k: int, i: int)
    requires 0 <= i < |w| - 1
    ensures EvTerm(f, RevFn(w), k)(i + 1) == Mul(f, E(f, k), EvTerm(f, RevFn(w[..|w| - 1]), k)(i))
  {
    hide Mul, E, Xor, Times;
    RevShorter(w, i);
    RaisedTerm(f, RevFn(w)(i + 1), k, i);
  }

  lemma {:induction false} RevShorter(w: seq<nat>, i: int)
    requires 0 <= i < |w| - 1
    ensures RevFn(w)(i + 1) == RevFn(w[..|w| - 1])(i)
  {
    var w' := w[..|w| - 1];
    assert |w'| - 1 - i == |w| - 1 - (i + 1);
    assert RevFn(w')(i) == At(w', |w| - 1 - (i + 1));
    assert RevFn(w)(i + 1) == At(w, |w| - 1 - (i + 1));
  }

  lemma {:induction false} ConstantTerm(f: GF, c: nat, k: int)
    requires c < f.Size()
    ensures Mul(f, c, E(f, Times(k, 0))) == c
  {
    hide Mul, E;
    TimesZero(k);
    EZero(f);
    MulOne(f, c);
  }

  lemma {:induction false} RaisedTerm(f: GF, c: nat, k: int, i: int)
    ensures Mul(f, c, E(f, Times(k, i + 1))) == Mul(f, E(f, k), Mul(f, c, E(f, Times(k, i))))
  {
    hide Mul, E, Times;
    TimesNext(k, i);
    MulE(f, k, Times(k, i));
    MulSwap(f, c, E(f, k), E(f, Times(k, i)));
  }

  lemma {:induction false} TimesZero(k: int)
    ensures Times(k, 0) == 0
  {
  }

  lemma {:induction false} HornerBound(f: GF, w: seq<nat>, k: int)
    requires SeqIn(f, w)
    ensures Horner(f, w, k) < f.Size()
  {
    hide Mul, E, Xor;
    if |w| > 0 {
      MulIn(f, Horner(f, w[..|w| - 1], k), E(f, k));
      XorBound(Mul(f, Horner(f, w[..|w| - 1], k), E(f, k)), w[|w| - 1], f.mm);
    } else {
      EIn(f, 0);
    }
  }

  ghost function XorSeq(u: seq<nat>, v: seq<nat>): (r: seq<nat>)
    requires |u| == |v|
  {
    seq(|u|, i requires 0 <= i < |u| => Xor(u[i], v[i]))
  }

  lemma {:induction false} HornerXor(f: GF, u: seq<nat>, v: seq<nat>, k: int)
    requires |u| == |v|
    ensures Horner(f, XorSeq(u, v), k) == Xor(Horner(f, u, k), Horner(f, v, k))
    decreases |u|
  {
    hide Mul, E, Xor;
    XorZero(0);
    if |u| > 0 {
      var n := |u| - 1;
      HornerXor(f, u[..n], v[..n], k);
      assert XorSeq(u, v)[..n] == XorSeq(u[..n], v[..n]);
      var x, y := Horner(f, u[..n], k), Horner(f, v[..n], k);
      MulXor(f, E(f, k), x, y);
      XorFour(Mul(f, x, E(f, k)), Mul(f, y, E(f, k)), u[n], v[n]);
    }
  }

  lemma {:induction false} HornerConcat(f: GF, u: seq<nat>, v: seq<nat>, k: int)
    requires SeqIn(f, u)
    ensures Horner(f, u + v, k) == Xor(Mul(f, Horner(f, u, k), E(f, Times(k, |v|))), Horner(f, v, k))
    decreases |v|
  {
    hide Mul, E, Xor, Times;
    var x := Horner(f, u, k);
    if |v| == 0 {
      assert u + v == u;
      TimesZero(k);
      EZero(f);
      HornerBound(f, u, k);
      MulOne(f, x);
      XorZero(x);
    } else {
      var n := |v| - 1;
      HornerConcat(f, u, v[..n], k);
      assert (u + v)[..|u + v| - 1] == u + v[..n];
      ConcatStep(f, x, k, n, Horner(f, v[..n], k), v[n]);
    }
  }

  lemma {:induction false} ConcatStep(f: GF, x: nat, k: int, n: int, y: nat, d: nat)
    ensures Xor(Mul(f, Xor(Mul(f, x, E(f, Times(k, n))), y), E(f, k)), d)
         == Xor(Mul(f, x, E(f, Times(k, n + 1))), Xor(Mul(f, y, E(f, k)), d))
  {
    hide Mul, E, Xor, Times;
    var e := E(f, k);
    MulXor(f, e, Mul(f, x, E(f, Times(k, n))), y);
    MulAssoc(f, x, E(f, Times(k, n)), e);
    MulE(f, Times(k, n), k);
    TimesNext(k, n);
    XorAssoc(Mul(f, x, E(f, Times(k, n + 1))), Mul(f, y, e), d);
  }

  // ----- The generator polynomial.

  /** Coefficient j of the product of (x + alpha^root(t)) over t < i. */
  ghost function GenCoef(f: GF, prim: int, fcr: int, i: nat, j: int): nat {
    if i == 0 then (if j == 0 then 1 else 0)
    else Xor(GenCoef(f, prim, fcr, i - 1, j - 1),
             Mul(f, GenCoef(f, prim, fcr, i - 1, j), E(f, Root(prim, fcr, i - 1))))
  }

  ghost function GenFn(f: GF, prim: int, fcr: int, i: nat): int -> nat { j => GenCoef(f, prim, fcr, i, j) }

  lemma {:induction false} GenShape(f: GF, prim: int, fcr: int, i: nat, j: int)
    ensures GenCoef(f, prim, fcr, i, j) < f.Size()
    ensures j < 0 || j > i ==> GenCoef(f, prim, fcr, i, j) == 0
    ensures j == i ==> GenCoef(f, prim, fcr, i, j) == 1
    decreases i
  {
    hide Mul, E, Xor, Root;
    if i == 0 {
      EZero(f);
      EIn(f, 0);
    } else {
      var r := E(f, Root(prim, fcr, i - 1));
      GenShape(f, prim, fcr, i - 1, j - 1);
      GenShape(f, prim, fcr, i - 1, j);
      MulIn(f, GenCoef(f, prim, fcr, i - 1, j), r);
      XorBound(GenCoef(f, prim, fcr, i - 1, j - 1), Mul(f, GenCoef(f, prim, fcr, i - 1, j), r), f.mm);
      MulZero(f, r);
      XorZero(0);
      XorZero(1);
    }
  }

  /** Adding a factor multiplies every value by (x + root). */
  lemma {:induction false} GenFactor(f: GF, prim: int, fcr: int, i: nat, k: int)
    ensures Ev(f, i + 2, GenFn(f, prim, fcr, i + 1), k)
         == Mul(f, Xor(E(f, k), E(f, Root(prim, fcr, i))), Ev(f, i + 1, GenFn(f, prim, fcr, i), k))
  {
    hide Mul, E, Xor, Root, Ev, GenFn, Combine;
    var g, r := GenFn(f, prim, fcr, i), E(f, Root(prim, fcr, i));
    GenIsCombination(f, prim, fcr, i);
    EvCong(f, i + 2, GenFn(f, prim, fcr, i + 1), Combine(f, ShiftFn(g), r, g), k);
    EvCombine(f, ShiftFn(g), r, g, i + 2, k);
    GenEnds(f, prim, fcr, i);
    EvShift(f, i + 1, g, k);
    EvExtend(f, i + 1, i + 2, g, k);
    MulXor(f, Ev(f, i + 1, g, k), E(f, k), r);
  }

  lemma {:induction false} GenEnds(f: GF, prim: int, fcr: int, i: nat)
    ensures GenFn(f, prim, fcr, i)(-1) == 0 && GenFn(f, prim, fcr, i)(i + 1) == 0
  {
    hide GenCoef;
    GenShape(f, prim, fcr, i, -1);
    GenShape(f, prim, fcr, i, i + 1);
  }

  lemma {:induction false} GenIsCombination(f: GF, prim: int, fcr: int, i: nat)
    ensures var g := GenFn(f, prim, fcr, i);
            forall j | 0 <= j < i + 2 ::
              GenFn(f, prim, fcr, i + 1)(j) == Combine(f, ShiftFn(g), E(f, Root(prim, fcr, i)), g)(j)
  {
    hide Mul, E, Xor, Root;
    var r := E(f, Root(prim, fcr, i));
    forall j | 0 <= j < i + 2
      ensures GenFn(f, prim, fcr, i + 1)(j) == Combine(f, ShiftFn(GenFn(f, prim, fcr, i)), r, GenFn(f, prim, fcr, i))(j)
    {
      MulComm(f, GenCoef(f, prim, fcr, i, j), r);
    }
  }

  lemma {:induction false} GenRoots(f: GF, prim: int, fcr: int, i: nat, t: int)
    requires 0 <= t < i
    ensures Ev(f, i + 1, GenFn(f, prim, fcr, i), Root(prim, fcr, t)) == 0 && Root(prim, fcr, t) == prim * (fcr + t)
    decreases i
  {
    hide Mul, E, Xor, Root, Ev;
    RootIs(prim, fcr, t);
    var k := Root(prim, fcr, t);
    GenFactor(f, prim, fcr, i - 1, k);
    XorSelf(E(f, k));
    MulZero(f, Ev(f, i, GenFn(f, prim, fcr, i - 1), k));
    MulZero(f, Xor(E(f, k), E(f, Root(prim, fcr, i - 1))));
    if t < i - 1 { GenRoots(f, prim, fcr, i - 1, t); }
  }

  ghost function Multiples(prim: int): int -> int { j => Times(prim, j) }

  lemma {:induction false} EvIsPowerSum(f: GF, n: int, p: int -> nat, prim: int, m: int)
    ensures Ev(f, n, p, Times(prim, m)) == PowerSum(f, n, p, Multiples(prim), m)
  {
    hide Mul, E, Xor;
    forall j | 0 <= j < n
      ensures EvTerm(f, p, Times(prim, m))(j) == PowerTerm(f, p, Multiples(prim), m)(j)
    {
      TimesTwice(prim, m, j);
    }
    hide Times;
    SumCong(n, EvTerm(f, p, Times(prim, m)), PowerTerm(f, p, Multiples(prim), m));
  }

  lemma {:induction false} TimesTwice(prim: int, m: int, j: int)
    ensures Times(Times(prim, m), j) == Times(Times(prim, j), m)
  {
    hide Times;
    TimesIs(prim, m);
    TimesIs(prim, j);
    TimesIs(prim * m, j);
    TimesIs(prim * j, m);
    assert prim * m * j == prim * j * m;
  }

  lemma {:induction false} MultiplesOnSet(f: GF, prim: int, iprim: int, s: set<int>)
    requires PrimInverse(f.NN(), prim, iprim) && forall x | x in s :: 0 <= x < f.NN()
    ensures DistinctOn(f, s, Multiples(prim))
  {
    hide E, PrimInverse, Times;
    var a := Multiples(prim);
    forall x, y | x in s && y in s && x != y ensures E(f, a(x)) != E(f, a(y)) {
      PrimDistinct(f, prim, iprim, x, y);
    }
  }

  lemma {:induction false} GenPowerSum(f: GF, prim: int, fcr: int, i: nat, m: int)
    requires fcr <= m < fcr + i
    ensures PowerSum(f, i + 1, GenFn(f, prim, fcr, i), Multiples(prim), m) == 0
  {
    hide E, Mul, Times, PowerSum, Ev, GenFn;
    GenRoots(f, prim, fcr, i, m - fcr);
    EvIsPowerSum(f, i + 1, GenFn(f, prim, fcr, i), prim, m);
  }

  lemma {:induction false} GenSupport(f: GF, prim: int, fcr: int, i: nat, j: int, s: set<int>)
    requires GenCoef(f, prim, fcr, i, j) == 0 && forall x :: x in s <==> 0 <= x <= i && x != j
    ensures SupportedOn(f, i + 1, GenFn(f, prim, fcr, i), s)
  {
    hide E, Mul, GenCoef;
    forall x | 0 <= x < i + 1 ensures GenFn(f, prim, fcr, i)(x) < f.Size() { GenShape(f, prim, fcr, i, x); }
  }

  /** A zero coefficient would leave fewer terms than consecutive roots, so all would be zero. */
  lemma {:induction false} GenVanishes(f: GF, prim: int, iprim: int, fcr: int, i: nat, j: int)
    requires PrimInverse(f.NN(), prim, iprim) && i < f.NN() && 0 <= j <= i
    requires GenCoef(f, prim, fcr, i, j) == 0
    ensures GenCoef(f, prim, fcr, i, i) == 0
  {
    hide Mul, E, GenCoef, PrimInverse, PowerSum, SupportedOn, DistinctOn;
    var s := OthersUpTo(i, j);
    MultiplesOnSet(f, prim, iprim, s);
    GenSupport(f, prim, fcr, i, j, s);
    var n, g, a := i + 1, GenFn(f, prim, fcr, i), Multiples(prim);
    forall m | fcr <= m < fcr + |s| ensures PowerSum(f, n, g, a, m) == 0 { GenPowerSum(f, prim, fcr, i, m); }
    SparseVandermonde(f, n, g, a, s, fcr);
    assert g(i) == 0;
  }

  /** No coefficient of the generator is zero. */
  lemma {:induction false} GenNonzero(f: GF, prim: int, iprim: int, fcr: int, i: nat, j: int)
    requires PrimInverse(f.NN(), prim, iprim) && i < f.NN() && 0 <= j <= i
    ensures GenCoef(f, prim, fcr, i, j) != 0
  {
    hide GenCoef, PrimInverse;
    GenShape(f, prim, fcr, i, i);
    if GenCoef(f, prim, fcr, i, j) == 0 { GenVanishes(f, prim, iprim, fcr, i, j); }
  }

  lemma {:induction false} OthersUpTo(i: nat, j: int) returns (s: set<int>)
    requires 0 <= j <= i
    ensures |s| == i && forall x :: x in s <==> 0 <= x <= i && x != j
  {
    var all := Interval(0, i + 1);
    s := all - {j};
  }
}
