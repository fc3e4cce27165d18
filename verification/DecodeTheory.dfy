/** From a received word near a codeword to an error pattern, and back to the codeword. */
module DecodeTheory {
  import opened Bits
  import opened Sequences
  import opened Sets
  import opened GaloisField
  import opened FieldSums
  import opened BerlekampMassey
  import opened ErrorLocator
  import opened ErrorValues
  import opened CodeTheory

  // ----- Equal points.

  lemma {:induction false} SamePoint(f: GF, k: int, l: int, i: int)
    requires E(f, k) == E(f, l)
    ensures E(f, Times(k, i)) == E(f, Times(l, i))
  {
    EDistinct(f, k, l);
    EDistinct(f, Times(k, i), Times(l, i));
    hide E;
    NNPositive(f);
    MultipleOfMultiple(k, l, i, f.NN());
  }

  lemma {:induction false} MultipleOfMultiple(k: int, l: int, i: int, n: int)
    requires n >= 1 && (k - l) % n == 0
    ensures (Times(k, i) - Times(l, i)) % n == 0
  {
    hide Times;
    TimesIs(k, i);
    TimesIs(l, i);
    ExactQuotient(k - l, n);
    var q := (k - l) / n;
    assert k * i - l * i == (k - l) * i;
    assert n * q * i == n * (q * i);
    DivModUnique(k * i - l * i, n, q * i, 0);
  }

  lemma {:induction false} EvSamePoint(f: GF, n: int, p: int -> nat, k: int, l: int)
    requires E(f, k) == E(f, l)
    ensures Ev(f, n, p, k) == Ev(f, n, p, l)
  {
    hide E, Mul, Times, Xor;
    forall i | 0 <= i < n ensures EvTerm(f, p, k)(i) == EvTerm(f, p, l)(i) { SamePoint(f, k, l, i); }
    SumCong(n, EvTerm(f, p, k), EvTerm(f, p, l));
  }

  lemma {:induction false} DerivSamePoint(f: GF, n: int, p: int -> nat, k: int, l: int)
    requires E(f, k) == E(f, l)
    ensures Deriv(f, n, p, k) == Deriv(f, n, p, l)
  {
    hide E, Mul, Times, Xor;
    forall i | 0 <= i < n ensures DerivTerm(f, p, k)(i) == DerivTerm(f, p, l)(i) { SamePoint(f, k, l, i - 1); }
    SumCong(n, DerivTerm(f, p, k), DerivTerm(f, p, l));
  }

  // ----- Received words.

  /** The difference from codeword c at padded position p; positions inside the pad carry no error. */
  ghost function ErrorAt(w: seq<nat>, c: seq<nat>, pad: int, p: int): nat
    requires |w| == |c|
  {
    if 0 <= p - pad < |w| then Xor(w[p - pad], c[p - pad]) else 0
  }

  /** The error values seen by the syndromes: each error scaled by its location to the fcr. */
  ghost function ErrFn(f: GF, prim: int, fcr: int, w: seq<nat>, c: seq<nat>, pad: int): int -> nat
    requires |w| == |c|
  {
    p => Mul(f, ErrorAt(w, c, pad, p), E(f, Times(Location(f.NN(), prim)(p), fcr)))
  }

  lemma {:induction false} ErrTerm(f: GF, prim: int, fcr: int, t: int, y: int, x: nat)
    ensures Mul(f, Mul(f, x, E(f, Times(Times(prim, y), fcr))), E(f, Times(Times(prim, y), t)))
         == Mul(f, x, E(f, Times(Root(prim, fcr, t), y)))
  {
    hide E, Mul;
    TimesSum(prim, fcr, t, y);
    hide Times, Root;
    MulAssoc(f, x, E(f, Times(Times(prim, y), fcr)), E(f, Times(Times(prim, y), t)));
    MulE(f, Times(Times(prim, y), fcr), Times(Times(prim, y), t));
  }

  lemma {:induction false} TimesSum(prim: int, fcr: int, t: int, y: int)
    ensures Times(Times(prim, y), fcr) + Times(Times(prim, y), t) == Times(Root(prim, fcr, t), y)
  {
    hide Times;
    TimesIs(prim, y);
    TimesIs(prim * y, fcr);
    TimesIs(prim * y, t);
    TimesIs(prim, fcr + t);
    TimesIs(prim * (fcr + t), y);
    assert prim * y * fcr + prim * y * t == prim * y * (fcr + t);
    assert prim * y * (fcr + t) == prim * (fcr + t) * y;
  }

  lemma {:induction false} ReversedTerm(f: GF, prim: int, fcr: int, t: int, w: seq<nat>, c: seq<nat>, pad: int, i: int)
    requires |w| == |c| && |w| + pad == f.NN() && 0 <= i < f.NN() && pad >= 0
    ensures PowerTerm(f, ErrFn(f, prim, fcr, w, c, pad), Location(f.NN(), prim), t)(f.NN() - 1 - i)
         == if i < |w| then EvTerm(f, RevFn(XorSeq(w, c)), Root(prim, fcr, t))(i) else 0
  {
    hide E, Mul, Xor, Root, Times;
    var n := f.NN();
    var p := n - 1 - i;
    assert n - 1 - p == i;
    ErrTerm(f, prim, fcr, t, i, ErrorAt(w, c, pad, p));
    if i < |w| {
      var x := XorSeq(w, c);
      assert RevFn(x)(i) == At(x, |x| - 1 - i);
      assert p - pad == |x| - 1 - i;
    } else {
      MulZero(f, E(f, Times(Root(prim, fcr, t), i)));
    }
  }

  /** Syndrome t of a word is the power sum of its differences from any codeword. */
  lemma {:induction false} SyndromeIsPowerSum(f: GF, prim: int, fcr: int, nroots: int, t: int, w: seq<nat>, c: seq<nat>, pad: int)
    requires |w| == |c| && |w| + pad == f.NN() && pad >= 0 && SeqIn(f, w) && SeqIn(f, c)
    requires IsCodeword(f, prim, fcr, nroots, c) && 0 <= t < nroots
    ensures Horner(f, w, Root(prim, fcr, t))
         == PowerSum(f, f.NN(), ErrFn(f, prim, fcr, w, c, pad), Location(f.NN(), prim), t)
  {
    hide E, Mul, Xor, Root, Times, Horner, XorSeq, ErrFn, Ev, RevFn, PowerSum;
    HornerDifference(f, w, c, Root(prim, fcr, t));
    DifferenceSum(f, prim, fcr, t, w, c, pad);
  }

  lemma {:induction false} HornerDifference(f: GF, w: seq<nat>, c: seq<nat>, k: int)
    requires |w| == |c| && SeqIn(f, w) && SeqIn(f, c) && Horner(f, c, k) == 0
    ensures Horner(f, w, k) == Ev(f, |w|, RevFn(XorSeq(w, c)), k)
  {
    hide E, Mul, Xor, Horner, XorSeq, Ev, RevFn;
    HornerXor(f, w, c, k);
    XorZero(Horner(f, w, k));
    XorSeqIn(f, w, c);
    HornerIsEv(f, XorSeq(w, c), k);
  }

  lemma {:induction false} DifferenceSum(f: GF, prim: int, fcr: int, t: int, w: seq<nat>, c: seq<nat>, pad: int)
    requires |w| == |c| && |w| + pad == f.NN() && pad >= 0
    ensures Ev(f, |w|, RevFn(XorSeq(w, c)), Root(prim, fcr, t))
         == PowerSum(f, f.NN(), ErrFn(f, prim, fcr, w, c, pad), Location(f.NN(), prim), t)
  {
    hide E, Mul, Xor, Root, Times, XorSeq, ErrFn, EvTerm, RevFn, PowerTerm, Location;
    var n := f.NN();
    var g := PowerTerm(f, ErrFn(f, prim, fcr, w, c, pad), Location(n, prim), t);
    var e := EvTerm(f, RevFn(XorSeq(w, c)), Root(prim, fcr, t));
    var h := i => g(n - 1 - i);
    forall i | 0 <= i < n ensures h(i) == if i < |w| then e(i) else 0 {
      ReversedTerm(f, prim, fcr, t, w, c, pad, i);
    }
    SumReverse(n, g, h);
    SumExtend(|w|, n, h);
    SumCong(|w|, h, e);
  }

  lemma {:induction false} XorSeqIn(f: GF, w: seq<nat>, c: seq<nat>)
    requires |w| == |c| && SeqIn(f, w) && SeqIn(f, c)
    ensures |XorSeq(w, c)| == |w| && SeqIn(f, XorSeq(w, c))
  {
    hide Xor;
    forall i | 0 <= i < |w| ensures XorSeq(w, c)[i] < f.Size() { XorBound(w[i], c[i], f.mm); }
  }

  // ----- Erasures.

  /** The locator of the erased positions, multiplied together one by one. */
  ghost function Gamma(f: GF, prim: int, nroots: nat, eras: seq<int>): seq<nat> {
    if |eras| == 0 then [1] + seq(nroots, (i: int) => 0)
    else
      var g := Gamma(f, prim, nroots, eras[..|eras| - 1]);
      AddShifted(f, g, E(f, Location(f.NN(), prim)(eras[|eras| - 1])), g)
  }

  lemma {:induction false} GammaShape(f: GF, prim: int, nroots: nat, eras: seq<int>)
    ensures |Gamma(f, prim, nroots, eras)| == nroots + 1 && SeqIn(f, Gamma(f, prim, nroots, eras))
    ensures Gamma(f, prim, nroots, eras)[0] == 1
    ensures DegreeAtMost(Gamma(f, prim, nroots, eras), |eras|)
    decreases |eras|
  {
    hide E, Mul, Xor, AddShifted, Location;
    if |eras| == 0 {
      OneBelow(f);
    } else {
      var m := |eras| - 1;
      var g := Gamma(f, prim, nroots, eras[..m]);
      GammaShape(f, prim, nroots, eras[..m]);
      AddShiftedShape(f, g, E(f, Location(f.NN(), prim)(eras[m])), g, m, m);
    }
  }

  lemma {:induction false} OneBelow(f: GF)
    ensures 1 < f.Size()
  {
    hide E;
    EZero(f);
    EIn(f, 0);
  }

  /** Multiplying in the factor 1 + alpha^x z adds a root at alpha^-x and keeps the others. */
  lemma {:induction false} FactorRoots(f: GF, g: seq<nat>, x: int, k: int)
    requires |g| >= 1 && g[|g| - 1] == 0
    requires Ev(f, |g|, Fn(g), k) == 0 || k == -x
    ensures Ev(f, |g|, Fn(AddShifted(f, g, E(f, x), g)), k) == 0
  {
    hide E, Mul, Xor, Ev, AddShifted;
    if k == -x {
      FactorValue(f, g, x, k);
      EInverse(f, x);
      EvBound(f, |g|, Fn(g), k);
      MulOne(f, Ev(f, |g|, Fn(g), k));
      XorSelf(Ev(f, |g|, Fn(g), k));
    } else {
      CombineVanishes(f, g, E(f, x), g, k);
    }
  }

  lemma {:induction false} FactorValue(f: GF, g: seq<nat>, x: int, k: int)
    requires |g| >= 1 && g[|g| - 1] == 0
    ensures Ev(f, |g|, Fn(AddShifted(f, g, E(f, x), g)), k)
         == Xor(Ev(f, |g|, Fn(g), k), Mul(f, Mul(f, E(f, x), E(f, k)), Ev(f, |g|, Fn(g), k)))
  {
    hide E, Mul, Xor, Ev;
    var n, u := |g|, E(f, x);
    EvCombine(f, Fn(g), u, ShiftFn(Fn(g)), n, k);
    EvCong(f, n, Fn(AddShifted(f, g, u, g)), Combine(f, Fn(g), u, ShiftFn(Fn(g))), k);
    EvShift(f, n - 1, Fn(g), k);
    EvExtend(f, n - 1, n, Fn(g), k);
    MulAssoc(f, u, E(f, k), Ev(f, n, Fn(g), k));
  }

  lemma {:induction false} GammaRoots(f: GF, prim: int, nroots: nat, eras: seq<int>, p: int)
    requires |eras| <= nroots && p in eras
    ensures Ev(f, nroots + 1, Fn(Gamma(f, prim, nroots, eras)), -Location(f.NN(), prim)(p)) == 0
    decreases |eras|
  {
    hide E, Mul, Xor, AddShifted, Location, Ev;
    var m := |eras| - 1;
    var g := Gamma(f, prim, nroots, eras[..m]);
    GammaShape(f, prim, nroots, eras[..m]);
    if p != eras[m] {
      assert p in eras[..m];
      GammaRoots(f, prim, nroots, eras[..m], p);
    }
    FactorRoots(f, g, Location(f.NN(), prim)(eras[m]), -Location(f.NN(), prim)(p));
  }

  // ----- Correctable words.

  /** The wrong positions that are not declared erased. */
  ghost function Errors(w: seq<nat>, c: seq<nat>, pad: int, eras: seq<int>): (s: set<int>)
    requires |w| == |c|
  {
    set p | pad <= p < pad + |w| && w[p - pad] != c[p - pad] && p !in eras
  }

  /** c is a codeword and w differs from it in few enough places: twice the errors plus the erasures
      do not exceed the number of roots. */
  ghost predicate Correctable(f: GF, prim: int, fcr: int, nroots: int, pad: int, w: seq<nat>, c: seq<nat>, eras: seq<int>) {
    && |w| == |c| && |w| + pad == f.NN() && pad >= 0
    && SeqIn(f, w) && SeqIn(f, c)
    && IsCodeword(f, prim, fcr, nroots, c)
    && (forall i | 0 <= i < |eras| :: 0 <= eras[i] < f.NN()) && Distinct(eras)
    && 2 * |Errors(w, c, pad, eras)| + |eras| <= nroots
  }

  lemma {:induction false} ErrFnValues(f: GF, prim: int, fcr: int, w: seq<nat>, c: seq<nat>, pad: int, p: int)
    requires |w| == |c| && |w| + pad == f.NN() && pad >= 0 && 0 <= p < f.NN() && SeqIn(f, w) && SeqIn(f, c)
    ensures ErrorAt(w, c, pad, p) < f.Size()
    ensures ErrFn(f, prim, fcr, w, c, pad)(p) < f.Size()
    ensures ErrFn(f, prim, fcr, w, c, pad)(p) == 0 <==> ErrorAt(w, c, pad, p) == 0
    ensures ErrorAt(w, c, pad, p) == 0 <==> (p >= pad ==> w[p - pad] == c[p - pad])
  {
    hide E, Mul, Xor, Times, Location;
    var x, e := ErrorAt(w, c, pad, p), E(f, Times(Location(f.NN(), prim)(p), fcr));
    if p >= pad {
      XorBound(w[p - pad], c[p - pad], f.mm);
      XorCancel(w[p - pad], c[p - pad]);
    } else {
      OneBelow(f);
    }
    MulIn(f, x, e);
    EIn(f, Times(Location(f.NN(), prim)(p), fcr));
    MulZero(f, e);
    if Mul(f, x, e) == 0 { ProductZero(f, x, e); }
  }

  ghost function ToSet(s: seq<int>): set<int> { set i | 0 <= i < |s| :: s[i] }

  lemma {:induction false} ToSetCard(s: seq<int>)
    requires Distinct(s)
    ensures |ToSet(s)| == |s|
  {
    if |s| > 0 {
      var t := s[..|s| - 1];
      ToSetCard(t);
      assert ToSet(s) == ToSet(t) + {s[|s| - 1]};
    }
  }

  ghost predicate SyndromesOf(f: GF, prim: int, fcr: int, w: seq<nat>, s: seq<nat>) {
    forall t | 0 <= t < |s| :: s[t] == Horner(f, w, Root(prim, fcr, t))
  }

  /** A correctable word is an error pattern in the sense of the iteration. */
  lemma {:induction false} CorrectablePattern(f: GF, prim: int, iprim: int, fcr: int, pad: int, w: seq<nat>, c: seq<nat>,
                             eras: seq<int>, s: seq<nat>)
    requires PrimInverse(f.NN(), prim, iprim) && Correctable(f, prim, fcr, |s|, pad, w, c, eras)
    requires SyndromesOf(f, prim, fcr, w, s)
    ensures Starting(f, s, |eras|, Gamma(f, prim, |s|, eras))
    ensures Pattern(f, s, f.NN(), ErrFn(f, prim, fcr, w, c, pad), Location(f.NN(), prim),
                    Errors(w, c, pad, eras), ToSet(eras), Gamma(f, prim, |s|, eras))
    ensures |ToSet(eras)| == |eras|
  {
    hide E, Mul, Xor, Location, ErrFn, Horner, Root, Ev, Gamma, PowerSum, PrimInverse, IsCodeword, AllDistinct, ErrorAt;
    var n, e, a, g := f.NN(), ErrFn(f, prim, fcr, w, c, pad), Location(f.NN(), prim), Gamma(f, prim, |s|, eras);
    GammaShape(f, prim, |s|, eras);
    ToSetCard(eras);
    LocationsDistinct(f, prim, iprim);
    forall t | 0 <= t < |s| ensures s[t] == PowerSum(f, n, e, a, t) {
      SyndromeIsPowerSum(f, prim, fcr, |s|, t, w, c, pad);
    }
    forall p | 0 <= p < n
      ensures e(p) < f.Size()
      ensures e(p) == 0 <==> (p >= pad ==> w[p - pad] == c[p - pad])
    {
      ErrFnValues(f, prim, fcr, w, c, pad, p);
    }
    forall p | p in ToSet(eras) ensures 0 <= p < n && Ev(f, |g|, Fn(g), -a(p)) == 0 {
      GammaRoots(f, prim, |s|, eras, p);
    }
  }

  lemma {:induction false} ErrataSize(w: seq<nat>, c: seq<nat>, pad: int, eras: seq<int>) returns (u: set<int>)
    requires |w| == |c| && Distinct(eras)
    ensures |u| == |Errors(w, c, pad, eras)| + |eras|
    ensures forall p :: p in u <==> p in Errors(w, c, pad, eras) || p in ToSet(eras)
    ensures u == Errors(w, c, pad, eras) + ToSet(eras)
  {
    ToSetCard(eras);
    u := Errors(w, c, pad, eras) + ToSet(eras);
  }

  /** All syndromes zero: the correctable word already is the codeword. */
  lemma {:induction false} ZeroSyndromes(f: GF, prim: int, iprim: int, fcr: int, pad: int, w: seq<nat>, c: seq<nat>,
                        eras: seq<int>, s: seq<nat>)
    requires PrimInverse(f.NN(), prim, iprim) && Correctable(f, prim, fcr, |s|, pad, w, c, eras)
    requires SyndromesOf(f, prim, fcr, w, s) && forall t | 0 <= t < |s| :: s[t] == 0
    ensures w == c
  {
    hide E, Mul, Xor, Location, ErrFn, Horner, Root, PowerSum, PrimInverse, Gamma, ErrorAt, SupportedOn, DistinctOn, Pattern,
         Starting, SyndromesOf, Errors, ToSet, Distinct, IsCodeword;
    var n, e, a := f.NN(), ErrFn(f, prim, fcr, w, c, pad), Location(f.NN(), prim);
    CorrectablePattern(f, prim, iprim, fcr, pad, w, c, eras, s);
    var u := ErrataSize(w, c, pad, eras);
    ErrataSupport(f, s, n, e, a, Errors(w, c, pad, eras), ToSet(eras), Gamma(f, prim, |s|, eras), u);
    SparseVandermonde(f, n, e, a, u, 0);
    NoErrors(f, prim, fcr, w, c, pad);
  }

  lemma {:induction false} NoErrors(f: GF, prim: int, fcr: int, w: seq<nat>, c: seq<nat>, pad: int)
    requires |w| == |c| && |w| + pad == f.NN() && pad >= 0 && SeqIn(f, w) && SeqIn(f, c)
    requires forall p | 0 <= p < f.NN() :: ErrFn(f, prim, fcr, w, c, pad)(p) == 0
    ensures w == c
  {
    hide E, Mul, Xor, ErrFn, ErrorAt;
    forall i | 0 <= i < |w| ensures w[i] == c[i] {
      ErrFnValues(f, prim, fcr, w, c, pad, i + pad);
      assert ErrFn(f, prim, fcr, w, c, pad)(i + pad) == 0;
    }
  }

  lemma {:induction false} ErrataSupport(f: GF, s: seq<nat>, n: int, c: int -> nat, a: int -> int,
                        errs: set<int>, eras: set<int>, gamma: seq<nat>, u: set<int>)
    requires Pattern(f, s, n, c, a, errs, eras, gamma)
    requires forall p :: p in u <==> p in errs || p in eras
    requires forall t | 0 <= t < |s| :: s[t] == 0
    ensures SupportedOn(f, n, c, u) && DistinctOn(f, u, a)
    ensures forall m | 0 <= m < |s| :: PowerSum(f, n, c, a, m) == 0
  {
    hide E, Mul, PowerSum, AllDistinct, DistinctOn, Ev;
    DistinctSubset(f, n, a, u);
  }

  // ----- The search for roots.

  /** The position the search derives from root index i. */
  ghost function LocOf(nn: int, iprim: int, i: int): int
    requires nn >= 1
  {
    (iprim * i - 1) % nn
  }

  lemma {:induction false} LocOfRoot(f: GF, prim: int, iprim: int, i: int)
    requires PrimInverse(f.NN(), prim, iprim)
    ensures 0 <= LocOf(f.NN(), iprim, i) < f.NN()
    ensures E(f, i) == E(f, -Location(f.NN(), prim)(LocOf(f.NN(), iprim, i)))
  {
    hide E;
    var n := f.NN();
    var p := LocOf(n, iprim, i);
    var q, t := (iprim * i - 1) / n, (prim * iprim - 1) / n;
    ExactQuotient(prim * iprim - 1, n);
    LocArithmetic(n, prim, iprim, i, p, q, t);
    EPeriod(f, -Times(prim, n - 1 - p), prim * (1 + q) - t * i);
  }

  lemma {:induction false} LocArithmetic(n: int, prim: int, iprim: int, i: int, p: int, q: int, t: int)
    requires iprim * i - 1 == n * q + p && prim * iprim - 1 == n * t
    ensures i == -Times(prim, n - 1 - p) + n * (prim * (1 + q) - t * i)
  {
    hide Times;
    TimesIs(prim, n - 1 - p);
    calc {
      -Times(prim, n - 1 - p) + n * (prim * (1 + q) - t * i);
      -(prim * (n - 1 - p)) + n * (prim * (1 + q)) - n * (t * i);
      { assert n * (prim * (1 + q)) == prim * (n * (1 + q)); assert n * (t * i) == n * t * i; }
      prim * (n * (1 + q)) - prim * (n - 1 - p) - n * t * i;
      prim * (n * (1 + q) - (n - 1 - p)) - n * t * i;
      { assert n * (1 + q) == n + n * q; }
      prim * (n * q + 1 + p) - n * t * i;
      prim * (iprim * i) - (prim * iprim - 1) * i;
      { assert prim * (iprim * i) == prim * iprim * i; }
      i;
    }
  }

  /** Root indices between 1 and nn with their positions, in the order the search meets them; if the
      list is shorter than the degree, no root is missing. */
  ghost predicate Searched(f: GF, lam: int -> nat, deg: int, iprim: int, root: seq<int>, loc: seq<int>) {
    && f.NN() >= 1
    && |root| == |loc| <= deg
    && (forall j | 0 <= j < |root| ::
          && 1 <= root[j] <= f.NN()
          && Ev(f, deg + 1, lam, root[j]) == 0
          && loc[j] == LocOf(f.NN(), iprim, root[j]))
    && (forall i, j | 0 <= i < j < |root| :: root[i] < root[j])
    && (|root| < deg ==> forall i | 1 <= i <= f.NN() && Ev(f, deg + 1, lam, i) == 0 :: i in root)
  }

  lemma {:induction false} FoundLocation(f: GF, lam: int -> nat, prim: int, iprim: int, u: set<int>, r: int)
    requires PrimInverse(f.NN(), prim, iprim) && Locates(f, lam, |u|, Location(f.NN(), prim), u)
    requires forall p | p in u :: 0 <= p < f.NN()
    requires Ev(f, |u| + 1, lam, r) == 0
    ensures LocOf(f.NN(), iprim, r) in u
    ensures E(f, r) == E(f, -Location(f.NN(), prim)(LocOf(f.NN(), iprim, r)))
  {
    hide E, Mul, Ev, Location, LocOf, PrimInverse;
    var n, a := f.NN(), Location(f.NN(), prim);
    LocOfRoot(f, prim, iprim, r);
    assert RootAmong(f, r, a, u);
    var p :| p in u && E(f, r) == E(f, -a(p));
    if p != LocOf(n, iprim, r) {
      LocationsDistinct(f, prim, iprim);
      LocationsDiffer(f, n, a, p, LocOf(n, iprim, r));
      PositiveDistinct(f, a(p), a(LocOf(n, iprim, r)));
    }
  }

  lemma {:induction false} PositiveDistinct(f: GF, x: int, y: int)
    requires E(f, x) != E(f, y)
    ensures E(f, -x) != E(f, -y)
  {
    assert -(-x) == x && -(-y) == y;
    hide E;
    if E(f, -x) == E(f, -y) {
      SamePoint(f, -x, -y, -1);
      NegatedTimes(x);
      NegatedTimes(y);
    }
  }

  lemma {:induction false} NegatedTimes(x: int)
    ensures Times(-x, -1) == x
  {
  }

  /** Every located position comes from a root index in range. */
  lemma {:induction false} IndexOfLocation(f: GF, prim: int, iprim: int, p: int) returns (r: int)
    requires PrimInverse(f.NN(), prim, iprim) && 0 <= p < f.NN()
    ensures 1 <= r <= f.NN() && E(f, r) == E(f, -Location(f.NN(), prim)(p))
  {
    hide E;
    var n := f.NN();
    var k := -Location(n, prim)(p);
    r := if k % n == 0 then n else k % n;
    if k % n == 0 {
      EPeriod(f, k, 1 - k / n);
      ExactQuotient(k, n);
      assert k + n * (1 - k / n) == n by { assert n * (1 - k / n) == n - n * (k / n); }
    } else {
      EPeriod(f, k, -(k / n));
      assert k + n * -(k / n) == k % n;
    }
  }

  lemma {:induction false} LocationListed(f: GF, lam: int -> nat, prim: int, iprim: int, u: set<int>,
                         root: seq<int>, loc: seq<int>, p: int)
    requires PrimInverse(f.NN(), prim, iprim) && Locates(f, lam, |u|, Location(f.NN(), prim), u)
    requires forall p | p in u :: 0 <= p < f.NN()
    requires Searched(f, lam, |u|, iprim, root, loc) && |root| < |u| && p in u
    ensures p in loc
  {
    hide E, Mul, Ev, Location, LocOf, PrimInverse, RootAmong;
    var n, a := f.NN(), Location(f.NN(), prim);
    var r := IndexOfLocation(f, prim, iprim, p);
    EvSamePoint(f, |u| + 1, lam, r, -a(p));
    assert r in root;
    FoundLocation(f, lam, prim, iprim, u, r);
    var j :| 0 <= j < |root| && root[j] == r;
    if p != loc[j] {
      LocationsDistinct(f, prim, iprim);
      LocationsDiffer(f, n, a, p, loc[j]);
      PositiveDistinct(f, a(p), a(loc[j]));
    }
  }

  lemma {:induction false} ListTooShort(u: set<int>, s: seq<int>)
    requires |s| < |u|
    ensures exists p :: p in u && p !in s
  {
    if forall p | p in u :: p in s {
      SeqSetCard(s);
      SubsetSmaller(u, set p | p in s);
    }
  }

  lemma {:induction false} SeqSetCard(s: seq<int>)
    ensures |set p | p in s| <= |s|
  {
    if |s| > 0 {
      var t := s[..|s| - 1];
      SeqSetCard(t);
      assert (set p | p in s) == (set p | p in t) + {s[|s| - 1]};
    }
  }

  /** The search over a correct locator finds all its roots, at exactly the positions in error. */
  lemma {:induction false} SearchExact(f: GF, lam: int -> nat, prim: int, iprim: int, u: set<int>, root: seq<int>, loc: seq<int>)
    requires PrimInverse(f.NN(), prim, iprim) && Locates(f, lam, |u|, Location(f.NN(), prim), u)
    requires forall p | p in u :: 0 <= p < f.NN()
    requires Searched(f, lam, |u|, iprim, root, loc)
    ensures |root| == |loc| == |u| && Distinct(loc) && ToSet(loc) == u
    ensures forall j | 0 <= j < |root| :: E(f, root[j]) == E(f, -Location(f.NN(), prim)(loc[j]))
  {
    hide E, Mul, Ev, Location, LocOf, PrimInverse, Locates;
    forall j | 0 <= j < |root|
      ensures loc[j] in u && E(f, root[j]) == E(f, -Location(f.NN(), prim)(loc[j]))
    {
      FoundLocation(f, lam, prim, iprim, u, root[j]);
    }
    if |loc| < |u| {
      ListTooShort(u, loc);
      var p :| p in u && p !in loc;
      LocationListed(f, lam, prim, iprim, u, root, loc, p);
    }
    DistinctLocations(f, root, loc, Location(f.NN(), prim));
    ToSetCard(loc);
    SubsetOfSameSize(ToSet(loc), u);
  }

  lemma {:induction false} DistinctLocations(f: GF, root: seq<int>, loc: seq<int>, a: int -> int)
    requires f.NN() >= 1 && |root| == |loc|
    requires forall i, j | 0 <= i < j < |root| :: root[i] < root[j]
    requires forall j | 0 <= j < |root| :: 1 <= root[j] <= f.NN() && E(f, root[j]) == E(f, -a(loc[j]))
    ensures Distinct(loc)
  {
    hide E;
    forall i, j | 0 <= i < j < |loc| ensures loc[i] != loc[j] {
      assert root[i] < root[j];
      if loc[i] == loc[j] { DistinctIndices(f, root[i], root[j]); }
    }
  }

  lemma {:induction false} DistinctIndices(f: GF, x: int, y: int)
    requires 1 <= x < y <= f.NN()
    ensures E(f, x) != E(f, y)
  {
    EDistinct(f, x, y);
    hide E;
    if (x - y) % f.NN() == 0 { SmallMultipleOf(x - y, f.NN()); }
  }

  // ----- Applying the corrections.

  /** The value the decoder adds for root index r: the evaluator over the derivative, scaled. */
  ghost function Correction(f: GF, lam: int -> nat, s: seq<nat>, deg: int, fcr: int, r: int): nat {
    var num1 := Ev(f, deg, Omega(f, lam, s), r);
    var den := Deriv(f, deg + 1, lam, r);
    if num1 == 0 then 0
    else Mul(f, Mul(f, num1, E(f, Times(r, fcr - 1))), if 0 < den < f.Size() then Inv(f, den) else 1)
  }

  lemma {:induction false} CorrectionIsError(f: GF, n: int, lam: int -> nat, s: seq<nat>, c: int -> nat, a: int -> int,
                            u: set<int>, q: int, e: nat, fcr: int, r: int)
    requires Explains(f, s, n, c, a) && |u| <= |s| && Locates(f, lam, |u|, a, u)
    requires AllDistinct(f, n, a) && q in u && forall p | p in u :: 0 <= p < n
    requires forall p | 0 <= p < n && c(p) != 0 :: p in u
    requires e < f.Size() && c(q) == Mul(f, e, E(f, Times(a(q), fcr)))
    requires E(f, r) == E(f, -a(q))
    ensures Correction(f, lam, s, |u|, fcr, r) == e
  {
    hide E, Mul, Ev, Deriv, Omega, Times, Inv, Explains, Locates, AllDistinct;
    ForneyCorrect(f, n, lam, s, c, a, u, q, e, fcr);
    EvSamePoint(f, |u|, Omega(f, lam, s), r, -a(q));
    DerivSamePoint(f, |u| + 1, lam, r, -a(q));
    SamePoint(f, r, -a(q), fcr - 1);
  }

  /** One correction, dropped when it lands in the pad. */
  ghost function Correct(w: seq<nat>, pad: int, p: int, e: nat): (r: seq<nat>)
    ensures |r| == |w|
  {
    if 0 <= p - pad < |w| then w[p - pad := Xor(w[p - pad], e)] else w
  }

  /** The corrections k, ..., |loc| - 1 applied, the last first. */
  ghost function Apply(f: GF, lam: int -> nat, s: seq<nat>, deg: int, fcr: int, pad: int,
                 w: seq<nat>, root: seq<int>, loc: seq<int>, k: int): (r: seq<nat>)
    requires 0 <= k && |root| == |loc|
    ensures |r| == |w|
    decreases |loc| - k
  {
    if k >= |loc| then w
    else
      Correct(Apply(f, lam, s, deg, fcr, pad, w, root, loc, k + 1), pad, loc[k], Correction(f, lam, s, deg, fcr, root[k]))
  }

  lemma {:induction false} ApplyRestores(f: GF, lam: int -> nat, s: seq<nat>, deg: int, fcr: int, pad: int,
                        w: seq<nat>, c: seq<nat>, root: seq<int>, loc: seq<int>, k: int, i: int)
    requires 0 <= k && |root| == |loc| && |w| == |c| && Distinct(loc)
    requires forall j | 0 <= j < |loc| :: Correction(f, lam, s, deg, fcr, root[j]) == ErrorAt(w, c, pad, loc[j])
    requires 0 <= i < |w|
    ensures Apply(f, lam, s, deg, fcr, pad, w, root, loc, k)[i]
         == if exists j :: k <= j < |loc| && loc[j] == i + pad then c[i] else w[i]
    decreases |loc| - k
  {
    hide Mul, Xor, Correction;
    if k < |loc| {
      ApplyRestores(f, lam, s, deg, fcr, pad, w, c, root, loc, k + 1, i);
      if loc[k] == i + pad {
        assert !exists j :: k + 1 <= j < |loc| && loc[j] == i + pad;
        XorCancel(w[i], c[i]);
      }
    }
  }

  // ----- The decoder on values, and the main theorem.

  /** The last index with a nonzero coefficient. */
  ghost predicate IsDegree(p: seq<nat>, d: int) {
    && 0 <= d < |p|
    && DegreeAtMost(p, d)
    && (d > 0 ==> p[d] != 0)
  }

  lemma {:induction false} DegreeUnique(p: seq<nat>, d: int, e: int)
    requires IsDegree(p, d) && 0 <= e < |p| && DegreeAtMost(p, e) && p[e] != 0
    ensures d == e
  {
  }

  /** The locator the iteration ends with. */
  ghost function ErrataLocator(f: GF, prim: int, s: seq<nat>, eras: seq<int>): seq<nat> {
    BmRun(f, s, |eras|, Gamma(f, prim, |s|, eras), |s|).lam
  }

  lemma {:induction false} ErrataLocatorIs(f: GF, prim: int, s: seq<nat>, eras: seq<int>)
    ensures ErrataLocator(f, prim, s, eras) == BmRun(f, s, |eras|, Gamma(f, prim, |s|, eras), |s|).lam
  {
    hide BmRun, Gamma;
  }

  ghost predicate Errata(w: seq<nat>, c: seq<nat>, pad: int, eras: seq<int>, u: set<int>)
    requires |w| == |c|
  {
    && |u| == |Errors(w, c, pad, eras)| + |eras|
    && forall p :: p in u <==> p in Errors(w, c, pad, eras) || p in eras
  }

  lemma {:induction false} FinalLocator(f: GF, prim: int, iprim: int, fcr: int, pad: int, w: seq<nat>, c: seq<nat>,
                       eras: seq<int>, s: seq<nat>, u: set<int>)
    requires PrimInverse(f.NN(), prim, iprim) && Correctable(f, prim, fcr, |s|, pad, w, c, eras)
    requires SyndromesOf(f, prim, fcr, w, s) && Errata(w, c, pad, eras, u)
    ensures var lam := BmRun(f, s, |eras|, Gamma(f, prim, |s|, eras), |s|).lam;
            |lam| == |s| + 1 && SeqIn(f, lam) && DegreeAtMost(lam, |u|) && |u| <= |s|
            && Locates(f, Fn(lam), |u|, Location(f.NN(), prim), u)
    ensures forall p | p in u :: 0 <= p < f.NN()
  {
    hide E, Mul, Xor, Location, ErrFn, Horner, Root, PrimInverse, Gamma, BmRun, IsCodeword, Ev, Pattern, Locates, Starting, SyndromesOf;
    var g := Gamma(f, prim, |s|, eras);
    CorrectablePattern(f, prim, iprim, fcr, pad, w, c, eras, s);
    forall p ensures p in u <==> p in Errors(w, c, pad, eras) || p in ToSet(eras) { }
    LocatorFound(f, s, f.NN(), ErrFn(f, prim, fcr, w, c, pad), Location(f.NN(), prim),
                 Errors(w, c, pad, eras), ToSet(eras), g, |eras|, u);
    BmRunInv(f, s, |eras|, g, |s|);
  }

  lemma {:induction false} CorrectionAt(f: GF, prim: int, iprim: int, fcr: int, pad: int, w: seq<nat>, c: seq<nat>,
                       eras: seq<int>, s: seq<nat>, u: set<int>, lam: int -> nat, q: int, r: int)
    requires PrimInverse(f.NN(), prim, iprim) && Correctable(f, prim, fcr, |s|, pad, w, c, eras)
    requires SyndromesOf(f, prim, fcr, w, s) && Errata(w, c, pad, eras, u)
    requires |u| <= |s| && Locates(f, lam, |u|, Location(f.NN(), prim), u)
    requires (forall p | p in u :: 0 <= p < f.NN()) && q in u
    requires E(f, r) == E(f, -Location(f.NN(), prim)(q))
    ensures Correction(f, lam, s, |u|, fcr, r) == ErrorAt(w, c, pad, q)
  {
    hide E, Mul, Xor, Location, Horner, Root, PrimInverse, Gamma, IsCodeword, Ev, Locates, AllDistinct, Explains,
         Correction, ErrorAt, Times;
    var n, e, a := f.NN(), ErrFn(f, prim, fcr, w, c, pad), Location(f.NN(), prim);
    CorrectablePattern(f, prim, iprim, fcr, pad, w, c, eras, s);
    PatternParts(f, s, n, e, a, Errors(w, c, pad, eras), ToSet(eras), Gamma(f, prim, |s|, eras), u);
    ErrFnValues(f, prim, fcr, w, c, pad, q);
    CorrectionIsError(f, n, lam, s, e, a, u, q, ErrorAt(w, c, pad, q), fcr, r);
  }

  lemma {:induction false} PatternParts(f: GF, s: seq<nat>, n: int, c: int -> nat, a: int -> int,
                       errs: set<int>, eras: set<int>, gamma: seq<nat>, u: set<int>)
    requires Pattern(f, s, n, c, a, errs, eras, gamma)
    requires forall p | p in errs || p in eras :: p in u
    ensures Explains(f, s, n, c, a) && AllDistinct(f, n, a)
    ensures forall p | 0 <= p < n && c(p) != 0 :: p in u
  {
    hide E, Ev, Explains, AllDistinct;
  }

  lemma {:induction false} RestoreErrata(f: GF, prim: int, iprim: int, fcr: int, pad: int, w: seq<nat>, c: seq<nat>,
                         eras: seq<int>, s: seq<nat>, u: set<int>, lam: seq<nat>, deg: int, root: seq<int>, loc: seq<int>)
    requires PrimInverse(f.NN(), prim, iprim) && Correctable(f, prim, fcr, |s|, pad, w, c, eras)
    requires SyndromesOf(f, prim, fcr, w, s) && Errata(w, c, pad, eras, u)
    requires lam == ErrataLocator(f, prim, s, eras) && IsDegree(lam, deg)
    requires Searched(f, Fn(lam), deg, iprim, root, loc)
    ensures deg == |loc| == |u| && Distinct(loc) && ToSet(loc) == u
    ensures Apply(f, Fn(lam), s, deg, fcr, pad, w, root, loc, 0) == c
  {
    hide E, Mul, Xor, Location, Horner, Root, PrimInverse, Gamma, BmRun, IsCodeword, Ev, Correctable, SyndromesOf, Searched,
         Correction, ErrorAt, RootAmong, Errors, Errata, Apply, ToSet, Distinct, Locates, ErrataLocator;
    CorrectableShape(f, prim, fcr, |s|, pad, w, c, eras);
    ErrataLocatorIs(f, prim, s, eras);
    FinalLocator(f, prim, iprim, fcr, pad, w, c, eras, s, u);
    LocatesTop(f, Fn(lam), |u|, Location(f.NN(), prim), u);
    assert Fn(lam)(|u|) == At(lam, |u|);
    DegreeUnique(lam, deg, |u|);
    SearchExact(f, Fn(lam), prim, iprim, u, root, loc);
    CorrectionsMatch(f, prim, iprim, fcr, pad, w, c, eras, s, u, Fn(lam), root, loc);
    AllRestored(f, Fn(lam), s, deg, fcr, pad, w, c, eras, root, loc, u);
  }

  lemma {:induction false} LocatesTop(f: GF, lam: int -> nat, v: int, a: int -> int, u: set<int>)
    requires Locates(f, lam, v, a, u)
    ensures lam(v) != 0
  {
    hide E, Ev, Mul;
  }

  lemma {:induction false} CorrectionsMatch(f: GF, prim: int, iprim: int, fcr: int, pad: int, w: seq<nat>, c: seq<nat>,
                           eras: seq<int>, s: seq<nat>, u: set<int>, lam: int -> nat, root: seq<int>, loc: seq<int>)
    requires PrimInverse(f.NN(), prim, iprim) && Correctable(f, prim, fcr, |s|, pad, w, c, eras)
    requires SyndromesOf(f, prim, fcr, w, s) && Errata(w, c, pad, eras, u)
    requires |u| <= |s| && Locates(f, lam, |u|, Location(f.NN(), prim), u)
    requires (forall p | p in u :: 0 <= p < f.NN()) && ToSet(loc) == u && |root| == |loc|
    requires forall j | 0 <= j < |root| :: E(f, root[j]) == E(f, -Location(f.NN(), prim)(loc[j]))
    ensures forall j | 0 <= j < |loc| :: Correction(f, lam, s, |u|, fcr, root[j]) == ErrorAt(w, c, pad, loc[j])
  {
    hide E, Mul, Xor, Location, PrimInverse, Correctable, SyndromesOf, Errata, Locates, Correction, ErrorAt;
    CorrectableShape(f, prim, fcr, |s|, pad, w, c, eras);
    forall j | 0 <= j < |loc| ensures Correction(f, lam, s, |u|, fcr, root[j]) == ErrorAt(w, c, pad, loc[j]) {
      assert loc[j] in ToSet(loc);
      CorrectionAt(f, prim, iprim, fcr, pad, w, c, eras, s, u, lam, loc[j], root[j]);
    }
  }

  lemma {:induction false} CorrectableShape(f: GF, prim: int, fcr: int, nroots: int, pad: int, w: seq<nat>, c: seq<nat>, eras: seq<int>)
    requires Correctable(f, prim, fcr, nroots, pad, w, c, eras)
    ensures |w| == |c| && |w| + pad == f.NN() && pad >= 0
  {
  }

  lemma {:induction false} AllRestored(f: GF, lam: int -> nat, s: seq<nat>, deg: int, fcr: int, pad: int,
                      w: seq<nat>, c: seq<nat>, eras: seq<int>, root: seq<int>, loc: seq<int>, u: set<int>)
    requires |root| == |loc| && |w| == |c| && Distinct(loc) && ToSet(loc) == u && Errata(w, c, pad, eras, u)
    requires forall j | 0 <= j < |loc| :: Correction(f, lam, s, deg, fcr, root[j]) == ErrorAt(w, c, pad, loc[j])
    ensures Apply(f, lam, s, deg, fcr, pad, w, root, loc, 0) == c
  {
    hide Mul, Xor, Correction, ErrorAt, Apply;
    var r := Apply(f, lam, s, deg, fcr, pad, w, root, loc, 0);
    forall i | 0 <= i < |w| ensures r[i] == c[i] {
      ApplyRestores(f, lam, s, deg, fcr, pad, w, c, root, loc, 0, i);
      if w[i] != c[i] {
        assert i + pad in Errors(w, c, pad, eras) || i + pad in eras by { assert w[i + pad - pad] != c[i + pad - pad]; }
        assert i + pad in ToSet(loc);
      }
    }
  }

  lemma {:induction false} ErrataOf(w: seq<nat>, c: seq<nat>, pad: int, eras: seq<int>) returns (u: set<int>)
    requires |w| == |c| && Distinct(eras)
    ensures Errata(w, c, pad, eras, u)
  {
    hide Errors;
    u := ErrataSize(w, c, pad, eras);
    InToSet(eras);
  }

  lemma {:induction false} InToSet(s: seq<int>)
    ensures forall p :: p in ToSet(s) <==> p in s
  {
  }

  /** pos lists, without repetition, exactly the wrong and the erased positions. */
  ghost predicate Lists(w: seq<nat>, c: seq<nat>, pad: int, eras: seq<int>, pos: seq<int>)
    requires |w| == |c|
  {
    && |pos| == |Errors(w, c, pad, eras)| + |eras|
    && Distinct(pos)
    && forall p :: p in pos <==> p in Errors(w, c, pad, eras) || p in eras
  }

  /** For every codeword c and every word w within reach of it: the search over the final locator
      lists exactly the errata, and the corrections turn w into c. */
  lemma {:induction false} DecodeRestores(f: GF, prim: int, iprim: int, fcr: int, pad: int, w: seq<nat>, c: seq<nat>,
                         eras: seq<int>, s: seq<nat>, lam: seq<nat>, deg: int, root: seq<int>, loc: seq<int>)
    requires PrimInverse(f.NN(), prim, iprim) && Correctable(f, prim, fcr, |s|, pad, w, c, eras)
    requires SyndromesOf(f, prim, fcr, w, s)
    requires lam == ErrataLocator(f, prim, s, eras) && IsDegree(lam, deg)
    requires Searched(f, Fn(lam), deg, iprim, root, loc)
    ensures |w| == |c| && |root| == |loc| == deg && Lists(w, c, pad, eras, loc)
    ensures Apply(f, Fn(lam), s, deg, fcr, pad, w, root, loc, 0) == c
  {
    hide PrimInverse, SyndromesOf, ErrataLocator, IsDegree, Searched, Apply, Errors, IsCodeword, SeqIn;
    var u := ErrataOf(w, c, pad, eras);
    RestoreErrata(f, prim, iprim, fcr, pad, w, c, eras, s, u, lam, deg, root, loc);
    InToSet(loc);
    SearchedShape(f, Fn(lam), deg, iprim, root, loc);
  }

  lemma {:induction false} SearchedShape(f: GF, lam: int -> nat, deg: int, iprim: int, root: seq<int>, loc: seq<int>)
    requires Searched(f, lam, deg, iprim, root, loc)
    ensures |root| == |loc|
  {
  }

  // ----- The code itself.

  /** The positions where two words differ. */
  ghost function Differences(w: seq<nat>, c: seq<nat>): set<int>
    requires |w| == |c|
  {
    set i | 0 <= i < |w| && w[i] != c[i]
  }

  /** Two different codewords differ in more than nroots places. */
  lemma {:induction false} MinimumDistance(f: GF, prim: int, iprim: int, fcr: int, nroots: nat, w: seq<nat>, c: seq<nat>)
    requires PrimInverse(f.NN(), prim, iprim) && |w| == |c| <= f.NN() && SeqIn(f, w) && SeqIn(f, c)
    requires IsCodeword(f, prim, fcr, nroots, w) && IsCodeword(f, prim, fcr, nroots, c) && w != c
    ensures |Differences(w, c)| > nroots
  {
    hide E, Mul, Xor, PrimInverse, IsCodeword;
    if |Differences(w, c)| <= nroots { CloseCodewordsEqual(f, prim, iprim, fcr, nroots, w, c); }
  }

  lemma {:induction false} CloseCodewordsEqual(f: GF, prim: int, iprim: int, fcr: int, nroots: nat, w: seq<nat>, c: seq<nat>)
    requires PrimInverse(f.NN(), prim, iprim) && |w| == |c| <= f.NN() && SeqIn(f, w) && SeqIn(f, c)
    requires IsCodeword(f, prim, fcr, nroots, w) && IsCodeword(f, prim, fcr, nroots, c)
    requires |Differences(w, c)| <= nroots
    ensures w == c
  {
    hide E, Mul, Xor, Location, ErrFn, Horner, Root, PowerSum, PrimInverse, ErrorAt, SupportedOn, DistinctOn, AllDistinct;
    var n, pad := f.NN(), f.NN() - |w|;
    var e, a := ErrFn(f, prim, fcr, w, c, pad), Location(n, prim);
    var u := ShiftedSet(Differences(w, c), pad);
    DifferenceSupport(f, prim, fcr, w, c, pad, u);
    LocationsDistinct(f, prim, iprim);
    DistinctSubset(f, n, a, u);
    forall t | 0 <= t < |u| ensures PowerSum(f, n, e, a, t) == 0 {
      SyndromeIsPowerSum(f, prim, fcr, nroots, t, w, c, pad);
      assert Horner(f, w, Root(prim, fcr, t)) == 0;
    }
    SparseVandermonde(f, n, e, a, u, 0);
    NoErrors(f, prim, fcr, w, c, pad);
  }

  lemma {:induction false} ShiftedSet(s: set<int>, d: int) returns (u: set<int>)
    ensures |u| == |s| && forall p :: p in u <==> p - d in s
    decreases |s|
  {
    u := {};
    if |s| > 0 {
      var p, s' := RemoveOne(s);
      u := ShiftedSet(s', d);
      assert p + d !in u;
      u := u + {p + d};
    } else {
      NonemptyHas(s);
      EmptySet(s);
    }
  }

  lemma {:induction false} EmptySet(s: set<int>)
    requires |s| == 0
    ensures forall p :: p !in s
  {
  }

  lemma {:induction false} DifferenceSupport(f: GF, prim: int, fcr: int, w: seq<nat>, c: seq<nat>, pad: int, u: set<int>)
    requires |w| == |c| && |w| + pad == f.NN() && pad >= 0 && SeqIn(f, w) && SeqIn(f, c)
    requires forall p :: p in u <==> p - pad in Differences(w, c)
    ensures SupportedOn(f, f.NN(), ErrFn(f, prim, fcr, w, c, pad), u) && forall p | p in u :: 0 <= p < f.NN()
  {
    hide E, Mul, Xor, ErrFn, ErrorAt;
    forall p | 0 <= p < f.NN()
      ensures ErrFn(f, prim, fcr, w, c, pad)(p) < f.Size()
      ensures p !in u ==> ErrFn(f, prim, fcr, w, c, pad)(p) == 0
    {
      ErrFnValues(f, prim, fcr, w, c, pad, p);
      assert p in u <==> p - pad in Differences(w, c);
    }
  }

  /** The data part determines a codeword: there is one parity and no other. */
  lemma {:induction false} ParityUnique(f: GF, prim: int, iprim: int, fcr: int, d: seq<nat>, p: seq<nat>, q: seq<nat>)
    requires PrimInverse(f.NN(), prim, iprim) && |p| == |q| && |d| + |p| <= f.NN()
    requires SeqIn(f, d) && SeqIn(f, p) && SeqIn(f, q)
    requires IsCodeword(f, prim, fcr, |p|, d + p) && IsCodeword(f, prim, fcr, |p|, d + q)
    ensures p == q
  {
    hide E, Mul, Xor, PrimInverse, IsCodeword, Differences;
    ConcatIn(f, d, p);
    ConcatIn(f, d, q);
    TailDifferences(d, p, q);
    CloseCodewordsEqual(f, prim, iprim, fcr, |p|, d + p, d + q);
    assert p == (d + p)[|d|..] && q == (d + q)[|d|..];
  }

  lemma {:induction false} ConcatIn(f: Field, d: seq<nat>, p: seq<nat>)
    requires SeqIn(f, d) && SeqIn(f, p)
    ensures SeqIn(f, d + p)
  {
  }

  lemma {:induction false} TailDifferences(d: seq<nat>, p: seq<nat>, q: seq<nat>)
    requires |p| == |q|
    ensures |Differences(d + p, d + q)| <= |p|
  {
    var tail := Interval(|d|, |d| + |p|);
    SubsetSmaller(Differences(d + p, d + q), tail);
  }
}
