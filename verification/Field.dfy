/** Arithmetic of GF(2^mm) as the Reed-Solomon codec generates it: the nonzero elements are the
    successive states of a shift register started at 1. Zero has no logarithm. */
module GaloisField {
  import opened Bits
  import opened Sets

  /** The two parameters that fix the field: bits per symbol and the feedback taps. */
  datatype Field = Field(mm: nat, poly: nat) {
    function Size(): nat { Pow2(mm) }

    /** Number of nonzero elements; also the reserved index A0 that stands for log 0. */
    function NN(): nat { Pow2(mm) - 1 }
  }

  /** One clock of the register: shift left, fold the overflow bit back in, mask to mm bits. */
  function Step(f: Field, x: nat): nat {
    var y := 2 * x;
    (if y / f.Size() % 2 == 1 then Xor(y, f.poly) else y) % f.Size()
  }

  ghost function Iter(f: Field, k: nat, x: nat): nat {
    if k == 0 then x else Step(f, Iter(f, k - 1, x))
  }

  /** The register passes through every nonzero state before it returns to 1. */
  ghost predicate Primitive(f: Field) {
    && f.mm >= 1
    && Iter(f, f.NN(), 1) == 1
    && forall i :: 0 < i < f.NN() ==> Iter(f, i, 1) != 1
  }

  lemma {:induction false} SmallestField(f: Field)
    requires f == Field(1, 1)
    ensures Primitive(f)
  {
    assert Pow2(1) == 2 * Pow2(0);
    assert Step(f, 1) == 1;
    assert Iter(f, 1, 1) == Step(f, Iter(f, 0, 1));
  }

  // ----- The register is linear over exclusive or.

  /** The low mm bits of a word. */
  ghost function Low(f: Field, x: nat): nat { x % f.Size() }

  /** What the overflow bit contributes. */
  ghost function Fold(f: Field, x: nat): nat
    requires f.mm >= 1
  {
    if x >= Pow2(f.mm - 1) then Low(f, f.poly) else 0
  }

  lemma {:induction false} HalfSize(f: Field)
    requires f.mm >= 1
    ensures f.Size() == 2 * Pow2(f.mm - 1)
  {
  }

  lemma {:induction false} LowXor(f: Field, a: nat, b: nat)
    ensures Low(f, Xor(a, b)) == Xor(Low(f, a), Low(f, b))
  {
    hide Xor, Pow2;
    XorMod(a, b, f.mm);
  }

  lemma {:induction false} DoubledOverflow(x: nat, size: nat)
    requires x < size
    ensures 2 * x / size == if 2 * x >= size then 1 else 0
  {
    if 2 * x >= size { DivModUnique(2 * x, size, 1, 2 * x - size); } else { DivModUnique(2 * x, size, 0, 2 * x); }
  }

  lemma {:induction false} StepForm(f: Field, x: nat)
    requires f.mm >= 1 && x < f.Size()
    ensures Step(f, x) == Xor(Low(f, 2 * x), Fold(f, x))
    ensures Step(f, x) < f.Size()
  {
    hide Xor, Pow2;
    HalfSize(f);
    XorZero(Low(f, 2 * x));
    DoubledOverflow(x, f.Size());
    if 2 * x >= f.Size() { LowXor(f, 2 * x, f.poly); }
  }

  lemma {:induction false} StepLinear(f: Field, a: nat, b: nat)
    requires f.mm >= 1 && a < f.Size() && b < f.Size()
    ensures Xor(a, b) < f.Size()
    ensures Step(f, Xor(a, b)) == Xor(Step(f, a), Step(f, b))
  {
    hide Xor, Step, Low, Fold, Pow2;
    XorBound(a, b, f.mm);
    StepForm(f, a);
    StepForm(f, b);
    StepForm(f, Xor(a, b));
    XorDouble(a, b);
    LowXor(f, 2 * a, 2 * b);
    FoldLinear(f, a, b);
    XorFour(Low(f, 2 * a), Fold(f, a), Low(f, 2 * b), Fold(f, b));
  }

  lemma {:induction false} XorDouble(a: nat, b: nat)
    ensures Xor(2 * a, 2 * b) == 2 * Xor(a, b)
  {
    hide Xor;
    XorHalf(2 * a, 2 * b);
    Halves(a);
    Halves(b);
    Halves(a + b);
  }

  lemma {:induction false} Halves(a: nat)
    ensures 2 * a / 2 == a && 2 * a % 2 == 0
  {
  }

  lemma {:induction false} FoldLinear(f: Field, a: nat, b: nat)
    requires f.mm >= 1 && a < f.Size() && b < f.Size()
    ensures Fold(f, Xor(a, b)) == Xor(Fold(f, a), Fold(f, b))
  {
    hide Xor, Pow2, Low, Fold;
    HalfSize(f);
    XorTop(a, b, f.mm - 1);
    var h, v := Pow2(f.mm - 1), Low(f, f.poly);
    FoldIs(f, a);
    FoldIs(f, b);
    FoldIs(f, Xor(a, b));
    SelectXor(a >= h, b >= h, v);
  }

  lemma {:induction false} FoldIs(f: Field, x: nat)
    requires f.mm >= 1
    ensures Fold(f, x) == if x >= Pow2(f.mm - 1) then Low(f, f.poly) else 0
  {
  }

  lemma {:induction false} SelectXor(p: bool, q: bool, v: nat)
    ensures (if p != q then v else 0) == Xor(if p then v else 0, if q then v else 0)
  {
    hide Xor;
    XorSelf(v);
    XorZero(v);
    XorZero(0);
  }

  lemma {:induction false} IterBound(f: Field, k: nat, x: nat)
    requires f.mm >= 1 && x < f.Size()
    ensures Iter(f, k, x) < f.Size()
  {
    if k > 0 {
      IterBound(f, k - 1, x);
      StepForm(f, Iter(f, k - 1, x));
    }
  }

  lemma {:induction false} IterLinear(f: Field, k: nat, a: nat, b: nat)
    requires f.mm >= 1 && a < f.Size() && b < f.Size()
    ensures Xor(a, b) < f.Size()
    ensures Iter(f, k, Xor(a, b)) == Xor(Iter(f, k, a), Iter(f, k, b))
  {
    XorBound(a, b, f.mm);
    if k > 0 {
      IterLinear(f, k - 1, a, b);
      IterBound(f, k - 1, a);
      IterBound(f, k - 1, b);
      StepLinear(f, Iter(f, k - 1, a), Iter(f, k - 1, b));
    }
  }

  lemma {:induction false} IterZero(f: Field, k: nat)
    requires f.mm >= 1
    ensures Iter(f, k, 0) == 0
  {
    if k > 0 {
      IterZero(f, k - 1);
      StepForm(f, 0);
    }
  }

  lemma {:induction false} IterAdd(f: Field, j: nat, k: nat, x: nat)
    ensures Iter(f, j + k, x) == Iter(f, j, Iter(f, k, x))
  {
    if j > 0 { IterAdd(f, j - 1, k, x); }
  }

  // ----- Primitive registers: distinct powers, and every nonzero element is one.

  lemma {:induction false} PowersNonzero(f: Field, i: nat)
    requires Primitive(f) && i < f.NN()
    ensures 0 < Iter(f, i, 1) < f.Size()
  {
    hide Iter;
    IterBound(f, i, 1);
    IterAdd(f, f.NN() - i, i, 1);
    IterZero(f, f.NN() - i);
  }

  lemma {:induction false} PowersDistinct(f: Field, i: nat, j: nat)
    requires Primitive(f) && i < f.NN() && j < f.NN()
    ensures Iter(f, i, 1) == Iter(f, j, 1) <==> i == j
  {
    if i < j { LaterPowerDiffers(f, i, j); }
    if j < i { LaterPowerDiffers(f, j, i); }
  }

  lemma {:induction false} LaterPowerDiffers(f: Field, i: nat, j: nat)
    requires Primitive(f) && i < j < f.NN()
    ensures Iter(f, i, 1) != Iter(f, j, 1)
  {
    hide Iter;
    IterAdd(f, f.NN() - j, i, 1);
    IterAdd(f, f.NN() - j, j, 1);
    assert Iter(f, f.NN() - (j - i), 1) != 1;
  }

  ghost predicate PowerBelow(f: Field, n: nat, x: nat) {
    exists i :: 0 <= i < n && x == Iter(f, i, 1)
  }

  lemma {:induction false} Powers(f: Field, n: nat) returns (s: set<nat>)
    requires Primitive(f) && n <= f.NN()
    ensures forall x :: x in s ==> PowerBelow(f, n, x)
    ensures |s| == n
  {
    s := {};
    if n > 0 {
      s := Powers(f, n - 1);
      NewPower(f, n - 1);
      var x := Iter(f, n - 1, 1);
      forall y | y in s ensures PowerBelow(f, n, y) {
        var i :| 0 <= i < n - 1 && y == Iter(f, i, 1);
      }
      s := s + {x};
    }
  }

  lemma {:induction false} NewPower(f: Field, n: nat)
    requires Primitive(f) && n < f.NN()
    ensures !PowerBelow(f, n, Iter(f, n, 1))
    ensures PowerBelow(f, n + 1, Iter(f, n, 1))
  {
    forall i | 0 <= i < n ensures Iter(f, i, 1) != Iter(f, n, 1) {
      LaterPowerDiffers(f, i, n);
    }
  }

  lemma {:induction false} EveryElementIsPower(f: Field, a: nat)
    requires Primitive(f) && 0 < a < f.Size()
    ensures PowerBelow(f, f.NN(), a)
  {
    var b := Interval(1, f.NN() + 1);
    var s := Powers(f, f.NN());
    forall x | x in s ensures x in b {
      var i :| 0 <= i < f.NN() && x == Iter(f, i, 1);
      PowersNonzero(f, i);
    }
    SubsetOfSameSize(s, b);
    assert a in s;
  }

  // ----- Exponents, logarithms, products.

  type GF = f: Field | Primitive(f) ghost witness (SmallestField(Field(1, 1)); Field(1, 1))

  ghost predicate In(f: Field, a: int) { 0 <= a < f.Size() }

  /** alpha to the power k, for any integer k. */
  ghost function E(f: GF, k: int): nat {
    NNPositive(f);
    Iter(f, k % f.NN(), 1)
  }

  lemma {:induction false} EIs(f: GF, k: int)
    ensures E(f, k) == Iter(f, k % f.NN(), 1)
  {
  }

  lemma {:induction false} NNPositive(f: GF)
    ensures f.NN() >= 1
  {
    assert Pow2(f.mm) == 2 * Pow2(f.mm - 1);
  }

  ghost function Log(f: GF, a: nat): (i: nat)
    requires 0 < a < f.Size()
    ensures i < f.NN()
  {
    EveryElementIsPower(f, a);
    var i :| 0 <= i < f.NN() && a == Iter(f, i, 1);
    i
  }

  lemma {:induction false} LogIter(f: GF, a: nat)
    requires 0 < a < f.Size()
    ensures Iter(f, Log(f, a), 1) == a
  {
    EveryElementIsPower(f, a);
  }

  /** The field product: b shifted through the register as often as the log of a says; operands wider than
      a symbol are masked first. */
  ghost function Mul(f: GF, a: nat, b: nat): nat {
    var x, y := a % f.Size(), b % f.Size();
    if x == 0 then 0 else Iter(f, Log(f, x), y)
  }

  lemma {:induction false} MulIs(f: GF, a: nat, b: nat)
    ensures Mul(f, a, b) == var x, y := a % f.Size(), b % f.Size(); if x == 0 then 0 else Iter(f, Log(f, x), y)
  {
  }

  lemma {:induction false} EIn(f: GF, k: int)
    ensures 0 < E(f, k) < f.Size()
  {
    hide Iter;
    EIs(f, k);
    PowersNonzero(f, k % f.NN());
  }

  lemma {:induction false} ELog(f: GF, k: int)
    ensures 0 < E(f, k) < f.Size() && Log(f, E(f, k)) == k % f.NN()
  {
    hide Iter, E;
    EIs(f, k);
    EIn(f, k);
    LogIter(f, E(f, k));
    PowersDistinct(f, Log(f, E(f, k)), k % f.NN());
  }

  lemma {:induction false} LogE(f: GF, a: nat)
    requires 0 < a < f.Size()
    ensures E(f, Log(f, a)) == a
  {
    hide Iter, E;
    EIs(f, Log(f, a));
    LogIter(f, a);
    SmallMod(Log(f, a), f.NN());
  }

  lemma {:induction false} SmallMod(k: int, n: int)
    requires 0 <= k < n
    ensures k % n == k
  {
  }

  lemma {:induction false} ModShift(k: int, n: int, q: int)
    requires n > 0
    ensures (k + n * q) % n == k % n
  {
    DivModUnique(k + n * q, n, k / n + q, k % n);
  }

  lemma {:induction false} EPeriod(f: GF, k: int, q: int)
    ensures E(f, k + f.NN() * q) == E(f, k)
  {
    hide Iter, E;
    EIs(f, k);
    EIs(f, k + f.NN() * q);
    ModShift(k, f.NN(), q);
  }

  lemma {:induction false} EDistinct(f: GF, i: int, j: int)
    ensures E(f, i) == E(f, j) <==> (i - j) % f.NN() == 0
  {
    hide Iter, E;
    var n := f.NN();
    EIs(f, i);
    EIs(f, j);
    PowersDistinct(f, i % n, j % n);
    SameResidue(i, j, n);
  }

  lemma {:induction false} SameResidue(i: int, j: int, n: int)
    requires n > 0
    ensures i % n == j % n <==> (i - j) % n == 0
  {
    var a, b := i / n, j / n;
    assert i == n * a + i % n && j == n * b + j % n;
    var r := i % n - j % n;
    assert i - j == n * (a - b) + r;
    if r >= 0 {
      DivModUnique(i - j, n, a - b, r);
    } else {
      assert i - j == n * (a - b - 1) + (r + n);
      DivModUnique(i - j, n, a - b - 1, r + n);
    }
  }

  /** Iterating nn times from a power comes back to it. */
  lemma {:induction false} IterOfPower(f: GF, j: nat, i: nat)
    requires j < f.NN() && i < f.NN()
    ensures Iter(f, j, Iter(f, i, 1)) == E(f, i + j)
  {
    hide Iter, E;
    var n := f.NN();
    EIs(f, i + j);
    IterAdd(f, j, i, 1);
    if i + j < n {
      SmallMod(i + j, n);
    } else {
      DivModUnique(i + j, n, 1, i + j - n);
      IterAdd(f, i + j - n, n, 1);
    }
  }

  lemma {:induction false} MulE(f: GF, i: int, j: int)
    ensures Mul(f, E(f, i), E(f, j)) == E(f, i + j)
  {
    var n := f.NN();
    hide E, Mul, Pow2;
    MulEResidues(f, i, j);
    assert i % n + j % n == i + j + n * (-(i / n) - j / n);
    EPeriod(f, i + j, -(i / n) - j / n);
  }

  lemma {:induction false} MulEResidues(f: GF, i: int, j: int)
    ensures Mul(f, E(f, i), E(f, j)) == E(f, i % f.NN() + j % f.NN())
  {
    hide Iter, E, Mul;
    ELog(f, i);
    EIn(f, j);
    EIs(f, j);
    MulIs(f, E(f, i), E(f, j));
    SmallMod(E(f, i), f.Size());
    SmallMod(E(f, j), f.Size());
    IterOfPower(f, i % f.NN(), j % f.NN());
  }

  lemma {:induction false} MulIn(f: GF, a: nat, b: nat)
    ensures Mul(f, a, b) < f.Size()
  {
    hide Iter, Mul, Pow2;
    MulIs(f, a, b);
    if a % f.Size() != 0 {
      IterBound(f, Log(f, a % f.Size()), b % f.Size());
    }
  }

  lemma {:induction false} MulZero(f: GF, a: nat)
    ensures Mul(f, 0, a) == 0 && Mul(f, a, 0) == 0
  {
    hide Iter, Mul, Pow2;
    MulIs(f, 0, a);
    MulIs(f, a, 0);
    SmallMod(0, f.Size());
    if a % f.Size() != 0 {
      IterZero(f, Log(f, a % f.Size()));
    }
  }

  lemma {:induction false} MulMask(f: GF, a: nat, b: nat)
    ensures Mul(f, a, b) == Mul(f, a % f.Size(), b % f.Size())
  {
    hide Iter, Mul, Pow2;
    MulIs(f, a, b);
    MulIs(f, a % f.Size(), b % f.Size());
    SmallMod(a % f.Size(), f.Size());
    SmallMod(b % f.Size(), f.Size());
  }

  lemma {:induction false} MulComm(f: GF, a: nat, b: nat)
    ensures Mul(f, a, b) == Mul(f, b, a)
  {
    hide E, Mul, Pow2;
    var x, y := a % f.Size(), b % f.Size();
    MulMask(f, a, b);
    MulMask(f, b, a);
    MulZero(f, x);
    MulZero(f, y);
    if x != 0 && y != 0 {
      LogE(f, x);
      LogE(f, y);
      MulE(f, Log(f, x), Log(f, y));
      MulE(f, Log(f, y), Log(f, x));
    }
  }

  lemma {:induction false} MulAssoc(f: GF, a: nat, b: nat, c: nat)
    ensures Mul(f, Mul(f, a, b), c) == Mul(f, a, Mul(f, b, c))
  {
    hide E, Mul, Pow2;
    var x, y, z := a % f.Size(), b % f.Size(), c % f.Size();
    MulMask(f, a, b);
    MulMask(f, b, c);
    MulMask(f, Mul(f, a, b), c);
    MulMask(f, a, Mul(f, b, c));
    MulIn(f, a, b);
    MulIn(f, b, c);
    SmallMod(Mul(f, a, b), f.Size());
    SmallMod(Mul(f, b, c), f.Size());
    MulAssocIn(f, x, y, z);
  }

  lemma {:induction false} MulAssocIn(f: GF, x: nat, y: nat, z: nat)
    requires x < f.Size() && y < f.Size() && z < f.Size()
    ensures Mul(f, Mul(f, x, y), z) == Mul(f, x, Mul(f, y, z))
  {
    hide E, Mul, Pow2;
    if x == 0 || y == 0 || z == 0 {
      MulZeroAssoc(f, x, y, z);
    } else {
      LogE(f, x);
      LogE(f, y);
      LogE(f, z);
      MulEAssoc(f, Log(f, x), Log(f, y), Log(f, z));
    }
  }

  lemma {:induction false} MulZeroAssoc(f: GF, x: nat, y: nat, z: nat)
    requires x == 0 || y == 0 || z == 0
    ensures Mul(f, Mul(f, x, y), z) == 0 == Mul(f, x, Mul(f, y, z))
  {
    hide E, Mul, Pow2;
    MulZero(f, x);
    MulZero(f, y);
    MulZero(f, z);
    MulZero(f, Mul(f, x, y));
    MulZero(f, Mul(f, y, z));
  }

  lemma {:induction false} MulEAssoc(f: GF, i: int, j: int, k: int)
    ensures Mul(f, Mul(f, E(f, i), E(f, j)), E(f, k)) == Mul(f, E(f, i), Mul(f, E(f, j), E(f, k)))
  {
    hide E, Mul, Pow2;
    MulE(f, i, j);
    MulE(f, i + j, k);
    MulE(f, j, k);
    MulE(f, i, j + k);
  }

  /** Distributivity is the linearity of the register. */
  lemma {:induction false} MulXor(f: GF, a: nat, b: nat, c: nat)
    ensures Mul(f, a, Xor(b, c)) == Xor(Mul(f, a, b), Mul(f, a, c))
    ensures Mul(f, Xor(b, c), a) == Xor(Mul(f, b, a), Mul(f, c, a))
  {
    MulXorLeft(f, a, b, c);
    MulComm(f, a, b);
    MulComm(f, a, c);
    MulComm(f, a, Xor(b, c));
  }

  lemma {:induction false} MulXorLeft(f: GF, a: nat, b: nat, c: nat)
    ensures Mul(f, a, Xor(b, c)) == Xor(Mul(f, a, b), Mul(f, a, c))
  {
    var x, y, z := a % f.Size(), b % f.Size(), c % f.Size();
    hide Iter, Mul, Pow2, Xor;
    MulIs(f, a, b);
    MulIs(f, a, c);
    MulIs(f, a, Xor(b, c));
    XorSelf(0);
    XorMod(b, c, f.mm);
    if x != 0 {
      IterLinear(f, Log(f, x), y, z);
    }
  }

  lemma {:induction false} MulOne(f: GF, a: nat)
    requires a < f.Size()
    ensures Mul(f, 1, a) == a && Mul(f, a, 1) == a
  {
    EZero(f);
    MulZero(f, 1);
    if a != 0 {
      LogE(f, a);
      MulE(f, 0, Log(f, a));
      MulComm(f, 1, a);
    }
  }

  lemma {:induction false} EInverse(f: GF, k: int)
    ensures Mul(f, E(f, k), E(f, -k)) == 1
  {
    MulE(f, k, -k);
    EZero(f);
  }

  ghost function Inv(f: GF, d: nat): nat
    requires 0 < d < f.Size()
  {
    Negated(f, Log(f, d))
  }

  ghost function Negated(f: GF, k: int): nat { E(f, -k) }

  lemma {:induction false} InvCorrect(f: GF, d: nat, k: int)
    requires 0 < d < f.Size() && d == E(f, k)
    ensures Inv(f, d) == E(f, -k) && Mul(f, Inv(f, d), d) == 1
  {
    hide Mul, E;
    ELog(f, k);
    NegatedResidue(f, k);
    EInverse(f, k);
    MulComm(f, d, Inv(f, d));
  }

  lemma {:induction false} NegatedResidue(f: GF, k: int)
    ensures Negated(f, k % f.NN()) == Negated(f, k)
  {
    NNPositive(f);
    hide E;
    assert -(k % f.NN()) == -k + f.NN() * (k / f.NN());
    EPeriod(f, -k, k / f.NN());
  }

  lemma {:induction false} EZero(f: GF)
    ensures E(f, 0) == 1
  {
    EIs(f, 0);
    SmallMod(0, f.NN());
  }

  lemma {:induction false} MulNonzero(f: GF, a: nat, b: nat)
    requires 0 < a < f.Size() && 0 < b < f.Size()
    ensures Mul(f, a, b) != 0
  {
    LogE(f, a);
    LogE(f, b);
    MulE(f, Log(f, a), Log(f, b));
    EIn(f, Log(f, a) + Log(f, b));
  }
}
