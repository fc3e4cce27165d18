/** Bitwise exclusive or on unsigned words of any width, kept as numbers. */
module Bits {

  function Pow2(n: nat): (p: nat)
    ensures 1 <= p && (n >= 1 ==> p >= 2)
  {
    if n == 0 then 1 else 2 * Pow2(n - 1)
  }

  lemma {:induction false} Pow8()
    ensures Pow2(8) == 256
  {
    assert Pow2(4) == 16;
  }

  function Xor(a: nat, b: nat): nat {
    if a == 0 then b
    else if b == 0 then a
    else 2 * Xor(a / 2, b / 2) + (a + b) % 2
  }

  lemma {:induction false} XorHalf(a: nat, b: nat)
    ensures Xor(a, b) == 2 * Xor(a / 2, b / 2) + (a + b) % 2
  {
  }

  lemma {:induction false} XorZero(a: nat)
    ensures Xor(a, 0) == a && Xor(0, a) == a
  {
  }

  lemma {:induction false} XorSelf(a: nat)
    ensures Xor(a, a) == 0
  {
    if a > 0 { XorSelf(a / 2); }
  }

  lemma {:induction false} XorComm(a: nat, b: nat)
    ensures Xor(a, b) == Xor(b, a)
  {
    if a > 0 && b > 0 { XorComm(a / 2, b / 2); }
  }

  lemma {:induction false} XorParts(a: nat, b: nat)
    ensures Xor(a, b) / 2 == Xor(a / 2, b / 2)
    ensures Xor(a, b) % 2 == (a + b) % 2
  {
    XorHalf(a, b);
  }

  lemma {:induction false} SameParts(x: nat, y: nat)
    requires x / 2 == y / 2 && x % 2 == y % 2
    ensures x == y
  {
  }

  lemma {:induction false} XorAssoc(a: nat, b: nat, c: nat)
    ensures Xor(Xor(a, b), c) == Xor(a, Xor(b, c))
    decreases a + b + c
  {
    if a == 0 || b == 0 || c == 0 {
      XorZero(a);
      XorZero(b);
      XorZero(c);
      XorZero(Xor(a, b));
      XorZero(Xor(b, c));
    } else {
      hide Xor;
      XorParts(a, b);
      XorParts(b, c);
      XorParts(Xor(a, b), c);
      XorParts(a, Xor(b, c));
      XorAssoc(a / 2, b / 2, c / 2);
      SumParity(Xor(a, b), a + b, c);
      SumParity(Xor(b, c), b + c, a);
      SameParts(Xor(Xor(a, b), c), Xor(a, Xor(b, c)));
    }
  }

  lemma {:induction false} SumParity(x: nat, y: nat, c: nat)
    requires x % 2 == y % 2
    ensures (x + c) % 2 == (y + c) % 2 == (c + x) % 2
  {
  }

  lemma {:induction false} XorCancel(a: nat, b: nat)
    ensures Xor(Xor(a, b), b) == a && Xor(a, Xor(a, b)) == b
    ensures Xor(a, b) == 0 <==> a == b
  {
    hide Xor;
    XorAssoc(a, b, b);
    XorAssoc(a, a, b);
    XorSelf(a);
    XorSelf(b);
    XorZero(a);
    XorZero(b);
  }

  lemma {:induction false} XorFour(a: nat, b: nat, c: nat, d: nat)
    ensures Xor(Xor(a, b), Xor(c, d)) == Xor(Xor(a, c), Xor(b, d))
  {
    hide Xor;
    XorAssoc(a, b, Xor(c, d));
    XorAssoc(b, c, d);
    XorComm(b, c);
    XorAssoc(c, b, d);
    XorAssoc(a, c, Xor(b, d));
  }

  lemma {:induction false} XorMod(a: nat, b: nat, n: nat)
    ensures Xor(a, b) % Pow2(n) == Xor(a % Pow2(n), b % Pow2(n))
  {
    if n > 0 {
      var p := Pow2(n - 1);
      XorMod(a / 2, b / 2, n - 1);
      XorParts(a, b);
      ModDouble(a, p);
      ModDouble(b, p);
      ModDouble(Xor(a, b), p);
      XorParts(a % Pow2(n), b % Pow2(n));
      SumParity2(a, b, a % Pow2(n), b % Pow2(n));
      SameParts(Xor(a, b) % Pow2(n), Xor(a % Pow2(n), b % Pow2(n)));
    }
  }

  lemma {:induction false} SumParity2(a: nat, b: nat, c: nat, d: nat)
    requires a % 2 == c % 2 && b % 2 == d % 2
    ensures (a + b) % 2 == (c + d) % 2
  {
  }

  lemma {:induction false} ModDouble(a: nat, p: nat)
    requires p >= 1
    ensures a % (2 * p) / 2 == a / 2 % p
    ensures a % (2 * p) % 2 == a % 2
  {
    var h := a / 2;
    DivModUnique(a, 2 * p, h / p, 2 * (h % p) + a % 2);
  }

  lemma {:induction false} DivModUnique(a: int, n: int, q: int, r: int)
    requires n > 0 && 0 <= r < n && a == n * q + r
    ensures a / n == q && a % n == r
  {
    var q' := a / n;
    assert a == n * q' + a % n;
    assert n * (q - q') == n * q - n * q';
    NonzeroMultiple(n, q - q');
  }

  lemma {:induction false} NonzeroMultiple(n: int, d: int)
    requires n > 0
    ensures d == 0 || n * d >= n || n * d <= -n
  {
    if d > 0 {
      assert n * (d - 1) >= 0;
    } else if d < 0 {
      assert n * (-d - 1) >= 0;
    }
  }

  lemma {:induction false} XorBound(a: nat, b: nat, n: nat)
    requires a < Pow2(n) && b < Pow2(n)
    ensures Xor(a, b) < Pow2(n)
  {
    hide Xor, Pow2;
    XorMod(a, b, n);
    DivModUnique(a, Pow2(n), 0, a);
    DivModUnique(b, Pow2(n), 0, b);
  }

  /** The top bit of an exclusive or is set when exactly one operand has it. */
  lemma {:induction false} XorTop(a: nat, b: nat, n: nat)
    requires a < 2 * Pow2(n) && b < 2 * Pow2(n)
    ensures Xor(a, b) >= Pow2(n) <==> ((a >= Pow2(n)) != (b >= Pow2(n)))
  {
    if n > 0 { XorTop(a / 2, b / 2, n - 1); }
    XorHalf(a, b);
  }
}
