/** The encoder that frames come from: a shift register of any length, and for each symbol the parity of the
    register bits that its polynomial taps. */
module FrameEncoder {
  import opened Bits
  import opened ConvolutionalCode

  function Bit(w: nat, pos: nat): (b: nat)
    ensures b < 2
  {
    w / Pow2(pos) % 2
  }

  /** Number of positions below n at which both numbers have a bit set. */
  function Common(x: nat, p: nat, n: nat): nat {
    if n == 0 then 0 else Common(x, p, n - 1) + if Bit(x, n - 1) == 1 && Bit(p, n - 1) == 1 then 1 else 0
  }

  /** The symbol sent for register contents sr: 255 when an odd number of its low n bits is tapped, else 0;
      the other way round for a negative polynomial. */
  function SentSymbol(p: int, sr: nat, n: nat): nat {
    if p >= 0 then (if Common(sr, p, n) % 2 == 1 then 255 else 0) else if Common(sr, -p, n) % 2 == 1 then 0 else 255
  }

  /** The shift register after the first i bits: it is never cut off. */
  ghost function Shifted(bits: seq<nat>, i: nat): nat
    requires i <= |bits|
  {
    if i == 0 then 0 else 2 * Shifted(bits, i - 1) + bits[i - 1]
  }

  /** How far the first j symbols received from position `at` on are from the symbols sent for sr. */
  ghost function GroupNoise(c: Code, sr: nat, syms: seq<nat>, at: nat, j: nat): nat
    requires j <= |c.polys| && at + j <= |syms|
  {
    if j == 0 then 0 else GroupNoise(c, sr, syms, at, j - 1) + Abs(SentSymbol(c.polys[j - 1], sr, c.k) - syms[at + j - 1])
  }

  /** How far the symbols received are from those sent for the first i bits. */
  ghost function Noise(c: Code, bits: seq<nat>, syms: seq<nat>, i: nat): nat
    requires i <= |bits| && |c.polys| * i <= |syms|
  {
    if i == 0 then 0
    else
      TimesStep(|c.polys|, i);
      Noise(c, bits, syms, i - 1) + GroupNoise(c, Shifted(bits, i), syms, |c.polys| * (i - 1), |c.polys|)
  }

  /** The symbols received are those sent. */
  ghost predicate Clean(c: Code, bits: seq<nat>, syms: seq<nat>, i: nat)
    requires i <= |bits| && |c.polys| * i <= |syms|
  {
    forall m: nat | m < i :: CleanGroup(c, Shifted(bits, m + 1), syms, |c.polys| * m)
  }

  ghost predicate CleanGroup(c: Code, sr: nat, syms: seq<nat>, at: nat) {
    at + |c.polys| <= |syms| && forall j | 0 <= j < |c.polys| :: syms[at + j] == SentSymbol(c.polys[j], sr, c.k)
  }

  /** There is no noise exactly when every symbol is the one sent. */
  lemma {:induction false} CleanIff(c: Code, bits: seq<nat>, syms: seq<nat>, i: nat)
    requires i <= |bits| && |c.polys| * i <= |syms|
    ensures Noise(c, bits, syms, i) == 0 <==> Clean(c, bits, syms, i)
  {
    hide Shifted, CleanGroup, GroupNoise;
    var n := |c.polys|;
    if i > 0 {
      TimesStep(n, i);
      CleanIff(c, bits, syms, i - 1);
      CleanGroupIff(c, Shifted(bits, i), syms, n * (i - 1), n);
    }
  }

  lemma {:induction false} CleanGroupIff(c: Code, sr: nat, syms: seq<nat>, at: nat, j: nat)
    requires j <= |c.polys| && at + |c.polys| <= |syms|
    ensures GroupNoise(c, sr, syms, at, j) == 0 <==> forall m | 0 <= m < j :: syms[at + m] == SentSymbol(c.polys[m], sr, c.k)
    ensures j == |c.polys| ==> (GroupNoise(c, sr, syms, at, j) == 0 <==> CleanGroup(c, sr, syms, at))
  {
    hide SentSymbol;
    if j > 0 { CleanGroupIff(c, sr, syms, at, j - 1); }
  }

  // ----- The parity of the decoder's tables.

  lemma {:induction false} BitHalf(w: nat, pos: nat)
    ensures pos == 0 ==> Bit(w, pos) == w % 2
    ensures pos > 0 ==> Bit(w, pos) == Bit(w / 2, pos - 1)
  {
    if pos > 0 { DivTwice(w, Pow2(pos - 1)); }
  }

  lemma {:induction false} CommonHalf(x: nat, p: nat, n: nat)
    ensures Common(x, p, n + 1) == (if x % 2 == 1 && p % 2 == 1 then 1 else 0) + Common(x / 2, p / 2, n)
  {
    hide Bit;
    if n == 0 {
      BitHalf(x, 0);
      BitHalf(p, 0);
      assert Common(x, p, 0) == 0 && Common(x / 2, p / 2, 0) == 0;
    } else {
      BitHalf(x, n);
      BitHalf(p, n);
      CommonHalf(x, p, n - 1);
    }
  }

  /** The parity is that of the number of common bits. */
  lemma {:induction false} ParityIsCount(x: nat, p: nat, n: nat)
    requires p < Pow2(n)
    ensures ParityAnd(x, p) == Common(x, p, n) % 2
  {
    if n == 0 {
      NoTaps(x);
    } else {
      hide Common, ParityAnd, Pow2;
      HalfTaps(p, n);
      ParityIsCount(x / 2, p / 2, n - 1);
      CommonHalf(x, p, n - 1);
      ParityStep(x, p);
      AddParity(x % 2, p % 2, Common(x / 2, p / 2, n - 1));
    }
  }

  lemma {:induction false} HalfTaps(p: nat, n: nat)
    requires n > 0 && p < Pow2(n)
    ensures p / 2 < Pow2(n - 1)
  {
  }

  lemma {:induction false} AddParity(a: nat, b: nat, c: nat)
    requires a < 2 && b < 2
    ensures (a * b + c % 2) % 2 == ((if a == 1 && b == 1 then 1 else 0) + c) % 2
  {
    assert a * b == if a == 1 && b == 1 then 1 else 0;
  }

  lemma {:induction false} NoTaps(x: nat)
    ensures ParityAnd(x, 0) == 0
  {
    assert ParityAnd(0, 0) == 0;
    if x > 0 {
      hide ParityAnd;
      NoTaps(x / 2);
      ParityStep(x, 0);
      assert x % 2 * 0 == 0;
    }
  }

  /** What a table symbol is: 255 exactly when the number of taps on set bits is odd, and the inverse for a
      negative polynomial. */
  lemma {:induction false} SymbolIs(p: int, reg: nat, n: nat)
    requires Abs(p) < Pow2(n)
    ensures Symbol(p, reg) == SentSymbol(p, reg, n)
    ensures Symbol(p, reg) == 255 <==> (Common(reg, Abs(p), n) % 2 == 1) != (p < 0)
  {
    hide ParityAnd, Common;
    ParityIsCount(reg, Abs(p), n);
  }

  // ----- The cut-off register of the decoder's theory.

  /** Bits above those tapped do not matter. */
  lemma {:induction false} CommonLow(x: nat, p: nat, n: nat)
    ensures Common(x % Pow2(n), p, n) == Common(x, p, n)
  {
    if n > 0 {
      hide Common;
      var q := Pow2(n - 1);
      ModDouble(x, q);
      CommonHalf(x, p, n - 1);
      CommonHalf(x % Pow2(n), p, n - 1);
      CommonLow(x / 2, p / 2, n - 1);
    }
  }

  lemma {:induction false} ShiftLow(r: nat, b: nat, s: nat)
    requires b < 2 && s >= 1
    ensures (2 * r + b) % (2 * s) == 2 * (r % s) + b
  {
    ModDouble(2 * r + b, s);
    assert (2 * r + b) / 2 == r;
  }

  lemma {:induction false} ModTwice(r: nat, h: nat)
    requires h >= 1
    ensures r % (2 * h) % h == r % h
  {
    var q := r / (2 * h);
    var x := r % (2 * h);
    assert r == h * (2 * q) + x by { assert r == 2 * h * q + x; }
    DivModUnique(r, h, 2 * q + x / h, x % h);
  }

  /** The theory's encoder state is the low end of the register. */
  lemma {:induction false} EncoderIsShifted(c: Code, bits: seq<nat>, i: nat)
    requires c.k >= 2 && Binary(bits) && i <= |bits|
    ensures Encoder(c, 0, bits[..i]) == Shifted(bits, i) % c.States()
    ensures i > 0 ==> LastRegister(c, 0, bits[..i]) == Shifted(bits, i) % Pow2(c.k)
  {
    hide Pow2;
    var h := c.Half();
    assert h >= 1;
    if i == 0 {
      DivModUnique(0, 2 * h, 0, 0);
    } else {
      EncoderIsShifted(c, bits, i - 1);
      assert bits[..i][..i - 1] == bits[..i - 1];
      var r, b := Shifted(bits, i - 1), bits[i - 1];
      PowK(c);
      ShiftLow(r, b, h);
      ShiftLow(r % (2 * h), b, h);
      ModTwice(r, h);
      ShiftLow(r, b, 2 * h);
    }
  }

  lemma {:induction false} PowK(c: Code)
    requires c.k >= 2
    ensures Pow2(c.k) == 2 * c.States()
  {
    assert Pow2(c.k) == 2 * Pow2(c.k - 1) && Pow2(c.k - 1) == 2 * Pow2(c.k - 2);
  }

  lemma {:induction false} GroupNoiseIs(c: Code, sr: nat, syms: seq<nat>, at: nat, j: nat)
    requires TapsSet(c) && j <= |c.polys| && at + |c.polys| <= |syms|
    ensures GroupNoise(c, sr, syms, at, j) == DistanceTo(c.polys, j, sr % Pow2(c.k), syms[at..at + |c.polys|])
  {
    if j > 0 {
      hide Pow2, Common, Symbol;
      GroupNoiseIs(c, sr, syms, at, j - 1);
      var p := c.polys[j - 1];
      SymbolIs(p, sr % Pow2(c.k), c.k);
      CommonLow(sr, Abs(p), c.k);
    }
  }
}
