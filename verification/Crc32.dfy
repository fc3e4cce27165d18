/** CRC-32, the frame check sequence of section 3.2.9 of IEEE 802.3: the table-driven computation, the
    bit-serial definition, and the header checksums of a GPT disk. */
module Crc32 {
  import opened Bits

  /** The reflected generator polynomial. */
  const POLY := 0xEDB88320
  const ONES := 0xFFFFFFFF

  /** One bit of the reflected shift register. */
  function Step(c: nat): nat { if c % 2 == 1 then Xor(c / 2, POLY) else c / 2 }

  function Steps(n: nat, c: nat): nat { if n == 0 then c else Step(Steps(n - 1, c)) }

  ghost predicate Bytes(b: seq<nat>) { forall i | 0 <= i < |b| :: b[i] < 256 }

  /** The register after the bytes, bit by bit, from register c. */
  ghost function Serial(c: nat, b: seq<nat>): nat {
    if b == [] then c else Steps(8, Xor(Serial(c, b[..|b| - 1]), b[|b| - 1]))
  }

  /** The checksum: register preset to ones, complemented at the end. */
  ghost function Crc(b: seq<nat>): nat { Xor(Serial(ONES, b), ONES) }

  // ----- Linearity.

  lemma {:induction false} StepXor(a: nat, b: nat)
    ensures Step(Xor(a, b)) == Xor(Step(a), Step(b))
  {
    hide Xor;
    XorParts(a, b);
    XorFour(a / 2, POLY, b / 2, POLY);
    XorSelf(POLY);
    XorZero(Xor(a / 2, b / 2));
    XorAssoc(a / 2, b / 2, POLY);
    XorAssoc(a / 2, POLY, b / 2);
    XorComm(b / 2, POLY);
    OddSum(a, b);
  }

  lemma {:induction false} OddSum(a: nat, b: nat)
    ensures (a + b) % 2 == (if a % 2 == b % 2 then 0 else 1)
  {
  }

  lemma {:induction false} StepsXor(n: nat, a: nat, b: nat)
    ensures Steps(n, Xor(a, b)) == Xor(Steps(n, a), Steps(n, b))
  {
    hide Xor, Step;
    if n > 0 {
      StepsXor(n - 1, a, b);
      StepXor(Steps(n - 1, a), Steps(n - 1, b));
    }
  }

  lemma {:induction false} ShiftOut(n: nat, h: nat)
    ensures Steps(n, h * Pow2(n)) == h
  {
    hide Xor;
    if n > 0 {
      hide Pow2;
      DoublePow(n - 1, h);
      ShiftOut(n - 1, 2 * h);
    } else {
      assert Pow2(0) == 1;
    }
  }

  lemma {:induction false} DoublePow(n: nat, h: nat)
    ensures h * Pow2(n + 1) == 2 * h * Pow2(n) == 2 * (h * Pow2(n))
  {
    var p := Pow2(n);
    assert Pow2(n + 1) == 2 * p;
    Reorder(h, p);
  }

  lemma {:induction false} Reorder(h: nat, p: nat)
    ensures h * (2 * p) == 2 * h * p == 2 * (h * p)
  {
  }

  lemma {:induction false} XorLow(h: nat, l: nat, n: nat)
    requires l < Pow2(n)
    ensures Xor(h * Pow2(n), l) == h * Pow2(n) + l
  {
    if n == 0 {
      XorZero(h);
      assert Pow2(0) == 1 && h * 1 == h;
    } else {
      HalfBound(l, n);
      XorLow(h, l / 2, n - 1);
      DoublePow(n - 1, h);
      JoinHalves(h * Pow2(n - 1), l);
    }
  }

  lemma {:induction false} HalfBound(l: nat, n: nat)
    requires n > 0 && l < Pow2(n)
    ensures l / 2 < Pow2(n - 1)
  {
  }

  lemma {:induction false} JoinHalves(p: nat, l: nat)
    requires Xor(p, l / 2) == p + l / 2
    ensures Xor(2 * p, l) == 2 * p + l
  {
    XorHalf(2 * p, l);
    assert 2 * p / 2 == p;
  }

  /** A table lookup on the low byte does eight steps at once. */
  lemma {:induction false} EightSteps(x: nat)
    ensures Steps(8, x) == Xor(x / 256, Steps(8, x % 256))
  {
    hide Xor, Pow2, Steps;
    Pow8();
    XorLow(x / 256, x % 256, 8);
    assert x == x / 256 * 256 + x % 256;
    StepsXor(8, x / 256 * 256, x % 256);
    ShiftOut(8, x / 256);
  }

  /** A byte does not reach the bits above it. */
  lemma {:induction false} XorByte(c: nat, b: nat)
    requires b < 256
    ensures Xor(c, b) / 256 == c / 256
  {
    hide Xor, Pow2;
    var h, l := c / 256, c % 256;
    Pow8();
    XorLow(h, l, 8);
    assert c == h * 256 + l;
    XorAssoc(h * 256, l, b);
    XorBound(l, b, 8);
    XorLow(h, Xor(l, b), 8);
    DivModUnique(h * 256 + Xor(l, b), 256, h, Xor(l, b));
  }

  // ----- Errors in one byte.

  lemma {:induction false} Words()
    ensures Pow2(31) == 0x8000_0000 && Pow2(32) == 0x1_0000_0000
  {
    assert Pow2(4) == 16;
    assert Pow2(8) == 256;
    assert Pow2(12) == 4096;
    assert Pow2(16) == 65536;
    assert Pow2(20) == 1048576;
    assert Pow2(24) == 16777216;
    assert Pow2(28) == 268435456;
  }

  lemma {:induction false} StepBound(c: nat)
    requires c < Pow2(32)
    ensures Step(c) < Pow2(32)
    ensures Step(c) >= Pow2(31) <==> c % 2 == 1
  {
    hide Xor, Pow2;
    Words();
    XorBound(c / 2, POLY, 32);
    XorTop(c / 2, POLY, 31);
  }

  lemma {:induction false} StepInjective(a: nat, b: nat)
    requires a < Pow2(32) && b < Pow2(32) && Step(a) == Step(b)
    ensures a == b
  {
    hide Xor, Pow2;
    StepBound(a);
    StepBound(b);
    XorCancel(a / 2, POLY);
    XorCancel(b / 2, POLY);
    SameParts(a, b);
  }

  lemma {:induction false} StepsBound(n: nat, c: nat)
    requires c < Pow2(32)
    ensures Steps(n, c) < Pow2(32)
  {
    hide Xor, Pow2, Step;
    if n > 0 {
      StepsBound(n - 1, c);
      StepBound(Steps(n - 1, c));
    }
  }

  lemma {:induction false} StepsInjective(n: nat, a: nat, b: nat)
    requires a < Pow2(32) && b < Pow2(32) && Steps(n, a) == Steps(n, b)
    ensures a == b
  {
    hide Xor, Pow2, Step;
    if n > 0 {
      StepsBound(n - 1, a);
      StepsBound(n - 1, b);
      StepInjective(Steps(n - 1, a), Steps(n - 1, b));
      StepsInjective(n - 1, a, b);
    }
  }

  lemma {:induction false} ByteBound(c: nat, b: nat)
    requires c < Pow2(32) && b < 256
    ensures Xor(c, b) < Pow2(32)
  {
    hide Xor, Pow2;
    Words();
    XorBound(c, b, 32);
  }

  lemma {:induction false} SerialBound(c: nat, b: seq<nat>)
    requires c < Pow2(32) && Bytes(b)
    ensures Serial(c, b) < Pow2(32)
  {
    hide Xor, Pow2, Steps;
    if b != [] {
      var d := Serial(c, b[..|b| - 1]);
      SerialBound(c, b[..|b| - 1]);
      ByteBound(d, b[|b| - 1]);
      StepsBound(8, Xor(d, b[|b| - 1]));
    }
  }

  /** Messages that differ in one byte leave different registers. */
  lemma {:induction false} SerialDiffers(c: nat, a: seq<nat>, b: seq<nat>, k: nat)
    requires c < Pow2(32) && Bytes(a) && Bytes(b) && |a| == |b| && k < |a| && a[k] != b[k]
    requires forall i | 0 <= i < |a| && i != k :: a[i] == b[i]
    ensures Serial(c, a) != Serial(c, b)
  {
    hide Xor, Pow2, Steps;
    var n := |a| - 1;
    var x, y := Serial(c, a[..n]), Serial(c, b[..n]);
    SerialBound(c, a[..n]);
    SerialBound(c, b[..n]);
    ByteBound(x, a[n]);
    ByteBound(y, b[n]);
    if k < n {
      SerialDiffers(c, a[..n], b[..n], k);
      XorCancel(x, a[n]);
      XorCancel(y, b[n]);
    } else {
      assert a[..n] == b[..n];
      XorCancel(x, a[n]);
      XorCancel(x, b[n]);
    }
    if Steps(8, Xor(x, a[n])) == Steps(8, Xor(y, b[n])) { StepsInjective(8, Xor(x, a[n]), Xor(y, b[n])); }
  }

  /** Any change confined to one byte changes the checksum. */
  lemma {:induction false} OneByteDetected(a: seq<nat>, b: seq<nat>, k: nat)
    requires Bytes(a) && Bytes(b) && |a| == |b| && k < |a| && a[k] != b[k]
    requires forall i | 0 <= i < |a| && i != k :: a[i] == b[i]
    ensures Crc(a) != Crc(b)
  {
    hide Xor, Pow2, Serial;
    Words();
    SerialDiffers(ONES, a, b, k);
    XorCancel(Serial(ONES, a), ONES);
    XorCancel(Serial(ONES, b), ONES);
  }

  lemma {:induction false} CrcBound(b: seq<nat>)
    requires Bytes(b)
    ensures Crc(b) < 0x1_0000_0000
  {
    hide Xor, Pow2, Serial;
    Words();
    SerialBound(ONES, b);
    XorBound(Serial(ONES, b), ONES, 32);
  }

  // ----- The program.

  ghost predicate TableHolds(crcTab: array<nat>)
    reads crcTab
  {
    crcTab.Length == 256 && forall i | 0 <= i < 256 :: crcTab[i] == Steps(8, i)
  }

  /** chksum_crc32gentab */
  method GenTab(crcTab: array<nat>)
    requires crcTab.Length == 256
    modifies crcTab
    ensures TableHolds(crcTab)
  {
    hide Xor, Steps;
    for i := 0 to 256
      invariant forall k | 0 <= k < i :: crcTab[k] == Steps(8, k)
    {
      var crc: nat := i;
      var j := 8;
      StepsStart(i);
      while j > 0
        invariant 0 <= j <= 8 && crc == Steps(8 - j, i)
        invariant forall k | 0 <= k < i :: crcTab[k] == Steps(8, k)
      {
        StepsNext(8 - j, i);
        if crc % 2 == 1 {
          crc := Xor(crc / 2, POLY);
        } else {
          crc := crc / 2;
        }
        j := j - 1;
      }
      assert crc == Steps(8, i);
      crcTab[i] := crc;
    }
  }

  lemma {:induction false} StepsStart(c: nat)
    ensures Steps(0, c) == c
  {
  }

  lemma {:induction false} StepsNext(n: nat, c: nat)
    ensures Steps(n + 1, c) == Step(Steps(n, c))
  {
  }

  lemma {:induction false} SerialStart(c: nat)
    ensures Serial(c, []) == c
  {
  }

  lemma {:induction false} SerialNext(c: nat, b: seq<nat>, i: nat)
    requires i < |b|
    ensures Serial(c, b[..i + 1]) == Steps(8, Xor(Serial(c, b[..i]), b[i]))
  {
    assert b[..i + 1][..i] == b[..i];
  }

  /** chksum_crc32 */
  method Checksum(crcTab: array<nat>, block: seq<nat>) returns (crc: nat)
    requires TableHolds(crcTab) && Bytes(block)
    ensures crc == Crc(block)
  {
    hide Xor, Steps, Serial;
    SerialStart(ONES);
    crc := ONES;
    assert block[..0] == [];
    for i := 0 to |block|
      invariant crc == Serial(ONES, block[..i])
    {
      SerialNext(ONES, block, i);
      EightSteps(Xor(crc, block[i]));
      XorByte(crc, block[i]);
      crc := Xor(crc / 256, crcTab[Xor(crc, block[i]) % 256]);
    }
    assert block[..|block|] == block;
    crc := Xor(crc, ONES);
  }
}
