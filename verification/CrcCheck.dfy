/** Values that the checksum takes, and the residue of a message followed by its own checksum. */
module CrcCheck {
  import opened Bits
  import opened Crc32

  // ----- Values: the register as a machine word.

  ghost function Half(v: bv32): bv32 { v >> 1 }

  ghost function LowBit(v: bv32): nat { if v & 1 == 1 then 1 else 0 }

  ghost function WordXor(u: bv32, v: bv32): bv32 { u ^ v }

  /** The number a word stands for. */
  ghost function Value(v: bv32): nat
    decreases v
  {
    if v == 0 then 0 else 2 * Value(Half(v)) + LowBit(v)
  }

  lemma {:induction false} ValueStep(v: bv32)
    ensures Value(v) == 2 * Value(Half(v)) + LowBit(v) && LowBit(v) < 2
  {
  }

  lemma {:induction false} BitFacts(u: bv32, v: bv32)
    ensures Half(WordXor(u, v)) == WordXor(Half(u), Half(v))
    ensures LowBit(WordXor(u, v)) == (LowBit(u) + LowBit(v)) % 2
  {
  }

  lemma {:induction false} HalfLess(u: bv32, v: bv32)
    ensures if u == 0 then WordXor(u, v) == v else Half(u) < u
  {
  }

  lemma {:induction false} XorWords(u: bv32, v: bv32)
    ensures Xor(Value(u), Value(v)) == Value(WordXor(u, v))
    decreases u
  {
    hide Xor, LowBit, WordXor, Half, Value;
    BitFacts(u, v);
    HalfLess(u, v);
    if u == 0 {
      assert Value(0) == 0 by { ZeroValue(); }
      XorZero(Value(v));
    } else {
      XorWords(Half(u), Half(v));
      ValueStep(u);
      ValueStep(v);
      ValueStep(WordXor(u, v));
      XorBits(Value(Half(u)), Value(Half(v)), LowBit(u), LowBit(v));
    }
  }

  lemma {:induction false} ZeroValue()
    ensures Value(0) == 0
  {
  }

  lemma {:induction false} XorBits(a: nat, b: nat, x: nat, y: nat)
    requires x < 2 && y < 2
    ensures Xor(2 * a + x, 2 * b + y) == 2 * Xor(a, b) + (x + y) % 2
  {
    hide Xor;
    XorHalf(2 * a + x, 2 * b + y);
    assert (2 * a + x) / 2 == a && (2 * b + y) / 2 == b;
    assert (2 * a + x + (2 * b + y)) % 2 == (x + y) % 2;
  }

  /** A hexadecimal digit. */
  ghost function Digit(v: bv32): nat { 8 * LowBit(Half(Half(Half(v)))) + 4 * LowBit(Half(Half(v))) + 2 * LowBit(Half(v)) + LowBit(v) }

  ghost function Up(v: bv32): bv32 { Half(Half(Half(Half(v)))) }

  lemma {:induction false} ValueDigit(v: bv32)
    ensures Value(v) == 16 * Value(Up(v)) + Digit(v)
  {
    hide LowBit, Half, Value;
    ValueStep(v);
    ValueStep(Half(v));
    ValueStep(Half(Half(v)));
    ValueStep(Half(Half(Half(v))));
  }

  lemma {:induction false} NoMoreDigits(v: bv32)
    ensures Value(Up(Up(Up(Up(Up(Up(Up(Up(v)))))))))  == 0
  {
    ZeroValue();
  }

  lemma {:induction false} Digits(v: bv32)
    ensures var w := Up(Up(Up(Up(v))));
            Value(v) ==
              0x1_0000 * (0x1000 * Digit(Up(Up(Up(w)))) + 0x100 * Digit(Up(Up(w))) + 0x10 * Digit(Up(w)) + Digit(w))
              + 0x1000 * Digit(Up(Up(Up(v)))) + 0x100 * Digit(Up(Up(v))) + 0x10 * Digit(Up(v)) + Digit(v)
  {
    hide Digit, Up, Value;
    var w := Up(Up(Up(Up(v))));
    NoMoreDigits(v);
    ValueDigit(v);
    ValueDigit(Up(v));
    ValueDigit(Up(Up(v)));
    ValueDigit(Up(Up(Up(v))));
    ValueDigit(w);
    ValueDigit(Up(w));
    ValueDigit(Up(Up(w)));
    ValueDigit(Up(Up(Up(w))));
  }

  lemma {:induction false} PolyValue()
    ensures Value(0xEDB88320) == POLY
  {
    hide Value;
    Digits(0xEDB88320);
  }

  lemma {:induction false} OnesValue()
    ensures Value(0xFFFFFFFF) == ONES
  {
    hide Value;
    Digits(0xFFFFFFFF);
  }

  /** One step of the register, on words. */
  ghost function WordStep(v: bv32): bv32 { if v & 1 == 1 then (v >> 1) ^ 0xEDB88320 else v >> 1 }

  lemma {:induction false} WordStepIs(v: bv32)
    ensures WordStep(v) == if LowBit(v) == 1 then WordXor(Half(v), 0xEDB88320) else Half(v)
  {
  }

  lemma {:induction false} StepWord(v: bv32)
    ensures Step(Value(v)) == Value(WordStep(v))
  {
    hide Value, LowBit, Half, WordXor, WordStep, Xor;
    ValueStep(v);
    WordStepIs(v);
    PolyValue();
    XorWords(Half(v), 0xEDB88320);
  }

  ghost function FourWordSteps(v: bv32): bv32 { WordStep(WordStep(WordStep(WordStep(v)))) }

  ghost function ByteStep(v: bv32, w: bv32): bv32 { FourWordSteps(FourWordSteps(v ^ w)) }

  lemma {:induction false} FourSteps(n: nat, c: nat)
    ensures Steps(n + 4, c) == Step(Step(Step(Step(Steps(n, c)))))
  {
    hide Step;
    assert Steps(n + 3, c) == Step(Steps(n + 2, c));
    assert Steps(n + 2, c) == Step(Steps(n + 1, c));
  }

  lemma {:induction false} FourStepWords(v: bv32)
    ensures Step(Step(Step(Step(Value(v))))) == Value(FourWordSteps(v))
  {
    hide Value, WordStep, Step;
    StepWord(v);
    StepWord(WordStep(v));
    StepWord(WordStep(WordStep(v)));
    StepWord(WordStep(WordStep(WordStep(v))));
  }

  lemma {:induction false} ByteWord(v: bv32, w: bv32)
    ensures Steps(8, Xor(Value(v), Value(w))) == Value(ByteStep(v, w))
  {
    hide Value, Xor, Step, FourWordSteps;
    XorWords(v, w);
    var c := Xor(Value(v), Value(w));
    FourSteps(4, c);
    FourSteps(0, c);
    FourStepWords(v ^ w);
    FourStepWords(FourWordSteps(v ^ w));
  }

  // ----- The check value: the digits 1 to 9.

  const DIGITS: seq<nat> := [0x31, 0x32, 0x33, 0x34, 0x35, 0x36, 0x37, 0x38, 0x39]

  lemma {:induction false} DigitValues()
    ensures Value(0x31) == 0x31 && Value(0x32) == 0x32 && Value(0x33) == 0x33
    ensures Value(0x34) == 0x34 && Value(0x35) == 0x35 && Value(0x36) == 0x36
    ensures Value(0x37) == 0x37 && Value(0x38) == 0x38 && Value(0x39) == 0x39
  {
    LowByte(0x31);
    LowByte(0x32);
    LowByte(0x33);
    LowByte(0x34);
    LowByte(0x35);
    LowByte(0x36);
    LowByte(0x37);
    LowByte(0x38);
    LowByte(0x39);
  }

  lemma {:induction false} LowByte(v: bv32)
    requires v < 0x100
    ensures Value(v) == 16 * Digit(Up(v)) + Digit(v)
  {
    hide Value, Digit;
    ZeroValue();
    ValueDigit(v);
    ValueDigit(Up(v));
    assert Up(Up(v)) == 0;
  }

  lemma {:induction false} Clock(b: seq<nat>, i: nat, v: bv32, w: bv32, x: bv32)
    requires i < |b| && Serial(ONES, b[..i]) == Value(v) && b[i] == Value(w) && ByteStep(v, w) == x
    ensures Serial(ONES, b[..i + 1]) == Value(x)
  {
    hide Value, Xor, ByteStep, Serial, Steps;
    SerialNext(ONES, b, i);
    ByteWord(v, w);
  }

  lemma {:induction false} Registers()
    ensures ByteStep(0xFFFFFFFF, 0x31) == 0x7C231048
    ensures ByteStep(0x7C231048, 0x32) == 0xB0ACBB32
    ensures ByteStep(0xB0ACBB32, 0x33) == 0x77B79C2D
    ensures ByteStep(0x77B79C2D, 0x34) == 0x641C1F5C
    ensures ByteStep(0x641C1F5C, 0x35) == 0x340AC5E3
    ensures ByteStep(0x340AC5E3, 0x36) == 0xF68D2C9E
    ensures ByteStep(0xF68D2C9E, 0x37) == 0xAFFC9660
    ensures ByteStep(0xAFFC9660, 0x38) == 0x651F2550
    ensures ByteStep(0x651F2550, 0x39) == 0x340BC6D9
  {
  }

  /** The check value of CRC-32. */
  lemma {:induction false} CheckValue()
    ensures Crc(DIGITS) == 0xCBF43926
  {
    hide Value, Xor, ByteStep, Serial;
    var b := DIGITS;
    OnesValue();
    DigitValues();
    Registers();
    SerialStart(ONES);
    assert b[..0] == [];
    Clock(b, 0, 0xFFFFFFFF, 0x31, 0x7C231048);
    Clock(b, 1, 0x7C231048, 0x32, 0xB0ACBB32);
    Clock(b, 2, 0xB0ACBB32, 0x33, 0x77B79C2D);
    Clock(b, 3, 0x77B79C2D, 0x34, 0x641C1F5C);
    Clock(b, 4, 0x641C1F5C, 0x35, 0x340AC5E3);
    Clock(b, 5, 0x340AC5E3, 0x36, 0xF68D2C9E);
    Clock(b, 6, 0xF68D2C9E, 0x37, 0xAFFC9660);
    Clock(b, 7, 0xAFFC9660, 0x38, 0x651F2550);
    Clock(b, 8, 0x651F2550, 0x39, 0x340BC6D9);
    assert b[..9] == b;
    Complement(0x340BC6D9);
    Digits(0xCBF43926);
  }

  lemma {:induction false} Complement(v: bv32)
    ensures Xor(Value(v), ONES) == Value(v ^ 0xFFFFFFFF)
  {
    hide Value, Xor;
    OnesValue();
    XorWords(v, 0xFFFFFFFF);
  }

  // ----- The residue.

  /** A word as four bytes, low byte first. */
  function LowFirst(v: nat): seq<nat> { [v % 0x100, v / 0x100 % 0x100, v / 0x1_0000 % 0x100, v / 0x100_0000 % 0x100] }

  lemma {:induction false} SerialAppend(c: nat, a: seq<nat>, b: seq<nat>)
    ensures Serial(c, a + b) == Serial(Serial(c, a), b)
  {
    hide Xor, Steps;
    if b == [] {
      assert a + b == a;
    } else {
      var n := |b| - 1;
      assert (a + b)[..|a| + n] == a + b[..n];
      SerialAppend(c, a, b[..n]);
    }
  }

  /** Eight steps use up the low byte of what is added; the other bytes move down. */
  lemma {:induction false} ByteUsed(c: nat, v: nat)
    ensures Steps(8, Xor(c, v)) == Xor(Steps(8, Xor(c, v % 256)), v / 256)
  {
    hide Xor, Steps, Pow2;
    var h, l := v / 256, v % 256;
    Pow8();
    XorLow(h, l, 8);
    assert v == h * 256 + l;
    XorComm(h * 256, l);
    XorAssoc(c, l, h * 256);
    StepsXor(8, Xor(c, l), h * 256);
    ShiftOut(8, h);
  }

  lemma {:induction false} StepsAdd(m: nat, n: nat, c: nat)
    ensures Steps(m + n, c) == Steps(m, Steps(n, c))
  {
    hide Step;
    if m > 0 { StepsAdd(m - 1, n, c); }
  }

  /** Four bytes are taken up as one word. */
  lemma {:induction false} WordTaken(c: nat, v: nat)
    requires v < 0x1_0000_0000
    ensures Serial(c, LowFirst(v)) == Steps(32, Xor(c, v))
  {
    hide Xor, Steps, Serial;
    var b := LowFirst(v);
    SerialStart(c);
    assert b[..0] == [] && b[..4] == b;
    SerialNext(c, b, 0);
    SerialNext(c, b, 1);
    SerialNext(c, b, 2);
    SerialNext(c, b, 3);
    ByteUsed(c, v);
    ByteUsed(Serial(c, b[..1]), v / 0x100);
    ByteUsed(Serial(c, b[..2]), v / 0x1_0000);
    ByteUsed(Serial(c, b[..3]), v / 0x100_0000);
    XorZero(Serial(c, b));
    var x := Xor(c, v);
    StepsAdd(8, 8, x);
    StepsAdd(8, 16, x);
    StepsAdd(8, 24, x);
  }

  lemma {:induction false} OneByteOn(n: nat, c: nat, v: bv32, x: bv32)
    requires Steps(n, c) == Value(v) && ByteStep(v, 0) == x
    ensures Steps(n + 8, c) == Value(x)
  {
    hide Value, Xor, Steps, ByteStep;
    StepsAdd(8, n, c);
    ByteWord(v, 0);
    ZeroValue();
    XorZero(Value(v));
  }

  lemma {:induction false} FourBytes()
    ensures ByteStep(0xFFFFFFFF, 0) == 0x2DFD1072
    ensures ByteStep(0x2DFD1072, 0) == 0xBE26ED00
    ensures ByteStep(0xBE26ED00, 0) == 0x00BE26ED
    ensures ByteStep(0x00BE26ED, 0) == 0xDEBB20E3
  {
  }

  lemma {:induction false} OnesCleared()
    ensures Steps(32, ONES) == Value(0xDEBB20E3)
  {
    hide Value, Xor, Steps, ByteStep;
    OnesValue();
    FourBytes();
    StepsStart(ONES);
    OneByteOn(0, ONES, 0xFFFFFFFF, 0x2DFD1072);
    OneByteOn(8, ONES, 0x2DFD1072, 0xBE26ED00);
    OneByteOn(16, ONES, 0xBE26ED00, 0x00BE26ED);
    OneByteOn(24, ONES, 0x00BE26ED, 0xDEBB20E3);
  }

  /** A message followed by its own checksum, low byte first, leaves the same residue whatever the message. */
  lemma {:induction false} Residue(m: seq<nat>)
    requires Bytes(m)
    ensures Crc(m + LowFirst(Crc(m))) == 0x2144DF1C
  {
    hide Value, Xor, Steps, Serial, LowFirst;
    var c := Serial(ONES, m);
    CrcBound(m);
    SerialAppend(ONES, m, LowFirst(Crc(m)));
    WordTaken(c, Crc(m));
    XorCancel(c, ONES);
    OnesCleared();
    Complement(0xDEBB20E3);
    Digits(0x2144DF1C);
  }
}
