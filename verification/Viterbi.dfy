/** The convolutional code and the exact dynamic programme that the decoders approximate with
    wraparound arithmetic. A code has constraint length k and one polynomial per output symbol; a
    negative polynomial inverts its symbol. */
module ConvolutionalCode {
  import opened Bits

  datatype Code = Code(k: nat, polys: seq<int>) {
    function Half(): nat requires k >= 2 { Pow2(k - 2) }

    /** Number of encoder states, 2^(k-1). */
    function States(): nat requires k >= 2 { 2 * Half() }

    /** Largest distance of one group of received symbols: 255 per symbol. */
    function Span(): nat { 255 * |polys| }
  }

  function Abs(x: int): nat { if x < 0 then -x else x }

  /** parity(x & p) */
  function ParityAnd(x: nat, p: nat): (r: nat)
    ensures r < 2
  {
    if x == 0 then 0 else (x % 2 * (p % 2) + ParityAnd(x / 2, p / 2)) % 2
  }

  /** The symbol polynomial p produces for register contents reg: 0 or 255. */
  function Symbol(p: int, reg: nat): (s: nat)
    ensures s == 0 || s == 255
  {
    if (ParityAnd(reg, Abs(p)) == 1) != (p < 0) then 255 else 0
  }

  /** First and last taps set: the newest and the oldest register bit reach every symbol. */
  predicate TapsSet(c: Code) {
    c.k >= 2 && forall j | 0 <= j < |c.polys| :: Abs(c.polys[j]) % 2 == 1 && Pow2(c.k - 1) <= Abs(c.polys[j]) < Pow2(c.k)
  }

  // ----- Complementary branches.

  lemma {:induction false} LowTap(x: nat, p: nat)
    requires x % 2 == 0 && p % 2 == 1
    ensures ParityAnd(x + 1, p) == 1 - ParityAnd(x, p)
  {
    assert (x + 1) / 2 == x / 2;
    if x == 0 {
      assert ParityAnd(1, p) == (1 * 1 + ParityAnd(0, p / 2)) % 2;
    }
  }

  lemma {:induction false} HighTap(x: nat, p: nat, m: nat)
    requires x < Pow2(m) && Pow2(m) <= p < 2 * Pow2(m)
    ensures ParityAnd(x + Pow2(m), p) == 1 - ParityAnd(x, p)
    decreases m
  {
    if m == 0 {
      assert x == 0 && p == 1;
      assert ParityAnd(1, 1) == (1 + ParityAnd(0, 0)) % 2;
    } else {
      var h := Pow2(m - 1);
      HighTap(x / 2, p / 2, m - 1);
      HalfSum(x, h);
      ParityStep(x, p);
      ParityStep(x + 2 * h, p);
    }
  }

  lemma {:induction false} HalfSum(x: nat, h: nat)
    ensures (x + 2 * h) / 2 == x / 2 + h && (x + 2 * h) % 2 == x % 2
  {
  }

  lemma {:induction false} ParityStep(x: nat, p: nat)
    ensures ParityAnd(x, p) == (x % 2 * (p % 2) + ParityAnd(x / 2, p / 2)) % 2
  {
    if x == 0 { assert ParityAnd(0, p / 2) == 0; }
  }

  /** With both end taps set, changing the newest or the oldest bit inverts every symbol. */
  lemma {:induction false} SymbolFlips(c: Code, j: int, t: nat)
    requires TapsSet(c) && 0 <= j < |c.polys| && t < c.States()
    ensures Symbol(c.polys[j], t + c.States()) == 255 - Symbol(c.polys[j], t)
    ensures t % 2 == 0 ==> Symbol(c.polys[j], t + 1) == 255 - Symbol(c.polys[j], t)
  {
    hide ParityAnd;
    HighTap(t, Abs(c.polys[j]), c.k - 1);
    if t % 2 == 0 { LowTap(t, Abs(c.polys[j])); }
  }

  // ----- Distances.

  ghost function SymbolDistance(p: int, reg: nat, r: nat): nat { Abs(Symbol(p, reg) as int - r as int) }

  /** Soft distance of one group of received symbols from what the first n polynomials produce. */
  ghost function DistanceTo(polys: seq<int>, n: nat, reg: nat, r: seq<nat>): nat
    requires n <= |polys| && n <= |r|
  {
    if n == 0 then 0 else DistanceTo(polys, n - 1, reg, r) + SymbolDistance(polys[n - 1], reg, r[n - 1])
  }

  /** A group of received symbols: one byte per polynomial. */
  ghost predicate Group(c: Code, r: seq<nat>) {
    |r| == |c.polys| && forall j | 0 <= j < |r| :: r[j] <= 255
  }

  ghost function Distance(c: Code, reg: nat, r: seq<nat>): nat
    requires Group(c, r)
  {
    DistanceTo(c.polys, |c.polys|, reg, r)
  }

  lemma {:induction false} DistanceBound(c: Code, reg: nat, r: seq<nat>, n: nat)
    requires Group(c, r) && n <= |r|
    ensures DistanceTo(c.polys, n, reg, r) <= 255 * n
  {
    hide Symbol;
    if n > 0 { DistanceBound(c, reg, r, n - 1); }
  }

  /** Registers with opposite symbols have opposite distances. */
  lemma {:induction false} OppositeDistance(c: Code, a: nat, b: nat, r: seq<nat>, n: nat)
    requires Group(c, r) && n <= |r|
    requires forall j | 0 <= j < n :: Symbol(c.polys[j], b) == 255 - Symbol(c.polys[j], a)
    ensures DistanceTo(c.polys, n, b, r) == 255 * n - DistanceTo(c.polys, n, a, r)
  {
    hide Symbol;
    if n > 0 { OppositeDistance(c, a, b, r, n - 1); }
  }

  /** The four branches of butterfly i: two of them at the distance of register 2i, two at the
      complement. */
  lemma {:induction false} Butterfly(c: Code, i: nat, r: seq<nat>)
    requires TapsSet(c) && i < c.Half() && Group(c, r)
    ensures var m, n := Distance(c, 2 * i, r), c.Span();
            && m <= n
            && Distance(c, 2 * i + 1, r) == n - m
            && Distance(c, 2 * i + c.States(), r) == n - m
            && Distance(c, 2 * i + 1 + c.States(), r) == m
  {
    hide Symbol, DistanceTo;
    var s, n := c.States(), |c.polys|;
    EvenDouble(i);
    forall j | 0 <= j < n
      ensures Symbol(c.polys[j], 2 * i + 1) == 255 - Symbol(c.polys[j], 2 * i)
      ensures Symbol(c.polys[j], 2 * i + s) == 255 - Symbol(c.polys[j], 2 * i)
      ensures Symbol(c.polys[j], 2 * i + 1 + s) == 255 - Symbol(c.polys[j], 2 * i + 1)
    {
      SymbolFlips(c, j, 2 * i);
      SymbolFlips(c, j, 2 * i + 1);
    }
    DistanceBound(c, 2 * i, r, n);
    OppositeDistance(c, 2 * i, 2 * i + 1, r, n);
    OppositeDistance(c, 2 * i, 2 * i + s, r, n);
    OppositeDistance(c, 2 * i + 1, 2 * i + 1 + s, r, n);
  }

  lemma {:induction false} EvenDouble(i: nat)
    ensures 2 * i % 2 == 0 && (2 * i + 1) % 2 == 1 && 2 * i / 2 == i && (2 * i + 1) / 2 == i
  {
  }

  // ----- The exact dynamic programme.

  /** How a decoder is started and how it breaks ties. */
  datatype Setup = Setup(code: Code, bias: nat, start: nat, tieHigh: bool)

  ghost predicate History(c: Code, h: seq<seq<nat>>) { forall m | 0 <= m < |h| :: Group(c, h[m]) }

  /** The two predecessors of state t. */
  function Pred(c: Code, t: nat, d: nat): nat
    requires c.k >= 2
  {
    t / 2 + d * c.Half()
  }

  ghost function Candidate(u: Setup, h: seq<seq<nat>>, t: nat, d: nat): nat
    requires u.code.k >= 2 && History(u.code, h) && |h| > 0
    decreases |h|, 0
  {
    Metric(u, h[..|h| - 1], Pred(u.code, t, d)) + Distance(u.code, t + d * u.code.States(), h[|h| - 1])
  }

  /** 1 when the path from the upper predecessor survives. */
  ghost function Decision(u: Setup, h: seq<seq<nat>>, t: nat): (d: nat)
    requires u.code.k >= 2 && History(u.code, h) && |h| > 0
    ensures d < 2
    decreases |h|, 1
  {
    var m0, m1 := Candidate(u, h, t, 0), Candidate(u, h, t, 1);
    if m0 > m1 || (u.tieHigh && m0 == m1) then 1 else 0
  }

  /** The path metric of state t after the received groups h, over unbounded integers. */
  ghost function Metric(u: Setup, h: seq<seq<nat>>, t: nat): nat
    requires u.code.k >= 2 && History(u.code, h)
    decreases |h|, 2
  {
    if |h| == 0 then (if t == u.start then 0 else u.bias)
    else Candidate(u, h, t, Decision(u, h, t))
  }

  // ----- The encoder, and the distance of one of its runs from the received symbols.

  ghost predicate Binary(bits: seq<nat>) { forall i | 0 <= i < |bits| :: bits[i] < 2 }

  /** Encoder state after shifting in the bits, first bit first, from state s. */
  ghost function Encoder(c: Code, s: nat, bits: seq<nat>): nat
    requires c.k >= 2
  {
    if |bits| == 0 then s else (2 * Encoder(c, s, bits[..|bits| - 1]) + bits[|bits| - 1]) % c.States()
  }

  /** Register contents that produce the last group of symbols of a run. */
  ghost function LastRegister(c: Code, s: nat, bits: seq<nat>): nat
    requires c.k >= 2 && |bits| > 0
  {
    2 * Encoder(c, s, bits[..|bits| - 1]) + bits[|bits| - 1]
  }

  /** Total deviation of the received groups h from the symbols of the encoder run (s, bits). */
  ghost function Deviation(c: Code, h: seq<seq<nat>>, s: nat, bits: seq<nat>): nat
    requires c.k >= 2 && History(c, h) && |bits| == |h|
  {
    if |h| == 0 then 0
    else Deviation(c, h[..|h| - 1], s, bits[..|h| - 1]) + Distance(c, LastRegister(c, s, bits), h[|h| - 1])
  }

  ghost function StartCost(u: Setup, s: nat): nat { if s == u.start then 0 else u.bias }

  /** An encoder run over h that ends in state t. */
  ghost predicate Run(c: Code, h: seq<seq<nat>>, s: nat, bits: seq<nat>, t: nat)
    requires c.k >= 2
  {
    s < c.States() && Binary(bits) && |bits| == |h| && Encoder(c, s, bits) == t
  }

  /** Start state of the surviving path into t. */
  ghost function TraceStart(u: Setup, h: seq<seq<nat>>, t: nat): nat
    requires u.code.k >= 2 && History(u.code, h)
  {
    if |h| == 0 then t else TraceStart(u, h[..|h| - 1], Pred(u.code, t, Decision(u, h, t)))
  }

  /** Bits of the surviving path into t. */
  ghost function TraceBits(u: Setup, h: seq<seq<nat>>, t: nat): seq<nat>
    requires u.code.k >= 2 && History(u.code, h)
  {
    if |h| == 0 then [] else TraceBits(u, h[..|h| - 1], Pred(u.code, t, Decision(u, h, t))) + [t % 2]
  }

  // ----- Maximum likelihood.

  lemma {:induction false} HalfSplit(p: nat, t: nat, half: nat)
    requires half > 0 && p < 2 * half && t < 2 * half
    ensures t == (2 * p + t % 2) % (2 * half) <==> (p == t / 2 || p == t / 2 + half)
    ensures t / 2 < half
  {
    if p < half {
      DivModUnique(2 * p + t % 2, 2 * half, 0, 2 * p + t % 2);
    } else {
      DivModUnique(2 * p + t % 2, 2 * half, 1, 2 * p + t % 2 - 2 * half);
    }
  }

  /** Stepping back to predecessor d and forward again with t's newest bit passes register
      t + d * States and returns to t. */
  lemma {:induction false} PredForward(c: Code, t: nat, d: nat)
    requires c.k >= 2 && t < c.States() && d < 2
    ensures Pred(c, t, d) < c.States()
    ensures 2 * Pred(c, t, d) + t % 2 == t + d * c.States()
    ensures (2 * Pred(c, t, d) + t % 2) % c.States() == t
  {
    hide Pow2;
    assert c.Half() > 0;
    HalfSplit(t / 2, t, c.Half());
    HalfSplit(t / 2 + c.Half(), t, c.Half());
    if d == 0 { } else { assert d == 1; }
  }

  lemma {:induction false} EncoderBound(c: Code, s: nat, bits: seq<nat>)
    requires c.k >= 2 && s < c.States()
    ensures Encoder(c, s, bits) < c.States()
  {
    hide Pow2;
    assert c.Half() > 0;
  }

  /** Survivor metric of either predecessor bounds the metric. */
  lemma {:induction false} MetricIsLeast(u: Setup, h: seq<seq<nat>>, t: nat, d: nat)
    requires u.code.k >= 2 && History(u.code, h) && |h| > 0 && d < 2
    ensures Metric(u, h, t) <= Candidate(u, h, t, d)
    ensures Metric(u, h, t) == Candidate(u, h, t, Decision(u, h, t))
  {
    hide Candidate;
    if d == 0 { } else { assert d == 1; }
  }

  /** The last step of a run goes through one of the two predecessors. */
  lemma {:induction false} RunStep(c: Code, h: seq<seq<nat>>, s: nat, bits: seq<nat>, t: nat) returns (d: nat)
    requires c.k >= 2 && t < c.States() && Run(c, h, s, bits, t) && |h| > 0
    ensures d < 2 && bits[|h| - 1] == t % 2
    ensures Run(c, h[..|h| - 1], s, bits[..|h| - 1], Pred(c, t, d))
    ensures LastRegister(c, s, bits) == t + d * c.States()
  {
    hide Pow2;
    var n := |h| - 1;
    var p := Encoder(c, s, bits[..n]);
    EncoderBound(c, s, bits[..n]);
    assert c.Half() > 0;
    ParityOfStep(p, bits[n], c.Half());
    HalfSplit(p, t, c.Half());
    d := if p == t / 2 then 0 else 1;
    PredForward(c, t, d);
  }

  lemma {:induction false} ParityOfStep(p: nat, b: nat, half: nat)
    requires b < 2 && half > 0
    ensures (2 * p + b) % (2 * half) % 2 == b
  {
    ModDouble(2 * p + b, half);
  }

  /** No encoder run into state t is closer to the received symbols than the metric says. */
  lemma {:induction false} MetricLowerBound(u: Setup, h: seq<seq<nat>>, s: nat, bits: seq<nat>, t: nat)
    requires u.code.k >= 2 && History(u.code, h) && t < u.code.States() && Run(u.code, h, s, bits, t)
    ensures Metric(u, h, t) <= StartCost(u, s) + Deviation(u.code, h, s, bits)
  {
    hide Pow2, Distance, LastRegister, Decision;
    if |h| > 0 {
      hide Metric, Run;
      var n := |h| - 1;
      var d := RunStep(u.code, h, s, bits, t);
      PredForward(u.code, t, d);
      MetricLowerBound(u, h[..n], s, bits[..n], Pred(u.code, t, d));
      MetricIsLeast(u, h, t, d);
    }
  }

  /** The surviving path into t is an encoder run into t at exactly the metric's distance. */
  lemma {:induction false} TraceAttains(u: Setup, h: seq<seq<nat>>, t: nat)
    requires u.code.k >= 2 && History(u.code, h) && t < u.code.States()
    ensures Run(u.code, h, TraceStart(u, h, t), TraceBits(u, h, t), t)
    ensures Metric(u, h, t) == StartCost(u, TraceStart(u, h, t)) + Deviation(u.code, h, TraceStart(u, h, t), TraceBits(u, h, t))
  {
    hide Pow2, Distance, Decision;
    if |h| > 0 {
      hide Metric;
      var n := |h| - 1;
      var d := Decision(u, h, t);
      var p := Pred(u.code, t, d);
      PredForward(u.code, t, d);
      TraceAttains(u, h[..n], p);
      MetricIsLeast(u, h, t, d);
      var bits := TraceBits(u, h, t);
      assert bits[..n] == TraceBits(u, h[..n], p);
      assert LastRegister(u.code, TraceStart(u, h, t), bits) == t + d * u.code.States();
    }
  }

  /** Maximum likelihood: the surviving path into t is the closest encoder run into t, start bias
      included, and the metric is its distance. */
  lemma {:induction false} MaximumLikelihood(u: Setup, h: seq<seq<nat>>, t: nat)
    requires u.code.k >= 2 && History(u.code, h) && t < u.code.States()
    ensures var s, bits := TraceStart(u, h, t), TraceBits(u, h, t);
            && Run(u.code, h, s, bits, t)
            && Metric(u, h, t) == StartCost(u, s) + Deviation(u.code, h, s, bits)
            && forall s': nat, bits': seq<nat> | Run(u.code, h, s', bits', t) ::
                 Metric(u, h, t) <= StartCost(u, s') + Deviation(u.code, h, s', bits')
  {
    hide Metric, Deviation, Encoder, Pow2;
    TraceAttains(u, h, t);
    forall s': nat, bits': seq<nat> | Run(u.code, h, s', bits', t)
      ensures Metric(u, h, t) <= StartCost(u, s') + Deviation(u.code, h, s', bits')
    {
      MetricLowerBound(u, h, s', bits', t);
    }
  }

  // ----- Noise margin.

  lemma {:induction false} RunsSplit(c: Code, s: nat, bits: seq<nat>, s': nat, bits': seq<nat>)
    requires |bits| == |bits'| > 0
    ensures (s, bits) == (s', bits') <==> (s, bits[..|bits| - 1]) == (s', bits'[..|bits| - 1]) && bits[|bits| - 1] == bits'[|bits| - 1]
  {
    var n := |bits| - 1;
    assert bits == bits[..n] + [bits[n]];
    assert bits' == bits'[..n] + [bits'[n]];
  }

  /** Registers that differ in just the newest or just the oldest bit are a full span apart. */
  lemma {:induction false} FullSpan(c: Code, r: seq<nat>, p: nat, b: nat, p': nat, b': nat)
    requires TapsSet(c) && Group(c, r) && p < c.States() && p' < c.States() && b < 2 && b' < 2
    requires (p == p' && b != b') || (p != p' && (2 * p + b) % c.States() == (2 * p' + b') % c.States())
    ensures Distance(c, 2 * p + b, r) + Distance(c, 2 * p' + b', r) == c.Span()
  {
    hide Pow2, Symbol, DistanceTo;
    assert c.Half() > 0;
    if p == p' {
      FullSpanLow(c, r, p);
    } else {
      ParityOfStep(p, b, c.Half());
      ParityOfStep(p', b', c.Half());
      var t := (2 * p + b) % c.States();
      HalfSplit(p, t, c.Half());
      HalfSplit(p', t, c.Half());
      FullSpanHigh(c, r, t);
      PredForward(c, t, 0);
      PredForward(c, t, 1);
    }
  }

  lemma {:induction false} FullSpanLow(c: Code, r: seq<nat>, p: nat)
    requires TapsSet(c) && Group(c, r) && p < c.States()
    ensures Distance(c, 2 * p, r) + Distance(c, 2 * p + 1, r) == c.Span()
  {
    hide Symbol, DistanceTo;
    var n := |c.polys|;
    forall j | 0 <= j < n
      ensures Symbol(c.polys[j], 2 * p + 1) == 255 - Symbol(c.polys[j], 2 * p)
    {
      RegisterFlips(c, j, p);
    }
    DistanceBound(c, 2 * p, r, n);
    OppositeDistance(c, 2 * p, 2 * p + 1, r, n);
  }

  lemma {:induction false} RegisterFlips(c: Code, j: int, p: nat)
    requires TapsSet(c) && 0 <= j < |c.polys| && p < c.States()
    ensures Symbol(c.polys[j], 2 * p + 1) == 255 - Symbol(c.polys[j], 2 * p)
  {
    hide ParityAnd, Pow2;
    EvenDouble(p);
    LowTap(2 * p, Abs(c.polys[j]));
  }

  lemma {:induction false} FullSpanHigh(c: Code, r: seq<nat>, t: nat)
    requires TapsSet(c) && Group(c, r) && t < c.States()
    ensures Distance(c, t, r) + Distance(c, t + c.States(), r) == c.Span()
  {
    hide Symbol, DistanceTo;
    var n := |c.polys|;
    forall j | 0 <= j < n
      ensures Symbol(c.polys[j], t + c.States()) == 255 - Symbol(c.polys[j], t)
    {
      SymbolFlips(c, j, t);
    }
    DistanceBound(c, t, r, n);
    OppositeDistance(c, t, t + c.States(), r, n);
  }

  /** Two different runs: a full span where they part and a full span where they merge. */
  lemma {:induction false} RunsApart(c: Code, h: seq<seq<nat>>, s: nat, bits: seq<nat>, s': nat, bits': seq<nat>)
    requires c.k >= 2 && TapsSet(c) && History(c, h) && (s, bits) != (s', bits')
    requires Run(c, h, s, bits, Encoder(c, s, bits)) && Run(c, h, s', bits', Encoder(c, s', bits'))
    ensures Deviation(c, h, s, bits) + Deviation(c, h, s', bits')
         >= (if s == s' then c.Span() else 0) + (if Encoder(c, s, bits) == Encoder(c, s', bits') then c.Span() else 0)
  {
    hide Distance, TapsSet, Pow2;
    if |h| > 0 {
      var n := |h| - 1;
      var p, p' := Encoder(c, s, bits[..n]), Encoder(c, s', bits'[..n]);
      EncoderBound(c, s, bits[..n]);
      EncoderBound(c, s', bits'[..n]);
      StepApart(c, h[n], p, bits[n], p', bits'[n]);
      if bits[..n] == bits'[..n] && s == s' {
        RunsSplit(c, s, bits, s', bits');
      } else {
        RunsApart(c, h[..n], s, bits[..n], s', bits'[..n]);
      }
    }
  }

  lemma {:induction false} StepApart(c: Code, r: seq<nat>, p: nat, b: nat, p': nat, b': nat)
    requires c.k >= 2 && TapsSet(c) && Group(c, r) && p < c.States() && p' < c.States() && b < 2 && b' < 2
    ensures p == p' && b != b' ==> (2 * p + b) % c.States() != (2 * p' + b') % c.States()
    ensures p == p' && b != b' ==> Distance(c, 2 * p + b, r) + Distance(c, 2 * p' + b', r) == c.Span()
    ensures p != p' && (2 * p + b) % c.States() == (2 * p' + b') % c.States()
        ==> Distance(c, 2 * p + b, r) + Distance(c, 2 * p' + b', r) == c.Span()
  {
    hide Pow2, Distance, TapsSet;
    assert c.Half() > 0;
    ParityOfStep(p, b, c.Half());
    ParityOfStep(p', b', c.Half());
    if (p == p' && b != b') || (p != p' && (2 * p + b) % c.States() == (2 * p' + b') % c.States()) {
      FullSpan(c, r, p, b, p', b');
    }
  }

  ghost function Min(a: int, b: int): int { if a < b then a else b }

  /** Noise margin. A frame whose total deviation c from the symbols of the run that was sent satisfies
      2c < min(bias, span) + span is decoded to exactly the bits of that run. */
  lemma {:induction false} NoiseMargin(u: Setup, h: seq<seq<nat>>, bits: seq<nat>, t: nat)
    requires u.code.k >= 2 && TapsSet(u.code) && History(u.code, h) && t < u.code.States() && Run(u.code, h, u.start, bits, t)
    requires 2 * Deviation(u.code, h, u.start, bits) < Min(u.bias, u.code.Span()) + u.code.Span()
    ensures TraceStart(u, h, t) == u.start && TraceBits(u, h, t) == bits
  {
    hide Deviation, Encoder, TapsSet, Metric, Run;
    TraceAttains(u, h, t);
    MetricLowerBound(u, h, u.start, bits, t);
    var s', bits' := TraceStart(u, h, t), TraceBits(u, h, t);
    MarginBound(u, h, bits, s', bits', t);
  }

  lemma {:induction false} MarginBound(u: Setup, h: seq<seq<nat>>, bits: seq<nat>, s': nat, bits': seq<nat>, t: nat)
    requires u.code.k >= 2 && TapsSet(u.code) && History(u.code, h)
    requires Run(u.code, h, u.start, bits, t) && Run(u.code, h, s', bits', t)
    requires StartCost(u, s') + Deviation(u.code, h, s', bits') <= Deviation(u.code, h, u.start, bits)
    requires 2 * Deviation(u.code, h, u.start, bits) < Min(u.bias, u.code.Span()) + u.code.Span()
    ensures (u.start, bits) == (s', bits')
  {
    hide Deviation, Encoder, TapsSet;
    if (u.start, bits) != (s', bits') {
      RunsApart(u.code, h, u.start, bits, s', bits');
    }
  }

  // ----- Spread of the metrics.

  ghost function Max(a: int, b: int): int { if a < b then b else a }

  /** Bound on the difference of any two metrics, whatever the length of the run. */
  ghost function Spread(u: Setup): int
    requires u.code.k >= 2
  {
    Max(u.bias + u.code.Span() * (u.code.k - 2), u.code.Span() * (u.code.k - 1))
  }

  lemma {:induction false} PredShift(c: Code, t: nat, d: nat, j: nat)
    requires c.k >= 2 && d < 2 && 1 <= j < c.k
    ensures Pred(c, t, d) / Pow2(j - 1) == t / Pow2(j) + d * Pow2(c.k - 1 - j)
  {
    hide Pow2;
    var q, e := Pow2(j - 1), Pow2(c.k - 1 - j);
    PowSum(j - 1, c.k - 1 - j);
    PowStep(j - 1);
    assert c.Half() == q * e;
    DivTwice(t, q);
    if d == 0 {
    } else {
      DivAdd(t / 2, q, e);
    }
  }

  lemma {:induction false} PowStep(j: nat)
    ensures Pow2(j + 1) == 2 * Pow2(j)
  {
  }

  lemma {:induction false} PowSum(a: nat, b: nat)
    ensures Pow2(a + b) == Pow2(a) * Pow2(b)
  {
    if a > 0 {
      PowSum(a - 1, b);
      Associates(Pow2(a - 1), Pow2(b));
    }
  }

  lemma {:induction false} Associates(x: nat, y: nat)
    ensures 2 * x * y == 2 * (x * y)
  {
  }

  lemma {:induction false} DivTwice(t: nat, q: nat)
    requires q > 0
    ensures t / (2 * q) == t / 2 / q
  {
    var h := t / 2;
    DivModUnique(t, 2 * q, h / q, 2 * (h % q) + t % 2);
  }

  lemma {:induction false} DivAdd(x: nat, q: nat, e: nat)
    requires q > 0
    ensures (x + q * e) / q == x / q + e
  {
    assert q * (x / q + e) == q * (x / q) + q * e;
    DivModUnique(x + q * e, q, x / q + e, x % q);
  }

  /** States that agree on all but their j newest bits have metrics at most j spans apart. */
  lemma {:induction false} CommonAncestor(u: Setup, h: seq<seq<nat>>, a: nat, b: nat, j: nat)
    requires u.code.k >= 2 && History(u.code, h) && j <= |h| && j < u.code.k
    requires a / Pow2(j) == b / Pow2(j)
    ensures Metric(u, h, a) <= Metric(u, h, b) + u.code.Span() * j
  {
    hide Pow2, Metric, Decision, Pred, DistanceTo;
    if j == 0 {
      PowZero();
    } else {
      var n := |h| - 1;
      var d := Decision(u, h, b);
      MetricIsLeast(u, h, b, d);
      MetricIsLeast(u, h, a, d);
      PredShift(u.code, a, d, j);
      PredShift(u.code, b, d, j);
      CommonAncestor(u, h[..n], Pred(u.code, a, d), Pred(u.code, b, d), j - 1);
      DistanceBound(u.code, a + d * u.code.States(), h[n], |u.code.polys|);
      TimesStep(u.code.Span(), j);
    }
  }

  lemma {:induction false} PowZero()
    ensures Pow2(0) == 1
  {
  }

  lemma {:induction false} TimesStep(x: nat, j: nat)
    requires j > 0
    ensures x * j == x * (j - 1) + x && x * (j - 1) >= 0
  {
  }

  lemma {:induction false} EarlyBound(u: Setup, h: seq<seq<nat>>, t: nat)
    requires u.code.k >= 2 && History(u.code, h)
    ensures Metric(u, h, t) <= u.bias + u.code.Span() * |h|
  {
    hide Decision, Pred, DistanceTo;
    if |h| > 0 {
      hide Metric;
      var n := |h| - 1;
      var d := Decision(u, h, t);
      MetricIsLeast(u, h, t, d);
      EarlyBound(u, h[..n], Pred(u.code, t, d));
      DistanceBound(u.code, t + d * u.code.States(), h[n], |u.code.polys|);
      TimesStep(u.code.Span(), |h|);
    }
  }

  lemma {:induction false} TimesMono(x: nat, a: nat, b: nat)
    requires a <= b
    ensures x * a <= x * b
  {
    assert x * b == x * a + x * (b - a);
  }

  /** The metrics of any two states stay within the spread, for runs of any length. */
  lemma {:induction false} MetricSpread(u: Setup, h: seq<seq<nat>>, a: nat, b: nat)
    requires u.code.k >= 2 && History(u.code, h) && a < u.code.States() && b < u.code.States()
    ensures Metric(u, h, a) - Metric(u, h, b) <= Spread(u)
  {
    hide Metric, Pow2;
    var k := u.code.k;
    if |h| >= k - 1 {
      StatesPow(u.code);
      DivModUnique(a, Pow2(k - 1), 0, a);
      DivModUnique(b, Pow2(k - 1), 0, b);
      CommonAncestor(u, h, a, b, k - 1);
    } else {
      EarlyBound(u, h, a);
      TimesMono(u.code.Span(), |h|, k - 2);
    }
  }

  lemma {:induction false} StatesPow(c: Code)
    requires c.k >= 2
    ensures c.States() == Pow2(c.k - 1)
  {
  }
}
