/** The decoders: wraparound path metrics in two swapped buffers, packed decision bits, chainback. One
    class stands for the four codes and for the portable and the C-level vector versions, which differ
    in the modulus of the metric arithmetic, the decision word, the start bias and the tie rule. */
module ViterbiDecoder {
  import opened Bits
  import opened Sequences
  import opened ConvolutionalCode
  import opened FrameEncoder

  // ----- Bits of a decision word.

  /** w | (d << pos) for a single bit d. */
  function OrBit(w: nat, pos: nat, d: nat): nat {
    if d == 1 && Bit(w, pos) == 0 then w + Pow2(pos) else w
  }

  lemma {:induction false} AddBit(w: nat, pos: nat, q: nat)
    requires Bit(w, pos) == 0
    ensures Bit(w + Pow2(pos), q) == (if q == pos then 1 else Bit(w, q))
    decreases pos
  {
    hide Bit;
    var v := w + Pow2(pos);
    BitHalf(w, pos);
    BitHalf(w, q);
    BitHalf(v, q);
    if pos > 0 {
      AddHalf(w, Pow2(pos - 1));
      if q > 0 { AddBit(w / 2, pos - 1, q - 1); }
    } else {
      PowZero();
      assert (w + 1) / 2 == w / 2;
    }
  }

  lemma {:induction false} AddHalf(w: nat, p: nat)
    ensures (w + 2 * p) / 2 == w / 2 + p && (w + 2 * p) % 2 == w % 2
  {
  }

  lemma {:induction false} OrBitBits(w: nat, pos: nat, d: nat, q: nat)
    requires d < 2
    ensures Bit(OrBit(w, pos, d), q) == (if q == pos && d == 1 then 1 else Bit(w, q))
  {
    hide Bit;
    if d == 1 && Bit(w, pos) == 0 { AddBit(w, pos, q); }
  }

  lemma {:induction false} ZeroBits(pos: nat)
    ensures Bit(0, pos) == 0
  {
    DivModUnique(0, Pow2(pos), 0, 0);
  }

  lemma {:induction false} OrAboveTop(w: nat, pos: nat, d: nat)
    requires w < Pow2(pos) && d < 2
    ensures OrBit(w, pos, d) == w + d * Pow2(pos)
  {
    DivModUnique(w, Pow2(pos), 0, w);
  }

  // ----- Branch metrics by exclusive or.

  lemma {:induction false} XorAllOnes(r: nat, n: nat)
    requires r < Pow2(n)
    ensures Xor(Pow2(n) - 1, r) == Pow2(n) - 1 - r
  {
    if n > 0 {
      hide Xor, Pow2;
      var p := Pow2(n - 1);
      PowStep(n - 1);
      XorAllOnes(r / 2, n - 1);
      XorHalf(2 * p - 1, r);
      OnesHalf(p, r);
    }
  }

  lemma {:induction false} OnesHalf(p: nat, r: nat)
    requires p >= 1
    ensures (2 * p - 1) / 2 == p - 1 && (2 * p - 1 + r) % 2 == 1 - r % 2
  {
  }

  lemma {:induction false} XorIsDistance(s: nat, r: nat)
    requires (s == 0 || s == 255) && r <= 255
    ensures Xor(s, r) == Abs(s as int - r as int)
  {
    Pow8();
    if s == 0 { XorZero(r); } else { XorAllOnes(r, 8); }
  }

  // ----- Modular comparison.

  /** Value of a machine word read as a signed number. */
  function Signed(x: nat, modulus: nat): int { if 2 * x < modulus then x else x - modulus }

  /** The survivor's decision: the sign of the wrapped difference. */
  function Compare(m0: nat, m1: nat, modulus: nat, tieHigh: bool): (d: nat)
    requires modulus > 0
    ensures d < 2
  {
    var diff := Signed((m0 - m1) % modulus, modulus);
    if diff > 0 || (tieHigh && diff == 0) then 1 else 0
  }

  /** Wrapped differences compare like the true ones while those stay below half the modulus. */
  lemma {:induction false} WrapCompare(c0: nat, c1: nat, modulus: nat)
    requires modulus > 0 && 2 * (c0 - c1) < modulus && 2 * (c1 - c0) < modulus
    ensures Signed((c0 % modulus - c1 % modulus) % modulus, modulus) == c0 - c1
  {
    var q0, q1 := c0 / modulus, c1 / modulus;
    var e: int := c0 % modulus - c1 % modulus;
    assert modulus * (q0 - q1) == modulus * q0 - modulus * q1;
    assert e == c0 - c1 - modulus * (q0 - q1);
    if c0 >= c1 {
      DivModUnique(e, modulus, -(q0 - q1), c0 - c1);
    } else {
      assert modulus * (-(q0 - q1) - 1) == -(modulus * (q0 - q1)) - modulus;
      DivModUnique(e, modulus, -(q0 - q1) - 1, c0 - c1 + modulus);
    }
  }

  /** The word is wide enough for the code: differences of candidates stay below half the modulus. */
  ghost predicate WideEnough(u: Setup, modulus: nat)
    requires u.code.k >= 2
  {
    modulus > 0 && 2 * (Spread(u) + u.code.Span()) < modulus
  }

  lemma {:induction false} CandidatesClose(u: Setup, h: seq<seq<nat>>, t: nat)
    requires u.code.k >= 2 && History(u.code, h) && |h| > 0 && t < u.code.States()
    ensures -(Spread(u) + u.code.Span()) <= Candidate(u, h, t, 0) - Candidate(u, h, t, 1) <= Spread(u) + u.code.Span()
  {
    hide Pow2, Metric, DistanceTo, Spread, Pred;
    var n, c := |h| - 1, u.code;
    var p0, p1 := Pred(c, t, 0), Pred(c, t, 1);
    PredForward(c, t, 0);
    PredForward(c, t, 1);
    MetricSpread(u, h[..n], p0, p1);
    MetricSpread(u, h[..n], p1, p0);
    DistanceBound(c, t, h[n], |c.polys|);
    DistanceBound(c, t + c.States(), h[n], |c.polys|);
  }

  /** Wraparound arithmetic takes the decisions, and keeps the metrics, of unbounded integers. */
  lemma {:induction false} WraparoundExact(u: Setup, h: seq<seq<nat>>, t: nat, modulus: nat)
    requires u.code.k >= 2 && History(u.code, h) && |h| > 0 && t < u.code.States() && WideEnough(u, modulus)
    ensures var m0, m1 := Candidate(u, h, t, 0) % modulus, Candidate(u, h, t, 1) % modulus;
            var d := Compare(m0, m1, modulus, u.tieHigh);
            d == Decision(u, h, t) && (if d == 1 then m1 else m0) == Metric(u, h, t) % modulus
  {
    hide Pow2, Candidate, Spread, Metric;
    CandidatesClose(u, h, t);
    WrapCompare(Candidate(u, h, t, 0), Candidate(u, h, t, 1), modulus);
    MetricIsLeast(u, h, t, 0);
  }

  // ----- One received group.

  /** Branchtab: the symbols of register 2i, for every polynomial and every butterfly i. */
  ghost predicate TableHolds(c: Code, table: array2<nat>)
    reads table
    requires c.k >= 2
  {
    && table.Length0 == |c.polys| && table.Length1 == c.Half()
    && forall j, i | 0 <= j < table.Length0 && 0 <= i < table.Length1 :: table[j, i] == Symbol(c.polys[j], 2 * i)
  }

  ghost predicate MetricsHold(u: Setup, h: seq<seq<nat>>, modulus: nat, a: array<nat>)
    reads a
    requires u.code.k >= 2 && History(u.code, h) && modulus > 0
  {
    && a.Length == u.code.States()
    && forall t | 0 <= t < a.Length :: a[t] == Metric(u, h, t) % modulus
  }

  /** Decision bit of state t in a row packed `word` states to a word. */
  function RowBit(rows: array2<nat>, word: nat, m: nat, t: nat): nat
    reads rows
    requires word > 0 && m < rows.Length0 && t / word < rows.Length1
  {
    Bit(rows[m, t / word], t % word)
  }

  /** The rows have room for one bit per state. */
  ghost predicate RoomFor(c: Code, rows: array2<nat>, word: nat)
    requires c.k >= 2
  {
    word > 0 && forall t: nat | t < c.States() :: t / word < rows.Length1
  }

  method BranchMetric(c: Code, table: array2<nat>, i: nat, syms: seq<nat>) returns (metric: nat)
    requires c.k >= 2 && TableHolds(c, table) && i < c.Half() && Group(c, syms)
    ensures metric == Distance(c, 2 * i, syms)
  {
    metric := 0;
    var j := 0;
    while j < |syms|
      invariant j <= |syms| && metric == DistanceTo(c.polys, j, 2 * i, syms)
    {
      XorIsDistance(table[j, i], syms[j]);
      metric := metric + Xor(table[j, i], syms[j]);
      j := j + 1;
    }
  }

  /** Both candidates of state t, reduced, from the reduced metrics of its two predecessors. */
  lemma {:induction false} CandidateReduces(u: Setup, h: seq<seq<nat>>, g: seq<nat>, t: nat, d: nat, a: nat, m: nat, modulus: nat)
    requires u.code.k >= 2 && History(u.code, h) && Group(u.code, g) && modulus > 0 && d < 2
    requires a == Metric(u, h, Pred(u.code, t, d)) % modulus
    requires m == Distance(u.code, t + d * u.code.States(), g)
    ensures History(u.code, h + [g])
    ensures (a + m) % modulus == Candidate(u, h + [g], t, d) % modulus
  {
    hide Metric, DistanceTo, Pred;
    assert (h + [g])[..|h|] == h;
    AddModLeft(Metric(u, h, Pred(u.code, t, d)), m, modulus);
  }

  lemma {:induction false} AddModLeft(x: int, m: int, n: nat)
    requires n > 0
    ensures (x % n + m) % n == (x + m) % n
  {
    var q, r := x / n, (x % n + m) % n;
    var p := (x % n + m) / n;
    assert n * (q + p) == n * q + n * p;
    DivModUnique(x + m, n, q + p, r);
  }

  method Survivor(ghost u: Setup, ghost h: seq<seq<nat>>, ghost g: seq<nat>, ghost t: nat,
                  a0: nat, a1: nat, metric0: nat, metric1: nat, modulus: nat, tieHigh: bool)
    returns (m: nat, d: nat)
    requires tieHigh == u.tieHigh
    requires u.code.k >= 2 && History(u.code, h) && Group(u.code, g) && t < u.code.States() && WideEnough(u, modulus)
    requires a0 == Metric(u, h, Pred(u.code, t, 0)) % modulus && a1 == Metric(u, h, Pred(u.code, t, 1)) % modulus
    requires metric0 == Distance(u.code, t, g) && metric1 == Distance(u.code, t + u.code.States(), g)
    ensures History(u.code, h + [g])
    ensures m == Metric(u, h + [g], t) % modulus && d == Decision(u, h + [g], t)
  {
    hide Metric, DistanceTo, Pred, Candidate, Spread, Decision, Compare, Pow2;
    var m0 := (a0 + metric0) % modulus;
    var m1 := (a1 + metric1) % modulus;
    CandidateReduces(u, h, g, t, 0, a0, metric0, modulus);
    CandidateReduces(u, h, g, t, 1, a1, metric1, modulus);
    WraparoundExact(u, h + [g], t, modulus);
    d := Compare(m0, m1, modulus, tieHigh);
    m := if d == 1 then m1 else m0;
  }

  lemma {:induction false} PlaceOf(t: nat, q: nat, word: nat)
    requires word > 0
    ensures t / word == q / word && t % word == q % word <==> t == q
  {
    assert t == word * (t / word) + t % word;
    assert q == word * (q / word) + q % word;
  }

  /** d->w[t / word] |= decision << (t % word) */
  method OrDecision(rows: array2<nat>, word: nat, m: nat, t: nat, d: nat)
    requires word > 0 && m < rows.Length0 && t / word < rows.Length1 && d < 2
    modifies rows
    ensures forall m', w | 0 <= m' < rows.Length0 && 0 <= w < rows.Length1 && m' != m :: rows[m', w] == old(rows[m', w])
    ensures forall q: nat | q / word < rows.Length1 ::
              RowBit(rows, word, m, q) == (if q == t && d == 1 then 1 else old(RowBit(rows, word, m, q)))
  {
    hide Bit, OrBit;
    ghost var w0 := rows[m, t / word];
    rows[m, t / word] := OrBit(rows[m, t / word], t % word, d);
    forall q: nat | q / word < rows.Length1
      ensures RowBit(rows, word, m, q) == (if q == t && d == 1 then 1 else old(RowBit(rows, word, m, q)))
    {
      PlaceOf(t, q, word);
      OrBitBits(w0, t % word, d, q % word);
    }
  }

  lemma {:induction false} ButterflyStates(c: Code, i: nat)
    requires c.k >= 2 && i < c.Half()
    ensures 2 * i + 1 < c.States()
    ensures Pred(c, 2 * i, 0) == i == Pred(c, 2 * i + 1, 0)
    ensures Pred(c, 2 * i, 1) == i + c.Half() == Pred(c, 2 * i + 1, 1)
  {
    hide Pow2;
    EvenDouble(i);
  }

  /** The surviving metrics and decisions of states 2i and 2i+1. */
  method Survivors(ghost u: Setup, ghost h: seq<seq<nat>>, c: Code, tieHigh: bool, modulus: nat, table: array2<nat>,
                   oldMetrics: array<nat>, i: nat, syms: seq<nat>)
    returns (m0: nat, d0: nat, m1: nat, d1: nat)
    requires c == u.code && tieHigh == u.tieHigh && c.k >= 2 && TapsSet(c)
    requires History(c, h) && Group(c, syms) && WideEnough(u, modulus)
    requires TableHolds(c, table) && MetricsHold(u, h, modulus, oldMetrics) && i < c.Half()
    ensures History(c, h + [syms])
    ensures m0 == Metric(u, h + [syms], 2 * i) % modulus && d0 == Decision(u, h + [syms], 2 * i)
    ensures m1 == Metric(u, h + [syms], 2 * i + 1) % modulus && d1 == Decision(u, h + [syms], 2 * i + 1)
  {
    hide TapsSet, Pow2, Metric, Decision, Pred, DistanceTo, WideEnough, TableHolds;
    ButterflyStates(c, i);
    ConvolutionalCode.Butterfly(c, i, syms);
    var metric := BranchMetric(c, table, i, syms);
    var opposite := 255 * |c.polys| - metric;
    var a0, a1 := oldMetrics[i], oldMetrics[i + c.Half()];
    m0, d0 := Survivor(u, h, syms, 2 * i, a0, a1, metric, opposite, modulus, tieHigh);
    m1, d1 := Survivor(u, h, syms, 2 * i + 1, a0, a1, opposite, metric, modulus, tieHigh);
  }

  /** Updates states 2i and 2i+1 from states i and i + Half. */
  method Butterfly(ghost u: Setup, ghost h: seq<seq<nat>>, c: Code, tieHigh: bool, modulus: nat, word: nat, table: array2<nat>,
                   oldMetrics: array<nat>, newMetrics: array<nat>, rows: array2<nat>, m: nat, i: nat, syms: seq<nat>)
    requires c == u.code && tieHigh == u.tieHigh && c.k >= 2 && TapsSet(c)
    requires History(c, h) && Group(c, syms) && WideEnough(u, modulus) && RoomFor(c, rows, word)
    requires TableHolds(c, table) && MetricsHold(u, h, modulus, oldMetrics)
    requires newMetrics.Length == c.States()
    requires m < rows.Length0 && i < c.Half()
    requires RowBit(rows, word, m, 2 * i) == 0 && RowBit(rows, word, m, 2 * i + 1) == 0
    modifies newMetrics, rows
    ensures History(c, h + [syms])
    ensures newMetrics[2 * i] == Metric(u, h + [syms], 2 * i) % modulus
    ensures newMetrics[2 * i + 1] == Metric(u, h + [syms], 2 * i + 1) % modulus
    ensures forall t | 0 <= t < newMetrics.Length && t != 2 * i && t != 2 * i + 1 :: newMetrics[t] == old(newMetrics[t])
    ensures RowBit(rows, word, m, 2 * i) == Decision(u, h + [syms], 2 * i)
    ensures RowBit(rows, word, m, 2 * i + 1) == Decision(u, h + [syms], 2 * i + 1)
    ensures forall t: nat | t < c.States() && t != 2 * i && t != 2 * i + 1 :: RowBit(rows, word, m, t) == old(RowBit(rows, word, m, t))
    ensures forall m', w | 0 <= m' < rows.Length0 && 0 <= w < rows.Length1 && m' != m :: rows[m', w] == old(rows[m', w])
  {
    hide TapsSet, Pow2, Metric, Decision, WideEnough, RowBit, MetricsHold, TableHolds;
    var m0, d0, m1, d1 := Survivors(u, h, c, tieHigh, modulus, table, oldMetrics, i, syms);
    newMetrics[2 * i] := m0;
    newMetrics[2 * i + 1] := m1;
    OrDecision(rows, word, m, 2 * i, d0);
    OrDecision(rows, word, m, 2 * i + 1, d1);
  }

  /** Row m holds the decisions of the first n states of h; the others are still clear. */
  ghost predicate RowHolds(u: Setup, h: seq<seq<nat>>, rows: array2<nat>, word: nat, m: nat, n: nat)
    reads rows
    requires u.code.k >= 2 && History(u.code, h) && |h| > 0 && RoomFor(u.code, rows, word) && m < rows.Length0
  {
    forall t: nat | t < u.code.States() :: RowBit(rows, word, m, t) == if t < n then Decision(u, h, t) else 0
  }

  method ClearRow(ghost u: Setup, ghost h: seq<seq<nat>>, rows: array2<nat>, word: nat, m: nat)
    requires u.code.k >= 2 && History(u.code, h) && |h| > 0 && RoomFor(u.code, rows, word) && m < rows.Length0
    modifies rows
    ensures RowHolds(u, h, rows, word, m, 0)
    ensures forall m', w | 0 <= m' < rows.Length0 && 0 <= w < rows.Length1 && m' != m :: rows[m', w] == old(rows[m', w])
  {
    hide Bit, Decision, Pow2;
    var i := 0;
    while i < rows.Length1
      invariant 0 <= i <= rows.Length1
      invariant forall w | 0 <= w < i :: rows[m, w] == 0
      invariant forall m', w | 0 <= m' < rows.Length0 && 0 <= w < rows.Length1 && m' != m :: rows[m', w] == old(rows[m', w])
    {
      rows[m, i] := 0;
      i := i + 1;
    }
    forall t: nat | t < u.code.States()
      ensures RowBit(rows, word, m, t) == 0
    {
      ZeroBits(t % word);
    }
  }

  /** One bit time: every butterfly, from oldMetrics into newMetrics and row m. */
  method Step(ghost u: Setup, ghost h: seq<seq<nat>>, c: Code, tieHigh: bool, modulus: nat, word: nat, table: array2<nat>,
              oldMetrics: array<nat>, newMetrics: array<nat>, rows: array2<nat>, m: nat, syms: seq<nat>)
    requires c == u.code && tieHigh == u.tieHigh && c.k >= 2 && TapsSet(c)
    requires History(c, h) && Group(c, syms) && WideEnough(u, modulus) && RoomFor(c, rows, word)
    requires TableHolds(c, table) && MetricsHold(u, h, modulus, oldMetrics)
    requires newMetrics.Length == c.States() && newMetrics != oldMetrics && table != rows && m < rows.Length0
    modifies newMetrics, rows
    ensures History(c, h + [syms])
    ensures MetricsHold(u, h + [syms], modulus, newMetrics)
    ensures RowHolds(u, h + [syms], rows, word, m, c.States())
    ensures forall m', w | 0 <= m' < rows.Length0 && 0 <= w < rows.Length1 && m' != m :: rows[m', w] == old(rows[m', w])
  {
    hide TapsSet, Pow2, Metric, Decision, RowBit;
    ghost var h' := h + [syms];
    ClearRow(u, h', rows, word, m);
    var i := 0;
    while i < c.Half()
      invariant i <= c.Half()
      invariant TableHolds(c, table) && MetricsHold(u, h, modulus, oldMetrics)
      invariant forall t | 0 <= t < 2 * i :: newMetrics[t] == Metric(u, h', t) % modulus
      invariant RowHolds(u, h', rows, word, m, 2 * i)
      invariant forall m', w | 0 <= m' < rows.Length0 && 0 <= w < rows.Length1 && m' != m :: rows[m', w] == old(rows[m', w])
    {
      Butterfly(u, h, c, tieHigh, modulus, word, table, oldMetrics, newMetrics, rows, m, i, syms);
      i := i + 1;
    }
  }

  // ----- Reading the bits back.

  ghost function BitAt(bits: seq<nat>, i: nat): nat { if i < |bits| then bits[i] else 0 }

  /** Bits j .. j+w-1 as a number, bit j most significant; bits past the end are 0. */
  ghost function Window(bits: seq<nat>, j: nat, w: nat): nat {
    if w == 0 then 0 else 2 * Window(bits, j, w - 1) + BitAt(bits, j + w - 1)
  }

  lemma {:induction false} WindowBound(bits: seq<nat>, j: nat, w: nat)
    requires Binary(bits)
    ensures Window(bits, j, w) < Pow2(w)
  {
    if w > 0 { WindowBound(bits, j, w - 1); }
  }

  /** Dropping the lowest x bits. */
  lemma {:induction false} WindowTop(bits: seq<nat>, j: nat, w: nat, x: nat)
    requires Binary(bits)
    ensures Window(bits, j, w + x) / Pow2(x) == Window(bits, j, w)
  {
    if x == 0 {
      PowZero();
    } else {
      WindowTop(bits, j, w, x - 1);
      DivTwice(Window(bits, j, w + x), Pow2(x - 1));
      assert Window(bits, j, w + x) / 2 == Window(bits, j, w + x - 1);
    }
  }

  lemma {:induction false} Doubled(x: nat, y: nat)
    ensures x * (2 * y) == 2 * (x * y)
  {
  }

  lemma {:induction false} WindowFirst(bits: seq<nat>, j: nat, w: nat)
    ensures Window(bits, j, w + 1) == BitAt(bits, j) * Pow2(w) + Window(bits, j + 1, w)
  {
    if w == 0 {
      PowZero();
      assert Window(bits, j, 0) == 0;
    } else {
      hide BitAt, Pow2;
      PowStep(w - 1);
      WindowFirst(bits, j, w - 1);
      Doubled(BitAt(bits, j), Pow2(w - 1));
    }
  }

  lemma {:induction false} WindowPrefix(bits: seq<nat>, bits': seq<nat>, j: nat, w: nat)
    requires forall i | j <= i < j + w :: BitAt(bits, i) == BitAt(bits', i)
    ensures Window(bits, j, w) == Window(bits', j, w)
  {
    if w > 0 { WindowPrefix(bits, bits', j, w - 1); }
  }

  lemma {:induction false} ModMod(x: nat, a: nat, b: nat)
    requires a > 0 && b > 0
    ensures x % (a * b) % a == x % a
  {
    var q := x / (a * b);
    var y := x % (a * b);
    assert a * b > 0;
    assert x == a * b * q + y;
    assert a * (b * q + y / a) == a * (b * q) + a * (y / a);
    assert a * b * q == a * (b * q);
    DivModUnique(x, a, b * q + y / a, y % a);
  }

  /** The low bits of the encoder state are those before the last input bit, and that bit. */
  lemma {:induction false} EncoderLow(c: Code, s: nat, bits: seq<nat>, w: nat)
    requires c.k >= 2 && s < c.States() && Binary(bits) && 1 <= w < c.k && bits != []
    ensures var n := |bits| - 1; Encoder(c, s, bits) % Pow2(w) == 2 * (Encoder(c, s, bits[..n]) % Pow2(w - 1)) + bits[n]
  {
    hide Pow2;
    var n := |bits| - 1;
    var e, b := Encoder(c, s, bits[..n]), bits[n];
    StatesPow(c);
    PowSum(w, c.k - 1 - w);
    ModMod(2 * e + b, Pow2(w), Pow2(c.k - 1 - w));
    PowStep(w - 1);
    ModDouble(2 * e + b, Pow2(w - 1));
    assert (2 * e + b) / 2 == e;
  }

  /** The encoder state is a window on its last input bits. */
  lemma {:induction false} EncoderWindow(c: Code, s: nat, bits: seq<nat>, w: nat)
    requires c.k >= 2 && s < c.States() && Binary(bits) && w < c.k && w <= |bits|
    ensures Encoder(c, s, bits) % Pow2(w) == Window(bits, |bits| - w, w)
  {
    hide Pow2, Encoder;
    if w == 0 {
      PowZero();
    } else {
      var n := |bits| - 1;
      EncoderWindow(c, s, bits[..n], w - 1);
      EncoderLow(c, s, bits, w);
      WindowPrefix(bits, bits[..n], |bits| - w, w - 1);
    }
  }

  lemma {:induction false} RunWindow(c: Code, h: seq<seq<nat>>, s: nat, bits: seq<nat>, t: nat)
    requires c.k >= 2 && Run(c, h, s, bits, t) && |h| >= c.k - 1
    ensures t == Window(bits, |h| - (c.k - 1), c.k - 1)
  {
    hide Pow2;
    EncoderBound(c, s, bits);
    StatesPow(c);
    EncoderWindow(c, s, bits, c.k - 1);
    DivModUnique(t, Pow2(c.k - 1), 0, t);
  }

  /** State t at time |h| lies on the survivor whose bits are `bits`. */
  ghost predicate OnSurvivor(u: Setup, h: seq<seq<nat>>, t: nat, bits: seq<nat>)
    requires u.code.k >= 2 && History(u.code, h)
  {
    t < u.code.States() && |h| <= |bits| && TraceBits(u, h, t) == bits[..|h|]
  }

  /** One step back along the survivor: the decision is the bit that leaves the encoder. */
  lemma {:induction false} StepBack(u: Setup, h: seq<seq<nat>>, t: nat, bits: seq<nat>)
    requires u.code.k >= 2 && History(u.code, h) && |h| >= u.code.k
    requires Binary(bits) && OnSurvivor(u, h, t, bits)
    ensures OnSurvivor(u, h[..|h| - 1], Pred(u.code, t, Decision(u, h, t)), bits)
    ensures Decision(u, h, t) == BitAt(bits, |h| - u.code.k)
    ensures t == Window(bits, |h| - (u.code.k - 1), u.code.k - 1)
  {
    hide Pow2, Decision, BitAt, Run, Pred;
    var n, k := |h| - 1, u.code.k;
    var d := Decision(u, h, t);
    var t' := Pred(u.code, t, d);
    PredForward(u.code, t, d);
    assert TraceBits(u, h, t)[..n] == TraceBits(u, h[..n], t');
    assert bits[..|h|][..n] == bits[..n];
    SurvivorWindow(u, h, t, bits);
    SurvivorWindow(u, h[..n], t', bits);
    TopBit(u.code, t, d, bits, |h| - k);
  }

  lemma {:induction false} SurvivorWindow(u: Setup, h: seq<seq<nat>>, t: nat, bits: seq<nat>)
    requires u.code.k >= 2 && History(u.code, h) && |h| >= u.code.k - 1
    requires Binary(bits) && OnSurvivor(u, h, t, bits)
    ensures t == Window(bits, |h| - (u.code.k - 1), u.code.k - 1)
  {
    hide Pow2, Window, Metric, Deviation, Encoder;
    var k := u.code.k;
    TraceAttains(u, h, t);
    RunWindow(u.code, h, TraceStart(u, h, t), bits[..|h|], t);
    WindowPrefix(bits, bits[..|h|], |h| - (k - 1), k - 1);
  }

  lemma {:induction false} TopBit(c: Code, t: nat, d: nat, bits: seq<nat>, j: nat)
    requires c.k >= 2 && d < 2 && Binary(bits)
    requires t == Window(bits, j + 1, c.k - 1) && Pred(c, t, d) == Window(bits, j, c.k - 1)
    ensures d == BitAt(bits, j)
  {
    hide Pow2;
    var w := c.k - 2;
    WindowFirst(bits, j, w);
    assert t / 2 == Window(bits, j + 1, w);
    if d == 0 { } else { assert d == 1; }
  }

  lemma {:induction false} WindowPastEnd(bits: seq<nat>, j: nat, w: nat, x: nat)
    requires j + w >= |bits|
    ensures Window(bits, j, w + x) == Window(bits, j, w) * Pow2(x)
  {
    if x == 0 {
      PowZero();
    } else {
      hide Pow2;
      PowStep(x - 1);
      WindowPastEnd(bits, j, w, x - 1);
      assert BitAt(bits, j + w + x - 1) == 0;
      Doubled(Window(bits, j, w), Pow2(x - 1));
    }
  }

  /** Register width of the chainback: the encoder state, widened to a byte when it is shorter. */
  function Width(c: Code): nat { if c.k - 1 >= 8 then c.k - 1 else 8 }

  /** Bits by which the state is shifted up in that register. */
  function Shift(c: Code): nat requires c.k >= 2 { Width(c) - (c.k - 1) }

  /** The encoder state at the top of the register. */
  function TopState(c: Code, reg: nat): nat
    requires c.k >= 2
  {
    reg / Pow2(Shift(c))
  }

  /** (reg >> 1) | (d << (width - 1)) */
  function ShiftIn(c: Code, reg: nat, d: nat): nat { OrBit(reg / 2, Width(c) - 1, d) }

  lemma {:induction false} WindowHalf(bits: seq<nat>, j: nat, w: nat)
    requires Binary(bits)
    ensures Window(bits, j, w + 1) / 2 == Window(bits, j, w)
  {
  }

  lemma {:induction false} ChainStart(u: Setup, h: seq<seq<nat>>, t: nat)
    requires u.code.k >= 2 && History(u.code, h) && |h| >= u.code.k - 1 && t < u.code.States()
    ensures var bits := TraceBits(u, h, t);
            && Binary(bits) && |bits| == |h| && OnSurvivor(u, h, t, bits)
            && t * Pow2(Shift(u.code)) == Window(bits, |h| - (u.code.k - 1), Width(u.code))
            && TopState(u.code, t * Pow2(Shift(u.code))) == t
  {
    hide Pow2, Window, Metric, Deviation, Encoder;
    var k, bits := u.code.k, TraceBits(u, h, t);
    TraceAttains(u, h, t);
    assert bits[..|h|] == bits;
    SurvivorWindow(u, h, t, bits);
    WindowPastEnd(bits, |h| - (k - 1), k - 1, Shift(u.code));
    WindowTop(bits, |h| - (k - 1), k - 1, Shift(u.code));
  }

  /** One turn of the chainback loop: from the window on bit |h| - k + 1 to the one on bit |h| - k. */
  lemma {:induction false} ChainStep(u: Setup, h: seq<seq<nat>>, bits: seq<nat>, reg: nat)
    requires u.code.k >= 2 && History(u.code, h) && |h| >= u.code.k && Binary(bits)
    requires reg == Window(bits, |h| - u.code.k + 1, Width(u.code))
    requires OnSurvivor(u, h, TopState(u.code, reg), bits)
    ensures var reg' := ShiftIn(u.code, reg, Decision(u, h, TopState(u.code, reg)));
            && reg' == Window(bits, |h| - u.code.k, Width(u.code))
            && OnSurvivor(u, h[..|h| - 1], TopState(u.code, reg'), bits)
  {
    hide Pow2, Decision, BitAt, OnSurvivor, OrBit, Pred, Window;
    var j, w, t := |h| - u.code.k, Width(u.code), TopState(u.code, reg);
    StepBack(u, h, t, bits);
    var t' := Pred(u.code, t, Decision(u, h, t));
    WindowHalf(bits, j + 1, w - 1);
    WindowBound(bits, j + 1, w - 1);
    OrAboveTop(reg / 2, w - 1, Decision(u, h, t));
    WindowFirst(bits, j, w - 1);
    WindowTop(bits, j, u.code.k - 1, Shift(u.code));
    SurvivorWindow(u, h[..|h| - 1], t', bits);
  }

  // ----- The decoder object.

  /** nbits groups of symbols, one symbol per polynomial, from the front of the symbol stream. */
  ghost function Groups(c: Code, syms: seq<nat>, nbits: nat): (h: seq<seq<nat>>)
    requires |syms| >= |c.polys| * nbits && Bytes(syms)
    ensures |h| == nbits && History(c, h)
    decreases nbits
  {
    if nbits == 0 then []
    else
      TimesStep(|c.polys|, nbits);
      [syms[..|c.polys|]] + Groups(c, syms[|c.polys|..], nbits - 1)
  }

  ghost predicate Bytes(syms: seq<nat>) { forall i | 0 <= i < |syms| :: syms[i] <= 255 }

  /** The table holds what the encoder sends for every even register, in however many bits the polynomial. */
  ghost predicate TableSends(c: Code, table: array2<nat>)
    reads table
    requires c.k >= 2
  {
    && table.Length0 == |c.polys| && table.Length1 == c.Half()
    && forall j, i, n: nat | 0 <= j < table.Length0 && 0 <= i < table.Length1 && Abs(c.polys[j]) < Pow2(n) ::
         table[j, i] == SentSymbol(c.polys[j], 2 * i, n)
  }

  lemma {:induction false} TableSent(c: Code, table: array2<nat>)
    requires c.k >= 2 && TableHolds(c, table)
    ensures TableSends(c, table)
  {
    hide Symbol, SentSymbol, Pow2;
    forall j, i, n: nat | 0 <= j < table.Length0 && 0 <= i < table.Length1 && Abs(c.polys[j]) < Pow2(n)
      ensures table[j, i] == SentSymbol(c.polys[j], 2 * i, n)
    {
      SymbolIs(c.polys[j], 2 * i, n);
    }
  }

  method BuildBranchtab(c: Code) returns (table: array2<nat>)
    requires c.k >= 2
    ensures fresh(table) && TableHolds(c, table) && TableSends(c, table)
  {
    hide Symbol, Pow2, TableSends;
    table := new nat[|c.polys|, c.Half()];
    var state := 0;
    while state < c.Half()
      invariant state <= c.Half()
      invariant forall j, i | 0 <= j < table.Length0 && 0 <= i < state :: table[j, i] == Symbol(c.polys[j], 2 * i)
    {
      var p := 0;
      while p < |c.polys|
        invariant p <= |c.polys|
        invariant forall j, i | 0 <= j < table.Length0 && 0 <= i < state :: table[j, i] == Symbol(c.polys[j], 2 * i)
        invariant forall j | 0 <= j < p :: table[j, state] == Symbol(c.polys[j], 2 * state)
      {
        table[p, state] := Symbol(c.polys[p], 2 * state);
        p := p + 1;
      }
      state := state + 1;
    }
    TableSent(c, table);
  }

  /** Row m of the decisions made on the groups h. */
  ghost predicate RowAt(u: Setup, h: seq<seq<nat>>, rows: array2<nat>, word: nat, m: nat)
    reads rows
    requires u.code.k >= 2 && History(u.code, h) && RoomFor(u.code, rows, word) && m < rows.Length0 && m < |h|
  {
    RowHolds(u, h[..m + 1], rows, word, m, u.code.States())
  }

  lemma {:induction false} RoomForStates(c: Code, rows: array2<nat>, word: nat)
    requires c.k >= 2 && word > 0 && rows.Length1 == (c.States() + word - 1) / word
    ensures RoomFor(c, rows, word)
  {
    hide Pow2;
    forall t: nat | t < c.States()
      ensures t / word < rows.Length1
    {
      QuotientBelow(t, c.States(), word);
    }
  }

  lemma {:induction false} QuotientBelow(t: nat, n: nat, word: nat)
    requires t < n && word > 0
    ensures t / word < (n + word - 1) / word
  {
    var q, p := t / word, (n + word - 1) / word;
    if p <= q {
      assert word * p <= word * q by { TimesMono(word, p, q); }
    }
  }

  class Decoder {
    const code: Code
    const bias: nat
    const tieHigh: bool
    const modulus: nat
    const word: nat
    const metrics1: array<nat>
    const metrics2: array<nat>
    const branchtab: array2<nat>
    const decisions: array2<nat>
    var oldMetrics: array<nat>
    var newMetrics: array<nat>
    var dp: nat
    ghost var start: nat
    ghost var heard: seq<seq<nat>>

    ghost function Settings(): Setup
      reads this
    {
      Setup(code, bias, start, tieHigh)
    }

    /** The buffers, apart from what they hold. */
    ghost predicate Shape()
      reads this
    {
      && code.k >= 2 && TapsSet(code) && WideEnough(Setup(code, bias, 0, tieHigh), modulus)
      && RoomFor(code, decisions, word) && branchtab != decisions && metrics1 != metrics2
      && metrics1.Length == metrics2.Length == code.States()
      && (oldMetrics == metrics1 || oldMetrics == metrics2)
      && newMetrics == (if oldMetrics == metrics1 then metrics2 else metrics1)
      && History(code, heard) && dp == |heard| <= decisions.Length0
    }

    /** The metrics are the exact ones reduced, and every row filled so far holds the exact decisions. */
    ghost predicate Valid()
      reads this, metrics1, metrics2, branchtab, decisions
    {
      && Shape()
      && TableHolds(code, branchtab)
      && MetricsHold(Settings(), heard, modulus, oldMetrics)
      && forall m | 0 <= m < dp :: RowAt(Settings(), heard, decisions, word, m)
    }

    constructor (c: Code, startBias: nat, tie: bool, m: nat, w: nat, len: nat)
      requires c.k >= 2 && TapsSet(c) && WideEnough(Setup(c, startBias, 0, tie), m) && w > 0
      ensures Valid() && fresh(metrics1) && fresh(metrics2) && fresh(branchtab) && fresh(decisions)
      ensures code == c && bias == startBias && tieHigh == tie && modulus == m && word == w
      ensures decisions.Length0 == len + c.k - 1 && heard == [] && start == 0
    {
      hide TapsSet, Spread, Pow2;
      var table := BuildBranchtab(c);
      code, bias, tieHigh, modulus, word := c, startBias, tie, m, w;
      branchtab := table;
      var m1, m2 := new nat[c.States()], new nat[c.States()];
      metrics1, metrics2, oldMetrics, newMetrics := m1, m2, m1, m2;
      var rows := new nat[len + c.k - 1, (c.States() + w - 1) / w];
      decisions := rows;
      heard, dp, start := [], 0, 0;
      new;
      RoomForStates(c, decisions, w);
      Init(0);
    }

    /** Start of a new frame: every state at the bias, the start state at 0. */
    method Init(startingState: nat)
      requires Shape() && TableHolds(code, branchtab)
      modifies this, metrics1
      ensures Valid() && heard == [] && start == startingState % code.States()
    {
      hide TapsSet, Pow2, Decision, RowHolds, TableHolds;
      var i := 0;
      while i < code.States()
        invariant i <= code.States()
        invariant forall t | 0 <= t < i :: metrics1[t] == bias
        invariant Shape() && TableHolds(code, branchtab)
        modifies metrics1
      {
        metrics1[i] := bias;
        i := i + 1;
      }
      oldMetrics, newMetrics, dp := metrics1, metrics2, 0;
      oldMetrics[startingState % code.States()] := 0;
      start, heard := startingState % code.States(), [];
      StartReduced(Settings(), modulus);
    }

    /** One bit time: every butterfly, then the two buffers change roles. */
    method Update(syms: seq<nat>)
      requires Valid() && dp < decisions.Length0 && Group(code, syms)
      modifies this, newMetrics, decisions
      ensures Valid() && Shape() && start == old(start) && heard == old(heard) + [syms]
    {
      hide TapsSet, Pow2, TableHolds, MetricsHold, WideEnough, Bit, Decision;
      ghost var u, m := Settings(), dp;
      WideAnyStart(u, 0, modulus);
      Step(u, heard, code, tieHigh, modulus, word, branchtab, oldMetrics, newMetrics, decisions, dp, syms);
      forall i | 0 <= i < m + 1
        ensures RowAt(u, heard + [syms], decisions, word, i)
      {
        assert (heard + [syms])[..i + 1] == if i < m then heard[..i + 1] else heard + [syms];
        assert i < m ==> old(RowAt(u, heard, decisions, word, i));
      }
      heard := heard + [syms];
      dp := dp + 1;
      oldMetrics, newMetrics := newMetrics, oldMetrics;
    }

    /** Updates the decoder with a block of nbits groups of symbols. */
    method UpdateBlk(syms: seq<nat>, nbits: nat)
      requires Valid() && dp + nbits <= decisions.Length0
      requires |syms| >= |code.polys| * nbits && Bytes(syms)
      modifies this, metrics1, metrics2, decisions
      ensures Valid() && start == old(start)
      ensures heard == old(heard) + Groups(code, syms, nbits)
    {
      assert Shape();
      hide Valid, TapsSet, WideEnough, RoomFor, Spread, Pow2;
      var n := |code.polys|;
      var rest: seq<nat>, left: nat := syms, nbits;
      while left != 0
        invariant left <= nbits && Valid() && Shape() && start == old(start) && dp + left <= decisions.Length0
        invariant |rest| >= n * left && Bytes(rest)
        invariant heard + Groups(code, rest, left) == old(heard) + Groups(code, syms, nbits)
      {
        TimesStep(n, left);
        Update(rest[..n]);
        rest := rest[n..];
        left := left - 1;
      }
    }

    /** Chainback: the first nbits input bits of the survivor into endstate, eight to a byte, first bit
        most significant. */
    method Chainback(data: array<nat>, nbits: nat, endstate: nat)
      requires Valid() && nbits + code.k - 1 <= dp && nbits <= 8 * data.Length
      requires data != metrics1 && data != metrics2
      modifies data
      ensures var bits := TraceBits(Settings(), heard[..nbits + code.k - 1], endstate % code.States());
              forall j: nat | 8 * j < nbits :: data[j] == Window(bits, 8 * j, 8)
      ensures forall j: nat | nbits <= 8 * j && j < data.Length :: data[j] == old(data[j])
    {
      hide Written, RowHolds, TapsSet, Pow2, Decision, Window, TopState, ShiftIn, TraceBits, MetricsHold, TableHolds, WideEnough;
      ghost var u, t := Settings(), endstate % code.States();
      ghost var bits := TraceBits(u, heard[..nbits + code.k - 1], t);
      ChainStart(u, heard[..nbits + code.k - 1], t);
      var reg, nb := endstate % code.States() * Pow2(Shift(code)), nbits;
      NoneWritten(data[..], bits, nbits);
      while nb != 0
        invariant 0 <= nb <= nbits && Valid() && Settings() == u
        invariant reg == Window(bits, nb, Width(code))
        invariant OnSurvivor(u, heard[..nb + code.k - 1], TopState(code, reg), bits)
        invariant Written(old(data[..]), data[..], bits, nb, nbits)
      {
        ghost var now := data[..];
        nb := nb - 1;
        var state := TopState(code, reg);
        var k := DecisionAt(nb + code.k - 1, state);
        ChainStep(u, heard[..nb + code.k], bits, reg);
        assert heard[..nb + code.k][..nb + code.k - 1] == heard[..nb + code.k - 1];
        reg := ShiftIn(code, reg, k);
        WindowTop(bits, nb, 8, Width(code) - 8);
        var byte := reg / Pow2(Width(code) - 8);
        data[nb / 8] := byte;
        assert data[..] == now[nb / 8 := byte];
        WriteByte(old(data[..]), now, bits, nb, nbits, byte);
      }
      AllWritten(old(data[..]), data[..], bits, nbits);
    }

    /** The decision bit of a state in a row already filled. */
    method DecisionAt(m: nat, state: nat) returns (k: nat)
      requires Valid() && m < dp && state < code.States()
      ensures k == Decision(Settings(), heard[..m + 1], state)
    {
      hide TapsSet, Pow2, Decision, MetricsHold, TableHolds, WideEnough, Bit;
      assert RowAt(Settings(), heard, decisions, word, m);
      k := RowBit(decisions, word, m, state);
    }
  }

  /** Of the bytes that hold the first nbits bits, those that start at bit nb or later are written; the
      bytes after them are as they were. */
  ghost predicate Written(was: seq<nat>, now: seq<nat>, bits: seq<nat>, nb: nat, nbits: nat) {
    && |now| == |was| && nbits <= 8 * |now|
    && (forall j: nat | nb <= 8 * j < nbits :: now[j] == Window(bits, 8 * j, 8))
    && forall j: nat | nbits <= 8 * j && j < |now| :: now[j] == was[j]
  }

  lemma {:induction false} NoneWritten(was: seq<nat>, bits: seq<nat>, nbits: nat)
    requires nbits <= 8 * |was|
    ensures Written(was, was, bits, nbits, nbits)
  {
  }

  lemma {:induction false} WriteByte(was: seq<nat>, now: seq<nat>, bits: seq<nat>, nb: nat, nbits: nat, byte: nat)
    requires nb < nbits && Written(was, now, bits, nb + 1, nbits) && byte == Window(bits, nb, 8)
    ensures nb / 8 < |now| && Written(was, now[nb / 8 := byte], bits, nb, nbits)
  {
    hide Window;
  }

  lemma {:induction false} AllWritten(was: seq<nat>, now: seq<nat>, bits: seq<nat>, nbits: nat)
    requires Written(was, now, bits, 0, nbits)
    ensures forall j: nat | 8 * j < nbits :: now[j] == Window(bits, 8 * j, 8)
    ensures forall j: nat | nbits <= 8 * j && j < |now| :: now[j] == was[j]
  {
    hide Window;
  }

  lemma {:induction false} WideAnyStart(u: Setup, s: nat, modulus: nat)
    requires u.code.k >= 2
    ensures WideEnough(u, modulus) == WideEnough(u.(start := s), modulus)
  {
  }

  lemma {:induction false} StartReduced(u: Setup, modulus: nat)
    requires u.code.k >= 2 && WideEnough(u, modulus)
    ensures u.bias % modulus == u.bias && 0 % modulus == 0
  {
    hide Pow2;
    TimesMono(u.code.Span(), 0, u.code.k - 2);
    DivModUnique(u.bias, modulus, 0, u.bias);
  }

  // ----- The decoders of the library.

  const CODE_27 := Code(7, [0x6d, 0x4f])
  const CODE_29 := Code(9, [0x1af, 0x11d])
  const CODE_39 := Code(9, [0x1ed, 0x19b, 0x127])
  /** Octal 042631, 047245, 056507, 073363, 077267, 064537. */
  const CODE_615 := Code(15, [17817, 20133, 23879, 30451, 32439, 26975])
  const WORD_32 := 0x1_0000_0000
  const WORD_16 := 0x1_0000

  lemma {:induction false} Powers()
    ensures Pow2(5) == 32 && Pow2(6) == 64 && Pow2(7) == 128 && Pow2(8) == 256 && Pow2(9) == 512
    ensures Pow2(13) == 8192 && Pow2(14) == 16384 && Pow2(15) == 32768
  {
    PowSum(4, 4);
    PowSum(8, 5);
    assert Pow2(4) == 16 && Pow2(5) == 32;
    PowStep(5);
    PowStep(6);
    PowStep(8);
    PowStep(13);
    PowStep(14);
  }

  /** Every code of the library has its end taps set, and every metric word, 32-bit in the portable
      decoders and 16-bit in the vector ones, is wide enough for its start bias. */
  lemma {:induction false} LibraryDecoders(start: nat, tie: bool)
    ensures TapsSet(CODE_27) && WideEnough(Setup(CODE_27, 63, start, tie), WORD_32)
    ensures TapsSet(CODE_29) && WideEnough(Setup(CODE_29, 63, start, tie), WORD_32)
    ensures TapsSet(CODE_39) && WideEnough(Setup(CODE_39, 63, start, tie), WORD_32) && WideEnough(Setup(CODE_39, 1000, start, tie), WORD_16)
    ensures TapsSet(CODE_615) && WideEnough(Setup(CODE_615, 1000, start, tie), WORD_32) && WideEnough(Setup(CODE_615, 5000, start, tie), WORD_16)
  {
    hide Pow2;
    Powers();
  }

  // ----- A whole frame.

  lemma {:induction false} ZeroWindow(bits: seq<nat>, j: nat, w: nat)
    requires forall i | j <= i < j + w :: BitAt(bits, i) == 0
    ensures Window(bits, j, w) == 0
  {
    hide BitAt;
    if w > 0 { ZeroWindow(bits, j, w - 1); }
  }

  /** A tail of k-1 zero bits brings the encoder back to state 0. */
  lemma {:induction false} ZeroTail(c: Code, s: nat, message: seq<nat>)
    requires c.k >= 2 && s < c.States() && Binary(message)
    ensures Encoder(c, s, message + Zeros(c.k - 1)) == 0
  {
    hide Pow2, Encoder;
    var bits := message + Zeros(c.k - 1);
    EncoderBound(c, s, bits);
    StatesPow(c);
    EncoderWindow(c, s, bits, c.k - 1);
    ZeroWindow(bits, |message|, c.k - 1);
    DivModUnique(Encoder(c, s, bits), Pow2(c.k - 1), 0, Encoder(c, s, bits));
  }

  /** The survivor into state 0 of a frame received within the noise margin carries the sent bits. */
  lemma {:induction false} FrameMargin(u: Setup, h: seq<seq<nat>>, message: seq<nat>, j: nat)
    requires u.code.k >= 2 && TapsSet(u.code) && History(u.code, h) && u.start == 0 && Binary(message)
    requires |h| == |message| + u.code.k - 1
    requires 2 * Deviation(u.code, h, 0, message + Zeros(u.code.k - 1)) < Min(u.bias, u.code.Span()) + u.code.Span()
    ensures Window(TraceBits(u, h, 0), j, 8) == Window(message, j, 8)
  {
    hide Pow2, Encoder, TapsSet, Deviation, Window;
    var bits := message + Zeros(u.code.k - 1);
    ZeroTail(u.code, 0, message);
    NoiseMargin(u, h, bits, 0);
    WindowPrefix(bits, message, j, 8);
  }

  // ----- The frame as it was sent.

  lemma {:induction false} GroupsAt(c: Code, syms: seq<nat>, nbits: nat, i: nat)
    requires |syms| >= |c.polys| * nbits && Bytes(syms) && i < nbits
    ensures |c.polys| * i + |c.polys| <= |syms| && Groups(c, syms, nbits)[i] == syms[|c.polys| * i..|c.polys| * i + |c.polys|]
    decreases i
  {
    var n := |c.polys|;
    TimesStep(n, nbits);
    TimesMono(n, i + 1, nbits);
    TimesStep(n, i + 1);
    if i > 0 {
      TimesStep(n, i);
      GroupsAt(c, syms[n..], nbits - 1, i - 1);
      SliceBehind(syms, n, n * (i - 1));
    } else {
      assert n * 0 == 0;
    }
  }

  lemma {:induction false} SliceBehind(syms: seq<nat>, n: nat, at: nat)
    requires n + at + n <= |syms|
    ensures syms[n..][at..at + n] == syms[n + at..n + at + n]
  {
  }

  /** The deviation is the noise: the distance of the received symbols from those sent. */
  lemma {:induction false} NoiseIsDeviation(c: Code, bits: seq<nat>, syms: seq<nat>, i: nat)
    requires c.k >= 2 && TapsSet(c) && Binary(bits) && i <= |bits| && |syms| >= |c.polys| * |bits| && Bytes(syms)
    ensures |c.polys| * i <= |syms|
    ensures Deviation(c, Groups(c, syms, |bits|)[..i], 0, bits[..i]) == Noise(c, bits, syms, i)
  {
    hide Pow2, TapsSet, Groups, LastRegister, DistanceTo, GroupNoise, Shifted;
    var n, h := |c.polys|, Groups(c, syms, |bits|);
    TimesMono(n, i, |bits|);
    if i > 0 {
      TimesStep(n, i);
      NoiseIsDeviation(c, bits, syms, i - 1);
      assert h[..i][..i - 1] == h[..i - 1] && bits[..i][..i - 1] == bits[..i - 1];
      EncoderIsShifted(c, bits, i);
      GroupsAt(c, syms, |bits|, i - 1);
      GroupNoiseIs(c, Shifted(bits, i), syms, n * (i - 1), n);
    }
  }

  /** A window is the low end of the register after its last bit. */
  lemma {:induction false} ShiftedWindow(bits: seq<nat>, j: nat, w: nat)
    requires Binary(bits) && j + w <= |bits|
    ensures Window(bits, j, w) == Shifted(bits, j + w) % Pow2(w)
  {
    hide Pow2;
    if w == 0 {
      PowZero();
    } else {
      ShiftedWindow(bits, j, w - 1);
      PowStep(w - 1);
      ShiftLow(Shifted(bits, j + w - 1), bits[j + w - 1], Pow2(w - 1));
    }
  }

  /** Decodes a frame whose tail is k-1 zero bits: when the noise added to the symbols sent is below half of
      the margin, the output bytes are exactly the message. Without noise it always is. */
  method DecodeFrame(v: Decoder, syms: seq<nat>, nbits: nat, data: array<nat>, ghost message: seq<nat>)
    requires v.Valid() && nbits + v.code.k - 1 <= v.decisions.Length0
    requires |syms| >= |v.code.polys| * (nbits + v.code.k - 1) && Bytes(syms)
    requires nbits <= 8 * data.Length && data != v.metrics1 && data != v.metrics2
    requires Binary(message) && |message| == nbits
    requires 2 * Noise(v.code, message + Zeros(v.code.k - 1), syms, nbits + v.code.k - 1) < Min(v.bias, v.code.Span()) + v.code.Span()
    modifies v, v.metrics1, v.metrics2, v.decisions, data
    ensures v.Valid() && forall j: nat | 8 * j < nbits :: data[j] == Window(message, 8 * j, 8)
    ensures forall j: nat | 8 * j + 8 <= nbits :: data[j] == Shifted(message, 8 * j + 8) % 0x100
  {
    hide TapsSet, Pow2, Decision, Deviation, Noise, TraceBits, MetricsHold, TableHolds, WideEnough, Shifted, Window;
    ghost var all := nbits + v.code.k - 1;
    ghost var bits := message + Zeros(v.code.k - 1);
    NoiseIsDeviation(v.code, bits, syms, all);
    v.Init(0);
    v.UpdateBlk(syms, nbits + v.code.k - 1);
    v.Chainback(data, nbits, 0);
    assert v.heard == Groups(v.code, syms, all);
    assert v.heard[..all] == v.heard && bits[..all] == bits;
    Pow8();
    forall j: nat | 8 * j < nbits
      ensures data[j] == Window(message, 8 * j, 8)
      ensures 8 * j + 8 <= nbits ==> data[j] == Shifted(message, 8 * j + 8) % 0x100
    {
      FrameMargin(v.Settings(), v.heard, message, 8 * j);
      if 8 * j + 8 <= nbits { ShiftedWindow(message, 8 * j, 8); }
    }
  }
}
