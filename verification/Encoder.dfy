/** The systematic encoder: a feedback shift register clocked once per data symbol. */
module RsEncoder {
  import opened Bits
  import opened GaloisField
  import opened FieldSums
  import opened BerlekampMassey
  import opened CodeTheory
  import opened RsCodec

  /** The register after one clock with feedback fb: shifted, and the generator's multiple added. */
  ghost function Clocked(f: GF, g: int -> nat, p: seq<nat>, fb: nat): (r: seq<nat>) {
    seq(|p|, (j: int) => ClockedAt(f, g, p, fb, j))
  }

  ghost function ClockedAt(f: GF, g: int -> nat, p: seq<nat>, fb: nat, j: int): nat {
    Xor(At(p, j + 1), Mul(f, fb, g(|p| - 1 - j)))
  }

  lemma {:induction false} ClockedIsCombination(f: GF, g: int -> nat, p: seq<nat>, fb: nat, i: int)
    requires 0 <= i < |p|
    ensures RevFn(Clocked(f, g, p, fb))(i) == Combine(f, ShiftFn(RevFn(p)), fb, g)(i)
  {
    hide Mul, Xor;
    var r := Clocked(f, g, p, fb);
    assert RevFn(r)(i) == At(r, |p| - 1 - i);
    assert |p| - 1 - (|p| - 1 - i) == i;
    assert ShiftFn(RevFn(p))(i) == RevFn(p)(i - 1) == At(p, |p| - 1 - (i - 1));
  }

  /** At a root of the monic generator, clocking multiplies by the point and brings in the symbol. */
  lemma {:induction false} ClockedValue(f: GF, g: int -> nat, p: seq<nat>, d: nat, k: int)
    requires |p| >= 1 && SeqIn(f, p)
    requires Ev(f, |p| + 1, g, k) == 0 && g(|p|) == 1
    ensures Ev(f, |p|, RevFn(Clocked(f, g, p, Xor(d, p[0]))), k)
         == Xor(Mul(f, E(f, k), Ev(f, |p|, RevFn(p), k)), Mul(f, d, E(f, Times(k, |p|))))
  {
    hide Mul, Xor, E, Times, Ev, Clocked, RevFn;
    var n, fb, q := |p|, Xor(d, p[0]), RevFn(p);
    var top := E(f, Times(k, n));
    forall i | 0 <= i < n ensures RevFn(Clocked(f, g, p, fb))(i) == Combine(f, ShiftFn(q), fb, g)(i) {
      ClockedIsCombination(f, g, p, fb, i);
    }
    RevLength(f, g, p, fb);
    EvCong(f, n, RevFn(Clocked(f, g, p, fb)), Combine(f, ShiftFn(q), fb, g), k);
    EvCombine(f, ShiftFn(q), fb, g, n, k);
    ShiftedRegister(f, p, k);
    MonicValue(f, n, g, k);
    ClockAlgebra(f, E(f, k), Ev(f, n, q, k), p[0], d, top);
  }

  lemma {:induction false} RevLength(f: GF, g: int -> nat, p: seq<nat>, fb: nat)
    ensures |Clocked(f, g, p, fb)| == |p|
  {
  }

  lemma {:induction false} RevTop(p: seq<nat>)
    requires |p| >= 1
    ensures RevFn(p)(|p| - 1) == p[0] && RevFn(p)(-1) == 0
  {
    assert RevFn(p)(|p| - 1) == At(p, |p| - 1 - (|p| - 1));
    assert RevFn(p)(-1) == At(p, |p| - 1 - -1);
  }

  lemma {:induction false} EvTop(f: GF, n: int, p: int -> nat, k: int)
    requires n >= 0
    ensures Ev(f, n + 1, p, k) == Xor(Ev(f, n, p, k), Mul(f, p(n), E(f, Times(k, n))))
  {
    hide Mul, Xor, E, Times;
  }

  /** Shifting drops the top symbol from the product with the point. */
  lemma {:induction false} ShiftedRegister(f: GF, p: seq<nat>, k: int)
    requires |p| >= 1 && SeqIn(f, p)
    ensures Ev(f, |p|, ShiftFn(RevFn(p)), k)
         == Xor(Mul(f, E(f, k), Ev(f, |p|, RevFn(p), k)), Mul(f, p[0], E(f, Times(k, |p|))))
  {
    hide Mul, Xor, E, Times, Ev, RevFn;
    var n, q := |p| - 1, RevFn(p);
    RevTop(p);
    EvShift(f, n, q, k);
    EvTop(f, n, q, k);
    RaisedTerm(f, p[0], k, n);
    MulXor(f, E(f, k), Ev(f, n, q, k), Mul(f, p[0], E(f, Times(k, n))));
    XorCancel(Mul(f, E(f, k), Ev(f, n, q, k)), Mul(f, p[0], E(f, Times(k, n + 1))));
  }

  lemma {:induction false} MonicValue(f: GF, n: int, g: int -> nat, k: int)
    requires n >= 0 && Ev(f, n + 1, g, k) == 0 && g(n) == 1
    ensures Ev(f, n, g, k) == E(f, Times(k, n))
  {
    hide Mul, Xor, E, Times, Ev;
    EvTop(f, n, g, k);
    EIn(f, Times(k, n));
    MulOne(f, E(f, Times(k, n)));
    XorCancel(Ev(f, n, g, k), E(f, Times(k, n)));
  }

  lemma {:induction false} ClockAlgebra(f: GF, x: nat, v: nat, p0: nat, d: nat, top: nat)
    ensures Xor(Xor(Mul(f, x, v), Mul(f, p0, top)), Mul(f, Xor(d, p0), top))
         == Xor(Mul(f, x, v), Mul(f, d, top))
  {
    hide Mul, Xor;
    var a, b, c := Mul(f, x, v), Mul(f, p0, top), Mul(f, d, top);
    MulXor(f, top, d, p0);
    XorComm(c, b);
    XorAssoc(a, b, Xor(b, c));
    XorCancel(b, c);
  }

  /** One clock, for a register that holds the remainder so far. */
  lemma {:induction false} EncodeStep(f: GF, prim: int, fcr: int, nroots: nat, t: int, w: seq<nat>, d: nat, p: seq<nat>)
    requires 0 <= t < nroots && |p| == nroots && SeqIn(f, p) && SeqIn(f, w) && d < f.Size()
    requires Remainder(f, prim, fcr, t, w, p)
    ensures Remainder(f, prim, fcr, t, w + [d], Clocked(f, GenFn(f, prim, fcr, nroots), p, Xor(d, p[0])))
  {
    hide Mul, Xor, E, Times, Ev, Horner, RevFn, Clocked, GenCoef, Root;
    var k, g := Root(prim, fcr, t), GenFn(f, prim, fcr, nroots);
    GenRoots(f, prim, fcr, nroots, t);
    GenShape(f, prim, fcr, nroots, nroots);
    ClockedValue(f, g, p, d, k);
    HornerLast(f, w, d, k);
    RevLength(f, g, p, Xor(d, p[0]));
    RemainderAlgebra(f, E(f, k), Horner(f, w, k), d, E(f, Times(k, nroots)));
  }

  /** The register agrees with data(x) * x^nroots at root t. */
  ghost predicate Remainder(f: GF, prim: int, fcr: int, t: int, w: seq<nat>, p: seq<nat>) {
    var k := Root(prim, fcr, t);
    Ev(f, |p|, RevFn(p), k) == Mul(f, Horner(f, w, k), E(f, Times(k, |p|)))
  }

  lemma {:induction false} HornerLast(f: GF, w: seq<nat>, d: nat, k: int)
    ensures Horner(f, w + [d], k) == Xor(Mul(f, Horner(f, w, k), E(f, k)), d)
  {
    hide Mul, Xor, E;
    assert (w + [d])[..|w + [d]| - 1] == w;
  }

  lemma {:induction false} RemainderAlgebra(f: GF, x: nat, h: nat, d: nat, top: nat)
    ensures Xor(Mul(f, x, Mul(f, h, top)), Mul(f, d, top)) == Mul(f, Xor(Mul(f, h, x), d), top)
  {
    hide Mul, Xor;
    MulXor(f, top, Mul(f, h, x), d);
    MulComm(f, h, x);
    MulAssoc(f, x, h, top);
  }

  // ----- The encoder itself.

  lemma {:induction false} ClockedEntry(f: GF, g: int -> nat, p: seq<nat>, fb: nat, j: int)
    requires 0 <= j < |p|
    ensures Clocked(f, g, p, fb)[j] == Xor(At(p, j + 1), Mul(f, fb, g(|p| - 1 - j)))
    ensures j == |p| - 1 ==> Clocked(f, g, p, fb)[j] == Mul(f, fb, g(0))
    ensures fb == 0 ==> Mul(f, fb, g(|p| - 1 - j)) == 0
  {
    hide Mul, Xor;
    XorZero(Mul(f, fb, g(0)));
    MulZero(f, g(|p| - 1 - j));
  }

  lemma {:induction false} ClockedIn(f: GF, g: int -> nat, p: seq<nat>, fb: nat)
    requires SeqIn(f, p)
    ensures |Clocked(f, g, p, fb)| == |p| && SeqIn(f, Clocked(f, g, p, fb))
  {
    hide Mul, Xor;
    forall j | 0 <= j < |p| ensures Clocked(f, g, p, fb)[j] < f.Size() {
      MulIn(f, fb, g(|p| - 1 - j));
      XorBound(At(p, j + 1), Mul(f, fb, g(|p| - 1 - j)), f.mm);
    }
  }

  /** The product of the feedback with generator coefficient i, read through the tables. */
  method FeedbackTimes(rs: Codec, feedback: nat, i: nat, ghost fb: nat) returns (y: nat)
    requires rs.Valid() && i <= rs.nroots && 0 < fb < rs.gf.Size() && feedback == Log(rs.gf, fb)
    ensures y == Mul(rs.gf, fb, GenFn(rs.gf, rs.prim, rs.fcr, rs.nroots)(i))
  {
    hide E, Mul, Xor, GenCoef, PrimInverse, Pow2;
    LogSum(rs.gf, fb, rs.genPoly[i]);
    y := AlphaOf(rs.mm, rs.nn, rs.alphaTo, rs.indexOf, feedback + rs.genPoly[i], rs.gf);
  }

  ghost predicate Separate(rs: Codec, a: array<nat>) {
    a != rs.alphaTo && a != rs.indexOf && a != rs.genPoly
  }

  method AddFeedback(rs: Codec, parity: array<nat>, feedback: nat, ghost fb: nat)
    requires rs.Valid() && Separate(rs, parity) && parity.Length == rs.nroots >= 1
    requires 0 < fb < rs.gf.Size() && feedback == Log(rs.gf, fb)
    modifies parity
    ensures parity[0] == old(parity[0])
    ensures forall j | 1 <= j < parity.Length ::
              parity[j] == Xor(old(parity[j]), Mul(rs.gf, fb, GenFn(rs.gf, rs.prim, rs.fcr, rs.nroots)(rs.nroots - j)))
  {
    hide E, Mul, Xor, GenFn, PrimInverse, Pow2, IndexGen, Tables;
    var j := 1;
    while j < rs.nroots
      invariant 1 <= j <= rs.nroots && parity[0] == old(parity[0])
      invariant forall t | j <= t < rs.nroots :: parity[t] == old(parity[t])
      invariant forall t | 1 <= t < j ::
          parity[t] == Xor(old(parity[t]), Mul(rs.gf, fb, GenFn(rs.gf, rs.prim, rs.fcr, rs.nroots)(rs.nroots - t)))
    {
      var y := FeedbackTimes(rs, feedback, rs.nroots - j, fb);
      parity[j] := Xor(parity[j], y);
      j := j + 1;
    }
  }

  /** One pass of the encoder's loop body. */
  method ClockRegister(rs: Codec, parity: array<nat>, d: nat)
    requires rs.Valid() && Separate(rs, parity) && parity.Length == rs.nroots >= 1
    requires SeqIn(rs.gf, parity[..]) && d < rs.gf.Size()
    modifies parity
    ensures parity[..] == Clocked(rs.gf, GenFn(rs.gf, rs.prim, rs.fcr, rs.nroots), old(parity[..]), Xor(d, old(parity[0])))
  {
    hide E, Mul, Xor, GenFn, PrimInverse, Pow2, IndexGen, Clocked;
    ghost var f, p := rs.gf, parity[..];
    ghost var g := GenFn(f, rs.prim, rs.fcr, rs.nroots);
    XorBound(d, parity[0], f.mm);
    ghost var fb := Xor(d, p[0]);
    var n := rs.nroots;
    var feedback := rs.indexOf[Xor(d, parity[0])];
    if feedback != rs.nn {
      AddFeedback(rs, parity, feedback, fb);
    }
    ghost var q := parity[..];
    if fb == 0 { NoFeedback(f, g, p); }
    forall j | 0 <= j < n - 1 {
      parity[j] := parity[j + 1];
    }
    if feedback != rs.nn {
      var y := FeedbackTimes(rs, feedback, 0, fb);
      parity[n - 1] := y;
    } else {
      parity[n - 1] := 0;
    }
    ShiftedIsClocked(f, g, p, fb, q, parity[..]);
  }

  lemma {:induction false} NoFeedback(f: GF, g: int -> nat, p: seq<nat>)
    ensures forall j | 1 <= j < |p| :: p[j] == Xor(p[j], Mul(f, 0, g(|p| - j)))
    ensures Mul(f, 0, g(0)) == 0
  {
    hide Mul, Xor;
    forall j | 1 <= j < |p| ensures p[j] == Xor(p[j], Mul(f, 0, g(|p| - j))) {
      MulZero(f, g(|p| - j));
      XorZero(p[j]);
    }
    MulZero(f, g(0));
  }

  lemma {:induction false} ShiftedIsClocked(f: GF, g: int -> nat, p: seq<nat>, fb: nat, q: seq<nat>, r: seq<nat>)
    requires |p| == |q| == |r| >= 1
    requires forall j | 1 <= j < |p| :: q[j] == Xor(p[j], Mul(f, fb, g(|p| - j)))
    requires forall j | 0 <= j < |p| - 1 :: r[j] == q[j + 1]
    requires r[|p| - 1] == Mul(f, fb, g(0))
    ensures r == Clocked(f, g, p, fb)
  {
    hide Mul, Xor, Clocked;
    RevLength(f, g, p, fb);
    forall j | 0 <= j < |p| ensures r[j] == Clocked(f, g, p, fb)[j] {
      ClockedEntry(f, g, p, fb, j);
      if j < |p| - 1 {
        assert r[j] == q[j + 1];
        assert |p| - (j + 1) == |p| - 1 - j;
      }
    }
  }

  /** The initial register is zero and so is the value of the empty message. */
  lemma {:induction false} EmptyRemainder(f: GF, prim: int, fcr: int, t: int, p: seq<nat>)
    requires forall j | 0 <= j < |p| :: p[j] == 0
    ensures Remainder(f, prim, fcr, t, [], p)
  {
    hide Mul, E, Times, Root, Ev, Horner, RevFn;
    var k := Root(prim, fcr, t);
    HornerEmpty(f, k);
    ZeroRegister(p);
    EvCong(f, |p|, RevFn(p), ZeroFn(), k);
    EvZero(f, |p|, k);
    MulZero(f, E(f, Times(k, |p|)));
  }

  lemma {:induction false} HornerEmpty(f: GF, k: int)
    ensures Horner(f, [], k) == 0
  {
  }

  lemma {:induction false} ZeroRegister(p: seq<nat>)
    requires forall j | 0 <= j < |p| :: p[j] == 0
    ensures forall i | 0 <= i < |p| :: RevFn(p)(i) == ZeroFn()(i)
  {
    forall i | 0 <= i < |p| ensures RevFn(p)(i) == ZeroFn()(i) {
      assert RevFn(p)(i) == At(p, |p| - 1 - i);
    }
  }

  /** A register that agrees with data(x) * x^nroots at every root completes the data to a codeword. */
  lemma {:induction false} RemainderCompletes(f: GF, prim: int, fcr: int, nroots: nat, w: seq<nat>, p: seq<nat>)
    requires SeqIn(f, w) && SeqIn(f, p)
    requires forall t | 0 <= t < nroots :: Remainder(f, prim, fcr, t, w, p)
    ensures IsCodeword(f, prim, fcr, nroots, w + p)
  {
    hide Mul, E, Times, Xor, Horner, Ev, Root, RevFn;
    forall t | 0 <= t < nroots ensures Horner(f, w + p, Root(prim, fcr, t)) == 0 {
      var k := Root(prim, fcr, t);
      assert Remainder(f, prim, fcr, t, w, p);
      HornerConcat(f, w, p, k);
      HornerIsEv(f, p, k);
      XorSelf(Horner(f, p, k));
    }
  }

  method Encode(rs: Codec, data: array<nat>, parity: array<nat>)
    requires rs.Valid() && rs.nroots >= 1
    requires data.Length == rs.nn - rs.nroots - rs.pad && parity.Length == rs.nroots
    requires Separate(rs, parity) && parity != data && SeqIn(rs.gf, data[..])
    modifies parity
    ensures SeqIn(rs.gf, parity[..])
    ensures IsCodeword(rs.gf, rs.prim, rs.fcr, rs.nroots, data[..] + parity[..])
  {
    hide E, Mul, Xor, GenFn, PrimInverse, Pow2, IndexGen, Clocked, Remainder, Tables, IsCodeword;
    ghost var f := rs.gf;
    forall j | 0 <= j < parity.Length {
      parity[j] := 0;
    }
    forall t | 0 <= t < rs.nroots ensures Remainder(f, rs.prim, rs.fcr, t, [], parity[..]) {
      EmptyRemainder(f, rs.prim, rs.fcr, t, parity[..]);
    }
    OneBelowSize(f);
    assert data[..0] == [];
    for i := 0 to data.Length
      invariant SeqIn(f, parity[..])
      invariant forall t | 0 <= t < rs.nroots :: Remainder(f, rs.prim, rs.fcr, t, data[..i], parity[..])
    {
      ghost var p, d := parity[..], data[i];
      ClockRegister(rs, parity, data[i]);
      ClockedIn(f, GenFn(f, rs.prim, rs.fcr, rs.nroots), p, Xor(d, p[0]));
      ghost var w := data[..i + 1];
      assert w == data[..i] + [d];
      forall t | 0 <= t < rs.nroots ensures Remainder(f, rs.prim, rs.fcr, t, w, parity[..]) {
        assert Remainder(f, rs.prim, rs.fcr, t, data[..i], p);
        EncodeStep(f, rs.prim, rs.fcr, rs.nroots, t, data[..i], d, p);
      }
    }
    assert data[..data.Length] == data[..];
    RemainderCompletes(f, rs.prim, rs.fcr, rs.nroots, data[..], parity[..]);
  }

  lemma {:induction false} OneBelowSize(f: GF)
    ensures 0 < f.Size()
  {
  }
}
