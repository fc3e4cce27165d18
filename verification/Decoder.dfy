/** The errors-and-erasures decoder, stage by stage over its arrays. */
module RsDecoder {
  import opened Bits
  import opened Sequences
  import opened GaloisField
  import opened FieldSums
  import opened BerlekampMassey
  import opened ErrorLocator
  import opened ErrorValues
  import opened CodeTheory
  import opened RsCodec
  import opened RsEncoder
  import opened DecodeTheory

  // ----- Index form and polynomial form.

  /** Array a holds in index form what p is in polynomial form. */
  ghost predicate IndexForm(f: GF, a: seq<nat>, p: seq<nat>) {
    |a| == |p| && SeqIn(f, p) && forall i | 0 <= i < |p| :: a[i] == ToIndex(f, p[i])
  }

  lemma {:induction false} IndexFacts(f: GF, x: nat)
    requires x < f.Size()
    ensures ToIndex(f, x) <= f.NN() && (ToIndex(f, x) == f.NN() <==> x == 0)
    ensures x != 0 ==> ToIndex(f, x) == Log(f, x) && E(f, ToIndex(f, x)) == x
  {
    hide E;
    if x != 0 { LogE(f, x); }
  }

  lemma {:induction false} IndexEntry(f: GF, a: seq<nat>, p: seq<nat>, i: int)
    requires IndexForm(f, a, p) && 0 <= i < |p|
    ensures a[i] == ToIndex(f, p[i]) && p[i] < f.Size()
    ensures a[i] <= f.NN() && (a[i] == f.NN() <==> p[i] == 0)
    ensures p[i] != 0 ==> a[i] == Log(f, p[i]) && E(f, a[i]) == p[i]
  {
    hide E, ToIndex;
    IndexFacts(f, p[i]);
  }

  /** alphaTo[modnn(indexOf[x] + k)] for nonzero x: the product of x and alpha^k. */
  method TimesAlpha(rs: Codec, x: nat, k: nat) returns (y: nat)
    requires rs.Valid() && 0 < x < rs.gf.Size()
    ensures y == Mul(rs.gf, x, E(rs.gf, k))
  {
    hide E, Mul, PrimInverse, Pow2, IndexGen;
    LogSum(rs.gf, x, k);
    y := AlphaOf(rs.mm, rs.nn, rs.alphaTo, rs.indexOf, rs.indexOf[x] + k, rs.gf);
  }

  /** Adds the product of x and y to acc, y being given in index form; the logs are only added when
      neither factor is zero. */
  method AddProduct(rs: Codec, acc: nat, x: nat, yi: nat, ghost y: nat) returns (sum: nat)
    requires rs.Valid() && x < rs.gf.Size() && y < rs.gf.Size() && yi == ToIndex(rs.gf, y)
    ensures sum == Xor(acc, Mul(rs.gf, x, y))
  {
    hide E, Mul, Xor, PrimInverse, Pow2, IndexGen, Tables, ToIndex;
    TablesSize(rs);
    IndexFacts(rs.gf, y);
    if x != 0 && yi != rs.nn {
      var a := TimesAlpha(rs, x, yi);
      sum := Xor(acc, a);
    } else {
      MulZero(rs.gf, x);
      MulZero(rs.gf, y);
      XorZero(acc);
      sum := acc;
    }
  }

  method IndexOf(rs: Codec, x: nat) returns (i: nat)
    requires rs.Valid() && x < rs.gf.Size()
    ensures i == ToIndex(rs.gf, x) && i <= rs.nn == rs.gf.NN() && (i == rs.nn <==> x == 0)
  {
    hide E, ToIndex, PrimInverse, Pow2, IndexGen;
    IndexFacts(rs.gf, x);
    i := rs.indexOf[x];
  }

  // ----- Syndromes.

  ghost function Syn(f: GF, prim: int, fcr: int, nroots: nat, w: seq<nat>): (s: seq<nat>) {
    seq(nroots, (t: int) => Horner(f, w, Root(prim, fcr, t)))
  }

  lemma {:induction false} HornerPrefix(f: GF, w: seq<nat>, j: int, k: int)
    requires 0 <= j < |w| && SeqIn(f, w)
    ensures Horner(f, w[..j + 1], k) == Xor(Mul(f, Horner(f, w[..j], k), E(f, k)), w[j])
    ensures Horner(f, w[..j], k) < f.Size()
  {
    hide E, Mul, Xor;
    assert w[..j + 1][..j] == w[..j];
    HornerBound(f, w[..j], k);
  }

  lemma {:induction false} RootValue(prim: nat, fcr: nat, t: nat)
    ensures Root(prim, fcr, t) == (fcr + t) * prim && Root(prim, fcr, t) >= 0
  {
    hide Times;
    TimesIs(prim, fcr + t);
    assert prim * (fcr + t) >= 0;
  }

  /** Brings data symbol j into every running syndrome. */
  method SyndromeStep(rs: Codec, data: array<nat>, j: nat, s: array<nat>)
    requires rs.Valid() && Separate(rs, s) && s != data
    requires 1 <= j < data.Length && SeqIn(rs.gf, data[..])
    requires s[..] == Syn(rs.gf, rs.prim, rs.fcr, rs.nroots, data[..j])
    modifies s
    ensures s[..] == Syn(rs.gf, rs.prim, rs.fcr, rs.nroots, data[..j + 1])
  {
    hide E, Mul, Xor, Horner, Root, PrimInverse, Pow2, IndexGen, Tables;
    ghost var f, w := rs.gf, data[..];
    assert data[..j] == w[..j] && data[..j + 1] == w[..j + 1];
    assert forall t | 0 <= t < s.Length :: s[..][t] == Horner(f, w[..j], Root(rs.prim, rs.fcr, t));
    for i := 0 to s.Length
      invariant forall t | i <= t < s.Length :: s[t] == Horner(f, w[..j], Root(rs.prim, rs.fcr, t))
      invariant forall t | 0 <= t < i :: s[t] == Horner(f, w[..j + 1], Root(rs.prim, rs.fcr, t))
    {
      ghost var k := Root(rs.prim, rs.fcr, i);
      HornerPrefix(f, w, j, k);
      RootValue(rs.prim, rs.fcr, i);
      if s[i] == 0 {
        MulZero(f, E(f, k));
        XorZero(data[j]);
        s[i] := data[j];
      } else {
        var a := TimesAlpha(rs, s[i], (rs.fcr + i) * rs.prim);
        XorComm(data[j], a);
        s[i] := Xor(data[j], a);
      }
    }
  }

  method FirstSyndromes(rs: Codec, data: array<nat>, s: array<nat>)
    requires s != data && s.Length == rs.nroots && data.Length >= 1 && Primitive(rs.gf)
    modifies s
    ensures s[..] == Syn(rs.gf, rs.prim, rs.fcr, rs.nroots, data[..1])
  {
    hide E, Mul, Xor, Horner, Root, Iter;
    forall i | 0 <= i < s.Length {
      s[i] := data[0];
    }
    forall t | 0 <= t < s.Length ensures s[t] == Horner(rs.gf, data[..1], Root(rs.prim, rs.fcr, t)) {
      FirstSymbol(rs.gf, data[..], Root(rs.prim, rs.fcr, t));
      assert data[..1] == data[..][..1];
    }
  }

  method FormSyndromes(rs: Codec, data: array<nat>, s: array<nat>) returns (synError: bool)
    requires rs.Valid() && Separate(rs, s) && s != data && s.Length == rs.nroots
    requires 1 <= data.Length && SeqIn(rs.gf, data[..])
    modifies s
    ensures IndexForm(rs.gf, s[..], Syn(rs.gf, rs.prim, rs.fcr, rs.nroots, data[..]))
    ensures synError <==> SomeNonzero(Syn(rs.gf, rs.prim, rs.fcr, rs.nroots, data[..]))
  {
    hide Syn, PrimInverse, Pow2, IndexGen, Tables, SyndromesOf, IndexForm, SomeNonzero;
    FirstSyndromes(rs, data, s);
    for j := 1 to data.Length
      invariant s[..] == Syn(rs.gf, rs.prim, rs.fcr, rs.nroots, data[..j])
    {
      SyndromeStep(rs, data, j, s);
    }
    assert data[..data.Length] == data[..];
    SynIn(rs.gf, rs.prim, rs.fcr, rs.nroots, data[..]);
    synError := ConvertSyndromes(rs, s);
  }

  ghost predicate SomeNonzero(s: seq<nat>) { exists t :: 0 <= t < |s| && s[t] != 0 }

  /** Converts the syndromes to index form, noting whether any is nonzero. */
  method ConvertSyndromes(rs: Codec, s: array<nat>) returns (synError: bool)
    requires rs.Valid() && Separate(rs, s) && SeqIn(rs.gf, s[..])
    modifies s
    ensures IndexForm(rs.gf, s[..], old(s[..]))
    ensures synError <==> SomeNonzero(old(s[..]))
  {
    hide E, PrimInverse, Pow2, IndexGen, ToIndex, Tables;
    ghost var syn := s[..];
    synError := false;
    for i := 0 to s.Length
      invariant forall t | i <= t < s.Length :: s[t] == syn[t]
      invariant forall t | 0 <= t < i :: s[t] == ToIndex(rs.gf, syn[t])
      invariant synError <==> exists t :: 0 <= t < i && syn[t] != 0
    {
      synError := synError || s[i] != 0;
      var x := IndexOf(rs, s[i]);
      s[i] := x;
    }
  }

  lemma {:induction false} FirstSymbol(f: GF, w: seq<nat>, k: int)
    requires |w| >= 1
    ensures Horner(f, w[..1], k) == w[0]
  {
    hide E, Mul, Xor;
    assert w[..1][..0] == [];
    HornerEmpty(f, k);
    MulZero(f, E(f, k));
    XorZero(w[0]);
  }

  lemma {:induction false} SynIn(f: GF, prim: int, fcr: int, nroots: nat, w: seq<nat>)
    requires SeqIn(f, w)
    ensures SeqIn(f, Syn(f, prim, fcr, nroots, w)) && |Syn(f, prim, fcr, nroots, w)| == nroots
    ensures SyndromesOf(f, prim, fcr, w, Syn(f, prim, fcr, nroots, w))
  {
    hide E, Mul, Xor, Horner, Root;
    forall t | 0 <= t < nroots ensures Syn(f, prim, fcr, nroots, w)[t] < f.Size() {
      HornerBound(f, w, Root(prim, fcr, t));
    }
  }

  // ----- The erasure locator.

  /** Multiplies the locator of i erasures by 1 + alpha^u x in place. */
  method MultiplyErasure(rs: Codec, lambda: array<nat>, i: nat, u: nat)
    requires rs.Valid() && Separate(rs, lambda) && lambda.Length == rs.nroots + 1 && i < rs.nroots
    requires SeqIn(rs.gf, lambda[..]) && DegreeAtMost(lambda[..], i)
    modifies lambda
    ensures lambda[..] == AddShifted(rs.gf, old(lambda[..]), E(rs.gf, u), old(lambda[..]))
  {
    hide E, Mul, Xor, PrimInverse, Pow2, IndexGen, AddShifted, Tables;
    ghost var f, g := rs.gf, lambda[..];
    ghost var h := AddShifted(f, g, E(f, u), g);
    AddShiftedTail(f, g, E(f, u), i);
    hide DegreeAtMost;
    var j := i + 1;
    while j > 0
      invariant 0 <= j <= i + 1
      invariant forall t | 0 <= t <= j :: lambda[t] == g[t]
      invariant forall t | j < t < lambda.Length :: lambda[t] == h[t]
    {
      AddShiftedEntry(f, g, E(f, u), g, j);
      var tmp := IndexOf(rs, lambda[j - 1]);
      if tmp != rs.nn {
        MulComm(f, g[j - 1], E(f, u));
        var a := TimesAlpha(rs, lambda[j - 1], u);
        lambda[j] := Xor(lambda[j], a);
      }
      j := j - 1;
    }
    AddShiftedEntry(f, g, E(f, u), g, 0);
  }

  lemma {:induction false} AddShiftedEntry(f: GF, g: seq<nat>, d: nat, b: seq<nat>, i: int)
    requires |g| == |b| && 0 <= i < |g|
    ensures var h := AddShifted(f, g, d, b);
            |h| == |g| && h[i] == if i == 0 then g[i] else Xor(g[i], Mul(f, d, b[i - 1]))
    ensures i > 0 && b[i - 1] == 0 ==> AddShifted(f, g, d, b)[i] == g[i]
  {
    hide Mul, Xor;
    MulZero(f, d);
    XorZero(g[i]);
  }

  lemma {:induction false} AddShiftedTail(f: GF, g: seq<nat>, d: nat, i: nat)
    requires DegreeAtMost(g, i)
    ensures |AddShifted(f, g, d, g)| == |g|
    ensures forall t | i + 1 < t < |g| :: AddShifted(f, g, d, g)[t] == g[t]
  {
    hide Mul, Xor, AddShifted;
    AddShiftedLength(f, g, d, g);
    forall t | i + 1 < t < |g| ensures AddShifted(f, g, d, g)[t] == g[t] {
      AddShiftedEntry(f, g, d, g, t);
    }
  }

  lemma {:induction false} AddShiftedLength(f: GF, g: seq<nat>, d: nat, b: seq<nat>)
    ensures |AddShifted(f, g, d, b)| == |g|
  {
  }

  ghost predicate ErasuresInRange(nn: nat, eras: seq<int>) { forall i | 0 <= i < |eras| :: 0 <= eras[i] < nn }

  lemma {:induction false} GammaNext(f: GF, prim: int, nroots: nat, eras: seq<int>, i: nat)
    requires i < |eras|
    ensures Gamma(f, prim, nroots, eras[..i + 1])
         == AddShifted(f, Gamma(f, prim, nroots, eras[..i]), E(f, Location(f.NN(), prim)(eras[i])), Gamma(f, prim, nroots, eras[..i]))
  {
    hide E, AddShifted, Location;
    assert eras[..i + 1][..i] == eras[..i];
  }

  lemma {:induction false} LocationValue(f: GF, nn: nat, prim: nat, p: int)
    requires nn == f.NN() && 0 <= p < nn
    ensures Location(f.NN(), prim)(p) == prim * (nn - 1 - p) >= 0
  {
    NonnegProduct(prim, nn - 1 - p);
    hide Pow2;
  }

  lemma {:induction false} NonnegProduct(x: int, y: int)
    requires x >= 0 && y >= 0
    ensures Times(x, y) == x * y >= 0
  {
    hide Times;
    TimesIs(x, y);
  }

  /** The locator of no erasures. */
  method UnitLocator(rs: Codec, lambda: array<nat>)
    requires Primitive(rs.gf) && lambda.Length == rs.nroots + 1
    modifies lambda
    ensures lambda[..] == Gamma(rs.gf, rs.prim, rs.nroots, [])
  {
    hide Iter;
    forall i | 0 < i < lambda.Length {
      lambda[i] := 0;
    }
    lambda[0] := 1;
  }

  /** The location log of an erased position, reduced. */
  method ErasureLog(rs: Codec, p: int) returns (u: nat)
    requires rs.Valid() && 0 <= p < rs.nn
    ensures E(rs.gf, u) == E(rs.gf, Location(rs.gf.NN(), rs.prim)(p))
  {
    hide E, PrimInverse, Pow2, IndexGen, Location;
    LocationValue(rs.gf, rs.nn, rs.prim, p);
    EModNN(rs.gf, rs.prim * (rs.nn - 1 - p));
    var x := ModNN(rs.mm, rs.nn, rs.prim * (rs.nn - 1 - p));
    u := x;
  }

  method ErasureLocator(rs: Codec, erasPos: array?<int>, noEras: nat, lambda: array<nat>)
    requires rs.Valid() && Separate(rs, lambda) && lambda.Length == rs.nroots + 1
    requires noEras <= rs.nroots && (noEras > 0 ==> erasPos != null && noEras <= erasPos.Length)
    requires noEras > 0 ==> ErasuresInRange(rs.nn, erasPos[..noEras])
    modifies lambda
    ensures lambda[..] == Gamma(rs.gf, rs.prim, rs.nroots, if noEras > 0 then erasPos[..noEras] else [])
  {
    hide E, Gamma, PrimInverse, Pow2, IndexGen, Tables, AddShifted;
    ghost var f := rs.gf;
    UnitLocator(rs, lambda);
    if noEras > 0 {
      ghost var eras := erasPos[..noEras];
      assert eras[..0] == [];
      for i := 0 to noEras
        invariant lambda[..] == Gamma(f, rs.prim, rs.nroots, eras[..i])
      {
        var u := ErasureLog(rs, erasPos[i]);
        GammaShape(f, rs.prim, rs.nroots, eras[..i]);
        GammaNext(f, rs.prim, rs.nroots, eras, i);
        MultiplyErasure(rs, lambda, i, u);
      }
      assert eras[..noEras] == eras;
    }
  }

  // ----- Berlekamp-Massey.

  /** The discrepancy of step r (counted from 1), in polynomial form. */
  method ComputeDiscrepancy(rs: Codec, lambda: array<nat>, s: array<nat>, r: nat, ghost syn: seq<nat>) returns (discr: nat)
    requires rs.Valid() && IndexForm(rs.gf, s[..], syn) && SeqIn(rs.gf, lambda[..])
    requires 1 <= r <= s.Length && lambda.Length == s.Length + 1
    ensures discr == Discrepancy(rs.gf, lambda[..], syn, r - 1)
  {
    hide E, Mul, Xor, PrimInverse, Pow2, IndexGen, Tables, IndexForm, Sum, ConvTerm, ToIndex;
    ghost var f, lam := rs.gf, lambda[..];
    ghost var t := ConvTerm(f, Fn(lam), Fn(syn), r - 1);
    discr := 0;
    SumStart(t);
    IndexLength(f, s[..], syn);
    for i := 0 to r
      invariant discr == Sum(i, t)
    {
      ConvTermEntry(f, lam, syn, r - 1, i);
      IndexEntry(f, s[..], syn, r - i - 1);
      SumNext(i, t);
      discr := AddProduct(rs, discr, lambda[i], s[r - i - 1], syn[r - i - 1]);
    }
  }

  lemma {:induction false} SumStart(g: int -> nat)
    ensures Sum(0, g) == 0
  {
  }

  lemma {:induction false} SumNext(n: int, g: int -> nat)
    requires n >= 0
    ensures Sum(n + 1, g) == Xor(Sum(n, g), g(n))
  {
  }

  lemma {:induction false} IndexLength(f: GF, a: seq<nat>, p: seq<nat>)
    requires IndexForm(f, a, p)
    ensures |a| == |p|
  {
  }

  lemma {:induction false} ConvTermEntry(f: GF, lam: seq<nat>, s: seq<nat>, n: int, i: int)
    requires 0 <= i <= n < |s| && n < |lam|
    ensures ConvTerm(f, Fn(lam), Fn(s), n)(i) == Mul(f, lam[i], s[n - i])
  {
    hide Mul;
  }

  /** b := x * b, in index form. */
  method ShiftIndex(rs: Codec, b: array<nat>, ghost bp: seq<nat>)
    requires rs.Valid() && Separate(rs, b) && b.Length >= 1 && IndexForm(rs.gf, b[..], bp)
    modifies b
    ensures IndexForm(rs.gf, b[..], Shift(bp))
  {
    hide E, PrimInverse, Pow2, IndexGen, ToIndex, Tables;
    ghost var a := b[..];
    forall i | 0 < i < b.Length {
      b[i] := b[i - 1];
    }
    b[0] := rs.nn;
    ZeroIndex(rs.gf);
    assert rs.nn == rs.gf.NN() by { TablesSize(rs); }
    forall i | 0 <= i < |bp| ensures Shift(bp)[i] < rs.gf.Size() && b[i] == ToIndex(rs.gf, Shift(bp)[i]) {
      if i > 0 { assert b[i] == a[i - 1] == ToIndex(rs.gf, bp[i - 1]); }
    }
  }

  lemma {:induction false} TablesSize(rs: Codec)
    requires rs.Valid()
    ensures rs.nn == rs.gf.NN() && rs.gf.Size() == rs.nn + 1
  {
  }

  lemma {:induction false} ZeroIndex(f: GF)
    ensures 0 < f.Size() && ToIndex(f, 0) == f.NN()
  {
  }

  /** t := lambda + discr * x * b. */
  method CorrectLocator(rs: Codec, lambda: array<nat>, b: array<nat>, t: array<nat>, d: nat, ghost bp: seq<nat>)
    requires rs.Valid() && Separate(rs, t) && t != lambda && t != b
    requires lambda.Length == b.Length == t.Length >= 1
    requires IndexForm(rs.gf, b[..], bp) && SeqIn(rs.gf, lambda[..]) && 0 < d < rs.gf.Size()
    modifies t
    ensures t[..] == AddShifted(rs.gf, lambda[..], d, bp)
  {
    hide E, Mul, Xor, PrimInverse, Pow2, IndexGen, Tables, IndexForm, AddShifted, ToIndex;
    ghost var f, lam := rs.gf, lambda[..];
    ghost var h := AddShifted(f, lam, d, bp);
    IndexLength(f, b[..], bp);
    AddShiftedEntry(f, lam, d, bp, 0);
    t[0] := lambda[0];
    for i := 0 to t.Length - 1
      invariant forall j | 0 <= j <= i :: t[j] == h[j]
    {
      AddShiftedEntry(f, lam, d, bp, i + 1);
      IndexEntry(f, b[..], bp, i);
      t[i + 1] := AddProduct(rs, lambda[i + 1], d, b[i], bp[i]);
    }
  }

  lemma {:induction false} QuotientIndex(f: GF, x: nat, d: nat)
    requires 0 < x < f.Size() && 0 < d < f.Size()
    ensures Mul(f, Inv(f, d), x) < f.Size()
    ensures (Log(f, x) - Log(f, d) + f.NN()) % f.NN() == ToIndex(f, Mul(f, Inv(f, d), x))
    ensures Log(f, x) - Log(f, d) + f.NN() >= 0
  {
    hide E, Mul, Inv;
    var i, j := Log(f, x), Log(f, d);
    LogE(f, x);
    LogE(f, d);
    InvCorrect(f, d, j);
    MulE(f, -j, i);
    EPeriod(f, i - j, 1);
    ELog(f, i - j + f.NN());
    MulIn(f, Inv(f, d), x);
  }

  /** b := lambda / discr, in index form. */
  method ScaleLocator(rs: Codec, lambda: array<nat>, b: array<nat>, d: nat)
    requires rs.Valid() && Separate(rs, b) && b != lambda
    requires lambda.Length == b.Length && SeqIn(rs.gf, lambda[..]) && 0 < d < rs.gf.Size()
    modifies b
    ensures IndexForm(rs.gf, b[..], Scale(rs.gf, Inv(rs.gf, d), lambda[..]))
  {
    hide E, Mul, Inv, PrimInverse, Pow2, IndexGen, Tables, ToIndex;
    ghost var f, lam := rs.gf, lambda[..];
    ghost var c := Inv(f, d);
    TablesSize(rs);
    var discr := IndexOf(rs, d);
    for i := 0 to b.Length
      invariant forall j | 0 <= j < i :: Mul(f, c, lam[j]) < f.Size() && b[j] == ToIndex(f, Mul(f, c, lam[j]))
    {
      MulIn(f, c, lam[i]);
      if lambda[i] == 0 {
        MulZero(f, c);
        ZeroIndex(f);
        b[i] := rs.nn;
      } else {
        QuotientIndex(f, lambda[i], d);
        var x := IndexOf(rs, lambda[i]);
        IndexFacts(f, lambda[i]);
        IndexFacts(f, d);
        var y := ModNN(rs.mm, rs.nn, x - discr + rs.nn);
        b[i] := y;
      }
    }
  }

  method ToIndexForm(rs: Codec, a: array<nat>, b: array<nat>)
    requires rs.Valid() && Separate(rs, b) && a.Length == b.Length && SeqIn(rs.gf, a[..])
    requires a != b
    modifies b
    ensures IndexForm(rs.gf, b[..], a[..])
  {
    hide E, PrimInverse, Pow2, IndexGen, Tables, ToIndex;
    for i := 0 to b.Length
      invariant forall j | 0 <= j < i :: b[j] == ToIndex(rs.gf, a[j])
    {
      var x := IndexOf(rs, a[i]);
      b[i] := x;
    }
  }

  lemma {:induction false} BmInvShape(f: GF, s: seq<nat>, rho: int, st: State, r: int)
    requires BmInv(f, s, rho, st, r)
    ensures |st.lam| == |s| + 1 == |st.b| && SeqIn(f, st.lam) && SeqIn(f, st.b) && st.lam[0] == 1
  {
    hide Conv, Vanishes;
  }

  method CopyArray(src: array<nat>, dst: array<nat>)
    requires src != dst && src.Length == dst.Length
    modifies dst
    ensures dst[..] == src[..]
  {
    forall i | 0 <= i < dst.Length {
      dst[i] := src[i];
    }
  }

  /** The nonzero discrepancy d of step r corrects the locator, and the register grows if it must. */
  method UpdateLocator(rs: Codec, lambda: array<nat>, b: array<nat>, t: array<nat>, noEras: nat, r: nat, el0: int, d: nat,
                       ghost bp: seq<nat>) returns (el: int)
    requires rs.Valid() && Separate(rs, lambda) && Separate(rs, b) && Separate(rs, t)
    requires lambda != b && lambda != t && b != t && lambda.Length == b.Length == t.Length >= 1
    requires SeqIn(rs.gf, lambda[..]) && IndexForm(rs.gf, b[..], bp) && 0 < d < rs.gf.Size()
    modifies lambda, b, t
    ensures lambda[..] == AddShifted(rs.gf, old(lambda[..]), d, bp)
    ensures var longer := 2 * el0 <= r + noEras - 1;
            && el == (if longer then r + noEras - el0 else el0)
            && IndexForm(rs.gf, b[..], if longer then Scale(rs.gf, Inv(rs.gf, d), old(lambda[..])) else Shift(bp))
  {
    hide E, PrimInverse, Pow2, IndexGen, Tables, IndexForm, AddShifted, Shift, Scale, Inv, SeqIn;
    el := el0;
    CorrectLocator(rs, lambda, b, t, d, bp);
    if 2 * el <= r + noEras - 1 {
      el := r + noEras - el;
      ScaleLocator(rs, lambda, b, d);
    } else {
      ShiftIndex(rs, b, bp);
    }
    ghost var b' := b[..];
    CopyArray(t, lambda);
    assert b[..] == b';
  }

  /** One step of the iteration on the arrays; r is the step number, counted from 1. */
  method IterateStep(rs: Codec, s: array<nat>, lambda: array<nat>, b: array<nat>, t: array<nat>,
                     noEras: nat, r: nat, el0: int, ghost syn: seq<nat>, ghost st: State) returns (el: int)
    requires rs.Valid() && Separate(rs, lambda) && Separate(rs, b) && Separate(rs, t)
    requires lambda != b && lambda != t && b != t && s != lambda && s != b && s != t
    requires |syn| == rs.nroots && IndexForm(rs.gf, s[..], syn) && t.Length == rs.nroots + 1
    requires 1 <= r <= rs.nroots && BmInv(rs.gf, syn, noEras, st, r - 1)
    requires lambda[..] == st.lam && IndexForm(rs.gf, b[..], st.b) && el0 == st.el
    modifies lambda, b, t
    ensures lambda[..] == BmStep(rs.gf, syn, noEras, st, r - 1).lam
    ensures IndexForm(rs.gf, b[..], BmStep(rs.gf, syn, noEras, st, r - 1).b)
    ensures el == BmStep(rs.gf, syn, noEras, st, r - 1).el
  {
    hide E, PrimInverse, Pow2, IndexGen, Tables, IndexForm, Discrepancy, AddShifted, Shift, Scale, Inv, BmInv, SeqIn;
    ghost var f := rs.gf;
    el := el0;
    BmInvShape(f, syn, noEras, st, r - 1);
    IndexLength(f, s[..], syn);
    IndexLength(f, b[..], st.b);
    DiscrepancyBound(f, st.lam, syn, r - 1);
    var d := ComputeDiscrepancy(rs, lambda, s, r, syn);
    if d == 0 {
      ShiftIndex(rs, b, st.b);
    } else {
      el := UpdateLocator(rs, lambda, b, t, noEras, r, el, d, st.b);
    }
  }

  method Iterate(rs: Codec, s: array<nat>, lambda: array<nat>, noEras: nat, ghost syn: seq<nat>, ghost gamma: seq<nat>)
    requires rs.Valid() && Separate(rs, lambda) && s != lambda
    requires |syn| == rs.nroots && IndexForm(rs.gf, s[..], syn)
    requires lambda[..] == gamma && Starting(rs.gf, syn, noEras, gamma)
    modifies lambda
    ensures lambda[..] == BmRun(rs.gf, syn, noEras, gamma, rs.nroots).lam
  {
    hide E, PrimInverse, Pow2, IndexGen, Tables, IndexForm, BmStep, BmInv;
    ghost var f := rs.gf;
    var b := new nat[rs.nroots + 1];
    var t := new nat[rs.nroots + 1];
    ToIndexForm(rs, lambda, b);
    var r := noEras + 1;
    var el: int := noEras;
    while r <= rs.nroots
      invariant noEras < r <= rs.nroots + 1
      invariant lambda[..] == BmRun(f, syn, noEras, gamma, r - 1).lam
      invariant IndexForm(f, b[..], BmRun(f, syn, noEras, gamma, r - 1).b)
      invariant el == BmRun(f, syn, noEras, gamma, r - 1).el
    {
      ghost var st := BmRun(f, syn, noEras, gamma, r - 1);
      BmRunInv(f, syn, noEras, gamma, r - 1);
      el := IterateStep(rs, s, lambda, b, t, noEras, r, el, syn, st);
      r := r + 1;
    }
  }

  /** Converts the locator to index form in place and finds its degree. */
  method ConvertLocator(rs: Codec, lambda: array<nat>) returns (deg: nat)
    requires rs.Valid() && Separate(rs, lambda) && lambda.Length >= 1 && SeqIn(rs.gf, lambda[..])
    modifies lambda
    ensures IndexForm(rs.gf, lambda[..], old(lambda[..])) && IsDegree(old(lambda[..]), deg)
  {
    hide E, PrimInverse, Pow2, IndexGen, Tables, ToIndex;
    ghost var lam := lambda[..];
    deg := 0;
    for i := 0 to lambda.Length
      invariant forall j | 0 <= j < i :: lambda[j] == ToIndex(rs.gf, lam[j])
      invariant forall j | i <= j < lambda.Length :: lambda[j] == lam[j]
      invariant 0 <= deg <= i && deg < lambda.Length && (deg > 0 ==> lam[deg] != 0)
      invariant forall j | deg < j < i :: lam[j] == 0
    {
      var x := IndexOf(rs, lambda[i]);
      lambda[i] := x;
      if x != rs.nn {
        deg := i;
      }
    }
  }

  // ----- Chien search.

  /** Register j holds the term of degree j at alpha^i. */
  ghost predicate Registers(f: GF, reg: seq<nat>, lam: seq<nat>, deg: int, i: int) {
    deg < |reg| == |lam|
    && forall j | 1 <= j <= deg :: RegisterHolds(f, reg[j], lam[j], i, j)
  }

  ghost predicate RegisterHolds(f: GF, x: nat, l: nat, i: int, j: int) {
    Mul(f, l, E(f, Times(i, j))) < f.Size() && x == ToIndex(f, Mul(f, l, E(f, Times(i, j))))
  }

  lemma {:induction false} RegisterStart(f: GF, x: nat, l: nat, j: int)
    requires l < f.Size() && x == ToIndex(f, l)
    ensures RegisterHolds(f, x, l, 0, j)
  {
    hide E, Mul, ToIndex;
    TimesLeftZero(j);
    EZero(f);
    MulOne(f, l);
  }

  lemma {:induction false} TimesLeftZero(j: int)
    ensures Times(0, j) == 0
  {
    TimesIs(0, j);
  }

  lemma {:induction false} TimesLeftNext(i: int, j: int)
    ensures Times(i + 1, j) == Times(i, j) + j
  {
    TimesIs(i + 1, j);
    TimesIs(i, j);
  }

  lemma {:induction false} RegisterStep(f: GF, x: nat, l: nat, i: int, j: int)
    requires l < f.Size() && RegisterHolds(f, x, l, i, j)
    ensures x <= f.NN()
    ensures x == f.NN() ==> RegisterHolds(f, x, l, i + 1, j) && Mul(f, l, E(f, Times(i + 1, j))) == 0
    ensures x != f.NN() && j >= 0 ==>
              RegisterHolds(f, (x + j) % f.NN(), l, i + 1, j)
              && (x + j) % f.NN() < f.NN() && E(f, (x + j) % f.NN()) == Mul(f, l, E(f, Times(i + 1, j)))
  {
    hide E, Mul, ToIndex, Times;
    var v, v' := Mul(f, l, E(f, Times(i, j))), Mul(f, l, E(f, Times(i + 1, j)));
    TimesLeftNext(i, j);
    MulE(f, Times(i, j), j);
    MulAssoc(f, l, E(f, Times(i, j)), E(f, j));
    MulIn(f, l, E(f, Times(i + 1, j)));
    IndexFacts(f, v);
    IndexFacts(f, v');
    MulZero(f, E(f, j));
    if v != 0 && j >= 0 {
      LogSum(f, v, j);
      ELog(f, x + j);
      EModNN(f, x + j);
    }
  }

  /** Advances every register by one power and sums them: the locator's value at alpha^i. */
  method EvaluateStep(rs: Codec, reg: array<nat>, deg: nat, i: nat, ghost lam: seq<nat>) returns (q: nat)
    requires rs.Valid() && Separate(rs, reg) && SeqIn(rs.gf, lam) && |lam| >= 1 && lam[0] == 1
    requires Registers(rs.gf, reg[..], lam, deg, i)
    modifies reg
    ensures Registers(rs.gf, reg[..], lam, deg, i + 1)
    ensures q == Ev(rs.gf, deg + 1, Fn(lam), i + 1)
  {
    hide E, Mul, Xor, PrimInverse, Pow2, IndexGen, ToIndex, RegisterHolds, Times, Sum;
    ghost var f := rs.gf;
    ghost var t := EvTerm(f, Fn(lam), i + 1);
    assert forall j | 1 <= j <= deg :: RegisterHolds(f, reg[..][j], lam[j], i, j);
    q := 1;
    ConstantOne(f, lam, i + 1);
    var j := deg;
    while j > 0
      invariant 0 <= j <= deg
      invariant forall m | 1 <= m <= j :: RegisterHolds(f, reg[m], lam[m], i, m)
      invariant forall m | j < m <= deg :: RegisterHolds(f, reg[m], lam[m], i + 1, m)
      invariant Xor(q, Sum(j + 1, t)) == Xor(1, Sum(deg + 1, t))
    {
      RegisterStep(f, reg[j], lam[j], i, j);
      SumNext(j, t);
      MoveTerm(q, Sum(j, t), t(j));
      assert t(j) == Mul(f, lam[j], E(f, Times(i + 1, j)));
      XorZero(q);
      if reg[j] != rs.nn {
        var x := ModNN(rs.mm, rs.nn, reg[j] + j);
        reg[j] := x;
        q := Xor(q, rs.alphaTo[x]);
      }
      j := j - 1;
    }
    SumStart(t);
    SumNext(0, t);
    XorZero(1);
    CancelFirst(q, 1, Sum(deg + 1, t));
  }

  lemma {:induction false} ConstantOne(f: GF, lam: seq<nat>, k: int)
    requires |lam| >= 1 && lam[0] == 1
    ensures EvTerm(f, Fn(lam), k)(0) == 1
  {
    hide E, Mul;
    OneBelow(f);
    ConstantTerm(f, 1, k);
  }

  lemma {:induction false} MoveTerm(q: nat, x: nat, y: nat)
    ensures Xor(Xor(q, y), x) == Xor(q, Xor(x, y))
  {
    hide Xor;
    XorAssoc(q, y, x);
    XorComm(x, y);
  }

  lemma {:induction false} CancelFirst(q: nat, c: nat, x: nat)
    requires Xor(q, c) == Xor(c, x)
    ensures q == x
  {
    hide Xor;
    XorComm(q, c);
    XorCancel(c, q);
    XorCancel(c, x);
  }

  lemma {:induction false} LocNext(nn: int, iprim: int, i: int)
    requires nn >= 1 && 1 <= iprim <= nn
    ensures LocOf(nn, iprim, i + 1) == (LocOf(nn, iprim, i) + iprim) % nn
    ensures LocOf(nn, iprim, 1) == iprim - 1
    ensures 0 <= LocOf(nn, iprim, i) < nn
  {
    SmallMod(iprim - 1, nn);
    var q := (iprim * i - 1) / nn;
    assert iprim * (i + 1) - 1 == LocOf(nn, iprim, i) + iprim + nn * q;
    ModShift(LocOf(nn, iprim, i) + iprim, nn, q);
  }

  /** The roots below index i, in order, with their positions. */
  ghost predicate Found(f: GF, lam: int -> nat, deg: int, iprim: int, root: seq<int>, loc: seq<int>, i: int) {
    && f.NN() >= 1
    && |root| == |loc| <= deg
    && (forall j | 0 <= j < |root| ::
          && 1 <= root[j] < i
          && Ev(f, deg + 1, lam, root[j]) == 0
          && loc[j] == LocOf(f.NN(), iprim, root[j]))
    && (forall j, k | 0 <= j < k < |root| :: root[j] < root[k])
    && forall x | 1 <= x < i && Ev(f, deg + 1, lam, x) == 0 :: x in root
  }

  lemma {:induction false} FoundNext(f: GF, lam: int -> nat, deg: int, iprim: int, root: seq<int>, loc: seq<int>, i: int, k: int)
    requires Found(f, lam, deg, iprim, root, loc, i) && i >= 1
    ensures Ev(f, deg + 1, lam, i) != 0 ==> Found(f, lam, deg, iprim, root, loc, i + 1)
    ensures Ev(f, deg + 1, lam, i) == 0 && |root| < deg && k == LocOf(f.NN(), iprim, i) ==>
              Found(f, lam, deg, iprim, root + [i], loc + [k], i + 1)
  {
    hide E, Mul, Ev, LocOf;
    if Ev(f, deg + 1, lam, i) == 0 && |root| < deg && k == LocOf(f.NN(), iprim, i) {
      var root' := root + [i];
      forall x | 1 <= x < i + 1 && Ev(f, deg + 1, lam, x) == 0 ensures x in root' {
        if x < i { assert x in root; } else { assert root'[|root|] == x; }
      }
    }
  }

  lemma {:induction false} FoundSearched(f: GF, lam: int -> nat, deg: int, iprim: int, root: seq<int>, loc: seq<int>, i: int)
    requires Found(f, lam, deg, iprim, root, loc, i) && i <= f.NN() + 1
    requires |root| == deg || i == f.NN() + 1
    ensures Searched(f, lam, deg, iprim, root, loc)
  {
    hide E, Mul, Ev, LocOf;
  }

  lemma {:induction false} DegreeZeroNoRoot(f: GF, lam: seq<nat>, i: int)
    requires |lam| >= 1 && lam[0] == 1
    ensures Ev(f, 1, Fn(lam), i) != 0
  {
    hide E, Mul;
    OneBelow(f);
    ConstantNoRoot(f, Fn(lam), i);
  }

  /** The registers start as the locator's coefficients. */
  method StartRegisters(rs: Codec, lambda: array<nat>, reg: array<nat>, deg: nat, ghost lam: seq<nat>)
    requires rs.Valid() && IndexForm(rs.gf, lambda[..], lam) && reg.Length == lambda.Length && reg != lambda
    requires Separate(rs, reg) && deg < |lam|
    modifies reg
    ensures Registers(rs.gf, reg[..], lam, deg, 0)
  {
    hide E, PrimInverse, Pow2, IndexGen, Tables, ToIndex, RegisterHolds;
    forall i | 0 < i < reg.Length {
      reg[i] := lambda[i];
    }
    forall j | 1 <= j <= deg ensures RegisterHolds(rs.gf, reg[j], lam[j], 0, j) {
      RegisterStart(rs.gf, lambda[j], lam[j], j);
    }
  }

  lemma {:induction false} IndexFormIn(f: GF, a: seq<nat>, p: seq<nat>)
    requires IndexForm(f, a, p)
    ensures |a| == |p| && SeqIn(f, p)
  {
  }

  method ChienSearch(rs: Codec, lambda: array<nat>, deg: nat, root: array<int>, loc: array<int>, ghost lam: seq<nat>)
      returns (count: nat)
    requires rs.Valid() && IndexForm(rs.gf, lambda[..], lam) && |lam| == rs.nroots + 1 && lam[0] == 1
    requires deg <= rs.nroots && root != loc && root.Length == loc.Length == rs.nroots
    modifies root, loc
    ensures count <= deg && Searched(rs.gf, Fn(lam), deg, rs.iprim, root[..count], loc[..count])
  {
    hide E, PrimInverse, Pow2, IndexGen, Tables, ToIndex, Registers, Ev, LocOf, IndexForm, Found, Searched;
    ghost var f := rs.gf;
    TablesSize(rs);
    IndexFormIn(f, lambda[..], lam);
    var reg := new nat[rs.nroots + 1];
    StartRegisters(rs, lambda, reg, deg, lam);
    count := 0;
    var k := rs.iprim - 1;
    LocNext(rs.nn, rs.iprim, 1);
    NothingFound(f, Fn(lam), deg, rs.iprim);
    assert root[..0] == [] && loc[..0] == [];
    var i := 1;
    while i <= rs.nn
      invariant 1 <= i <= rs.nn + 1 && (count < deg || count == deg == 0)
      invariant k == LocOf(rs.nn, rs.iprim, i)
      invariant Registers(f, reg[..], lam, deg, i - 1)
      invariant Found(f, Fn(lam), deg, rs.iprim, root[..count], loc[..count], i)
    {
      var q := EvaluateStep(rs, reg, deg, i - 1, lam);
      LocNext(rs.nn, rs.iprim, i);
      FoundNext(f, Fn(lam), deg, rs.iprim, root[..count], loc[..count], i, k);
      if q == 0 {
        DegreeZeroNoRoot(f, lam, i);
        ghost var rs0, ls0 := root[..count], loc[..count];
        root[count] := i;
        loc[count] := k;
        count := count + 1;
        assert root[..count] == rs0 + [i] && loc[..count] == ls0 + [k];
        if count == deg {
          FoundSearched(f, Fn(lam), deg, rs.iprim, root[..count], loc[..count], i + 1);
          return;
        }
      }
      k := ModNN(rs.mm, rs.nn, k + rs.iprim);
      i := i + 1;
    }
    FoundSearched(f, Fn(lam), deg, rs.iprim, root[..count], loc[..count], i);
  }

  lemma {:induction false} NothingFound(f: GF, lam: int -> nat, deg: nat, iprim: int)
    ensures Found(f, lam, deg, iprim, [], [], 1)
  {
    hide E, Ev;
    NNPositive(f);
  }

  // ----- The evaluator polynomial.

  /** The first deg coefficients of the evaluator, in index form. */
  ghost predicate OmegaForm(f: GF, omega: seq<nat>, lam: int -> nat, syn: seq<nat>, deg: int) {
    deg <= |omega| && forall i | 0 <= i < deg :: OmegaHolds(f, omega[i], lam, syn, i)
  }

  ghost predicate OmegaHolds(f: GF, x: nat, lam: int -> nat, syn: seq<nat>, i: int) {
    Omega(f, lam, syn)(i) < f.Size() && x == ToIndex(f, Omega(f, lam, syn)(i))
  }

  /** Coefficient i of s(x) * lambda(x), summed from the highest term of lambda down. */
  method OmegaCoef(rs: Codec, s: array<nat>, lambda: array<nat>, i: nat, ghost syn: seq<nat>, ghost lam: seq<nat>)
      returns (tmp: nat)
    requires rs.Valid() && IndexForm(rs.gf, s[..], syn) && IndexForm(rs.gf, lambda[..], lam)
    requires i < |syn| && i < |lam|
    ensures tmp == Omega(rs.gf, Fn(lam), syn)(i) && tmp < rs.gf.Size()
  {
    hide E, Mul, Xor, PrimInverse, Pow2, IndexGen, Tables, IndexForm, Sum, ConvTerm, ToIndex;
    ghost var f := rs.gf;
    ghost var t := ConvTerm(f, Fn(lam), Fn(syn), i);
    IndexLength(f, s[..], syn);
    IndexLength(f, lambda[..], lam);
    tmp := 0;
    XorZero(Sum(i + 1, t));
    var j: int := i;
    while j >= 0
      invariant -1 <= j <= i
      invariant Xor(tmp, Sum(j + 1, t)) == Sum(i + 1, t)
    {
      IndexEntry(f, s[..], syn, i - j);
      IndexEntry(f, lambda[..], lam, j);
      ConvTermEntry(f, lam, syn, i, j);
      SumNext(j, t);
      MoveTerm(tmp, Sum(j, t), t(j));
      tmp := AddIndexedProduct(rs, tmp, lambda[j], s[i - j], lam[j], syn[i - j]);
      j := j - 1;
    }
    SumStart(t);
    XorZero(tmp);
    OmegaBound(f, lam, syn, i);
  }

  lemma {:induction false} OmegaBound(f: GF, lam: seq<nat>, syn: seq<nat>, i: int)
    ensures Omega(f, Fn(lam), syn)(i) < f.Size()
    ensures Omega(f, Fn(lam), syn)(i) == Sum(i + 1, ConvTerm(f, Fn(lam), Fn(syn), i))
  {
    hide Mul, Xor;
    DiscrepancyBound(f, lam, syn, i);
  }

  /** Adds the product of x and y to acc, both given in index form. */
  method AddIndexedProduct(rs: Codec, acc: nat, xi: nat, yi: nat, ghost x: nat, ghost y: nat) returns (sum: nat)
    requires rs.Valid() && x < rs.gf.Size() && y < rs.gf.Size() && xi == ToIndex(rs.gf, x) && yi == ToIndex(rs.gf, y)
    ensures sum == Xor(acc, Mul(rs.gf, x, y))
  {
    hide E, Mul, Xor, PrimInverse, Pow2, IndexGen, ToIndex;
    ghost var f := rs.gf;
    IndexFacts(f, x);
    IndexFacts(f, y);
    if yi != rs.nn && xi != rs.nn {
      MulE(f, xi, yi);
      var a := AlphaOf(rs.mm, rs.nn, rs.alphaTo, rs.indexOf, yi + xi, f);
      sum := Xor(acc, a);
    } else {
      MulZero(f, x);
      MulZero(f, y);
      XorZero(acc);
      sum := acc;
    }
  }

  method FormOmega(rs: Codec, s: array<nat>, lambda: array<nat>, omega: array<nat>, deg: nat,
                   ghost syn: seq<nat>, ghost lam: seq<nat>)
    requires rs.Valid() && IndexForm(rs.gf, s[..], syn) && IndexForm(rs.gf, lambda[..], lam)
    requires deg <= |syn| && |lam| == |syn| + 1 && omega.Length >= deg
    requires Separate(rs, omega) && omega != s && omega != lambda
    modifies omega
    ensures OmegaForm(rs.gf, omega[..], Fn(lam), syn, deg)
  {
    hide E, PrimInverse, Pow2, IndexGen, Tables, IndexForm, ToIndex, Omega;
    for i := 0 to deg
      invariant forall j | 0 <= j < i :: OmegaHolds(rs.gf, omega[j], Fn(lam), syn, j)
    {
      var tmp := OmegaCoef(rs, s, lambda, i, syn, lam);
      var x := IndexOf(rs, tmp);
      omega[i] := x;
    }
  }

  // ----- Error values.

  /** The evaluator at alpha^r, summed from the top. */
  method EvalOmega(rs: Codec, omega: array<nat>, deg: nat, r: nat, ghost lam: seq<nat>, ghost syn: seq<nat>) returns (num1: nat)
    requires rs.Valid() && OmegaForm(rs.gf, omega[..], Fn(lam), syn, deg)
    ensures num1 == Ev(rs.gf, deg, Omega(rs.gf, Fn(lam), syn), r) && num1 < rs.gf.Size()
  {
    hide E, Mul, Xor, PrimInverse, Pow2, IndexGen, Tables, Sum, EvTerm, ToIndex, Omega, Times;
    ghost var f := rs.gf;
    ghost var om := Omega(f, Fn(lam), syn);
    ghost var t := EvTerm(f, om, r);
    num1 := 0;
    XorZero(Sum(deg, t));
    var i: int := deg - 1;
    while i >= 0
      invariant -1 <= i < deg
      invariant Xor(num1, Sum(i + 1, t)) == Sum(deg, t)
    {
      assert OmegaHolds(f, omega[..][i], Fn(lam), syn, i);
      EvTermEntry(f, om, r, i);
      SumNext(i, t);
      MoveTerm(num1, Sum(i, t), t(i));
      num1 := AddPower(rs, num1, omega[i], i, r, om(i));
      i := i - 1;
    }
    SumStart(t);
    XorZero(num1);
    EvBound(f, deg, om, r);
  }

  lemma {:induction false} EvTermEntry(f: GF, p: int -> nat, k: int, i: int)
    ensures EvTerm(f, p, k)(i) == Mul(f, p(i), E(f, Times(k, i)))
  {
    hide E, Mul, Times;
  }

  /** Adds c * alpha^(i * r) to acc, c being given in index form. */
  method AddPower(rs: Codec, acc: nat, ci: nat, i: nat, r: nat, ghost c: nat) returns (sum: nat)
    requires rs.Valid() && c < rs.gf.Size() && ci == ToIndex(rs.gf, c)
    ensures sum == Xor(acc, Mul(rs.gf, c, E(rs.gf, Times(r, i))))
  {
    hide E, Mul, Xor, PrimInverse, Pow2, IndexGen, ToIndex;
    ghost var f := rs.gf;
    IndexFacts(f, c);
    NonnegProduct(r, i);
    NonnegProduct(i, r);
    assert i * r == r * i;
    if ci != rs.nn {
      MulE(f, ci, Times(r, i));
      var a := AlphaOf(rs.mm, rs.nn, rs.alphaTo, rs.indexOf, ci + i * r, f);
      sum := Xor(acc, a);
    } else {
      MulZero(f, E(f, Times(r, i)));
      XorZero(acc);
      sum := acc;
    }
  }

  lemma {:induction false} DerivPair(f: GF, lam: int -> nat, r: int, i: int)
    requires i >= 0 && i % 2 == 0
    ensures var t := DerivTerm(f, lam, r);
            && t(i) == 0 && t(i + 1) == Mul(f, lam(i + 1), E(f, Times(r, i)))
            && Sum(i + 2, t) == Xor(Sum(i, t), t(i + 1))
  {
    hide E, Mul, Times, Xor;
    var t := DerivTerm(f, lam, r);
    XorZero(Sum(i, t));
    SumNext(i, t);
    SumNext(i + 1, t);
    assert i + 1 - 1 == i;
  }

  /** Starting at the even index min(deg, nroots - 1) & ~1 covers every odd term of the locator. */
  lemma {:induction false} DerivStart(f: GF, lam: seq<nat>, r: int, deg: int, top: int)
    requires |lam| >= 2 && 0 <= deg < |lam| && DegreeAtMost(lam, deg)
    requires top == if deg < |lam| - 2 then deg else |lam| - 2
    ensures var i := top - top % 2;
            0 <= i <= |lam| - 2 && Sum(i + 2, DerivTerm(f, Fn(lam), r)) == Deriv(f, deg + 1, Fn(lam), r)
  {
    hide E, Mul, Times, Xor, Sum;
    var t, i := DerivTerm(f, Fn(lam), r), top - top % 2;
    if i + 2 == deg + 2 {
      SumNext(deg + 1, t);
      MulZero(f, E(f, Times(r, deg)));
      assert Fn(lam)(deg + 1) == At(lam, deg + 1) == 0;
      assert deg + 1 - 1 == deg;
      XorZero(Sum(deg + 1, t));
    } else if i + 2 == deg {
      SumNext(deg, t);
      XorZero(Sum(deg, t));
    }
  }

  /** The formal derivative of the locator at alpha^r. */
  method EvalDeriv(rs: Codec, lambda: array<nat>, deg: nat, r: nat, ghost lam: seq<nat>) returns (den: nat)
    requires rs.Valid() && IndexForm(rs.gf, lambda[..], lam) && |lam| == rs.nroots + 1 && rs.nroots >= 1
    requires IsDegree(lam, deg)
    ensures den == Deriv(rs.gf, deg + 1, Fn(lam), r) && den < rs.gf.Size()
  {
    hide E, Mul, Xor, PrimInverse, Pow2, IndexGen, Tables, Sum, DerivTerm, ToIndex, Times, IndexForm;
    ghost var f := rs.gf;
    ghost var t := DerivTerm(f, Fn(lam), r);
    IndexLength(f, lambda[..], lam);
    den := 0;
    var top := if deg < rs.nroots - 1 then deg else rs.nroots - 1;
    var i: int := top - top % 2;
    DerivStart(f, lam, r, deg, top);
    XorZero(Sum(i + 2, t));
    while i >= 0
      invariant -2 <= i <= rs.nroots - 1 && i % 2 == 0
      invariant Xor(den, Sum(i + 2, t)) == Deriv(f, deg + 1, Fn(lam), r)
      decreases i + 2
    {
      IndexEntry(f, lambda[..], lam, i + 1);
      DerivPair(f, Fn(lam), r, i);
      MoveTerm(den, Sum(i, t), t(i + 1));
      assert Fn(lam)(i + 1) == lam[i + 1];
      den := AddPower(rs, den, lambda[i + 1], i, r, lam[i + 1]);
      i := i - 2;
    }
    SumStart(t);
    XorZero(den);
    DerivBound(f, deg + 1, Fn(lam), r);
  }

  lemma {:induction false} PowerArgument(r: nat, fcr: nat, nn: nat)
    requires 1 <= r <= nn
    ensures r * (fcr - 1) + nn >= 0 && Times(r, fcr - 1) == r * (fcr - 1)
  {
    hide Times;
    TimesIs(r, fcr - 1);
    if fcr >= 1 { assert r * (fcr - 1) >= 0; } else { assert r * (fcr - 1) == 0 - r; }
  }

  /** The index of num1 * num2 / den, as the decoder adds it up. */
  lemma {:induction false} FractionIndex(f: GF, num1: nat, num2: nat, den: nat)
    requires 0 < num1 < f.Size() && 0 < num2 < f.Size() && den < f.Size()
    ensures var x := ToIndex(f, num1) + ToIndex(f, num2) + f.NN() - ToIndex(f, den);
            x >= 0 && E(f, x) == Mul(f, Mul(f, num1, num2), if 0 < den < f.Size() then Inv(f, den) else 1)
  {
    hide E, Mul, Inv, ToIndex;
    var i, j := ToIndex(f, num1), ToIndex(f, num2);
    IndexFacts(f, num1);
    IndexFacts(f, num2);
    MulE(f, i, j);
    if den == 0 {
      ZeroIndex(f);
      MulIn(f, num1, num2);
      MulOne(f, Mul(f, num1, num2));
    } else {
      DivideIndex(f, i + j, den);
    }
  }

  lemma {:induction false} DivideIndex(f: GF, n: nat, den: nat)
    requires 0 < den < f.Size()
    ensures n + f.NN() - ToIndex(f, den) >= 0
    ensures E(f, n + f.NN() - ToIndex(f, den)) == Mul(f, E(f, n), Inv(f, den))
  {
    hide E, Mul, Inv, ToIndex;
    IndexFacts(f, den);
    DividePower(f, n, den, ToIndex(f, den));
  }

  lemma {:induction false} DividePower(f: GF, n: int, den: nat, k: int)
    requires 0 < den < f.Size() && den == E(f, k)
    ensures E(f, n + f.NN() - k) == Mul(f, E(f, n), Inv(f, den))
  {
    hide E, Mul, Inv;
    InvCorrect(f, den, k);
    MulE(f, n, -k);
    EPeriod(f, n + -k, 1);
    assert n + -k + f.NN() * 1 == n + f.NN() - k;
  }

  /** The value added for root index r; zero when the evaluator vanishes there. */
  method ErrorValue(rs: Codec, omega: array<nat>, lambda: array<nat>, deg: nat, r: nat, ghost lam: seq<nat>, ghost syn: seq<nat>)
      returns (e: nat)
    requires rs.Valid() && IndexForm(rs.gf, lambda[..], lam) && |lam| == rs.nroots + 1 && rs.nroots >= 1
    requires IsDegree(lam, deg) && OmegaForm(rs.gf, omega[..], Fn(lam), syn, deg) && 1 <= r <= rs.nn
    ensures e == Correction(rs.gf, Fn(lam), syn, deg, rs.fcr, r)
  {
    hide E, Mul, Xor, Inv, PrimInverse, Pow2, IndexGen, ToIndex, Times, IndexForm, Omega, OmegaForm, Ev, Deriv, IsDegree;
    ghost var f := rs.gf;
    var num1 := EvalOmega(rs, omega, deg, r, lam, syn);
    PowerArgument(r, rs.fcr, rs.nn);
    EPeriod(f, Times(r, rs.fcr - 1), 1);
    var num2 := AlphaOf(rs.mm, rs.nn, rs.alphaTo, rs.indexOf, r * (rs.fcr - 1) + rs.nn, f);
    var den := EvalDeriv(rs, lambda, deg, r, lam);
    if num1 != 0 {
      FractionIndex(f, num1, num2, den);
      e := AlphaOf(rs.mm, rs.nn, rs.alphaTo, rs.indexOf, rs.indexOf[num1] + rs.indexOf[num2] + rs.nn - rs.indexOf[den], f);
    } else {
      e := 0;
    }
  }

  /** Adds the error values into the data, the last located position first. */
  method ApplyCorrections(rs: Codec, data: array<nat>, omega: array<nat>, lambda: array<nat>, deg: nat, count: nat,
                          root: array<int>, loc: array<int>, ghost lam: seq<nat>, ghost syn: seq<nat>)
    requires rs.Valid() && IndexForm(rs.gf, lambda[..], lam) && |lam| == rs.nroots + 1 && rs.nroots >= 1
    requires IsDegree(lam, deg) && OmegaForm(rs.gf, omega[..], Fn(lam), syn, deg)
    requires Separate(rs, data) && data != omega && data != lambda && data.Length + rs.pad == rs.nn
    requires count <= root.Length == loc.Length
    requires Searched(rs.gf, Fn(lam), deg, rs.iprim, root[..count], loc[..count])
    modifies data
    ensures data[..] == Apply(rs.gf, Fn(lam), syn, deg, rs.fcr, rs.pad, old(data[..]), root[..count], loc[..count], 0)
  {
    hide E, Mul, Xor, Inv, PrimInverse, Pow2, IndexGen, ToIndex, IndexForm, Omega, OmegaForm, Ev, Deriv, IsDegree, Correction, LocOf, Tables;
    ghost var f, w := rs.gf, data[..];
    ghost var rts, lcs := root[..count], loc[..count];
    TablesSize(rs);
    var j: int := count - 1;
    while j >= 0
      invariant -1 <= j < count && root[..count] == rts && loc[..count] == lcs
      invariant data[..] == Apply(f, Fn(lam), syn, deg, rs.fcr, rs.pad, w, rts, lcs, j + 1)
    {
      assert rts[j] == root[j] && lcs[j] == loc[j];
      var e := ErrorValue(rs, omega, lambda, deg, root[j], lam, syn);
      LocRange(f, rs.iprim, rts[j]);
      XorWithZero(data[..], rs.pad, lcs[j]);
      if e != 0 && loc[j] >= rs.pad {
        data[loc[j] - rs.pad] := Xor(data[loc[j] - rs.pad], e);
      }
      j := j - 1;
    }
  }

  lemma {:induction false} LocRange(f: GF, iprim: int, i: int)
    requires f.NN() >= 1
    ensures 0 <= LocOf(f.NN(), iprim, i) < f.NN()
  {
  }

  lemma {:induction false} XorWithZero(w: seq<nat>, pad: int, p: int)
    ensures Correct(w, pad, p, 0) == w
  {
    hide Xor;
    if 0 <= p - pad < |w| { XorZero(w[p - pad]); }
  }

  // ----- The decoder.

  /** What the decoder promises for every codeword within reach: the codeword is restored, and unless
      nothing was wrong the count and the listed positions are exactly those of the errata. */
  ghost predicate Restores(f: GF, prim: int, fcr: int, nroots: int, pad: int, w: seq<nat>, eras: seq<int>,
                           w': seq<nat>, count: int, pos: seq<int>) {
    forall c: seq<nat> | Correctable(f, prim, fcr, nroots, pad, w, c, eras) ::
      && w' == c
      && (w == c ==> count == 0)
      && (w != c ==> count == |pos| && Lists(w, c, pad, eras, pos))
  }

  lemma {:induction false} RestoresZero(f: GF, prim: int, iprim: int, fcr: int, nroots: nat, pad: int, w: seq<nat>, eras: seq<int>, pos: seq<int>)
    requires PrimInverse(f.NN(), prim, iprim) && SeqIn(f, w) && !SomeNonzero(Syn(f, prim, fcr, nroots, w))
    ensures Restores(f, prim, fcr, nroots, pad, w, eras, w, 0, pos)
  {
    hide PrimInverse, Correctable, SyndromesOf, Syn, Lists;
    var s := Syn(f, prim, fcr, nroots, w);
    SynIn(f, prim, fcr, nroots, w);
    forall c: seq<nat> | Correctable(f, prim, fcr, nroots, pad, w, c, eras) ensures w == c {
      ZeroSyndromes(f, prim, iprim, fcr, pad, w, c, eras, s);
    }
    forall c: seq<nat> | Correctable(f, prim, fcr, nroots, pad, w, c, eras) ensures |w| == |c| {
      CorrectableShape(f, prim, fcr, nroots, pad, w, c, eras);
    }
  }

  lemma {:induction false} NonzeroSyndromeDiffers(f: GF, prim: int, fcr: int, nroots: nat, pad: int, w: seq<nat>, c: seq<nat>, eras: seq<int>)
    requires Correctable(f, prim, fcr, nroots, pad, w, c, eras) && SomeNonzero(Syn(f, prim, fcr, nroots, w))
    ensures w != c
  {
    hide Horner, Root, Errors;
  }

  lemma {:induction false} RestoresAfterSearch(f: GF, prim: int, iprim: int, fcr: int, nroots: nat, pad: int, w: seq<nat>, eras: seq<int>,
                              lam: seq<nat>, deg: int, root: seq<int>, loc: seq<int>, w': seq<nat>, count: int)
    requires PrimInverse(f.NN(), prim, iprim) && SeqIn(f, w) && SomeNonzero(Syn(f, prim, fcr, nroots, w))
    requires lam == ErrataLocator(f, prim, Syn(f, prim, fcr, nroots, w), eras)
    requires IsDegree(lam, deg) && Searched(f, Fn(lam), deg, iprim, root, loc)
    requires |loc| == deg ==> count == deg && w' == Apply(f, Fn(lam), Syn(f, prim, fcr, nroots, w), deg, fcr, pad, w, root, loc, 0)
    ensures Restores(f, prim, fcr, nroots, pad, w, eras, w', count, loc)
  {
    hide PrimInverse, Correctable, SyndromesOf, Syn, Lists, SomeNonzero, ErrataLocator, IsDegree, Searched, Apply, SeqIn;
    forall c: seq<nat> | Correctable(f, prim, fcr, nroots, pad, w, c, eras)
      ensures |w| == |c| && w' == c && w != c && count == |loc| && Lists(w, c, pad, eras, loc)
    {
      RestoresOne(f, prim, iprim, fcr, nroots, pad, w, c, eras, lam, deg, root, loc);
    }
  }

  lemma {:induction false} RestoresOne(f: GF, prim: int, iprim: int, fcr: int, nroots: nat, pad: int, w: seq<nat>, c: seq<nat>, eras: seq<int>,
                      lam: seq<nat>, deg: int, root: seq<int>, loc: seq<int>)
    requires PrimInverse(f.NN(), prim, iprim) && SeqIn(f, w) && SomeNonzero(Syn(f, prim, fcr, nroots, w))
    requires lam == ErrataLocator(f, prim, Syn(f, prim, fcr, nroots, w), eras)
    requires IsDegree(lam, deg) && Searched(f, Fn(lam), deg, iprim, root, loc)
    requires Correctable(f, prim, fcr, nroots, pad, w, c, eras)
    ensures |w| == |c| && w != c && |loc| == deg && |root| == |loc| && Lists(w, c, pad, eras, loc)
    ensures Apply(f, Fn(lam), Syn(f, prim, fcr, nroots, w), deg, fcr, pad, w, root, loc, 0) == c
  {
    hide PrimInverse, SyndromesOf, Syn, SomeNonzero, ErrataLocator, IsDegree, Searched, Apply, SeqIn, Errors, IsCodeword, Lists;
    SynIn(f, prim, fcr, nroots, w);
    NonzeroSyndromeDiffers(f, prim, fcr, nroots, pad, w, c, eras);
    DecodeRestores(f, prim, iprim, fcr, pad, w, c, eras, Syn(f, prim, fcr, nroots, w), lam, deg, root, loc);
  }

  ghost function ErasureSeq(erasPos: array?<int>, noEras: nat): seq<int>
    requires noEras > 0 ==> erasPos != null && noEras <= erasPos.Length
    reads if noEras > 0 then {erasPos as object?} else {}
  {
    if noEras > 0 then erasPos[..noEras] else []
  }

  /** The errata locator in index form and its degree. */
  method FindLocator(rs: Codec, s: array<nat>, erasPos: array?<int>, noEras: nat, lambda: array<nat>,
                     ghost syn: seq<nat>, ghost eras: seq<int>) returns (deg: nat, ghost lam: seq<nat>)
    requires rs.Valid() && Separate(rs, lambda) && lambda != s && lambda.Length == rs.nroots + 1
    requires noEras <= rs.nroots && (noEras > 0 ==> erasPos != null && noEras <= erasPos.Length)
    requires eras == ErasureSeq(erasPos, noEras) && ErasuresInRange(rs.nn, eras)
    requires IndexForm(rs.gf, s[..], syn) && |syn| == rs.nroots
    modifies lambda
    ensures lam == ErrataLocator(rs.gf, rs.prim, syn, eras)
    ensures |lam| == rs.nroots + 1 && lam[0] == 1 && IndexForm(rs.gf, lambda[..], lam) && IsDegree(lam, deg)
  {
    hide E, PrimInverse, Pow2, IndexGen, Tables, IndexForm, Gamma, BmRun, IsDegree, Starting, BmInv, ErrataLocator;
    ghost var f := rs.gf;
    ghost var gamma := Gamma(f, rs.prim, rs.nroots, eras);
    ErasureLocator(rs, erasPos, noEras, lambda);
    GammaStarts(f, rs.prim, syn, eras);
    Iterate(rs, s, lambda, noEras, syn, gamma);
    ErrataLocatorIs(f, rs.prim, syn, eras);
    lam := lambda[..];
    BmRunInv(f, syn, noEras, gamma, rs.nroots);
    BmInvShape(f, syn, noEras, BmRun(f, syn, noEras, gamma, rs.nroots), rs.nroots);
    deg := ConvertLocator(rs, lambda);
  }

  /** Evaluator and corrections for a completed search. */
  method EvaluateAndCorrect(rs: Codec, data: array<nat>, s: array<nat>, lambda: array<nat>, deg: nat, root: array<int>, loc: array<int>,
                            ghost lam: seq<nat>, ghost syn: seq<nat>)
    requires rs.Valid() && rs.nroots >= 1 && Separate(rs, data) && data != s && data != lambda
    requires data.Length + rs.pad == rs.nn && |lam| == rs.nroots + 1 == |syn| + 1
    requires IndexForm(rs.gf, s[..], syn) && IndexForm(rs.gf, lambda[..], lam) && IsDegree(lam, deg)
    requires deg <= root.Length == loc.Length
    requires Searched(rs.gf, Fn(lam), deg, rs.iprim, root[..deg], loc[..deg])
    modifies data
    ensures data[..] == Apply(rs.gf, Fn(lam), syn, deg, rs.fcr, rs.pad, old(data[..]), root[..deg], loc[..deg], 0)
    ensures deg == 0 ==> data[..] == old(data[..])
  {
    hide E, PrimInverse, Pow2, IndexGen, Tables, IndexForm, Searched, IsDegree, OmegaForm, Apply;
    ghost var w := data[..];
    DegreeBound(lam, deg);
    var omega := new nat[rs.nroots + 1];
    FormOmega(rs, s, lambda, omega, deg, syn, lam);
    ApplyCorrections(rs, data, omega, lambda, deg, deg, root, loc, lam, syn);
    NoCorrections(rs.gf, Fn(lam), syn, deg, rs.fcr, rs.pad, w);
    assert deg == 0 ==> root[..deg] == [] && loc[..deg] == [];
  }

  ghost predicate RestoresHere(rs: Codec, w: seq<nat>, eras: seq<int>, w': seq<nat>, count: int, pos: seq<int>) {
    Primitive(rs.gf) && Restores(rs.gf, rs.prim, rs.fcr, rs.nroots, rs.pad, w, eras, w', count, pos)
  }

  /** The stages after a nonzero syndrome: locator, search, evaluator and corrections. A locator with
      fewer roots than its degree leaves the data alone and yields -1. */
  method CorrectErrors(rs: Codec, data: array<nat>, s: array<nat>, erasPos: array?<int>, noEras: nat, loc: array<int>,
                       ghost eras: seq<int>) returns (count: int)
    requires rs.Valid() && rs.nroots >= 1 && Separate(rs, data) && data != s
    requires data.Length + rs.pad == rs.nn && SeqIn(rs.gf, data[..])
    requires noEras <= rs.nroots && (noEras > 0 ==> erasPos != null && noEras <= erasPos.Length)
    requires eras == ErasureSeq(erasPos, noEras) && ErasuresInRange(rs.nn, eras)
    requires IndexForm(rs.gf, s[..], Syn(rs.gf, rs.prim, rs.fcr, rs.nroots, data[..]))
    requires SomeNonzero(Syn(rs.gf, rs.prim, rs.fcr, rs.nroots, data[..]))
    requires loc.Length == rs.nroots && loc != erasPos
    modifies data, loc
    ensures -1 <= count <= rs.nroots && (count <= 0 ==> data[..] == old(data[..]))
    ensures RestoresHere(rs, old(data[..]), eras, data[..], count, loc[..if count < 0 then 0 else count])
  {
    hide E, PrimInverse, Pow2, IndexGen, Tables, IndexForm, Syn, SomeNonzero, ErrataLocator, Searched, IsDegree, Apply,
         Restores, SeqIn, ErasuresInRange, ErasureSeq;
    ghost var f, w := rs.gf, data[..];
    ghost var syn := Syn(f, rs.prim, rs.fcr, rs.nroots, w);
    SynLength(f, rs.prim, rs.fcr, rs.nroots, w);
    TablesSize(rs);
    var lambda := new nat[rs.nroots + 1];
    ghost var lam;
    var deg;
    deg, lam := FindLocator(rs, s, erasPos, noEras, lambda, syn, eras);
    DegreeBound(lam, deg);
    var root := new int[rs.nroots];
    var n := ChienSearch(rs, lambda, deg, root, loc, lam);
    if deg != n {
      count := -1;
    } else {
      EvaluateAndCorrect(rs, data, s, lambda, deg, root, loc, lam, syn);
      count := n;
    }
    RestoresAfterSearch(f, rs.prim, rs.iprim, rs.fcr, rs.nroots, rs.pad, w, eras, lam, deg, root[..n], loc[..n], data[..], count);
    if count == -1 {
      NothingInReach(f, rs.prim, rs.fcr, rs.nroots, rs.pad, w, eras, data[..], loc[..n], loc[..0]);
    }
  }

  lemma {:induction false} NoCorrections(f: GF, lam: int -> nat, s: seq<nat>, deg: int, fcr: int, pad: int, w: seq<nat>)
    ensures Apply(f, lam, s, deg, fcr, pad, w, [], [], 0) == w
  {
  }

  /** A result of -1 is only given when no codeword is within reach. */
  lemma {:induction false} NothingInReach(f: GF, prim: int, fcr: int, nroots: nat, pad: int, w: seq<nat>, eras: seq<int>,
                          w': seq<nat>, p: seq<int>, q: seq<int>)
    requires Restores(f, prim, fcr, nroots, pad, w, eras, w', -1, p)
    ensures forall c: seq<nat> :: !Correctable(f, prim, fcr, nroots, pad, w, c, eras)
    ensures Restores(f, prim, fcr, nroots, pad, w, eras, w', -1, q)
  {
    hide Correctable, Lists;
    forall c: seq<nat> ensures !Correctable(f, prim, fcr, nroots, pad, w, c, eras) {
      if Correctable(f, prim, fcr, nroots, pad, w, c, eras) {
        CorrectableShape(f, prim, fcr, nroots, pad, w, c, eras);
      }
    }
  }

  lemma {:induction false} SynLength(f: GF, prim: int, fcr: int, nroots: nat, w: seq<nat>)
    ensures |Syn(f, prim, fcr, nroots, w)| == nroots
  {
  }

  lemma {:induction false} GammaStarts(f: GF, prim: int, s: seq<nat>, eras: seq<int>)
    requires |eras| <= |s|
    ensures Starting(f, s, |eras|, Gamma(f, prim, |s|, eras))
  {
    hide Gamma;
    GammaShape(f, prim, |s|, eras);
  }

  lemma {:induction false} DegreeBound(p: seq<nat>, d: int)
    requires IsDegree(p, d)
    ensures 0 <= d < |p|
  {
  }

  method CopyPositions(loc: array<int>, erasPos: array<int>, n: nat)
    requires n <= loc.Length && n <= erasPos.Length && loc != erasPos
    modifies erasPos
    ensures erasPos[..n] == loc[..n] && erasPos[n..] == old(erasPos[n..])
  {
    for i := 0 to n
      invariant forall j | 0 <= j < i :: erasPos[j] == loc[j]
      invariant forall j | i <= j < erasPos.Length :: erasPos[j] == old(erasPos[j])
    {
      erasPos[i] := loc[i];
    }
  }

  /** The decoder. Positions are counted in the padded block, as in erasPos on entry. */
  method Decode(rs: Codec, data: array<nat>, erasPos: array?<int>, noEras: nat) returns (count: int, ghost pos: seq<int>)
    requires rs.Valid() && rs.nroots >= 1 && Separate(rs, data)
    requires data.Length + rs.pad == rs.nn && SeqIn(rs.gf, data[..])
    requires noEras <= rs.nroots && (noEras > 0 ==> erasPos != null)
    requires erasPos != null ==> erasPos.Length >= rs.nroots && erasPos as object != data
    requires ErasuresInRange(rs.nn, ErasureSeq(erasPos, noEras))
    modifies data, erasPos
    ensures -1 <= count <= rs.nroots && (count <= 0 ==> data[..] == old(data[..]))
    ensures RestoresHere(rs, old(data[..]), old(ErasureSeq(erasPos, noEras)), data[..], count, pos)
    ensures erasPos != null ==>
              var n := if count < 0 then 0 else count;
              pos == erasPos[..n] && erasPos[n..] == old(erasPos[n..])
  {
    hide E, PrimInverse, Pow2, IndexGen, Tables, IndexForm, Syn, SomeNonzero, Restores, SeqIn, ErasuresInRange;
    ghost var w, eras := data[..], ErasureSeq(erasPos, noEras);
    var s := new nat[rs.nroots];
    var loc := new int[rs.nroots];
    pos := [];
    TablesSize(rs);
    var synError := FormSyndromes(rs, data, s);
    if !synError {
      count := 0;
      RestoresZero(rs.gf, rs.prim, rs.iprim, rs.fcr, rs.nroots, rs.pad, w, eras, pos);
    } else {
      count := CorrectErrors(rs, data, s, erasPos, noEras, loc, eras);
      pos := loc[..if count < 0 then 0 else count];
    }
    if erasPos != null {
      CopyPositions(loc, erasPos, if count < 0 then 0 else count);
    }
  }

  // ----- Encode, then decode.

  lemma {:induction false} CodewordUntouched(f: GF, prim: int, fcr: int, nroots: nat, pad: nat, w: seq<nat>, w': seq<nat>, count: int, pos: seq<int>)
    requires |w| + pad == f.NN() && SeqIn(f, w) && IsCodeword(f, prim, fcr, nroots, w)
    requires Restores(f, prim, fcr, nroots, pad, w, [], w', count, pos)
    ensures w' == w && count == 0
  {
    hide IsCodeword, Lists, SeqIn;
    assert Errors(w, w, pad, []) == {};
    assert Correctable(f, prim, fcr, nroots, pad, w, w, []);
  }

  method Assemble(data: array<nat>, parity: array<nat>, block: array<nat>)
    requires block.Length == data.Length + parity.Length && block != data && block != parity
    modifies block
    ensures block[..] == data[..] + parity[..]
  {
    forall j | 0 <= j < data.Length { block[j] := data[j]; }
    forall j | 0 <= j < parity.Length { block[data.Length + j] := parity[j]; }
    assert block[..data.Length] == data[..];
    assert block[data.Length..] == parity[..];
  }

  /** A clean block comes back from the decoder unchanged, with no error reported. */
  method EncodeThenDecode(rs: Codec, data: array<nat>, parity: array<nat>, block: array<nat>) returns (count: int)
    requires rs.Valid() && rs.nroots >= 1
    requires data.Length == rs.nn - rs.nroots - rs.pad && parity.Length == rs.nroots && SeqIn(rs.gf, data[..])
    requires block.Length == data.Length + parity.Length
    requires Separate(rs, parity) && Separate(rs, block) && parity != data && block != data && block != parity
    modifies parity, block
    ensures count == 0 && block[..] == data[..] + parity[..]
  {
    hide E, PrimInverse, Pow2, IndexGen, Tables, Restores, SeqIn, IsCodeword;
    Encode(rs, data, parity);
    Assemble(data, parity, block);
    ConcatIn(rs.gf, data[..], parity[..]);
    ghost var w := block[..];
    ghost var pos;
    TablesSize(rs);
    count, pos := Decode(rs, block, null, 0);
    CodewordUntouched(rs.gf, rs.prim, rs.fcr, rs.nroots, rs.pad, w, block[..], count, pos);
  }
}
