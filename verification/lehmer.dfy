/** Applying a batch's cofactor matrix to the full-width rows, in one fused limb pass or by four separate
    combines (internal/heea8l/lehmer.go:156-360). */
module Lehmer {
  import opened Arith
  import opened Words
  import opened Euclid
  import opened Signed320
  import opened Selection

  /** lehmerGuardBits. */
  const GUARD_BITS: nat := 32

  // ---------------------------------------------------------------- applying a matrix

  /** When the transformed rows are representable: the condition both forms below report exactly. */
  ghost predicate Applies(x: Row, y: Row, m: Matrix) {
    && Term(x.rho, m.a) && Term(y.rho, m.b) && Term(x.rho, m.c) && Term(y.rho, m.d)
    && Term(x.tau, m.a) && Term(y.tau, m.b) && Term(x.tau, m.c) && Term(y.tau, m.d)
    && 0 <= m.First(x.rho, y.rho) < Weight(4) && 0 <= m.Second(x.rho, y.rho) < Weight(4)
    && Abs(m.First(x.tau, y.tau)) < Weight(4) && Abs(m.Second(x.tau, y.tau)) < Weight(4)
  }

  /** One product fits five words. */
  ghost predicate Term(v: int, c: int) {
    Abs(v) * Abs(c) < Limit()
  }

  /** The fused limb pass: all eight products advance together, one word at a time. */
  method Products(operands: seq<U320>, coefficients: seq<u64>) returns (products: seq<U320>, ok: bool)
    requires |operands| == 8 && |coefficients| == 8
    ensures |products| == 8
    ensures ok <==> forall p :: 0 <= p < 8 ==> Val(operands[p]) * coefficients[p] < Limit()
    ensures ok ==> forall p :: 0 <= p < 8 ==> Val(products[p]) == Val(operands[p]) * coefficients[p]
  {
    hide Val, Weight;
    var rows: seq<seq<u64>> := seq(8, _ => []);
    var carry: seq<u64> := seq(8, _ => 0);
    EmptyProducts(operands, coefficients);
    for limb := 0 to 5
      invariant |rows| == 8 && |carry| == 8
      invariant forall p :: 0 <= p < 8 ==> Partial(operands[p], coefficients[p], rows[p], carry[p], limb)
    {
      for p := 0 to 8
        invariant |rows| == 8 && |carry| == 8
        invariant forall k :: 0 <= k < p ==> Partial(operands[k], coefficients[k], rows[k], carry[k], limb + 1)
        invariant forall k :: p <= k < 8 ==> Partial(operands[k], coefficients[k], rows[k], carry[k], limb)
      {
        var low, high, fits := MulLehmerWord(operands[p][limb], coefficients[p], carry[p]);
        PartialStep(operands[p], coefficients[p], rows[p], carry[p], limb, low, high);
        rows := rows[p := rows[p] + [low]];
        carry := carry[p := high];
      }
    }
    products := rows;
    ok := IsZero(carry);
    forall p | 0 <= p < 8
      ensures carry[p] == 0 <==> Val(operands[p]) * coefficients[p] < Limit()
      ensures carry[p] == 0 ==> Val(rows[p]) == Val(operands[p]) * coefficients[p]
    {
      PartialDone(operands[p], coefficients[p], rows[p], carry[p]);
    }
  }

  /** limb words of x*c are final and carry is pending. */
  ghost predicate Partial(x: U320, c: u64, row: seq<u64>, carry: u64, limb: nat) {
    limb <= 5 && |row| == limb && Val(row) + Weight(limb) * carry == Val(x[..limb]) * c
  }

  lemma EmptyProducts(operands: seq<U320>, coefficients: seq<u64>)
    requires |operands| == 8 && |coefficients| == 8
    ensures forall p :: 0 <= p < 8 ==> Partial(operands[p], coefficients[p], [], 0, 0)
  {}

  lemma PartialStep(x: U320, c: u64, row: seq<u64>, carry: u64, limb: nat, low: u64, high: u64)
    requires limb < 5 && Partial(x, c, row, carry, limb) && low + W * high == x[limb] * c + carry
    ensures Partial(x, c, row + [low], high, limb + 1)
  {
    ValSnoc(x, limb);
    ValAppend(row, [low]);
    assert Val([low]) == low + W * Val([]);
    MulStep(Weight(limb), x[limb], c, carry, low, high, Val(x[..limb]));
  }

  lemma PartialDone(x: U320, c: u64, row: seq<u64>, carry: u64)
    requires Partial(x, c, row, carry, 5)
    ensures carry == 0 <==> Val(x) * c < Limit()
    ensures carry == 0 ==> Val(row) == Val(x) * c
  {
    hide Val, Weight;
    assert x[..5] == x;
    ValBound(row);
    if carry > 0 { MulMono(Weight(5), 1, carry); }
  }

  /** An int64 matrix entry as magnitude and sign. */
  function Magnitude(c: int): u64
    requires Abs(c) < R64
  {
    Abs(c)
  }

  ghost predicate Entries(m: Matrix) {
    Abs(m.a) < R64 && Abs(m.b) < R64 && Abs(m.c) < R64 && Abs(m.d) < R64
  }

  /** A product with its sign is the signed product. */
  lemma SignedTerm(x: S320, c: int, p: U320)
    requires Abs(c) < R64 && Val(p) == Val(x.mag) * Abs(c)
    ensures SVal(S320(p, x.neg != (c < 0))) == SVal(x) * c
  {
    hide Val;
    TermArith(Val(x.mag), c);
  }

  lemma TermArith(v: nat, c: int)
    ensures v * c == if c < 0 then -(v * Abs(c)) else v * Abs(c)
    ensures (-(v as int)) * c == if c < 0 then v * Abs(c) else -(v * Abs(c))
  {}

  /** One transformed value from two signed products. */
  method Combined(x: S320, y: S320, p: int, q: int, px: U320, qy: U320) returns (out: S320, ok: bool)
    requires Abs(p) < R64 && Abs(q) < R64
    requires Val(px) == Val(x.mag) * Abs(p) && Val(qy) == Val(y.mag) * Abs(q)
    ensures ok <==> Abs(SVal(x) * p + SVal(y) * q) < Limit()
    ensures ok ==> SVal(out) == SVal(x) * p + SVal(y) * q && (out.neg <==> SVal(out) < 0)
  {
    SignedTerm(x, p, px);
    SignedTerm(y, q, qy);
    hide Val, Weight, SVal;
    out, ok := AddProducts(px, x.neg != (p < 0), qy, y.neg != (q < 0));
  }

  /** A representable nonnegative four-word remainder. */
  method AsRemainder(v: S320, fits: bool, ghost value: int) returns (rho: U256, ok: bool)
    requires fits <==> Abs(value) < Limit()
    requires fits ==> SVal(v) == value && (v.neg <==> value < 0)
    ensures ok <==> 0 <= value < Weight(4)
    ensures ok ==> Val(rho) == value
  {
    FourWords(v.mag);
    FourBelowFive();
    hide Val, Weight;
    rho := v.mag[..4];
    ok := fits && !v.neg && v.mag[4] == 0;
  }

  lemma FourBelowFive()
    ensures Weight(4) < Limit()
  {
    WeightWide();
  }

  /** A representable four-word coefficient. */
  method AsCoefficient(v: S320, fits: bool, ghost value: int) returns (ok: bool)
    requires fits <==> Abs(value) < Limit()
    requires fits ==> SVal(v) == value
    ensures ok <==> Abs(value) < Weight(4)
    ensures ok ==> fits
  {
    FourWords(v.mag);
    AbsVal(v);
    FourBelowFive();
    hide Val, Weight;
    ok := fits && v.mag[4] == 0;
  }

  /** applyLehmerMatrix: fails exactly when some intermediate value is not representable. */
  method ApplyMatrix(x: WideRow, y: WideRow, m: Matrix) returns (x': WideRow, y': WideRow, ok: bool)
    requires Entries(m)
    ensures ok <==> Applies(x.Value(), y.Value(), m)
    ensures ok ==> x'.Value() == Row(m.First(Val(x.rho), Val(y.rho)), m.First(SVal(x.tau), SVal(y.tau)))
    ensures ok ==> y'.Value() == Row(m.Second(Val(x.rho), Val(y.rho)), m.Second(SVal(x.tau), SVal(y.tau)))
  {
    var r0, r1 := FromUint256(x.rho), FromUint256(y.rho);
    var a, b, c, d := Magnitude(m.a), Magnitude(m.b), Magnitude(m.c), Magnitude(m.d);
    var operands := [r0.mag, r1.mag, r0.mag, r1.mag, x.tau.mag, y.tau.mag, x.tau.mag, y.tau.mag];
    var coefficients := [a, b, c, d, a, b, c, d];
    x', y', ok := x, y, false;
    AbsVal(x.tau);
    AbsVal(y.tau);
    hide Val, Weight, Abs, Matrix.First, Matrix.Second;
    TermsOf(x, y, m);
    var products, fit := Products(operands, coefficients);
    assert fit <==> (forall p :: 0 <= p < 8 ==> Val(operands[p]) * coefficients[p] < Limit());
    EightTerms(operands, coefficients);
    if !fit {
      return;
    }
    FirstIs(m, Val(x.rho), Val(y.rho));
    FirstIs(m, SVal(x.tau), SVal(y.tau));
    var first, ok0 := OutputRow(r0, r1, x.tau, y.tau, m.a, m.b, products[0], products[1], products[4], products[5],
                                m.First(Val(x.rho), Val(y.rho)), m.First(SVal(x.tau), SVal(y.tau)));
    var second, ok1 := OutputRow(r0, r1, x.tau, y.tau, m.c, m.d, products[2], products[3], products[6], products[7],
                                 m.Second(Val(x.rho), Val(y.rho)), m.Second(SVal(x.tau), SVal(y.tau)));
    if !ok0 || !ok1 {
      return;
    }
    x', y', ok := first, second, true;
  }

  /** One output row: the sums of its two remainder products and its two coefficient products. */
  method OutputRow(r0: S320, r1: S320, t0: S320, t1: S320, p: int, q: int,
                   r0p: U320, r1q: U320, t0p: U320, t1q: U320, ghost rho: int, ghost tau: int)
    returns (row: WideRow, ok: bool)
    requires Abs(p) < R64 && Abs(q) < R64
    requires Val(r0p) == Val(r0.mag) * Abs(p) && Val(r1q) == Val(r1.mag) * Abs(q)
    requires Val(t0p) == Val(t0.mag) * Abs(p) && Val(t1q) == Val(t1.mag) * Abs(q)
    requires rho == SVal(r0) * p + SVal(r1) * q && tau == SVal(t0) * p + SVal(t1) * q
    ensures ok <==> 0 <= rho < Weight(4) && Abs(tau) < Weight(4)
    ensures ok ==> Val(row.rho) == rho && SVal(row.tau) == tau
  {
    hide Val, Weight, Abs, SVal;
    var v, w := Combined(r0, r1, p, q, r0p, r1q);
    var remainder, ok0 := AsRemainder(v, w, rho);
    var t, f := Combined(t0, t1, p, q, t0p, t1q);
    var ok1 := AsCoefficient(t, f, tau);
    row, ok := WideRow(remainder, t), ok0 && ok1;
  }

  lemma FirstIs(m: Matrix, r0: int, r1: int)
    ensures m.First(r0, r1) == r0 * m.a + r1 * m.b
    ensures m.Second(r0, r1) == r0 * m.c + r1 * m.d
  {}

  lemma EightTerms(operands: seq<U320>, coefficients: seq<u64>)
    requires |operands| == 8 && |coefficients| == 8
    ensures (forall p :: 0 <= p < 8 ==> Val(operands[p]) * coefficients[p] < Limit())
      <==> && Val(operands[0]) * coefficients[0] < Limit() && Val(operands[1]) * coefficients[1] < Limit()
           && Val(operands[2]) * coefficients[2] < Limit() && Val(operands[3]) * coefficients[3] < Limit()
           && Val(operands[4]) * coefficients[4] < Limit() && Val(operands[5]) * coefficients[5] < Limit()
           && Val(operands[6]) * coefficients[6] < Limit() && Val(operands[7]) * coefficients[7] < Limit()
  {
    hide Val, Weight;
  }

  lemma TermsOf(x: WideRow, y: WideRow, m: Matrix)
    requires Entries(m)
    ensures Abs(x.Value().rho) == Val(x.rho) && Abs(y.Value().rho) == Val(y.rho)
  {}

  /** combine320: x*m + y*n through two checked products and a checked sum. */
  method Combine(x: S320, p: int, y: S320, q: int) returns (out: S320, ok: bool)
    requires Abs(p) < R64 && Abs(q) < R64
    ensures ok <==> Term(SVal(x), p) && Term(SVal(y), q) && Abs(SVal(x) * p + SVal(y) * q) < Limit()
    ensures ok ==> SVal(out) == SVal(x) * p + SVal(y) * q && (out.neg <==> SVal(out) < 0)
  {
    NormalVal();
    hide Val, Weight, Abs, Normal;
    var left, right, fits;
    left, fits := MulInt64(x, p);
    if !fits {
      return ZERO, false;
    }
    right, fits := MulInt64(y, q);
    if !fits {
      return ZERO, false;
    }
    out, ok := AddSigned(left, right);
  }

  /** mulSigned320Int64. */
  method MulInt64(x: S320, m: int) returns (out: S320, ok: bool)
    requires Abs(m) < R64
    ensures ok <==> Term(SVal(x), m)
    ensures ok ==> SVal(out) == SVal(x) * m && Normal(out)
  {
    ZeroVal();
    AbsTimes(SVal(x), Abs(m));
    SignTimes(SVal(x), m);
    LimitPositive();
    NormalVal();
    hide Val, Weight, Normal;
    if m == 0 {
      assert Abs(SVal(x)) * 0 == 0;
      return ZERO, true;
    }
    out, ok := MulSigned(x, Magnitude(m));
    if ok && m < 0 {
      NegateNormal(out);
      out := Negate(out);
    }
  }

  lemma NegateNormal(x: S320)
    requires Normal(x)
    ensures Normal(Negate(x))
  {}

  /** applyLehmerMatrixReference: four independent combines. Same contract as the fused form, so the
      two agree on every input. */
  method ApplyMatrixReference(x: WideRow, y: WideRow, m: Matrix) returns (x': WideRow, y': WideRow, ok: bool)
    requires Entries(m)
    ensures ok <==> Applies(x.Value(), y.Value(), m)
    ensures ok ==> x'.Value() == Row(m.First(Val(x.rho), Val(y.rho)), m.First(SVal(x.tau), SVal(y.tau)))
    ensures ok ==> y'.Value() == Row(m.Second(Val(x.rho), Val(y.rho)), m.Second(SVal(x.tau), SVal(y.tau)))
  {
    var r0, r1 := FromUint256(x.rho), FromUint256(y.rho);
    x', y', ok := x, y, false;
    hide Val, Weight, Abs, Matrix.First, Matrix.Second;
    FirstIs(m, Val(x.rho), Val(y.rho));
    FirstIs(m, SVal(x.tau), SVal(y.tau));
    var first, ok0 := CombineRow(r0, r1, x.tau, y.tau, m.a, m.b,
                                 m.First(Val(x.rho), Val(y.rho)), m.First(SVal(x.tau), SVal(y.tau)));
    if !ok0 {
      return;
    }
    var second, ok1 := CombineRow(r0, r1, x.tau, y.tau, m.c, m.d,
                                  m.Second(Val(x.rho), Val(y.rho)), m.Second(SVal(x.tau), SVal(y.tau)));
    if !ok1 {
      return;
    }
    x', y', ok := first, second, true;
  }

  method CombineRow(r0: S320, r1: S320, t0: S320, t1: S320, p: int, q: int, ghost rho: int, ghost tau: int)
    returns (row: WideRow, ok: bool)
    requires Abs(p) < R64 && Abs(q) < R64
    requires rho == SVal(r0) * p + SVal(r1) * q && tau == SVal(t0) * p + SVal(t1) * q
    ensures ok <==> && Term(SVal(r0), p) && Term(SVal(r1), q) && Term(SVal(t0), p) && Term(SVal(t1), q)
                    && 0 <= rho < Weight(4) && Abs(tau) < Weight(4)
    ensures ok ==> Val(row.rho) == rho && SVal(row.tau) == tau
  {
    hide Val, Weight, SVal, Term;
    FourBelowFive();
    var v, w := Combine(r0, p, r1, q);
    var t, f := Combine(t0, p, t1, q);
    if !w || !f {
      return WideRow(Zeros(4), ZERO), false;
    }
    var remainder, ok0 := AsRemainder(v, w, rho);
    var ok1 := AsCoefficient(t, f, tau);
    row, ok := WideRow(remainder, t), ok0 && ok1;
  }

  lemma LimitPositive()
    ensures Limit() > 0
  {}

  lemma AbsTimes(v: int, m: nat)
    ensures Abs(v * m) == Abs(v) * m
  {
    MulNonNeg(Abs(v), m);
    if v < 0 { NegMul(-v, m); }
  }

  lemma SignTimes(v: int, m: int)
    ensures v * m == if m < 0 then -(v * Abs(m)) else v * Abs(m)
  {}
}
