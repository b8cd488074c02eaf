/** Sign-and-magnitude integers of five words (internal/heea8l/shift_subtract.go,
    euclid_principal.go and lehmer.go). Every overflow report is exact in both directions. */
module Signed320 {
  import opened Arith
  import opened Words
  import opened Fixed256

  datatype S320 = S320(mag: U320, neg: bool)

  function SVal(x: S320): int {
    if x.neg then -(Val(x.mag) as int) else Val(x.mag)
  }

  /** Zero is stored without a sign. */
  predicate Normal(x: S320) {
    x.neg ==> !IsZero(x.mag)
  }

  const ZERO: S320 := S320([0, 0, 0, 0, 0], false)

  /** One past the largest magnitude five words hold. */
  function Limit(): nat { Weight(5) }

  lemma ZeroVal()
    ensures SVal(ZERO) == 0 && Val(ZERO.mag) == 0
  {
    IsZeroVal(ZERO.mag);
  }

  lemma AbsVal(x: S320)
    ensures Abs(SVal(x)) == Val(x.mag)
    ensures Val(x.mag) < Limit()
  {
    ValBound(x.mag);
  }

  /** signed320FromUint256. */
  function FromUint256(x: U256): (r: S320)
    ensures !r.neg && Val(r.mag) == Val(x) && SVal(r) == Val(x)
  {
    ValAppend(x, [0]);
    assert Val([0]) == 0;
    S320(x + [0], false)
  }

  lemma NormalVal()
    ensures forall x: S320 :: Normal(x) <==> (x.neg ==> Val(x.mag) > 0)
  {
    forall x: S320
      ensures Normal(x) <==> (x.neg ==> Val(x.mag) > 0)
    {
      IsZeroVal(x.mag);
    }
  }

  /** x - (+/-)mag by the sign rule that subSigned320, subMulUint64Signed320 and subShifted320 share. */
  method Difference(x: S320, mag: U320, neg: bool) returns (out: S320, ok: bool)
    ensures ok <==> Abs(SVal(x) - SVal(S320(mag, neg))) < Limit()
    ensures ok ==> SVal(out) == SVal(x) - SVal(S320(mag, neg))
    ensures ok && Normal(x) ==> Normal(out)
  {
    NormalVal();
    hide Val, Weight, Normal;
    AbsVal(x);
    AbsVal(S320(mag, neg));
    ZeroVal();
    out := ZERO;
    if x.neg != neg {
      var sum, carry := AddLimbs(x.mag, mag);
      if carry != 0 {
        return ZERO, false;
      }
      return S320(sum, x.neg), true;
    }
    var c := CmpLimbs(x.mag, mag);
    if c < 0 {
      var d, borrow := SubLimbs(mag, x.mag);
      if borrow != 0 {
        return ZERO, false;
      }
      return S320(d, !x.neg), true;
    }
    if c == 0 {
      return ZERO, true;
    }
    var d, borrow := SubLimbs(x.mag, mag);
    if borrow != 0 {
      return ZERO, false;
    }
    return S320(d, x.neg), true;
  }

  /** subSigned320. */
  method SubSigned(x: S320, y: S320) returns (out: S320, ok: bool)
    ensures ok <==> Abs(SVal(x) - SVal(y)) < Limit()
    ensures ok ==> SVal(out) == SVal(x) - SVal(y)
    ensures ok && Normal(x) ==> Normal(out)
  {
    out, ok := Difference(x, y.mag, y.neg);
  }

  /** negateSigned320: zero keeps its positive sign. */
  function Negate(x: S320): (r: S320)
    ensures SVal(r) == -SVal(x)
    ensures Normal(r) || x.neg
  {
    if IsZero(x.mag) then
      IsZeroVal(x.mag);
      x
    else S320(x.mag, !x.neg)
  }

  /** addSigned320. */
  method AddSigned(x: S320, y: S320) returns (out: S320, ok: bool)
    ensures ok <==> Abs(SVal(x) + SVal(y)) < Limit()
    ensures ok ==> SVal(out) == SVal(x) + SVal(y)
    ensures ok && Normal(x) ==> Normal(out)
  {
    out, ok := SubSigned(x, Negate(y));
  }

  lemma MulAbs(x: S320, m: nat)
    ensures Abs(SVal(x) * m) == Val(x.mag) * m
    ensures x.neg ==> SVal(x) * m == -(Val(x.mag) * m)
    ensures !x.neg ==> SVal(x) * m == Val(x.mag) * m
  {
    MulNonNeg(Val(x.mag), m);
    if x.neg { NegMul(Val(x.mag), m); }
  }

  lemma NegMul(v: int, m: int)
    ensures (-v) * m == -(v * m)
  {}

  /** The product words of a magnitude, and whether they fit. */
  method MulMagnitude(x: U320, m: u64) returns (out: U320, ok: bool)
    ensures ok <==> Val(x) * m < Limit()
    ensures ok ==> Val(out) == Val(x) * m
  {
    hide Val, Weight;
    var carry;
    out, carry := MulWord(x, m);
    ok := carry == 0;
    ValBound(out);
    if carry != 0 { MulMono(Weight(|x|), 1, carry); }
  }

  /** mulSigned320Uint64. */
  method MulSigned(x: S320, m: u64) returns (out: S320, ok: bool)
    ensures ok <==> Abs(SVal(x) * m) < Limit()
    ensures ok ==> SVal(out) == SVal(x) * m
    ensures ok ==> Normal(out)
  {
    MulAbs(x, m);
    NormalVal();
    hide Weight, Val, Normal;
    IsZeroVal(x.mag);
    AbsVal(ZERO);
    ZeroVal();
    if m == 0 || IsZero(x.mag) {
      return ZERO, true;
    }
    var mag;
    mag, ok := MulMagnitude(x.mag, m);
    MulMono(Val(x.mag), 1, m);
    out := S320(mag, x.neg);
  }

  /** subMulUint64Signed320: x - y*m in one pass. */
  method SubMul(x: S320, y: S320, m: u64) returns (out: S320, ok: bool)
    ensures Abs(SVal(y) * m) >= Limit() ==> !ok
    ensures Abs(SVal(y) * m) < Limit() ==> (ok <==> Abs(SVal(x) - SVal(y) * m) < Limit())
    ensures ok ==> SVal(out) == SVal(x) - SVal(y) * m
  {
    MulAbs(y, m);
    hide Weight, Val;
    IsZeroVal(y.mag);
    AbsVal(x);
    if m == 0 || IsZero(y.mag) {
      return x, true;
    }
    var product, fits := MulMagnitude(y.mag, m);
    if !fits {
      return ZERO, false;
    }
    out, ok := Difference(x, product, y.neg);
  }

  /** subMulUint64Signed320Reference: the compositional form has the same contract. */
  method SubMulReference(x: S320, y: S320, m: u64) returns (out: S320, ok: bool)
    ensures Abs(SVal(y) * m) >= Limit() ==> !ok
    ensures Abs(SVal(y) * m) < Limit() ==> (ok <==> Abs(SVal(x) - SVal(y) * m) < Limit())
    ensures ok ==> SVal(out) == SVal(x) - SVal(y) * m
  {
    hide Weight, Val;
    var product, fits := MulSigned(y, m);
    if !fits {
      return ZERO, false;
    }
    out, ok := SubSigned(x, product);
  }

  lemma ShiftAbs(x: S320, shift: nat)
    ensures Abs(SVal(x) * Pow2(shift)) == Val(x.mag) * Pow2(shift)
  {
    MulAbs(x, Pow2(shift));
  }

  /** subShifted320: x - y*2^shift. */
  method SubShifted(x: S320, y: S320, shift: nat) returns (out: S320, ok: bool)
    ensures Abs(SVal(y) * Pow2(shift)) >= Limit() ==> !ok
    ensures Abs(SVal(y) * Pow2(shift)) < Limit() ==> (ok <==> Abs(SVal(x) - SVal(y) * Pow2(shift)) < Limit())
    ensures ok ==> SVal(out) == SVal(x) - SVal(y) * Pow2(shift)
    ensures ok && Normal(x) ==> Normal(out)
  {
    MulAbs(y, Pow2(shift));
    hide Weight, Val, Pow2;
    var shifted, overflow := ShlExact(y.mag, shift);
    if overflow {
      return ZERO, false;
    }
    out, ok := Difference(x, shifted, y.neg);
  }

  /** addShifted320: x + y*2^shift. */
  method AddShifted(x: S320, y: S320, shift: nat) returns (out: S320, ok: bool)
    ensures Abs(SVal(y) * Pow2(shift)) >= Limit() ==> !ok
    ensures Abs(SVal(y) * Pow2(shift)) < Limit() ==> (ok <==> Abs(SVal(x) + SVal(y) * Pow2(shift)) < Limit())
    ensures ok ==> SVal(out) == SVal(x) + SVal(y) * Pow2(shift)
    ensures ok && Normal(x) ==> Normal(out)
  {
    MulAbs(y, Pow2(shift));
    hide Weight, Val, Pow2;
    var shifted, overflow := ShlExact(y.mag, shift);
    if overflow {
      return ZERO, false;
    }
    out, ok := SubSigned(x, Negate(S320(shifted, y.neg)));
  }

  /** addLehmerProducts: the sum of two sign-and-magnitude products, never producing a negative zero. */
  method AddProducts(left: U320, leftNegative: bool, right: U320, rightNegative: bool) returns (out: S320, ok: bool)
    ensures var s := SVal(S320(left, leftNegative)) + SVal(S320(right, rightNegative));
            && (ok <==> Abs(s) < Limit())
            && (ok ==> SVal(out) == s && (out.neg <==> s < 0))
  {
    hide Weight, Val;
    IsZeroVal(left);
    IsZeroVal(right);
    AbsVal(S320(left, leftNegative));
    AbsVal(S320(right, rightNegative));
    ZeroVal();
    if IsZero(left) {
      if IsZero(right) {
        return ZERO, true;
      }
      return S320(right, rightNegative), true;
    }
    if IsZero(right) {
      return S320(left, leftNegative), true;
    }
    if leftNegative == rightNegative {
      var sum, carry := AddLimbs(left, right);
      return S320(sum, leftNegative), carry == 0;
    }
    var c := CmpLimbs(left, right);
    if c < 0 {
      var d, borrow := SubLimbs(right, left);
      return S320(d, rightNegative), borrow == 0;
    }
    if c == 0 {
      return ZERO, true;
    }
    var d, borrow := SubLimbs(left, right);
    return S320(d, leftNegative), borrow == 0;
  }
}
