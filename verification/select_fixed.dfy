/** SelectFixed (internal/heea8l/fixed.go): the 256-bit search refines the unbounded oracle, and none
    of its overflow panics can be reached. A panic is a precondition its callers discharge. */
module SelectFixedWidth {
  import opened Arith
  import opened Words
  import opened Fixed256
  import opened Divide256
  import opened Euclid
  import opened Selection
  import opened Semiconvergent
  import opened Principal
  import opened Unit

  // ---------------------------------------------------------------- signed256

  /** Zero is never negative. */
  predicate Canonical(c: SignedCoefficient) {
    c.negative ==> !IsZero(c.limbs)
  }

  lemma CanonicalValue(c: SignedCoefficient)
    ensures Abs(CoefficientValue(c)) == Val(c.limbs) < Weight(4)
    ensures Canonical(c) ==> (c.negative <==> CoefficientValue(c) < 0)
    ensures IsZero(c.limbs) <==> CoefficientValue(c) == 0
  {
    IsZeroVal(c.limbs);
    ValBound(c.limbs);
  }

  function NewSigned256(mag: U256, neg: bool): (c: SignedCoefficient)
    ensures Canonical(c) && CoefficientValue(c) == if neg then -(Val(mag) as int) else Val(mag)
  {
    IsZeroVal(mag);
    SignedCoefficient(mag, neg && !IsZero(mag))
  }

  function Negate256(x: SignedCoefficient): (c: SignedCoefficient)
    requires Canonical(x)
    ensures Canonical(c) && CoefficientValue(c) == -CoefficientValue(x)
  {
    IsZeroVal(x.limbs);
    if IsZero(x.limbs) then x else SignedCoefficient(x.limbs, !x.negative)
  }

  method AddSigned256(x: SignedCoefficient, y: SignedCoefficient) returns (z: SignedCoefficient)
    requires Canonical(x) && Canonical(y)
    requires x.negative == y.negative ==> Val(x.limbs) + Val(y.limbs) < Weight(4)
    ensures Canonical(z) && CoefficientValue(z) == CoefficientValue(x) + CoefficientValue(y)
  {
    hide Val, Weight, Canonical;
    IsZeroVal(NO_COEFFICIENT.limbs);
    if x.negative == y.negative {
      var mag, carry := AddLimbs(x.limbs, y.limbs);
      assert carry == 0;
      return NewSigned256(mag, x.negative);
    }
    var c := CmpLimbs(x.limbs, y.limbs);
    if c < 0 {
      var mag, borrow := SubLimbs(y.limbs, x.limbs);
      return NewSigned256(mag, y.negative);
    }
    if c == 0 {
      CanonicalZero();
      return NO_COEFFICIENT;
    }
    var mag, borrow := SubLimbs(x.limbs, y.limbs);
    return NewSigned256(mag, x.negative);
  }

  lemma CanonicalZero()
    ensures Canonical(NO_COEFFICIENT)
  {}

  method MulSigned256(x: SignedCoefficient, y: U256) returns (z: SignedCoefficient)
    requires Canonical(x) && Val(x.limbs) * Val(y) < Weight(4)
    ensures Canonical(z) && CoefficientValue(z) == CoefficientValue(x) * Val(y)
    ensures Val(z.limbs) == Val(x.limbs) * Val(y)
  {
    SignProduct(Val(x.limbs), Val(y));
    hide Val, Weight;
    var mag, overflow := Mul256(x.limbs, y);
    assert !overflow;
    return NewSigned256(mag, x.negative);
  }

  lemma SignProduct(v: int, m: int)
    ensures (-v) * m == -(v * m)
  {}

  // ---------------------------------------------------------------- comparing candidates

  method CompareSigned256(x: SignedCoefficient, y: SignedCoefficient) returns (c: int)
    requires Canonical(x) && Canonical(y)
    ensures c > 0 <==> CoefficientValue(x) > CoefficientValue(y)
  {
    CanonicalValue(x);
    CanonicalValue(y);
    hide Val;
    if x.negative != y.negative {
      return if x.negative then -1 else 1;
    }
    c := CmpLimbs(x.limbs, y.limbs);
    if x.negative {
      c := -c;
    }
  }

  function CandidateValue(c: FixedCandidate): Candidate {
    Candidate(CoefficientValue(c.rho), CoefficientValue(c.tau))
  }

  predicate CanonicalCandidate(c: FixedCandidate) {
    Canonical(c.rho) && Canonical(c.tau)
  }

  /** fixedCandidate.bitLen. */
  method CandidateBits(c: FixedCandidate) returns (n: nat)
    ensures n == Width(CandidateValue(c))
  {
    CanonicalValue(c.rho);
    CanonicalValue(c.tau);
    hide Val, BitLen;
    var rhoBits := BitLenLimbs(c.rho.limbs);
    var tauBits := BitLenLimbs(c.tau.limbs);
    return if rhoBits > tauBits then rhoBits else tauBits;
  }

  method Max256(x: U256, y: U256) returns (m: U256)
    ensures Val(m) == Max(Val(x), Val(y))
  {
    var c := CmpLimbs(x, y);
    return if c >= 0 then x else y;
  }

  /** betterFixed decides the oracle's order. */
  method BetterFixed(x: FixedCandidate, y: FixedCandidate) returns (better: bool)
    requires CanonicalCandidate(x) && CanonicalCandidate(y)
    ensures better <==> Better(CandidateValue(x), CandidateValue(y))
  {
    CanonicalValue(x.rho);
    CanonicalValue(x.tau);
    CanonicalValue(y.rho);
    CanonicalValue(y.tau);
    hide Val, BitLen, Weight, Width;
    var xWidth := CandidateBits(x);
    var yWidth := CandidateBits(y);
    if xWidth != yWidth {
      return xWidth < yWidth;
    }
    var xMax := Max256(x.rho.limbs, x.tau.limbs);
    var yMax := Max256(y.rho.limbs, y.tau.limbs);
    var c := CmpLimbs(xMax, yMax);
    if c != 0 {
      return c < 0;
    }
    var xSum, xCarry := AddLimbs(x.rho.limbs, x.tau.limbs);
    var ySum, yCarry := AddLimbs(y.rho.limbs, y.tau.limbs);
    ValBound(xSum);
    ValBound(ySum);
    if xCarry != yCarry {
      return xCarry < yCarry;
    }
    c := CmpLimbs(xSum, ySum);
    if c != 0 {
      return c < 0;
    }
    c := CmpLimbs(x.tau.limbs, y.tau.limbs);
    if c != 0 {
      return c < 0;
    }
    c := CompareSigned256(x.tau, y.tau);
    return c > 0;
  }

  // ---------------------------------------------------------------- the best candidate so far

  datatype BestFixed = BestFixed(found: bool, candidate: FixedCandidate) {
    function Value(): Best {
      if found then Some(CandidateValue(candidate)) else None
    }
  }

  ghost predicate Good(best: BestFixed) {
    CanonicalCandidate(best.candidate) && (best.found ==> best.candidate.epsilon == 1)
  }

  /** considerFixed at n = 8L. */
  method ConsiderFixed(best: BestFixed, rho: SignedCoefficient, tau: SignedCoefficient) returns (next: BestFixed)
    requires Good(best) && Canonical(rho) && Canonical(tau)
    ensures Good(next)
    ensures next.Value() == Consider(ByTable, best.Value(), CoefficientValue(rho), CoefficientValue(tau))
  {
    CanonicalValue(tau);
    OddWord(tau.limbs);
    OddAbs(CoefficientValue(tau));
    hide Val, Weight, PassesTable, Better;
    if IsZero(tau.limbs) || tau.limbs[0] % 2 == 0 {
      return best;
    }
    var unit := CoprimeToModulus(tau.limbs, FIXED_MODULUS);
    if !unit {
      return best;
    }
    var candidate := FixedCandidate(rho, tau, 1);
    if !best.found {
      return BestFixed(true, candidate);
    }
    var better := BetterFixed(candidate, best.candidate);
    return if better then BestFixed(true, candidate) else best;
  }

  lemma OddAbs(t: int)
    ensures t % 2 == 1 <==> Abs(t) % 2 == 1
  {}

  // ---------------------------------------------------------------- nearby multipliers

  function Vals(m: seq<U256>): (v: seq<int>)
    ensures |v| == |m|
  {
    seq(|m|, i requires 0 <= i < |m| => Val(m[i]))
  }

  /** The low bits decide the parity of t0 - q*t1. */
  lemma ParityShortcut(t0: SignedCoefficient, t1: SignedCoefficient, q: U256)
    ensures (CoefficientValue(t0) - Val(q) * CoefficientValue(t1)) % 2
         == (t0.limbs[0] % 2 + (q[0] % 2) * (t1.limbs[0] % 2)) % 2
  {
    hide Val;
    OddWord(t0.limbs);
    OddWord(t1.limbs);
    OddWord(q);
    ParityArith(CoefficientValue(t0), CoefficientValue(t1), Val(q), t0.limbs[0], t1.limbs[0], q[0]);
  }

  lemma ParityArith(a: int, b: int, q: int, a0: int, b0: int, q0: int)
    requires a % 2 == a0 % 2 && b % 2 == b0 % 2 && q % 2 == q0 % 2
    ensures (a - q * b) % 2 == (a0 % 2 + (q0 % 2) * (b0 % 2)) % 2
  {
    var i, j := q / 2, b / 2;
    assert q == 2 * i + q % 2 && b == 2 * j + b % 2;
    assert q * b == 2 * (2 * (i * j) + i * (b % 2) + j * (q % 2)) + (q % 2) * (b % 2);
  }

  /** fixedMultipliers.add: thirteen slots always suffice for the callers. */
  method AddFixed(m: seq<U256>, q: U256, a: U256, t0: SignedCoefficient, t1: SignedCoefficient) returns (out: seq<U256>)
    requires |m| < 13 && Canonical(t0) && Canonical(t1)
    ensures |out| <= |m| + 1
    ensures Vals(out) == AddMultiplier(Vals(m), Val(q), Val(a), CoefficientValue(t0), CoefficientValue(t1))
  {
    ParityShortcut(t0, t1, q);
    ZeroRow(t0, q, t1);
    hide Val, CoefficientValue;
    var c := CmpLimbs(q, a);
    if c > 0 {
      return m;
    }
    if (IsZero(t0.limbs) && IsZero(q)) || (t0.limbs[0] % 2 + (q[0] % 2) * (t1.limbs[0] % 2)) % 2 == 0 {
      return m;
    }
    for i := 0 to |m|
      invariant forall j :: 0 <= j < i ==> Val(m[j]) != Val(q)
    {
      if m[i] == q {
        assert Vals(m)[i] == Val(q);
        return m;
      }
      if Val(m[i]) == Val(q) {
        ValInjective(m[i], q);
      }
    }
    assert Vals(m + [q]) == Vals(m) + [Val(q)];
    return m + [q];
  }

  /** The all-zero row is even, so the explicit zero test adds nothing to the parity test. */
  lemma ZeroRow(t0: SignedCoefficient, q: U256, t1: SignedCoefficient)
    ensures IsZero(t0.limbs) && IsZero(q) ==> (t0.limbs[0] % 2 + (q[0] % 2) * (t1.limbs[0] % 2)) % 2 == 0
  {}

  /** The crossing point without overflow. */
  method CenterFixed(r0: U256, r1: U256, t0: SignedCoefficient, t1: SignedCoefficient, a: U256) returns (center: U256)
    requires Canonical(t0) && Canonical(t1) && Val(r1) > 0
    requires Val(r1) + Val(t1.limbs) < Weight(4)
    ensures Val(center) == Center(Val(r0), Val(r1), CoefficientValue(t0), CoefficientValue(t1), Val(a))
    ensures Val(center) <= Val(a)
  {
    CanonicalValue(t0);
    CanonicalValue(t1);
    center := Zeros(4);
    ValZeros(4);
    hide Val, Weight, CoefficientValue, Abs;
    var c := CmpLimbs(r0, t0.limbs);
    if c > 0 {
      var numerator, borrow := SubLimbs(r0, t0.limbs);
      var denominator, carry := AddLimbs(r1, t1.limbs);
      if carry == 0 {
        var remainder;
        center, remainder := DivMod256(numerator, denominator);
        var over := CmpLimbs(center, a);
        if over > 0 {
          center := a;
        }
      }
    }
  }

  method NearbyMultipliersFixed(r0: U256, r1: U256, t0: SignedCoefficient, t1: SignedCoefficient, a: U256)
    returns (m: seq<U256>)
    requires Canonical(t0) && Canonical(t1) && Val(r1) > 0
    requires Val(r1) + Val(t1.limbs) < Weight(4) && Val(a) + 3 < Weight(4)
    ensures |m| <= 13
    ensures Vals(m) == Multipliers(Val(r0), Val(r1), CoefficientValue(t0), CoefficientValue(t1), Val(a))
  {
    hide Val, Weight, CoefficientValue, AddMultiplier, Center;
    ghost var v0, v1, va := CoefficientValue(t0), CoefficientValue(t1), Val(a);
    m := [];
    assert Vals(m) == [];
    for d := 0 to 3
      invariant |m| <= 2 * d
      invariant Ends(Vals(m), d, va, v0, v1) == Ends([], 0, va, v0, v1)
    {
      m := AddEnds(m, d, a, t0, t1);
    }
    var center := CenterFixed(r0, r1, t0, t1, a);
    for d := -3 to 4
      invariant |m| <= 9 + d
      invariant Window(Vals(m), d, Val(center), va, v0, v1)
             == Multipliers(Val(r0), Val(r1), v0, v1, va)
    {
      m := AddNear(m, d, center, a, t0, t1);
    }
  }

  lemma SmallWord(d: u64)
    ensures Val([d, 0, 0, 0]) == d
  {
    Val4([d, 0, 0, 0]);
  }

  lemma Negative(qs: seq<int>, q: int, a: int, t0: int, t1: int)
    ensures q < 0 ==> AddMultiplier(qs, q, a, t0, t1) == qs
  {}

  method AddEnds(before: seq<U256>, d: u64, a: U256, t0: SignedCoefficient, t1: SignedCoefficient) returns (m: seq<U256>)
    requires |before| < 12 && Canonical(t0) && Canonical(t1)
    ensures |m| <= |before| + 2
    ensures var v0, v1, va := CoefficientValue(t0), CoefficientValue(t1), Val(a);
            Vals(m) == AddMultiplier(AddMultiplier(Vals(before), d, va, v0, v1), va - d, va, v0, v1)
  {
    SmallWord(d);
    hide Val, CoefficientValue, AddMultiplier;
    m := AddFixed(before, [d, 0, 0, 0], a, t0, t1);
    var c := CmpLimbs(a, [d, 0, 0, 0]);
    if c >= 0 {
      var q, borrow := SubLimbs(a, [d, 0, 0, 0]);
      m := AddFixed(m, q, a, t0, t1);
    } else {
      Negative(Vals(m), Val(a) - d, Val(a), CoefficientValue(t0), CoefficientValue(t1));
    }
  }

  method AddNear(before: seq<U256>, d: int, center: U256, a: U256, t0: SignedCoefficient, t1: SignedCoefficient)
    returns (m: seq<U256>)
    requires |before| < 13 && -3 <= d <= 3 && Canonical(t0) && Canonical(t1)
    requires Val(center) + 3 < Weight(4)
    ensures |m| <= |before| + 1
    ensures Vals(m) == AddMultiplier(Vals(before), Val(center) + d, Val(a), CoefficientValue(t0), CoefficientValue(t1))
  {
    SmallWord(Abs(d));
    hide Val, CoefficientValue, AddMultiplier, Weight;
    m := before;
    if d < 0 {
      var down: U256 := [-d, 0, 0, 0];
      var c := CmpLimbs(center, down);
      if c >= 0 {
        var q, borrow := SubLimbs(center, down);
        m := AddFixed(m, q, a, t0, t1);
      } else {
        Negative(Vals(m), Val(center) + d, Val(a), CoefficientValue(t0), CoefficientValue(t1));
      }
      return;
    }
    var q, carry := AddLimbs(center, [d, 0, 0, 0]);
    assert carry == 0;
    m := AddFixed(m, q, a, t0, t1);
  }

  // ---------------------------------------------------------------- the search loop

  /** One intermediate row: q*r1 <= r0 and both coefficients stay inside the modulus. */
  method ConsiderIntermediate(best: BestFixed, r0: U256, r1: U256, t0: SignedCoefficient, t1: SignedCoefficient,
                              q: U256, a: U256, aProduct: U256, ghost k: int) returns (next: BestFixed)
    requires Good(best) && Canonical(t0) && Canonical(t1)
    requires Linked(Row(Val(r0), CoefficientValue(t0)), Row(Val(r1), CoefficientValue(t1)), N, k) && Val(r1) > 0
    requires Val(a) == Val(r0) / Val(r1) && Val(aProduct) == Val(a) * Val(r1) && Val(q) <= Val(a)
    ensures Good(next)
    ensures next.Value() == Consider(ByTable, best.Value(), Val(r0) - Val(q) * Val(r1),
                                     CoefficientValue(t0) - Val(q) * CoefficientValue(t1))
  {
    CanonicalValue(t0);
    CanonicalValue(t1);
    ValBound(r0);
    RowFits(Row(Val(r0), CoefficientValue(t0)), Row(Val(r1), CoefficientValue(t1)), Val(q), k);
    hide Val, Weight, Linked, Consider, CoefficientValue, Abs;
    var qr1, overflow := aProduct, false;
    if q != a {
      qr1, overflow := Mul256(q, r1);
    }
    assert !overflow && Val(qr1) == Val(q) * Val(r1);
    var rho, borrow := SubLimbs(r0, qr1);
    var product := MulSigned256(t1, q);
    AddsFit(t0, Negate256(product));
    var tau := AddSigned256(t0, Negate256(product));
    NonNegative(rho);
    next := ConsiderFixed(best, NewSigned256(rho, false), tau);
  }

  lemma NonNegative(rho: U256)
    ensures CoefficientValue(NewSigned256(rho, false)) == Val(rho)
  {}

  lemma AddsFit(x: SignedCoefficient, y: SignedCoefficient)
    requires Abs(CoefficientValue(x)) + Abs(CoefficientValue(y)) < Weight(4)
    ensures Val(x.limbs) + Val(y.limbs) < Weight(4)
  {}

  lemma RowFits(x: Row, y: Row, q: nat, k: int)
    requires Linked(x, y, N, k) && y.rho > 0 && q <= x.rho / y.rho
    ensures q * y.rho <= x.rho
    ensures Abs(y.tau) * q < Weight(4) && Abs(x.tau) + Abs(-(y.tau * q)) < Weight(4)
    ensures y.tau * q == q * y.tau
  {
    IntermediateBound(x, y, q, N, k);
    ConstantValues();
    WeightWide();
    AbsProduct(y.tau, q);
  }

  /** One pass of bestFixedForModulus over the intermediate rows. */
  method SearchStepFixed(before: BestFixed, r0: U256, r1: U256, t0: SignedCoefficient, t1: SignedCoefficient,
                         a: U256, r2: U256, ghost k: int) returns (best: BestFixed)
    requires Good(before) && Canonical(t0) && Canonical(t1)
    requires Linked(Row(Val(r0), CoefficientValue(t0)), Row(Val(r1), CoefficientValue(t1)), N, k)
    requires 0 < Val(r1) < Val(r0) <= N
    requires Val(a) == Val(r0) / Val(r1) && Val(r2) == Val(r0) % Val(r1)
    ensures Good(best)
    ensures best.Value() == ConsiderStep(ByTable, before.Value(), Row(Val(r0), CoefficientValue(t0)), Row(Val(r1), CoefficientValue(t1)))
  {
    ghost var x, y := Row(Val(r0), CoefficientValue(t0)), Row(Val(r1), CoefficientValue(t1));
    StepBounds(x, y, N, k);
    ConstantValues();
    WeightWide();
    CanonicalValue(t1);
    DivMod(Val(r0), Val(r1));
    MultipliersIn(x.rho, y.rho, x.tau, y.tau, x.rho / y.rho);
    NonNegative(r1);
    hide Val, Weight, Linked, Consider, CoefficientValue, Abs, Multipliers;
    best := ConsiderFixed(before, NewSigned256(r1, false), t1);
    var aProduct, borrow := SubLimbs(r0, r2);
    assert borrow == 0;
    var m := NearbyMultipliersFixed(r0, r1, t0, t1, a);
    best := ConsiderAllFixed(best, m, r0, r1, t0, t1, a, aProduct, k);
  }

  /** The inner loop over the retained multipliers. */
  method ConsiderAllFixed(before: BestFixed, m: seq<U256>, r0: U256, r1: U256, t0: SignedCoefficient,
                          t1: SignedCoefficient, a: U256, aProduct: U256, ghost k: int) returns (best: BestFixed)
    requires Good(before) && Canonical(t0) && Canonical(t1)
    requires Linked(Row(Val(r0), CoefficientValue(t0)), Row(Val(r1), CoefficientValue(t1)), N, k) && Val(r1) > 0
    requires Val(a) == Val(r0) / Val(r1) && Val(aProduct) == Val(a) * Val(r1)
    requires InInterval(Vals(m), Val(a))
    ensures Good(best)
    ensures best.Value() == ConsiderAll(ByTable, before.Value(), Vals(m),
                                        Row(Val(r0), CoefficientValue(t0)), Row(Val(r1), CoefficientValue(t1)))
  {
    hide Val, Weight, Linked, Consider, CoefficientValue, Abs;
    ghost var x, y := Row(Val(r0), CoefficientValue(t0)), Row(Val(r1), CoefficientValue(t1));
    best := before;
    assert Vals(m)[0..] == Vals(m);
    for i := 0 to |m|
      invariant Good(best)
      invariant ConsiderAll(ByTable, best.Value(), Vals(m)[i..], x, y) == ConsiderAll(ByTable, before.Value(), Vals(m), x, y)
    {
      assert Vals(m)[i..][1..] == Vals(m)[i + 1..] && Vals(m)[i] == Val(m[i]);
      best := ConsiderIntermediate(best, r0, r1, t0, t1, m[i], a, aProduct, k);
    }
  }

  /** No sum formed around one pass exceeds the modulus by more than the window, so none leaves 256 bits. */
  lemma StepBounds(x: Row, y: Row, n: nat, k: int)
    requires Linked(x, y, n, k) && 0 < y.rho < x.rho <= n
    ensures y.rho + Abs(y.tau) <= n && x.rho / y.rho <= n
  {
    MulNonNeg(y.rho, Abs(x.tau));
    HalfBound(x.rho, Abs(y.tau), y.rho, n);
    MulMono(x.rho / y.rho, 1, y.rho);
    DivMod(x.rho, y.rho);
  }

  /** r0*|t1| <= n with r1 < r0: the denominator r1+|t1| is at most n. */
  lemma HalfBound(r0: nat, t: nat, r1: nat, n: nat)
    requires r1 < r0 && r0 * t <= n && r0 <= n
    ensures r1 + t <= n
  {
    if t >= 1 {
      assert (r0 - 1) * (t - 1) >= 0 by { MulNonNeg(r0 - 1, t - 1); }
      assert (r0 - 1) * (t - 1) == r0 * t - r0 - t + 1;
    }
  }

  /** t0 - a*t1, the coefficient of the next principal row. */
  method NextCoefficient(t0: SignedCoefficient, t1: SignedCoefficient, a: U256, ghost x: Row, ghost y: Row, ghost k: int)
    returns (t2: SignedCoefficient)
    requires Canonical(t0) && Canonical(t1) && x.tau == CoefficientValue(t0) && y.tau == CoefficientValue(t1)
    requires Linked(x, y, N, k) && y.rho > 0 && Val(a) == x.rho / y.rho
    ensures Canonical(t2) && CoefficientValue(t2) == Next(x, y).tau
  {
    CanonicalValue(t0);
    CanonicalValue(t1);
    RowFits(x, y, Val(a), k);
    hide Val, Weight, Linked, CoefficientValue, Abs;
    var product := MulSigned256(t1, a);
    AddsFit(t0, Negate256(product));
    t2 := AddSigned256(t0, Negate256(product));
  }

  method StartCoefficients() returns (t0: SignedCoefficient, t1: SignedCoefficient)
    ensures Canonical(t0) && Canonical(t1) && CanonicalCandidate(NO_CANDIDATE)
    ensures t0 == NO_COEFFICIENT && CoefficientValue(t0) == 0 && CoefficientValue(t1) == 1
  {
    SmallWord(1);
    IsZeroVal(NO_COEFFICIENT.limbs);
    t0, t1 := NO_COEFFICIENT, NewSigned256([1, 0, 0, 0], false);
  }

  method BestFixedForModulus(k: U256, batched: bool) returns (best: BestFixed)
    requires Val(k) < L
    ensures best.Value() == BestCandidate(ByTable, Val(k)) && Good(best)
  {
    hide Val, Weight, Linked, CoefficientValue, ConsiderStep;
    best := BestFixed(false, NO_CANDIDATE);
    IsZeroVal(k);
    ConstantValues();
    var t0, t1 := StartCoefficients();
    if IsZero(k) {
      return BestFixed(true, FixedCandidate(t0, t1, 1));
    }
    var r0, r1 := FIXED_MODULUS, k;
    var lookahead := new QuotientLookahead();
    StartLinked(N, Val(k));
    IsZeroVal(r1);
    while !IsZero(r1)
      invariant lookahead.Valid() && fresh(lookahead)
      invariant Canonical(t0) && Canonical(t1) && Good(best)
      invariant IsZero(r1) <==> Val(r1) == 0
      invariant Val(r1) < Val(r0) <= N
      invariant Linked(Row(Val(r0), CoefficientValue(t0)), Row(Val(r1), CoefficientValue(t1)), N, Val(k))
      invariant BestFrom(ByTable, best.Value(), Row(Val(r0), CoefficientValue(t0)), Row(Val(r1), CoefficientValue(t1)))
             == BestCandidate(ByTable, Val(k))
      decreases Val(r1)
    {
      ghost var x, y := Row(Val(r0), CoefficientValue(t0)), Row(Val(r1), CoefficientValue(t1));
      var a, r2;
      if batched {
        a, r2 := lookahead.Next(r0, r1);
      } else {
        a, r2 := DivMod256(r0, r1);
      }
      NextLinked(x, y, N, Val(k));
      best := SearchStepFixed(best, r0, r1, t0, t1, a, r2, Val(k));
      var t2 := NextCoefficient(t0, t1, a, x, y, Val(k));
      r0, r1 := r1, r2;
      t0, t1 := t1, t2;
      IsZeroVal(r1);
    }
  }

  /** selectFixedMode. */
  method SelectFixedMode(k: U256, limit: nat, batched: bool) returns (selection: FixedSelection)
    requires Val(k) < L && SupportedWidth(limit)
    ensures Meaning(selection) == SelectChoice(ByTable, Val(k), limit)
  {
    hide Val, BestCandidate, BitLen, Width;
    var best := BestFixedForModulus(k, batched);
    if !best.found {
      return Reject(WidthExceeded);
    }
    var bits := CandidateBits(best.candidate);
    if bits > limit {
      return FixedSelection(best.candidate, false, WidthExceeded);
    }
    return FixedSelection(best.candidate, true, NoFallback);
  }
}
