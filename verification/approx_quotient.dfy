/** SelectApproxQuotient (internal/heea8l/approx_quotient.go): power-of-two quotients on signed rows. */
module ApproxQuotient {
  import opened Arith
  import opened Words
  import opened Fixed256
  import opened Euclid
  import opened Signed320
  import opened Selection
  import opened Principal

  const APPROX_CAP: nat := 384

  /** A row whose remainder may be negative. */
  datatype SignedRow = SignedRow(rho: int, tau: int)

  predicate SameSign(a: int, b: int) {
    (a < 0) == (b < 0)
  }

  /** x -/+ 2^e*y with the sign that shrinks the remainder. */
  function Approx(x: SignedRow, y: SignedRow, e: nat): SignedRow {
    if SameSign(x.rho, y.rho) then SignedRow(x.rho - y.rho * Pow2(e), x.tau - y.tau * Pow2(e))
    else SignedRow(x.rho + y.rho * Pow2(e), x.tau + y.tau * Pow2(e))
  }

  /** What the checked signed updates demand of a step. */
  predicate Representable(x: SignedRow, y: SignedRow, e: nat) {
    && Abs(y.rho * Pow2(e)) < Limit() && Abs(y.tau * Pow2(e)) < Limit()
    && Abs(Approx(x, y, e).rho) < Weight(4) && Abs(Approx(x, y, e).tau) < Weight(4)
  }

  predicate AdmissibleSigned(row: SignedRow, limit: nat) {
    Admissible(Row(Abs(row.rho), row.tau), limit)
  }

  function AcceptedSigned(row: SignedRow): Choice { Choice(row.rho, row.tau, 1, true, NoFallback) }

  /** The schedule: swap the longer remainder first, cancel its top bit, keep the two shorter rows. */
  function ApproxRun(x: SignedRow, y: SignedRow, limit: nat, iterations: nat): Choice
    decreases APPROX_CAP - iterations
  {
    if y.rho == 0 || iterations >= APPROX_CAP then Rejected(WidthExceeded)
    else
      var swap := BitLen(Abs(x.rho)) < BitLen(Abs(y.rho));
      ApproxStep(if swap then y else x, if swap then x else y, limit, iterations)
  }

  function ApproxStep(a: SignedRow, b: SignedRow, limit: nat, iterations: nat): Choice
    requires iterations < APPROX_CAP
    decreases APPROX_CAP - iterations, 0
  {
    var e := if BitLen(Abs(a.rho)) >= BitLen(Abs(b.rho)) then BitLen(Abs(a.rho)) - BitLen(Abs(b.rho)) else 0;
    var next := Approx(a, b, e);
    if !Representable(a, b, e) then Rejected(WidthExceeded)
    else if AdmissibleSigned(next, limit) then AcceptedSigned(next)
    else if BitLen(Abs(next.rho)) > BitLen(Abs(b.rho)) then ApproxRun(next, b, limit, iterations + 1)
    else ApproxRun(b, next, limit, iterations + 1)
  }

  function ApproxChoice(k: nat, limit: nat): Choice {
    if k == 0 then Accepted(Row(0, 1))
    else if Admissible(Row(k, 1), limit) then Accepted(Row(k, 1))
    else ApproxRun(SignedRow(N, 0), SignedRow(k, 1), limit, 0)
  }

  // ---------------------------------------------------------------- soundness

  ghost predicate ExactRow(x: SignedRow, k: int) {
    Congruent(x.rho, x.tau * k, N)
  }

  lemma ApproxExact(x: SignedRow, y: SignedRow, e: nat, k: int)
    requires ExactRow(x, k) && ExactRow(y, k)
    ensures ExactRow(Approx(x, y, e), k)
  {
    var q := Pow2(e);
    hide Pow2;
    SwapFactors(y.rho, q);
    SwapFactors(y.tau, q);
    if SameSign(x.rho, y.rho) {
      ReduceCongruent(x.rho, x.tau, y.rho, y.tau, q, N, k);
    } else {
      NegFactors(y.rho, q);
      NegFactors(y.tau, q);
      ReduceCongruent(x.rho, x.tau, y.rho, y.tau, -(q as int), N, k);
    }
  }

  lemma SwapFactors(a: int, q: int)
    ensures a * q == q * a
  {}

  lemma NegFactors(a: int, q: int)
    ensures -q * a == -(a * q)
  {}

  lemma {:induction false} ApproxRunSound(x: SignedRow, y: SignedRow, limit: nat, iterations: nat, k: int)
    requires ExactRow(x, k) && ExactRow(y, k)
    ensures Sound(ApproxRun(x, y, limit, iterations), k, limit)
    decreases APPROX_CAP - iterations
  {
    hide Approx, Congruent, BitLen, Representable;
    if y.rho != 0 && iterations < APPROX_CAP {
      var swap := BitLen(Abs(x.rho)) < BitLen(Abs(y.rho));
      var a, b := if swap then y else x, if swap then x else y;
      var e := if BitLen(Abs(a.rho)) >= BitLen(Abs(b.rho)) then BitLen(Abs(a.rho)) - BitLen(Abs(b.rho)) else 0;
      var next := Approx(a, b, e);
      ApproxExact(a, b, e, k);
      if Representable(a, b, e) && !AdmissibleSigned(next, limit) {
        ApproxRunSound(next, b, limit, iterations + 1, k);
        ApproxRunSound(b, next, limit, iterations + 1, k);
      }
    }
  }

  lemma ApproxSound(k: nat, limit: nat)
    requires SupportedWidth(limit)
    ensures Sound(ApproxChoice(k, limit), k, limit)
  {
    CongruentBy(N, 0 * k, N, 1);
    CongruentBy(k, 1 * k, N, 0);
    if k == 0 { CongruentBy(0, 1 * k, N, 0); }
    ApproxRunSound(SignedRow(N, 0), SignedRow(k, 1), limit, 0, k);
  }

  // ---------------------------------------------------------------- the loop

  datatype SignedWideRow = SignedWideRow(rho: S320, tau: S320) {
    function Value(): SignedRow { SignedRow(SVal(rho), SVal(tau)) }
  }

  /** approxQuotientCandidate. */
  method ApproxCandidate(row: SignedWideRow, limit: nat) returns (candidate: FixedCandidate, ok: bool)
    requires Abs(SVal(row.rho)) < Weight(4)
    ensures ok <==> AdmissibleSigned(row.Value(), limit)
    ensures ok ==> Meaning(FixedSelection(candidate, true, NoFallback)) == AcceptedSigned(row.Value())
  {
    AbsVal(row.rho);
    AbsVal(row.tau);
    WeightWide();
    FourWords(row.rho.mag);
    FourWords(row.tau.mag);
    hide Val, Weight, BitLen, PassesTable;
    candidate := NO_CANDIDATE;
    var rhoBits := BitLenLimbs(row.rho.mag);
    var tauBits := BitLenLimbs(row.tau.mag);
    if rhoBits > limit || tauBits > limit {
      return NO_CANDIDATE, false;
    }
    ok := UnitMultiplier(row.tau);
    if !ok {
      return;
    }
    candidate := FixedCandidate(External(row.rho), External(row.tau), 1);
  }

  /** One checked update of both coefficients. */
  method ApproxUpdate(a: SignedWideRow, b: SignedWideRow, shift: nat) returns (next: SignedWideRow, ok: bool)
    requires Normal(a.rho) && Normal(b.rho)
    ensures ok <==> Representable(a.Value(), b.Value(), shift)
    ensures ok ==> next.Value() == Approx(a.Value(), b.Value(), shift) && Normal(next.rho)
  {
    NormalVal();
    FourBelow();
    hide Val, Weight, Pow2, Normal, Abs;
    var rho, tau, fits;
    next, ok := a, false;
    if a.rho.neg == b.rho.neg {
      rho, fits := SubShifted(a.rho, b.rho, shift);
      if !fits {
        return;
      }
      tau, fits := SubShifted(a.tau, b.tau, shift);
    } else {
      rho, fits := AddShifted(a.rho, b.rho, shift);
      if !fits {
        return;
      }
      tau, fits := AddShifted(a.tau, b.tau, shift);
    }
    if !fits {
      return;
    }
    TopWord(rho);
    TopWord(tau);
    if rho.mag[4] != 0 || tau.mag[4] != 0 {
      return;
    }
    next, ok := SignedWideRow(rho, tau), true;
  }

  lemma FourBelow()
    ensures Weight(4) < Limit()
  {
    WeightWide();
  }

  lemma TopWord(t: S320)
    ensures t.mag[4] == 0 <==> Abs(SVal(t)) < Weight(4)
  {
    FourWords(t.mag);
    AbsVal(t);
  }

  /** The main loop from the two starting rows. */
  method ApproxLoop(x0: SignedWideRow, y0: SignedWideRow, limit: nat) returns (selection: FixedSelection)
    requires Normal(x0.rho) && Normal(y0.rho)
    requires Abs(SVal(x0.rho)) < Weight(4) && Abs(SVal(y0.rho)) < Weight(4)
    ensures Meaning(selection) == ApproxRun(x0.Value(), y0.Value(), limit, 0)
  {
    hide Val, SVal, Weight, BitLen, Admissible, Meaning, Approx, Representable, Limit, Abs, ApproxRun, ApproxStep, Normal;
    AbsVal(x0.rho);
    AbsVal(y0.rho);
    var x, y := x0, y0;
    var xBits := BitLenLimbs(x.rho.mag);
    var yBits := BitLenLimbs(y.rho.mag);
    var iterations := 0;
    IsZeroSigned(y.rho);
    while !IsZero(y.rho.mag) && iterations < APPROX_CAP
      invariant Normal(x.rho) && Normal(y.rho)
      invariant xBits == BitLen(Abs(SVal(x.rho))) && yBits == BitLen(Abs(SVal(y.rho)))
      invariant IsZero(y.rho.mag) <==> SVal(y.rho) == 0
      invariant ApproxRun(x0.Value(), y0.Value(), limit, 0) == ApproxRun(x.Value(), y.Value(), limit, iterations)
      decreases APPROX_CAP - iterations
    {
      Unroll(x.Value(), y.Value(), limit, iterations);
      if xBits < yBits {
        x, y := y, x;
        xBits, yBits := yBits, xBits;
      }
      UnrollStep(x.Value(), y.Value(), limit, iterations);
      var shift := xBits - yBits;
      var next, ok := ApproxUpdate(x, y, shift);
      iterations := iterations + 1;
      if !ok {
        return Reject(WidthExceeded);
      }
      InsideWords(x.Value(), y.Value(), shift);
      AbsVal(next.rho);
      var nextBits := BitLenLimbs(next.rho.mag);
      var candidate, found := ApproxCandidate(next, limit);
      if found {
        return FixedSelection(candidate, true, NoFallback);
      }
      if nextBits > yBits {
        x, xBits := next, nextBits;
      } else {
        x, y := y, next;
        xBits, yBits := yBits, nextBits;
      }
      IsZeroSigned(y.rho);
    }
    UnrollEnd(x.Value(), y.Value(), limit, iterations);
    return Reject(WidthExceeded);
  }

  lemma Unroll(x: SignedRow, y: SignedRow, limit: nat, iterations: nat)
    requires y.rho != 0 && iterations < APPROX_CAP
    ensures var swap := BitLen(Abs(x.rho)) < BitLen(Abs(y.rho));
            ApproxRun(x, y, limit, iterations) == ApproxStep(if swap then y else x, if swap then x else y, limit, iterations)
  {}

  lemma UnrollStep(a: SignedRow, b: SignedRow, limit: nat, iterations: nat)
    requires iterations < APPROX_CAP && BitLen(Abs(a.rho)) >= BitLen(Abs(b.rho))
    ensures var e := BitLen(Abs(a.rho)) - BitLen(Abs(b.rho));
            var next := Approx(a, b, e);
            ApproxStep(a, b, limit, iterations)
              == if !Representable(a, b, e) then Rejected(WidthExceeded)
                 else if AdmissibleSigned(next, limit) then AcceptedSigned(next)
                 else if BitLen(Abs(next.rho)) > BitLen(Abs(b.rho)) then ApproxRun(next, b, limit, iterations + 1)
                 else ApproxRun(b, next, limit, iterations + 1)
  {}

  lemma UnrollEnd(x: SignedRow, y: SignedRow, limit: nat, iterations: nat)
    requires y.rho == 0 || iterations >= APPROX_CAP
    ensures ApproxRun(x, y, limit, iterations) == Rejected(WidthExceeded)
  {}

  method SelectApproxQuotientCore(k: U256, limit: nat) returns (selection: FixedSelection)
    requires Val(k) < L
    ensures Meaning(selection) == ApproxChoice(Val(k), limit)
  {
    IsZeroVal(k);
    if IsZero(k) {
      return TrivialSelection();
    }
    var x, y := ApproxStart(k);
    ValBound(k);
    ConstantValues();
    WeightWide();
    hide Val, Weight, BitLen, Admissible, Meaning, ApproxRun;
    var candidate, found := ApproxCandidate(y, limit);
    if found {
      return FixedSelection(candidate, true, NoFallback);
    }
    selection := ApproxLoop(x, y, limit);
  }

  lemma InsideWords(x: SignedRow, y: SignedRow, e: nat)
    requires Representable(x, y, e)
    ensures Abs(Approx(x, y, e).rho) < Weight(4)
  {}

  lemma IsZeroSigned(x: S320)
    ensures IsZero(x.mag) <==> SVal(x) == 0
  {
    IsZeroVal(x.mag);
  }

  method ApproxStart(k: U256) returns (x: SignedWideRow, y: SignedWideRow)
    ensures x.Value() == SignedRow(N, 0) && y.Value() == SignedRow(Val(k), 1)
    ensures Normal(x.rho) && Normal(y.rho)
    ensures Val(y.rho.mag) == Val(k)
  {
    ConstantValues();
    ZeroVal();
    x := SignedWideRow(FromUint256(FIXED_MODULUS), ZERO);
    y := SignedWideRow(FromUint256(k), S320([1, 0, 0, 0, 0], false));
    FourWords(y.tau.mag);
    Val4([1, 0, 0, 0]);
  }
}
