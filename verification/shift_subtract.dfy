/** SelectShiftSubtract (internal/heea8l/shift_subtract.go): the division-free schedule, with its
    512-step cap and every defensive fallback proved unreachable. */
module ShiftSubtract {
  import opened Arith
  import opened Words
  import opened Fixed256
  import opened Divide256
  import opened Euclid
  import opened Signed320
  import opened Selection
  import opened SelectFixedWidth
  import opened Principal

  // ---------------------------------------------------------------- the schedule

  /** The largest shift that still fits under the larger remainder. */
  function TopShift(l: nat, s: nat): (e: nat)
    requires 0 < s <= l
    ensures s * Pow2(e) <= l < 2 * (s * Pow2(e))
  {
    TopShiftFits(l, s);
    var e := BitLen(l) - BitLen(s);
    if s * Pow2(e) > l then e - 1 else e
  }

  lemma TopShiftFits(l: nat, s: nat)
    requires 0 < s <= l
    ensures var e := BitLen(l) - BitLen(s);
            && e >= 0 && l < 2 * (s * Pow2(e))
            && (s * Pow2(e) > l ==> e >= 1 && s * Pow2(e - 1) <= l && 2 * (s * Pow2(e - 1)) == s * Pow2(e))
  {
    hide BitLen, Pow2;
    BitLenMono(s, l);
    var e := BitLen(l) - BitLen(s);
    BitLenShift(s, e);
    BitLenBounds(l);
    BitLenBounds(s * Pow2(e));
    MulMono(s, 1, Pow2(e));
    Pow2Double(0);
    Pow2Double(BitLen(l) - 1);
    if s * Pow2(e) > l {
      Pow2Double(e - 1);
      Halve(s, Pow2(e - 1));
    }
  }

  /** Cancel the top bit of the larger row. */
  function Cancel(l: Row, s: Row): (z: Row)
    requires 0 < s.rho <= l.rho
    ensures z.rho < l.rho
  {
    var e := TopShift(l.rho, s.rho);
    MulMono(s.rho, 1, Pow2(e));
    Reduce(l, s, Pow2(e))
  }

  /** The first admissible row of the schedule. Each step shrinks the larger remainder. */
  function ShiftRun(x: Row, y: Row, limit: nat): Choice
    decreases x.rho + y.rho
  {
    if x.rho == 0 || y.rho == 0 then Rejected(WidthExceeded)
    else if x.rho < y.rho then
      var z := Cancel(y, x);
      if Admissible(z, limit) then Accepted(z) else ShiftRun(x, z, limit)
    else
      var z := Cancel(x, y);
      if Admissible(z, limit) then Accepted(z) else ShiftRun(z, y, limit)
  }

  function ShiftChoice(k: nat, limit: nat): Choice {
    if k == 0 then Accepted(Row(0, 1))
    else if Admissible(Row(k, 1), limit) then Accepted(Row(k, 1))
    else ShiftRun(Row(N, 0), Row(k, 1), limit)
  }

  /** One step loses at least one bit of the larger remainder. */
  lemma CancelLosesBit(l: Row, s: Row)
    requires 0 < s.rho <= l.rho
    ensures BitLen(Cancel(l, s).rho) < BitLen(l.rho)
  {
    var e := TopShift(l.rho, s.rho);
    var shifted := s.rho * Pow2(e);
    var z := l.rho - shifted;
    assert Cancel(l, s).rho == z;
    BitLenBounds(l.rho);
    BitLenAtMost(z, BitLen(l.rho) - 1);
    HalfRemains(l.rho, shifted, Pow2(BitLen(l.rho) - 1));
  }

  lemma HalfRemains(l: nat, shifted: nat, half: nat)
    requires shifted <= l < 2 * shifted && l < 2 * half
    ensures l - shifted < half
  {}

  lemma CancelLinked(l: Row, s: Row, k: int)
    requires 0 < s.rho <= l.rho && Linked(l, s, N, k)
    ensures Linked(Cancel(l, s), s, N, k)
    ensures var q := Pow2(TopShift(l.rho, s.rho));
            Abs(l.tau - q * s.tau) <= N && q * Abs(s.tau) <= N
  {
    var e := TopShift(l.rho, s.rho);
    var q := Pow2(e);
    ReduceLinked(l, s, q, N, k);
    LinkedSym(s, Cancel(l, s), N, k);
    TauBound(s, Cancel(l, s), N, k);
    AbsOpposite(l.tau, s.tau, q);
    MulNonNeg(q, Abs(s.tau));
  }

  lemma {:induction false} ShiftRunSound(x: Row, y: Row, limit: nat, k: int)
    requires Linked(x, y, N, k)
    ensures Sound(ShiftRun(x, y, limit), k, limit)
    decreases x.rho + y.rho
  {
    if x.rho != 0 && y.rho != 0 {
      if x.rho < y.rho {
        LinkedSym(x, y, N, k);
        CancelLinked(y, x, k);
        LinkedSym(Cancel(y, x), x, N, k);
        if !Admissible(Cancel(y, x), limit) { ShiftRunSound(x, Cancel(y, x), limit, k); }
      } else {
        CancelLinked(x, y, k);
        if !Admissible(Cancel(x, y), limit) { ShiftRunSound(Cancel(x, y), y, limit, k); }
      }
    }
  }

  lemma ShiftSound(k: nat, limit: nat)
    requires SupportedWidth(limit)
    ensures Sound(ShiftChoice(k, limit), k, limit)
  {
    StartLinked(N, k);
    ShiftRunSound(Row(N, 0), Row(k, 1), limit, k);
    if k == 0 { CongruentBy(0, 1 * k, N, 0); }
  }

  // ---------------------------------------------------------------- the loop

  /** considerShiftSubtractRow. */
  method ConsiderRow(best: BestFixed, row: WideRow, limit: nat) returns (next: BestFixed)
    requires Good(best) && !best.found
    ensures Good(next) && (next.found <==> Admissible(row.Value(), limit))
    ensures next.found ==> Meaning(FixedSelection(next.candidate, true, NoFallback)) == Accepted(row.Value())
  {
    next := best;
    AbsVal(row.tau);
    WeightWide();
    FourWords(row.tau.mag);
    hide Val, Weight, BitLen, PassesTable, Canonical;
    var rhoBits := BitLenLimbs(row.rho);
    var tauBits := BitLenLimbs(row.tau.mag);
    if rhoBits > limit || tauBits > limit {
      return;
    }
    var unit := UnitMultiplier(row.tau);
    if !unit {
      return;
    }
    var tau := External(row.tau);
    var candidate := FixedCandidate(NewSigned256(row.rho, false), NewSigned256(tau.limbs, tau.negative), 1);
    var better := true;
    if best.found {
      better := BetterFixed(candidate, best.candidate);
    }
    if !best.found || better {
      next := BestFixed(true, candidate);
    }
  }

  /** One update of the larger row; every defensive test passes. */
  method CancelRow(larger: WideRow, smaller: WideRow, ghost k: int) returns (next: WideRow, ok: bool)
    requires 0 < Val(smaller.rho) <= Val(larger.rho) <= N
    requires Linked(larger.Value(), smaller.Value(), N, k)
    ensures ok && next.Value() == Cancel(larger.Value(), smaller.Value())
  {
    hide Val, Weight, Linked, BitLen, Pow2, Cancel, TopShift, Abs;
    ghost var l, s := Val(larger.rho), Val(smaller.rho);
    CancelLinked(larger.Value(), smaller.Value(), k);
    CancelLosesBit(larger.Value(), smaller.Value());
    CancelIs(larger.Value(), smaller.Value());
    next, ok := larger, false;
    var shifted, shift, found := AlignUnder(larger.rho, smaller.rho);
    if !found {
      return;
    }
    var largerBits := BitLenLimbs(larger.rho);
    var nextRho, borrow := SubLimbs(larger.rho, shifted);
    var nextBits := BitLenLimbs(nextRho);
    if borrow != 0 || nextBits >= largerBits {
      return;
    }
    ShiftedTau(smaller.tau, Pow2(shift));
    var nextTau, fits := SubShifted(larger.tau, smaller.tau, shift);
    if !fits {
      return;
    }
    TopWordClear(nextTau);
    if nextTau.mag[4] != 0 {
      return;
    }
    next, ok := WideRow(nextRho, nextTau), true;
  }

  /** Align the smaller remainder under the larger; backing off one bit is always possible. */
  method AlignUnder(larger: U256, smaller: U256) returns (shifted: U256, shift: nat, found: bool)
    requires 0 < Val(smaller) <= Val(larger) <= N
    ensures found && shift == TopShift(Val(larger), Val(smaller)) && Val(shifted) == Val(smaller) * Pow2(shift)
  {
    ghost var l, s := Val(larger), Val(smaller);
    TopShiftFits(l, s);
    hide Val, Weight, BitLen, Pow2, TopShift;
    var largerBits := BitLenLimbs(larger);
    var smallerBits := BitLenLimbs(smaller);
    shift := largerBits - smallerBits;
    shifted := ShiftedWithin(smaller, shift, l);
    var c := CmpLimbs(shifted, larger);
    found := true;
    if c > 0 {
      if shift == 0 {
        return shifted, shift, false;
      }
      shift := shift - 1;
      shifted := ShiftedWithin(smaller, shift, l);
    }
    TopShiftIs(l, s, shift);
  }

  lemma CancelIs(l: Row, s: Row)
    requires 0 < s.rho <= l.rho
    ensures var q := Pow2(TopShift(l.rho, s.rho));
            l.rho - s.rho * q >= 0 && Cancel(l, s) == Row(l.rho - s.rho * q, l.tau - q * s.tau)
  {
    var q := Pow2(TopShift(l.rho, s.rho));
    hide TopShift, Pow2;
    Commute(s.rho, q);
    assert Cancel(l, s).rho == l.rho - q * s.rho;
  }

  lemma Commute(a: int, b: int)
    ensures a * b == b * a
  {}

  lemma TopShiftIs(l: nat, s: nat, e: nat)
    requires 0 < s <= l && s * Pow2(e) <= l < 2 * (s * Pow2(e))
    ensures e == TopShift(l, s)
  {
    var t := TopShift(l, s);
    if e < t {
      Pow2Strict(e, t);
      MulMono(s, 2 * Pow2(e), Pow2(t));
      Halve(s, Pow2(e));
    } else if t < e {
      Pow2Strict(t, e);
      MulMono(s, 2 * Pow2(t), Pow2(e));
      Halve(s, Pow2(t));
    }
  }

  /** shl256 of the smaller remainder keeps all its bits while the result stays below 2^256. */
  method ShiftedWithin(x: U256, shift: nat, ghost l: nat) returns (shifted: U256)
    requires l <= N && Val(x) > 0
    requires BitLen(Val(x)) + shift <= BitLen(l)
    ensures Val(shifted) == Val(x) * Pow2(shift)
  {
    ShiftStays(Val(x), shift, l);
    shifted := ShlLimbs(x, shift);
    DivUnique(Val(x) * Pow2(shift), Weight(|x|), 0, Val(x) * Pow2(shift));
  }

  lemma ShiftStays(v: nat, shift: nat, l: nat)
    requires v > 0 && BitLen(v) + shift <= BitLen(l) && l <= N
    ensures 0 <= v * Pow2(shift) < Weight(4)
  {
    BitLenShift(v, shift);
    MulNonNeg(v, Pow2(shift));
    ConstantValues();
    Below256(l, 256);
    Below256Back(v * Pow2(shift), 256);
  }

  lemma Below256(l: nat, w: nat)
    requires l < R256 && w == 256
    ensures BitLen(l) <= w
  {
    Pow2Wide();
    BitLenAtMost(l, w);
  }

  lemma Below256Back(v: nat, w: nat)
    requires BitLen(v) <= w && w == 256
    ensures v < Weight(4)
  {
    Pow2Wide();
    BitLenAtMost(v, w);
    WeightWide();
  }

  lemma ShiftedTau(t: S320, q: nat)
    ensures Abs(SVal(t) * q) == q * Abs(SVal(t)) && SVal(t) * q == q * SVal(t)
    ensures N < Weight(4) < Limit()
  {
    AbsProduct(SVal(t), q);
    WeightWide();
    ConstantValues();
  }

  lemma TopWordClear(t: S320)
    ensures Abs(SVal(t)) < Weight(4) ==> t.mag[4] == 0
  {
    FourWords(t.mag);
    AbsVal(t);
  }

  method SelectShiftSubtractCore(k: U256, limit: nat) returns (selection: FixedSelection)
    requires Val(k) < L
    ensures Meaning(selection) == ShiftChoice(Val(k), limit)
  {
    hide Val, Weight, Linked, BitLen, Cancel, Admissible, Meaning, IsZero;
    IsZeroVal(k);
    if IsZero(k) {
      return TrivialSelection();
    }
    var x, y := StartRows(k);
    var rows := [x, y];
    var best := BestFixed(false, NO_CANDIDATE);
    NoCandidateGood();
    ModulusInadmissible(limit);
    StartLinked(N, Val(k));
    ConstantValues();
    Below256(N, 256);
    Below256(Val(k), 256);
    best := ConsiderRow(best, rows[0], limit);
    best := ConsiderRow(best, rows[1], limit);
    if best.found {
      return FixedSelection(best.candidate, true, NoFallback);
    }
    var step := 0;
    IsZeroVal(rows[0].rho);
    IsZeroVal(rows[1].rho);
    while step < 512 && !IsZero(rows[0].rho) && !IsZero(rows[1].rho)
      invariant |rows| == 2 && Good(best) && !best.found
      invariant Linked(rows[0].Value(), rows[1].Value(), N, Val(k))
      invariant Val(rows[0].rho) <= N && Val(rows[1].rho) <= N
      invariant IsZero(rows[0].rho) <==> Val(rows[0].rho) == 0
      invariant IsZero(rows[1].rho) <==> Val(rows[1].rho) == 0
      invariant step + BitLen(Val(rows[0].rho)) + BitLen(Val(rows[1].rho)) <= 512
      invariant ShiftChoice(Val(k), limit) == ShiftRun(rows[0].Value(), rows[1].Value(), limit)
      decreases 512 - step
    {
      var larger, smaller := 0, 1;
      var c := CmpLimbs(rows[0].rho, rows[1].rho);
      if c < 0 {
        larger, smaller := 1, 0;
      }
      LinkedSym(rows[0].Value(), rows[1].Value(), N, Val(k));
      CancelFacts(rows[larger].Value(), rows[smaller].Value(), Val(k));
      var next, ok := CancelRow(rows[larger], rows[smaller], Val(k));
      if !ok {
        return Reject(WidthExceeded);
      }
      rows := rows[larger := next];
      best := ConsiderRow(best, rows[larger], limit);
      if best.found {
        return FixedSelection(best.candidate, true, NoFallback);
      }
      IsZeroVal(rows[larger].rho);
      step := step + 1;
    }
    CapUnreached(step, Val(rows[0].rho), Val(rows[1].rho));
    return Reject(WidthExceeded);
  }

  lemma CancelFacts(l: Row, s: Row, k: int)
    requires 0 < s.rho <= l.rho && Linked(l, s, N, k)
    ensures var z := Cancel(l, s);
            && Linked(z, s, N, k) && Linked(s, z, N, k) && z.rho < l.rho && BitLen(z.rho) < BitLen(l.rho)
  {
    CancelLinked(l, s, k);
    CancelLosesBit(l, s);
    LinkedSym(Cancel(l, s), s, N, k);
  }

  lemma NoCandidateGood()
    ensures Good(BestFixed(false, NO_CANDIDATE))
  {}

  lemma ModulusInadmissible(limit: nat)
    ensures !Admissible(Row(N, 0), limit)
  {}

  /** Two positive remainders hold at least two bits, so the step counter stops short of the cap. */
  lemma CapUnreached(step: nat, a: nat, b: nat)
    requires step + BitLen(a) + BitLen(b) <= 512
    ensures a > 0 && b > 0 ==> step < 512
  {
    BitLenBounds(a);
    BitLenBounds(b);
  }
}
