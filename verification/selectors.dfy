/** The public selectors of internal/heea8l on 32-byte challenges, and what relates them. */
module Selectors {
  import opened Arith
  import opened Words
  import opened Bytes
  import opened Euclid
  import opened Selection
  import opened Principal
  import opened LehmerSelect
  import opened Semiconvergent
  import opened SelectFixedWidth
  import opened ShiftSubtract
  import opened ApproxQuotient
  import opened Unit

  /** The argument checks every entry point performs before its own choice. */
  function Guarded(k: nat, limit: nat, choice: Choice): Choice {
    if !SupportedWidth(limit) then Rejected(InvalidWidth)
    else if k >= L then Rejected(InvalidChallenge)
    else choice
  }

  method Admit(kBytes: Bytes32, limit: nat) returns (k: U256, rejected: bool, selection: FixedSelection)
    ensures Val(k) == LeValue(kBytes)
    ensures rejected <==> !SupportedWidth(limit) || Val(k) >= L
    ensures rejected ==> Meaning(selection) == Guarded(Val(k), limit, Rejected(NoFallback))
  {
    ConstantValues();
    k := FromBytesLE(kBytes);
    hide Val, LeValue;
    selection := Reject(InvalidChallenge);
    if !SupportedWidth(limit) {
      return k, true, Reject(InvalidWidth);
    }
    var c := CmpLimbs(k, FIXED_ORDER);
    rejected := c >= 0;
  }

  method SelectEuclidPrincipal(kBytes: Bytes32, limit: nat) returns (selection: FixedSelection)
    ensures Meaning(selection) == PublicChoice(LeValue(kBytes), limit)
  {
    var k, rejected, answer := Admit(kBytes, limit);
    if rejected {
      return answer;
    }
    selection := SelectEuclidPrincipalMode(k, limit, false);
  }

  /** Exactly the selection of SelectEuclidPrincipal, for every challenge and width. */
  method SelectLehmer(kBytes: Bytes32, limit: nat) returns (selection: FixedSelection)
    ensures Meaning(selection) == PublicChoice(LeValue(kBytes), limit)
  {
    var k, rejected, answer := Admit(kBytes, limit);
    if rejected {
      return answer;
    }
    selection := SelectLehmerCore(k, limit);
  }

  method SelectFixed(kBytes: Bytes32, limit: nat) returns (selection: FixedSelection)
    ensures Meaning(selection) == SelectChoice(ByTable, LeValue(kBytes), limit)
  {
    var k, rejected, answer := Admit(kBytes, limit);
    if rejected {
      return answer;
    }
    selection := SelectFixedMode(k, limit, false);
  }

  method SelectShiftSubtract(kBytes: Bytes32, limit: nat) returns (selection: FixedSelection)
    ensures Meaning(selection) == Guarded(LeValue(kBytes), limit, ShiftChoice(LeValue(kBytes), limit))
  {
    var k, rejected, answer := Admit(kBytes, limit);
    if rejected {
      return answer;
    }
    selection := SelectShiftSubtractCore(k, limit);
  }

  method SelectApproxQuotient(kBytes: Bytes32, limit: nat) returns (selection: FixedSelection)
    ensures Meaning(selection) == Guarded(LeValue(kBytes), limit, ApproxChoice(LeValue(kBytes), limit))
  {
    var k, rejected, answer := Admit(kBytes, limit);
    if rejected {
      return answer;
    }
    selection := SelectApproxQuotientCore(k, limit);
  }

  // ---------------------------------------------------------------- all five are sound

  /** The answers the five public selectors can give. Lehmer shares the principal choice. */
  ghost predicate Selected(c: Choice, k: nat, limit: nat) {
    || c == PublicChoice(k, limit)
    || c == SelectChoice(ByTable, k, limit)
    || c == Guarded(k, limit, ShiftChoice(k, limit))
    || c == Guarded(k, limit, ApproxChoice(k, limit))
  }

  /** Every used candidate, whichever selector produced it: rho = tau*k (mod 8L), both magnitudes
      inside the width, and tau invertible modulo 8L. */
  lemma SelectorsSound(c: Choice, k: nat, limit: nat) returns (inverse: int)
    requires IsPrime(L) && Selected(c, k, limit) && c.use
    ensures SupportedWidth(limit) && k < L && c.epsilon == 1 && c.fallback == NoFallback
    ensures Congruent(c.rho, c.tau * k, N)
    ensures BitLen(Abs(c.rho)) <= limit && BitLen(Abs(c.tau)) <= limit
    ensures c.tau != 0 && Congruent(inverse * c.tau, 1, N)
  {
    hide PrincipalChoice, ShiftChoice, ApproxChoice, BestCandidate, BitLen, PassesTable, Gcd, IsPrime, Congruent;
    PrincipalSound(k, limit);
    SelectSound(ByTable, k, limit);
    if SupportedWidth(limit) {
      ShiftSound(k, limit);
      ApproxSound(k, limit);
    }
    WidthBelowModulus(Abs(c.tau), limit);
    inverse := UnitInverse(c.tau);
    TableNonZero(c.tau);
  }

  lemma TableNonZero(t: int)
    ensures PassesTable(Abs(t)) ==> t != 0
  {}

  lemma WidthBelowModulus(t: nat, limit: nat)
    requires BitLen(t) <= limit && SupportedWidth(limit)
    ensures t < L && t <= N
  {
    Width136(t, 136) by { BitLenAtMost(t, limit); Pow2Mono(limit, 136); BitLenAtMost(t, 136); }
  }

  lemma Width136(t: nat, w: nat)
    requires BitLen(t) <= w && w == 136
    ensures t < L
  {
    BitLenAtMost(t, w);
    Pow2Add(8, 128);
    Pow2Small();
    Pow2Wide();
    Pow2Add(64, 64);
  }

  // ---------------------------------------------------------------- coverage

  /** A principal choice is a row of the run. */
  lemma {:induction false} PrincipalRunHits(x: Row, y: Row, limit: nat) returns (n: nat)
    requires PrincipalRun(x, y, limit).use
    ensures n >= 1 && Advance(x, y, n - 1).1.rho > 0
    ensures Admissible(Advance(x, y, n).1, limit) && PrincipalRun(x, y, limit) == Accepted(Advance(x, y, n).1)
    decreases y.rho
  {
    assert Advance(x, y, 0) == (x, y);
    if Admissible(Next(x, y), limit) {
      n := 1;
    } else {
      var m := PrincipalRunHits(y, Next(x, y), limit);
      n := m + 1;
      AdvancePeel(x, y, m);
      AdvancePeel(x, y, m - 1);
    }
  }

  lemma {:induction false} AdvancePeel(x: Row, y: Row, n: nat)
    requires y.rho > 0
    ensures Advance(x, y, n + 1) == Advance(y, Next(x, y), n)
  {
    assert Advance(x, y, 0) == (x, y);
    if n > 0 { AdvancePeel(x, y, n - 1); }
  }

  /** The row with remainder zero never passes: its coefficient would have to divide L. */
  lemma ZeroRowInadmissible(x: Row, y: Row, k: int)
    requires IsPrime(L) && Linked(x, y, N, k) && y.rho == 0 && x.rho < N
    ensures !PassesTable(Abs(y.tau))
  {
    var t := Abs(y.tau);
    if PassesTable(t) {
      assert t * x.rho == N by { assert x.rho * t + 0 * Abs(x.tau) == N; }
      OddDivisor(t, x.rho);
      DividesBy(t, x.rho / 8, L);
      DivisorSmall(t, L);
      DividesMod(t, L);
      assert false;
    }
  }

  /** Whenever the principal selectors find a candidate, the exhaustive search finds one too. */
  lemma FixedCoversPrincipal(k: nat, limit: nat)
    requires IsPrime(L) && PublicChoice(k, limit).use
    ensures SelectChoice(ByTable, k, limit).use
  {
    if k > 0 {
      var n := PrincipalHit(k, limit);
      var x, y := Row(N, 0), Row(k, 1);
      var p := Advance(x, y, n).1;
      hide Multipliers, Advance, Better, BitLen, PassesTable, BestFrom, Gcd;
      AdmissibleIsUnit(p, limit);
      BestIsBest(ByTable, None, x, y, n, Advance(x, y, n).0, Advance(x, y, n).1);
      BetterWidth(Candidate(p.rho, p.tau), BestFrom(ByTable, None, x, y).value);
    } else {
      UnitOne(ByTable);
      assert BitLen(1) == 1;
    }
  }

  lemma AdmissibleIsUnit(p: Row, limit: nat)
    requires Admissible(p, limit)
    ensures IsUnit(ByTable, p.tau) && Width(Candidate(p.rho, p.tau)) <= limit
  {
    hide BitLen;
  }

  /** The admitted principal row of a nonzero challenge has a positive remainder. */
  lemma PrincipalHit(k: nat, limit: nat) returns (n: nat)
    requires IsPrime(L) && 0 < k < L && PrincipalChoice(k, limit).use
    ensures Advance(Row(N, 0), Row(k, 1), n).1.rho > 0
    ensures Admissible(Advance(Row(N, 0), Row(k, 1), n).1, limit)
  {
    var x, y := Row(N, 0), Row(k, 1);
    assert Advance(x, y, 0) == (x, y);
    n := 0;
    if !Admissible(y, limit) {
      n := PrincipalRunHits(x, y, limit);
      StartLinked(N, k);
      AdvanceLinked(x, y, n, N, k);
      RemaindersBelow(x, y, n);
      if Advance(x, y, n).1.rho == 0 {
        ZeroRowInadmissible(Advance(x, y, n).0, Advance(x, y, n).1, k);
        assert false;
      }
    }
  }

  lemma {:induction false} RemaindersBelow(x: Row, y: Row, n: nat)
    requires n >= 1 && 0 < y.rho < x.rho
    ensures Advance(x, y, n).0.rho < x.rho && Advance(x, y, n).1.rho <= y.rho
  {
    assert Advance(x, y, 0) == (x, y);
    if n > 1 { RemaindersBelow(x, y, n - 1); }
  }

  lemma BetterWidth(a: Candidate, b: Candidate)
    requires !Better(a, b)
    ensures Width(b) <= Width(a)
  {
    hide Width;
  }
}
