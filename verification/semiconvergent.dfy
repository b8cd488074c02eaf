/** The unbounded-integer oracle Select (internal/heea8l/heea8l.go): the exhaustive semiconvergent
    search as functions, its loops proved against them, and what the chosen candidate means. */
module Semiconvergent {
  import opened Arith
  import opened Euclid
  import opened Selection

  datatype Candidate = Candidate(rho: int, tau: int)
  datatype Best = None | Some(value: Candidate)

  /** How a multiplier is recognised as a unit modulo 8L. */
  datatype UnitTest = ByGcd | ByTable

  predicate IsUnit(test: UnitTest, tau: int) {
    tau % 2 == 1 && match test
      case ByGcd => Gcd(Abs(tau), N) == 1
      case ByTable => PassesTable(Abs(tau))
  }

  // ---------------------------------------------------------------- the order on candidates

  function Width(c: Candidate): nat { Max(BitLen(Abs(c.rho)), BitLen(Abs(c.tau))) }
  function MaxAbs(c: Candidate): nat { Max(Abs(c.rho), Abs(c.tau)) }
  function SumAbs(c: Candidate): nat { Abs(c.rho) + Abs(c.tau) }

  /** better: width, then larger magnitude, then sum, then |tau|, then the positive tau. */
  predicate Better(a: Candidate, b: Candidate) {
    if Width(a) != Width(b) then Width(a) < Width(b)
    else if MaxAbs(a) != MaxAbs(b) then MaxAbs(a) < MaxAbs(b)
    else if SumAbs(a) != SumAbs(b) then SumAbs(a) < SumAbs(b)
    else if Abs(a.tau) != Abs(b.tau) then Abs(a.tau) < Abs(b.tau)
    else a.tau > b.tau
  }

  /** A strict order whose incomparability is transitive: replacing the best never loses ground. */
  lemma BetterOrder(a: Candidate, b: Candidate, c: Candidate)
    ensures !Better(a, a)
    ensures Better(a, b) && Better(b, c) ==> Better(a, c)
    ensures Better(a, b) && !Better(c, b) ==> !Better(c, a)
    ensures !Better(a, b) && !Better(b, a) ==> Abs(a.rho) == Abs(b.rho) && a.tau == b.tau
  {
    hide Width, BitLen;
    EqualWidths(a, b);
  }

  lemma EqualWidths(a: Candidate, b: Candidate)
    ensures MaxAbs(a) == MaxAbs(b) && SumAbs(a) == SumAbs(b) && Abs(a.tau) == Abs(b.tau) ==> Abs(a.rho) == Abs(b.rho)
  {}

  function Consider(test: UnitTest, best: Best, rho: int, tau: int): Best {
    if !IsUnit(test, tau) then best
    else if best.None? || Better(Candidate(rho, tau), best.value) then Some(Candidate(rho, tau))
    else best
  }

  // ---------------------------------------------------------------- nearby multipliers

  function AddMultiplier(qs: seq<int>, q: int, a: int, t0: int, t1: int): seq<int> {
    if q < 0 || q > a || (t0 - q * t1) % 2 == 0 || q in qs then qs else qs + [q]
  }

  /** The crossing point of the two coefficient norms, clamped to the quotient. */
  function Center(r0: int, r1: int, t0: int, t1: int, a: int): int {
    var numerator := r0 - Abs(t0);
    if numerator > 0 && Abs(t1) + r1 > 0 then
      var c := numerator / (Abs(t1) + r1);
      if c > a then a else c
    else 0
  }

  function Ends(qs: seq<int>, d: nat, a: int, t0: int, t1: int): seq<int>
    decreases 3 - d
  {
    if d > 2 then qs
    else Ends(AddMultiplier(AddMultiplier(qs, d, a, t0, t1), a - d, a, t0, t1), d + 1, a, t0, t1)
  }

  function Window(qs: seq<int>, d: int, center: int, a: int, t0: int, t1: int): seq<int>
    decreases 4 - d
  {
    if d > 3 then qs else Window(AddMultiplier(qs, center + d, a, t0, t1), d + 1, center, a, t0, t1)
  }

  /** nearbyMultipliers: the parity-valid interval ends and the window around the crossing. */
  function Multipliers(r0: int, r1: int, t0: int, t1: int, a: int): seq<int> {
    Window(Ends([], 0, a, t0, t1), -3, Center(r0, r1, t0, t1, a), a, t0, t1)
  }

  // ---------------------------------------------------------------- the search

  function ConsiderAll(test: UnitTest, best: Best, qs: seq<int>, x: Row, y: Row): Best
    decreases |qs|
  {
    if |qs| == 0 then best
    else ConsiderAll(test, Consider(test, best, x.rho - qs[0] * y.rho, x.tau - qs[0] * y.tau), qs[1..], x, y)
  }

  /** One pass of the loop: the principal row, then its intermediate rows. */
  function ConsiderStep(test: UnitTest, best: Best, x: Row, y: Row): Best
    requires y.rho > 0
  {
    ConsiderAll(test, Consider(test, best, y.rho, y.tau),
                Multipliers(x.rho, y.rho, x.tau, y.tau, x.rho / y.rho), x, y)
  }

  function BestFrom(test: UnitTest, best: Best, x: Row, y: Row): Best
    decreases y.rho
  {
    if y.rho == 0 then best else BestFrom(test, ConsiderStep(test, best, x, y), y, Next(x, y))
  }

  function BestCandidate(test: UnitTest, k: nat): Best {
    if k == 0 then Some(Candidate(0, 1)) else BestFrom(test, None, Row(N, 0), Row(k, 1))
  }

  /** Select: the best candidate, used when it fits the width and otherwise kept for diagnostics. */
  function SelectChoice(test: UnitTest, k: int, limit: nat): Choice {
    if !SupportedWidth(limit) then Rejected(InvalidWidth)
    else if k < 0 || k >= L then Rejected(InvalidChallenge)
    else
      var best := BestCandidate(test, k);
      if best.None? then Rejected(WidthExceeded)
      else if Width(best.value) > limit then Choice(best.value.rho, best.value.tau, 1, false, WidthExceeded)
      else Choice(best.value.rho, best.value.tau, 1, true, NoFallback)
  }

  // ---------------------------------------------------------------- the oracle's loops

  method NearbyMultipliers(r0: int, r1: int, t0: int, t1: int, a: int) returns (qs: seq<int>)
    requires r1 > 0
    ensures qs == Multipliers(r0, r1, t0, t1, a)
  {
    hide AddMultiplier, Abs;
    qs := [];
    for d := 0 to 3
      invariant Ends(qs, d, a, t0, t1) == Ends([], 0, a, t0, t1)
    {
      qs := AddMultiplier(qs, d, a, t0, t1);
      qs := AddMultiplier(qs, a - d, a, t0, t1);
    }
    var center := CrossingPoint(r0, r1, t0, t1, a);
    for d := -3 to 4
      invariant Window(qs, d, center, a, t0, t1) == Multipliers(r0, r1, t0, t1, a)
    {
      qs := AddMultiplier(qs, center + d, a, t0, t1);
    }
  }

  method CrossingPoint(r0: int, r1: int, t0: int, t1: int, a: int) returns (center: int)
    requires r1 > 0
    ensures center == Center(r0, r1, t0, t1, a)
  {
    center := 0;
    var numerator := r0 - Abs(t0);
    if numerator > 0 {
      center := numerator / (Abs(t1) + r1);
      if center > a {
        center := a;
      }
    }
  }

  /** bestForModulus at n = 8L. */
  method BestForModulus(k: nat) returns (best: Best)
    ensures best == BestCandidate(ByGcd, k)
  {
    if k == 0 {
      return Some(Candidate(0, 1));
    }
    var x, y := Row(N, 0), Row(k, 1);
    best := None;
    hide ConsiderStep, Consider, Multipliers;
    while y.rho != 0
      invariant BestFrom(ByGcd, best, x, y) == BestCandidate(ByGcd, k)
      decreases y.rho
    {
      best := SearchStep(best, x, y);
      x, y := y, Next(x, y);
    }
  }

  method SearchStep(before: Best, x: Row, y: Row) returns (best: Best)
    requires y.rho > 0
    ensures best == ConsiderStep(ByGcd, before, x, y)
  {
    hide Consider, Multipliers;
    best := Consider(ByGcd, before, y.rho, y.tau);
    var qs := NearbyMultipliers(x.rho, y.rho, x.tau, y.tau, x.rho / y.rho);
    assert qs[0..] == qs;
    for i := 0 to |qs|
      invariant ConsiderAll(ByGcd, best, qs[i..], x, y) == ConsiderStep(ByGcd, before, x, y)
    {
      assert qs[i..][1..] == qs[i + 1..];
      best := Consider(ByGcd, best, x.rho - qs[i] * y.rho, x.tau - qs[i] * y.tau);
    }
  }

  method Select(k: int, limit: nat) returns (c: Choice)
    ensures c == SelectChoice(ByGcd, k, limit)
  {
    if !SupportedWidth(limit) {
      return Rejected(InvalidWidth);
    }
    if k < 0 || k >= L {
      return Rejected(InvalidChallenge);
    }
    var best := BestForModulus(k);
    if best.None? {
      return Rejected(WidthExceeded);
    }
    if Width(best.value) > limit {
      return Choice(best.value.rho, best.value.tau, 1, false, WidthExceeded);
    }
    return Choice(best.value.rho, best.value.tau, 1, true, NoFallback);
  }

  // ---------------------------------------------------------------- soundness

  ghost predicate Exact(test: UnitTest, best: Best, n: nat, k: int) {
    best.Some? ==> && Congruent(best.value.rho, best.value.tau * k, n)
                   && IsUnit(test, best.value.tau) && best.value.rho >= 0
  }

  /** A multiplier the list contains lies in the closed interval [0,a]. */
  ghost predicate InInterval(qs: seq<int>, a: int) {
    forall i :: 0 <= i < |qs| ==> 0 <= qs[i] <= a
  }

  lemma {:induction false} EndsIn(qs: seq<int>, d: nat, a: int, t0: int, t1: int)
    requires InInterval(qs, a)
    ensures InInterval(Ends(qs, d, a, t0, t1), a)
    ensures d <= 3 ==> |Ends(qs, d, a, t0, t1)| <= |qs| + 2 * (3 - d)
    decreases 3 - d
  {
    if d <= 2 {
      EndsIn(AddMultiplier(AddMultiplier(qs, d, a, t0, t1), a - d, a, t0, t1), d + 1, a, t0, t1);
    }
  }

  lemma {:induction false} WindowIn(qs: seq<int>, d: int, center: int, a: int, t0: int, t1: int)
    requires InInterval(qs, a)
    ensures InInterval(Window(qs, d, center, a, t0, t1), a)
    ensures d <= 4 ==> |Window(qs, d, center, a, t0, t1)| <= |qs| + 4 - d
    decreases 4 - d
  {
    if d <= 3 {
      WindowIn(AddMultiplier(qs, center + d, a, t0, t1), d + 1, center, a, t0, t1);
    }
  }

  /** At most thirteen multipliers, all between 0 and the quotient. */
  lemma MultipliersIn(r0: int, r1: int, t0: int, t1: int, a: int)
    ensures InInterval(Multipliers(r0, r1, t0, t1, a), a)
    ensures |Multipliers(r0, r1, t0, t1, a)| <= 13
  {
    EndsIn([], 0, a, t0, t1);
    WindowIn(Ends([], 0, a, t0, t1), -3, Center(r0, r1, t0, t1, a), a, t0, t1);
  }

  lemma {:induction false} ConsiderAllExact(test: UnitTest, best: Best, qs: seq<int>, x: Row, y: Row, n: nat, k: int)
    requires Linked(x, y, n, k) && y.rho > 0 && InInterval(qs, x.rho / y.rho) && Exact(test, best, n, k)
    ensures Exact(test, ConsiderAll(test, best, qs, x, y), n, k)
    decreases |qs|
  {
    if |qs| > 0 {
      ReduceCongruent(x.rho, x.tau, y.rho, y.tau, qs[0], n, k);
      MultipleFits(x.rho, y.rho, qs[0]);
      ConsiderAllExact(test, Consider(test, best, x.rho - qs[0] * y.rho, x.tau - qs[0] * y.tau), qs[1..], x, y, n, k);
    }
  }

  lemma MultipleFits(a: nat, b: nat, q: int)
    requires b > 0 && 0 <= q <= a / b
    ensures 0 <= q * b <= a
  {
    DivMod(a, b);
    MulMono(b, q, a / b);
    MulNonNeg(q, b);
  }

  lemma {:induction false} BestFromExact(test: UnitTest, best: Best, x: Row, y: Row, n: nat, k: int)
    requires Linked(x, y, n, k) && Exact(test, best, n, k)
    ensures Exact(test, BestFrom(test, best, x, y), n, k)
    decreases y.rho
  {
    if y.rho > 0 {
      var a := x.rho / y.rho;
      MultipliersIn(x.rho, y.rho, x.tau, y.tau, a);
      ConsiderAllExact(test, Consider(test, best, y.rho, y.tau), Multipliers(x.rho, y.rho, x.tau, y.tau, a), x, y, n, k);
      NextLinked(x, y, n, k);
      BestFromExact(test, ConsiderStep(test, best, x, y), y, Next(x, y), n, k);
    }
  }

  /** Whatever Select admits is an exact unit relation inside the width. */
  lemma SelectSound(test: UnitTest, k: int, limit: nat)
    ensures var c := SelectChoice(test, k, limit);
            c.use ==> && Congruent(c.rho, c.tau * k, N) && IsUnit(test, c.tau) && c.rho >= 0
                      && BitLen(Abs(c.rho)) <= limit && BitLen(Abs(c.tau)) <= limit
                      && c.epsilon == 1 && c.fallback == NoFallback
  {
    if SupportedWidth(limit) && 0 <= k < L {
      StartLinked(N, k);
      if k == 0 {
        CongruentBy(0, 1 * k, N, 0);
        UnitOne(test);
      } else {
        BestFromExact(test, None, Row(N, 0), Row(k, 1), N, k);
      }
    }
  }

  lemma UnitOne(test: UnitTest)
    ensures IsUnit(test, 1)
  {
    assert Gcd(1, N) == Gcd(N, 1 % N);
    assert 1 % N == 1;
    assert Gcd(N, 1) == Gcd(1, N % 1) && N % 1 == 0;
  }

  // ---------------------------------------------------------------- optimality and coverage

  /** best is present and no worse than c. */
  ghost predicate Covers(best: Best, c: Candidate) {
    best.Some? && !Better(c, best.value)
  }

  lemma ConsiderCovers(test: UnitTest, best: Best, rho: int, tau: int, c: Candidate)
    ensures Covers(best, c) ==> Covers(Consider(test, best, rho, tau), c)
    ensures IsUnit(test, tau) ==> Covers(Consider(test, best, rho, tau), Candidate(rho, tau))
  {
    hide IsUnit;
    BetterOrder(Candidate(rho, tau), Candidate(rho, tau), c);
    if best.Some? { BetterOrder(Candidate(rho, tau), best.value, c); }
    hide Better;
  }

  lemma {:induction false} ConsiderAllCovers(test: UnitTest, best: Best, qs: seq<int>, x: Row, y: Row, c: Candidate)
    requires Covers(best, c)
    ensures Covers(ConsiderAll(test, best, qs, x, y), c)
    decreases |qs|
  {
    if |qs| > 0 {
      ConsiderCovers(test, best, x.rho - qs[0] * y.rho, x.tau - qs[0] * y.tau, c);
      ConsiderAllCovers(test, Consider(test, best, x.rho - qs[0] * y.rho, x.tau - qs[0] * y.tau), qs[1..], x, y, c);
    }
  }

  /** Every intermediate row a pass considers, and everything already covered, stays covered. */
  lemma {:induction false} ConsiderEach(test: UnitTest, best: Best, qs: seq<int>, x: Row, y: Row, i: nat)
    requires i < |qs| && IsUnit(test, x.tau - qs[i] * y.tau)
    ensures Covers(ConsiderAll(test, best, qs, x, y), Candidate(x.rho - qs[i] * y.rho, x.tau - qs[i] * y.tau))
    decreases |qs|
  {
    var rho, tau := x.rho - qs[0] * y.rho, x.tau - qs[0] * y.tau;
    if i == 0 {
      ConsiderCovers(test, best, rho, tau, Candidate(rho, tau));
      ConsiderAllCovers(test, Consider(test, best, rho, tau), qs[1..], x, y, Candidate(rho, tau));
    } else {
      ConsiderEach(test, Consider(test, best, rho, tau), qs[1..], x, y, i - 1);
    }
  }

  lemma {:induction false} BestFromCovers(test: UnitTest, best: Best, x: Row, y: Row, c: Candidate)
    requires Covers(best, c)
    ensures Covers(BestFrom(test, best, x, y), c)
    decreases y.rho
  {
    if y.rho > 0 {
      ConsiderCovers(test, best, y.rho, y.tau, c);
      ConsiderAllCovers(test, Consider(test, best, y.rho, y.tau),
                        Multipliers(x.rho, y.rho, x.tau, y.tau, x.rho / y.rho), x, y, c);
      BestFromCovers(test, ConsiderStep(test, best, x, y), y, Next(x, y), c);
    }
  }

  /** No unit principal row, and no unit intermediate row the search visits, beats the result. */
  lemma {:induction false} BestIsBest(test: UnitTest, best: Best, x: Row, y: Row, n: nat, u: Row, v: Row)
    requires Advance(x, y, n) == (u, v) && v.rho > 0
    ensures var result := BestFrom(test, best, x, y);
            && (IsUnit(test, v.tau) ==> Covers(result, Candidate(v.rho, v.tau)))
            && (forall q :: q in Multipliers(u.rho, v.rho, u.tau, v.tau, u.rho / v.rho) && IsUnit(test, u.tau - q * v.tau)
                  ==> Covers(result, Candidate(u.rho - q * v.rho, u.tau - q * v.tau)))
    decreases n
  {
    hide IsUnit, Multipliers, Consider, Better;
    if n == 0 {
      assert Advance(x, y, 0) == (x, y);
      var qs := Multipliers(x.rho, y.rho, x.tau, y.tau, x.rho / y.rho);
      var seen := Consider(test, best, y.rho, y.tau);
      var step := ConsiderStep(test, best, x, y);
      if IsUnit(test, y.tau) {
        ConsiderCovers(test, best, y.rho, y.tau, Candidate(y.rho, y.tau));
        ConsiderAllCovers(test, seen, qs, x, y, Candidate(y.rho, y.tau));
        BestFromCovers(test, step, y, Next(x, y), Candidate(y.rho, y.tau));
      }
      forall q | q in qs && IsUnit(test, x.tau - q * y.tau)
        ensures Covers(BestFrom(test, best, x, y), Candidate(x.rho - q * y.rho, x.tau - q * y.tau))
      {
        var i :| 0 <= i < |qs| && qs[i] == q;
        ConsiderEach(test, seen, qs, x, y, i);
        BestFromCovers(test, step, y, Next(x, y), Candidate(x.rho - q * y.rho, x.tau - q * y.tau));
      }
    } else {
      AdvanceShift(x, y, n);
      BestIsBest(test, ConsiderStep(test, best, x, y), y, Next(x, y), n - 1, u, v);
    }
  }

  /** A run can be peeled from the front as well as from the back. */
  lemma {:induction false} AdvanceShift(x: Row, y: Row, n: nat)
    requires n > 0 && Advance(x, y, n).1.rho > 0
    ensures y.rho > 0 && Advance(x, y, n) == Advance(y, Next(x, y), n - 1)
  {
    if n == 1 {
      assert Advance(x, y, 0) == (x, y);
    } else {
      AdvanceShift(x, y, n - 1);
    }
  }
}
