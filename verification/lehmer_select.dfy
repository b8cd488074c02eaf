/** selectLehmer (internal/heea8l/lehmer.go:54-113) returns exactly the principal Euclidean choice. */
module LehmerSelect {
  import opened Arith
  import opened Words
  import opened Divide256
  import opened Euclid
  import opened Signed320
  import opened Selection
  import opened Principal
  import opened LehmerBatch
  import opened Lehmer

  // ---------------------------------------------------------------- a batch is representable

  lemma TermFits(v: int, c: int)
    requires Abs(v) < R256 && Abs(c) < R64
    ensures Term(v, c)
  {
    WeightWide();
    MulMono(Abs(v), Abs(c), R64);
    MulMono(R64, Abs(v) + 1, R256);
  }

  /** The rows a batch lands on are the rows Euclid reaches, linked and within the modulus. */
  lemma BatchRows(x: Row, y: Row, m: Matrix, steps: nat, k: int)
    requires Linked(x, y, N, k) && 0 < y.rho <= x.rho <= N && steps > 0 && Batch(m, x.rho, y.rho, steps)
    ensures var p := Advance(x, y, steps);
            && p.0.rho == m.First(x.rho, y.rho) && p.0.tau == m.First(x.tau, y.tau)
            && p.1.rho == m.Second(x.rho, y.rho) && p.1.tau == m.Second(x.tau, y.tau)
            && Linked(p.0, p.1, N, k) && p.1.rho < y.rho && p.1.rho < p.0.rho <= N
            && Abs(p.0.tau) <= N && Abs(p.1.tau) <= N
  {
    hide Linked, Matrix.First, Matrix.Second, Matrix.Alternating, RunMatrix, NarrowRun, Length, Abs;
    AdvanceByMatrix(x, y, steps);
    AdvanceLinked(x, y, steps, N, k);
    AdvanceLinked(x, y, steps - 1, N, k);
    LengthOfRest(x, y, steps);
    SecondsFall(x, y, 0, steps - 1);
    var p, prev := Advance(x, y, steps), Advance(x, y, steps - 1);
    assert p.0 == prev.1;
    TauBound(prev.0, prev.1, N, k);
    TauBound(p.0, p.1, N, k);
  }

  lemma LengthOfRest(x: Row, y: Row, steps: nat)
    requires 1 <= steps <= Length(x.rho, y.rho) && x.rho >= y.rho
    ensures Advance(x, y, steps - 1).1.rho > 0
  {
    hide Advance;
    AdvanceLength(x, y, steps - 1);
  }

  /** applyLehmerMatrix never reports failure on a batch, and lands on the rows Euclid reaches. */
  lemma BatchApplies(x: Row, y: Row, m: Matrix, steps: nat, k: int)
    requires Linked(x, y, N, k) && 0 < y.rho <= x.rho <= N && Abs(x.tau) <= N
    requires steps > 0 && Batch(m, x.rho, y.rho, steps)
    ensures Applies(x, y, m)
    ensures Advance(x, y, steps) == (Row(m.First(x.rho, y.rho), m.First(x.tau, y.tau)),
                                     Row(m.Second(x.rho, y.rho), m.Second(x.tau, y.tau)))
    ensures var p := Advance(x, y, steps);
            && Linked(p.0, p.1, N, k) && p.1.rho < y.rho && p.1.rho < p.0.rho <= N && Abs(p.0.tau) <= N
  {
    hide Linked, Advance, Matrix.First, Matrix.Second, Matrix.Alternating, RunMatrix, NarrowRun, Length, Weight, Term;
    BatchRows(x, y, m, steps, k);
    ConstantValues();
    WeightWide();
    TauBound(x, y, N, k);
    TermFits(x.rho, m.a);
    TermFits(y.rho, m.b);
    TermFits(x.rho, m.c);
    TermFits(y.rho, m.d);
    TermFits(x.tau, m.a);
    TermFits(y.tau, m.b);
    TermFits(x.tau, m.c);
    TermFits(y.tau, m.d);
  }

  // ---------------------------------------------------------------- a batch skips nothing

  lemma {:induction false} SecondsFall(x: Row, y: Row, i: nat, j: nat)
    requires i <= j
    ensures Advance(x, y, j).1.rho <= Advance(x, y, i).1.rho
  {
    if i < j {
      SecondsFall(x, y, i, j - 1);
    }
  }

  /** Walking past inadmissible rows with one-word quotients does not change the choice. */
  lemma {:induction false} SkipInadmissible(x: Row, y: Row, limit: nat, n: nat)
    requires n <= Length(x.rho, y.rho) && y.rho <= x.rho && NarrowRun(x.rho, y.rho, n)
    requires forall j :: 1 <= j <= n ==> !Admissible(Advance(x, y, j).1, limit)
    ensures PrincipalRun(x, y, limit) == PrincipalRun(Advance(x, y, n).0, Advance(x, y, n).1, limit)
  {
    if n > 0 {
      SkipInadmissible(x, y, limit, n - 1);
      AdvanceByMatrix(x, y, n - 1);
      AdvanceLength(x, y, n - 1);
      assert !Admissible(Advance(x, y, n).1, limit);
    }
  }

  /** The 32-bit guard: every row before the one a batch lands on is still wider than the limit. */
  lemma GuardHolds(r0: nat, r1: nat, m: Matrix, steps: nat, limit: nat)
    requires Batch(m, r0, r1, steps) && r1 <= r0
    requires BitLen(r1) > limit + GUARD_BITS
    requires m.First(r0, r1) >= m.Second(r0, r1) >= 0
    ensures m.First(r0, r1) > Pow2(limit)
  {
    Recover(m, r0, r1);
    BitLenAtMost(r1, limit + GUARD_BITS);
    Pow2Add(limit, GUARD_BITS);
    Pow2Small();
    hide Matrix.First, Matrix.Second, Matrix.Alternating, RunMatrix, NarrowRun, Length, Pow2, BitLen;
    GuardArith(m.First(r0, r1), m.Second(r0, r1), Abs(m.a), Abs(m.c), r1, Pow2(limit), Pow2(32));
  }

  lemma GuardArith(x: nat, y: nat, a: nat, c: nat, r1: nat, p: nat, g: nat)
    requires x * c + y * a == r1 && y <= x && r1 >= p * g && a + c < g && p > 0
    ensures x > p
  {
    MulMono(a, y, x);
    assert x * (c + a) >= r1;
    if x <= p {
      MulMono(c + a, x, p);
      MulMono(p, c + a + 1, g);
    }
  }

  /** A whole batch: only the row it lands on can be the choice. */
  lemma BatchSkips(x: Row, y: Row, m: Matrix, steps: nat, limit: nat)
    requires 0 < y.rho <= x.rho && steps > 0 && Batch(m, x.rho, y.rho, steps)
    requires BitLen(y.rho) > limit + GUARD_BITS
    ensures var p := Advance(x, y, steps);
            PrincipalRun(x, y, limit) == if Admissible(p.1, limit) then Accepted(p.1) else PrincipalRun(p.0, p.1, limit)
  {
    AdvanceByMatrix(x, y, steps);
    AdvanceLength(x, y, steps);
    AdvanceLength(x, y, steps - 1);
    AdvanceByMatrix(x, y, steps - 1);
    var prev := Advance(x, y, steps - 1);
    GuardHolds(x.rho, y.rho, m, steps, limit);
    forall j | 1 <= j <= steps - 1
      ensures !Admissible(Advance(x, y, j).1, limit)
    {
      SecondsFall(x, y, j, steps - 1);
      BitLenAtMost(Advance(x, y, j).1.rho, limit);
    }
    SkipInadmissible(x, y, limit, steps - 1);
  }

  // ---------------------------------------------------------------- the selector

  method SelectLehmerCore(k: U256, limit: nat) returns (selection: FixedSelection)
    requires Val(k) < L
    ensures Meaning(selection) == PrincipalChoice(Val(k), limit)
  {
    IsZeroVal(k);
    if IsZero(k) {
      return TrivialSelection();
    }
    var x, y := StartRows(k);
    var candidate, found := PrincipalCandidate(y, limit);
    if found {
      return FixedSelection(candidate, true, NoFallback);
    }
    var iterations := 0;
    StartLinked(N, Val(k));
    ConstantValues();
    LengthBelowCap(N, Val(k));
    IsZeroVal(y.rho);
    hide Val, Weight, Linked, Length, PrincipalRun, BitLen, Batch, Applies, Matrix.First, Matrix.Second, Meaning, Advance;
    while !IsZero(y.rho) && iterations < ITERATION_CAP
      invariant Linked(x.Value(), y.Value(), N, Val(k))
      invariant IsZero(y.rho) <==> Val(y.rho) == 0
      invariant Val(y.rho) < Val(x.rho) <= N && Abs(SVal(x.tau)) <= N
      invariant iterations + Length(Val(x.rho), Val(y.rho)) < ITERATION_CAP
      invariant PrincipalChoice(Val(k), limit) == PrincipalRun(x.Value(), y.Value(), limit)
      decreases Val(y.rho)
    {
      var rhoBits := BitLenLimbs(y.rho);
      if rhoBits > limit + GUARD_BITS {
        var m, steps := LehmerMatrixOf(x.rho, y.rho);
        if steps > 0 {
          BatchFacts(x, y, m, steps, limit, Val(k));
          var x', y', ok := ApplyMatrix(x, y, m);
          if !ok {
            return Reject(WidthExceeded);
          }
          x, y := x', y';
          iterations := iterations + steps;
          candidate, found := PrincipalCandidate(y, limit);
          if found {
            return FixedSelection(candidate, true, NoFallback);
          }
          IsZeroVal(y.rho);
          continue;
        }
      }
      var quotient, remainder := DivMod256(x.rho, y.rho);
      iterations := iterations + 1;
      NextLinked(x.Value(), y.Value(), N, Val(k));
      TauBound(x.Value(), y.Value(), N, Val(k));
      StepFacts(x.Value(), y.Value(), limit);
      var next, ok := AdvanceRow(x, y, quotient, remainder, N, Val(k));
      if !ok {
        return Reject(WidthExceeded);
      }
      x, y := y, next;
      candidate, found := PrincipalCandidate(y, limit);
      if found {
        return FixedSelection(candidate, true, NoFallback);
      }
      IsZeroVal(y.rho);
    }
    return Reject(WidthExceeded);
  }

  /** Everything the loop needs about one batch. */
  lemma BatchFacts(x: WideRow, y: WideRow, m: Matrix, steps: nat, limit: nat, k: int)
    requires Linked(x.Value(), y.Value(), N, k) && steps > 0
    requires 0 < Val(y.rho) < Val(x.rho) <= N && Abs(SVal(x.tau)) <= N
    requires Batch(m, Val(x.rho), Val(y.rho), steps) && BitLen(Val(y.rho)) > limit + GUARD_BITS
    ensures Entries(m) && Applies(x.Value(), y.Value(), m)
    ensures var r0, r1, t0, t1 := Val(x.rho), Val(y.rho), SVal(x.tau), SVal(y.tau);
            0 <= m.First(r0, r1) && 0 <= m.Second(r0, r1) &&
            var a, b := Row(m.First(r0, r1), m.First(t0, t1)), Row(m.Second(r0, r1), m.Second(t0, t1));
            && Linked(a, b, N, k) && b.rho < Val(y.rho) && b.rho < a.rho <= N && Abs(a.tau) <= N
            && Length(a.rho, b.rho) + steps == Length(r0, r1)
            && PrincipalRun(x.Value(), y.Value(), limit)
               == if Admissible(b, limit) then Accepted(b) else PrincipalRun(a, b, limit)
  {
    hide Val, Weight, SVal, PrincipalRun, BitLen, Linked, Advance, Length, Matrix.First, Matrix.Second, Admissible, Applies;
    BatchApplies(x.Value(), y.Value(), m, steps, k);
    BatchSkips(x.Value(), y.Value(), m, steps, limit);
    AdvanceLength(x.Value(), y.Value(), steps);
  }

  /** What one exact step does to the length and to the choice. */
  lemma StepFacts(x: Row, y: Row, limit: nat)
    requires 0 < y.rho <= x.rho
    ensures Length(y.rho, Euclid.Next(x, y).rho) + 1 == Length(x.rho, y.rho)
    ensures PrincipalRun(x, y, limit)
         == if x.rho / y.rho >= R64 then Rejected(WidthExceeded)
            else if Admissible(Euclid.Next(x, y), limit) then Accepted(Euclid.Next(x, y))
            else PrincipalRun(y, Euclid.Next(x, y), limit)
  {}
}
