/** Exactly which multipliers preserve the equation, and the equivalence for every lane the preparation gates
    admit (internal/r51x5/heea_base_split.go:34-104, heea_base_split_ifma.go:134-189). */
module EquationExact {
  import opened Arith
  import opened Bytes
  import opened Selection
  import opened GroupTheory
  import opened Unit
  import opened Fermat
  import opened Equation
  import opened HeeaPrepare

  /** What the caller establishes before the transformed equation is evaluated. */
  ghost predicate Relation(s: int, k: int, tau: int, rho: int, epsilon: int, lambda0: int, lambda1: int) {
    && (epsilon == 1 || epsilon == -1)
    && Congruent(lambda0 + SPLIT * lambda1, tau * s, L)
    && Congruent(rho, epsilon * (tau * k), N)
  }

  /** With L prime an odd number is invertible modulo 8L as soon as L does not divide it. */
  lemma OddUnit(tau: int) returns (inverse: int)
    requires IsPrime(L) && tau % 2 == 1 && !Divides(L, tau)
    ensures Congruent(inverse * tau, 1, N)
  {
    hide IsPrime, Congruent;
    var r := tau % N;
    DivMod(tau, N);
    ResidueKeeps(tau, tau / N, r);
    inverse := UnitInverse(r);
    CongruentMod(tau, N);
    CongruentMul(tau, r, inverse, N);
    CongruentTrans(inverse * tau, inverse * r, 1, N);
  }

  lemma ResidueKeeps(tau: int, q: int, r: int)
    requires tau == q * N + r && 0 <= r < N && tau % 2 == 1 && !Divides(L, tau)
    ensures PassesTable(r)
  {
    if r == L { DividesBy(L, 8 * q + 1, tau); }
    if r == 3 * L { DividesBy(L, 8 * q + 3, tau); }
    if r == 5 * L { DividesBy(L, 8 * q + 5, tau); }
    if r == 7 * L { DividesBy(L, 8 * q + 7, tau); }
  }

  /** In every group of the setting, an odd tau that L does not divide accepts exactly what the strict equation accepts. */
  lemma UnitsPreserve<G(!new)>(g: Group<G>, B: G, R: G, A: G, s: int, k: int, tau: int, rho: int, epsilon: int, lambda0: int, lambda1: int)
    requires Setting(g, B) && IsPrime(L) && tau % 2 == 1 && !Divides(L, tau)
    requires Relation(s, k, tau, rho, epsilon, lambda0, lambda1)
    ensures FourTerm(g, B, R, A, lambda0, lambda1, -tau, -(epsilon * rho)) == g.zero <==> Strict(g, B, R, A, s, k) == g.zero
  {
    hide IsPrime, Divides, Congruent, Setting, FourTerm, Strict;
    var inverse := OddUnit(tau);
    EquationPreserved(g, B, R, A, s, k, tau, rho, epsilon, lambda0, lambda1, inverse);
  }

  lemma CyclicKills(tau: int, p: Residue)
    requires ((tau % N) * p) % N == 0
    ensures Mul(Cyclic(), tau, p) == 0
  {
    CyclicOrders(p);
    CyclicAbelian();
    CongruentMod(tau, N);
    CyclicTimes(tau % N, p);
    hide Abelian, Congruent, Times;
    MulCongruent(Cyclic(), tau, tau % N, N, p);
  }

  /** A nonzero residue that tau sends to zero, when tau is no unit. */
  lemma Annihilated(tau: int) returns (p: Residue)
    requires tau % 2 == 0 || Divides(L, tau)
    ensures p != 0 && ((tau % N) * p) % N == 0
  {
    DivMod(tau, N);
    if tau % 2 == 0 {
      p := 4 * L;
      EvenResidue(tau, tau / N, tau % N);
    } else {
      p := 8;
      OrderResidue(tau, tau / N, tau % N);
    }
  }

  lemma EvenResidue(tau: int, q: int, r: int)
    requires tau % 2 == 0 && tau == q * N + r
    ensures (r * (4 * L)) % N == 0
  {
    assert tau == 2 * (q * (4 * L)) + r;
    DivUnique(r * (4 * L), N, r / 2, 0);
  }

  lemma OrderResidue(tau: int, q: int, r: int)
    requires Divides(L, tau) && tau == q * N + r
    ensures (r * 8) % N == 0
  {
    var m := DividesWitness(L, tau);
    DivUnique(r * 8, N, m - 8 * q, 0);
  }

  /** Otherwise a point R is accepted by the transformed equation and rejected by the strict one. */
  lemma OthersFail(tau: int) returns (R: Residue)
    requires tau % 2 == 0 || Divides(L, tau)
    ensures Relation(0, 0, tau, 0, 1, 0, 0)
    ensures FourTerm(Cyclic(), 8, R, 0, 0, 0, -tau, -(1 * 0)) == 0 && Strict(Cyclic(), 8, R, 0, 0, 0) != 0
  {
    hide FourTerm, Strict, Mul, Setting, Relation, Divides;
    var p := Annihilated(tau);
    R := NegResidue(p);
    ZeroRelation(tau);
    NegStrict(R, p);
    CyclicKills(tau, p);
    CyclicSetting();
    ZeroFourTerm(tau, R, p, 0, 1);
  }

  lemma ZeroRelation(tau: int)
    ensures Relation(0, 0, tau, 0, 1, 0, 0)
  {
    CongruentBy(0 + SPLIT * 0, tau * 0, L, 0);
    CongruentBy(0, 1 * (tau * 0), N, 0);
  }

  lemma NegStrict(R: Residue, p: Residue)
    requires p != 0 && R == NegResidue(p)
    ensures Strict(Cyclic(), 8, R, 0, 0, 0) == p
  {
    assert Mul(Cyclic(), 0, 8) == 0 && Mul(Cyclic(), 0, 0) == 0;
  }

  lemma ZeroFourTerm(tau: int, R: Residue, p: Residue, zero: int, one: int)
    requires zero == 0 && one == 1 && Strict(Cyclic(), 8, R, 0, 0, 0) == p && Mul(Cyclic(), tau, p) == 0
    requires Setting(Cyclic(), 8) && Relation(0, 0, tau, 0, 1, 0, 0)
    ensures FourTerm(Cyclic(), 8, R, 0, zero, zero, -tau, -(one * zero)) == 0
  {
    hide Setting, FourTerm, Strict, Mul, Congruent;
    FourTermIsScaled(Cyclic(), 8, R, 0, zero, zero, tau, zero, one, zero, zero);
  }

  /** The transformed equation agrees with the strict one for all points and relations of the cyclic group. */
  ghost predicate PreservesAll(tau: int) {
    forall R: Residue, A: Residue, s: int, k: int, rho: int, epsilon: int, lambda0: int, lambda1: int ::
      Relation(s, k, tau, rho, epsilon, lambda0, lambda1) ==>
        (FourTerm(Cyclic(), 8, R, A, lambda0, lambda1, -tau, -(epsilon * rho)) == 0 <==> Strict(Cyclic(), 8, R, A, s, k) == 0)
  }

  /** The multipliers that preserve the equation are exactly the units: odd and not divisible by L. */
  lemma ExactlyUnits(tau: int)
    requires IsPrime(L)
    ensures PreservesAll(tau) <==> tau % 2 == 1 && !Divides(L, tau)
  {
    hide IsPrime, Divides, Relation, FourTerm, Strict, Setting;
    if tau % 2 == 1 && !Divides(L, tau) {
      CyclicSetting();
      forall R: Residue, A: Residue, s: int, k: int, rho: int, epsilon: int, lambda0: int, lambda1: int |
        Relation(s, k, tau, rho, epsilon, lambda0, lambda1)
        ensures FourTerm(Cyclic(), 8, R, A, lambda0, lambda1, -tau, -(epsilon * rho)) == 0 <==> Strict(Cyclic(), 8, R, A, s, k) == 0
      {
        UnitsPreserve(Cyclic(), 8, R, A, s, k, tau, rho, epsilon, lambda0, lambda1);
      }
    } else {
      var R := OthersFail(tau);
    }
  }

  // ---------------------------------------------------------------- lanes

  lemma LowByteParity(b: Bytes32)
    ensures LeValue(b) % 2 == b[0] % 2
  {
    var t := LeValue(b[1..]);
    assert LeValue(b) == b[0] + 2 * (128 * t);
  }

  /** The gates admit only units: an odd magnitude below L. */
  lemma AdmittedUnit(s: Bytes32, tau: Coefficient, rho: Coefficient, epsilon: int)
    requires Admits(s, tau, rho, epsilon)
    ensures CoefficientInt(tau) % 2 == 1 && !Divides(L, CoefficientInt(tau))
  {
    LowByteParity(tau.magnitude);
    hide LeValue, Divides;
    NotDivisible(L, LeValue(tau.magnitude));
    if Divides(L, -(LeValue(tau.magnitude) as int)) { NegativeDivides(L, -(LeValue(tau.magnitude) as int)); }
  }

  lemma NegativeDivides(d: int, n: int)
    requires Divides(d, n)
    ensures Divides(d, -n)
  {
    var m := DividesWitness(d, n);
    assert d * -m == -(d * m);
    DividesBy(d, -m, -n);
  }

  lemma LaneRelation(q: FourTerms, s: nat, k: int, tau: int, rho: int, epsilon: int)
    requires (epsilon == 1 || epsilon == -1) && Congruent(rho, epsilon * (tau * k), N) && Carries(q, s, tau, rho, epsilon)
    ensures Relation(s, k, tau, rho, epsilon, Term(q, 0), Term(q, 1)) && Term(q, 2) == -tau && Term(q, 3) == -(epsilon * rho)
  {
    hide Congruent, LeValue;
  }

  /** Every admitted lane whose rho is epsilon*tau*k modulo 8L, wherever the pair came from, accepts exactly
      the signatures the strict equation accepts. */
  lemma LaneDecides<G(!new)>(g: Group<G>, B: G, R: G, A: G, q: FourTerms, s: Bytes32, k: int, tau: Coefficient, rho: Coefficient, epsilon: int)
    requires Setting(g, B) && IsPrime(L) && Admits(s, tau, rho, epsilon)
    requires Congruent(CoefficientInt(rho), epsilon * (CoefficientInt(tau) * k), N)
    requires Carries(q, LeValue(s), CoefficientInt(tau), CoefficientInt(rho), epsilon)
    ensures FourTerm(g, B, R, A, Term(q, 0), Term(q, 1), Term(q, 2), Term(q, 3)) == g.zero
       <==> Strict(g, B, R, A, LeValue(s), k) == g.zero
  {
    hide Setting, IsPrime, Congruent, FourTerm, Strict, LeValue, Term, Divides, CoefficientInt, Admits, Carries, Relation;
    AdmittedUnit(s, tau, rho, epsilon);
    AdmittedSign(s, tau, rho, epsilon);
    LaneRelation(q, LeValue(s), k, CoefficientInt(tau), CoefficientInt(rho), epsilon);
    UnitsPreserve(g, B, R, A, LeValue(s), k, CoefficientInt(tau), CoefficientInt(rho), epsilon, Term(q, 0), Term(q, 1));
  }

  lemma AdmittedSign(s: Bytes32, tau: Coefficient, rho: Coefficient, epsilon: int)
    requires Admits(s, tau, rho, epsilon)
    ensures epsilon == 1 || epsilon == -1
  {}
}
