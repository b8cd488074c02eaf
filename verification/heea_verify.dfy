/** Selection, preparation and equation together: the transformed check accepts exactly the signatures
    the strict cofactorless check accepts, and no used candidate is turned away on the way. */
module HeeaVerify {
  import opened Arith
  import opened Bytes
  import opened Selection
  import opened GroupTheory
  import opened Equation
  import opened EquationExact
  import opened HeeaPrepare
  import opened Unit
  import opened Selectors

  /** Any used selection of any of the five selectors, prepared for (s, k), decides verification. */
  lemma TransformedDecides<G(!new)>(g: Group<G>, B: G, R: G, A: G, q: FourTerms, s: nat, k: nat, c: Choice, limit: nat)
    requires Setting(g, B) && IsPrime(L) && Selected(c, k, limit) && c.use
    requires Carries(q, s, c.tau, c.rho, c.epsilon)
    ensures FourTerm(g, B, R, A, Term(q, 0), Term(q, 1), Term(q, 2), Term(q, 3)) == g.zero
       <==> Strict(g, B, R, A, s, k) == g.zero
  {
    hide Setting, IsPrime, Selected, Congruent, FourTerm, Strict, Term, LeValue, BitLen;
    var inverse := SelectorsSound(c, k, limit);
    var x, lambda0, lambda1 := c.tau * s, Term(q, 0), Term(q, 1);
    assert Term(q, 2) == -c.tau && Term(q, 3) == -(c.epsilon * c.rho) && Congruent(lambda0 + SPLIT * lambda1, x, L);
    assert c.epsilon * (c.tau * k) == c.tau * k;
    hide *;
    EquationPreserved(g, B, R, A, s, k, c.tau, c.rho, c.epsilon, lambda0, lambda1, inverse);
  }

  lemma EvenProduct(a: int, b: int)
    requires b % 2 == 0
    ensures (a * b) % 2 == 0
  {
    assert a * b == 2 * (a * (b / 2));
  }

  lemma UnitOdd(inverse: int, tau: int)
    requires Congruent(inverse * tau, 1, N)
    ensures tau % 2 == 1
  {
    var m := CongruentWitness(inverse * tau, 1, N);
    EvenProduct(m, N);
    if tau % 2 == 0 { EvenProduct(inverse, tau); }
  }

  /** The preparation gates never reject a used candidate of a canonical signature. */
  lemma UsedCandidateAdmitted(s: Bytes32, tau: Coefficient, rho: Coefficient, c: Choice, k: nat, limit: nat)
    requires IsPrime(L) && Selected(c, k, limit) && c.use && LeValue(s) < L
    requires CoefficientInt(tau) == c.tau && CoefficientInt(rho) == c.rho
    ensures Admits(s, tau, rho, c.epsilon)
  {
    var inverse := SelectorsSound(c, k, limit);
    WidthBelowModulus(Abs(c.tau), limit);
    WidthBelowModulus(Abs(c.rho), limit);
    UnitOdd(inverse, c.tau);
    LowByteParity(tau.magnitude);
    hide LeValue, IsPrime, Selected, Congruent, BitLen;
    NegativeParity(LeValue(tau.magnitude));
  }

  lemma NegativeParity(x: int)
    ensures (-x) % 2 == x % 2
  {}
}
