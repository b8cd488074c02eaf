/** The four-term equation of internal/r51x5/heea_base_split.go accepts exactly when the strict
    cofactorless equation [s]B - R - [k]A = 0 (RFC 8032, section 5.1.7) does. */
module Equation {
  import opened Arith
  import opened Selection
  import opened GroupTheory

  /** 2^128, the split point of the base coefficient. */
  const SPLIT: int := R64 * R64

  /** The group facts the equation rests on: exponent 8L, and a base point killed by L. */
  ghost predicate Setting<G(!new)>(g: Group<G>, B: G) {
    Abelian(g) && (forall p: G :: Mul(g, N, p) == g.zero) && Mul(g, L, B) == g.zero
  }

  /** [s]B - R - [k]A. */
  function Strict<G(!new)>(g: Group<G>, B: G, R: G, A: G, s: int, k: int): G {
    g.add(g.add(Mul(g, s, B), g.neg(R)), Mul(g, -k, A))
  }

  /** [lambda0]B + [lambda1]([2^128]B) + [cR]R + [cA]A. */
  function FourTerm<G(!new)>(g: Group<G>, B: G, R: G, A: G, lambda0: int, lambda1: int, cR: int, cA: int): G {
    g.add(g.add(g.add(Mul(g, lambda0, B), Mul(g, lambda1, Mul(g, SPLIT, B))), Mul(g, cR, R)), Mul(g, cA, A))
  }

  /** The two base terms recombine to [tau*s]B although tau*s was only kept modulo L. */
  lemma BaseTerms<G(!new)>(g: Group<G>, B: G, lambda0: int, lambda1: int, x: int)
    requires Setting(g, B) && Congruent(lambda0 + SPLIT * lambda1, x, L)
    ensures g.add(Mul(g, lambda0, B), Mul(g, lambda1, Mul(g, SPLIT, B))) == Mul(g, x, B)
  {
    hide Abelian, Mul, Congruent;
    MulMul(g, lambda1, SPLIT, B);
    MulAdd(g, lambda0, lambda1 * SPLIT, B);
    assert lambda1 * SPLIT == SPLIT * lambda1;
    MulCongruent(g, lambda0 + SPLIT * lambda1, x, L, B);
  }

  /** [tau] applied to the strict residual, term by term. */
  lemma ScaledStrict<G(!new)>(g: Group<G>, B: G, R: G, A: G, s: int, k: int, tau: int)
    requires Abelian(g)
    ensures Mul(g, tau, Strict(g, B, R, A, s, k))
         == g.add(g.add(Mul(g, tau * s, B), Mul(g, -tau, R)), Mul(g, -(tau * k), A))
  {
    hide Abelian, Mul;
    var p, q := g.add(Mul(g, s, B), g.neg(R)), Mul(g, -k, A);
    MulOfSum(g, tau, p, q);
    MulOfSum(g, tau, Mul(g, s, B), g.neg(R));
    MulMul(g, tau, s, B);
    MulOfNeg(g, tau, R);
    MulMul(g, tau, -k, A);
    assert tau * -k == -(tau * k);
  }

  /** With rho = epsilon*tau*k modulo 8L the four-term sum is exactly tau times the strict residual. */
  lemma FourTermIsScaled<G(!new)>(g: Group<G>, B: G, R: G, A: G, s: int, k: int, tau: int, rho: int, epsilon: int,
                                  lambda0: int, lambda1: int)
    requires Setting(g, B) && (epsilon == 1 || epsilon == -1)
    requires Congruent(lambda0 + SPLIT * lambda1, tau * s, L)
    requires Congruent(rho, epsilon * (tau * k), N)
    ensures FourTerm(g, B, R, A, lambda0, lambda1, -tau, -(epsilon * rho)) == Mul(g, tau, Strict(g, B, R, A, s, k))
  {
    BaseTerms(g, B, lambda0, lambda1, tau * s);
    ScaledStrict(g, B, R, A, s, k, tau);
    CongruentMul(rho, epsilon * (tau * k), -epsilon, N);
    SignSquared(epsilon, tau * k, rho);
    assert Mul(g, N, A) == g.zero;
    hide Abelian, Mul, Congruent;
    MulCongruent(g, -(epsilon * rho), -(tau * k), N, A);
  }

  lemma SignSquared(e: int, x: int, rho: int)
    requires e == 1 || e == -1
    ensures -e * (e * x) == -x && -e * rho == -(e * rho)
  {}

  /** A multiplier that is a unit modulo the exponent loses no point. */
  lemma UnitInjective<G(!new)>(g: Group<G>, tau: int, inverse: int, p: G)
    requires Abelian(g) && Mul(g, N, p) == g.zero && Congruent(inverse * tau, 1, N)
    ensures Mul(g, tau, p) == g.zero <==> p == g.zero
  {
    hide Abelian, Mul, Congruent;
    MulMul(g, inverse, tau, p);
    MulCongruent(g, inverse * tau, 1, N, p);
    MulZeroOne(g, p);
    MulOfZero(g, inverse);
    MulOfZero(g, tau);
  }

  /** The transformed equation and the strict equation accept the same signatures. */
  lemma EquationPreserved<G(!new)>(g: Group<G>, B: G, R: G, A: G, s: int, k: int, tau: int, rho: int, epsilon: int,
                                   lambda0: int, lambda1: int, inverse: int)
    requires Setting(g, B) && (epsilon == 1 || epsilon == -1)
    requires Congruent(lambda0 + SPLIT * lambda1, tau * s, L)
    requires Congruent(rho, epsilon * (tau * k), N)
    requires Congruent(inverse * tau, 1, N)
    ensures FourTerm(g, B, R, A, lambda0, lambda1, -tau, -(epsilon * rho)) == g.zero
       <==> Strict(g, B, R, A, s, k) == g.zero
  {
    FourTermIsScaled(g, B, R, A, s, k, tau, rho, epsilon, lambda0, lambda1);
    assert Mul(g, N, Strict(g, B, R, A, s, k)) == g.zero;
    hide Abelian, Mul, Congruent;
    UnitInjective(g, tau, inverse, Strict(g, B, R, A, s, k));
  }

  // ---------------------------------------------------------------- a group that meets the hypotheses

  type Residue = x: int | 0 <= x < N

  function AddResidue(a: Residue, b: Residue): Residue {
    if a + b >= N then a + b - N else a + b
  }

  function NegResidue(a: Residue): Residue {
    if a == 0 then 0 else N - a
  }

  /** The integers modulo 8L: a group of exponent 8L in which 8 has order L. */
  function Cyclic(): Group<Residue> {
    Group<Residue>.Group(0, AddResidue, NegResidue)
  }

  lemma {:induction false} CyclicTimes(n: nat, p: Residue)
    ensures Times(Cyclic(), n, p) == (n * p) % N
  {
    if n == 0 {
      assert 0 * p == 0;
      DivUnique(0, N, 0, 0);
    } else {
      CyclicTimes(n - 1, p);
      var m := (n - 1) * p;
      DivMod(m, N);
      var r := m % N;
      CyclicStep(n, p, m / N, r);
      if r + p >= N {
        DivUnique(n * p, N, m / N + 1, r + p - N);
      } else {
        DivUnique(n * p, N, m / N, r + p);
      }
    }
  }

  lemma CyclicStep(n: int, p: int, a: int, b: int)
    requires (n - 1) * p == a * N + b
    ensures n * p == a * N + b + p && (a + 1) * N == a * N + N
  {}

  lemma CyclicAbelian()
    ensures Abelian(Cyclic())
  {
    forall a: Residue, b: Residue, c: Residue
      ensures AddResidue(AddResidue(a, b), c) == AddResidue(a, AddResidue(b, c))
    {}
    forall a: Residue, b: Residue
      ensures AddResidue(a, b) == AddResidue(b, a)
    {}
  }

  lemma CyclicOrders(p: Residue)
    ensures Mul(Cyclic(), N, p) == 0 && Mul(Cyclic(), L, 8) == 0
  {
    CyclicTimes(N, p);
    DivUnique(N * p, N, p, 0);
    CyclicTimes(L, 8);
    DivUnique(L * 8, N, 1, 0);
  }

  /** The hypotheses above are consistent: this group meets all of them. */
  lemma CyclicSetting()
    ensures Setting(Cyclic(), 8)
  {
    CyclicAbelian();
    hide Abelian, Mul;
    forall p: Residue
      ensures Mul(Cyclic(), N, p) == Cyclic().zero && Mul(Cyclic(), L, 8) == Cyclic().zero
    {
      CyclicOrders(p);
    }
    CyclicOrders(0);
  }
}
