/** An abstract abelian group and exact integer multiples of its elements. The curve itself is not
    modelled: section 5.1 of RFC 8032 supplies a group of exponent 8L with a base point of order L. */
module GroupTheory {
  import opened Arith

  datatype Group<!G(!new)> = Group(zero: G, add: (G, G) -> G, neg: G -> G)

  ghost predicate Abelian<G(!new)>(g: Group<G>) {
    && (forall a, b, c :: g.add(g.add(a, b), c) == g.add(a, g.add(b, c)))
    && (forall a, b :: g.add(a, b) == g.add(b, a))
    && (forall a :: g.add(a, g.zero) == a)
    && (forall a :: g.add(a, g.neg(a)) == g.zero)
  }

  /** p added to itself n times. */
  function Times<G(!new)>(g: Group<G>, n: nat, p: G): G {
    if n == 0 then g.zero else g.add(Times(g, n - 1, p), p)
  }

  /** The exact integer multiple [n]p. */
  function Mul<G(!new)>(g: Group<G>, n: int, p: G): G {
    if n < 0 then g.neg(Times(g, -n, p)) else Times(g, n, p)
  }

  function Sub<G(!new)>(g: Group<G>, a: G, b: G): G { g.add(a, g.neg(b)) }

  lemma Assoc<G(!new)>(g: Group<G>, a: G, b: G, c: G)
    requires Abelian(g)
    ensures g.add(g.add(a, b), c) == g.add(a, g.add(b, c))
  {}

  lemma Comm<G(!new)>(g: Group<G>, a: G, b: G)
    requires Abelian(g)
    ensures g.add(a, b) == g.add(b, a)
  {}

  lemma Zero<G(!new)>(g: Group<G>, a: G)
    requires Abelian(g)
    ensures g.add(a, g.zero) == a && g.add(g.zero, a) == a
  {
    Comm(g, a, g.zero);
  }

  lemma Inverse<G(!new)>(g: Group<G>, a: G)
    requires Abelian(g)
    ensures g.add(a, g.neg(a)) == g.zero && g.add(g.neg(a), a) == g.zero
  {
    Comm(g, a, g.neg(a));
  }

  lemma CancelRight<G(!new)>(g: Group<G>, a: G, b: G, c: G)
    requires Abelian(g) && g.add(a, c) == g.add(b, c)
    ensures a == b
  {
    hide Abelian;
    Assoc(g, a, c, g.neg(c));
    Assoc(g, b, c, g.neg(c));
    Inverse(g, c);
    Zero(g, a);
    Zero(g, b);
  }

  /** (a+b)+(c+d) == (a+c)+(b+d). */
  lemma Shuffle<G(!new)>(g: Group<G>, a: G, b: G, c: G, d: G)
    requires Abelian(g)
    ensures g.add(g.add(a, b), g.add(c, d)) == g.add(g.add(a, c), g.add(b, d))
  {
    hide Abelian;
    Assoc(g, a, b, g.add(c, d));
    Assoc(g, b, c, d);
    Comm(g, b, c);
    Assoc(g, c, b, d);
    Assoc(g, a, c, g.add(b, d));
  }

  lemma NegUnique<G(!new)>(g: Group<G>, a: G, b: G)
    requires Abelian(g) && g.add(a, b) == g.zero
    ensures b == g.neg(a)
  {
    hide Abelian;
    Inverse(g, a);
    Comm(g, a, b);
    Comm(g, a, g.neg(a));
    CancelRight(g, b, g.neg(a), a);
  }

  lemma NegNeg<G(!new)>(g: Group<G>, a: G)
    requires Abelian(g)
    ensures g.neg(g.neg(a)) == a
  {
    hide Abelian;
    Inverse(g, a);
    NegUnique(g, g.neg(a), a);
  }

  lemma NegAdd<G(!new)>(g: Group<G>, a: G, b: G)
    requires Abelian(g)
    ensures g.neg(g.add(a, b)) == g.add(g.neg(a), g.neg(b))
  {
    hide Abelian;
    Shuffle(g, a, b, g.neg(a), g.neg(b));
    Inverse(g, a);
    Inverse(g, b);
    Zero(g, g.zero);
    NegUnique(g, g.add(a, b), g.add(g.neg(a), g.neg(b)));
  }

  lemma NegZero<G(!new)>(g: Group<G>)
    requires Abelian(g)
    ensures g.neg(g.zero) == g.zero
  {
    hide Abelian;
    Zero(g, g.zero);
    NegUnique(g, g.zero, g.zero);
  }

  // ---------------------------------------------------------------- multiples

  lemma MulZeroOne<G(!new)>(g: Group<G>, p: G)
    requires Abelian(g)
    ensures Mul(g, 0, p) == g.zero && Mul(g, 1, p) == p
  {
    Zero(g, p);
    assert Times(g, 1, p) == g.add(Times(g, 0, p), p);
  }

  lemma {:induction false} TimesAdd<G(!new)>(g: Group<G>, m: nat, n: nat, p: G)
    requires Abelian(g)
    ensures Times(g, m + n, p) == g.add(Times(g, m, p), Times(g, n, p))
    decreases n
  {
    hide Abelian;
    if n == 0 {
      Zero(g, Times(g, m, p));
    } else {
      TimesAdd(g, m, n - 1, p);
      Assoc(g, Times(g, m, p), Times(g, n - 1, p), p);
    }
  }

  lemma MulNeg<G(!new)>(g: Group<G>, n: int, p: G)
    requires Abelian(g)
    ensures Mul(g, -n, p) == g.neg(Mul(g, n, p))
  {
    hide Abelian;
    if n == 0 {
      NegZero(g);
    } else {
      NegNeg(g, Times(g, Abs(n), p));
    }
  }

  /** [n+1]p == [n]p + p for every integer n. */
  lemma MulSucc<G(!new)>(g: Group<G>, n: int, p: G)
    requires Abelian(g)
    ensures Mul(g, n + 1, p) == g.add(Mul(g, n, p), p)
  {
    hide Abelian;
    if n < 0 {
      var t := Times(g, -n - 1, p);
      assert Times(g, -n, p) == g.add(t, p);
      NegAdd(g, t, p);
      Assoc(g, g.neg(t), g.neg(p), p);
      Inverse(g, p);
      Zero(g, g.neg(t));
      NegZero(g);
    }
  }

  lemma {:induction false} MulAddNat<G(!new)>(g: Group<G>, m: int, n: nat, p: G)
    requires Abelian(g)
    ensures Mul(g, m + n, p) == g.add(Mul(g, m, p), Mul(g, n, p))
    decreases n
  {
    hide Abelian, Mul;
    if n == 0 {
      MulZeroOne(g, p);
      Zero(g, Mul(g, m, p));
    } else {
      MulAddNat(g, m, n - 1, p);
      MulSucc(g, m + n - 1, p);
      MulSucc(g, n - 1, p);
      Assoc(g, Mul(g, m, p), Mul(g, n - 1, p), p);
    }
  }

  /** [m+n]p == [m]p + [n]p. */
  lemma MulAdd<G(!new)>(g: Group<G>, m: int, n: int, p: G)
    requires Abelian(g)
    ensures Mul(g, m + n, p) == g.add(Mul(g, m, p), Mul(g, n, p))
  {
    hide Abelian, Mul;
    if n >= 0 {
      MulAddNat(g, m, n, p);
    } else {
      MulAddNat(g, m + n, -n, p);
      MulNeg(g, n, p);
      var a, b := Mul(g, m + n, p), Mul(g, n, p);
      Assoc(g, a, g.neg(b), b);
      Comm(g, g.neg(b), b);
      Inverse(g, b);
      Zero(g, a);
    }
  }

  lemma {:induction false} MulMulNat<G(!new)>(g: Group<G>, m: nat, n: int, p: G)
    requires Abelian(g)
    ensures Mul(g, m * n, p) == Mul(g, m, Mul(g, n, p))
    decreases m
  {
    hide Abelian, Mul;
    if m == 0 {
      MulZeroOne(g, p);
      MulZeroOne(g, Mul(g, n, p));
    } else {
      MulMulNat(g, m - 1, n, p);
      assert m * n == (m - 1) * n + n;
      MulAdd(g, (m - 1) * n, n, p);
      MulSucc(g, m - 1, Mul(g, n, p));
    }
  }

  /** [m*n]p == [m]([n]p). */
  lemma MulMul<G(!new)>(g: Group<G>, m: int, n: int, p: G)
    requires Abelian(g)
    ensures Mul(g, m * n, p) == Mul(g, m, Mul(g, n, p))
  {
    hide Abelian, Mul;
    if m >= 0 {
      MulMulNat(g, m, n, p);
    } else {
      MulMulNat(g, -m, n, p);
      assert (-m) * n == -(m * n);
      MulNeg(g, -(m * n), p);
      MulNeg(g, -m, Mul(g, n, p));
    }
  }

  lemma {:induction false} TimesOfSum<G(!new)>(g: Group<G>, n: nat, p: G, q: G)
    requires Abelian(g)
    ensures Times(g, n, g.add(p, q)) == g.add(Times(g, n, p), Times(g, n, q))
  {
    hide Abelian;
    if n == 0 {
      Zero(g, g.zero);
    } else {
      TimesOfSum(g, n - 1, p, q);
      Shuffle(g, Times(g, n - 1, p), Times(g, n - 1, q), p, q);
    }
  }

  /** [n](p+q) == [n]p + [n]q. */
  lemma MulOfSum<G(!new)>(g: Group<G>, n: int, p: G, q: G)
    requires Abelian(g)
    ensures Mul(g, n, g.add(p, q)) == g.add(Mul(g, n, p), Mul(g, n, q))
  {
    hide Abelian;
    TimesOfSum(g, Abs(n), p, q);
    if n < 0 { NegAdd(g, Times(g, -n, p), Times(g, -n, q)); }
  }

  lemma MulOfNeg<G(!new)>(g: Group<G>, n: int, p: G)
    requires Abelian(g)
    ensures Mul(g, n, g.neg(p)) == Mul(g, -n, p)
  {
    hide Abelian, Mul;
    MulZeroOne(g, p);
    MulNeg(g, 1, p);
    MulMul(g, n, -1, p);
  }

  lemma MulOfZero<G(!new)>(g: Group<G>, n: int)
    requires Abelian(g)
    ensures Mul(g, n, g.zero) == g.zero
  {
    hide Abelian, Mul;
    MulZeroOne(g, g.zero);
    MulMul(g, n, 0, g.zero);
    assert n * 0 == 0;
  }

  /** Multipliers congruent modulo an annihilator act alike. */
  lemma MulCongruent<G(!new)>(g: Group<G>, a: int, b: int, n: int, p: G)
    requires Abelian(g) && Mul(g, n, p) == g.zero && Congruent(a, b, n)
    ensures Mul(g, a, p) == Mul(g, b, p)
  {
    hide Abelian, Mul, Congruent;
    var m := CongruentWitness(a, b, n);
    MulAdd(g, b, m * n, p);
    MulMul(g, m, n, p);
    MulOfZero(g, m);
    Zero(g, Mul(g, b, p));
  }
}
