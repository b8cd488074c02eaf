/** The inversion addition chain, x^(p-2), on reduced elements (internal/r51x5/arithmetic.go) and in the
    composable domain (internal/r51x5/batch_encode_ifma.go). */
module FieldInvert {
  import opened Arith
  import opened FieldLimbs
  import opened FieldStage
  import opened FieldReduce
  import opened Fermat
  import opened Unit

  /** z is a representative of x^n. */
  ghost predicate IsPower(z: seq<int>, x: int, n: nat)
    requires |z| == 5
  {
    Same(FVal(z), Power(x, n))
  }

  lemma PowerProduct(a: int, b: int, c: int, x: int, m: nat, n: nat)
    requires Same(a, Power(x, m)) && Same(b, Power(x, n)) && Same(c, a * b)
    ensures Same(c, Power(x, m + n))
  {
    hide Congruent, Power;
    CongruentProduct(a, Power(x, m), b, Power(x, n), P);
    PowerAdd(x, m, n);
    CongruentTrans(c, a * b, Power(x, m + n), P);
  }

  lemma PowerOne(x: int)
    ensures Same(x, Power(x, 1))
  {
    assert Power(x, 1) == x * Power(x, 0);
    SameBy(x, Power(x, 1), 0);
  }

  /** The exponent after count squarings and a multiplication. */
  function Chained(m: nat, n: nat, count: nat): nat {
    m * Pow2(count) + n
  }

  lemma SmallChain()
    ensures Chained(2, 1, 2) == 9 && Chained(11, 9, 1) == Pow2(5) - 1 && Pow2(5) == 32
  {
    Pow2Five();
    assert Pow2(1) == 2;
  }

  /** The closing step of the chain lands on p-2. */
  lemma TopOfChain()
    ensures Chained(Pow2(250) - 1, 11, 5) == P - 2
  {
    hide Pow2;
    Pow2Five();
    Pow2Add(250, 5);
    Pow2Double(255);
    Pow2Wide();
  }

  /** (2^a - 1)*2^b + (2^b - 1) == 2^(a+b) - 1. */
  lemma Ones(a: nat, b: nat)
    ensures Chained(Pow2(a) - 1, Pow2(b) - 1, b) == Pow2(a + b) - 1
  {
    hide Pow2;
    Pow2Add(a, b);
    assert (Pow2(a) - 1) * Pow2(b) == Pow2(a) * Pow2(b) - Pow2(b);
  }

  lemma ChainStep(m: nat, i: nat)
    ensures m * Pow2(i) + m * Pow2(i) == m * Pow2(i + 1) && m * Pow2(0) == m
  {
    Pow2Double(i);
    hide Pow2;
  }

  // ---------------------------------------------------------------- on reduced elements

  method MultiplyPowers(a: Limbs, b: Limbs, ghost x: int, ghost m: nat, ghost n: nat) returns (c: Limbs)
    requires Reduced(a) && Reduced(b) && IsPower(a, x, m) && IsPower(b, x, n)
    ensures Reduced(c) && IsPower(c, x, m + n)
  {
    hide Same, FVal, Power;
    c := Multiply(a, b);
    RemainderSame(FVal(a) * FVal(b));
    PowerProduct(FVal(a), FVal(b), FVal(c), x, m, n);
  }

  lemma RemainderSame(v: int)
    ensures Same(v % P, v)
  {
    CongruentMod(v, P);
    CongruentSym(v, v % P, P);
  }

  /** repeatedSquareMultiply. */
  method RepeatedSquareMultiply(a: Limbs, b: Limbs, count: nat, ghost x: int, ghost m: nat, ghost n: nat) returns (z: Limbs)
    requires Reduced(a) && Reduced(b) && IsPower(a, x, m) && IsPower(b, x, n)
    ensures Reduced(z) && IsPower(z, x, Chained(m, n, count))
  {
    hide IsPower, Reduced, Pow2;
    z := a;
    ChainStep(m, 0);
    for i := 0 to count
      invariant Reduced(z) && IsPower(z, x, m * Pow2(i))
    {
      ChainStep(m, i);
      z := MultiplyPowers(z, z, x, m * Pow2(i), m * Pow2(i));
    }
    z := MultiplyPowers(z, b, x, m * Pow2(count), n);
  }

  /** Element.Invert: the power p-2, whatever x is. */
  method Invert(base: Limbs) returns (z: Limbs)
    requires Reduced(base)
    ensures Reduced(z) && FVal(z) == Power(FVal(base), P - 2) % P
    ensures IsPrime(P) && FVal(base) != 0 ==> Same(FVal(base) * FVal(z), 1)
    ensures FVal(base) == 0 ==> FVal(z) == 0
  {
    hide IsPower, Reduced, Pow2, FVal, Power, Chained, IsPrime, Congruent;
    ghost var x := FVal(base);
    BaseIsPower(base);
    SmallChain();
    var x2 := MultiplyPowers(base, base, x, 1, 1);
    var x9 := RepeatedSquareMultiply(x2, base, 2, x, 2, 1);
    var x11 := MultiplyPowers(x9, x2, x, 9, 2);
    var x5 := RepeatedSquareMultiply(x11, x9, 1, x, 11, 9);
    Ones(5, 5);
    var x10 := RepeatedSquareMultiply(x5, x5, 5, x, Pow2(5) - 1, Pow2(5) - 1);
    Ones(10, 10);
    var x20 := RepeatedSquareMultiply(x10, x10, 10, x, Pow2(10) - 1, Pow2(10) - 1);
    Ones(20, 20);
    var x40 := RepeatedSquareMultiply(x20, x20, 20, x, Pow2(20) - 1, Pow2(20) - 1);
    Ones(40, 10);
    var x50 := RepeatedSquareMultiply(x40, x10, 10, x, Pow2(40) - 1, Pow2(10) - 1);
    Ones(50, 50);
    var x100 := RepeatedSquareMultiply(x50, x50, 50, x, Pow2(50) - 1, Pow2(50) - 1);
    Ones(100, 100);
    var x200 := RepeatedSquareMultiply(x100, x100, 100, x, Pow2(100) - 1, Pow2(100) - 1);
    Ones(200, 50);
    var x250 := RepeatedSquareMultiply(x200, x50, 50, x, Pow2(200) - 1, Pow2(50) - 1);
    TopOfChain();
    z := RepeatedSquareMultiply(x250, x11, 5, x, Pow2(250) - 1, 11);
    LastPower(z, x);
    ReducedRange(base);
    ReducedRange(z);
    InversePowerOf(x, FVal(z), P);
  }

  lemma BaseIsPower(base: Limbs)
    ensures IsPower(base, FVal(base), 1)
  {
    PowerOne(FVal(base));
  }

  lemma ReducedRange(x: Limbs)
    requires Reduced(x)
    ensures 0 <= FVal(x) < P
  {
    FValBelow(x);
  }

  /** The reduced representative of x^(p-2). */
  lemma InversePowerOf(x: nat, z: nat, p: nat)
    requires p > 2 && x < p && z < p && Congruent(z, Power(x, p - 2), p)
    ensures z == Power(x, p - 2) % p
    ensures IsPrime(p) && x != 0 ==> Congruent(x * z, 1, p)
    ensures x == 0 ==> z == 0
  {
    hide Power, IsPrime, Congruent;
    CongruentMod(Power(x, p - 2), p);
    CongruentTrans(z, Power(x, p - 2), Power(x, p - 2) % p, p);
    CongruentUnique(z, Power(x, p - 2) % p, p);
    if x == 0 {
      ZeroPower(p - 2);
    } else if IsPrime(p) {
      DivUnique(x, p, 0, x);
      Reciprocal(x, z, p);
    }
  }

  lemma ZeroPower(n: nat)
    requires n > 0
    ensures Power(0, n) == 0
  {}

  // ---------------------------------------------------------------- in the composable domain

  method ComposablePowers(a: Limbs, b: Limbs, ghost x: int, ghost m: nat, ghost n: nat) returns (c: Limbs)
    requires U52(a) && U52(b) && IsPower(a, x, m) && IsPower(b, x, n)
    ensures U52(c) && IsPower(c, x, m + n)
  {
    hide Same, FVal, Power;
    var ok;
    c, ok := MultiplyComposable(a, b);
    PowerProduct(FVal(a), FVal(b), FVal(c), x, m, n);
  }

  method RepeatedSquareMultiplyComposable(a: Limbs, b: Limbs, count: nat, ghost x: int, ghost m: nat, ghost n: nat)
    returns (z: Limbs)
    requires U52(a) && U52(b) && IsPower(a, x, m) && IsPower(b, x, n)
    ensures U52(z) && IsPower(z, x, Chained(m, n, count))
  {
    hide IsPower, U52, Pow2;
    z := a;
    ChainStep(m, 0);
    for i := 0 to count
      invariant U52(z) && IsPower(z, x, m * Pow2(i))
    {
      ChainStep(m, i);
      z := ComposablePowers(z, z, x, m * Pow2(i), m * Pow2(i));
    }
    z := ComposablePowers(z, b, x, m * Pow2(count), n);
  }

  /** invertIFMA in one lane: the same chain on u52 representatives. */
  method InvertComposable(base: Limbs) returns (z: Limbs)
    requires U52(base)
    ensures U52(z) && Same(FVal(z), Power(FVal(base), P - 2))
    ensures IsPrime(P) && FVal(base) % P != 0 ==> Same(FVal(base) * FVal(z), 1)
  {
    hide IsPower, U52, Pow2, FVal, Power, Chained, IsPrime, Congruent;
    ghost var x := FVal(base);
    BaseIsPower(base);
    SmallChain();
    var x2 := ComposablePowers(base, base, x, 1, 1);
    var x9 := RepeatedSquareMultiplyComposable(x2, base, 2, x, 2, 1);
    var x11 := ComposablePowers(x9, x2, x, 9, 2);
    var x5 := RepeatedSquareMultiplyComposable(x11, x9, 1, x, 11, 9);
    Ones(5, 5);
    var x10 := RepeatedSquareMultiplyComposable(x5, x5, 5, x, Pow2(5) - 1, Pow2(5) - 1);
    Ones(10, 10);
    var x20 := RepeatedSquareMultiplyComposable(x10, x10, 10, x, Pow2(10) - 1, Pow2(10) - 1);
    Ones(20, 20);
    var x40 := RepeatedSquareMultiplyComposable(x20, x20, 20, x, Pow2(20) - 1, Pow2(20) - 1);
    Ones(40, 10);
    var x50 := RepeatedSquareMultiplyComposable(x40, x10, 10, x, Pow2(40) - 1, Pow2(10) - 1);
    Ones(50, 50);
    var x100 := RepeatedSquareMultiplyComposable(x50, x50, 50, x, Pow2(50) - 1, Pow2(50) - 1);
    Ones(100, 100);
    var x200 := RepeatedSquareMultiplyComposable(x100, x100, 100, x, Pow2(100) - 1, Pow2(100) - 1);
    Ones(200, 50);
    var x250 := RepeatedSquareMultiplyComposable(x200, x50, 50, x, Pow2(200) - 1, Pow2(50) - 1);
    TopOfChain();
    z := RepeatedSquareMultiplyComposable(x250, x11, 5, x, Pow2(250) - 1, 11);
    LastPower(z, x);
    if IsPrime(P) && x % P != 0 { U52NonNeg(base); Reciprocal(x, FVal(z), P); }
  }

  lemma LastPower(z: Limbs, x: int)
    requires IsPower(z, x, P - 2)
    ensures Same(FVal(z), Power(x, P - 2))
  {}

  lemma U52NonNeg(base: Limbs)
    requires U52(base)
    ensures FVal(base) >= 0
  {}
}
