/** Fermat's little theorem, from primality alone: what makes a fixed exponent an inversion. */
module Fermat {
  import opened Arith
  import opened Selection
  import opened Unit

  function Power(x: int, n: nat): int {
    if n == 0 then 1 else x * Power(x, n - 1)
  }

  lemma {:induction false} PowerAdd(x: int, m: nat, n: nat)
    ensures Power(x, m + n) == Power(x, m) * Power(x, n)
    decreases m
  {
    if m > 0 {
      PowerAdd(x, m - 1, n);
      Assoc3(x, Power(x, m - 1), Power(x, n));
    }
  }

  lemma Assoc3(a: int, b: int, c: int)
    ensures a * (b * c) == (a * b) * c
  {}

  lemma {:induction false} PowerMul(x: int, m: nat, n: nat)
    ensures Power(x, m * n) == Power(Power(x, m), n)
    decreases n
  {
    if n == 0 {
      assert m * 0 == 0;
    } else {
      PowerMul(x, m, n - 1);
      assert m * n == m + m * (n - 1);
      PowerAdd(x, m, m * (n - 1));
    }
  }

  /** Congruent factors have congruent products. */
  lemma CongruentProduct(a: int, b: int, c: int, d: int, p: int)
    requires Congruent(a, b, p) && Congruent(c, d, p)
    ensures Congruent(a * c, b * d, p)
  {
    hide Congruent;
    CongruentMul(c, d, a, p);
    CongruentMul(a, b, d, p);
    assert d * a == a * d && d * b == b * d;
    CongruentTrans(a * c, a * d, b * d, p);
  }

  lemma {:induction false} CongruentPower(a: int, b: int, n: nat, p: int)
    requires Congruent(a, b, p)
    ensures Congruent(Power(a, n), Power(b, n), p)
  {
    if n == 0 {
      CongruentBy(1, 1, p, 0);
    } else {
      CongruentPower(a, b, n - 1, p);
      hide Congruent;
      CongruentProduct(a, b, Power(a, n - 1), Power(b, n - 1), p);
    }
  }

  // ---------------------------------------------------------------- primes

  /** Euclid's lemma. */
  lemma PrimeDivides(p: nat, a: nat, b: int)
    requires IsPrime(p) && Divides(p, a * b)
    ensures Divides(p, a) || Divides(p, b)
  {
    var g := Gcd(p, a);
    GcdDivides(p, a);
    GcdPositive(p, a);
    DivisorSmall(g, p);
    if g == p {
      assert Divides(p, a);
    } else {
      if g > 1 { DividesMod(g, p); assert false; }
      var u, v := Bezout(p, a);
      DividesBy(p, 1, p);
      DividesSum(p, p, a * b, u * b, v);
      BezoutTimes(p, a, b, u, v);
    }
  }

  lemma BezoutTimes(p: int, a: int, b: int, u: int, v: int)
    requires p * u + a * v == 1
    ensures p * (u * b) + (a * b) * v == b
  {
    assert (p * u + a * v) * b == p * (u * b) + (a * b) * v;
  }

  /** A factor prime to p can be cancelled. */
  lemma CancelFactor(p: nat, a: nat, x: int, y: int)
    requires IsPrime(p) && !Divides(p, a) && Congruent(a * x, a * y, p)
    ensures Congruent(x, y, p)
  {
    var m := CongruentWitness(a * x, a * y, p);
    assert a * (x - y) == p * m by { assert a * (x - y) == a * x - a * y && m * p == p * m; }
    DividesBy(p, m, a * (x - y));
    PrimeDivides(p, a, x - y);
    var k := DividesWitness(p, x - y);
    assert k * p == p * k;
    CongruentBy(x, y, p, k);
  }

  lemma NotDivisible(p: nat, a: int)
    requires 0 < a < p
    ensures !Divides(p, a)
  {
    if Divides(p, a) { DivisorSmall(p, a); }
  }

  // ---------------------------------------------------------------- products of residues

  function Prod(s: seq<int>): int {
    if |s| == 0 then 1 else s[0] * Prod(s[1..])
  }

  lemma {:induction false} ProdRemove(s: seq<int>, i: nat)
    requires i < |s|
    ensures Prod(s) == s[i] * Prod(s[..i] + s[i + 1..])
  {
    if i == 0 {
      assert s[..0] + s[1..] == s[1..];
    } else {
      ProdRemove(s[1..], i - 1);
      var t := s[..i] + s[i + 1..];
      assert t[1..] == s[1..][..i - 1] + s[1..][i..] && t[0] == s[0];
      Swap(s[0], s[i], Prod(t[1..]));
    }
  }

  lemma Swap(a: int, b: int, c: int)
    ensures a * (b * c) == b * (a * c)
  {}

  lemma {:induction false} ProdPermuted(s: seq<int>, t: seq<int>)
    requires multiset(s) == multiset(t)
    ensures Prod(s) == Prod(t)
  {
    if |s| == 0 {
      assert |multiset(t)| == 0;
    } else {
      var i := FindPermuted(s, t);
      ProdRemove(t, i);
      ProdPermuted(s[1..], t[..i] + t[i + 1..]);
    }
  }

  lemma FindPermuted(s: seq<int>, t: seq<int>) returns (i: nat)
    requires |s| > 0 && multiset(s) == multiset(t)
    ensures i < |t| && t[i] == s[0] && multiset(s[1..]) == multiset(t[..i] + t[i + 1..])
  {
    assert s[0] in multiset(t);
    i :| 0 <= i < |t| && t[i] == s[0];
    var a, b := t[..i], t[i + 1..];
    assert t == a + [t[i]] + b;
    assert s == [s[0]] + s[1..];
    assert multiset(t) == multiset(a) + multiset{t[i]} + multiset(b);
    assert multiset(s) == multiset{s[0]} + multiset(s[1..]);
    assert multiset(a + b) == multiset(a) + multiset(b);
    assert multiset(s[1..]) == multiset(s) - multiset{s[0]};
  }

  predicate Distinct(s: seq<int>) {
    forall i, j :: 0 <= i < j < |s| ==> s[i] != s[j]
  }

  function Elements(s: seq<int>): (e: set<int>)
    ensures forall x :: x in e <==> x in s
  {
    set x | x in s
  }

  lemma {:induction false} DistinctElements(s: seq<int>)
    requires Distinct(s)
    ensures |Elements(s)| == |s| && multiset(s) == multiset(Elements(s))
  {
    if |s| > 0 {
      var n := |s| - 1;
      DistinctElements(s[..n]);
      assert s == s[..n] + [s[n]];
      assert s[n] !in s[..n];
      assert Elements(s) == Elements(s[..n]) + {s[n]};
    } else {
      assert Elements(s) == {};
    }
  }

  function UpTo(n: nat): (s: seq<int>)
    ensures |s| == n && forall i :: 0 <= i < n ==> s[i] == i + 1
  {
    seq(n, i requires 0 <= i < n => i + 1)
  }

  /** n distinct values in 1..n are all of 1..n. */
  lemma Exhausts(s: seq<int>, n: nat)
    requires |s| == n && Distinct(s) && forall x :: x in s ==> 1 <= x <= n
    ensures multiset(s) == multiset(UpTo(n))
  {
    DistinctElements(s);
    DistinctElements(UpTo(n));
    forall x | x in Elements(s) ensures x in Elements(UpTo(n)) {
      assert UpTo(n)[x - 1] == x;
    }
    EqualSets(Elements(s), Elements(UpTo(n)));
  }

  lemma EqualSets(a: set<int>, b: set<int>)
    requires a <= b && |a| == |b|
    ensures a == b
  {
    var rest := b - a;
    assert b == a + rest;
    assert |b| == |a| + |rest|;
    assert rest == {};
  }

  function Multiplied(a: int, n: nat): (s: seq<int>)
    ensures |s| == n && forall i :: 0 <= i < n ==> s[i] == a * (i + 1)
  {
    seq(n, i requires 0 <= i < n => a * (i + 1))
  }

  function Residues(a: int, n: nat, p: int): (s: seq<int>)
    requires p > 0
    ensures |s| == n && forall i :: 0 <= i < n ==> s[i] == (a * (i + 1)) % p
  {
    seq(n, i requires 0 <= i < n => (a * (i + 1)) % p)
  }

  lemma {:induction false} ProdMultiplied(a: int, n: nat)
    ensures Prod(Multiplied(a, n)) == Power(a, n) * Prod(UpTo(n))
  {
    if n > 0 {
      var m := n - 1;
      ProdMultiplied(a, m);
      ProdRemove(Multiplied(a, n), m);
      ProdRemove(UpTo(n), m);
      assert Multiplied(a, n)[..m] + Multiplied(a, n)[n..] == Multiplied(a, m);
      assert UpTo(n)[..m] + UpTo(n)[n..] == UpTo(m);
      Factors(a, n, Power(a, m), Prod(UpTo(m)));
    }
  }

  lemma Factors(a: int, n: int, q: int, r: int)
    ensures (a * n) * (q * r) == (a * q) * (n * r)
  {}

  lemma {:induction false} ProdCongruent(s: seq<int>, t: seq<int>, p: int)
    requires |s| == |t| && forall i :: 0 <= i < |s| ==> Congruent(s[i], t[i], p)
    ensures Congruent(Prod(s), Prod(t), p)
  {
    hide Congruent;
    if |s| == 0 {
      CongruentBy(1, 1, p, 0);
    } else {
      ProdCongruent(s[1..], t[1..], p);
      CongruentProduct(s[0], t[0], Prod(s[1..]), Prod(t[1..]), p);
    }
  }

  /** Multiplication by a permutes the nonzero residues. */
  lemma Permutes(a: nat, p: nat)
    requires IsPrime(p) && !Divides(p, a)
    ensures multiset(Residues(a, p - 1, p)) == multiset(UpTo(p - 1))
  {
    var s := Residues(a, p - 1, p);
    forall i, j | 0 <= i < j < |s|
      ensures s[i] != s[j]
    {
      NoCollision(a, p, i, j);
    }
    forall i | 0 <= i < |s|
      ensures 1 <= s[i] <= p - 1
    {
      DivMod(a * (i + 1), p);
      NoZero(a, p, i);
    }
    Exhausts(s, p - 1);
  }

  lemma NoZero(a: nat, p: nat, i: nat)
    requires IsPrime(p) && !Divides(p, a) && i < p - 1
    ensures (a * (i + 1)) % p != 0
  {
    NotDivisible(p, i + 1);
    if Divides(p, a * (i + 1)) { PrimeDivides(p, a, i + 1); }
    if (a * (i + 1)) % p == 0 { RemainderZero(a * (i + 1), p); }
  }

  lemma RemainderZero(n: int, p: int)
    requires p > 0 && n % p == 0
    ensures Divides(p, n)
  {
    DivMod(n, p);
    assert p * (n / p) == (n / p) * p;
    DividesBy(p, n / p, n);
  }

  lemma NoCollision(a: nat, p: nat, i: nat, j: nat)
    requires IsPrime(p) && !Divides(p, a) && i < j < p - 1
    ensures (a * (i + 1)) % p != (a * (j + 1)) % p
  {
    if (a * (i + 1)) % p == (a * (j + 1)) % p {
      SameResidue(a * (i + 1), a * (j + 1), p);
      CancelFactor(p, a, i + 1, j + 1);
      CongruentUnique(i + 1, j + 1, p);
    }
  }

  lemma SameResidue(x: int, y: int, p: int)
    requires p > 0 && x % p == y % p
    ensures Congruent(x, y, p)
  {
    CongruentMod(x, p);
    CongruentMod(y, p);
    CongruentSym(y, y % p, p);
    CongruentTrans(x, x % p, y, p);
  }

  lemma {:induction false} FactorialPrime(n: nat, p: nat)
    requires IsPrime(p) && n < p
    ensures Prod(UpTo(n)) > 0 && !Divides(p, Prod(UpTo(n)))
  {
    if n == 0 {
      NotDivisible(p, 1);
    } else {
      FactorialPrime(n - 1, p);
      ProdRemove(UpTo(n), n - 1);
      assert UpTo(n)[..n - 1] + UpTo(n)[n..] == UpTo(n - 1);
      var f := Prod(UpTo(n - 1));
      MulMono(f, 1, n);
      if Divides(p, n * f) {
        PrimeDivides(p, n, f);
        NotDivisible(p, n);
      }
    }
  }

  /** a^(p-1) = 1 modulo a prime p that does not divide a. */
  lemma LittleTheorem(a: nat, p: nat)
    requires IsPrime(p) && !Divides(p, a)
    ensures Congruent(Power(a, p - 1), 1, p)
  {
    var n := p - 1;
    hide Congruent, Prod, Power, IsPrime;
    Permutes(a, p);
    ProdPermuted(Residues(a, n, p), UpTo(n));
    forall i | 0 <= i < n
      ensures Congruent(Multiplied(a, n)[i], Residues(a, n, p)[i], p)
    {
      CongruentMod(a * (i + 1), p);
    }
    ProdCongruent(Multiplied(a, n), Residues(a, n, p), p);
    ProdMultiplied(a, n);
    FactorialPrime(n, p);
    var f := Prod(UpTo(n));
    assert Power(a, n) * f == f * Power(a, n) && f * 1 == f;
    CancelFactor(p, f, Power(a, n), 1);
  }

  /** x^(p-2) is the reciprocal of x. */
  lemma InversePower(x: nat, p: nat)
    requires IsPrime(p) && p >= 2 && x % p != 0
    ensures Congruent(x * Power(x, p - 2), 1, p)
  {
    if Divides(p, x) { DividesMod(p, x); }
    LittleTheorem(x, p);
    assert Power(x, p - 1) == x * Power(x, p - 2);
  }

  /** A representative of x^(p-2) is a reciprocal of x. */
  lemma Reciprocal(x: nat, z: int, p: nat)
    requires IsPrime(p) && p >= 2 && x % p != 0 && Congruent(z, Power(x, p - 2), p)
    ensures Congruent(x * z, 1, p)
  {
    hide Congruent, Power, IsPrime;
    InversePower(x, p);
    CongruentMul(z, Power(x, p - 2), x, p);
    CongruentTrans(x * z, x * Power(x, p - 2), 1, p);
  }
}
