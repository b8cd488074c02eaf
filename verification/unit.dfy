/** What the admitted multipliers are: units modulo 8L, given that L is prime. The primality of L is a
    hypothesis (RFC 8032, section 5.1, states it); nothing else here assumes it. */
module Unit {
  import opened Arith
  import opened Euclid
  import opened Selection
  import opened Semiconvergent

  ghost predicate IsPrime(p: int) {
    p > 1 && forall d: int :: 1 < d < p ==> !Divides(d, p)
  }

  ghost predicate Divides(d: int, n: int) {
    exists m: int :: Product(d, m, n)
  }

  ghost predicate Product(d: int, m: int, n: int) {
    Copies(m, d) == n
  }

  lemma DividesBy(d: int, m: int, n: int)
    requires d * m == n
    ensures Divides(d, n)
  {
    CopiesProduct(m, d);
    assert Product(d, m, n);
  }

  lemma DividesWitness(d: int, n: int) returns (m: int)
    requires Divides(d, n)
    ensures d * m == n
  {
    m :| Product(d, m, n);
    CopiesProduct(m, d);
  }

  lemma DividesMod(d: int, n: int)
    requires d > 0 && Divides(d, n)
    ensures n % d == 0
  {
    var m := DividesWitness(d, n);
    DivUnique(n, d, m, 0);
  }

  lemma DividesSum(d: int, x: int, y: int, p: int, q: int)
    requires Divides(d, x) && Divides(d, y)
    ensures Divides(d, x * p + y * q)
  {
    var m := DividesWitness(d, x);
    var n := DividesWitness(d, y);
    SumArith(d, m, n, p, q);
    DividesBy(d, m * p + n * q, x * p + y * q);
  }

  lemma SumArith(d: int, m: int, n: int, p: int, q: int)
    ensures d * (m * p + n * q) == (d * m) * p + (d * n) * q
  {}

  lemma {:induction false} GcdDivides(a: nat, b: nat)
    ensures Divides(Gcd(a, b), a) && Divides(Gcd(a, b), b)
    decreases b
  {
    if b == 0 {
      DividesBy(a, 1, a);
      DividesBy(a, 0, 0);
    } else {
      GcdDivides(b, a % b);
      DividesDividend(Gcd(b, a % b), a, b);
    }
  }

  lemma DividesDividend(g: int, a: nat, b: nat)
    requires b > 0 && Divides(g, b) && Divides(g, a % b)
    ensures Divides(g, a)
  {
    DivMod(a, b);
    DividesSum(g, b, a % b, a / b, 1);
    assert b * (a / b) + (a % b) * 1 == a;
  }

  /** Bezout's identity along Euclid's algorithm. */
  lemma {:induction false} Bezout(a: nat, b: nat) returns (p: int, q: int)
    ensures a * p + b * q == Gcd(a, b)
    decreases b
  {
    if b == 0 {
      p, q := 1, 0;
    } else {
      var p', q' := Bezout(b, a % b);
      DivMod(a, b);
      BezoutArith(a, b, a / b, a % b, p', q');
      p, q := q', p' - (a / b) * q';
    }
  }

  lemma BezoutArith(a: int, b: int, t: int, r: int, p: int, q: int)
    requires a == t * b + r
    ensures a * q + b * (p - t * q) == b * p + r * q
  {}

  lemma CommonDivisor(d: int, a: nat, b: nat)
    requires Divides(d, a) && Divides(d, b)
    ensures Divides(d, Gcd(a, b))
  {
    var p, q := Bezout(a, b);
    DividesSum(d, a, b, p, q);
  }

  /** An odd divisor of 8L divides L. */
  lemma OddDivisor(g: nat, m: int)
    requires g % 2 == 1 && g * m == 8 * L
    ensures m % 8 == 0 && g * (m / 8) == L
  {
    EvenFactor(g, m, 4 * L);
    EvenFactor(g, m / 2, 2 * L);
    EvenFactor(g, m / 2 / 2, L);
  }

  lemma EvenFactor(g: nat, m: int, h: int)
    requires g % 2 == 1 && g * m == 2 * h
    ensures m % 2 == 0 && g * (m / 2) == h
  {
    var i := g / 2;
    assert g * m == 2 * (i * m) + m by { assert (2 * i + 1) * m == 2 * (i * m) + m; }
    assert m == 2 * (h - i * m);
    var e := m / 2;
    assert g * (2 * e) == 2 * (g * e);
  }

  lemma GcdPositive(a: nat, b: nat)
    requires a > 0 || b > 0
    ensures Gcd(a, b) > 0
    decreases b
  {
    if b > 0 { GcdPositive(b, a % b); }
  }

  lemma EvenTimes(g: nat, j: int)
    ensures g % 2 == 0 ==> (g * j) % 2 == 0
  {
    if g % 2 == 0 { assert g * j == 2 * ((g / 2) * j) by { assert g == 2 * (g / 2); } }
  }

  lemma DivisorSmall(d: int, n: int)
    requires Divides(d, n) && n > 0 && d > 0
    ensures d <= n
  {
    var m := DividesWitness(d, n);
    if m <= 0 { MulMono(d, m, 0); }
    MulMono(d, 1, m);
  }

  /** The odd-multiples table is an exact gcd test for every coefficient up to 8L. */
  lemma TableIsGcd(x: nat)
    requires IsPrime(L) && x <= N
    ensures PassesTable(x) <==> x % 2 == 1 && Gcd(x, N) == 1
  {
    if PassesTable(x) {
      TableCoprime(x);
    } else if x % 2 == 1 && Gcd(x, N) == 1 {
      MultipleDivides(x);
      DividesBy(L, 8, N);
      CommonDivisor(L, x, N);
      DivisorSmall(L, 1);
      assert false;
    }
  }

  lemma MultipleDivides(x: nat)
    requires x == L || x == 3 * L || x == 5 * L || x == 7 * L
    ensures Divides(L, x)
  {
    if x == L { DividesBy(L, 1, x); }
    if x == 3 * L { DividesBy(L, 3, x); }
    if x == 5 * L { DividesBy(L, 5, x); }
    if x == 7 * L { DividesBy(L, 7, x); }
  }

  lemma TableCoprime(x: nat)
    requires IsPrime(L) && x <= N && PassesTable(x)
    ensures Gcd(x, N) == 1
  {
    var g := Gcd(x, N);
    GcdPositive(x, N);
    GcdDivides(x, N);
    var j := DividesWitness(g, x);
    var m := DividesWitness(g, N);
    EvenTimes(g, j);
    OddDivisor(g, m);
    DividesBy(g, m / 8, L);
    DivisorSmall(g, L);
    DividesMod(g, L);
    if g == L {
      NotAMultiple(x, j);
      assert false;
    }
  }

  lemma NotAMultiple(x: nat, j: int)
    requires x == L * j && x <= 8 * L && x % 2 == 1
    ensures !PassesTable(x)
  {
    var l: nat := L;
    if j <= 0 { MulMono(l, j, 0); }
    if j >= 9 { MulMono(l, 9, j); }
  }

  /** A coefficient that passes the table test has an inverse modulo 8L. */
  lemma UnitInverse(tau: int) returns (inverse: int)
    requires IsPrime(L) && Abs(tau) <= N && PassesTable(Abs(tau))
    ensures Congruent(inverse * tau, 1, N)
  {
    TableIsGcd(Abs(tau));
    var p, q := Bezout(Abs(tau), N);
    inverse := if tau < 0 then -p else p;
    assert inverse * tau == Abs(tau) * p by { InverseSign(tau, p); }
    CongruentBy(inverse * tau, 1, N, -q);
  }

  lemma InverseSign(tau: int, p: int)
    ensures (if tau < 0 then -p else p) * tau == Abs(tau) * p
  {}

  // ---------------------------------------------------------------- Select by gcd and by table

  lemma {:induction false} ConsiderAllAgrees(best: Best, qs: seq<int>, x: Row, y: Row, n: nat, k: int)
    requires IsPrime(L) && n <= N && Linked(x, y, n, k) && y.rho > 0 && InInterval(qs, x.rho / y.rho)
    ensures ConsiderAll(ByGcd, best, qs, x, y) == ConsiderAll(ByTable, best, qs, x, y)
    decreases |qs|
  {
    if |qs| > 0 {
      IntermediateBound(x, y, qs[0], n, k);
      TestsAgree(x.tau - qs[0] * y.tau);
      ConsiderAllAgrees(Consider(ByTable, best, x.rho - qs[0] * y.rho, x.tau - qs[0] * y.tau), qs[1..], x, y, n, k);
    }
  }

  /** Every intermediate coefficient is bounded by the modulus. */
  lemma IntermediateBound(x: Row, y: Row, q: int, n: nat, k: int)
    requires Linked(x, y, n, k) && y.rho > 0 && 0 <= q <= x.rho / y.rho
    ensures 0 <= q * y.rho <= x.rho
    ensures Abs(x.tau - q * y.tau) == Abs(x.tau) + q * Abs(y.tau) <= n
    ensures q * Abs(y.tau) >= 0
  {
    MultipleFits(x.rho, y.rho, q);
    ReduceLinked(x, y, q, n, k);
    TauBound(y, Reduce(x, y, q), n, k);
    AbsOpposite(x.tau, y.tau, q);
    MulNonNeg(q, Abs(y.tau));
  }

  lemma TestsAgree(tau: int)
    requires IsPrime(L) && Abs(tau) <= N
    ensures IsUnit(ByGcd, tau) <==> IsUnit(ByTable, tau)
  {
    TableIsGcd(Abs(tau));
  }

  lemma {:induction false} BestFromAgrees(best: Best, x: Row, y: Row, n: nat, k: int)
    requires IsPrime(L) && n <= N && Linked(x, y, n, k) && (y.rho > 0 ==> x.rho > 0)
    ensures BestFrom(ByGcd, best, x, y) == BestFrom(ByTable, best, x, y)
    decreases y.rho
  {
    if y.rho > 0 {
      var a := x.rho / y.rho;
      TauBound(x, y, n, k);
      TestsAgree(y.tau);
      MultipliersIn(x.rho, y.rho, x.tau, y.tau, a);
      ConsiderAllAgrees(Consider(ByTable, best, y.rho, y.tau), Multipliers(x.rho, y.rho, x.tau, y.tau, a), x, y, n, k);
      NextLinked(x, y, n, k);
      BestFromAgrees(ConsiderStep(ByTable, best, x, y), y, Next(x, y), n, k);
    }
  }

  /** The gcd oracle and the table search choose the same candidate for every scalar and width. */
  lemma SelectAgrees(k: int, limit: nat)
    requires IsPrime(L)
    ensures SelectChoice(ByGcd, k, limit) == SelectChoice(ByTable, k, limit)
  {
    if SupportedWidth(limit) && 0 < k < L {
      StartLinked(N, k);
      BestFromAgrees(None, Row(N, 0), Row(k, 1), N, k);
    }
  }
}
