/** The Euclidean coefficient rows rho = tau*k (mod n) that every selector of internal/heea8l walks:
    what one reduction keeps, how many steps there can be, and the matrix of a run of steps. */
module Euclid {
  import opened Arith

  datatype Row = Row(rho: nat, tau: int)

  ghost predicate OppositeSigns(s: int, t: int) {
    (s <= 0 <= t) || (t <= 0 <= s)
  }

  /** Two rows of one run: both are exact relations, their coefficients have opposite signs and the
      determinant is the modulus. */
  ghost predicate Linked(x: Row, y: Row, n: nat, k: int) {
    && Congruent(x.rho, x.tau * k, n)
    && Congruent(y.rho, y.tau * k, n)
    && OppositeSigns(x.tau, y.tau)
    && x.rho * Abs(y.tau) + y.rho * Abs(x.tau) == n
  }

  /** x - q*y, the row both the Euclidean and the shift-subtract step produce. */
  function Reduce(x: Row, y: Row, q: nat): Row
    requires q * y.rho <= x.rho
  {
    Row(x.rho - q * y.rho, x.tau - q * y.tau)
  }

  lemma LinkedSym(x: Row, y: Row, n: nat, k: int)
    requires Linked(x, y, n, k)
    ensures Linked(y, x, n, k)
  {}

  lemma AbsOpposite(s: int, t: int, q: nat)
    requires OppositeSigns(s, t)
    ensures Abs(s - q * t) == Abs(s) + q * Abs(t)
    ensures OppositeSigns(t, s - q * t)
  {
    if t >= 0 { MulNonNeg(q, t); } else { MulNonNeg(q, -t); assert q * t == -(q * -t); }
  }

  /** Subtracting any multiple that leaves rho nonnegative keeps the whole invariant. */
  lemma ReduceLinked(x: Row, y: Row, q: nat, n: nat, k: int)
    requires Linked(x, y, n, k) && q * y.rho <= x.rho
    ensures Linked(y, Reduce(x, y, q), n, k)
  {
    AbsOpposite(x.tau, y.tau, q);
    ReduceCongruent(x.rho, x.tau, y.rho, y.tau, q, n, k);
    DeterminantKept(x.rho, y.rho, Abs(x.tau), Abs(y.tau), q);
  }

  lemma ReduceCongruent(r0: int, t0: int, r1: int, t1: int, q: int, n: int, k: int)
    requires Congruent(r0, t0 * k, n) && Congruent(r1, t1 * k, n)
    ensures Congruent(r0 - q * r1, (t0 - q * t1) * k, n)
  {
    CongruentMul(r1, t1 * k, -q, n);
    CongruentAdd(r0, t0 * k, -q * r1, -q * (t1 * k), n);
    Distribute(t0, t1, q, k);
  }

  lemma Distribute(s: int, t: int, q: int, k: int)
    ensures s * k + -q * (t * k) == (s - q * t) * k
  {}

  lemma DeterminantKept(r0: int, r1: int, t0: int, t1: int, q: int)
    ensures r1 * (t0 + q * t1) + (r0 - q * r1) * t1 == r0 * t1 + r1 * t0
  {}

  /** While the other remainder is positive a coefficient cannot exceed the modulus. */
  lemma TauBound(x: Row, y: Row, n: nat, k: int)
    requires Linked(x, y, n, k)
    ensures x.rho > 0 ==> Abs(y.tau) <= n
    ensures y.rho > 0 ==> Abs(x.tau) <= n
  {
    MulNonNeg(x.rho, Abs(y.tau));
    MulNonNeg(y.rho, Abs(x.tau));
    if x.rho > 0 { MulMono(Abs(y.tau), 1, x.rho); }
    if y.rho > 0 { MulMono(Abs(x.tau), 1, y.rho); }
  }

  lemma StartLinked(n: nat, k: nat)
    ensures Linked(Row(n, 0), Row(k, 1), n, k)
  {
    CongruentBy(n, 0 * k, n, 1);
    CongruentBy(k, 1 * k, n, 0);
  }

  // ---------------------------------------------------------------- Euclidean steps

  function Next(x: Row, y: Row): (z: Row)
    requires y.rho > 0
    ensures z.rho == x.rho % y.rho < y.rho
  {
    var q := x.rho / y.rho;
    DivMod(x.rho, y.rho);
    QuotientNonNeg(x.rho, y.rho);
    Reduce(x, y, q)
  }

  lemma QuotientNonNeg(a: nat, b: nat)
    requires b > 0
    ensures a / b >= 0
  {
    DivMod(a, b);
    var q := a / b;
    if q < 0 { MulMono(b, q, -1); }
  }

  lemma NextLinked(x: Row, y: Row, n: nat, k: int)
    requires Linked(x, y, n, k) && y.rho > 0
    ensures Linked(y, Next(x, y), n, k)
  {
    DivMod(x.rho, y.rho);
    QuotientNonNeg(x.rho, y.rho);
    ReduceLinked(x, y, x.rho / y.rho, n, k);
  }

  /** How many divisions Euclid's algorithm performs on (a,b). */
  function Length(a: nat, b: nat): nat
    decreases b
  {
    if b == 0 then 0 else 1 + Length(b, a % b)
  }

  function Fib(n: nat): nat {
    if n == 0 then 0 else if n == 1 then 1 else Fib(n - 1) + Fib(n - 2)
  }

  /** Lame's bound: a run of n divisions needs operands at least as large as Fibonacci numbers. */
  lemma {:induction false} FibonacciGrowth(a: nat, b: nat)
    requires a > b
    ensures Length(a, b) > 0 ==> b >= Fib(Length(a, b) + 1) && a >= Fib(Length(a, b) + 2)
    decreases b
  {
    if b > 0 {
      FibonacciGrowth(b, a % b);
      OneQuotient(a, b);
      assert Fib(2) == 1 && Fib(3) == 2;
    }
  }

  lemma OneQuotient(a: nat, b: nat)
    requires 0 < b < a
    ensures 0 <= a % b < b && a >= b + a % b
  {
    DivMod(a, b);
    var q := a / b;
    if q < 1 { MulMono(b, q, 0); }
    MulMono(b, 1, q);
  }

  lemma {:induction false} FibRatio(n: nat)
    requires n >= 5
    ensures 8 * Fib(n) <= 5 * Fib(n + 1) && 3 * Fib(n + 1) <= 5 * Fib(n)
  {
    if n == 5 {
      assert Fib(5) == 5 && Fib(6) == 8;
    } else {
      FibRatio(n - 1);
    }
  }

  lemma FibThirteen(n: nat)
    ensures Fib(n + 13) == 233 * Fib(n + 1) + 144 * Fib(n)
  {
    assert Fib(n + 3) == 2 * Fib(n + 1) + Fib(n);
    assert Fib(n + 5) == Fib(n + 4) + Fib(n + 3) && Fib(n + 4) == Fib(n + 3) + Fib(n + 2);
    assert Fib(n + 7) == Fib(n + 6) + Fib(n + 5) && Fib(n + 6) == Fib(n + 5) + Fib(n + 4);
    assert Fib(n + 9) == Fib(n + 8) + Fib(n + 7) && Fib(n + 8) == Fib(n + 7) + Fib(n + 6);
    assert Fib(n + 11) == Fib(n + 10) + Fib(n + 9) && Fib(n + 10) == Fib(n + 9) + Fib(n + 8);
    assert Fib(n + 13) == Fib(n + 12) + Fib(n + 11) && Fib(n + 12) == Fib(n + 11) + Fib(n + 10);
  }

  /** Thirteen Fibonacci steps gain at least nine bits. */
  lemma {:induction false} FibBits(m: nat)
    ensures Fib(7 + 13 * m) >= 13 * Pow2(9 * m)
  {
    if m == 0 {
      assert Fib(7) == 13;
    } else {
      var n := 7 + 13 * (m - 1);
      FibBits(m - 1);
      FibThirteen(n);
      FibRatio(n);
      Pow2Add(9, 9 * (m - 1));
      assert Pow2(9) == 512;
    }
  }

  lemma {:induction false} FibMono(m: nat, n: nat)
    requires m <= n
    ensures Fib(m) <= Fib(n)
  {
    if m < n {
      FibMono(m, n - 1);
    }
  }

  /** Euclid on 256-bit operands always ends well before the 384-iteration cap. */
  lemma LengthBelowCap(a: nat, b: nat)
    requires b < a < R256
    ensures Length(a, b) < 382
  {
    hide Length, Fib, Pow2;
    if Length(a, b) >= 382 {
      FibonacciGrowth(a, b);
      FibMono(384, Length(a, b) + 2);
      Fib384(29, 256);
    }
  }

  lemma Fib384(m: nat, w: nat)
    requires m == 29 && w == 256
    ensures Fib(7 + 13 * m) >= R256
  {
    FibBits(m);
    Pow2Wide();
    Pow2Mono(w, 9 * m);
  }

  // ---------------------------------------------------------------- runs of steps

  /** The rows after n divisions (or at the end of the run if it is shorter). */
  function Advance(x: Row, y: Row, n: nat): (Row, Row) {
    if n == 0 then (x, y)
    else
      var p := Advance(x, y, n - 1);
      if p.1.rho == 0 then p else (p.1, Next(p.0, p.1))
  }

  lemma {:induction false} AdvanceLinked(x: Row, y: Row, n: nat, m: nat, k: int)
    requires Linked(x, y, m, k)
    ensures Linked(Advance(x, y, n).0, Advance(x, y, n).1, m, k)
  {
    if n > 0 {
      AdvanceLinked(x, y, n - 1, m, k);
      var p := Advance(x, y, n - 1);
      if p.1.rho != 0 {
        NextLinked(p.0, p.1, m, k);
      }
    }
  }

  /** A run of n <= Length steps uses up exactly n of them and keeps the remainders decreasing. */
  lemma {:induction false} AdvanceLength(x: Row, y: Row, n: nat)
    requires n <= Length(x.rho, y.rho) && x.rho >= y.rho
    ensures Length(Advance(x, y, n).0.rho, Advance(x, y, n).1.rho) == Length(x.rho, y.rho) - n
    ensures Advance(x, y, n).0.rho >= Advance(x, y, n).1.rho
  {
    if n > 0 {
      AdvanceLength(x, y, n - 1);
    }
  }

  datatype Matrix = Matrix(a: int, b: int, c: int, d: int) {
    function First(r0: int, r1: int): int { a * r0 + b * r1 }
    function Second(r0: int, r1: int): int { c * r0 + d * r1 }

    /** The matrix after one more division with quotient q. */
    function Then(q: int): Matrix {
      Matrix(c, d, a - q * c, b - q * d)
    }

    function Det(): int { a * d - b * c }

    /** Unimodular with sign-alternating columns, the determinant following the sign pattern. */
    ghost predicate Alternating() {
      || (a >= 0 && b <= 0 && c <= 0 && d >= 0 && Det() == 1)
      || (a <= 0 && b >= 0 && c >= 0 && d <= 0 && Det() == -1)
    }
  }

  const Identity: Matrix := Matrix(1, 0, 0, 1)

  /** The cofactor matrix of the first n divisions of (r0,r1). */
  function RunMatrix(r0: nat, r1: nat, n: nat): Matrix {
    if n == 0 then Identity
    else
      var m := RunMatrix(r0, r1, n - 1);
      var q := if m.Second(r0, r1) > 0 then m.First(r0, r1) / m.Second(r0, r1) else 0;
      m.Then(q)
  }

  /** Every one of the first n quotients fits one machine word. */
  ghost predicate NarrowRun(r0: nat, r1: nat, n: nat) {
    n == 0 || (NarrowRun(r0, r1, n - 1)
      && var m := RunMatrix(r0, r1, n - 1);
         m.Second(r0, r1) > 0 && m.First(r0, r1) / m.Second(r0, r1) < R64)
  }

  /** The matrix moves remainders and coefficients alike. */
  lemma {:induction false} AdvanceByMatrix(x: Row, y: Row, n: nat)
    requires n <= Length(x.rho, y.rho) && x.rho >= y.rho
    ensures var m := RunMatrix(x.rho, y.rho, n);
            var p := Advance(x, y, n);
            && p.0.rho == m.First(x.rho, y.rho) && p.1.rho == m.Second(x.rho, y.rho)
            && p.0.tau == m.First(x.tau, y.tau) && p.1.tau == m.Second(x.tau, y.tau)
  {
    if n > 0 {
      AdvanceByMatrix(x, y, n - 1);
      AdvanceLength(x, y, n - 1);
      var m := RunMatrix(x.rho, y.rho, n - 1);
      var p := Advance(x, y, n - 1);
      assert p.1.rho > 0;
      var q := p.0.rho / p.1.rho;
      DivMod(p.0.rho, p.1.rho);
      ThenApplies(m, q, x.rho, y.rho);
      ThenApplies(m, q, x.tau, y.tau);
    }
  }

  lemma ThenApplies(m: Matrix, q: int, r0: int, r1: int)
    ensures m.Then(q).First(r0, r1) == m.Second(r0, r1)
    ensures m.Then(q).Second(r0, r1) == m.First(r0, r1) - q * m.Second(r0, r1)
  {
    assert (m.a - q * m.c) * r0 + (m.b - q * m.d) * r1
        == m.a * r0 + m.b * r1 - q * (m.c * r0 + m.d * r1);
  }

  lemma ThenDet(m: Matrix, q: int)
    ensures m.Then(q).Det() == -m.Det()
  {
    assert m.c * (m.b - q * m.d) - m.d * (m.a - q * m.c) == m.b * m.c - m.a * m.d;
  }

  lemma ThenAlternates(m: Matrix, q: int)
    requires m.Alternating() && q >= 0
    ensures m.Then(q).Alternating()
    ensures Abs(m.Then(q).c) == Abs(m.a) + q * Abs(m.c)
    ensures Abs(m.Then(q).d) == Abs(m.b) + q * Abs(m.d)
  {
    ThenDet(m, q);
    AbsOpposite(m.a, m.c, q);
    AbsOpposite(m.b, m.d, q);
    MulNonNeg(q, Abs(m.c));
    MulNonNeg(q, Abs(m.d));
    if m.c <= 0 { assert q * m.c == -(q * Abs(m.c)); }
    if m.d <= 0 { assert q * m.d == -(q * Abs(m.d)); }
  }

  /** Inverting an alternating unimodular matrix recovers the start from the end. */
  lemma Recover(m: Matrix, r0: int, r1: int)
    requires m.Alternating()
    ensures m.First(r0, r1) * Abs(m.d) + m.Second(r0, r1) * Abs(m.b) == r0
    ensures m.First(r0, r1) * Abs(m.c) + m.Second(r0, r1) * Abs(m.a) == r1
  {
    var x, y := m.First(r0, r1), m.Second(r0, r1);
    RecoverArith(m.a, m.b, m.c, m.d, r0, r1);
    if m.Det() == 1 {
      SignFlip(x, m.c);
      SignFlip(y, m.b);
    } else {
      SignFlip(x, m.d);
      SignFlip(y, m.a);
    }
  }

  lemma SignFlip(x: int, s: int)
    ensures x * -s == -(x * s)
  {}

  lemma RecoverArith(a: int, b: int, c: int, d: int, r0: int, r1: int)
    ensures (a * r0 + b * r1) * d - (c * r0 + d * r1) * b == (a * d - b * c) * r0
    ensures (c * r0 + d * r1) * a - (a * r0 + b * r1) * c == (a * d - b * c) * r1
  {}
}
