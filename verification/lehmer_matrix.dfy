/** lehmerMatrix (internal/heea8l/lehmer.go): Euclid on the leading 63 bits of a pair. Every step it
    takes is a true full-width division step, and its matrix entries stay in narrow bounds. */
module LehmerMatrix {
  import opened Arith
  import opened Euclid

  /** lehmerCoefficientCap. */
  const CAP: int := 0x8000_0000
  const INT64_MAX: int := 0x7fff_ffff_ffff_ffff

  /** Two's-complement wrap of a 64-bit signed result. */
  function Int64(x: int): int {
    var r := x % R64;
    if r > INT64_MAX then r - R64 else r
  }

  lemma Int64Exact(x: int)
    requires -INT64_MAX - 1 <= x <= INT64_MAX
    ensures Int64(x) == x
  {
    if x < 0 { DivUnique(x, R64, -1, x + R64); } else { DivUnique(x, R64, 0, x); }
  }

  /** Go's signed division truncates toward zero. */
  function GoDiv(a: int, b: int): int
    requires b != 0
  {
    if (a < 0) == (b < 0) then Abs(a) / Abs(b) else -(Abs(a) / Abs(b))
  }

  /** What holds of the leading-word state before each step. */
  ghost predicate Leading(m: Matrix, u: int, v: int, u0: int, v0: int) {
    && m.Alternating()
    && u == m.First(u0, v0) && v == m.Second(u0, v0)
    && 0 <= v <= u && 0 <= v0 <= u0
    && u + m.a >= 0 && u + m.b >= 0
    && Abs(m.c) <= Abs(m.d)
    && (m == Identity || Abs(m.a) <= Abs(m.b))
  }

  /** The two bracketing quotients agree. */
  ghost predicate Agree(m: Matrix, u: int, v: int, q: int) {
    && v + m.c > 0 && v + m.d > 0
    && q == (u + m.a) / (v + m.c) && q == (u + m.b) / (v + m.d)
  }

  /** One bracketing division: its remainder is the next row's matching divisor. */
  lemma BracketColumn(u: int, v: int, a: int, c: int, q: int)
    requires v + c > 0 && q == (u + a) / (v + c)
    ensures 0 <= (u - q * v) + (a - q * c) < v + c
  {
    DivMod(u + a, v + c);
    assert q * (v + c) == q * v + q * c;
  }

  lemma SignStep(a: int, c: int, q: int)
    requires q >= 0
    ensures a >= 0 && c <= 0 ==> a - q * c >= 0
    ensures a <= 0 && c >= 0 ==> a - q * c <= 0
  {
    if c <= 0 { MulNonNeg(q, -c); assert q * c == -(q * -c); } else { MulNonNeg(q, c); }
  }

  lemma FloorAtLeastOne(x: int, y: int, q: int)
    requires y > 0 && x >= y && q == x / y
    ensures q >= 1
  {
    DivMod(x, y);
    if q < 1 { MulMono(y, q, 0); }
  }

  /** Remainders of both bracketing divisions, the quotient's sign, and the next leading word. */
  lemma BracketArith(u: int, v: int, a: int, b: int, c: int, d: int, q: int)
    requires (a >= 0 && b <= 0 && c <= 0 && d >= 0) || (a <= 0 && b >= 0 && c >= 0 && d <= 0)
    requires 0 <= v <= u && v + c > 0 && v + d > 0
    requires q == (u + a) / (v + c) && q == (u + b) / (v + d)
    ensures q >= 1
    ensures 0 <= (u - q * v) + (a - q * c) < v + c
    ensures 0 <= (u - q * v) + (b - q * d) < v + d
    ensures 0 <= u - q * v < v
    ensures Abs(b - q * d) <= v
  {
    BracketColumn(u, v, a, c, q);
    BracketColumn(u, v, b, d, q);
    if a >= 0 && c <= 0 {
      FloorAtLeastOne(u + a, v + c, q);
    } else {
      FloorAtLeastOne(u + b, v + d, q);
    }
    SignStep(a, c, q);
    SignStep(b, d, q);
  }

  lemma BracketRemainders(m: Matrix, u: int, v: int, u0: int, v0: int, q: int)
    requires Leading(m, u, v, u0, v0) && Agree(m, u, v, q)
    ensures q >= 1
    ensures var n := m.Then(q); var w := u - q * v;
            0 <= w + n.c < v + m.c && 0 <= w + n.d < v + m.d && 0 <= w < v && Abs(n.d) <= v
  {
    hide Matrix.First, Matrix.Second, Matrix.Det;
    BracketArith(u, v, m.a, m.b, m.c, m.d, q);
  }

  /** Agreement forces the product of the two bracketing divisors above u0+v0+1. */
  lemma AgreementProduct(m: Matrix, u: int, v: int, u0: int, v0: int, q: int)
    requires Leading(m, u, v, u0, v0) && Agree(m, u, v, q)
    ensures (v + m.c) * (v + m.d) > u0 + v0 + 1
  {
    hide Matrix.First, Matrix.Second, Matrix.Det;
    Recover(m, u0, v0);
    if m.Det() == 1 {
      assert m.a * m.d - m.b * m.c == 1 by { DetIs(m); }
      ColumnsProduct(u, v, m.a, m.b, m.c, m.d, q, u0, v0);
    } else {
      assert m.b * m.c - m.a * m.d == 1 by { DetIs(m); }
      ColumnsProduct(u, v, m.b, m.a, m.d, m.c, q, u0, v0);
    }
  }

  lemma ColumnsProduct(u: int, v: int, a: int, b: int, c: int, d: int, q: int, u0: int, v0: int)
    requires a >= 0 && b <= 0 && c <= 0 && d >= 0 && a * d - b * c == 1
    requires 0 <= v <= u && v + c > 0 && v + d > 0 && u0 >= 0 && v0 >= 0
    requires q == (u + a) / (v + c) && q == (u + b) / (v + d)
    requires (u * d + v * -b == u0 && u * -c + v * a == v0) || (u * d + v * -b == v0 && u * -c + v * a == u0)
    ensures (v + c) * (v + d) > u0 + v0 + 1
  {
    BracketColumn(u, v, a, c, q);
    BracketColumn(u, v, b, d, q);
    ProductArith(u, v, a, b, c, d, q, u0, v0);
  }

  lemma DetIs(m: Matrix)
    ensures m.Det() == m.a * m.d - m.b * m.c
  {}

  lemma ProductArith(u: int, v: int, a: int, b: int, c: int, d: int, q: int, u0: int, v0: int)
    requires a * d - b * c == 1
    requires (u * d + v * -b == u0 && u * -c + v * a == v0) || (u * d + v * -b == v0 && u * -c + v * a == u0)
    requires 0 <= (u - q * v) + (a - q * c) < v + c
    requires 0 <= (u - q * v) + (b - q * d) < v + d
    requires u0 >= 0 && v0 >= 0
    ensures (v + c) * (v + d) > u0 + v0 + 1
  {
    CrossArith(u, v, a, b, c, d, q);
    ProductGap((u - q * v) + (a - q * c), v + c, (u - q * v) + (b - q * d), v + d, 1 + u0 + v0);
  }

  lemma ProductGap(e0: nat, y0: nat, e1: nat, y1: nat, t: nat)
    requires e0 < y0 && e1 < y1 && e0 * y1 - e1 * y0 == t
    ensures y0 * y1 > t
  {
    MulNonNeg(e1, y0);
    MulMono(y1, e0 + 1, y0);
    assert y1 * (e0 + 1) == e0 * y1 + y1;
  }

  lemma CrossArith(u: int, v: int, a: int, b: int, c: int, d: int, q: int)
    ensures ((u - q * v) + (a - q * c)) * (v + d) - ((u - q * v) + (b - q * d)) * (v + c)
         == (a * d - b * c) + (u * d + v * -b) + (u * -c + v * a)
  {}

  /** The refined bounds after a step: 2*|c|^2 <= v0 (or c is 1) and |d|^2 <= u0. */
  lemma EntryBounds(m: Matrix, u: int, v: int, u0: int, v0: int, q: int)
    requires Leading(m, u, v, u0, v0) && Agree(m, u, v, q)
    ensures Abs(m.Then(q).c) <= 1 || 2 * (Abs(m.Then(q).c) * Abs(m.Then(q).c)) <= v0
    ensures Abs(m.Then(q).d) * Abs(m.Then(q).d) <= u0
  {
    hide Matrix.First, Matrix.Second, Matrix.Det;
    BracketRemainders(m, u, v, u0, v0, q);
    AgreementProduct(m, u, v, u0, v0, q);
    LeadingKept(m, u, v, u0, v0, q);
    var n := m.Then(q);
    Recover(n, u0, v0);
    MulNonNeg(u - q * v, Abs(n.b));
    MulNonNeg(u - q * v, Abs(n.a));
    MulMono(Abs(n.d), Abs(n.d), v);
    if m == Identity {
      assert n.c == 1;
    } else if m.c >= 0 && m.d <= 0 {
      FallingCase(v, m.c, -m.d, u0, v0, Abs(n.c));
    } else {
      ThenAlternates(m, q);
      RisingCase(v, Abs(m.a), Abs(m.b), Abs(m.c), Abs(m.d), q, u0, v0, Abs(n.c), Abs(n.d));
    }
  }

  /** c' <= 0: the divisor product is at most v^2, so v^2 > u0+v0 >= 2*v0 while |c'|*v <= v0. */
  lemma FallingCase(v: int, c: int, d: int, u0: int, v0: int, e: int)
    requires 0 <= c <= d && v >= 0 && e >= 0 && 0 <= v0 <= u0
    requires (v + c) * (v - d) > u0 + v0 + 1
    requires v * e <= v0
    ensures 2 * (e * e) <= v0
  {
    assert v * v > 2 * v0 by {
      assert (v + c) * (v - d) == v * v - v * (d - c) - c * d;
      MulNonNeg(v, d - c);
      MulNonNeg(c, d);
    }
    SquareBound(v, e, v0);
  }

  lemma SquareBound(v: int, e: int, v0: int)
    requires v >= 0 && e >= 0 && v * v > 2 * v0 && v * e <= v0
    ensures 2 * (e * e) <= v0
  {
    if v >= 2 * e {
      MulMono(e, 2 * e, v);
      assert e * (2 * e) == 2 * (e * e);
    } else {
      MulMono(v, v, 2 * e);
      DoubleProduct(v, e);
      assert false;
    }
  }

  lemma DoubleProduct(v: int, e: int)
    ensures v * (2 * e) == 2 * (v * e)
  {}

  /** c' >= 0: agreement gives v > 2*|c'|, while |c'|*v <= v0. */
  lemma RisingCase(v: int, a: int, b: int, c: int, d: int, q: int, u0: int, v0: int, e: int, f: int)
    requires 0 <= a <= b && 0 <= c <= d && q >= 1 && v > 0
    requires (v - c) * (v + d) > u0 + v0 + 1
    requires e == a + q * c && f == b + q * d
    requires v * e <= v0 && v * f <= u0
    ensures 2 * (e * e) <= v0
  {
    assert (v - c) * (v + d) == v * v + v * (d - c) - c * d;
    MulNonNeg(c, d);
    assert v * (v + d - c) > v * (f + e) by {
      assert v * (v + d - c) == v * v + v * (d - c);
      assert v * (f + e) == v * f + v * e;
    }
    if v + d - c <= f + e { MulMono(v, v + d - c, f + e); }
    assert v > f + e - d + c;
    assert f - d >= a + (q - 1) * c by {
      assert f - d == b + (q - 1) * d;
      MulMono(q - 1, c, d);
    }
    assert a + (q - 1) * c + c == e;
    assert v > 2 * e;
    MulNonNeg(q, c);
    MulMono(e, 2 * e, v);
    assert e * (2 * e) == 2 * (e * e);
  }

  /** One step keeps the leading-word invariant. */
  lemma LeadingKept(m: Matrix, u: int, v: int, u0: int, v0: int, q: int)
    requires Leading(m, u, v, u0, v0) && Agree(m, u, v, q)
    ensures Leading(m.Then(q), v, u - q * v, u0, v0)
    ensures u - q * v < v
  {
    hide Matrix.First, Matrix.Second, Matrix.Det;
    BracketRemainders(m, u, v, u0, v0, q);
    ThenAlternates(m, q);
    ThenApplies(m, q, u0, v0);
    GrowOrdered(Abs(m.a), Abs(m.b), Abs(m.c), Abs(m.d), q);
  }

  lemma GrowOrdered(a: nat, b: nat, c: nat, d: nat, q: int)
    requires q >= 1 && c <= d && (a <= b || (a == 1 && b == 0 && c == 0 && d == 1))
    ensures a + q * c <= b + q * d
  {
    MulMono(q, c, d);
  }

  // ---------------------------------------------------------------- the full-width pair

  /** r*s is u*k plus a tail below k: u is the leading word of the scaled remainder. */
  ghost predicate LeadingWord(r: nat, s: nat, k: nat, u: nat) {
    s > 0 && k > 0 && u * k <= r * s < (u + 1) * k
  }

  /** The agreed quotient is the full-width Euclidean quotient. */
  lemma TrueQuotient(m: Matrix, u: int, v: int, u0: int, v0: int, q: int, r0: nat, r1: nat, s: nat, k: nat)
    requires Leading(m, u, v, u0, v0) && Agree(m, u, v, q)
    requires LeadingWord(r0, s, k, u0) && LeadingWord(r1, s, k, v0)
    ensures m.Second(r0, r1) > 0 && m.First(r0, r1) / m.Second(r0, r1) == q
  {
    var n := m.Then(q);
    BracketRemainders(m, u, v, u0, v0, q);
    ThenAlternates(m, q);
    ThenApplies(m, q, u0, v0);
    ThenApplies(m, q, r0, r1);
    var b, rem := m.Second(r0, r1), n.Second(r0, r1);
    RemainderTerms(m, u0, v0, r0, r1);
    RemainderTerms(n, u0, v0, r0, r1);
    hide Matrix.First, Matrix.Second, Matrix.Det;
    TrueRemainder(v, u - q * v, m.c, m.d, n.c, n.d, u0, v0, r0, r1, s, k, b, rem);
    DivUnique(m.First(r0, r1), b, q, rem);
  }

  lemma RemainderTerms(m: Matrix, u0: int, v0: int, r0: int, r1: int)
    ensures m.Second(u0, v0) == m.c * u0 + m.d * v0
    ensures m.Second(r0, r1) == m.c * r0 + m.d * r1
  {}

  /** 0 <= rem < b, read off at the corners of the tail square [0,k)^2. */
  lemma TrueRemainder(v: int, w: int, c: int, d: int, c': int, d': int, u0: nat, v0: nat,
                      r0: nat, r1: nat, s: nat, k: nat, b: int, rem: int)
    requires LeadingWord(r0, s, k, u0) && LeadingWord(r1, s, k, v0)
    requires v == c * u0 + d * v0 && w == c' * u0 + d' * v0
    requires b == c * r0 + d * r1 && rem == c' * r0 + d' * r1
    requires (c <= 0 <= d && d' <= 0 <= c') || (d <= 0 <= c && c' <= 0 <= d')
    requires v + c > 0 && v + d > 0 && 0 <= w + c' < v + c && 0 <= w + d' < v + d
    ensures b > 0 && 0 <= rem < b
  {
    assert (u0 + 1) * k == u0 * k + k && (v0 + 1) * k == v0 * k + k;
    var x, y := r0 * s - u0 * k, r1 * s - v0 * k;
    Corner(k, v, c, d, x, y);
    Corner(k, w, c', d', x, y);
    CornerBelow(k, w - v, c' - c, d' - d, x, y);
    Scaled(c, d, r0, r1, s, k, u0, v0);
    Scaled(c', d', r0, r1, s, k, u0, v0);
    CornerDiff(k, w, v, c', c, d', d, x, y);
    Unscale(s, b);
    Unscale(s, rem);
    Unscale(s, b - rem);
  }

  lemma Unscale(s: nat, x: int)
    requires s > 0
    ensures s * x > 0 ==> x > 0
    ensures s * x >= 0 ==> x >= 0
  {
    if x <= 0 { MulMono(s, x, 0); }
    if x < 0 { MulMono(s, x, -1); }
  }

  lemma Scaled(c: int, d: int, r0: int, r1: int, s: int, k: int, u0: int, v0: int)
    ensures s * (c * r0 + d * r1) == k * (c * u0 + d * v0) + (c * (r0 * s - u0 * k) + d * (r1 * s - v0 * k))
  {}

  lemma CornerDiff(k: int, w: int, v: int, nc: int, mc: int, nd: int, md: int, x: int, y: int)
    ensures (k * w + (nc * x + nd * y)) - (k * v + (mc * x + md * y))
         == k * (w - v) + ((nc - mc) * x + (nd - md) * y)
  {}

  lemma Corner(k: int, v: int, c: int, d: int, x: int, y: int)
    requires 0 <= x < k && 0 <= y < k && OppositeSigns(c, d) && v + c >= 0 && v + d >= 0
    ensures k * v + (c * x + d * y) >= 0
    ensures v + c > 0 && v + d > 0 ==> k * v + (c * x + d * y) > 0
  {
    if c <= 0 && d >= 0 {
      CornerOne(k, v, c, d, x, y);
    } else {
      CornerOne(k, v, d, c, y, x);
    }
  }

  lemma CornerOne(k: int, v: int, c: int, d: int, x: int, y: int)
    requires 0 <= x < k && 0 <= y && c <= 0 <= d && v + c >= 0
    ensures k * v + (c * x + d * y) >= 0
    ensures v + c > 0 ==> k * v + (c * x + d * y) > 0
  {
    MulMono(-c, x, k);
    MulNonNeg(d, y);
    assert c * x == -(-c * x) && c * k == -(-c * k);
    assert k * (v + c) == k * v + c * k;
    MulMono(k, 0, v + c);
    if v + c > 0 { MulMono(k, 1, v + c); }
  }

  lemma CornerBelow(k: int, v: int, c: int, d: int, x: int, y: int)
    requires 0 <= x < k && 0 <= y < k && OppositeSigns(c, d) && v + c < 0 && v + d < 0
    ensures k * v + (c * x + d * y) < 0
  {
    if c >= 0 && d <= 0 { HalfCorner(k, v, c, d, x, y); } else { HalfCorner(k, v, d, c, y, x); }
  }

  lemma HalfCorner(k: int, v: int, c: int, d: int, x: int, y: int)
    requires 0 <= x < k && 0 <= y < k && c >= 0 && d <= 0 && v + c < 0
    ensures k * v + (c * x + d * y) < 0
  {
    MulMono(c, x, k);
    NonPositive(d, y);
    CornerSum(k, v, c);
    MulMono(k, v + c, -1);
  }

  lemma NonPositive(d: int, y: int)
    requires d <= 0 && y >= 0
    ensures d * y <= 0
  {}

  lemma CornerSum(k: int, v: int, c: int)
    ensures k * (v + c) == k * v + c * k
  {}
}
