/** Integer facts the other modules lean on: powers of two, bit lengths, division and congruence. */
module Arith {

  function Abs(x: int): nat {
    if x < 0 then -x else x
  }

  function Max(x: int, y: int): int {
    if x >= y then x else y
  }

  function Pow2(n: nat): (p: nat)
    ensures p >= 1
  {
    if n == 0 then 1 else 2 * Pow2(n - 1)
  }

  /** The number of bits of |n|, as bits.Len64 and big.Int.BitLen count them. */
  function BitLen(n: nat): nat {
    if n == 0 then 0 else 1 + BitLen(n / 2)
  }

  lemma MulMono(a: nat, x: int, y: int)
    requires x <= y
    ensures a * x <= a * y
  {}

  lemma MulNonNeg(a: nat, b: nat)
    ensures a * b >= 0
  {}

  lemma DivUnique(n: int, d: int, q: int, r: int)
    requires 0 <= r < d && n == q * d + r
    ensures n / d == q && n % d == r
  {
    var q', r' := n / d, n % d;
    assert n == q' * d + r';
    if q' < q {
      MulMono(d, q' + 1, q);
    } else if q' > q {
      MulMono(d, q + 1, q');
    }
  }

  lemma DivMod(n: int, d: int)
    requires d > 0
    ensures n == (n / d) * d + n % d && 0 <= n % d < d
  {}

  lemma {:induction false} Pow2Add(a: nat, b: nat)
    ensures Pow2(a + b) == Pow2(a) * Pow2(b)
    decreases a
  {
    if a > 0 {
      Pow2Add(a - 1, b);
      assert Pow2(a - 1 + b) == Pow2(a - 1) * Pow2(b);
      assert Pow2(a + b) == 2 * Pow2(a - 1 + b);
    }
  }

  lemma Pow2Double(n: nat)
    ensures Pow2(n + 1) == 2 * Pow2(n) && Pow2(0) == 1
  {}

  lemma Pow2Mono(a: nat, b: nat)
    requires a <= b
    ensures Pow2(a) <= Pow2(b)
  {
    Pow2Add(a, b - a);
    MulMono(Pow2(a), 1, Pow2(b - a));
  }

  lemma Pow2Strict(a: nat, b: nat)
    requires a < b
    ensures 2 * Pow2(a) <= Pow2(b)
  {
    Pow2Mono(a + 1, b);
  }

  /** 2^64, 2^256 and 2^320. */
  const R64: int := 0x1_0000_0000_0000_0000
  const R256: int := 0x1_0000000000000000_0000000000000000_0000000000000000_0000000000000000
  const R320: int := R64 * R256

  lemma Pow2Small()
    ensures Pow2(5) == 32 && Pow2(8) == 256 && Pow2(10) == 1024
    ensures Pow2(31) == 0x8000_0000 && Pow2(32) == 0x1_0000_0000
  {
    hide Pow2;
    Pow2Five();
    Pow2Add(5, 3);
    Pow2Add(8, 2);
    Pow2Add(8, 8);
    Pow2Add(16, 16);
    Pow2Double(31);
  }

  lemma Pow2Five()
    ensures Pow2(2) == 4 && Pow2(3) == 8 && Pow2(5) == 32
  {}

  lemma Pow2Wide()
    ensures Pow2(63) == 0x8000_0000_0000_0000 && Pow2(64) == R64
    ensures Pow2(256) == R256 && Pow2(320) == R320
  {
    hide Pow2;
    Pow2Small();
    Pow2Add(32, 32);
    Pow2Double(63);
    Pow2Add(64, 64);
    Pow2Add(128, 128);
    Pow2Add(256, 64);
  }

  lemma {:induction false} BitLenBounds(n: nat)
    ensures n < Pow2(BitLen(n))
    ensures n > 0 ==> BitLen(n) > 0 && Pow2(BitLen(n) - 1) <= n
  {
    if n > 0 {
      BitLenBounds(n / 2);
    }
  }

  /** BitLen(n) <= m says exactly n < 2^m. */
  lemma BitLenAtMost(n: nat, m: nat)
    ensures BitLen(n) <= m <==> n < Pow2(m)
  {
    BitLenBounds(n);
    if BitLen(n) <= m {
      Pow2Mono(BitLen(n), m);
    } else {
      Pow2Mono(m, BitLen(n) - 1);
    }
  }

  lemma BitLenExact(n: nat, m: nat)
    requires m > 0 && Pow2(m - 1) <= n < Pow2(m)
    ensures BitLen(n) == m
  {
    BitLenAtMost(n, m);
    BitLenAtMost(n, m - 1);
  }

  lemma BitLenMono(a: nat, b: nat)
    requires a <= b
    ensures BitLen(a) <= BitLen(b)
  {
    BitLenBounds(b);
    BitLenAtMost(a, BitLen(b));
  }

  lemma ScaleBounds(n: nat, m: nat, p: nat)
    requires m > 0 && p > 0 && Pow2(m - 1) <= n < Pow2(m)
    ensures Pow2(m - 1) * p <= n * p < Pow2(m) * p
  {
    MulMono(p, Pow2(m - 1), n);
    MulMono(p, n + 1, Pow2(m));
  }

  lemma BitLenShift(n: nat, s: nat)
    requires n > 0
    ensures BitLen(n * Pow2(s)) == BitLen(n) + s
  {
    var m := BitLen(n);
    BitLenBounds(n);
    ScaleBounds(n, m, Pow2(s));
    Pow2Add(m - 1, s);
    Pow2Add(m, s);
    BitLenExact(n * Pow2(s), m + s);
  }

  /** m copies of n. */
  function Copies(m: int, n: int): int
    decreases Abs(m)
  {
    if m == 0 then 0 else if m > 0 then Copies(m - 1, n) + n else Copies(m + 1, n) - n
  }

  lemma {:induction false} CopiesProduct(m: int, n: int)
    ensures Copies(m, n) == m * n
    decreases Abs(m)
  {
    if m > 0 {
      CopiesProduct(m - 1, n);
    } else if m < 0 {
      CopiesProduct(m + 1, n);
    }
  }

  ghost predicate DifferBy(a: int, b: int, n: int, m: int) {
    a - b == Copies(m, n)
  }

  /** a and b leave the same remainder modulo n. */
  ghost predicate Congruent(a: int, b: int, n: int) {
    exists m: int :: DifferBy(a, b, n, m)
  }

  lemma CongruentBy(a: int, b: int, n: int, m: int)
    requires a - b == m * n
    ensures Congruent(a, b, n)
  {
    CopiesProduct(m, n);
    assert DifferBy(a, b, n, m);
  }

  lemma CongruentWitness(a: int, b: int, n: int) returns (m: int)
    requires Congruent(a, b, n)
    ensures a - b == m * n
  {
    m :| DifferBy(a, b, n, m);
    CopiesProduct(m, n);
  }

  lemma CongruentTrans(a: int, b: int, c: int, n: int)
    requires Congruent(a, b, n) && Congruent(b, c, n)
    ensures Congruent(a, c, n)
  {
    var m1 := CongruentWitness(a, b, n);
    var m2 := CongruentWitness(b, c, n);
    CongruentBy(a, c, n, m1 + m2);
  }

  lemma CongruentSym(a: int, b: int, n: int)
    requires Congruent(a, b, n)
    ensures Congruent(b, a, n)
  {
    var m := CongruentWitness(a, b, n);
    CongruentBy(b, a, n, -m);
  }

  lemma CongruentAdd(a: int, b: int, c: int, d: int, n: int)
    requires Congruent(a, b, n) && Congruent(c, d, n)
    ensures Congruent(a + c, b + d, n)
  {
    var m1 := CongruentWitness(a, b, n);
    var m2 := CongruentWitness(c, d, n);
    CongruentBy(a + c, b + d, n, m1 + m2);
  }

  lemma CongruentMul(a: int, b: int, c: int, n: int)
    requires Congruent(a, b, n)
    ensures Congruent(c * a, c * b, n)
  {
    var m := CongruentWitness(a, b, n);
    calc {
      c * a - c * b;
      c * (a - b);
      c * (m * n);
      (c * m) * n;
    }
    CongruentBy(c * a, c * b, n, c * m);
  }

  lemma CongruentMod(a: int, n: int)
    requires n > 0
    ensures Congruent(a, a % n, n)
  {
    CongruentBy(a, a % n, n, a / n);
  }

  /** Two representatives of one residue in [0,n) are equal. */
  lemma CongruentUnique(a: int, b: int, n: int)
    requires n > 0 && 0 <= a < n && 0 <= b < n && Congruent(a, b, n)
    ensures a == b
  {
    var m := CongruentWitness(a, b, n);
    if m >= 1 {
      MulMono(n, 1, m);
    } else if m <= -1 {
      MulMono(n, m, -1);
    }
  }
}
