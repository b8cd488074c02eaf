/** Constants, candidates and the admission test shared by the selectors of internal/heea8l. */
module Selection {
  import opened Arith
  import opened Words
  import opened Fixed256
  import opened Divide256
  import opened Euclid
  import opened Signed320

  /** The order L of the prime subgroup (RFC 8032, section 5.1) and N = 8L. */
  const L: int := 0x1000000000000000_0000000000000000_14def9dea2f79cd6_5812631a5cf5d3ed
  const N: int := 8 * L

  const FIXED_ORDER: U256 := [0x5812631a5cf5d3ed, 0x14def9dea2f79cd6, 0, 0x1000000000000000]
  const FIXED_MODULUS: U256 := [0xc09318d2e7ae9f68, 0xa6f7cef517bce6b2, 0, 0x8000000000000000]
  const ODD_ORDER_MULTIPLES: seq<U256> := [
    FIXED_ORDER,
    [0x0837294f16e17bc7, 0x3e9ced9be8e6d683, 0, 0x3000000000000000],
    [0xb85bef83d0cd23a1, 0x685ae1592ed6102f, 0, 0x5000000000000000],
    [0x6880b5b88ab8cb7b, 0x9218d51674c549dc, 0, 0x7000000000000000]]

  lemma ConstantValues()
    ensures Val(FIXED_ORDER) == L && Val(FIXED_MODULUS) == N && N < R256
    ensures Val(ODD_ORDER_MULTIPLES[0]) == L && Val(ODD_ORDER_MULTIPLES[1]) == 3 * L
    ensures Val(ODD_ORDER_MULTIPLES[2]) == 5 * L && Val(ODD_ORDER_MULTIPLES[3]) == 7 * L
  {
    Val4(FIXED_ORDER);
    Val4(FIXED_MODULUS);
    Val4(ODD_ORDER_MULTIPLES[1]);
    Val4(ODD_ORDER_MULTIPLES[2]);
    Val4(ODD_ORDER_MULTIPLES[3]);
  }

  // ---------------------------------------------------------------- results

  datatype Fallback = NoFallback | InvalidWidth | InvalidChallenge | WidthExceeded

  datatype SignedCoefficient = SignedCoefficient(limbs: U256, negative: bool)
  datatype FixedCandidate = FixedCandidate(rho: SignedCoefficient, tau: SignedCoefficient, epsilon: int)
  datatype FixedSelection = FixedSelection(candidate: FixedCandidate, useCandidate: bool, fallback: Fallback)

  /** The integers a selection carries. */
  datatype Choice = Choice(rho: int, tau: int, epsilon: int, use: bool, fallback: Fallback)

  function CoefficientValue(c: SignedCoefficient): int {
    if c.negative then -(Val(c.limbs) as int) else Val(c.limbs)
  }

  function Meaning(s: FixedSelection): Choice {
    Choice(CoefficientValue(s.candidate.rho), CoefficientValue(s.candidate.tau), s.candidate.epsilon,
           s.useCandidate, s.fallback)
  }

  const NO_COEFFICIENT: SignedCoefficient := SignedCoefficient([0, 0, 0, 0], false)
  const NO_CANDIDATE: FixedCandidate := FixedCandidate(NO_COEFFICIENT, NO_COEFFICIENT, 0)

  function Reject(f: Fallback): (s: FixedSelection)
    ensures Meaning(s) == Rejected(f)
  {
    IsZeroVal(NO_COEFFICIENT.limbs);
    FixedSelection(NO_CANDIDATE, false, f)
  }

  function Rejected(f: Fallback): Choice { Choice(0, 0, 0, false, f) }
  function Accepted(row: Row): Choice { Choice(row.rho, row.tau, 1, true, NoFallback) }

  /** The selection for k = 0: tau = 1, rho = 0. */
  function TrivialSelection(): (s: FixedSelection)
    ensures Meaning(s) == Accepted(Row(0, 1))
  {
    IsZeroVal(NO_COEFFICIENT.limbs);
    Val4([1, 0, 0, 0]);
    FixedSelection(FixedCandidate(NO_COEFFICIENT, SignedCoefficient([1, 0, 0, 0], false), 1), true, NoFallback)
  }

  predicate SupportedWidth(limit: nat) {
    limit == 128 || limit == 132 || limit == 136
  }

  // ---------------------------------------------------------------- the unit test

  /** Odd and not an odd multiple of L below 8L. */
  predicate PassesTable(m: int) {
    m % 2 == 1 && m != L && m != 3 * L && m != 5 * L && m != 7 * L
  }

  function Gcd(a: nat, b: nat): nat
    decreases b
  {
    if b == 0 then a else Gcd(b, a % b)
  }

  lemma OddWord(x: seq<u64>)
    requires |x| > 0
    ensures Val(x) % 2 == x[0] % 2
  {
    OddArith(x[0], Val(x[1..]));
  }

  lemma OddArith(x: nat, h: nat)
    ensures (x + R64 * h) % 2 == x % 2
  {}

  /** coprimeToModulus: a Euclidean gcd for a general modulus, the table of odd multiples for 8L. */
  method CoprimeToModulus(x: U256, n: U256) returns (coprime: bool)
    ensures n == FIXED_MODULUS ==> (coprime <==> PassesTable(Val(x)))
    ensures n != FIXED_MODULUS ==> (coprime <==> Val(x) % 2 == 1 && Gcd(Val(x), Val(n)) == 1)
  {
    hide Val, Gcd;
    OddWord(x);
    if x[0] % 2 == 0 {
      return false;
    }
    if n != FIXED_MODULUS {
      coprime := GcdIsOne(x, n);
      return;
    }
    ConstantValues();
    coprime := InTable(x);
    coprime := !coprime;
  }

  method InTable(x: U256) returns (found: bool)
    ensures found <==> Val(x) == L || Val(x) == 3 * L || Val(x) == 5 * L || Val(x) == 7 * L
  {
    ConstantValues();
    hide Val;
    found := false;
    for i := 0 to 4
      invariant found <==> exists j :: 0 <= j < i && Val(x) == Val(ODD_ORDER_MULTIPLES[j])
    {
      if x == ODD_ORDER_MULTIPLES[i] {
        found := true;
      } else if Val(x) == Val(ODD_ORDER_MULTIPLES[i]) {
        ValInjective(x, ODD_ORDER_MULTIPLES[i]);
      }
    }
  }

  method GcdIsOne(a: U256, b: U256) returns (one: bool)
    ensures one <==> Gcd(Val(a), Val(b)) == 1
  {
    hide Val;
    var x, n := a, b;
    IsZeroVal(n);
    while !IsZero(n)
      invariant Gcd(Val(x), Val(n)) == Gcd(Val(a), Val(b))
      invariant IsZero(n) <==> Val(n) == 0
      decreases Val(n)
    {
      var quotient, remainder := DivMod256(x, n);
      x, n := n, remainder;
      IsZeroVal(n);
    }
    one := x == [1, 0, 0, 0];
    OneVal();
    if Val(x) == 1 { ValInjective(x, [1, 0, 0, 0]); }
  }

  lemma OneVal()
    ensures Val([1, 0, 0, 0]) == 1
  {
    Val4([1, 0, 0, 0]);
  }

  /** unitMultiplier320. */
  method UnitMultiplier(x: S320) returns (unit: bool)
    ensures unit <==> PassesTable(Val(x.mag)) && Val(x.mag) < Weight(4)
  {
    OddWord(x.mag);
    IsZeroVal(x.mag);
    FourWords(x.mag);
    hide Val, Weight;
    if IsZero(x.mag) || x.mag[0] % 2 == 0 || x.mag[4] != 0 {
      return false;
    }
    unit := CoprimeToModulus(x.mag[..4], FIXED_MODULUS);
  }

  /** The top word of five is zero exactly below 2^256, and then four words carry the value. */
  lemma FourWords(x: U320)
    ensures x[4] == 0 <==> Val(x) < Weight(4)
    ensures x[4] == 0 ==> Val(x[..4]) == Val(x)
  {
    ValSnoc(x, 4);
    assert x[..5] == x;
    ValBound(x[..4]);
    if x[4] > 0 { MulMono(Weight(4), 1, x[4]); }
  }

  /** external(): the four-word coefficient, with zero never negative. */
  function External(x: S320): (c: SignedCoefficient)
    requires x.mag[4] == 0
    ensures CoefficientValue(c) == SVal(x)
  {
    FourWords(x.mag);
    IsZeroVal(x.mag);
    SignedCoefficient(x.mag[..4], x.neg && !IsZero(x.mag))
  }

  // ---------------------------------------------------------------- admission

  datatype WideRow = WideRow(rho: U256, tau: S320) {
    function Value(): Row { Row(Val(rho), SVal(tau)) }
  }

  /** The row passes the width limit on both coefficients and its multiplier is a unit. */
  predicate Admissible(row: Row, limit: nat) {
    && BitLen(row.rho) <= limit && BitLen(Abs(row.tau)) <= limit
    && PassesTable(Abs(row.tau)) && Abs(row.tau) < R256
  }

  /** principalEuclidCandidate. */
  method PrincipalCandidate(row: WideRow, limit: nat) returns (candidate: FixedCandidate, ok: bool)
    ensures ok <==> Admissible(row.Value(), limit)
    ensures ok ==> Meaning(FixedSelection(candidate, true, NoFallback)) == Accepted(row.Value())
  {
    AbsVal(row.tau);
    WeightWide();
    FourWords(row.tau.mag);
    hide Val, Weight, BitLen, PassesTable;
    candidate := NO_CANDIDATE;
    var rhoBits := BitLenLimbs(row.rho);
    if rhoBits > limit {
      return NO_CANDIDATE, false;
    }
    var tauBits := BitLenLimbs(row.tau.mag);
    if tauBits > limit {
      return NO_CANDIDATE, false;
    }
    ok := UnitMultiplier(row.tau);
    if !ok {
      return;
    }
    candidate := FixedCandidate(SignedCoefficient(row.rho, false), External(row.tau), 1);
  }
}
