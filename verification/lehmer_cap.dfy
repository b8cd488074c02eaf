/** A challenge on which lehmerMatrix leaves an entry beyond 2^31 (internal/heea8l/lehmer.go:126-163). */
module LehmerCap {
  import opened Arith
  import opened Words
  import opened Euclid
  import opened Selection
  import opened LehmerMatrix
  import opened LehmerBatch
  import opened Lehmer
  import opened Principal

  const CHALLENGE: nat := 0xede6b63848b24d3da2c0000000000000000000000000000000000000
  const FIRST_QUOTIENT: nat := 2310857500
  const REMAINDER: nat := 0x76f35b1b3ca5a0f1f3000000a6f7cef517bce6b2c09318d2e7ae9f68
  const SECOND_QUOTIENT: int := 1102473457

  lemma Powers()
    ensures Pow2(0) == 1 && Pow2(32) == 0x1_0000_0000 && Pow2(192) == Weight(3) == 0x1_0000_0000_0000_0000_0000_0000_0000_0000_0000_0000_0000_0000
    ensures Pow2(223) == 0x8000_0000 * Weight(3) && Pow2(224) == 0x1_0000_0000 * Weight(3)
    ensures Pow2(213) == 0x20_0000 * Weight(3) && Pow2(256) == 0x1_0000_0000_0000_0000 * Weight(3)
    ensures Pow2(255) == 0x8000_0000_0000_0000 * Weight(3)
  {
    WeightPow2(3);
    assert 64 * 3 == 192;
    ThreeWords();
    hide Pow2, Weight;
    Pow2Small();
    Pow2Twenty();
    Pow2Add(192, 32);
    Pow2Add(192, 31);
    Pow2Add(192, 21);
    Pow2Wide();
    Pow2Add(192, 64);
    Pow2Add(192, 63);
  }

  lemma ThreeWords()
    ensures Weight(3) == 0x1_0000_0000_0000_0000_0000_0000_0000_0000_0000_0000_0000_0000
  {
    assert Weight(0) == 1 && Weight(1) == W * Weight(0) && Weight(2) == W * Weight(1) && Weight(3) == W * Weight(2);
  }

  lemma Pow2Twenty()
    ensures Pow2(31) == 0x8000_0000 && Pow2(32) == 0x1_0000_0000 && Pow2(21) == 0x20_0000 && Pow2(63) == 0x8000_0000_0000_0000
  {
    hide Pow2;
    Pow2Small();
    Pow2Add(16, 5);
    Pow2Add(16, 15);
    Pow2Add(8, 7);
    Pow2Add(16, 16);
    Pow2Add(31, 32);
  }

  lemma BitLengths()
    ensures BitLen(N) == 256 && BitLen(CHALLENGE) == 224 && BitLen(REMAINDER) >= 214
  {
    Powers();
    hide Pow2, BitLen, Weight;
    BitLenExact(N, 256);
    BitLenExact(CHALLENGE, 224);
    BitLenAtMost(REMAINDER, 213);
  }

  /** The leading words of both pairs lehmerMatrix sees. */
  lemma LeadBy(x: nat, shift: nat, word: nat, low: nat)
    requires x * Pow2(shift) == word * (2 * Weight(3)) + low && low < 2 * Weight(3)
    ensures Lead(x, shift) == word
  {
    hide Pow2, Weight;
    DivUnique(x * Pow2(shift), 2 * Weight(3), word, low);
  }

  lemma ShiftBy(x: nat, bits: nat)
    requires BitLen(x) == bits <= 256
    ensures Shift(x) == 256 - bits
  {}

  lemma FirstBatch(u: int, v: nat)
    requires u == 0x4000_0000_0000_0000 && v == 1995660060
    ensures LeadingLoop(Identity, u, v).1 == 0
  {
    DivUnique(u + 1, v, 2310857500, u + 1 - 2310857500 * v);
    DivUnique(u, v + 1, 2310857499, u - 2310857499 * (v + 1));
    LoopStops(Identity, u, v);
  }

  lemma AgreeBy(m: Matrix, u: int, v: int, q: int, low: int, high: int)
    requires u + m.a == q * (v + m.c) + low && 0 <= low < v + m.c
    requires u + m.b == q * (v + m.d) + high && 0 <= high < v + m.d
    ensures Agree(m, u, v, q)
  {
    DivUnique(u + m.a, v + m.c, q, low);
    DivUnique(u + m.b, v + m.d, q, high);
  }

  lemma ThenEntries(m: Matrix, q: int)
    ensures m.Then(q) == Matrix(m.c, m.d, m.a - q * m.c, m.b - q * m.d)
  {}

  /** The second pair: quotients 2 and 1102473457, and the loop stops at the cap. */
  lemma SecondBatch(u: int, v: nat, w: nat, two: int, t: int)
    requires u == 8571294692243220126 && v == 4285647344177959032 && w == u - 2 * v && two == 2 && t == SECOND_QUOTIENT
    ensures LeadingLoop(Identity, u, v) == (Matrix(1, -2, -t, 2 * t + 1), 2)
  {
    hide LeadingLoop, Agree, Matrix.Then;
    var m := Matrix(0, 1, 1, -2);
    AgreeBy(Identity, u, v, two, u + 1 - 2 * v, u - 2 * (v + 1));
    ThenEntries(Identity, two);
    LoopSteps(Identity, u, v, two);
    AgreeBy(m, v, w, t, v - t * (w + 1), v + 1 - t * (w - 2));
    ThenEntries(m, t);
    LoopSteps(m, v, w, t);
  }

  /** The challenge is canonical, its first division leaves the pair (k, 8L mod k), both rows are wide enough
      for a batch at every width, the first batch takes no step, and the second leaves an entry beyond 2^31. */
  lemma CapReached()
    ensures 0 < CHALLENGE < L && FIRST_QUOTIENT < R64
    ensures Next(Row(N, 0), Row(CHALLENGE, 1)) == Row(REMAINDER, -(FIRST_QUOTIENT as int))
    ensures BitLen(REMAINDER) > 136 + GUARD_BITS && BitLen(CHALLENGE) > 136 + GUARD_BITS
    ensures LeadingLoop(Identity, Lead(N, Shift(N)), Lead(CHALLENGE, Shift(N))).1 == 0
    ensures var m := LeadingLoop(Identity, Lead(CHALLENGE, Shift(CHALLENGE)), Lead(REMAINDER, Shift(CHALLENGE)));
      m.1 == 2 && m.0.d == 2 * SECOND_QUOTIENT + 1 > CAP
  {
    hide LeadingLoop, Lead, Shift, BitLen, Pow2, Weight;
    DivUnique(N, CHALLENGE, FIRST_QUOTIENT, REMAINDER);
    BitLengths();
    ShiftBy(N, 256);
    ShiftBy(CHALLENGE, 224);
    Powers();
    LeadBy(N, 0, 0x4000_0000_0000_0000, N - 0x4000_0000_0000_0000 * (2 * Weight(3)));
    LeadBy(CHALLENGE, 0, 1995660060, CHALLENGE - 1995660060 * (2 * Weight(3)));
    LeadBy(CHALLENGE, 32, 8571294692243220126, CHALLENGE * 0x1_0000_0000 - 8571294692243220126 * (2 * Weight(3)));
    LeadBy(REMAINDER, 32, 4285647344177959032, REMAINDER * 0x1_0000_0000 - 4285647344177959032 * (2 * Weight(3)));
    FirstBatch(Lead(N, 0), Lead(CHALLENGE, 0));
    SecondBatch(Lead(CHALLENGE, 32), Lead(REMAINDER, 32), Lead(CHALLENGE, 32) - 2 * Lead(REMAINDER, 32), 2, SECOND_QUOTIENT);
  }

  /** Quotients of 2^64 and more are reachable: k = 2^180 is a valid challenge wider than every limit, its
      first quotient has 76 bits, and the principal selectors answer with the width fallback. */
  lemma WideQuotient(k: nat, limit: nat)
    requires k == Pow2(180) && SupportedWidth(limit)
    ensures 0 < k < L && N / k >= R64 && PublicChoice(k, limit) == Rejected(WidthExceeded)
  {
    Powers();
    WidePower();
    hide Pow2, Weight, BitLen, PassesTable;
    BitLenExact(k, 181);
    DivMod(N, k);
    var q := N / k;
    if q < R64 { MulMono(k, q + 1, R64); }
  }

  lemma WidePower()
    ensures Pow2(180) * R64 < N && 0 < Pow2(180) < L && Pow2(181) == 2 * Pow2(180)
  {
    hide Pow2, Weight;
    Powers();
    ThreeWords();
    Pow2Add(8, 4);
    Pow2Add(180, 12);
    Pow2Twenty();
    Pow2Small();
    Pow2Double(180);
  }
}
