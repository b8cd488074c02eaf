/** The imperative lehmerMatrix loop (internal/heea8l/lehmer.go:126-150) on 256-bit rows. */
module LehmerBatch {
  import opened Arith
  import opened Words
  import opened Fixed256
  import opened Euclid
  import opened LehmerMatrix

  /** The top 63 bits of x after shifting the leading bit of the larger operand to bit 255. */
  method LeadingBits(x: U256, shift: nat) returns (u: int, ghost k: nat)
    requires Val(x) * Pow2(shift) < Weight(|x|)
    ensures 0 <= u <= INT64_MAX && k == 2 * Weight(|x| - 1)
    ensures LeadingWord(Val(x), Pow2(shift), k, u)
  {
    var y := ShlLimbs(x, shift);
    k := 2 * Weight(|x| - 1);
    MulNonNeg(Val(x), Pow2(shift));
    DivUnique(Val(x) * Pow2(shift), Weight(|x|), 0, Val(x) * Pow2(shift));
    u := y[3] / 2;
    ValSnoc(y, 3);
    assert y[..4] == y;
    ValBound(y[..3]);
    HalfWord(Val(y[..3]), Weight(|x| - 1), y[3]);
  }

  lemma HalfWord(low: nat, w: nat, top: nat)
    requires low < w
    ensures (top / 2) * (2 * w) <= low + w * top < (top / 2 + 1) * (2 * w)
  {
    var h, b := top / 2, top % 2;
    assert w * top == h * (2 * w) + w * b;
    assert (h + 1) * (2 * w) == h * (2 * w) + 2 * w;
    MulMono(w, b, 1);
  }

  /** What lehmerMatrix promises its caller about a batch of steps >= 1 on (r0,r1). */
  ghost predicate Batch(m: Matrix, r0: nat, r1: nat, steps: nat) {
    && steps <= Length(r0, r1)
    && m == RunMatrix(r0, r1, steps)
    && NarrowRun(r0, r1, steps)
    && m.Alternating()
    && Abs(m.a) < CAP && Abs(m.b) < CAP && Abs(m.c) < CAP && Abs(m.d) < 2 * CAP
  }

  /** One accepted step extends the run of exact divisions. */
  lemma ExtendRun(m: Matrix, q: int, r0: nat, r1: nat, steps: nat)
    requires r0 >= r1 && steps <= Length(r0, r1)
    requires m == RunMatrix(r0, r1, steps) && NarrowRun(r0, r1, steps)
    requires m.Second(r0, r1) > 0 && m.First(r0, r1) / m.Second(r0, r1) == q < R64
    ensures steps + 1 <= Length(r0, r1)
    ensures m.Then(q) == RunMatrix(r0, r1, steps + 1) && NarrowRun(r0, r1, steps + 1)
  {
    AdvanceByMatrix(Row(r0, 0), Row(r1, 1), steps);
    AdvanceLength(Row(r0, 0), Row(r1, 1), steps);
  }

  /** 2*c^2 <= v0 and d^2 <= u0 with 63-bit leading words keep the entries inside the caps. */
  lemma CapBounds(c: nat, d: nat, u0: int, v0: int)
    requires c <= 1 || 2 * (c * c) <= v0
    requires d * d <= u0
    requires v0 <= u0 <= INT64_MAX
    ensures c < CAP && d < 2 * CAP
  {
    if c > 1 { SquareLess(c, CAP); }
    SquareLess(d, 2 * CAP);
  }

  lemma EntryCaps(m: Matrix, u: int, v: int, u0: int, v0: int, q: int)
    requires Leading(m, u, v, u0, v0) && Agree(m, u, v, q) && u0 <= INT64_MAX
    ensures Abs(m.Then(q).c) < CAP && Abs(m.Then(q).d) < 2 * CAP
  {
    EntryBounds(m, u, v, u0, v0, q);
    assert v0 <= u0;
    hide *;
    CapBounds(Abs(m.Then(q).c), Abs(m.Then(q).d), u0, v0);
  }

  /** An accepted step adds its quotient times the old entries: the fourth entry leaves the cap exactly when
      the quotient reaches what the two entries of its column leave room for. */
  lemma CapExactly(m: Matrix, u: int, v: int, u0: int, v0: int, q: int)
    requires Leading(m, u, v, u0, v0) && Agree(m, u, v, q)
    ensures Abs(m.Then(q).d) == Abs(m.b) + q * Abs(m.d)
    ensures Abs(m.Then(q).d) >= CAP <==> q * Abs(m.d) >= CAP - Abs(m.b)
  {
    hide Matrix.First, Matrix.Second, Matrix.Det;
    QuotientNonNeg(u + m.a, v + m.c);
    assert OppositeSigns(m.b, m.d);
    hide *;
    AbsOpposite(m.b, m.d, q);
    FourthEntry(m, q);
  }

  lemma FourthEntry(m: Matrix, q: int)
    ensures m.Then(q).d == m.b - q * m.d
  {}

  lemma SquareLess(x: nat, b: nat)
    requires x * x < b * b
    ensures x < b
  {
    if x >= b { MulMono(b, b, x); MulMono(x, b, x); }
  }

  /** Machine-range facts before a step: only the first pass can meet a sum that leaves int64. */
  ghost predicate InRange(m: Matrix, u: int, v: int) {
    && 0 <= v <= u <= INT64_MAX
    && Abs(m.a) < CAP && Abs(m.b) < CAP && Abs(m.c) < CAP && Abs(m.d) < CAP
    && (m == Identity || (u + m.a <= INT64_MAX && u + m.b <= INT64_MAX && 2 * v <= INT64_MAX))
  }

  /** On the first pass u+a wraps exactly at u = 2^63-1, and then the two quotients disagree. */
  lemma {:induction false} FirstPassWrap(u: int, v: int)
    requires 0 < v <= u <= INT64_MAX && v < INT64_MAX
    ensures Int64(u + 1) != u + 1 <==> u == INT64_MAX
    ensures u == INT64_MAX ==> GoDiv(Int64(u + 1), v) != GoDiv(u, v + 1)
  {
    if u == INT64_MAX {
      DivUnique(u + 1, R64, 0, u + 1);
      DivMod(u + 1, v);
      var q := (u + 1) / v;
      if q < 1 { MulMono(v, q, 0); }
      QuotientNonNeg(u, v + 1);
    } else {
      Int64Exact(u + 1);
    }
  }

  /** The test in exact integers: no sum leaves int64 and both quotients are q. */
  ghost predicate Accepts(m: Matrix, u: int, v: int, q: int) {
    && u + m.a <= INT64_MAX && u + m.b <= INT64_MAX && v + m.c <= INT64_MAX && v + m.d <= INT64_MAX
    && Agree(m, u, v, q)
  }

  /** The loop from leading words (u,v) on: the matrix and the number of steps it takes. */
  ghost function LeadingLoop(m: Matrix, u: int, v: nat): (Matrix, nat)
    decreases v
  {
    var q := if v + m.c > 0 then (u + m.a) / (v + m.c) else 0;
    if !Accepts(m, u, v, q) || !(0 <= u - q * v < v) then (m, 0)
    else if Abs(m.Then(q).c) >= CAP || Abs(m.Then(q).d) >= CAP then (m.Then(q), 1)
    else var r := LeadingLoop(m.Then(q), v, u - q * v); (r.0, r.1 + 1)
  }

  lemma LoopStops(m: Matrix, u: int, v: nat)
    requires forall p :: !Accepts(m, u, v, p)
    ensures LeadingLoop(m, u, v) == (m, 0)
  {}

  lemma LoopSteps(m: Matrix, u: int, v: nat, q: int)
    requires Accepts(m, u, v, q) && 0 <= u - q * v < v
    ensures LeadingLoop(m, u, v) ==
      if Abs(m.Then(q).c) >= CAP || Abs(m.Then(q).d) >= CAP then (m.Then(q), 1)
      else (LeadingLoop(m.Then(q), v, u - q * v).0, LeadingLoop(m.Then(q), v, u - q * v).1 + 1)
  {}

  /** The shift that brings the leading bit of r0 to bit 255, and the top 63 bits of x after it. */
  function Shift(r0: nat): nat { if BitLen(r0) <= 256 then 256 - BitLen(r0) else 0 }

  function Lead(x: nat, shift: nat): int { (x * Pow2(shift)) / (2 * Weight(3)) }

  lemma LeadIs(x: nat, shift: nat, k: nat, u: nat)
    requires k == 2 * Weight(3) && LeadingWord(x, Pow2(shift), k, u)
    ensures u == Lead(x, shift)
  {
    hide Pow2, Weight;
    assert (u + 1) * k == u * k + k;
    DivUnique(x * Pow2(shift), k, u, x * Pow2(shift) - u * k);
  }

  /** The loop's test: both trial quotients in wrapping int64 arithmetic. */
  method TrialQuotient(m: Matrix, u: int, v: int) returns (agreed: bool, q: int)
    requires InRange(m, u, v) && u + m.a >= 0 && u + m.b >= 0
    ensures agreed ==> Accepts(m, u, v, q)
    ensures !agreed ==> forall p :: !Accepts(m, u, v, p)
  {
    q := 0;
    if m == Identity && v == INT64_MAX {
      DivUnique(v + 1, R64, 0, v + 1);
    } else {
      Int64Exact(v + m.c);
      Int64Exact(v + m.d);
    }
    var lowDen, highDen := Int64(v + m.c), Int64(v + m.d);
    if lowDen <= 0 || highDen <= 0 {
      return false, 0;
    }
    q := GoDiv(Int64(u + m.a), lowDen);
    agreed := q == GoDiv(Int64(u + m.b), highDen);
    if m == Identity {
      Int64Exact(v);
      Int64Exact(u);
      FirstPassWrap(u, v);
    } else {
      Int64Exact(u + m.a);
      Int64Exact(u + m.b);
    }
  }

  /** Shifting the leading bit of the larger operand to the top keeps both operands whole. */
  lemma TopAligned(x: nat, r: nat, words: nat)
    requires r <= x < Weight(words) && x > 0
    ensures BitLen(x) <= 64 * words
    ensures x * Pow2(64 * words - BitLen(x)) < Weight(words)
    ensures r * Pow2(64 * words - BitLen(x)) < Weight(words)
  {
    hide Pow2, Weight, BitLen;
    WeightPow2(words);
    BitLenAtMost(x, 64 * words);
    var shift := 64 * words - BitLen(x);
    BitLenShift(x, shift);
    BitLenBounds(x * Pow2(shift));
    MulMono(Pow2(shift), r, x);
  }

  lemma LeadingOrdered(r0: nat, r1: nat, s: nat, k: nat, u: nat, v: nat)
    requires r1 <= r0 && LeadingWord(r0, s, k, u) && LeadingWord(r1, s, k, v)
    ensures v <= u
  {
    MulMono(s, r1, r0);
    if v > u { MulMono(k, u + 1, v); }
  }

  lemma StartRun(r0: nat, r1: nat)
    ensures Identity == RunMatrix(r0, r1, 0) && NarrowRun(r0, r1, 0) && Length(r0, r1) >= 0
  {}

  lemma IdentityApplies(u0: int, v0: int)
    ensures Identity.First(u0, v0) == u0 && Identity.Second(u0, v0) == v0
  {}

  lemma IdentityAlternates()
    ensures Identity.Alternating()
  {}

  lemma StartLeading(u0: int, v0: int)
    requires 0 <= v0 <= u0 <= INT64_MAX
    ensures Leading(Identity, u0, v0, u0, v0) && InRange(Identity, u0, v0)
  {
    IdentityApplies(u0, v0);
    IdentityAlternates();
    hide Matrix.First, Matrix.Second, Matrix.Alternating;
  }

  /** No product or difference of an accepted step leaves int64. */
  lemma StepExact(m: Matrix, u: int, v: int, q: int)
    requires m.Alternating() && InRange(m, u, v) && q >= 1 && 0 <= u - q * v < v
    requires v + m.c <= INT64_MAX && v + m.d <= INT64_MAX
    requires Abs(m.Then(q).c) < CAP && Abs(m.Then(q).d) < 2 * CAP
    ensures Int64(m.a - Int64(q * m.c)) == m.Then(q).c && Int64(m.b - Int64(q * m.d)) == m.Then(q).d
    ensures Int64(u - Int64(q * v)) == u - q * v
    ensures Abs(m.Then(q).d) < CAP ==> InRange(m.Then(q), v, u - q * v)
    ensures m == Identity || m.c != 0 ==> m.Then(q).c != 0
  {
    ThenAlternates(m, q);
    hide Matrix.Det;
    MulMono(v, 1, q);
    Int64Exact(q * v);
    Int64Exact(u - q * v);
    Int64Exact(q * m.c);
    Int64Exact(q * m.d);
    Int64Exact(m.Then(q).c);
    Int64Exact(m.Then(q).d);
    if m.c != 0 { MulMono(Abs(m.c), 1, q); }
  }

  lemma ThenIs(m: Matrix, q: int)
    ensures m.Then(q).a == m.c && m.Then(q).b == m.d
  {}

  method LehmerMatrixOf(rho0: U256, rho1: U256) returns (m: Matrix, steps: nat)
    requires Val(rho1) <= Val(rho0) && Val(rho0) > 0
    ensures steps == 0 ==> m == Identity
    ensures steps > 0 ==> Batch(m, Val(rho0), Val(rho1), steps)
    ensures var shift := Shift(Val(rho0));
      (m, steps) == LeadingLoop(Identity, Lead(Val(rho0), shift), Lead(Val(rho1), shift))
  {
    hide Matrix.First, Matrix.Second, Matrix.Det, Matrix.Then, RunMatrix, NarrowRun, Length, Pow2, Weight, Val, BitLen, Int64, LeadingWord, Agree, Abs,
         LeadingLoop, Lead;
    ghost var r0, r1 := Val(rho0), Val(rho1);
    var bitLength := BitLenLimbs(rho0);
    ValBound(rho0);
    TopAligned(r0, r1, |rho0|);
    var shift := 256 - bitLength;
    ghost var s := Pow2(shift);
    var u, v;
    ghost var k, k';
    u, k := LeadingBits(rho0, shift);
    v, k' := LeadingBits(rho1, shift);
    LeadingOrdered(r0, r1, s, k, u, v);
    LeadIs(r0, shift, k, u);
    LeadIs(r1, shift, k', v);
    m, steps := LeadingSteps(u, v, r0, r1, s, k);
  }

  lemma AcceptsFacts(m: Matrix, u: int, v: int, q: int)
    requires Accepts(m, u, v, q)
    ensures Agree(m, u, v, q) && v + m.c <= INT64_MAX && v + m.d <= INT64_MAX
  {}

  /** The loop on the leading words. */
  method LeadingSteps(u0: int, v0: int, ghost r0: nat, ghost r1: nat, ghost s: nat, ghost k: nat) returns (m: Matrix, steps: nat)
    requires 0 <= v0 <= u0 <= INT64_MAX && r1 <= r0 && LeadingWord(r0, s, k, u0) && LeadingWord(r1, s, k, v0)
    ensures steps == 0 ==> m == Identity
    ensures steps > 0 ==> Batch(m, r0, r1, steps)
    ensures (m, steps) == LeadingLoop(Identity, u0, v0)
  {
    hide Matrix.First, Matrix.Second, Matrix.Det, Matrix.Then, RunMatrix, NarrowRun, Length, Pow2, Weight, BitLen, Int64, LeadingWord, Agree, Abs,
         LeadingLoop, Accepts;
    var u, v := u0, v0;
    StartRun(r0, r1);
    StartLeading(u0, v0);
    ghost var goal := LeadingLoop(Identity, u0, v0);
    m, steps := Identity, 0;
    while true
      invariant if steps == 0 then m == Identity else m.c != 0
      invariant steps <= Length(r0, r1) && m == RunMatrix(r0, r1, steps) && NarrowRun(r0, r1, steps)
      invariant Leading(m, u, v, u0, v0) && InRange(m, u, v)
      invariant goal.0 == LeadingLoop(m, u, v).0 && goal.1 == LeadingLoop(m, u, v).1 + steps
      decreases v
    {
      var agreed, q := TrialQuotient(m, u, v);
      if !agreed {
        LoopStops(m, u, v);
        break;
      }
      AcceptsFacts(m, u, v, q);
      TrueQuotient(m, u, v, u0, v0, q, r0, r1, s, k);
      BracketRemainders(m, u, v, u0, v0, q);
      EntryCaps(m, u, v, u0, v0, q);
      LeadingKept(m, u, v, u0, v0, q);
      StepExact(m, u, v, q);
      ExtendRun(m, q, r0, r1, steps);
      ThenIs(m, q);
      LoopSteps(m, u, v, q);
      m := Matrix(m.c, m.d, Int64(m.a - Int64(q * m.c)), Int64(m.b - Int64(q * m.d)));
      u, v := v, Int64(u - Int64(q * v));
      steps := steps + 1;
      if Abs(m.c) >= CAP || Abs(m.d) >= CAP {
        break;
      }
    }
  }
}
