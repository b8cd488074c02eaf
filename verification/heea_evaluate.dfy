/** The variable-length recoding and the four-term shared-doubling evaluation of
    internal/r51x5/heea_base_split_ifma.go. */
module HeeaEvaluate {
  import opened Arith
  import opened Bytes
  import opened BitFields
  import opened Euclid
  import opened Selection
  import opened GroupTheory
  import opened Recoding
  import opened Schedules
  import opened Equation
  import opened HeeaProduct
  import opened HeeaPrepare

  predicate SupportedRadix(w: nat) { w == 4 || w == 5 || w == 6 }

  /** Above the scalar's own width only the last carry remains. */
  lemma TailDigits(v: nat, w: nat, n: nat, r: nat)
    requires w >= 2 && v < Pow2(w * n) && r >= n
    ensures CarryInto(v, w, r + 1) == 0
    ensures Digit(v, w, r) == if r == n then CarryInto(v, w, n) else 0
    decreases r
  {
    MulMono(w, n, r);
    BitsTop(v, w * r, w, w * n);
    assert Pow2(w - 1) == 2 * Pow2(w - 2);
    if r > n { TailDigits(v, w, n, r - 1); }
    assert Pow2(w) * 0 == 0;
  }

  lemma CeilingRounds(bits: nat, w: nat)
    requires SupportedRadix(w) && bits <= 253
    ensures 0 <= (bits + w - 1) / w <= 64 && w * ((bits + w - 1) / w) >= bits
    ensures (bits + w - 1) / w == 64 ==> w == 4
  {
    DivMod(bits + w - 1, w);
  }

  /** Enough rounds to cover the bit length. */
  lemma RoundsCover(v: nat, w: nat)
    requires SupportedRadix(w) && v < L
    ensures BitLen(v) <= 253 && (BitLen(v) + w - 1) / w <= 64 && v < Pow2(w * ((BitLen(v) + w - 1) / w))
    ensures (BitLen(v) + w - 1) / w == 64 ==> CarryInto(v, w, 64) == 0
  {
    hide BitLen, CarryInto, Pow2;
    var n := (BitLen(v) + w - 1) / w;
    CanonicalBits(v, 253);
    CeilingRounds(BitLen(v), w);
    BitLenAtMost(v, w * n);
    if n == 64 { CanonicalDigits(v, w, 64); }
  }

  /** The rounds a scalar needs before its last carry. */
  method RoundCount(scalar: Bytes32, w: nat) returns (count: nat)
    requires SupportedRadix(w) && LeValue(scalar) < L
    ensures count <= 64 && LeValue(scalar) < Pow2(w * count)
    ensures count == 64 ==> CarryInto(LeValue(scalar), w, 64) == 0
    ensures forall round: nat :: round < count ==> w * round < 256
  {
    hide LeValue, Pow2, BitLen, CarryInto;
    var bitLen := FixedScalarBitLen(scalar);
    count := (bitLen + w - 1) / w;
    RoundsCover(LeValue(scalar), w);
    forall round: nat | round < count ensures w * round < 256 {
      LastBit(bitLen, w, round);
    }
  }

  /** recodeHEEAFixedScalar: one lane, one round more than its width when the last carry is set. The
      round limit is never exceeded, so the lane is always accepted. */
  method RecodeLane(rounds: array<Round>, lane: nat, scalar: Bytes32, negative: bool, w: nat,
                    ghost scalars: seq<Bytes32>, ghost signs: set<nat>, ghost done: set<nat>) returns (ok: bool, count: nat)
    requires rounds.Length == 64 && SupportedRadix(w) && LeValue(scalar) < L
    requires lane < |scalars| && scalars[lane] == scalar && lane !in done && negative == (lane in signs)
    requires forall r :: 0 <= r < 64 ==> rounds[r] == RoundSpec(scalars, w, signs, done, r)
    modifies rounds
    ensures ok && count <= 64
    ensures forall r :: 0 <= r < 64 ==> rounds[r] == RoundSpec(scalars, w, signs, done + {lane}, r)
    ensures forall r :: r >= count ==> SignedDigit(LeValue(scalar), w, negative, r) == 0
  {
    hide LeValue, RoundSpec, SignedDigit, CarryInto, Pow2, SetDigit;
    count := RoundCount(scalar, w);
    var carry := RecodeRounds(rounds, count, lane, scalar, negative, w, scalars, signs, done);
    TailSigned(LeValue(scalar), w, count, negative);
    ok, count := FinishLane(rounds, count, lane, negative, w, carry, scalars, signs, done);
  }

  /** The last carry, if set, is one more digit. */
  method FinishLane(rounds: array<Round>, rounds0: nat, lane: nat, negative: bool, w: nat, carry: nat,
                    ghost scalars: seq<Bytes32>, ghost signs: set<nat>, ghost done: set<nat>) returns (ok: bool, count: nat)
    requires rounds.Length == 64 && rounds0 <= 64 && w >= 1 && lane < |scalars| && lane !in done && negative == (lane in signs)
    requires carry <= 1 && (rounds0 == 64 ==> carry == 0)
    requires SignedDigit(LeValue(scalars[lane]), w, negative, rounds0) == if negative then -(carry as int) else carry
    requires forall r :: r > rounds0 ==> SignedDigit(LeValue(scalars[lane]), w, negative, r) == 0
    requires forall r :: 0 <= r < rounds0 ==> rounds[r] == RoundSpec(scalars, w, signs, done + {lane}, r)
    requires forall r :: rounds0 <= r < 64 ==> rounds[r] == RoundSpec(scalars, w, signs, done, r)
    modifies rounds
    ensures ok && count <= 64
    ensures forall r :: 0 <= r < 64 ==> rounds[r] == RoundSpec(scalars, w, signs, done + {lane}, r)
    ensures forall r :: r >= count ==> SignedDigit(LeValue(scalars[lane]), w, negative, r) == 0
  {
    hide *;
    if carry == 0 {
      SkipRounds(scalars, w, signs, done, lane, rounds0);
      return true, rounds0;
    }
    if rounds0 == 64 {
      return false, rounds0;
    }
    RoundSpecAdd(scalars, w, signs, done, rounds0, lane);
    SkipRounds(scalars, w, signs, done, lane, rounds0 + 1);
    var d: int8 := if negative then -(carry as int) else carry;
    rounds[rounds0] := SetDigit(rounds[rounds0], lane, d);
    return true, rounds0 + 1;
  }

  method RecodeRounds(rounds: array<Round>, count: nat, lane: nat, scalar: Bytes32, negative: bool, w: nat,
                      ghost scalars: seq<Bytes32>, ghost signs: set<nat>, ghost done: set<nat>) returns (carry: nat)
    requires count <= rounds.Length && SupportedRadix(w) && forall round: nat :: round < count ==> w * round < 256
    requires lane < |scalars| && scalars[lane] == scalar && lane !in done && negative == (lane in signs)
    requires forall r :: 0 <= r < count ==> rounds[r] == RoundSpec(scalars, w, signs, done, r)
    modifies rounds
    ensures carry == CarryInto(LeValue(scalar), w, count)
    ensures forall r :: 0 <= r < count ==> rounds[r] == RoundSpec(scalars, w, signs, done + {lane}, r)
    ensures forall r :: count <= r < rounds.Length ==> rounds[r] == old(rounds[r])
  {
    assert CarryInto(LeValue(scalar), w, 0) == 0;
    hide RoundSpec, CarryInto, LeValue;
    carry := 0;
    for round := 0 to count
      invariant carry == CarryInto(LeValue(scalar), w, round)
      invariant forall r :: 0 <= r < round ==> rounds[r] == RoundSpec(scalars, w, signs, done + {lane}, r)
      invariant forall r :: round <= r < rounds.Length ==> rounds[r] == old(rounds[r])
    {
      carry := RecodeRound(rounds, round, lane, scalar, negative, w, carry, scalars, signs, done);
    }
  }

  lemma TailSigned(v: nat, w: nat, n: nat, negative: bool)
    requires w >= 2 && v < Pow2(w * n)
    ensures SignedDigit(v, w, negative, n) == if negative then -(CarryInto(v, w, n) as int) else CarryInto(v, w, n)
    ensures forall r :: r > n ==> SignedDigit(v, w, negative, r) == 0
  {
    hide CarryInto, Digit;
    forall r | r >= n
      ensures Digit(v, w, r) == if r == n then CarryInto(v, w, n) else 0
    {
      TailDigits(v, w, n, r);
    }
  }

  lemma SkipRounds(scalars: seq<Bytes32>, w: nat, signs: set<nat>, done: set<nat>, lane: nat, count: nat)
    requires w >= 1 && lane < |scalars| && lane !in done
    requires forall r :: r >= count ==> SignedDigit(LeValue(scalars[lane]), w, lane in signs, r) == 0
    ensures forall r :: r >= count ==> RoundSpec(scalars, w, signs, done + {lane}, r) == RoundSpec(scalars, w, signs, done, r)
  {
    hide RoundSpec, SignedDigit;
    forall r | r >= count
      ensures RoundSpec(scalars, w, signs, done + {lane}, r) == RoundSpec(scalars, w, signs, done, r)
    {
      RoundSpecSkip(scalars, w, signs, done, r, lane);
    }
  }

  /** One round of the carry loop: install the digit of this lane, hand the carry on. */
  method RecodeRound(rounds: array<Round>, round: nat, lane: nat, scalar: Bytes32, negative: bool, w: nat, carryIn: nat,
                     ghost scalars: seq<Bytes32>, ghost signs: set<nat>, ghost done: set<nat>) returns (carry: nat)
    requires round < rounds.Length && SupportedRadix(w) && w * round < 256
    requires lane < |scalars| && scalars[lane] == scalar && lane !in done && negative == (lane in signs)
    requires rounds[round] == RoundSpec(scalars, w, signs, done, round)
    requires carryIn == CarryInto(LeValue(scalar), w, round)
    modifies rounds
    ensures carry == CarryInto(LeValue(scalar), w, round + 1)
    ensures rounds[round] == RoundSpec(scalars, w, signs, done + {lane}, round)
    ensures forall r :: 0 <= r < rounds.Length && r != round ==> rounds[r] == old(rounds[r])
  {
    SmallPowers();
    assert Pow2(w - 1) <= 32;
    hide LeValue, Bits, RoundSpec, SetDigit, Digit, CarryInto, Pow2;
    var bits := FixedScalarBits(scalar, w * round, w);
    DigitStep(LeValue(scalar), w, round, bits, carryIn);
    var digit := bits + carryIn;
    carry := (digit + Pow2(w - 1)) / Pow2(w);
    digit := digit - carry * Pow2(w);
    if negative {
      digit := -digit;
    }
    RoundSpecAdd(scalars, w, signs, done, round, lane);
    var d: int8 := digit;
    rounds[round] := SetDigit(rounds[round], lane, d);
  }

  lemma LastBit(bitLen: nat, w: nat, round: nat)
    requires w >= 1 && round < (bitLen + w - 1) / w
    ensures w * round < bitLen
  {
    DivMod(bitLen + w - 1, w);
    MulMono(w, round + 1, (bitLen + w - 1) / w);
  }

  lemma SmallPowers()
    ensures Pow2(3) == 8 && Pow2(4) == 16 && Pow2(5) == 32 && Pow2(6) == 64
  {}

  /** fixedScalarBitLen. */
  method FixedScalarBitLen(x: Bytes32) returns (n: nat)
    ensures n == BitLen(LeValue(x))
  {
    var i := 32;
    assert x[..32] == x;
    while i > 0
      invariant 0 <= i <= 32 && LeValue(x[..i]) == LeValue(x)
    {
      i := i - 1;
      TopByteSplit(x[..i + 1]);
      assert x[..i + 1][..i] == x[..i];
      if x[i] != 0 {
        TopByteBits(x[..i + 1]);
        return i * 8 + BitLen(x[i]);
      }
      assert Pow2(8 * i) * 0 == 0;
    }
    n := 0;
  }

  lemma AtLeastOne(w: nat)
    requires SupportedRadix(w)
    ensures w >= 1
  {}

  /** The lanes a recoder accepts. */
  function Canonical(scalars: seq<Bytes32>, active: set<nat>): (usable: set<nat>)
    ensures usable <= active
  {
    set l | l in active && l < |scalars| && LeValue(scalars[l]) < L
  }

  /** recodeHEEAFixedScalars: all lanes of one term; count is the longest schedule. */
  method RecodeTerm(scalars: seq<Bytes32>, negative: set<nat>, active: set<nat>, w: nat)
    returns (rounds: seq<Round>, count: nat, valid: set<nat>)
    requires SupportedRadix(w) && forall l :: l in active ==> l < |scalars|
    ensures |rounds| == 64 && count <= 64 && valid == Canonical(scalars, active)
    ensures forall r :: 0 <= r < 64 ==> rounds[r] == RoundSpec(scalars, w, negative, valid, r)
    ensures forall l, r :: l in valid && r >= count ==> SignedDigit(LeValue(scalars[l]), w, l in negative, r) == 0
  {
    hide RoundSpec, LeValue, SignedDigit, EmptyRound, SupportedRadix;
    var out := new Round[64](_ => EmptyRound(|scalars|));
    AtLeastOne(w);
    forall r | 0 <= r < 64 ensures out[r] == RoundSpec(scalars, w, negative, {}, r) {
      RoundSpecNone(scalars, w, negative, r);
    }
    count, valid := 0, active;
    ghost var done: set<nat> := {};
    for lane := 0 to |scalars|
      invariant valid == set l | l in active && (l < lane ==> LeValue(scalars[l]) < L)
      invariant done == set l | l in active && l < lane && LeValue(scalars[l]) < L
      invariant count <= 64
      invariant forall r :: 0 <= r < 64 ==> out[r] == RoundSpec(scalars, w, negative, done, r)
      invariant forall l, r :: l in done && r >= count ==> SignedDigit(LeValue(scalars[l]), w, l in negative, r) == 0
    {
      if lane in active {
        var ok := CanonicalScalarBytes(scalars[lane]);
        if ok {
          var needed;
          ok, needed := RecodeLane(out, lane, scalars[lane], lane in negative, w, scalars, negative, done);
          done := done + {lane};
          if needed > count {
            count := needed;
          }
        }
        if !ok {
          valid := valid - {lane};
        }
      }
    }
    assert valid == done;
    rounds := out[..];
  }

  // ---------------------------------------------------------------- the shared doubling chain

  ghost function TailOf(q: FourTerms, t: nat, w: nat, r: nat): int
    requires t < 4 && w >= 1 && r <= 64
  {
    Tail(LeValue(q.scalars[t]), w, q.negative[t], 64, r)
  }

  function DigitOf(q: FourTerms, t: nat, w: nat, r: nat): int
    requires t < 4 && w >= 1
  {
    SignedDigit(LeValue(q.scalars[t]), w, q.negative[t], r)
  }

  /** The coefficients accumulated in round r once the first t terms have been injected. */
  ghost function Coefficients(q: FourTerms, w: nat, r: nat, t: nat): (c: seq<int>)
    requires w >= 1 && r < 64 && t <= 4
    ensures |c| == 4
  {
    seq(4, i requires 0 <= i < 4 => if i < t then TailOf(q, i, w, r) else Pow2(w) * TailOf(q, i, w, r + 1))
  }

  ghost function Tails(q: FourTerms, w: nat, r: nat): (c: seq<int>)
    requires w >= 1 && r <= 64
    ensures |c| == 4
  {
    seq(4, i requires 0 <= i < 4 => TailOf(q, i, w, r))
  }

  lemma CoefficientStep<G(!new)>(g: Group<G>, q: FourTerms, w: nat, r: nat, t: nat, p: seq<G>)
    requires Abelian(g) && w >= 1 && r < 64 && t < 4 && |p| == 4
    ensures TermSum(g, Coefficients(q, w, r, t + 1), p)
         == g.add(TermSum(g, Coefficients(q, w, r, t), p), Mul(g, DigitOf(q, t, w, r), p[t]))
  {
    hide Abelian, Mul, TermSum, LeValue;
    var c, e := Coefficients(q, w, r, t), Coefficients(q, w, r, t + 1);
    TailStep(LeValue(q.scalars[t]), w, q.negative[t], 64, r);
    assert e == c[t := c[t] + DigitOf(q, t, w, r)] by { hide Tail, SignedDigit, Pow2; }
    TermSumBump(g, c, p, t, DigitOf(q, t, w, r));
  }

  lemma DoublingStep<G(!new)>(g: Group<G>, q: FourTerms, w: nat, r: nat, p: seq<G>)
    requires Abelian(g) && w >= 1 && r < 64 && |p| == 4
    ensures Mul(g, Pow2(w), TermSum(g, Tails(q, w, r + 1), p)) == TermSum(g, Coefficients(q, w, r, 0), p)
  {
    hide Abelian, Mul, TermSum, TailOf, Pow2;
    TermSumScale(g, Pow2(w), Tails(q, w, r + 1), Coefficients(q, w, r, 0), p);
  }

  /** acc holds, lane by lane, the partial four-term sums; lanes that fell back hold the identity. */
  ghost predicate Partial<G(!new)>(g: Group<G>, acc: seq<G>, q: seq<FourTerms>, bases: seq<seq<G>>, usable: set<nat>,
                                   w: nat, r: nat, t: nat)
    requires |bases| == 4 && w >= 1 && r < 64 && t <= 4
    requires forall i :: 0 <= i < 4 ==> |bases[i]| == |q|
  {
    && |acc| == |q|
    && (forall l :: 0 <= l < |q| && l in usable ==> acc[l] == TermSum(g, Coefficients(q[l], w, r, t), PointsOf(bases, l)))
    && (forall l :: 0 <= l < |q| && l !in usable ==> acc[l] == g.zero)
  }

  function PointsOf<G(!new)>(bases: seq<seq<G>>, l: nat): (p: seq<G>)
    requires |bases| == 4 && forall i :: 0 <= i < 4 ==> l < |bases[i]|
    ensures |p| == 4
  {
    [bases[0][l], bases[1][l], bases[2][l], bases[3][l]]
  }

  /** All four terms in: the next round starts from the doubled tails. */
  lemma RoundDone<G(!new)>(g: Group<G>, acc: seq<G>, doubled: seq<G>, q: seq<FourTerms>, bases: seq<seq<G>>,
                           usable: set<nat>, w: nat, r: nat)
    requires Abelian(g) && |bases| == 4 && w >= 1 && 1 <= r < 64
    requires forall i :: 0 <= i < 4 ==> |bases[i]| == |q|
    requires Partial(g, acc, q, bases, usable, w, r, 4) && Scaled(g, doubled, Pow2(w), acc)
    ensures Partial(g, doubled, q, bases, usable, w, r - 1, 0)
  {
    hide Abelian, Mul, TermSum, Pow2;
    forall l | 0 <= l < |q|
      ensures doubled[l] == if l in usable then TermSum(g, Coefficients(q[l], w, r - 1, 0), PointsOf(bases, l)) else g.zero
    {
      DoublingStep(g, q[l], w, r - 1, PointsOf(bases, l));
      assert Coefficients(q[l], w, r, 4) == Tails(q[l], w, r) by { hide TailOf; }
      MulOfZero(g, Pow2(w));
    }
  }

  function TermScalars(q: seq<FourTerms>, t: nat): (s: seq<Bytes32>)
    requires t < 4
    ensures |s| == |q|
  {
    seq(|q|, l requires 0 <= l < |q| => q[l].scalars[t])
  }

  function TermSigns(q: seq<FourTerms>, t: nat): set<nat>
    requires t < 4
  {
    set l: nat | l < |q| && q[l].negative[t]
  }

  /** Lanes all of whose four magnitudes are canonical. */
  predicate AllCanonical(q: FourTerms)
  {
    LeValue(q.scalars[0]) < L && LeValue(q.scalars[1]) < L && LeValue(q.scalars[2]) < L && LeValue(q.scalars[3]) < L
  }

  /** What RecodeTerm delivered for term t. */
  ghost predicate Recoded(q: seq<FourTerms>, t: nat, w: nat, rounds: seq<Round>, count: nat, valid: set<nat>)
    requires t < 4 && w >= 1
  {
    && |rounds| == 64 && count <= 64 && (forall l :: l in valid ==> l < |q|)
    && (forall r :: 0 <= r < 64 ==> rounds[r] == RoundSpec(TermScalars(q, t), w, TermSigns(q, t), valid, r))
    && (forall l, r :: l in valid && r >= count ==> DigitOf(q[l], t, w, r) == 0)
  }

  lemma LaneDigit(q: seq<FourTerms>, t: nat, w: nat, valid: set<nat>, r: nat, l: nat)
    requires t < 4 && w >= 1 && l < |q| && l in valid
    ensures LaneDigits(TermScalars(q, t), w, TermSigns(q, t), valid, r)[l] == DigitOf(q[l], t, w, r)
  {}

  /** One term of one round: skipped past the term's own schedule, injected otherwise. */
  method InjectTerm<G(!new)>(g: Group<G>, acc: seq<G>, table: seq<seq<G>>, rounds: seq<Round>, count: nat, round: nat,
                             usable: set<nat>, ghost q: seq<FourTerms>, ghost bases: seq<seq<G>>, ghost w: nat, t: nat,
                             ghost valid: set<nat>) returns (out: seq<G>)
    requires Abelian(g) && |bases| == 4 && w >= 1 && round < 64 && t < 4
    requires (forall i :: 0 <= i < 4 ==> |bases[i]| == |q|) && usable <= valid
    requires Multiples(g, table, bases[t]) && |table| == Pow2(w - 1) && Recoded(q, t, w, rounds, count, valid)
    requires Partial(g, acc, q, bases, usable, w, round, t)
    ensures Partial(g, out, q, bases, usable, w, round, t + 1)
  {
    hide Abelian, Mul, TermSum, Coefficients, Multiples, Pow2, SignedDigit;
    forall l | 0 <= l < |q| && l in usable
      ensures TermSum(g, Coefficients(q[l], w, round, t + 1), PointsOf(bases, l))
           == g.add(acc[l], Mul(g, DigitOf(q[l], t, w, round), bases[t][l]))
      ensures LaneDigits(TermScalars(q, t), w, TermSigns(q, t), valid, round)[l] == DigitOf(q[l], t, w, round)
      ensures Abs(DigitOf(q[l], t, w, round)) <= Pow2(w - 1)
    {
      CoefficientStep(g, q[l], w, round, t, PointsOf(bases, l));
      LaneDigit(q, t, w, valid, round, l);
    }
    if round >= count {
      out := acc;
      forall l | 0 <= l < |q| && l in usable
        ensures g.add(acc[l], Mul(g, 0, bases[t][l])) == acc[l]
      {
        MulZeroOne(g, bases[t][l]);
        Zero(g, acc[l]);
      }
    } else {
      out := Inject(g, acc, table, rounds[round], usable, bases[t],
                    LaneDigits(TermScalars(q, t), w, TermSigns(q, t), valid, round));
    }
  }

  /** The chain starts from the identity because nothing lies above the longest schedule. */
  lemma ChainStart<G(!new)>(g: Group<G>, q: seq<FourTerms>, bases: seq<seq<G>>, usable: set<nat>, w: nat, r: nat)
    requires Abelian(g) && |bases| == 4 && w >= 1 && r < 64
    requires forall i :: 0 <= i < 4 ==> |bases[i]| == |q|
    requires forall l, t, i :: 0 <= l < |q| && l in usable && 0 <= t < 4 && i > r ==> DigitOf(q[l], t, w, i) == 0
    ensures Partial(g, IdentityLanes(g, |q|), q, bases, usable, w, r, 0)
  {
    hide Abelian, SignedDigit;
    forall l | 0 <= l < |q| && l in usable
      ensures TermSum(g, Coefficients(q[l], w, r, 0), PointsOf(bases, l)) == g.zero
    {
      TailsVanish(q[l], w, r);
      TermSumZero(g, Coefficients(q[l], w, r, 0), PointsOf(bases, l));
    }
  }

  lemma TailsVanish(q: FourTerms, w: nat, r: nat)
    requires w >= 1 && r < 64 && forall t, i :: 0 <= t < 4 && i > r ==> DigitOf(q, t, w, i) == 0
    ensures forall t :: 0 <= t < 4 ==> Coefficients(q, w, r, 0)[t] == 0
  {
    hide Tail, Pow2;
    forall t | 0 <= t < 4 ensures Coefficients(q, w, r, 0)[t] == 0 {
      forall i | r + 1 <= i < 64 ensures SignedDigit(LeValue(q.scalars[t]), w, q.negative[t], i) == 0 {
        assert DigitOf(q, t, w, i) == 0;
      }
      TailEnd(LeValue(q.scalars[t]), w, q.negative[t], 64, r + 1);
      assert TailOf(q, t, w, r + 1) == 0 && Pow2(w) * 0 == 0;
      assert Pow2(w) * TailOf(q, t, w, r + 1) == 0;
    }
  }

  /** With every round consumed the coefficients are the four exact integers. */
  lemma ChainEnd<G(!new)>(g: Group<G>, q: FourTerms, w: nat, p: seq<G>)
    requires Abelian(g) && SupportedRadix(w) && |p| == 4 && AllCanonical(q)
    ensures TermSum(g, Tails(q, w, 0), p) == FourSum(g, q, p)
    ensures Tails(q, w, 0) == Coefficients(q, w, 0, 4)
  {
    hide Abelian, Mul, TermSum, LeValue;
    forall t | 0 <= t < 4 ensures TailOf(q, t, w, 0) == Term(q, t) {
      TailWhole(LeValue(q.scalars[t]), w, q.negative[t], 64);
    }
    hide TailOf;
    assert Tails(q, w, 0) == [Term(q, 0), Term(q, 1), Term(q, 2), Term(q, 3)];
    TermSumFour(g, Term(q, 0), Term(q, 1), Term(q, 2), Term(q, 3), p);
  }

  function FourSum<G(!new)>(g: Group<G>, q: FourTerms, p: seq<G>): G
    requires |p| == 4
  {
    g.add(g.add(g.add(Mul(g, Term(q, 0), p[0]), Mul(g, Term(q, 1), p[1])), Mul(g, Term(q, 2), p[2])), Mul(g, Term(q, 3), p[3]))
  }

  lemma TermSumFour<G(!new)>(g: Group<G>, a: int, b: int, c: int, d: int, p: seq<G>)
    requires Abelian(g) && |p| == 4
    ensures TermSum(g, [a, b, c, d], p)
         == g.add(g.add(g.add(Mul(g, a, p[0]), Mul(g, b, p[1])), Mul(g, c, p[2])), Mul(g, d, p[3]))
  {
    hide Abelian, Mul;
    assert [a, b, c, d][..3] == [a, b, c] && [a, b, c][..2] == [a, b] && [a, b][..1] == [a] && [a][..0] == [];
    assert p[..3][..2] == p[..2] && p[..2][..1] == p[..1] && p[..1][..0] == [];
    assert TermSum(g, [a], p[..1]) == g.add(g.zero, Mul(g, a, p[0]));
    assert TermSum(g, [a, b], p[..2]) == g.add(TermSum(g, [a], p[..1]), Mul(g, b, p[1]));
    assert TermSum(g, [a, b, c], p[..3]) == g.add(TermSum(g, [a, b], p[..2]), Mul(g, c, p[2]));
    Zero(g, Mul(g, a, p[0]));
  }

  /** experimentalIFMAHEEABaseSplitWorkspace: four tables, the first two retained across calls. */
  class Workspace<G(!new)> {
    const g: Group<G>
    const count: nat
    var tables: seq<seq<seq<G>>>
    var radixBits: nat
    var variableValidMask: set<nat>
    var fixedBasesPrepared: bool
    var variableBasesPrepared: bool
    ghost var bases: seq<seq<G>>

    ghost predicate Valid()
      reads this
    {
      && |tables| == 4 && |bases| == 4
      && (fixedBasesPrepared ==>
            SupportedRadix(radixBits) && Prepared(0) && Prepared(1) && Scaled(g, bases[1], SPLIT, bases[0]))
      && (variableBasesPrepared ==> fixedBasesPrepared && Prepared(2) && Prepared(3))
      && (forall l :: l in variableValidMask ==> l < count)
    }

    ghost predicate Prepared(t: nat)
      reads this
      requires |tables| == 4 && |bases| == 4 && t < 4
    {
      |bases[t]| == count && |tables[t]| == Pow2(Width(radixBits)) && Multiples(g, tables[t], bases[t])
    }

    constructor (g: Group<G>, count: nat)
      ensures this.g == g && this.count == count && Valid() && !fixedBasesPrepared && !variableBasesPrepared
    {
      this.g, this.count := g, count;
      tables, bases := [[], [], [], []], [[], [], [], []];
      radixBits, variableValidMask := 0, {};
      fixedBasesPrepared, variableBasesPrepared := false, false;
    }

    /** PrepareFixedBase: the second base is derived here, by 128 doublings. */
    method PrepareFixedBase(B: seq<G>, radix: nat)
      requires Valid() && Abelian(g) && |B| == count && SupportedRadix(radix)
      modifies this
      ensures Valid() && fixedBasesPrepared && !variableBasesPrepared && variableValidMask == {}
      ensures radixBits == radix && bases[0] == B
    {
      hide Abelian, Scaled, Multiples, Pow2;
      SplitWeight(128);
      var B128 := DoubleTimes(g, B, 128);
      var table0 := BuildTable(g, B, Entries(radix));
      var table1 := BuildTable(g, B128, Entries(radix));
      ScaledLength(g, B128, SPLIT, B);
      tables, bases := [table0, table1, [], []], [B, B128, [], []];
      radixBits, fixedBasesPrepared, variableBasesPrepared, variableValidMask := radix, true, false, {};
    }

    /** PrepareVariableBasesAffineR, and PrepareVariableBases with every lane decoded. */
    method PrepareVariableBases(R: seq<G>, A: seq<G>, decodedValid: set<nat>)
      requires Valid() && Abelian(g) && fixedBasesPrepared && |R| == |A| == count
      requires forall l :: l in decodedValid ==> l < count
      modifies this
      ensures Valid() && variableBasesPrepared && variableValidMask == decodedValid
      ensures bases == [old(bases)[0], old(bases)[1], R, A]
    {
      hide Abelian, Scaled, Multiples, Pow2;
      var table2 := BuildTable(g, R, Entries(radixBits));
      var table3 := BuildTable(g, A, Entries(radixBits));
      tables, bases := [tables[0], tables[1], table2, table3], [bases[0], bases[1], R, A];
      variableValidMask, variableBasesPrepared := decodedValid, true;
    }

    /** Evaluate: usable lanes carry the exact four-term sum, every other lane is the identity, and
        usable and fallback lanes partition the active ones. */
    method Evaluate(coefficients: seq<FourTerms>, validMask: set<nat>, active: set<nat>, available: bool)
      returns (out: seq<G>, usable: set<nat>, fallback: set<nat>, failed: bool)
      requires Valid() && Abelian(g) && variableBasesPrepared && |coefficients| == count
      requires forall l :: l in active ==> l < count
      ensures failed <==> !available
      ensures usable + fallback == active && usable !! fallback
      ensures usable == if failed then {} else
        set l | l in active && l in validMask && l in variableValidMask && AllCanonical(coefficients[l])
      ensures !failed ==> |out| == count
      ensures forall l :: 0 <= l < count && l in usable ==>
        out[l] == FourTerm(g, bases[0][l], bases[2][l], bases[3][l], Term(coefficients[l], 0), Term(coefficients[l], 1),
                           Term(coefficients[l], 2), Term(coefficients[l], 3))
      ensures forall l :: !failed && 0 <= l < count && l !in usable ==> out[l] == g.zero
    {
      hide Abelian, Mul, TermSum, Coefficients, SignedDigit, Scaled, AllCanonical, Recoded;
      out := IdentityLanes(g, count);
      if !available {
        return out, {}, active, true;
      }
      failed := false;
      var digits, counts;
      ghost var valid;
      digits, counts, usable, valid := RecodeAll(coefficients, active * validMask * variableValidMask, radixBits);
      fallback := active - usable;
      if usable == {} {
        return;
      }
      out := Chain(g, count, coefficients, tables, digits, counts, usable, radixBits, bases, valid);
      SecondBase(g, coefficients, bases, usable);
    }
  }

  /** The second table's base is [2^128] of the first, so the sum is the four-term equation's left side. */
  lemma SecondBase<G(!new)>(g: Group<G>, q: seq<FourTerms>, bases: seq<seq<G>>, usable: set<nat>)
    requires |bases| == 4 && (forall i :: 0 <= i < 4 ==> |bases[i]| == |q|) && Scaled(g, bases[1], SPLIT, bases[0])
    ensures forall l :: 0 <= l < |q| && l in usable ==>
      FourSum(g, q[l], PointsOf(bases, l))
        == FourTerm(g, bases[0][l], bases[2][l], bases[3][l], Term(q[l], 0), Term(q[l], 1), Term(q[l], 2), Term(q[l], 3))
  {}

  /** The shared doubling chain: w doublings between rounds, four injections a round. */
  method Chain<G(!new)>(g: Group<G>, lanes: nat, ghost q: seq<FourTerms>, tables: seq<seq<seq<G>>>, digits: seq<seq<Round>>,
                        counts: seq<nat>, usable: set<nat>, w: nat, ghost bases: seq<seq<G>>, ghost valid: seq<set<nat>>)
    returns (acc: seq<G>)
    requires lanes == |q| && Abelian(g) && SupportedRadix(w) && |tables| == |digits| == |counts| == |bases| == |valid| == 4
    requires forall i :: 0 <= i < 4 ==> |bases[i]| == |q| && |tables[i]| == Pow2(w - 1) && Multiples(g, tables[i], bases[i])
    requires forall i :: 0 <= i < 4 ==> usable <= valid[i] && Recoded(q, i, w, digits[i], counts[i], valid[i])
    requires forall l :: l in usable ==> l < |q| && AllCanonical(q[l])
    ensures |acc| == |q|
    ensures forall l :: 0 <= l < |q| && l in usable ==> acc[l] == FourSum(g, q[l], PointsOf(bases, l))
    ensures forall l :: 0 <= l < |q| && l !in usable ==> acc[l] == g.zero
  {
    hide Abelian, Mul, TermSum, Coefficients, SignedDigit, Multiples, AllCanonical, Pow2;
    acc := IdentityLanes(g, lanes);
    var maxRounds := MaxCount(counts);
    forall l, t, i | 0 <= l < |q| && l in usable && 0 <= t < 4 && i >= maxRounds
      ensures DigitOf(q[l], t, w, i) == 0
    {
      assert Recoded(q, t, w, digits[t], counts[t], valid[t]);
    }
    ChainStartAny(g, q, bases, usable, w, maxRounds);
    var round := maxRounds;
    while round > 0
      invariant round <= maxRounds <= 64
      invariant round == maxRounds ==> acc == IdentityLanes(g, |q|)
      invariant round < maxRounds ==> Partial(g, acc, q, bases, usable, w, round, 4)
    {
      round := round - 1;
      if round != maxRounds - 1 {
        ghost var before := acc;
        acc := DoubleTimes(g, acc, w);
        RoundDone(g, before, acc, q, bases, usable, w, round + 1);
      }
      for t := 0 to 4
        invariant Partial(g, acc, q, bases, usable, w, round, t)
      {
        acc := InjectTerm(g, acc, tables[t], digits[t], counts[t], round, usable, q, bases, w, t, valid[t]);
      }
    }
    forall l | 0 <= l < |q| && l in usable
      ensures acc[l] == FourSum(g, q[l], PointsOf(bases, l))
    {
      ChainEnd(g, q[l], w, PointsOf(bases, l));
    }
  }

  lemma ChainStartAny<G(!new)>(g: Group<G>, q: seq<FourTerms>, bases: seq<seq<G>>, usable: set<nat>, w: nat, n: nat)
    requires Abelian(g) && |bases| == 4 && w >= 1 && n <= 64 && forall i :: 0 <= i < 4 ==> |bases[i]| == |q|
    requires forall l, t, i :: 0 <= l < |q| && l in usable && 0 <= t < 4 && i >= n ==> DigitOf(q[l], t, w, i) == 0
    ensures n > 0 ==> Partial(g, IdentityLanes(g, |q|), q, bases, usable, w, n - 1, 0)
    ensures n == 0 ==> forall l :: 0 <= l < |q| && l in usable ==> g.zero == TermSum(g, Tails(q[l], w, 0), PointsOf(bases, l))
  {
    if n > 0 {
      ChainStart(g, q, bases, usable, w, n - 1);
    } else {
      hide Abelian, SignedDigit;
      forall l | 0 <= l < |q| && l in usable
        ensures g.zero == TermSum(g, Tails(q[l], w, 0), PointsOf(bases, l))
      {
        NoRounds(q[l], w);
        TermSumZero(g, Tails(q[l], w, 0), PointsOf(bases, l));
      }
    }
  }

  lemma NoRounds(q: FourTerms, w: nat)
    requires w >= 1 && forall t, i :: 0 <= t < 4 && i >= 0 ==> DigitOf(q, t, w, i) == 0
    ensures forall t :: 0 <= t < 4 ==> Tails(q, w, 0)[t] == 0
  {
    hide Tail;
    forall t | 0 <= t < 4 ensures Tails(q, w, 0)[t] == 0 {
      forall i | 0 <= i < 64 ensures SignedDigit(LeValue(q.scalars[t]), w, q.negative[t], i) == 0 {
        assert DigitOf(q, t, w, i) == 0;
      }
      TailEnd(LeValue(q.scalars[t]), w, q.negative[t], 64, 0);
    }
  }

  /** The four terms recoded one after another, each restricted to the lanes still usable. */
  method RecodeAll(q: seq<FourTerms>, active: set<nat>, w: nat)
    returns (digits: seq<seq<Round>>, counts: seq<nat>, usable: set<nat>, ghost valid: seq<set<nat>>)
    requires SupportedRadix(w) && forall l :: l in active ==> l < |q|
    ensures |digits| == |counts| == |valid| == 4
    ensures usable == set l | l in active && AllCanonical(q[l])
    ensures forall t :: 0 <= t < 4 ==> usable <= valid[t] && Recoded(q, t, w, digits[t], counts[t], valid[t])
  {
    hide LeValue, SignedDigit, RoundSpec;
    digits, counts, usable, valid := [], [], active, [];
    for t := 0 to 4
      invariant |digits| == |counts| == |valid| == t && usable <= active
      invariant usable == set l | l in active && forall i :: 0 <= i < t ==> LeValue(q[l].scalars[i]) < L
      invariant forall i :: 0 <= i < t ==> usable <= valid[i] && Recoded(q, i, w, digits[i], counts[i], valid[i])
    {
      var rounds, count, lanes := RecodeTerm(TermScalars(q, t), TermSigns(q, t), usable, w);
      forall l, r | l in lanes && r >= count ensures DigitOf(q[l], t, w, r) == 0 {
        assert SignedDigit(LeValue(TermScalars(q, t)[l]), w, l in TermSigns(q, t), r) == 0;
      }
      assert Recoded(q, t, w, rounds, count, lanes);
      digits, counts, valid, usable := digits + [rounds], counts + [count], valid + [lanes], usable * lanes;
    }
  }

  method MaxCount(counts: seq<nat>) returns (m: nat)
    ensures forall t :: 0 <= t < |counts| ==> counts[t] <= m
    ensures |counts| > 0 ==> m in counts
  {
    m := 0;
    for t := 0 to |counts|
      invariant forall i :: 0 <= i < t ==> counts[i] <= m
      invariant if t == 0 then m == 0 else m in counts[..t]
    {
      if counts[t] > m {
        m := counts[t];
      }
      assert counts[..t + 1] == counts[..t] + [counts[t]];
      if t == 0 { assert m == counts[0]; }
    }
    assert counts[..|counts|] == counts;
  }

  function Width(radix: nat): nat { if radix == 0 then 0 else radix - 1 }

  /** regularRadixEntries. */
  function Entries(radix: nat): (n: nat)
    requires SupportedRadix(radix)
    ensures n == Pow2(radix - 1)
  {
    SmallPowers();
    if radix == 4 then 8 else if radix == 5 then 16 else 32
  }

  lemma ScaledLength<G(!new)>(g: Group<G>, acc: seq<G>, m: int, start: seq<G>)
    requires Scaled(g, acc, m, start)
    ensures |acc| == |start|
  {}
}
