/** Merged fixed/variable-base chains: digits of two scalars at different widths on one doubling run
    (internal/r51x5/asymmetric_fixed_b_niels_x8_experiment.go, internal/r51x5/asymmetric_fixed_b_dsm.go). */
module MergedChain {
  import opened Arith
  import opened Words
  import opened Bytes
  import opened BitFields
  import opened Selection
  import opened GroupTheory
  import opened Recoding
  import opened Schedules
  import opened SharedTable
  import opened HeeaEvaluate
  import opened FixedRecode

  // ---------------------------------------------------------------- wide recoding

  /** asymmetricFixedBRoundCount. */
  function WideCount(w: nat): (n: nat)
    requires 6 <= w <= 10
    ensures Covers(w, n) && n <= 43
    ensures forall r: nat :: r < n ==> w * r < 256
  {
    if w == 6 then 43 else if w == 7 then 37 else if w == 8 then 32 else if w == 9 then 29 else 26
  }

  lemma WideCountIs(w: nat)
    requires 6 <= w <= 10
    ensures WideCount(w) == (253 + w - 1) / w
  {}

  lemma WideHalf(w: nat)
    requires 6 <= w <= 10
    ensures Pow2(w - 1) <= 512
  {
    assert Pow2(5) == 32 && Pow2(6) == 64 && Pow2(7) == 128 && Pow2(8) == 256 && Pow2(9) == 512;
  }

  /** One round of one lane, extracted from 64-bit words. */
  method WideRound(rounds: array<Round>, round: nat, lane: nat, words: U320, w: nat, carryIn: nat,
                   ghost scalars: seq<Bytes32>, ghost signs: set<nat>, ghost done: set<nat>, negative: bool)
    returns (carry: nat)
    requires round < rounds.Length && 6 <= w <= 10 && w * round < 256
    requires lane < |scalars| && Val(words) == LeValue(scalars[lane]) && lane !in done && negative == (lane in signs)
    requires rounds[round] == RoundSpec(scalars, w, signs, done, round)
    requires carryIn == CarryInto(LeValue(scalars[lane]), w, round)
    modifies rounds
    ensures carry == CarryInto(LeValue(scalars[lane]), w, round + 1)
    ensures rounds[round] == RoundSpec(scalars, w, signs, done + {lane}, round)
    ensures forall r :: 0 <= r < rounds.Length && r != round ==> rounds[r] == old(rounds[r])
  {
    hide LeValue, Val, Bits, RoundSpec, SetDigit, Digit, CarryInto, Pow2;
    WideHalf(w);
    var bits := WordBits(words, w * round, w);
    DigitStep(LeValue(scalars[lane]), w, round, bits, carryIn);
    var digit := bits + carryIn;
    carry := (digit + Pow2(w - 1)) / Pow2(w);
    digit := digit - carry * Pow2(w);
    if negative {
      digit := -digit;
    }
    RoundSpecAdd(scalars, w, signs, done, round, lane);
    // setAsymmetricFixedBRoundDigit refuses digits beyond 512 in magnitude; none occurs.
    assert -512 <= digit <= 512;
    rounds[round] := SetDigit(rounds[round], lane, digit);
  }

  method WideLane(rounds: array<Round>, count: nat, lane: nat, scalar: Bytes32, negative: bool, w: nat,
                  ghost scalars: seq<Bytes32>, ghost signs: set<nat>, ghost done: set<nat>)
    requires count <= rounds.Length && 6 <= w <= 10 && Covers(w, count) && forall r: nat :: r < count ==> w * r < 256
    requires lane < |scalars| && scalars[lane] == scalar && lane !in done && negative == (lane in signs)
    requires LeValue(scalar) < L
    requires forall r :: 0 <= r < count ==> rounds[r] == RoundSpec(scalars, w, signs, done, r)
    modifies rounds
    ensures forall r :: 0 <= r < count ==> rounds[r] == RoundSpec(scalars, w, signs, done + {lane}, r)
    ensures forall r :: count <= r < rounds.Length ==> rounds[r] == old(rounds[r])
  {
    hide RoundSpec, CarryInto, LeValue, Val, Covers, Pow2;
    var words := ScalarWords(scalar);
    var carry := 0;
    FirstCarry(LeValue(scalar), w);
    for round := 0 to count
      invariant carry == CarryInto(LeValue(scalar), w, round)
      invariant forall r :: 0 <= r < round ==> rounds[r] == RoundSpec(scalars, w, signs, done + {lane}, r)
      invariant forall r :: round <= r < rounds.Length ==> rounds[r] == old(rounds[r])
    {
      carry := WideRound(rounds, round, lane, words, w, carry, scalars, signs, done, negative);
    }
    CoveredCarry(LeValue(scalar), w, count);
    if carry != 0 {
      assert false;
    }
  }

  lemma FirstCarry(v: nat, w: nat)
    requires w >= 1
    ensures CarryInto(v, w, 0) == 0
  {}

  lemma CoveredCarry(v: nat, w: nat, count: nat)
    requires v < L && Covers(w, count)
    ensures CarryInto(v, w, count) == 0
  {
    CanonicalDigits(v, w, count);
  }

  /** recodeAsymmetricFixedB10ScalarsX8 (w = 10) and recodeAsymmetricFixedBScalarsX4 (w = 6..10). */
  method RecodeWide(scalars: seq<Bytes32>, negative: set<nat>, active: set<nat>, w: nat)
    returns (rounds: seq<Round>, valid: set<nat>)
    requires 6 <= w <= 10
    ensures valid == Canonical(scalars, active)
    ensures rounds == ScheduleOf(scalars, w, negative, valid, WideCount(w))
  {
    hide RoundSpec, LeValue, EmptyRound, WideCount;
    var count := WideCount(w);
    var out := new Round[64](_ => EmptyRound(|scalars|));
    forall r | 0 <= r < 64 ensures out[r] == RoundSpec(scalars, w, negative, {}, r) {
      RoundSpecNone(scalars, w, negative, r);
    }
    valid := {};
    for lane := 0 to |scalars|
      invariant valid == set l | l in active && l < lane && LeValue(scalars[l]) < L
      invariant forall r :: 0 <= r < count ==> out[r] == RoundSpec(scalars, w, negative, valid, r)
      invariant forall r :: count <= r < 64 ==> out[r] == EmptyRound(|scalars|)
    {
      if lane in active {
        var ok := CanonicalScalarBytes(scalars[lane]);
        if ok {
          WideLane(out, count, lane, scalars[lane], lane in negative, w, scalars, negative, valid);
          valid := valid + {lane};
        }
      }
    }
    assert valid == Canonical(scalars, active);
    rounds := out[..];
  }

  // ---------------------------------------------------------------- two multiples in one accumulator

  function Pair<G(!new)>(g: Group<G>, x: int, y: int, B: G, A: G): G {
    g.add(Mul(g, x, B), Mul(g, y, A))
  }

  lemma PairAddFirst<G(!new)>(g: Group<G>, x: int, d: int, y: int, B: G, A: G)
    requires Abelian(g)
    ensures g.add(Pair(g, x, y, B, A), Mul(g, d, B)) == Pair(g, x + d, y, B, A)
  {
    hide Abelian, Mul;
    MulAdd(g, x, d, B);
    Assoc(g, Mul(g, x, B), Mul(g, y, A), Mul(g, d, B));
    Comm(g, Mul(g, y, A), Mul(g, d, B));
    Assoc(g, Mul(g, x, B), Mul(g, d, B), Mul(g, y, A));
  }

  lemma PairAddSecond<G(!new)>(g: Group<G>, x: int, y: int, d: int, B: G, A: G)
    requires Abelian(g)
    ensures g.add(Pair(g, x, y, B, A), Mul(g, d, A)) == Pair(g, x, y + d, B, A)
  {
    hide Abelian, Mul;
    MulAdd(g, y, d, A);
    Assoc(g, Mul(g, x, B), Mul(g, y, A), Mul(g, d, A));
  }

  lemma PairScale<G(!new)>(g: Group<G>, m: int, x: int, y: int, B: G, A: G)
    requires Abelian(g)
    ensures Mul(g, m, Pair(g, x, y, B, A)) == Pair(g, m * x, m * y, B, A)
  {
    hide Abelian, Mul;
    MulOfSum(g, m, Mul(g, x, B), Mul(g, y, A));
    MulMul(g, m, x, B);
    MulMul(g, m, y, A);
  }

  lemma PairZero<G(!new)>(g: Group<G>, B: G, A: G)
    requires Abelian(g)
    ensures Pair(g, 0, 0, B, A) == g.zero
  {
    hide Abelian, Mul;
    MulZeroOne(g, B);
    MulZeroOne(g, A);
    Zero(g, g.zero);
  }

  /** Usable lanes hold [x]B + [y]A, the others the identity. */
  ghost predicate Pairs<G(!new)>(g: Group<G>, acc: seq<G>, usable: set<nat>, x: seq<int>, y: seq<int>, B: G, A: seq<G>) {
    && |acc| == |x| == |y| == |A|
    && forall l :: 0 <= l < |A| ==> acc[l] == if l in usable then Pair(g, x[l], y[l], B, A[l]) else g.zero
  }

  lemma PairsStart<G(!new)>(g: Group<G>, usable: set<nat>, x: seq<int>, y: seq<int>, B: G, A: seq<G>)
    requires Abelian(g) && |x| == |y| == |A| && forall l :: 0 <= l < |A| && l in usable ==> x[l] == 0 && y[l] == 0
    ensures Pairs(g, IdentityLanes(g, |A|), usable, x, y, B, A)
  {
    hide Abelian, Pair;
    forall l | 0 <= l < |A| ensures Pair(g, 0, 0, B, A[l]) == g.zero { PairZero(g, B, A[l]); }
  }

  lemma PairsDoubled<G(!new)>(g: Group<G>, acc: seq<G>, doubled: seq<G>, m: int, usable: set<nat>, x: seq<int>, y: seq<int>,
                              x': seq<int>, y': seq<int>, B: G, A: seq<G>)
    requires Abelian(g) && Pairs(g, acc, usable, x, y, B, A) && Scaled(g, doubled, m, acc) && |x'| == |y'| == |A|
    requires forall l :: 0 <= l < |A| && l in usable ==> x'[l] == m * x[l] && y'[l] == m * y[l]
    ensures Pairs(g, doubled, usable, x', y', B, A)
  {
    hide Abelian, Mul, Pair;
    forall l | 0 <= l < |A|
      ensures doubled[l] == if l in usable then Pair(g, x'[l], y'[l], B, A[l]) else g.zero
    {
      PairScale(g, m, x[l], y[l], B, A[l]);
      MulOfZero(g, m);
    }
  }

  /** Injecting shared-base digits d raises x by d. */
  method InjectFirst<G(!new)>(g: Group<G>, acc: seq<G>, table: seq<Signed<G>>, round: Round, usable: set<nat>,
                              ghost d: seq<int>, ghost x: seq<int>, ghost x': seq<int>, ghost y: seq<int>, ghost B: G, ghost A: seq<G>)
    returns (out: seq<G>)
    requires Abelian(g) && SignedMultiples(g, table, B) && round == RoundOf(d) && |d| == |A| == |x| == |x'|
    requires forall l :: 0 <= l < |d| && l in usable ==> Abs(d[l]) <= |table| && x'[l] == x[l] + d[l]
    requires Pairs(g, acc, usable, x, y, B, A)
    ensures Pairs(g, out, usable, x', y, B, A)
  {
    hide Abelian, Mul, Pair, SignedMultiples, RoundOf;
    out := InjectShared(g, acc, table, round, usable, B, d);
    forall l | 0 <= l < |A| && l in usable
      ensures g.add(acc[l], Mul(g, d[l], B)) == Pair(g, x'[l], y[l], B, A[l])
    {
      PairAddFirst(g, x[l], d[l], y[l], B, A[l]);
    }
  }

  /** Injecting per-lane-base digits d raises y by d. */
  method InjectSecond<G(!new)>(g: Group<G>, acc: seq<G>, table: seq<seq<G>>, round: Round, usable: set<nat>,
                               ghost d: seq<int>, ghost x: seq<int>, ghost y: seq<int>, ghost y': seq<int>, ghost B: G, ghost A: seq<G>)
    returns (out: seq<G>)
    requires Abelian(g) && Multiples(g, table, A) && round == RoundOf(d) && |d| == |A| == |y| == |y'|
    requires forall l :: 0 <= l < |d| && l in usable ==> Abs(d[l]) <= |table| && y'[l] == y[l] + d[l]
    requires Pairs(g, acc, usable, x, y, B, A)
    ensures Pairs(g, out, usable, x, y', B, A)
  {
    hide Abelian, Mul, Pair, Multiples, RoundOf;
    out := Inject(g, acc, table, round, usable, A, d);
    forall l | 0 <= l < |A| && l in usable
      ensures g.add(acc[l], Mul(g, d[l], A[l])) == Pair(g, x[l], y'[l], B, A[l])
    {
      PairAddSecond(g, x[l], y[l], d[l], B, A[l]);
    }
  }

  // ---------------------------------------------------------------- width 10 with radix 32

  /** Lane-wise worth of the digits from round r up. */
  ghost function Tails(scalars: seq<Bytes32>, w: nat, negative: bool, n: nat, r: nat): (x: seq<int>)
    requires w >= 1 && r <= n
    ensures |x| == |scalars|
  {
    seq(|scalars|, l requires 0 <= l < |scalars| => Tail(LeValue(scalars[l]), w, negative, n, r))
  }

  ghost function Raised(m: int, x: seq<int>): (y: seq<int>)
    ensures |y| == |x| && forall l :: 0 <= l < |x| ==> y[l] == m * x[l]
  {
    seq(|x|, l requires 0 <= l < |x| => m * x[l])
  }

  lemma TailsEnd(scalars: seq<Bytes32>, w: nat, negative: bool, n: nat)
    requires w >= 1
    ensures forall l :: 0 <= l < |scalars| ==> Tails(scalars, w, negative, n, n)[l] == 0
  {}

  /** Injecting round r completes the raised tail above it. */
  lemma TailsStep(scalars: seq<Bytes32>, w: nat, negative: bool, signs: set<nat>, usable: set<nat>, valid: set<nat>, n: nat, r: nat)
    requires w >= 1 && r < n && usable <= valid && forall l :: l in usable ==> (l in signs <==> negative)
    ensures forall l :: 0 <= l < |scalars| && l in usable ==>
      && Abs(LaneDigits(scalars, w, signs, valid, r)[l]) <= Pow2(w - 1)
      && Tails(scalars, w, negative, n, r)[l]
           == Raised(Pow2(w), Tails(scalars, w, negative, n, r + 1))[l] + LaneDigits(scalars, w, signs, valid, r)[l]
  {
    hide SignedDigit, Tail, LeValue, Pow2;
    forall l | 0 <= l < |scalars| && l in usable
      ensures Tails(scalars, w, negative, n, r)[l]
           == Raised(Pow2(w), Tails(scalars, w, negative, n, r + 1))[l] + LaneDigits(scalars, w, signs, valid, r)[l]
    {
      TailStep(LeValue(scalars[l]), w, negative, n, r);
    }
  }

  lemma RaisedTwice(m: int, k: int, x: seq<int>, p: int)
    requires m * k == p
    ensures forall l :: 0 <= l < |x| ==> Raised(p, x)[l] == m * Raised(k, x)[l]
  {
    forall l | 0 <= l < |x| ensures Raised(p, x)[l] == m * Raised(k, x)[l] {
      assert (m * k) * x[l] == m * (k * x[l]);
    }
  }

  lemma FiveAndTen()
    ensures Pow2(5) * Pow2(5) == Pow2(10) && Pow2(9) == 512 && Pow2(4) == 16
  {
    Pow2Add(5, 5);
    Pow2Add(5, 4);
    Pow2Small();
    assert Pow2(4) == 16;
  }

  /** IFMAAsymmetricFixedB10EvaluateX8: [s]B - [k]A in every usable lane, the identity elsewhere. */
  method EvaluateB10<G(!new)>(g: Group<G>, fixed: seq<Signed<G>>, variable: seq<seq<G>>, s: seq<Bytes32>, k: seq<Bytes32>,
                              active: set<nat>, ghost B: G, ghost A: seq<G>) returns (out: seq<G>, usable: set<nat>)
    requires Abelian(g) && |s| == |k| == |A|
    requires |fixed| == 512 && SignedMultiples(g, fixed, B) && |variable| == 16 && Multiples(g, variable, A)
    ensures usable == Canonical(k, active) * Canonical(s, active) && |out| == |A|
    ensures forall l :: 0 <= l < |A| && l in usable ==> out[l] == Pair(g, LeValue(s[l]), -(LeValue(k[l]) as int), B, A[l])
    ensures forall l :: 0 <= l < |A| && l !in usable ==> out[l] == g.zero
  {
    hide Abelian, Mul, Pair, SignedMultiples, Multiples, LeValue, RoundSpec, EmptyRound;
    var aDigits, aUsable := RecodeVariable(k, active);
    var bDigits, bUsable := RecodeWide(s, {}, active, 10);
    usable := aUsable * bUsable;
    if usable == {} {
      out := IdentityLanes(g, |s|);
      return;
    }
    out := B10Chain(g, |s|, fixed, variable, s, k, active, usable, aUsable, bUsable, aDigits, bDigits, B, A);
  }

  /** recodeCanonicalScalarsRadix32X8: the full-lane specialization when every lane is active. */
  method RecodeVariable(k: seq<Bytes32>, active: set<nat>) returns (rounds: seq<Round>, valid: set<nat>)
    ensures valid == Canonical(k, active) && rounds == ScheduleOf(k, 5, active, valid, 51)
  {
    hide RoundSpec, EmptyRound, LeValue;
    if active == AllLanes(|k|) {
      rounds, valid := RecodeFull(k, 5, 51, true);
    } else {
      rounds, valid := RecodeScalars(k, active, active, 5, 51);
    }
  }

  /** The state before block's own injections, in terms of what lies above it. */
  ghost predicate BeforeBlock<G(!new)>(g: Group<G>, acc: seq<G>, usable: set<nat>, s: seq<Bytes32>, k: seq<Bytes32>,
                                       block: nat, B: G, A: seq<G>)
    requires block < 26
  {
    Pairs(g, acc, usable, Raised(Pow2(10), Tails(s, 10, false, 26, block + 1)),
          Raised(Pow2(5), Tails(k, 5, true, 51, 2 * block + 1)), B, A)
  }

  ghost predicate AfterBlock<G(!new)>(g: Group<G>, acc: seq<G>, usable: set<nat>, s: seq<Bytes32>, k: seq<Bytes32>,
                                      block: nat, B: G, A: seq<G>)
    requires block < 26
  {
    Pairs(g, acc, usable, Tails(s, 10, false, 26, block), Tails(k, 5, true, 51, 2 * block), B, A)
  }

  /** What the recoders handed over. */
  ghost predicate B10Digits(s: seq<Bytes32>, k: seq<Bytes32>, active: set<nat>, usable: set<nat>, aUsable: set<nat>,
                            bUsable: set<nat>, aDigits: seq<Round>, bDigits: seq<Round>) {
    && usable == aUsable * bUsable && aUsable <= active
    && aDigits == ScheduleOf(k, 5, active, aUsable, 51) && bDigits == ScheduleOf(s, 10, {}, bUsable, 26)
  }

  method B10Block<G(!new)>(g: Group<G>, start: seq<G>, fixed: seq<Signed<G>>, variable: seq<seq<G>>, block: nat, usable: set<nat>,
                           aDigits: seq<Round>, bDigits: seq<Round>, ghost s: seq<Bytes32>, ghost k: seq<Bytes32>,
                           ghost active: set<nat>, ghost aUsable: set<nat>, ghost bUsable: set<nat>, ghost B: G, ghost A: seq<G>)
    returns (acc: seq<G>)
    requires Abelian(g) && |s| == |k| == |A| && block < 26 && B10Digits(s, k, active, usable, aUsable, bUsable, aDigits, bDigits)
    requires |fixed| == 512 && SignedMultiples(g, fixed, B) && |variable| == 16 && Multiples(g, variable, A)
    requires BeforeBlock(g, start, usable, s, k, block, B, A)
    ensures AfterBlock(g, acc, usable, s, k, block, B, A)
  {
    hide Abelian, Mul, Pair, Pairs, SignedMultiples, Multiples, LaneDigits, Tails, Raised, EmptyRound, Pow2, RoundOf;
    FiveAndTen();
    TailsStep(s, 10, false, {}, usable, bUsable, 26, block);
    acc := InjectFirst(g, start, fixed, bDigits[block], usable, LaneDigits(s, 10, {}, bUsable, block),
                       Raised(Pow2(10), Tails(s, 10, false, 26, block + 1)), Tails(s, 10, false, 26, block),
                       Raised(Pow2(5), Tails(k, 5, true, 51, 2 * block + 1)), B, A);
    TailsStep(k, 5, true, active, usable, aUsable, 51, 2 * block);
    acc := InjectSecond(g, acc, variable, aDigits[2 * block], usable, LaneDigits(k, 5, active, aUsable, 2 * block),
                        Tails(s, 10, false, 26, block), Raised(Pow2(5), Tails(k, 5, true, 51, 2 * block + 1)),
                        Tails(k, 5, true, 51, 2 * block), B, A);
  }

  /** Ten doublings with the odd variable-base digit injected half way. */
  method B10Lower<G(!new)>(g: Group<G>, start: seq<G>, variable: seq<seq<G>>, block: nat, usable: set<nat>,
                           aDigits: seq<Round>, bDigits: seq<Round>, ghost s: seq<Bytes32>, ghost k: seq<Bytes32>,
                           ghost active: set<nat>, ghost aUsable: set<nat>, ghost bUsable: set<nat>, ghost B: G, ghost A: seq<G>)
    returns (acc: seq<G>)
    requires Abelian(g) && |s| == |k| == |A| && 1 <= block < 26 && B10Digits(s, k, active, usable, aUsable, bUsable, aDigits, bDigits)
    requires |variable| == 16 && Multiples(g, variable, A)
    requires AfterBlock(g, start, usable, s, k, block, B, A)
    ensures BeforeBlock(g, acc, usable, s, k, block - 1, B, A)
  {
    hide Abelian, Mul, Pair, Pairs, Multiples, LaneDigits, Tails, EmptyRound, Pow2, RoundOf, Scaled, Raised;
    FiveAndTen();
    ghost var x, y := Tails(s, 10, false, 26, block), Tails(k, 5, true, 51, 2 * block);
    ghost var odd := Tails(k, 5, true, 51, 2 * block - 1);
    acc := DoubleTimes(g, start, 5);
    PairsDoubled(g, start, acc, Pow2(5), usable, x, y, Raised(Pow2(5), x), Raised(Pow2(5), y), B, A);
    TailsStep(k, 5, true, active, usable, aUsable, 51, 2 * block - 1);
    acc := InjectSecond(g, acc, variable, aDigits[2 * block - 1], usable, LaneDigits(k, 5, active, aUsable, 2 * block - 1),
                        Raised(Pow2(5), x), Raised(Pow2(5), y), odd, B, A);
    ghost var mid := acc;
    acc := DoubleTimes(g, acc, 5);
    RaisedTwice(Pow2(5), Pow2(5), x, Pow2(10));
    PairsDoubled(g, mid, acc, Pow2(5), usable, Raised(Pow2(5), x), odd, Raised(Pow2(10), x), Raised(Pow2(5), odd), B, A);
  }

  method B10Chain<G(!new)>(g: Group<G>, lanes: nat, fixed: seq<Signed<G>>, variable: seq<seq<G>>, ghost s: seq<Bytes32>,
                           ghost k: seq<Bytes32>, ghost active: set<nat>, usable: set<nat>, ghost aUsable: set<nat>,
                           ghost bUsable: set<nat>, aDigits: seq<Round>, bDigits: seq<Round>, ghost B: G, ghost A: seq<G>)
    returns (acc: seq<G>)
    requires Abelian(g) && lanes == |s| == |k| == |A| && B10Digits(s, k, active, usable, aUsable, bUsable, aDigits, bDigits)
    requires |fixed| == 512 && SignedMultiples(g, fixed, B) && |variable| == 16 && Multiples(g, variable, A)
    requires forall l :: l in usable ==> l < |s| && LeValue(s[l]) < L && LeValue(k[l]) < L
    ensures |acc| == |A|
    ensures forall l :: 0 <= l < |A| && l in usable ==> acc[l] == Pair(g, LeValue(s[l]), -(LeValue(k[l]) as int), B, A[l])
    ensures forall l :: 0 <= l < |A| && l !in usable ==> acc[l] == g.zero
  {
    hide Abelian, Mul, Pair, SignedMultiples, Multiples, LeValue, AfterBlock, BeforeBlock, B10Digits;
    acc := IdentityLanes(g, lanes);
    B10Start(g, usable, s, k, B, A);
    var block := 25;
    while block > 0
      invariant 0 <= block <= 25 && BeforeBlock(g, acc, usable, s, k, block, B, A)
    {
      acc := B10Block(g, acc, fixed, variable, block, usable, aDigits, bDigits, s, k, active, aUsable, bUsable, B, A);
      acc := B10Lower(g, acc, variable, block, usable, aDigits, bDigits, s, k, active, aUsable, bUsable, B, A);
      block := block - 1;
    }
    acc := B10Block(g, acc, fixed, variable, 0, usable, aDigits, bDigits, s, k, active, aUsable, bUsable, B, A);
    AllTails(s, k, usable);
    B10End(g, acc, usable, s, k, B, A);
  }

  lemma B10Start<G(!new)>(g: Group<G>, usable: set<nat>, s: seq<Bytes32>, k: seq<Bytes32>, B: G, A: seq<G>)
    requires Abelian(g) && |s| == |k| == |A|
    ensures BeforeBlock(g, IdentityLanes(g, |A|), usable, s, k, 25, B, A)
  {
    hide Abelian, Pair, Pairs, Tails, Pow2;
    TailsEnd(s, 10, false, 26);
    TailsEnd(k, 5, true, 51);
    PairsStart(g, usable, Raised(Pow2(10), Tails(s, 10, false, 26, 26)), Raised(Pow2(5), Tails(k, 5, true, 51, 51)), B, A);
  }

  /** All digits of a canonical scalar are the scalar. */
  lemma AllTails(s: seq<Bytes32>, k: seq<Bytes32>, usable: set<nat>)
    requires |s| == |k| && forall l :: l in usable ==> l < |s| && LeValue(s[l]) < L && LeValue(k[l]) < L
    ensures forall l :: l in usable ==> Tail(LeValue(s[l]), 10, false, 26, 0) == LeValue(s[l])
    ensures forall l :: l in usable ==> Tail(LeValue(k[l]), 5, true, 51, 0) == -(LeValue(k[l]) as int)
  {
    hide LeValue, Tail;
    forall l | l in usable
      ensures Tail(LeValue(s[l]), 10, false, 26, 0) == LeValue(s[l])
      ensures Tail(LeValue(k[l]), 5, true, 51, 0) == -(LeValue(k[l]) as int)
    {
      TailWhole(LeValue(s[l]), 10, false, 26);
      TailWhole(LeValue(k[l]), 5, true, 51);
    }
  }

  lemma B10End<G(!new)>(g: Group<G>, acc: seq<G>, usable: set<nat>, s: seq<Bytes32>, k: seq<Bytes32>, B: G, A: seq<G>)
    requires |s| == |k| == |A| && AfterBlock(g, acc, usable, s, k, 0, B, A)
    requires forall l :: l in usable ==> l < |s|
    requires forall l :: l in usable ==> Tail(LeValue(s[l]), 10, false, 26, 0) == LeValue(s[l])
    requires forall l :: l in usable ==> Tail(LeValue(k[l]), 5, true, 51, 0) == -(LeValue(k[l]) as int)
    ensures |acc| == |A|
    ensures forall l :: 0 <= l < |A| && l in usable ==> acc[l] == Pair(g, LeValue(s[l]), -(LeValue(k[l]) as int), B, A[l])
    ensures forall l :: 0 <= l < |A| && l !in usable ==> acc[l] == g.zero
  {
    hide Pair, LeValue, Tail;
  }
}
