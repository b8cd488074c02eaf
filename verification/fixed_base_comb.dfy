/** The fixed-base two-way comb of internal/r51x5/fixed_base_comb.go. */
module FixedBaseComb {
  import opened Arith
  import opened Bytes
  import opened Selection
  import opened GroupTheory
  import opened Recoding
  import opened Schedules
  import opened SharedTable
  import opened CombSplit
  import opened HeeaEvaluate
  import opened FixedRecode

  /** fixedBaseCombShape. */
  predicate CombShape(w: nat, rounds: nat, positions: nat, entries: nat) {
    && ((w == 4 && rounds == 64) || (w == 5 && rounds == 51) || (w == 8 && rounds == 32))
    && positions == (rounds + 1) / 2 && entries == Pow2(w - 1)
  }

  /** Position i of the table serves multiples of [2^(2wi)]base. */
  ghost predicate CombTable<G(!new)>(g: Group<G>, table: seq<seq<Signed<G>>>, base: G, w: nat, entries: nat) {
    forall i :: 0 <= i < |table| ==> |table[i]| == entries && SignedMultiples(g, table[i], Mul(g, Pow2(2 * w * i), base))
  }

  /** BuildExperimentalFixedBaseCombTable: 2w doublings from one position base to the next. */
  method BuildComb<G(!new)>(g: Group<G>, base: G, w: nat, positions: nat, entries: nat) returns (table: seq<seq<Signed<G>>>)
    requires Abelian(g)
    ensures |table| == positions && CombTable(g, table, base, w, entries)
  {
    hide Abelian, Mul, SignedMultiples, Pow2;
    var positionBase := base;
    FirstPosition(g, base, w);
    table := [];
    for position := 0 to positions
      invariant |table| == position && CombTable(g, table, base, w, entries)
      invariant position < positions ==> positionBase == Mul(g, Pow2(2 * w * position), base)
    {
      var multiples := BuildSigned(g, positionBase, entries);
      table := table + [multiples];
      if position + 1 < positions {
        var doubled := DoubleTimes(g, [positionBase], 2 * w);
        NextPosition(g, base, w, position);
        assert doubled[0] == Mul(g, Pow2(2 * w), positionBase);
        positionBase := doubled[0];
      }
    }
  }

  lemma FirstPosition<G(!new)>(g: Group<G>, base: G, w: nat)
    requires Abelian(g)
    ensures base == Mul(g, Pow2(2 * w * 0), base)
  {
    assert 2 * w * 0 == 0 && Pow2(0) == 1;
    hide Abelian;
    MulZeroOne(g, base);
  }

  lemma NextPosition<G(!new)>(g: Group<G>, base: G, w: nat, i: nat)
    requires Abelian(g)
    ensures Mul(g, Pow2(2 * w), Mul(g, Pow2(2 * w * i), base)) == Mul(g, Pow2(2 * w * (i + 1)), base)
  {
    hide Abelian, Mul, Pow2;
    MulMul(g, Pow2(2 * w), Pow2(2 * w * i), base);
    Pow2Add(2 * w, 2 * w * i);
    assert 2 * w + 2 * w * i == 2 * w * (i + 1);
  }

  // ---------------------------------------------------------------- evaluation

  /** Lane l of the accumulator holds [m(l)]base if usable and the identity if not. */
  ghost predicate LaneMultiples<G(!new)>(g: Group<G>, acc: seq<G>, usable: set<nat>, m: seq<int>, base: G) {
    |acc| == |m| && forall l :: 0 <= l < |m| ==> acc[l] == if l in usable then Mul(g, m[l], base) else g.zero
  }

  ghost function Halves(scalars: seq<Bytes32>, w: nat, count: nat, odd: bool, n: nat): (m: seq<int>)
    requires w >= 1 && n <= (if odd then count / 2 else (count + 1) / 2)
    ensures |m| == |scalars|
  {
    seq(|scalars|, l requires 0 <= l < |scalars| => HalfSum(LeValue(scalars[l]), w, count, odd, n))
  }

  /** The first n odd or even digits, weighed by 2^(2wi). */
  ghost function HalfSum(v: nat, w: nat, count: nat, odd: bool, n: nat): int
    requires w >= 1 && n <= (if odd then count / 2 else (count + 1) / 2)
  {
    var d := Column(v, w, false, count);
    DigitSum((if odd then Odds(d) else Evens(d))[..n], 2 * w)
  }

  lemma HalfSumStep(v: nat, w: nat, count: nat, odd: bool, n: nat)
    requires w >= 1 && n < (if odd then count / 2 else (count + 1) / 2)
    ensures HalfSum(v, w, count, odd, n + 1)
         == HalfSum(v, w, count, odd, n) + Pow2(2 * w * n) * SignedDigit(v, w, false, if odd then 2 * n + 1 else 2 * n)
  {
    hide SignedDigit, Pow2, DigitSum;
    var d := Column(v, w, false, count);
    DigitSumSnoc(if odd then Odds(d) else Evens(d), n, 2 * w);
  }

  lemma HalfSumNone(v: nat, w: nat, count: nat, odd: bool)
    requires w >= 1
    ensures HalfSum(v, w, count, odd, 0) == 0
  {}

  /** One position of one half of the comb. */
  method InjectPosition<G(!new)>(g: Group<G>, acc: seq<G>, table: seq<seq<Signed<G>>>, position: nat, round: Round,
                                 usable: set<nat>, ghost base: G, ghost scalars: seq<Bytes32>, ghost w: nat,
                                 ghost count: nat, ghost odd: bool, ghost extra: seq<int>) returns (out: seq<G>)
    requires Abelian(g) && w >= 1 && position < |table| && CombTable(g, table, base, w, Pow2(w - 1))
    requires position < (if odd then count / 2 else (count + 1) / 2) && |extra| == |scalars|
    requires round == RoundSpec(scalars, w, {}, usable, if odd then 2 * position + 1 else 2 * position)
    requires LaneMultiples(g, acc, usable, SumSeq(extra, Halves(scalars, w, count, odd, position)), base)
    ensures LaneMultiples(g, out, usable, SumSeq(extra, Halves(scalars, w, count, odd, position + 1)), base)
  {
    hide Abelian, Mul, Pow2, SignedMultiples, SignedDigit, LeValue, HalfSum;
    ghost var r := if odd then 2 * position + 1 else 2 * position;
    ghost var d := LaneDigits(scalars, w, {}, usable, r);
    ghost var point := Mul(g, Pow2(2 * w * position), base);
    out := InjectShared(g, acc, table[position], round, usable, point, d);
    forall l | 0 <= l < |scalars| && l in usable
      ensures out[l] == Mul(g, SumSeq(extra, Halves(scalars, w, count, odd, position + 1))[l], base)
    {
      HalfSumStep(LeValue(scalars[l]), w, count, odd, position);
      PlaceDigit(g, extra[l] + HalfSum(LeValue(scalars[l]), w, count, odd, position), Pow2(2 * w * position), d[l], base);
    }
  }

  ghost function SumSeq(a: seq<int>, b: seq<int>): (c: seq<int>)
    requires |a| == |b|
    ensures |c| == |a|
  {
    seq(|a|, i requires 0 <= i < |a| => a[i] + b[i])
  }

  lemma PlaceDigit<G(!new)>(g: Group<G>, m: int, place: int, d: int, base: G)
    requires Abelian(g)
    ensures g.add(Mul(g, m, base), Mul(g, d, Mul(g, place, base))) == Mul(g, m + place * d, base)
  {
    hide Abelian, Mul;
    MulMul(g, d, place, base);
    MulAdd(g, m, place * d, base);
    assert d * place == place * d;
  }

  /** Doubling w times moves the odd half one digit up. */
  lemma OddsRaised<G(!new)>(g: Group<G>, acc: seq<G>, doubled: seq<G>, usable: set<nat>, m: seq<int>, w: nat, base: G)
    requires Abelian(g) && LaneMultiples(g, acc, usable, m, base) && Scaled(g, doubled, Pow2(w), acc)
    ensures LaneMultiples(g, doubled, usable, ScaleSeq(Pow2(w), m), base)
  {
    hide Abelian, Mul, Pow2;
    forall l | 0 <= l < |m|
      ensures doubled[l] == if l in usable then Mul(g, Pow2(w) * m[l], base) else g.zero
    {
      MulMul(g, Pow2(w), m[l], base);
      MulOfZero(g, Pow2(w));
    }
  }

  ghost function ScaleSeq(p: int, m: seq<int>): (c: seq<int>)
    ensures |c| == |m|
  {
    seq(|m|, i requires 0 <= i < |m| => p * m[i])
  }

  /** Both halves in: the accumulated multiple is the scalar. */
  lemma CombTotal(v: nat, w: nat, count: nat)
    requires v < L && w >= 2 && w * count >= 255
    ensures Pow2(w) * HalfSum(v, w, count, true, count / 2) + HalfSum(v, w, count, false, (count + 1) / 2) == v
  {
    hide Pow2, DigitSum, SignedDigit;
    var d := Column(v, w, false, count);
    ColumnSum(v, w, false, count);
    EvenOdd(d, w);
    assert Odds(d)[..count / 2] == Odds(d) && Evens(d)[..(count + 1) / 2] == Evens(d);
  }

  /** ExperimentalFixedBaseCombScalarMult: [s]B in every usable lane, the identity in the others. */
  method CombScalarMult<G(!new)>(g: Group<G>, base: G, table: seq<seq<Signed<G>>>, w: nat, rounds: nat,
                                 scalars: seq<Bytes32>, active: set<nat>) returns (out: seq<G>, usable: set<nat>)
    requires Abelian(g) && w >= 1 && CombShape(w, rounds, |table|, Pow2(w - 1)) && CombTable(g, table, base, w, Pow2(w - 1))
    ensures usable == Canonical(scalars, active) && |out| == |scalars|
    ensures forall l :: 0 <= l < |scalars| ==> out[l] == if l in usable then Mul(g, LeValue(scalars[l]), base) else g.zero
  {
    var digits: seq<Round>;
    // The x8 form takes the byte-aligned specialization when every lane is active and w = 8.
    if w == 8 && active == AllLanes(|scalars|) {
      digits, usable := RecodeFull(scalars, w, rounds, false);
    } else {
      digits, usable := RecodeScalars(scalars, {}, active, w, rounds);
    }
    if usable == {} {
      return IdentityLanes(g, |scalars|), {};
    }
    CombCovers(w, rounds, |table|);
    out := CombChain(g, base, table, w, rounds, scalars, usable, digits);
  }

  lemma CombCovers(w: nat, rounds: nat, positions: nat)
    requires w >= 1 && CombShape(w, rounds, positions, Pow2(w - 1))
    ensures w >= 2 && w * rounds >= 255 && rounds <= 64 && positions == (rounds + 1) / 2
  {}

  /** Odd digits first, w doublings, even digits. */
  method CombChain<G(!new)>(g: Group<G>, ghost base: G, table: seq<seq<Signed<G>>>, w: nat, rounds: nat,
                            ghost scalars: seq<Bytes32>, usable: set<nat>, digits: seq<Round>) returns (acc: seq<G>)
    requires Abelian(g) && w >= 1 && CombTable(g, table, base, w, Pow2(w - 1))
    requires w >= 2 && w * rounds >= 255 && rounds <= 64 && |table| == (rounds + 1) / 2
    requires digits == ScheduleOf(scalars, w, {}, usable, rounds) && |scalars| >= 1
    requires forall l :: l in usable ==> l < |scalars| && LeValue(scalars[l]) < L
    ensures |acc| == |scalars|
    ensures forall l :: 0 <= l < |scalars| ==> acc[l] == if l in usable then Mul(g, LeValue(scalars[l]), base) else g.zero
  {
    hide Abelian, Mul, Pow2, CombTable, LaneMultiples, Halves, RoundSpec, SumSeq, ScaleSeq, EmptyRound;
    ghost var none := Nothing(|scalars|);
    acc := IdentityLanes(g, |digits[0].magnitude|);
    ScheduleLanes(digits, scalars, w, usable, rounds);
    StartHalf(g, usable, scalars, w, rounds, base);
    for position := 0 to |table|
      invariant LaneMultiples(g, acc, usable, SumSeq(none, Halves(scalars, w, rounds, true, Clip(position, rounds / 2))), base)
    {
      var round := 2 * position + 1;
      if round < rounds {
        acc := InjectPosition(g, acc, table, position, digits[round], usable, base, scalars, w, rounds, true, none);
      }
    }
    ghost var before := acc;
    ghost var odds := SumSeq(none, Halves(scalars, w, rounds, true, rounds / 2));
    acc := DoubleTimes(g, acc, w);
    OddsRaised(g, before, acc, usable, odds, w, base);
    ghost var extra := ScaleSeq(Pow2(w), odds);
    SwitchHalf(g, acc, usable, extra, scalars, w, rounds, base);
    for position := 0 to |table|
      invariant LaneMultiples(g, acc, usable, SumSeq(extra, Halves(scalars, w, rounds, false, position)), base)
    {
      acc := InjectPosition(g, acc, table, position, digits[2 * position], usable, base, scalars, w, rounds, false, extra);
    }
    CombFinish(g, acc, usable, scalars, w, rounds, base);
  }

  ghost function Nothing(n: nat): (m: seq<int>)
    ensures |m| == n && forall i :: 0 <= i < n ==> m[i] == 0
  {
    seq(n, _ => 0)
  }

  function Clip(a: nat, b: nat): nat { if a <= b then a else b }

  lemma ScheduleLanes(digits: seq<Round>, scalars: seq<Bytes32>, w: nat, usable: set<nat>, rounds: nat)
    requires w >= 1 && 1 <= rounds <= 64 && digits == ScheduleOf(scalars, w, {}, usable, rounds)
    ensures |digits[0].magnitude| == |scalars|
  {
    hide RoundSpec, EmptyRound;
  }

  lemma StartHalf<G(!new)>(g: Group<G>, usable: set<nat>, scalars: seq<Bytes32>, w: nat, rounds: nat, base: G)
    requires Abelian(g) && w >= 1
    ensures LaneMultiples(g, IdentityLanes(g, |scalars|), usable,
                          SumSeq(Nothing(|scalars|), Halves(scalars, w, rounds, true, 0)), base)
  {
    hide Abelian, Mul, LeValue, HalfSum;
    MulZeroOne(g, base);
    forall l | 0 <= l < |scalars| ensures Halves(scalars, w, rounds, true, 0)[l] == 0 {
      HalfSumNone(LeValue(scalars[l]), w, rounds, true);
    }
  }

  lemma SwitchHalf<G(!new)>(g: Group<G>, acc: seq<G>, usable: set<nat>, extra: seq<int>, scalars: seq<Bytes32>,
                            w: nat, rounds: nat, base: G)
    requires w >= 1 && |extra| == |scalars| && LaneMultiples(g, acc, usable, extra, base)
    ensures LaneMultiples(g, acc, usable, SumSeq(extra, Halves(scalars, w, rounds, false, 0)), base)
  {
    hide Mul, LeValue, HalfSum;
    forall l | 0 <= l < |scalars| ensures Halves(scalars, w, rounds, false, 0)[l] == 0 {
      HalfSumNone(LeValue(scalars[l]), w, rounds, false);
    }
    assert SumSeq(extra, Halves(scalars, w, rounds, false, 0)) == extra;
  }

  lemma CombFinish<G(!new)>(g: Group<G>, acc: seq<G>, usable: set<nat>, scalars: seq<Bytes32>, w: nat, rounds: nat, base: G)
    requires w >= 2 && w * rounds >= 255
    requires forall l :: l in usable ==> l < |scalars| && LeValue(scalars[l]) < L
    requires LaneMultiples(g, acc, usable,
      SumSeq(ScaleSeq(Pow2(w), SumSeq(Nothing(|scalars|), Halves(scalars, w, rounds, true, rounds / 2))),
             Halves(scalars, w, rounds, false, (rounds + 1) / 2)), base)
    ensures |acc| == |scalars|
    ensures forall l :: 0 <= l < |scalars| ==> acc[l] == if l in usable then Mul(g, LeValue(scalars[l]), base) else g.zero
  {
    hide Mul, LeValue, HalfSum, Pow2;
    forall l | 0 <= l < |scalars| && l in usable
      ensures acc[l] == Mul(g, LeValue(scalars[l]), base)
    {
      CombTotal(LeValue(scalars[l]), w, rounds);
    }
  }
}
