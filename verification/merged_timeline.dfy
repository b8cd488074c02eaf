/** The merged timeline of internal/r51x5/asymmetric_fixed_b_dsm.go: one doubling per bit position,
    each scalar's digit injected at the exponent it weighs. */
module MergedTimeline {
  import opened Arith
  import opened Bytes
  import opened BitFields
  import opened Selection
  import opened GroupTheory
  import opened Schedules
  import opened SharedTable
  import opened HeeaEvaluate
  import opened FixedRecode
  import opened MergedChain

  /** What the digits at or above exponent e are worth, in units of 2^e. */
  ghost function Above(v: nat, w: nat, negative: bool, n: nat, e: nat): int
    requires w >= 1
  {
    Ceiling(e, w);
    var i := (e + w - 1) / w;
    if i >= n then 0 else Pow2(w * i - e) * Tail(v, w, negative, n, i)
  }

  lemma Ceiling(e: nat, w: nat)
    requires w >= 1
    ensures (e + w - 1) / w >= 0 && w * ((e + w - 1) / w) >= e && w * ((e + w - 1) / w) < e + w
  {
    DivMod(e + w - 1, w);
    QuotientNat(e + w - 1, w);
  }

  function Injected(v: nat, w: nat, negative: bool, n: nat, e: nat): int
    requires w >= 1
  {
    if e % w == 0 && 0 <= e / w < n then SignedDigit(v, w, negative, e / w) else 0
  }

  /** Lowering the exponent by one: double, and inject the digit that weighs exactly 2^e, if any. */
  lemma AboveStep(v: nat, w: nat, negative: bool, n: nat, e: nat)
    requires w >= 1
    ensures Above(v, w, negative, n, e) == 2 * Above(v, w, negative, n, e + 1) + Injected(v, w, negative, n, e)
  {
    hide SignedDigit, Tail, Pow2;
    DivMod(e, w);
    var q, r := e / w, e % w;
    if r == 0 {
      DivUnique(e + w - 1, w, q, w - 1);
      DivUnique(e + 1 + w - 1, w, q + 1, 0);
      QuotientNat(e, w);
      assert w * (q + 1) - (e + 1) == w - 1 by { assert w * (q + 1) == q * w + w; }
      assert w * q - e == 0;
      OnDigit(v, w, negative, n, q);
    } else {
      DivUnique(e + w - 1, w, q + 1, r - 1);
      DivUnique(e + 1 + w - 1, w, q + 1, r);
      QuotientNat(e, w);
      BetweenDigits(v, w, negative, n, q + 1, w * (q + 1) - e);
    }
  }

  lemma OnDigit(v: nat, w: nat, negative: bool, n: nat, q: nat)
    requires w >= 1
    ensures q < n && q + 1 < n ==>
      Pow2(0) * Tail(v, w, negative, n, q)
        == 2 * (Pow2(w - 1) * Tail(v, w, negative, n, q + 1)) + SignedDigit(v, w, negative, q)
    ensures q < n && q + 1 >= n ==> Pow2(0) * Tail(v, w, negative, n, q) == SignedDigit(v, w, negative, q)
  {
    hide SignedDigit, Tail, Pow2;
    OneAndTop(w);
    if q < n {
      TailStep(v, w, negative, n, q);
      if q + 1 < n {
        HalfPower(Pow2(w - 1), Tail(v, w, negative, n, q + 1));
      } else {
        TailEnd(v, w, negative, n, n);
        HalfPower(Pow2(w - 1), 0);
      }
    }
  }

  lemma HalfPower(p: int, t: int)
    ensures (2 * p) * t == 2 * (p * t) && (2 * p) * 0 == 0
  {}

  lemma OneAndTop(w: nat)
    requires w >= 1
    ensures Pow2(0) == 1 && Pow2(w) == 2 * Pow2(w - 1)
  {}

  lemma BetweenDigits(v: nat, w: nat, negative: bool, n: nat, i: nat, d: int)
    requires w >= 1 && d >= 1
    ensures i < n ==> Pow2(d) * Tail(v, w, negative, n, i) == 2 * (Pow2(d - 1) * Tail(v, w, negative, n, i))
  {
    hide Tail, Pow2;
    OneAndTop(d);
    if i < n { HalfPower(Pow2(d - 1), Tail(v, w, negative, n, i)); }
  }

  /** Nothing lies above the last digit; everything lies at or above exponent zero. */
  lemma AboveEnds(v: nat, w: nat, negative: bool, n: nat, top: nat)
    requires w >= 2 && n >= 1 && w * (n - 1) < top
    ensures Above(v, w, negative, n, top) == 0
    ensures v < L && w * n >= 255 ==> Above(v, w, negative, n, 0) == if negative then -(v as int) else v
  {
    hide SignedDigit, Tail;
    DivMod(top + w - 1, w);
    var i := (top + w - 1) / w;
    if i < n { MulMono(w, i, n - 1); }
    DivUnique(0 + w - 1, w, 0, w - 1);
    OneAndTop(w);
    assert w * 0 == 0;
    if v < L && w * n >= 255 { TailWhole(v, w, negative, n); }
  }

  ghost function Levels(scalars: seq<Bytes32>, w: nat, signs: set<nat>, n: nat, e: nat): (x: seq<int>)
    requires w >= 1
    ensures |x| == |scalars|
  {
    seq(|scalars|, l requires 0 <= l < |scalars| => Above(LeValue(scalars[l]), w, l in signs, n, e))
  }

  /** What one exponent adds: the digit record's digits when the exponent is a multiple of w. */
  lemma LevelsStep(scalars: seq<Bytes32>, w: nat, signs: set<nat>, usable: set<nat>, valid: set<nat>, n: nat, e: nat)
    requires w >= 1 && usable <= valid
    ensures e / w >= 0
    ensures forall l :: 0 <= l < |scalars| && l in usable ==>
      && Levels(scalars, w, signs, n, e)[l] == Raised(2, Levels(scalars, w, signs, n, e + 1))[l]
           + (if e % w == 0 && e / w < n then LaneDigits(scalars, w, signs, valid, e / w)[l] else 0)
      && (e % w == 0 && e / w < n ==> Abs(LaneDigits(scalars, w, signs, valid, e / w)[l]) <= Pow2(w - 1))
  {
    hide Above, LeValue, SignedDigit, Pow2;
    QuotientNat(e, w);
    forall l | 0 <= l < |scalars| && l in usable
      ensures Levels(scalars, w, signs, n, e)[l] == Raised(2, Levels(scalars, w, signs, n, e + 1))[l]
                + (if e % w == 0 && e / w < n then LaneDigits(scalars, w, signs, valid, e / w)[l] else 0)
    {
      AboveStep(LeValue(scalars[l]), w, l in signs, n, e);
    }
  }

  /** evaluateAsymmetricFixedBPreparedRadix64DSM: each scalar with its own signs, B at width 6 to 10, A
      at radix 64; every digit of both is consumed at its own exponent. */
  method EvaluateTimeline<G(!new)>(g: Group<G>, fixed: seq<Signed<G>>, w: nat, variable: seq<seq<G>>, s: seq<Bytes32>,
                                   k: seq<Bytes32>, sNegative: set<nat>, kNegative: set<nat>, active: set<nat>,
                                   ghost B: G, ghost A: seq<G>) returns (out: seq<G>, usable: set<nat>)
    requires Abelian(g) && |s| == |k| == |A| && 6 <= w <= 10
    requires |fixed| == Pow2(w - 1) && SignedMultiples(g, fixed, B) && |variable| == 32 && Multiples(g, variable, A)
    ensures usable == Canonical(k, active) * Canonical(s, active) && |out| == |A|
    ensures forall l :: 0 <= l < |A| && l in usable ==> out[l] == Pair(g, Applied(s, sNegative, l), Applied(k, kNegative, l), B, A[l])
    ensures forall l :: 0 <= l < |A| && l !in usable ==> out[l] == g.zero
  {
    hide Abelian, Mul, Pair, SignedMultiples, Multiples, LeValue, RoundSpec, EmptyRound, Pow2, WideCount;
    var aDigits, aUsable := RecodeScalars(k, kNegative, active, 6, 43);
    var bDigits, bUsable := RecodeWide(s, sNegative, active, w);
    usable := aUsable * bUsable;
    if usable == {} {
      out := IdentityLanes(g, |s|);
      return;
    }
    out := TimelineChain(g, |s|, fixed, w, WideCount(w), variable, s, k, sNegative, kNegative, usable, aUsable, bUsable,
                         aDigits, bDigits, B, A);
  }

  method TimelineChain<G(!new)>(g: Group<G>, lanes: nat, fixed: seq<Signed<G>>, w: nat, count: nat, variable: seq<seq<G>>,
                                ghost s: seq<Bytes32>, ghost k: seq<Bytes32>, ghost sNegative: set<nat>, ghost kNegative: set<nat>,
                                usable: set<nat>, ghost aUsable: set<nat>, ghost bUsable: set<nat>,
                                aDigits: seq<Round>, bDigits: seq<Round>, ghost B: G, ghost A: seq<G>) returns (acc: seq<G>)
    requires Abelian(g) && lanes == |s| == |k| == |A| && 6 <= w <= 10 && count == WideCount(w)
    requires |fixed| == Pow2(w - 1) && SignedMultiples(g, fixed, B) && |variable| == 32 && Multiples(g, variable, A)
    requires usable == aUsable * bUsable && forall l :: l in usable ==> l < |s| && LeValue(s[l]) < L && LeValue(k[l]) < L
    requires aDigits == ScheduleOf(k, 6, kNegative, aUsable, 43) && bDigits == ScheduleOf(s, w, sNegative, bUsable, count)
    ensures |acc| == |A|
    ensures forall l :: 0 <= l < |A| && l in usable ==> acc[l] == Pair(g, Applied(s, sNegative, l), Applied(k, kNegative, l), B, A[l])
    ensures forall l :: 0 <= l < |A| && l !in usable ==> acc[l] == g.zero
  {
    hide Abelian, Mul, Pair, Pairs, SignedMultiples, Multiples, LeValue, EmptyRound, Pow2, Levels, LaneDigits, RoundOf,
         WideCount, AddLanes, Scaled, Raised;
    acc := IdentityLanes(g, lanes);
    SmallWidths(w, count);
    TimelineStart(g, usable, s, k, sNegative, kNegative, w, count, B, A);
    var exponent := 253;
    while exponent > 0
      invariant 0 <= exponent <= 253
      invariant Pairs(g, acc, usable, Levels(s, w, sNegative, count, exponent), Levels(k, 6, kNegative, 43, exponent), B, A)
      invariant exponent == 253 ==> acc == IdentityLanes(g, lanes)
    {
      exponent := exponent - 1;
      ghost var x, y := Levels(s, w, sNegative, count, exponent + 1), Levels(k, 6, kNegative, 43, exponent + 1);
      ghost var x', y' := Levels(s, w, sNegative, count, exponent), Levels(k, 6, kNegative, 43, exponent);
      ghost var before := acc;
      if exponent != 252 {
        acc := DoubleOnce(g, acc);
      } else {
        IdentityDoubled(g, lanes);
      }
      PairsDoubled(g, before, acc, 2, usable, x, y, Raised(2, x), Raised(2, y), B, A);
      LevelsStep(s, w, sNegative, usable, bUsable, count, exponent);
      LevelsStep(k, 6, kNegative, usable, aUsable, 43, exponent);
      if exponent % w == 0 && exponent / w < count {
        acc := InjectFirst(g, acc, fixed, bDigits[exponent / w], usable, LaneDigits(s, w, sNegative, bUsable, exponent / w),
                           Raised(2, x), x', Raised(2, y), B, A);
      } else {
        SamePairs(g, acc, usable, Raised(2, x), Raised(2, y), x', Raised(2, y), B, A);
      }
      if exponent % 6 == 0 {
        acc := InjectSecond(g, acc, variable, aDigits[exponent / 6], usable, LaneDigits(k, 6, kNegative, aUsable, exponent / 6),
                            x', Raised(2, y), y', B, A);
      } else {
        SamePairs(g, acc, usable, x', Raised(2, y), x', y', B, A);
      }
    }
    TimelineEnd(g, acc, usable, s, k, sNegative, kNegative, w, count, B, A);
  }

  method DoubleOnce<G(!new)>(g: Group<G>, start: seq<G>) returns (acc: seq<G>)
    requires Abelian(g)
    ensures Scaled(g, acc, 2, start)
  {
    hide Abelian, Scaled, AddLanes;
    ScaledOnce(g, start);
    ScaledDouble(g, start, 1, start);
    acc := AddLanes(g, start, start);
  }

  lemma IdentityDoubled<G(!new)>(g: Group<G>, lanes: nat)
    requires Abelian(g)
    ensures Scaled(g, IdentityLanes(g, lanes), 2, IdentityLanes(g, lanes))
  {
    hide Abelian, Mul;
    MulOfZero(g, 2);
  }

  lemma SamePairs<G(!new)>(g: Group<G>, acc: seq<G>, usable: set<nat>, x: seq<int>, y: seq<int>, x': seq<int>, y': seq<int>,
                           B: G, A: seq<G>)
    requires Pairs(g, acc, usable, x, y, B, A) && |x'| == |y'| == |A|
    requires forall l :: 0 <= l < |A| && l in usable ==> x'[l] == x[l] && y'[l] == y[l]
    ensures Pairs(g, acc, usable, x', y', B, A)
  {
    hide Pair;
  }

  lemma SmallWidths(w: nat, count: nat)
    requires 6 <= w <= 10 && count == WideCount(w)
    ensures Pow2(5) == 32 && w * (count - 1) < 253 && count >= 1 && w * count >= 255
    ensures forall e :: 0 <= e <= 252 ==> 0 <= e / 6 < 43
    ensures count <= 64
  {}

  lemma TimelineStart<G(!new)>(g: Group<G>, usable: set<nat>, s: seq<Bytes32>, k: seq<Bytes32>, sNegative: set<nat>,
                               kNegative: set<nat>, w: nat, count: nat, B: G, A: seq<G>)
    requires Abelian(g) && |s| == |k| == |A| && w >= 2 && count >= 1 && w * (count - 1) < 253
    ensures Pairs(g, IdentityLanes(g, |A|), usable, Levels(s, w, sNegative, count, 253), Levels(k, 6, kNegative, 43, 253), B, A)
  {
    hide Abelian, Mul, Pair, Pairs, LeValue, Above;
    forall l | 0 <= l < |A|
      ensures Levels(s, w, sNegative, count, 253)[l] == 0 && Levels(k, 6, kNegative, 43, 253)[l] == 0
    {
      AboveEnds(LeValue(s[l]), w, l in sNegative, count, 253);
      AboveEnds(LeValue(k[l]), 6, l in kNegative, 43, 253);
    }
    PairsStart(g, usable, Levels(s, w, sNegative, count, 253), Levels(k, 6, kNegative, 43, 253), B, A);
  }

  lemma TimelineEnd<G(!new)>(g: Group<G>, acc: seq<G>, usable: set<nat>, s: seq<Bytes32>, k: seq<Bytes32>, sNegative: set<nat>,
                             kNegative: set<nat>, w: nat, count: nat, B: G, A: seq<G>)
    requires |s| == |k| == |A| && w >= 2 && count >= 1 && w * (count - 1) < 253 && w * count >= 255
    requires forall l :: l in usable ==> l < |s| && LeValue(s[l]) < L && LeValue(k[l]) < L
    requires Pairs(g, acc, usable, Levels(s, w, sNegative, count, 0), Levels(k, 6, kNegative, 43, 0), B, A)
    ensures |acc| == |A|
    ensures forall l :: 0 <= l < |A| && l in usable ==> acc[l] == Pair(g, Applied(s, sNegative, l), Applied(k, kNegative, l), B, A[l])
    ensures forall l :: 0 <= l < |A| && l !in usable ==> acc[l] == g.zero
  {
    hide Mul, Pair, LeValue, Above;
    forall l | 0 <= l < |A| && l in usable
      ensures acc[l] == Pair(g, Applied(s, sNegative, l), Applied(k, kNegative, l), B, A[l])
    {
      AboveEnds(LeValue(s[l]), w, l in sNegative, count, 253);
      AboveEnds(LeValue(k[l]), 6, l in kNegative, 43, 253);
    }
  }
}
