/** One variable-base term over a table of every lane's own multiples
    (internal/r51x5/variable_base_ifma_composable.go, variable_base_fixed.go). */
module VariableBase {
  import opened Arith
  import opened Bytes
  import opened GroupTheory
  import opened Schedules
  import opened HeeaEvaluate
  import opened FixedRecode

  /** Lane l holds the digits from r on times its base if usable, and the identity if not. */
  ghost predicate Tails<G(!new)>(g: Group<G>, acc: seq<G>, usable: set<nat>, scalars: seq<Bytes32>, w: nat, negative: set<nat>,
                                 count: nat, r: nat, base: seq<G>)
    requires w >= 1 && r <= count && |base| == |scalars|
  {
    && |acc| == |scalars|
    && forall l :: 0 <= l < |scalars| ==>
         acc[l] == if l in usable then Mul(g, Tail(LeValue(scalars[l]), w, l in negative, count, r), base[l]) else g.zero
  }

  /** The same, one digit up. */
  ghost predicate Raised<G(!new)>(g: Group<G>, acc: seq<G>, usable: set<nat>, scalars: seq<Bytes32>, w: nat, negative: set<nat>,
                                  count: nat, r: nat, base: seq<G>)
    requires w >= 1 && r <= count && |base| == |scalars|
  {
    && |acc| == |scalars|
    && forall l :: 0 <= l < |scalars| ==>
         acc[l] == if l in usable then Mul(g, Pow2(w) * Tail(LeValue(scalars[l]), w, l in negative, count, r), base[l]) else g.zero
  }

  lemma StartTails<G(!new)>(g: Group<G>, usable: set<nat>, scalars: seq<Bytes32>, w: nat, negative: set<nat>, count: nat, base: seq<G>)
    requires Abelian(g) && w >= 1 && |base| == |scalars|
    ensures var acc := IdentityLanes(g, |scalars|);
      Tails(g, acc, usable, scalars, w, negative, count, count, base) && Raised(g, acc, usable, scalars, w, negative, count, count, base)
  {
    hide Abelian, Mul, LeValue, SignedDigit, Pow2;
    forall l | 0 <= l < |scalars|
      ensures Tail(LeValue(scalars[l]), w, l in negative, count, count) == 0 && Mul(g, 0, base[l]) == g.zero
    {
      TailEnd(LeValue(scalars[l]), w, l in negative, count, count);
      MulZeroOne(g, base[l]);
    }
  }

  lemma DoubledTails<G(!new)>(g: Group<G>, acc: seq<G>, doubled: seq<G>, usable: set<nat>, scalars: seq<Bytes32>, w: nat,
                              negative: set<nat>, count: nat, r: nat, base: seq<G>)
    requires Abelian(g) && w >= 1 && r <= count && |base| == |scalars|
    requires Tails(g, acc, usable, scalars, w, negative, count, r, base) && Scaled(g, doubled, Pow2(w), acc)
    ensures Raised(g, doubled, usable, scalars, w, negative, count, r, base)
  {
    hide Abelian, Mul, LeValue, Tail, Pow2;
    forall l | 0 <= l < |scalars|
      ensures doubled[l]
           == if l in usable then Mul(g, Pow2(w) * Tail(LeValue(scalars[l]), w, l in negative, count, r), base[l]) else g.zero
    {
      MulMul(g, Pow2(w), Tail(LeValue(scalars[l]), w, l in negative, count, r), base[l]);
      MulOfZero(g, Pow2(w));
    }
  }

  /** Injecting the digits of round r, or finding them all zero, brings the accumulator to round r. */
  lemma InjectedTails<G(!new)>(g: Group<G>, acc: seq<G>, out: seq<G>, usable: set<nat>, scalars: seq<Bytes32>, w: nat,
                               negative: set<nat>, count: nat, r: nat, base: seq<G>)
    requires Abelian(g) && w >= 1 && r < count && |base| == |scalars|
    requires Raised(g, acc, usable, scalars, w, negative, count, r + 1, base)
    requires var d := LaneDigits(scalars, w, negative, usable, r);
      |out| == |scalars| && forall l :: 0 <= l < |scalars| ==> out[l] == if l in usable then g.add(acc[l], Mul(g, d[l], base[l])) else acc[l]
    ensures Tails(g, out, usable, scalars, w, negative, count, r, base)
  {
    hide Abelian, Mul, LeValue, Tail, Pow2, SignedDigit;
    forall l | 0 <= l < |scalars| && l in usable
      ensures out[l] == Mul(g, Tail(LeValue(scalars[l]), w, l in negative, count, r), base[l])
    {
      var v := LeValue(scalars[l]);
      TailStep(v, w, l in negative, count, r);
      MulAdd(g, Pow2(w) * Tail(v, w, l in negative, count, r + 1), SignedDigit(v, w, l in negative, r), base[l]);
    }
  }

  lemma NoDigits<G(!new)>(g: Group<G>, acc: seq<G>, usable: set<nat>, d: seq<int>, base: seq<G>)
    requires Abelian(g) && |acc| == |d| == |base| && RoundOf(d).nonzero * usable == {}
    ensures forall l :: 0 <= l < |d| ==> acc[l] == if l in usable then g.add(acc[l], Mul(g, d[l], base[l])) else acc[l]
  {
    hide Abelian, Mul;
    forall l | 0 <= l < |d| && l in usable ensures acc[l] == g.add(acc[l], Mul(g, d[l], base[l])) {
      assert l !in RoundOf(d).nonzero * usable;
      MulZeroOne(g, base[l]);
      Zero(g, acc[l]);
    }
  }

  /** Evaluate: the exact signed multiple in every usable lane, the identity in the others. */
  method EvaluateVariable<G(!new)>(g: Group<G>, table: seq<seq<G>>, w: nat, count: nat, scalars: seq<Bytes32>, negative: set<nat>,
                                   active: set<nat>, ghost base: seq<G>) returns (out: seq<G>, usable: set<nat>)
    requires Abelian(g) && w <= 6 && FixedShape(w, count, negative)
    requires |table| == Pow2(w - 1) && Multiples(g, table, base) && |base| == |scalars|
    ensures usable == Canonical(scalars, active) && |out| == |scalars|
    ensures forall l :: 0 <= l < |scalars| ==> out[l] == if l in usable then Mul(g, Applied(scalars, negative, l), base[l]) else g.zero
  {
    hide Abelian, Mul, Multiples, LeValue, SignedDigit, RoundSpec;
    var rounds;
    ShapeWidth(w, count, negative);
    rounds, usable := RecodeScalars(scalars, negative, active, w, count);
    if usable == {} {
      return IdentityLanes(g, |scalars|), {};
    }
    out := VariableChain(g, table, w, count, scalars, negative, usable, rounds, base);
    forall l | 0 <= l < |scalars| && l in usable
      ensures out[l] == Mul(g, Applied(scalars, negative, l), base[l])
    {
      TailWhole(LeValue(scalars[l]), w, l in negative, count);
    }
  }

  /** Most significant round first, w doublings between rounds, rounds without a digit skipped. */
  method VariableChain<G(!new)>(g: Group<G>, table: seq<seq<G>>, w: nat, count: nat, ghost scalars: seq<Bytes32>, ghost negative: set<nat>,
                                usable: set<nat>, rounds: seq<Round>, ghost base: seq<G>) returns (acc: seq<G>)
    requires Abelian(g) && w >= 2 && 1 <= count <= 64 && |base| == |scalars|
    requires |table| == Pow2(w - 1) && Multiples(g, table, base) && rounds == ScheduleOf(scalars, w, negative, usable, count)
    ensures Tails(g, acc, usable, scalars, w, negative, count, 0, base)
  {
    hide Abelian, Mul, Multiples, LeValue, SignedDigit, Tails, Raised, Pow2;
    acc := IdentityLanes(g, |rounds[0].magnitude|);
    StartTails(g, usable, scalars, w, negative, count, base);
    var round := count;
    while round > 0
      invariant 0 <= round <= count && Tails(g, acc, usable, scalars, w, negative, count, round, base)
      invariant round == count ==> Raised(g, acc, usable, scalars, w, negative, count, round, base)
    {
      round := round - 1;
      if round != count - 1 {
        ghost var before := acc;
        acc := DoubleTimes(g, acc, w);
        DoubledTails(g, before, acc, usable, scalars, w, negative, count, round + 1, base);
      }
      acc := InjectRound(g, acc, table, rounds[round], w, count, scalars, negative, usable, round, base);
    }
  }

  method InjectRound<G(!new)>(g: Group<G>, acc: seq<G>, table: seq<seq<G>>, digit: Round, ghost w: nat, ghost count: nat,
                              ghost scalars: seq<Bytes32>, ghost negative: set<nat>, usable: set<nat>, ghost round: nat, ghost base: seq<G>)
    returns (out: seq<G>)
    requires Abelian(g) && w >= 1 && round < count && |base| == |scalars|
    requires |table| == Pow2(w - 1) && Multiples(g, table, base) && digit == RoundSpec(scalars, w, negative, usable, round)
    requires Raised(g, acc, usable, scalars, w, negative, count, round + 1, base)
    ensures Tails(g, out, usable, scalars, w, negative, count, round, base)
  {
    hide Abelian, Mul, Multiples, LeValue, SignedDigit, Tail, Tails, Pow2;
    ghost var d := LaneDigits(scalars, w, negative, usable, round);
    if digit.nonzero * usable == {} {
      out := acc;
      NoDigits(g, acc, usable, d, base);
    } else {
      out := Inject(g, acc, table, digit, usable, base, d);
    }
    InjectedTails(g, acc, out, usable, scalars, w, negative, count, round, base);
  }
}
