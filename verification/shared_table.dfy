/** One table of both signs of the multiples of a public point, shared by all lanes
    (internal/r51x5/fixed_base_comb.go, internal/r51x5/asymmetric_fixed_b_niels_x8_experiment.go). */
module SharedTable {
  import opened Arith
  import opened GroupTheory
  import opened Schedules

  /** fixedBaseIFMASignedAffineCached: index 0 the multiple, index 1 its negation. */
  datatype Signed<!G(!new)> = Signed(positive: G, negative: G)

  ghost predicate SignedMultiples<G(!new)>(g: Group<G>, table: seq<Signed<G>>, base: G) {
    forall e :: 0 <= e < |table| ==>
      table[e].positive == Mul(g, e + 1, base) && table[e].negative == Mul(g, -(e + 1), base)
  }

  /** Entry e is [e+1]base, built by repeated addition. */
  method BuildSigned<G(!new)>(g: Group<G>, base: G, entries: nat) returns (table: seq<Signed<G>>)
    requires Abelian(g)
    ensures |table| == entries && SignedMultiples(g, table, base)
  {
    hide Abelian, Mul;
    var multiple := base;
    MulZeroOne(g, base);
    table := [];
    for entry := 0 to entries
      invariant |table| == entry && SignedMultiples(g, table, base)
      invariant entry < entries ==> multiple == Mul(g, entry + 1, base)
    {
      MulNeg(g, entry + 1, base);
      table := table + [Signed(multiple, g.neg(multiple))];
      if entry + 1 < entries {
        MulSucc(g, entry + 1, base);
        multiple := g.add(multiple, base);
      }
    }
  }

  /** The transpose-select: one table entry per lane with a digit, the identity elsewhere. */
  function SelectShared<G(!new)>(g: Group<G>, table: seq<Signed<G>>, round: Round, active: set<nat>): (selected: seq<G>)
    requires forall l :: 0 <= l < |round.magnitude| && l in round.nonzero * active ==> 1 <= round.magnitude[l] <= |table|
    ensures |selected| == |round.magnitude|
  {
    seq(|round.magnitude|, l requires 0 <= l < |round.magnitude| =>
      if l !in round.nonzero * active then g.zero
      else if l in round.negative then table[round.magnitude[l] - 1].negative
      else table[round.magnitude[l] - 1].positive)
  }

  lemma SelectSharedIs<G(!new)>(g: Group<G>, table: seq<Signed<G>>, d: seq<int>, active: set<nat>, base: G)
    requires Abelian(g) && SignedMultiples(g, table, base)
    requires forall l :: 0 <= l < |d| && l in active ==> Abs(d[l]) <= |table|
    ensures forall l :: 0 <= l < |d| && l in RoundOf(d).nonzero * active ==> 1 <= RoundOf(d).magnitude[l] <= |table|
    ensures forall l :: 0 <= l < |d| ==>
      SelectShared(g, table, RoundOf(d), active)[l] == if l in active then Mul(g, d[l], base) else g.zero
  {
    hide Abelian, Mul;
    MulZeroOne(g, base);
    forall l | 0 <= l < |d|
      ensures SelectShared(g, table, RoundOf(d), active)[l] == if l in active then Mul(g, d[l], base) else g.zero
    {
      assert l in RoundOf(d).nonzero <==> d[l] != 0;
      assert l in RoundOf(d).negative <==> d[l] < 0;
    }
  }

  /** Injecting a digit record against a shared table. */
  method InjectShared<G(!new)>(g: Group<G>, acc: seq<G>, table: seq<Signed<G>>, round: Round, usable: set<nat>,
                               ghost base: G, ghost d: seq<int>) returns (out: seq<G>)
    requires Abelian(g) && SignedMultiples(g, table, base) && |acc| == |d| && round == RoundOf(d)
    requires forall l :: 0 <= l < |d| && l in usable ==> Abs(d[l]) <= |table|
    ensures |out| == |acc|
    ensures forall l :: 0 <= l < |acc| ==> out[l] == if l in usable then g.add(acc[l], Mul(g, d[l], base)) else acc[l]
  {
    hide Abelian, Mul, SignedMultiples, SelectShared, RoundOf;
    forall l | 0 <= l < |acc| ensures g.add(acc[l], g.zero) == acc[l] { Zero(g, acc[l]); }
    MulZeroOne(g, base);
    RoundLanes(d);
    if round.nonzero * usable == {} {
      out := acc;
      assert forall l :: l in usable ==> l !in round.nonzero * usable;
    } else {
      SelectSharedIs(g, table, d, usable, base);
      out := AddLanes(g, acc, SelectShared(g, table, round, usable));
    }
  }

  lemma RoundLanes(d: seq<int>)
    ensures |RoundOf(d).magnitude| == |d| && forall l :: 0 <= l < |d| ==> (l in RoundOf(d).nonzero <==> d[l] != 0)
  {}
}
