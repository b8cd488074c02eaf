/** Evaluating one group of up to eight items and storing the results (ed25519/backend_r51batchq.go:514-723,
    961-1066). Kernels of both widths meet one specification, so the drivers may mix them. */
module BatchEvaluate {
  import opened Arith
  import opened Bytes
  import opened GroupTheory
  import opened Selection
  import opened Schedules
  import opened SharedTable
  import opened HeeaEvaluate
  import opened FixedBaseComb
  import opened VariableBase
  import opened MergedChain
  import opened BatchWorld
  import opened BatchPrepare
  import opened BatchStore

  /** count &^ 7. */
  function WideCount(count: nat): (n: nat)
    ensures n <= count < n + 8 && n % 8 == 0
  {
    count - count % 8
  }

  /** The lanes of a whole group live because their items are usable. */
  ghost predicate GroupLive<G(!new), S(!new)>(w: World<G, S>, profile: Profile, items: seq<Item>, live: set<nat>)
    requires Sound(w)
  {
    forall l: nat :: l in live <==> l < |items| && Usable(w, profile, items[l])
  }

  /** Points and scalars of the live lanes are in place. */
  ghost predicate GroupReady<G(!new), S(!new)>(w: World<G, S>, profile: Profile, items: seq<Item>, live: set<nat>, A: seq<G>, s: seq<Bytes32>)
    requires Sound(w)
  {
    && |items| <= 8 && |A| == |s| == 8
    && forall l: nat :: l in live ==> l < |items| && Ready(w, profile, items[l], A[l], s[l])
  }

  /** What the two evaluators read: multiples of B for the merged chain, and the radix-256 comb. */
  datatype Fixed<!G(!new)> = Fixed(merged: seq<Signed<G>>, comb: seq<seq<Signed<G>>>)

  ghost predicate FixedFor<G(!new)>(g: Group<G>, fixed: Fixed<G>, base: G) {
    && |fixed.merged| == 512 && SignedMultiples(g, fixed.merged, base)
    && |fixed.comb| == 16 && CombTable(g, fixed.comb, base, 8, 128)
  }

  /** A table of multiples of every lane's A, then the merged chain; every live lane is usable because its
      scalars are canonical. */
  method Merged<G(!new), S(!new)>(w: World<G, S>, fixed: Fixed<G>, A: seq<G>, s: seq<Bytes32>, k: seq<Bytes32>, live: set<nat>)
    returns (out: seq<G>, usable: set<nat>)
    requires Abelian(w.g) && |A| == |s| == |k| && FixedFor(w.g, fixed, w.base)
    requires forall l: nat :: l in live ==> l < |A| && LeValue(s[l]) < L && LeValue(k[l]) < L
    ensures usable == live && |out| == |A|
    ensures forall l: nat :: l in live ==> out[l] == Pair(w.g, LeValue(s[l]), -(LeValue(k[l]) as int), w.base, A[l])
  {
    hide Abelian, Multiples, SignedMultiples, CombTable, Pair, LeValue;
    var table := BuildTable(w.g, A, 16);
    out, usable := EvaluateB10(w.g, fixed.merged, table, s, k, live, w.base, A);
  }

  /** The radix-32 term -[k]A and the radix-256 comb term [s]B, added. */
  method Comb<G(!new), S(!new)>(w: World<G, S>, fixed: Fixed<G>, A: seq<G>, s: seq<Bytes32>, k: seq<Bytes32>, live: set<nat>)
    returns (out: seq<G>, usable: set<nat>)
    requires Abelian(w.g) && |A| == |s| == |k| && FixedFor(w.g, fixed, w.base)
    requires forall l: nat :: l in live ==> l < |A| && LeValue(s[l]) < L && LeValue(k[l]) < L
    ensures usable == live && |out| == |A|
    ensures forall l: nat :: l in live ==> out[l] == Pair(w.g, LeValue(s[l]), -(LeValue(k[l]) as int), w.base, A[l])
  {
    hide Abelian, Multiples, SignedMultiples, CombTable, LeValue, Mul;
    var table := BuildTable(w.g, A, 16);
    CombShapes();
    var aTerm, usableA := EvaluateVariable(w.g, table, 5, 51, k, live, live, A);
    var bTerm, usableB := CombScalarMult(w.g, w.base, fixed.comb, 8, 32, s, live);
    out, usable := AddLanes(w.g, aTerm, bTerm), usableA * usableB;
    forall l: nat | l in live ensures out[l] == Pair(w.g, LeValue(s[l]), -(LeValue(k[l]) as int), w.base, A[l]) {
      Comm(w.g, aTerm[l], bTerm[l]);
    }
  }

  lemma CombShapes()
    ensures Pow2(5 - 1) == 16 && Pow2(8 - 1) == 128 && CombShape(8, 32, 16, 128)
  {}

  /** The measured policy chooses the evaluator of the wide kernel. */
  method Chain<G(!new), S(!new)>(w: World<G, S>, fixed: Fixed<G>, merged: bool, A: seq<G>, s: seq<Bytes32>, k: seq<Bytes32>, live: set<nat>)
    returns (out: seq<G>, usable: set<nat>)
    requires Abelian(w.g) && |A| == |s| == |k| && FixedFor(w.g, fixed, w.base)
    requires forall l: nat :: l in live ==> l < |A| && LeValue(s[l]) < L && LeValue(k[l]) < L
    ensures usable == live && |out| == |A|
    ensures forall l: nat :: l in live ==> out[l] == Pair(w.g, LeValue(s[l]), -(LeValue(k[l]) as int), w.base, A[l])
  {
    hide *;
    if merged {
      out, usable := Merged(w, fixed, A, s, k, live);
    } else {
      out, usable := Comb(w, fixed, A, s, k, live);
    }
  }

  /** evaluateX4 on one half, if it has a live lane: always the comb. */
  method ChainHalf<G(!new), S(!new)>(w: World<G, S>, fixed: Fixed<G>, A: seq<G>, s: seq<Bytes32>, k: seq<Bytes32>, live: set<nat>, first: nat)
    returns (out: seq<G>, usable: set<nat>)
    requires Abelian(w.g) && |A| == |s| == |k| == 8 && FixedFor(w.g, fixed, w.base) && first <= 4
    requires forall l: nat :: l in live ==> l < |A| && LeValue(s[l]) < L && LeValue(k[l]) < L
    ensures |out| == 4 && forall l: nat :: l in usable <==> l in live && first <= l < first + 4
    ensures forall l: nat :: l in usable ==> out[l - first] == Pair(w.g, LeValue(s[l]), -(LeValue(k[l]) as int), w.base, A[l])
  {
    hide Abelian, FixedFor, Pair, LeValue, Shifted;
    var half := Shifted(live, first, 4);
    var a4, s4, k4 := A[first..first + 4], s[first..first + 4], k[first..first + 4];
    assert forall i: nat :: i < 4 ==> a4[i] == A[first + i] && s4[i] == s[first + i] && k4[i] == k[first + i];
    forall l: nat | l in live && first <= l < first + 4 ensures l - first in half {
      assert first + (l - first) == l;
    }
    out, usable := a4, {};
    if half != {} {
      out, usable := Comb(w, fixed, a4, s4, k4, half);
      usable := Moved4(live, usable, first);
    }
  }

  /** Lanes of a half as lanes of the whole. */
  function Moved4(live: set<nat>, half: set<nat>, first: nat): (s: set<nat>)
    ensures forall l: nat {:trigger l in s} :: l in s <==> l in live && first <= l && l - first in half
  {
    set l | l in live && first <= l && l - first in half
  }

  method ChainHalves<G(!new), S(!new)>(w: World<G, S>, fixed: Fixed<G>, A: seq<G>, s: seq<Bytes32>, k: seq<Bytes32>, live: set<nat>)
    returns (out: seq<G>, usable: set<nat>)
    requires Abelian(w.g) && |A| == |s| == |k| == 8 && FixedFor(w.g, fixed, w.base)
    requires forall l: nat :: l in live ==> l < |A| && LeValue(s[l]) < L && LeValue(k[l]) < L
    ensures usable == live && |out| == |A|
    ensures forall l: nat :: l in live ==> out[l] == Pair(w.g, LeValue(s[l]), -(LeValue(k[l]) as int), w.base, A[l])
  {
    hide Abelian, FixedFor, Pair, LeValue;
    var out0, usable0 := ChainHalf(w, fixed, A, s, k, live, 0);
    var out1, usable1 := ChainHalf(w, fixed, A, s, k, live, 4);
    out, usable := out0 + out1, usable0 + usable1;
  }

  lemma ReadyScalars<G(!new), S(!new)>(w: World<G, S>, profile: Profile, items: seq<Item>, live: set<nat>, A: seq<G>, s: seq<Bytes32>, k: seq<Bytes32>)
    requires Sound(w) && GroupReady(w, profile, items, live, A, s) && Short(items)
    requires Hashable(items, live) ==> |k| == 8 && forall l: nat :: l in live ==> l < 8 && LeValue(k[l]) == Challenge(w, items[l])
    ensures Hashable(items, live)
    ensures forall l: nat :: l in live ==> l < |A| && LeValue(s[l]) < L && LeValue(k[l]) < L
    ensures forall l: nat :: l in live ==>
      Some(Pair(w.g, LeValue(s[l]), -(LeValue(k[l]) as int), w.base, A[l])) == Checked(w, profile, items[l])
  {
    hide LeValue, Pair, Challenge;
    forall l: nat | l in live ensures Challenge(w, items[l]) < L { ChallengeBelow(w, items[l]); }
  }

  /** reduceR51NativeChallengesX8 and the equation of the live lanes, by either kernel width. */
  method EvaluateGroup<G(!new), S(!new)>(w: World<G, S>, fixed: Fixed<G>, merged: bool, profile: Profile, items: seq<Item>, live: set<nat>,
                                         A: seq<G>, s: seq<Bytes32>, wideKernel: bool, wideHash: bool)
    returns (out: seq<G>, usable: set<nat>)
    requires Sound(w) && Short(items) && FixedFor(w.g, fixed, w.base)
    requires GroupLive(w, profile, items, live) && GroupReady(w, profile, items, live, A, s)
    ensures Solved(w, profile, items, 0, out, usable)
  {
    hide Abelian, FixedFor, Pair, LeValue, Challenge, Usable, Checked;
    ReadyHashable(w, profile, items, live, A, s);
    var k := ReduceChallenges(w, items, live, wideHash);
    ReadyScalars(w, profile, items, live, A, s, k);
    if wideKernel {
      out, usable := Chain(w, fixed, merged, A, s, k, live);
    } else {
      out, usable := ChainHalves(w, fixed, A, s, k, live);
    }
  }

  lemma ChallengeBelow<G(!new), S(!new)>(w: World<G, S>, item: Item)
    requires item.pub.Some? && |item.sig| == 64
    ensures Challenge(w, item) < L
  {}

  lemma ReadyHashable<G(!new), S(!new)>(w: World<G, S>, profile: Profile, items: seq<Item>, live: set<nat>, A: seq<G>, s: seq<Bytes32>)
    requires Sound(w) && GroupReady(w, profile, items, live, A, s) && Short(items)
    ensures Hashable(items, live) && |items| <= 8
  {}

  /** The byte checks of a cold group: scalars and key bytes of the lanes that pass. */
  method ParseLanes<G(!new), S(!new)>(w: World<G, S>, profile: Profile, items: seq<Item>)
    returns (aBytes: seq<Bytes32>, s: seq<Bytes32>, candidates: set<nat>)
    requires Sound(w) && |items| <= 8
    ensures |aBytes| == |s| == 8
    ensures forall l: nat :: l in candidates <==> l < |items| && w.parse(profile, items[l].pub, items[l].sig).Some?
    ensures forall l: nat :: l in candidates ==>
      items[l].pub == Some(aBytes[l]) && w.parse(profile, items[l].pub, items[l].sig) == Some(s[l])
  {
    aBytes, s, candidates := seq(8, _ => Zero32), seq(8, _ => Zero32), {};
    for lane := 0 to |items|
      invariant |aBytes| == |s| == 8
      invariant forall l: nat :: l in candidates <==> l < lane && w.parse(profile, items[l].pub, items[l].sig).Some?
      invariant forall l: nat :: l in candidates ==>
        items[l].pub == Some(aBytes[l]) && w.parse(profile, items[l].pub, items[l].sig) == Some(s[l])
    {
      var coefficient := w.parse(profile, items[lane].pub, items[lane].sig);
      if coefficient.Some? {
        aBytes, s := aBytes[lane := items[lane].pub.value], s[lane := coefficient.value];
        candidates := candidates + {lane};
      }
    }
  }

  /** Two four-lane decodes, each only if one of its lanes is a candidate. */
  method DecodeHalves<G(!new), S(!new)>(w: World<G, S>, bytes: seq<Bytes32>, active: set<nat>) returns (points: seq<G>, valid: set<nat>)
    requires |bytes| == 8
    ensures |points| == 8
    ensures forall l: nat :: l in valid <==> l in active && l < 8 && w.decode(bytes[l]).Some?
    ensures forall l: nat :: l in valid ==> points[l] == w.decode(bytes[l]).value
  {
    hide Shifted, Moved4;
    var low, high := Shifted(active, 0, 4), Shifted(active, 4, 4);
    var points0 := seq(4, _ => w.g.zero);
    var points1 := points0;
    var valid0, valid1: set<nat> := {}, {};
    if low != {} {
      points0, valid0 := DecodeLanes(w, bytes[..4], low);
    }
    if high != {} {
      points1, valid1 := DecodeLanes(w, bytes[4..], high);
    }
    points := points0 + points1;
    valid := valid0 + Moved4(active, valid1, 4);
    forall l: nat | l in active && l < 8 && w.decode(bytes[l]).Some?
      ensures l in valid
    {
      if l < 4 { assert l in low && l in valid0; } else { assert 4 + (l - 4) == l && l - 4 in high && bytes[4..][l - 4] == bytes[l]; }
    }
  }

  /** The cold front end of evaluateX8Group and evaluateTwoX4Group. */
  method ColdLanes<G(!new), S(!new)>(w: World<G, S>, profile: Profile, items: seq<Item>, wideKernel: bool)
    returns (A: seq<G>, s: seq<Bytes32>, live: set<nat>)
    requires Sound(w) && |items| <= 8
    ensures GroupLive(w, profile, items, live) && GroupReady(w, profile, items, live, A, s)
  {
    hide Sound;
    var aBytes, candidates;
    aBytes, s, candidates := ParseLanes(w, profile, items);
    if wideKernel {
      A, live := DecodeLanes(w, aBytes, candidates);
    } else {
      A, live := DecodeHalves(w, aBytes, candidates);
    }
  }
}
