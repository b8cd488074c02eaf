/** Coefficient preparation for the four-term equation (internal/r51x5/heea_base_split_ifma.go). */
module HeeaPrepare {
  import opened Arith
  import opened Bytes
  import opened Selection
  import opened Recoding
  import opened Equation
  import opened HeeaProduct

  /** ExperimentalHEEASignedCoefficient: an exact signed integer, not a residue. */
  datatype Coefficient = Coefficient(magnitude: Bytes32, negative: bool)

  function CoefficientInt(c: Coefficient): int {
    if c.negative then -(LeValue(c.magnitude) as int) else LeValue(c.magnitude)
  }

  /** The lane gates: legal sign, canonical magnitudes, odd tau. */
  predicate Admits(s: Bytes32, tau: Coefficient, rho: Coefficient, epsilon: int) {
    && (epsilon == -1 || epsilon == 1)
    && LeValue(s) < L && LeValue(tau.magnitude) < L && LeValue(rho.magnitude) < L
    && tau.magnitude[0] % 2 == 1
  }

  /** The four exact integers a lane carries. */
  datatype Schedule = Schedule(scalars: seq<Bytes32>, negative: seq<bool>)

  function Term(q: Schedule, t: nat): int
    requires |q.scalars| == |q.negative| && t < |q.scalars|
  {
    if q.negative[t] then -(LeValue(q.scalars[t]) as int) else LeValue(q.scalars[t])
  }

  predicate Four(q: Schedule) { |q.scalars| == 4 && |q.negative| == 4 }

  type FourTerms = q: Schedule | Four(q) witness BLANK

  const BLANK: Schedule := Schedule([Zero32, Zero32, Zero32, Zero32], [false, false, false, false])

  /** lambda0 and lambda1 recombine to the representative of tau*s modulo L, each below 2^128, and the variable-point
      coefficients are exactly -tau and -epsilon*rho. */
  ghost predicate Carries(q: FourTerms, s: nat, tau: int, rho: int, epsilon: int) {
    && 0 <= Term(q, 0) < SPLIT && 0 <= Term(q, 1) < SPLIT
    && Term(q, 0) + SPLIT * Term(q, 1) < L && Congruent(Term(q, 0) + SPLIT * Term(q, 1), tau * s, L)
    && Term(q, 2) == -tau && Term(q, 3) == -(epsilon * rho)
    && (forall t :: 0 <= t < 4 ==> LeValue(q.scalars[t]) < L)
  }

  lemma CanonicalBits(v: nat, n: nat)
    requires v < L && n == 253
    ensures BitLen(v) <= n
  {
    OrderBits(v, n);
    BitLenAtMost(v, n);
  }

  function ZeroBytes(n: nat): (z: seq<u8>)
    ensures |z| == n && LeValue(z) == 0
  {
    var z := seq(n, _ => 0);
    ZerosValue(z);
    z
  }

  /** lambda0 is the low half of the reduced product, lambda1 the high half. */
  lemma SplitHalves(r: Bytes32, lambda0: Bytes32, lambda1: Bytes32)
    requires lambda0 == r[..16] + ZeroBytes(16) && lambda1 == r[16..] + ZeroBytes(16)
    ensures LeValue(lambda0) + SPLIT * LeValue(lambda1) == LeValue(r)
    ensures LeValue(lambda0) < SPLIT && LeValue(lambda1) < SPLIT
    ensures SPLIT < L
  {
    hide LeValue;
    assert r == r[..16] + r[16..];
    LeAppend(r[..16], r[16..]);
    LeAppend(r[..16], ZeroBytes(16));
    LeAppend(r[16..], ZeroBytes(16));
    LeBound(r[..16]);
    LeBound(r[16..]);
    SplitWeight(8 * |r[..16]|);
    assert Pow2(8 * |r[..16]|) * 0 == 0;
  }

  lemma SplitWeight(n: nat)
    requires n == 128
    ensures Pow2(n) == SPLIT
  {
    Pow2Wide();
    Pow2Add(64, 64);
  }

  /** prepareHEEABaseSplitLane: the wide-product fallback cannot happen for admitted lanes. */
  method PrepareLane(s: Bytes32, tau: Coefficient, rho: Coefficient, epsilon: int) returns (q: FourTerms, ok: bool)
    requires Admits(s, tau, rho, epsilon)
    ensures ok && Carries(q, LeValue(s), CoefficientInt(tau), CoefficientInt(rho), epsilon)
  {
    hide LeValue, BitLen, Congruent;
    q := BLANK;
    var sValue := View(s, false);
    var tauValue := View(tau.magnitude, tau.negative);
    CanonicalBits(LeValue(s), 253);
    CanonicalBits(LeValue(tau.magnitude), 253);
    var reduced;
    reduced, ok := ReduceSignedProduct(tauValue, sValue);
    if !ok {
      return;
    }
    var lambda0: Bytes32 := reduced[..16] + ZeroBytes(16);
    var lambda1: Bytes32 := reduced[16..] + ZeroBytes(16);
    SplitHalves(reduced, lambda0, lambda1);
    ghost var product := CoefficientInt(tau) * LeValue(s);
    CongruentMod(product, L);
    CongruentSym(product, product % L, L);
    // The R coefficient is -tau, the A coefficient -epsilon*rho; zero is never negative.
    var negativeR := LeValue(tau.magnitude) != 0 && !tau.negative;
    var negativeA := LeValue(rho.magnitude) != 0 && (if epsilon == 1 then !rho.negative else rho.negative);
    q := Schedule([lambda0, lambda1, tau.magnitude, rho.magnitude], [false, false, negativeR, negativeA]);
    assert q.scalars[0] == lambda0 && q.scalars[1] == lambda1 && q.scalars[2] == tau.magnitude && q.scalars[3] == rho.magnitude;
  }

  /** ExperimentalHEEABaseSplitCoefficients: the record the workspace consumes, lane by lane. */
  class BaseSplitCoefficients {
    var lanes: seq<FourTerms>
    var validMask: set<nat>

    constructor (count: nat)
      ensures |lanes| == count && validMask == {}
    {
      lanes := seq(count, _ => BLANK);
      validMask := {};
    }

    /** Every active lane is either prepared exactly or left blank as a fallback. */
    method Prepare(s: seq<Bytes32>, tau: seq<Coefficient>, rho: seq<Coefficient>, epsilon: seq<int>, active: set<nat>)
      returns (usable: set<nat>, fallback: set<nat>)
      requires |s| == |tau| == |rho| == |epsilon| == |lanes|
      requires forall l :: l in active ==> l < |lanes|
      modifies this
      ensures |lanes| == old(|lanes|) && validMask == usable
      ensures usable == set l: nat | l in active && Admits(s[l], tau[l], rho[l], epsilon[l])
      ensures usable + fallback == active && usable !! fallback
      ensures forall l :: l in usable ==>
        Carries(lanes[l], LeValue(s[l]), CoefficientInt(tau[l]), CoefficientInt(rho[l]), epsilon[l])
      ensures forall l :: 0 <= l < |lanes| && l !in usable ==> lanes[l] == BLANK
    {
      hide LeValue, Carries;
      var count := |lanes|;
      lanes := seq(count, _ => BLANK);
      usable := active;
      for lane := 0 to count
        invariant |lanes| == count
        invariant usable == set l: nat | l in active && (l < lane ==> Admits(s[l], tau[l], rho[l], epsilon[l]))
        invariant forall l :: l in usable && l < lane ==>
          Carries(lanes[l], LeValue(s[l]), CoefficientInt(tau[l]), CoefficientInt(rho[l]), epsilon[l])
        invariant forall l :: 0 <= l < count && (l !in usable || l >= lane) ==> lanes[l] == BLANK
      {
        if lane in active {
          var sOk := CanonicalScalarBytes(s[lane]);
          var tauOk := CanonicalScalarBytes(tau[lane].magnitude);
          var rhoOk := CanonicalScalarBytes(rho[lane].magnitude);
          if (epsilon[lane] != -1 && epsilon[lane] != 1) || !sOk || !tauOk || !rhoOk || tau[lane].magnitude[0] % 2 != 1 {
            usable := usable - {lane};
          } else {
            var q, ok := PrepareLane(s[lane], tau[lane], rho[lane], epsilon[lane]);
            if ok {
              lanes := lanes[lane := q];
            } else {
              usable := usable - {lane};
            }
          }
        }
      }
      validMask := usable;
      fallback := active - usable;
    }
  }
}
