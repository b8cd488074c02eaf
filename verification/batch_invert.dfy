/** Cross-group Montgomery inversion of the Z coordinates (internal/r51x5/batch_encode_ifma.go). A group
    is one vector of lanes; inactive lanes take part as one. */
module BatchInvert {
  import opened Arith
  import opened FieldLimbs
  import opened FieldStage
  import opened FieldReduce
  import opened FieldInvert
  import opened Fermat
  import opened Unit

  const ONE: Limbs := [1, 0, 0, 0, 0]
  const MAX_GROUPS: nat := 16

  type Lanes = seq<Limbs>

  ghost predicate AllU52(v: Lanes) { forall l :: 0 <= l < |v| ==> U52(v[l]) }

  lemma OneValue()
    ensures U52(ONE) && FVal(ONE) == 1
  {}

  // ---------------------------------------------------------------- lane-wise operations

  method MulLanes(a: Lanes, b: Lanes) returns (c: Lanes)
    requires |a| == |b| && AllU52(a) && AllU52(b)
    ensures |c| == |a| && AllU52(c) && forall l :: 0 <= l < |a| ==> Same(FVal(c[l]), FVal(a[l]) * FVal(b[l]))
  {
    hide FVal, Same, U52;
    c := [];
    for l := 0 to |a|
      invariant |c| == l && AllU52(c) && forall i :: 0 <= i < l ==> Same(FVal(c[i]), FVal(a[i]) * FVal(b[i]))
    {
      var product, ok := MultiplyComposable(a[l], b[l]);
      c := c + [product];
    }
  }

  /** invertIFMAX4. */
  method InvertLanes(a: Lanes) returns (z: Lanes)
    requires AllU52(a) && IsPrime(P)
    ensures |z| == |a| && AllU52(z)
    ensures forall l :: 0 <= l < |a| && FVal(a[l]) % P != 0 ==> Same(FVal(a[l]) * FVal(z[l]), 1)
  {
    hide FVal, Same, U52, IsPrime, Power;
    z := [];
    for l := 0 to |a|
      invariant |z| == l && AllU52(z)
      invariant forall i :: 0 <= i < l && FVal(a[i]) % P != 0 ==> Same(FVal(a[i]) * FVal(z[i]), 1)
    {
      var inverse := InvertComposable(a[l]);
      z := z + [inverse];
    }
  }

  /** sanitizedBatchEncodeZ: one in every inactive lane. */
  function Sanitized(z: Lanes, active: set<nat>): (s: Lanes)
    ensures |s| == |z| && forall l :: 0 <= l < |z| ==> s[l] == if l in active then z[l] else ONE
  {
    seq(|z|, l requires 0 <= l < |z| => if l in active then z[l] else ONE)
  }

  /** Reducing a u52 representative canonically. */
  method IsZeroLane(x: Limbs) returns (zero: bool)
    requires U52(x)
    ensures zero <==> FVal(x) % P == 0
  {
    var reduced := ReduceU52(x);
    zero := reduced == [0, 0, 0, 0, 0];
    ZeroLimbs(reduced);
  }

  method ReduceU52(x: Limbs) returns (r: Limbs)
    requires U52(x)
    ensures Reduced(r) && FVal(r) == FVal(x) % P
  {
    var accum: seq<u128> := [x[0], x[1], x[2], x[3], x[4]];
    assert accum == x;
    r := ReduceAccumulators(accum);
  }

  lemma ZeroLimbs(r: seq<int>)
    requires Reduced(r)
    ensures r == [0, 0, 0, 0, 0] <==> FVal(r) == 0
  {
    if FVal(r) == 0 { FValInjective(r, [0, 0, 0, 0, 0]); }
  }

  // ---------------------------------------------------------------- the product of a lane

  /** The sanitized Z of lane l multiplied over groups first..last. */
  ghost function Chain(z: seq<Lanes>, active: seq<set<nat>>, l: nat, first: nat, last: nat): int
    requires last < |z| == |active| && forall g :: 0 <= g < |z| ==> l < |z[g]|
    decreases last
  {
    var v := FVal(Sanitized(z[last], active[last])[l]);
    if last <= first then v else Chain(z, active, l, first, last - 1) * v
  }

  /** What the schedule needs of its inputs. */
  ghost predicate Groups(z: seq<Lanes>, active: seq<set<nat>>, lanes: nat) {
    && |z| == |active| && (forall g :: 0 <= g < |z| ==> |z[g]| == lanes && AllU52(z[g]))
    && (forall g :: 0 <= g < |z| ==> forall l :: l in active[g] ==> l < lanes)
  }

  lemma {:induction false} EmptyGroup(z: seq<Lanes>, active: seq<set<nat>>, lanes: nat, l: nat, first: nat, last: nat)
    requires Groups(z, active, lanes) && l < lanes && first < last < |z| && active[last] == {}
    ensures Chain(z, active, l, first, last) == Chain(z, active, l, first, last - 1)
  {
    OneValue();
    hide FVal;
  }

  /** With p prime, a product is zero exactly when a factor is. */
  lemma {:induction false} ChainZero(z: seq<Lanes>, active: seq<set<nat>>, lanes: nat, l: nat, first: nat, last: nat)
    requires IsPrime(P) && Groups(z, active, lanes) && l < lanes && first <= last < |z|
    ensures Chain(z, active, l, first, last) % P == 0
       <==> exists g :: first <= g <= last && l in active[g] && FVal(z[g][l]) % P == 0
    decreases last
  {
    hide FVal, IsPrime;
    LaneZero(z, active, lanes, l, last);
    var v := FVal(Sanitized(z[last], active[last])[l]);
    if last > first {
      ChainZero(z, active, lanes, l, first, last - 1);
      ChainNonNeg(z, active, lanes, l, first, last - 1);
      ProductZero(Chain(z, active, l, first, last - 1), v);
    }
  }

  lemma LaneZero(z: seq<Lanes>, active: seq<set<nat>>, lanes: nat, l: nat, g: nat)
    requires Groups(z, active, lanes) && l < lanes && g < |z|
    ensures FVal(Sanitized(z[g], active[g])[l]) % P == 0 <==> l in active[g] && FVal(z[g][l]) % P == 0
  {
    OneValue();
    DivUnique(1, P, 0, 1);
    hide FVal;
  }

  lemma {:induction false} ChainNonNeg(z: seq<Lanes>, active: seq<set<nat>>, lanes: nat, l: nat, first: nat, last: nat)
    requires Groups(z, active, lanes) && l < lanes && last < |z|
    ensures Chain(z, active, l, first, last) >= 0
    decreases last
  {
    hide FVal;
    var v := Sanitized(z[last], active[last])[l];
    OneValue();
    assert U52(z[last][l]);
    U52NonNeg(v);
    if last > first {
      ChainNonNeg(z, active, lanes, l, first, last - 1);
      MulNonNeg(Chain(z, active, l, first, last - 1), FVal(v));
    }
  }

  lemma ProductZero(a: nat, b: int)
    requires IsPrime(P)
    ensures (a * b) % P == 0 <==> a % P == 0 || b % P == 0
  {
    if (a * b) % P == 0 {
      RemainderZero(a * b, P);
      PrimeDivides(P, a, b);
      if Divides(P, a) { DividesMod(P, a); } else { DividesMod(P, b); }
    }
    if a % P == 0 {
      DivMod(a, P);
      assert a * b == ((a / P) * b) * P;
      DivUnique(a * b, P, (a / P) * b, 0);
    }
    if b % P == 0 {
      DivMod(b, P);
      assert a * b == (a * (b / P)) * P;
      DivUnique(a * b, P, a * (b / P), 0);
    }
  }

  // ---------------------------------------------------------------- the schedule

  /** Forward pass: inclusive prefix products from the first nonempty group. */
  method Prefixes(z: seq<Lanes>, active: seq<set<nat>>, ghost lanes: nat, first: nat) returns (prefix: seq<Lanes>)
    requires Groups(z, active, lanes) && first < |z|
    ensures |prefix| == |z|
    ensures forall g :: first <= g < |z| ==> |prefix[g]| == lanes && AllU52(prefix[g])
    ensures forall g, l :: first <= g < |z| && 0 <= l < lanes ==> Same(FVal(prefix[g][l]), Chain(z, active, l, first, g))
  {
    hide FVal, Same, U52, Chain;
    prefix := seq(|z|, _ => []);
    prefix := prefix[first := Sanitized(z[first], active[first])];
    SanitizedU52(z, active, lanes, first);
    FirstPrefix(z, active, lanes, first);
    for group := first + 1 to |z|
      invariant |prefix| == |z|
      invariant forall g :: first <= g < group ==> |prefix[g]| == lanes && AllU52(prefix[g])
      invariant forall g, l :: first <= g < group && 0 <= l < lanes ==> Same(FVal(prefix[g][l]), Chain(z, active, l, first, g))
    {
      if active[group] == {} {
        prefix := prefix[group := prefix[group - 1]];
        forall l | 0 <= l < lanes
          ensures Same(FVal(prefix[group][l]), Chain(z, active, l, first, group))
        {
          EmptyGroup(z, active, lanes, l, first, group);
        }
      } else {
        SanitizedU52(z, active, lanes, group);
        var s := Sanitized(z[group], active[group]);
        var product := MulLanes(prefix[group - 1], s);
        forall l | 0 <= l < lanes
          ensures Same(FVal(product[l]), Chain(z, active, l, first, group))
        {
          NextPrefix(z, active, lanes, l, first, group, FVal(prefix[group - 1][l]), FVal(product[l]));
        }
        prefix := prefix[group := product];
      }
    }
  }

  lemma SanitizedU52(z: seq<Lanes>, active: seq<set<nat>>, lanes: nat, g: nat)
    requires Groups(z, active, lanes) && g < |z|
    ensures AllU52(Sanitized(z[g], active[g]))
  {
    OneValue();
  }

  lemma FirstPrefix(z: seq<Lanes>, active: seq<set<nat>>, lanes: nat, first: nat)
    requires Groups(z, active, lanes) && first < |z|
    ensures forall l :: 0 <= l < lanes ==>
      Same(FVal(Sanitized(z[first], active[first])[l]), Chain(z, active, l, first, first))
  {
    hide FVal;
    forall l | 0 <= l < lanes
      ensures Same(FVal(Sanitized(z[first], active[first])[l]), Chain(z, active, l, first, first))
    {
      var v := FVal(Sanitized(z[first], active[first])[l]);
      SameBy(v, v, 0);
    }
  }

  lemma NextPrefix(z: seq<Lanes>, active: seq<set<nat>>, lanes: nat, l: nat, first: nat, g: nat, before: int, product: int)
    requires Groups(z, active, lanes) && l < lanes && first < g < |z|
    requires Same(before, Chain(z, active, l, first, g - 1))
    requires Same(product, before * FVal(Sanitized(z[g], active[g])[l]))
    ensures Same(product, Chain(z, active, l, first, g))
  {
    hide FVal, Congruent;
    var v := FVal(Sanitized(z[g], active[g])[l]);
    var c := Chain(z, active, l, first, g - 1);
    CongruentMul(before, c, v, P);
    assert v * before == before * v && v * c == c * v;
    CongruentTrans(product, before * v, c * v, P);
  }

  /** Some active lane of some group has a Z that is zero in the field. */
  ghost predicate ZeroZ(z: seq<Lanes>, active: seq<set<nat>>, lanes: nat)
    requires Groups(z, active, lanes)
  {
    exists g, l :: 0 <= g < |z| && l in active[g] && FVal(z[g][l]) % P == 0
  }

  /** batchInvertPointZ: the true reciprocal of Z in every active lane of every group, whatever the
      inactive lanes and empty groups hold; an error exactly when an active Z is zero. */
  method BatchInvertZ(z: seq<Lanes>, active: seq<set<nat>>, lanes: nat, previous: seq<Lanes>) returns (out: seq<Lanes>, zeroZ: bool)
    requires IsPrime(P) && Groups(z, active, lanes) && 1 <= |z| <= MAX_GROUPS && |previous| == |z|
    ensures zeroZ <==> ZeroZ(z, active, lanes)
    ensures |out| == |z|
    ensures forall g :: 0 <= g < |z| && active[g] == {} ==> out[g] == previous[g]
    ensures !zeroZ ==> forall g :: 0 <= g < |z| && active[g] != {} ==> |out[g]| == lanes && AllU52(out[g])
    ensures !zeroZ ==> forall g, l :: 0 <= g < |z| && l in active[g] && |out[g]| == lanes ==> Same(FVal(out[g][l]) * FVal(z[g][l]), 1)
  {
    hide FVal, Same, U52, Chain, IsPrime, AllU52;
    out := previous;
    var first := 0;
    while first < |z| && active[first] == {}
      invariant 0 <= first <= |z| && forall g :: 0 <= g < first ==> active[g] == {}
    {
      first := first + 1;
    }
    if first == |z| {
      return out, false;
    }
    var prefix := Prefixes(z, active, lanes, first);
    zeroZ := CheckZero(z, active, lanes, first, prefix[|z| - 1]);
    if zeroZ {
      return;
    }
    var inverse := InvertLanes(prefix[|z| - 1]);
    out := Recover(z, active, lanes, first, prefix, inverse, previous);
  }

  /** The zero test on the reduced total, over the lanes that are active anywhere. */
  method CheckZero(z: seq<Lanes>, active: seq<set<nat>>, lanes: nat, first: nat, total: Lanes) returns (zeroZ: bool)
    requires IsPrime(P) && Groups(z, active, lanes) && first < |z| && |total| == lanes && AllU52(total)
    requires forall g :: 0 <= g < first ==> active[g] == {}
    requires forall l :: 0 <= l < lanes ==> Same(FVal(total[l]), Chain(z, active, l, first, |z| - 1))
    ensures zeroZ <==> ZeroZ(z, active, lanes)
    ensures !zeroZ ==> forall l :: 0 <= l < lanes ==> FVal(total[l]) % P != 0
  {
    hide FVal, Same, U52, Chain, IsPrime;
    var activeLanes: set<nat> := {};
    for g := first to |z|
      invariant forall l :: l in activeLanes <==> exists i :: first <= i < g && l in active[i]
    {
      activeLanes := activeLanes + active[g];
    }
    forall l | 0 <= l < lanes
      ensures FVal(total[l]) % P == 0 <==> exists g :: first <= g <= |z| - 1 && l in active[g] && FVal(z[g][l]) % P == 0
    {
      ChainZero(z, active, lanes, l, first, |z| - 1);
      SameRemainder(FVal(total[l]), Chain(z, active, l, first, |z| - 1));
    }
    zeroZ := false;
    for lane := 0 to lanes
      invariant !zeroZ
      invariant forall l :: 0 <= l < lane ==> FVal(total[l]) % P != 0
    {
      var zero := IsZeroLane(total[lane]);
      if lane in activeLanes && zero {
        assert exists g :: first <= g <= |z| - 1 && lane in active[g] && FVal(z[g][lane]) % P == 0;
        return true;
      }
    }
    forall g, l | 0 <= g < |z| && l in active[g]
      ensures FVal(z[g][l]) % P != 0
    {
      assert FVal(total[l]) % P != 0;
    }
  }

  /** Backward pass: two multiplications per nonempty group. */
  method Recover(z: seq<Lanes>, active: seq<set<nat>>, lanes: nat, first: nat, prefix: seq<Lanes>, total: Lanes, previous: seq<Lanes>)
    returns (out: seq<Lanes>)
    requires Groups(z, active, lanes) && first < |z| == |prefix| == |previous| && active[first] != {}
    requires forall g :: 0 <= g < first ==> active[g] == {}
    requires forall g :: first <= g < |z| ==> |prefix[g]| == lanes && AllU52(prefix[g])
    requires forall g, l :: first <= g < |z| && 0 <= l < lanes ==> Same(FVal(prefix[g][l]), Chain(z, active, l, first, g))
    requires |total| == lanes && AllU52(total)
    requires forall l :: 0 <= l < lanes ==> FVal(prefix[|z| - 1][l]) % P != 0 && Same(FVal(prefix[|z| - 1][l]) * FVal(total[l]), 1)
    ensures |out| == |z|
    ensures forall g :: 0 <= g < |z| && active[g] == {} ==> out[g] == previous[g]
    ensures forall g :: 0 <= g < |z| && active[g] != {} ==> |out[g]| == lanes && AllU52(out[g])
    ensures forall g, l :: 0 <= g < |z| && l in active[g] && |out[g]| == lanes ==> Same(FVal(out[g][l]) * FVal(z[g][l]), 1)
  {
    hide FVal, Congruent, U52, Chain, AllU52;
    out := previous;
    var inverse := total;
    forall l | 0 <= l < lanes
      ensures Same(Chain(z, active, l, first, |z| - 1) * FVal(inverse[l]), 1)
    {
      SwapFactor(FVal(prefix[|z| - 1][l]), Chain(z, active, l, first, |z| - 1), FVal(total[l]));
    }
    var group := |z| - 1;
    while group > first
      invariant first <= group < |z| && |out| == |z| && |inverse| == lanes && AllU52(inverse)
      invariant forall l :: 0 <= l < lanes ==> Same(Chain(z, active, l, first, group) * FVal(inverse[l]), 1)
      invariant forall g :: 0 <= g < |z| && (active[g] == {} || g <= group) ==> out[g] == previous[g]
      invariant forall g :: group < g < |z| && active[g] != {} ==> |out[g]| == lanes && AllU52(out[g])
      invariant forall g, l :: group < g < |z| && l in active[g] && |out[g]| == lanes ==> Same(FVal(out[g][l]) * FVal(z[g][l]), 1)
    {
      if active[group] == {} {
        forall l | 0 <= l < lanes
          ensures Same(Chain(z, active, l, first, group - 1) * FVal(inverse[l]), 1)
        {
          EmptyGroup(z, active, lanes, l, first, group);
        }
      } else {
        var reciprocal := MulLanes(inverse, prefix[group - 1]);
        SanitizedU52(z, active, lanes, group);
        var rest := MulLanes(inverse, Sanitized(z[group], active[group]));
        forall l | 0 <= l < lanes
          ensures Same(Chain(z, active, l, first, group - 1) * FVal(rest[l]), 1)
          ensures l in active[group] ==> Same(FVal(reciprocal[l]) * FVal(z[group][l]), 1)
        {
          StepChain(z, active, l, first, group);
          PeelGroup(Chain(z, active, l, first, group - 1), FVal(Sanitized(z[group], active[group])[l]), FVal(inverse[l]),
                    FVal(prefix[group - 1][l]), FVal(reciprocal[l]), FVal(rest[l]), P);
        }
        out := out[group := reciprocal];
        inverse := rest;
      }
      group := group - 1;
    }
    forall l | l in active[first]
      ensures Same(FVal(inverse[l]) * FVal(z[first][l]), 1)
    {
      LastGroup(z, active, lanes, l, first, FVal(inverse[l]));
    }
    out := out[first := inverse];
  }

  lemma SwapFactor(a: int, b: int, t: int)
    requires Same(a, b) && Same(a * t, 1)
    ensures Same(b * t, 1)
  {
    hide Congruent;
    CongruentMul(a, b, t, P);
    assert t * a == a * t && t * b == b * t;
    CongruentSym(a * t, b * t, P);
    CongruentTrans(b * t, a * t, 1, P);
  }

  lemma StepChain(z: seq<Lanes>, active: seq<set<nat>>, l: nat, first: nat, g: nat)
    requires first < g < |z| && (forall i :: 0 <= i < |z| ==> l < |z[i]|) && |active| == |z|
    ensures Chain(z, active, l, first, g) == Chain(z, active, l, first, g - 1) * FVal(Sanitized(z[g], active[g])[l])
  {
    hide FVal;
  }

  /** One backward step in one lane: c is the product still to come, v the factor taken off. */
  lemma PeelGroup(c: int, v: int, inverse: int, prefix: int, reciprocal: int, rest: int, p: nat)
    requires Congruent(c * v * inverse, 1, p) && Congruent(prefix, c, p)
    requires Congruent(reciprocal, inverse * prefix, p) && Congruent(rest, inverse * v, p)
    ensures Congruent(c * rest, 1, p) && Congruent(reciprocal * v, 1, p)
  {
    hide Congruent;
    CongruentMul(rest, inverse * v, c, p);
    assert c * (inverse * v) == (c * v) * inverse;
    CongruentTrans(c * rest, c * (inverse * v), 1, p);
    CongruentMul(prefix, c, inverse, p);
    CongruentTrans(reciprocal, inverse * prefix, inverse * c, p);
    CongruentMul(reciprocal, inverse * c, v, p);
    assert v * reciprocal == reciprocal * v && v * (inverse * c) == (c * v) * inverse;
    CongruentTrans(reciprocal * v, v * (inverse * c), 1, p);
  }

  lemma LastGroup(z: seq<Lanes>, active: seq<set<nat>>, lanes: nat, l: nat, first: nat, inverse: int)
    requires Groups(z, active, lanes) && first < |z| && l < lanes && l in active[first]
    requires Same(Chain(z, active, l, first, first) * inverse, 1)
    ensures Same(inverse * FVal(z[first][l]), 1)
  {
    hide FVal;
    assert Chain(z, active, l, first, first) == FVal(z[first][l]);
    var v := FVal(z[first][l]);
    assert v * inverse == inverse * v;
  }
}
