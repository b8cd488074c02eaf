/** Literal encoding of projective points and the y-first comparator
    (internal/r51x5/batch_encode_ifma.go, internal/r51x5/batch_compare_ifma.go); the encoding is that of
    section 5.1.2 of RFC 8032. */
module BatchCompare {
  import opened Arith
  import opened Bytes
  import opened FieldLimbs
  import opened FieldStage
  import opened FieldBytes
  import opened BatchInvert
  import opened HeeaProduct
  import opened Fermat
  import opened Unit

  /** b is the compressed encoding of the point X/Z, Y/Z: y in the low 255 bits, the parity of x on top. */
  ghost predicate Encodes(b: Bytes32, X: int, Y: int, Z: int) {
    exists x, y :: Affine(x, y, X, Y, Z) && LeValue(b) == y + T255 * (x % 2)
  }

  ghost predicate Affine(x: int, y: int, X: int, Y: int, Z: int) {
    0 <= x < P && 0 <= y < P && Same(Z * x, X) && Same(Z * y, Y)
  }

  lemma {:induction false} LeInjective(a: seq<u8>, b: seq<u8>)
    requires |a| == |b| && LeValue(a) == LeValue(b)
    ensures a == b
  {
    if |a| > 0 {
      var s, t := LeValue(a[1..]), LeValue(b[1..]);
      assert a[0] - b[0] == 256 * (t - s);
      LeInjective(a[1..], b[1..]);
      assert a == [a[0]] + a[1..] && b == [b[0]] + b[1..];
    }
  }

  /** Quotients by a nonzero Z are unique residues of a prime. */
  lemma QuotientUnique(p: nat, x: int, x': int, X: int, Z: nat)
    requires IsPrime(p) && Z % p != 0 && 0 <= x < p && 0 <= x' < p && Congruent(Z * x, X, p) && Congruent(Z * x', X, p)
    ensures x == x'
  {
    hide Congruent, IsPrime;
    if Divides(p, Z) { DividesMod(p, Z); }
    CongruentSym(Z * x', X, p);
    CongruentTrans(Z * x, X, Z * x', p);
    CancelFactor(p, Z, x, x');
    CongruentUnique(x, x', p);
  }

  /** A point with nonzero Z has exactly one encoding. */
  lemma EncodingUnique(a: Bytes32, b: Bytes32, X: int, Y: int, Z: nat)
    requires IsPrime(P) && Z % P != 0 && Encodes(a, X, Y, Z) && Encodes(b, X, Y, Z)
    ensures a == b
  {
    hide LeValue, IsPrime, Congruent;
    var x, y :| Affine(x, y, X, Y, Z) && LeValue(a) == y + T255 * (x % 2);
    var u, v :| Affine(u, v, X, Y, Z) && LeValue(b) == v + T255 * (u % 2);
    QuotientUnique(P, x, u, X, Z);
    QuotientUnique(P, y, v, Y, Z);
    LeInjective(a, b);
  }

  /** Multiplying by a reciprocal divides. */
  lemma DivideBy(X: int, Z: int, inverse: int, product: int, r: int)
    requires Same(inverse * Z, 1) && Same(product, X * inverse) && r == product % P
    ensures Same(Z * r, X) && 0 <= r < P
  {
    hide Congruent;
    CongruentMod(product, P);
    CongruentSym(product, r, P);
    CongruentTrans(r, product, X * inverse, P);
    CongruentMul(r, X * inverse, Z, P);
    assert Z * (X * inverse) == X * (inverse * Z);
    CongruentMul(inverse * Z, 1, X, P);
    CongruentTrans(Z * r, Z * (X * inverse), X * 1, P);
    DivMod(product, P);
  }

  // ---------------------------------------------------------------- literal encoding

  /** encodeAffineIFMA in one lane. */
  method EncodeLane(X: Limbs, Y: Limbs, Z: Limbs, inverse: Limbs) returns (encoded: Bytes32)
    requires U52(X) && U52(Y) && U52(Z) && U52(inverse) && Same(FVal(inverse) * FVal(Z), 1)
    ensures Encodes(encoded, FVal(X), FVal(Y), FVal(Z))
  {
    hide FVal, Same, LeValue;
    var xProduct, xOk := MultiplyComposable(X, inverse);
    var yProduct, yOk := MultiplyComposable(Y, inverse);
    var x := ReduceU52(xProduct);
    var y := ReduceU52(yProduct);
    DivideBy(FVal(X), FVal(Z), FVal(inverse), FVal(xProduct), FVal(x));
    DivideBy(FVal(Y), FVal(Z), FVal(inverse), FVal(yProduct), FVal(y));
    encoded := ElementBytes(y);
    TopBit(encoded);
    LowLimbParity(x);
    if x[0] % 2 == 1 {
      SetTopBit(encoded);
      encoded := encoded[31 := encoded[31] + 128];
    }
    assert Affine(FVal(x), FVal(y), FVal(X), FVal(Y), FVal(Z)) && LeValue(encoded) == FVal(y) + T255 * (FVal(x) % 2);
  }

  lemma LowLimbParity(x: seq<int>)
    requires |x| == 5
    ensures FVal(x) % 2 == x[0] % 2
  {}

  lemma SetTopBit(b: Bytes32)
    requires b[31] < 128
    ensures LeValue(b[31 := b[31] + 128]) == LeValue(b) + T255
  {
    hide LeValue;
    var c := b[31 := b[31] + 128];
    TopByteSplit(b);
    TopByteSplit(c);
    assert c[..31] == b[..31];
    TopWeight(b[31]);
  }

  lemma TopWeight(x: int)
    ensures Pow2(8 * 31) * (x + 128) == Pow2(8 * 31) * x + T255
  {
    hide Pow2;
    Pow51();
    Pow2Add(248, 7);
    SevenBits();
  }

  lemma SevenBits()
    ensures Pow2(7) == 128
  {}

  /** The X, Y and Z coordinates of a vector of points. */
  datatype PointLanes = PointLanes(X: Lanes, Y: Lanes, Z: Lanes)

  ghost predicate InRange(p: PointLanes, lanes: nat) {
    |p.X| == |p.Y| == |p.Z| == lanes && AllU52(p.X) && AllU52(p.Y) && AllU52(p.Z)
  }

  ghost predicate Batch(points: seq<PointLanes>, active: seq<set<nat>>, lanes: nat) {
    && |points| == |active| && 1 <= |points| <= MAX_GROUPS
    && (forall g :: 0 <= g < |points| ==> InRange(points[g], lanes))
    && (forall g :: 0 <= g < |points| ==> forall l :: l in active[g] ==> l < lanes)
  }

  function ZLanes(points: seq<PointLanes>): (z: seq<Lanes>)
    ensures |z| == |points| && forall g :: 0 <= g < |points| ==> z[g] == points[g].Z
  {
    seq(|points|, g requires 0 <= g < |points| => points[g].Z)
  }

  lemma BatchGroups(points: seq<PointLanes>, active: seq<set<nat>>, lanes: nat, mask: seq<set<nat>>)
    requires Batch(points, active, lanes) && |mask| == |active| && forall g :: 0 <= g < |active| ==> mask[g] <= active[g]
    ensures Groups(ZLanes(points), mask, lanes)
  {
    hide U52;
  }

  ghost predicate LaneEncodes(b: Bytes32, p: PointLanes, l: nat)
    requires l < |p.X| && l < |p.Y| && l < |p.Z|
  {
    Encodes(b, FVal(p.X[l]), FVal(p.Y[l]), FVal(p.Z[l]))
  }

  /** ExperimentalIFMABatchEncodeWorkspace.Encode: the literal encoding in every active lane. */
  method BatchEncode(points: seq<PointLanes>, active: seq<set<nat>>, lanes: nat)
    returns (out: seq<seq<Bytes32>>, zeroZ: bool)
    requires IsPrime(P) && Batch(points, active, lanes)
    ensures zeroZ <==> exists g, l :: 0 <= g < |points| && l in active[g] && FVal(points[g].Z[l]) % P == 0
    ensures !zeroZ ==> |out| == |points| && forall g :: 0 <= g < |points| ==> |out[g]| == lanes
    ensures !zeroZ ==> forall g, l :: 0 <= g < |points| && 0 <= l < lanes ==>
      if l in active[g] then LaneEncodes(out[g][l], points[g], l) else out[g][l] == Zero32
  {
    hide FVal, U52, IsPrime, Encodes, Same;
    BatchGroups(points, active, lanes, active);
    var inverseZ;
    inverseZ, zeroZ := BatchInvertZ(ZLanes(points), active, lanes, seq(|points|, _ => []));
    out := [];
    if zeroZ {
      return;
    }
    for g := 0 to |points|
      invariant |out| == g && forall i :: 0 <= i < g ==> |out[i]| == lanes
      invariant forall i, l :: 0 <= i < g && 0 <= l < lanes ==>
        if l in active[i] then LaneEncodes(out[i][l], points[i], l) else out[i][l] == Zero32
    {
      var row := EncodeGroup(points[g], inverseZ[g], active[g], lanes);
      out := out + [row];
    }
  }

  method EncodeGroup(p: PointLanes, inverse: Lanes, active: set<nat>, lanes: nat) returns (row: seq<Bytes32>)
    requires InRange(p, lanes) && forall l :: l in active ==> l < lanes
    requires active != {} ==> |inverse| == lanes && AllU52(inverse)
    requires forall l :: l in active && |inverse| == lanes ==> Same(FVal(inverse[l]) * FVal(p.Z[l]), 1)
    ensures |row| == lanes
    ensures forall l :: 0 <= l < lanes ==> if l in active then LaneEncodes(row[l], p, l) else row[l] == Zero32
  {
    hide FVal, U52, Encodes, Same;
    row := [];
    for l := 0 to lanes
      invariant |row| == l
      invariant forall i :: 0 <= i < l ==> if i in active then LaneEncodes(row[i], p, i) else row[i] == Zero32
    {
      if l in active {
        var encoded := EncodeLane(p.X[l], p.Y[l], p.Z[l], inverse[l]);
        row := row + [encoded];
      } else {
        row := row + [Zero32];
      }
    }
  }

  // ---------------------------------------------------------------- the y-first comparator

  /** canonicalCompressedY in one lane: the sign bit, and y if the low 255 bits are below p. */
  method CanonicalY(b: Bytes32) returns (y: Limbs, canonical: bool, sign: bool)
    ensures sign <==> LeValue(b) >= T255
    ensures canonical <==> LeValue(b) % T255 < P
    ensures canonical ==> Reduced(y) && FVal(y) == LeValue(b) % T255
  {
    hide LeValue, FVal;
    TopBit(b);
    sign := b[31] / 128 == 1;
    var candidate: Bytes32 := b[31 := b[31] % 128];
    ClearTopBit(b);
    y, canonical := SetCanonicalBytes(candidate);
  }

  lemma ClearTopBit(b: Bytes32)
    ensures LeValue(b[31 := b[31] % 128]) == LeValue(b) % T255
  {
    hide LeValue;
    var c: Bytes32 := b[31 := b[31] % 128];
    TopBit(b);
    TopBit(c);
    if b[31] >= 128 {
      SetTopBit(c);
      assert c[31 := c[31] + 128] == b;
      DivUnique(LeValue(b), T255, 1, LeValue(c));
    } else {
      assert c == b;
      DivUnique(LeValue(b), T255, 0, LeValue(b));
    }
  }

  /** Y == y*Z in the field, decided without inverting. */
  method ProjectiveYMatches(y: Limbs, Y: Limbs, Z: Limbs) returns (same: bool)
    requires Reduced(y) && U52(Y) && U52(Z)
    ensures same <==> Same(FVal(Z) * FVal(y), FVal(Y))
  {
    hide FVal, Same;
    ReducedIsU52(y);
    var scaled, ok := MultiplyComposable(y, Z);
    var difference := Subtract(Y, scaled);
    same := IsZeroLane(difference);
    DifferenceZero(FVal(difference), FVal(Y), FVal(scaled), FVal(y), FVal(Z));
  }

  lemma ReducedIsU52(y: seq<int>)
    requires Reduced(y)
    ensures U52(y)
  {}

  lemma DifferenceZero(d: int, Y: int, s: int, y: int, Z: int)
    requires Same(d, Y - s) && Same(s, y * Z)
    ensures d % P == 0 <==> Same(Z * y, Y)
  {
    var m := CongruentWitness(d, Y - s, P);
    var n := CongruentWitness(s, y * Z, P);
    assert y * Z == Z * y;
    if d % P == 0 {
      DivMod(d, P);
      SameBy(Z * y, Y, m - n - d / P);
    }
    if Same(Z * y, Y) {
      var k := CongruentWitness(Z * y, Y, P);
      DivUnique(d, P, m - n - k, 0);
    }
  }

  /** What one surviving lane decides: the mask equals the literal predicate. */
  lemma SignDecides(b: Bytes32, X: int, Y: int, Z: nat, x: int)
    requires IsPrime(P) && Z % P != 0 && LeValue(b) % T255 < P && Same(Z * (LeValue(b) % T255), Y)
    requires 0 <= x < P && Same(Z * x, X)
    ensures (x % 2 == 1 <==> LeValue(b) >= T255) <==> Encodes(b, X, Y, Z)
  {
    hide LeValue, IsPrime, Congruent;
    TopBit(b);
    var v := LeValue(b);
    var y := v % T255;
    if v >= T255 { DivUnique(v, T255, 1, v - T255); } else { DivUnique(v, T255, 0, v); }
    assert Affine(x, y, X, Y, Z);
    if x % 2 == 1 <==> v >= T255 {
      assert v == y + T255 * (x % 2);
    }
    if Encodes(b, X, Y, Z) {
      var u, w :| Affine(u, w, X, Y, Z) && v == w + T255 * (u % 2);
      QuotientUnique(P, x, u, X, Z);
    }
  }

  /** A lane that fails the projective y comparison is not the encoding. */
  lemma NoSurvivor(b: Bytes32, X: int, Y: int, Z: int)
    requires Encodes(b, X, Y, Z)
    ensures LeValue(b) % T255 < P && Same(Z * (LeValue(b) % T255), Y)
  {
    hide LeValue, Same;
    var x, y :| Affine(x, y, X, Y, Z) && LeValue(b) == y + T255 * (x % 2);
    DivUnique(LeValue(b), T255, x % 2, y);
  }

  /** Lane l of group g passed the projective comparison. */
  ghost predicate Survives(b: Bytes32, p: PointLanes, l: nat)
    requires l < |p.Y| && l < |p.Z|
  {
    LeValue(b) % T255 < P && Same(FVal(p.Z[l]) * (LeValue(b) % T255), FVal(p.Y[l]))
  }

  method Survivors(p: PointLanes, active: set<nat>, encoded: seq<Bytes32>, lanes: nat)
    returns (survivors: set<nat>, signs: set<nat>)
    requires InRange(p, lanes) && |encoded| == lanes && forall l :: l in active ==> l < lanes
    ensures forall l :: l in survivors <==> l in active && Survives(encoded[l], p, l)
    ensures forall l :: l in signs <==> l in active && LeValue(encoded[l]) >= T255
  {
    hide FVal, LeValue, Same, U52, Reduced;
    survivors, signs := {}, {};
    for l := 0 to lanes
      invariant forall i :: i in survivors <==> i in active && i < l && Survives(encoded[i], p, i)
      invariant forall i :: i in signs <==> i in active && i < l && LeValue(encoded[i]) >= T255
    {
      if l in active {
        var y, canonical, sign := CanonicalY(encoded[l]);
        if sign {
          signs := signs + {l};
        }
        if canonical {
          var same := ProjectiveYMatches(y, p.Y[l], p.Z[l]);
          if same {
            survivors := survivors + {l};
          }
        }
      }
    }
  }

  /** The surviving lanes whose recovered x has the requested sign. */
  method CheckSigns(p: PointLanes, inverse: Lanes, survivors: set<nat>, signs: set<nat>, encoded: seq<Bytes32>, lanes: nat)
    returns (matches: set<nat>)
    requires IsPrime(P) && InRange(p, lanes) && |encoded| == lanes && forall l :: l in survivors ==> l < lanes
    requires survivors != {} ==> |inverse| == lanes && AllU52(inverse)
    requires forall l :: l in survivors && |inverse| == lanes ==> Same(FVal(inverse[l]) * FVal(p.Z[l]), 1)
    requires forall l :: l in survivors ==> Survives(encoded[l], p, l) && FVal(p.Z[l]) % P != 0
    requires forall l :: l in survivors ==> (l in signs <==> LeValue(encoded[l]) >= T255)
    ensures forall l :: l in matches <==> l in survivors && LaneEncodes(encoded[l], p, l)
  {
    hide FVal, LeValue, Same, U52, IsPrime, Encodes;
    matches := {};
    for l := 0 to lanes
      invariant forall i :: i in matches <==> i in survivors && i < l && LaneEncodes(encoded[i], p, i)
    {
      if l in survivors {
        var product, ok := MultiplyComposable(p.X[l], inverse[l]);
        var x := ReduceU52(product);
        DivideBy(FVal(p.X[l]), FVal(p.Z[l]), FVal(inverse[l]), FVal(product), FVal(x));
        LowLimbParity(x);
        NonNegative(p.Z[l]);
        SignDecides(encoded[l], FVal(p.X[l]), FVal(p.Y[l]), FVal(p.Z[l]), FVal(x));
        if (x[0] % 2 == 1) == (l in signs) {
          matches := matches + {l};
        }
      }
    }
  }

  lemma NonNegative(x: seq<int>)
    requires U52(x)
    ensures FVal(x) >= 0
  {}

  /** CompareCompressedYFirst: the mask is the literal predicate Encode(point) == bytes for every 32-byte
      string; the error is reported exactly when an active lane that survives the y test has Z zero. */
  method CompareYFirst(points: seq<PointLanes>, active: seq<set<nat>>, encoded: seq<seq<Bytes32>>, lanes: nat)
    returns (out: seq<set<nat>>, failed: bool)
    requires IsPrime(P) && Batch(points, active, lanes) && |encoded| == |points|
    requires forall g :: 0 <= g < |points| ==> |encoded[g]| == lanes
    ensures failed <==> exists g, l :: 0 <= g < |points| && l in active[g] && Survives(encoded[g][l], points[g], l) && FVal(points[g].Z[l]) % P == 0
    ensures !failed ==> |out| == |points|
    ensures !failed ==> forall g :: 0 <= g < |points| ==> out[g] <= active[g]
    ensures !failed ==> forall g, l :: 0 <= g < |points| && l in active[g] ==>
      (l in out[g] <==> FVal(points[g].Z[l]) % P != 0 && LaneEncodes(encoded[g][l], points[g], l))
  {
    hide FVal, LeValue, Same, U52, IsPrime, Encodes, Survives;
    var survivors, signs := GatherSurvivors(points, active, encoded, lanes);
    BatchGroups(points, active, lanes, survivors);
    out := [];
    var inverseZ, zeroZ := BatchInvertZ(ZLanes(points), survivors, lanes, seq(|points|, _ => []));
    if zeroZ {
      assert exists g, l :: 0 <= g < |points| && l in survivors[g] && FVal(ZLanes(points)[g][l]) % P == 0;
      return out, true;
    }
    forall g, l | 0 <= g < |points| && l in active[g] && Survives(encoded[g][l], points[g], l)
      ensures FVal(points[g].Z[l]) % P != 0
    {
      assert l in survivors[g] && FVal(ZLanes(points)[g][l]) % P != 0;
    }
    failed := false;
    for g := 0 to |points|
      invariant |out| == g
      invariant forall i :: 0 <= i < g ==> out[i] <= active[i]
      invariant forall i, l :: 0 <= i < g && l in active[i] ==>
        (l in out[i] <==> FVal(points[i].Z[l]) % P != 0 && LaneEncodes(encoded[i][l], points[i], l))
    {
      forall l | l in survivors[g]
        ensures FVal(points[g].Z[l]) % P != 0
      {
        assert FVal(ZLanes(points)[g][l]) % P != 0;
      }
      var matches := CheckSigns(points[g], inverseZ[g], survivors[g], signs[g], encoded[g], lanes);
      forall l | l in active[g]
        ensures l in matches <==> FVal(points[g].Z[l]) % P != 0 && LaneEncodes(encoded[g][l], points[g], l)
      {
        EncodedSurvives(encoded[g][l], points[g], l);
      }
      out := out + [matches];
    }
  }

  lemma EncodedSurvives(b: Bytes32, p: PointLanes, l: nat)
    requires l < |p.X| && l < |p.Y| && l < |p.Z|
    ensures LaneEncodes(b, p, l) ==> Survives(b, p, l)
  {
    hide FVal, LeValue, Encodes;
    if LaneEncodes(b, p, l) { NoSurvivor(b, FVal(p.X[l]), FVal(p.Y[l]), FVal(p.Z[l])); }
  }

  method GatherSurvivors(points: seq<PointLanes>, active: seq<set<nat>>, encoded: seq<seq<Bytes32>>, lanes: nat)
    returns (survivors: seq<set<nat>>, signs: seq<set<nat>>)
    requires Batch(points, active, lanes) && |encoded| == |points|
    requires forall g :: 0 <= g < |points| ==> |encoded[g]| == lanes
    ensures |survivors| == |points| && |signs| == |points|
    ensures forall g :: 0 <= g < |points| ==> survivors[g] <= active[g]
    ensures forall g, l :: 0 <= g < |points| && l in active[g] ==> (l in survivors[g] <==> Survives(encoded[g][l], points[g], l))
    ensures forall g, l :: 0 <= g < |points| && l in active[g] ==> (l in signs[g] <==> LeValue(encoded[g][l]) >= T255)
  {
    hide FVal, LeValue, Survives, U52;
    survivors, signs := [], [];
    for g := 0 to |points|
      invariant |survivors| == g && |signs| == g
      invariant forall i :: 0 <= i < g ==> survivors[i] <= active[i]
      invariant forall i, l :: 0 <= i < g && l in active[i] ==> (l in survivors[i] <==> Survives(encoded[i][l], points[i], l))
      invariant forall i, l :: 0 <= i < g && l in active[i] ==> (l in signs[i] <==> LeValue(encoded[i][l]) >= T255)
    {
      var kept, negative := Survivors(points[g], active[g], encoded[g], lanes);
      survivors, signs := survivors + [kept], signs + [negative];
    }
  }
}
