/** NewPubkeyTable (internal/edwards25519/comb.go:24-68): 256 multiples in extended coordinates, one shared
    inversion of all their Z, and the affine comb table it leaves; and the agreement of the two
    multiplications over the tables their own builders make. The field package is modelled by its residues. */
module EdwardsTable {
  import opened Arith
  import opened Bytes
  import opened GroupTheory
  import opened FieldLimbs
  import opened Unit
  import opened Fermat
  import opened BatchInvert
  import opened EdwardsMult

  /** Point: extended coordinates (section 5.1.4 of RFC 8032), as field residues. */
  datatype Extended = Extended(x: int, y: int, z: int, t: int)

  /** affineCached. */
  datatype Cached = Cached(yPlusX: int, yMinusX: int, t2d: int)

  function FieldMul(a: int, b: int): (r: int)
    ensures 0 <= r < P && Same(r, a * b)
  {
    CongruentMod(a * b, P);
    CongruentSym(a * b, (a * b) % P, P);
    (a * b) % P
  }

  /** (y+x)/z, (y-x)/z and 2d*t/z, with zi the reciprocal of z. */
  ghost predicate AffineBy(c: Cached, p: Extended, d2: int, zi: int) {
    && Same(zi * p.z, 1)
    && Same(c.yPlusX, (p.y + p.x) * zi) && Same(c.yMinusX, (p.y - p.x) * zi) && Same(c.t2d, (p.t * d2) * zi)
    && 0 <= c.yPlusX < P && 0 <= c.yMinusX < P && 0 <= c.t2d < P
  }

  // ---------------------------------------------------------------- the shared inversion

  /** The product of the first n Z coordinates. */
  ghost function Prefix(pts: seq<Extended>, n: nat): int
    requires n <= |pts|
  {
    if n == 0 then 1 else Prefix(pts, n - 1) * pts[n - 1].z
  }

  ghost predicate Finite(pts: seq<Extended>) {
    forall i :: 0 <= i < |pts| ==> pts[i].z % P != 0
  }

  /** Forward pass: acc[i] is the product of the Z before i; the whole product is not zero. */
  method PrefixProducts(pts: seq<Extended>) returns (acc: seq<int>, prod: int)
    requires IsPrime(P) && Finite(pts)
    ensures |acc| == |pts| && forall i :: 0 <= i < |acc| ==> Same(acc[i], Prefix(pts, i))
    ensures 0 < prod < P && Same(prod, Prefix(pts, |pts|))
  {
    hide Congruent, IsPrime;
    acc, prod := [], 1;
    SameSelf(1);
    for i := 0 to |pts|
      invariant |acc| == i && forall j :: 0 <= j < i ==> Same(acc[j], Prefix(pts, j))
      invariant 0 < prod < P && Same(prod, Prefix(pts, i))
    {
      acc := acc + [prod];
      ghost var prefix, z := Prefix(pts, i), pts[i].z;
      assert z % P != 0;
      DivUnique(prod, P, 0, prod);
      ProductZero(prod, z);
      CongruentMul(prod, prefix, z, P);
      assert z * prod == prod * z && z * prefix == prefix * z;
      CongruentTrans(FieldMul(prod, z), prod * z, prefix * z, P);
      prod := FieldMul(prod, pts[i].z);
    }
  }

  lemma SameSelf(a: int)
    ensures Same(a, a)
  {
    CongruentBy(a, a, P, 0);
  }

  /** Element.Invert by its contract. */
  function FieldInvert(a: int): (r: int)
    ensures 0 <= r < P && Same(r, Power(a, P - 2))
  {
    CongruentMod(Power(a, P - 2), P);
    CongruentSym(Power(a, P - 2), Power(a, P - 2) % P, P);
    Power(a, P - 2) % P
  }

  lemma Inverts(prod: int, total: int, inv: int, p: nat)
    requires IsPrime(p) && 0 < prod < p && Congruent(prod, total, p) && Congruent(inv, Power(prod, p - 2), p)
    ensures Congruent(inv * total, 1, p)
  {
    hide IsPrime, Congruent, Power;
    DivUnique(prod, p, 0, prod);
    Reciprocal(prod, inv, p);
    CongruentSym(prod, total, p);
    CongruentMul(total, prod, inv, p);
    assert inv * prod == prod * inv;
    CongruentTrans(inv * total, inv * prod, 1, p);
  }

  /** The backward loop: inv is the reciprocal of the product of the Z still to come, so every zInv is the
      reciprocal of its own Z, and every stored triple is that of its own point. */
  method ToAffine(pts: seq<Extended>, d2: int) returns (t: seq<Cached>, ghost zInvs: seq<int>)
    requires IsPrime(P) && Finite(pts)
    ensures |t| == |zInvs| == |pts|
    ensures forall i :: 0 <= i < |pts| ==> AffineBy(t[i], pts[i], d2, zInvs[i])
  {
    hide Congruent, IsPrime, AffineBy, FieldMul, FieldInvert;
    var acc, prod := PrefixProducts(pts);
    var inv := FieldInvert(prod);
    Inverts(prod, Prefix(pts, |pts|), inv, P);
    t, zInvs := [], [];
    var i := |pts|;
    while i > 0
      invariant 0 <= i <= |pts| && |t| == |zInvs| == |pts| - i
      invariant Same(inv * Prefix(pts, i), 1)
      invariant forall j :: i <= j < |pts| ==> AffineBy(t[j - i], pts[j], d2, zInvs[j - i])
    {
      i := i - 1;
      var zInv := FieldMul(inv, acc[i]);
      ghost var z, p := pts[i].z, Prefix(pts, i);
      assert Prefix(pts, i + 1) == p * z && p * z * inv == inv * (p * z);
      PeelGroup(p, z, inv, acc[i], zInv, FieldMul(inv, z), P);
      assert p * FieldMul(inv, z) == FieldMul(inv, z) * p;
      inv := FieldMul(inv, pts[i].z);
      var entry := Entry(pts[i], d2, zInv);
      t, zInvs := [entry] + t, [zInv] + zInvs;
    }
  }

  /** The stored triple: YplusX, YminusX and T2d, each scaled by the reciprocal. */
  method Entry(p: Extended, d2: int, zInv: int) returns (c: Cached)
    requires Same(zInv * p.z, 1)
    ensures AffineBy(c, p, d2, zInv)
  {
    hide Same;
    var yPlusX, yMinusX, t2d := (p.y + p.x) % P, (p.y - p.x) % P, FieldMul(p.t, d2);
    Reduces(p.y + p.x);
    Reduces(p.y - p.x);
    Scales(yPlusX, p.y + p.x, zInv);
    Scales(yMinusX, p.y - p.x, zInv);
    Scales(t2d, p.t * d2, zInv);
    c := Cached(FieldMul(yPlusX, zInv), FieldMul(yMinusX, zInv), FieldMul(t2d, zInv));
  }

  lemma Reduces(a: int)
    ensures Same(a % P, a)
  {
    CongruentMod(a, P);
    CongruentSym(a, a % P, P);
  }

  lemma Scales(a: int, b: int, zInv: int)
    requires Same(a, b)
    ensures Same(FieldMul(a, zInv), b * zInv)
  {
    hide Congruent;
    CongruentMul(a, b, zInv, P);
    assert zInv * a == a * zInv && zInv * b == b * zInv;
    CongruentTrans(FieldMul(a, zInv), a * zInv, b * zInv, P);
  }

  // ---------------------------------------------------------------- the table

  /** Which coordinates are points of the curve, the point they denote, addition, and the point a cached
      triple stands for. */
  datatype Curve<!G(!new)> = Curve(g: Group<G>, d2: int, valid: Extended -> bool, point: Extended -> G,
                                   add: (Extended, Extended) -> Extended, cached: Cached -> G)

  ghost predicate Faithful<G(!new)>(c: Curve<G>) {
    && Abelian(c.g)
    && (forall p :: c.valid(p) ==> p.z % P != 0)
    && (forall p, q :: c.valid(p) && c.valid(q) ==> c.valid(c.add(p, q)) && c.point(c.add(p, q)) == c.g.add(c.point(p), c.point(q)))
    && (forall p, k, zi :: c.valid(p) && AffineBy(k, p, c.d2, zi) ==> c.cached(k) == c.point(p))
  }

  /** Eight multiples of q. */
  method MultiplesOf<G(!new)>(c: Curve<G>, q: Extended) returns (row: seq<Extended>)
    requires Faithful(c) && c.valid(q)
    ensures |row| == 8
    ensures forall j :: 0 <= j < 8 ==> c.valid(row[j]) && c.point(row[j]) == Mul(c.g, j + 1, c.point(q))
  {
    hide Abelian, Mul, AffineBy;
    row := [q];
    MulZeroOne(c.g, c.point(q));
    for j := 1 to 8
      invariant |row| == j
      invariant forall i :: 0 <= i < j ==> c.valid(row[i]) && c.point(row[i]) == Mul(c.g, i + 1, c.point(q))
    {
      MulSucc(c.g, j, c.point(q));
      row := row + [c.add(row[j - 1], q)];
    }
  }

  /** Eight doublings. */
  method TwoFiftySix<G(!new)>(c: Curve<G>, q: Extended) returns (r: Extended)
    requires Faithful(c) && c.valid(q)
    ensures c.valid(r) && c.point(r) == Mul(c.g, Pow2(8), c.point(q))
  {
    hide Abelian, Mul, Pow2, AffineBy;
    r := q;
    MulZeroOne(c.g, c.point(q));
    PowZero();
    for j := 0 to 8
      invariant c.valid(r) && c.point(r) == Mul(c.g, Pow2(j), c.point(q))
    {
      r := c.add(r, r);
      Doubled(c.g, j, c.point(q));
    }
  }

  lemma PowZero()
    ensures Pow2(0) == 1
  {}

  lemma Doubled<G(!new)>(g: Group<G>, j: nat, q: G)
    requires Abelian(g)
    ensures g.add(Mul(g, Pow2(j), q), Mul(g, Pow2(j), q)) == Mul(g, Pow2(j + 1), q)
  {
    hide Abelian, Mul, Pow2;
    Pow2Double(j);
    MulAdd(g, Pow2(j), Pow2(j), q);
  }

  /** All 256 multiples (j+1)*256^i*P; the base is not advanced after the last row. */
  method AllMultiples<G(!new)>(c: Curve<G>, p: Extended) returns (pts: seq<Extended>)
    requires Faithful(c) && c.valid(p)
    ensures |pts| == 256
    ensures forall r :: 0 <= r < 256 ==> c.valid(pts[r]) && c.point(pts[r]) == Mul(c.g, r % 8 + 1, Mul(c.g, Pow2(8 * (r / 8)), c.point(p)))
  {
    hide Mul, Pow2, Faithful;
    AbelianOf(c);
    pts := [];
    var q := p;
    FirstRow(c.g, c.point(p));
    for i := 0 to 32
      invariant |pts| == 8 * i && (i < 32 ==> c.valid(q) && c.point(q) == Mul(c.g, Pow2(8 * i), c.point(p)))
      invariant forall r :: 0 <= r < 8 * i ==> c.valid(pts[r]) && c.point(pts[r]) == Mul(c.g, r % 8 + 1, Mul(c.g, Pow2(8 * (r / 8)), c.point(p)))
    {
      var row := MultiplesOf(c, q);
      forall r | 8 * i <= r < 8 * i + 8
        ensures r / 8 == i && (pts + row)[r] == row[r % 8]
      {}
      pts := pts + row;
      if i + 1 < 32 {
        q := TwoFiftySix(c, q);
        NextRow(c.g, c.point(p), i);
      }
    }
  }

  lemma AbelianOf<G(!new)>(c: Curve<G>)
    requires Faithful(c)
    ensures Abelian(c.g)
  {}

  lemma CachedPoints<G(!new)>(c: Curve<G>, pts: seq<Extended>, flat: seq<Cached>, zInvs: seq<int>)
    requires Faithful(c) && |flat| == |pts| == |zInvs| && forall i :: 0 <= i < |pts| ==> c.valid(pts[i])
    requires forall i :: 0 <= i < |pts| ==> AffineBy(flat[i], pts[i], c.d2, zInvs[i])
    ensures forall i :: 0 <= i < |pts| ==> c.cached(flat[i]) == c.point(pts[i])
  {
    hide AffineBy;
  }

  lemma AllFinite<G(!new)>(c: Curve<G>, pts: seq<Extended>)
    requires Faithful(c) && forall r :: 0 <= r < |pts| ==> c.valid(pts[r])
    ensures Finite(pts)
  {
    hide AffineBy, Abelian;
  }

  /** The points a cached table stands for. */
  function PointsOf<G(!new)>(c: Curve<G>, table: seq<seq<Cached>>): (rows: seq<seq<G>>)
    ensures |rows| == |table|
    ensures forall i :: 0 <= i < |table| ==> |rows[i]| == |table[i]|
    ensures forall i, j :: 0 <= i < |table| && 0 <= j < |table[i]| ==> rows[i][j] == c.cached(table[i][j])
  {
    seq(|table|, i requires 0 <= i < |table| => seq(|table[i]|, j requires 0 <= j < |table[i]| => c.cached(table[i][j])))
  }

  /** NewPubkeyTable: the batch-inverted table holds exactly the multiples the comb reads. */
  method NewPubkeyTable<G(!new)>(c: Curve<G>, p: Extended) returns (table: seq<seq<Cached>>)
    requires IsPrime(P) && Faithful(c) && c.valid(p)
    ensures |table| == 32 && CombTable(c.g, PointsOf(c, table), c.point(p))
  {
    hide Mul, Pow2, Faithful, IsPrime, Finite, AffineBy;
    var pts := AllMultiples(c, p);
    AllFinite(c, pts);
    var flat, zInvs := ToAffine(pts, c.d2);
    CachedPoints(c, pts, flat, zInvs);
    table := seq(32, i requires 0 <= i < 32 && |flat| == 256 => flat[8 * i..8 * i + 8]);
    forall i | 0 <= i < 32
      ensures |PointsOf(c, table)[i]| == 8 && Row(c.g, PointsOf(c, table)[i], Mul(c.g, Pow2(8 * i), c.point(p)))
    {
      forall j | 0 <= j < 8 ensures PointsOf(c, table)[i][j] == Mul(c.g, j + 1, Mul(c.g, Pow2(8 * i), c.point(p))) {
        assert table[i][j] == flat[8 * i + j] && (8 * i + j) % 8 == j && (8 * i + j) / 8 == i;
      }
    }
  }

  /** The NAF chain and the comb over the batch-inverted table agree on every pair of scalars and points. */
  method Agree<G(!new)>(c: Curve<G>, a: Bytes32, A: Extended, b: Bytes32, B: G) returns (naf: G, comb: G)
    requires IsPrime(P) && Faithful(c) && c.valid(A) && a[31] <= 127 && b[31] <= 127
    ensures naf == comb == c.g.add(Mul(c.g, LeValue(a), c.point(A)), Mul(c.g, LeValue(b), B))
  {
    hide Mul, OddMultiples, CombTable, Faithful, IsPrime;
    AbelianOf(c);
    var aOdd := BuildOdd(c.g, c.point(A), 8);
    var bOdd := BuildOdd(c.g, B, 64);
    naf := NafChain(c.g, a, aOdd, b, bOdd, c.point(A), B);
    var aComb := NewPubkeyTable(c, A);
    var bComb := BuildBasepointTable(c.g, B);
    comb := CombMult(c.g, a, PointsOf(c, aComb), b, bComb, c.point(A), B);
  }
}
