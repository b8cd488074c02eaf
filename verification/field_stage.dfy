/** One parallel carry/fold pass, the linear operations of the u52 domain, and the doubling and Niels
    stage-2 transitions with their biases of 535p, 1068p and 1069p. */
module FieldStage {
  import opened Arith
  import opened Words
  import opened FieldLimbs
  import opened FieldIfma

  const T53: int := 0x20_0000_0000_0000
  const T64: int := 0x1_0000_0000_0000_0000

  // ---------------------------------------------------------------- the carry pass

  /** Five carries taken from the original limbs, the top one folded back with weight 19. */
  function Carried(x: seq<int>): (out: seq<int>)
    requires |x| == 5
    ensures |out| == 5
  {
    [x[0] % T51 + 19 * (x[4] / T51), x[1] % T51 + x[0] / T51, x[2] % T51 + x[1] / T51,
     x[3] % T51 + x[2] / T51, x[4] % T51 + x[3] / T51]
  }

  /** The pass keeps the residue, and limbs below c*2^51 leave it below 2^51 + c (19c for limb zero). */
  lemma CarriedIs(x: seq<int>, c: nat)
    requires |x| == 5 && Below(x, c * T51) && c >= 1
    ensures Same(FVal(Carried(x)), FVal(x))
    ensures 0 <= Carried(x)[0] < T51 + 19 * c
    ensures forall i :: 1 <= i < 5 ==> 0 <= Carried(x)[i] < T51 + c
  {
    hide Same;
    forall i | 0 <= i < 5
      ensures x[i] == T51 * (x[i] / T51) + x[i] % T51 && 0 <= x[i] / T51 <= c - 1 && 0 <= x[i] % T51 < T51
    {
      CarryBound(x[i], c);
    }
    SameBy(FVal(Carried(x)), FVal(x), -(x[4] / T51));
  }

  lemma CarryBound(x: int, c: nat)
    requires 0 <= x < c * T51
    ensures x == T51 * (x / T51) + x % T51 && 0 <= x / T51 <= c - 1 && 0 <= x % T51 < T51
  {}

  /** Every limb at bit 51. */
  method SplitLimbs(x: seq<u64>, ghost c: nat) returns (carries: seq<u64>, masked: seq<u64>)
    requires |x| == 5 && 1 <= c <= 8192 && Below(x, c * T51)
    ensures |carries| == |masked| == 5
    ensures forall i :: 0 <= i < 5 ==> carries[i] == x[i] / T51 < 8192 && masked[i] == x[i] % T51 < T51
  {
    carries, masked := [0, 0, 0, 0, 0], [0, 0, 0, 0, 0];
    for limb := 0 to 5
      invariant |carries| == 5 && |masked| == 5
      invariant forall i :: 0 <= i < limb ==> carries[i] == x[i] / T51 < 8192 && masked[i] == x[i] % T51 < T51
    {
      carries := carries[limb := x[limb] / T51];
      masked := masked[limb := x[limb] % T51];
    }
  }

  /** The in-place carry loop of the stage-2 transitions and of normalizeIFMAProductLane. */
  method CarryPass(x: seq<u64>, ghost c: nat) returns (out: Limbs)
    requires |x| == 5 && 1 <= c <= 8192 && Below(x, c * T51)
    ensures out == Carried(x)
  {
    var carries, masked := SplitLimbs(x, c);
    var result := masked;
    for limb := 1 to 5
      invariant |result| == 5 && result[0] == masked[0]
      invariant forall i :: 1 <= i < limb ==> result[i] == masked[i] + carries[i - 1]
      invariant forall i :: limb <= i < 5 ==> result[i] == masked[i]
    {
      result := result[limb := result[limb] + carries[limb - 1]];
    }
    result := result[0 := result[0] + 19 * carries[4]];
    assert result == Carried(x);
    out := result;
  }

  /** normalizeIFMAProductLane: succeeds exactly below 2^61, and never trips its closing range check. */
  method NormalizeLane(x: Limbs) returns (out: Limbs, ok: bool)
    ensures ok <==> Below(x, T61)
    ensures ok ==> U52(out) && Same(FVal(out), FVal(x))
    ensures ok ==> out[0] < T51 + 19 * 1024 && forall i :: 1 <= i < 5 ==> out[i] < T51 + 1024
  {
    hide FVal, Same, Carried;
    out := [0, 0, 0, 0, 0];
    for limb := 0 to 5
      invariant forall i :: 0 <= i < limb ==> x[i] < T61
    {
      if x[limb] >= T61 {
        return out, false;
      }
    }
    assert T61 == 1024 * T51;
    out := CarryPass(x, 1024);
    CarriedIs(x, 1024);
    ok := out[0] < T51 + 19 * 1024 && out[0] < T52 && out[1] < T52 && out[2] < T52 && out[3] < T52 && out[4] < T52;
  }

  /** The composable product: defined exactly on u52 operands, closed over them. */
  method MultiplyComposable(x: Limbs, y: Limbs) returns (out: Limbs, ok: bool)
    ensures ok <==> U52(x) && U52(y)
    ensures ok ==> U52(out) && Same(FVal(out), FVal(x) * FVal(y))
  {
    hide FVal, Same;
    var xOk := IsU52(x);
    var yOk := IsU52(y);
    if !xOk || !yOk {
      return x, false;
    }
    var raw := LooseProduct(x, y);
    RawIsNarrow(raw);
    out, ok := NormalizeLane(raw);
    SameTrans(FVal(out), FVal(raw), FVal(x) * FVal(y));
  }

  lemma SameTrans(a: int, b: int, c: int)
    ensures Same(a, b) && Same(b, c) ==> Same(a, c)
  {
    if Same(a, b) && Same(b, c) { CongruentTrans(a, b, c, P); }
  }

  lemma RawIsNarrow(raw: seq<int>)
    requires RawProduct(raw)
    ensures Below(raw, T61) && Below(raw, 534 * T51)
  {}

  method IsU52(x: Limbs) returns (ok: bool)
    ensures ok <==> U52(x)
  {
    for limb := 0 to 5
      invariant forall i :: 0 <= i < limb ==> x[i] < T52
    {
      if x[limb] >= T52 {
        return false;
      }
    }
    return true;
  }

  // ---------------------------------------------------------------- linear operations

  /** ifmaSubtractionBias: limb i of 4p. */
  function Bias(i: nat): (b: u64)
    requires i < 5
    ensures b == 4 * MODULUS_LIMBS[i] && b >= 2 * T52 - 76
  {
    if i == 0 then 4 * T51 - 76 else 4 * T51 - 4
  }

  method Add(x: Limbs, y: Limbs) returns (z: Limbs)
    requires U52(x) && U52(y)
    ensures U52(z) && Same(FVal(z), FVal(x) + FVal(y))
  {
    var raw: seq<u64> := [x[0] + y[0], x[1] + y[1], x[2] + y[2], x[3] + y[3], x[4] + y[4]];
    z := CarryPass(raw, 4);
    CarriedIs(raw, 4);
  }

  lemma Differences(x: Limbs, y: Limbs, raw: Limbs)
    requires forall i :: 0 <= i < 5 ==> raw[i] == x[i] + Bias(i) - y[i]
    ensures FVal(raw) == FVal(x) - FVal(y) + 4 * P
  {}

  /** Adding 4p keeps every limb difference nonnegative and below 6*2^51. */
  method Subtract(x: Limbs, y: Limbs) returns (z: Limbs)
    requires U52(x) && U52(y)
    ensures U52(z) && Same(FVal(z), FVal(x) - FVal(y))
  {
    hide Same, FVal;
    var raw: seq<u64> := [x[0] + Bias(0) - y[0], x[1] + Bias(1) - y[1], x[2] + Bias(2) - y[2],
                          x[3] + Bias(3) - y[3], x[4] + Bias(4) - y[4]];
    z := CarryPass(raw, 6);
    CarriedIs(raw, 6);
    Differences(x, y, raw);
    BiasedBy(FVal(z), FVal(raw), FVal(x) - FVal(y), 4);
  }

  method Negate(x: Limbs) returns (z: Limbs)
    requires U52(x)
    ensures U52(z) && Same(FVal(z), -FVal(x))
  {
    hide Same;
    var raw: seq<u64> := [Bias(0) - x[0], Bias(1) - x[1], Bias(2) - x[2], Bias(3) - x[3], Bias(4) - x[4]];
    z := CarryPass(raw, 4);
    CarriedIs(raw, 4);
    BiasedBy(FVal(z), FVal(raw), -FVal(x), 4);
  }

  lemma BiasedBy(z: int, raw: int, v: int, m: int)
    requires Same(z, raw) && raw == v + m * P
    ensures Same(z, v)
  {
    SameBy(raw, v, m);
    CongruentTrans(z, raw, v, P);
  }

  // ---------------------------------------------------------------- stage 2 of doubling

  /** Limb i of p as the stages spell it. */
  function PLimb(i: nat): (p: u64)
    requires i < 5
    ensures p == MODULUS_LIMBS[i]
  {
    if i == 0 then T51 - 1 - 18 else T51 - 1
  }

  ghost predicate BiasCovers(n: nat) {
    forall a :: RawProduct(a) ==> forall i :: 0 <= i < 5 ==> n * PLimb(i) >= a[i]
  }

  /** 535p is the smallest multiple of p that covers every raw product limb by limb. */
  lemma BiasMinimal(n: nat)
    ensures BiasCovers(n) <==> n >= 535
  {
    if n >= 535 {
      forall a, i | RawProduct(a) && 0 <= i < 5 ensures n * PLimb(i) >= a[i] {
        MulMono(PLimb(i), 535, n);
      }
    } else {
      var a: seq<int> := [267 * T52 - 1, 0, 0, 0, 0];
      MulMono(PLimb(0), n, 534);
      assert RawProduct(a) && a[0] > n * PLimb(0);
    }
  }

  predicate StageEntry(ws: seq<seq<int>>) {
    |ws| == 4 && forall c :: 0 <= c < 4 ==> RawProduct(ws[c])
  }

  /** g = b + 535p - a, with the biases that keep f and h nonnegative too. */
  function WideG(a: seq<int>, b: seq<int>): (g: seq<int>)
    requires |a| == 5 && |b| == 5
  {
    seq(5, i requires 0 <= i < 5 => b[i] + 535 * MODULUS_LIMBS[i] - a[i])
  }

  function WideF(a: seq<int>, b: seq<int>, c: seq<int>): (f: seq<int>)
    requires |a| == 5 && |b| == 5 && |c| == 5
  {
    seq(5, i requires 0 <= i < 5 => b[i] + 535 * MODULUS_LIMBS[i] - a[i] + 1068 * MODULUS_LIMBS[i] - 2 * c[i])
  }

  function WideH(a: seq<int>, b: seq<int>): (h: seq<int>)
    requires |a| == 5 && |b| == 5
  {
    seq(5, i requires 0 <= i < 5 => 1069 * MODULUS_LIMBS[i] - a[i] - b[i])
  }

  function Doubled(e: seq<int>): (d: seq<int>)
    requires |e| == 5
  {
    seq(5, i requires 0 <= i < 5 => 2 * e[i])
  }

  /** No stage-2 limb underflows or reaches 2^63, and each vector denotes its formula plus a multiple of p. */
  lemma DoubleStageWide(a: seq<int>, b: seq<int>, c: seq<int>, e: seq<int>)
    requires RawProduct(a) && RawProduct(b) && RawProduct(c) && RawProduct(e)
    ensures Below(WideG(a, b), 1069 * T51) && FVal(WideG(a, b)) == FVal(b) - FVal(a) + 535 * P
    ensures Below(WideF(a, b, c), 2137 * T51)
    ensures FVal(WideF(a, b, c)) == FVal(b) - FVal(a) - 2 * FVal(c) + 1603 * P
    ensures Below(WideH(a, b), 1069 * T51) && FVal(WideH(a, b)) == -FVal(a) - FVal(b) + 1069 * P
    ensures Below(Doubled(e), 1068 * T51) && FVal(Doubled(e)) == 2 * FVal(e)
  {}

  /** ifmaDoubleStage2: [X^2, Y^2, Z^2, X*Y] becomes [E, F, G, H]. */
  method DoubleStage2(ws: array<Limbs>)
    requires ws.Length == 4 && StageEntry(ws[..])
    modifies ws
    ensures forall c :: 0 <= c < 4 ==> U52(ws[c])
    ensures Same(FVal(ws[0]), 2 * FVal(old(ws[3])))
    ensures Same(FVal(ws[1]), FVal(old(ws[1])) - FVal(old(ws[0])) - 2 * FVal(old(ws[2])))
    ensures Same(FVal(ws[2]), FVal(old(ws[1])) - FVal(old(ws[0])))
    ensures Same(FVal(ws[3]), -FVal(old(ws[0])) - FVal(old(ws[1])))
  {
    hide FVal, Same, Carried, WideG, WideF, WideH, Doubled, RawProduct;
    var a, b, c, e := ws[0], ws[1], ws[2], ws[3];
    DoubleStageWide(a, b, c, e);
    var wide := DoubleWide(a, b, c, e);
    ws[0] := Settle(wide[0], 1068, 2 * FVal(e), 0);
    ws[1] := Settle(wide[1], 2137, FVal(b) - FVal(a) - 2 * FVal(c), 1603);
    ws[2] := Settle(wide[2], 1069, FVal(b) - FVal(a), 535);
    ws[3] := Settle(wide[3], 1069, -FVal(a) - FVal(b), 1069);
  }

  /** Carry one wide vector into the u52 domain. */
  method Settle(wide: Limbs, ghost c: nat, ghost v: int, ghost m: int) returns (out: Limbs)
    requires 1 <= c <= 2137 && Below(wide, c * T51) && FVal(wide) == v + m * P
    ensures U52(out) && Same(FVal(out), v)
  {
    hide FVal, Same, Carried;
    out := CarryPass(wide, c);
    CarriedIs(wide, c);
    BiasedBy(FVal(out), FVal(wide), v, m);
  }

  /** The limb loop, in 64-bit words. */
  method DoubleWide(a: Limbs, b: Limbs, c: Limbs, e: Limbs) returns (wide: seq<Limbs>)
    requires RawProduct(a) && RawProduct(b) && RawProduct(c) && RawProduct(e)
    ensures |wide| == 4
    ensures wide[0] == Doubled(e) && wide[1] == WideF(a, b, c) && wide[2] == WideG(a, b) && wide[3] == WideH(a, b)
  {
    hide FVal;
    DoubleStageWide(a, b, c, e);
    var w0: seq<u64>, w1: seq<u64>, w2: seq<u64>, w3: seq<u64> := [], [], [], [];
    for limb := 0 to 5
      invariant |w0| == |w1| == |w2| == |w3| == limb
      invariant forall i :: 0 <= i < limb ==> w0[i] == Doubled(e)[i] && w1[i] == WideF(a, b, c)[i]
      invariant forall i :: 0 <= i < limb ==> w2[i] == WideG(a, b)[i] && w3[i] == WideH(a, b)[i]
    {
      var p := PLimb(limb);
      var g: u64 := b[limb] + 535 * p - a[limb];
      var biased: u64 := g + 1068 * p;
      var f: u64 := biased - 2 * c[limb];
      var h: u64 := 1069 * p - a[limb] - b[limb];
      w0, w1, w2, w3 := w0 + [2 * e[limb]], w1 + [f], w2 + [g], w3 + [h];
    }
    wide := [w0, w1, w2, w3];
  }

  /** The square-trick variant enters with (X+Y)^2 in the last slot. */
  method DoubleStage2SquareTrick(ws: array<Limbs>)
    requires ws.Length == 4 && StageEntry(ws[..])
    modifies ws
    ensures forall c :: 0 <= c < 4 ==> U52(ws[c])
    ensures Same(FVal(ws[0]), FVal(old(ws[3])) - FVal(old(ws[0])) - FVal(old(ws[1])))
    ensures Same(FVal(ws[1]), FVal(old(ws[1])) - FVal(old(ws[0])) - 2 * FVal(old(ws[2])))
    ensures Same(FVal(ws[2]), FVal(old(ws[1])) - FVal(old(ws[0])))
    ensures Same(FVal(ws[3]), -FVal(old(ws[0])) - FVal(old(ws[1])))
  {
    hide FVal, Same, Carried, WideG, WideF, WideH, Doubled, RawProduct;
    var a, b, c, s := ws[0], ws[1], ws[2], ws[3];
    DoubleStageWide(a, b, c, s);
    var wide := DoubleWide(a, b, c, s);
    var first := PlusSquare(wide[3], s);
    ws[0] := Settle(first, 1603, FVal(s) - FVal(a) - FVal(b), 1069);
    ws[1] := Settle(wide[1], 2137, FVal(b) - FVal(a) - 2 * FVal(c), 1603);
    ws[2] := Settle(wide[2], 1069, FVal(b) - FVal(a), 535);
    ws[3] := Settle(wide[3], 1069, -FVal(a) - FVal(b), 1069);
  }

  method PlusSquare(h: Limbs, s: Limbs) returns (out: Limbs)
    requires Below(h, 1069 * T51) && RawProduct(s)
    ensures Below(out, 1603 * T51) && FVal(out) == FVal(s) + FVal(h)
  {
    out := [s[0] + h[0], s[1] + h[1], s[2] + h[2], s[3] + h[3], s[4] + h[4]];
  }

  // ---------------------------------------------------------------- stage 2 of mixed addition

  /** ifmaNielsStage2: [A, B, C, D] becomes [B-A, 2D-C, 2D+C, B+A]; D may be raw or composable. */
  method NielsStage2(ws: array<Limbs>)
    requires ws.Length == 4 && RawProduct(ws[0]) && RawProduct(ws[1]) && RawProduct(ws[2])
    requires RawProduct(ws[3]) || U52(ws[3])
    modifies ws
    ensures forall c :: 0 <= c < 4 ==> U52(ws[c])
    ensures Same(FVal(ws[0]), FVal(old(ws[1])) - FVal(old(ws[0])))
    ensures Same(FVal(ws[1]), 2 * FVal(old(ws[3])) - FVal(old(ws[2])))
    ensures Same(FVal(ws[2]), 2 * FVal(old(ws[3])) + FVal(old(ws[2])))
    ensures Same(FVal(ws[3]), FVal(old(ws[1])) + FVal(old(ws[0])))
  {
    hide FVal, Same, Carried, RawProduct;
    var a, b, c, d := ws[0], ws[1], ws[2], ws[3];
    RawOrComposable(d);
    var w0, w1, w2, w3 := NielsWide(a, b, c, d);
    ws[0] := Settle(w0, 1069, FVal(b) - FVal(a), 535);
    ws[1] := Settle(w1, 1603, 2 * FVal(d) - FVal(c), 535);
    ws[2] := Settle(w2, 1602, 2 * FVal(d) + FVal(c), 0);
    ws[3] := Settle(w3, 1068, FVal(b) + FVal(a), 0);
  }

  lemma RawOrComposable(d: seq<int>)
    requires RawProduct(d) || U52(d)
    ensures |d| == 5 && Below(d, 534 * T51)
  {}

  method NielsWide(a: Limbs, b: Limbs, c: Limbs, d: Limbs) returns (w0: Limbs, w1: Limbs, w2: Limbs, w3: Limbs)
    requires RawProduct(a) && RawProduct(b) && RawProduct(c) && Below(d, 534 * T51)
    ensures Below(w0, 1069 * T51) && FVal(w0) == FVal(b) - FVal(a) + 535 * P
    ensures Below(w1, 1603 * T51) && FVal(w1) == 2 * FVal(d) - FVal(c) + 535 * P
    ensures Below(w2, 1602 * T51) && FVal(w2) == 2 * FVal(d) + FVal(c)
    ensures Below(w3, 1068 * T51) && FVal(w3) == FVal(b) + FVal(a)
  {
    w0 := [b[0] + 535 * PLimb(0) - a[0], b[1] + 535 * PLimb(1) - a[1], b[2] + 535 * PLimb(2) - a[2],
           b[3] + 535 * PLimb(3) - a[3], b[4] + 535 * PLimb(4) - a[4]];
    w1 := [2 * d[0] + 535 * PLimb(0) - c[0], 2 * d[1] + 535 * PLimb(1) - c[1], 2 * d[2] + 535 * PLimb(2) - c[2],
           2 * d[3] + 535 * PLimb(3) - c[3], 2 * d[4] + 535 * PLimb(4) - c[4]];
    w2 := [2 * d[0] + c[0], 2 * d[1] + c[1], 2 * d[2] + c[2], 2 * d[3] + c[3], 2 * d[4] + c[4]];
    w3 := [b[0] + a[0], b[1] + a[1], b[2] + a[2], b[3] + a[3], b[4] + a[4]];
  }

  // ---------------------------------------------------------------- a whole doubling's linear part

  /** Raw products straight into stage 2: the projective doubling values E, F, G, H of (X, Y, Z). */
  method DoublingValues(x: Limbs, y: Limbs, z: Limbs) returns (e: Limbs, f: Limbs, g: Limbs, h: Limbs)
    requires U52(x) && U52(y) && U52(z)
    ensures U52(e) && U52(f) && U52(g) && U52(h)
    ensures var X, Y, Z := FVal(x), FVal(y), FVal(z);
      && Same(FVal(e), 2 * (X * Y)) && Same(FVal(g), Y * Y - X * X)
      && Same(FVal(f), Y * Y - X * X - 2 * (Z * Z)) && Same(FVal(h), -(X * X) - Y * Y)
  {
    hide FVal, Same, RawProduct;
    var xx := LooseProduct(x, x);
    var yy := LooseProduct(y, y);
    var zz := LooseProduct(z, z);
    var xy := LooseProduct(x, y);
    var ws := new Limbs[4] [xx, yy, zz, xy];
    DoubleStage2(ws);
    e, f, g, h := ws[0], ws[1], ws[2], ws[3];
    var X, Y, Z := FVal(x), FVal(y), FVal(z);
    SameSum(FVal(e), FVal(xy), 2, FVal(xx), 0, FVal(zz), 0, X * Y, X * X, Z * Z);
    SameSum(FVal(g), FVal(yy), 1, FVal(xx), -1, FVal(zz), 0, Y * Y, X * X, Z * Z);
    SameSum(FVal(f), FVal(yy), 1, FVal(xx), -1, FVal(zz), -2, Y * Y, X * X, Z * Z);
    SameSum(FVal(h), FVal(yy), -1, FVal(xx), -1, FVal(zz), 0, Y * Y, X * X, Z * Z);
  }

  lemma SameSum(r: int, a: int, i: int, b: int, j: int, c: int, k: int, a': int, b': int, c': int)
    requires Same(r, i * a + j * b + k * c) && Same(a, a') && Same(b, b') && Same(c, c')
    ensures Same(r, i * a' + j * b' + k * c')
  {
    hide Congruent;
    CongruentMul(a, a', i, P);
    CongruentMul(b, b', j, P);
    CongruentMul(c, c', k, P);
    CongruentAdd(i * a, i * a', j * b, j * b', P);
    CongruentAdd(i * a + j * b, i * a' + j * b', k * c, k * c', P);
    CongruentTrans(r, i * a + j * b + k * c, i * a' + j * b' + k * c', P);
  }
}
