/** Canonical reduction and the scalar field operations of internal/r51x5/arithmetic.go: exact 128-bit
    accumulators, the carry loop, and the inversion chain. */
module FieldReduce {
  import opened Arith
  import opened Words
  import opened FieldLimbs
  import opened FieldStage

  const T54: int := 0x40_0000_0000_0000
  const T105: int := T51 * T54
  const T110: int := 32 * T105

  /** A uint128 by its value; the two-word form below wraps only where the bounds allow it. */
  type u128 = x: int | 0 <= x < T64 * T64

  /** addProduct: x*y*scale added to a two-word accumulator. */
  method AddProduct(z: u128, x: u64, y: u64, scale: u64) returns (sum: u128)
    requires x < T51 && y < T51 && (scale == 1 || scale == 19)
    requires z + x * y * scale < T64 * T64
    ensures sum == z + x * y * scale
  {
    SmallProduct(x, y);
    var p := Mul64(x, y);
    var lo: u64, hi: u64 := p.1, p.0;
    if scale != 1 {
      var q := Mul64(lo, scale);
      assert p.0 * scale < T64;
      lo := q.1;
      hi := q.0 + hi * scale;
    }
    assert lo + T64 * hi == x * y * scale;
    var zLo: u64, zHi: u64 := z % T64, z / T64;
    var l := Add64(zLo, lo, 0);
    var h := Add64(zHi, hi, l.1);
    assert h.1 == 0;
    sum := l.0 + T64 * h.0;
  }

  lemma SmallProduct(x: int, y: int)
    requires 0 <= x < T51 && 0 <= y < T51
    ensures 0 <= x * y < T51 * T51
  {
    MulNonNeg(x, y);
    MulMono(x, y, T51 - 1);
    MulMono(T51 - 1, x, T51 - 1);
  }

  /** shiftRight by 51: low word or-ed with the high word's low bits, exact below 2^115. */
  function ShiftRight51(z: u128): (r: u64)
    requires z < T51 * T64
    ensures r == z / T51
  {
    z / T51
  }

  // ---------------------------------------------------------------- the carry loop

  /** What the accumulators may hold on entry to a pass. */
  predicate Accumulators(a: seq<int>) {
    |a| == 5 && Below(a, T110) && a[4] < T105
  }

  /** One pass: carry up through limb four, fold the top carry into limb zero with weight 19. */
  method ReducePass(a: seq<u128>) returns (out: seq<u128>, carry: u64)
    requires Accumulators(a)
    ensures Accumulators(out) && 0 <= carry <= T54 + 1024
    ensures Below(out[1..], T51)
    ensures FVal(out) == FVal(a) - carry * P
    ensures carry == 0 ==> Below(out, T51)
  {
    var c0 := ShiftRight51(a[0]);
    var b1 := a[1] + c0;
    var c1 := ShiftRight51(b1);
    var b2 := a[2] + c1;
    var c2 := ShiftRight51(b2);
    var b3 := a[3] + c2;
    var c3 := ShiftRight51(b3);
    var b4 := a[4] + c3;
    carry := ShiftRight51(b4);
    out := [a[0] % T51 + 19 * carry, b1 % T51, b2 % T51, b3 % T51, b4 % T51];
    assert a[0] == T51 * c0 + a[0] % T51 && b1 == T51 * c1 + b1 % T51 && b2 == T51 * c2 + b2 % T51;
    assert b3 == T51 * c3 + b3 % T51 && b4 == T51 * carry + b4 % T51;
  }

  /** reduceAccumulators: each pass with a carry removes a positive multiple of p from the value, so the
      loop ends, and one conditional subtraction leaves the canonical residue. */
  method ReduceAccumulators(accum: seq<u128>) returns (result: Limbs)
    requires Accumulators(accum)
    ensures Reduced(result) && FVal(result) == FVal(accum) % P
  {
    hide Same, Congruent;
    var a := accum;
    var carry: u64 := 1;
    Nonnegative(a);
    SameBy(FVal(a), FVal(accum), 0);
    while carry != 0
      invariant Accumulators(a) && FVal(a) >= 0 && Same(FVal(a), FVal(accum))
      invariant carry == 0 ==> Below(a, T51)
      decreases FVal(a) + (if carry == 0 then 0 else 1)
    {
      ghost var before := FVal(a);
      a, carry := ReducePass(a);
      Nonnegative(a);
      Removed(FVal(a), before, carry, FVal(accum));
    }
    FValBelow(a);
    result := [a[0], a[1], a[2], a[3], a[4]];
    assert result == a;
    ModulusValue();
    var c := CompareLimbs(result, MODULUS_LIMBS);
    if c >= 0 {
      var difference := SubtractLimbs(result, MODULUS_LIMBS);
      result := difference;
      SameBy(FVal(result), FVal(a), -1);
      SameTrans(FVal(result), FVal(a), FVal(accum));
    }
    Canonical(FVal(result), FVal(accum));
  }

  lemma Nonnegative(a: seq<int>)
    requires Accumulators(a)
    ensures FVal(a) >= 0
  {}

  lemma Removed(after: int, before: int, carry: nat, v: int)
    requires after == before - carry * P && Same(before, v)
    ensures Same(after, v) && (carry > 0 ==> after < before - 1)
  {
    if carry > 0 { MulMono(P, 1, carry); }
    SameBy(after, before, -(carry as int));
    CongruentTrans(after, before, v, P);
  }

  lemma Canonical(r: int, v: int)
    requires 0 <= r < P && Same(r, v)
    ensures r == v % P
  {
    CongruentMod(v, P);
    CongruentTrans(r, v, v % P, P);
    DivMod(v, P);
    CongruentUnique(r, v % P, P);
  }

  // ---------------------------------------------------------------- field operations

  /** Element.Multiply: 25 exact products, high degrees folded with weight 19. */
  method Multiply(x: Limbs, y: Limbs) returns (z: Limbs)
    requires Reduced(x) && Reduced(y)
    ensures Reduced(z) && FVal(z) == (FVal(x) * FVal(y)) % P
  {
    hide FVal, Same, Folded, Accumulators;
    var accum: seq<u128> := [0, 0, 0, 0, 0];
    NothingFolded(x, y);
    for i := 0 to 5
      invariant |accum| == 5
      invariant forall k :: 0 <= k < 5 ==> accum[k] == Folded(x, y, i, k)
    {
      accum := MultiplyRow(accum, x, y, i);
    }
    FoldedProducts(x, y, accum);
    z := ReduceAccumulators(accum);
    SameRemainder(FVal(accum), FVal(x) * FVal(y));
  }

  lemma NothingFolded(x: seq<int>, y: seq<int>)
    requires |x| == 5 && |y| == 5 && Below(x, T51) && Below(y, T51)
    ensures forall k :: 0 <= k < 5 ==> Folded(x, y, 0, k) == 0
  {}

  lemma SameRemainder(a: int, b: int)
    requires Same(a, b)
    ensures a % P == b % P
  {
    CongruentMod(b, P);
    CongruentTrans(a, b, b % P, P);
    CongruentMod(a, P);
    CongruentSym(a, a % P, P);
    CongruentTrans(a % P, a, b % P, P);
    DivMod(a, P);
    DivMod(b, P);
    CongruentUnique(a % P, b % P, P);
  }

  /** What accumulator k holds after the first n rows. */
  function Folded(x: seq<int>, y: seq<int>, n: nat, k: nat): (s: int)
    requires |x| == 5 && |y| == 5 && Below(x, T51) && Below(y, T51) && n <= 5 && k < 5
    ensures 0 <= s <= n * 19 * T51 * T51
    ensures k == 4 ==> s <= n * T51 * T51
  {
    if n == 0 then 0
    else
      SmallProduct(x[n - 1], y[Column(n - 1, k)]);
      Folded(x, y, n - 1, k) + x[n - 1] * y[Column(n - 1, k)] * Scale(n - 1, k)
  }

  /** The j with (i+j) mod 5 == k, and whether it wraps. */
  function Column(i: nat, k: nat): (j: nat)
    requires i < 5 && k < 5
    ensures j < 5 && (i + j == k || i + j == k + 5)
  {
    if i <= k then k - i else k + 5 - i
  }

  function Scale(i: nat, k: nat): u64 { if i <= k then 1 else 19 }

  method MultiplyRow(start: seq<u128>, x: Limbs, y: Limbs, i: nat) returns (accum: seq<u128>)
    requires |start| == 5 && i < 5 && Below(x, T51) && Below(y, T51)
    requires forall k :: 0 <= k < 5 ==> start[k] == Folded(x, y, i, k)
    ensures |accum| == 5 && forall k :: 0 <= k < 5 ==> accum[k] == Folded(x, y, i + 1, k)
  {
    accum := start;
    for j := 0 to 5
      invariant |accum| == 5
      invariant forall k :: 0 <= k < 5 ==> accum[k] == if Column(i, k) < j then Folded(x, y, i + 1, k) else Folded(x, y, i, k)
    {
      var k, scale: u64 := i + j, 1;
      if k >= 5 {
        k, scale := k - 5, 19;
      }
      assert Column(i, k) == j && Scale(i, k) == scale;
      assert Folded(x, y, i + 1, k) == Folded(x, y, i, k) + x[i] * y[j] * scale;
      var sum := AddProduct(accum[k], x[i], y[j], scale);
      accum := accum[k := sum];
    }
  }

  lemma FoldedProducts(x: seq<int>, y: seq<int>, a: seq<int>)
    requires |x| == 5 && |y| == 5 && Below(x, T51) && Below(y, T51)
    requires |a| == 5 && forall k :: 0 <= k < 5 ==> a[k] == Folded(x, y, 5, k)
    ensures Accumulators(a) && Same(FVal(a), FVal(x) * FVal(y))
  {
    hide Same, Folded, FVal;
    FoldedRow(x, y, a);
    FoldedBounds(x, y);
    RowExpand(x[0], y);
    RowExpand(x[1], y);
    RowExpand(x[2], y);
    RowExpand(x[3], y);
    RowExpand(x[4], y);
    ColumnExpand(x, FVal(y));
    HighProducts(x, y, a);
  }

  lemma FoldedBounds(x: seq<int>, y: seq<int>)
    requires |x| == 5 && |y| == 5 && Below(x, T51) && Below(y, T51)
    ensures forall k :: 0 <= k < 5 ==> 0 <= Folded(x, y, 5, k) <= 95 * T51 * T51
    ensures Folded(x, y, 5, 4) <= 5 * T51 * T51
  {
    hide Folded;
  }

  lemma FoldedRow(x: seq<int>, y: seq<int>, a: seq<int>)
    requires |x| == 5 && |y| == 5 && Below(x, T51) && Below(y, T51)
    requires |a| == 5 && forall k :: 0 <= k < 5 ==> a[k] == Folded(x, y, 5, k)
    ensures a[0] == x[0] * y[0] + 19 * (x[1] * y[4]) + 19 * (x[2] * y[3]) + 19 * (x[3] * y[2]) + 19 * (x[4] * y[1])
    ensures a[1] == x[0] * y[1] + x[1] * y[0] + 19 * (x[2] * y[4]) + 19 * (x[3] * y[3]) + 19 * (x[4] * y[2])
    ensures a[2] == x[0] * y[2] + x[1] * y[1] + x[2] * y[0] + 19 * (x[3] * y[4]) + 19 * (x[4] * y[3])
    ensures a[3] == x[0] * y[3] + x[1] * y[2] + x[2] * y[1] + x[3] * y[0] + 19 * (x[4] * y[4])
    ensures a[4] == x[0] * y[4] + x[1] * y[3] + x[2] * y[2] + x[3] * y[1] + x[4] * y[0]
  {
    hide Folded, Below;
    FoldedUnroll(x, y, 0);
    FoldedUnroll(x, y, 1);
    FoldedUnroll(x, y, 2);
    FoldedUnroll(x, y, 3);
    FoldedUnroll(x, y, 4);
  }

  lemma FoldedUnroll(x: seq<int>, y: seq<int>, k: nat)
    requires |x| == 5 && |y| == 5 && Below(x, T51) && Below(y, T51) && k < 5
    ensures Folded(x, y, 5, k) == x[0] * y[Column(0, k)] * Scale(0, k) + x[1] * y[Column(1, k)] * Scale(1, k)
      + x[2] * y[Column(2, k)] * Scale(2, k) + x[3] * y[Column(3, k)] * Scale(3, k) + x[4] * y[Column(4, k)] * Scale(4, k)
  {
    FoldedStep(x, y, 0, k);
    FoldedStep(x, y, 1, k);
    FoldedStep(x, y, 2, k);
    FoldedStep(x, y, 3, k);
    FoldedStep(x, y, 4, k);
    hide Column, Scale;
  }

  lemma FoldedStep(x: seq<int>, y: seq<int>, n: nat, k: nat)
    requires |x| == 5 && |y| == 5 && Below(x, T51) && Below(y, T51) && n < 5 && k < 5
    ensures Folded(x, y, n + 1, k) == Folded(x, y, n, k) + x[n] * y[Column(n, k)] * Scale(n, k)
    ensures Folded(x, y, 0, k) == 0
  {}

  lemma RowExpand(xi: int, y: seq<int>)
    requires |y| == 5
    ensures xi * FVal(y) == FVal([xi * y[0], xi * y[1], xi * y[2], xi * y[3], xi * y[4]])
  {}

  lemma ColumnExpand(x: seq<int>, v: int)
    requires |x| == 5
    ensures FVal(x) * v == FVal([x[0] * v, x[1] * v, x[2] * v, x[3] * v, x[4] * v])
  {}

  /** The folded accumulators differ from the product by p times the high degrees. */
  lemma HighProducts(x: seq<int>, y: seq<int>, a: seq<int>)
    requires |x| == 5 && |y| == 5 && |a| == 5
    requires a[0] == x[0] * y[0] + 19 * (x[1] * y[4]) + 19 * (x[2] * y[3]) + 19 * (x[3] * y[2]) + 19 * (x[4] * y[1])
    requires a[1] == x[0] * y[1] + x[1] * y[0] + 19 * (x[2] * y[4]) + 19 * (x[3] * y[3]) + 19 * (x[4] * y[2])
    requires a[2] == x[0] * y[2] + x[1] * y[1] + x[2] * y[0] + 19 * (x[3] * y[4]) + 19 * (x[4] * y[3])
    requires a[3] == x[0] * y[3] + x[1] * y[2] + x[2] * y[1] + x[3] * y[0] + 19 * (x[4] * y[4])
    requires a[4] == x[0] * y[4] + x[1] * y[3] + x[2] * y[2] + x[3] * y[1] + x[4] * y[0]
    requires forall i :: 0 <= i < 5 ==>
      x[i] * FVal(y) == FVal([x[i] * y[0], x[i] * y[1], x[i] * y[2], x[i] * y[3], x[i] * y[4]])
    requires FVal(x) * FVal(y) == FVal([x[0] * FVal(y), x[1] * FVal(y), x[2] * FVal(y), x[3] * FVal(y), x[4] * FVal(y)])
    ensures Same(FVal(a), FVal(x) * FVal(y))
  {
    hide Same;
    var h := FVal([x[1] * y[4] + x[2] * y[3] + x[3] * y[2] + x[4] * y[1], x[2] * y[4] + x[3] * y[3] + x[4] * y[2],
                   x[3] * y[4] + x[4] * y[3], x[4] * y[4], 0]);
    SameBy(FVal(a), FVal(x) * FVal(y), -h);
  }
}
