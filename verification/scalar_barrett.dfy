/** reduceUniformScalarBarrett (internal/r51x5/scalar_reduce.go:206-288): the independent Barrett form of the
    512-bit reduction, proved to the same contract as the radix-2^21 form. */
module ScalarBarrett {
  import opened Arith
  import opened Words
  import opened Bytes
  import opened Fixed256
  import opened Divide256
  import opened Selection
  import opened HeeaProduct
  import opened ScalarMod

  const BARRETT_MU: seq<u64> := [0xed9ce5a30a2c131b, 0x2106215d086329a7, 0xffffffffffffffeb, 0xffffffffffffffff, 0xf]
  const ORDER_WORDS: seq<u64> := [0x5812631a5cf5d3ed, 0x14def9dea2f79cd6, 0, 0x1000000000000000, 0]

  lemma {:induction false} Val5(x: seq<u64>)
    requires |x| == 5
    ensures Val(x) == x[0] + W * (x[1] + W * (x[2] + W * (x[3] + W * x[4])))
  {
    ValOne(x[4]);
    assert x[1..][1..][1..][1..] == [x[4]];
    assert Val(x) == x[0] + W * Val(x[1..]);
    assert Val(x[1..]) == x[1] + W * Val(x[1..][1..]);
    assert Val(x[1..][1..]) == x[2] + W * Val(x[1..][1..][1..]);
    assert Val(x[1..][1..][1..]) == x[3] + W * Val(x[1..][1..][1..][1..]);
  }

  lemma OrderValue()
    ensures Val(ORDER_WORDS) == L
  {
    Val5(ORDER_WORDS);
  }

  /** scalarBarrettMu is floor(2^512 / L). */
  lemma MuValue()
    ensures Val(BARRETT_MU) * L <= Weight(8) < Val(BARRETT_MU) * L + L
    ensures Weight(3) < L < Weight(4) && Weight(3) * Weight(5) == Weight(8)
  {
    Val5(BARRETT_MU);
    WeightWide();
    EightWords();
  }

  lemma EightWords()
    ensures Weight(3) * W == Weight(4) && Weight(4) * W == Weight(5) && Weight(3) * Weight(5) == Weight(8) && Weight(8) == R256 * R256
  {
    WeightWide();
    WeightAdd(3, 1);
    WeightAdd(4, 1);
    WeightAdd(3, 5);
    WeightAdd(4, 4);
    assert Weight(1) == W * Weight(0) && Weight(0) == 1;
  }

  // ---------------------------------------------------------------- the truncated product

  /** add128x5Low: the sum modulo the words' modulus. */
  method AddLow(words: seq<u64>, start: nat, lo: u64, hi: u64) returns (out: seq<u64>, ghost lost: nat)
    requires start < |words|
    ensures |out| == |words|
    ensures Val(out) + lost * Weight(|words|) == Val(words) + Weight(start) * (lo + W * hi)
  {
    hide Val, Weight;
    MulSum(Weight(start), lo, W, hi);
    NextWeight(start);
    var carry;
    out, carry := AddAt(words, start, lo, 0);
    if start + 1 == |out| {
      lost := carry + hi;
      LostWeight(Weight(|words|), carry, hi);
      return;
    }
    ghost var target := Val(words) + Weight(start) * (lo + W * hi);
    out, carry := AddAt(out, start + 1, hi, carry);
    out, lost := RippleLow(out, start + 2, carry, target);
  }

  lemma NextWeight(i: nat)
    ensures Weight(i + 1) == W * Weight(i)
  {}

  method RippleLow(words: seq<u64>, start: nat, carryIn: u64, ghost target: nat) returns (out: seq<u64>, ghost lost: nat)
    requires start <= |words| && carryIn <= 1 && Val(words) + Weight(start) * carryIn == target
    ensures |out| == |words| && Val(out) + lost * Weight(|words|) == target
  {
    hide Val, Weight;
    out := words;
    var carry := carryIn;
    for i := start to |words|
      invariant |out| == |words| && carry <= 1 && Val(out) + Weight(i) * carry == target
    {
      out, carry := AddAt(out, i, 0, carry);
    }
    lost := carry;
    LostWeight(Weight(|words|), carry, 0);
  }

  lemma LostWeight(w: int, c: int, h: int)
    ensures (c + h) * w == w * c + w * h
  {}

  /** mul5x5Low: the low words of the product. */
  method MulLow(x: seq<u64>, y: seq<u64>) returns (out: seq<u64>)
    requires |x| == |y|
    ensures |out| == |x| && Val(out) == (Val(x) * Val(y)) % Weight(|x|)
  {
    hide Val;
    out := Zeros(|x|);
    ValZeros(|x|);
    ghost var lost: int := 0;
    assert x[..0] == [] && x[..|x|] == x;
    ValNone();
    for i := 0 to |x|
      invariant |out| == |x|
      invariant Val(out) + lost * Weight(|x|) == Val(x[..i]) * Val(y)
    {
      ghost var dropped;
      ValSnoc(x, i);
      out, dropped := MulLowRow(out, x[i], i, y);
      RowLost(Val(x[..i]), Weight(i), x[i], Val(y), lost, dropped, Weight(|x|));
      lost := lost + dropped;
    }
    ValBound(out);
    DivUnique(Val(x) * Val(y), Weight(|x|), lost, Val(out));
  }

  lemma ValNone()
    ensures Val([]) == 0
  {}

  lemma RowLost(v: int, w: int, xi: int, y: int, lost: int, dropped: int, m: int)
    ensures (v + w * xi) * y == v * y + w * (xi * y)
    ensures (lost + dropped) * m == lost * m + dropped * m
  {}

  /** Row i, cut off at the top word. */
  method MulLowRow(acc: seq<u64>, xi: u64, i: nat, y: seq<u64>) returns (out: seq<u64>, ghost lost: nat)
    requires |acc| == |y| && i < |y|
    ensures |out| == |acc|
    ensures Val(out) + lost * Weight(|y|) == Val(acc) + Weight(i) * (xi * Val(y))
  {
    hide Val, Weight, CutOff;
    ghost var kept;
    out, kept := MulLowCells(acc, xi, i, y, |y| - i);
    lost := kept + CutOff(xi, i, y);
    LostMore(kept, CutOff(xi, i, y), Weight(|y|));
  }

  lemma LostMore(a: int, b: int, m: int)
    ensures (a + b) * m == a * m + b * m
  {}

  /** What row i would have put above the top word. */
  ghost function CutOff(xi: u64, i: nat, y: seq<u64>): (t: nat)
    requires i < |y|
    ensures Weight(i) * (xi * Val(y)) == Weight(i) * (xi * Val(y[..|y| - i])) + t * Weight(|y|)
  {
    var n := |y| - i;
    ValSplit(y, n);
    WeightAdd(i, n);
    TailLost(Weight(i), xi, Val(y[..n]), Weight(n), Val(y[n..]));
    MulNonNeg(xi, Val(y[n..]));
    xi * Val(y[n..])
  }

  method MulLowCells(acc: seq<u64>, xi: u64, i: nat, y: seq<u64>, n: nat) returns (out: seq<u64>, ghost lost: nat)
    requires |acc| == |y| && i + n <= |y|
    ensures |out| == |acc|
    ensures Val(out) + lost * Weight(|y|) == Val(acc) + Weight(i) * (xi * Val(y[..n]))
  {
    hide Val, Weight;
    out := acc;
    lost := 0;
    assert y[..0] == [];
    ValNone();
    for j := 0 to n
      invariant |out| == |acc|
      invariant Val(out) + lost * Weight(|y|) == Val(acc) + Weight(i) * (xi * Val(y[..j]))
    {
      var p := Mul64(xi, y[j]);
      ghost var dropped;
      ValSnoc(y, j);
      WeightAdd(i, j);
      out, dropped := AddLow(out, i + j, p.1, p.0);
      ColumnLost(Weight(i), xi, Val(y[..j]), Weight(j), y[j], lost, dropped, Weight(|y|));
      lost := lost + dropped;
    }
  }

  lemma ColumnLost(wi: int, xi: int, v: int, wj: int, yj: int, lost: int, dropped: int, m: int)
    ensures wi * (xi * (v + wj * yj)) == wi * (xi * v) + (wi * wj) * (xi * yj)
    ensures (lost + dropped) * m == lost * m + dropped * m
  {}

  lemma TailLost(wi: int, xi: int, v: int, wn: int, t: int)
    ensures wi * (xi * (v + wn * t)) == wi * (xi * v) + (xi * t) * (wi * wn)
  {}

  // ---------------------------------------------------------------- the quotient estimate

  /** The estimate is never above the quotient and at most two below it. */
  lemma BarrettBound(x: nat, q1: nat, q3: nat, mu: nat, w3: nat, w5: nat, w8: nat)
    requires w3 > 0 && w5 > 0 && w3 * w5 == w8 && w3 < L && x < w8
    requires mu * L <= w8 < mu * L + L
    requires q1 * w3 <= x < (q1 + 1) * w3 && q3 * w5 <= q1 * mu < (q3 + 1) * w5
    ensures 0 <= x - q3 * L < 3 * L
  {
    Below(x, q1, q3, mu, w3, w5, w8);
    Above(x, q1, q3, mu, w3, w5, w8);
  }

  lemma Below(x: nat, q1: nat, q3: nat, mu: nat, w3: nat, w5: nat, w8: nat)
    requires w3 * w5 == w8 && w5 > 0 && mu * L <= w8 && q1 * w3 <= x && q3 * w5 <= q1 * mu
    ensures q3 * L <= x
  {
    MulMono(L, q3 * w5, q1 * mu);
    MulMono(q1, mu * L, w8);
    assert L * (q3 * w5) == w5 * (q3 * L) && L * (q1 * mu) == q1 * (mu * L) && q1 * (w3 * w5) == w5 * (q1 * w3);
    Cancel(w5, q3 * L, q1 * w3);
  }

  lemma Above(x: nat, q1: nat, q3: nat, mu: nat, w3: nat, w5: nat, w8: nat)
    requires w3 * w5 == w8 && w5 > 0 && w3 < L && x < w8 && w8 < mu * L + L
    requires q1 * w3 <= x < (q1 + 1) * w3 && q1 * mu < (q3 + 1) * w5 && w3 > 0
    ensures x < (q3 + 3) * L
  {
    SmallQuotient(q1, w3, w5, x);
    TopEstimate(x, q1, w3, w5);
    MulMono(q1, w8, mu * L + L);
    MuEstimate(q1, q3, mu, w5);
    MulMono(w5, w3, L);
    OrderSum(w5, q3, x);
  }

  lemma TopEstimate(x: nat, q1: nat, w3: nat, w5: nat)
    requires x < (q1 + 1) * w3 && w5 > 0
    ensures w5 * x < q1 * (w3 * w5) + w5 * w3
  {
    MulMono(w5, x + 1, (q1 + 1) * w3);
    assert w5 * ((q1 + 1) * w3) == q1 * (w3 * w5) + w5 * w3;
    assert w5 * (x + 1) == w5 * x + w5;
  }

  lemma MuEstimate(q1: nat, q3: nat, mu: nat, w5: nat)
    requires q1 * mu < (q3 + 1) * w5 && q1 < w5
    ensures q1 * (mu * L + L) <= w5 * ((q3 + 1) * L) + w5 * L
  {
    MulMono(L, q1 * mu, (q3 + 1) * w5);
    MulMono(L, q1, w5);
    assert q1 * (mu * L + L) == L * (q1 * mu) + L * q1;
    assert L * ((q3 + 1) * w5) == w5 * ((q3 + 1) * L) && L * w5 == w5 * L;
  }

  lemma OrderSum(w5: nat, q3: nat, x: nat)
    requires w5 > 0 && w5 * x < w5 * ((q3 + 1) * L) + w5 * L + w5 * L
    ensures x < (q3 + 3) * L
  {
    assert w5 * ((q3 + 3) * L) == w5 * ((q3 + 1) * L) + w5 * L + w5 * L;
    if x >= (q3 + 3) * L { MulMono(w5, (q3 + 3) * L, x); }
  }

  lemma SmallQuotient(q1: nat, w3: nat, w5: nat, x: nat)
    requires q1 * w3 <= x < w3 * w5
    ensures q1 < w5
  {
    if q1 >= w5 { MulMono(w3, w5, q1); }
  }

  lemma Cancel(w: nat, a: int, b: int)
    requires w > 0 && w * a <= w * b
    ensures a <= b
  {
    assert w * (b + 1) == w * b + w;
    if a > b { MulMono(w, b + 1, a); }
  }

  // ---------------------------------------------------------------- the reduction

  /** conditionalSubtractScalarOrder. */
  method ConditionalSubtract(x: seq<u64>) returns (r: seq<u64>)
    requires |x| == 5
    ensures |r| == 5 && Val(r) == if Val(x) < L then Val(x) else Val(x) - L
  {
    OrderValue();
    var reduced, borrow := SubLimbs(x, ORDER_WORDS);
    r := if borrow == 1 then x else reduced;
  }

  /** The eight loads. */
  method LoadWords(input: Bytes64) returns (x: seq<u64>)
    ensures |x| == 8 && Val(x) == LeValue(input)
  {
    hide Val, LeValue;
    x := [];
    assert input[..0] == [];
    ValNone();
    EmptyValue();
    for i := 0 to 8
      invariant |x| == i && Val(x) == LeValue(input[..8 * i])
    {
      assert input[..8 * (i + 1)] == input[..8 * i] + input[8 * i..8 * i + 8];
      LeAppend(input[..8 * i], input[8 * i..8 * i + 8]);
      ValAppend(x, [Load64(input[8 * i..8 * i + 8])]);
      ValOne(Load64(input[8 * i..8 * i + 8]));
      WeightPow2(i);
      x := x + [Load64(input[8 * i..8 * i + 8])];
    }
    assert input[..64] == input;
  }

  lemma EmptyValue()
    ensures LeValue([]) == 0
  {}

  /** reduceUniformScalarBarrett: the same representative reduceUniformScalar returns. */
  method ReduceUniformScalarBarrett(input: Bytes64) returns (out: Bytes32)
    ensures LeValue(out) == LeValue(input) % L
  {
    hide Val, LeValue, Weight;
    var x := LoadWords(input);
    var q2 := MulWide(x[3..], BARRETT_MU);
    var q3 := q2[5..];
    var r2 := MulLow(q3, ORDER_WORDS);
    var r, borrow := SubLimbs(x[..5], r2);
    Residue(x, q2, r2, r, borrow);
    ghost var first := Val(r);
    r := ConditionalSubtract(r);
    r := ConditionalSubtract(r);
    FourWords5(r, Val(x), Val(q3) + (if first < L then 0 else if first < 2 * L then 1 else 2));
    out := PutWords(r[..4]);
  }

  lemma Residue(x: seq<u64>, q2: seq<u64>, r2: seq<u64>, r: seq<u64>, borrow: u64)
    requires |x| == 8 && |q2| == 10 && |r2| == |r| == 5 && borrow <= 1
    requires Val(q2) == Val(x[3..]) * Val(BARRETT_MU)
    requires Val(r2) == (Val(q2[5..]) * Val(ORDER_WORDS)) % Weight(5)
    requires Val(r) - Weight(5) * borrow == Val(x[..5]) - Val(r2)
    ensures Val(r) == Val(x) - Val(q2[5..]) * L && Val(r) < 3 * L
  {
    hide Val, Weight;
    MuValue();
    OrderValue();
    ValBound(x);
    ValSplit(x, 3);
    ValBound(x[..3]);
    ValSplit(q2, 5);
    ValBound(q2[..5]);
    ValSplit(x, 5);
    ValBound(r);
    var q1, q3, mu := Val(x[3..]), Val(q2[5..]), Val(BARRETT_MU);
    FloorSplit(Val(x), Weight(3), q1, Val(x[..3]));
    FloorSplit(Val(q2), Weight(5), q3, Val(q2[..5]));
    BarrettBound(Val(x), q1, q3, mu, Weight(3), Weight(5), Weight(8));
    DivMod(q3 * L, Weight(5));
    ThreeOrders();
    SameResidue(Val(x), Val(x[..5]), Val(x[5..]), q3 * L, (q3 * L) / Weight(5), Val(r2), Val(r), borrow, Weight(5));
  }

  lemma FloorSplit(v: int, w: int, q: int, low: int)
    requires v == low + w * q && 0 <= low < w
    ensures q * w <= v < (q + 1) * w
  {}

  lemma ThreeOrders()
    ensures 3 * L < Weight(5)
  {
    WeightWide();
  }

  /** Two numbers below w that agree modulo w are equal. */
  lemma SameResidue(x: int, low: int, high: int, p: int, t: int, r2: int, r: int, borrow: int, w: nat)
    requires w > 0 && x == low + w * high && p == t * w + r2 && r - w * borrow == low - r2
    requires 0 <= r < w && 0 <= x - p < w
    ensures r == x - p
  {
    assert x - p == r + w * (high - t - borrow);
    var m := high - t - borrow;
    if m > 0 { MulMono(w, 1, m); } else if m < 0 { MulMono(w, m, -1); }
  }

  lemma FourWords5(r: seq<u64>, x: nat, q: int)
    requires |r| == 5 && 0 <= Val(r) < L && Val(r) == x - q * L
    ensures Val(r[..4]) == x % L
  {
    DivUnique(x, L, q, Val(r));
    ValSplit(r, 4);
    WeightWide();
    ValOne(r[4]);
    assert r[4..] == [r[4]];
    if r[4] > 0 { MulMono(Weight(4), 1, r[4]); }
  }
}
