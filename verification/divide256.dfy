/** Products, quotients and the leading-word view of wide integers
    (internal/heea8l/fixed.go and the accumulator of internal/r51x5/heea_base_split.go). */
module Divide256 {
  import opened Arith
  import opened Words
  import opened Fixed256

  // ---------------------------------------------------------------- products

  /** bits.Add64 into one word of an accumulator. */
  method AddAt(words: seq<u64>, index: nat, w: u64, carryIn: u64) returns (out: seq<u64>, carry: u64)
    requires index < |words| && carryIn <= 1
    ensures |out| == |words| && carry <= 1
    ensures Val(out) + Weight(index + 1) * carry == Val(words) + Weight(index) * w + Weight(index) * carryIn
  {
    var r := Add64(words[index], w, carryIn);
    ValUpdate(words, index, r.0);
    out, carry := words[index := r.0], r.1;
    AddAtArith(Weight(index), words[index], w, carryIn, r.0, r.1);
  }

  lemma AddAtArith(wt: nat, x: int, w: int, c: int, s: int, carry: int)
    requires s + W * carry == x + w + c
    ensures wt * (s - x) + (W * wt) * carry == wt * w + wt * c
  {
    assert wt * (s - x + W * carry) == wt * (w + c);
    assert wt * (s - x + W * carry) == wt * (s - x) + (W * wt) * carry;
  }

  /** heeaAdd128, and the inner body of mul256: add lo + hi*2^64 at word index, rippling the carry.
      The report is false exactly when the exact sum leaves the words. */
  method Add128(words: seq<u64>, start: nat, lo: u64, hi: u64) returns (out: seq<u64>, ok: bool)
    ensures |out| == |words|
    ensures ok <==> Val(words) + Weight(start) * (lo + W * hi) < Weight(|words|)
    ensures ok ==> Val(out) == Val(words) + Weight(start) * (lo + W * hi)
  {
    out := words;
    var index := start;
    ValBound(words);
    if index >= |out| {
      ok := lo == 0 && hi == 0;
      WeightAdd(|words|, start - |words|);
      if !ok { AboveTop(Weight(|words|), Weight(start - |words|), lo + W * hi); }
      return;
    }
    MulSum(Weight(start), lo, W, hi);
    ghost var target := Val(words) + Weight(start) * (lo + W * hi);
    var carry;
    out, carry := AddAt(out, index, lo, 0);
    index := index + 1;
    assert Val(out) + Weight(index) * carry + Weight(index) * hi == target;
    if index == |out| {
      ok := hi == 0 && carry == 0;
      ValBound(out);
      MulMono(Weight(index), 0, hi);
      if hi > 0 { MulMono(Weight(index), 1, hi); }
      return;
    }
    out, carry := AddAt(out, index, hi, carry);
    index := index + 1;
    out, ok := Ripple(out, index, carry, target);
  }

  method Ripple(words: seq<u64>, start: nat, carryIn: u64, ghost target: nat) returns (out: seq<u64>, ok: bool)
    requires start <= |words| && carryIn <= 1
    requires Val(words) + Weight(start) * carryIn == target
    ensures |out| == |words|
    ensures ok <==> target < Weight(|words|)
    ensures ok ==> Val(out) == target
  {
    out := words;
    var index, carry := start, carryIn;
    while carry != 0 && index < |out|
      invariant start <= index <= |out| == |words| && carry <= 1
      invariant Val(out) + Weight(index) * carry == target
      decreases |out| - index
    {
      out, carry := AddAt(out, index, 0, carry);
      index := index + 1;
    }
    ok := carry == 0;
    ValBound(out);
  }

  lemma AboveTop(w: nat, k: nat, v: nat)
    requires k >= 1 && v > 0
    ensures (w * k) * v >= w
  {
    MulMono(k, 1, v);
    MulMono(w, 1, k * v);
  }

  lemma MulSum(w: int, a: int, b: int, c: int)
    ensures w * (a + b * c) == w * a + (b * w) * c
  {}

  /** significantLimbs: the index above the highest nonzero word. */
  method SignificantLimbs(x: seq<u64>) returns (n: nat)
    ensures n <= |x| && Val(x) == Val(x[..n])
  {
    n := |x|;
    assert x[..n] == x;
    while n > 0 && x[n - 1] == 0
      invariant n <= |x| && Val(x) == Val(x[..n])
    {
      ValSnoc(x, n - 1);
      n := n - 1;
    }
  }

  /** One row of the schoolbook product: wide + x[i]*y*2^(64i). The accumulator never overflows. */
  method MulRow(wide: seq<u64>, xi: u64, i: nat, y: seq<u64>, count: nat) returns (out: seq<u64>)
    requires count <= |y| && Val(y) == Val(y[..count])
    requires Val(wide) + Weight(i) * (xi * Val(y)) < Weight(|wide|)
    ensures |out| == |wide|
    ensures Val(out) == Val(wide) + Weight(i) * (xi * Val(y))
  {
    out := wide;
    assert y[..0] == [];
    for j := 0 to count
      invariant |out| == |wide|
      invariant Val(out) == Val(wide) + Weight(i) * (xi * Val(y[..j]))
    {
      var p := Mul64(xi, y[j]);
      ValSnoc(y, j);
      WeightAdd(i, j);
      RowStep(Weight(i), xi, Val(y[..j]), Weight(j), y[j]);
      PrefixBelow(y, j + 1);
      MulMono(xi, Val(y[..j + 1]), Val(y));
      MulMono(Weight(i), xi * Val(y[..j + 1]), xi * Val(y));
      var ok;
      out, ok := Add128(out, i + j, p.1, p.0);
      assert ok;
    }
  }

  lemma RowStep(wi: int, xi: int, v: int, wj: int, yj: int)
    ensures wi * (xi * (v + wj * yj)) == wi * (xi * v) + (wi * wj) * (xi * yj)
  {}

  lemma PrefixBelow(y: seq<u64>, j: nat)
    requires j <= |y|
    ensures Val(y[..j]) <= Val(y)
  {
    ValSplit(y, j);
    MulNonNeg(Weight(j), Val(y[j..]));
  }

  /** The exact double-width product mul256 accumulates; its "impossible overflow" never occurs. */
  method MulWide(x: seq<u64>, y: seq<u64>) returns (wide: seq<u64>)
    ensures |wide| == |x| + |y| && Val(wide) == Val(x) * Val(y)
  {
    wide := Zeros(|x| + |y|);
    ValZeros(|x| + |y|);
    var xLimbs := SignificantLimbs(x);
    var yLimbs := SignificantLimbs(y);
    assert x[..0] == [];
    for i := 0 to xLimbs
      invariant |wide| == |x| + |y|
      invariant Val(wide) == Val(x[..i]) * Val(y)
    {
      ValSnoc(x, i);
      RowSum(Val(x[..i]), Weight(i), x[i], Val(y));
      PrefixBelow(x, i + 1);
      ProductFits(x, y, Val(x[..i + 1]));
      wide := MulRow(wide, x[i], i, y, yLimbs);
    }
  }

  lemma RowSum(v: int, w: int, xi: int, y: int)
    ensures (v + w * xi) * y == v * y + w * (xi * y)
  {}

  lemma ProductFits(x: seq<u64>, y: seq<u64>, v: nat)
    requires v <= Val(x)
    ensures v * Val(y) < Weight(|x| + |y|)
  {
    ValBound(x);
    ValBound(y);
    WeightAdd(|x|, |y|);
    ProductBelow(v, Val(y), Weight(|x|), Weight(|y|));
  }

  lemma ProductBelow(a: nat, b: nat, m: nat, n: nat)
    requires a < m && b < n
    ensures a * b < m * n
  {
    MulMono(a, b, n);
    MulMono(n, a + 1, m);
  }

  /** mul256: the low half of the product and whether the high half is nonzero. */
  method Mul256(x: U256, y: U256) returns (product: U256, overflow: bool)
    ensures overflow <==> Val(x) * Val(y) >= Weight(|x|)
    ensures !overflow ==> Val(product) == Val(x) * Val(y)
  {
    var wide := MulWide(x, y);
    product := wide[..4];
    overflow := !IsZero(wide[4..]);
    IsZeroVal(wide[4..]);
    ValSplit(wide, 4);
    ValBound(product);
    if overflow { MulMono(Weight(4), 1, Val(wide[4..])); }
  }

  // ---------------------------------------------------------------- bits

  /** w | 1<<b for one word. */
  function OrBit(w: u64, b: nat): u64
    requires b < 64
  {
    if (w / Pow2(b)) % 2 == 1 then w else
      BitRoom(w, b);
      w + Pow2(b)
  }

  lemma BitRoom(w: u64, b: nat)
    requires b < 64 && (w / Pow2(b)) % 2 == 0
    ensures w + Pow2(b) < W
  {
    Pow2Add(b + 1, 63 - b);
    Pow2Wide();
    BitRoomArith(w, Pow2(b), Pow2(63 - b));
  }

  lemma BitRoomArith(w: nat, p: nat, q: nat)
    requires p > 0 && q > 0 && w < 2 * p * q && (w / p) % 2 == 0
    ensures w + p < 2 * p * q + 1 && w + p <= 2 * p * q
    ensures w + p < 2 * p * q
  {
    DivMod(w, p);
    var h := w / p;
    QuotientBelow(w, p, 2 * q) by { assert p * (2 * q) == 2 * p * q; }
    assert h + 2 <= 2 * q;
    MulMono(p, h + 2, 2 * q);
    assert p * (h + 2) == h * p + 2 * p;
  }

  /** setBit on a number whose bits up to i are clear adds 2^i. */
  method SetBit(x: seq<u64>, i: nat) returns (out: seq<u64>)
    requires i < 64 * |x| && Val(x) % Pow2(i + 1) == 0
    ensures |out| == |x| && Val(out) == Val(x) + Pow2(i)
  {
    var k, b := i / 64, i % 64;
    WordBitClear(x, i);
    out := x[k := OrBit(x[k], b)];
    ValUpdate(x, k, OrBit(x[k], b));
    WeightPow2(k);
    Pow2Add(64 * k, b);
  }

  lemma WordBitClear(x: seq<u64>, i: nat)
    requires i < 64 * |x| && Val(x) % Pow2(i + 1) == 0
    ensures (x[i / 64] / Pow2(i % 64)) % 2 == 0
  {
    var k, b := i / 64, i % 64;
    hide Val, Weight, Pow2;
    ValSplit(x, k);
    ValSplit(x[k..], 1);
    assert x[k..][..1] == [x[k]];
    ValOne(x[k]);
    WeightPow2(k);
    Pow2Add(64 * k, b + 1);
    Pow2Add(b + 1, 63 - b);
    Pow2Wide();
    WeightPow2(1);
    ValBound(x[..k]);
    Pow2Double(b);
    BitClearArith(Val(x[..k]), x[k], Val(x[k..][1..]), Weight(k), Pow2(b), Pow2(63 - b), W);
  }

  lemma BitClearArith(low: nat, word: nat, high: nat, wk: nat, p: nat, q: nat, w: nat)
    requires wk > 0 && p > 0 && q > 0 && low < wk && (2 * p) * q == w
    requires (low + wk * (word + w * high)) % (wk * (2 * p)) == 0
    ensures (word / p) % 2 == 0
  {
    var m := wk * (2 * p);
    var v := low + wk * (word + w * high);
    assert w * high == (2 * p) * (q * high);
    DivMod(v, m);
    var t := v / m;
    assert v == t * m;
    assert t * m == wk * (t * (2 * p));
    var c := t * (2 * p) - word - w * high;
    assert low == wk * c by {
      assert wk * c == wk * (t * (2 * p)) - wk * (word + w * high);
    }
    if c >= 1 { MulMono(wk, 1, c); }
    if c <= -1 { MulMono(wk, c, -1); }
    assert c == 0;
    assert word == (2 * (t - q * high)) * p by {
      assert (2 * (t - q * high)) * p == t * (2 * p) - (2 * p) * (q * high);
    }
    DivUnique(word, p, 2 * (t - q * high), 0);
  }

  // ---------------------------------------------------------------- division

  /** The single-word divisor path: one Div64 per word from the top. */
  method DivByWord(numerator: seq<u64>, d: u64) returns (quotient: seq<u64>, carry: u64)
    requires d > 0
    ensures |quotient| == |numerator|
    ensures Val(quotient) == Val(numerator) / d && carry == Val(numerator) % d
  {
    var n := |numerator|;
    quotient, carry := [], 0;
    var i := n;
    while i > 0
      invariant 0 <= i <= n && |quotient| == n - i && carry < d
      invariant Val(numerator[i..]) == Val(quotient) * d + carry
    {
      i := i - 1;
      assert numerator[i..] == [numerator[i]] + numerator[i + 1..];
      var r := Div64(carry, numerator[i], d);
      DivWordStep(Val(quotient), d, carry, numerator[i], r.0, r.1);
      ghost var q0 := quotient;
      quotient := [r.0] + quotient;
      assert quotient[1..] == q0;
      carry := r.1;
    }
    assert numerator[0..] == numerator;
    DivUnique(Val(numerator), d, Val(quotient), carry);
  }

  lemma DivWordStep(q: int, d: int, c: int, w: int, r0: int, r1: int)
    requires r0 * d + r1 == c * W + w
    ensures w + W * (q * d + c) == (r0 + W * q) * d + r1
  {}

  /** divMod256: exact quotient and remainder for every nonzero divisor. */
  method DivMod256(numerator: U256, denominator: U256) returns (quotient: U256, remainder: U256)
    requires Val(denominator) > 0
    ensures Val(quotient) == Val(numerator) / Val(denominator)
    ensures Val(remainder) == Val(numerator) % Val(denominator)
  {
    ghost var n, d := Val(numerator), Val(denominator);
    var c := CmpLimbs(numerator, denominator);
    if c < 0 {
      quotient, remainder := Zeros(4), numerator;
      ValZeros(4);
      DivUnique(n, d, 0, n);
      return;
    }
    IsZeroVal(denominator[1..]);
    if IsZero(denominator[1..]) {
      var q, carry := DivByWord(numerator, denominator[0]);
      quotient, remainder := q, [carry, 0, 0, 0];
      Val4(remainder);
      return;
    }
    var nBits := BitLenLimbs(numerator);
    var dBits := BitLenLimbs(denominator);
    BitLenMono(d, n);
    var shift := nBits - dBits;
    AlignedShift(n, d, shift, |numerator|) by { ValBound(numerator); }
    var shifted := ShlLimbs(denominator, shift);
    quotient, remainder := DivideBits(numerator, shifted, shift, d);
    DivUnique(n, d, Val(quotient), Val(remainder));
  }

  /** One quotient bit: subtract the shifted divisor when it fits. */
  method DivideBit(q: U256, r: U256, shifted: U256, shift: nat, ghost d: nat) returns (quotient: U256, remainder: U256)
    requires shift < 256 && Val(shifted) == d * Pow2(shift)
    requires Val(q) % Pow2(shift + 1) == 0 && Val(r) < 2 * Val(shifted)
    ensures Val(quotient) * d + Val(remainder) == Val(q) * d + Val(r)
    ensures Val(quotient) % Pow2(shift) == 0 && Val(remainder) < Val(shifted)
  {
    quotient, remainder := q, r;
    var ge := CmpLimbs(remainder, shifted);
    if ge >= 0 {
      var borrow;
      remainder, borrow := SubLimbs(remainder, shifted);
      quotient := SetBit(quotient, shift);
      QuotientStep(Val(q), Val(r), d, Pow2(shift));
    }
    QuotientLow(Val(q), Val(quotient), Pow2(shift));
  }

  /** The subtract-and-shift loop of divMod256: one quotient bit per step. */
  method DivideBits(numerator: U256, aligned: U256, top: nat, ghost d: nat) returns (quotient: U256, remainder: U256)
    requires d > 0 && top < 256 && Val(aligned) == d * Pow2(top)
    requires Val(numerator) < 2 * (d * Pow2(top))
    ensures Val(numerator) == Val(quotient) * d + Val(remainder)
    ensures Val(remainder) < d
  {
    quotient, remainder := Zeros(4), numerator;
    ValZeros(4);
    var shift, shifted := top, aligned;
    DivUnique(0, Pow2(top + 1), 0, 0);
    while true
      invariant 0 <= shift < 256
      invariant Val(shifted) == d * Pow2(shift)
      invariant Val(numerator) == Val(quotient) * d + Val(remainder)
      invariant Val(quotient) % Pow2(shift + 1) == 0
      invariant Val(remainder) < 2 * Val(shifted)
      decreases shift
    {
      quotient, remainder := DivideBit(quotient, remainder, shifted, shift, d);
      if shift == 0 {
        break;
      }
      Halve(d, Pow2(shift - 1));
      shifted := Shr1(shifted);
      shift := shift - 1;
    }
    assert Pow2(0) == 1;
  }

  lemma QuotientStep(q: int, r: int, d: int, p: int)
    ensures (q + p) * d + (r - d * p) == q * d + r
  {}

  lemma QuotientLow(q: nat, q': nat, p: nat)
    requires p > 0 && q % (2 * p) == 0 && (q' == q || q' == q + p)
    ensures q' % p == 0
  {
    DivMod(q, 2 * p);
    var t := q / (2 * p);
    assert t * (2 * p) == (2 * t) * p;
    assert (2 * t + 1) * p == (2 * t) * p + p;
    DivUnique(q', p, if q' == q then 2 * t else 2 * t + 1, 0);
  }

  lemma Halve(d: nat, p: nat)
    ensures (d * (2 * p)) / 2 == d * p && d * (2 * p) == 2 * (d * p)
  {
    assert d * (2 * p) == 2 * (d * p);
  }

  /** Aligning the leading bits keeps the shifted divisor inside the words. */
  lemma AlignedShift(n: nat, d: nat, shift: nat, words: nat)
    requires 0 < d <= n < Weight(words) && shift == BitLen(n) - BitLen(d)
    ensures shift < 64 * words
    ensures (d * Pow2(shift)) % Weight(words) == d * Pow2(shift)
    ensures n < 2 * (d * Pow2(shift))
  {
    hide BitLen, Pow2, Weight;
    WeightPow2(words);
    BitLenAtMost(n, 64 * words);
    BitLenBounds(n);
    BitLenBounds(d);
    BitLenShift(d, shift);
    Pow2Double(BitLen(n) - 1);
    var v := d * Pow2(shift);
    MulMono(d, 1, Pow2(shift));
    BitLenBounds(v);
    Pow2Mono(BitLen(n), 64 * words);
    DivUnique(v, Weight(words), 0, v);
  }
}
