/** heeaReduceSignedProduct of internal/r51x5/heea_base_split.go: an exact signed product reduced to
    the canonical scalar modulo L. */
module HeeaProduct {
  import opened Arith
  import opened Words
  import opened Fixed256
  import opened Divide256
  import opened Bytes
  import opened BitFields
  import opened Selection
  import opened ScalarMod

  /** An arbitrary-width signed integer: magnitude without leading zero bytes, zero never negative. */
  datatype SignedMagnitude = SignedMagnitude(magnitude: seq<u8>, negative: bool)

  predicate Normalized(x: SignedMagnitude) {
    && (|x.magnitude| > 0 ==> x.magnitude[|x.magnitude| - 1] != 0)
    && (|x.magnitude| == 0 ==> !x.negative)
  }

  function SignedValue(x: SignedMagnitude): int {
    if x.negative then -(LeValue(x.magnitude) as int) else LeValue(x.magnitude)
  }

  lemma TopByteSplit(b: seq<u8>)
    requires |b| > 0
    ensures LeValue(b) == LeValue(b[..|b| - 1]) + Pow2(8 * (|b| - 1)) * b[|b| - 1]
    ensures LeValue(b[..|b| - 1]) < Pow2(8 * (|b| - 1))
  {
    hide LeValue, Pow2;
    var n := |b| - 1;
    assert b == b[..n] + [b[n]];
    LeAppend(b[..n], [b[n]]);
    LeOne(b[n]);
    LeBound(b[..n]);
  }

  /** heeaSignedMagnitudeView: drop leading zero bytes, keep the exact signed value. */
  method View(magnitude: seq<u8>, negative: bool) returns (x: SignedMagnitude)
    ensures Normalized(x) && |x.magnitude| <= |magnitude| && LeValue(x.magnitude) == LeValue(magnitude)
    ensures SignedValue(x) == if negative then -(LeValue(magnitude) as int) else LeValue(magnitude)
  {
    var end := |magnitude|;
    assert magnitude[..end] == magnitude;
    while end > 0 && magnitude[end - 1] == 0
      invariant 0 <= end <= |magnitude| && LeValue(magnitude[..end]) == LeValue(magnitude)
    {
      TopByteSplit(magnitude[..end]);
      assert magnitude[..end][..end - 1] == magnitude[..end - 1];
      assert Pow2(8 * (end - 1)) * 0 == 0;
      end := end - 1;
    }
    if end == 0 {
      return SignedMagnitude([], false);
    }
    return SignedMagnitude(magnitude[..end], negative);
  }

  /** SignedMagnitude.BitLen counts the bits of the magnitude. */
  function MagnitudeBits(x: SignedMagnitude): (n: nat)
    requires Normalized(x)
    ensures n == BitLen(LeValue(x.magnitude)) && |x.magnitude| * 8 < n + 8
  {
    if |x.magnitude| == 0 then 0
    else
      var n := |x.magnitude| - 1;
      TopByteBits(x.magnitude);
      n * 8 + BitLen(x.magnitude[n])
  }

  lemma TopByteBits(b: seq<u8>)
    requires |b| > 0 && b[|b| - 1] != 0
    ensures BitLen(LeValue(b)) == (|b| - 1) * 8 + BitLen(b[|b| - 1]) && BitLen(b[|b| - 1]) >= 1
  {
    TopByteSplit(b);
    BitLenBounds(b[|b| - 1]);
    hide LeValue, BitLen, Pow2;
    var n, top := |b| - 1, b[|b| - 1];
    TopBits(LeValue(b[..n]), 8 * n, top, BitLen(top));
    BitLenExact(LeValue(b), 8 * n + BitLen(top));
  }

  lemma TopBits(low: nat, at: nat, top: nat, m: nat)
    requires m >= 1 && low < Pow2(at) && Pow2(m - 1) <= top < Pow2(m)
    ensures Pow2(at + m - 1) <= low + Pow2(at) * top < Pow2(at + m)
  {
    Pow2Add(at, m);
    Pow2Add(at, m - 1);
    hide Pow2;
    MulMono(Pow2(at), Pow2(m - 1), top);
    WordGap(Pow2(at), low, top, Pow2(m));
  }

  lemma NonZeroMagnitude(x: SignedMagnitude)
    requires Normalized(x)
    ensures LeValue(x.magnitude) == 0 <==> |x.magnitude| == 0
  {
    assert MagnitudeBits(x) == BitLen(LeValue(x.magnitude));
    if |x.magnitude| > 0 { TopByteBits(x.magnitude); }
  }

  // ---------------------------------------------------------------- words and bytes

  /** heeaLoadMagnitudeWords: byte i lands in word i/8 at bit 8*(i%8). */
  method LoadMagnitudeWords(magnitude: seq<u8>) returns (out: seq<u64>)
    requires |magnitude| <= 64
    ensures |out| == 8 && Val(out) == LeValue(magnitude)
    ensures Val(out[..(|magnitude| + 7) / 8]) == LeValue(magnitude)
  {
    out := Zeros(8);
    ValZeros(8);
    assert magnitude[..0] == [] && LeValue([]) == 0 && Pow2(0) == 1;
    hide Val, Weight, LeValue, Pow2, OrFields;
    for i := 0 to |magnitude|
      invariant |out| == 8 && Val(out) == LeValue(magnitude[..i])
      invariant i < 64 ==> out[i / 8] < Pow2(8 * (i % 8))
      invariant forall j :: (i + 7) / 8 <= j < 8 ==> out[j] == 0
    {
      out := PlaceByte(out, magnitude, i);
    }
    assert magnitude[..|magnitude|] == magnitude;
    var n := (|magnitude| + 7) / 8;
    ValSplit(out, n);
    IsZeroVal(out[n..]);
    assert Weight(n) * 0 == 0;
  }

  /** out[i>>3] |= uint64(value) << ((i&7)*8). */
  method PlaceByte(words: seq<u64>, magnitude: seq<u8>, i: nat) returns (out: seq<u64>)
    requires i < |magnitude| <= 64 && |words| == 8 && Val(words) == LeValue(magnitude[..i])
    requires words[i / 8] < Pow2(8 * (i % 8)) && forall j :: (i + 7) / 8 <= j < 8 ==> words[j] == 0
    ensures |out| == 8 && Val(out) == LeValue(magnitude[..i + 1])
    ensures i + 1 < 64 ==> out[(i + 1) / 8] < Pow2(8 * ((i + 1) % 8))
    ensures forall j :: (i + 8) / 8 <= j < 8 ==> out[j] == 0
  {
    hide Pow2, Val, LeValue, Weight;
    var k, s := i / 8, 8 * (i % 8);
    ByteFits(magnitude[i], s, words[k]);
    Pow2Double(0);
    var word := OrFields(magnitude[i] * Pow2(s), words[k], s);
    out := words[k := word];
    ValUpdate(words, k, word);
    ByteAdded(magnitude, i, k, s);
  }

  lemma ByteAdded(magnitude: seq<u8>, i: nat, k: nat, s: nat)
    requires i < |magnitude| && 64 * k + s == 8 * i
    ensures LeValue(magnitude[..i + 1]) == LeValue(magnitude[..i]) + Weight(k) * (magnitude[i] * Pow2(s))
  {
    hide Pow2, LeValue, Weight;
    TopByteSplit(magnitude[..i + 1]);
    assert magnitude[..i + 1][..i] == magnitude[..i];
    WeightPow2(k);
    Pow2Add(64 * k, s);
    LoadArith(Weight(k), Pow2(s), magnitude[i]);
  }

  lemma LoadArith(w: int, p: int, b: int)
    ensures w * (b * p) == (w * p) * b
  {}

  lemma ByteFits(b: u8, s: nat, low: nat)
    requires s <= 56 && low < Pow2(s)
    ensures b * Pow2(s) < W && (b * Pow2(s)) % Pow2(s) == 0
    ensures b * Pow2(s) + low < Pow2(s + 8)
  {
    Pow2Add(s, 8);
    Pow2Small();
    Pow2Mono(s + 8, 64);
    Pow2Wide();
    hide Pow2;
    ByteArith(b, Pow2(s), low);
  }

  lemma ByteArith(b: u8, p: nat, low: nat)
    requires low < p
    ensures 0 <= b * p && b * p + low < 256 * p && (b * p) % p == 0
  {
    MulNonNeg(b, p);
    DivUnique(b * p, p, b, 0);
    MulMono(p, b + 1, 256);
  }

  /** binary.LittleEndian.PutUint64. */
  function PutWord(w: u64): (b: seq<u8>)
    ensures |b| == 8 && LeValue(b) == w
  {
    Pow2Small();
    var b := seq(8, i requires 0 <= i < 8 => Bits(w, 8 * i, 8));
    EightFields(b, w);
    b
  }

  lemma EightFields(b: seq<u8>, w: u64)
    requires |b| == 8 && forall i :: 0 <= i < 8 ==> b[i] == Bits(w, 8 * i, 8)
    ensures LeValue(b) == w
  {
    hide Bits, LeValue;
    BytesOfFields(b, w, 0);
    FieldsOfWord(w, LeValue(b), 8 * |b|);
  }

  lemma FieldsOfWord(w: u64, x: nat, n: nat)
    requires n == 64 && w / Pow2(0) == x + Pow2(n) * (w / Pow2(0 + n))
    ensures x == w
  {
    Pow2Wide();
    DivUnique(w, Pow2(n), 0, w);
    assert Pow2(0) == 1;
    DivUnique(w, 1, w, 0);
  }

  function {:induction false} PutWords(x: seq<u64>): (b: seq<u8>)
    ensures |b| == 8 * |x| && LeValue(b) == Val(x)
  {
    if |x| == 0 then []
    else
      LeAppend(PutWord(x[0]), PutWords(x[1..]));
      Pow2Wide();
      assert 8 * 8 == 64;
      PutWord(x[0]) + PutWords(x[1..])
  }

  // ---------------------------------------------------------------- the product

  /** heeaNegateCanonicalScalar: L - x, except that zero stays zero; its borrow panic is unreachable. */
  method NegateCanonicalScalar(x: Bytes32) returns (out: Bytes32)
    requires LeValue(x) < L
    ensures LeValue(out) == (-(LeValue(x) as int)) % L
  {
    var limbs := FromBytesLE(x);
    IsZeroVal(limbs);
    ConstantValues();
    if IsZero(limbs) {
      DivUnique(0, L, 0, 0);
      return x;
    }
    var value, borrow := SubLimbs(FIXED_ORDER, limbs);
    assert borrow == 0;
    assert Weight(4) * 0 == 0;
    DivUnique(-(LeValue(x) as int), L, -1, Val(value));
    out := PutWords(value);
  }

  /** The product fits 512 bits whenever the bit lengths add up to at most 512. */
  lemma ProductFits(x: nat, y: nat, bits: nat)
    requires BitLen(x) + BitLen(y) <= bits
    ensures x * y < Pow2(bits)
  {
    BitLenBounds(x);
    BitLenBounds(y);
    Pow2Add(BitLen(x), BitLen(y));
    Pow2Mono(BitLen(x) + BitLen(y), bits);
    hide BitLen, Pow2;
    ScalarMod.ProductBelow(x, Pow2(BitLen(x)), y, Pow2(BitLen(y)));
  }

  /** x*y modulo L, or a fallback exactly when both are nonzero and their bit lengths exceed 512. */
  method ReduceSignedProduct(x: SignedMagnitude, y: SignedMagnitude) returns (out: Bytes32, ok: bool)
    requires Normalized(x) && Normalized(y)
    ensures ok <==> SignedValue(x) == 0 || SignedValue(y) == 0
                    || BitLen(LeValue(x.magnitude)) + BitLen(LeValue(y.magnitude)) <= 512
    ensures ok ==> LeValue(out) == (SignedValue(x) * SignedValue(y)) % L
    ensures !ok ==> out == Zero32
  {
    hide Val, LeValue, BitLen, Pow2, Weight;
    out := Zero32;
    NonZeroMagnitude(x);
    NonZeroMagnitude(y);
    if |x.magnitude| == 0 || |y.magnitude| == 0 {
      ZeroBytes();
      ZeroProducts(SignedValue(x), SignedValue(y));
      return out, true;
    }
    if MagnitudeBits(x) + MagnitudeBits(y) > 512 || |x.magnitude| > 64 || |y.magnitude| > 64 {
      NonZeroBits(x);
      NonZeroBits(y);
      return out, false;
    }
    var xWords := LoadMagnitudeWords(x.magnitude);
    var yWords := LoadMagnitudeWords(y.magnitude);
    var xCount, yCount := (|x.magnitude| + 7) / 8, (|y.magnitude| + 7) / 8;
    ProductWidth(LeValue(x.magnitude), LeValue(y.magnitude), 512);
    var product := MultiplyWords(xWords, yWords, xCount, yCount);
    out := ReduceUniformScalar(PutWords(product));
    ReducedIs(LeValue(x.magnitude), LeValue(y.magnitude), L, x.negative, y.negative);
    if x.negative != y.negative {
      out := NegateCanonicalScalar(out);
    }
    ok := true;
  }

  lemma ZeroBytes()
    ensures LeValue(Zero32) == 0
  {
    ZerosValue(Zero32);
  }

  lemma {:induction false} ZerosValue(b: seq<u8>)
    requires forall i :: 0 <= i < |b| ==> b[i] == 0
    ensures LeValue(b) == 0
  {
    if |b| > 0 { ZerosValue(b[1..]); }
  }

  lemma ZeroProducts(x: int, y: int)
    requires x == 0 || y == 0
    ensures (x * y) % L == 0
  {
    DivUnique(0, L, 0, 0);
  }

  lemma NonZeroBits(x: SignedMagnitude)
    requires Normalized(x) && |x.magnitude| > 0
    ensures MagnitudeBits(x) >= 1
  {
    TopByteBits(x.magnitude);
  }

  lemma ProductWidth(x: nat, y: nat, bits: nat)
    requires bits == 512 && BitLen(x) + BitLen(y) <= bits
    ensures x * y < Weight(8)
  {
    ProductFits(x, y, bits);
    WeightPow2(8);
  }

  lemma ReducedIs(x: nat, y: nat, n: nat, xNegative: bool, yNegative: bool)
    requires n > 0
    ensures var p := (if xNegative then -(x as int) else x) * (if yNegative then -(y as int) else y);
      if xNegative != yNegative then p % n == (-((x * y) % n)) % n else p % n == (x * y) % n
  {
    var v := x * y;
    if xNegative != yNegative {
      assert (-(x as int)) * y == -v && x * (-(y as int)) == -v;
      DivMod(v, n);
      DivMod(-(v % n), n);
      NegatedQuotient(v / n, (-(v % n)) / n, n);
      DivUnique(-v, n, -(v / n) + (-(v % n)) / n, (-(v % n)) % n);
    } else {
      assert (-(x as int)) * (-(y as int)) == v;
    }
  }

  lemma NegatedQuotient(q: int, e: int, n: int)
    ensures (-q + e) * n == -(q * n) + e * n
  {}

  /** The schoolbook rows; no accumulation leaves the eight words, so the loop's fallback is dead. */
  method MultiplyWords(x: seq<u64>, y: seq<u64>, xCount: nat, yCount: nat) returns (product: seq<u64>)
    requires |x| == |y| && xCount <= |x| && yCount <= |y|
    requires Val(x[..xCount]) == Val(x) && Val(y[..yCount]) == Val(y)
    requires Val(x) * Val(y) < Weight(|x|)
    ensures |product| == |x| && Val(product) == Val(x) * Val(y)
  {
    product := Zeros(|x|);
    ValZeros(|x|);
    assert x[..0] == [];
    EmptyVal();
    hide Val, Weight;
    for i := 0 to xCount
      invariant |product| == |x| && Val(product) == Val(x[..i]) * Val(y)
    {
      RowFits(x, i, Val(y));
      product := MulRow(product, x[i], i, y, yCount);
    }
  }

  lemma RowFits(x: seq<u64>, i: nat, y: nat)
    requires i < |x|
    ensures Val(x[..i + 1]) * y == Val(x[..i]) * y + Weight(i) * (x[i] * y) <= Val(x) * y
  {
    hide Val, Weight;
    ValSnoc(x, i);
    RowBound(Val(x[..i]), Weight(i), x[i], y);
    PrefixValue(x, i + 1);
    MulMono(y, Val(x[..i + 1]), Val(x));
  }

  lemma EmptyVal()
    ensures Val([]) == 0
  {}

  lemma RowBound(a: int, w: int, xi: int, y: int)
    ensures (a + w * xi) * y == a * y + w * (xi * y)
  {}

  lemma PrefixValue(x: seq<u64>, i: nat)
    requires i <= |x|
    ensures Val(x[..i]) <= Val(x)
  {
    ValSplit(x, i);
    MulNonNeg(Weight(i), Val(x[i..]));
  }

  // ---------------------------------------------------------------- what the fallback means

  /** A fallback is not proof that the product needs more than 512 bits: 2^256 * 2^255 fits. */
  lemma FallbackMayFit(x: nat, y: nat, n: nat)
    requires n == 256 && x == Pow2(n) && y == Pow2(n - 1)
    ensures BitLen(x) + BitLen(y) == 2 * n + 1 && x * y < Pow2(2 * n)
  {
    BitLenExact(x, n + 1);
    BitLenExact(y, n);
    Pow2Add(n, n - 1);
    Pow2Strict(2 * n - 1, 2 * n);
  }
}
