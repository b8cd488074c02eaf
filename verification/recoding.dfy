/** Balanced radix-2^w digits of a scalar, and the two ways the repository extracts their bits
    (internal/r51x5/scalar_fixed.go, internal/r51x5/asymmetric_fixed_b_dsm.go). */
module Recoding {
  import opened Arith
  import opened Words
  import opened Fixed256
  import opened Bytes
  import opened BitFields
  import opened Selection

  /** d[0] + d[1]*2^w + d[2]*2^(2w) + ... */
  function DigitSum(d: seq<int>, w: nat): int {
    if |d| == 0 then 0 else d[0] + Pow2(w) * DigitSum(d[1..], w)
  }

  predicate Balanced(d: seq<int>, w: nat)
    requires w >= 1
  {
    forall i :: 0 <= i < |d| ==> -(Pow2(w - 1) as int) <= d[i] < Pow2(w - 1)
  }

  lemma {:induction false} DigitSumAppend(a: seq<int>, b: seq<int>, w: nat)
    ensures DigitSum(a + b, w) == DigitSum(a, w) + Pow2(w * |a|) * DigitSum(b, w)
  {
    if |a| == 0 {
      assert a + b == b;
      assert w * |a| == 0;
    } else {
      DigitSumAppend(a[1..], b, w);
      assert (a + b)[1..] == a[1..] + b;
      assert w * |a| == w + w * (|a| - 1);
      Pow2Add(w, w * (|a| - 1));
      AppendArith(DigitSum(a[1..], w), Pow2(w), Pow2(w * (|a| - 1)), DigitSum(b, w));
    }
  }

  lemma AppendArith(x: int, p: int, q: int, y: int)
    ensures p * (x + q * y) == p * x + (p * q) * y
  {}

  lemma DigitSumOne(x: int, w: nat)
    ensures DigitSum([x], w) == x
  {
    assert DigitSum([x], w) == x + Pow2(w) * DigitSum([], w);
    assert Pow2(w) * 0 == 0;
  }

  lemma DigitSumSnoc(d: seq<int>, i: nat, w: nat)
    requires i < |d|
    ensures DigitSum(d[..i + 1], w) == DigitSum(d[..i], w) + Pow2(w * i) * d[i]
  {
    assert d[..i + 1] == d[..i] + [d[i]];
    DigitSumAppend(d[..i], [d[i]], w);
    DigitSumOne(d[i], w);
  }

  lemma {:induction false} DigitSumZeros(d: seq<int>, w: nat)
    requires forall i :: 0 <= i < |d| ==> d[i] == 0
    ensures DigitSum(d, w) == 0
  {
    if |d| > 0 {
      DigitSumZeros(d[1..], w);
      assert Pow2(w) * 0 == 0;
    }
  }

  /** Negating every digit negates the sum. */
  lemma {:induction false} DigitSumNegated(a: seq<int>, b: seq<int>, w: nat)
    requires |a| == |b| && forall i :: 0 <= i < |a| ==> a[i] == -b[i]
    ensures DigitSum(a, w) == -DigitSum(b, w)
  {
    if |a| > 0 {
      DigitSumNegated(a[1..], b[1..], w);
      assert Pow2(w) * -DigitSum(b[1..], w) == -(Pow2(w) * DigitSum(b[1..], w));
    }
  }

  /** Balanced digits are determined by their number and their sum. */
  lemma {:induction false} BalancedUnique(a: seq<int>, b: seq<int>, w: nat)
    requires w >= 1 && |a| == |b| && Balanced(a, w) && Balanced(b, w) && DigitSum(a, w) == DigitSum(b, w)
    ensures a == b
  {
    if |a| > 0 {
      var p, q := Pow2(w), DigitSum(b[1..], w) - DigitSum(a[1..], w);
      assert p == 2 * Pow2(w - 1);
      assert a[0] - b[0] == p * q;
      if q >= 1 { MulMono(p, 1, q); }
      if q <= -1 { MulMono(p, q, -1); }
      assert forall i :: 0 <= i < |a| - 1 ==> a[1..][i] == a[i + 1] && b[1..][i] == b[i + 1];
      BalancedUnique(a[1..], b[1..], w);
      assert a == [a[0]] + a[1..] && b == [b[0]] + b[1..];
    }
  }

  // ---------------------------------------------------------------- the carry recurrence

  /** carry = (digit + half) >> w with digit = bits + incoming carry. */
  function CarryOut(x: nat, w: nat): (c: nat)
    requires w >= 1 && x <= Pow2(w)
    ensures c <= 1 && -(Pow2(w - 1) as int) <= x - c * Pow2(w) < Pow2(w - 1)
    ensures c == 0 <==> x < Pow2(w - 1)
  {
    CarryRange(x, Pow2(w - 1));
    (x + Pow2(w - 1)) / Pow2(w)
  }

  lemma CarryRange(x: nat, h: nat)
    requires h >= 1 && x <= 2 * h
    ensures (x + h) / (2 * h) == (if x < h then 0 else 1)
  {
    if x < h { DivUnique(x + h, 2 * h, 0, x + h); } else { DivUnique(x + h, 2 * h, 1, x - h); }
  }

  /** The carry into digit i. */
  function CarryInto(v: nat, w: nat, i: nat): (c: nat)
    requires w >= 1
    ensures c <= 1
  {
    if i == 0 then 0 else CarryOut(Bits(v, w * (i - 1), w) + CarryInto(v, w, i - 1), w)
  }

  function Digit(v: nat, w: nat, i: nat): (d: int)
    requires w >= 1
    ensures -(Pow2(w - 1) as int) <= d < Pow2(w - 1)
  {
    Bits(v, w * i, w) + CarryInto(v, w, i) - CarryInto(v, w, i + 1) * Pow2(w)
  }

  /** One round of the carry loop, as the code computes it. */
  lemma DigitStep(v: nat, w: nat, i: nat, bits: nat, carry: nat)
    requires w >= 1 && bits == Bits(v, w * i, w) && carry == CarryInto(v, w, i)
    ensures (bits + carry + Pow2(w - 1)) / Pow2(w) == CarryInto(v, w, i + 1)
    ensures bits + carry - CarryInto(v, w, i + 1) * Pow2(w) == Digit(v, w, i)
  {}

  function Digits(v: nat, w: nat, n: nat): (d: seq<int>)
    requires w >= 1
    ensures |d| == n && Balanced(d, w)
  {
    seq(n, i requires 0 <= i < n => Digit(v, w, i))
  }

  lemma ModPeel(v: nat, a: nat, w: nat)
    ensures v % Pow2(a + w) == v % Pow2(a) + Pow2(a) * Bits(v, a, w)
  {
    Pow2Add(a, w);
    DivMod(v, Pow2(a));
    QuotientNat(v, Pow2(a));
    DivMod(v / Pow2(a), Pow2(w));
    hide Pow2;
    PeelModArith(v, Pow2(a), Pow2(w), v / Pow2(a), v % Pow2(a), (v / Pow2(a)) / Pow2(w), (v / Pow2(a)) % Pow2(w));
  }

  lemma PeelModArith(v: nat, p: nat, q: nat, a: int, b: int, c: int, d: int)
    requires p > 0 && q > 0 && v == a * p + b && 0 <= b < p && a == c * q + d && 0 <= d < q
    ensures p * q > 0 && v % (p * q) == b + p * d
  {
    MulMono(p, 1, q);
    MulMono(p, d + 1, q);
    MulNonNeg(p, d);
    assert v == c * (p * q) + (b + p * d) by { assert (c * q + d) * p == c * (p * q) + p * d; }
    DivUnique(v, p * q, c, b + p * d);
  }

  /** The digits and the final carry hold exactly the low w*n bits. */
  lemma {:induction false} DigitsHold(v: nat, w: nat, n: nat)
    requires w >= 1
    ensures DigitSum(Digits(v, w, n), w) + Pow2(w * n) * CarryInto(v, w, n) == v % Pow2(w * n)
    decreases n
  {
    hide Bits, CarryInto, DigitSum, Digit, Digits;
    if n == 0 {
      NothingHeld(v, w);
    } else {
      var m := n - 1;
      var at := w * m;
      DigitsHold(v, w, m);
      DigitsGrow(v, w, m);
      AtNext(w, n);
      ModPeel(v, at, w);
      Pow2Add(at, w);
      HoldStep(v, w, m);
      hide Pow2;
      HoldFinal(DigitSum(Digits(v, w, m), w), Pow2(at), Pow2(w), Digit(v, w, m), Bits(v, at, w), CarryInto(v, w, m), CarryInto(v, w, n));
    }
  }

  lemma NothingHeld(v: nat, w: nat)
    requires w >= 1
    ensures DigitSum(Digits(v, w, 0), w) + Pow2(w * 0) * CarryInto(v, w, 0) == v % Pow2(w * 0)
  {
    assert w * 0 == 0 && Pow2(0) == 1;
  }

  lemma HoldFinal(s: int, p: int, q: int, d: int, b: int, c: int, c': int)
    requires p * d + (p * q) * c' == p * b + p * c
    ensures (s + p * d) + (p * q) * c' == (s + p * c) + p * b
  {}

  lemma AtNext(w: nat, n: nat)
    requires n >= 1
    ensures w * n == w * (n - 1) + w
  {}

  lemma DigitsGrow(v: nat, w: nat, m: nat)
    requires w >= 1
    ensures DigitSum(Digits(v, w, m + 1), w) == DigitSum(Digits(v, w, m), w) + Pow2(w * m) * Digit(v, w, m)
  {
    hide DigitSum, Pow2, Digit;
    var d := Digits(v, w, m + 1);
    assert d[..m] == Digits(v, w, m) && d[..m + 1] == d;
    DigitSumSnoc(d, m, w);
  }

  lemma HoldStep(v: nat, w: nat, m: nat)
    requires w >= 1
    ensures Pow2(w * m) * Digit(v, w, m) + (Pow2(w * m) * Pow2(w)) * CarryInto(v, w, m + 1)
         == Pow2(w * m) * Bits(v, w * m, w) + Pow2(w * m) * CarryInto(v, w, m)
  {
    hide Bits, CarryInto, Pow2;
    HoldArith(Pow2(w * m), Pow2(w), Bits(v, w * m, w), CarryInto(v, w, m), CarryInto(v, w, m + 1));
  }

  lemma HoldArith(p: int, q: int, b: int, c: int, d: int)
    ensures p * (b + c - d * q) + (p * q) * d == p * b + p * c
  {}

  /** Two spare top bits absorb the last carry: the digits are then the number itself. */
  lemma DigitsExact(v: nat, w: nat, n: nat)
    requires w >= 2 && w * n >= 2 && v < Pow2(w * n - 2)
    ensures CarryInto(v, w, n) == 0 && DigitSum(Digits(v, w, n), w) == v
  {
    var at := w * (n - 1);
    assert w * n == at + w;
    BitsTop(v, at, w, w * n - 2);
    Pow2Add(at, w - 2);
    QuotientBelow(v, Pow2(at), Pow2(w - 2));
    assert Pow2(w - 1) == 2 * Pow2(w - 2) && Pow2(w) == 2 * Pow2(w - 1);
    DigitsHold(v, w, n);
    assert Pow2(w * n) * 0 == 0;
    Pow2Mono(w * n - 2, w * n);
    DivUnique(v, Pow2(w * n), 0, v);
  }

  /** Canonical scalars leave at least two spare bits in every schedule the repository uses. */
  lemma CanonicalDigits(v: nat, w: nat, n: nat)
    requires v < L && w >= 2 && w * n >= 255
    ensures CarryInto(v, w, n) == 0 && DigitSum(Digits(v, w, n), w) == v
  {
    OrderBits(v, 253);
    Pow2Mono(253, w * n - 2);
    DigitsExact(v, w, n);
  }

  lemma OrderBits(v: nat, n: nat)
    requires v < L && n == 253
    ensures v < Pow2(n)
  {
    Pow2Wide();
    Pow2Add(n, 3);
    assert Pow2(3) == 8;
  }

  // ---------------------------------------------------------------- canonicalScalarBytes

  const SCALAR_ORDER_BYTES: seq<u8> :=
    [0xed, 0xd3, 0xf5, 0x5c, 0x1a, 0x63, 0x12, 0x58] + [0xd6, 0x9c, 0xf7, 0xa2, 0xde, 0xf9, 0xde, 0x14]
    + [0, 0, 0, 0, 0, 0, 0, 0] + [0, 0, 0, 0, 0, 0, 0, 0x10]

  lemma OrderBytes()
    ensures |SCALAR_ORDER_BYTES| == 32 && LeValue(SCALAR_ORDER_BYTES) == L
  {
    ConstantValues();
    OrderWords(SCALAR_ORDER_BYTES);
    LoadsValue(SCALAR_ORDER_BYTES, FIXED_ORDER) by { hide LeValue; }
  }

  lemma OrderWords(b: Bytes32)
    requires b == SCALAR_ORDER_BYTES
    ensures LeValue(b[0..8]) == FIXED_ORDER[0] && LeValue(b[8..16]) == FIXED_ORDER[1]
    ensures LeValue(b[16..24]) == FIXED_ORDER[2] && LeValue(b[24..32]) == FIXED_ORDER[3]
  {
    hide LeValue;
    EightBytes(b[0..8]);
    EightBytes(b[8..16]);
    EightBytes(b[16..24]);
    EightBytes(b[24..32]);
    hide LeValue;
    assert b[0..8] == [0xed, 0xd3, 0xf5, 0x5c, 0x1a, 0x63, 0x12, 0x58];
    assert b[8..16] == [0xd6, 0x9c, 0xf7, 0xa2, 0xde, 0xf9, 0xde, 0x14];
    assert b[16..24] == [0, 0, 0, 0, 0, 0, 0, 0];
    assert b[24..32] == [0, 0, 0, 0, 0, 0, 0, 0x10];
  }

  lemma EightBytes(s: seq<u8>)
    requires |s| == 8
    ensures LeValue(s) == (s[0] as int) + 0x100 * (s[1] as int) + 0x1_0000 * (s[2] as int) + 0x100_0000 * (s[3] as int)
      + 0x1_0000_0000 * (s[4] as int) + 0x100_0000_0000 * (s[5] as int) + 0x1_0000_0000_0000 * (s[6] as int)
      + 0x100_0000_0000_0000 * (s[7] as int)
  {
    FourBytes(s);
    FourBytes(s[4..]);
    assert s[4..][4..] == [];
  }

  lemma FourBytes(s: seq<u8>)
    requires |s| >= 4
    ensures LeValue(s) == (s[0] as int) + 0x100 * (s[1] as int) + 0x1_0000 * (s[2] as int) + 0x100_0000 * (s[3] as int)
      + 0x1_0000_0000 * LeValue(s[4..])
  {
    assert s[1..][1..] == s[2..] && s[2..][1..] == s[3..] && s[3..][1..] == s[4..];
    assert LeValue(s[3..]) == s[3] + 256 * LeValue(s[4..]);
    assert LeValue(s[2..]) == s[2] + 256 * LeValue(s[3..]);
    assert LeValue(s[1..]) == s[1] + 256 * LeValue(s[2..]);
  }

  lemma TopByteDecides(x: seq<u8>, y: seq<u8>, i: nat)
    requires i < |x| == |y| && x[i + 1..] == y[i + 1..] && x[i] < y[i]
    ensures LeValue(x) < LeValue(y)
  {
    ByteSplit(x, i);
    ByteSplit(y, i);
    LeBound(x[..i]);
    hide LeValue, Pow2;
    var t := 256 * LeValue(x[i + 1..]);
    MulNonNeg(Pow2(8 * i), LeValue(y[..i]));
    WordGap(Pow2(8 * i), LeValue(x[..i]), x[i] + t, y[i] + t);
  }

  lemma ByteSplit(x: seq<u8>, i: nat)
    requires i < |x|
    ensures LeValue(x) == LeValue(x[..i]) + Pow2(8 * i) * (x[i] + 256 * LeValue(x[i + 1..]))
  {
    hide LeValue, Pow2;
    assert x == x[..i] + x[i..];
    LeAppend(x[..i], x[i..]);
    LeHead(x[i..]);
    assert x[i..][1..] == x[i + 1..];
  }

  lemma LeHead(x: seq<u8>)
    requires |x| > 0
    ensures LeValue(x) == x[0] + 256 * LeValue(x[1..])
  {}

  method BytesBelow(x: Bytes32, y: Bytes32) returns (below: bool)
    ensures below <==> LeValue(x) < LeValue(y)
  {
    hide LeValue;
    var i := 32;
    while i > 0
      invariant 0 <= i <= 32
      invariant x[i..] == y[i..]
    {
      i := i - 1;
      assert x[i..] == [x[i]] + x[i + 1..] && y[i..] == [y[i]] + y[i + 1..];
      if x[i] < y[i] {
        TopByteDecides(x, y, i);
        return true;
      }
      if x[i] > y[i] {
        TopByteDecides(y, x, i);
        return false;
      }
    }
    assert x[0..] == x && y[0..] == y;
    return false;
  }

  method CanonicalScalarBytes(x: Bytes32) returns (ok: bool)
    ensures ok <==> LeValue(x) < L
  {
    OrderBytes();
    ok := BytesBelow(x, SCALAR_ORDER_BYTES);
  }

  // ---------------------------------------------------------------- extracting bits

  /** fixedScalarBits: a two-byte load, or the last byte alone, shifted and masked. */
  function FixedScalarBits(scalar: Bytes32, bit: nat, width: nat): (r: nat)
    requires bit < 256 && bit % 8 + width <= 16
    ensures r == Bits(LeValue(scalar), bit, width)
  {
    var o, shift := bit / 8, bit % 8;
    if o + 1 < 32 then
      LoadBits(scalar, o, 2, shift, width);
      Bits(LeValue(scalar[o..o + 2]), shift, width)
    else
      LastByteBits(scalar, shift, width);
      Bits(scalar[o], shift, width)
  }

  lemma LastByteBits(b: Bytes32, shift: nat, width: nat)
    requires shift < 8
    ensures Bits(b[31], shift, width) == Bits(LeValue(b), 248 + shift, width)
  {
    hide LeValue, Pow2, Bits;
    assert b == b[..31] + [b[31]];
    LeAppend(b[..31], [b[31]]);
    LeOne(b[31]);
    LeBound(b[..31]);
    assert 8 * |b[..31]| == 248;
    LastArith(LeValue(b[..31]), b[31], shift, width, 248);
  }

  lemma LastArith(low: nat, m: nat, shift: nat, width: nat, at: nat)
    requires low < Pow2(at)
    ensures Bits(m, shift, width) == Bits(low + Pow2(at) * m, at + shift, width)
  {
    hide Bits;
    assert Pow2(shift + width) * 0 == 0;
    BitsOfBlock(low, m, 0, at, shift + width, shift, width);
  }

  /** asymmetricFixedBScalarWords: four loaded words and a zero guard word. */
  function ScalarWords(scalar: Bytes32): (words: U320)
    ensures Val(words) == LeValue(scalar)
  {
    var x := FromBytesLE(scalar);
    assert Val([0]) == 0 + W * Val([]);
    ValAppend(x, [0]);
    assert Weight(4) * 0 == 0;
    x + [0]
  }

  /** asymmetricFixedBScalarWordBits, also the window of nonAdjacentForm: one word shifted, or-ed
      with the next one when the field straddles, masked. */
  function WordBits(words: U320, bit: nat, width: nat): (r: nat)
    requires bit < 256 && width <= 64
    ensures r == Bits(Val(words), bit, width)
  {
    var i, shift := bit / 64, bit % 64;
    WordPair(words, i, shift, width);
    ShrFits(words[i], shift);
    if shift + width > 64 then
      ShiftParts(words[i + 1], 64 - shift);
      ModNat(OrFields(Shl64(words[i + 1], 64 - shift), Shr64(words[i], shift), 64 - shift), Pow2(width));
      OrFields(Shl64(words[i + 1], 64 - shift), Shr64(words[i], shift), 64 - shift) % Pow2(width)
    else
      ModNat(Shr64(words[i], shift), Pow2(width));
      Shr64(words[i], shift) % Pow2(width)
  }

  lemma ShrFits(x: u64, s: nat)
    requires s < 64
    ensures Shr64(x, s) < Pow2(64 - s)
  {
    Pow2Add(s, 64 - s);
    Pow2Wide();
    QuotientBelow(x, Pow2(s), Pow2(64 - s));
  }

  /** What the two words say about the field. */
  lemma WordPair(words: U320, i: nat, shift: nat, width: nat)
    requires i < 4 && shift < 64 && width <= 64
    ensures shift + width <= 64 ==> Shr64(words[i], shift) % Pow2(width) == Bits(Val(words), 64 * i + shift, width)
    ensures shift + width > 64 ==>
      (Shl64(words[i + 1], 64 - shift) + Shr64(words[i], shift)) % Pow2(width) == Bits(Val(words), 64 * i + shift, width)
  {
    hide Val, Pow2, Shl64, Shr64, Bits, Weight;
    ValSplit(words, i);
    ValBound(words[..i]);
    WeightPow2(i);
    ValHead(words[i..]);
    ValHead(words[i + 1..]);
    assert words[i..][1..] == words[i + 1..] && words[i + 1..][1..] == words[i + 2..];
    FieldOfPair(Val(words[..i]), words[i], words[i + 1], Val(words[i + 2..]), 64 * i, shift, width);
  }

  lemma FieldOfPair(low: nat, x: u64, y: u64, u: nat, at: nat, shift: nat, width: nat)
    requires low < Pow2(at) && shift < 64 && width <= 64
    ensures shift + width <= 64 ==>
      Shr64(x, shift) % Pow2(width) == Bits(low + Pow2(at) * (x + W * (y + W * u)), at + shift, width)
    ensures shift + width > 64 ==>
      (Shl64(y, 64 - shift) + Shr64(x, shift)) % Pow2(width) == Bits(low + Pow2(at) * (x + W * (y + W * u)), at + shift, width)
  {
    hide Pow2, Shl64, Shr64, Bits;
    Pow2Wide();
    if shift + width <= 64 {
      NarrowField(low, x, y + W * u, at, shift, width, 64);
    } else {
      WideField(low, x, y, u, at, shift, width, 64);
    }
  }

  lemma NarrowField(low: nat, x: u64, t: nat, at: nat, shift: nat, width: nat, len: nat)
    requires low < Pow2(at) && shift + width <= len && Pow2(len) == W
    ensures Shr64(x, shift) % Pow2(width) == Bits(low + Pow2(at) * (x + W * t), at + shift, width)
  {
    hide Pow2, Shr64, Bits;
    BitsUnfold(x, shift, width);
    BitsOfBlock(low, x, t, at, len, shift, width);
  }

  lemma WideField(low: nat, x: u64, y: u64, u: nat, at: nat, shift: nat, width: nat, len: nat)
    requires low < Pow2(at) && 0 < shift < 64 && width <= 64 && len == 64
    ensures (Shl64(y, 64 - shift) + Shr64(x, shift)) % Pow2(width)
         == Bits(low + Pow2(at) * (x + W * (y + W * u)), at + shift, width)
  {
    hide Pow2, Shl64, Shr64, Bits;
    TwoWords(x, y, u);
    Pow2Wide();
    Pow2Add(len, len);
    Straddling(x, y, shift, width);
    BitsOfBlock(low, x + W * y, u, at, len + len, shift, width);
  }

  lemma ValHead(x: seq<u64>)
    requires |x| > 0
    ensures Val(x) == x[0] + W * Val(x[1..])
  {}

  lemma TwoWords(x: int, y: int, u: int)
    ensures x + W * (y + W * u) == (x + W * y) + (W * W) * u
  {}

  lemma BitsUnfold(x: u64, shift: nat, width: nat)
    ensures Bits(x, shift, width) == Shr64(x, shift) % Pow2(width)
  {}

  lemma Straddling(x: u64, y: u64, shift: nat, width: nat)
    requires 0 < shift < 64 && width <= 64
    ensures Bits(x + W * y, shift, width) == (Shl64(y, 64 - shift) + Shr64(x, shift)) % Pow2(width)
  {
    Pow2Add(shift, 64 - shift);
    Pow2Add(width, 64 - width);
    Pow2Wide();
    StraddleArith(x, y, Pow2(shift), Pow2(64 - shift), Pow2(width), Pow2(64 - width));
  }

  lemma StraddleArith(x: nat, y: nat, p: nat, q: nat, m: nat, r: nat)
    requires p > 0 && q > 0 && m > 0 && p * q == W && m * r == W
    ensures ((x + W * y) / p) % m == ((y * q) % W + x / p) % m
  {
    DivMod(x, p);
    assert x + W * y == (x / p + q * y) * p + x % p by {
      assert (x / p + q * y) * p == (x / p) * p + (p * q) * y;
    }
    DivUnique(x + W * y, p, x / p + q * y, x % p);
    DivMod(y * q, W);
    var k := (y * q) / W;
    ModShift((y * q) % W + x / p, m, r * k);
    assert x / p + q * y == ((y * q) % W + x / p) + (r * k) * m by { assert k * (m * r) == (r * k) * m; }
  }

  lemma ModShift(a: int, m: nat, k: int)
    requires m > 0
    ensures (a + k * m) % m == a % m
  {
    DivMod(a, m);
    assert a + k * m == (a / m + k) * m + a % m by { assert (a / m + k) * m == (a / m) * m + k * m; }
    DivUnique(a + k * m, m, a / m + k, a % m);
  }
}
