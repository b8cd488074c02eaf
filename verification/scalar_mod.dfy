/** scReduce and scMulAdd end to end: byte strings in, the unique canonical scalar out
    (internal/edwards25519/scalar.go, internal/r51x5/scalar_reduce.go). */
module ScalarMod {
  import opened Arith
  import opened Bytes
  import opened BitFields
  import opened Selection
  import opened ScalarReduce

  type Bytes64 = b: seq<u8> | |b| == 64 witness seq(64, _ => 0)

  // ---------------------------------------------------------------- loads

  /** 2097151 & (load >> shift) with the three- or four-byte load the schedule uses for limb i. */
  function LoadLimb(b: seq<u8>, i: nat): (x: int64)
    requires i < 23 && 21 * i / 8 + 4 <= |b|
    ensures x == Bits(LeValue(b), 21 * i, 21) && 0 <= x < B21
  {
    var offset, shift := 21 * i / 8, 21 * i % 8;
    var size := if shift <= 3 then 3 else 4;
    LoadBits(b, offset, size, shift, 21);
    Pow2TwentyOne();
    Bits(LeValue(b[offset..offset + size]), shift, 21)
  }

  /** An unmasked final load: everything from bit 21*i up. */
  function LoadTop(b: seq<u8>, i: nat, offset: nat, shift: nat): (x: int)
    requires offset + 4 == |b| && 8 * offset + shift == 21 * i && shift < 8
    ensures x == LeValue(b) / Pow2(21 * i) && 0 <= x < Pow2(32 - shift)
  {
    var block := b[offset..];
    assert b == b[..offset] + block;
    LeAppend(b[..offset], block);
    LeBound(b[..offset]);
    LeBound(block);
    Pow2Add(8 * offset, shift);
    Pow2Add(shift, 32 - shift);
    DropLow(LeValue(b[..offset]), Pow2(8 * offset), LeValue(block));
    DivDiv(LeValue(b), Pow2(8 * offset), Pow2(shift));
    QuotientNat(LeValue(block), Pow2(shift));
    QuotientBelow(LeValue(block), Pow2(shift), Pow2(32 - shift));
    LeValue(block) / Pow2(shift)
  }

  lemma QuotientBelow(n: nat, y: nat, m: nat)
    requires y > 0 && n < y * m
    ensures n / y < m
  {
    DivMod(n, y);
    if n / y >= m { MulMono(y, m, n / y); }
  }

  /** Limbs that are the 21-bit fields of v, the last one unmasked, denote v. */
  lemma {:induction false} FieldsDenote(s: seq<int>, v: nat, at: nat)
    requires |s| > 0
    requires forall i :: 0 <= i < |s| - 1 ==> s[i] == Bits(v, at + 21 * i, 21)
    requires s[|s| - 1] == v / Pow2(at + 21 * (|s| - 1))
    ensures Radix(s) == v / Pow2(at)
    decreases |s|
  {
    if |s| == 1 {
      assert s[1..] == [];
    } else {
      BitsPeel(v, at, 21);
      Pow2TwentyOne();
      forall i | 0 <= i < |s| - 2
        ensures s[1..][i] == Bits(v, at + 21 + 21 * i, 21)
      {
        assert s[1..][i] == s[i + 1];
      }
      assert at + 21 + 21 * (|s[1..]| - 1) == at + 21 * (|s| - 1);
      FieldsDenote(s[1..], v, at + 21);
    }
  }

  /** The 24 loads of a 64-byte string. */
  method LoadWide(input: Bytes64) returns (s: array<int64>)
    ensures fresh(s) && s.Length == 24
    ensures Radix(s[..]) == LeValue(input) && Ready(s[..])
  {
    hide Radix, LeValue, Pow2, Bits, LoadLimb, LoadTop;
    s := new int64[24](_ => 0);
    for i := 0 to 23
      invariant forall j :: 0 <= j < i ==> s[j] == Bits(LeValue(input), 21 * j, 21) && 0 <= s[j] < B21
    {
      s[i] := LoadLimb(input, i);
    }
    var top := LoadTop(input, 23, 60, 3);
    TopFits(top, 29);
    s[23] := top;
    FieldsDenote(s[..], LeValue(input), 0);
    WholeValue(LeValue(input));
  }

  lemma TopFits(x: int, w: nat)
    requires w <= 29 && 0 <= x < Pow2(w)
    ensures x < 0x2000_0000
  {
    Pow2Mono(w, 29);
    Pow2Small();
    Pow2Add(29, 3);
    assert Pow2(3) == 8;
  }

  lemma WholeValue(v: nat)
    ensures v / Pow2(0) == v
  {
    assert Pow2(0) == 1;
    DivUnique(v, 1, v, 0);
  }

  // ---------------------------------------------------------------- stores

  /** Byte number b of the packed limbs: a shifted limb, or-ed with the next one where it straddles. */
  function PackByte(s: seq<int>, b: nat): (x: u8)
    requires |s| == 12 && b < 32 && forall j :: 0 <= j < 12 ==> s[j] >= 0
  {
    var i, r := 8 * b / 21, 8 * b % 21;
    QuotientNat(s[i], Pow2(r));
    if r + 8 <= 21 || i == 11 then s[i] / Pow2(r) % 256
    else
      MulNonNeg(s[i + 1], Pow2(21 - r));
      (s[i] / Pow2(r) + s[i + 1] * Pow2(21 - r)) % 256
  }

  /** Where a byte straddles two limbs the or-ed parts occupy disjoint bits. */
  lemma PackDisjoint(x: nat, r: nat)
    requires x < B21 && r <= 21
    ensures x / Pow2(r) < Pow2(21 - r)
  {
    Pow2Add(r, 21 - r);
    Pow2TwentyOne();
    QuotientBelow(x, Pow2(r), Pow2(21 - r));
  }

  /** Dropping reduced limbs divides by their place value. */
  lemma RadixShift(s: seq<int>, i: nat)
    requires i <= |s| && forall j :: 0 <= j < i ==> 0 <= s[j] < B21
    requires Radix(s[i..]) >= 0
    ensures Radix(s) >= 0 && Radix(s) / Pow2(21 * i) == Radix(s[i..])
  {
    hide Radix, Place, Pow2;
    RadixSplit(s, i);
    RadixBelow(s[..i]);
    PlacePow2(i);
    MulNonNeg(Place(i), Radix(s[i..]));
    DropLow(Radix(s[..i]), Place(i), Radix(s[i..]));
  }

  lemma {:induction false} RadixNonNeg(s: seq<int>)
    requires forall j :: 0 <= j < |s| ==> 0 <= s[j]
    ensures Radix(s) >= 0
  {
    if |s| > 0 { RadixNonNeg(s[1..]); }
  }

  lemma PackByteIs(s: seq<int>, b: nat)
    requires |s| == 12 && b < 32
    requires (forall j :: 0 <= j <= 10 ==> 0 <= s[j] < B21) && s[11] >= 0
    ensures Radix(s) >= 0 && PackByte(s, b) == Bits(Radix(s), 8 * b, 8)
  {
    hide Radix, Pow2, Bits;
    var i, r := 8 * b / 21, 8 * b % 21;
    var t := Radix(s[i + 1..]);
    RadixNonNeg(s[i..]);
    RadixNonNeg(s[i + 1..]);
    RadixHead(s, i);
    RadixShift(s, i);
    ByteField(Radix(s), i, r, s[i], t);
    assert 21 * i + r == 8 * b;
    if i < 11 {
      RadixNonNeg(s[i + 2..]);
      RadixHead(s, i + 1);
      ByteArith(s[i], s[i + 1], Radix(s[i + 2..]), r);
    } else {
      EightBits(s);
      ByteArith(s[i], 0, 0, r);
      ZeroProduct(Pow2(21 - r));
    }
  }

  /** The byte field at bit 21*i+r of a number whose limbs from i up are x + 2^21*t. */
  lemma ByteField(v: nat, i: nat, r: nat, x: nat, t: nat)
    requires v / Pow2(21 * i) == x + B21 * t
    ensures Bits(v, 21 * i + r, 8) == ((x + B21 * t) / Pow2(r)) % 256
  {
    Pow2Add(21 * i, r);
    Pow2Small();
    DivDiv(v, Pow2(21 * i), Pow2(r));
  }

  lemma ByteArith(x: nat, y: nat, t: nat, r: nat)
    requires r < 21
    ensures r + 8 <= 21 ==> ((x + B21 * (y + B21 * t)) / Pow2(r)) % 256 == (x / Pow2(r)) % 256
    ensures r + 8 > 21 ==> ((x + B21 * (y + B21 * t)) / Pow2(r)) % 256 == (x / Pow2(r) + y * Pow2(21 - r)) % 256
  {
    Pow2Add(r, 21 - r);
    Pow2TwentyOne();
    Pow2Small();
    if r + 8 <= 21 { Pow2Add(8, 13 - r); }
    hide Pow2;
    Straddle(x, y + B21 * t, Pow2(r), Pow2(21 - r));
    if r + 8 <= 21 {
      MaskHigh(x / Pow2(r), y + B21 * t, Pow2(13 - r));
    } else {
      MaskStraddle(x / Pow2(r), y, t, Pow2(21 - r));
    }
  }

  lemma EightBits(s: seq<int>)
    ensures Pow2(8) == 256 && B21 == 256 * 8192
    ensures |s| == 12 ==> Radix(s[12..]) == 0
  {
    Pow2Small();
  }

  lemma RadixHead(s: seq<int>, i: nat)
    requires i < |s|
    ensures Radix(s[i..]) == s[i] + B21 * Radix(s[i + 1..])
  {
    assert s[i..][1..] == s[i + 1..];
  }

  lemma ZeroProduct(p: nat)
    ensures p * 0 == 0
  {}

  lemma Straddle(x: nat, t: nat, p: nat, q: nat)
    requires p > 0 && p * q == B21
    ensures (x + B21 * t) / p == x / p + q * t
  {
    DivMod(x, p);
    assert B21 * t == (q * t) * p by { assert (p * q) * t == (q * t) * p; }
    assert (x / p + q * t) * p == (x / p) * p + (q * t) * p;
    DivUnique(x + B21 * t, p, x / p + q * t, x % p);
  }

  lemma MaskHigh(x: int, t: int, m: int)
    ensures (x + (256 * m) * t) % 256 == x % 256
  {
    DivMod(x, 256);
    assert (256 * m) * t == (m * t) * 256;
    DivUnique(x + (256 * m) * t, 256, x / 256 + m * t, x % 256);
  }

  lemma MaskStraddle(x: int, y: int, t: int, q: int)
    ensures (x + q * (y + (256 * 8192) * t)) % 256 == (x + y * q) % 256
  {
    assert q * (y + (256 * 8192) * t) == y * q + (256 * (8192 * q)) * t;
    MaskHigh(x + y * q, t, 8192 * q);
  }

  /** The thirty-two byte stores. */
  method Store(s: array<int64>) returns (out: Bytes32)
    requires s.Length == 24 && (forall j :: 0 <= j <= 10 ==> 0 <= s[j] < B21) && 0 <= s[11] <= B21
    requires forall j :: 12 <= j < 24 ==> s[j] == 0
    requires 0 <= Radix(s[..]) < L
    ensures LeValue(out) == Radix(s[..])
  {
    hide Radix, Place, LeValue, Bits, PackByte;
    var limbs := s[..12];
    RadixSplit(s[..], 12);
    assert s[..][..12] == limbs;
    RadixZeros(s[..][12..]);
    ZeroProduct(Place(12));
    out := seq(32, b requires 0 <= b < 32 => PackByte(limbs, b));
    forall b | 0 <= b < 32
      ensures out[b] == Bits(Radix(limbs), 8 * b, 8)
    {
      PackByteIs(limbs, b);
    }
    BytesSpell(out, Radix(limbs));
  }

  // ---------------------------------------------------------------- the reducer

  /** Everything after the limbs are ready: the two rounds of folds and carries, then the final folds. */
  method ReduceLimbs(s: array<int64>, ghost v: int) returns (out: Bytes32)
    requires s.Length == 24 && Ready(s[..]) && Same(s[..], v)
    modifies s
    ensures LeValue(out) == v % L
  {
    hide Same, Radix, Ready, Congruent, LeValue;
    FoldHigh(s, v);
    CarryMiddle(s, v);
    FoldMiddle(s, v);
    CarryLow(s, v);
    FoldSameBy(s, 12, 0x3000, v);
    FinalFolds(s, v);
    out := Store(s);
  }

  /** reduceUniformScalar / scReduce: the canonical representative of any 512-bit integer. */
  method ReduceUniformScalar(input: Bytes64) returns (out: Bytes32)
    ensures LeValue(out) == LeValue(input) % L
  {
    var s := LoadWide(input);
    CongruentBy(LeValue(input), LeValue(input), L, 0);
    out := ReduceLimbs(s, LeValue(input));
  }

  // ---------------------------------------------------------------- scMulAdd

  /** The twelve loads of a 32-byte string: eleven masked limbs and an unmasked top of 25 bits. */
  function LoadScalar(b: Bytes32): (s: seq<int>)
    ensures |s| == 12 && Radix(s) == LeValue(b)
    ensures (forall j :: 0 <= j < 11 ==> 0 <= s[j] < B21) && 0 <= s[11] < 0x200_0000
  {
    var s := seq(11, i requires 0 <= i < 11 => LoadLimb(b, i) as int) + [LoadTop(b, 11, 28, 7)];
    TopFits25(s[11], 25);
    FieldsDenote(s, LeValue(b), 0);
    WholeValue(LeValue(b));
    s
  }

  lemma TopFits25(x: int, w: nat)
    requires w == 25 && x < Pow2(w)
    ensures x < 0x200_0000
  {
    Pow2Small();
    Pow2Add(w, 7);
    assert Pow2(7) == 128;
  }

  /** Products of loaded limbs: below 2^46 unless both are top limbs. */
  lemma LimbProduct(a: seq<int>, b: seq<int>, i: nat, j: nat)
    requires |a| == |b| == 12 && i < 12 && j < 12
    requires (forall k :: 0 <= k < 11 ==> 0 <= a[k] < B21 && 0 <= b[k] < B21)
    requires 0 <= a[11] < 0x200_0000 && 0 <= b[11] < 0x200_0000
    ensures 0 <= a[i] * b[j] < (if i == 11 && j == 11 then 0x4_0000_0000_0000 else 0x4000_0000_0000)
  {
    var x, y := a[i], b[j];
    MulNonNeg(x, y);
    if i < 11 { ProductBelow(x, B21, y, 0x200_0000); }
    else if j < 11 { ProductBelow(x, 0x200_0000, y, B21); }
    else { ProductBelow(x, 0x200_0000, y, 0x200_0000); }
  }

  lemma ProductBelow(x: nat, m: nat, y: nat, n: nat)
    requires x < m && y < n
    ensures x * y < m * n
  {
    MulMono(x, y, n);
    MulMono(n, x + 1, m);
  }

  /** The schoolbook convolution c + a*b over the 24 limbs. */
  method Convolve(a: seq<int>, b: seq<int>, c: seq<int>) returns (s: array<int64>)
    requires |a| == |b| == |c| == 12
    requires forall k :: 0 <= k < 11 ==> 0 <= a[k] < B21 && 0 <= b[k] < B21 && 0 <= c[k] < B21
    requires 0 <= a[11] < 0x200_0000 && 0 <= b[11] < 0x200_0000 && 0 <= c[11] < 0x200_0000
    ensures fresh(s) && s.Length == 24 && s[23] == 0
    ensures Radix(s[..]) == Radix(c) + Radix(a) * Radix(b)
    ensures Within(s[..], 0, 22, 0x4_0000_0000_0000)
  {
    hide Radix, Place;
    s := new int64[24](_ => 0);
    for k := 0 to 12
      invariant forall j :: 0 <= j < k ==> s[j] == c[j]
      invariant forall j :: k <= j < 24 ==> s[j] == 0
    {
      s[k] := c[k];
    }
    PaddedRadix(s[..], c);
    assert a[..0] == [];
    EmptyRadix();
    for i := 0 to 12
      invariant Radix(s[..]) == Radix(c) + Radix(a[..i]) * Radix(b)
      invariant forall k :: 0 <= k < 22 ==> 0 <= s[k] <= 0x200_0000 + i * 0x4000_0000_0000
      invariant 0 <= s[22] <= (if i == 12 then 0x4_0000_0000_0000 else 0) && s[23] == 0
    {
      ConvolveRow(s, a, b, i);
      RadixSnoc(a, i);
      RowTotal(Radix(a[..i]), Place(i), a[i], Radix(b));
    }
    assert a[..12] == a;
  }

  lemma EmptyRadix()
    ensures Radix([]) == 0
  {}

  lemma RowTotal(x: int, p: int, ai: int, y: int)
    ensures (x + p * ai) * y == x * y + p * (ai * y)
  {}

  lemma RadixSnoc(s: seq<int>, i: nat)
    requires i < |s|
    ensures Radix(s[..i + 1]) == Radix(s[..i]) + Place(i) * s[i]
  {
    RadixSplit(s[..i + 1], i);
    assert s[..i + 1][..i] == s[..i] && s[..i + 1][i..] == [s[i]];
    assert Radix([s[i]]) == s[i] + B21 * Radix([]);
  }

  lemma PaddedRadix(s: seq<int>, c: seq<int>)
    requires |s| == 24 && |c| == 12 && (forall j :: 0 <= j < 12 ==> s[j] == c[j]) && forall j :: 12 <= j < 24 ==> s[j] == 0
    ensures Radix(s) == Radix(c)
  {
    hide Radix, Place;
    RadixSplit(s, 12);
    assert s[..12] == c;
    RadixZeros(s[12..]);
    ZeroProduct(Place(12));
  }

  /** Row i of the product: a[i]*b added from limb i up. */
  method ConvolveRow(s: array<int64>, a: seq<int>, b: seq<int>, i: nat)
    requires s.Length == 24 && |a| == |b| == 12 && i < 12
    requires forall k :: 0 <= k < 11 ==> 0 <= a[k] < B21 && 0 <= b[k] < B21
    requires 0 <= a[11] < 0x200_0000 && 0 <= b[11] < 0x200_0000
    requires forall k :: 0 <= k < 22 ==> 0 <= s[k] <= 0x200_0000 + i * 0x4000_0000_0000
    requires s[22] == 0 && s[23] == 0
    modifies s
    ensures Radix(s[..]) == Radix(old(s[..])) + Place(i) * (a[i] * Radix(b))
    ensures forall k :: 0 <= k < 22 ==> 0 <= s[k] <= 0x200_0000 + (i + 1) * 0x4000_0000_0000
    ensures 0 <= s[22] <= (if i == 11 then 0x4_0000_0000_0000 else 0) && s[23] == 0
  {
    hide Radix, Place;
    assert b[..0] == [];
    EmptyRadix();
    for j := 0 to 12
      invariant Radix(s[..]) == Radix(old(s[..])) + Place(i) * (a[i] * Radix(b[..j]))
      invariant forall k :: 0 <= k < 22 && i <= k < i + j ==> 0 <= s[k] <= 0x200_0000 + (i + 1) * 0x4000_0000_0000
      invariant forall k :: 0 <= k < 22 && !(i <= k < i + j) ==> 0 <= s[k] <= 0x200_0000 + i * 0x4000_0000_0000
      invariant 0 <= s[22] <= (if i == 11 && j == 12 then 0x4_0000_0000_0000 else 0) && s[23] == 0
    {
      LimbProduct(a, b, i, j);
      RadixBump(s[..], i + j, a[i] * b[j]);
      PlaceAdd(i, j);
      RadixSnoc(b, j);
      CellTotal(Place(i), a[i], Radix(b[..j]), Place(j), b[j]);
      ghost var before := s[..];
      s[i + j] := s[i + j] + a[i] * b[j];
      assert s[..] == Bump(before, i + j, a[i] * b[j]);
    }
    assert b[..12] == b;
  }

  lemma CellTotal(p: int, ai: int, y: int, q: int, bj: int)
    ensures p * (ai * (y + q * bj)) == p * (ai * y) + (p * q) * (ai * bj)
  {}

  /** The first rounded carries of scMulAdd: out of 0,2,...,22 and then 1,3,...,21. */
  method CarryProduct(s: array<int64>, ghost v: int)
    requires s.Length == 24 && Same(s[..], v) && Within(s[..], 0, 22, 0x4_0000_0000_0000) && s[23] == 0
    modifies s
    ensures Same(s[..], v) && Ready(s[..])
  {
    hide Same, Radix, Congruent;
    var i := 0;
    while i <= 22
      invariant 0 <= i <= 24 && i % 2 == 0
      invariant Same(s[..], v)
      invariant forall j :: 0 <= j < i && j % 2 == 0 ==> -HALF21 <= s[j] < HALF21
      invariant forall j :: i <= j <= 22 ==> -0x4_0000_0000_0000 <= s[j] <= 0x4_0000_0000_0000
      invariant forall j :: 0 <= j < i && j % 2 == 1 ==> -0x4_0000_4000_0001 <= s[j] <= 0x4_0000_4000_0001
      invariant if i <= 22 then s[23] == 0 else -0x4000_0000 <= s[23] <= 0x4000_0000
      decreases 24 - i
    {
      CarrySame(s, i, true, v);
      i := i + 2;
    }
    i := 1;
    while i <= 21
      invariant 1 <= i <= 23 && i % 2 == 1
      invariant Same(s[..], v)
      invariant forall j :: 1 <= j < i && j % 2 == 1 ==> -HALF21 <= s[j] < HALF21
      invariant forall j :: i <= j <= 21 && j % 2 == 1 ==> -0x4_0000_4000_0001 <= s[j] <= 0x4_0000_4000_0001
      invariant forall j :: 0 <= j <= 22 && j % 2 == 0 ==> -0x4000_0000 <= s[j] <= 0x4000_0000
      invariant forall j :: i < j <= 22 && j % 2 == 0 ==> -HALF21 <= s[j] < HALF21
      invariant -0x4000_0000 <= s[23] <= 0x4000_0000
      decreases 23 - i
    {
      CarrySame(s, i, true, v);
      i := i + 2;
    }
  }

  /** scMulAdd: a*b + c modulo L, canonical, for every three 32-byte strings. */
  method MulAdd(a: Bytes32, b: Bytes32, c: Bytes32) returns (out: Bytes32)
    ensures LeValue(out) == (LeValue(a) * LeValue(b) + LeValue(c)) % L
  {
    hide Radix, LeValue, Congruent;
    ghost var v := LeValue(a) * LeValue(b) + LeValue(c);
    var s := Convolve(LoadScalar(a), LoadScalar(b), LoadScalar(c));
    CongruentBy(v, v, L, 0);
    CarryProduct(s, v);
    out := ReduceLimbs(s, v);
  }
}
