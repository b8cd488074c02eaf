/** Byte encodings of field elements (internal/r51x5/element.go; section 5.1.2 of RFC 8032). */
module FieldBytes {
  import opened Arith
  import opened Words
  import opened Fixed256
  import opened Bytes
  import opened BitFields
  import opened Recoding
  import opened HeeaProduct
  import opened FieldLimbs
  import opened EdwardsScalar

  const T255: int := P + 19

  /** unpackLow255: five 51-bit fields of the four words; bit 255 is not looked at. */
  function UnpackLow255(b: Bytes32): (l: Limbs)
    ensures Below(l, T51) && FVal(l) == LeValue(b) % T255
  {
    var words := ScalarWords(b);
    var l := [Field(words, 0), Field(words, 1), Field(words, 2), Field(words, 3), Field(words, 4)];
    Unpacked(b, l);
    l
  }

  /** One 51-bit field. */
  function Field(words: U320, i: nat): (f: u64)
    requires i < 5
    ensures f == Bits(Val(words), 51 * i, 51) < T51
  {
    FieldBound(Val(words), 51 * i);
    WordBits(words, 51 * i, 51)
  }

  lemma FieldBound(v: nat, bit: nat)
    ensures Bits(v, bit, 51) < T51
  {
    hide Bits, Pow2;
    Pow51();
  }

  lemma Unpacked(b: Bytes32, l: seq<int>)
    requires |l| == 5 && forall i :: 0 <= i < 5 ==> l[i] == Bits(LeValue(b), 51 * i, 51) < T51
    ensures Below(l, T51) && FVal(l) == LeValue(b) % T255
  {
    hide FVal, LeValue, Bits;
    FiveFields(LeValue(b), l);
  }

  lemma Pow51()
    ensures Pow2(51) == T51 && Pow2(102) == T51 * T51 && Pow2(153) == T51 * T51 * T51
    ensures Pow2(204) == T51 * T51 * T51 * T51 && Pow2(255) == T255
  {
    hide Pow2;
    Pow2Small();
    Pow2Twenties();
    Pow2Add(32, 19);
    Pow2Add(51, 51);
    Pow2Add(102, 51);
    Pow2Add(153, 51);
    Pow2Add(204, 51);
  }

  lemma Pow2Twenties()
    ensures Pow2(19) == 0x8_0000
  {
    assert Pow2(9) == 512;
    Pow2Add(9, 10);
    Pow2Small();
  }

  lemma FiveFields(v: nat, l: seq<int>)
    requires |l| == 5 && forall i :: 0 <= i < 5 ==> l[i] == Bits(v, 51 * i, 51)
    ensures FVal(l) == v % T255
  {
    hide Bits, Pow2;
    Pow51();
    Pow2Double(0);
    DivUnique(v, 1, v, 0);
    ModPeel(v, 0, 51);
    ModPeel(v, 51, 51);
    ModPeel(v, 102, 51);
    ModPeel(v, 153, 51);
    ModPeel(v, 204, 51);
    assert v % 1 == 0;
  }

  /** x << log2(p), the bits beyond 64 lost. */
  function Left(x: u64, p: int): u64 {
    ((x as int) * p) % 0x1_0000_0000_0000_0000
  }

  /** Element.Bytes: the four packed words. */
  function Pack(l: Limbs): (words: U256)
    requires Below(l, T51)
    ensures Val(words) == FVal(l)
  {
    PackFields(l);
    var words := [l[0] + Left(l[1], 0x8_0000_0000_0000), l[1] / 0x2000 + Left(l[2], 0x40_0000_0000),
                  l[2] / 0x400_0000 + Left(l[3], 0x200_0000), l[3] / 0x80_0000_0000 + Left(l[4], 0x1000)];
    Val4(words);
    words
  }

  /** The or-ed parts are disjoint, so the sums fit their words. */
  lemma PackFields(l: Limbs)
    requires Below(l, T51)
    ensures Left(l[1], 0x8_0000_0000_0000) == ((l[1] % 0x2000) as int) * 0x8_0000_0000_0000
    ensures Left(l[2], 0x40_0000_0000) == ((l[2] % 0x400_0000) as int) * 0x40_0000_0000
    ensures Left(l[3], 0x200_0000) == ((l[3] % 0x80_0000_0000) as int) * 0x200_0000
    ensures Left(l[4], 0x1000) == (l[4] as int) * 0x1000
    ensures l[1] / 0x2000 < 0x40_0000_0000 && l[2] / 0x400_0000 < 0x200_0000 && l[3] / 0x80_0000_0000 < 0x1000
  {}

  function ElementBytes(l: Limbs): (b: Bytes32)
    requires Below(l, T51)
    ensures LeValue(b) == FVal(l)
  {
    PutWords(Pack(l))
  }

  /** SetCanonicalBytes: accepted exactly below p (so bit 255 clear), and then the value itself. */
  method SetCanonicalBytes(b: Bytes32) returns (l: Limbs, ok: bool)
    ensures ok <==> LeValue(b) < P
    ensures ok ==> Reduced(l) && FVal(l) == LeValue(b)
  {
    hide FVal, LeValue;
    l := [0, 0, 0, 0, 0];
    TopBit(b);
    if b[31] >= 128 {
      return l, false;
    }
    l := UnpackLow255(b);
    ModulusValue();
    ModulusBelow();
    DivUnique(LeValue(b), T255, 0, LeValue(b));
    var c := CompareLimbs(l, MODULUS_LIMBS);
    ok := c < 0;
  }

  lemma ModulusBelow()
    ensures Below(MODULUS_LIMBS, T51)
  {}

  /** The top bit of the string is bit 255 of its value. */
  lemma TopBit(b: Bytes32)
    ensures b[31] >= 128 <==> LeValue(b) >= T255
    ensures LeValue(b) < 2 * T255
  {
    hide LeValue, Pow2;
    TopByteSplit(b);
    Pow51();
    Pow2Add(248, 7);
    SmallPowers8();
    Pow2Add(248, 8);
    if b[31] < 128 { HighBitClear(b); } else { MulMono(Pow2(248), 128, b[31]); }
    LeBound(b);
  }

  /** Encoding and decoding are inverse on canonical elements. */
  lemma EncodeDecode(l: Limbs)
    requires Reduced(l)
    ensures LeValue(ElementBytes(l)) < P && UnpackLow255(ElementBytes(l)) == l
  {
    hide FVal;
    var b := ElementBytes(l);
    DivUnique(FVal(l), T255, 0, FVal(l));
    FValInjective(UnpackLow255(b), l);
  }
}
