/** nonAdjacentForm and signedRadix16 of internal/edwards25519/scalar.go. */
module EdwardsScalar {
  import opened Arith
  import opened Words
  import opened Fixed256
  import opened Bytes
  import opened BitFields
  import opened Recoding
  import opened Schedules
  import opened FixedRecode

  /** Go's int8 conversion and arithmetic. */
  function Wrap8(x: int): (r: int8) {
    (x + 128) % 256 - 128
  }

  lemma Wrap8Is(x: int, k: int, r: int8)
    requires x == r + 256 * k
    ensures Wrap8(x) == r
  {
    DivUnique(x + 128, 256, k, r + 128);
  }

  /** int8(window) - int8(width) is window - width also where 128 or 256 wraps. */
  lemma NegativeDigit(window: nat, w: nat)
    requires 2 <= w <= 8 && Pow2(w - 1) <= window < Pow2(w)
    ensures Wrap8(Wrap8(window) - Wrap8(Pow2(w))) == window - Pow2(w)
  {
    SmallPowers8();
    var p := Pow2(w);
    var a, b := (window + 128) / 256, (p + 128) / 256;
    DivMod(window + 128, 256);
    DivMod(p + 128, 256);
    Wrap8Is(Wrap8(window) - Wrap8(p), b - a, window - p);
  }

  lemma SmallPowers8()
    ensures Pow2(1) == 2 && Pow2(2) == 4 && Pow2(3) == 8 && Pow2(4) == 16
    ensures Pow2(5) == 32 && Pow2(6) == 64 && Pow2(7) == 128 && Pow2(8) == 256
  {}

  // ---------------------------------------------------------------- the sliding window

  /** bitBuf & windowMask: one word when the window ends before its top, two words otherwise. */
  function NafWindow(words: U320, pos: nat, w: nat): (r: nat)
    requires pos < 256 && 2 <= w <= 8
    ensures r == Bits(Val(words), pos, w)
  {
    var i, bit := pos / 64, pos % 64;
    WindowFields(words, i, bit, w);
    ShrFits(words[i], bit);
    if bit < 64 - w then
      ModNat(Shr64(words[i], bit), Pow2(w));
      Shr64(words[i], bit) % Pow2(w)
    else
      ShiftParts(words[i + 1], 64 - bit);
      var buffer := OrFields(Shl64(words[i + 1], 64 - bit), Shr64(words[i], bit), 64 - bit);
      ModNat(buffer, Pow2(w));
      buffer % Pow2(w)
  }

  lemma WindowFields(words: U320, i: nat, bit: nat, w: nat)
    requires i < 4 && bit < 64 && w <= 64
    ensures bit + w <= 64 ==> Shr64(words[i], bit) % Pow2(w) == Bits(Val(words), 64 * i + bit, w)
    ensures bit > 0 ==> (Shl64(words[i + 1], 64 - bit) + Shr64(words[i], bit)) % Pow2(w) == Bits(Val(words), 64 * i + bit, w)
  {
    hide Val, Pow2, Shl64, Shr64, Bits, Weight;
    WordPair(words, i, bit, w);
    if bit > 0 {
      ValSplit(words, i);
      ValBound(words[..i]);
      WeightPow2(i);
      ValHead(words[i..]);
      ValHead(words[i + 1..]);
      assert words[i..][1..] == words[i + 1..] && words[i + 1..][1..] == words[i + 2..];
      WideField(Val(words[..i]), words[i], words[i + 1], Val(words[i + 2..]), 64 * i, bit, w, 64);
    }
  }

  lemma {:induction false} SumUpdate(d: seq<int>, i: nat, x: int)
    requires i < |d| && d[i] == 0
    ensures DigitSum(d[i := x], 1) == DigitSum(d, 1) + Pow2(i) * x
  {
    DigitSumSnoc(d, i, 1);
    DigitSumSnoc(d[i := x], i, 1);
    var e := d[i := x];
    assert e[..i] == d[..i] && e[i + 1..] == d[i + 1..];
    assert d == d[..i + 1] + d[i + 1..] && e == e[..i + 1] + e[i + 1..];
    DigitSumAppend(d[..i + 1], d[i + 1..], 1);
    DigitSumAppend(e[..i + 1], e[i + 1..], 1);
    assert 1 * i == i && Pow2(i) * 0 == 0;
  }

  /** The low bit of a wider field. */
  lemma LowBit(v: nat, pos: nat, w: nat)
    requires w >= 1
    ensures Bits(v, pos, w) % 2 == Bits(v, pos, 1)
  {
    hide Pow2;
    LowBitPowers(w);
    QuotientNat(v, Pow2(pos));
    LowBitArith(v / Pow2(pos), Pow2(w - 1));
  }

  lemma LowBitPowers(w: nat)
    requires w >= 1
    ensures Pow2(w) == 2 * Pow2(w - 1) && Pow2(1) == 2
  {}

  lemma LowBitArith(a: nat, h: nat)
    requires h >= 1
    ensures (a % (2 * h)) % 2 == a % 2
  {
    DivMod(a, 2 * h);
    var q := a / (2 * h);
    assert q * (2 * h) == 2 * (q * h);
  }

  /** What a position contributes: an even window hands its carry on unchanged. */
  lemma EvenStep(v: nat, pos: nat, w: nat, carry: nat)
    requires w >= 1 && carry <= 1 && (carry + Bits(v, pos, w)) % 2 == 0
    ensures v % Pow2(pos + 1) == v % Pow2(pos) + Pow2(pos) * carry
    ensures Pow2(pos + 1) * carry == 2 * (Pow2(pos) * carry)
  {
    hide Bits, Pow2;
    LowBit(v, pos, w);
    ModPeel(v, pos, 1);
    BitOrNot(v, pos);
    LowBitPowers(pos + 1);
  }

  lemma BitOrNot(v: nat, pos: nat)
    ensures Bits(v, pos, 1) <= 1
  {
    LowBitPowers(1);
  }

  /** An odd window emits its balanced digit. */
  lemma OddStep(v: nat, pos: nat, w: nat, carry: nat, next: nat)
    ensures v % Pow2(pos + w) == v % Pow2(pos) + Pow2(pos) * Bits(v, pos, w)
    ensures Pow2(pos) * (carry + Bits(v, pos, w) - next * Pow2(w)) + Pow2(pos + w) * next
         == Pow2(pos) * carry + Pow2(pos) * Bits(v, pos, w)
  {
    hide Bits, Pow2;
    ModPeel(v, pos, w);
    Pow2Add(pos, w);
    HoldArith(Pow2(pos), Pow2(w), Bits(v, pos, w), carry, next);
  }

  /** Below 2^255 a window reaching bit 255 or beyond never rounds up. */
  lemma TopWindow(v: nat, pos: nat, w: nat, carry: nat, top: nat)
    requires 2 <= w && pos <= 255 && top == 255 && v < Pow2(top) && carry <= 1
    ensures pos + w >= 256 ==> carry + Bits(v, pos, w) <= Pow2(w - 1)
    ensures pos == 255 ==> Bits(v, pos, w) == 0
    ensures Pow2(w - 1) % 2 == 0
  {
    hide Bits, Pow2;
    Pow2Double(w - 2);
    if pos + w >= 256 {
      BitsTop(v, pos, w, top);
      Pow2Add(pos, top - pos);
      QuotientBelow(v, Pow2(pos), Pow2(top - pos));
      Pow2Mono(top - pos, w - 1);
    }
    if pos == 255 { BitsTop(v, pos, w, top); }
  }

  /** Nonzero digits are odd, below 2^(w-1) in magnitude, and followed by w-1 zeros. */
  ghost predicate Sparse(naf: seq<int>, w: nat)
    requires w >= 1
  {
    && (forall i :: 0 <= i < |naf| && naf[i] != 0 ==> naf[i] % 2 == 1 && Abs(naf[i]) < Pow2(w - 1))
    && (forall i, j :: 0 <= i < j < |naf| && j < i + w && naf[i] != 0 ==> naf[j] == 0)
  }

  /** The digits written so far are final: each is followed by its zeros below pos. */
  ghost predicate Written(naf: seq<int>, w: nat, pos: nat)
    requires w >= 1
  {
    && Sparse(naf, w) && |naf| == 256
    && (forall i :: 0 <= i < 256 && naf[i] != 0 ==> i + w <= pos)
  }

  lemma WriteDigit(naf: seq<int>, w: nat, pos: nat, d: int)
    requires w >= 1 && pos < 256 && Written(naf, w, pos) && d % 2 == 1 && Abs(d) < Pow2(w - 1)
    ensures naf[pos] == 0 && Written(naf[pos := d], w, pos + w)
  {
    hide Pow2;
  }

  /** What the loop keeps. */
  ghost predicate Window(naf: seq<int>, v: nat, w: nat, pos: nat, carry: nat)
    requires w >= 1
  {
    && Written(naf, w, pos) && carry <= 1 && (carry == 1 ==> pos <= 255)
    && DigitSum(naf, 1) + Pow2(pos) * carry == v % Pow2(pos)
  }

  lemma SkipEven(naf: seq<int>, v: nat, w: nat, pos: nat, carry: nat)
    requires 2 <= w <= 8 && pos < 256 && v < Pow2(255) && Window(naf, v, w, pos, carry)
    requires (carry + Bits(v, pos, w)) % 2 == 0
    ensures Window(naf, v, w, pos + 1, carry)
  {
    hide Bits, Pow2, DigitSum, Sparse;
    EvenStep(v, pos, w, carry);
    TopWindow(v, pos, w, carry, 255);
  }

  lemma TakeOdd(naf: seq<int>, v: nat, w: nat, pos: nat, carry: nat, next: nat)
    requires 2 <= w <= 8 && pos < 256 && v < Pow2(255) && Window(naf, v, w, pos, carry)
    requires (carry + Bits(v, pos, w)) % 2 == 1
    requires next == if carry + Bits(v, pos, w) < Pow2(w - 1) then 0 else 1
    ensures Window(naf[pos := carry + Bits(v, pos, w) - next * Pow2(w)], v, w, pos + w, next)
  {
    hide Bits, Pow2, DigitSum, Written;
    var d := carry + Bits(v, pos, w) - next * Pow2(w);
    OddStep(v, pos, w, carry, next);
    TopWindow(v, pos, w, carry, 255);
    OddDigit(v, pos, w, carry, next);
    WriteDigit(naf, w, pos, d);
    WrittenLength(naf, w, pos);
    SumUpdate(naf, pos, d);
  }

  lemma WrittenLength(naf: seq<int>, w: nat, pos: nat)
    requires w >= 1 && Written(naf, w, pos)
    ensures |naf| == 256
  {}

  lemma OddDigit(v: nat, pos: nat, w: nat, carry: nat, next: nat)
    requires 2 <= w && carry <= 1 && (carry + Bits(v, pos, w)) % 2 == 1
    requires next == if carry + Bits(v, pos, w) < Pow2(w - 1) then 0 else 1
    ensures (carry + Bits(v, pos, w) - next * Pow2(w)) % 2 == 1
    ensures Abs(carry + Bits(v, pos, w) - next * Pow2(w)) < Pow2(w - 1)
  {
    hide Pow2, Bits;
    Pow2Double(w - 1);
    Pow2Double(w - 2);
    FieldBelow(v, pos, w);
    OddDigitArith(carry + Bits(v, pos, w), Pow2(w - 2));
  }

  lemma FieldBelow(v: nat, pos: nat, w: nat)
    ensures Bits(v, pos, w) <= Pow2(w) - 1
  {}

  lemma OddDigitArith(x: nat, h: nat)
    requires x % 2 == 1 && x <= 4 * h && h >= 1
    ensures x >= 2 * h ==> (x - 4 * h) % 2 == 1 && -(2 * h) < x - 4 * h < 0
  {}

  /** One position of the scan. */
  method NafStep(naf: seq<int8>, words: U320, w: nat, pos: nat, carry: nat)
    returns (out: seq<int8>, nextPos: nat, nextCarry: nat)
    requires 2 <= w <= 8 && pos < 256 && |naf| == 256 && Val(words) < Pow2(255) && Window(naf, Val(words), w, pos, carry)
    ensures |out| == 256 && pos < nextPos <= pos + w && Window(out, Val(words), w, nextPos, nextCarry)
  {
    hide Val, Bits, Pow2, DigitSum, Window, Sparse, Wrap8;
    WidthPowers(w);
    var window := carry + NafWindow(words, pos, w);
    WindowRange(Val(words), pos, w, carry, naf);
    if window % 2 == 0 {
      SkipEven(naf, Val(words), w, pos, carry);
      return naf, pos + 1, carry;
    }
    if window < Pow2(w) / 2 {
      TakeOdd(naf, Val(words), w, pos, carry, 0);
      Wrap8Is(window, 0, window);
      return naf[pos := Wrap8(window)], pos + w, 0;
    }
    TakeOdd(naf, Val(words), w, pos, carry, 1);
    NegativeDigit(window, w);
    return naf[pos := Wrap8(Wrap8(window) - Wrap8(Pow2(w)))], pos + w, 1;
  }

  /** nonAdjacentForm; its panics are the requires. */
  method NonAdjacentForm(s: Bytes32, w: nat) returns (naf: seq<int>)
    requires s[31] <= 127 && 2 <= w <= 8
    ensures |naf| == 256 && DigitSum(naf, 1) == LeValue(s) && Sparse(naf, w)
    ensures forall i :: 0 <= i < 256 ==> -128 <= naf[i] < 128
  {
    hide LeValue, Val, Pow2, DigitSum, Window, Sparse;
    HighBitClear(s);
    var words := ScalarWords(s);
    var out: seq<int8> := ZeroDigits();
    NothingWritten(out, Val(words), w);
    var pos: int, carry: nat := 0, 0;
    while pos < 256
      invariant |out| == 256 && pos >= 0 && Window(out, Val(words), w, pos, carry)
      decreases 256 - pos
    {
      out, pos, carry := NafStep(out, words, w, pos, carry);
    }
    AllWritten(out, Val(words), w, pos, carry, 255);
    naf := out;
  }

  function ZeroDigits(): (d: seq<int8>)
    ensures |d| == 256 && forall i :: 0 <= i < 256 ==> d[i] == 0
  {
    seq(256, _ => 0)
  }

  lemma HighBitClear(s: Bytes32)
    requires s[31] <= 127
    ensures LeValue(s) < Pow2(255)
  {
    assert s == s[..31] + [s[31]];
    LeAppend(s[..31], [s[31]]);
    OneByte([s[31]]);
    LeBound(s[..31]);
    TopSeven(LeValue(s[..31]), s[31], 248);
  }

  lemma TopSeven(low: nat, top: nat, n: nat)
    requires low < Pow2(n) && top <= 127
    ensures low + Pow2(n) * top < Pow2(n + 7)
  {
    Pow2Add(n, 7);
    SmallPowers8();
    hide Pow2;
    MulMono(Pow2(n), top + 1, 128);
  }

  lemma WidthPowers(w: nat)
    requires 2 <= w <= 8
    ensures Pow2(w) / 2 == Pow2(w - 1) <= 128 && Pow2(w) <= 256
  {
    SmallPowers8();
  }

  lemma WindowRange(v: nat, pos: nat, w: nat, carry: nat, naf: seq<int>)
    requires 2 <= w <= 8 && Window(naf, v, w, pos, carry)
    ensures Bits(v, pos, w) <= Pow2(w) - 1 <= 255 && carry <= 1
    ensures (carry + Bits(v, pos, w)) % 2 == 1 ==> carry + Bits(v, pos, w) < Pow2(w)
  {
    WidthPowers(w);
    assert Pow2(w) == 2 * Pow2(w - 1);
  }

  lemma NothingWritten(naf: seq<int>, v: nat, w: nat)
    requires w >= 1 && |naf| == 256 && forall i :: 0 <= i < 256 ==> naf[i] == 0
    ensures Window(naf, v, w, 0, 0)
  {
    DigitSumZeros(naf, 1);
    assert Pow2(0) == 1;
    DivUnique(v, 1, v, 0);
  }

  lemma AllWritten(naf: seq<int>, v: nat, w: nat, pos: nat, carry: nat, top: nat)
    requires w >= 1 && pos >= 256 && top == 255 && v < Pow2(top) && Window(naf, v, w, pos, carry)
    ensures DigitSum(naf, 1) == v && Sparse(naf, w)
  {
    Pow2Mono(top, pos);
    DivUnique(v, Pow2(pos), 0, v);
    assert Pow2(pos) * 0 == 0;
  }

  // ---------------------------------------------------------------- radix 16

  /** signedRadix16: nibbles, then carries of at most one re-centre all but the last digit. */
  method SignedRadix16(s: Bytes32) returns (digits: seq<int>)
    requires s[31] <= 127
    ensures |digits| == 64 && DigitSum(digits, 4) == LeValue(s)
    ensures forall i :: 0 <= i < 64 ==> -8 <= digits[i] <= 8
    ensures forall i :: 0 <= i < 63 ==> digits[i] < 8
  {
    hide LeValue, Bits, Pow2, DigitSum, CarryInto, Digit;
    ghost var v := LeValue(s);
    SmallPowers8();
    var a := new int8[64](_ => 0);
    for i := 0 to 32
      invariant forall j :: 0 <= j < 2 * i ==> a[j] == Bits(v, 4 * j, 4) && 0 <= a[j] < 16
    {
      Nibbles(s, i);
      a[2 * i] := s[i] % 16;
      a[2 * i + 1] := s[i] / 16;
    }
    FirstDigit(v);
    for i := 0 to 63
      invariant forall j :: 0 <= j < i ==> a[j] == Digit(v, 4, j)
      invariant a[i] == Bits(v, 4 * i, 4) + CarryInto(v, 4, i)
      invariant forall j :: i < j < 64 ==> a[j] == Bits(v, 4 * j, 4)
    {
      DigitStep(v, 4, i, Bits(v, 4 * i, 4), CarryInto(v, 4, i));
      NibbleRange(v, i);
      NibbleRange(v, i + 1);
      var carry: int8 := (a[i] + 8) / 16;
      a[i] := a[i] - carry * 16;
      a[i + 1] := a[i + 1] + carry;
    }
    digits := a[..];
    TopNibble(s);
    HighBitClear(s);
    RadixTotal(digits, v, 252);
    forall i | 0 <= i < 63 ensures -8 <= digits[i] < 8 { DigitRange(v, i); }
  }

  lemma DigitRange(v: nat, i: nat)
    ensures -8 <= Digit(v, 4, i) < 8
  {
    SmallPowers8();
  }

  lemma FirstDigit(v: nat)
    ensures CarryInto(v, 4, 0) == 0
  {}

  lemma NibbleRange(v: nat, i: nat)
    ensures 0 <= Bits(v, 4 * i, 4) < 16 && 0 <= CarryInto(v, 4, i) <= 1
  {
    SmallPowers8();
  }

  lemma Nibbles(s: Bytes32, i: nat)
    requires i < 32
    ensures s[i] % 16 == Bits(LeValue(s), 4 * (2 * i), 4) && s[i] / 16 == Bits(LeValue(s), 4 * (2 * i + 1), 4)
  {
    hide LeValue, Bits, Pow2;
    assert s[i..i + 1] == [s[i]];
    OneByte(s[i..i + 1]);
    LoadBits(s, i, 1, 0, 4);
    LoadBits(s, i, 1, 4, 4);
    NibblesOf(s[i]);
  }

  lemma NibblesOf(b: u8)
    ensures Bits(b, 0, 4) == b % 16 && Bits(b, 4, 4) == b / 16
  {
    SmallPowers8();
    assert Pow2(0) == 1;
  }

  lemma TopNibble(s: Bytes32)
    requires s[31] <= 127
    ensures Bits(LeValue(s), 252, 4) <= 7
  {
    Nibbles(s, 31);
  }

  lemma RadixTotal(digits: seq<int>, v: nat, at: nat)
    requires |digits| == 64 && at == 4 * 63 && v < Pow2(at + 3)
    requires forall j :: 0 <= j < 63 ==> digits[j] == Digit(v, 4, j)
    requires digits[63] == Bits(v, 4 * 63, 4) + CarryInto(v, 4, 63)
    ensures DigitSum(digits, 4) == v
  {
    hide Bits, Pow2, DigitSum, CarryInto, Digit;
    DigitsHold(v, 4, 63);
    assert digits[..63] == Digits(v, 4, 63);
    assert digits[..64] == digits;
    DigitSumSnoc(digits, 63, 4);
    ModPeel(v, at, 4);
    Pow2Mono(at + 3, at + 4);
    DivUnique(v, Pow2(at + 4), 0, v);
    SumProducts(Pow2(at), Bits(v, at, 4), CarryInto(v, 4, 63));
  }

  lemma SumProducts(p: int, a: int, b: int)
    ensures p * (a + b) == p * a + p * b
  {}
}
