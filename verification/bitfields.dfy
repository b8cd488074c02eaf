/** Bit fields of an integer, and reading them out of bytes or words. */
module BitFields {
  import opened Arith
  import opened Words
  import opened Bytes

  /** width bits of v starting at bit at. */
  function Bits(v: nat, at: nat, width: nat): (r: nat)
    ensures r < Pow2(width)
  {
    QuotientNat(v, Pow2(at));
    ModNat(v / Pow2(at), Pow2(width));
    (v / Pow2(at)) % Pow2(width)
  }

  lemma QuotientNat(a: nat, b: nat)
    requires b > 0
    ensures a / b >= 0
  {
    DivMod(a, b);
    var q := a / b;
    if q < 0 { MulMono(b, q, -1); }
  }

  lemma ModNat(a: nat, b: nat)
    requires b > 0
    ensures 0 <= a % b < b
  {}

  /** Dividing twice is dividing by the product. */
  lemma DivDiv(v: nat, p: nat, q: nat)
    requires p > 0 && q > 0
    ensures p * q > 0 && (v / p) / q == v / (p * q)
  {
    DivMod(v, p);
    QuotientNat(v, p);
    var a, r := v / p, v % p;
    DivMod(a, q);
    var b, t := a / q, a % q;
    MulMono(p, 1, q);
    DivDivArith(v, p, q, a, r, b, t);
    DivUnique(v, p * q, b, t * p + r);
  }

  lemma DivDivArith(v: int, p: nat, q: nat, a: int, r: int, b: int, t: int)
    requires v == a * p + r && a == b * q + t && 0 <= r < p && 0 <= t < q
    ensures v == b * (p * q) + (t * p + r) && 0 <= t * p + r < p * q
  {
    assert (b * q + t) * p == b * (p * q) + t * p;
    MulMono(p, t + 1, q);
    MulNonNeg(t, p);
  }

  /** What lies below a field does not matter to it. */
  lemma DropLow(low: nat, p: nat, x: nat)
    requires p > 0 && low < p
    ensures (low + p * x) / p == x
  {
    DivUnique(low + p * x, p, x, low);
  }

  /** What lies above a field does not matter to it. */
  lemma DropHigh(m: nat, hi: nat, q: nat, w: nat, t: nat)
    requires q > 0 && w > 0
    ensures ((m + (q * (w * t)) * hi) / q) % w == (m / q) % w
  {
    DivMod(m, q);
    QuotientNat(m, q);
    DivMod(m / q, w);
    var a, b := m / q, m % q;
    var c, d := a / w, a % w;
    HighArith(m, hi, q, w, t, a, b);
    DivUnique(m + (q * (w * t)) * hi, q, a + (w * t) * hi, b);
    HighArith2(hi, w, t, c, d);
    DivUnique(a + (w * t) * hi, w, c + t * hi, d);
  }

  lemma HighArith(m: int, hi: int, q: int, w: int, t: int, a: int, b: int)
    requires m == a * q + b
    ensures m + (q * (w * t)) * hi == (a + (w * t) * hi) * q + b
  {}

  lemma HighArith2(hi: int, w: int, t: int, c: int, d: int)
    ensures (c * w + d) + (w * t) * hi == (c + t * hi) * w + d
  {}

  /** A field of a block is the corresponding field of the whole. */
  lemma BitsOfBlock(low: nat, m: nat, hi: nat, at: nat, len: nat, shift: nat, width: nat)
    requires low < Pow2(at) && shift + width <= len
    ensures Bits(low + Pow2(at) * (m + Pow2(len) * hi), at + shift, width) == Bits(m, shift, width)
  {
    Pow2Add(at, shift);
    Pow2Add(width, len - shift - width);
    Pow2Add(shift, len - shift);
    hide Pow2;
    BlockArith(low, m, hi, Pow2(at), Pow2(shift), Pow2(width), Pow2(len - shift - width));
  }

  lemma BlockArith(low: nat, m: nat, hi: nat, p: nat, q: nat, w: nat, t: nat)
    requires low < p && q > 0 && w > 0
    ensures p * q > 0 && (low + p * (m + (q * (w * t)) * hi)) / (p * q) % w == (m / q) % w
  {
    var x := m + (q * (w * t)) * hi;
    MulNonNeg(q * (w * t), hi);
    DivDiv(low + p * x, p, q);
    DropLow(low, p, x);
    DropHigh(m, hi, q, w, t);
  }

  /** Peel the lowest field: v = field + 2^w * rest. */
  lemma BitsPeel(v: nat, at: nat, w: nat)
    ensures v / Pow2(at) == Bits(v, at, w) + Pow2(w) * (v / Pow2(at + w))
  {
    Pow2Add(at, w);
    DivDiv(v, Pow2(at), Pow2(w));
    QuotientNat(v, Pow2(at));
    DivMod(v / Pow2(at), Pow2(w));
  }

  /** A load of w bytes at offset o, shifted and masked, reads the field at bit 8*o+shift. */
  lemma LoadBits(b: seq<u8>, o: nat, w: nat, shift: nat, width: nat)
    requires o + w <= |b| && shift + width <= 8 * w
    ensures Bits(LeValue(b[o..o + w]), shift, width) == Bits(LeValue(b), 8 * o + shift, width)
  {
    hide LeValue, Pow2, Bits;
    assert b == b[..o] + b[o..] && b[o..] == b[o..o + w] + b[o + w..];
    LeAppend(b[..o], b[o..]);
    LeAppend(b[o..o + w], b[o + w..]);
    LeBound(b[..o]);
    BitsOfBlock(LeValue(b[..o]), LeValue(b[o..o + w]), LeValue(b[o + w..]), 8 * o, 8 * w, shift, width);
  }

  /** A field that ends above the top bit of v reads the rest of v. */
  lemma BitsTop(v: nat, at: nat, width: nat, top: nat)
    requires v < Pow2(top) && top <= at + width
    ensures Bits(v, at, width) == v / Pow2(at) && (at >= top ==> Bits(v, at, width) == 0)
  {
    Pow2Mono(top, at + width);
    Pow2Add(at, width);
    QuotientNat(v, Pow2(at));
    QuotientBelow(v, Pow2(at), Pow2(width));
    DivUnique(v / Pow2(at), Pow2(width), 0, v / Pow2(at));
    if at >= top {
      Pow2Mono(top, at);
      DivUnique(v, Pow2(at), 0, v);
    }
  }

  /** Bytes that are the byte fields of v spell v. */
  lemma {:induction false} BytesOfFields(b: seq<u8>, v: nat, at: nat)
    requires forall i :: 0 <= i < |b| ==> b[i] == Bits(v, at + 8 * i, 8)
    ensures v / Pow2(at) == LeValue(b) + Pow2(8 * |b|) * (v / Pow2(at + 8 * |b|))
    decreases |b|
  {
    hide Bits, Pow2;
    Pow2Double(0);
    if |b| > 0 {
      BitsPeel(v, at, 8);
      forall i | 0 <= i < |b| - 1
        ensures b[1..][i] == Bits(v, at + 8 + 8 * i, 8)
      {
        assert b[1..][i] == b[i + 1];
      }
      BytesOfFields(b[1..], v, at + 8);
      Pow2Add(8, 8 * (|b| - 1));
      Pow2Small();
      assert at + 8 + 8 * |b[1..]| == at + 8 * |b|;
      PeelArith(LeValue(b[1..]), Pow2(8 * (|b| - 1)), v / Pow2(at + 8 * |b|));
    }
  }

  lemma PeelArith(a: int, p: int, t: int)
    ensures 256 * (a + p * t) == 256 * a + (256 * p) * t
  {}

  /** Thirty-two byte fields of a 256-bit number. */
  lemma BytesSpell(b: Bytes32, v: nat)
    requires v < R256 && forall i :: 0 <= i < 32 ==> b[i] == Bits(v, 8 * i, 8)
    ensures LeValue(b) == v
  {
    BytesOfFields(b, v, 0);
    assert Pow2(0) == 1;
    Spelled(v, 8 * |b|, LeValue(b));
  }

  lemma Spelled(v: nat, n: nat, x: nat)
    requires n == 256 && v < R256 && v / Pow2(0) == x + Pow2(n) * (v / Pow2(0 + n))
    ensures v == x
  {
    Pow2Wide();
    DivUnique(v, Pow2(n), 0, v);
    assert Pow2(0) == 1;
    DivUnique(v, 1, v, 0);
  }
}
