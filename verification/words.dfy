/** Little-endian sequences of 64-bit words, the math/bits primitives on them, and the carry loops
    of internal/heea8l: every operation is tied to the natural number its words denote. */
module Words {
  import opened Arith

  const W: int := R64

  type u64 = x: int | 0 <= x < 0x1_0000_0000_0000_0000
  type U256 = x: seq<u64> | |x| == 4 witness [0, 0, 0, 0]
  type U320 = x: seq<u64> | |x| == 5 witness [0, 0, 0, 0, 0]

  /** The number a little-endian word sequence denotes. */
  function Val(x: seq<u64>): nat {
    if |x| == 0 then 0 else x[0] + W * Val(x[1..])
  }

  /** W^i. */
  function Weight(i: nat): (w: nat)
    ensures w >= 1
  {
    if i == 0 then 1 else W * Weight(i - 1)
  }

  function Zeros(n: nat): (z: seq<u64>)
    ensures |z| == n && forall i :: 0 <= i < n ==> z[i] == 0
  {
    if n == 0 then [] else [0] + Zeros(n - 1)
  }

  lemma {:induction false} WeightPow2(i: nat)
    ensures Weight(i) == Pow2(64 * i)
  {
    if i > 0 {
      WeightPow2(i - 1);
      Pow2Add(64, 64 * (i - 1));
      Pow2Wide();
    }
  }

  lemma {:induction false} ValAppend(x: seq<u64>, y: seq<u64>)
    ensures Val(x + y) == Val(x) + Weight(|x|) * Val(y)
  {
    if |x| == 0 {
      assert x + y == y;
    } else {
      ValAppend(x[1..], y);
      assert (x + y)[1..] == x[1..] + y;
      calc {
        W * (Weight(|x| - 1) * Val(y));
        (W * Weight(|x| - 1)) * Val(y);
        Weight(|x|) * Val(y);
      }
    }
  }

  lemma ValOne(x: u64)
    ensures Val([x]) == x
  {
    assert Val([x]) == x + W * Val([]);
  }

  lemma ValSnoc(x: seq<u64>, i: nat)
    requires i < |x|
    ensures Val(x[..i + 1]) == Val(x[..i]) + Weight(i) * x[i]
  {
    assert x[..i + 1] == x[..i] + [x[i]];
    ValAppend(x[..i], [x[i]]);
    assert Val([x[i]]) == x[i] + W * Val([]);
  }

  lemma ValSplit(x: seq<u64>, i: nat)
    requires i <= |x|
    ensures Val(x) == Val(x[..i]) + Weight(i) * Val(x[i..])
  {
    assert x == x[..i] + x[i..];
    ValAppend(x[..i], x[i..]);
  }

  lemma {:induction false} ValBound(x: seq<u64>)
    ensures Val(x) < Weight(|x|)
  {
    if |x| > 0 {
      ValBound(x[1..]);
      MulMono(W, Val(x[1..]) + 1, Weight(|x| - 1));
    }
  }

  lemma {:induction false} ValZeros(n: nat)
    ensures Val(Zeros(n)) == 0
  {
    if n > 0 {
      ValZeros(n - 1);
      assert Zeros(n)[1..] == Zeros(n - 1);
    }
  }

  lemma {:induction false} ValInjective(x: seq<u64>, y: seq<u64>)
    requires |x| == |y| && Val(x) == Val(y)
    ensures x == y
  {
    if |x| > 0 {
      DivUnique(Val(x), W, Val(x[1..]), x[0]);
      DivUnique(Val(y), W, Val(y[1..]), y[0]);
      ValInjective(x[1..], y[1..]);
      assert x == [x[0]] + x[1..] && y == [y[0]] + y[1..];
    }
  }

  lemma U256Bound(x: U256)
    ensures Val(x) < R256
  {
    ValBound(x);
    WeightWide();
  }

  lemma WeightWide()
    ensures Weight(4) == R256 && Weight(5) == R320
  {
    assert Weight(1) == R64;
    assert Weight(2) == R64 * R64;
    assert Weight(3) == R64 * R64 * R64;
  }

  // ---------------------------------------------------------------- math/bits

  function Add64(x: u64, y: u64, carry: u64): (r: (u64, u64))
    requires carry <= 1
    ensures r.0 + W * r.1 == x + y + carry && r.1 <= 1
  {
    var s := x + y + carry;
    if s >= W then (s - W, 1) else (s, 0)
  }

  function Sub64(x: u64, y: u64, borrow: u64): (r: (u64, u64))
    requires borrow <= 1
    ensures r.0 - W * r.1 == x - y - borrow && r.1 <= 1
  {
    var s := x - y - borrow;
    if s < 0 then (s + W, 1) else (s, 0)
  }

  /** The high and low words of the 128-bit product. */
  function Mul64(x: u64, y: u64): (r: (u64, u64))
    ensures r.0 * W + r.1 == x * y
    ensures r.0 <= W - 2
  {
    var p := x * y;
    MulMono(x, y, W - 1);
    MulMono(W - 1, x, W - 1);
    assert 0 <= p <= (W - 1) * (W - 1);
    DivMod(p, W);
    (p / W, p % W)
  }

  /** bits.Div64: the caller guarantees hi < y, so the quotient fits one word. */
  function Div64(hi: u64, lo: u64, y: u64): (r: (u64, u64))
    requires hi < y
    ensures r.0 * y + r.1 == hi * W + lo && r.1 < y
  {
    var n := hi * W + lo;
    DivMod(n, y);
    assert n < y * W by { MulMono(W, hi + 1, y); }
    QuotientBelow(n, y, W);
    (n / y, n % y)
  }

  lemma QuotientBelow(n: nat, y: nat, m: nat)
    requires y > 0 && n < y * m
    ensures n / y < m
  {
    if n / y >= m {
      MulMono(y, m, n / y);
      DivMod(n, y);
    }
  }

  // ---------------------------------------------------------------- carry loops

  /** add256 and add320: word-wise addition with a rippled carry. */
  method AddLimbs(x: seq<u64>, y: seq<u64>) returns (sum: seq<u64>, carry: u64)
    requires |x| == |y|
    ensures |sum| == |x| && carry <= 1
    ensures Val(sum) + Weight(|x|) * carry == Val(x) + Val(y)
    ensures carry != 0 <==> Val(x) + Val(y) >= Weight(|x|)
  {
    sum, carry := [], 0;
    for i := 0 to |x|
      invariant |sum| == i && carry <= 1
      invariant Val(sum) + Weight(i) * carry == Val(x[..i]) + Val(y[..i])
    {
      var r := Add64(x[i], y[i], carry);
      ValSnoc(x, i);
      ValSnoc(y, i);
      ghost var s0 := sum;
      ValAppend(s0, [r.0]);
      assert Val([r.0]) == r.0 + W * Val([]);
      CarryStep(Weight(i), x[i], y[i], carry, r.0, r.1);
      sum, carry := sum + [r.0], r.1;
    }
    assert x[..|x|] == x && y[..|x|] == y;
    ValBound(sum);
  }

  lemma CarryStep(w: nat, a: int, b: int, c: int, s: int, d: int)
    requires s + W * d == a + b + c
    ensures w * s + (W * w) * d == w * a + w * b + w * c
  {
    calc {
      w * s + (W * w) * d;
      w * (s + W * d);
      w * (a + b + c);
      w * a + w * b + w * c;
    }
  }

  lemma BorrowStep(w: nat, a: int, b: int, c: int, s: int, d: int)
    requires s - W * d == a - b - c
    ensures w * s - (W * w) * d == w * a - w * b - w * c
  {
    calc {
      w * s - (W * w) * d;
      w * (s - W * d);
      w * (a - b - c);
      w * a - w * b - w * c;
    }
  }

  /** sub256 and sub320: word-wise subtraction with a rippled borrow. */
  method SubLimbs(x: seq<u64>, y: seq<u64>) returns (difference: seq<u64>, borrow: u64)
    requires |x| == |y|
    ensures |difference| == |x| && borrow <= 1
    ensures Val(difference) - Weight(|x|) * borrow == Val(x) - Val(y)
    ensures borrow != 0 <==> Val(x) < Val(y)
  {
    difference, borrow := [], 0;
    for i := 0 to |x|
      invariant |difference| == i && borrow <= 1
      invariant Val(difference) - Weight(i) * borrow == Val(x[..i]) - Val(y[..i])
    {
      var r := Sub64(x[i], y[i], borrow);
      ValSnoc(x, i);
      ValSnoc(y, i);
      ghost var s0 := difference;
      ValAppend(s0, [r.0]);
      assert Val([r.0]) == r.0 + W * Val([]);
      BorrowStep(Weight(i), x[i], y[i], borrow, r.0, r.1);
      difference, borrow := difference + [r.0], r.1;
    }
    assert x[..|x|] == x && y[..|x|] == y;
    ValBound(difference);
  }

  lemma {:induction false} TopWordDecides(x: seq<u64>, y: seq<u64>, i: nat)
    requires i < |x| == |y| && x[i + 1..] == y[i + 1..] && x[i] < y[i]
    ensures Val(x) < Val(y)
  {
    ValSplit(x, i + 1);
    ValSplit(y, i + 1);
    ValSnoc(x, i);
    ValSnoc(y, i);
    ValBound(x[..i]);
    WordGap(Weight(i), Val(x[..i]), x[i], y[i]);
  }

  lemma WordGap(w: nat, low: nat, a: nat, b: nat)
    requires low < w && a < b
    ensures low + w * a < w * b
  {
    MulMono(w, a + 1, b);
  }

  /** uint256.cmp, cmp320 and cmpWide: compare from the top word down. */
  method CmpLimbs(x: seq<u64>, y: seq<u64>) returns (c: int)
    requires |x| == |y|
    ensures c == (if Val(x) < Val(y) then -1 else if Val(x) > Val(y) then 1 else 0)
  {
    var i := |x|;
    while i > 0
      invariant 0 <= i <= |x|
      invariant x[i..] == y[i..]
    {
      i := i - 1;
      assert x[i..] == [x[i]] + x[i + 1..] && y[i..] == [y[i]] + y[i + 1..];
      if x[i] < y[i] {
        TopWordDecides(x, y, i);
        return -1;
      }
      if x[i] > y[i] {
        TopWordDecides(y, x, i);
        return 1;
      }
    }
    assert x[0..] == x && y[0..] == y;
    return 0;
  }

  /** x[0]|x[1]|... == 0. */
  predicate IsZero(x: seq<u64>) {
    forall i :: 0 <= i < |x| ==> x[i] == 0
  }

  lemma {:induction false} IsZeroVal(x: seq<u64>)
    ensures IsZero(x) <==> Val(x) == 0
  {
    if |x| > 0 {
      IsZeroVal(x[1..]);
      if Val(x) == 0 {
        assert forall i :: 0 < i < |x| ==> x[i] == x[1..][i - 1];
      }
    }
  }

  /** The bit-length loops: the first nonzero word from the top, at i*64 + Len64(x[i]). */
  method BitLenLimbs(x: seq<u64>) returns (n: nat)
    ensures n == BitLen(Val(x))
  {
    var i := |x|;
    assert x[..i] == x;
    while i > 0
      invariant 0 <= i <= |x|
      invariant Val(x) == Val(x[..i])
    {
      i := i - 1;
      ValSnoc(x, i);
      if x[i] != 0 {
        n := i * 64 + BitLen(x[i]);
        TopWordBitLen(Val(x[..i]), i, x[i]) by { ValBound(x[..i]); }
        return;
      }
    }
    return 0;
  }

  lemma TopWordBitLen(low: nat, i: nat, top: u64)
    requires low < Weight(i) && top > 0
    ensures BitLen(low + Weight(i) * top) == i * 64 + BitLen(top)
  {
    var m := BitLen(top);
    BitLenBounds(top);
    WeightPow2(i);
    Pow2Add(m, 64 * i);
    Pow2Add(m - 1, 64 * i);
    ScaleBounds(top, m, Weight(i));
    WordGap(Weight(i), low, top, Pow2(m));
    BitLenExact(low + Weight(i) * top, i * 64 + m);
  }

  /** The multiply-by-one-word loop shared by mulSigned320Uint64 and subMulUint64Signed320: the
      carry into the next limb never overflows, and what leaves the top limb is returned. */
  method MulWord(x: seq<u64>, m: u64) returns (out: seq<u64>, carry: u64)
    ensures |out| == |x|
    ensures Val(out) + Weight(|x|) * carry == Val(x) * m
  {
    out, carry := [], 0;
    for i := 0 to |x|
      invariant |out| == i
      invariant Val(out) + Weight(i) * carry == Val(x[..i]) * m
    {
      var low, high, ok := MulLehmerWord(x[i], m, carry);
      ValSnoc(x, i);
      ghost var o0 := out;
      ValAppend(o0, [low]);
      assert Val([low]) == low + W * Val([]);
      MulStep(Weight(i), x[i], m, carry, low, high, Val(x[..i]));
      out, carry := out + [low], high;
    }
    assert x[..|x|] == x;
  }

  lemma MulStep(w: nat, xi: int, m: int, carry: int, low: int, high: int, v: int)
    requires low + W * high == xi * m + carry
    ensures w * low + (W * w) * high == w * carry + (w * xi) * m
    ensures (v + w * xi) * m == v * m + (w * xi) * m
  {
    calc {
      w * low + (W * w) * high;
      w * (low + W * high);
      w * (xi * m + carry);
      (w * xi) * m + w * carry;
    }
  }

  /** One limb of a product: the reported overflow never happens. */
  method MulLehmerWord(word: u64, coefficient: u64, carry: u64) returns (low: u64, high: u64, ok: bool)
    ensures ok
    ensures low + W * high == word * coefficient + carry
  {
    var p := Mul64(word, coefficient);
    var l := Add64(p.1, carry, 0);
    var h := Add64(p.0, 0, l.1);
    low, high, ok := l.0, h.0, h.1 == 0;
  }
}
