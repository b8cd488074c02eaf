/** Shifts, multiplication and division on 256- and 320-bit words (internal/heea8l/fixed.go,
    internal/heea8l/shift_subtract.go), each against the integer it computes. */
module Fixed256 {
  import opened Arith
  import opened Words

  lemma ValUpdate(x: seq<u64>, i: nat, v: u64)
    requires i < |x|
    ensures Val(x[i := v]) == Val(x) + Weight(i) * (v - x[i])
  {
    var y := x[i := v];
    ValSplit(x, i);
    ValSplit(y, i);
    assert y[..i] == x[..i];
    assert y[i..] == [v] + x[i + 1..];
    assert x[i..] == [x[i]] + x[i + 1..];
    assert Val(y[i..]) == v + W * Val(x[i + 1..]);
    assert Val(x[i..]) == x[i] + W * Val(x[i + 1..]);
    MulDiff(Weight(i), Val(y[i..]), Val(x[i..]), v - x[i]);
  }

  lemma MulDiff(w: int, a: int, b: int, d: int)
    requires a - b == d
    ensures w * a == w * b + w * d
  {}

  /** Go's left shift of one word: the bits that leave the top are lost. */
  function Shl64(x: u64, s: nat): u64 {
    (x * Pow2(s)) % W
  }

  /** Go's right shift of one word. */
  function Shr64(x: u64, s: nat): u64 {
    ShrBound(x, s);
    x / Pow2(s)
  }

  lemma ShrBound(x: nat, s: nat)
    ensures 0 <= x / Pow2(s) <= x
  {
    DivMod(x, Pow2(s));
    if x / Pow2(s) > x {
      MulMono(Pow2(s), x + 1, x / Pow2(s));
      MulMono(x + 1, 1, Pow2(s));
    } else if x / Pow2(s) < 0 {
      MulMono(Pow2(s), x / Pow2(s), -1);
    }
  }

  /** high|low where the two words occupy disjoint bit ranges split at bit s. */
  function OrFields(high: u64, low: u64, s: nat): (r: u64)
    requires s <= 64 && high % Pow2(s) == 0 && low < Pow2(s)
    ensures r == high + low
  {
    Pow2Add(s, 64 - s);
    Pow2Wide();
    OrFieldsFit(high, low, Pow2(s), Pow2(64 - s));
    high + low
  }

  lemma OrFieldsFit(high: nat, low: nat, p: nat, q: nat)
    requires p > 0 && high % p == 0 && low < p && high < p * q
    ensures high + low < p * q
  {
    DivMod(high, p);
    QuotientBelow(high, p, q);
    MulMono(p, high / p + 1, q);
  }

  lemma ShiftPartsArith(x: nat, p: nat, q: nat, w: nat)
    requires p > 0 && q > 0 && p * q == w && x < w
    ensures (x * p) % w + w * (x / q) == x * p
    ensures (x * p) % w % p == 0
    ensures x / q < p
  {
    var h, l := x / q, x % q;
    DivMod(x, q);
    MulNonNeg(l, p);
    assert l * p < w by { MulMono(p, l + 1, q); }
    assert x * p == h * w + l * p by {
      assert (h * q + l) * p == h * (p * q) + l * p;
    }
    DivUnique(x * p, w, h, l * p);
    DivUnique(l * p, p, l, 0);
    QuotientBelow(x, q, p);
  }

  /** x >> (64-s) is the part of x*2^s that leaves the word, and what stays is a multiple of 2^s. */
  lemma ShiftParts(x: u64, s: nat)
    requires 0 <= s <= 64
    ensures Shl64(x, s) + W * Shr64(x, 64 - s) == x * Pow2(s)
    ensures Shl64(x, s) % Pow2(s) == 0
    ensures Shr64(x, 64 - s) < Pow2(s)
  {
    Pow2Add(s, 64 - s);
    Pow2Wide();
    ShiftPartsArith(x, Pow2(s), Pow2(64 - s), W);
  }

  // ---------------------------------------------------------------- left shifts

  /** Word j of x shifted left by s < 64 bits. */
  function ShlWord(x: seq<u64>, s: nat, j: nat): u64
    requires j < |x| && s < 64
  {
    ShiftParts(x[j], s);
    if j == 0 || s == 0 then Shl64(x[j], s)
    else
      ShiftParts(x[j - 1], s);
      OrFields(Shl64(x[j], s), Shr64(x[j - 1], 64 - s), s)
  }

  function ShlPrefix(x: seq<u64>, s: nat, n: nat): (r: seq<u64>)
    requires n <= |x| && s < 64
    ensures |r| == n && forall j :: 0 <= j < n ==> r[j] == ShlWord(x, s, j)
  {
    if n == 0 then [] else ShlPrefix(x, s, n - 1) + [ShlWord(x, s, n - 1)]
  }

  function ShlCarry(x: seq<u64>, s: nat, n: nat): u64
    requires n <= |x| && s < 64
  {
    if n == 0 || s == 0 then 0 else Shr64(x[n - 1], 64 - s)
  }

  lemma {:induction false} ShlPrefixVal(x: seq<u64>, s: nat, n: nat)
    requires n <= |x| && s < 64
    ensures Val(ShlPrefix(x, s, n)) + Weight(n) * ShlCarry(x, s, n) == Val(x[..n]) * Pow2(s)
  {
    if n > 0 {
      var m := n - 1;
      ShlPrefixVal(x, s, m);
      ValSnoc(x, m);
      ValAppend(ShlPrefix(x, s, m), [ShlWord(x, s, m)]);
      assert Val([ShlWord(x, s, m)]) == ShlWord(x, s, m) + W * Val([]);
      ShiftParts(x[m], s);
      if s == 0 {
        assert Pow2(0) == 1;
        assert Shl64(x[m], 0) == x[m];
      }
      assert ShlWord(x, s, m) + W * ShlCarry(x, s, n) == x[m] * Pow2(s) + ShlCarry(x, s, m);
      MulStep(Weight(m), x[m], Pow2(s), ShlCarry(x, s, m), ShlWord(x, s, m), ShlCarry(x, s, n), Val(x[..m]));
    }
  }

  lemma ShlWholeWords(x: seq<u64>, s: nat, ws: nat, out: seq<u64>)
    requires s < 64 && ws <= |x| && out == Zeros(ws) + ShlPrefix(x, s, |x| - ws)
    ensures Val(out) == (Val(x) * Pow2(64 * ws + s)) % Weight(|x|)
  {
    var n := |x| - ws;
    var body := ShlPrefix(x, s, n);
    ValAppend(Zeros(ws), body);
    ValZeros(ws);
    ShlPrefixVal(x, s, n);
    ValSplit(x, n);
    WeightPow2(ws);
    WeightAdd(n, ws);
    Pow2Add(64 * ws, s);
    ValBound(out);
    WholeWordsArith(Val(x[..n]), Val(x[n..]), Val(body), ShlCarry(x, s, n), Weight(n), Weight(ws), Pow2(s));
  }

  lemma WeightAdd(i: nat, j: nat)
    ensures Weight(i + j) == Weight(i) * Weight(j)
  {
    WeightPow2(i);
    WeightPow2(j);
    WeightPow2(i + j);
    Pow2Add(64 * i, 64 * j);
  }

  lemma WholeWordsArith(lo: nat, hi: nat, body: nat, c: nat, wn: nat, ww: nat, p: nat)
    requires body + wn * c == lo * p && ww * body < wn * ww
    ensures ((lo + wn * hi) * (ww * p)) % (wn * ww) == ww * body
  {
    var m := wn * ww;
    assert (lo + wn * hi) * (ww * p) == (c + hi * p) * m + ww * body by {
      assert (lo + wn * hi) * (ww * p) == ww * (lo * p) + m * (hi * p);
      assert ww * (body + wn * c) == ww * body + m * c;
    }
    DivUnique((lo + wn * hi) * (ww * p), m, c + hi * p, ww * body);
  }

  /** shl256: shift left, dropping what leaves the top word. */
  method ShlLimbs(x: seq<u64>, shift: nat) returns (out: seq<u64>)
    ensures |out| == |x|
    ensures Val(out) == (Val(x) * Pow2(shift)) % Weight(|x|)
  {
    var n := |x|;
    out := Zeros(n);
    ValZeros(n);
    if shift >= 64 * n {
      WeightPow2(n);
      Pow2Add(64 * n, shift - 64 * n);
      MultipleOf(Val(x), Weight(n), Pow2(shift - 64 * n));
      return;
    }
    var wordShift, bitShift := shift / 64, shift % 64;
    var destination := n - 1;
    while destination >= wordShift
      invariant wordShift - 1 <= destination <= n - 1 && |out| == n
      invariant forall d :: 0 <= d <= destination ==> out[d] == 0
      invariant forall d :: destination < d < n ==> out[d] == ShlWord(x, bitShift, d - wordShift)
    {
      var source := destination - wordShift;
      ShiftParts(x[source], bitShift);
      var word := Shl64(x[source], bitShift);
      if bitShift != 0 && source > 0 {
        ShiftParts(x[source - 1], bitShift);
        word := OrFields(word, Shr64(x[source - 1], 64 - bitShift), bitShift);
      }
      out := out[destination := word];
      destination := destination - 1;
    }
    assert out == Zeros(wordShift) + ShlPrefix(x, bitShift, n - wordShift);
    ShlWholeWords(x, bitShift, wordShift, out);
  }

  lemma MultipleOf(v: nat, m: nat, k: nat)
    requires m > 0
    ensures (v * (m * k)) % m == 0
  {
    assert v * (m * k) == (v * k) * m;
    DivUnique(v * (m * k), m, v * k, 0);
  }

  /** shr1_256. */
  function Shr1(x: U256): (r: U256)
    ensures Val(r) == Val(x) / 2
  {
    var r := [Join(x[0], x[1]), Join(x[1], x[2]), Join(x[2], x[3]), x[3] / 2];
    assert Val(r) == Val(x) / 2 by {
      Val4(x);
      Val4(r);
      var v := r[0] + W * (r[1] + W * (r[2] + W * r[3]));
      DivUnique(Val(x), 2, v, x[0] % 2);
    }
    r
  }

  /** low>>1 | high<<63. */
  function Join(low: u64, high: u64): (r: u64)
    ensures r == low / 2 + 0x8000_0000_0000_0000 * (high % 2)
  {
    low / 2 + 0x8000_0000_0000_0000 * (high % 2)
  }

  lemma Val4(x: U256)
    ensures Val(x) == x[0] + W * (x[1] + W * (x[2] + W * x[3]))
  {
    assert Val(x[4..]) == 0;
    assert x[1..][1..] == x[2..] && x[2..][1..] == x[3..] && x[3..][1..] == x[4..];
    assert Val(x[3..]) == x[3] + W * Val(x[4..]);
    assert Val(x[2..]) == x[2] + W * Val(x[3..]);
    assert Val(x[1..]) == x[1] + W * Val(x[2..]);
  }

  /** shl320: the exact shift, with an overflow report that is exact in both directions. */
  method ShlExact(x: seq<u64>, shift: nat) returns (out: seq<u64>, overflow: bool)
    ensures |out| == |x|
    ensures overflow <==> Val(x) * Pow2(shift) >= Weight(|x|)
    ensures !overflow ==> Val(out) == Val(x) * Pow2(shift)
  {
    hide Pow2, Weight;
    var n := |x|;
    out, overflow := Zeros(n), false;
    ValZeros(n);
    if shift >= 64 * n {
      overflow := !IsZero(x);
      ShiftOut(x, shift);
      return;
    }
    var wordShift, bitShift := shift / 64, shift % 64;
    ghost var lost: nat := 0;
    for source := 0 to n
      invariant |out| == n
      invariant Val(out) + Weight(n) * lost == Val(x[..source]) * Pow2(shift)
      invariant overflow <==> lost > 0
      invariant Vacant(out, source + wordShift, bitShift)
    {
      ValSnoc(x, source);
      if x[source] == 0 {
        assert Val(x[..source + 1]) == Val(x[..source]);
        continue;
      }
      ShiftParts(x[source], bitShift);
      Placement(Val(x[..source]), source, wordShift, bitShift, x[source],
                Shl64(x[source], bitShift), Shr64(x[source], 64 - bitShift));
      ghost var l;
      var high;
      out, high, l := PlaceShifted(out, source + wordShift, x[source], bitShift);
      overflow := overflow || high;
      MulDiff(Weight(n), lost + l, lost, l);
      lost := lost + l;
    }
    assert x[..n] == x;
    ValBound(out);
    if lost > 0 { MulMono(Weight(n), 1, lost); }
  }

  lemma ShiftOut(x: seq<u64>, shift: nat)
    requires shift >= 64 * |x|
    ensures IsZero(x) ==> Val(x) * Pow2(shift) == 0
    ensures !IsZero(x) ==> Val(x) * Pow2(shift) >= Weight(|x|)
    ensures Weight(|x|) > 0
  {
    IsZeroVal(x);
    WeightPow2(|x|);
    Pow2Mono(64 * |x|, shift);
    if !IsZero(x) { MulMono(Pow2(shift), 1, Val(x)); }
  }

  /** Nothing but the low bitShift bits of word number at has been written from there up. */
  ghost predicate Vacant(out: seq<u64>, at: nat, bitShift: nat) {
    (forall d :: at < d < |out| ==> out[d] == 0) && (at < |out| ==> out[at] < Pow2(bitShift))
  }

  /** The loop body of shl320 for one nonzero source word. */
  method PlaceShifted(words: seq<u64>, destination: nat, word: u64, bitShift: nat)
    returns (out: seq<u64>, overflow: bool, ghost lost: nat)
    requires word > 0 && bitShift < 64 && Vacant(words, destination, bitShift)
    ensures |out| == |words|
    ensures Val(out) + Weight(|words|) * lost == Val(words)
            + Weight(destination) * Shl64(word, bitShift) + Weight(destination + 1) * Shr64(word, 64 - bitShift)
    ensures overflow <==> lost > 0
    ensures Vacant(out, destination + 1, bitShift)
  {
    out, overflow, lost := words, false, 0;
    ShiftParts(word, bitShift);
    if destination >= |out| {
      overflow := true;
      lost := LostPart(|out|, destination, word, bitShift, Shl64(word, bitShift), Shr64(word, 64 - bitShift));
      return;
    }
    var low := OrFields(Shl64(word, bitShift), out[destination], bitShift);
    ValUpdate(out, destination, low);
    out := out[destination := low];
    if bitShift != 0 {
      var high := Shr64(word, 64 - bitShift);
      if destination + 1 >= |out| {
        overflow := high != 0;
        lost := high;
      } else {
        ValUpdate(out, destination + 1, high);
        out := out[destination + 1 := high];
      }
    } else {
      assert Pow2(0) == 1;
      assert Shr64(word, 64) == 0;
    }
  }

  /** What source word number k adds to the shifted value. */
  lemma Placement(v: nat, k: nat, ws: nat, s: nat, word: u64, lo: nat, hi: nat)
    requires s < 64 && lo + W * hi == word * Pow2(s)
    ensures (v + Weight(k) * word) * Pow2(64 * ws + s)
         == v * Pow2(64 * ws + s) + Weight(k + ws) * lo + Weight(k + ws + 1) * hi
  {
    WeightPow2(k);
    WeightPow2(ws);
    WeightPow2(k + ws);
    Pow2Add(64 * ws, s);
    Pow2Add(64 * k, 64 * ws);
    PlacementArith(v, word, lo, hi, Weight(k), Weight(ws), Pow2(s), W);
  }

  lemma PlacementArith(v: nat, word: nat, lo: nat, hi: nat, wk: nat, ww: nat, p: nat, w: nat)
    requires lo + w * hi == word * p
    ensures (v + wk * word) * (ww * p) == v * (ww * p) + (wk * ww) * lo + (w * (wk * ww)) * hi
  {
    var m := wk * ww;
    assert (v + wk * word) * (ww * p) == v * (ww * p) + m * (word * p);
    assert m * (lo + w * hi) == m * lo + (w * m) * hi;
  }

  /** A nonzero word placed wholly above the top word contributes a positive multiple of it. */
  ghost function LostPart(n: nat, destination: nat, word: u64, s: nat, lo: nat, hi: nat): (r: nat)
    requires destination >= n && word > 0 && lo + W * hi == word * Pow2(s)
    ensures r > 0 && Weight(n) * r == Weight(destination) * lo + Weight(destination + 1) * hi
  {
    WeightAdd(n, destination - n);
    LostArith(word, lo, hi, Weight(n), Weight(destination - n), Pow2(s), W);
    Weight(destination - n) * (word * Pow2(s))
  }

  lemma LostArith(word: nat, lo: nat, hi: nat, m: nat, up: nat, p: nat, w: nat)
    requires word > 0 && up > 0 && p > 0 && lo + w * hi == word * p
    ensures up * (word * p) > 0
    ensures m * (up * (word * p)) == (m * up) * lo + (w * (m * up)) * hi
  {
    MulMono(word, 1, p);
    MulMono(up, 1, word * p);
    var k := m * up;
    assert k * (lo + w * hi) == k * lo + (w * k) * hi;
  }
}
