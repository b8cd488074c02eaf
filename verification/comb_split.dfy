/** The arithmetic of a two-way comb: even and odd digits summed apart recombine to the scalar. */
module CombSplit {
  import opened Arith
  import opened Recoding

  function Evens(d: seq<int>): (e: seq<int>)
    ensures |e| == (|d| + 1) / 2 && forall i :: 0 <= i < |e| ==> e[i] == d[2 * i]
  {
    seq((|d| + 1) / 2, i requires 0 <= i < (|d| + 1) / 2 => d[2 * i])
  }

  function Odds(d: seq<int>): (o: seq<int>)
    ensures |o| == |d| / 2 && forall i :: 0 <= i < |o| ==> o[i] == d[2 * i + 1]
  {
    seq(|d| / 2, i requires 0 <= i < |d| / 2 => d[2 * i + 1])
  }

  /** sum d_i 2^(wi) == sum d_2i 2^(2wi) + 2^w * sum d_2i+1 2^(2wi). */
  lemma {:induction false} EvenOdd(d: seq<int>, w: nat)
    ensures DigitSum(d, w) == DigitSum(Evens(d), 2 * w) + Pow2(w) * DigitSum(Odds(d), 2 * w)
    decreases |d|
  {
    if |d| == 0 {
      assert Pow2(w) * 0 == 0;
    } else if |d| == 1 {
      DigitSumOne(d[0], w);
      DigitSumOne(d[0], 2 * w);
      assert Evens(d) == [d[0]] && d == [d[0]];
      assert Pow2(w) * 0 == 0;
    } else {
      var t := d[2..];
      EvenOdd(t, w);
      assert Evens(d)[1..] == Evens(t) && Odds(d)[1..] == Odds(t);
      assert d[1..][1..] == t;
      assert DigitSum(d[1..], w) == d[1] + Pow2(w) * DigitSum(t, w);
      Pow2Add(w, w);
      assert w + w == 2 * w;
      hide Pow2;
      SplitArith(d[0], d[1], Pow2(w), DigitSum(Evens(t), 2 * w), DigitSum(Odds(t), 2 * w));
    }
  }

  lemma SplitArith(a: int, b: int, p: int, e: int, o: int)
    ensures a + p * (b + p * (e + p * o)) == (a + (p * p) * e) + p * (b + (p * p) * o)
  {}
}
