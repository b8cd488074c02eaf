/** The lazy-carry field domain: the scalar VPMADD52 model, one carry/fold pass, the linear operations
    and the two stage-2 transitions (internal/r51x5/ifma_model.go, ifma_composable.go,
    double_stage2_ifma_other.go, niels_stage2_ifma_other.go). Every word below is a Go uint64: the
    bounds proved are what keeps each assignment from wrapping. */
module FieldIfma {
  import opened Arith
  import opened Words
  import opened FieldLimbs

  const T52: int := 0x10_0000_0000_0000
  const T61: int := 0x2000_0000_0000_0000

  // ---------------------------------------------------------------- weighted sums

  function W51(s: seq<int>): int {
    if |s| == 0 then 0 else s[0] + T51 * W51(s[1..])
  }

  function Place51(i: nat): nat {
    if i == 0 then 1 else T51 * Place51(i - 1)
  }

  lemma {:induction false} W51Bump(s: seq<int>, i: nat, d: int)
    requires i < |s|
    ensures W51(s[i := s[i] + d]) == W51(s) + Place51(i) * d
  {
    var e := s[i := s[i] + d];
    if i == 0 {
      assert e[1..] == s[1..];
    } else {
      assert e[1..] == s[1..][i - 1 := s[1..][i - 1] + d];
      W51Bump(s[1..], i - 1, d);
      PlaceProduct(Place51(i - 1), d);
    }
  }

  lemma PlaceProduct(p: int, d: int)
    ensures T51 * (p * d) == (T51 * p) * d
  {}

  lemma {:induction false} PlaceSum(i: nat, j: nat)
    ensures Place51(i + j) == Place51(i) * Place51(j)
  {
    if i > 0 {
      PlaceSum(i - 1, j);
      PlaceProduct(Place51(i - 1), Place51(j));
    }
  }

  lemma {:induction false} W51Append(a: seq<int>, b: seq<int>)
    ensures W51(a + b) == W51(a) + Place51(|a|) * W51(b)
  {
    if |a| == 0 {
      assert a + b == b;
    } else {
      assert (a + b)[1..] == a[1..] + b;
      W51Append(a[1..], b);
      PlaceProduct(Place51(|a| - 1), W51(b));
    }
  }

  lemma W51Snoc(s: seq<int>, i: nat)
    requires i < |s|
    ensures W51(s[..i + 1]) == W51(s[..i]) + Place51(i) * s[i]
  {
    assert s[..i + 1] == s[..i] + [s[i]];
    W51Append(s[..i], [s[i]]);
    W51One(s[i]);
  }

  lemma W51One(x: int)
    ensures W51([x]) == x && W51([]) == 0
  {
    assert W51([x]) == x + T51 * W51([]);
  }

  lemma {:induction false} W51Zeros(s: seq<int>)
    requires forall i :: 0 <= i < |s| ==> s[i] == 0
    ensures W51(s) == 0
  {
    if |s| > 0 { W51Zeros(s[1..]); }
  }

  lemma W51Five(x: seq<int>)
    requires |x| == 5
    ensures W51(x) == FVal(x)
  {
    var a, b, c, d := x[1..], x[1..][1..], x[1..][1..][1..], x[1..][1..][1..][1..];
    assert W51(d) == x[4] + T51 * W51(d[1..]);
    assert d[1..] == [];
    assert W51(c) == x[3] + T51 * W51(d);
    assert W51(b) == x[2] + T51 * W51(c);
    assert W51(a) == x[1] + T51 * W51(b);
  }

  // ---------------------------------------------------------------- the product model

  /** How many of the first i rows contribute to degree d. */
  function Rows(i: nat, d: nat): (c: nat)
    ensures c <= i
  {
    if i == 0 then 0 else Rows(i - 1, d) + (if i - 1 <= d < i - 1 + 5 then 1 else 0)
  }

  /** The exact bounds of a raw folded product. */
  predicate RawProduct(x: seq<int>) {
    && |x| == 5 && (forall i :: 0 <= i < 5 ==> x[i] >= 0)
    && x[0] < 267 * T52 && x[1] < 213 * T52 && x[2] < 159 * T52 && x[3] < 105 * T52 && x[4] < 51 * T52
  }

  /** lo & mask52 and lo>>52 | hi<<12 split a product at bit 52. */
  lemma SplitAt52(p: nat, hi: u64, lo: u64)
    requires p < T52 * T52 && p == hi * W + lo
    ensures 0 <= lo % T52 < T52 && hi * 4096 < W && 0 <= lo / T52 + hi * 4096 < T52
    ensures p == lo % T52 + T52 * (lo / T52 + hi * 4096)
  {}

  lemma U52Product(x: int, y: int)
    requires 0 <= x < T52 && 0 <= y < T52
    ensures 0 <= x * y < T52 * T52
  {
    MulNonNeg(x, y);
    MulMono(x, y, T52);
    MulMono(T52, x, T52 - 1);
  }

  /** One low/high accumulation. */
  method AddPair(low: array<u64>, high: array<u64>, degree: nat, x: u64, y: u64)
    requires low.Length == 9 && high.Length == 9 && low != high && degree < 9 && x < T52 && y < T52
    requires low[degree] <= 4 * T52 && high[degree] <= 4 * T52
    modifies low, high
    ensures old(low[degree]) <= low[degree] < old(low[degree]) + T52
    ensures old(high[degree]) <= high[degree] < old(high[degree]) + T52
    ensures forall d :: 0 <= d < 9 && d != degree ==> low[d] == old(low[d]) && high[d] == old(high[d])
    ensures W51(low[..]) + T52 * W51(high[..])
         == W51(old(low[..])) + T52 * W51(old(high[..])) + Place51(degree) * (x * y)
  {
    hide W51, Place51;
    U52Product(x, y);
    var p := Mul64(x, y);
    SplitAt52(x * y, p.0, p.1);
    var l, h := p.1 % T52, p.1 / T52 + p.0 * 4096;
    W51Bump(low[..], degree, l);
    W51Bump(high[..], degree, h);
    assert low[..][degree := low[..][degree] + l] == low[..degree] + [low[degree] + l] + low[degree + 1..];
    assert high[..][degree := high[..][degree] + h] == high[..degree] + [high[degree] + h] + high[degree + 1..];
    ghost var l0, h0 := low[..], high[..];
    low[degree] := low[degree] + l;
    high[degree] := high[degree] + h;
    assert low[..] == l0[degree := l0[degree] + l];
    assert high[..] == h0[degree := h0[degree] + h];
    PairTotal(Place51(degree), l, h, x * y);
  }

  lemma PairTotal(p: int, l: int, h: int, xy: int)
    requires xy == l + T52 * h
    ensures p * l + T52 * (p * h) == p * xy
  {}

  /** Row i: x[i]*y accumulated from degree i up. */
  method AddRow(low: array<u64>, high: array<u64>, x: seq<u64>, y: seq<u64>, i: nat)
    requires low.Length == 9 && high.Length == 9 && low != high && i < 5 && U52(x) && U52(y)
    requires forall d :: 0 <= d < 9 ==> low[d] <= Rows(i, d) * (T52 - 1) && high[d] <= Rows(i, d) * (T52 - 1)
    modifies low, high
    ensures forall d :: 0 <= d < 9 ==> low[d] <= Rows(i + 1, d) * (T52 - 1) && high[d] <= Rows(i + 1, d) * (T52 - 1)
    ensures W51(low[..]) + T52 * W51(high[..])
         == W51(old(low[..])) + T52 * W51(old(high[..])) + Place51(i) * (x[i] * W51(y))
  {
    hide W51, Place51, Rows;
    RowsAre(i);
    assert y[..0] == [];
    W51One(0);
    for j := 0 to 5
      invariant forall d :: 0 <= d < 9 && i <= d < i + j ==>
        low[d] <= (Rows(i, d) + 1) * (T52 - 1) && high[d] <= (Rows(i, d) + 1) * (T52 - 1)
      invariant forall d :: 0 <= d < 9 && !(i <= d < i + j) ==>
        low[d] <= Rows(i, d) * (T52 - 1) && high[d] <= Rows(i, d) * (T52 - 1)
      invariant W51(low[..]) + T52 * W51(high[..])
             == W51(old(low[..])) + T52 * W51(old(high[..])) + Place51(i) * (x[i] * W51(y[..j]))
    {
      RowsAtMost(i, i + j);
      AddPair(low, high, i + j, x[i], y[j]);
      PlaceSum(i, j);
      W51Snoc(y, j);
      RowTotal(Place51(i), x[i], W51(y[..j]), Place51(j), y[j]);
    }
    assert y[..5] == y;
  }

  lemma RowsAre(i: nat)
    ensures forall d: nat :: Rows(i + 1, d) == Rows(i, d) + (if i <= d < i + 5 then 1 else 0)
  {}

  lemma RowsAtMost(i: nat, d: nat)
    requires i < 5
    ensures 0 <= Rows(i, d) * (T52 - 1) <= 4 * T52
  {}

  lemma RowTotal(p: int, xi: int, y: int, q: int, yj: int)
    ensures p * (xi * (y + q * yj)) == p * (xi * y) + (p * q) * (xi * yj)
  {}

  /** All twenty-five products, accumulated by degree. */
  method Accumulate(x: Limbs, y: Limbs) returns (low: array<u64>, high: array<u64>)
    requires U52(x) && U52(y)
    ensures fresh(low) && fresh(high) && low.Length == 9 && high.Length == 9
    ensures forall d :: 0 <= d < 9 ==> low[d] <= Rows(5, d) * (T52 - 1) && high[d] <= Rows(5, d) * (T52 - 1)
    ensures W51(low[..]) + T52 * W51(high[..]) == W51(x) * W51(y)
  {
    hide W51, Place51, Rows;
    low := new u64[9](_ => 0);
    high := new u64[9](_ => 0);
    W51Zeros(low[..]);
    W51Zeros(high[..]);
    assert x[..0] == [];
    W51One(0);
    NoRows();
    for i := 0 to 5
      invariant forall d :: 0 <= d < 9 ==> low[d] <= Rows(i, d) * (T52 - 1) && high[d] <= Rows(i, d) * (T52 - 1)
      invariant W51(low[..]) + T52 * W51(high[..]) == W51(x[..i]) * W51(y)
    {
      AddRow(low, high, x, y, i);
      W51Snoc(x, i);
      RowsTotal(W51(x[..i]), Place51(i), x[i], W51(y));
    }
    assert x[..5] == x;
  }

  /** ifmaLooseLaneModel: congruent to the product, with exact limb bounds. */
  method LooseProduct(x: Limbs, y: Limbs) returns (out: Limbs)
    requires U52(x) && U52(y)
    ensures RawProduct(out) && Same(FVal(out), FVal(x) * FVal(y))
  {
    hide W51, Place51, Rows, FVal, Same;
    var low, high := Accumulate(x, y);
    AllRows();
    W51Five(x);
    W51Five(y);
    out := FoldCoefficients(low[..], high[..]);
  }

  lemma NoRows()
    ensures forall d: nat :: Rows(0, d) == 0
  {}

  lemma RowsTotal(a: int, p: int, xi: int, y: int)
    ensures (a + p * xi) * y == a * y + p * (xi * y)
  {}

  lemma AllRows()
    ensures Rows(5, 0) == 1 && Rows(5, 1) == 2 && Rows(5, 2) == 3 && Rows(5, 3) == 4 && Rows(5, 4) == 5
    ensures Rows(5, 5) == 4 && Rows(5, 6) == 3 && Rows(5, 7) == 2 && Rows(5, 8) == 1
  {
    assert forall d: nat :: Rows(1, d) == Rows(0, d) + (if 0 <= d < 5 then 1 else 0);
    assert forall d: nat :: Rows(2, d) == Rows(1, d) + (if 1 <= d < 6 then 1 else 0);
    assert forall d: nat :: Rows(3, d) == Rows(2, d) + (if 2 <= d < 7 then 1 else 0);
    assert forall d: nat :: Rows(4, d) == Rows(3, d) + (if 3 <= d < 8 then 1 else 0);
  }

  /** High halves weigh twice the next degree; degrees five and up fold with 2^255 = 19. */
  method FoldCoefficients(low: seq<u64>, high: seq<u64>) returns (out: Limbs)
    requires |low| == 9 && |high| == 9
    requires forall d :: 0 <= d < 9 ==> low[d] < Peak(d) * T52 && high[d] < Peak(d) * T52
    ensures RawProduct(out) && Same(FVal(out), W51(low) + T52 * W51(high))
  {
    hide Same;
    var c: seq<u64> := seq(10, _ => 0);
    for d := 0 to 9
      invariant |c| == 10
      invariant forall k :: 0 <= k < 10 ==> c[k] == (if k < d then low[k] else 0) + (if 1 <= k <= d then 2 * high[k - 1] else 0)
    {
      c := c[d := c[d] + low[d]];
      c := c[d + 1 := c[d + 1] + 2 * high[d]];
    }
    out := [c[0] + 19 * c[5], c[1] + 19 * c[6], c[2] + 19 * c[7], c[3] + 19 * c[8], c[4] + 19 * c[9]];
    FoldTotal(low, high, c, out);
  }

  /** The number of products per degree. */
  function Peak(d: nat): nat { if d < 5 then d + 1 else if d < 9 then 9 - d else 0 }

  lemma W51Nine(s: seq<int>)
    requires |s| == 9
    ensures W51(s) == FVal([s[0], s[1], s[2], s[3], s[4]])
      + 0x8000000000000000000000000000000000000000000000000000000000000000 * FVal([s[5], s[6], s[7], s[8], 0])
  {
    hide W51, Place51, FVal;
    var head, tail := [s[0], s[1], s[2], s[3], s[4]], [s[5], s[6], s[7], s[8]];
    assert s == head + tail;
    W51Append(head, tail);
    W51Append(tail, [0]);
    W51One(0);
    W51Five(head);
    W51Five(tail + [0]);
    assert tail + [0] == [s[5], s[6], s[7], s[8], 0];
    PlaceFive();
    NothingAdded(Place51(4));
  }

  lemma NothingAdded(p: int)
    ensures p * 0 == 0
  {}

  lemma PlaceFive()
    ensures Place51(5) == 0x8000000000000000000000000000000000000000000000000000000000000000
  {
    assert Place51(1) == T51 && Place51(2) == T51 * T51 && Place51(3) == T51 * T51 * T51;
  }

  lemma FoldTotal(low: seq<int>, high: seq<int>, c: seq<int>, out: seq<int>)
    requires |low| == 9 && |high| == 9 && |c| == 10 && |out| == 5
    requires forall k :: 0 <= k < 10 ==> c[k] == (if k < 9 then low[k] else 0) + (if 1 <= k then 2 * high[k - 1] else 0)
    requires forall k :: 0 <= k < 5 ==> out[k] == c[k] + 19 * c[k + 5]
    ensures Same(FVal(out), W51(low) + T52 * W51(high))
  {
    hide Same;
    W51Nine(low);
    W51Nine(high);
    var a := FVal([c[5], c[6], c[7], c[8], c[9]]);
    SameBy(FVal(out), W51(low) + T52 * W51(high), -a);
  }
}
