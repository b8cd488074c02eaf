/** The two variable-time double-scalar multiplications of internal/edwards25519: the NAF chain
    (scalarmult.go) and the comb tables (comb.go). Both compute [a]A + [b]B. */
module EdwardsMult {
  import opened Arith
  import opened Bytes
  import opened GroupTheory
  import opened Recoding
  import opened Schedules
  import opened CombSplit
  import opened MergedChain
  import opened EdwardsScalar

  // ---------------------------------------------------------------- odd multiples

  /** nafLookupTable5 and nafLookupTable8: entry i is [2i+1]Q. */
  ghost predicate OddMultiples<G(!new)>(g: Group<G>, table: seq<G>, q: G) {
    forall i :: 0 <= i < |table| ==> table[i] == Mul(g, 2 * i + 1, q)
  }

  method BuildOdd<G(!new)>(g: Group<G>, q: G, entries: nat) returns (table: seq<G>)
    requires Abelian(g) && entries >= 1
    ensures |table| == entries && OddMultiples(g, table, q)
  {
    hide Abelian, Mul;
    table := [q];
    var q2 := g.add(q, q);
    MulZeroOne(g, q);
    DoubleMul(g, 1, q);
    for i := 1 to entries
      invariant |table| == i && OddMultiples(g, table, q)
    {
      MulAdd(g, 2, 2 * (i - 1) + 1, q);
      table := table + [g.add(q2, table[i - 1])];
    }
  }

  /** Adding or subtracting the looked-up odd multiple adds [d]Q for an odd digit d of either sign. */
  method AddOdd<G(!new)>(g: Group<G>, acc: G, table: seq<G>, d: int, ghost q: G) returns (out: G)
    requires Abelian(g) && OddMultiples(g, table, q)
    requires d == 0 || (d % 2 == 1 && Abs(d) < 2 * |table|)
    ensures out == g.add(acc, Mul(g, d, q))
  {
    hide Abelian, Mul, Abs, OddMultiples;
    if d > 0 {
      OddEntry(g, table, d, q);
      out := g.add(acc, table[d / 2]);
    } else if d < 0 {
      OddEntry(g, table, -d, q);
      out := Sub(g, acc, table[-d / 2]);
      MulNeg(g, -d, q);
    } else {
      out := acc;
      MulZeroOne(g, q);
      Zero(g, acc);
    }
  }

  lemma OddEntry<G(!new)>(g: Group<G>, table: seq<G>, d: int, q: G)
    requires OddMultiples(g, table, q) && d > 0 && (d % 2 == 1 || -d % 2 == 1) && (Abs(d) < 2 * |table| || Abs(-d) < 2 * |table|)
    ensures 0 <= d / 2 < |table| && table[d / 2] == Mul(g, d, q)
  {
    hide Mul;
    assert 2 * (d / 2) + 1 == d;
  }

  ghost function From(d: seq<int>, i: nat): int
    requires i <= |d|
  {
    DigitSum(d[i..], 1)
  }

  lemma FromStep(d: seq<int>, i: nat)
    requires i < |d|
    ensures From(d, i) == d[i] + 2 * From(d, i + 1)
  {
    assert d[i..][1..] == d[i + 1..] && Pow2(1) == 2;
  }

  lemma FromZeros(d: seq<int>, i: nat)
    requires i <= |d| && forall j :: i <= j < |d| ==> d[j] == 0
    ensures From(d, i) == 0
  {
    DigitSumZeros(d[i..], 1);
  }

  /** varTimeDoubleScalarBaseMult: skip the leading zeros, then one doubling per position. */
  method NafChain<G(!new)>(g: Group<G>, a: Bytes32, aTable: seq<G>, b: Bytes32, bTable: seq<G>, ghost A: G, ghost B: G)
    returns (v: G)
    requires Abelian(g) && a[31] <= 127 && b[31] <= 127
    requires |aTable| == 8 && OddMultiples(g, aTable, A) && |bTable| == 64 && OddMultiples(g, bTable, B)
    ensures v == g.add(Mul(g, LeValue(a), A), Mul(g, LeValue(b), B))
  {
    hide Abelian, Mul, LeValue, Pair, From, OddMultiples;
    var aNaf := NonAdjacentForm(a, 5);
    var bNaf := NonAdjacentForm(b, 8);
    NafDigits(aNaf, 5);
    NafDigits(bNaf, 8);
    var i := 255;
    while i >= 0 && aNaf[i] == 0 && bNaf[i] == 0
      invariant -1 <= i <= 255
      invariant forall j :: i < j < 256 ==> aNaf[j] == 0 && bNaf[j] == 0
    {
      i := i - 1;
    }
    v := g.zero;
    FromZeros(aNaf, i + 1);
    FromZeros(bNaf, i + 1);
    PairZero(g, A, B);
    while i >= 0
      invariant -1 <= i <= 255
      invariant v == Pair(g, From(aNaf, i + 1), From(bNaf, i + 1), A, B)
    {
      var doubled := g.add(v, v);
      PairDoubled(g, From(aNaf, i + 1), From(bNaf, i + 1), A, B);
      FromStep(aNaf, i);
      FromStep(bNaf, i);
      PairAddFirst(g, 2 * From(aNaf, i + 1), aNaf[i], 2 * From(bNaf, i + 1), A, B);
      PairAddSecond(g, From(aNaf, i), 2 * From(bNaf, i + 1), bNaf[i], A, B);
      var withA := AddOdd(g, doubled, aTable, aNaf[i], A);
      v := AddOdd(g, withA, bTable, bNaf[i], B);
      i := i - 1;
    }
    FromAll(aNaf);
    FromAll(bNaf);
    PairIs(g, LeValue(a), LeValue(b), A, B);
  }

  lemma FromAll(d: seq<int>)
    ensures From(d, 0) == DigitSum(d, 1)
  {
    assert d[0..] == d;
  }

  lemma PairIs<G(!new)>(g: Group<G>, x: int, y: int, A: G, B: G)
    ensures Pair(g, x, y, A, B) == g.add(Mul(g, x, A), Mul(g, y, B))
  {}

  lemma PairDoubled<G(!new)>(g: Group<G>, x: int, y: int, A: G, B: G)
    requires Abelian(g)
    ensures g.add(Pair(g, x, y, A, B), Pair(g, x, y, A, B)) == Pair(g, 2 * x, 2 * y, A, B)
  {
    hide Abelian, Mul;
    Shuffle(g, Mul(g, x, A), Mul(g, y, B), Mul(g, x, A), Mul(g, y, B));
    DoubleMul(g, x, A);
    DoubleMul(g, y, B);
  }

  lemma NafDigits(naf: seq<int>, w: nat)
    requires (w == 5 || w == 8) && Sparse(naf, w)
    ensures forall i :: 0 <= i < |naf| ==>
      naf[i] == 0 || (naf[i] % 2 == 1 && Abs(naf[i]) < 2 * (if w == 5 then 8 else 64))
  {
    SmallPowers8();
  }

  // ---------------------------------------------------------------- comb tables

  /** PubkeyTable and basepointTable: table i holds [j+1][256^i]P for j < 8. */
  ghost predicate CombTable<G(!new)>(g: Group<G>, table: seq<seq<G>>, p: G) {
    forall i :: 0 <= i < |table| ==> |table[i]| == 8 && Row(g, table[i], Mul(g, Pow2(8 * i), p))
  }

  ghost predicate Row<G(!new)>(g: Group<G>, row: seq<G>, q: G) {
    forall j :: 0 <= j < |row| ==> row[j] == Mul(g, j + 1, q)
  }

  method BuildRow<G(!new)>(g: Group<G>, q: G) returns (row: seq<G>)
    requires Abelian(g)
    ensures |row| == 8 && Row(g, row, q)
  {
    hide Abelian, Mul;
    row := [q];
    MulZeroOne(g, q);
    for j := 1 to 8
      invariant |row| == j && Row(g, row, q)
    {
      MulSucc(g, j, q);
      row := row + [g.add(row[j - 1], q)];
    }
  }

  /** basepointTable: eight doublings after every row. */
  method BuildBasepointTable<G(!new)>(g: Group<G>, p: G) returns (table: seq<seq<G>>)
    requires Abelian(g)
    ensures |table| == 32 && CombTable(g, table, p)
  {
    hide Abelian, Mul, Pow2, Row;
    var q := p;
    FirstRow(g, p);
    table := [];
    for i := 0 to 32
      invariant |table| == i && CombTable(g, table, p)
      invariant q == Mul(g, Pow2(8 * i), p)
    {
      var row := BuildRow(g, q);
      table := table + [row];
      var doubled := DoubleTimes(g, [q], 8);
      NextRow(g, p, i);
      assert doubled[0] == Mul(g, Pow2(8), q);
      q := doubled[0];
    }
  }

  lemma FirstRow<G(!new)>(g: Group<G>, p: G)
    requires Abelian(g)
    ensures p == Mul(g, Pow2(8 * 0), p)
  {
    assert Pow2(8 * 0) == 1;
    hide Abelian;
    MulZeroOne(g, p);
  }

  lemma NextRow<G(!new)>(g: Group<G>, p: G, i: nat)
    requires Abelian(g)
    ensures Mul(g, Pow2(8), Mul(g, Pow2(8 * i), p)) == Mul(g, Pow2(8 * (i + 1)), p)
  {
    hide Abelian, Mul, Pow2;
    MulMul(g, Pow2(8), Pow2(8 * i), p);
    Pow2Add(8, 8 * i);
  }

  /** selectVartime and the addition it guards: nothing for a zero digit. */
  method AddSelected<G(!new)>(g: Group<G>, acc: G, row: seq<G>, x: int, ghost q: G) returns (out: G)
    requires Abelian(g) && |row| == 8 && Row(g, row, q) && -8 <= x <= 8
    ensures out == g.add(acc, Mul(g, x, q))
  {
    hide Abelian, Mul;
    out := acc;
    if x > 0 {
      out := g.add(acc, row[x - 1]);
    } else if x < 0 {
      MulNeg(g, -x, q);
      out := g.add(acc, g.neg(row[-x - 1]));
    } else {
      MulZeroOne(g, q);
      Zero(g, acc);
    }
  }

  /** The first n odd (or even) digits weighed by 256^i. */
  ghost function Half(d: seq<int>, odd: bool, n: nat): int
    requires n <= (if odd then |d| / 2 else (|d| + 1) / 2)
  {
    DigitSum((if odd then Odds(d) else Evens(d))[..n], 8)
  }

  lemma HalfStep(d: seq<int>, odd: bool, n: nat)
    requires n < (if odd then |d| / 2 else (|d| + 1) / 2)
    ensures Half(d, odd, n + 1) == Half(d, odd, n) + Pow2(8 * n) * (if odd then d[2 * n + 1] else d[2 * n])
    ensures Half(d, odd, 0) == 0
  {
    hide Pow2;
    DigitSumSnoc(if odd then Odds(d) else Evens(d), n, 8);
  }

  lemma HalfNone(d: seq<int>, odd: bool)
    ensures Half(d, odd, 0) == 0
  {}

  lemma HalvesTotal(d: seq<int>)
    requires |d| == 64
    ensures 16 * Half(d, true, 32) + Half(d, false, 32) == DigitSum(d, 4)
  {
    hide DigitSum;
    EvenOdd(d, 4);
    assert Odds(d)[..32] == Odds(d) && Evens(d)[..32] == Evens(d);
    SmallPowers8();
  }

  /** Both tables serve one position of one half. */
  method CombPosition<G(!new)>(g: Group<G>, acc: G, aRow: seq<G>, bRow: seq<G>, x: int, y: int, ghost place: int,
                               ghost m: int, ghost n: int, ghost A: G, ghost B: G) returns (out: G)
    requires Abelian(g) && |aRow| == 8 && |bRow| == 8 && Row(g, aRow, Mul(g, place, A)) && Row(g, bRow, Mul(g, place, B))
    requires -8 <= x <= 8 && -8 <= y <= 8 && acc == Pair(g, m, n, A, B)
    ensures out == Pair(g, m + place * x, n + place * y, A, B)
  {
    hide Abelian, Mul, Row, Pair;
    out := AddSelected(g, acc, aRow, x, Mul(g, place, A));
    MulMul(g, x, place, A);
    PairAddFirst(g, m, x * place, n, A, B);
    out := AddSelected(g, out, bRow, y, Mul(g, place, B));
    MulMul(g, y, place, B);
    PairAddSecond(g, m + x * place, n, y * place, A, B);
    assert x * place == place * x && y * place == place * y;
  }

  /** VarTimeDoubleCombMult: odd digits, four doublings, even digits. */
  method CombMult<G(!new)>(g: Group<G>, a: Bytes32, aTable: seq<seq<G>>, b: Bytes32, bTable: seq<seq<G>>, ghost A: G, ghost B: G)
    returns (v: G)
    requires Abelian(g) && a[31] <= 127 && b[31] <= 127
    requires |aTable| == 32 && CombTable(g, aTable, A) && |bTable| == 32 && CombTable(g, bTable, B)
    ensures v == g.add(Mul(g, LeValue(a), A), Mul(g, LeValue(b), B))
  {
    hide Abelian, Mul, LeValue, Pair, Row, Pow2, Half;
    var x := SignedRadix16(a);
    var y := SignedRadix16(b);
    v := g.zero;
    PairZero(g, A, B);
    HalfNone(x, true);
    HalfNone(y, true);
    for i := 0 to 32
      invariant v == Pair(g, Half(x, true, i), Half(y, true, i), A, B)
    {
      HalfStep(x, true, i);
      HalfStep(y, true, i);
      v := CombPosition(g, v, aTable[i], bTable[i], x[2 * i + 1], y[2 * i + 1], Pow2(8 * i),
                        Half(x, true, i), Half(y, true, i), A, B);
    }
    ghost var m, n := 16 * Half(x, true, 32), 16 * Half(y, true, 32);
    v := Sixteen(g, v, Half(x, true, 32), Half(y, true, 32), A, B);
    HalfNone(x, false);
    HalfNone(y, false);
    for i := 0 to 32
      invariant v == Pair(g, m + Half(x, false, i), n + Half(y, false, i), A, B)
    {
      HalfStep(x, false, i);
      HalfStep(y, false, i);
      v := CombPosition(g, v, aTable[i], bTable[i], x[2 * i], y[2 * i], Pow2(8 * i),
                        m + Half(x, false, i), n + Half(y, false, i), A, B);
    }
    HalvesTotal(x);
    HalvesTotal(y);
    PairIs(g, LeValue(a), LeValue(b), A, B);
  }

  method Sixteen<G(!new)>(g: Group<G>, v: G, ghost m: int, ghost n: int, ghost A: G, ghost B: G) returns (out: G)
    requires Abelian(g) && v == Pair(g, m, n, A, B)
    ensures out == Pair(g, 16 * m, 16 * n, A, B)
  {
    hide Abelian, Pair;
    out := g.add(v, v);
    PairDoubled(g, m, n, A, B);
    out := g.add(out, out);
    PairDoubled(g, 2 * m, 2 * n, A, B);
    out := g.add(out, out);
    PairDoubled(g, 4 * m, 4 * n, A, B);
    out := g.add(out, out);
    PairDoubled(g, 8 * m, 8 * n, A, B);
  }
}
