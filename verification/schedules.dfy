/** What every scalar-multiplication schedule shares: public digit records, tables of multiples,
    signed selection, doubling runs, and sums of integer multiples of several points. Lanes are
    sequences of group elements; an 8-bit lane mask is the set of lanes whose bit is set. */
module Schedules {
  import opened Arith
  import opened Bytes
  import opened GroupTheory
  import opened Recoding
  import opened Selection

  type int8 = x: int | -128 <= x < 128

  // ---------------------------------------------------------------- digit records

  /** RadixRoundX4/X8: one digit per lane, as magnitudes and two masks. */
  datatype Round = Round(magnitude: seq<nat>, nonzero: set<nat>, negative: set<nat>)

  /** The record of the lane digits d. */
  function RoundOf(d: seq<int>): Round {
    Round(seq(|d|, l requires 0 <= l < |d| => Abs(d[l])),
          set l: nat | 0 <= l < |d| && d[l] != 0,
          set l: nat | 0 <= l < |d| && d[l] < 0)
  }

  function EmptyRound(lanes: nat): (r: Round)
    ensures r == RoundOf(seq(lanes, _ => 0))
  {
    Round(seq(lanes, _ => 0), {}, {})
  }

  /** setRadixRoundDigit: the masks are only ever or-ed into. */
  function SetDigit(round: Round, lane: nat, digit: int): Round
    requires lane < |round.magnitude|
  {
    Round(round.magnitude[lane := Abs(digit)],
          if digit != 0 then round.nonzero + {lane} else round.nonzero,
          if digit < 0 then round.negative + {lane} else round.negative)
  }

  lemma SetDigitIs(d: seq<int>, lane: nat, digit: int)
    requires lane < |d| && d[lane] == 0
    ensures SetDigit(RoundOf(d), lane, digit) == RoundOf(d[lane := digit])
  {
    var e := d[lane := digit];
    assert RoundOf(d).magnitude[lane := Abs(digit)] == RoundOf(e).magnitude;
    assert forall l :: 0 <= l < |d| && l != lane ==> e[l] == d[l];
  }

  // ---------------------------------------------------------------- what a schedule says of a lane

  function SignedDigit(v: nat, w: nat, negative: bool, r: nat): (d: int)
    requires w >= 1
    ensures Abs(d) <= Pow2(w - 1)
  {
    if negative then -Digit(v, w, r) else Digit(v, w, r)
  }

  function Column(v: nat, w: nat, negative: bool, n: nat): (d: seq<int>)
    requires w >= 1
    ensures |d| == n
  {
    seq(n, r requires 0 <= r < n => SignedDigit(v, w, negative, r))
  }

  /** A full schedule of a canonical scalar sums to the signed scalar. */
  lemma ColumnSum(v: nat, w: nat, negative: bool, n: nat)
    requires v < L && w >= 2 && w * n >= 255
    ensures DigitSum(Column(v, w, negative, n), w) == (if negative then -(v as int) else v)
  {
    CanonicalDigits(v, w, n);
    hide Digit, DigitSum;
    if negative {
      DigitSumNegated(Column(v, w, negative, n), Digits(v, w, n), w);
    } else {
      assert Column(v, w, negative, n) == Digits(v, w, n);
    }
  }

  /** What the digits from round r up are worth, relative to round r. */
  ghost function Tail(v: nat, w: nat, negative: bool, n: nat, r: nat): int
    requires w >= 1 && r <= n
  {
    DigitSum(Column(v, w, negative, n)[r..], w)
  }

  lemma TailStep(v: nat, w: nat, negative: bool, n: nat, r: nat)
    requires w >= 1 && r < n
    ensures Tail(v, w, negative, n, r) == SignedDigit(v, w, negative, r) + Pow2(w) * Tail(v, w, negative, n, r + 1)
  {
    hide SignedDigit, Pow2;
    assert Column(v, w, negative, n)[r..][1..] == Column(v, w, negative, n)[r + 1..];
  }

  lemma TailEnd(v: nat, w: nat, negative: bool, n: nat, r: nat)
    requires w >= 1 && r <= n && forall i :: r <= i < n ==> SignedDigit(v, w, negative, i) == 0
    ensures Tail(v, w, negative, n, r) == 0
  {
    hide SignedDigit;
    DigitSumZeros(Column(v, w, negative, n)[r..], w);
  }

  lemma TailWhole(v: nat, w: nat, negative: bool, n: nat)
    requires v < L && w >= 2 && w * n >= 255
    ensures Tail(v, w, negative, n, 0) == if negative then -(v as int) else v
  {
    ColumnSum(v, w, negative, n);
    hide SignedDigit, DigitSum;
    assert Column(v, w, negative, n)[0..] == Column(v, w, negative, n);
  }

  /** The digits round r carries: signed in the usable lanes, zero elsewhere. */
  function LaneDigits(scalars: seq<Bytes32>, w: nat, negative: set<nat>, usable: set<nat>, r: nat): (d: seq<int>)
    requires w >= 1
    ensures |d| == |scalars|
  {
    seq(|scalars|, l requires 0 <= l < |scalars| =>
      if l in usable then SignedDigit(LeValue(scalars[l]), w, l in negative, r) else 0)
  }

  function RoundSpec(scalars: seq<Bytes32>, w: nat, negative: set<nat>, usable: set<nat>, r: nat): (round: Round)
    requires w >= 1
    ensures |round.magnitude| == |scalars|
  {
    RoundOf(LaneDigits(scalars, w, negative, usable, r))
  }

  /** Recoding one more lane sets exactly its digit. */
  lemma RoundSpecAdd(scalars: seq<Bytes32>, w: nat, negative: set<nat>, usable: set<nat>, r: nat, lane: nat)
    requires w >= 1 && lane < |scalars| && lane !in usable
    ensures RoundSpec(scalars, w, negative, usable + {lane}, r)
         == SetDigit(RoundSpec(scalars, w, negative, usable, r), lane, SignedDigit(LeValue(scalars[lane]), w, lane in negative, r))
  {
    hide SignedDigit, LeValue, RoundOf, SetDigit;
    var d := LaneDigits(scalars, w, negative, usable, r);
    var x := SignedDigit(LeValue(scalars[lane]), w, lane in negative, r);
    SetDigitIs(d, lane, x);
    assert LaneDigits(scalars, w, negative, usable + {lane}, r) == d[lane := x];
  }

  lemma RoundSpecNone(scalars: seq<Bytes32>, w: nat, negative: set<nat>, r: nat)
    requires w >= 1
    ensures RoundSpec(scalars, w, negative, {}, r) == EmptyRound(|scalars|)
  {
    assert LaneDigits(scalars, w, negative, {}, r) == seq(|scalars|, _ => 0);
  }

  /** A lane whose digit is zero leaves the record as it was. */
  lemma RoundSpecSkip(scalars: seq<Bytes32>, w: nat, negative: set<nat>, usable: set<nat>, r: nat, lane: nat)
    requires w >= 1 && lane < |scalars| && lane !in usable
    requires SignedDigit(LeValue(scalars[lane]), w, lane in negative, r) == 0
    ensures RoundSpec(scalars, w, negative, usable + {lane}, r) == RoundSpec(scalars, w, negative, usable, r)
  {
    hide SignedDigit, LeValue;
    assert LaneDigits(scalars, w, negative, usable + {lane}, r) == LaneDigits(scalars, w, negative, usable, r);
  }

  // ---------------------------------------------------------------- lanes of points

  function AddLanes<G(!new)>(g: Group<G>, a: seq<G>, b: seq<G>): (c: seq<G>)
    requires |a| == |b|
    ensures |c| == |a|
  {
    seq(|a|, l requires 0 <= l < |a| => g.add(a[l], b[l]))
  }

  function IdentityLanes<G(!new)>(g: Group<G>, lanes: nat): (c: seq<G>)
    ensures |c| == lanes
  {
    seq(lanes, _ => g.zero)
  }

  lemma DoubleMul<G(!new)>(g: Group<G>, m: int, p: G)
    requires Abelian(g)
    ensures g.add(Mul(g, m, p), Mul(g, m, p)) == Mul(g, 2 * m, p)
  {
    MulAdd(g, m, m, p);
  }

  /** Every lane of acc is [m] of the same lane of start. */
  ghost predicate Scaled<G(!new)>(g: Group<G>, acc: seq<G>, m: int, start: seq<G>) {
    |acc| == |start| && forall l :: 0 <= l < |start| ==> acc[l] == Mul(g, m, start[l])
  }

  lemma ScaledOnce<G(!new)>(g: Group<G>, start: seq<G>)
    requires Abelian(g)
    ensures Scaled(g, start, 1, start)
  {
    forall l | 0 <= l < |start| ensures start[l] == Mul(g, 1, start[l]) { MulZeroOne(g, start[l]); }
  }

  lemma ScaledDouble<G(!new)>(g: Group<G>, acc: seq<G>, m: int, start: seq<G>)
    requires Abelian(g) && Scaled(g, acc, m, start)
    ensures Scaled(g, AddLanes(g, acc, acc), 2 * m, start)
  {
    hide Abelian, Mul;
    forall l | 0 <= l < |start| ensures g.add(acc[l], acc[l]) == Mul(g, 2 * m, start[l]) { DoubleMul(g, m, start[l]); }
  }

  lemma ScaledAdd<G(!new)>(g: Group<G>, acc: seq<G>, m: int, start: seq<G>)
    requires Abelian(g) && Scaled(g, acc, m, start)
    ensures Scaled(g, AddLanes(g, acc, start), m + 1, start)
  {
    hide Abelian, Mul;
    forall l | 0 <= l < |start| ensures g.add(acc[l], start[l]) == Mul(g, m + 1, start[l]) { MulSucc(g, m, start[l]); }
  }

  /** A run of w doublings multiplies every lane by 2^w. */
  method DoubleTimes<G(!new)>(g: Group<G>, start: seq<G>, w: nat) returns (acc: seq<G>)
    requires Abelian(g)
    ensures Scaled(g, acc, Pow2(w), start)
  {
    acc := start;
    ScaledOnce(g, start);
    hide Abelian, Scaled, AddLanes;
    for i := 0 to w
      invariant |acc| == |start| && Scaled(g, acc, Pow2(i), start)
    {
      ScaledDouble(g, acc, Pow2(i), start);
      acc := AddLanes(g, acc, acc);
    }
  }

  // ---------------------------------------------------------------- tables of multiples

  /** table[e] holds [e+1] of every lane of base. */
  ghost predicate Multiples<G(!new)>(g: Group<G>, table: seq<seq<G>>, base: seq<G>) {
    forall e :: 0 <= e < |table| ==> Scaled(g, table[e], e + 1, base)
  }

  /** buildIFMAFullTable: each row adds the base to the row before. */
  method BuildTable<G(!new)>(g: Group<G>, base: seq<G>, entries: nat) returns (table: seq<seq<G>>)
    requires Abelian(g) && entries >= 1
    ensures |table| == entries && Multiples(g, table, base)
  {
    table := [base];
    ScaledOnce(g, base);
    hide Abelian, AddLanes;
    for e := 1 to entries
      invariant |table| == e && Multiples(g, table, base)
    {
      hide Mul;
      ScaledAdd(g, table[e - 1], e, base);
      table := table + [AddLanes(g, table[e - 1], base)];
    }
  }

  lemma SignedMultiple<G(!new)>(g: Group<G>, d: int, p: G)
    requires Abelian(g)
    ensures Mul(g, d, p) == if d < 0 then g.neg(Mul(g, Abs(d), p)) else Mul(g, Abs(d), p)
  {
    hide Abelian, Mul;
    if d < 0 { MulNeg(g, -d, p); }
  }

  /** SelectIFMAFullTable: gather |d| times the lane's base, negate where the digit is negative; the
      identity in lanes that are inactive or carry a zero digit. */
  method SelectSigned<G(!new)>(g: Group<G>, table: seq<seq<G>>, round: Round, active: set<nat>,
                               ghost base: seq<G>, ghost d: seq<int>) returns (selected: seq<G>)
    requires Abelian(g) && Multiples(g, table, base) && |base| == |d| && round == RoundOf(d)
    requires forall l :: 0 <= l < |d| && l in active ==> Abs(d[l]) <= |table|
    ensures |selected| == |d|
    ensures forall l :: 0 <= l < |d| ==> selected[l] == if l in active then Mul(g, d[l], base[l]) else g.zero
  {
    hide Abelian, Mul;
    var lanes := |round.magnitude|;
    var lookup := round.nonzero * active;
    selected := IdentityLanes(g, lanes);
    for lane := 0 to lanes
      invariant |selected| == lanes
      invariant forall l :: lane <= l < lanes ==> selected[l] == g.zero
      invariant forall l :: 0 <= l < lane ==> selected[l] == if l in lookup then Mul(g, Abs(d[l]), base[l]) else g.zero
    {
      if lane in lookup {
        ghost var row := Abs(d[lane]) - 1;
        assert Scaled(g, table[row], row + 1, base);
        selected := selected[lane := table[round.magnitude[lane] - 1][lane]];
      }
    }
    forall l | 0 <= l < lanes && l in active
      ensures Mul(g, d[l], base[l]) == if d[l] < 0 then g.neg(Mul(g, Abs(d[l]), base[l])) else Mul(g, Abs(d[l]), base[l])
      ensures d[l] == 0 ==> Mul(g, d[l], base[l]) == g.zero
    {
      SignedMultiple(g, d[l], base[l]);
      MulZeroOne(g, base[l]);
    }
    selected := NegateLanes(g, selected, round.negative * lookup);
  }

  /** conditionalNegate: negate the masked lanes. */
  function NegateLanes<G(!new)>(g: Group<G>, a: seq<G>, mask: set<nat>): (c: seq<G>)
    ensures |c| == |a|
  {
    seq(|a|, l requires 0 <= l < |a| => if l in mask then g.neg(a[l]) else a[l])
  }

  /** Injecting one digit record: nothing to do when no usable lane has a digit, otherwise one
      selection and one addition. Either way usable lanes gain [d]base and the others stay put. */
  method Inject<G(!new)>(g: Group<G>, acc: seq<G>, table: seq<seq<G>>, round: Round, usable: set<nat>,
                         ghost base: seq<G>, ghost d: seq<int>) returns (out: seq<G>)
    requires Abelian(g) && Multiples(g, table, base) && |acc| == |base| == |d| && round == RoundOf(d)
    requires forall l :: 0 <= l < |d| && l in usable ==> Abs(d[l]) <= |table|
    ensures |out| == |acc|
    ensures forall l :: 0 <= l < |acc| ==> out[l] == if l in usable then g.add(acc[l], Mul(g, d[l], base[l])) else acc[l]
  {
    hide Abelian, Mul;
    forall l | 0 <= l < |acc|
      ensures g.add(acc[l], g.zero) == acc[l] && Mul(g, 0, base[l]) == g.zero
    {
      Zero(g, acc[l]);
      MulZeroOne(g, base[l]);
    }
    if round.nonzero * usable == {} {
      out := acc;
      assert forall l :: l in usable ==> l !in round.nonzero * usable;
    } else {
      var selected := SelectSigned(g, table, round, usable, base, d);
      out := AddLanes(g, acc, selected);
    }
  }

  // ---------------------------------------------------------------- sums of multiples

  /** [c0]p0 + [c1]p1 + ... */
  function TermSum<G(!new)>(g: Group<G>, c: seq<int>, p: seq<G>): G
    requires |c| == |p|
  {
    if |c| == 0 then g.zero
    else g.add(TermSum(g, c[..|c| - 1], p[..|c| - 1]), Mul(g, c[|c| - 1], p[|c| - 1]))
  }

  lemma {:induction false} TermSumZero<G(!new)>(g: Group<G>, c: seq<int>, p: seq<G>)
    requires Abelian(g) && |c| == |p| && forall i :: 0 <= i < |c| ==> c[i] == 0
    ensures TermSum(g, c, p) == g.zero
  {
    if |c| > 0 {
      TermSumZero(g, c[..|c| - 1], p[..|c| - 1]);
      MulZeroOne(g, p[|c| - 1]);
      Zero(g, g.zero);
    }
  }

  /** Adding [x]p_t raises coefficient t by x. */
  lemma {:induction false} TermSumBump<G(!new)>(g: Group<G>, c: seq<int>, p: seq<G>, t: nat, x: int)
    requires Abelian(g) && |c| == |p| && t < |c|
    ensures TermSum(g, c[t := c[t] + x], p) == g.add(TermSum(g, c, p), Mul(g, x, p[t]))
  {
    hide Abelian, Mul;
    var n := |c| - 1;
    var e := c[t := c[t] + x];
    var s := TermSum(g, c[..n], p[..n]);
    if t == n {
      assert e[..n] == c[..n];
      MulAdd(g, c[n], x, p[n]);
      Assoc(g, s, Mul(g, c[n], p[n]), Mul(g, x, p[n]));
    } else {
      assert e[..n] == c[..n][t := c[t] + x];
      TermSumBump(g, c[..n], p[..n], t, x);
      var y, z := Mul(g, x, p[t]), Mul(g, c[n], p[n]);
      Assoc(g, s, y, z);
      Comm(g, y, z);
      Assoc(g, s, z, y);
    }
  }

  /** Multiplying the sum multiplies every coefficient. */
  lemma {:induction false} TermSumScale<G(!new)>(g: Group<G>, m: int, c: seq<int>, e: seq<int>, p: seq<G>)
    requires Abelian(g) && |c| == |e| == |p| && forall i :: 0 <= i < |c| ==> e[i] == m * c[i]
    ensures Mul(g, m, TermSum(g, c, p)) == TermSum(g, e, p)
  {
    hide Abelian, Mul;
    var n := |c| - 1;
    if |c| == 0 {
      MulOfZero(g, m);
    } else {
      TermSumScale(g, m, c[..n], e[..n], p[..n]);
      MulOfSum(g, m, TermSum(g, c[..n], p[..n]), Mul(g, c[n], p[n]));
      MulMul(g, m, c[n], p[n]);
    }
  }
}
