/** The fixed-length lane recoders of internal/r51x5/scalar_fixed.go and
    internal/r51x5/fixed_base_comb.go, and their all-lanes specializations. */
module FixedRecode {
  import opened Arith
  import opened Bytes
  import opened BitFields
  import opened Selection
  import opened Recoding
  import opened Schedules
  import opened HeeaEvaluate

  /** 64 rounds of storage; the first count of them hold the digits of the usable lanes. */
  function ScheduleOf(scalars: seq<Bytes32>, w: nat, negative: set<nat>, usable: set<nat>, count: nat): (rounds: seq<Round>)
    requires w >= 1
    ensures |rounds| == 64
  {
    seq(64, r requires 0 <= r < 64 =>
      if r < count then RoundSpec(scalars, w, negative, usable, r) else EmptyRound(|scalars|))
  }

  /** The scalar of lane l with its sign. */
  function Applied(scalars: seq<Bytes32>, signs: set<nat>, l: nat): int
    requires l < |scalars|
  {
    if l in signs then -(LeValue(scalars[l]) as int) else LeValue(scalars[l])
  }

  /** The schedules in use: their rounds cover a canonical scalar with at least two bits to spare, and
      their digits fit int8. */
  predicate FixedShape(w: nat, count: nat, negative: set<nat>) {
    || (w == 4 && count == 64)
    || (w == 5 && count == 51)
    || (w == 6 && count == 43)
    || (w == 8 && count == 32 && negative == {})
  }

  /** Round round of width w starts inside the scalar and fits a two-byte load. */
  predicate Extractable(w: nat, round: nat) { 4 <= w <= 8 && w != 7 && w * round < 256 }

  lemma ExtractWidth(w: nat, round: nat)
    requires Extractable(w, round)
    ensures 4 <= w <= 8 && w != 7
  {}

  /** Enough rounds for a canonical scalar and its last carry. */
  predicate Covers(w: nat, count: nat) { w >= 2 && w * count >= 255 }

  function ZeroCarries(n: nat): (c: seq<nat>)
    ensures |c| == n && forall l :: 0 <= l < n ==> c[l] == 0
  {
    seq(n, _ => 0)
  }

  lemma NoCarryYet(scalars: seq<Bytes32>, w: nat)
    requires w >= 1
    ensures forall l :: 0 <= l < |scalars| ==> CarryInto(LeValue(scalars[l]), w, 0) == 0
  {}

  /** A digit's bits: byte-aligned digits are read directly. */
  function ExtractBits(scalar: Bytes32, w: nat, round: nat): (bits: nat)
    requires Extractable(w, round)
    ensures bits == Bits(LeValue(scalar), w * round, w)
  {
    if w == 8 then
      ByteField(scalar, round);
      scalar[round]
    else FixedScalarBits(scalar, w * round, w)
  }

  lemma ByteField(b: Bytes32, i: nat)
    requires i < 32
    ensures b[i] == Bits(LeValue(b), 8 * i, 8)
  {
    LoadBits(b, i, 1, 0, 8);
    OneByte(b[i..i + 1]);
    Pow2Small();
    assert b[i..i + 1] == [b[i]];
    assert Pow2(0) == 1;
    DivUnique(b[i], 1, b[i], 0);
    DivUnique(b[i], 256, 0, b[i]);
  }

  lemma OneByte(b: seq<u8>)
    requires |b| == 1
    ensures LeValue(b) == b[0]
  {
    assert b[1..] == [];
  }

  lemma RoundWithin(w: nat, count: nat, negative: set<nat>, round: nat)
    requires FixedShape(w, count, negative) && round < count
    ensures Extractable(w, round) && Covers(w, count) && count <= 64
  {}

  lemma ShapeWidth(w: nat, count: nat, negative: set<nat>)
    requires FixedShape(w, count, negative)
    ensures w >= 2 && Covers(w, count) && count <= 64 && Pow2(w - 1) <= 128
    ensures w == 8 ==> negative == {}
    ensures w < 8 ==> Pow2(w - 1) <= 32
  {
    SmallPowers();
    assert Pow2(7) == 128;
  }

  /** One round over the lanes, carries in and out. */
  method RecodeLanes(scalars: seq<Bytes32>, w: nat, negative: set<nat>, valid: set<nat>, round: nat, carriesIn: seq<nat>)
    returns (record: Round, carries: seq<nat>)
    requires w >= 2 && Extractable(w, round) && |carriesIn| == |scalars|
    requires Pow2(w - 1) <= 128 && (w == 8 ==> negative == {}) && (w < 8 ==> Pow2(w - 1) <= 32)
    requires forall l :: 0 <= l < |scalars| ==>
      carriesIn[l] == if l in valid then CarryInto(LeValue(scalars[l]), w, round) else 0
    ensures record == RoundSpec(scalars, w, negative, valid, round) && |carries| == |scalars|
    ensures forall l :: 0 <= l < |scalars| ==>
      carries[l] == if l in valid then CarryInto(LeValue(scalars[l]), w, round + 1) else 0
  {
    hide LeValue, CarryInto, RoundSpec, SetDigit, Pow2, Bits, EmptyRound, Extractable;
    ExtractWidth(w, round);
    record, carries := EmptyRound(|scalars|), carriesIn;
    ghost var done: set<nat> := {};
    RoundSpecNone(scalars, w, negative, round);
    for lane := 0 to |scalars|
      invariant |carries| == |scalars| && done == set l | l in valid && l < lane
      invariant record == RoundSpec(scalars, w, negative, done, round)
      invariant forall l :: 0 <= l < lane ==> carries[l] == if l in valid then CarryInto(LeValue(scalars[l]), w, round + 1) else 0
      invariant forall l :: lane <= l < |scalars| ==> carries[l] == carriesIn[l]
    {
      if lane in valid {
        var digit, carry := BalancedDigit(scalars[lane], w, round, carries[lane]);
        RoundSpecAdd(scalars, w, negative, done, round, lane);
        var d: int8 := if lane in negative then -digit else digit;
        record := SetDigit(record, lane, d);
        carries := carries[lane := carry];
        done := done + {lane};
      }
    }
    assert RoundSpec(scalars, w, negative, done, round) == RoundSpec(scalars, w, negative, valid, round) by {
      assert forall l :: 0 <= l < |scalars| ==> (l in done <==> l in valid);
      SameLanes(scalars, w, negative, done, valid, round);
    }
  }

  lemma SameLanes(scalars: seq<Bytes32>, w: nat, negative: set<nat>, a: set<nat>, b: set<nat>, r: nat)
    requires w >= 1 && forall l :: 0 <= l < |scalars| ==> (l in a <==> l in b)
    ensures RoundSpec(scalars, w, negative, a, r) == RoundSpec(scalars, w, negative, b, r)
  {
    hide SignedDigit;
    assert LaneDigits(scalars, w, negative, a, r) == LaneDigits(scalars, w, negative, b, r);
  }

  /** digit + half >> w, then the borrow of the carry. */
  method BalancedDigit(scalar: Bytes32, w: nat, round: nat, carryIn: nat) returns (digit: int, carry: nat)
    requires w >= 2 && Extractable(w, round) && carryIn == CarryInto(LeValue(scalar), w, round)
    ensures digit == Digit(LeValue(scalar), w, round) && carry == CarryInto(LeValue(scalar), w, round + 1)
  {
    hide LeValue, CarryInto, Digit, Bits, Pow2;
    var bits := ExtractBits(scalar, w, round);
    DigitStep(LeValue(scalar), w, round, bits, carryIn);
    digit := bits + carryIn;
    carry := (digit + Pow2(w - 1)) / Pow2(w);
    digit := digit - carry * Pow2(w);
  }

  method CanonicalLanes(scalars: seq<Bytes32>, active: set<nat>) returns (valid: set<nat>)
    ensures valid == Canonical(scalars, active)
  {
    hide LeValue;
    valid := {};
    for lane := 0 to |scalars|
      invariant valid == set l | l in active && l < lane && LeValue(scalars[l]) < L
    {
      if lane in active {
        var ok := CanonicalScalarBytes(scalars[lane]);
        if ok {
          valid := valid + {lane};
        }
      }
    }
  }

  /** RecodeCanonicalScalars and recodeFixedBaseScalars: round-major, and no lane ends with a carry. */
  method RecodeScalars(scalars: seq<Bytes32>, negative: set<nat>, active: set<nat>, w: nat, count: nat)
    returns (rounds: seq<Round>, valid: set<nat>)
    requires FixedShape(w, count, negative)
    ensures valid == Canonical(scalars, active)
    ensures rounds == ScheduleOf(scalars, w, negative, valid, count)
  {
    valid := CanonicalLanes(scalars, active);
    ShapeWidth(w, count, negative);
    forall round: nat | round < count ensures Extractable(w, round) { RoundWithin(w, count, negative, round); }
    var out := new Round[64](_ => EmptyRound(|scalars|));
    hide FixedShape, Pow2, Extractable, Covers;
    RoundLoop(out, scalars, negative, valid, w, count);
    rounds := out[..];
  }

  method RoundLoop(out: array<Round>, scalars: seq<Bytes32>, negative: set<nat>, valid: set<nat>, w: nat, count: nat)
    requires count <= out.Length && w >= 2 && Covers(w, count)
    requires Pow2(w - 1) <= 128 && (w == 8 ==> negative == {}) && (w < 8 ==> Pow2(w - 1) <= 32)
    requires forall round: nat :: round < count ==> Extractable(w, round)
    requires forall l :: l in valid ==> l < |scalars| && LeValue(scalars[l]) < L
    modifies out
    ensures forall r :: 0 <= r < count ==> out[r] == RoundSpec(scalars, w, negative, valid, r)
    ensures forall r :: count <= r < out.Length ==> out[r] == old(out[r])
  {
    hide LeValue, CarryInto, RoundSpec, Pow2, Extractable, Covers, ZeroCarries;
    var carries := ZeroCarries(|scalars|);
    NoCarryYet(scalars, w);
    for round := 0 to count
      invariant |carries| == |scalars|
      invariant forall l :: 0 <= l < |scalars| ==> carries[l] == if l in valid then CarryInto(LeValue(scalars[l]), w, round) else 0
      invariant forall r :: 0 <= r < round ==> out[r] == RoundSpec(scalars, w, negative, valid, r)
      invariant forall r :: round <= r < out.Length ==> out[r] == old(out[r])
    {
      var record;
      record, carries := RecodeLanes(scalars, w, negative, valid, round, carries);
      out[round] := record;
    }
    NoCarries(scalars, valid, w, count, carries);
  }

  /** The closing check of every recoder: its panic is unreachable. */
  method NoCarries(scalars: seq<Bytes32>, ghost valid: set<nat>, w: nat, count: nat, carries: seq<nat>)
    requires w >= 2 && Covers(w, count) && |carries| == |scalars|
    requires forall l :: l in valid ==> l < |scalars| && LeValue(scalars[l]) < L
    requires forall l :: 0 <= l < |scalars| ==> carries[l] == if l in valid then CarryInto(LeValue(scalars[l]), w, count) else 0
  {
    hide LeValue, CarryInto, Pow2;
    for lane := 0 to |scalars| {
      if lane in valid { CanonicalDigits(LeValue(scalars[lane]), w, count); }
      if carries[lane] != 0 {
        assert false;
      }
    }
  }

  // ---------------------------------------------------------------- all-lanes specializations

  function AllLanes(n: nat): (s: set<nat>)
    ensures forall l :: l in s <==> 0 <= l < n
  {
    if n == 0 then {} else AllLanes(n - 1) + {n - 1}
  }

  /** all names every lane, signs every lane or none. */
  ghost predicate Uniform(n: nat, all: set<nat>, signs: set<nat>, negate: bool) {
    forall l :: 0 <= l < n ==> l in all && (l in signs <==> negate)
  }

  /** The specialized loops assign each record's fields directly instead of or-ing lane by lane. */
  method RecordDirect(scalars: seq<Bytes32>, w: nat, negate: bool, round: nat, carriesIn: seq<nat>,
                      ghost all: set<nat>, ghost signs: set<nat>) returns (record: Round, carries: seq<nat>)
    requires w >= 2 && Extractable(w, round) && |carriesIn| == |scalars| && Uniform(|scalars|, all, signs, negate)
    requires forall l :: 0 <= l < |scalars| ==> carriesIn[l] == CarryInto(LeValue(scalars[l]), w, round)
    ensures |carries| == |scalars| && record == RoundSpec(scalars, w, signs, all, round)
    ensures forall l :: 0 <= l < |scalars| ==> carries[l] == CarryInto(LeValue(scalars[l]), w, round + 1)
  {
    hide LeValue, CarryInto, Digit, Pow2, LaneDigits, RoundOf, Extractable, RoundSpec;
    ghost var d := LaneDigits(scalars, w, signs, all, round);
    UniformDigits(scalars, w, all, signs, negate, round);
    EmptyRoundOf();
    var magnitude: seq<nat> := [];
    var nonzeroMask: set<nat>, negativeMask: set<nat> := {}, {};
    carries := [];
    assert d[..0] == [];
    for lane := 0 to |scalars|
      invariant |carries| == lane
      invariant forall l :: 0 <= l < lane ==> carries[l] == CarryInto(LeValue(scalars[l]), w, round + 1)
      invariant Round(magnitude, nonzeroMask, negativeMask) == RoundOf(d[..lane])
    {
      var digit, carry := BalancedDigit(scalars[lane], w, round, carriesIn[lane]);
      if negate {
        digit := -digit;
      }
      RoundOfSnoc(d, lane);
      if digit < 0 {
        magnitude, negativeMask := magnitude + [-digit], negativeMask + {lane};
      } else {
        magnitude := magnitude + [digit];
      }
      if digit != 0 {
        nonzeroMask := nonzeroMask + {lane};
      }
      carries := carries + [carry];
    }
    assert d[..|scalars|] == d;
    record := Round(magnitude, nonzeroMask, negativeMask);
  }

  lemma UniformDigits(scalars: seq<Bytes32>, w: nat, all: set<nat>, signs: set<nat>, negate: bool, round: nat)
    requires w >= 1 && Uniform(|scalars|, all, signs, negate)
    ensures RoundSpec(scalars, w, signs, all, round) == RoundOf(LaneDigits(scalars, w, signs, all, round))
    ensures forall l :: 0 <= l < |scalars| ==>
      LaneDigits(scalars, w, signs, all, round)[l]
        == if negate then -Digit(LeValue(scalars[l]), w, round) else Digit(LeValue(scalars[l]), w, round)
  {
    hide LeValue, Digit;
  }

  lemma EmptyRoundOf()
    ensures RoundOf([]) == Round([], {}, {})
  {}

  lemma RoundOfSnoc(d: seq<int>, n: nat)
    requires n < |d|
    ensures RoundOf(d[..n + 1]) == Round(
      RoundOf(d[..n]).magnitude + [Abs(d[n])],
      if d[n] != 0 then RoundOf(d[..n]).nonzero + {n} else RoundOf(d[..n]).nonzero,
      if d[n] < 0 then RoundOf(d[..n]).negative + {n} else RoundOf(d[..n]).negative)
  {
    var a, b := RoundOf(d[..n]), RoundOf(d[..n + 1]);
    assert b.magnitude == a.magnitude + [Abs(d[n])];
    assert forall l :: 0 <= l < n ==> d[..n][l] == d[..n + 1][l];
  }

  /** recodeCanonicalNegatedRadix32FullX8 (w = 5, negated) and recodeFixedBaseRadix256FullX8 (w = 8):
      on every input the same schedule the generic recoder returns for all lanes active. */
  method RecodeFull(scalars: seq<Bytes32>, w: nat, count: nat, negate: bool) returns (rounds: seq<Round>, valid: set<nat>)
    requires (w == 5 && count == 51 && negate) || (w == 8 && count == 32 && !negate)
    ensures valid == Canonical(scalars, AllLanes(|scalars|))
    ensures rounds == ScheduleOf(scalars, w, if negate then AllLanes(|scalars|) else {}, valid, count)
  {
    var signs := if negate then AllLanes(|scalars|) else {};
    for lane := 0 to |scalars|
      invariant forall l :: 0 <= l < lane ==> LeValue(scalars[l]) < L
    {
      var ok := CanonicalScalarBytes(scalars[lane]);
      if !ok {
        rounds, valid := RecodeScalars(scalars, signs, AllLanes(|scalars|), w, count);
        return;
      }
    }
    valid := AllLanes(|scalars|);
    assert valid == Canonical(scalars, AllLanes(|scalars|));
    ShapeWidth(w, count, signs);
    forall round: nat | round < count ensures Extractable(w, round) { RoundWithin(w, count, signs, round); }
    var out := new Round[64](_ => EmptyRound(|scalars|));
    hide Pow2, LeValue, FixedShape, Extractable, Covers;
    FullLoop(out, scalars, w, count, negate, valid, signs);
    rounds := out[..];
  }

  method FullLoop(out: array<Round>, scalars: seq<Bytes32>, w: nat, count: nat, negate: bool,
                  ghost all: set<nat>, ghost signs: set<nat>)
    requires count <= out.Length && w >= 2 && Covers(w, count) && Uniform(|scalars|, all, signs, negate)
    requires forall round: nat :: round < count ==> Extractable(w, round)
    requires (forall l :: l in all ==> l < |scalars|) && forall l :: 0 <= l < |scalars| ==> LeValue(scalars[l]) < L
    modifies out
    ensures forall r :: 0 <= r < count ==> out[r] == RoundSpec(scalars, w, signs, all, r)
    ensures forall r :: count <= r < out.Length ==> out[r] == old(out[r])
  {
    hide LeValue, CarryInto, RoundSpec, Pow2, Extractable, Covers, ZeroCarries;
    var carries := ZeroCarries(|scalars|);
    NoCarryYet(scalars, w);
    for round := 0 to count
      invariant |carries| == |scalars|
      invariant forall l :: 0 <= l < |scalars| ==> carries[l] == CarryInto(LeValue(scalars[l]), w, round)
      invariant forall r :: 0 <= r < round ==> out[r] == RoundSpec(scalars, w, signs, all, r)
      invariant forall r :: round <= r < out.Length ==> out[r] == old(out[r])
    {
      var record;
      record, carries := RecordDirect(scalars, w, negate, round, carries, all, signs);
      out[round] := record;
    }
    NoCarries(scalars, all, w, count, carries);
  }
}
