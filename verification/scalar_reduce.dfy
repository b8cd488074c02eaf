/** reduceUniformScalar (internal/r51x5/scalar_reduce.go), the loop form of scReduce
    (internal/edwards25519/scalar.go): signed radix-2^21 reduction of a 512-bit integer modulo L. */
module ScalarReduce {
  import opened Arith
  import opened Selection

  type int64 = x: int | -0x8000_0000_0000_0000 <= x < 0x8000_0000_0000_0000

  const B21: int := 0x20_0000
  const HALF21: int := 0x10_0000

  /** The integer a limb sequence denotes in radix 2^21. */
  function Radix(s: seq<int>): int {
    if |s| == 0 then 0 else s[0] + B21 * Radix(s[1..])
  }

  function Place(i: nat): (p: nat)
    ensures p >= 1
  {
    if i == 0 then 1 else B21 * Place(i - 1)
  }

  lemma {:induction false} PlacePow2(i: nat)
    ensures Place(i) == Pow2(21 * i)
  {
    if i > 0 {
      PlacePow2(i - 1);
      Pow2Add(21, 21 * (i - 1));
      Pow2TwentyOne();
    }
  }

  lemma Pow2TwentyOne()
    ensures Pow2(21) == B21
  {
    Pow2Small();
    Pow2Add(10, 10);
    Pow2Add(20, 1);
    assert Pow2(1) == 2;
  }

  lemma {:induction false} RadixUpdate(s: seq<int>, i: nat, v: int)
    requires i < |s|
    ensures Radix(s[i := v]) == Radix(s) + Place(i) * (v - s[i])
  {
    if i == 0 {
      assert s[0 := v][1..] == s[1..];
    } else {
      RadixUpdate(s[1..], i - 1, v);
      assert s[i := v][1..] == s[1..][i - 1 := v];
      ScaleArith(Place(i - 1), v - s[i]);
    }
  }

  lemma ScaleArith(p: int, d: int)
    ensures B21 * (p * d) == (B21 * p) * d
  {}

  // ---------------------------------------------------------------- folding

  /** 2^252 is congruent to this combination of six low limbs. */
  lemma FoldConstant()
    ensures 666643 + B21 * (470296 + B21 * (654183 + B21 * (-997805 + B21 * (136657 - B21 * 683901))))
         == 0x1000000000000000_0000000000000000_0000000000000000_0000000000000000 - L
    ensures Place(12) == 0x1000000000000000_0000000000000000_0000000000000000_0000000000000000
  {
    assert Place(3) == B21 * B21 * B21;
    assert Place(6) == B21 * B21 * B21 * Place(3);
    assert Place(9) == B21 * B21 * B21 * Place(6);
    assert Place(12) == B21 * B21 * B21 * Place(9);
  }

  /** s[i] += d. */
  function Bump(s: seq<int>, i: nat, d: int): (r: seq<int>)
    requires i < |s|
    ensures |r| == |s|
  {
    s[i := s[i] + d]
  }

  lemma RadixBump(s: seq<int>, i: nat, d: int)
    requires i < |s|
    ensures Radix(Bump(s, i, d)) == Radix(s) + Place(i) * d
  {
    RadixUpdate(s, i, s[i] + d);
  }

  /** The limbs after one fold. */
  function Folded(s: seq<int>, high: nat): (r: seq<int>)
    requires |s| == 24 && 12 <= high < 24
    ensures |r| == 24
  {
    var x, low := s[high], high - 12;
    Bump(Bump(Bump(Bump(Bump(Bump(Bump(s, low, x * 666643), low + 1, x * 470296), low + 2, x * 654183),
      low + 3, -(x * 997805)), low + 4, x * 136657), low + 5, -(x * 683901)), high, -x)
  }

  lemma PlaceAdd(i: nat, j: nat)
    ensures Place(i + j) == Place(i) * Place(j)
  {
    PlacePow2(i);
    PlacePow2(j);
    PlacePow2(i + j);
    Pow2Add(21 * i, 21 * j);
  }

  /** A fold subtracts a multiple of L. */
  lemma FoldValue(s: seq<int>, high: nat)
    requires |s| == 24 && 12 <= high < 24
    ensures Radix(Folded(s, high)) == Radix(s) - (Place(high - 12) * s[high]) * L
  {
    hide Radix, Place;
    var x, low := s[high], high - 12;
    var s1 := Bump(s, low, x * 666643);
    var s2 := Bump(s1, low + 1, x * 470296);
    var s3 := Bump(s2, low + 2, x * 654183);
    var s4 := Bump(s3, low + 3, -(x * 997805));
    var s5 := Bump(s4, low + 4, x * 136657);
    var s6 := Bump(s5, low + 5, -(x * 683901));
    RadixBump(s, low, x * 666643);
    RadixBump(s1, low + 1, x * 470296);
    RadixBump(s2, low + 2, x * 654183);
    RadixBump(s3, low + 3, -(x * 997805));
    RadixBump(s4, low + 4, x * 136657);
    RadixBump(s5, low + 5, -(x * 683901));
    RadixBump(s6, high, -x);
    FoldPlaces(low, x);
  }

  lemma FoldPlaces(low: nat, x: int)
    ensures Place(low) * (x * 666643) + Place(low + 1) * (x * 470296) + Place(low + 2) * (x * 654183)
          + Place(low + 3) * -(x * 997805) + Place(low + 4) * (x * 136657) + Place(low + 5) * -(x * 683901)
          + Place(low + 12) * -x == -((Place(low) * x) * L)
  {
    PlaceAdd(12, low);
    FoldConstant();
    PlaceSix(low);
    hide Place;
    FoldArith(Place(low), x, Place(12));
  }

  lemma PlaceSix(low: nat)
    ensures Place(low + 1) == B21 * Place(low) && Place(low + 2) == B21 * (B21 * Place(low))
    ensures Place(low + 3) == B21 * (B21 * (B21 * Place(low)))
    ensures Place(low + 4) == B21 * (B21 * (B21 * (B21 * Place(low))))
    ensures Place(low + 5) == B21 * (B21 * (B21 * (B21 * (B21 * Place(low)))))
  {
    assert Place(low + 2) == B21 * Place(low + 1);
    assert Place(low + 3) == B21 * Place(low + 2);
    assert Place(low + 4) == B21 * Place(low + 3);
    assert Place(low + 5) == B21 * Place(low + 4);
  }

  lemma FoldArith(p: int, x: int, top: int)
    requires top == 0x1000000000000000_0000000000000000_0000000000000000_0000000000000000
    requires 666643 + B21 * (470296 + B21 * (654183 + B21 * (-997805 + B21 * (136657 - B21 * 683901)))) == top - L
    ensures p * (x * 666643) + (B21 * p) * (x * 470296) + (B21 * (B21 * p)) * (x * 654183)
          + (B21 * (B21 * (B21 * p))) * -(x * 997805) + (B21 * (B21 * (B21 * (B21 * p)))) * (x * 136657)
          + (B21 * (B21 * (B21 * (B21 * (B21 * p))))) * -(x * 683901) + (top * p) * -x == -((p * x) * L)
  {
    var y := p * x;
    assert p * (x * 666643) == y * 666643;
    assert (B21 * p) * (x * 470296) == y * (B21 * 470296);
  }

  // ---------------------------------------------------------------- the limb array

  /** A product that must fit a register. */
  function MulFits(x: int64, c: int): int64
    requires -0x8000_0000_0000_0000 <= x * c < 0x8000_0000_0000_0000
  {
    x * c
  }

  lemma TermRange(x: int, c: nat, b: nat)
    requires -(b as int) <= x <= b && c <= 997805
    ensures -(b * 997805) <= x * c <= b * 997805
  {
    MulMono(c, x, b);
    MulMono(c, -(b as int), x);
    MulMono(b, c, 997805);
    assert c * x == x * c && c * -(b as int) == -(b * c);
  }

  /** foldScalarRadix21. The caller's bounds keep every product and sum inside int64. */
  method Fold(s: array<int64>, high: nat, ghost b: nat)
    requires s.Length == 24 && 12 <= high < 24
    requires b <= 0x2_0000_0000 && -(b as int) <= s[high] <= b
    requires forall j :: high - 12 <= j < high - 6 ==> -0x400_0000_0000_0000 <= s[j] <= 0x400_0000_0000_0000
    modifies s
    ensures s[..] == Folded(old(s[..]), high)
    ensures forall j :: high - 12 <= j < high - 6 ==> old(s[j]) - b * 997805 <= s[j] <= old(s[j]) + b * 997805
    ensures forall j :: 0 <= j < 24 && !(high - 12 <= j < high - 6) && j != high ==> s[j] == old(s[j])
    ensures s[high] == 0
  {
    var x := s[high];
    var low := high - 12;
    TermRange(x, 666643, b);
    TermRange(x, 470296, b);
    TermRange(x, 654183, b);
    TermRange(x, 997805, b);
    TermRange(x, 136657, b);
    TermRange(x, 683901, b);
    s[low] := s[low] + MulFits(x, 666643);
    s[low + 1] := s[low + 1] + MulFits(x, 470296);
    s[low + 2] := s[low + 2] + MulFits(x, 654183);
    s[low + 3] := s[low + 3] - MulFits(x, 997805);
    s[low + 4] := s[low + 4] + MulFits(x, 136657);
    s[low + 5] := s[low + 5] - MulFits(x, 683901);
    s[high] := 0;
    assert s[..] == Folded(old(s[..]), high);
  }

  /** Moving c units of limb i+1 into limb i keeps the value. */
  lemma CarryValue(s: seq<int>, i: nat, c: int)
    requires i + 1 < |s|
    ensures Radix(Bump(Bump(s, i + 1, c), i, -(c * B21))) == Radix(s)
  {
    RadixBump(s, i + 1, c);
    RadixBump(Bump(s, i + 1, c), i, -(c * B21));
    CarryArith(Place(i), c);
  }

  lemma CarryArith(p: int, c: int)
    ensures (B21 * p) * c + p * -(c * B21) == 0
  {}

  /** One carry out of limb i: rounded to the nearest multiple of 2^21, or rounded down. */
  method CarryLimb(s: array<int64>, i: nat, rounded: bool)
    requires s.Length == 24 && i < 23
    requires -0x400_0000_0000_0000 <= s[i] <= 0x400_0000_0000_0000
    requires -0x400_0000_0000_0000 <= s[i + 1] <= 0x400_0000_0000_0000
    modifies s
    ensures Radix(s[..]) == Radix(old(s[..]))
    ensures if rounded then -HALF21 <= s[i] < HALF21 else 0 <= s[i] < B21
    ensures s[i + 1] == old(s[i + 1]) + (old(s[i]) + (if rounded then HALF21 else 0)) / B21
    ensures forall j :: 0 <= j < 24 && j != i && j != i + 1 ==> s[j] == old(s[j])
  {
    var carry := (s[i] + (if rounded then HALF21 else 0)) / B21;
    CarryValue(s[..], i, carry);
    s[i + 1] := s[i + 1] + carry;
    s[i] := s[i] - carry * B21;
    assert s[..] == Bump(Bump(old(s[..]), i + 1, carry), i, -(carry * B21));
  }

  /** Magnitudes at most b on the closed range [lo,hi]. */
  ghost predicate Within(s: seq<int>, lo: int, hi: int, b: int) {
    forall j :: lo <= j <= hi && 0 <= j < |s| ==> -b <= s[j] <= b
  }

  /** What the folds may assume of the limbs: the loads of a 64-byte string leave them well inside
      this range, and so does the carried product of scMulAdd. */
  ghost predicate Ready(s: seq<int>) {
    |s| == 24 && Within(s, 0, 23, 0x4000_0000)
  }

  /** The value agrees with v modulo L. */
  ghost predicate Same(s: seq<int>, v: int) {
    Congruent(Radix(s), v, L)
  }

  lemma FoldSame(s: seq<int>, high: nat, v: int)
    requires |s| == 24 && 12 <= high < 24 && Same(s, v)
    ensures Same(Folded(s, high), v)
  {
    FoldValue(s, high);
    CongruentBy(Radix(Folded(s, high)), Radix(s), L, -(Place(high - 12) * s[high]));
    CongruentTrans(Radix(Folded(s, high)), Radix(s), v, L);
  }

  /** A fold that keeps the residue, with the growth of each touched limb. */
  method FoldSameBy(s: array<int64>, high: nat, ghost b: nat, ghost v: int)
    requires s.Length == 24 && 12 <= high < 24 && Same(s[..], v)
    requires b <= 0x2_0000_0000 && -(b as int) <= s[high] <= b
    requires forall j :: high - 12 <= j < high - 6 ==> -0x400_0000_0000_0000 <= s[j] <= 0x400_0000_0000_0000
    modifies s
    ensures Same(s[..], v)
    ensures forall j :: high - 12 <= j < high - 6 ==> old(s[j]) - b * 997805 <= s[j] <= old(s[j]) + b * 997805
    ensures forall j :: 0 <= j < 24 && !(high - 12 <= j < high - 6) && j != high ==> s[j] == old(s[j])
    ensures s[high] == 0
  {
    hide Same, Radix, Congruent, Folded;
    FoldSame(s[..], high, v);
    Fold(s, high, b);
  }

  /** Folds 23 down to 18. */
  method FoldHigh(s: array<int64>, ghost v: int)
    requires s.Length == 24 && Ready(s[..]) && Same(s[..], v)
    modifies s
    ensures Same(s[..], v)
    ensures Within(s[..], 0, 5, 0x4000_0000) && Within(s[..], 6, 16, 0x20_0000_0000_0000)
    ensures Within(s[..], 17, 17, 0x4000_0000)
    ensures forall j :: 18 <= j < 24 ==> s[j] == 0
  {
    hide Same, Radix, Congruent;
    var i := 23;
    ghost var bound := 0x4000_0000;
    while i >= 18
      invariant 17 <= i <= 23
      invariant Same(s[..], v)
      invariant Within(s[..], 0, 5, 0x4000_0000) && Within(s[..], 17, i, 0x4000_0000)
      invariant forall j :: i < j < 24 ==> s[j] == 0
      invariant bound == 0x4000_0000 + (23 - i) * (0x4000_0000 * 997805)
      invariant Within(s[..], 6, 16, bound)
    {
      FoldSameBy(s, i, 0x4000_0000, v);
      bound := bound + 0x4000_0000 * 997805;
      i := i - 1;
    }
  }

  /** Rounded carries out of 6,8,...,16 and then 7,9,...,15. */
  method CarryMiddle(s: array<int64>, ghost v: int)
    requires s.Length == 24 && Same(s[..], v)
    requires Within(s[..], 0, 5, 0x4000_0000) && Within(s[..], 6, 16, 0x20_0000_0000_0000) && Within(s[..], 17, 17, 0x4000_0000)
    requires forall j :: 18 <= j < 24 ==> s[j] == 0
    modifies s
    ensures Same(s[..], v)
    ensures Within(s[..], 0, 5, 0x4000_0000) && Within(s[..], 6, 17, 0x1_5000_0000)
    ensures forall j :: 18 <= j < 24 ==> s[j] == 0
  {
    hide Same, Radix, Congruent;
    var i := 6;
    while i <= 16
      invariant 6 <= i <= 18 && i % 2 == 0
      invariant Same(s[..], v)
      invariant Within(s[..], 0, 5, 0x4000_0000)
      invariant forall j :: 6 <= j < i && j % 2 == 0 ==> -HALF21 <= s[j] < HALF21
      invariant forall j :: 6 <= j <= 16 ==> -0x20_0000_0000_0000 - 0x1_5000_0000 <= s[j] <= 0x20_0000_0000_0000 + 0x1_5000_0000
      invariant forall j :: i <= j <= 16 && j % 2 == 0 ==> -0x20_0000_0000_0000 <= s[j] <= 0x20_0000_0000_0000
      invariant if i <= 16 then Within(s[..], 17, 17, 0x4000_0000) else Within(s[..], 17, 17, 0x1_5000_0000)
      invariant forall j :: 7 <= j <= 15 && j >= i && j % 2 == 1 ==> -0x20_0000_0000_0000 <= s[j] <= 0x20_0000_0000_0000
      invariant forall j :: 18 <= j < 24 ==> s[j] == 0
      decreases 18 - i
    {
      CarrySame(s, i, true, v);
      i := i + 2;
    }
    i := 7;
    while i <= 15
      invariant 7 <= i <= 17 && i % 2 == 1
      invariant Same(s[..], v)
      invariant Within(s[..], 0, 5, 0x4000_0000)
      invariant forall j :: 7 <= j < i && j % 2 == 1 ==> -HALF21 <= s[j] < HALF21
      invariant forall j :: i <= j <= 15 && j % 2 == 1 ==> -0x20_0000_0000_0000 - 0x1_5000_0000 <= s[j] <= 0x20_0000_0000_0000 + 0x1_5000_0000
      invariant forall j :: 6 <= j <= 16 && j % 2 == 0 ==> -0x1_5000_0000 <= s[j] <= 0x1_5000_0000
      invariant forall j :: i < j <= 16 && j % 2 == 0 ==> -HALF21 <= s[j] < HALF21
      invariant Within(s[..], 17, 17, 0x1_5000_0000)
      invariant forall j :: 18 <= j < 24 ==> s[j] == 0
      decreases 17 - i
    {
      CarrySame(s, i, true, v);
      i := i + 2;
    }
  }

  /** CarryLimb keeps the residue. */
  method CarrySame(s: array<int64>, i: nat, rounded: bool, ghost v: int)
    requires s.Length == 24 && i < 23 && Same(s[..], v)
    requires -0x400_0000_0000_0000 <= s[i] <= 0x400_0000_0000_0000
    requires -0x400_0000_0000_0000 <= s[i + 1] <= 0x400_0000_0000_0000
    modifies s
    ensures Same(s[..], v)
    ensures if rounded then -HALF21 <= s[i] < HALF21 else 0 <= s[i] < B21
    ensures s[i + 1] == old(s[i + 1]) + (old(s[i]) + (if rounded then HALF21 else 0)) / B21
    ensures forall j :: 0 <= j < 24 && j != i && j != i + 1 ==> s[j] == old(s[j])
  {
    CarryLimb(s, i, rounded);
  }

  /** Folds 17 down to 12. */
  method FoldMiddle(s: array<int64>, ghost v: int)
    requires s.Length == 24 && Same(s[..], v)
    requires Within(s[..], 0, 5, 0x4000_0000) && Within(s[..], 6, 17, 0x1_5000_0000)
    requires forall j :: 18 <= j < 24 ==> s[j] == 0
    modifies s
    ensures Same(s[..], v)
    ensures Within(s[..], 0, 10, 0x80_0000_0000_0000) && Within(s[..], 11, 11, 0x1_5000_0000)
    ensures forall j :: 12 <= j < 24 ==> s[j] == 0
  {
    hide Same, Radix, Congruent;
    var i := 17;
    ghost var bound := 0x1_5000_0000;
    while i >= 12
      invariant 11 <= i <= 17
      invariant Same(s[..], v)
      invariant Within(s[..], 11, i, 0x1_5000_0000)
      invariant forall j :: i < j < 24 && j >= 12 ==> s[j] == 0
      invariant bound == 0x1_5000_0000 + (17 - i) * (0x1_5000_0000 * 997805)
      invariant Within(s[..], 0, 10, bound)
    {
      FoldSameBy(s, i, 0x1_5000_0000, v);
      bound := bound + 0x1_5000_0000 * 997805;
      i := i - 1;
    }
  }

  /** Rounded carries out of 0,2,...,10 and then 1,3,...,11. */
  method CarryLow(s: array<int64>, ghost v: int)
    requires s.Length == 24 && Same(s[..], v)
    requires Within(s[..], 0, 10, 0x80_0000_0000_0000) && Within(s[..], 11, 11, 0x1_5000_0000)
    requires forall j :: 12 <= j < 24 ==> s[j] == 0
    modifies s
    ensures Same(s[..], v)
    ensures Within(s[..], 0, 10, 0x4_1000_0000) && -HALF21 <= s[11] < HALF21 && Within(s[..], 12, 12, 0x3000)
    ensures forall j :: 13 <= j < 24 ==> s[j] == 0
  {
    hide Same, Radix, Congruent;
    var i := 0;
    while i <= 10
      invariant 0 <= i <= 12 && i % 2 == 0
      invariant Same(s[..], v)
      invariant forall j :: 0 <= j < i && j % 2 == 0 ==> -HALF21 <= s[j] < HALF21
      invariant forall j :: i <= j <= 10 ==> -0x80_0000_0000_0000 <= s[j] <= 0x80_0000_0000_0000
      invariant forall j :: 0 <= j < i && j % 2 == 1 ==> -0x80_0008_0000_0000 <= s[j] <= 0x80_0008_0000_0000
      invariant -0x5_6000_0000 <= s[11] <= 0x5_6000_0000
      invariant i <= 10 ==> -0x1_5000_0000 <= s[11] <= 0x1_5000_0000
      invariant forall j :: 12 <= j < 24 ==> s[j] == 0
      decreases 12 - i
    {
      CarrySame(s, i, true, v);
      i := i + 2;
    }
    i := 1;
    while i <= 11
      invariant 1 <= i <= 13 && i % 2 == 1
      invariant Same(s[..], v)
      invariant forall j :: 1 <= j < i && j % 2 == 1 ==> -HALF21 <= s[j] < HALF21
      invariant forall j :: i <= j <= 9 && j % 2 == 1 ==> -0x80_0008_0000_0000 <= s[j] <= 0x80_0008_0000_0000
      invariant i <= 11 ==> -0x5_6000_0000 <= s[11] <= 0x5_6000_0000
      invariant forall j :: 0 <= j <= 10 && j % 2 == 0 ==> -0x4_1000_0000 <= s[j] <= 0x4_1000_0000
      invariant forall j :: i < j <= 10 && j % 2 == 0 ==> -HALF21 <= s[j] < HALF21
      invariant -0x3000 <= s[12] <= 0x3000 && (i <= 11 ==> s[12] == 0)
      invariant forall j :: 13 <= j < 24 ==> s[j] == 0
      decreases 13 - i
    {
      CarrySame(s, i, true, v);
      i := i + 2;
    }
  }

  // ---------------------------------------------------------------- the two final folds

  lemma {:induction false} RadixSplit(s: seq<int>, i: nat)
    requires i <= |s|
    ensures Radix(s) == Radix(s[..i]) + Place(i) * Radix(s[i..])
  {
    if i == 0 {
      assert s[0..] == s && s[..0] == [];
    } else {
      RadixSplit(s[1..], i - 1);
      assert s[..i][1..] == s[1..][..i - 1] && s[1..][i - 1..] == s[i..];
      SplitArith(Radix(s[1..][..i - 1]), Place(i - 1), Radix(s[i..]));
    }
  }

  lemma SplitArith(a: int, p: int, b: int)
    ensures B21 * (a + p * b) == B21 * a + (B21 * p) * b
  {}

  lemma {:induction false} RadixZeros(s: seq<int>)
    requires forall j :: 0 <= j < |s| ==> s[j] == 0
    ensures Radix(s) == 0
  {
    if |s| > 0 { RadixZeros(s[1..]); }
  }

  /** A nonnegative reduced prefix is below its place value. */
  lemma {:induction false} RadixBelow(s: seq<int>)
    requires forall j :: 0 <= j < |s| ==> 0 <= s[j] < B21
    ensures 0 <= Radix(s) < Place(|s|)
  {
    if |s| > 0 { RadixBelow(s[1..]); }
  }

  /** Limbs of magnitude at most b sum to less than 2*b*2^(21(n-1)). */
  lemma {:induction false} RadixMagnitude(s: seq<int>, b: nat)
    requires |s| > 0 && forall j :: 0 <= j < |s| ==> -(b as int) <= s[j] <= b
    ensures -(b * (2 * Place(|s| - 1) - 1)) <= Radix(s) <= b * (2 * Place(|s| - 1) - 1)
  {
    if |s| > 1 {
      RadixMagnitude(s[1..], b);
      MagnitudeArith(b, Place(|s| - 2), Radix(s[1..]), s[0]);
    } else {
      assert s[1..] == [];
      assert Place(0) == 1;
    }
  }

  lemma MagnitudeArith(b: nat, p: nat, r: int, x: int)
    requires p >= 1 && -(b as int) <= x <= b && -(b * (2 * p - 1)) <= r <= b * (2 * p - 1)
    ensures -(b * (2 * (B21 * p) - 1)) <= x + B21 * r <= b * (2 * (B21 * p) - 1)
  {
    var m := b * (2 * p - 1);
    assert b * (2 * (B21 * p) - 1) == B21 * m + b * (B21 - 1);
    MulMono(b, 1, B21 - 1);
  }

  lemma PlaceNumbers()
    ensures Place(12) == B21 * Place(11) && Place(11) == B21 * Place(10)
    ensures Place(12) == 0x1000000000000000_0000000000000000_0000000000000000_0000000000000000
    ensures Place(12) < L < Place(12) + Place(11)
  {
    FoldConstant();
  }

  /** Split a value held in limbs 0..12 at limb 12 or 11. */
  lemma TopLimbs(s: seq<int>, n: nat)
    requires |s| == 24 && n < 24 && forall j :: n < j < 24 ==> s[j] == 0
    ensures Radix(s) == Radix(s[..n]) + Place(n) * s[n]
  {
    RadixSplit(s, n);
    assert s[n..][1..] == s[n + 1..];
    RadixZeros(s[n + 1..]);
    assert Radix(s[n..]) == s[n] + B21 * Radix(s[n + 1..]);
  }

  /** Before the floor carries the value lies strictly between -2^252 and 2^252. */
  lemma NearlyReduced(s: seq<int>)
    requires |s| == 24 && Within(s, 0, 10, 0x7_1000_0000) && -HALF21 <= s[11] < HALF21
    requires forall j :: 12 <= j < 24 ==> s[j] == 0
    ensures -(Place(12) as int) < Radix(s) < Place(12)
  {
    TopLimbs(s, 11);
    RadixMagnitude(s[..11], 0x7_1000_0000);
    PlaceNumbers();
    hide Radix, Place;
    NearArith(Place(10), s[11], Radix(s[..11]));
  }

  lemma NearArith(p: nat, x: int, r: int)
    requires p >= 1 && -HALF21 <= x < HALF21
    requires -(0x7_1000_0000 * (2 * p - 1)) <= r <= 0x7_1000_0000 * (2 * p - 1)
    ensures -(B21 * (B21 * p)) < r + (B21 * p) * x < B21 * (B21 * p)
  {
    var q := B21 * p;
    MulMono(q, -HALF21, x);
    MulMono(q, x, HALF21 - 1);
  }

  /** carryScalarRadix21: floor carries out of limbs 0..last, value kept. */
  method CarryFloor(s: array<int64>, last: nat)
    requires s.Length == 24 && 10 <= last <= 11
    requires Within(s[..], 0, 12, 0x8_0000_0000)
    requires forall j :: last + 2 <= j < 24 ==> s[j] == 0
    modifies s
    ensures Radix(s[..]) == Radix(old(s[..]))
    ensures forall j :: 0 <= j <= last ==> 0 <= s[j] < B21
    ensures forall j :: last + 2 <= j < 24 ==> s[j] == 0
  {
    hide Radix;
    for i := 0 to last + 1
      invariant Radix(s[..]) == Radix(old(s[..]))
      invariant forall j :: 0 <= j < i ==> 0 <= s[j] < B21
      invariant forall j :: i <= j <= 12 ==> -0x8_0000_8000 <= s[j] <= 0x8_0000_8000
      invariant forall j :: i < j <= 12 ==> -0x8_0000_0000 <= s[j] <= 0x8_0000_0000
      invariant forall j :: last + 2 <= j < 24 ==> s[j] == 0
    {
      CarryLimb(s, i, false);
    }
  }

  /** The first floor pass leaves limb 12 at 0 or -1, and folding it lands in [0,L). */
  method FinalFolds(s: array<int64>, ghost v: int)
    requires s.Length == 24 && Same(s[..], v)
    requires Within(s[..], 0, 10, 0x7_1000_0000) && -HALF21 <= s[11] < HALF21
    requires forall j :: 12 <= j < 24 ==> s[j] == 0
    modifies s
    ensures Radix(s[..]) == v % L
    ensures forall j :: 0 <= j <= 10 ==> 0 <= s[j] < B21
    ensures 0 <= s[11] <= B21 && forall j :: 12 <= j < 24 ==> s[j] == 0
  {
    NearlyReduced(s[..]);
    PlaceNumbers();
    hide Radix, Congruent, Place;
    CarryFloor(s, 11);
    ghost var w := Radix(s[..]);
    LimbTwelve(s[..]);
    FoldValue(s[..], 12);
    PlaceZero(s[12]);
    ghost var top := s[12];
    Fold(s, 12, 1);
    CongruentBy(Radix(s[..]), w, L, -top);
    CongruentTrans(Radix(s[..]), w, v, L);
    CarryFloor(s, 10);
    LimbEleven(s[..]);
    Canonical(Radix(s[..]), v);
  }

  lemma PlaceZero(x: int)
    ensures Place(0) * x == x
  {}

  lemma LimbTwelve(s: seq<int>)
    requires |s| == 24 && (forall j :: 0 <= j <= 11 ==> 0 <= s[j] < B21) && forall j :: 13 <= j < 24 ==> s[j] == 0
    requires -(Place(12) as int) < Radix(s) < Place(12)
    ensures s[12] == (if Radix(s) < 0 then -1 else 0)
  {
    hide Radix, Place;
    TopLimbs(s, 12);
    RadixBelow(s[..12]);
    if s[12] >= 1 { MulMono(Place(12), 1, s[12]); }
    if s[12] <= -2 { MulMono(Place(12), s[12], -2); }
  }

  lemma LimbEleven(s: seq<int>)
    requires |s| == 24 && (forall j :: 0 <= j <= 10 ==> 0 <= s[j] < B21) && forall j :: 12 <= j < 24 ==> s[j] == 0
    requires 0 <= Radix(s) < L
    ensures 0 <= s[11] <= B21
  {
    TopLimbs(s, 11);
    RadixBelow(s[..11]);
    PlaceNumbers();
    hide Radix, Place;
    if s[11] < 0 { MulMono(Place(11), s[11], -1); }
  }

  lemma Canonical(r: int, v: int)
    requires 0 <= r < L && Congruent(r, v, L)
    ensures r == v % L
  {
    CongruentMod(v, L);
    CongruentTrans(r, v, v % L, L);
    CongruentUnique(r, v % L, L);
  }
}
