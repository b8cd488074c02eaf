/** Radix-2^51 limbs of the field of 2^255 - 19 (internal/r51x5/element.go) and what they denote. */
module FieldLimbs {
  import opened Arith
  import opened Words

  const P: int := 0x7fffffffffffffff_ffffffffffffffff_ffffffffffffffff_ffffffffffffffed
  const T51: int := 0x8_0000_0000_0000
  const MASK51: int := T51 - 1

  type Limbs = x: seq<u64> | |x| == 5 witness [0, 0, 0, 0, 0]

  const MODULUS_LIMBS: Limbs := [T51 - 19, MASK51, MASK51, MASK51, MASK51]

  /** The integer five radix-2^51 digits denote; digits may exceed the radix. */
  function FVal(x: seq<int>): int
    requires |x| == 5
  {
    x[0] + 0x8000000000000 * x[1] + 0x40000000000000000000000000 * x[2]
      + 0x200000000000000000000000000000000000000 * x[3]
      + 0x1000000000000000000000000000000000000000000000000000 * x[4]
  }

  lemma ModulusValue()
    ensures FVal(MODULUS_LIMBS) == P
  {}

  /** Two integers with the same residue modulo p. */
  ghost predicate Same(a: int, b: int) { Congruent(a, b, P) }

  lemma SameBy(a: int, b: int, m: int)
    requires a == b + m * P
    ensures Same(a, b)
  {
    CongruentBy(a, b, P, m);
  }

  predicate Below(x: seq<int>, b: int) {
    forall i :: 0 <= i < |x| ==> 0 <= x[i] < b
  }

  /** The u52 domain of VPMADD52 multiplicands. */
  predicate U52(x: seq<int>) { |x| == 5 && Below(x, 2 * T51) }

  /** IsReduced: the unique radix-2^51 representation of an integer below p. */
  predicate Reduced(x: seq<int>) { |x| == 5 && Below(x, T51) && FVal(x) < P }

  lemma FValBelow(x: seq<int>)
    requires |x| == 5 && Below(x, T51)
    ensures 0 <= FVal(x) < P + 19
  {}

  /** Carried limbs are determined by their value. */
  lemma FValInjective(x: seq<int>, y: seq<int>)
    requires |x| == 5 && |y| == 5 && Below(x, T51) && Below(y, T51) && FVal(x) == FVal(y)
    ensures x == y
  {
    forall i | 0 <= i < 5 && forall j :: i < j < 5 ==> x[j] == y[j]
      ensures x[i] == y[i]
    {
      if x[i] < y[i] { TopLimbDecides(x, y, i); }
      if y[i] < x[i] { TopLimbDecides(y, x, i); }
    }
    assert x[4] == y[4];
    assert x[3] == y[3];
    assert x[2] == y[2];
    assert x[1] == y[1];
  }

  // ---------------------------------------------------------------- compare and subtract

  /** compareLimbs, from the top limb down. */
  method CompareLimbs(x: seq<int>, y: seq<int>) returns (c: int)
    requires |x| == 5 && |y| == 5 && Below(x, T51) && Below(y, T51)
    ensures c == (if FVal(x) < FVal(y) then -1 else if FVal(x) > FVal(y) then 1 else 0)
  {
    var i := 5;
    while i > 0
      invariant 0 <= i <= 5
      invariant forall j :: i <= j < 5 ==> x[j] == y[j]
    {
      i := i - 1;
      if x[i] < y[i] {
        TopLimbDecides(x, y, i);
        return -1;
      }
      if x[i] > y[i] {
        TopLimbDecides(y, x, i);
        return 1;
      }
    }
    return 0;
  }

  lemma TopLimbDecides(x: seq<int>, y: seq<int>, i: nat)
    requires |x| == 5 && |y| == 5 && Below(x, T51) && Below(y, T51) && i < 5
    requires x[i] < y[i] && forall j :: i < j < 5 ==> x[j] == y[j]
    ensures FVal(x) < FVal(y)
  {}

  /** subtractLimbs: borrow subtraction of carried limbs; the final borrow is zero. */
  method SubtractLimbs(x: seq<int>, y: seq<int>) returns (z: seq<int>)
    requires |x| == 5 && |y| == 5 && Below(x, T51) && Below(y, T51) && FVal(x) >= FVal(y)
    ensures |z| == 5 && Below(z, T51) && FVal(z) == FVal(x) - FVal(y)
  {
    z := [0, 0, 0, 0, 0];
    var borrow := 0;
    for i := 0 to 5
      invariant |z| == 5 && 0 <= borrow <= 1
      invariant forall j :: 0 <= j < i ==> 0 <= z[j] < T51
      invariant borrow == Borrowed(x, y, i)
      invariant forall j :: 0 <= j < i ==> z[j] == x[j] - y[j] - Borrowed(x, y, j) + T51 * Borrowed(x, y, j + 1)
    {
      var subtrahend := y[i] + borrow;
      if x[i] >= subtrahend {
        z := z[i := x[i] - subtrahend];
        borrow := 0;
      } else {
        z := z[i := T51 + x[i] - subtrahend];
        borrow := 1;
      }
    }
    BorrowTotal(x, y, z);
  }

  /** The borrow into limb i. */
  function Borrowed(x: seq<int>, y: seq<int>, i: nat): (b: int)
    requires |x| == 5 && |y| == 5 && i <= 5
    ensures 0 <= b <= 1
  {
    if i == 0 then 0 else if x[i - 1] >= y[i - 1] + Borrowed(x, y, i - 1) then 0 else 1
  }

  lemma BorrowTotal(x: seq<int>, y: seq<int>, z: seq<int>)
    requires |x| == 5 && |y| == 5 && |z| == 5 && Below(z, T51) && FVal(x) >= FVal(y) && Below(x, T51) && Below(y, T51)
    requires forall j :: 0 <= j < 5 ==> z[j] == x[j] - y[j] - Borrowed(x, y, j) + T51 * Borrowed(x, y, j + 1)
    ensures FVal(z) == FVal(x) - FVal(y)
  {
    hide Borrowed;
    FirstBorrow(x, y);
    assert z[0] == x[0] - y[0] + 0x8000000000000 * Borrowed(x, y, 1);
    assert z[1] == x[1] - y[1] - Borrowed(x, y, 1) + 0x8000000000000 * Borrowed(x, y, 2);
    assert z[2] == x[2] - y[2] - Borrowed(x, y, 2) + 0x8000000000000 * Borrowed(x, y, 3);
    assert z[3] == x[3] - y[3] - Borrowed(x, y, 3) + 0x8000000000000 * Borrowed(x, y, 4);
    assert z[4] == x[4] - y[4] - Borrowed(x, y, 4) + 0x8000000000000 * Borrowed(x, y, 5);
    FValBelow(z);
  }

  lemma FirstBorrow(x: seq<int>, y: seq<int>)
    requires |x| == 5 && |y| == 5
    ensures Borrowed(x, y, 0) == 0
  {}
}
