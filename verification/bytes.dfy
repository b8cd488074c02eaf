/** Little-endian byte strings and the 64-bit loads on them. */
module Bytes {
  import opened Arith
  import opened Words
  import opened Fixed256

  type u8 = x: int | 0 <= x < 256
  type Bytes32 = b: seq<u8> | |b| == 32 witness Zero32

  const Zero32: seq<u8> := seq(32, _ => 0)

  /** The number a little-endian byte string denotes. */
  function LeValue(b: seq<u8>): nat {
    if |b| == 0 then 0 else b[0] + 256 * LeValue(b[1..])
  }

  lemma {:induction false} LeAppend(a: seq<u8>, b: seq<u8>)
    ensures LeValue(a + b) == LeValue(a) + Pow2(8 * |a|) * LeValue(b)
  {
    if |a| == 0 {
      assert a + b == b;
    } else {
      LeAppend(a[1..], b);
      assert (a + b)[1..] == a[1..] + b;
      Pow2Add(8, 8 * (|a| - 1));
      Pow2Small();
      LeArith(LeValue(a[1..]), Pow2(8 * (|a| - 1)), LeValue(b));
    }
  }

  lemma LeArith(a: nat, p: nat, b: nat)
    ensures 256 * (a + p * b) == 256 * a + (256 * p) * b
  {}

  lemma LeOne(x: u8)
    ensures LeValue([x]) == x
  {
    assert LeValue([x]) == x + 256 * LeValue([]);
  }

  lemma {:induction false} LeBound(b: seq<u8>)
    ensures LeValue(b) < Pow2(8 * |b|)
  {
    if |b| > 0 {
      LeBound(b[1..]);
      Pow2Add(8, 8 * (|b| - 1));
      Pow2Small();
    }
  }

  /** binary.LittleEndian.Uint64. */
  function Load64(b: seq<u8>): (w: u64)
    requires |b| == 8
  {
    LeBound(b);
    Pow2Wide();
    LeValue(b)
  }

  /** uint256FromBytesLE. */
  function FromBytesLE(b: Bytes32): (x: U256)
    ensures Val(x) == LeValue(b)
  {
    var x := [Load64(b[0..8]), Load64(b[8..16]), Load64(b[16..24]), Load64(b[24..32])];
    LoadsValue(b, x);
    x
  }

  lemma LoadsValue(b: Bytes32, x: U256)
    requires x == [LeValue(b[0..8]), LeValue(b[8..16]), LeValue(b[16..24]), LeValue(b[24..32])]
    ensures Val(x) == LeValue(b)
  {
    Pow2Wide();
    hide Pow2, LeValue;
    assert b[24..32] == b[24..];
    assert b[16..] == b[16..24] + b[24..];
    assert b[8..] == b[8..16] + b[16..];
    assert b == b[0..8] + b[8..];
    LeAppend(b[16..24], b[24..]);
    LeAppend(b[8..16], b[16..]);
    LeAppend(b[0..8], b[8..]);
    Val4(x);
  }
}
