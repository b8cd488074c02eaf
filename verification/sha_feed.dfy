/** Feeding segmented messages to the SHA-512 compression (sha512mb/native.go): what every lane hands
    over, block by block, is the padded message of section 5.1.2 of FIPS 180-4. Compression itself is a
    function parameter. */
module ShaFeed {
  import opened Arith
  import opened Bytes

  const BLOCK: nat := 128

  /** The message a list of segments spells. */
  function Concat(parts: seq<seq<u8>>): seq<u8> {
    if |parts| == 0 then [] else parts[0] + Concat(parts[1..])
  }

  lemma {:induction false} ConcatSplit(parts: seq<seq<u8>>, i: nat)
    requires i <= |parts|
    ensures Concat(parts) == Concat(parts[..i]) + Concat(parts[i..])
  {
    if i == 0 {
      assert parts[..0] == [] && parts[0..] == parts;
    } else {
      ConcatSplit(parts[1..], i - 1);
      assert parts[..i][1..] == parts[1..][..i - 1] && parts[1..][i - 1..] == parts[i..];
    }
  }

  lemma ConcatNext(parts: seq<seq<u8>>, i: nat)
    requires i < |parts|
    ensures Concat(parts[..i + 1]) == Concat(parts[..i]) + parts[i]
  {
    ConcatSplit(parts[..i + 1], i);
    assert parts[..i + 1][..i] == parts[..i] && parts[..i + 1][i..] == [parts[i]];
    assert Concat([parts[i]]) == parts[i] + Concat([]);
  }

  // ---------------------------------------------------------------- the padded message

  /** The number of blocks of an n-byte message: one more when the length does not fit after it. */
  function Blocks(n: nat): (b: nat)
    ensures BLOCK * b >= n + 17 && BLOCK * (b - 1) < n + 17
  {
    n / 128 + 1 + (if n % 128 >= 112 then 1 else 0)
  }

  /** Byte j of the 128-bit big-endian bit length. */
  function LengthByte(n: nat, j: nat): u8
    requires j < 16
  {
    (8 * n / Pow2(8 * (15 - j))) % 256
  }

  /** m, then 0x80, zeros, and the bit length in the last sixteen bytes. */
  function PaddedByte(m: seq<u8>, i: nat): u8 {
    var total := BLOCK * Blocks(|m|);
    if i < |m| then m[i]
    else if i == |m| then 0x80
    else if total - 16 <= i < total then LengthByte(|m|, i - (total - 16))
    else 0
  }

  function PaddedBlock(m: seq<u8>, k: nat): (b: seq<u8>)
    ensures |b| == BLOCK
  {
    seq<u8>(BLOCK, i requires 0 <= i < BLOCK => PaddedByte(m, BLOCK * k + i))
  }

  /** binary.BigEndian.PutUint64, byte j. */
  function BigEndianByte(w: nat, j: nat): u8
    requires j < 8
  {
    (w / Pow2(8 * (7 - j))) % 256
  }

  /** totalBytes>>61 and totalBytes<<3 are the two halves of the bit length. */
  lemma LengthHalves(n: nat, j: nat)
    requires n < 0x1_0000_0000_0000_0000 && j < 8
    ensures BigEndianByte(n / 0x2000_0000_0000_0000, j) == LengthByte(n, j)
    ensures BigEndianByte((8 * n) % 0x1_0000_0000_0000_0000, j) == LengthByte(n, 8 + j)
  {
    var p := Pow2(8 * (7 - j));
    Pow2Add(64, 8 * (7 - j));
    Pow2Wide();
    assert 8 * (15 - j) == 64 + 8 * (7 - j) && 15 - (8 + j) == 7 - j;
    HighHalf(n, p);
    Pow2Add(8 * (7 - j), 8 * j + 8);
    Pow2Add(8, 8 * j);
    Pow2Small();
    LowHalf(8 * n, p, Pow2(8 * j));
  }

  lemma HighHalf(n: nat, p: nat)
    requires p > 0
    ensures (n / 0x2000_0000_0000_0000) / p == 8 * n / (0x1_0000_0000_0000_0000 * p)
  {
    var h, r := n / 0x2000_0000_0000_0000, n % 0x2000_0000_0000_0000;
    var q, s := h / p, h % p;
    DivMod(h, p);
    assert 8 * n == 0x1_0000_0000_0000_0000 * h + 8 * r;
    Nested(8 * n, 0x1_0000_0000_0000_0000, p, h, 8 * r, q, s);
  }

  lemma Nested(v: int, w: nat, p: nat, h: int, r: int, q: int, s: int)
    requires w > 0 && p > 0 && v == w * h + r && 0 <= r < w && h == q * p + s && 0 <= s < p
    ensures w * p > 0 && v / (w * p) == q
  {
    MulMono(w, s + 1, p);
    MulNonNeg(w, s);
    assert w * h == q * (w * p) + w * s by { assert w * (q * p + s) == q * (w * p) + w * s; }
    DivUnique(v, w * p, q, w * s + r);
  }

  lemma LowHalf(v: nat, p: nat, t: nat)
    requires p > 0 && t > 0 && p * (256 * t) == 0x1_0000_0000_0000_0000
    ensures ((v % 0x1_0000_0000_0000_0000) / p) % 256 == (v / p) % 256
  {
    var w := p * (256 * t);
    DivMod(v, w);
    var q, m := v / w, v % w;
    DivMod(m, p);
    var a, b := m / p, m % p;
    assert v == (a + (256 * t) * q) * p + b by { assert (a + (256 * t) * q) * p == a * p + q * (p * (256 * t)); }
    DivUnique(v, p, a + (256 * t) * q, b);
    DivMod(a, 256);
    assert a + (256 * t) * q == (a / 256 + t * q) * 256 + a % 256 by { assert (t * q) * 256 == (256 * t) * q; }
    DivUnique(a + (256 * t) * q, 256, a / 256 + t * q, a % 256);
  }

  // ---------------------------------------------------------------- one lane

  function Min(a: int, b: int): int { if a <= b then a else b }

  /** nativeLane. */
  class NativeLane {
    const parts: seq<seq<u8>>
    const totalBytes: nat
    const blocks: nat
    var part: nat
    var offset: nat
    var paddingWritten: bool

    ghost predicate Valid()
      reads this
    {
      && part <= |parts| && (if part < |parts| then offset <= |parts[part]| else offset == 0)
      && totalBytes == |Concat(parts)| < 0x1_0000_0000_0000_0000 && blocks == Blocks(totalBytes)
    }

    /** How much of the message has been handed over. */
    ghost function Consumed(): nat
      reads this
      requires Valid()
    {
      |Concat(parts[..part])| + offset
    }

    /** Ready for block k: everything before it, and nothing more, has been handed over. */
    ghost predicate At(k: nat)
      reads this
    {
      && Valid() && k <= blocks && Consumed() == Min(totalBytes, BLOCK * k)
      && (paddingWritten <==> BLOCK * k > totalBytes)
    }

    /** newNativeLane; its overflow panic is the requires. */
    constructor (segments: seq<seq<u8>>)
      requires |Concat(segments)| < 0x1_0000_0000_0000_0000
      ensures parts == segments && At(0) && blocks == Blocks(|Concat(segments)|)
    {
      var total := 0;
      assert segments[..0] == [];
      for i := 0 to |segments|
        invariant total == |Concat(segments[..i])|
      {
        ConcatNext(segments, i);
        total := total + |segments[i]|;
      }
      assert segments[..|segments|] == segments;
      parts, totalBytes := segments, total;
      var count := total / 128 + 1;
      if total % 128 >= 112 {
        count := count + 1;
      }
      blocks, part, offset, paddingWritten := count, 0, 0, false;
      new;
      assert parts[..0] == [];
    }

    /** Step over exhausted segments. */
    method Skip()
      requires Valid()
      modifies this`part, this`offset
      ensures Valid() && Consumed() == old(Consumed())
      ensures part < |parts| ==> offset < |parts[part]|
      ensures part == |parts| ==> Consumed() == totalBytes
    {
      while part < |parts| && offset == |parts[part]|
        invariant Valid() && Consumed() == old(Consumed())
        decreases |parts| - part
      {
        ConcatNext(parts, part);
        part, offset := part + 1, 0;
      }
      if part == |parts| { assert parts[..part] == parts; }
    }

    /** The bytes a segment holds are the message's bytes at the running position. */
    lemma SegmentBytes(n: nat)
      requires Valid() && part < |parts| && offset + n <= |parts[part]|
      ensures Consumed() + n <= totalBytes
      ensures Concat(parts)[Consumed()..Consumed() + n] == parts[part][offset..offset + n]
    {
      ConcatSplit(parts, part + 1);
      ConcatNext(parts, part);
      var head := Concat(parts[..part]);
      assert Concat(parts) == head + parts[part] + Concat(parts[part + 1..]);
    }

    /** fill, on a zeroed block. */
    method Fill(block: array<u8>, k: nat)
      requires At(k) && k < blocks && block.Length == BLOCK && forall i :: 0 <= i < BLOCK ==> block[i] == 0
      modifies this, block
      ensures At(k + 1) && block[..] == PaddedBlock(Concat(parts), k)
    {
      ghost var m, start := Concat(parts), Min(totalBytes, BLOCK * k);
      var position := CopyMessage(block, k);
      var padded := false;
      if !paddingWritten && part == |parts| && position < BLOCK {
        block[position] := 0x80;
        paddingWritten := true;
        padded := true;
      }
      assert forall i :: 0 <= i < BLOCK && i < totalBytes - BLOCK * k ==> block[i] == m[BLOCK * k + i];
      assert padded <==> BLOCK * k <= totalBytes < BLOCK * (k + 1);
      assert forall i :: 0 <= i < BLOCK && i > totalBytes - BLOCK * k ==> block[i] == 0;
      if k + 1 == blocks {
        var high, low := totalBytes / 0x2000_0000_0000_0000, (8 * totalBytes) % 0x1_0000_0000_0000_0000;
        PutLength(block, high, low);
        forall i | 112 <= i < 128
          ensures block[i] == PaddedByte(m, BLOCK * k + i)
        {
          if i < 120 { LengthHalves(totalBytes, i - 112); } else { LengthHalves(totalBytes, i - 120); }
        }
      }
      BlockIs(block[..], m, k);
    }

    /** Both PutUint64 stores of the length. */
    method PutLength(block: array<u8>, high: nat, low: nat)
      requires block.Length == BLOCK
      modifies block
      ensures forall i :: 0 <= i < 112 ==> block[i] == old(block[i])
      ensures forall i :: 112 <= i < 120 ==> block[i] == BigEndianByte(high, i - 112)
      ensures forall i :: 120 <= i < 128 ==> block[i] == BigEndianByte(low, i - 120)
    {
      for j := 0 to 8
        invariant forall i :: 0 <= i < 112 ==> block[i] == old(block[i])
        invariant forall i :: 112 <= i < 112 + j ==> block[i] == BigEndianByte(high, i - 112)
        invariant forall i :: 120 <= i < 120 + j ==> block[i] == BigEndianByte(low, i - 120)
      {
        block[112 + j] := BigEndianByte(high, j);
        block[120 + j] := BigEndianByte(low, j);
      }
    }

    /** The copy loop of fill. */
    method CopyMessage(block: array<u8>, k: nat) returns (position: nat)
      requires At(k) && k < blocks && block.Length == BLOCK && forall i :: 0 <= i < BLOCK ==> block[i] == 0
      modifies this`part, this`offset, block
      ensures Valid() && paddingWritten == old(paddingWritten) && position <= BLOCK
      ensures Consumed() == Min(totalBytes, BLOCK * (k + 1)) && position == Consumed() - Min(totalBytes, BLOCK * k)
      ensures position < BLOCK ==> part == |parts|
      ensures forall i :: 0 <= i < position ==> block[i] == Concat(parts)[BLOCK * k + i]
      ensures forall i :: position <= i < BLOCK ==> block[i] == 0
    {
      hide Concat, Blocks;
      position := 0;
      ghost var m, start := Concat(parts), Consumed();
      while position < BLOCK
        invariant Valid() && paddingWritten == old(paddingWritten) && position <= BLOCK
        invariant Consumed() == start + position <= totalBytes
        invariant forall i :: 0 <= i < position ==> block[i] == m[start + i]
        invariant forall i :: position <= i < BLOCK ==> block[i] == 0
        decreases BLOCK - position
      {
        Skip();
        if part == |parts| {
          break;
        }
        var n := Min(BLOCK - position, |parts[part]| - offset);
        SegmentBytes(n);
        forall i | 0 <= i < n {
          block[position + i] := parts[part][offset + i];
        }
        ghost var c := Consumed();
        forall i | position <= i < position + n
          ensures block[i] == m[start + i]
        {
          assert parts[part][offset..offset + n][i - position] == m[c..c + n][i - position];
        }
        position, offset := position + n, offset + n;
      }
    }

    /** takeDirectBlock: a whole block lying inside one segment, without copying. */
    method TakeDirectBlock(k: nat) returns (block: seq<u8>, ok: bool)
      requires At(k) && k < blocks
      modifies this`part, this`offset
      ensures if ok then At(k + 1) && block == PaddedBlock(Concat(parts), k) else At(k)
    {
      Skip();
      if part == |parts| || |parts[part]| - offset < BLOCK {
        return [], false;
      }
      SegmentBytes(BLOCK);
      ghost var m, c := Concat(parts), Consumed();
      block := parts[part][offset..offset + BLOCK];
      assert block == m[c..c + BLOCK];
      offset := offset + BLOCK;
      ok := true;
      DirectBlock(m, k, c);
    }
  }

  /** A block of message bytes is the padded block. */
  lemma DirectBlock(m: seq<u8>, k: nat, c: nat)
    requires c == Min(|m|, BLOCK * k) && c + BLOCK <= |m|
    ensures c == BLOCK * k && m[c..c + BLOCK] == PaddedBlock(m, k)
  {
    forall i | 0 <= i < BLOCK
      ensures m[c..c + BLOCK][i] == PaddedBlock(m, k)[i]
    {}
  }

  /** What fill leaves behind, byte by byte. */
  lemma BlockIs(b: seq<u8>, m: seq<u8>, k: nat)
    requires |b| == BLOCK && k < Blocks(|m|)
    requires forall i :: 0 <= i < BLOCK && BLOCK * k + i < |m| ==> b[i] == m[BLOCK * k + i]
    requires forall i :: 0 <= i < BLOCK && BLOCK * k + i == |m| ==> b[i] == 0x80
    requires forall i :: 0 <= i < BLOCK && BLOCK * k + i > |m| && !(k + 1 == Blocks(|m|) && i >= 112) ==> b[i] == 0
    requires k + 1 == Blocks(|m|) ==> forall i :: 112 <= i < BLOCK ==> b[i] == PaddedByte(m, BLOCK * k + i)
    ensures b == PaddedBlock(m, k)
  {
    forall i | 0 <= i < BLOCK
      ensures b[i] == PaddedByte(m, BLOCK * k + i)
    {
      hide LengthByte;
    }
  }
}
