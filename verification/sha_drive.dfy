/** The lane-group drivers of sha512mb/native.go and the fixed three-segment path: every lane's digest is
    the fold of the compression over its own padded message. */
module ShaDrive {
  import opened Arith
  import opened Bytes
  import opened ShaFeed

  const WIDTH: nat := 8

  /** The chaining state after the first k padded blocks. */
  function Chained<S>(f: (S, seq<u8>) -> S, iv: S, m: seq<u8>, k: nat): S {
    if k == 0 then iv else f(Chained(f, iv, m, k - 1), PaddedBlock(m, k - 1))
  }

  /** The digest of m: the state after its last block. */
  function Digest<S>(f: (S, seq<u8>) -> S, iv: S, m: seq<u8>): S {
    Chained(f, iv, m, Blocks(|m|))
  }

  ghost predicate Fits(msgs: seq<seq<seq<u8>>>) {
    forall i :: 0 <= i < |msgs| ==> |Concat(msgs[i])| < 0x1_0000_0000_0000_0000
  }

  /** Lanes are separate objects, each over its own message. */
  ghost predicate Separate(lane: seq<NativeLane>, msgs: seq<seq<seq<u8>>>) {
    && |lane| == |msgs|
    && (forall i :: 0 <= i < |lane| ==> lane[i].parts == msgs[i])
    && (forall i, j :: 0 <= i < j < |lane| ==> lane[i] != lane[j])
  }

  /** A lane that still has blocks stands before block b; a finished one has not moved since its last. */
  ghost predicate Standing(lane: seq<NativeLane>, b: nat)
    reads lane
  {
    forall i :: 0 <= i < |lane| ==> lane[i].At(Min(b, lane[i].blocks))
  }

  method NewLanes(msgs: seq<seq<seq<u8>>>) returns (lane: seq<NativeLane>, maxBlocks: nat)
    requires forall i :: 0 <= i < |msgs| ==> |Concat(msgs[i])| < 0x1_0000_0000_0000_0000
    ensures |lane| == |msgs| && forall i :: 0 <= i < |lane| ==> fresh(lane[i])
    ensures forall i :: 0 <= i < |lane| ==> lane[i].parts == msgs[i] && lane[i].At(0)
    ensures forall i :: 0 <= i < |lane| ==> lane[i].blocks == Blocks(|Concat(msgs[i])|) <= maxBlocks
    ensures forall i, j :: 0 <= i < j < |lane| ==> lane[i] != lane[j]
  {
    hide *;
    lane, maxBlocks := [], 0;
    for i := 0 to |msgs|
      invariant |lane| == i && forall j :: 0 <= j < i ==> fresh(lane[j])
      invariant forall j :: 0 <= j < i ==> lane[j].parts == msgs[j] && lane[j].At(0)
      invariant forall j :: 0 <= j < i ==> lane[j].blocks == Blocks(|Concat(msgs[j])|) <= maxBlocks
      invariant forall j, k :: 0 <= j < k < i ==> lane[j] != lane[k]
    {
      var next := new NativeLane(msgs[i]);
      if next.blocks > maxBlocks {
        maxBlocks := next.blocks;
      }
      lane := lane + [next];
    }
  }

  /** One lane's block: a direct slice when allowed and contiguous, a filled buffer otherwise. */
  method NextBlock(lane: NativeLane, b: nat, direct: bool) returns (block: seq<u8>)
    requires lane.At(b) && b < lane.blocks
    modifies lane
    ensures lane.At(b + 1) && block == PaddedBlock(Concat(lane.parts), b)
  {
    hide *;
    if direct {
      var taken, ok := lane.TakeDirectBlock(b);
      if ok {
        return taken;
      }
    }
    var raw := new u8[BLOCK](_ => 0);
    lane.Fill(raw, b);
    block := raw[..];
  }

  /** The blocks of all lanes at index b; lanes that are done get zeros. */
  method GatherBlocks(lane: seq<NativeLane>, ghost msgs: seq<seq<seq<u8>>>, b: nat, direct: bool) returns (blocks: seq<seq<u8>>)
    requires Separate(lane, msgs) && Standing(lane, b) && |lane| <= WIDTH
    modifies lane
    ensures Separate(lane, msgs) && Standing(lane, b + 1) && |blocks| == WIDTH
    ensures forall i :: 0 <= i < |lane| && b < lane[i].blocks ==> blocks[i] == PaddedBlock(Concat(msgs[i]), b)
  {
    hide Blocks, Concat, PaddedBlock, PaddedByte;
    blocks := seq(WIDTH, _ => seq(BLOCK, _ => 0));
    for i := 0 to |lane|
      invariant |blocks| == WIDTH
      invariant forall j :: 0 <= j < i ==> lane[j].At(Min(b + 1, lane[j].blocks))
      invariant forall j :: i <= j < |lane| ==> lane[j].At(Min(b, lane[j].blocks))
      invariant forall j :: 0 <= j < i && b < lane[j].blocks ==> blocks[j] == PaddedBlock(Concat(msgs[j]), b)
    {
      if b < lane[i].blocks {
        var block := NextBlock(lane[i], b, direct);
        blocks := blocks[i := block];
      }
    }
  }

  /** After b blocks: the running states, and the digests of the lanes that are done. */
  ghost predicate Progress<S(!new)>(f: (S, seq<u8>) -> S, iv: S, msgs: seq<seq<seq<u8>>>, state: seq<S>, out: seq<S>, b: nat) {
    && |state| == WIDTH && |out| == |msgs| <= WIDTH
    && (forall i :: 0 <= i < |msgs| && b <= Blocks(|Concat(msgs[i])|) ==> state[i] == Chained(f, iv, Concat(msgs[i]), b))
    && (forall i :: 0 <= i < |msgs| && Blocks(|Concat(msgs[i])|) <= b ==> out[i] == Digest(f, iv, Concat(msgs[i])))
  }

  /** Compress one block in every lane, then read the digests of the lanes that end here. */
  method Advance<S(!new)>(f: (S, seq<u8>) -> S, iv: S, lane: seq<NativeLane>, ghost msgs: seq<seq<seq<u8>>>, blocks: seq<seq<u8>>,
                    state: seq<S>, out: seq<S>, b: nat)
    returns (newState: seq<S>, newOut: seq<S>)
    requires Progress(f, iv, msgs, state, out, b) && |blocks| == WIDTH && |lane| == |msgs|
    requires forall i :: 0 <= i < |lane| ==> lane[i].blocks == Blocks(|Concat(msgs[i])|)
    requires forall i :: 0 <= i < |lane| && b < lane[i].blocks ==> blocks[i] == PaddedBlock(Concat(msgs[i]), b)
    ensures Progress(f, iv, msgs, newState, newOut, b + 1)
  {
    hide Blocks, Concat, PaddedBlock;
    newState := seq(WIDTH, i requires 0 <= i < WIDTH && |state| == WIDTH && |blocks| == WIDTH => f(state[i], blocks[i]));
    newOut := out;
    for i := 0 to |out|
      invariant |newOut| == |msgs|
      invariant forall j :: 0 <= j < i && lane[j].blocks <= b + 1 ==> newOut[j] == Digest(f, iv, Concat(msgs[j]))
      invariant forall j :: i <= j < |msgs| ==> newOut[j] == out[j]
    {
      if b + 1 == lane[i].blocks {
        newOut := newOut[i := newState[i]];
      }
    }
  }

  /** sum512NativeLanesX8 (direct) and sum512NativeLanesX4 (filled only): the digest of a lane is read after
      its own last block, whatever longer lanes go on to do. */
  method SumLanes<S(!new)>(f: (S, seq<u8>) -> S, iv: S, msgs: seq<seq<seq<u8>>>, direct: bool) returns (out: seq<S>)
    requires Fits(msgs) && |msgs| <= WIDTH
    ensures |out| == |msgs| && forall i :: 0 <= i < |msgs| ==> out[i] == Digest(f, iv, Concat(msgs[i]))
  {
    hide Concat, PaddedBlock;
    var lane, maxBlocks := NewLanes(msgs);
    var state := seq(WIDTH, _ => iv);
    out := seq(|msgs|, _ => iv);
    for b := 0 to maxBlocks
      invariant Separate(lane, msgs) && Standing(lane, b) && forall i :: 0 <= i < |lane| ==> fresh(lane[i])
      invariant Progress(f, iv, msgs, state, out, b)
    {
      var blocks := GatherBlocks(lane, msgs, b, direct);
      state, out := Advance(f, iv, lane, msgs, blocks, state, out, b);
    }
  }

  // ---------------------------------------------------------------- three fixed segments

  /** nativeCompressFinal: up to two message words, the marker, zeros, and the bit length. */
  function FinalBlock(tail: seq<u8>, bits: nat): (b: seq<u8>)
    requires |tail| <= 16
    ensures |b| == BLOCK
  {
    seq<u8>(BLOCK, i requires 0 <= i < BLOCK =>
      if i < |tail| then tail[i]
      else if i == |tail| then 0x80
      else if i >= 112 then (bits / Pow2(8 * (127 - i))) % 256
      else 0)
  }

  predicate FixedShape(msg: seq<seq<u8>>, size: nat) {
    |msg| == 3 && |msg[0]| == 32 && |msg[1]| == 32 && |msg[2]| == size
  }

  lemma ThreeParts(msg: seq<seq<u8>>)
    requires |msg| == 3
    ensures Concat(msg) == msg[0] + msg[1] + msg[2]
  {
    assert msg[1..][1..] == msg[2..] && msg[2..][1..] == [];
    assert Concat(msg[2..]) == msg[2] + Concat([]);
    assert Concat(msg[1..]) == msg[1] + Concat(msg[2..]);
  }

  lemma FirstBlock(msg: seq<seq<u8>>, size: nat)
    requires FixedShape(msg, size) && size >= 64
    ensures msg[0] + msg[1] + msg[2][..64] == PaddedBlock(Concat(msg), 0)
  {
    ThreeParts(msg);
    var m, b := Concat(msg), msg[0] + msg[1] + msg[2][..64];
    forall i | 0 <= i < BLOCK
      ensures b[i] == PaddedBlock(m, 0)[i]
    {
      assert b[i] == if i < 32 then msg[0][i] else if i < 64 then msg[1][i - 32] else msg[2][i - 64];
      assert b[i] == m[i];
      assert PaddedByte(m, BLOCK * 0 + i) == m[i];
    }
  }

  lemma MiddleBlock(msg: seq<seq<u8>>, size: nat, k: nat)
    requires FixedShape(msg, size) && 64 + 128 * k + 128 <= size
    ensures msg[2][64 + 128 * k..64 + 128 * k + 128] == PaddedBlock(Concat(msg), k + 1)
  {
    ThreeParts(msg);
    var m, b := Concat(msg), msg[2][64 + 128 * k..64 + 128 * k + 128];
    forall i | 0 <= i < BLOCK ensures b[i] == PaddedBlock(m, k + 1)[i] { assert b[i] == m[BLOCK * (k + 1) + i]; }
  }

  lemma LastBlock(msg: seq<seq<u8>>, size: nat, middle: nat, tail: nat)
    requires FixedShape(msg, size) && size == 64 + 128 * middle + tail && tail <= 16
    ensures FinalBlock(msg[2][size - tail..], 8 * (64 + size)) == PaddedBlock(Concat(msg), middle + 1)
    ensures Blocks(|Concat(msg)|) == middle + 2
  {
    ThreeParts(msg);
    var m, b := Concat(msg), FinalBlock(msg[2][size - tail..], 8 * (64 + size));
    assert |m| == 128 * (middle + 1) + tail;
    assert Blocks(|m|) == middle + 2;
    forall i | 0 <= i < BLOCK
      ensures b[i] == PaddedBlock(m, middle + 1)[i]
    {
      if i < tail { assert msg[2][size - tail..][i] == m[BLOCK * (middle + 1) + i]; }
      if i >= 112 { assert 15 - (i - 112) == 127 - i; }
    }
  }

  /** sum512NativeFixed3X8: taken exactly for eight messages of the registered shapes; the same digests. */
  method SumFixed3<S>(f: (S, seq<u8>) -> S, iv: S, msgs: seq<seq<seq<u8>>>) returns (out: seq<S>, ok: bool)
    requires forall i :: 0 <= i < |msgs| ==> |msgs[i]| == 3
    ensures ok <==> |msgs| == WIDTH && |msgs[0][2]| in {64, 200, 1232} && forall i :: 0 <= i < WIDTH ==> FixedShape(msgs[i], |msgs[0][2]|)
    ensures ok ==> |out| == WIDTH && forall i :: 0 <= i < WIDTH ==> out[i] == Digest(f, iv, Concat(msgs[i]))
  {
    out := [];
    if |msgs| != WIDTH {
      return out, false;
    }
    var size := |msgs[0][2]|;
    if size != 64 && size != 200 && size != 1232 {
      return out, false;
    }
    for lane := 0 to WIDTH
      invariant forall i :: 0 <= i < lane ==> FixedShape(msgs[i], size)
    {
      if |msgs[lane][0]| != 32 || |msgs[lane][1]| != 32 || |msgs[lane][2]| != size {
        return out, false;
      }
    }
    assert size in {64, 200, 1232};
    out := FixedBlocks(f, iv, msgs, size);
    ok := true;
  }

  method FixedBlocks<S>(f: (S, seq<u8>) -> S, iv: S, msgs: seq<seq<seq<u8>>>, size: nat) returns (state: seq<S>)
    requires |msgs| == WIDTH && size in {64, 200, 1232} && forall i :: 0 <= i < WIDTH ==> FixedShape(msgs[i], size)
    ensures |state| == WIDTH && forall i :: 0 <= i < WIDTH ==> state[i] == Digest(f, iv, Concat(msgs[i]))
  {
    hide Blocks, Concat, PaddedBlock, FinalBlock;
    forall i | 0 <= i < WIDTH ensures msgs[i][0] + msgs[i][1] + msgs[i][2][..64] == PaddedBlock(Concat(msgs[i]), 0) {
      FirstBlock(msgs[i], size);
    }
    state := seq(WIDTH, i requires 0 <= i < WIDTH => f(iv, msgs[i][0] + msgs[i][1] + msgs[i][2][..64]));
    assert forall i :: 0 <= i < WIDTH ==> state[i] == Chained(f, iv, Concat(msgs[i]), 1);
    var middleBlocks, tailBytes := (size - 64) / 128, (size - 64) % 128;
    for block := 0 to middleBlocks
      invariant |state| == WIDTH
      invariant forall i :: 0 <= i < WIDTH ==> state[i] == Chained(f, iv, Concat(msgs[i]), block + 1)
    {
      var offset := 64 + block * 128;
      forall i | 0 <= i < WIDTH ensures msgs[i][2][offset..offset + 128] == PaddedBlock(Concat(msgs[i]), block + 1) {
        MiddleBlock(msgs[i], size, block);
      }
      state := seq(WIDTH, i requires 0 <= i < WIDTH && |state| == WIDTH => f(state[i], msgs[i][2][offset..offset + 128]));
    }
    forall i | 0 <= i < WIDTH
      ensures FinalBlock(msgs[i][2][size - tailBytes..], 8 * (64 + size)) == PaddedBlock(Concat(msgs[i]), middleBlocks + 1)
      ensures Blocks(|Concat(msgs[i])|) == middleBlocks + 2
    {
      LastBlock(msgs[i], size, middleBlocks, tailBytes);
    }
    state := seq(WIDTH, i requires 0 <= i < WIDTH && |state| == WIDTH =>
      f(state[i], FinalBlock(msgs[i][2][size - tailBytes..], 8 * (64 + size))));
  }

  /** sum512NativeGroup3X8: the fixed path where it applies, the segmented path otherwise; one contract. */
  method SumGroup3<S(!new)>(f: (S, seq<u8>) -> S, iv: S, msgs: seq<seq<seq<u8>>>) returns (out: seq<S>)
    requires Fits(msgs) && |msgs| <= WIDTH && forall i :: 0 <= i < |msgs| ==> |msgs[i]| == 3
    ensures |out| == |msgs| && forall i :: 0 <= i < |msgs| ==> out[i] == Digest(f, iv, Concat(msgs[i]))
  {
    if |msgs| == WIDTH {
      var fixedOut, ok := SumFixed3(f, iv, msgs);
      if ok {
        return fixedOut;
      }
    }
    out := SumLanes(f, iv, msgs, true);
  }

  /** sum512x8Native: groups of eight in order, a short last group. */
  method SumBatch<S(!new)>(f: (S, seq<u8>) -> S, iv: S, msgs: seq<seq<seq<u8>>>, width: nat, direct: bool) returns (out: seq<S>)
    requires Fits(msgs) && 1 <= width <= WIDTH
    ensures |out| == |msgs| && forall i :: 0 <= i < |msgs| ==> out[i] == Digest(f, iv, Concat(msgs[i]))
  {
    out := [];
    var first := 0;
    while first < |msgs|
      invariant 0 <= first == |out| <= |msgs|
      invariant forall i :: 0 <= i < first ==> out[i] == Digest(f, iv, Concat(msgs[i]))
      decreases |msgs| - first
    {
      var lanes := Min(|msgs| - first, width);
      var group := msgs[first..first + lanes];
      var digests := SumLanes(f, iv, group, direct);
      assert forall i :: 0 <= i < lanes ==> digests[i] == Digest(f, iv, Concat(msgs[first + i]));
      out := out + digests;
      first := first + lanes;
    }
  }
}
