/** What one signature check decides, and the lane arrays the batch pipeline keeps its work in
    (ed25519/backend_r51experiment.go:679-754). Byte parsing, point decoding, point encoding and SHA-512
    compression are parameters. */
module BatchWorld {
  import opened Arith
  import opened Bytes
  import opened ScalarMod
  import opened GroupTheory
  import opened Selection
  import opened MergedChain
  import opened ShaFeed
  import opened ShaDrive

  datatype Option<+T> = None | Some(value: T)

  datatype Profile = DalekStrict | StdlibCompat

  /** One public key (possibly nil), message and signature. */
  datatype Item = Item(pub: Option<Bytes32>, msg: seq<u8>, sig: seq<u8>)

  datatype World<!G(!new), !S(!new)> = World(
    g: Group<G>,
    base: G,
    decode: Bytes32 -> Option<G>,
    encode: G -> Bytes32,
    parse: (Profile, Option<Bytes32>, seq<u8>) -> Option<Bytes32>,
    compress: (S, seq<u8>) -> S,
    iv: S,
    digest: S -> Bytes64)

  /** sigprep.Parse passes only a present key, 64 signature bytes and a canonical s. */
  ghost predicate Sound<G(!new), S(!new)>(w: World<G, S>) {
    && Abelian(w.g)
    && forall p, pub, sig :: w.parse(p, pub, sig).Some? ==> pub.Some? && |sig| == 64 && LeValue(w.parse(p, pub, sig).value) < L
  }

  /** R, A and the message, as the caller passed them. */
  function Segments(item: Item): (parts: seq<seq<u8>>)
    requires item.pub.Some? && |item.sig| == 64
  {
    [item.sig[..32], item.pub.value, item.msg]
  }

  /** k = SHA-512(R, A, M) mod L. */
  function Challenge<G(!new), S(!new)>(w: World<G, S>, item: Item): nat
    requires item.pub.Some? && |item.sig| == 64
  {
    LeValue(w.digest(Digest(w.compress, w.iv, Concat(Segments(item))))) % L
  }

  /** [s]B - [k]A, when the item parses and A decodes. */
  function Checked<G(!new), S(!new)>(w: World<G, S>, profile: Profile, item: Item): Option<G>
    requires Sound(w)
  {
    var s := w.parse(profile, item.pub, item.sig);
    if s.None? || w.decode(item.pub.value).None? then None
    else Some(Pair(w.g, LeValue(s.value), -(Challenge(w, item) as int), w.base, w.decode(item.pub.value).value))
  }

  /** The single-item verdict. */
  predicate Verdict<G(!new), S(!new)>(w: World<G, S>, profile: Profile, item: Item)
    requires Sound(w)
  {
    Checked(w, profile, item).Some? && w.encode(Checked(w, profile, item).value) == item.sig[..32]
  }

  /** Messages short enough for a 64-bit byte count. */
  ghost predicate Short(items: seq<Item>) {
    forall i :: 0 <= i < |items| ==> |items[i].msg| < 0x1_0000_0000_0000_0000 - 64
  }

  // ---------------------------------------------------------------- lanes

  /** The lanes below n. */
  function Range(n: nat): (s: set<nat>)
    ensures forall l: nat :: l in s <==> l < n
  {
    if n == 0 then {} else Range(n - 1) + {n - 1}
  }

  ghost predicate Shaped<T>(v: seq<seq<T>>, groups: nat, width: nat) {
    |v| == groups && forall g :: 0 <= g < groups ==> |v[g]| == width
  }

  /** Lane r of a grouped array. */
  function At<T>(v: seq<seq<T>>, width: nat, r: nat): T
    requires width > 0 && r / width < |v| && r % width < |v[r / width]|
  {
    v[r / width][r % width]
  }

  /** SetLane. */
  function Put<T>(v: seq<seq<T>>, width: nat, r: nat, x: T): seq<seq<T>>
    requires width > 0 && r / width < |v| && r % width < |v[r / width]|
  {
    v[r / width := v[r / width][r % width := x]]
  }

  lemma LaneOf(width: nat, groups: nat, r: nat)
    requires width > 0 && r < groups * width
    ensures 0 <= r / width < groups && 0 <= r % width < width
  {
    DivMod(r, width);
    if r / width >= groups { MulMono(groups, r / width, width); }
  }

  lemma SameLane(width: nat, q: nat, r: nat)
    requires width > 0 && q / width == r / width && q % width == r % width
    ensures q == r
  {
    DivMod(q, width);
    DivMod(r, width);
  }

  /** Writing one lane changes that lane and no other. */
  lemma PutAt<T>(v: seq<seq<T>>, groups: nat, width: nat, r: nat, x: T)
    requires Shaped(v, groups, width) && width > 0 && r < groups * width
    ensures 0 <= r / width < groups && 0 <= r % width < width
    ensures Shaped(Put(v, width, r, x), groups, width)
    ensures forall q :: 0 <= q < groups * width ==> 0 <= q / width < groups && 0 <= q % width < width
    ensures forall q :: 0 <= q < groups * width ==> At(Put(v, width, r, x), width, q) == if q == r then x else At(v, width, q)
  {
    LaneOf(width, groups, r);
    forall q | 0 <= q < groups * width
      ensures 0 <= q / width < groups && 0 <= q % width < width
      ensures At(Put(v, width, r, x), width, q) == if q == r then x else At(v, width, q)
    {
      LaneOf(width, groups, q);
      if q != r && q / width == r / width && q % width == r % width { SameLane(width, q, r); }
    }
  }

  lemma AllLanes<T>(v: seq<seq<T>>, groups: nat, width: nat)
    requires Shaped(v, groups, width) && width > 0
    ensures forall q :: 0 <= q < groups * width ==> 0 <= q / width < groups && 0 <= q % width < |v[q / width]|
  {
    forall q | 0 <= q < groups * width
      ensures 0 <= q / width < groups && 0 <= q % width < |v[q / width]|
    {
      LaneOf(width, groups, q);
    }
  }

  // ---------------------------------------------------------------- challenges

  ghost predicate Hashable(items: seq<Item>, live: set<nat>) {
    && Short(items)
    && forall l :: l in live ==> l < |items| && items[l].pub.Some? && |items[l].sig| == 64
  }

  lemma SegmentsFit(item: Item)
    requires item.pub.Some? && |item.sig| == 64 && |item.msg| < 0x1_0000_0000_0000_0000 - 64
    ensures |Segments(item)| == 3 && |Concat(Segments(item))| < 0x1_0000_0000_0000_0000
  {
    ThreeParts(Segments(item));
  }

  /** compactR51ChallengeSegments: the live lanes, packed in order. */
  method CompactSegments(items: seq<Item>, live: set<nat>) returns (segments: seq<seq<seq<u8>>>, lanes: seq<nat>)
    requires Hashable(items, live)
    ensures |segments| == |lanes| <= |items| && Fits(segments)
    ensures forall i :: 0 <= i < |lanes| ==> lanes[i] in live && segments[i] == Segments(items[lanes[i]]) && |segments[i]| == 3
    ensures forall l :: l in live ==> l in lanes
    ensures forall i, j :: 0 <= i < j < |lanes| ==> lanes[i] < lanes[j]
  {
    hide Concat;
    segments, lanes := [], [];
    for lane := 0 to |items|
      invariant |segments| == |lanes| <= lane
      invariant forall i :: 0 <= i < |lanes| ==> lanes[i] in live && lanes[i] < lane
      invariant forall i :: 0 <= i < |lanes| ==> segments[i] == Segments(items[lanes[i]]) && |segments[i]| == 3
      invariant Fits(segments)
      invariant forall l :: l in live && l < lane ==> l in lanes
      invariant forall i, j :: 0 <= i < j < |lanes| ==> lanes[i] < lanes[j]
    {
      if lane in live {
        SegmentsFit(items[lane]);
        segments, lanes := segments + [Segments(items[lane])], lanes + [lane];
      }
    }
  }

  /** reduceR51NativeChallengesX8: hash and reduce the packed lanes, then put each result back in its own
      lane; the two widths hash the same blocks. */
  method ReduceChallenges<G(!new), S(!new)>(w: World<G, S>, items: seq<Item>, live: set<nat>, wideHash: bool) returns (k: seq<Bytes32>)
    requires Hashable(items, live) && |items| <= 8
    ensures |k| == 8 && forall l :: l in live ==> l < 8 && LeValue(k[l]) == Challenge(w, items[l])
  {
    hide Concat, LeValue, Digest;
    var segments, lanes := CompactSegments(items, live);
    var states;
    if wideHash {
      states := SumGroup3(w.compress, w.iv, segments);
    } else {
      states := SumBatch(w.compress, w.iv, segments, 4, false);
    }
    k := seq(8, _ => Zero32);
    for i := 0 to |lanes|
      invariant |k| == 8
      invariant forall j :: 0 <= j < i ==> lanes[j] < 8 && LeValue(k[lanes[j]]) == Challenge(w, items[lanes[j]])
    {
      var reduced := ReduceUniformScalar(w.digest(states[i]));
      k := k[lanes[i] := reduced];
    }
  }
}
