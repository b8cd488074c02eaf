/** Decoding the public keys of a chunk (ed25519/backend_r51batchq.go:731-921): cached points go straight to
    their lanes, misses are packed into full decode groups and scattered back. */
module BatchPrepare {
  import opened Bytes
  import opened ShaFeed
  import opened BatchWorld

  /** A decoded-point cache entry: the raw bytes and the point they decode to. */
  datatype Entry<+G> = Entry(raw: Bytes32, point: G)

  /** Entries hold what decoding their own bytes gives. */
  ghost predicate Honest<G(!new), S(!new)>(w: World<G, S>, entries: seq<Option<Entry<G>>>) {
    forall i :: 0 <= i < |entries| && entries[i].Some? ==> w.decode(entries[i].value.raw) == Some(entries[i].value.point)
  }

  /** The lanes that go on to the equation. */
  ghost predicate Usable<G(!new), S(!new)>(w: World<G, S>, profile: Profile, item: Item)
    requires Sound(w)
  {
    w.parse(profile, item.pub, item.sig).Some? && w.decode(item.pub.value).Some?
  }

  /** Lane r of a chunk is ready: its point and its scalar are in place. */
  ghost predicate Ready<G(!new), S(!new)>(w: World<G, S>, profile: Profile, item: Item, point: G, scalar: Bytes32)
    requires Sound(w)
  {
    && Usable(w, profile, item)
    && point == w.decode(item.pub.value).value
    && scalar == w.parse(profile, item.pub, item.sig).value
  }

  /** ExperimentalIFMADecode: decode the active lanes. */
  method DecodeLanes<G(!new), S(!new)>(w: World<G, S>, bytes: seq<Bytes32>, active: set<nat>) returns (points: seq<G>, valid: set<nat>)
    ensures |points| == |bytes|
    ensures valid == set l | l in active && l < |bytes| && w.decode(bytes[l]).Some?
    ensures forall l :: l in valid ==> points[l] == w.decode(bytes[l]).value
    ensures forall l :: 0 <= l < |bytes| && l !in valid ==> points[l] == w.g.zero
  {
    points, valid := [], {};
    for l := 0 to |bytes|
      invariant |points| == l
      invariant valid == set i | i in active && i < l && w.decode(bytes[i]).Some?
      invariant forall i :: i in valid ==> points[i] == w.decode(bytes[i]).value
      invariant forall i :: 0 <= i < l && i !in valid ==> points[i] == w.g.zero
    {
      if l in active && w.decode(bytes[l]).Some? {
        points, valid := points + [w.decode(bytes[l]).value], valid + {l};
      } else {
        points := points + [w.g.zero];
      }
    }
  }

  /** The packed misses: distinct lanes of the chunk, each with its own key. */
  ghost predicate Packed(chunk: seq<Item>, bytes: seq<Bytes32>, lanes: seq<nat>, count: nat) {
    && count <= |bytes| && count <= |lanes|
    && (forall i :: 0 <= i < count ==> lanes[i] < |chunk| && chunk[lanes[i]].pub == Some(bytes[i]))
    && (forall i, j :: 0 <= i < j < count ==> lanes[i] < lanes[j])
  }

  /** decodePreparedAMisses and decodePreparedAMissesX8. */
  method DecodeMisses<G(!new), S(!new)>(w: World<G, S>, width: nat, groups: nat, table: seq<seq<G>>, ghost chunk: seq<Item>,
                                        bytes: seq<Bytes32>, lanes: seq<nat>, count: nat)
    returns (out: seq<seq<G>>, live: set<nat>)
    requires width > 0 && Shaped(table, groups, width) && |chunk| <= groups * width && |bytes| == width
    requires Packed(chunk, bytes, lanes, count)
    ensures Shaped(out, groups, width)
    ensures forall q :: 0 <= q < groups * width ==> 0 <= q / width < groups && 0 <= q % width < width
    ensures forall r :: r in live <==> r in lanes[..count] && w.decode(chunk[r].pub.value).Some?
    ensures forall r :: r in live ==> At(out, width, r) == w.decode(chunk[r].pub.value).value
    ensures forall r :: 0 <= r < groups * width && r !in live ==> At(out, width, r) == At(table, width, r)
  {
    AllLanes(table, groups, width);
    var points, valid := DecodeLanes(w, bytes, Range(count));
    out, live := table, {};
    for packed := 0 to count
      invariant Shaped(out, groups, width)
      invariant forall q :: 0 <= q < groups * width ==> 0 <= q / width < groups && 0 <= q % width < width
      invariant forall r :: r in live ==> r in lanes[..packed] && w.decode(chunk[r].pub.value).Some?
      invariant forall i :: 0 <= i < packed && w.decode(bytes[i]).Some? ==> lanes[i] in live
      invariant forall r :: r in live ==> At(out, width, r) == w.decode(chunk[r].pub.value).value
      invariant forall r :: 0 <= r < groups * width && r !in live ==> At(out, width, r) == At(table, width, r)
    {
      if packed in valid {
        var relative := lanes[packed];
        PutAt(out, groups, width, relative, points[packed]);
        out := Put(out, width, relative, points[packed]);
        live := live + {relative};
        assert lanes[..packed + 1][packed] == relative;
      }
      assert lanes[..packed] <= lanes[..packed + 1];
    }
  }

  /** Progress of a preparation pass over lanes lo..next of the chunk. */
  ghost predicate Swept<G(!new), S(!new)>(w: World<G, S>, profile: Profile, chunk: seq<Item>, width: nat, groups: nat, table: seq<seq<G>>,
                                          scalars: seq<Bytes32>, lo: nat, next: nat, live: set<nat>, pending: seq<nat>)
    requires Sound(w)
  {
    && width > 0 && Shaped(table, groups, width) && next <= |chunk| <= groups * width && |chunk| <= |scalars|
    && (forall q :: 0 <= q < groups * width ==> 0 <= q / width < groups && 0 <= q % width < width)
    && (forall r :: r in live ==> lo <= r < next && Ready(w, profile, chunk[r], At(table, width, r), scalars[r]))
    && (forall r :: r in pending ==> lo <= r < next && r !in live && w.parse(profile, chunk[r].pub, chunk[r].sig) == Some(scalars[r]))
    && (forall r :: lo <= r < next && Usable(w, profile, chunk[r]) ==> r in live || r in pending)
  }

  /** Flushing the packed misses settles them all. */
  method Flush<G(!new), S(!new)>(w: World<G, S>, profile: Profile, ghost chunk: seq<Item>, width: nat, groups: nat, table: seq<seq<G>>,
                                 ghost scalars: seq<Bytes32>, ghost lo: nat, ghost next: nat, live: set<nat>,
                                 bytes: seq<Bytes32>, lanes: seq<nat>, count: nat)
    returns (out: seq<seq<G>>, newLive: set<nat>)
    requires Sound(w) && |bytes| == width && Packed(chunk, bytes, lanes, count)
    requires Swept(w, profile, chunk, width, groups, table, scalars, lo, next, live, lanes[..count])
    ensures Swept(w, profile, chunk, width, groups, out, scalars, lo, next, newLive, [])
    ensures forall r :: 0 <= r < groups * width && !(lo <= r < next) ==> At(out, width, r) == At(table, width, r)
  {
    hide Sound;
    var decodedLive;
    out, decodedLive := DecodeMisses(w, width, groups, table, chunk, bytes, lanes, count);
    newLive := live + decodedLive;
  }

  /** prepareDecodedAChunk (width four over the whole chunk) and the two loops of prepareDecodedAWideChunk
      (width eight over the full groups, width four over the tail). */
  method PrepareRange<G(!new), S(!new)>(w: World<G, S>, profile: Profile, chunk: seq<Item>, decoded: Option<seq<Option<Entry<G>>>>,
                                        lo: nat, hi: nat, width: nat, groups: nat, table: seq<seq<G>>, scalars0: seq<Bytes32>)
    returns (out: seq<seq<G>>, scalars: seq<Bytes32>, live: set<nat>)
    requires Sound(w) && width > 0 && Shaped(table, groups, width) && |chunk| <= groups * width && |chunk| <= |scalars0|
    requires lo <= hi <= |chunk| && (decoded.Some? ==> |decoded.value| == |chunk| && Honest(w, decoded.value))
    ensures Shaped(out, groups, width) && |scalars| == |scalars0|
    ensures forall r :: r in live <==> lo <= r < hi && Usable(w, profile, chunk[r])
    ensures forall q :: 0 <= q < groups * width ==> 0 <= q / width < groups && 0 <= q % width < width
    ensures forall r :: r in live ==> Ready(w, profile, chunk[r], At(out, width, r), scalars[r])
    ensures forall r :: 0 <= r < groups * width && !(lo <= r < hi) ==> At(out, width, r) == At(table, width, r)
    ensures forall r :: 0 <= r < |scalars| && !(lo <= r < hi) ==> scalars[r] == scalars0[r]
  {
    AllLanes(table, groups, width);
    out, scalars, live := table, scalars0, {};
    var bytes: seq<Bytes32> := seq(width, _ => Zero32);
    var lanes: seq<nat> := seq(width, _ => 0);
    var missCount: nat := 0;
    for relative := lo to hi
      invariant |scalars| == |scalars0| && |bytes| == |lanes| == width && missCount < width
      invariant Packed(chunk, bytes, lanes, missCount)
      invariant Swept(w, profile, chunk, width, groups, out, scalars, lo, relative, live, lanes[..missCount])
      invariant forall r :: 0 <= r < groups * width && !(lo <= r < relative) ==> At(out, width, r) == At(table, width, r)
      invariant forall r :: 0 <= r < |scalars| && !(lo <= r < relative) ==> scalars[r] == scalars0[r]
    {
      out, scalars, live, bytes, lanes, missCount :=
        PrepareOne(w, profile, chunk, decoded, lo, relative, width, groups, out, scalars, live, bytes, lanes, missCount);
    }
    if missCount != 0 {
      out, live := Flush(w, profile, chunk, width, groups, out, scalars, lo, hi, live, bytes, lanes, missCount);
    } else {
      assert lanes[..missCount] == [];
    }
  }

  /** One lane: rejected, hit, or packed as a miss; a full pack is decoded at once. */
  method PrepareOne<G(!new), S(!new)>(w: World<G, S>, profile: Profile, chunk: seq<Item>, decoded: Option<seq<Option<Entry<G>>>>,
                                      ghost lo: nat, relative: nat, width: nat, groups: nat, table: seq<seq<G>>, scalars0: seq<Bytes32>,
                                      live0: set<nat>, bytes0: seq<Bytes32>, lanes0: seq<nat>, misses: nat)
    returns (out: seq<seq<G>>, scalars: seq<Bytes32>, live: set<nat>, bytes: seq<Bytes32>, lanes: seq<nat>, missCount: nat)
    requires Sound(w) && lo <= relative < |chunk| && |bytes0| == |lanes0| == width && misses < width
    requires decoded.Some? ==> |decoded.value| == |chunk| && Honest(w, decoded.value)
    requires Packed(chunk, bytes0, lanes0, misses)
    requires Swept(w, profile, chunk, width, groups, table, scalars0, lo, relative, live0, lanes0[..misses])
    ensures |scalars| == |scalars0| && |bytes| == |lanes| == width && missCount < width
    ensures Packed(chunk, bytes, lanes, missCount)
    ensures Swept(w, profile, chunk, width, groups, out, scalars, lo, relative + 1, live, lanes[..missCount])
    ensures forall r :: 0 <= r < groups * width && !(lo <= r < relative + 1) ==> At(out, width, r) == At(table, width, r)
    ensures forall r :: 0 <= r < |scalars| && r != relative ==> scalars[r] == scalars0[r]
  {
    hide Sound, Usable, Honest, Swept, Packed, At, Put;
    SweptShape(w, profile, chunk, width, groups, table, scalars0, lo, relative, live0, lanes0[..misses]);
    out, scalars, live, bytes, lanes, missCount := table, scalars0, live0, bytes0, lanes0, misses;
    var item := chunk[relative];
    var coefficient := w.parse(profile, item.pub, item.sig);
    if coefficient.None? {
      SweptRejected(w, profile, chunk, width, groups, table, scalars, lo, relative, live, lanes[..misses]);
      return;
    }
    scalars := scalars[relative := coefficient.value];
    PresentKey(w, profile, item);
    if decoded.Some? && decoded.value[relative].Some? && decoded.value[relative].value.raw == item.pub.value {
      var point := decoded.value[relative].value.point;
      HonestHit(w, decoded.value, relative);
      PutAt(out, groups, width, relative, point);
      out := Put(out, width, relative, point);
      live := live + {relative};
      SweptHit(w, profile, chunk, width, groups, table, scalars0, lo, relative, live0, lanes[..misses], point);
      return;
    }
    bytes, lanes := bytes[missCount := item.pub.value], lanes[missCount := relative];
    SweptMiss(w, profile, chunk, width, groups, table, scalars0, lo, relative, live0, lanes0[..misses]);
    assert lanes[..missCount + 1] == lanes0[..misses] + [relative];
    PackedMiss(w, profile, chunk, width, groups, table, scalars0, lo, relative, live0, bytes0, lanes0, misses);
    missCount := missCount + 1;
    if missCount == width {
      out, live := Flush(w, profile, chunk, width, groups, out, scalars, lo, relative + 1, live, bytes, lanes, missCount);
      missCount := 0;
      PackedNone(chunk, bytes, lanes);
      assert lanes[..missCount] == [];
    }
  }

  lemma SweptShape<G(!new), S(!new)>(w: World<G, S>, profile: Profile, chunk: seq<Item>, width: nat, groups: nat, table: seq<seq<G>>,
                                     scalars: seq<Bytes32>, lo: nat, next: nat, live: set<nat>, pending: seq<nat>)
    requires Sound(w) && Swept(w, profile, chunk, width, groups, table, scalars, lo, next, live, pending)
    ensures width > 0 && Shaped(table, groups, width) && |chunk| <= groups * width && |chunk| <= |scalars|
    ensures forall q :: 0 <= q < groups * width ==> 0 <= q / width < groups && 0 <= q % width < width
  {
    hide Sound;
  }

  lemma PackedNone(chunk: seq<Item>, bytes: seq<Bytes32>, lanes: seq<nat>)
    ensures Packed(chunk, bytes, lanes, 0)
  {}

  lemma PackedMiss<G(!new), S(!new)>(w: World<G, S>, profile: Profile, chunk: seq<Item>, width: nat, groups: nat, table: seq<seq<G>>,
                                     scalars: seq<Bytes32>, lo: nat, next: nat, live: set<nat>, bytes: seq<Bytes32>, lanes: seq<nat>, count: nat)
    requires Sound(w) && |bytes| == |lanes| == width && count < width && Packed(chunk, bytes, lanes, count)
    requires Swept(w, profile, chunk, width, groups, table, scalars, lo, next, live, lanes[..count])
    requires next < |chunk| && chunk[next].pub.Some?
    ensures Packed(chunk, bytes[count := chunk[next].pub.value], lanes[count := next], count + 1)
  {
    hide Sound;
    assert forall i :: 0 <= i < count ==> lanes[i] in lanes[..count];
  }

  lemma PresentKey<G(!new), S(!new)>(w: World<G, S>, profile: Profile, item: Item)
    requires Sound(w) && w.parse(profile, item.pub, item.sig).Some?
    ensures item.pub.Some? && |item.sig| == 64
  {}

  lemma HonestHit<G(!new), S(!new)>(w: World<G, S>, entries: seq<Option<Entry<G>>>, i: nat)
    requires Honest(w, entries) && i < |entries| && entries[i].Some?
    ensures w.decode(entries[i].value.raw) == Some(entries[i].value.point)
  {}

  lemma SweptRejected<G(!new), S(!new)>(w: World<G, S>, profile: Profile, chunk: seq<Item>, width: nat, groups: nat, table: seq<seq<G>>,
                                        scalars: seq<Bytes32>, lo: nat, next: nat, live: set<nat>, pending: seq<nat>)
    requires Sound(w) && Swept(w, profile, chunk, width, groups, table, scalars, lo, next, live, pending)
    requires lo <= next < |chunk| && w.parse(profile, chunk[next].pub, chunk[next].sig).None?
    ensures Swept(w, profile, chunk, width, groups, table, scalars, lo, next + 1, live, pending)
  {
    hide Sound;
  }

  lemma SweptHit<G(!new), S(!new)>(w: World<G, S>, profile: Profile, chunk: seq<Item>, width: nat, groups: nat, table: seq<seq<G>>,
                                   scalars: seq<Bytes32>, lo: nat, next: nat, live: set<nat>, pending: seq<nat>, point: G)
    requires Sound(w) && Swept(w, profile, chunk, width, groups, table, scalars, lo, next, live, pending)
    requires lo <= next < |chunk| && w.parse(profile, chunk[next].pub, chunk[next].sig).Some? && chunk[next].pub.Some?
    requires w.decode(chunk[next].pub.value) == Some(point)
    ensures Swept(w, profile, chunk, width, groups, Put(table, width, next, point),
                  scalars[next := w.parse(profile, chunk[next].pub, chunk[next].sig).value], lo, next + 1, live + {next}, pending)
  {
    hide Sound;
    PutAt(table, groups, width, next, point);
    hide At, Put, Shaped;
  }

  lemma SweptMiss<G(!new), S(!new)>(w: World<G, S>, profile: Profile, chunk: seq<Item>, width: nat, groups: nat, table: seq<seq<G>>,
                                    scalars: seq<Bytes32>, lo: nat, next: nat, live: set<nat>, pending: seq<nat>)
    requires Sound(w) && Swept(w, profile, chunk, width, groups, table, scalars, lo, next, live, pending)
    requires lo <= next < |chunk| && w.parse(profile, chunk[next].pub, chunk[next].sig).Some?
    ensures Swept(w, profile, chunk, width, groups, table, scalars[next := w.parse(profile, chunk[next].pub, chunk[next].sig).value],
                  lo, next + 1, live, pending + [next])
  {
    hide Sound, At;
  }
}
