/** Finalizing a chunk (ed25519/backend_r51batchq.go:379-462): encode every active result and compare it with
    the signature's R, in groups of four or of eight, or hand everything to the y-first comparator. */
module BatchFinalize {
  import opened Arith
  import opened Bytes
  import opened BatchWorld
  import opened BatchPrepare
  import opened BatchStore

  /** The result of lane r, if any, encodes to the signature's R. */
  ghost predicate Accepts<G(!new), S(!new)>(w: World<G, S>, chunk: seq<Item>, st: Store<G>, r: nat)
    requires Formed(st) && r < |chunk| && r < CHUNK
  {
    ActiveAt(st, r) && |chunk[r].sig| == 64 && w.encode(ResultAt(st, r)) == chunk[r].sig[..32]
  }

  /** After evaluation that is the single-item verdict. */
  lemma AcceptsVerdict<G(!new), S(!new)>(w: World<G, S>, profile: Profile, chunk: seq<Item>, st: Store<G>, r: nat)
    requires Sound(w) && Evaluated(w, profile, chunk, st, |chunk|) && r < |chunk|
    ensures Accepts(w, chunk, st, r) <==> Verdict(w, profile, chunk[r])
    ensures ActiveAt(st, r) ==> |chunk[r].sig| == 64
    ensures Verdict(w, profile, chunk[r]) ==> Usable(w, profile, chunk[r])
  {}

  /** ExperimentalIFMABatchEncodeWorkspace.Encode: zeros in the inactive lanes. */
  method EncodeLanes<G(!new), S(!new)>(w: World<G, S>, points: seq<G>, active: set<nat>) returns (encoded: seq<Bytes32>)
    ensures |encoded| == |points|
    ensures forall l :: 0 <= l < |points| ==> encoded[l] == if l in active then w.encode(points[l]) else Zero32
  {
    encoded := [];
    for l := 0 to |points|
      invariant |encoded| == l
      invariant forall i :: 0 <= i < l ==> encoded[i] == if i in active then w.encode(points[i]) else Zero32
    {
      encoded := encoded + [if l in active then w.encode(points[l]) else Zero32];
    }
  }

  /** SetX4Halves of two groups of four; the missing last one counts as empty. */
  function JoinedMask(low: set<nat>, high: set<nat>): (s: set<nat>)
    ensures forall l: nat :: l in s <==> (l < 4 && l in low) || (4 <= l < 8 && l - 4 in high)
  {
    set l | l in Range(8) && (if l < 4 then l in low else l - 4 in high)
  }

  /** Group g as the wide encoder sees it: stored whole, or joined from its halves. */
  ghost predicate JoinedGroup<G>(st: Store<G>, groups: nat, g: nat, points: seq<G>, mask: set<nat>)
    requires Formed(st) && g < GROUPS8 && groups <= GROUPS4
  {
    if g in st.direct then points == st.pointsX8[g] && mask == st.activeX8[g]
    else
      && |points| == 8 && points[..4] == st.points[2 * g]
      && (2 * g + 1 < groups ==> points[4..] == st.points[2 * g + 1])
      && mask == JoinedMask(st.active[2 * g], if 2 * g + 1 < groups then st.active[2 * g + 1] else {})
  }

  method JoinOne<G(!new), S(!new)>(w: World<G, S>, st: Store<G>, groups: nat, group: nat) returns (points: seq<G>, mask: set<nat>)
    requires Formed(st) && groups <= GROUPS4 && group < (groups + 1) / 2
    ensures |points| == 8 && JoinedGroup(st, groups, group, points, mask)
  {
    hide JoinedMask;
    if group in st.direct {
      return st.pointsX8[group], st.activeX8[group];
    }
    var low, high := 2 * group, 2 * group + 1;
    if high < groups {
      points, mask := st.points[low] + st.points[high], JoinedMask(st.active[low], st.active[high]);
    } else {
      points, mask := st.points[low] + seq(4, _ => w.g.zero), JoinedMask(st.active[low], {});
    }
  }

  /** Groups not stored whole are joined from their halves. */
  method JoinGroups<G(!new), S(!new)>(w: World<G, S>, st: Store<G>, groups: nat) returns (pointsX8: seq<seq<G>>, activeX8: seq<set<nat>>)
    requires Formed(st) && st.joining && groups <= GROUPS4
    ensures Shaped(pointsX8, GROUPS8, 8) && |activeX8| == GROUPS8
    ensures forall r: nat :: r < CHUNK && r / 4 < groups ==>
      (r % 8 in activeX8[r / 8] <==> ActiveAt(st, r)) && (ActiveAt(st, r) ==> pointsX8[r / 8][r % 8] == ResultAt(st, r))
  {
    hide ActiveAt, ResultAt, Direct, JoinedGroup;
    pointsX8, activeX8 := st.pointsX8, st.activeX8;
    for group := 0 to (groups + 1) / 2
      invariant Shaped(pointsX8, GROUPS8, 8) && |activeX8| == GROUPS8
      invariant forall g: nat :: g < group ==> JoinedGroup(st, groups, g, pointsX8[g], activeX8[g])
    {
      var points, mask := JoinOne(w, st, groups, group);
      pointsX8, activeX8 := pointsX8[group := points], activeX8[group := mask];
    }
    JoinedLanes(st, groups, pointsX8, activeX8);
  }

  lemma JoinedLanes<G>(st: Store<G>, groups: nat, pointsX8: seq<seq<G>>, activeX8: seq<set<nat>>)
    requires Formed(st) && st.joining && groups <= GROUPS4 && Shaped(pointsX8, GROUPS8, 8) && |activeX8| == GROUPS8
    requires forall g: nat :: g < (groups + 1) / 2 ==> JoinedGroup(st, groups, g, pointsX8[g], activeX8[g])
    ensures forall r: nat :: r < CHUNK && r / 4 < groups ==>
      (r % 8 in activeX8[r / 8] <==> ActiveAt(st, r)) && (ActiveAt(st, r) ==> pointsX8[r / 8][r % 8] == ResultAt(st, r))
  {
    forall r: nat | r < CHUNK && r / 4 < groups
      ensures r % 8 in activeX8[r / 8] <==> ActiveAt(st, r)
      ensures ActiveAt(st, r) ==> pointsX8[r / 8][r % 8] == ResultAt(st, r)
    {
      var g := r / 8;
      assert JoinedGroup(st, groups, g, pointsX8[g], activeX8[g]);
      if g !in st.direct {
        if r % 8 < 4 {
          assert r / 4 == 2 * g && r % 4 == r % 8 && pointsX8[g][..4][r % 8] == pointsX8[g][r % 8];
        } else {
          assert r / 4 == 2 * g + 1 && r % 4 == r % 8 - 4 && pointsX8[g][4..][r % 8 - 4] == pointsX8[g][r % 8];
        }
      }
    }
  }

  /** Lane r of a chunk is lane LaneIx of group GroupIx. */
  function GroupIx(r: nat, width: nat): nat
    requires width > 0
  {
    r / width
  }

  function LaneIx(r: nat, width: nat): (l: nat)
    requires width > 0
    ensures l < width
  {
    r % width
  }

  /** Lanes of the chunk have a place in the grouped arrays, and active ones a full signature. */
  ghost predicate Grouped<G>(chunk: seq<Item>, points: seq<seq<G>>, active: seq<set<nat>>, width: nat, groups: nat) {
    && width > 0 && |points| == |active| && groups <= |points|
    && (forall r: nat :: r < |chunk| ==> GroupIx(r, width) < groups)
    && (forall g: nat :: g < groups ==> |points[g]| == width)
    && (forall r: nat :: r < |chunk| && LaneIx(r, width) in active[GroupIx(r, width)] ==> |chunk[r].sig| == 64)
  }

  /** The comparison of lane r in a grouped array. */
  ghost predicate Compares<G(!new), S(!new)>(w: World<G, S>, chunk: seq<Item>, points: seq<seq<G>>, active: seq<set<nat>>, width: nat, groups: nat, r: nat)
    requires Grouped(chunk, points, active, width, groups) && r < |chunk|
  {
    LaneIx(r, width) in active[GroupIx(r, width)] && w.encode(points[GroupIx(r, width)][LaneIx(r, width)]) == chunk[r].sig[..32]
  }

  /** The literal comparison over groups of the given width. */
  method CompareGroups<G(!new), S(!new)>(w: World<G, S>, chunk: seq<Item>, points: seq<seq<G>>, active: seq<set<nat>>, width: nat, groups: nat,
                                         ok: array<bool>, offset: nat)
    requires Grouped(chunk, points, active, width, groups)
    requires offset + |chunk| <= ok.Length && forall i :: offset <= i < offset + |chunk| ==> !ok[i]
    modifies ok
    ensures forall i :: 0 <= i < ok.Length && !(offset <= i < offset + |chunk|) ==> ok[i] == old(ok[i])
    ensures forall r: nat :: r < |chunk| ==> (ok[offset + r] <==> Compares(w, chunk, points, active, width, groups, r))
  {
    hide Compares, GroupIx, LaneIx;
    for group := 0 to groups
      invariant forall i :: 0 <= i < ok.Length && !(offset <= i < offset + |chunk|) ==> ok[i] == old(ok[i])
      invariant forall r: nat :: r < |chunk| && GroupIx(r, width) < group ==> (ok[offset + r] <==> Compares(w, chunk, points, active, width, groups, r))
      invariant forall r: nat :: r < |chunk| && GroupIx(r, width) >= group ==> !ok[offset + r]
    {
      CompareGroup(w, chunk, points, active, width, groups, group, ok, offset);
    }
  }

  /** One group. */
  method CompareGroup<G(!new), S(!new)>(w: World<G, S>, chunk: seq<Item>, points: seq<seq<G>>, active: seq<set<nat>>, width: nat,
                                        ghost groups: nat, group: nat, ok: array<bool>, offset: nat)
    requires Grouped(chunk, points, active, width, groups) && group < groups && offset + |chunk| <= ok.Length
    requires forall r: nat :: r < |chunk| && GroupIx(r, width) == group ==> !ok[offset + r]
    modifies ok
    ensures forall i :: 0 <= i < ok.Length && !(offset <= i < offset + |chunk|) ==> ok[i] == old(ok[i])
    ensures forall r: nat :: r < |chunk| && GroupIx(r, width) != group ==> ok[offset + r] == old(ok[offset + r])
    ensures forall r: nat :: r < |chunk| && GroupIx(r, width) == group ==> (ok[offset + r] <==> Compares(w, chunk, points, active, width, groups, r))
  {
    hide Compares, GroupIx, LaneIx;
    var encoded := EncodeLanes(w, points[group], active[group]);
    for lane := 0 to width
      invariant forall i :: 0 <= i < ok.Length && !(offset <= i < offset + |chunk|) ==> ok[i] == old(ok[i])
      invariant forall r: nat :: r < |chunk| && GroupIx(r, width) != group ==> ok[offset + r] == old(ok[offset + r])
      invariant forall r: nat :: r < |chunk| && GroupIx(r, width) == group && LaneIx(r, width) < lane ==>
        (ok[offset + r] <==> Compares(w, chunk, points, active, width, groups, r))
      invariant forall r: nat :: r < |chunk| && GroupIx(r, width) == group && LaneIx(r, width) >= lane ==> !ok[offset + r]
    {
      var relative := group * width + lane;
      LaneIndex(group, width, lane);
      if relative < |chunk| { ComparesAt(w, chunk, points, active, width, groups, relative); }
      if relative >= |chunk| || lane !in active[group] {
        continue;
      }
      ok[offset + relative] := encoded[lane] == chunk[relative].sig[..32];
    }
  }

  lemma ComparesAt<G(!new), S(!new)>(w: World<G, S>, chunk: seq<Item>, points: seq<seq<G>>, active: seq<set<nat>>, width: nat, groups: nat, r: nat)
    requires Grouped(chunk, points, active, width, groups) && r < |chunk|
    ensures LaneIx(r, width) in active[GroupIx(r, width)] ==> |chunk[r].sig| == 64
    ensures Compares(w, chunk, points, active, width, groups, r)
       <==> LaneIx(r, width) in active[GroupIx(r, width)] && w.encode(points[GroupIx(r, width)][LaneIx(r, width)]) == chunk[r].sig[..32]
  {
    hide GroupIx, LaneIx;
  }

  lemma LaneIndex(group: nat, width: nat, lane: nat)
    requires lane < width
    ensures GroupIx(group * width + lane, width) == group && LaneIx(group * width + lane, width) == lane
    ensures forall r: nat :: GroupIx(r, width) == group && LaneIx(r, width) == lane ==> r == group * width + lane
  {
    DivUnique(group * width + lane, width, group, lane);
    forall r: nat | GroupIx(r, width) == group && LaneIx(r, width) == lane ensures r == group * width + lane {
      SameLane(width, r, group * width + lane);
    }
  }

  /** CompareCompressedYFirst over groups of four, then every verdict from its mask. */
  method CompareYFirst<G(!new), S(!new)>(w: World<G, S>, chunk: seq<Item>, st: Store<G>, ok: array<bool>, offset: nat)
    requires Formed(st) && |chunk| <= CHUNK && offset + |chunk| <= ok.Length
    requires forall r: nat :: r < |chunk| && r % 4 in st.active[r / 4] ==> |chunk[r].sig| == 64
    modifies ok
    ensures forall i :: 0 <= i < ok.Length && !(offset <= i < offset + |chunk|) ==> ok[i] == old(ok[i])
    ensures forall r: nat :: r < |chunk| ==>
      (ok[offset + r] <==> r % 4 in st.active[r / 4] && w.encode(st.points[r / 4][r % 4]) == chunk[r].sig[..32])
  {
    for relative := 0 to |chunk|
      invariant forall i :: 0 <= i < ok.Length && !(offset <= i < offset + relative) ==> ok[i] == old(ok[i])
      invariant forall r: nat :: r < relative ==>
        (ok[offset + r] <==> r % 4 in st.active[r / 4] && w.encode(st.points[r / 4][r % 4]) == chunk[r].sig[..32])
    {
      var encoded := EncodeLanes(w, st.points[relative / 4], st.active[relative / 4]);
      ok[offset + relative] := relative % 4 in st.active[relative / 4] && encoded[relative % 4] == chunk[relative].sig[..32];
    }
  }

  /** The literal finalizer, in whichever width the chunk uses. */
  method Literal<G(!new), S(!new)>(w: World<G, S>, chunk: seq<Item>, st: Store<G>, ok: array<bool>, offset: nat)
    requires Formed(st) && |chunk| <= CHUNK && offset + |chunk| <= ok.Length && forall i :: offset <= i < offset + |chunk| ==> !ok[i]
    requires forall r: nat :: r < |chunk| && ActiveAt(st, r) ==> |chunk[r].sig| == 64
    requires !st.joining ==> st.direct == {}
    modifies ok
    ensures forall i :: 0 <= i < ok.Length && !(offset <= i < offset + |chunk|) ==> ok[i] == old(ok[i])
    ensures forall r: nat :: r < |chunk| ==> (ok[offset + r] <==> Accepts(w, chunk, st, r))
  {
    hide ActiveAt, ResultAt, Direct;
    var groups := (|chunk| + 3) / 4;
    if st.joining {
      var pointsX8, activeX8 := JoinGroups(w, st, groups);
      CompareGroups(w, chunk, pointsX8, activeX8, 8, (groups + 1) / 2, ok, offset);
      assert forall r: nat :: r < |chunk| ==> (Compares(w, chunk, pointsX8, activeX8, 8, (groups + 1) / 2, r) <==> Accepts(w, chunk, st, r));
    } else {
      NotJoined(st);
      CompareGroups(w, chunk, st.points, st.active, 4, groups, ok, offset);
      assert forall r: nat :: r < |chunk| ==> (Compares(w, chunk, st.points, st.active, 4, groups, r) <==> Accepts(w, chunk, st, r));
    }
  }

  lemma NotJoined<G>(st: Store<G>)
    requires Formed(st) && !st.joining
    ensures forall r: nat :: r < CHUNK ==> (ActiveAt(st, r) <==> r % 4 in st.active[r / 4]) && ResultAt(st, r) == st.points[r / 4][r % 4]
  {}

  /** The y-first finalizer misses the results stored whole. */
  method YFirst<G(!new), S(!new)>(w: World<G, S>, profile: Profile, chunk: seq<Item>, st: Store<G>, ok: array<bool>, offset: nat)
    requires Sound(w) && Evaluated(w, profile, chunk, st, |chunk|) && offset + |chunk| <= ok.Length
    requires forall r: nat :: r < |chunk| && ActiveAt(st, r) ==> |chunk[r].sig| == 64
    modifies ok
    ensures forall i :: 0 <= i < ok.Length && !(offset <= i < offset + |chunk|) ==> ok[i] == old(ok[i])
    ensures forall r: nat :: r < |chunk| ==> (ok[offset + r] <==> Accepts(w, chunk, st, r) && !Direct(st, r))
  {
    hide Sound, Checked, Usable, Evaluated;
    YFirstReads(w, profile, chunk, st);
    CompareYFirst(w, chunk, st, ok, offset);
  }

  /** What the y-first comparator finds in the four-lane groups. */
  lemma YFirstReads<G(!new), S(!new)>(w: World<G, S>, profile: Profile, chunk: seq<Item>, st: Store<G>)
    requires Sound(w) && Evaluated(w, profile, chunk, st, |chunk|)
    ensures Formed(st) && |chunk| <= CHUNK
    ensures forall r: nat :: r < |chunk| ==> (r % 4 in st.active[r / 4] <==> ActiveAt(st, r) && !Direct(st, r))
  {
    hide Sound, Checked, Usable;
  }
}
