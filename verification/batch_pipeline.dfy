/** The batch verifier over chunks of 64 signatures: prepare, evaluate group by group, finalize
    (ed25519/backend_r51batchq.go:256-512, 731-1066). */
module BatchPipeline {
  import opened Bytes
  import opened ShaFeed
  import opened BatchWorld
  import opened BatchPrepare
  import opened BatchStore
  import opened BatchEvaluate
  import opened BatchFinalize

  const X8_MIN_COUNT: nat := 16

  lemma SolvedSlice<G(!new), S(!new)>(w: World<G, S>, profile: Profile, chunk: seq<Item>, relative: nat, count: nat, out: seq<G>, usable: set<nat>)
    requires Sound(w) && relative + count <= |chunk| && (count == 8 || relative + count == |chunk|) && count <= 8
    requires Solved(w, profile, chunk[relative..relative + count], 0, out, usable)
    ensures Solved(w, profile, chunk, relative, out, usable)
  {
    hide Usable, Checked, Sound;
    var items := chunk[relative..relative + count];
    forall l: nat | l < count ensures items[l] == chunk[relative + l] {}
  }

  /** No usable lane in the group at relative. */
  lemma NoneUsable<G(!new), S(!new)>(w: World<G, S>, profile: Profile, chunk: seq<Item>, relative: nat, count: nat, live: set<nat>)
    requires Sound(w) && relative + count <= |chunk| && (count == 8 || relative + count == |chunk|) && count <= 8
    requires GroupLive(w, profile, chunk[relative..relative + count], live) && live == {}
    ensures forall r: nat :: relative <= r < relative + 8 && r < |chunk| ==> !Usable(w, profile, chunk[r])
  {
    hide Usable, Sound;
    var items := chunk[relative..relative + count];
    forall r: nat | relative <= r < relative + 8 && r < |chunk| ensures !Usable(w, profile, chunk[r]) {
      assert items[r - relative] == chunk[r];
    }
  }

  /** Exactly the usable lanes below bound were stored in whole eight-lane groups. */
  ghost predicate WholeUpto<G(!new), S(!new)>(w: World<G, S>, profile: Profile, chunk: seq<Item>, st: Store<G>, bound: nat)
    requires Sound(w)
  {
    && (forall r: nat :: r < CHUNK && Direct(st, r) ==> r < bound)
    && (forall r: nat :: r < bound && r < |chunk| && st.joining && Usable(w, profile, chunk[r]) ==> Direct(st, r))
  }

  /** Every usable lane's point is in its own lane of the eight-lane table below wideLanes and of the
      four-lane table above, and its scalar in its own slot. */
  ghost predicate InPlace<G(!new), S(!new)>(w: World<G, S>, profile: Profile, chunk: seq<Item>, live: set<nat>, wideLanes: nat,
                                            a8: seq<seq<G>>, a4: seq<seq<G>>, scalars: seq<Bytes32>)
    requires Sound(w)
  {
    && Shaped(a8, GROUPS8, 8) && Shaped(a4, GROUPS4, 4) && |scalars| == CHUNK && |chunk| <= CHUNK
    && (forall r: nat :: r in live <==> r < |chunk| && Usable(w, profile, chunk[r]))
    && (forall r: nat :: r in live ==> Ready(w, profile, chunk[r], if r < wideLanes then a8[r / 8][r % 8] else a4[r / 4][r % 4], scalars[r]))
  }

  lemma PlacedBelow<G(!new), S(!new)>(w: World<G, S>, profile: Profile, chunk: seq<Item>, live: set<nat>, wideLanes: nat,
                                      a8: seq<seq<G>>, a4: seq<seq<G>>, scalars: seq<Bytes32>)
    requires Sound(w) && InPlace(w, profile, chunk, live, wideLanes, a8, a4, scalars)
    ensures |chunk| <= CHUNK
  {}

  /** The group at relative finds its points and scalars where preparation put them. */
  lemma PlacedGroup<G(!new), S(!new)>(w: World<G, S>, profile: Profile, chunk: seq<Item>, relative: nat, count: nat, chunkLive: set<nat>,
                                      live: set<nat>, wideLanes: nat, a8: seq<seq<G>>, a4: seq<seq<G>>, scalars: seq<Bytes32>, A: seq<G>, s: seq<Bytes32>)
    requires Sound(w) && InPlace(w, profile, chunk, chunkLive, wideLanes, a8, a4, scalars)
    requires relative % 8 == 0 && 0 < count <= 8 && relative + count <= |chunk| && (relative + 8 <= wideLanes || wideLanes <= relative)
    requires forall l: nat :: l in live <==> l < count && relative + l in chunkLive
    requires A == (if relative < wideLanes then a8[relative / 8] else a4[relative / 4] + a4[relative / 4 + 1])
    requires |s| == 8 && forall l: nat :: l in live ==> s[l] == scalars[relative + l]
    ensures GroupLive(w, profile, chunk[relative..relative + count], live)
    ensures GroupReady(w, profile, chunk[relative..relative + count], live, A, s)
  {
    hide Sound, Usable, Ready;
    var group, items := relative / 8, chunk[relative..relative + count];
    GroupSplit(relative, group);
    forall l: nat | l < count ensures l in live <==> Usable(w, profile, items[l]) { assert items[l] == chunk[relative + l]; }
    forall l: nat | l in live ensures Ready(w, profile, items[l], A[l], s[l]) {
      assert items[l] == chunk[relative + l] && relative + l in chunkLive;
      PlacedLane(w, profile, chunk, group, l, chunkLive, wideLanes, a8, a4, scalars);
    }
  }

  lemma PlacedLane<G(!new), S(!new)>(w: World<G, S>, profile: Profile, chunk: seq<Item>, group: nat, l: nat, chunkLive: set<nat>,
                                     wideLanes: nat, a8: seq<seq<G>>, a4: seq<seq<G>>, scalars: seq<Bytes32>)
    requires Sound(w) && InPlace(w, profile, chunk, chunkLive, wideLanes, a8, a4, scalars)
    requires l < 8 && 8 * group + l in chunkLive && (8 * group + 8 <= wideLanes || wideLanes <= 8 * group)
    ensures group < GROUPS8 && |a8[group]| == 8 && |a4[2 * group]| == |a4[2 * group + 1]| == 4
    ensures Ready(w, profile, chunk[8 * group + l],
                  if 8 * group < wideLanes then a8[group][l] else (a4[2 * group] + a4[2 * group + 1])[l], scalars[8 * group + l])
  {
    hide Sound, Usable, Ready;
    LaneSplit(group, l);
  }

  lemma GroupSplit(relative: nat, group: nat)
    requires relative % 8 == 0 && group == relative / 8
    ensures relative == 8 * group && relative / 4 == 2 * group
  {}

  /** Where lane l of group sits in the two table widths. */
  lemma LaneSplit(group: nat, l: nat)
    requires l < 8
    ensures (8 * group + l) / 8 == group && (8 * group + l) % 8 == l
    ensures (8 * group + l) / 4 == 2 * group + l / 4 && (8 * group + l) % 4 == l % 4
  {}

  /** r51IFMABatchQPipeline: configuration and the scratch one worker keeps from chunk to chunk. */
  class Pipeline<G(!new), S(!new)> {
    const w: World<G, S>
    const fixed: Fixed<G>
    /** The wide evaluator: the merged chain or the comb. */
    const merged: bool
    const wide: bool
    const yFirst: bool
    const encodeX8: bool
    const partialTail: bool
    const wideHashTail: bool

    var store: Store<G>
    var decodedA: seq<seq<G>>
    var decodedAX8: seq<seq<G>>
    var scalars: seq<Bytes32>
    /** Finalizations left before a kernel reports a fault. */
    var budget: nat

    ghost predicate Valid()
      reads this
    {
      && Sound(w) && FixedFor(w.g, fixed, w.base) && Formed(store)
      && Shaped(decodedA, GROUPS4, 4) && Shaped(decodedAX8, GROUPS8, 8) && |scalars| == CHUNK
      && (!encodeX8 ==> store.direct == {} && !store.joining)
    }

    lemma ValidShape()
      requires Valid()
      ensures Sound(w) && |decodedAX8| == GROUPS8 && |decodedA| == GROUPS4 && |scalars| == CHUNK
      ensures forall g :: 0 <= g < GROUPS4 ==> |decodedA[g]| == 4
    {
      hide Sound, FixedFor;
    }

    constructor (w: World<G, S>, fixed: Fixed<G>, merged: bool, wide: bool, yFirst: bool, encodeX8: bool, partialTail: bool, wideHashTail: bool,
                 budget: nat)
      requires Sound(w) && FixedFor(w.g, fixed, w.base)
      ensures Valid() && this.w == w && this.wide == wide && this.yFirst == yFirst && this.encodeX8 == encodeX8
      ensures this.partialTail == partialTail && this.budget == budget
    {
      hide Sound, FixedFor;
      var four, eight := seq(GROUPS4, _ => seq(4, _ => w.g.zero)), seq(GROUPS8, _ => seq(8, _ => w.g.zero));
      this.w, this.fixed, this.merged, this.wide, this.yFirst, this.encodeX8 := w, fixed, merged, wide, yFirst, encodeX8;
      this.partialTail, this.wideHashTail, this.budget := partialTail, wideHashTail, budget;
      store := Store(false, four, seq(GROUPS4, _ => {}), eight, seq(GROUPS8, _ => {}), {});
      decodedA, decodedAX8, scalars := four, eight, seq(CHUNK, _ => Zero32);
    }

    /** The head of verifyChunk: only the groups of this chunk are cleared. */
    method Reset(profile: Profile, ghost chunk: seq<Item>, count: nat)
      requires Valid() && |chunk| == count <= CHUNK
      modifies this`store
      ensures Valid() && Evaluated(w, profile, chunk, store, 0) && WholeUpto(w, profile, chunk, store, 0)
      ensures store.joining == (encodeX8 && count >= X8_MIN_COUNT)
    {
      hide Sound, FixedFor, Usable, Checked;
      var groups := (count + 3) / 4;
      var points, active := store.points, store.active;
      for group := 0 to groups
        invariant Shaped(points, GROUPS4, 4) && |active| == GROUPS4
        invariant forall g: nat :: g < group ==> active[g] == {}
      {
        points, active := points[group := seq(4, _ => w.g.zero)], active[group := {}];
      }
      var joining, direct := encodeX8 && count >= X8_MIN_COUNT, if encodeX8 then {} else store.direct;
      var pointsX8, activeX8 := store.pointsX8, store.activeX8;
      if joining {
        for group := 0 to (groups + 1) / 2
          invariant Shaped(pointsX8, GROUPS8, 8) && |activeX8| == GROUPS8
        {
          pointsX8, activeX8 := pointsX8[group := seq(8, _ => w.g.zero)], activeX8[group := {}];
        }
      }
      store := Store(joining, points, active, pointsX8, activeX8, direct);
    }

    /** One group, evaluated by either kernel and stored; an empty group stores nothing. */
    method StoreGroup(profile: Profile, chunk: seq<Item>, relative: nat, count: nat, A: seq<G>, s: seq<Bytes32>, live: set<nat>,
                      wideKernel: bool, wideHash: bool, ghost bound: nat)
      requires Valid() && Short(chunk) && Evaluated(w, profile, chunk, store, relative) && WholeUpto(w, profile, chunk, store, bound)
      requires relative % 8 == 0 && 0 < count <= 8 && relative + count <= |chunk| && (count == 8 || relative + count == |chunk|)
      requires GroupLive(w, profile, chunk[relative..relative + count], live)
      requires GroupReady(w, profile, chunk[relative..relative + count], live, A, s)
      requires wideKernel ==> bound == relative
      modifies this`store
      ensures Valid() && Evaluated(w, profile, chunk, store, relative + count)
      ensures store.joining == old(store.joining)
      ensures WholeUpto(w, profile, chunk, store, if wideKernel then relative + 8 else bound)
    {
      hide Sound, FixedFor, Usable, Checked, Evaluated, Formed, Solved, GroupReady, GroupLive, Short, StoredHalves, StoredWide;
      if live == {} {
        NoneUsable(w, profile, chunk, relative, count, live);
        EmptyAdvances(w, profile, chunk, store, relative);
        return;
      }
      ShortSlice(chunk, relative, count);
      var out, usable := EvaluateGroup(w, fixed, merged, profile, chunk[relative..relative + count], live, A, s, wideKernel, wideHash);
      SolvedSlice(w, profile, chunk, relative, count, out, usable);
      SolvedShape(w, profile, chunk, relative, out, usable, store);
      if wideKernel {
        WideAdvances(w, profile, chunk, store, relative, out, usable);
        WideWhole(w, profile, chunk, store, relative, out, usable);
        store := StoredWide(store, out, usable, relative / 4);
      } else {
        HalvesAdvance(w, profile, chunk, store, relative, out, usable);
        HalvesShape(store, out, usable, relative / 4);
        SameWhole(w, profile, chunk, store, StoredHalves(store, out, usable, relative / 4), bound);
        store := StoredHalves(store, out, usable, relative / 4);
      }
    }

    // -------------------------------------------------------------- evaluation of a chunk

    /** One cold group. */
    method ColdGroup(profile: Profile, chunk: seq<Item>, relative: nat, count: nat, wideKernel: bool, ghost bound: nat)
      requires Valid() && Short(chunk) && Evaluated(w, profile, chunk, store, relative) && WholeUpto(w, profile, chunk, store, bound)
      requires relative % 8 == 0 && 0 < count <= 8 && relative + count <= |chunk| && (count == 8 || relative + count == |chunk|)
      requires wideKernel ==> bound == relative
      modifies this`store
      ensures Valid() && Evaluated(w, profile, chunk, store, relative + count)
      ensures store.joining == old(store.joining)
      ensures WholeUpto(w, profile, chunk, store, if wideKernel then relative + 8 else bound)
    {
      hide Sound, FixedFor, Evaluated, Formed, Short, WholeUpto;
      var A, s, live := ColdLanes(w, profile, chunk[relative..relative + count], wideKernel);
      StoreGroup(profile, chunk, relative, count, A, s, live, wideKernel, wideKernel || (wideHashTail && count >= 4), bound);
    }

    /** How many lanes a chunk's wide kernels cover. */
    ghost function WholeBound(count: nat, cold: bool): nat {
      if !wide then 0
      else if cold && partialTail && count - WideCount(count) >= 4 then WideCount(count) + 8
      else WideCount(count)
    }

    /** evaluateColdWideChunk. */
    method EvaluateColdWide(profile: Profile, chunk: seq<Item>)
      requires Valid() && Short(chunk) && Evaluated(w, profile, chunk, store, 0) && WholeUpto(w, profile, chunk, store, 0) && wide
      modifies this`store
      ensures Valid() && Evaluated(w, profile, chunk, store, |chunk|) && store.joining == old(store.joining)
      ensures WholeUpto(w, profile, chunk, store, WholeBound(|chunk|, true))
    {
      hide Sound, FixedFor, Evaluated, Formed, Short, WholeUpto;
      var wideCount := WideCount(|chunk|);
      var relative := 0;
      while relative < wideCount
        invariant Valid() && relative % 8 == 0 && 0 <= relative <= wideCount && store.joining == old(store.joining)
        invariant Evaluated(w, profile, chunk, store, relative) && WholeUpto(w, profile, chunk, store, relative)
      {
        ColdGroup(profile, chunk, relative, 8, true, relative);
        relative := relative + 8;
      }
      var tail := |chunk| - wideCount;
      if tail != 0 {
        ColdGroup(profile, chunk, wideCount, tail, partialTail && tail >= 4, wideCount);
      }
    }

    /** The decoded points and scalars of the live lanes are in place, by width. */
    ghost predicate Prepared(profile: Profile, chunk: seq<Item>, live: set<nat>, wideLanes: nat)
      requires Valid()
      reads this
    {
      InPlace(w, profile, chunk, live, wideLanes, decodedAX8, decodedA, scalars)
    }

    /** prepareDecodedAChunk and prepareDecodedAWideChunk. */
    method Prepare(profile: Profile, chunk: seq<Item>, decoded: Option<seq<Option<Entry<G>>>>) returns (live: set<nat>)
      requires Valid() && |chunk| <= CHUNK && (decoded.Some? ==> |decoded.value| == |chunk| && Honest(w, decoded.value))
      modifies this`decodedA, this`decodedAX8, this`scalars
      ensures Valid() && Prepared(profile, chunk, live, if wide then WideCount(|chunk|) else 0)
    {
      hide Sound, FixedFor, Honest, Usable;
      var wideCount := if wide then WideCount(|chunk|) else 0;
      var identity8, identity4 := seq(8, _ => w.g.zero), seq(4, _ => w.g.zero);
      var table8 := seq(GROUPS8, g requires 0 <= g < GROUPS8 && |decodedAX8| == GROUPS8 reads this => if 8 * g < wideCount then identity8 else decodedAX8[g]);
      var table4 := seq(GROUPS4, g requires 0 <= g < GROUPS4 && |decodedA| == GROUPS4 reads this =>
        if wideCount <= 4 * g < |chunk| then identity4 else decodedA[g]);
      var out8, scalars8, live8 := PrepareRange(w, profile, chunk, decoded, 0, wideCount, 8, GROUPS8, table8, scalars);
      var out4, scalars4, live4 := PrepareRange(w, profile, chunk, decoded, wideCount, |chunk|, 4, GROUPS4, table4, scalars8);
      decodedAX8, decodedA, scalars, live := out8, out4, scalars4, live8 + live4;
    }

    /** One prepared group. */
    method PreparedGroup(profile: Profile, chunk: seq<Item>, relative: nat, count: nat, chunkLive: set<nat>, wideKernel: bool,
                         ghost bound: nat, ghost wideLanes: nat)
      requires Valid() && Short(chunk) && Evaluated(w, profile, chunk, store, relative) && WholeUpto(w, profile, chunk, store, bound)
      requires relative % 8 == 0 && 0 < count <= 8 && relative + count <= |chunk| && (count == 8 || relative + count == |chunk|)
      requires wideKernel ==> bound == relative
      requires Prepared(profile, chunk, chunkLive, wideLanes) && (if wideKernel then relative + 8 <= wideLanes else wideLanes <= relative)
      modifies this`store
      ensures Valid() && Evaluated(w, profile, chunk, store, relative + count)
      ensures store.joining == old(store.joining)
      ensures WholeUpto(w, profile, chunk, store, if wideKernel then relative + 8 else bound)
    {
      hide Sound, FixedFor, Evaluated, Formed, Short, WholeUpto, Usable, InPlace, GroupLive, GroupReady, Valid, Shifted;
      ValidShape();
      PlacedBelow(w, profile, chunk, chunkLive, wideLanes, decodedAX8, decodedA, scalars);
      var live := Shifted(chunkLive, relative, count);
      var group := relative / 8;
      assert relative == 8 * group && relative / 4 == 2 * group && relative < CHUNK;
      var A := if wideKernel then decodedAX8[group] else decodedA[2 * group] + decodedA[2 * group + 1];
      var s := seq(8, l requires 0 <= l < 8 && relative + l < CHUNK && |scalars| == CHUNK reads this => if l in live then scalars[relative + l] else Zero32);
      PlacedGroup(w, profile, chunk, relative, count, chunkLive, live, wideLanes, decodedAX8, decodedA, scalars, A, s);
      StoreGroup(profile, chunk, relative, count, A, s, live, wideKernel, wideKernel, bound);
    }

    /** evaluatePreparedWideChunk, and the loop of verifyChunk over prepared pairs of four-lane groups. */
    method EvaluatePrepared(profile: Profile, chunk: seq<Item>, live: set<nat>)
      requires Valid() && Short(chunk) && Evaluated(w, profile, chunk, store, 0) && WholeUpto(w, profile, chunk, store, 0)
      requires Prepared(profile, chunk, live, if wide then WideCount(|chunk|) else 0)
      modifies this`store
      ensures Valid() && Evaluated(w, profile, chunk, store, |chunk|) && store.joining == old(store.joining)
      ensures WholeUpto(w, profile, chunk, store, WholeBound(|chunk|, false))
    {
      hide Sound, FixedFor, Evaluated, Formed, Short, WholeUpto, InPlace;
      PlacedBelow(w, profile, chunk, live, if wide then WideCount(|chunk|) else 0, decodedAX8, decodedA, scalars);
      var wideCount := if wide then WideCount(|chunk|) else 0;
      var relative := 0;
      while relative < |chunk|
        invariant Valid() && (relative % 8 == 0 || relative == |chunk|) && 0 <= relative <= |chunk| && store.joining == old(store.joining)
        invariant Prepared(profile, chunk, live, wideCount)
        invariant Evaluated(w, profile, chunk, store, relative)
        invariant WholeUpto(w, profile, chunk, store, if relative < wideCount then relative else wideCount)
      {
        var count := if relative + 8 <= |chunk| then 8 else |chunk| - relative;
        PreparedGroup(profile, chunk, relative, count, live, relative < wideCount, if relative < wideCount then relative else wideCount, wideCount);
        relative := relative + count;
      }
    }

    // -------------------------------------------------------------- verdicts

    /** Lanes the y-first finalizer never looks at: it reads groups of four, while whole groups of eight are
        kept aside for the wide encoder. No constructor in the repository combines the two. */
    ghost predicate Lost(count: nat, cold: bool, r: nat) {
      yFirst && encodeX8 && count >= X8_MIN_COUNT && r < WholeBound(count, cold)
    }

    /** verifyChunk: every verdict of the chunk, unless a kernel reports a fault first. */
    method VerifyChunk(profile: Profile, chunk: seq<Item>, decoded: Option<seq<Option<Entry<G>>>>, ok: array<bool>, offset: nat)
      returns (fault: bool)
      requires Valid() && Short(chunk) && 0 < |chunk| <= CHUNK && offset + |chunk| <= ok.Length
      requires decoded.Some? ==> |decoded.value| == |chunk| && Honest(w, decoded.value)
      requires forall i :: offset <= i < offset + |chunk| ==> !ok[i]
      modifies this, ok
      ensures Valid() && (fault <==> old(budget) == 0) && budget == if fault then 0 else old(budget) - 1
      ensures fault ==> ok[..] == old(ok[..])
      ensures forall i :: 0 <= i < ok.Length && !(offset <= i < offset + |chunk|) ==> ok[i] == old(ok[i])
      ensures !fault ==> forall r: nat :: r < |chunk| ==>
        (ok[offset + r] <==> Verdict(w, profile, chunk[r]) && !Lost(|chunk|, decoded.None?, r))
    {
      hide Sound, FixedFor, Evaluated, Short, Honest, Verdict, Usable, Shaped, Formed, WholeUpto, InPlace;
      Reset(profile, chunk, |chunk|);
      if wide && decoded.None? {
        EvaluateColdWide(profile, chunk);
      } else {
        var live := Prepare(profile, chunk, decoded);
        EvaluatePrepared(profile, chunk, live);
      }
      if budget == 0 {
        return true;
      }
      budget := budget - 1;
      Finalize(profile, chunk, decoded.None?, ok, offset);
      fault := false;
    }

    /** The finalizer switch. */
    method Finalize(profile: Profile, chunk: seq<Item>, ghost cold: bool, ok: array<bool>, offset: nat)
      requires Valid() && 0 < |chunk| <= CHUNK && offset + |chunk| <= ok.Length
      requires Evaluated(w, profile, chunk, store, |chunk|) && WholeUpto(w, profile, chunk, store, WholeBound(|chunk|, cold && wide))
      requires store.joining == (encodeX8 && |chunk| >= X8_MIN_COUNT)
      requires forall i :: offset <= i < offset + |chunk| ==> !ok[i]
      modifies ok
      ensures forall i :: 0 <= i < ok.Length && !(offset <= i < offset + |chunk|) ==> ok[i] == old(ok[i])
      ensures forall r: nat :: r < |chunk| ==>
        (ok[offset + r] <==> Verdict(w, profile, chunk[r]) && !Lost(|chunk|, cold, r))
    {
      hide Sound, FixedFor, Usable, Verdict, Evaluated, Accepts, ActiveAt;
      AcceptsVerdicts(w, profile, chunk, store);
      if yFirst {
        YFirst(w, profile, chunk, store, ok, offset);
      } else {
        Literal(w, chunk, store, ok, offset);
      }
    }

    /** VerifyBatch: chunks of at most 64 in order; a fault clears every verdict, also those of earlier
        chunks. */
    method VerifyBatch(profile: Profile, items: seq<Item>, decoded: Option<seq<Option<Entry<G>>>>, ok: array<bool>, lo: nat)
      returns (all: bool, fault: bool)
      requires Valid() && Short(items) && lo + |items| <= ok.Length
      requires decoded.Some? ==> |decoded.value| == |items| && Honest(w, decoded.value)
      modifies this, ok
      ensures Valid()
      ensures forall i :: 0 <= i < ok.Length && !(lo <= i < lo + |items|) ==> ok[i] == old(ok[i])
      ensures fault <==> old(budget) < Chunks(|items|)
      ensures fault ==> !all && forall i :: lo <= i < lo + |items| ==> !ok[i]
      ensures !fault ==> forall i: nat :: i < |items| ==>
        (ok[lo + i] <==> Verdict(w, profile, items[i]) && !Lost(ChunkCount(|items|, i), decoded.None?, i % 64))
      ensures !fault ==> all == forall i :: lo <= i < lo + |items| ==> ok[i]
    {
      hide Sound, FixedFor, Verdict, Short, Honest, Valid, Lost, ChunkCount, Chunks;
      ValidShape();
      NoChunks();
      Clear(ok, lo, |items|);
      var offset := 0;
      while offset < |items|
        invariant Valid() && 0 <= offset <= |items| && (offset % 64 == 0 || offset == |items|)
        invariant budget + Chunks(offset) == old(budget)
        invariant forall i :: 0 <= i < ok.Length && !(lo <= i < lo + |items|) ==> ok[i] == old(ok[i])
        invariant forall i :: lo + offset <= i < lo + |items| ==> !ok[i]
        invariant forall i: nat :: i < offset ==>
          (ok[lo + i] <==> Verdict(w, profile, items[i]) && !Lost(ChunkCount(|items|, i), decoded.None?, i % 64))
        decreases |items| - offset
      {
        var count := if |items| - offset < CHUNK then |items| - offset else CHUNK;
        var chunk := items[offset..offset + count];
        var entries := if decoded.Some? then Some(decoded.value[offset..offset + count]) else None;
        ShortSlice(items, offset, count);
        if decoded.Some? { HonestSlice(w, decoded.value, offset, count); }
        ChunkStep(|items|, offset, count);
        fault := VerifyChunk(profile, chunk, entries, ok, lo + offset);
        if fault {
          Clear(ok, lo, |items|);
          return false, true;
        }
        forall i: nat | offset <= i < offset + count
          ensures ok[lo + i] <==> Verdict(w, profile, items[i]) && !Lost(ChunkCount(|items|, i), decoded.None?, i % 64)
        {
          assert chunk[i - offset] == items[i] && ok[lo + offset + (i - offset)] == ok[lo + i];
          ChunkPlace(|items|, offset, count, i);
        }
        offset := offset + count;
      }
      fault := false;
      all := AllOf(ok, lo, |items|);
    }

    method Clear(ok: array<bool>, lo: nat, n: nat)
      requires lo + n <= ok.Length
      modifies ok
      ensures forall i :: 0 <= i < ok.Length ==> ok[i] == if lo <= i < lo + n then false else old(ok[i])
    {
      for index := lo to lo + n
        invariant forall i :: 0 <= i < ok.Length ==> ok[i] == if lo <= i < index then false else old(ok[i])
      {
        ok[index] := false;
      }
    }
  }

  /** The conjunction of n verdicts. */
  method AllOf(ok: array<bool>, lo: nat, n: nat) returns (all: bool)
    requires lo + n <= ok.Length
    ensures all == forall i :: lo <= i < lo + n ==> ok[i]
  {
    all := true;
    for index := lo to lo + n
      invariant all == forall i :: lo <= i < index ==> ok[i]
    {
      all := all && ok[index];
    }
  }

  /** How many chunks n items make. */
  function Chunks(n: nat): nat { (n + 63) / 64 }

  lemma NoChunks()
    ensures Chunks(0) == 0
  {}

  lemma ChunkStep(n: nat, offset: nat, count: nat)
    requires offset % 64 == 0 && offset < n && count == if n - offset < CHUNK then n - offset else CHUNK
    ensures Chunks(offset + count) == Chunks(offset) + 1 <= Chunks(n)
    ensures (offset + count) % 64 == 0 || offset + count == n
  {}

  /** The size of the chunk item i of n falls in. */
  ghost function ChunkCount(n: nat, i: nat): nat
    requires i < n
  {
    if n - (i - i % 64) >= 64 then 64 else n - (i - i % 64)
  }

  lemma ChunkPlace(n: nat, offset: nat, count: nat, i: nat)
    requires offset % 64 == 0 && offset <= i < offset + count <= n && count == if n - offset < CHUNK then n - offset else CHUNK
    ensures i % 64 == i - offset && ChunkCount(n, i) == count
  {}

  lemma HonestSlice<G(!new), S(!new)>(w: World<G, S>, entries: seq<Option<Entry<G>>>, offset: nat, count: nat)
    requires Honest(w, entries) && offset + count <= |entries|
    ensures Honest(w, entries[offset..offset + count])
  {}

  lemma AcceptsVerdicts<G(!new), S(!new)>(w: World<G, S>, profile: Profile, chunk: seq<Item>, st: Store<G>)
    requires Sound(w) && Evaluated(w, profile, chunk, st, |chunk|)
    ensures Formed(st) && (!st.joining ==> st.direct == {})
    ensures forall r: nat :: r < |chunk| ==> (Accepts(w, chunk, st, r) <==> Verdict(w, profile, chunk[r]))
    ensures forall r: nat :: r < |chunk| ==> (Verdict(w, profile, chunk[r]) ==> Usable(w, profile, chunk[r]))
    ensures forall r: nat :: r < |chunk| && ActiveAt(st, r) ==> |chunk[r].sig| == 64
  {
    hide Sound, Checked, Usable, Verdict, Accepts, ActiveAt;
    forall r: nat | r < |chunk|
      ensures Accepts(w, chunk, st, r) <==> Verdict(w, profile, chunk[r])
      ensures ActiveAt(st, r) ==> |chunk[r].sig| == 64
      ensures Verdict(w, profile, chunk[r]) ==> Usable(w, profile, chunk[r])
    {
      AcceptsVerdict(w, profile, chunk, st, r);
    }
  }

  lemma ShortSlice(chunk: seq<Item>, relative: nat, count: nat)
    requires Short(chunk) && relative + count <= |chunk|
    ensures Short(chunk[relative..relative + count])
  {}

  lemma SolvedShape<G(!new), S(!new)>(w: World<G, S>, profile: Profile, chunk: seq<Item>, relative: nat, out: seq<G>, usable: set<nat>, st: Store<G>)
    requires Sound(w) && Solved(w, profile, chunk, relative, out, usable) && Evaluated(w, profile, chunk, st, relative) && relative < |chunk|
    ensures |out| == 8 && Formed(st) && |chunk| <= CHUNK
  {}

  lemma WideWhole<G(!new), S(!new)>(w: World<G, S>, profile: Profile, chunk: seq<Item>, st: Store<G>, relative: nat, out: seq<G>, usable: set<nat>)
    requires Sound(w) && Formed(st) && WholeUpto(w, profile, chunk, st, relative) && |out| == 8 && relative % 8 == 0 && relative < CHUNK
    ensures WholeUpto(w, profile, chunk, StoredWide(st, out, usable, relative / 4), relative + 8)
    ensures StoredWide(st, out, usable, relative / 4).joining == st.joining
    ensures st.direct == {} && !st.joining ==> StoredWide(st, out, usable, relative / 4).direct == {}
    ensures Formed(StoredWide(st, out, usable, relative / 4))
  {
    hide Sound, Usable;
    var g, st2 := relative / 8, StoredWide(st, out, usable, relative / 4);
    assert relative == 8 * g && relative / 4 / 2 == g;
    forall r: nat | r < CHUNK
      ensures Direct(st2, r) <==> Direct(st, r) || (st.joining && r / 8 == g)
    {}
  }

  lemma SameWhole<G(!new), S(!new)>(w: World<G, S>, profile: Profile, chunk: seq<Item>, st: Store<G>, st2: Store<G>, bound: nat)
    requires Sound(w) && WholeUpto(w, profile, chunk, st, bound) && st2.joining == st.joining && st2.direct == st.direct
    ensures WholeUpto(w, profile, chunk, st2, bound)
  {
    hide Sound, Usable;
    assert forall r: nat :: Direct(st2, r) == Direct(st, r);
  }

  lemma HalvesShape<G>(st: Store<G>, out: seq<G>, usable: set<nat>, outputGroup: nat)
    requires Formed(st) && |out| == 8 && outputGroup + 1 < GROUPS4
    ensures Formed(StoredHalves(st, out, usable, outputGroup)) && StoredHalves(st, out, usable, outputGroup).joining == st.joining
    ensures StoredHalves(st, out, usable, outputGroup).direct == st.direct
  {}
}
