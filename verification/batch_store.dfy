/** Where the pipeline leaves its results for the finalizers (ed25519/backend_r51batchq.go:632-650): lane r
    of a chunk is lane r mod 8 of an eight-lane group, or lane r mod 4 of a four-lane group. */
module BatchStore {
  import opened BatchWorld
  import opened BatchPrepare

  const CHUNK: nat := 64
  const GROUPS4: nat := 16
  const GROUPS8: nat := 8

  /** The finalizer inputs; direct lists the eight-lane groups stored whole. */
  datatype Store<+G> = Store(joining: bool, points: seq<seq<G>>, active: seq<set<nat>>, pointsX8: seq<seq<G>>, activeX8: seq<set<nat>>,
                             direct: set<nat>)

  ghost predicate Formed<G>(st: Store<G>) {
    Shaped(st.points, GROUPS4, 4) && |st.active| == GROUPS4 && Shaped(st.pointsX8, GROUPS8, 8) && |st.activeX8| == GROUPS8
  }

  ghost predicate Direct<G>(st: Store<G>, r: nat) {
    st.joining && r / 8 in st.direct
  }

  ghost predicate ActiveAt<G>(st: Store<G>, r: nat)
    requires Formed(st) && r < CHUNK
  {
    if Direct(st, r) then r % 8 in st.activeX8[r / 8] else r % 4 in st.active[r / 4]
  }

  ghost function ResultAt<G>(st: Store<G>, r: nat): G
    requires Formed(st) && r < CHUNK
  {
    if Direct(st, r) then st.pointsX8[r / 8][r % 8] else st.points[r / 4][r % 4]
  }

  /** The lanes before upto hold their results, later lanes of the chunk's groups hold none, and a group
      stored whole has nothing in its two halves. */
  ghost predicate Evaluated<G(!new), S(!new)>(w: World<G, S>, profile: Profile, chunk: seq<Item>, st: Store<G>, upto: nat)
    requires Sound(w)
  {
    && Formed(st) && |chunk| <= CHUNK
    && (forall r :: 0 <= r < upto && r < |chunk| ==> (ActiveAt(st, r) <==> Usable(w, profile, chunk[r])))
    && (forall r :: 0 <= r < upto && r < |chunk| && ActiveAt(st, r) ==> Some(ResultAt(st, r)) == Checked(w, profile, chunk[r]))
    && (forall r :: 0 <= r < CHUNK && (upto <= r || |chunk| <= r) && r / 4 < (|chunk| + 3) / 4 ==> !ActiveAt(st, r))
    && DirectAlone(st, upto, (|chunk| + 3) / 4)
  }

  /** A group stored whole has nothing in its two halves. */
  ghost predicate DirectAlone<G>(st: Store<G>, upto: nat, groups: nat)
    requires Formed(st)
  {
    && (!st.joining ==> st.direct == {})
    && (forall g :: g in st.direct ==> 8 * g < upto && g < GROUPS8)
    && (forall r: nat :: r < CHUNK && Direct(st, r) && r / 4 < groups ==> r % 4 !in st.active[r / 4])
  }

  /** The lanes of a mask from position relative on. */
  function Shifted(live: set<nat>, relative: nat, count: nat): (s: set<nat>)
    ensures forall l: nat {:trigger l in s} :: l in s <==> l < count && relative + l in live
  {
    set l | l in Range(count) && relative + l in live
  }

  /** storeWideFinalizerPoint: kept whole, or split into two groups of four. */
  function StoredWide<G>(st: Store<G>, point: seq<G>, usable: set<nat>, outputGroup: nat): (r: Store<G>)
    requires Formed(st) && |point| == 8 && outputGroup % 2 == 0 && outputGroup + 1 < GROUPS4
    ensures Formed(r)
  {
    if st.joining then
      var group := outputGroup / 2;
      st.(pointsX8 := st.pointsX8[group := point], activeX8 := st.activeX8[group := usable], direct := st.direct + {group})
    else
      StoredHalf(StoredHalf(st, point[..4], Shifted(usable, 0, 4), outputGroup), point[4..], Shifted(usable, 4, 4), outputGroup + 1)
  }

  /** One group of four results. */
  function StoredHalf<G>(st: Store<G>, point: seq<G>, usable: set<nat>, group: nat): (r: Store<G>)
    requires Formed(st) && |point| == 4 && group < GROUPS4
    ensures Formed(r)
  {
    st.(points := st.points[group := point], active := st.active[group := usable])
  }

  /** The eight results of one group of items. */
  ghost predicate Solved<G(!new), S(!new)>(w: World<G, S>, profile: Profile, chunk: seq<Item>, relative: nat, out: seq<G>, usable: set<nat>)
    requires Sound(w)
  {
    && |out| == 8
    && (forall l: nat :: l in usable <==> l < 8 && relative + l < |chunk| && Usable(w, profile, chunk[relative + l]))
    && (forall l :: l in usable ==> Some(out[l]) == Checked(w, profile, chunk[relative + l]))
  }

  function Upto(relative: nat, n: nat): nat { if relative + 8 <= n then relative + 8 else n }

  /** st2 is st with the group at relative now holding out in the usable lanes. */
  ghost predicate Moved<G>(st: Store<G>, st2: Store<G>, n: nat, relative: nat, out: seq<G>, usable: set<nat>)
    requires Formed(st) && Formed(st2) && |out| == 8
  {
    forall r: nat :: r < CHUNK && r / 4 < (n + 3) / 4 ==>
      if r / 8 == relative / 8
      then (ActiveAt(st2, r) <==> r - relative in usable) && (r >= relative && r - relative in usable && r - relative < 8 ==> ResultAt(st2, r) == out[r - relative])
      else (ActiveAt(st2, r) <==> ActiveAt(st, r)) && (ActiveAt(st, r) ==> ResultAt(st2, r) == ResultAt(st, r))
  }

  lemma Advance<G(!new), S(!new)>(w: World<G, S>, profile: Profile, chunk: seq<Item>, st: Store<G>, st2: Store<G>, relative: nat, out: seq<G>, usable: set<nat>)
    requires Sound(w) && relative % 8 == 0 && relative < |chunk| && Evaluated(w, profile, chunk, st, relative) && Formed(st2)
    requires Solved(w, profile, chunk, relative, out, usable) && Moved(st, st2, |chunk|, relative, out, usable)
    requires DirectAlone(st2, Upto(relative, |chunk|), (|chunk| + 3) / 4)
    ensures Evaluated(w, profile, chunk, st2, Upto(relative, |chunk|))
  {
    hide Checked, Usable, Sound, ActiveAt, ResultAt, Formed;
    forall r: nat | r < |chunk|
      ensures r < Upto(relative, |chunk|) ==> (ActiveAt(st2, r) <==> Usable(w, profile, chunk[r]))
      ensures r < Upto(relative, |chunk|) && ActiveAt(st2, r) ==> Some(ResultAt(st2, r)) == Checked(w, profile, chunk[r])
    {
      if r / 8 == relative / 8 { assert chunk[relative + (r - relative)] == chunk[r]; }
    }
  }

  /** Storing a group of eight advances the evaluation. */
  lemma WideAdvances<G(!new), S(!new)>(w: World<G, S>, profile: Profile, chunk: seq<Item>, st: Store<G>, relative: nat, out: seq<G>, usable: set<nat>)
    requires Sound(w) && relative % 8 == 0 && relative < |chunk| && Evaluated(w, profile, chunk, st, relative)
    requires Solved(w, profile, chunk, relative, out, usable)
    ensures Evaluated(w, profile, chunk, StoredWide(st, out, usable, relative / 4), Upto(relative, |chunk|))
    ensures st.joining ==> Direct(StoredWide(st, out, usable, relative / 4), relative)
  {
    hide Checked, Usable, Sound;
    WideMoved(st, |chunk|, relative, out, usable);
    WideAlone(st, |chunk|, relative, out, usable);
    Advance(w, profile, chunk, st, StoredWide(st, out, usable, relative / 4), relative, out, usable);
  }

  lemma WideAlone<G>(st: Store<G>, n: nat, relative: nat, out: seq<G>, usable: set<nat>)
    requires Formed(st) && |out| == 8 && relative % 8 == 0 && relative < n <= CHUNK && DirectAlone(st, relative, (n + 3) / 4)
    requires forall r: nat :: relative <= r < CHUNK && r / 4 < (n + 3) / 4 ==> !ActiveAt(st, r)
    ensures DirectAlone(StoredWide(st, out, usable, relative / 4), Upto(relative, n), (n + 3) / 4)
  {
    var g, st2 := relative / 8, StoredWide(st, out, usable, relative / 4);
    assert relative == 8 * g;
    forall r: nat | r < CHUNK && Direct(st2, r) && r / 4 < (n + 3) / 4
      ensures r % 4 !in st2.active[r / 4]
    {
      if r / 8 == g { assert !ActiveAt(st, r); } else { assert Direct(st, r); }
    }
  }

  lemma HalvesAlone<G>(st: Store<G>, n: nat, relative: nat, out: seq<G>, usable: set<nat>)
    requires Formed(st) && |out| == 8 && relative % 8 == 0 && relative < n <= CHUNK && DirectAlone(st, relative, (n + 3) / 4)
    ensures DirectAlone(StoredHalves(st, out, usable, relative / 4), Upto(relative, n), (n + 3) / 4)
  {
    var g, st2 := relative / 8, StoredHalves(st, out, usable, relative / 4);
    assert relative == 8 * g && relative / 4 == 2 * g;
    forall r: nat | r < CHUNK && Direct(st2, r) && r / 4 < (n + 3) / 4
      ensures r % 4 !in st2.active[r / 4]
    {
      assert Direct(st, r) && r / 8 < g;
    }
  }

  lemma WideMoved<G>(st: Store<G>, n: nat, relative: nat, out: seq<G>, usable: set<nat>)
    requires Formed(st) && |out| == 8 && relative % 8 == 0 && relative < CHUNK && forall l: nat :: l in usable ==> l < 8
    requires DirectAlone(st, relative, (n + 3) / 4)
    ensures Moved(st, StoredWide(st, out, usable, relative / 4), n, relative, out, usable)
  {
    var g := relative / 8;
    assert relative == 8 * g && relative / 4 == 2 * g;
    if !st.joining {
      forall r: nat | r / 8 == g ensures r / 4 == 2 * g || r / 4 == 2 * g + 1 {}
    }
  }

  /** So does storing its two halves, skipping an empty one. */
  lemma HalvesAdvance<G(!new), S(!new)>(w: World<G, S>, profile: Profile, chunk: seq<Item>, st: Store<G>, relative: nat, out: seq<G>, usable: set<nat>)
    requires Sound(w) && relative % 8 == 0 && relative < |chunk| && Evaluated(w, profile, chunk, st, relative)
    requires Solved(w, profile, chunk, relative, out, usable)
    ensures Evaluated(w, profile, chunk, StoredHalves(st, out, usable, relative / 4), Upto(relative, |chunk|))
    ensures StoredHalves(st, out, usable, relative / 4).direct == st.direct
  {
    hide Checked, Usable, Sound;
    HalvesMoved(st, |chunk|, relative, out, usable);
    HalvesAlone(st, |chunk|, relative, out, usable);
    Advance(w, profile, chunk, st, StoredHalves(st, out, usable, relative / 4), relative, out, usable);
  }

  lemma HalvesMoved<G>(st: Store<G>, n: nat, relative: nat, out: seq<G>, usable: set<nat>)
    requires Formed(st) && |out| == 8 && relative % 8 == 0 && relative < CHUNK && forall l: nat :: l in usable ==> l < 8
    requires DirectAlone(st, relative, (n + 3) / 4)
    requires forall r: nat :: relative <= r < CHUNK && r / 4 < (n + 3) / 4 ==> !ActiveAt(st, r)
    ensures Moved(st, StoredHalves(st, out, usable, relative / 4), n, relative, out, usable)
  {
    var g, st2 := relative / 8, StoredHalves(st, out, usable, relative / 4);
    assert relative == 8 * g && relative / 4 == 2 * g && g !in st.direct;
    forall r: nat | r < CHUNK && r / 4 < (n + 3) / 4
      ensures r / 8 == g ==> (ActiveAt(st2, r) <==> r - relative in usable)
      ensures r / 8 == g && r - relative in usable ==> ResultAt(st2, r) == out[r - relative]
      ensures r / 8 != g ==> ActiveAt(st2, r) == ActiveAt(st, r) && ResultAt(st2, r) == ResultAt(st, r)
    {
      if r / 8 == g {
        assert !ActiveAt(st, r);
        assert r / 4 == 2 * g || r / 4 == 2 * g + 1;
      }
    }
  }

  function StoredHalves<G>(st: Store<G>, out: seq<G>, usable: set<nat>, outputGroup: nat): (r: Store<G>)
    requires Formed(st) && |out| == 8 && outputGroup + 1 < GROUPS4
    ensures Formed(r)
  {
    var low := Shifted(usable, 0, 4);
    var high := Shifted(usable, 4, 4);
    var first := if low == {} then st else StoredHalf(st, out[..4], low, outputGroup);
    if high == {} then first else StoredHalf(first, out[4..], high, outputGroup + 1)
  }

  /** A group in which nothing is usable is left as the chunk reset it. */
  lemma EmptyAdvances<G(!new), S(!new)>(w: World<G, S>, profile: Profile, chunk: seq<Item>, st: Store<G>, relative: nat)
    requires Sound(w) && relative % 8 == 0 && relative < |chunk| && Evaluated(w, profile, chunk, st, relative)
    requires forall r :: relative <= r < relative + 8 && r < |chunk| ==> !Usable(w, profile, chunk[r])
    ensures Evaluated(w, profile, chunk, st, Upto(relative, |chunk|))
  {
    hide Checked, Usable, Sound;
  }
}
