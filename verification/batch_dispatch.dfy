/** Splitting a batch into warm runs, cold runs and a short tail, with and without the cache
    (ed25519/backend_r51.go:180-712). The packed one- and two-signature kernels, the warm-table verifier and its
    builder are parameters that may fault; what they return is trusted only on the inputs they are made for. */
module BatchDispatch {
  import opened Bytes
  import opened BatchWorld
  import opened BatchPrepare
  import opened BatchStore
  import opened BatchPipeline

  /** What a cache entry holds: a decoded point, or that and a warm comb. */
  datatype Table<+G> = Decoded(entry: Entry<G>) | Warm(entry: Entry<G>, comb: seq<G>)

  /** PrecomputedKey. */
  datatype Precomputed<+G> = Precomputed(raw: Bytes32, table: Table<G>)

  /** The native kernels; None is a fault. comb is the warm comb that belongs to a key. */
  datatype Kernels<!G> = Kernels(
    one: Item -> Option<bool>,
    pair: (Item, Item) -> Option<(bool, bool)>,
    warm: (seq<seq<G>>, seq<Item>) -> Option<seq<bool>>,
    build: seq<Bytes32> -> Option<seq<seq<G>>>,
    comb: Bytes32 -> seq<G>)

  /** combs[i] was built for the key of items[i]. */
  ghost predicate OwnCombs<G>(kernels: Kernels<G>, combs: seq<seq<G>>, items: seq<Item>) {
    && |combs| == |items|
    && forall i :: 0 <= i < |items| ==> items[i].pub.Some? && combs[i] == kernels.comb(items[i].pub.value)
  }

  /** A kernel that does not fault decides strictly, the warm one only over its lanes' own combs. */
  ghost predicate Agrees<G(!new), S(!new)>(w: World<G, S>, kernels: Kernels<G>)
    requires Sound(w)
  {
    && (forall item :: kernels.one(item).Some? ==> kernels.one(item).value == Verdict(w, DalekStrict, item))
    && (forall a, b :: kernels.pair(a, b).Some? ==>
          kernels.pair(a, b).value == (Verdict(w, DalekStrict, a), Verdict(w, DalekStrict, b)))
    && (forall combs, items :: OwnCombs(kernels, combs, items) && kernels.warm(combs, items).Some? ==>
          var ok := kernels.warm(combs, items).value;
          |ok| == |items| && forall i :: 0 <= i < |items| ==> ok[i] == Verdict(w, DalekStrict, items[i]))
    && (forall keys :: kernels.build(keys).Some? ==>
          var combs := kernels.build(keys).value;
          |combs| == |keys| && forall i :: 0 <= i < |keys| ==> combs[i] == kernels.comb(keys[i]))
  }

  /** Entries hold what their own raw bytes decode to and, when warm, the comb of those bytes. */
  ghost predicate TrustedEntry<G(!new), S(!new)>(w: World<G, S>, kernels: Kernels<G>, table: Table<G>) {
    && w.decode(table.entry.raw) == Some(table.entry.point)
    && (table.Warm? ==> table.comb == kernels.comb(table.entry.raw))
  }

  ghost predicate Trusted<G(!new), S(!new)>(w: World<G, S>, kernels: Kernels<G>, pre: seq<Option<Precomputed<G>>>) {
    forall i :: 0 <= i < |pre| && pre[i].Some? ==> TrustedEntry(w, kernels, pre[i].value.table)
  }

  /** A warm table built for exactly this key. */
  predicate WarmFor<G>(item: Item, pre: Option<Precomputed<G>>) {
    && pre.Some? && item.pub == Some(pre.value.raw)
    && pre.value.table.Warm? && pre.value.table.entry.raw == pre.value.raw
  }

  /** r51WarmGroupAvailable on the four lanes from offset on. */
  predicate WarmGroup<G>(items: seq<Item>, pre: seq<Option<Precomputed<G>>>, offset: nat) {
    && offset + 4 <= |items| && offset + 4 <= |pre|
    && WarmFor(items[offset], pre[offset]) && WarmFor(items[offset + 1], pre[offset + 1])
    && WarmFor(items[offset + 2], pre[offset + 2]) && WarmFor(items[offset + 3], pre[offset + 3])
  }

  /** r51WarmDispatchWidth: aligned pairs of warm groups, or one last group without a partner. */
  function WarmWidth<G>(preferX8: bool, items: seq<Item>, pre: seq<Option<Precomputed<G>>>, offset: nat, full: nat): (width: nat)
    requires full <= |items| && full <= |pre|
    ensures width == 0 || width == 4 || width == 8
    ensures width > 0 ==> offset + width <= full && WarmGroup(items, pre, offset)
    ensures width == 8 ==> WarmGroup(items, pre, offset + 4) && offset % 8 == 0
    ensures preferX8 && width == 4 ==> offset + 4 == full
  {
    if offset + 4 > full || !WarmGroup(items, pre, offset) then 0
    else if !preferX8 then 4
    else if offset % 8 != 0 then 0
    else if offset + 4 == full then 4
    else if offset + 8 <= full && WarmGroup(items, pre, offset + 4) then 8
    else 0
  }

  /** resolveDecodedA: the entries that match their items' raw keys. */
  method ResolveDecodedA<G(!new), S(!new)>(ghost w: World<G, S>, ghost kernels: Kernels<G>, items: seq<Item>, pre: seq<Option<Precomputed<G>>>)
    returns (decoded: seq<Option<Entry<G>>>)
    requires |items| == |pre| <= CHUNK && Trusted(w, kernels, pre)
    ensures |decoded| == |items| && Honest(w, decoded)
    ensures forall i :: 0 <= i < |items| && decoded[i].Some? ==> items[i].pub == Some(decoded[i].value.raw)
  {
    decoded := [];
    for index := 0 to |items|
      invariant |decoded| == index && Honest(w, decoded)
      invariant forall i :: 0 <= i < index && decoded[i].Some? ==> items[i].pub == Some(decoded[i].value.raw)
    {
      var entry := None;
      if pre[index].Some? && items[index].pub == Some(pre[index].value.raw) && pre[index].value.table.entry.raw == pre[index].value.raw {
        entry := Some(pre[index].value.table.entry);
      }
      decoded := decoded + [entry];
    }
  }

  /** verifyWarmGroups: refuses a wrong width or a lane without its own warm table, else hands every item and
      its comb to the warm verifier. */
  method VerifyWarmGroups<G(!new), S(!new)>(ghost w: World<G, S>, kernels: Kernels<G>, items: seq<Item>, pre: seq<Option<Precomputed<G>>>,
                                            ok: array<bool>, lo: nat) returns (invalid: bool, fault: bool)
    requires Sound(w) && Agrees(w, kernels) && Trusted(w, kernels, pre) && |items| == |pre| && lo + |items| <= ok.Length
    modifies ok
    ensures invalid <==> |items| == 0 || |items| % 4 != 0 || |items| > CHUNK || exists g: nat {:trigger WarmGroup(items, pre, 4 * g)} ::
      4 * g < |items| && !WarmGroup(items, pre, 4 * g)
    ensures invalid ==> !fault
    ensures invalid || fault ==> ok[..] == old(ok[..])
    ensures forall i :: 0 <= i < ok.Length && !(lo <= i < lo + |items|) ==> ok[i] == old(ok[i])
    ensures !invalid && !fault ==> forall i: nat :: i < |items| ==> (ok[lo + i] <==> Verdict(w, DalekStrict, items[i]))
  {
    hide Verdict, Sound, WarmGroup, Agrees, Trusted, OwnCombs;
    if |items| == 0 || |items| % 4 != 0 || |items| > CHUNK {
      return true, false;
    }
    for group := 0 to |items| / 4
      invariant forall g: nat :: g < group ==> WarmGroup(items, pre, 4 * g)
    {
      if !WarmGroup(items, pre, 4 * group) {
        return true, false;
      }
    }
    AllWarm(w, kernels, items, pre);
    var combs := seq(|items|, i requires 0 <= i < |items| && pre[i].Some? && pre[i].value.table.Warm? => pre[i].value.table.comb);
    OwnEach(w, kernels, items, pre, combs);
    var verdicts := kernels.warm(combs, items);
    if verdicts.None? {
      return false, true;
    }
    Decides(w, kernels, combs, items);
    forall i | 0 <= i < |items| {
      ok[lo + i] := verdicts.value[i];
    }
    assert forall i: nat :: i < |items| ==> ok[lo + i] == verdicts.value[i];
    return false, false;
  }

  lemma Decides<G(!new), S(!new)>(w: World<G, S>, kernels: Kernels<G>, combs: seq<seq<G>>, items: seq<Item>)
    requires Sound(w) && Agrees(w, kernels) && OwnCombs(kernels, combs, items) && kernels.warm(combs, items).Some?
    ensures var ok := kernels.warm(combs, items).value;
      |ok| == |items| && forall i :: 0 <= i < |items| ==> ok[i] == Verdict(w, DalekStrict, items[i])
  {
    hide Verdict, Sound, OwnCombs;
  }

  lemma AllWarm<G(!new), S(!new)>(w: World<G, S>, kernels: Kernels<G>, items: seq<Item>, pre: seq<Option<Precomputed<G>>>)
    requires |items| == |pre| && |items| % 4 == 0
    requires forall g: nat :: g < |items| / 4 ==> WarmGroup(items, pre, 4 * g)
    ensures forall i: nat :: i < |items| ==> WarmFor(items[i], pre[i])
  {
    forall i: nat | i < |items| ensures WarmFor(items[i], pre[i]) {
      var g := i / 4;
      assert WarmGroup(items, pre, 4 * g) && i == 4 * g + i % 4;
    }
  }

  /** In warm groups of trusted entries every lane has its own comb. */
  lemma OwnEach<G(!new), S(!new)>(w: World<G, S>, kernels: Kernels<G>, items: seq<Item>, pre: seq<Option<Precomputed<G>>>, combs: seq<seq<G>>)
    requires |items| == |pre| == |combs| && Trusted(w, kernels, pre)
    requires forall i: nat :: i < |items| ==> WarmFor(items[i], pre[i]) && combs[i] == pre[i].value.table.comb
    ensures OwnCombs(kernels, combs, items)
  {
    forall i | 0 <= i < |items| ensures items[i].pub.Some? && combs[i] == kernels.comb(items[i].pub.value) {
      assert WarmFor(items[i], pre[i]) && TrustedEntry(w, kernels, pre[i].value.table);
    }
  }

  /** buildWarmPrecompGroup: four decoded entries of the keys asked for become warm entries of the same keys. */
  method BuildWarmGroup<G(!new), S(!new)>(ghost w: World<G, S>, kernels: Kernels<G>, active: bool, pubs: seq<Option<Bytes32>>,
                                          current: seq<Option<Precomputed<G>>>) returns (out: Option<seq<Option<Precomputed<G>>>>)
    requires Sound(w) && Agrees(w, kernels) && Trusted(w, kernels, current) && |pubs| == |current| == 4
    ensures out.Some? ==> active && |out.value| == 4 && Trusted(w, kernels, out.value)
    ensures out.Some? ==> forall i :: 0 <= i < 4 ==>
      pubs[i].Some? && out.value[i].Some? && current[i] == Some(Precomputed(pubs[i].value, Decoded(out.value[i].value.table.entry)))
    ensures out.Some? ==> forall items: seq<Item> ::
      |items| == 4 && (forall i :: 0 <= i < 4 ==> items[i].pub == pubs[i]) ==> WarmGroup(items, out.value, 0)
  {
    hide Verdict, Sound;
    if !active {
      return None;
    }
    var encoded: seq<Bytes32> := [];
    for lane := 0 to 4
      invariant |encoded| == lane
      invariant forall i :: 0 <= i < lane ==> pubs[i] == Some(encoded[i]) && current[i].Some? && current[i].value.raw == encoded[i]
      invariant forall i :: 0 <= i < lane ==> current[i].value.table.Decoded? && current[i].value.table.entry.raw == encoded[i]
    {
      if pubs[lane].None? || current[lane].None? || current[lane].value.raw != pubs[lane].value {
        return None;
      }
      var table := current[lane].value.table;
      if !table.Decoded? || table.entry.raw != current[lane].value.raw {
        return None;
      }
      encoded := encoded + [pubs[lane].value];
    }
    var combs := kernels.build(encoded);
    if combs.None? {
      return None;
    }
    var built: seq<Option<Precomputed<G>>> := [];
    for lane := 0 to 4
      invariant |built| == lane
      invariant forall i :: 0 <= i < lane ==>
        built[i] == Some(Precomputed(encoded[i], Warm(current[i].value.table.entry, combs.value[i])))
    {
      built := built + [Some(Precomputed(encoded[lane], Warm(current[lane].value.table.entry, combs.value[lane])))];
    }
    forall i | 0 <= i < 4 ensures TrustedEntry(w, kernels, built[i].value.table) {
      assert TrustedEntry(w, kernels, current[i].value.table);
    }
    out := Some(built);
  }

  /** The warm run from offset on: consecutive warm widths, at most one chunk. */
  method WarmRun<G>(preferX8: bool, items: seq<Item>, pre: seq<Option<Precomputed<G>>>, offset: nat, full: nat) returns (warmEnd: nat)
    requires full <= |items| && full <= |pre| && WarmWidth(preferX8, items, pre, offset, full) != 0
    ensures offset < warmEnd <= full && warmEnd - offset <= CHUNK && (warmEnd - offset) % 4 == 0
    ensures forall g: nat :: offset + 4 * g < warmEnd ==> WarmGroup(items, pre, offset + 4 * g)
  {
    hide WarmGroup;
    var first := WarmWidth(preferX8, items, pre, offset, full);
    warmEnd := offset + first;
    TwoGroups(items, pre, offset, offset, first);
    while warmEnd < full && warmEnd - offset < CHUNK
      invariant offset < warmEnd <= full && warmEnd - offset <= CHUNK && (warmEnd - offset) % 4 == 0
      invariant forall g: nat :: offset + 4 * g < warmEnd ==> WarmGroup(items, pre, offset + 4 * g)
      decreases full - warmEnd
    {
      var next := WarmWidth(preferX8, items, pre, warmEnd, full);
      if next == 0 || warmEnd + next - offset > CHUNK {
        break;
      }
      TwoGroups(items, pre, offset, warmEnd, next);
      warmEnd := warmEnd + next;
    }
  }

  lemma TwoGroups<G>(items: seq<Item>, pre: seq<Option<Precomputed<G>>>, offset: nat, start: nat, width: nat)
    requires offset <= start && (start - offset) % 4 == 0 && (width == 4 || width == 8)
    requires WarmGroup(items, pre, start) && (width == 8 ==> WarmGroup(items, pre, start + 4))
    ensures forall g: nat :: start <= offset + 4 * g < start + width ==> WarmGroup(items, pre, offset + 4 * g)
  {
    hide WarmGroup;
    forall g: nat | start <= offset + 4 * g < start + width ensures WarmGroup(items, pre, offset + 4 * g) {
      assert offset + 4 * g == start || offset + 4 * g == start + 4;
    }
  }

  /** The cold run from coldStart on: up to the next warm group, at most one chunk. */
  method ColdRun<G>(preferX8: bool, useWarm: bool, items: seq<Item>, pre: seq<Option<Precomputed<G>>>, coldStart: nat, full: nat)
    returns (coldEnd: nat)
    requires full <= |items| && (useWarm ==> full <= |pre|) && coldStart < full
    ensures coldStart < coldEnd <= full && coldEnd - coldStart <= CHUNK
  {
    coldEnd := if full < coldStart + CHUNK then full else coldStart + CHUNK;
    var candidate := coldStart + 4;
    while candidate < coldEnd
      invariant coldStart < candidate && coldStart < coldEnd <= full && coldEnd - coldStart <= CHUNK
      decreases coldEnd - candidate
    {
      if useWarm && WarmWidth(preferX8, items, pre, candidate, full) != 0 {
        coldEnd := candidate;
        break;
      }
      candidate := candidate + 4;
    }
  }

  /** How many lookups hit. */
  function Hits<G>(pre: seq<Option<Precomputed<G>>>): (n: nat)
    ensures n <= |pre|
  {
    if |pre| == 0 then 0 else Hits(pre[..|pre| - 1]) + if pre[|pre| - 1].Some? then 1 else 0
  }

  /** r51UseDecodedAPrecomputed. */
  predicate UseDecoded(count: nat, hits: nat) {
    hits == count || (count == CHUNK && hits * 4 >= count)
  }

  /** r51HasWarmDispatch. */
  predicate HasWarmDispatch<G>(preferX8: bool, items: seq<Item>, pre: seq<Option<Precomputed<G>>>)
    requires |items| == |pre|
  {
    exists g :: 0 <= g < |items| / 4 && WarmWidth(preferX8, items, pre, 4 * g, |items| - |items| % 4) != 0
  }

  /** r51Backend: the dispatch preferences and one pooled worker. */
  class Backend<G(!new), S(!new)> {
    const w: World<G, S>
    const pooled: Pipeline<G, S>
    const kernels: Kernels<G>
    /** Whether the capability check of activate passed. */
    const active: bool
    const preferWarmX8: bool
    const preferPairX8: bool

    ghost predicate Valid()
      reads this, pooled
    {
      pooled.w == w && pooled.Valid() && !pooled.yFirst
    }

    constructor (pooled: Pipeline<G, S>, kernels: Kernels<G>, active: bool, preferWarmX8: bool, preferPairX8: bool)
      requires pooled.Valid() && !pooled.yFirst
      ensures Valid() && w == pooled.w && this.pooled == pooled && this.kernels == kernels
    {
      this.w, this.pooled, this.kernels, this.active := pooled.w, pooled, kernels, active;
      this.preferWarmX8, this.preferPairX8 := preferWarmX8, preferPairX8;
    }

    /** Every kernel may be relied on when it does not fault. */
    ghost predicate Reliable() { Sound(w) && Agrees(w, kernels) }

    /** The verdicts of items lo..hi are in place. */
    ghost predicate Decided(profile: Profile, items: seq<Item>, ok: array<bool>, lo: nat, hi: nat)
      requires Sound(w) && hi <= |items| == ok.Length
      reads ok
    {
      forall i: nat :: lo <= i < hi ==> (ok[i] <==> Verdict(w, profile, items[i]))
    }

    /** A warm run: its widths are exactly those verifyWarmGroups accepts. */
    method WarmStep(items: seq<Item>, pre: seq<Option<Precomputed<G>>>, ok: array<bool>, offset: nat, full: nat)
      returns (warmEnd: nat, fault: bool)
      requires Valid() && full <= |items| == |pre| == ok.Length && WarmWidth(preferWarmX8, items, pre, offset, full) != 0
      requires Reliable() && Trusted(w, kernels, pre)
      modifies ok
      ensures offset < warmEnd <= full && (warmEnd - offset) % 4 == 0
      ensures !fault ==> Decided(DalekStrict, items, ok, offset, warmEnd)
      ensures forall i :: 0 <= i < ok.Length && !(offset <= i < warmEnd) ==> ok[i] == old(ok[i])
    {
      hide WarmGroup, Verdict, Sound, Agrees, Trusted;
      warmEnd := WarmRun(preferWarmX8, items, pre, offset, full);
      SliceGroups(items, pre, offset, warmEnd);
      TrustedSlice(w, kernels, pre, offset, warmEnd);
      var invalid;
      invalid, fault := VerifyWarmGroups(w, kernels, items[offset..warmEnd], pre[offset..warmEnd], ok, offset);
      assert !invalid;
      if !fault {
        forall i: nat | offset <= i < warmEnd ensures ok[i] <==> Verdict(w, DalekStrict, items[i]) {
          assert items[offset..warmEnd][i - offset] == items[i] && ok[offset + (i - offset)] == ok[i];
        }
      }
    }

    /** A cold run, with whatever decoded points the cache has. */
    method ColdStep(worker: Pipeline<G, S>, profile: Profile, items: seq<Item>, pre: Option<seq<Option<Precomputed<G>>>>, ok: array<bool>,
                    offset: nat, full: nat) returns (coldEnd: nat, fault: bool)
      requires Valid() && worker == pooled && Reliable() && Short(items) && full <= |items| == ok.Length && offset < full
      requires pre.Some? ==> |pre.value| == |items| && Trusted(w, kernels, pre.value)
      modifies worker, ok
      ensures Valid() && offset < coldEnd <= full
      ensures !fault ==> Decided(profile, items, ok, offset, coldEnd)
      ensures forall i :: 0 <= i < ok.Length && !(offset <= i < coldEnd) ==> ok[i] == old(ok[i])
    {
      hide WarmGroup, Verdict, Sound, Agrees, Short, Trusted, Pipeline<G, S>.Valid;
      var warm := pre.Some? && profile == DalekStrict;
      coldEnd := ColdRun(preferWarmX8, warm, items, if pre.Some? then pre.value else [], offset, full);
      var run := items[offset..coldEnd];
      ShortSlice(items, offset, coldEnd - offset);
      var decoded := None;
      if pre.Some? {
        TrustedSlice(w, kernels, pre.value, offset, coldEnd);
        var entries := ResolveDecodedA(w, kernels, run, pre.value[offset..coldEnd]);
        decoded := Some(entries);
      }
      var all;
      all, fault := worker.VerifyBatch(profile, run, decoded, ok, offset);
      if !fault {
        forall i: nat | offset <= i < coldEnd ensures ok[i] <==> Verdict(w, profile, items[i]) {
          assert run[i - offset] == items[i] && ok[offset + (i - offset)] == ok[i];
        }
      }
    }

    /** The full groups of four: warm and cold runs take turns and cover them all. */
    method FullGroups(worker: Pipeline<G, S>, profile: Profile, items: seq<Item>, pre: Option<seq<Option<Precomputed<G>>>>, ok: array<bool>,
                      full: nat) returns (fault: bool)
      requires Valid() && worker == pooled && Reliable() && Short(items) && full <= |items| == ok.Length
      requires pre.Some? ==> |pre.value| == |items| && Trusted(w, kernels, pre.value)
      modifies worker, ok
      ensures Valid() && (!fault ==> Decided(profile, items, ok, 0, full))
    {
      hide WarmGroup, Verdict, Sound, Agrees, Short, Trusted, WarmWidth, Pipeline<G, S>.Valid;
      var offset := 0;
      while offset < full
        invariant Valid() && 0 <= offset <= full && Decided(profile, items, ok, 0, offset)
        decreases full - offset
      {
        if pre.Some? && profile == DalekStrict && WarmWidth(preferWarmX8, items, pre.value, offset, full) != 0 {
          var warmEnd;
          warmEnd, fault := WarmStep(items, pre.value, ok, offset, full);
          if fault {
            return;
          }
          offset := warmEnd;
          continue;
        }
        var end;
        end, fault := ColdStep(worker, profile, items, pre, ok, offset, full);
        if fault {
          return;
        }
        offset := end;
      }
      fault := false;
    }

    /** verifyOne: a missing key is refused before anything else, and only strict checks use the packed kernel. */
    method VerifyOne(profile: Profile, item: Item) returns (verdict: bool, fault: bool)
      requires Reliable()
      ensures !fault ==> verdict == Verdict(w, profile, item)
      ensures fault <==> item.pub.Some? && (!active || (profile == DalekStrict && kernels.one(item).None?))
    {
      hide Verdict, Sound, Agrees;
      if item.pub.None? {
        NoKey(w, profile, item);
        return false, false;
      }
      if !active {
        return false, true;
      }
      if profile == StdlibCompat {
        return Verdict(w, profile, item), false;
      }
      if kernels.one(item).None? {
        return false, true;
      }
      OneDecides(w, kernels, item);
      return kernels.one(item).value, false;
    }

    /** verify and verifyStrictRaw: a fault is answered by the generic check. */
    method Verify(profile: Profile, item: Item) returns (verdict: bool)
      requires Reliable()
      ensures verdict == Verdict(w, profile, item)
    {
      hide Verdict, Sound, Agrees;
      var fault;
      verdict, fault := VerifyOne(profile, item);
      if fault {
        verdict := Verdict(w, profile, item);
      }
    }

    /** The one to three signatures after the last full group. */
    method Tail(worker: Pipeline?<G, S>, profile: Profile, items: seq<Item>, ok: array<bool>, full: nat) returns (fault: bool)
      requires Valid() && (worker != null ==> worker == pooled) && Reliable() && Short(items) && full <= |items| == ok.Length
      requires |items| - full < 4 && (|items| - full == 3 || (|items| - full == 2 && profile != DalekStrict) ==> worker != null)
      modifies pooled, ok
      ensures Valid() && (!fault ==> Decided(profile, items, ok, full, |items|))
      ensures forall i :: 0 <= i < full ==> ok[i] == old(ok[i])
    {
      hide Verdict, Sound, Agrees, Short, Pipeline<G, S>.Valid;
      var tail := |items| - full;
      fault := false;
      if tail == 1 {
        var verdict;
        verdict, fault := VerifyOne(profile, items[full]);
        if !fault {
          ok[full] := verdict;
        }
      } else if tail == 2 && profile == DalekStrict && preferPairX8 {
        var verdicts := kernels.pair(items[full], items[full + 1]);
        if verdicts.None? {
          return true;
        }
        PairDecides(w, kernels, items[full], items[full + 1]);
        ok[full], ok[full + 1] := verdicts.value.0, verdicts.value.1;
      } else if tail == 2 && profile == DalekStrict {
        for index := full to |items|
          invariant Valid() && Decided(profile, items, ok, full, index)
          invariant forall i :: 0 <= i < full ==> ok[i] == old(ok[i])
        {
          var verdict;
          verdict, fault := VerifyOne(profile, items[index]);
          if fault {
            return;
          }
          ok[index] := verdict;
        }
      } else if tail > 1 {
        ShortSlice(items, full, tail);
        assert items[full..full + tail] == items[full..];
        var all;
        all, fault := worker.VerifyBatch(profile, items[full..], None, ok, full);
        if !fault {
          forall i: nat | full <= i < |items| ensures ok[i] <==> Verdict(w, profile, items[i]) {
            assert items[full..][i - full] == items[i] && ok[full + (i - full)] == ok[i];
          }
        }
      }
    }

    /** verifyBatchRawPrecomputedErr: a worker is fetched only when some part needs one. */
    method VerifyPrecomputed(profile: Profile, items: seq<Item>, pre: Option<seq<Option<Precomputed<G>>>>, ok: array<bool>)
      returns (all: bool, fault: bool)
      requires Valid() && Reliable() && Short(items) && |items| == ok.Length
      requires pre.Some? ==> |pre.value| == |items| && Trusted(w, kernels, pre.value)
      modifies pooled, ok
      ensures Valid()
      ensures !fault ==> Decided(profile, items, ok, 0, |items|) && all == forall i: nat :: i < |items| ==> Verdict(w, profile, items[i])
    {
      hide Verdict, Sound, Agrees, Short, Trusted, Pipeline<G, S>.Valid;
      if !active {
        return false, true;
      }
      var full := |items| - |items| % 4;
      var tail := |items| - full;
      var worker: Pipeline?<G, S> := null;
      if full != 0 || (tail > 1 && !(profile == DalekStrict && tail == 2)) {
        worker := pooled;
      }
      if full != 0 {
        fault := FullGroups(worker, profile, items, pre, ok, full);
        if fault {
          return false, true;
        }
      }
      fault := Tail(worker, profile, items, ok, full);
      if fault {
        return false, true;
      }
      all := AllOf(ok, 0, ok.Length);
      assert forall i: nat :: i < |items| ==> ok[i] == Verdict(w, profile, items[i]);
    }

    /** fallbackGenericBatch. */
    method Fallback(profile: Profile, items: seq<Item>, ok: array<bool>) returns (all: bool)
      requires Sound(w) && |items| == ok.Length
      modifies ok
      ensures Decided(profile, items, ok, 0, |items|) && all == forall i: nat :: i < |items| ==> Verdict(w, profile, items[i])
    {
      hide Verdict, Sound;
      all := true;
      for i := 0 to |items|
        invariant Decided(profile, items, ok, 0, i) && all == forall j: nat :: j < i ==> Verdict(w, profile, items[j])
      {
        ok[i] := Verdict(w, profile, items[i]);
        all := all && ok[i];
      }
    }

    /** verifyBatchRaw: whatever is cached and whether or not a kernel faults, the single-item verdicts. */
    method VerifyRaw(profile: Profile, items: seq<Item>, pre: Option<seq<Option<Precomputed<G>>>>, ok: array<bool>) returns (all: bool)
      requires Valid() && Reliable() && Short(items) && |items| == ok.Length
      requires pre.Some? ==> |pre.value| == |items| && Trusted(w, kernels, pre.value)
      modifies pooled, ok
      ensures Valid() && Decided(profile, items, ok, 0, |items|)
      ensures all == forall i: nat :: i < |items| ==> Verdict(w, profile, items[i])
    {
      hide Verdict, Sound, Agrees, Short, Trusted, Pipeline<G, S>.Valid;
      var fault;
      all, fault := VerifyPrecomputed(profile, items, pre, ok);
      if fault {
        all := Fallback(profile, items, ok);
      }
    }

    /** One chunk of verifyBatchRawCached. */
    method CachedChunk(profile: Profile, items: seq<Item>, pre: seq<Option<Precomputed<G>>>, decodedEnabled: bool, ok: array<bool>, lo: nat)
      returns (all: bool, fault: bool)
      requires Valid() && Reliable() && Short(items) && |items| == |pre| <= CHUNK && Trusted(w, kernels, pre) && lo + |items| <= ok.Length
      modifies pooled, ok
      ensures Valid()
      ensures forall i :: 0 <= i < ok.Length && !(lo <= i < lo + |items|) ==> ok[i] == old(ok[i])
      ensures !fault ==> all == forall i: nat :: i < |items| ==> Verdict(w, profile, items[i])
      ensures !fault ==> forall i: nat :: i < |items| ==> (ok[lo + i] <==> Verdict(w, profile, items[i]))
    {
      hide Verdict, Sound, Agrees, Short, Trusted, Pipeline<G, S>.Valid;
      var hits := Hits(pre);
      var prepared := None;
      if HasWarmDispatch(preferWarmX8, items, pre) || (decodedEnabled && UseDecoded(|items|, hits)) {
        prepared := Some(pre);
      }
      var verdicts := new bool[|items|](_ => false);
      all, fault := VerifyPrecomputed(profile, items, prepared, verdicts);
      if fault {
        return;
      }
      forall i | 0 <= i < |items| {
        ok[lo + i] := verdicts[i];
      }
      assert forall i: nat :: i < |items| ==> ok[lo + i] == verdicts[i];
    }

    /** verifyBatchRawCached: found[i] is what the cache lookup of item i returns. Verdicts do not depend on
        it; only keys of accepted signatures are admitted (no entry yet) or offered for promotion. */
    method VerifyCached(profile: Profile, items: seq<Item>, found: seq<Option<Precomputed<G>>>, decodedEnabled: bool, ok: array<bool>)
      returns (all: bool, admitted: set<nat>, promoted: set<nat>, fault: bool)
      requires Valid() && Reliable() && Short(items) && |items| == |found| == ok.Length && Trusted(w, kernels, found)
      modifies pooled, ok
      ensures Valid() && Decided(profile, items, ok, 0, |items|)
      ensures all == forall i: nat :: i < |items| ==> Verdict(w, profile, items[i])
      ensures forall i: nat :: i in admitted || i in promoted ==> i < |items| && Verdict(w, profile, items[i])
      ensures !fault && |items| >= 4 ==> forall i: nat :: i < |items| && Verdict(w, profile, items[i]) ==>
        (i in admitted <==> found[i].None?) && (i in promoted <==> found[i].Some? && profile == DalekStrict)
      ensures fault || |items| < 4 ==> forall i: nat :: i < |items| && Verdict(w, profile, items[i]) ==> i in admitted
    {
      hide Verdict, Sound, Agrees, Short, Trusted, Pipeline<G, S>.Valid;
      admitted, promoted, fault := {}, {}, false;
      if |items| < 4 {
        all := VerifyRaw(profile, items, None, ok);
        admitted := set i: nat | i in Range(|items|) && ok[i];
        return;
      }
      all := true;
      var offset := 0;
      while offset < |items|
        invariant Valid() && 0 <= offset <= |items| && Decided(profile, items, ok, 0, offset) && !fault
        invariant all == forall i: nat :: i < offset ==> Verdict(w, profile, items[i])
        invariant forall i: nat :: i in admitted <==> i < offset && Verdict(w, profile, items[i]) && found[i].None?
        invariant forall i: nat :: i in promoted <==> i < offset && Verdict(w, profile, items[i]) && found[i].Some? && profile == DalekStrict
        decreases |items| - offset
      {
        var count := if |items| - offset < CHUNK then |items| - offset else CHUNK;
        ShortSlice(items, offset, count);
        TrustedSlice(w, kernels, found, offset, offset + count);
        var run := items[offset..offset + count];
        var chunkAll, failed := CachedChunk(profile, run, found[offset..offset + count], decodedEnabled, ok, offset);
        if failed {
          all := Fallback(profile, items, ok);
          admitted := admitted + set i: nat | i in Range(|items|) && ok[i];
          return all, admitted, promoted, true;
        }
        ChunkVerdicts(profile, items, ok, offset, count, run);
        admitted := admitted + set i: nat | i in Range(|items|) && offset <= i < offset + count && ok[i] && found[i].None?;
        promoted := promoted + set i: nat | i in Range(|items|) && offset <= i < offset + count && ok[i] && found[i].Some? && profile == DalekStrict;
        all := all && chunkAll;
        offset := offset + count;
      }
    }

    lemma ChunkVerdicts(profile: Profile, items: seq<Item>, ok: array<bool>, offset: nat, count: nat, run: seq<Item>)
      requires Sound(w) && offset + count <= |items| == ok.Length && run == items[offset..offset + count]
      requires forall i: nat :: i < count ==> (ok[offset + i] <==> Verdict(w, profile, run[i]))
      ensures Decided(profile, items, ok, offset, offset + count)
      ensures (forall i: nat :: i < count ==> Verdict(w, profile, run[i])) <==>
        forall i: nat :: offset <= i < offset + count ==> Verdict(w, profile, items[i])
    {
      hide Verdict, Sound;
      assert forall i: nat :: i < count ==> run[i] == items[offset + i];
      forall i: nat | offset <= i < offset + count
        ensures ok[i] <==> Verdict(w, profile, items[i])
        ensures run[i - offset] == items[i]
      {
        assert ok[offset + (i - offset)] == ok[i];
      }
    }
  }

  lemma NoKey<G(!new), S(!new)>(w: World<G, S>, profile: Profile, item: Item)
    requires Sound(w) && item.pub.None?
    ensures !Verdict(w, profile, item)
  {}

  lemma OneDecides<G(!new), S(!new)>(w: World<G, S>, kernels: Kernels<G>, item: Item)
    requires Sound(w) && Agrees(w, kernels) && kernels.one(item).Some?
    ensures kernels.one(item).value == Verdict(w, DalekStrict, item)
  {
    hide Verdict, Sound;
  }

  lemma PairDecides<G(!new), S(!new)>(w: World<G, S>, kernels: Kernels<G>, a: Item, b: Item)
    requires Sound(w) && Agrees(w, kernels) && kernels.pair(a, b).Some?
    ensures kernels.pair(a, b).value == (Verdict(w, DalekStrict, a), Verdict(w, DalekStrict, b))
  {
    hide Verdict, Sound;
  }

  lemma TrustedSlice<G(!new), S(!new)>(w: World<G, S>, kernels: Kernels<G>, pre: seq<Option<Precomputed<G>>>, lo: nat, hi: nat)
    requires lo <= hi <= |pre| && Trusted(w, kernels, pre)
    ensures Trusted(w, kernels, pre[lo..hi])
  {}

  lemma SliceGroups<G>(items: seq<Item>, pre: seq<Option<Precomputed<G>>>, lo: nat, hi: nat)
    requires lo < hi <= |items| == |pre| && (hi - lo) % 4 == 0
    requires forall g: nat :: lo + 4 * g < hi ==> WarmGroup(items, pre, lo + 4 * g)
    ensures forall g: nat :: 4 * g < hi - lo ==> WarmGroup(items[lo..hi], pre[lo..hi], 4 * g)
  {
    forall g: nat | 4 * g < hi - lo ensures WarmGroup(items[lo..hi], pre[lo..hi], 4 * g) {
      assert WarmGroup(items, pre, lo + 4 * g);
    }
  }
}
