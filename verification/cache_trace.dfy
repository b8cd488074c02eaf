/** What a failing build or promotion leaves behind (ed25519/cache.go:209-268, 384-423): over every run, the
    operation that ends disabled has added no bytes and changed no entry, from its start to its return. */
module CacheTrace {
  import opened CacheModel
  import opened CacheInvariant
  import opened CacheSafety

  /** What a goroutine's own steps have done since it last left Rest. */
  datatype Trace = Trace(spent: int, wrote: bool, failed: bool)

  /** The operation is on its failure path. */
  predicate Failing(pc: Pc) {
    || (pc.Constructing? && pc.construction == Finish(DISABLED))
    || (pc.Committing? && pc.committing.Disable?)
  }

  function Noted(tr: Trace, before: Shared, pc: Pc, after: Shared, next: Pc): Trace {
    var base := if pc.Rest? then Trace(0, false, false) else tr;
    Trace(base.spent + (after.bytes - before.bytes), base.wrote || after.tables != before.tables, base.failed || Failing(next))
  }

  /** The traces after any interleaving. */
  function Traces(cfg: Config, n: nat, moves: seq<Move>): (trs: seq<Trace>)
    requires forall i :: 0 <= i < |moves| ==> moves[i].thread < n
    ensures |trs| == n
  {
    if |moves| == 0 then seq(n, _ => Trace(0, false, false))
    else
      var init, last := moves[..|moves| - 1], moves[|moves| - 1];
      var sys, t, trs := Run(cfg, n, init), last.thread, Traces(cfg, n, init);
      var r := ThreadStep(cfg, sys.sh, t, sys.threads[t], last.choice);
      trs[t := Noted(trs[t], sys.sh, sys.threads[t], r.0, r.1)]
  }

  /** Places an operation passes before it reserves bytes or writes an entry. */
  predicate Quiet(pc: Pc) {
    match pc
    case Rest => false
    case Admitting(_, _) => true
    case Constructing(_, at) => at.Affordable? || at.Build? || at.Recheck? || at.Reserve? || at.ReserveCas?
    case Promoting(_, _) => true
    case Queueing(at) => !at.Release?
    case Gathering(_) => true
    case Committing(_, at) => at.Upgrade? || at.ReserveDelta? || at.ReserveDeltaCas?
  }

  predicate TraceInv(pc: Pc, tr: Trace) {
    && (tr.failed ==> tr.spent == 0 && !tr.wrote && (Failing(pc) || pc.Rest? || pc == Queueing(Release)))
    && (Failing(pc) ==> tr.failed)
    && (Quiet(pc) ==> tr.spent == 0 && !tr.wrote)
  }

  lemma AdmitTrace(cfg: Config, sh: Shared, k: Key, at: Admission, tr: Trace)
    requires TraceInv(Admitting(k, at), tr)
    ensures var r := AdmitStep(cfg, sh, k, at); TraceInv(r.1, Noted(tr, sh, Admitting(k, at), r.0, r.1))
  {}

  lemma BuildTrace(cfg: Config, sh: Shared, k: Key, at: Construction, c: Choice, tr: Trace)
    requires TraceInv(Constructing(k, at), tr)
    ensures var r := BuildStep(cfg, sh, k, at, c); TraceInv(r.1, Noted(tr, sh, Constructing(k, at), r.0, r.1))
  {}

  lemma PromoteTrace(cfg: Config, sh: Shared, t: nat, pre: Pre, at: Promoting, tr: Trace)
    requires TraceInv(Promoting(pre, at), tr)
    ensures var r := PromoteStep(cfg, sh, t, pre, at); TraceInv(r.1, Noted(tr, sh, Promoting(pre, at), r.0, r.1))
  {}

  lemma QueueTrace(cfg: Config, sh: Shared, at: Queueing, tr: Trace)
    requires TraceInv(Queueing(at), tr)
    ensures var r := QueueStep(cfg, sh, at); TraceInv(r.1, Noted(tr, sh, Queueing(at), r.0, r.1))
  {}

  lemma GatherTrace(cfg: Config, sh: Shared, at: Gathering, c: Choice, tr: Trace)
    requires TraceInv(Gathering(at), tr)
    ensures var r := GatherStep(cfg, sh, at, c); TraceInv(r.1, Noted(tr, sh, Gathering(at), r.0, r.1))
  {
    hide Current, Without;
    GatherWrites(cfg, sh, at, c);
  }

  lemma CommitTrace(cfg: Config, sh: Shared, cur: seq<Pre>, at: Committing, c: Choice, tr: Trace)
    requires TraceInv(Committing(cur, at), tr)
    ensures var r := CommitStep(cfg, sh, cur, at, c); TraceInv(r.1, Noted(tr, sh, Committing(cur, at), r.0, r.1))
  {
    hide Delta, Usable;
  }

  /** A goroutine's own step keeps its account right. */
  lemma TraceStep(cfg: Config, sh: Shared, t: nat, pc: Pc, c: Choice, tr: Trace)
    requires TraceInv(pc, tr)
    ensures var r := ThreadStep(cfg, sh, t, pc, c); TraceInv(r.1, Noted(tr, sh, pc, r.0, r.1))
  {
    hide AdmitStep, BuildStep, PromoteStep, QueueStep, GatherStep, CommitStep;
    match pc
    case Rest =>
    case Admitting(k, at) => AdmitTrace(cfg, sh, k, at, tr);
    case Constructing(k, at) => BuildTrace(cfg, sh, k, at, c, tr);
    case Promoting(pre, at) => PromoteTrace(cfg, sh, t, pre, at, tr);
    case Queueing(at) => QueueTrace(cfg, sh, at, tr);
    case Gathering(at) => GatherTrace(cfg, sh, at, c, tr);
    case Committing(cur, at) => CommitTrace(cfg, sh, cur, at, c, tr);
  }

  lemma {:induction false} TracesHold(cfg: Config, n: nat, moves: seq<Move>, t: nat)
    requires t < n && forall i :: 0 <= i < |moves| ==> moves[i].thread < n
    ensures TraceInv(Run(cfg, n, moves).threads[t], Traces(cfg, n, moves)[t])
  {
    hide ThreadStep, TraceInv, Noted;
    if |moves| == 0 {
      RestTrace();
    } else {
      var init, last := moves[..|moves| - 1], moves[|moves| - 1];
      TracesHold(cfg, n, init, t);
      var sys := Run(cfg, n, init);
      if t == last.thread { TraceStep(cfg, sys.sh, t, sys.threads[t], last.choice, Traces(cfg, n, init)[t]); }
    }
  }

  lemma RestTrace()
    ensures TraceInv(Rest, Trace(0, false, false))
  {}

  /** Every build and every promotion that fails, up to and including its return to Rest: across all its own
      steps it has added no bytes and written no entry. */
  lemma FailureChangesNothing(cfg: Config, n: nat, moves: seq<Move>, t: nat)
    requires t < n && forall i :: 0 <= i < |moves| ==> moves[i].thread < n
    ensures var tr, pc := Traces(cfg, n, moves)[t], Run(cfg, n, moves).threads[t];
      && (tr.failed ==> tr.spent == 0 && !tr.wrote)
      && (Failing(pc) ==> tr.failed && Reserved(pc) == 0)
  {
    hide Run, Traces, Delta;
    TracesHold(cfg, n, moves, t);
  }

  // ---------------------------------------------------------------- what a disabled key keeps

  lemma UpgradesGrow(cfg: Config, sh: Shared, t: nat, pc: Pc, c: Choice, k: Key)
    ensures Count(ThreadStep(cfg, sh, t, pc, c).0.upgrades, k) >= Count(sh.upgrades, k)
  {
    hide AdmitStep, BuildStep, PromoteStep, QueueStep, GatherStep, CommitStep;
    Writes(cfg, sh, t, pc, c);
    if pc.Committing? { CommitUpgradesGrow(cfg, sh, pc.cur, pc.committing, c, k); }
  }

  lemma CommitUpgradesGrow(cfg: Config, sh: Shared, cur: seq<Pre>, at: Committing, c: Choice, k: Key)
    ensures Count(CommitStep(cfg, sh, cur, at, c).0.upgrades, k) >= Count(sh.upgrades, k)
  {
    hide Delta, Usable;
  }

  /** An entry whose key has not been upgraded is the entry that was installed, through any continuation. */
  lemma {:induction false} UnupgradedUntouched(cfg: Config, n: nat, moves: seq<Move>, more: seq<Move>, k: Key)
    requires forall i :: 0 <= i < |moves| ==> moves[i].thread < n
    requires forall i :: 0 <= i < |more| ==> more[i].thread < n
    ensures var a, b := Run(cfg, n, moves).sh, Run(cfg, n, moves + more).sh;
      k in a.tables && Count(b.upgrades, k) == 0 ==> k in b.tables && b.tables[k] == a.tables[k]
    decreases |more|
  {
    hide Run, Inv, ThreadStep, Count;
    if |more| == 0 {
      assert moves + more == moves;
    } else {
      var m := |more| - 1;
      UnupgradedUntouched(cfg, n, moves, more[..m], k);
      var all := moves + more[..m];
      RunInv(cfg, n, all);
      LastMove(cfg, n, moves + more, all);
      assert (moves + more)[|moves| + m] == more[m];
      var sys := Run(cfg, n, all);
      UpgradesGrow(cfg, sys.sh, more[m].thread, sys.threads[more[m].thread], more[m].choice, k);
      if k in sys.sh.tables { OnlyUpgrades(cfg, sys, more[m].thread, more[m].choice, k); }
      if k in Run(cfg, n, moves).sh.tables { FinalForever(cfg, n, moves, more[..m], k); }
    }
  }

  lemma DisabledCount(cfg: Config, sys: System, k: Key)
    requires Inv(cfg, sys) && StatusOf(sys.sh, k) == Disabled
    ensures Count(sys.sh.upgrades, k) == 0
  {
    hide BytesInv, SlotInv, CountInv, SeenInv, BuiltInv, PendingInv, OneBuilder, BuildInv, AdmitInv, GatherInv, PromoteInv, QueueStepInv,
         Installed, Delta, Usable;
    var h := HolderPc(sys);
    assert LocalInv(cfg, sys.sh, h);
  }

  /** A key whose promotion ended disabled was never upgraded, and its entry is still the one installed before
      the promotion, at every later point of every run. */
  lemma DisabledUntouched(cfg: Config, n: nat, moves: seq<Move>, more: seq<Move>, k: Key)
    requires forall i :: 0 <= i < |moves| ==> moves[i].thread < n
    requires forall i :: 0 <= i < |more| ==> more[i].thread < n
    ensures var a, b := Run(cfg, n, moves).sh, Run(cfg, n, moves + more).sh;
      StatusOf(b, k) == Disabled ==> Count(b.upgrades, k) == 0 && (k in a.tables ==> k in b.tables && b.tables[k] == a.tables[k])
  {
    hide Run, Inv, StatusOf, Count;
    RunInv(cfg, n, moves + more);
    UnupgradedUntouched(cfg, n, moves, more, k);
    if StatusOf(Run(cfg, n, moves + more).sh, k) == Disabled { DisabledCount(cfg, Run(cfg, n, moves + more), k); }
  }

  /** While a group is being disabled, every one of its candidates is still the installed entry, never upgraded. */
  lemma DisablingGroup(cfg: Config, n: nat, moves: seq<Move>, t: nat, i: nat)
    requires t < n && forall j :: 0 <= j < |moves| ==> moves[j].thread < n
    requires var pc := Run(cfg, n, moves).threads[t]; pc.Committing? && pc.committing == Disable(i)
    ensures var sys := Run(cfg, n, moves);
      var cur := sys.threads[t].cur;
      && Installed(sys.sh, cur, 0)
      && (forall j :: 0 <= j < |cur| ==>
           Count(sys.sh.upgrades, cur[j].raw) == 0 && StatusOf(sys.sh, cur[j].raw) == (if j < i then Disabled else Building))
  {
    RunInv(cfg, n, moves);
    hide Run, BytesInv, SlotInv, CountInv, SeenInv, BuiltInv, PendingInv, OneBuilder, BuildInv, AdmitInv, GatherInv, PromoteInv,
         QueueStepInv, Delta, Usable, Count;
    var sys := Run(cfg, n, moves);
    assert LocalInv(cfg, sys.sh, sys.threads[t]) && HolderPc(sys) == sys.threads[t];
  }
}
