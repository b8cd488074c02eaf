/** Every step of every goroutine preserves the cache invariant; what that means for whole runs. */
module CacheSafety {
  import opened CacheModel
  import opened CacheInvariant

  // ---------------------------------------------------------------- the acting goroutine

  lemma AdmitOwn(cfg: Config, sh: Shared, k: Key, at: Admission)
    requires AdmitInv(sh, k, at) && BuiltInv(sh)
    ensures var r := AdmitStep(cfg, sh, k, at); LocalInv(cfg, r.0, r.1)
  {}

  lemma BuildOwn(cfg: Config, sh: Shared, k: Key, at: Construction, c: Choice)
    requires BuildInv(cfg, sh, k, at)
    ensures var r := BuildStep(cfg, sh, k, at, c); LocalInv(cfg, r.0, r.1)
  {}

  lemma PromoteOwn(cfg: Config, sh: Shared, t: nat, pre: Pre, at: Promoting)
    requires PromoteInv(sh, pre, at) && (sh.lock == Free ==> |sh.pending| < PROMOTION_WIDTH)
    ensures var r := PromoteStep(cfg, sh, t, pre, at); LocalInv(cfg, r.0, r.1)
  {}

  lemma QueueOwn(cfg: Config, sh: Shared, at: Queueing)
    requires QueueStepInv(sh, at)
    ensures var r := QueueStep(cfg, sh, at); LocalInv(cfg, r.0, r.1)
  {
    if at.Stale? { WithoutSize(sh.pending, at.pre.raw); }
    if at.Insert? { StoreSize(sh.pending, at.pre.raw, at.pre); }
  }

  lemma GroupOwn(cfg: Config, sh: Shared, at: Gathering, c: Choice)
    requires (at.Next? || at.Take? || at.PutBack?) && GatherInv(sh, at) && PendingInv(sh)
    ensures var r := GroupStep(cfg, sh, at, c); LocalInv(cfg, r.0, r.1)
  {
    hide GroupStep, GatherInv;
    match at
    case Next(got) => NextOwn(cfg, sh, got, c);
    case Take(got, k, good) => TakeOwn(cfg, sh, got, k, good, c);
    case PutBack(got, i) => PutBackOwn(cfg, sh, got, i, c);
  }

  lemma NextOwn(cfg: Config, sh: Shared, got: seq<Pre>, c: Choice)
    requires GatherInv(sh, Next(got)) && PendingInv(sh)
    ensures var r := GroupStep(cfg, sh, Next(got), c); LocalInv(cfg, r.0, r.1)
  {
    hide Owned, Installed;
  }

  lemma TakeOwn(cfg: Config, sh: Shared, got: seq<Pre>, k: Key, good: bool, c: Choice)
    requires GatherInv(sh, Take(got, k, good)) && PendingInv(sh)
    ensures var r := GroupStep(cfg, sh, Take(got, k, good), c); LocalInv(cfg, r.0, r.1)
  {
    WithoutSize(sh.pending, k);
  }

  lemma PutBackOwn(cfg: Config, sh: Shared, got: seq<Pre>, i: nat, c: Choice)
    requires GatherInv(sh, PutBack(got, i))
    ensures var r := GroupStep(cfg, sh, PutBack(got, i), c); LocalInv(cfg, r.0, r.1)
  {
    if i < |got| { StoreSize(sh.pending, got[i].raw, got[i]); }
  }

  lemma SoloOwn(cfg: Config, sh: Shared, at: Gathering)
    requires (at.SoloCheck? || at.SoloTake?) && GatherInv(sh, at) && PendingInv(sh)
    ensures var r := SoloStep(cfg, sh, at); LocalInv(cfg, r.0, r.1)
  {
    WithoutSize(sh.pending, at.key);
  }

  lemma CommitOwn(cfg: Config, sh: Shared, cur: seq<Pre>, at: Committing, c: Choice)
    requires CommitInv(cfg, sh, cur, at)
    ensures var r := CommitStep(cfg, sh, cur, at, c); LocalInv(cfg, r.0, r.1)
  {}

  lemma Own(cfg: Config, sh: Shared, t: nat, pc: Pc, c: Choice)
    requires LocalInv(cfg, sh, pc) && BuiltInv(sh) && PendingInv(sh) && (sh.lock == Free ==> |sh.pending| < PROMOTION_WIDTH)
    ensures var r := ThreadStep(cfg, sh, t, pc, c); LocalInv(cfg, r.0, r.1)
  {
    hide AdmitStep, BuildStep, PromoteStep, QueueStep, GroupStep, SoloStep, CommitStep, BuildInv,
         QueueStepInv, GatherInv, CommitInv, BuiltInv, PendingInv;
    match pc
    case Rest =>
    case Admitting(k, at) => AdmitOwn(cfg, sh, k, at);
    case Constructing(k, at) => BuildOwn(cfg, sh, k, at, c);
    case Promoting(pre, at) => PromoteOwn(cfg, sh, t, pre, at);
    case Queueing(at) => QueueOwn(cfg, sh, at);
    case Gathering(at) => if at.SoloCheck? || at.SoloTake? { SoloOwn(cfg, sh, at); } else { GroupOwn(cfg, sh, at, c); }
    case Committing(cur, at) => CommitOwn(cfg, sh, cur, at, c);
  }

  // ---------------------------------------------------------------- the others

  /** Another goroutine's step leaves this one's assertions standing. */
  lemma BystanderAdmit(sh: Shared, pc: Pc, next: Shared, k: Key, at: Admission)
    requires SeenForward(sh, pc, next) && AdmitInv(sh, k, at)
    ensures AdmitInv(next, k, at)
  {}

  lemma BystanderBuild(cfg: Config, sh: Shared, pc: Pc, next: Shared, k: Key, at: Construction)
    requires SeenForward(sh, pc, next) && TablesForward(sh, pc, next) && BuildInv(cfg, sh, k, at)
    requires pc.Constructing? ==> pc.key != k
    ensures BuildInv(cfg, next, k, at)
  {}

  lemma BystanderOwned(sh: Shared, pc: Pc, next: Shared, cur: seq<Pre>, i: nat)
    requires StatusForward(sh, pc, next) && !Locked(pc) && Owned(sh, cur, i)
    ensures Owned(next, cur, i)
  {}

  lemma BystanderInstalled(sh: Shared, pc: Pc, next: Shared, cur: seq<Pre>, i: nat)
    requires TablesForward(sh, pc, next) && !Locked(pc) && Installed(sh, cur, i)
    ensures Installed(next, cur, i)
  {}

  lemma BystanderLocked(cfg: Config, sh: Shared, pc: Pc, next: Shared, other: Pc)
    requires StatusForward(sh, pc, next) && TablesForward(sh, pc, next) && !Locked(pc)
    requires Locked(other) && LocalInv(cfg, sh, other)
    ensures LocalInv(cfg, next, other)
  {
    hide Owned, Installed;
    match other
    case Queueing(at) =>
    case Gathering(at) =>
      if at.Next? || at.Take? { BystanderOwned(sh, pc, next, at.got, 0); BystanderInstalled(sh, pc, next, at.got, 0); }
      if at.PutBack? { BystanderOwned(sh, pc, next, at.got, at.at); }
    case Committing(cur, at) =>
      match at {
        case Upgrade => BystanderOwned(sh, pc, next, cur, 0); BystanderInstalled(sh, pc, next, cur, 0);
        case Disable(i) => BystanderOwned(sh, pc, next, cur, i); BystanderInstalled(sh, pc, next, cur, 0);
        case ReserveDelta(_) => BystanderOwned(sh, pc, next, cur, 0); BystanderInstalled(sh, pc, next, cur, 0);
        case ReserveDeltaCas(_, _) => BystanderOwned(sh, pc, next, cur, 0); BystanderInstalled(sh, pc, next, cur, 0);
        case Replace(_, i) => BystanderOwned(sh, pc, next, cur, i); BystanderInstalled(sh, pc, next, cur, i);
        case Settle(_, i) => BystanderOwned(sh, pc, next, cur, i); BystanderInstalled(sh, pc, next, cur, i + 1);
      }
    case _ =>
  }

  lemma Bystander(cfg: Config, sh: Shared, pc: Pc, next: Shared, other: Pc)
    requires SeenForward(sh, pc, next) && StatusForward(sh, pc, next) && TablesForward(sh, pc, next)
    requires Apart(pc, other) && !(Locked(pc) && Locked(other)) && LocalInv(cfg, sh, other)
    ensures LocalInv(cfg, next, other)
  {
    hide SeenForward, TablesForward, AdmitInv, BuildInv, QueueStepInv, GatherInv, CommitInv;
    match other
    case Rest =>
    case Admitting(k, at) => BystanderAdmit(sh, pc, next, k, at);
    case Constructing(k, at) => BystanderBuild(cfg, sh, pc, next, k, at);
    case Promoting(pre, at) =>
    case _ => BystanderLocked(cfg, sh, pc, next, other);
  }

  // ---------------------------------------------------------------- histories

  lemma AdmitSeenInv(cfg: Config, sh: Shared, k: Key, at: Admission)
    requires AdmitInv(sh, k, at) && SeenInv(sh)
    ensures SeenInv(AdmitStep(cfg, sh, k, at).0)
  {
    hide AdmitStep;
    SightingMove(cfg, sh, k, at);
  }

  /** Counters and sightings move together. */
  lemma SightingMove(cfg: Config, sh: Shared, k: Key, at: Admission)
    requires AdmitInv(sh, k, at)
    ensures var next := AdmitStep(cfg, sh, k, at).0;
      || (next.seen == sh.seen && next.sightings == sh.sightings)
      || (k !in sh.seen && next.seen == sh.seen[k := 0] && next.sightings == sh.sightings)
      || (k in sh.seen && sh.seen[k] >= 0 && next.sightings == Bumped(sh.sightings, k)
          && next.seen == sh.seen[k := if sh.seen[k] >= BUILD_THRESHOLD - 1 then BUILDING else sh.seen[k] + 1])
  {}

  lemma BuildSeenInv(cfg: Config, sh: Shared, k: Key, at: Construction, c: Choice)
    requires BuildInv(cfg, sh, k, at) && SeenInv(sh)
    ensures SeenInv(BuildStep(cfg, sh, k, at, c).0)
  {}

  lemma SeenInvStep(cfg: Config, sh: Shared, t: nat, pc: Pc, c: Choice)
    requires LocalInv(cfg, sh, pc) && SeenInv(sh)
    ensures SeenInv(ThreadStep(cfg, sh, t, pc, c).0)
  {
    hide AdmitStep, BuildStep, PromoteStep, QueueStep, GatherStep, CommitStep, AdmitInv, BuildInv, PromoteInv,
         QueueStepInv, GatherInv, CommitInv, Count;
    Writes(cfg, sh, t, pc, c);
    if pc.Admitting? { AdmitSeenInv(cfg, sh, pc.key, pc.admission); }
    if pc.Constructing? { BuildSeenInv(cfg, sh, pc.key, pc.construction, c); }
  }

  lemma BuildBuiltInv(cfg: Config, sh: Shared, k: Key, at: Construction, c: Choice)
    requires BuildInv(cfg, sh, k, at) && BuiltInv(sh)
    ensures BuiltInv(BuildStep(cfg, sh, k, at, c).0)
  {
    var next := BuildStep(cfg, sh, k, at, c).0;
    forall j | Count(next.builds, j) > 0
      ensures Count(next.builds, j) == 1 && j in next.seen && next.seen[j] < 0
    {
      assert j != k ==> Count(sh.builds, j) == Count(next.builds, j);
    }
  }

  lemma CommitBuiltInv(cfg: Config, sh: Shared, cur: seq<Pre>, at: Committing, c: Choice)
    requires CommitInv(cfg, sh, cur, at) && BuiltInv(sh)
    ensures BuiltInv(CommitStep(cfg, sh, cur, at, c).0)
  {}

  lemma BuiltInvStep(cfg: Config, sh: Shared, t: nat, pc: Pc, c: Choice)
    requires LocalInv(cfg, sh, pc) && BuiltInv(sh)
    ensures BuiltInv(ThreadStep(cfg, sh, t, pc, c).0)
  {
    hide AdmitStep, BuildStep, PromoteStep, QueueStep, GatherStep, CommitStep, AdmitInv, BuildInv, PromoteInv,
         QueueStepInv, GatherInv, CommitInv, Count;
    Writes(cfg, sh, t, pc, c);
    SeenMoves(cfg, sh, t, pc, c);
    if pc.Constructing? { BuildBuiltInv(cfg, sh, pc.key, pc.construction, c); }
    if pc.Committing? { CommitBuiltInv(cfg, sh, pc.cur, pc.committing, c); }
  }

  lemma QueuePendingInv(cfg: Config, sh: Shared, at: Queueing)
    requires QueueStepInv(sh, at) && PendingInv(sh)
    ensures PendingInv(QueueStep(cfg, sh, at).0)
  {}

  lemma GroupPendingInv(cfg: Config, sh: Shared, at: Gathering, c: Choice)
    requires (at.Next? || at.Take? || at.PutBack?) && GatherInv(sh, at) && PendingInv(sh)
    ensures PendingInv(GroupStep(cfg, sh, at, c).0)
  {}

  lemma SoloPendingInv(cfg: Config, sh: Shared, at: Gathering)
    requires (at.SoloCheck? || at.SoloTake?) && GatherInv(sh, at) && PendingInv(sh)
    ensures PendingInv(SoloStep(cfg, sh, at).0)
  {}

  lemma CommitPendingInv(cfg: Config, sh: Shared, cur: seq<Pre>, at: Committing, c: Choice)
    requires CommitInv(cfg, sh, cur, at) && PendingInv(sh)
    ensures PendingInv(CommitStep(cfg, sh, cur, at, c).0)
  {}

  lemma PendingInvStep(cfg: Config, sh: Shared, t: nat, pc: Pc, c: Choice)
    requires LocalInv(cfg, sh, pc) && PendingInv(sh)
    ensures PendingInv(ThreadStep(cfg, sh, t, pc, c).0)
  {
    StatusMoves(cfg, sh, t, pc, c);
    hide AdmitStep, BuildStep, PromoteStep, QueueStep, GroupStep, SoloStep, CommitStep, AdmitInv, BuildInv, PromoteInv,
         QueueStepInv, GatherInv, CommitInv;
    match pc
    case Queueing(at) => QueuePendingInv(cfg, sh, at);
    case Gathering(at) => if at.SoloCheck? || at.SoloTake? { SoloPendingInv(cfg, sh, at); } else { GroupPendingInv(cfg, sh, at, c); }
    case Committing(cur, at) => CommitPendingInv(cfg, sh, cur, at, c);
    case _ =>
  }

  /** A completed or disabled promotion is final. */
  ghost predicate CompleteForward(sh: Shared, next: Shared) {
    forall k :: StatusOf(sh, k) == Complete || StatusOf(sh, k) == Disabled ==> StatusOf(next, k) == StatusOf(sh, k)
  }

  lemma QueueComplete(cfg: Config, sh: Shared, at: Queueing)
    requires QueueStepInv(sh, at)
    ensures CompleteForward(sh, QueueStep(cfg, sh, at).0)
  {}

  lemma GroupComplete(cfg: Config, sh: Shared, at: Gathering, c: Choice)
    requires (at.Next? || at.Take? || at.PutBack?) && GatherInv(sh, at) && PendingInv(sh)
    ensures CompleteForward(sh, GroupStep(cfg, sh, at, c).0)
  {}

  lemma SoloComplete(cfg: Config, sh: Shared, at: Gathering)
    requires (at.SoloCheck? || at.SoloTake?) && GatherInv(sh, at) && PendingInv(sh)
    ensures CompleteForward(sh, SoloStep(cfg, sh, at).0)
  {}

  lemma CommitComplete(cfg: Config, sh: Shared, cur: seq<Pre>, at: Committing, c: Choice)
    requires CommitInv(cfg, sh, cur, at)
    ensures CompleteForward(sh, CommitStep(cfg, sh, cur, at, c).0)
  {}

  lemma CompleteStep(cfg: Config, sh: Shared, t: nat, pc: Pc, c: Choice)
    requires LocalInv(cfg, sh, pc) && PendingInv(sh)
    ensures CompleteForward(sh, ThreadStep(cfg, sh, t, pc, c).0)
  {
    StatusMoves(cfg, sh, t, pc, c);
    hide AdmitStep, BuildStep, PromoteStep, QueueStep, GroupStep, SoloStep, CommitStep, AdmitInv, BuildInv, PromoteInv,
         QueueStepInv, GatherInv, CommitInv, PendingInv;
    match pc
    case Queueing(at) => QueueComplete(cfg, sh, at);
    case Gathering(at) => if at.SoloCheck? || at.SoloTake? { SoloComplete(cfg, sh, at); } else { GroupComplete(cfg, sh, at, c); }
    case Committing(cur, at) => CommitComplete(cfg, sh, cur, at, c);
    case _ =>
  }

  /** What a committing step does to upgrade histories. */
  lemma CommitUpgrades(cfg: Config, sh: Shared, cur: seq<Pre>, at: Committing, c: Choice, k: Key)
    requires CommitInv(cfg, sh, cur, at)
    requires Count(sh.upgrades, k) > 0 ==>
      Count(sh.upgrades, k) == 1 && (StatusOf(sh, k) == Complete || InFlight(Committing(cur, at), k))
    ensures var r := CommitStep(cfg, sh, cur, at, c);
      Count(r.0.upgrades, k) > 0 ==> Count(r.0.upgrades, k) == 1 && (StatusOf(r.0, k) == Complete || InFlight(r.1, k))
  {}

  lemma UpgradeStep(cfg: Config, sys: System, t: nat, c: Choice)
    requires Inv(cfg, sys) && t < |sys.threads|
    ensures UpgradeInv(Step(cfg, sys, t, c))
  {
    hide AdmitStep, BuildStep, PromoteStep, QueueStep, GatherStep, CommitStep, AdmitInv, BuildInv, PromoteInv,
         QueueStepInv, GatherInv, CommitInv, Count, StatusOf, InFlight, BytesInv, SlotInv, CountInv, SeenInv, BuiltInv,
         PendingInv, OneBuilder;
    var pc := sys.threads[t];
    var next := Step(cfg, sys, t, c);
    Writes(cfg, sys.sh, t, pc, c);
    CompleteStep(cfg, sys.sh, t, pc, c);
    forall k | Count(next.sh.upgrades, k) > 0
      ensures Count(next.sh.upgrades, k) == 1 && (StatusOf(next.sh, k) == Complete || InFlight(HolderPc(next), k))
    {
      if pc.Committing? {
        assert HolderPc(sys) == pc;
        CommitUpgrades(cfg, sys.sh, pc.cur, pc.committing, c, k);
        assert HolderPc(next) == ThreadStep(cfg, sys.sh, t, pc, c).1;
      } else {
        Holder(cfg, sys, t, c);
        if !HolderPc(sys).Committing? { NotInFlight(HolderPc(sys), k); }
      }
    }
  }

  lemma NotInFlight(pc: Pc, k: Key)
    requires !pc.Committing?
    ensures !InFlight(pc, k)
  {}

  /** A step outside the commit phase changes the holder's place only if it is the holder's own. */
  lemma Holder(cfg: Config, sys: System, t: nat, c: Choice)
    requires t < |sys.threads| && LockInv(sys) && !sys.threads[t].Committing?
    ensures HolderPc(Step(cfg, sys, t, c)) == HolderPc(sys) || !HolderPc(sys).Committing?
  {
    hide AdmitStep, BuildStep, QueueStep, GatherStep, CommitStep;
    Writes(cfg, sys.sh, t, sys.threads[t], c);
  }

  // ---------------------------------------------------------------- sums

  /** Every step moves as many bytes into the total as it reserves or installs. */
  lemma BuildBytes(cfg: Config, sh: Shared, k: Key, at: Construction, c: Choice)
    requires BuildInv(cfg, sh, k, at) && 0 <= sh.bytes && (sh.bytes == 0 || sh.bytes <= cfg.budget)
    ensures var r := BuildStep(cfg, sh, k, at, c);
      && r.0.bytes - sh.bytes == TableBytes(r.0.tables) - TableBytes(sh.tables) + Reserved(r.1) - Reserved(Constructing(k, at))
      && 0 <= r.0.bytes && (r.0.bytes == 0 || r.0.bytes <= cfg.budget)
  {
    hide TableBytes;
    if at.Install? { TableBytesStore(sh.tables, k, at.pre); }
  }

  lemma CommitBytes(cfg: Config, sh: Shared, cur: seq<Pre>, at: Committing, c: Choice)
    requires CommitInv(cfg, sh, cur, at) && 0 <= sh.bytes && (sh.bytes == 0 || sh.bytes <= cfg.budget)
    ensures var r := CommitStep(cfg, sh, cur, at, c);
      && r.0.bytes - sh.bytes == TableBytes(r.0.tables) - TableBytes(sh.tables) + Reserved(r.1) - Reserved(Committing(cur, at))
      && 0 <= r.0.bytes && (r.0.bytes == 0 || r.0.bytes <= cfg.budget)
  {
    hide TableBytes;
    if at.Replace? && at.at < |cur| { TableBytesStore(sh.tables, at.next[at.at].raw, at.next[at.at]); }
  }

  lemma BytesStep(cfg: Config, sys: System, t: nat, c: Choice)
    requires t < |sys.threads| && BytesInv(cfg, sys) && LocalInv(cfg, sys.sh, sys.threads[t])
    ensures BytesInv(cfg, Step(cfg, sys, t, c))
  {
    hide AdmitStep, BuildStep, PromoteStep, QueueStep, GroupStep, SoloStep, CommitStep, AdmitInv, BuildInv, PromoteInv,
         QueueStepInv, GatherInv, CommitInv, TableBytes, Total, Reserved;
    var pc := sys.threads[t];
    Writes(cfg, sys.sh, t, pc, c);
    TotalUpdate(Reserved, sys.threads, t, ThreadStep(cfg, sys.sh, t, pc, c).1);
    match pc
    case Rest => IdleReserved(cfg, sys.sh, t, pc, c);
    case Constructing(k, at) => BuildBytes(cfg, sys.sh, k, at, c);
    case Committing(cur, at) => CommitBytes(cfg, sys.sh, cur, at, c);
    case _ => IdleReserved(cfg, sys.sh, t, pc, c);
  }

  lemma IdleReserved(cfg: Config, sh: Shared, t: nat, pc: Pc, c: Choice)
    requires !pc.Constructing? && !pc.Committing?
    ensures Reserved(pc) == 0 && Reserved(ThreadStep(cfg, sh, t, pc, c).1) == 0
  {
    Places(cfg, sh, t, pc, c);
    hide ThreadStep;
  }

  /** Where each kind of step can lead. */
  lemma Places(cfg: Config, sh: Shared, t: nat, pc: Pc, c: Choice)
    ensures var to := ThreadStep(cfg, sh, t, pc, c).1;
      && (to.Constructing? ==> pc.Constructing? || (pc.Admitting? && to.construction.Affordable?))
      && (to.Constructing? ==> to.key == pc.key)
      && (to.Committing? ==> pc.Committing? || (pc.Gathering? && to.committing.Upgrade?))
      && (to.Admitting? ==> pc.Admitting? || pc.Rest?)
      && (pc.Rest? && to.Admitting? ==> to.admission.Lookup?)
      && (Locked(to) ==> Locked(pc) || (pc.Promoting? && pc.promoting.Acquire? && sh.lock == Free))
      && (Locked(pc) && !Locked(to) ==> pc.Queueing? && pc.queueing.Release?)
  {
    hide SetStatus, Without, Current, Full, StatusOf, Delta, Usable, Bumped, Wrap32;
    match pc
    case Admitting(k, at) => AdmitPlaces(cfg, sh, k, at);
    case Constructing(k, at) => BuildPlaces(cfg, sh, k, at, c);
    case Promoting(pre, at) => PromotePlaces(cfg, sh, t, pre, at);
    case Queueing(at) => QueuePlaces(cfg, sh, at);
    case Gathering(at) => GatherPlaces(cfg, sh, at, c);
    case Committing(cur, at) => CommitPlaces(cfg, sh, cur, at, c);
    case Rest =>
  }

  lemma AdmitPlaces(cfg: Config, sh: Shared, k: Key, at: Admission)
    ensures var to := AdmitStep(cfg, sh, k, at).1;
      to.Rest? || (to.Admitting? && to.key == k) || (to.Constructing? && to.key == k && to.construction.Affordable?)
  {}

  lemma BuildPlaces(cfg: Config, sh: Shared, k: Key, at: Construction, c: Choice)
    ensures var to := BuildStep(cfg, sh, k, at, c).1; to.Rest? || (to.Constructing? && to.key == k)
  {}

  lemma PromotePlaces(cfg: Config, sh: Shared, t: nat, pre: Pre, at: Promoting)
    ensures var to := PromoteStep(cfg, sh, t, pre, at).1;
      to.Rest? || to.Promoting? || (to.Queueing? && at.Acquire? && sh.lock == Free)
  {}

  lemma QueuePlaces(cfg: Config, sh: Shared, at: Queueing)
    ensures var to := QueueStep(cfg, sh, at).1; to.Queueing? || to.Gathering? || (to.Rest? && at.Release?)
  {}

  lemma GatherPlaces(cfg: Config, sh: Shared, at: Gathering, c: Choice)
    ensures var to := GatherStep(cfg, sh, at, c).1;
      to.Queueing? || to.Gathering? || (to.Committing? && to.committing.Upgrade?)
  {
    hide Current, SetStatus, Without, StatusOf;
  }

  lemma CommitPlaces(cfg: Config, sh: Shared, cur: seq<Pre>, at: Committing, c: Choice)
    ensures var to := CommitStep(cfg, sh, cur, at, c).1; to.Queueing? || to.Committing?
  {}

  lemma AdmitSlots(cfg: Config, sh: Shared, k: Key, at: Admission)
    requires AdmitInv(sh, k, at) && sh.seenCount <= ADMISSION_LIMIT
    ensures var r := AdmitStep(cfg, sh, k, at);
      && r.0.seenCount - sh.seenCount == |r.0.seen| - |sh.seen| + Slots(r.1) - Slots(Admitting(k, at))
      && r.0.seenCount <= ADMISSION_LIMIT
  {
    hide AdmitStep;
    SlotMoves(cfg, sh, k, at);
    SeenMove(cfg, sh, k, at);
    if at.Publish? { SeenSize(sh.seen, k, 0); }
    if at.ClaimCas? { SeenSize(sh.seen, k, BUILDING); SeenSize(sh.seen, k, at.saw + 1); }
  }

  lemma SlotMoves(cfg: Config, sh: Shared, k: Key, at: Admission)
    requires AdmitInv(sh, k, at)
    ensures var r := AdmitStep(cfg, sh, k, at);
      r.0.seenCount - sh.seenCount == Slots(r.1) - Slots(Admitting(k, at)) + (if at.Publish? && k !in sh.seen then 1 else 0)
    ensures sh.seenCount <= ADMISSION_LIMIT ==> AdmitStep(cfg, sh, k, at).0.seenCount <= ADMISSION_LIMIT
  {}

  lemma SeenMove(cfg: Config, sh: Shared, k: Key, at: Admission)
    ensures var seen := AdmitStep(cfg, sh, k, at).0.seen;
      || (seen == sh.seen && !(at.Publish? && k !in sh.seen))
      || (at.Publish? && k !in sh.seen && seen == sh.seen[k := 0])
      || (at.ClaimCas? && k in sh.seen && (seen == sh.seen[k := BUILDING] || seen == sh.seen[k := at.saw + 1]))
  {}

  lemma BuildSlots(cfg: Config, sh: Shared, k: Key, at: Construction, c: Choice)
    requires BuildInv(cfg, sh, k, at)
    ensures |BuildStep(cfg, sh, k, at, c).0.seen| == |sh.seen|
  {
    if at.Finish? { SeenSize(sh.seen, k, at.verdict); }
  }

  lemma SlotStep(cfg: Config, sys: System, t: nat, c: Choice)
    requires t < |sys.threads| && SlotInv(sys) && LocalInv(cfg, sys.sh, sys.threads[t])
    ensures SlotInv(Step(cfg, sys, t, c))
  {
    hide AdmitStep, BuildStep, PromoteStep, QueueStep, GatherStep, CommitStep, AdmitInv, BuildInv, PromoteInv,
         QueueStepInv, GatherInv, CommitInv, Total;
    var pc := sys.threads[t];
    Writes(cfg, sys.sh, t, pc, c);
    Places(cfg, sys.sh, t, pc, c);
    TotalUpdate(Slots, sys.threads, t, ThreadStep(cfg, sys.sh, t, pc, c).1);
    if pc.Admitting? { AdmitSlots(cfg, sys.sh, pc.key, pc.admission); }
    if pc.Constructing? { BuildSlots(cfg, sys.sh, pc.key, pc.construction, c); }
  }

  lemma BuildCounts(cfg: Config, sh: Shared, k: Key, at: Construction, c: Choice)
    requires BuildInv(cfg, sh, k, at)
    ensures var r := BuildStep(cfg, sh, k, at, c);
      |r.0.tables| - |sh.tables| == r.0.count - sh.count + Uncounted(r.1) - Uncounted(Constructing(k, at))
  {
    if at.Install? { StoreSize(sh.tables, k, at.pre); }
  }

  lemma CommitCounts(cfg: Config, sh: Shared, cur: seq<Pre>, at: Committing, c: Choice)
    requires CommitInv(cfg, sh, cur, at)
    ensures |CommitStep(cfg, sh, cur, at, c).0.tables| == |sh.tables|
  {
    if at.Replace? && at.at < |cur| { StoreSize(sh.tables, at.next[at.at].raw, at.next[at.at]); }
  }

  lemma CountStep(cfg: Config, sys: System, t: nat, c: Choice)
    requires t < |sys.threads| && CountInv(sys) && LocalInv(cfg, sys.sh, sys.threads[t])
    ensures CountInv(Step(cfg, sys, t, c))
  {
    hide AdmitStep, BuildStep, PromoteStep, QueueStep, GatherStep, CommitStep, AdmitInv, BuildInv, PromoteInv,
         QueueStepInv, GatherInv, CommitInv, Total;
    var pc := sys.threads[t];
    Writes(cfg, sys.sh, t, pc, c);
    Places(cfg, sys.sh, t, pc, c);
    TotalUpdate(Uncounted, sys.threads, t, ThreadStep(cfg, sys.sh, t, pc, c).1);
    if pc.Constructing? { BuildCounts(cfg, sys.sh, pc.key, pc.construction, c); }
    if pc.Committing? { CommitCounts(cfg, sys.sh, pc.cur, pc.committing, c); }
  }

  // ---------------------------------------------------------------- the lock and the builders

  /** The lock changes hands only by acquiring it free and by releasing it. */
  lemma LockMoves(cfg: Config, sh: Shared, t: nat, pc: Pc, c: Choice)
    ensures var r := ThreadStep(cfg, sh, t, pc, c);
      && (Locked(r.1) && !Locked(pc) ==> sh.lock == Free && r.0.lock == Held(t) && r.0.pending == sh.pending)
      && (!Locked(r.1) && Locked(pc) ==> r.0.lock == Free && r.0.pending == sh.pending)
      && (Locked(r.1) == Locked(pc) ==> r.0.lock == sh.lock)
  {
    hide AdmitStep, BuildStep, GatherStep, CommitStep, Current, Without, StatusOf;
    Writes(cfg, sh, t, pc, c);
    Places(cfg, sh, t, pc, c);
  }

  lemma LockStep(cfg: Config, sys: System, t: nat, c: Choice)
    requires t < |sys.threads| && LockInv(sys) && Locals(cfg, sys)
    ensures LockInv(Step(cfg, sys, t, c))
  {
    hide ThreadStep, AdmitInv, BuildInv, PromoteInv, GatherInv, CommitInv;
    var pc := sys.threads[t];
    Writes(cfg, sys.sh, t, pc, c);
    Places(cfg, sys.sh, t, pc, c);
    LockMoves(cfg, sys.sh, t, pc, c);
  }

  /** A build is claimed only while the counter is nonnegative, so no one else is building that key. */
  lemma ClaimIsFresh(cfg: Config, sh: Shared, k: Key, at: Admission, other: Pc)
    requires AdmitInv(sh, k, at) && LocalInv(cfg, sh, other)
    ensures AdmitStep(cfg, sh, k, at).1.Constructing? ==> Apart(AdmitStep(cfg, sh, k, at).1, other)
  {
    hide GatherInv, CommitInv, QueueStepInv;
  }

  lemma BuilderStep(cfg: Config, sys: System, t: nat, c: Choice)
    requires t < |sys.threads| && OneBuilder(sys) && Locals(cfg, sys)
    ensures OneBuilder(Step(cfg, sys, t, c))
  {
    hide AdmitStep, BuildStep, PromoteStep, QueueStep, GatherStep, CommitStep, BuildInv, PromoteInv,
         QueueStepInv, GatherInv, CommitInv, AdmitInv;
    var pc := sys.threads[t];
    var to := ThreadStep(cfg, sys.sh, t, pc, c).1;
    Places(cfg, sys.sh, t, pc, c);
    forall u | 0 <= u < |sys.threads| && u != t
      ensures Apart(to, sys.threads[u]) && Apart(sys.threads[u], to)
    {
      assert Apart(pc, sys.threads[u]);
      if pc.Admitting? { ClaimIsFresh(cfg, sys.sh, pc.key, pc.admission, sys.threads[u]); }
    }
  }

  lemma LocalsStep(cfg: Config, sys: System, t: nat, c: Choice)
    requires Inv(cfg, sys) && t < |sys.threads|
    ensures Locals(cfg, Step(cfg, sys, t, c))
  {
    hide ThreadStep, LocalInv, SeenForward, TablesForward, StatusForward, BytesInv, SlotInv, CountInv, SeenInv, BuiltInv,
         PendingInv, UpgradeInv, Apart;
    var pc := sys.threads[t];
    var r := ThreadStep(cfg, sys.sh, t, pc, c);
    Own(cfg, sys.sh, t, pc, c);
    SeenMoves(cfg, sys.sh, t, pc, c);
    TablesMove(cfg, sys.sh, t, pc, c);
    StatusMoves(cfg, sys.sh, t, pc, c);
    forall u | 0 <= u < |sys.threads| && u != t
      ensures LocalInv(cfg, r.0, sys.threads[u])
    {
      Bystander(cfg, sys.sh, pc, r.0, sys.threads[u]);
    }
  }

  // ---------------------------------------------------------------- every interleaving

  /** One step of any goroutine preserves the whole invariant. */
  lemma StepInv(cfg: Config, sys: System, t: nat, c: Choice)
    requires Inv(cfg, sys) && t < |sys.threads|
    ensures Inv(cfg, Step(cfg, sys, t, c))
  {
    hide BytesInv, SlotInv, CountInv, SeenInv, BuiltInv, PendingInv, UpgradeInv, LockInv, OneBuilder, ThreadStep, LocalInv;
    var pc := sys.threads[t];
    assert LocalInv(cfg, sys.sh, pc);
    BytesStep(cfg, sys, t, c);
    SlotStep(cfg, sys, t, c);
    CountStep(cfg, sys, t, c);
    SeenInvStep(cfg, sys.sh, t, pc, c);
    BuiltInvStep(cfg, sys.sh, t, pc, c);
    PendingInvStep(cfg, sys.sh, t, pc, c);
    UpgradeStep(cfg, sys, t, c);
    LockStep(cfg, sys, t, c);
    BuilderStep(cfg, sys, t, c);
    LocalsStep(cfg, sys, t, c);
  }

  lemma {:induction false} RunInv(cfg: Config, n: nat, moves: seq<Move>)
    requires forall i :: 0 <= i < |moves| ==> moves[i].thread < n
    ensures Inv(cfg, Run(cfg, n, moves))
  {
    hide Inv, Step;
    if |moves| == 0 {
      StartInv(cfg, n);
    } else {
      var m := |moves| - 1;
      RunInv(cfg, n, moves[..m]);
      StepInv(cfg, Run(cfg, n, moves[..m]), moves[m].thread, moves[m].choice);
    }
  }

  /** Budget and bookkeeping limits hold in every reachable state, and the byte total is exactly what is
      installed plus what is still reserved. */
  lemma TotalsSafe(cfg: Config, n: nat, moves: seq<Move>)
    requires forall i :: 0 <= i < |moves| ==> moves[i].thread < n
    ensures var sys := Run(cfg, n, moves);
      && sys.sh.bytes == TableBytes(sys.sh.tables) + Total(Reserved, sys.threads)
      && 0 <= sys.sh.bytes <= (if cfg.budget < 0 then 0 else cfg.budget)
      && sys.sh.seenCount == |sys.sh.seen| + Total(Slots, sys.threads) <= ADMISSION_LIMIT
      && |sys.sh.tables| == sys.sh.count + Total(Uncounted, sys.threads)
  {
    RunInv(cfg, n, moves);
    hide Run, SeenInv, BuiltInv, PendingInv, UpgradeInv, LockInv, OneBuilder, Locals;
  }

  /** Every key is built at most once, and only after exactly eight successful sightings. */
  lemma BuiltOnce(cfg: Config, n: nat, moves: seq<Move>, k: Key)
    requires forall i :: 0 <= i < |moves| ==> moves[i].thread < n
    ensures var sh := Run(cfg, n, moves).sh;
      && Count(sh.builds, k) <= 1 && Count(sh.sightings, k) <= BUILD_THRESHOLD
      && (Count(sh.builds, k) == 1 ==> Count(sh.sightings, k) == BUILD_THRESHOLD)
      && (k in sh.tables ==> Count(sh.builds, k) == 1 && sh.tables[k].raw == k)
  {
    RunInv(cfg, n, moves);
    hide Run, BytesInv, SlotInv, CountInv, PendingInv, UpgradeInv, LockInv, OneBuilder, Locals, Count;
    var sh := Run(cfg, n, moves).sh;
    if k !in sh.seen { assert Count(sh.sightings, k) == 0; }
  }

  /** Every key is upgraded at most once, and an upgraded key ends in a final status. */
  lemma UpgradedOnce(cfg: Config, n: nat, moves: seq<Move>, k: Key)
    requires forall i :: 0 <= i < |moves| ==> moves[i].thread < n
    ensures var sys := Run(cfg, n, moves);
      && Count(sys.sh.upgrades, k) <= 1
      && (Count(sys.sh.upgrades, k) == 1 && sys.sh.lock == Free ==> StatusOf(sys.sh, k) == Complete)
  {
    RunInv(cfg, n, moves);
    hide Run, BytesInv, SlotInv, CountInv, SeenInv, BuiltInv, PendingInv, LockInv, OneBuilder, Locals;
  }

  /** Whenever the lock is free fewer than four candidates wait, and every one of them is pending. */
  lemma QueueSafe(cfg: Config, n: nat, moves: seq<Move>)
    requires forall i :: 0 <= i < |moves| ==> moves[i].thread < n
    ensures var sh := Run(cfg, n, moves).sh;
      && (sh.lock == Free ==> |sh.pending| < PROMOTION_WIDTH)
      && (forall k :: k in sh.pending ==> sh.pending[k].raw == k && StatusOf(sh, k) == Pending)
  {
    RunInv(cfg, n, moves);
    hide Run, BytesInv, SlotInv, CountInv, SeenInv, BuiltInv, UpgradeInv, OneBuilder, Locals;
  }

  /** Once negative, a counter stays negative through any continuation; a final promotion status never moves. */
  lemma {:induction false} FinalForever(cfg: Config, n: nat, moves: seq<Move>, more: seq<Move>, k: Key)
    requires forall i :: 0 <= i < |moves| ==> moves[i].thread < n
    requires forall i :: 0 <= i < |more| ==> more[i].thread < n
    ensures var a, b := Run(cfg, n, moves).sh, Run(cfg, n, moves + more).sh;
      && (k in a.seen && a.seen[k] < 0 ==> k in b.seen && b.seen[k] < 0)
      && (StatusOf(a, k) == Complete || StatusOf(a, k) == Disabled ==> StatusOf(b, k) == StatusOf(a, k))
      && (k in a.tables ==> k in b.tables)
    decreases |more|
  {
    hide Run, Inv, StatusOf, ThreadStep;
    if |more| == 0 {
      assert moves + more == moves;
    } else {
      var m := |more| - 1;
      FinalForever(cfg, n, moves, more[..m], k);
      var all := moves + more[..m];
      RunInv(cfg, n, all);
      LastMove(cfg, n, moves + more, all);
      OneMove(cfg, Run(cfg, n, all), more[m].thread, more[m].choice, k);
      assert (moves + more)[|moves| + m] == more[m];
    }
  }

  lemma LastMove(cfg: Config, n: nat, all: seq<Move>, init: seq<Move>)
    requires forall i :: 0 <= i < |all| ==> all[i].thread < n
    requires |all| > 0 && |init| == |all| - 1 && forall i :: 0 <= i < |init| ==> init[i] == all[i]
    ensures Run(cfg, n, all) == Step(cfg, Run(cfg, n, init), all[|all| - 1].thread, all[|all| - 1].choice)
  {
    assert all[..|all| - 1] == init;
  }

  lemma OneMove(cfg: Config, sys: System, t: nat, c: Choice, k: Key)
    requires Inv(cfg, sys) && t < |sys.threads|
    ensures var a, b := sys.sh, Step(cfg, sys, t, c).sh;
      && (k in a.seen && a.seen[k] < 0 ==> k in b.seen && b.seen[k] < 0)
      && (StatusOf(a, k) == Complete || StatusOf(a, k) == Disabled ==> StatusOf(b, k) == StatusOf(a, k))
      && (k in a.tables ==> k in b.tables)
  {
    hide ThreadStep, LocalInv, BytesInv, SlotInv, CountInv, SeenInv, BuiltInv, PendingInv, UpgradeInv, LockInv, OneBuilder,
         StatusOf;
    var pc := sys.threads[t];
    assert LocalInv(cfg, sys.sh, pc);
    SeenMoves(cfg, sys.sh, t, pc, c);
    TablesMove(cfg, sys.sh, t, pc, c);
    CompleteStep(cfg, sys.sh, t, pc, c);
  }

  /** An installed entry changes only when the lock holder replaces its own checked candidate by a larger
      entry of the same key, and that key had not been upgraded before. */
  lemma OnlyUpgrades(cfg: Config, sys: System, t: nat, c: Choice, k: Key)
    requires Inv(cfg, sys) && t < |sys.threads| && k in sys.sh.tables
    ensures var next := Step(cfg, sys, t, c).sh;
      && k in next.tables
      && (next.tables[k] != sys.sh.tables[k] ==>
            && next.tables[k].raw == k && next.tables[k].size > sys.sh.tables[k].size
            && sys.sh.lock == Held(t) && StatusOf(sys.sh, k) == Building
            && Count(sys.sh.upgrades, k) == 0 && Count(next.upgrades, k) == 1)
  {
    hide AdmitStep, BuildStep, PromoteStep, QueueStep, GatherStep, CommitStep, AdmitInv, BuildInv, PromoteInv, QueueStepInv,
         GatherInv, CommitInv, BytesInv, SlotInv, CountInv, SeenInv, PendingInv, OneBuilder, Count, StatusOf;
    var pc := sys.threads[t];
    Writes(cfg, sys.sh, t, pc, c);
    TablesMove(cfg, sys.sh, t, pc, c);
    if pc.Committing? {
      assert HolderPc(sys) == pc;
      Replacement(cfg, sys.sh, pc.cur, pc.committing, c, k);
    }
  }

  lemma Replacement(cfg: Config, sh: Shared, cur: seq<Pre>, at: Committing, c: Choice, k: Key)
    requires CommitInv(cfg, sh, cur, at) && k in sh.tables
    requires Count(sh.upgrades, k) > 0 ==>
      Count(sh.upgrades, k) == 1 && (StatusOf(sh, k) == Complete || InFlight(Committing(cur, at), k))
    ensures var next := CommitStep(cfg, sh, cur, at, c).0;
      k in next.tables && (next.tables[k] != sh.tables[k] ==>
        && next.tables[k].raw == k && next.tables[k].size > sh.tables[k].size && StatusOf(sh, k) == Building
        && Count(sh.upgrades, k) == 0 && Count(next.upgrades, k) == 1)
  {}
}
