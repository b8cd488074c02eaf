/** What every interleaving of admissions and promotions keeps. */
module CacheInvariant {
  import opened CacheModel

  // ---------------------------------------------------------------- sums

  function Total(f: Pc -> int, s: seq<Pc>): int {
    if |s| == 0 then 0 else Total(f, s[..|s| - 1]) + f(s[|s| - 1])
  }

  lemma {:induction false} TotalUpdate(f: Pc -> int, s: seq<Pc>, t: nat, pc: Pc)
    requires t < |s|
    ensures Total(f, s[t := pc]) == Total(f, s) - f(s[t]) + f(pc)
  {
    var n := |s| - 1;
    var e := s[t := pc];
    if t == n {
      assert e[..n] == s[..n];
    } else {
      assert e[..n] == s[..n][t := pc];
      TotalUpdate(f, s[..n], t, pc);
    }
  }

  lemma {:induction false} TotalZero(f: Pc -> int, s: seq<Pc>)
    requires forall t :: 0 <= t < |s| ==> f(s[t]) == 0
    ensures Total(f, s) == 0
  {
    if |s| > 0 { TotalZero(f, s[..|s| - 1]); }
  }

  ghost function Pick(m: map<Key, Pre>): (k: Key)
    requires |m| > 0
    ensures k in m
  {
    var k :| k in m;
    k
  }

  /** The sizes of all installed tables. */
  ghost function TableBytes(m: map<Key, Pre>): int
    decreases |m|
  {
    if |m| == 0 then 0
    else
      WithoutSize(m, Pick(m));
      m[Pick(m)].size + TableBytes(Without(m, Pick(m)))
  }

  lemma WithoutSize(m: map<Key, Pre>, k: Key)
    ensures |Without(m, k)| == if k in m then |m| - 1 else |m|
    ensures k !in m ==> Without(m, k) == m
  {
    assert Without(m, k).Keys == m.Keys - {k};
  }

  lemma {:induction false} TableBytesRemove(m: map<Key, Pre>, k: Key)
    requires k in m
    ensures TableBytes(m) == m[k].size + TableBytes(Without(m, k))
    decreases |m|
  {
    hide TableBytes;
    var j := Pick(m);
    TableBytesPick(m);
    if j != k {
      WithoutSize(m, j);
      WithoutSize(m, k);
      TableBytesRemove(Without(m, j), k);
      TableBytesRemove(Without(m, k), j);
      assert Without(Without(m, j), k) == Without(Without(m, k), j);
    }
  }

  lemma TableBytesPick(m: map<Key, Pre>)
    requires |m| > 0
    ensures TableBytes(m) == m[Pick(m)].size + TableBytes(Without(m, Pick(m)))
  {}

  lemma TableBytesStore(m: map<Key, Pre>, k: Key, pre: Pre)
    ensures TableBytes(m[k := pre]) == TableBytes(m) + pre.size - (if k in m then m[k].size else 0)
  {
    hide TableBytes;
    TableBytesRemove(m[k := pre], k);
    if k in m {
      TableBytesRemove(m, k);
      assert Without(m[k := pre], k) == Without(m, k);
    } else {
      assert Without(m[k := pre], k) == m;
    }
  }

  lemma StoreSize(m: map<Key, Pre>, k: Key, pre: Pre)
    ensures |m[k := pre]| == |m| + (if k in m then 0 else 1)
  {
    assert m[k := pre].Keys == m.Keys + {k};
  }

  lemma SeenSize(m: map<Key, int>, k: Key, v: int)
    ensures |m[k := v]| == |m| + (if k in m then 0 else 1)
  {
    assert m[k := v].Keys == m.Keys + {k};
  }

  // ---------------------------------------------------------------- what a goroutine owes

  /** Bytes reserved but not yet carried by an installed table. */
  function Reserved(pc: Pc): int {
    match pc
    case Constructing(_, Install(pre)) => pre.size
    case Constructing(_, Undo(pre)) => pre.size
    case Committing(cur, Replace(next, i)) => Delta(cur, next, i)
    case Committing(cur, Settle(next, i)) => Delta(cur, next, i + 1)
    case _ => 0
  }

  /** Admission slots reserved but not yet published. */
  function Slots(pc: Pc): int {
    if pc.Admitting? && (pc.admission.Publish? || pc.admission.Refund?) then 1 else 0
  }

  /** Tables installed but not yet counted. */
  function Uncounted(pc: Pc): int {
    if pc.Constructing? && pc.construction.Tally? then 1 else 0
  }

  predicate Locked(pc: Pc) { pc.Queueing? || pc.Gathering? || pc.Committing? }

  // ---------------------------------------------------------------- local invariants

  predicate AdmitInv(sh: Shared, k: Key, at: Admission) {
    match at
    case SlotCas(used) => used < ADMISSION_LIMIT
    case Refund => k in sh.seen
    case Claim => k in sh.seen
    case ClaimCas(saw) => k in sh.seen && saw >= 0
    case _ => true
  }

  /** The one goroutine that claimed k owns its counter. Until it installs, no table for k exists. */
  predicate BuildInv(cfg: Config, sh: Shared, k: Key, at: Construction) {
    && k in sh.seen && sh.seen[k] == BUILDING
    && (!at.Tally? && !at.Finish? ==> k !in sh.tables)
    && (at.Affordable? || at.Build? ==> Count(sh.builds, k) == 0)
    && (!at.Affordable? && !at.Build? && !at.Finish? ==> Count(sh.builds, k) == 1)
    && (at.Recheck? || at.Reserve? || at.ReserveCas? || at.Install? ==> at.pre.raw == k && at.pre.size > 0)
    && (at.ReserveCas? ==> at.used <= cfg.budget - at.pre.size)
    && (at.Finish? ==> at.verdict == DISABLED || at.verdict == COMPLETE)
    && !at.Undo?
  }

  predicate PromoteInv(sh: Shared, pre: Pre, at: Promoting) {
    at.Acquire? ==> StatusOf(sh, pre.raw) != Idle
  }

  predicate Distinct(s: seq<Pre>) {
    forall i, j :: 0 <= i < j < |s| ==> s[i].raw != s[j].raw
  }

  /** From index at on: claimed by the lock holder and out of the queue. */
  predicate Owned(sh: Shared, cur: seq<Pre>, at: nat) {
    && Distinct(cur)
    && forall i :: at <= i < |cur| ==> StatusOf(sh, cur[i].raw) == Building && cur[i].raw !in sh.pending
  }

  /** From index at on: still the installed entries. */
  predicate Installed(sh: Shared, cur: seq<Pre>, at: nat) {
    forall i :: at <= i < |cur| ==> cur[i].raw in sh.tables && sh.tables[cur[i].raw] == cur[i]
  }

  predicate QueueStepInv(sh: Shared, at: Queueing) {
    && |sh.pending| < PROMOTION_WIDTH
    && (at.TableCheck? || at.Stale? || at.Insert? ==> StatusOf(sh, at.pre.raw) == Pending)
  }

  predicate GatherInv(sh: Shared, at: Gathering) {
    match at
    case Next(got) => Owned(sh, got, 0) && Installed(sh, got, 0) && |got| + |sh.pending| <= PROMOTION_WIDTH
    case Take(got, k, good) =>
      && Owned(sh, got, 0) && Installed(sh, got, 0) && |got| + |sh.pending| <= PROMOTION_WIDTH && k in sh.pending
      && (good ==> k in sh.tables && sh.tables[k] == sh.pending[k])
    case PutBack(got, i) => Owned(sh, got, i) && |sh.pending| <= i <= |got| < PROMOTION_WIDTH
    case SoloCheck(k) => |sh.pending| < PROMOTION_WIDTH
    case SoloTake(k, good) =>
      && |sh.pending| < PROMOTION_WIDTH && k in sh.pending
      && (good ==> k in sh.tables && sh.tables[k] == sh.pending[k])
  }

  predicate CommitInv(cfg: Config, sh: Shared, cur: seq<Pre>, at: Committing) {
    && |sh.pending| < PROMOTION_WIDTH
    && match at
       case Upgrade => Owned(sh, cur, 0) && Installed(sh, cur, 0)
       case Disable(i) =>
         && Owned(sh, cur, i) && Installed(sh, cur, 0)
         && forall j :: 0 <= j < i && j < |cur| ==> StatusOf(sh, cur[j].raw) == Disabled
       case ReserveDelta(next) => Owned(sh, cur, 0) && Installed(sh, cur, 0) && Usable(cur, next)
       case ReserveDeltaCas(next, used) =>
         && Owned(sh, cur, 0) && Installed(sh, cur, 0) && Usable(cur, next)
         && used <= cfg.budget - Delta(cur, next, 0) && Delta(cur, next, 0) > 0
       case Replace(next, i) => Owned(sh, cur, i) && Installed(sh, cur, i) && Usable(cur, next) && i <= |cur|
       case Settle(next, i) => i < |cur| && Owned(sh, cur, i) && Installed(sh, cur, i + 1) && Usable(cur, next)
  }

  predicate LocalInv(cfg: Config, sh: Shared, pc: Pc) {
    match pc
    case Rest => true
    case Admitting(k, at) => AdmitInv(sh, k, at)
    case Constructing(k, at) => BuildInv(cfg, sh, k, at)
    case Promoting(pre, at) => PromoteInv(sh, pre, at)
    case Queueing(at) => QueueStepInv(sh, at)
    case Gathering(at) => GatherInv(sh, at)
    case Committing(cur, at) => CommitInv(cfg, sh, cur, at)
  }

  // ---------------------------------------------------------------- global invariants

  /** Counters count sightings up to the threshold; a negative counter has had exactly eight. */
  ghost predicate SeenInv(sh: Shared) {
    && (forall k :: k in sh.seen ==>
          if sh.seen[k] >= 0 then sh.seen[k] < BUILD_THRESHOLD && Count(sh.sightings, k) == sh.seen[k]
          else Count(sh.sightings, k) == BUILD_THRESHOLD)
    && (forall k :: k !in sh.seen ==> Count(sh.sightings, k) == 0)
  }

  /** A build happens once, after the counter has gone negative; tables come only from builds. */
  ghost predicate BuiltInv(sh: Shared) {
    && (forall k :: Count(sh.builds, k) > 0 ==> Count(sh.builds, k) == 1 && k in sh.seen && sh.seen[k] < 0)
    && (forall k :: k in sh.tables ==> sh.tables[k].raw == k && sh.tables[k].size > 0 && Count(sh.builds, k) == 1)
  }

  ghost predicate PendingInv(sh: Shared) {
    forall k :: k in sh.pending ==> sh.pending[k].raw == k && StatusOf(sh, k) == Pending
  }

  /** The upgrade of k is installed but its status not yet final. */
  predicate InFlight(pc: Pc, k: Key) {
    pc.Committing? && pc.committing.Settle? && pc.committing.at < |pc.cur| && pc.cur[pc.committing.at].raw == k
  }

  function HolderPc(sys: System): Pc {
    if sys.sh.lock.Held? && sys.sh.lock.thread < |sys.threads| then sys.threads[sys.sh.lock.thread] else Rest
  }

  ghost predicate UpgradeInv(sys: System) {
    forall k :: Count(sys.sh.upgrades, k) > 0 ==>
      Count(sys.sh.upgrades, k) == 1 && (StatusOf(sys.sh, k) == Complete || InFlight(HolderPc(sys), k))
  }

  ghost predicate BytesInv(cfg: Config, sys: System) {
    && sys.sh.bytes == TableBytes(sys.sh.tables) + Total(Reserved, sys.threads)
    && 0 <= sys.sh.bytes && (sys.sh.bytes == 0 || sys.sh.bytes <= cfg.budget)
  }

  ghost predicate SlotInv(sys: System) {
    && sys.sh.seenCount == |sys.sh.seen| + Total(Slots, sys.threads)
    && sys.sh.seenCount <= ADMISSION_LIMIT
  }

  ghost predicate CountInv(sys: System) {
    |sys.sh.tables| == sys.sh.count + Total(Uncounted, sys.threads)
  }

  ghost predicate LockInv(sys: System) {
    && (forall t :: 0 <= t < |sys.threads| ==> (Locked(sys.threads[t]) <==> sys.sh.lock == Held(t)))
    && (sys.sh.lock == Free ==> |sys.sh.pending| < PROMOTION_WIDTH)
    && (sys.sh.lock.Held? ==> sys.sh.lock.thread < |sys.threads|)
  }

  predicate Apart(a: Pc, b: Pc) { a.Constructing? && b.Constructing? ==> a.key != b.key }

  ghost predicate OneBuilder(sys: System) {
    forall t, u :: 0 <= t < |sys.threads| && 0 <= u < |sys.threads| && t != u ==> Apart(sys.threads[t], sys.threads[u])
  }

  ghost predicate Locals(cfg: Config, sys: System) {
    forall t :: 0 <= t < |sys.threads| ==> LocalInv(cfg, sys.sh, sys.threads[t])
  }

  ghost predicate Inv(cfg: Config, sys: System) {
    && BytesInv(cfg, sys) && SlotInv(sys) && CountInv(sys)
    && SeenInv(sys.sh) && BuiltInv(sys.sh) && PendingInv(sys.sh) && UpgradeInv(sys)
    && LockInv(sys) && OneBuilder(sys) && Locals(cfg, sys)
  }

  lemma StartInv(cfg: Config, n: nat)
    ensures Inv(cfg, Start(n))
  {
    var sys := Start(n);
    TotalZero(Reserved, sys.threads);
    TotalZero(Slots, sys.threads);
    TotalZero(Uncounted, sys.threads);
  }

  // ---------------------------------------------------------------- what one step may change

  predicate Replaces(pc: Pc, k: Key) {
    pc.Committing? && pc.committing.Replace? && pc.committing.at < |pc.cur| && pc.cur[pc.committing.at].raw == k
  }

  /** Counters only move forward, and a negative one only in the hands of its builder. */
  ghost predicate SeenForward(sh: Shared, pc: Pc, next: Shared) {
    && (forall k :: k in sh.seen ==> k in next.seen && (sh.seen[k] < 0 ==> next.seen[k] < 0))
    && (forall k :: k in sh.seen && sh.seen[k] < 0 && !(pc.Constructing? && pc.key == k) ==> next.seen[k] == sh.seen[k])
    && (forall k :: Count(next.builds, k) == Count(sh.builds, k) || (pc.Constructing? && pc.key == k))
  }

  /** Entries are never removed, appear only by their builder, and change only by their own upgrade. */
  ghost predicate TablesForward(sh: Shared, pc: Pc, next: Shared) {
    && (forall k :: k in sh.tables ==> k in next.tables && (next.tables[k] == sh.tables[k] || Replaces(pc, k)))
    && (forall k :: k in next.tables && k !in sh.tables ==> pc.Constructing? && pc.construction.Install? && pc.key == k)
  }

  /** Only the lock holder moves a status that has left Idle, or touches the queue. */
  ghost predicate StatusForward(sh: Shared, pc: Pc, next: Shared) {
    && (forall k :: StatusOf(sh, k) != Idle ==> StatusOf(next, k) != Idle)
    && (Locked(pc) || forall k :: StatusOf(sh, k) != Idle ==> StatusOf(next, k) == StatusOf(sh, k))
    && (Locked(pc) || next.pending == sh.pending)
  }

  /** The fields each kind of step may write. */
  lemma AdmitWrites(cfg: Config, sh: Shared, k: Key, at: Admission)
    ensures var next := AdmitStep(cfg, sh, k, at).0;
      next == sh.(seen := next.seen, seenCount := next.seenCount, sightings := next.sightings)
  {}

  lemma BuildWrites(cfg: Config, sh: Shared, k: Key, at: Construction, c: Choice)
    ensures var next := BuildStep(cfg, sh, k, at, c).0;
      next == sh.(seen := next.seen, builds := next.builds, bytes := next.bytes, tables := next.tables, count := next.count)
  {}

  lemma PromoteWrites(cfg: Config, sh: Shared, t: nat, pre: Pre, at: Promoting)
    ensures var next := PromoteStep(cfg, sh, t, pre, at).0; next == sh.(promotions := next.promotions, lock := next.lock)
  {}

  lemma QueueWrites(cfg: Config, sh: Shared, at: Queueing)
    ensures var next := QueueStep(cfg, sh, at).0;
      next == sh.(promotions := next.promotions, pending := next.pending, lock := next.lock)
  {}

  lemma GroupWrites(cfg: Config, sh: Shared, at: Gathering, c: Choice)
    requires at.Next? || at.Take? || at.PutBack?
    ensures var next := GroupStep(cfg, sh, at, c).0; next == sh.(promotions := next.promotions, pending := next.pending)
  {}

  lemma SoloWrites(cfg: Config, sh: Shared, at: Gathering)
    requires at.SoloCheck? || at.SoloTake?
    ensures var next := SoloStep(cfg, sh, at).0; next == sh.(promotions := next.promotions, pending := next.pending)
  {}

  lemma GatherWrites(cfg: Config, sh: Shared, at: Gathering, c: Choice)
    ensures var next := GatherStep(cfg, sh, at, c).0; next == sh.(promotions := next.promotions, pending := next.pending)
  {
    hide GroupStep, SoloStep;
    if at.SoloCheck? || at.SoloTake? { SoloWrites(cfg, sh, at); } else { GroupWrites(cfg, sh, at, c); }
  }

  lemma CommitWrites(cfg: Config, sh: Shared, cur: seq<Pre>, at: Committing, c: Choice)
    ensures var next := CommitStep(cfg, sh, cur, at, c).0;
      next == sh.(promotions := next.promotions, bytes := next.bytes, tables := next.tables, upgrades := next.upgrades)
  {}

  lemma Writes(cfg: Config, sh: Shared, t: nat, pc: Pc, c: Choice)
    ensures var next := ThreadStep(cfg, sh, t, pc, c).0;
      && (!pc.Admitting? && !pc.Constructing? ==> next.seen == sh.seen && next.builds == sh.builds)
      && (!pc.Admitting? ==> next.seenCount == sh.seenCount && next.sightings == sh.sightings)
      && (!pc.Constructing? ==> next.count == sh.count && next.builds == sh.builds)
      && (!pc.Constructing? && !pc.Committing? ==> next.tables == sh.tables && next.bytes == sh.bytes)
      && (!pc.Committing? ==> next.upgrades == sh.upgrades)
      && (!pc.Promoting? && !Locked(pc) ==> next.promotions == sh.promotions)
      && (!pc.Promoting? && !pc.Queueing? ==> next.lock == sh.lock)
      && (!pc.Queueing? && !pc.Gathering? ==> next.pending == sh.pending)
  {
    hide AdmitStep, BuildStep, PromoteStep, QueueStep, GatherStep, CommitStep;
    match pc
    case Rest =>
    case Admitting(k, at) => AdmitWrites(cfg, sh, k, at);
    case Constructing(k, at) => BuildWrites(cfg, sh, k, at, c);
    case Promoting(pre, at) => PromoteWrites(cfg, sh, t, pre, at);
    case Queueing(at) => QueueWrites(cfg, sh, at);
    case Gathering(at) => GatherWrites(cfg, sh, at, c);
    case Committing(cur, at) => CommitWrites(cfg, sh, cur, at, c);
  }

  lemma SeenMoves(cfg: Config, sh: Shared, t: nat, pc: Pc, c: Choice)
    requires LocalInv(cfg, sh, pc)
    ensures SeenForward(sh, pc, ThreadStep(cfg, sh, t, pc, c).0)
  {
    hide AdmitStep, BuildStep, PromoteStep, QueueStep, GatherStep, CommitStep, AdmitInv, BuildInv, PromoteInv,
         QueueStepInv, GatherInv, CommitInv, Count;
    Writes(cfg, sh, t, pc, c);
    if pc.Admitting? { AdmitSeen(cfg, sh, pc.key, pc.admission); }
    if pc.Constructing? { BuildSeen(cfg, sh, pc.key, pc.construction, c); }
  }

  lemma AdmitSeen(cfg: Config, sh: Shared, k: Key, at: Admission)
    requires AdmitInv(sh, k, at)
    ensures SeenForward(sh, Admitting(k, at), AdmitStep(cfg, sh, k, at).0)
  {}

  lemma BuildSeen(cfg: Config, sh: Shared, k: Key, at: Construction, c: Choice)
    requires BuildInv(cfg, sh, k, at)
    ensures SeenForward(sh, Constructing(k, at), BuildStep(cfg, sh, k, at, c).0)
  {}

  lemma TablesMove(cfg: Config, sh: Shared, t: nat, pc: Pc, c: Choice)
    requires LocalInv(cfg, sh, pc)
    ensures TablesForward(sh, pc, ThreadStep(cfg, sh, t, pc, c).0)
  {
    hide AdmitStep, BuildStep, PromoteStep, QueueStep, GatherStep, CommitStep, AdmitInv, BuildInv, PromoteInv,
         QueueStepInv, GatherInv, CommitInv;
    Writes(cfg, sh, t, pc, c);
    if pc.Constructing? { BuildTables(cfg, sh, pc.key, pc.construction, c); }
    if pc.Committing? { CommitTables(cfg, sh, pc.cur, pc.committing, c); }
  }

  lemma BuildTables(cfg: Config, sh: Shared, k: Key, at: Construction, c: Choice)
    ensures TablesForward(sh, Constructing(k, at), BuildStep(cfg, sh, k, at, c).0)
  {}

  lemma CommitTables(cfg: Config, sh: Shared, cur: seq<Pre>, at: Committing, c: Choice)
    requires CommitInv(cfg, sh, cur, at)
    ensures TablesForward(sh, Committing(cur, at), CommitStep(cfg, sh, cur, at, c).0)
  {}

  lemma StatusMoves(cfg: Config, sh: Shared, t: nat, pc: Pc, c: Choice)
    requires LocalInv(cfg, sh, pc)
    ensures StatusForward(sh, pc, ThreadStep(cfg, sh, t, pc, c).0)
  {
    hide AdmitStep, BuildStep, PromoteStep, QueueStep, GatherStep, CommitStep, AdmitInv, BuildInv, PromoteInv,
         QueueStepInv, GatherInv, CommitInv;
    Writes(cfg, sh, t, pc, c);
    match pc
    case Promoting(pre, at) => PromoteStatus(cfg, sh, t, pre, at);
    case Queueing(at) => QueueStatus(cfg, sh, at);
    case Gathering(at) => GatherStatus(cfg, sh, at, c);
    case Committing(cur, at) => CommitStatus(cfg, sh, cur, at, c);
    case _ =>
  }

  lemma PromoteStatus(cfg: Config, sh: Shared, t: nat, pre: Pre, at: Promoting)
    ensures StatusForward(sh, Promoting(pre, at), PromoteStep(cfg, sh, t, pre, at).0)
  {}

  lemma QueueStatus(cfg: Config, sh: Shared, at: Queueing)
    ensures StatusForward(sh, Queueing(at), QueueStep(cfg, sh, at).0)
  {}

  lemma GatherStatus(cfg: Config, sh: Shared, at: Gathering, c: Choice)
    ensures StatusForward(sh, Gathering(at), GatherStep(cfg, sh, at, c).0)
  {
    hide Current, Without;
  }

  lemma CommitStatus(cfg: Config, sh: Shared, cur: seq<Pre>, at: Committing, c: Choice)
    ensures StatusForward(sh, Committing(cur, at), CommitStep(cfg, sh, cur, at, c).0)
  {}
}
