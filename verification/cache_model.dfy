/** The two-tier table cache of ed25519/cache.go as a state machine: every atomic load, store,
    compare-and-swap, concurrent-map access and lock operation is one step, any goroutine may take
    the next step, and builders and map iteration choose freely. */
module CacheModel {

  type Key = nat

  /** A precomputed key; id tells apart different allocations. */
  datatype Pre = Pre(raw: Key, size: int, id: nat)

  datatype Status = Idle | Pending | Building | Complete | Disabled

  datatype Promotion = Promotion(hits: int, status: Status)

  datatype Holder = Free | Held(thread: nat)

  /** What the code reads from its configuration and backend. budget is MaxTableBytes after the zero
      default has been applied. */
  datatype Config = Config(budget: int, groupThreshold: int, soloThreshold: int, promotable: Pre -> bool)

  const BUILD_THRESHOLD: int := 8
  const BUILDING: int := -1
  const DISABLED: int := -2
  const COMPLETE: int := -3
  const ADMISSION_LIMIT: int := 0x20000
  const PROMOTION_WIDTH: int := 4

  /** The Cache fields, and three history maps the proofs talk about. */
  datatype Shared = Shared(
    tables: map<Key, Pre>, bytes: int, count: int,
    seen: map<Key, int>, seenCount: int,
    promotions: map<Key, Promotion>, lock: Holder, pending: map<Key, Pre>,
    sightings: map<Key, nat>, builds: map<Key, nat>, upgrades: map<Key, nat>)

  function Count(m: map<Key, nat>, k: Key): nat {
    if k in m then m[k] else 0
  }

  function Bumped(m: map<Key, nat>, k: Key): map<Key, nat> {
    m[k := Count(m, k) + 1]
  }

  /** admit before the build is claimed. */
  datatype Admission =
    | Lookup | Budget | Seen | Slot | SlotCas(used: int) | SeenAgain | Publish | Refund | Claim | ClaimCas(saw: int)

  /** admit after it has claimed the build. */
  datatype Construction =
    | Affordable | Build | Recheck(pre: Pre) | Reserve(pre: Pre) | ReserveCas(pre: Pre, used: int) | Install(pre: Pre)
    | Undo(pre: Pre) | Tally | Finish(verdict: int)

  /** promote before it takes the lock. */
  datatype Promoting = State | CountHit | LoadStatus(hits: int) | StatusCas(hits: int) | Reload(hits: int) | Acquire(solo: bool)

  /** queuePromotion under the lock. */
  datatype Queueing = StatusCheck(pre: Pre, solo: bool) | TableCheck(pre: Pre, solo: bool) | Stale(pre: Pre) | Insert(pre: Pre, solo: bool) | Release

  /** buildPromotionGroupLocked and buildSoloPromotionLocked. */
  datatype Gathering =
    | Next(got: seq<Pre>) | Take(got: seq<Pre>, key: Key, good: bool) | PutBack(got: seq<Pre>, at: nat)
    | SoloCheck(key: Key) | SoloTake(key: Key, good: bool)

  /** commitPromotionLocked. */
  datatype Committing =
    | Upgrade | Disable(at: nat) | ReserveDelta(next: seq<Pre>) | ReserveDeltaCas(next: seq<Pre>, used: int)
    | Replace(next: seq<Pre>, at: nat) | Settle(next: seq<Pre>, at: nat)

  /** Where a goroutine stands. */
  datatype Pc =
    | Rest
    | Admitting(key: Key, admission: Admission)
    | Constructing(key: Key, construction: Construction)
    | Promoting(pre: Pre, promoting: Promoting)
    | Queueing(queueing: Queueing)
    | Gathering(gathering: Gathering)
    | Committing(cur: seq<Pre>, committing: Committing)

  /** What the environment contributes to a step. */
  datatype Choice =
    | NoChoice
    | Sighting(key: Key)
    | Hit(pre: Pre)
    | Built(size: int, id: nat)
    | Visit(key: Key)
    | Promoted(group: seq<Pre>)
    | BuildFailed

  /** Go's int32 addition. */
  function Wrap32(x: int): int {
    (x + 0x8000_0000) % 0x1_0000_0000 - 0x8000_0000
  }

  function StatusOf(sh: Shared, k: Key): Status {
    if k in sh.promotions then sh.promotions[k].status else Idle
  }

  function SetStatus(sh: Shared, k: Key, status: Status): Shared {
    sh.(promotions := sh.promotions[k := Promotion(if k in sh.promotions then sh.promotions[k].hits else 0, status)])
  }

  function Without(m: map<Key, Pre>, k: Key): map<Key, Pre> {
    m - {k}
  }

  predicate Full(cfg: Config, sh: Shared) { cfg.budget < 1 || sh.bytes >= cfg.budget }

  /** The table check promotion makes before it trusts a candidate. */
  predicate Current(cfg: Config, sh: Shared, pre: Pre) {
    pre.raw in sh.tables && sh.tables[pre.raw] == pre && cfg.promotable(pre)
  }

  /** The bytes the remaining upgrades of a commit add. */
  function Delta(cur: seq<Pre>, next: seq<Pre>, at: nat): int
    decreases |cur| - at
  {
    if at >= |cur| || at >= |next| then 0 else next[at].size - cur[at].size + Delta(cur, next, at + 1)
  }

  predicate Usable(cur: seq<Pre>, next: seq<Pre>) {
    |cur| <= |next| && forall i :: 0 <= i < |cur| ==> next[i].raw == cur[i].raw && next[i].size > cur[i].size
  }

  // ---------------------------------------------------------------- admit

  function AdmitStep(cfg: Config, sh: Shared, k: Key, at: Admission): (Shared, Pc) {
    match at
    case Lookup => (sh, if k in sh.tables then Rest else Admitting(k, Budget))
    case Budget => (sh, if Full(cfg, sh) then Rest else Admitting(k, Seen))
    // admissionCounter
    case Seen => (sh, Admitting(k, if k in sh.seen then Claim else Slot))
    case Slot => (sh, Admitting(k, if sh.seenCount >= ADMISSION_LIMIT then SeenAgain else SlotCas(sh.seenCount)))
    case SlotCas(used) =>
      if sh.seenCount == used then (sh.(seenCount := used + 1), Admitting(k, Publish)) else (sh, Admitting(k, Slot))
    case SeenAgain => (sh, if k in sh.seen then Admitting(k, Claim) else Rest)
    case Publish => if k in sh.seen then (sh, Admitting(k, Refund)) else (sh.(seen := sh.seen[k := 0]), Admitting(k, Claim))
    case Refund => (sh.(seenCount := sh.seenCount - 1), Admitting(k, Claim))
    // claimAdmissionBuild
    case Claim => (sh, if k in sh.seen && sh.seen[k] >= 0 then Admitting(k, ClaimCas(sh.seen[k])) else Rest)
    case ClaimCas(saw) =>
      if k !in sh.seen || sh.seen[k] != saw then (sh, Admitting(k, Claim))
      else if saw >= BUILD_THRESHOLD - 1 then
        (sh.(seen := sh.seen[k := BUILDING], sightings := Bumped(sh.sightings, k)), Constructing(k, Affordable))
      else
        (sh.(seen := sh.seen[k := saw + 1], sightings := Bumped(sh.sightings, k)), Rest)
  }

  function BuildStep(cfg: Config, sh: Shared, k: Key, at: Construction, c: Choice): (Shared, Pc) {
    match at
    case Affordable => (sh, Constructing(k, if Full(cfg, sh) then Finish(DISABLED) else Build))
    case Build =>
      (sh.(builds := Bumped(sh.builds, k)),
       Constructing(k, if c.Built? && c.size > 0 then Recheck(Pre(k, c.size, c.id)) else Finish(DISABLED)))
    case Recheck(pre) => (sh, Constructing(k, if k in sh.tables then Finish(COMPLETE) else Reserve(pre)))
    // reserveTableBytes
    case Reserve(pre) =>
      (sh, Constructing(k, if pre.size <= 0 || pre.size > cfg.budget || sh.bytes > cfg.budget - pre.size then Finish(DISABLED)
                           else ReserveCas(pre, sh.bytes)))
    case ReserveCas(pre, used) =>
      if sh.bytes == used then (sh.(bytes := used + pre.size), Constructing(k, Install(pre))) else (sh, Constructing(k, Reserve(pre)))
    case Install(pre) =>
      if k in sh.tables then (sh, Constructing(k, Undo(pre))) else (sh.(tables := sh.tables[k := pre]), Constructing(k, Tally))
    case Undo(pre) => (sh.(bytes := sh.bytes - pre.size), Constructing(k, Finish(COMPLETE)))
    case Tally => (sh.(count := sh.count + 1), Constructing(k, Finish(COMPLETE)))
    case Finish(verdict) => (sh.(seen := sh.seen[k := verdict]), Rest)
  }

  // ---------------------------------------------------------------- promote

  function PromoteStep(cfg: Config, sh: Shared, t: nat, pre: Pre, at: Promoting): (Shared, Pc) {
    match at
    case State => (SetStatus(sh, pre.raw, StatusOf(sh, pre.raw)), Promoting(pre, CountHit))
    case CountHit =>
      var hits := Wrap32((if pre.raw in sh.promotions then sh.promotions[pre.raw].hits else 0) + 1);
      (sh.(promotions := sh.promotions[pre.raw := Promotion(hits, StatusOf(sh, pre.raw))]), Promoting(pre, LoadStatus(hits)))
    case LoadStatus(hits) =>
      var status := StatusOf(sh, pre.raw);
      (sh, if status == Idle && hits >= cfg.groupThreshold then Promoting(pre, StatusCas(hits))
           else if status == Pending && hits >= cfg.soloThreshold then Promoting(pre, Acquire(true))
           else Rest)
    case StatusCas(hits) =>
      if StatusOf(sh, pre.raw) == Idle then (SetStatus(sh, pre.raw, Pending), Promoting(pre, Acquire(false)))
      else (sh, Promoting(pre, Reload(hits)))
    case Reload(hits) =>
      (sh, if StatusOf(sh, pre.raw) == Pending && hits >= cfg.soloThreshold then Promoting(pre, Acquire(true)) else Rest)
    case Acquire(solo) =>
      if sh.lock == Free then (sh.(lock := Held(t)), Queueing(StatusCheck(pre, solo))) else (sh, Promoting(pre, at))
  }

  function QueueStep(cfg: Config, sh: Shared, at: Queueing): (Shared, Pc) {
    match at
    case StatusCheck(pre, solo) =>
      (sh, Queueing(if StatusOf(sh, pre.raw) != Pending then Release else TableCheck(pre, solo)))
    case TableCheck(pre, solo) => (sh, Queueing(if Current(cfg, sh, pre) then Insert(pre, solo) else Stale(pre)))
    case Stale(pre) => (SetStatus(sh, pre.raw, Complete).(pending := Without(sh.pending, pre.raw)), Queueing(Release))
    case Insert(pre, solo) =>
      var added := sh.(pending := sh.pending[pre.raw := pre]);
      (added, if |added.pending| >= PROMOTION_WIDTH then Gathering(Next([]))
              else if solo then Gathering(SoloCheck(pre.raw))
              else Queueing(Release))
    case Release => (sh.(lock := Free), Rest)
  }

  /** buildPromotionGroupLocked: visit the queue in any order, until four candidates are in hand. */
  function GroupStep(cfg: Config, sh: Shared, at: Gathering, c: Choice): (Shared, Pc)
    requires at.Next? || at.Take? || at.PutBack?
  {
    match at
    case Next(got) =>
      (sh, if |got| == PROMOTION_WIDTH then Committing(got, Upgrade)
           else if |sh.pending| == 0 then Gathering(PutBack(got, 0))
           else if c.Visit? && c.key in sh.pending then Gathering(Take(got, c.key, Current(cfg, sh, sh.pending[c.key])))
           else Gathering(at))
    case Take(got, k, good) =>
      if k !in sh.pending then (sh, Gathering(at))
      else
        (SetStatus(sh, k, if good then Building else Complete).(pending := Without(sh.pending, k)),
         Gathering(Next(if good then got + [sh.pending[k]] else got)))
    case PutBack(got, i) =>
      if i >= |got| then (sh, Queueing(Release))
      else (SetStatus(sh, got[i].raw, Pending).(pending := sh.pending[got[i].raw := got[i]]), Gathering(PutBack(got, i + 1)))
  }

  /** buildSoloPromotionLocked. */
  function SoloStep(cfg: Config, sh: Shared, at: Gathering): (Shared, Pc)
    requires at.SoloCheck? || at.SoloTake?
  {
    match at
    case SoloCheck(k) =>
      (sh, if k !in sh.pending || StatusOf(sh, k) != Pending then Queueing(Release)
           else Gathering(SoloTake(k, Current(cfg, sh, sh.pending[k]))))
    case SoloTake(k, good) =>
      if k !in sh.pending then (sh, Gathering(at))
      else
        (SetStatus(sh, k, if good then Building else Complete).(pending := Without(sh.pending, k)),
         if good then Committing([sh.pending[k]], Upgrade) else Queueing(Release))
  }

  function GatherStep(cfg: Config, sh: Shared, at: Gathering, c: Choice): (Shared, Pc) {
    if at.SoloCheck? || at.SoloTake? then SoloStep(cfg, sh, at) else GroupStep(cfg, sh, at, c)
  }

  function CommitStep(cfg: Config, sh: Shared, cur: seq<Pre>, at: Committing, c: Choice): (Shared, Pc) {
    match at
    case Upgrade => (sh, Committing(cur, if c.Promoted? && Usable(cur, c.group) then ReserveDelta(c.group) else Disable(0)))
    case Disable(i) =>
      if i >= |cur| then (sh, Queueing(Release)) else (SetStatus(sh, cur[i].raw, Disabled), Committing(cur, Disable(i + 1)))
    case ReserveDelta(next) =>
      var delta := Delta(cur, next, 0);
      (sh, Committing(cur, if delta <= 0 || delta > cfg.budget || sh.bytes > cfg.budget - delta then Disable(0)
                           else ReserveDeltaCas(next, sh.bytes)))
    case ReserveDeltaCas(next, used) =>
      if sh.bytes == used then (sh.(bytes := used + Delta(cur, next, 0)), Committing(cur, Replace(next, 0)))
      else (sh, Committing(cur, ReserveDelta(next)))
    case Replace(next, i) =>
      if i >= |cur| || i >= |next| then (sh, Queueing(Release))
      else
        (sh.(tables := sh.tables[next[i].raw := next[i]], upgrades := Bumped(sh.upgrades, next[i].raw)),
         Committing(cur, Settle(next, i)))
    case Settle(next, i) =>
      if i >= |cur| then (sh, Queueing(Release))
      else (SetStatus(sh, cur[i].raw, Complete), Committing(cur, Replace(next, i + 1)))
  }

  // ---------------------------------------------------------------- the system

  datatype System = System(sh: Shared, threads: seq<Pc>)

  function ThreadStep(cfg: Config, sh: Shared, t: nat, pc: Pc, c: Choice): (Shared, Pc) {
    match pc
    case Rest =>
      (sh, if c.Sighting? then Admitting(c.key, Lookup)
           else if c.Hit? && cfg.promotable(c.pre) then Promoting(c.pre, State)
           else Rest)
    case Admitting(k, at) => AdmitStep(cfg, sh, k, at)
    case Constructing(k, at) => BuildStep(cfg, sh, k, at, c)
    case Promoting(pre, at) => PromoteStep(cfg, sh, t, pre, at)
    case Queueing(at) => QueueStep(cfg, sh, at)
    case Gathering(at) => GatherStep(cfg, sh, at, c)
    case Committing(cur, at) => CommitStep(cfg, sh, cur, at, c)
  }

  /** One step of thread t. */
  function Step(cfg: Config, sys: System, t: nat, c: Choice): (next: System)
    requires t < |sys.threads|
    ensures |next.threads| == |sys.threads|
  {
    var r := ThreadStep(cfg, sys.sh, t, sys.threads[t], c);
    System(r.0, sys.threads[t := r.1])
  }

  function Start(n: nat): System {
    System(Shared(map[], 0, 0, map[], 0, map[], Free, map[], map[], map[], map[]), seq(n, _ => Rest))
  }

  datatype Move = Move(thread: nat, choice: Choice)

  /** The state after any finite interleaving. */
  function Run(cfg: Config, n: nat, moves: seq<Move>): (sys: System)
    requires forall i :: 0 <= i < |moves| ==> moves[i].thread < n
    ensures |sys.threads| == n
  {
    if |moves| == 0 then Start(n)
    else
      var last := moves[|moves| - 1];
      Step(cfg, Run(cfg, n, moves[..|moves| - 1]), last.thread, last.choice)
  }
}
