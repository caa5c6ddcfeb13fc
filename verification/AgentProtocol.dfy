/**
 The resident agent as a transition system: any number of threads, each serving `grant`, `release` /
 `revoke`, `open_with_grant` or the listener's maintenance purge, over one grant table, one master cache
 and three locks.

 A thread's program counter names the point it has reached; one action takes one thread from a point to
 the next, and time may pass between any two actions. In particular the two clock readings of a purge
 and of its caller are two different actions. `ok` resolves what the environment decides: whether a
 blind box opens, a store load succeeds, an envelope opens. The last access of a critical section and
 the release of its lock are one action.

 `log` records what happened; the theorems about runs are statements about the log.
 */
module AgentProtocol {
  import opened Wrappers
  import opened AgentTable
  import opened MasterCache

  type Tid = nat

  /** `expires` is `expires_at_unix` in nanoseconds; the monotone clock is on the same scale. */
  datatype Approval = Approval(nonce: Nonce, expires: Instant)

  /** An approval together with the deadline that `approval_expiry_instant` computed for it. */
  datatype Spent = Spent(approval: Approval, deadline: Instant)

  datatype DekRequest = DekRequest(key: DekKey, approval: Approval)

  /** A grant while its blind boxes are being opened. */
  datatype Draft = Draft(
    id: GrantId, start: Instant, ttl: nat, expiresAt: Instant, deks: map<DekKey, Page>, spent: seq<Spent>)

  datatype Request = Request(id: GrantId, needsMaster: bool)

  /** Where a thread is inside the `grant` arm. With nothing left to do, `GrantNext` waits for the state lock. */
  datatype GrantPc =
    | GrantNext(todo: seq<DekRequest>)
    | GrantValidated(todo: seq<DekRequest>)
    | GrantDated(todo: seq<DekRequest>, instant: Instant)
    | GrantLocked
    | GrantPurged

  datatype ReleasePc = ReleaseWait | ReleaseLocked | ReleasePurged | ReleaseTouch | ReleaseTouched

  /** `open_with_grant` around the master load. */
  datatype OpenPc =
    | CheckWait
    | CheckLocked
    | SnapWait(master: Option<Page>)
    | SnapLocked(master: Option<Page>)
    | Opening(deks: map<DekKey, Page>, master: Option<Page>)
    | TouchWait
    | TouchLocked
    | TouchPurged
    | ExternalIo

  /** `AgentMasterCache::get`. */
  datatype GetPc =
    | CacheWait
    | CacheLocked
    | LoadingWait
    | RecheckWait
    | RecheckLocked
    | InLoader
    | StoreWait(key: Page)
    | StoreLocked(key: Page)
    | LoadingRelease(key: Page)

  datatype MaintainPc = MaintWait | MaintLocked | MaintCacheWait | MaintCacheLocked

  datatype Pc =
    | Idle
    | InGrant(draft: Draft, g: GrantPc)
    | InRelease(id: GrantId, r: ReleasePc)
    | InOpen(request: Request, o: OpenPc)
    | InGet(request: Request, m: GetPc)
    | InMaintain(p: MaintainPc)

  datatype Event =
    | Publish(draft: Draft, at: Instant)
    | Removed(id: GrantId, at: Instant)
    | Checked(id: GrantId, live: bool, at: Instant)
    | Hit(key: Page, at: Instant)
    | LoadStarted(at: Instant)
    | Stored(key: Page, at: Instant)

  datatype Config = Config(idle: nat, storeBacked: bool)

  /**
   Everything the threads share. `deks` and `masters` are the reference counts of all DEK pages and of all
   master pages ever allocated; `purgedAt` is when the table was last purged.
   */
  datatype Mem = Mem(
    clock: Instant,
    table: Table,
    purgedAt: Instant,
    cached: Option<CachedMaster>,
    stateLock: Option<Tid>,
    cacheLock: Option<Tid>,
    loadingLock: Option<Tid>,
    deks: map<Page, int>,
    nextDek: Page,
    masters: map<Page, int>,
    nextMaster: Page,
    log: seq<Event>)

  datatype Sys = Sys(mem: Mem, threads: seq<Pc>)

  /** Where a thread goes next and what it leaves in memory. */
  datatype Move = Move(pc: Pc, mem: Mem)

  datatype Op =
    | OpGrant(id: GrantId, ttl: nat, deks: seq<DekRequest>)
    | OpRelease(id: GrantId)
    | OpOpen(request: Request)
    | OpMaintain

  datatype Action =
    | Tick(elapsed: nat)
    | Begin(t: Tid, op: Op)
    | Go(t: Tid, ok: bool)

  function Start(threads: nat, now: Instant): Sys {
    Sys(Mem(now, Table(map[], map[], now), now, None, None, None, None, map[], 0, map[], 0, []), seq(threads, i => Idle))
  }

  // ----- locks a program counter holds and wants

  predicate HoldsState(pc: Pc) {
    match pc
    case InGrant(_, g) => g.GrantLocked? || g.GrantPurged?
    case InRelease(_, r) => !r.ReleaseWait?
    case InOpen(_, o) => o.CheckLocked? || o.SnapLocked? || o.TouchLocked? || o.TouchPurged?
    case InMaintain(p) => p.MaintLocked?
    case _ => false
  }

  predicate HoldsCache(pc: Pc) {
    match pc
    case InGet(_, m) => m.CacheLocked? || m.RecheckLocked? || m.StoreLocked?
    case InMaintain(p) => p.MaintCacheLocked?
    case _ => false
  }

  predicate HoldsLoading(pc: Pc) {
    pc.InGet? && !pc.m.CacheWait? && !pc.m.CacheLocked? && !pc.m.LoadingWait?
  }

  predicate WantsState(pc: Pc) {
    match pc
    case InGrant(_, g) => g.GrantNext? && g.todo == []
    case InRelease(_, r) => r.ReleaseWait?
    case InOpen(_, o) => o.CheckWait? || o.SnapWait? || o.TouchWait?
    case InMaintain(p) => p.MaintWait?
    case _ => false
  }

  predicate WantsCache(pc: Pc) {
    match pc
    case InGet(_, m) => m.CacheWait? || m.RecheckWait? || m.StoreWait?
    case InMaintain(p) => p.MaintCacheWait?
    case _ => false
  }

  predicate WantsLoading(pc: Pc) {
    pc.InGet? && pc.m.LoadingWait?
  }

  // ----- page handles

  function Opt(master: Option<Page>): set<Page> {
    if master.Some? then {master.value} else {}
  }

  function Clone(handles: map<Page, int>, pages: set<Page>): map<Page, int> {
    map p | p in handles :: handles[p] + (if p in pages then 1 else 0)
  }

  function Drop(handles: map<Page, int>, pages: set<Page>): map<Page, int> {
    map p | p in handles :: handles[p] - (if p in pages then 1 else 0)
  }

  /** The grants whose entry holds page `p`. */
  function Having(grants: map<GrantId, GrantEntry>, p: Page): set<GrantId> {
    set g | g in grants && p in grants[g].deks.Values
  }

  /** Dropping every entry of `before` that is no longer in `after`. */
  function DropEntries(handles: map<Page, int>, before: map<GrantId, GrantEntry>, after: map<GrantId, GrantEntry>): map<Page, int> {
    map p | p in handles :: handles[p] - |Having(before - after.Keys, p)|
  }

  // ----- critical-section bodies

  function Spend(spent: seq<Spent>): (nonces: seq<(Nonce, Instant)>)
    ensures |nonces| == |spent|
    ensures forall i | 0 <= i < |spent| :: nonces[i] == (spent[i].approval.nonce, spent[i].deadline)
  {
    seq(|spent|, i requires 0 <= i < |spent| => (spent[i].approval.nonce, spent[i].deadline))
  }

  function Min(a: nat, b: nat): nat {
    if a <= b then a else b
  }

  function EntryOf(d: Draft): GrantEntry {
    GrantEntry(d.expiresAt, d.deks)
  }

  /** `AgentState::purge` on the shared table. */
  function Purge(c: Config, s: Mem): Mem {
    var after := Purged(s.table, c.idle, s.clock);
    s.(table := after, purgedAt := s.clock, deks := DropEntries(s.deks, s.table.grants, after.grants))
  }

  /** The second half of `record_activity`, and the end of its critical section. */
  function Touch(s: Mem): Mem {
    s.(table := s.table.(lastActivity := s.clock), stateLock := None)
  }

  /** `AgentMasterCache::expire`, with the handle it drops. */
  function Expire(c: Config, s: Mem): Mem {
    var after := AfterExpiry(s.cached, c.idle, s.clock);
    s.(cached := after,
       masters := if s.cached.Some? && after.None? then Drop(s.masters, {s.cached.value.key}) else s.masters)
  }

  /** `use_cached` on a cache that `expire` left filled: refresh it and clone its key. */
  function UseCached(s: Mem): Mem
    requires s.cached.Some?
  {
    var k := s.cached.value.key;
    s.(cached := Some(CachedMaster(k, s.clock)), masters := Clone(s.masters, {k}), cacheLock := None,
       log := s.log + [Hit(k, s.clock)])
  }

  /** `get_live_grant`, whose answer is recorded, and the end of its critical section. */
  function Check(c: Config, s: Mem, g: GrantId): Mem {
    s.(stateLock := None, log := s.log + [Checked(g, IsLive(s.table, c.idle, g, s.clock), s.clock)])
  }

  // ----- moves

  /** A fresh DEK page with one handle. */
  function NewDek(s: Mem): Mem {
    s.(deks := s.deks[s.nextDek := 1], nextDek := s.nextDek + 1)
  }

  /** A fresh master page with one handle. */
  function NewMaster(s: Mem): Mem {
    s.(masters := s.masters[s.nextMaster := 1], nextMaster := s.nextMaster + 1)
  }

  /** Giving up a grant drops the keys it had opened. */
  function Abandon(s: Mem, d: Draft): Move {
    Move(Idle, s.(deks := Drop(s.deks, d.deks.Values)))
  }

  predicate HasNonce(d: Draft, nonce: Nonce) {
    exists i | 0 <= i < |d.spent| :: d.spent[i].approval.nonce == nonce
  }

  /** The rest of one round of the grant loop, once the wall clock has been read for the deadline. */
  function OpenBox(s: Mem, d: Draft, request: DekRequest, rest: seq<DekRequest>, instant: Instant, ok: bool): Move {
    var a := request.approval;
    if s.clock > a.expires || HasNonce(d, a.nonce) || request.key in d.deks || !ok then Abandon(s, d)
    else
      var deadline := instant + (a.expires - s.clock);
      Move(
        InGrant(d.(expiresAt := Min(d.expiresAt, deadline), deks := d.deks[request.key := s.nextDek],
                   spent := d.spent + [Spent(a, deadline)]),
                GrantNext(rest)),
        NewDek(s))
  }

  /** The end of `publish_grant`, after its purge. */
  function PublishDraft(s: Mem, d: Draft): Move {
    if PublishCheck(s.table, EntryOf(d), Spend(d.spent), s.clock).Some? then
      Abandon(s.(stateLock := None), d)
    else
      Move(Idle, s.(
        stateLock := None,
        table := Published(s.table, d.id, EntryOf(d), Spend(d.spent), s.clock),
        deks := DropEntries(s.deks, s.table.grants, s.table.grants - {d.id}),
        log := s.log + [Publish(d, s.clock)]))
  }

  function GrantMove(c: Config, s: Mem, t: Tid, d: Draft, g: GrantPc, ok: bool): Move {
    match g
    case GrantNext(todo) =>
      if todo == [] then Move(InGrant(d, GrantLocked), s.(stateLock := Some(t)))
      else if todo[0].approval.expires <= s.clock then Abandon(s, d)
      else Move(InGrant(d, GrantValidated(todo)), s)
    case GrantValidated(todo) => Move(InGrant(d, GrantDated(todo, s.clock)), s)
    case GrantDated(todo, instant) =>
      if todo == [] then Abandon(s, d) else OpenBox(s, d, todo[0], todo[1..], instant, ok)
    case GrantLocked => Move(InGrant(d, GrantPurged), Purge(c, s))
    case GrantPurged => PublishDraft(s, d)
  }

  function ReleaseMove(c: Config, s: Mem, t: Tid, id: GrantId, r: ReleasePc): Move {
    match r
    case ReleaseWait => Move(InRelease(id, ReleaseLocked), s.(stateLock := Some(t)))
    case ReleaseLocked => Move(InRelease(id, ReleasePurged), Purge(c, s))
    case ReleasePurged =>
      if id in s.table.grants then
        Move(InRelease(id, ReleaseTouch), s.(
          table := s.table.(grants := s.table.grants - {id}),
          deks := DropEntries(s.deks, s.table.grants, s.table.grants - {id}),
          log := s.log + [Removed(id, s.clock)]))
      else Move(Idle, s.(stateLock := None))
    case ReleaseTouch => Move(InRelease(id, ReleaseTouched), Purge(c, s))
    case ReleaseTouched => Move(Idle, Touch(s))
  }

  function OpenMove(c: Config, s: Mem, t: Tid, q: Request, o: OpenPc, ok: bool): Move {
    match o
    case CheckWait => Move(InOpen(q, CheckLocked), s.(stateLock := Some(t)))
    case CheckLocked =>
      Move(if !IsLive(s.table, c.idle, q.id, s.clock) then Idle
           else if q.needsMaster && c.storeBacked then InGet(q, CacheWait)
           else InOpen(q, SnapWait(None)),
           Check(c, s, q.id))
    case SnapWait(m) => Move(InOpen(q, SnapLocked(m)), s.(stateLock := Some(t)))
    case SnapLocked(m) =>
      var s1 := Check(c, s, q.id);
      if IsLive(s.table, c.idle, q.id, s.clock) then
        var deks := s.table.grants[q.id].deks;
        Move(InOpen(q, Opening(deks, m)), s1.(deks := Clone(s.deks, deks.Values)))
      else
        Move(Idle, s1.(masters := Drop(s.masters, Opt(m))))
    case Opening(deks, m) =>
      Move(if ok then InOpen(q, TouchWait) else Idle, s.(deks := Drop(s.deks, deks.Values), masters := Drop(s.masters, Opt(m))))
    case TouchWait => Move(InOpen(q, TouchLocked), s.(stateLock := Some(t)))
    case TouchLocked => Move(InOpen(q, TouchPurged), Purge(c, s))
    case TouchPurged => Move(InOpen(q, ExternalIo), Touch(s))
    case ExternalIo => Move(Idle, s)
  }

  function GetMove(c: Config, s: Mem, t: Tid, q: Request, m: GetPc, ok: bool): Move {
    match m
    case CacheWait => Move(InGet(q, CacheLocked), s.(cacheLock := Some(t)))
    case CacheLocked =>
      var s1 := Expire(c, s);
      if s1.cached.Some? then Move(InOpen(q, SnapWait(Some(s1.cached.value.key))), UseCached(s1))
      else Move(InGet(q, LoadingWait), s1.(cacheLock := None))
    case LoadingWait => Move(InGet(q, RecheckWait), s.(loadingLock := Some(t)))
    case RecheckWait => Move(InGet(q, RecheckLocked), s.(cacheLock := Some(t)))
    case RecheckLocked =>
      var s1 := Expire(c, s);
      if s1.cached.Some? then Move(InGet(q, LoadingRelease(s1.cached.value.key)), UseCached(s1))
      else Move(InGet(q, InLoader), s1.(cacheLock := None, log := s.log + [LoadStarted(s.clock)]))
    case InLoader =>
      if ok then Move(InGet(q, StoreWait(s.nextMaster)), NewMaster(s)) else Move(Idle, s.(loadingLock := None))
    case StoreWait(k) => Move(InGet(q, StoreLocked(k)), s.(cacheLock := Some(t)))
    case StoreLocked(k) =>
      var others := if s.cached.Some? then Drop(s.masters, {s.cached.value.key}) else s.masters;
      Move(InGet(q, LoadingRelease(k)), s.(
        cacheLock := None, cached := Some(CachedMaster(k, s.clock)), masters := Clone(others, {k}),
        log := s.log + [Stored(k, s.clock)]))
    case LoadingRelease(k) => Move(InOpen(q, SnapWait(Some(k))), s.(loadingLock := None))
  }

  /** `AgentShared::purge`. */
  function MaintainMove(c: Config, s: Mem, t: Tid, p: MaintainPc): Move {
    match p
    case MaintWait => Move(InMaintain(MaintLocked), s.(stateLock := Some(t)))
    case MaintLocked => Move(InMaintain(MaintCacheWait), Purge(c, s).(stateLock := None))
    case MaintCacheWait => Move(InMaintain(MaintCacheLocked), s.(cacheLock := Some(t)))
    case MaintCacheLocked => Move(Idle, Expire(c, s).(cacheLock := None))
  }

  function MoveOf(c: Config, s: Mem, t: Tid, pc: Pc, ok: bool): Move {
    match pc
    case Idle => Move(Idle, s)
    case InGrant(d, g) => GrantMove(c, s, t, d, g, ok)
    case InRelease(id, r) => ReleaseMove(c, s, t, id, r)
    case InOpen(q, o) => OpenMove(c, s, t, q, o, ok)
    case InGet(q, m) => GetMove(c, s, t, q, m, ok)
    case InMaintain(p) => MaintainMove(c, s, t, p)
  }

  // ----- runs

  predicate CanGo(s: Mem, pc: Pc) {
    && !pc.Idle?
    && (WantsState(pc) ==> s.stateLock.None?)
    && (WantsCache(pc) ==> s.cacheLock.None?)
    && (WantsLoading(pc) ==> s.loadingLock.None?)
  }

  function FirstPc(op: Op, now: Instant): Pc {
    match op
    case OpGrant(id, ttl, deks) => InGrant(Draft(id, now, ttl, now + ttl, map[], []), GrantNext(deks))
    case OpRelease(id) => InRelease(id, ReleaseWait)
    case OpOpen(request) => InOpen(request, CheckWait)
    case OpMaintain => InMaintain(MaintWait)
  }

  const MAX_GRANT_TTL: nat := 24 * 60 * 60 * SECOND
  const MIN_NONCE_BYTES: nat := 16
  const MAX_NONCE_BYTES: nat := 128

  /** What parsing lets through: a nonce of an allowed length, and an expiry in whole seconds. */
  predicate Parses(a: Approval) {
    MIN_NONCE_BYTES <= |a.nonce| <= MAX_NONCE_BYTES && a.expires % SECOND == 0
  }

  predicate ValidTtl(ttl: nat) {
    0 < ttl <= MAX_GRANT_TTL && ttl % SECOND == 0
  }

  predicate CanBegin(pc: Pc, op: Op) {
    && pc.Idle?
    && (op.OpGrant? ==> op.id != "" && ValidTtl(op.ttl) && op.deks != [] && forall k | 0 <= k < |op.deks| :: Parses(op.deks[k].approval))
  }

  /** One action; an action that is not enabled has no effect. */
  function Step(c: Config, s: Sys, a: Action): Sys {
    match a
    case Tick(elapsed) => s.(mem := s.mem.(clock := s.mem.clock + elapsed))
    case Begin(t, op) =>
      if t < |s.threads| && CanBegin(s.threads[t], op) then
        s.(threads := s.threads[t := FirstPc(op, s.mem.clock)])
      else s
    case Go(t, ok) =>
      if t < |s.threads| && CanGo(s.mem, s.threads[t]) then
        var move := MoveOf(c, s.mem, t, s.threads[t], ok);
        Sys(move.mem, s.threads[t := move.pc])
      else s
  }

  /** Every list of actions is an interleaving, and every interleaving is such a list. */
  function Run(c: Config, s: Sys, actions: seq<Action>): Sys
    decreases |actions|
  {
    if actions == [] then s else Step(c, Run(c, s, actions[..|actions| - 1]), actions[|actions| - 1])
  }
}
