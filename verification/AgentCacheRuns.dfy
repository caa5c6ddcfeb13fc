/**
 The cached master over every interleaving: a finished load only ever fills an empty cache, a cached key is
 never returned after an idle gap, and store loads are at least the idle timeout apart.
 */
module AgentCacheRuns {
  import opened Wrappers
  import opened AgentTable
  import opened MasterCache
  import opened AgentProtocol
  import AgentLocks

  datatype CacheEffect =
    | Leaves
    | Expires
    | Uses(key: Page)
    | StartsLoad
    | Fills(key: Page)

  /** An event at which the cached key was used or stored. */
  ghost predicate IsUse(e: Event) {
    e.Hit? || e.Stored?
  }

  ghost predicate IsCacheEvent(e: Event) {
    e.Hit? || e.Stored? || e.LoadStarted?
  }

  ghost predicate Has(c: Config, s: Mem, pc: Pc, move: Move, e: CacheEffect) {
    var s' := move.mem;
    var kept := AfterExpiry(s.cached, c.idle, s.clock);
    && s'.clock == s.clock
    && match e
       case Leaves =>
         && s'.cached == s.cached
         && (s'.log == s.log || exists event :: s'.log == s.log + [event] && !IsCacheEvent(event) && event.at == s.clock)
       case Expires => s'.cached == kept && s'.log == s.log
       case Uses(k) =>
         && kept.Some? && kept.value.key == k
         && s'.cached == Some(CachedMaster(k, s.clock)) && s'.log == s.log + [Hit(k, s.clock)]
       case StartsLoad => kept.None? && s'.cached == None && s'.log == s.log + [LoadStarted(s.clock)]
       case Fills(k) =>
         && pc.InGet? && pc.m == StoreLocked(k)
         && s'.cached == Some(CachedMaster(k, s.clock)) && s'.log == s.log + [Stored(k, s.clock)]
  }

  lemma GrantEffect(c: Config, s: Mem, t: Tid, d: Draft, g: GrantPc, ok: bool)
    ensures Has(c, s, InGrant(d, g), GrantMove(c, s, t, d, g, ok), Leaves)
  {
    assert Publish(d, s.clock).at == s.clock;
  }

  lemma ReleaseEffect(c: Config, s: Mem, t: Tid, id: GrantId, r: ReleasePc)
    ensures Has(c, s, InRelease(id, r), ReleaseMove(c, s, t, id, r), Leaves)
  {
    assert Removed(id, s.clock).at == s.clock;
  }

  lemma OpenEffect(c: Config, s: Mem, t: Tid, q: Request, o: OpenPc, ok: bool)
    ensures Has(c, s, InOpen(q, o), OpenMove(c, s, t, q, o, ok), Leaves)
  {
    var event := Checked(q.id, IsLive(s.table, c.idle, q.id, s.clock), s.clock);
    assert !IsCacheEvent(event) && event.at == s.clock;
  }

  lemma GetEffect(c: Config, s: Mem, t: Tid, q: Request, m: GetPc, ok: bool) returns (e: CacheEffect)
    ensures Has(c, s, InGet(q, m), GetMove(c, s, t, q, m, ok), e)
  {
    var kept := AfterExpiry(s.cached, c.idle, s.clock);
    e := match m
      case CacheLocked => if kept.Some? then Uses(kept.value.key) else Expires
      case RecheckLocked => if kept.Some? then Uses(kept.value.key) else StartsLoad
      case StoreLocked(k) => Fills(k)
      case _ => Leaves;
  }

  lemma MoveEffect(c: Config, s: Mem, t: Tid, pc: Pc, ok: bool) returns (e: CacheEffect)
    requires !pc.Idle?
    ensures Has(c, s, pc, MoveOf(c, s, t, pc, ok), e)
  {
    e := Leaves;
    match pc {
      case InGrant(d, g) => GrantEffect(c, s, t, d, g, ok);
      case InRelease(id, r) => ReleaseEffect(c, s, t, id, r);
      case InOpen(q, o) => OpenEffect(c, s, t, q, o, ok);
      case InGet(q, m) => e := GetEffect(c, s, t, q, m, ok);
      case InMaintain(p) => e := if p.MaintCacheLocked? then Expires else Leaves;
    }
  }

  // ----- what the log says about the cache

  /** Event `k` is the last use before `to`. */
  ghost predicate LastUse(log: seq<Event>, k: nat, to: nat)
    requires to <= |log|
  {
    k < to && IsUse(log[k]) && forall j | k < j < to :: !IsUse(log[j])
  }

  /** The cached key and its time are those of the last use. */
  ghost predicate CacheLogged(s: Mem) {
    s.cached.Some? ==>
      exists k | 0 <= k < |s.log| ::
        LastUse(s.log, k, |s.log|) && s.log[k].key == s.cached.value.key && s.log[k].at == s.cached.value.lastUsed
  }

  ghost predicate InOrder(s: Mem) {
    && (forall i | 0 <= i < |s.log| :: s.log[i].at <= s.clock)
    && (forall i, j | 0 <= i < j < |s.log| :: s.log[i].at <= s.log[j].at)
  }

  /** The key was stored or used less than `idle` before, and nothing else was since. */
  ghost predicate HitFresh(idle: nat, log: seq<Event>, j: nat)
    requires j < |log|
  {
    log[j].Hit? ==>
      exists k | 0 <= k < j :: LastUse(log, k, j) && log[k].key == log[j].key && log[j].at < log[k].at + idle
  }

  ghost predicate HitsFresh(idle: nat, log: seq<Event>) {
    forall j | 0 <= j < |log| :: HitFresh(idle, log, j)
  }

  /** After a store at `at` the cache stays filled with something at least as recent until `idle` has passed. */
  ghost predicate Covered(idle: nat, s: Mem, at: Instant) {
    if s.cached.Some? then s.cached.value.lastUsed >= at else s.clock >= at + idle
  }

  ghost predicate StoresCovered(idle: nat, s: Mem) {
    forall i | 0 <= i < |s.log| && s.log[i].Stored? :: Covered(idle, s, s.log[i].at)
  }

  ghost predicate LoadsApart(idle: nat, log: seq<Event>) {
    forall i, j | 0 <= i < j < |log| && log[i].Stored? && log[j].LoadStarted? :: log[j].at >= log[i].at + idle
  }

  ghost predicate CacheOk(c: Config, s: Mem) {
    && (s.cached.Some? ==> s.cached.value.lastUsed <= s.clock)
    && CacheLogged(s)
    && InOrder(s)
    && HitsFresh(c.idle, s.log)
    && StoresCovered(c.idle, s)
    && LoadsApart(c.idle, s.log)
  }

  lemma EffectInOrder(c: Config, s: Mem, pc: Pc, move: Move, e: CacheEffect)
    requires Has(c, s, pc, move, e) && InOrder(s)
    ensures InOrder(move.mem)
  {
  }

  lemma EffectLogged(c: Config, s: Mem, pc: Pc, move: Move, e: CacheEffect)
    requires Has(c, s, pc, move, e) && CacheLogged(s)
    ensures CacheLogged(move.mem)
  {
    var log, log' := s.log, move.mem.log;
    match e {
      case Uses(_) => assert LastUse(log', |log|, |log'|);
      case Fills(_) => assert LastUse(log', |log|, |log'|);
      case StartsLoad =>
      case _ =>
        if move.mem.cached.Some? {
          var k :| 0 <= k < |log| && LastUse(log, k, |log|) && log[k].key == s.cached.value.key && log[k].at == s.cached.value.lastUsed;
          assert LastUse(log', k, |log'|);
        }
    }
  }

  lemma HitFreshKept(idle: nat, log: seq<Event>, e: Event, j: nat)
    requires j < |log| && HitFresh(idle, log, j)
    ensures HitFresh(idle, log + [e], j)
  {
    if log[j].Hit? {
      var k :| 0 <= k < j && LastUse(log, k, j) && log[k].key == log[j].key && log[j].at < log[k].at + idle;
      assert LastUse(log + [e], k, j);
    }
  }

  lemma NewHitFresh(c: Config, s: Mem, k: Page)
    requires CacheLogged(s) && InOrder(s)
    requires AfterExpiry(s.cached, c.idle, s.clock).Some? && s.cached.value.key == k
    ensures HitFresh(c.idle, s.log + [Hit(k, s.clock)], |s.log|)
  {
    var i :| 0 <= i < |s.log| && LastUse(s.log, i, |s.log|) && s.log[i].key == s.cached.value.key && s.log[i].at == s.cached.value.lastUsed;
    assert LastUse(s.log + [Hit(k, s.clock)], i, |s.log|);
  }

  lemma EffectHitsFresh(c: Config, s: Mem, pc: Pc, move: Move, e: CacheEffect)
    requires Has(c, s, pc, move, e) && CacheLogged(s) && InOrder(s) && HitsFresh(c.idle, s.log)
    ensures HitsFresh(c.idle, move.mem.log)
  {
    var log, log' := s.log, move.mem.log;
    if log' != log {
      forall j | 0 <= j < |log|
        ensures HitFresh(c.idle, log', j)
      {
        HitFreshKept(c.idle, log, log'[|log|], j);
        assert log' == log + [log'[|log|]];
      }
      if e.Uses? {
        NewHitFresh(c, s, e.key);
      }
    }
  }

  lemma EffectSpacing(c: Config, s: Mem, pc: Pc, move: Move, e: CacheEffect)
    requires Has(c, s, pc, move, e) && InOrder(s) && StoresCovered(c.idle, s) && LoadsApart(c.idle, s.log)
    requires s.cached.Some? ==> s.cached.value.lastUsed <= s.clock
    ensures StoresCovered(c.idle, move.mem) && LoadsApart(c.idle, move.mem.log)
  {
    var log, log' := s.log, move.mem.log;
    forall i | 0 <= i < |log| && log[i].Stored?
      ensures Covered(c.idle, move.mem, log[i].at)
    {
      assert Covered(c.idle, s, log[i].at);
    }
    forall i, j | 0 <= i < j < |log'| && log'[i].Stored? && log'[j].LoadStarted?
      ensures log'[j].at >= log'[i].at + c.idle
    {
      assert log'[i] == log[i];
      if j == |log| {
        assert Covered(c.idle, move.mem, log[i].at);
      }
    }
  }

  lemma CacheStep(c: Config, s: Sys, a: Action)
    requires CacheOk(c, s.mem)
    ensures CacheOk(c, Step(c, s, a).mem)
  {
    if a.Go? && a.t < |s.threads| && CanGo(s.mem, s.threads[a.t]) {
      var pc := s.threads[a.t];
      var move := MoveOf(c, s.mem, a.t, pc, a.ok);
      var e := MoveEffect(c, s.mem, a.t, pc, a.ok);
      EffectInOrder(c, s.mem, pc, move, e);
      EffectLogged(c, s.mem, pc, move, e);
      EffectHitsFresh(c, s.mem, pc, move, e);
      EffectSpacing(c, s.mem, pc, move, e);
    }
  }

  // ----- loads fill an empty cache

  /** Past the second look at the cache and not yet stored. */
  ghost predicate Missed(pc: Pc) {
    pc.InGet? && (pc.m.InLoader? || pc.m.StoreWait? || pc.m.StoreLocked?)
  }

  ghost predicate EmptyWhileLoading(s: Sys) {
    forall t | 0 <= t < |s.threads| && Missed(s.threads[t]) :: s.mem.cached.None?
  }

  lemma MissedComesFrom(c: Config, s: Mem, t: Tid, pc: Pc, ok: bool)
    ensures Missed(MoveOf(c, s, t, pc, ok).pc) ==>
              && HoldsLoading(pc)
              && (Missed(pc) || (pc.m.RecheckLocked? && MoveOf(c, s, t, pc, ok).mem.cached.None?))
  {
  }

  lemma {:induction false} EmptyStep(c: Config, s: Sys, a: Action)
    requires AgentLocks.LocksOwned(s) && EmptyWhileLoading(s)
    ensures EmptyWhileLoading(Step(c, s, a))
  {
    if a.Go? && a.t < |s.threads| && CanGo(s.mem, s.threads[a.t]) {
      var t, pc := a.t, s.threads[a.t];
      var move := MoveOf(c, s.mem, t, pc, a.ok);
      var e := MoveEffect(c, s.mem, t, pc, a.ok);
      MissedComesFrom(c, s.mem, t, pc, a.ok);
      var threads := s.threads[t := move.pc];
      forall u | 0 <= u < |threads| && Missed(threads[u])
        ensures move.mem.cached.None?
      {
        if u == t {
        } else {
          assert HoldsLoading(s.threads[u]) && s.mem.loadingLock == Some(u);
          assert !e.Fills?;
        }
      }
    }
  }

  lemma {:induction false} CacheAlways(c: Config, threads: nat, now: Instant, actions: seq<Action>)
    ensures var s := Run(c, Start(threads, now), actions);
            CacheOk(c, s.mem) && EmptyWhileLoading(s)
    decreases |actions|
  {
    if actions != [] {
      var before := actions[..|actions| - 1];
      CacheAlways(c, threads, now, before);
      AgentLocks.LocksAlways(c, threads, now, before);
      CacheStep(c, Run(c, Start(threads, now), before), actions[|actions| - 1]);
      EmptyStep(c, Run(c, Start(threads, now), before), actions[|actions| - 1]);
    }
  }

  /** Whenever a thread has a freshly loaded key in hand, the cache is empty: storing it overwrites nothing. */
  lemma LoadFillsEmptyCache(c: Config, threads: nat, now: Instant, actions: seq<Action>, t: Tid)
    requires var s := Run(c, Start(threads, now), actions);
             t < |s.threads| && s.threads[t].InGet? && s.threads[t].m.StoreLocked?
    ensures Run(c, Start(threads, now), actions).mem.cached.None?
  {
    CacheAlways(c, threads, now, actions);
  }

  /** A key returned from the cache was stored or used, as that same key, less than the idle timeout before. */
  lemma {:induction false} NeverStaleHit(c: Config, threads: nat, now: Instant, actions: seq<Action>, j: nat) returns (k: nat)
    requires var log := Run(c, Start(threads, now), actions).mem.log; j < |log| && log[j].Hit?
    ensures var log := Run(c, Start(threads, now), actions).mem.log;
            LastUse(log, k, j) && log[k].key == log[j].key && log[k].at <= log[j].at < log[k].at + c.idle
  {
    CacheAlways(c, threads, now, actions);
    var log := Run(c, Start(threads, now), actions).mem.log;
    assert HitFresh(c.idle, log, j);
    k :| 0 <= k < j && LastUse(log, k, j) && log[k].key == log[j].key && log[j].at < log[k].at + c.idle;
  }

  /** After a load has been stored, the next store access starts at least the idle timeout later. */
  lemma {:induction false} LoadsIdleApart(c: Config, threads: nat, now: Instant, actions: seq<Action>, i: nat, j: nat)
    requires var log := Run(c, Start(threads, now), actions).mem.log;
             i < j < |log| && log[i].Stored? && log[j].LoadStarted?
    ensures var log := Run(c, Start(threads, now), actions).mem.log; log[j].at >= log[i].at + c.idle
  {
    CacheAlways(c, threads, now, actions);
  }

  /** `last_used` never exceeds the clock, and no action moves it back. */
  lemma {:induction false} LastUsedMovesForward(c: Config, threads: nat, now: Instant, actions: seq<Action>, a: Action)
    ensures var s := Run(c, Start(threads, now), actions);
            var s' := Step(c, s, a);
            && (s.mem.cached.Some? ==> s.mem.cached.value.lastUsed <= s.mem.clock)
            && (s.mem.cached.Some? && s'.mem.cached.Some? ==> s.mem.cached.value.lastUsed <= s'.mem.cached.value.lastUsed)
  {
    CacheAlways(c, threads, now, actions);
    var s := Run(c, Start(threads, now), actions);
    if a.Go? && a.t < |s.threads| && CanGo(s.mem, s.threads[a.t]) {
      var e := MoveEffect(c, s.mem, a.t, s.threads[a.t], a.ok);
    }
  }
}
