/** Lock discipline of the agent: who holds what, mutual exclusion, and freedom from deadlock. */
module AgentLocks {
  import opened Wrappers
  import opened AgentTable
  import opened AgentProtocol

  /** Each lock is held by exactly the thread whose program counter is inside the lock's section. */
  ghost predicate LocksOwned(s: Sys) {
    && (s.mem.stateLock.Some? ==> s.mem.stateLock.value < |s.threads| && HoldsState(s.threads[s.mem.stateLock.value]))
    && (s.mem.cacheLock.Some? ==> s.mem.cacheLock.value < |s.threads| && HoldsCache(s.threads[s.mem.cacheLock.value]))
    && (s.mem.loadingLock.Some? ==> s.mem.loadingLock.value < |s.threads| && HoldsLoading(s.threads[s.mem.loadingLock.value]))
    && (forall t | 0 <= t < |s.threads| :: HoldsState(s.threads[t]) ==> s.mem.stateLock == Some(t))
    && (forall t | 0 <= t < |s.threads| :: HoldsCache(s.threads[t]) ==> s.mem.cacheLock == Some(t))
    && (forall t | 0 <= t < |s.threads| :: HoldsLoading(s.threads[t]) ==> s.mem.loadingLock == Some(t))
  }

  /** The owner of a lock after thread `t` moved in (`now`) or out (`before`) of its section. */
  function Owner(owner: Option<Tid>, t: Tid, before: bool, now: bool): Option<Tid> {
    if now then Some(t) else if before then None else owner
  }

  /** A thread that is where its program counter says owns the locks it should. */
  ghost predicate Owning(s: Mem, t: Tid, pc: Pc) {
    && (HoldsState(pc) ==> s.stateLock == Some(t))
    && (HoldsCache(pc) ==> s.cacheLock == Some(t))
    && (HoldsLoading(pc) ==> s.loadingLock == Some(t))
  }

  /** A move takes and frees exactly the locks of the sections it enters and leaves, and takes only free locks. */
  ghost predicate TakesAndFrees(s: Mem, t: Tid, pc: Pc, move: Move) {
    && move.mem.stateLock == Owner(s.stateLock, t, HoldsState(pc), HoldsState(move.pc))
    && move.mem.cacheLock == Owner(s.cacheLock, t, HoldsCache(pc), HoldsCache(move.pc))
    && move.mem.loadingLock == Owner(s.loadingLock, t, HoldsLoading(pc), HoldsLoading(move.pc))
    && (HoldsState(move.pc) ==> HoldsState(pc) || s.stateLock.None?)
    && (HoldsCache(move.pc) ==> HoldsCache(pc) || s.cacheLock.None?)
    && (HoldsLoading(move.pc) ==> HoldsLoading(pc) || s.loadingLock.None?)
  }

  lemma GrantLocks(c: Config, s: Mem, t: Tid, d: Draft, g: GrantPc, ok: bool)
    requires CanGo(s, InGrant(d, g)) && Owning(s, t, InGrant(d, g))
    ensures TakesAndFrees(s, t, InGrant(d, g), GrantMove(c, s, t, d, g, ok))
  {
  }

  lemma ReleaseLocks(c: Config, s: Mem, t: Tid, id: GrantId, r: ReleasePc)
    requires CanGo(s, InRelease(id, r)) && Owning(s, t, InRelease(id, r))
    ensures TakesAndFrees(s, t, InRelease(id, r), ReleaseMove(c, s, t, id, r))
  {
  }

  lemma OpenLocks(c: Config, s: Mem, t: Tid, q: Request, o: OpenPc, ok: bool)
    requires CanGo(s, InOpen(q, o)) && Owning(s, t, InOpen(q, o))
    ensures TakesAndFrees(s, t, InOpen(q, o), OpenMove(c, s, t, q, o, ok))
  {
  }

  lemma GetLocks(c: Config, s: Mem, t: Tid, q: Request, m: GetPc, ok: bool)
    requires CanGo(s, InGet(q, m)) && Owning(s, t, InGet(q, m))
    ensures TakesAndFrees(s, t, InGet(q, m), GetMove(c, s, t, q, m, ok))
  {
  }

  lemma MaintainLocks(c: Config, s: Mem, t: Tid, p: MaintainPc)
    requires CanGo(s, InMaintain(p)) && Owning(s, t, InMaintain(p))
    ensures TakesAndFrees(s, t, InMaintain(p), MaintainMove(c, s, t, p))
  {
  }

  lemma {:induction false} MoveLocks(c: Config, s: Mem, t: Tid, pc: Pc, ok: bool)
    requires CanGo(s, pc) && Owning(s, t, pc)
    ensures TakesAndFrees(s, t, pc, MoveOf(c, s, t, pc, ok))
  {
    match pc {
      case InGrant(d, g) => GrantLocks(c, s, t, d, g, ok);
      case InRelease(id, r) => ReleaseLocks(c, s, t, id, r);
      case InOpen(q, o) => OpenLocks(c, s, t, q, o, ok);
      case InGet(q, m) => GetLocks(c, s, t, q, m, ok);
      case InMaintain(p) => MaintainLocks(c, s, t, p);
    }
  }

  lemma OwnersKept(s: Sys, t: Tid, move: Move)
    requires LocksOwned(s) && t < |s.threads| && TakesAndFrees(s.mem, t, s.threads[t], move)
    ensures LocksOwned(Sys(move.mem, s.threads[t := move.pc]))
  {
  }

  lemma {:induction false} LocksStep(c: Config, s: Sys, a: Action)
    requires LocksOwned(s)
    ensures LocksOwned(Step(c, s, a))
  {
    if a.Go? && a.t < |s.threads| && CanGo(s.mem, s.threads[a.t]) {
      MoveLocks(c, s.mem, a.t, s.threads[a.t], a.ok);
      OwnersKept(s, a.t, MoveOf(c, s.mem, a.t, s.threads[a.t], a.ok));
    }
  }

  lemma {:induction false} LocksAlways(c: Config, threads: nat, now: Instant, actions: seq<Action>)
    ensures LocksOwned(Run(c, Start(threads, now), actions))
    decreases |actions|
  {
    if actions != [] {
      var before := actions[..|actions| - 1];
      LocksAlways(c, threads, now, before);
      LocksStep(c, Run(c, Start(threads, now), before), actions[|actions| - 1]);
    }
  }

  ghost predicate IsLoading(pc: Pc) {
    pc.InGet? && pc.m.InLoader?
  }

  /**
   No two threads are in the store loader at once, nor in any one critical section; and a thread in the
   loader holds neither the cache lock nor the state lock.
   */
  lemma MutualExclusion(c: Config, threads: nat, now: Instant, actions: seq<Action>)
    ensures var s := Run(c, Start(threads, now), actions);
            && (forall t, u | 0 <= t < u < |s.threads| :: !(IsLoading(s.threads[t]) && IsLoading(s.threads[u])))
            && (forall t, u | 0 <= t < u < |s.threads| :: !(HoldsState(s.threads[t]) && HoldsState(s.threads[u])))
            && (forall t, u | 0 <= t < u < |s.threads| :: !(HoldsCache(s.threads[t]) && HoldsCache(s.threads[u])))
            && (forall t | 0 <= t < |s.threads| && IsLoading(s.threads[t]) ::
                  s.mem.loadingLock == Some(t) && s.mem.stateLock != Some(t) && s.mem.cacheLock != Some(t))
  {
    LocksAlways(c, threads, now, actions);
  }

  /** Locks are taken in one order: loading before cache, and the state lock never with another. */
  lemma {:induction false} LockOrder(c: Config, threads: nat, now: Instant, actions: seq<Action>, t: Tid)
    ensures var s := Run(c, Start(threads, now), actions);
            t < |s.threads| ==>
              && (s.mem.stateLock == Some(t) ==> s.mem.cacheLock != Some(t) && s.mem.loadingLock != Some(t))
              && (WantsState(s.threads[t]) || WantsLoading(s.threads[t]) ==>
                    s.mem.stateLock != Some(t) && s.mem.cacheLock != Some(t) && s.mem.loadingLock != Some(t))
              && (WantsCache(s.threads[t]) ==> s.mem.stateLock != Some(t) && s.mem.cacheLock != Some(t))
  {
    LocksAlways(c, threads, now, actions);
  }

  ghost predicate WaitsFor(s: Sys, t: Tid, holder: Tid) {
    && t < |s.threads|
    && ((WantsState(s.threads[t]) && s.mem.stateLock == Some(holder)) ||
        (WantsCache(s.threads[t]) && s.mem.cacheLock == Some(holder)) ||
        (WantsLoading(s.threads[t]) && s.mem.loadingLock == Some(holder)))
  }

  /**
   Every request can make progress: from any reachable state, a thread in the middle of an operation can
   move, or waits for a lock whose holder can move, or waits for the loading lock whose holder waits for
   the cache lock whose holder can move.
   */
  lemma NoDeadlock(c: Config, threads: nat, now: Instant, actions: seq<Action>, t: Tid) returns (chain: seq<Tid>)
    requires t < |Run(c, Start(threads, now), actions).threads|
    requires !Run(c, Start(threads, now), actions).threads[t].Idle?
    ensures var s := Run(c, Start(threads, now), actions);
            && 1 <= |chain| <= 3 && chain[0] == t
            && (forall i | 0 <= i < |chain| - 1 :: WaitsFor(s, chain[i], chain[i + 1]))
            && chain[|chain| - 1] < |s.threads| && CanGo(s.mem, s.threads[chain[|chain| - 1]])
  {
    LocksAlways(c, threads, now, actions);
    var s := Run(c, Start(threads, now), actions);
    chain := [t];
    if WantsState(s.threads[t]) && s.mem.stateLock.Some? {
      chain := [t, s.mem.stateLock.value];
    } else if WantsCache(s.threads[t]) && s.mem.cacheLock.Some? {
      chain := [t, s.mem.cacheLock.value];
    } else if WantsLoading(s.threads[t]) && s.mem.loadingLock.Some? {
      var u := s.mem.loadingLock.value;
      chain := if WantsCache(s.threads[u]) && s.mem.cacheLock.Some? then [t, u, s.mem.cacheLock.value] else [t, u];
    }
  }
}
