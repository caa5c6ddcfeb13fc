/**
 Where handles on the standard master are: in the cache, with the one thread that is storing it, and with
 requests between obtaining it and the end of their in-memory crypto.
 */
module AgentMasterHandles {
  import opened AgentTable
  import opened AgentProtocol
  import opened AgentHandles

  ghost predicate InCache(s: Mem, k: Page) {
    s.cached.Some? && s.cached.value.key == k
  }

  /** Handles on `k` that neither the cache nor this thread explains. */
  function Owed(s: Mem, pc: Pc, k: Page): int
    requires k in s.masters
  {
    s.masters[k] - One(s.cached.Some? && s.cached.value.key == k) - One(Holds(UsingMaster(k), pc))
  }

  /** A move allocates at most one page. */
  ghost predicate Allocates(s: Mem, move: Move) {
    && s.nextMaster <= move.mem.nextMaster <= s.nextMaster + 1
    && move.mem.masters.Keys == (if move.mem.nextMaster == s.nextMaster then s.masters.Keys else s.masters.Keys + {s.nextMaster})
  }

  /** A move accounts for every handle on `k` that it takes and drops. */
  ghost predicate MasterBalanced(s: Mem, pc: Pc, move: Move, k: Page) {
    && Allocates(s, move)
    && (k in s.masters ==> Owed(move.mem, move.pc, k) == Owed(s, pc, k))
    && (InCache(move.mem, k) ==> InCache(s, k) || Holds(UsingMaster(k), pc))
    && (Holds(UsingMaster(k), move.pc) ==> InCache(s, k) || Holds(UsingMaster(k), pc) || (k == s.nextMaster && k in move.mem.masters))
    && (k == s.nextMaster < move.mem.nextMaster ==>
          move.mem.masters[k] == 1 && Holds(UsingMaster(k), move.pc) && move.mem.cached == s.cached)
  }

  lemma OpenMasters(c: Config, s: Mem, t: Tid, q: Request, o: OpenPc, ok: bool, k: Page)
    ensures MasterBalanced(s, InOpen(q, o), OpenMove(c, s, t, q, o, ok), k)
  {
  }

  lemma GetMasters(c: Config, s: Mem, t: Tid, q: Request, m: GetPc, ok: bool, k: Page)
    requires s.nextMaster !in s.masters
    ensures MasterBalanced(s, InGet(q, m), GetMove(c, s, t, q, m, ok), k)
  {
  }

  lemma MaintainMasters(c: Config, s: Mem, t: Tid, p: MaintainPc, k: Page)
    ensures MasterBalanced(s, InMaintain(p), MaintainMove(c, s, t, p), k)
  {
  }

  lemma GrantMasters(c: Config, s: Mem, t: Tid, d: Draft, g: GrantPc, ok: bool, k: Page)
    ensures MasterBalanced(s, InGrant(d, g), GrantMove(c, s, t, d, g, ok), k)
  {
  }

  lemma ReleaseMasters(c: Config, s: Mem, t: Tid, id: GrantId, r: ReleasePc, k: Page)
    ensures MasterBalanced(s, InRelease(id, r), ReleaseMove(c, s, t, id, r), k)
  {
  }

  lemma {:induction false} MoveMasters(c: Config, s: Mem, t: Tid, pc: Pc, ok: bool, k: Page)
    requires !pc.Idle? && s.nextMaster !in s.masters
    ensures MasterBalanced(s, pc, MoveOf(c, s, t, pc, ok), k)
  {
    match pc {
      case InGrant(d, g) => GrantMasters(c, s, t, d, g, ok, k);
      case InRelease(id, r) => ReleaseMasters(c, s, t, id, r, k);
      case InOpen(q, o) => OpenMasters(c, s, t, q, o, ok, k);
      case InGet(q, m) => GetMasters(c, s, t, q, m, ok, k);
      case InMaintain(p) => MaintainMasters(c, s, t, p, k);
    }
  }

  ghost predicate Counted(s: Sys, k: Page)
    requires k in s.mem.masters
  {
    s.mem.masters[k] == One(s.mem.cached.Some? && s.mem.cached.value.key == k) + Tally(s.threads, UsingMaster(k))
  }

  /** Every page in the cache or in use has been allocated. */
  ghost predicate Known(s: Sys) {
    && (forall k :: k in s.mem.masters <==> 0 <= k < s.mem.nextMaster)
    && (forall k | InCache(s.mem, k) :: k in s.mem.masters)
    && (forall t, k | 0 <= t < |s.threads| && Holds(UsingMaster(k), s.threads[t]) :: k in s.mem.masters)
  }

  ghost predicate MastersOk(s: Sys) {
    Known(s) && forall k | k in s.mem.masters :: Counted(s, k)
  }

  lemma {:induction false} MovedKnown(c: Config, s: Sys, t: Tid, ok: bool)
    requires Known(s) && t < |s.threads| && !s.threads[t].Idle?
    ensures var move := MoveOf(c, s.mem, t, s.threads[t], ok);
            Known(Sys(move.mem, s.threads[t := move.pc]))
  {
    hide MoveOf, Holds, InCache, Owed;
    var move := MoveOf(c, s.mem, t, s.threads[t], ok);
    var threads := s.threads[t := move.pc];
    MoveMasters(c, s.mem, t, s.threads[t], ok, 0);
    assert Allocates(s.mem, move);
    forall k | InCache(move.mem, k)
      ensures k in move.mem.masters
    {
      MoveMasters(c, s.mem, t, s.threads[t], ok, k);
    }
    forall u, k | 0 <= u < |threads| && Holds(UsingMaster(k), threads[u])
      ensures k in move.mem.masters
    {
      MoveMasters(c, s.mem, t, s.threads[t], ok, k);
    }
  }

  lemma MovedCounted(c: Config, s: Sys, t: Tid, ok: bool, k: Page)
    requires MastersOk(s) && t < |s.threads| && !s.threads[t].Idle?
    ensures var move := MoveOf(c, s.mem, t, s.threads[t], ok);
            k in move.mem.masters ==> Counted(Sys(move.mem, s.threads[t := move.pc]), k)
  {
    hide MoveOf, Holds;
    var pc := s.threads[t];
    var move := MoveOf(c, s.mem, t, pc, ok);
    MoveMasters(c, s.mem, t, pc, ok, k);
    TallyAfter(s.threads, t, move.pc, UsingMaster(k));
    if k in s.mem.masters {
      assert Counted(s, k) && Owed(move.mem, move.pc, k) == Owed(s.mem, pc, k);
    } else {
      TallyZero(s.threads, UsingMaster(k));
      assert !InCache(s.mem, k);
    }
  }

  lemma BeginMasters(c: Config, s: Sys, t: Tid, op: Op)
    requires MastersOk(s)
    ensures MastersOk(Step(c, s, Begin(t, op)))
  {
    if t < |s.threads| && CanBegin(s.threads[t], op) {
      var pc := FirstPc(op, s.mem.clock);
      assert forall h: Hold :: !Holds(h, pc);
      forall k | k in s.mem.masters
        ensures Counted(Step(c, s, Begin(t, op)), k)
      {
        TallyAfter(s.threads, t, pc, UsingMaster(k));
        assert Counted(s, k);
      }
    }
  }

  lemma MastersStep(c: Config, s: Sys, a: Action)
    requires MastersOk(s)
    ensures MastersOk(Step(c, s, a))
  {
    match a {
      case Tick(_) => assert forall k | k in s.mem.masters :: Counted(s, k);
      case Begin(t, op) => BeginMasters(c, s, t, op);
      case Go(t, ok) =>
        if t < |s.threads| && CanGo(s.mem, s.threads[t]) {
          MovedKnown(c, s, t, ok);
          forall k | k in Step(c, s, a).mem.masters
            ensures Counted(Step(c, s, a), k)
          {
            MovedCounted(c, s, t, ok, k);
          }
        }
    }
  }

  lemma {:induction false} MastersAlways(c: Config, threads: nat, now: Instant, actions: seq<Action>)
    ensures MastersOk(Run(c, Start(threads, now), actions))
    decreases |actions|
  {
    if actions != [] {
      var before := actions[..|actions| - 1];
      MastersAlways(c, threads, now, before);
      MastersStep(c, Run(c, Start(threads, now), before), actions[|actions| - 1]);
    }
  }

  /** In every reachable state the handles on a loaded master are the cache's, if it is cached, and those of the threads using it. */
  lemma {:induction false} MasterHandlesAccounted(c: Config, threads: nat, now: Instant, actions: seq<Action>, k: Page)
    requires k < Run(c, Start(threads, now), actions).mem.nextMaster
    ensures var s := Run(c, Start(threads, now), actions);
            && k in s.mem.masters
            && s.mem.masters[k] == One(s.mem.cached.Some? && s.mem.cached.value.key == k) + Tally(s.threads, UsingMaster(k))
  {
    MastersAlways(c, threads, now, actions);
    assert Counted(Run(c, Start(threads, now), actions), k);
  }
}
