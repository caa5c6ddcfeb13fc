/**
 How long a grant can be used. A check that finds a grant missing, expired or idle, or a release that
 removes it, is final until the grant id is published again; and a grant found live is within the TTL and
 every approval deadline of the publication it comes from.
 */
module AgentLiveness {
  import opened AgentTable
  import opened AgentProtocol
  import opened AgentEffects
  import AgentLocks
  import AgentApprovals

  /** An event after which `g` may not be used. */
  ghost predicate Ends(e: Event, g: GrantId) {
    (e.Checked? && e.id == g && !e.live) || (e.Removed? && e.id == g)
  }

  ghost predicate Publishes(e: Event, g: GrantId) {
    e.Publish? && e.draft.id == g
  }

  ghost predicate PublishedWithin(log: seq<Event>, from: nat, to: nat, g: GrantId)
    requires to <= |log|
  {
    exists k | from <= k < to :: Publishes(log[k], g)
  }

  /** No check from here on finds `g` live, unless it is published again. */
  ghost predicate Dead(c: Config, s: Sys, g: GrantId) {
    || g !in s.mem.table.grants
    || s.mem.table.grants[g].expiresAt <= s.mem.clock
    || (IsIdle(s.mem.table, c.idle, s.mem.clock) && forall t | 0 <= t < |s.threads| :: !AboutToTouch(s.threads[t]))
  }

  ghost predicate EndedStayDead(c: Config, s: Sys) {
    forall i, g | 0 <= i < |s.mem.log| && Ends(s.mem.log[i], g) :: PublishedWithin(s.mem.log, i, |s.mem.log|, g) || Dead(c, s, g)
  }

  ghost predicate NoneRevived(log: seq<Event>) {
    forall i, j | 0 <= i < j < |log| && log[j].Checked? && log[j].live && Ends(log[i], log[j].id) ::
      PublishedWithin(log, i, j, log[j].id)
  }

  lemma EffectKeepsDead(c: Config, s: Sys, t: Tid, move: Move, e: Effect, g: GrantId)
    requires t < |s.threads| && Has(c, s.mem, s.threads[t], move, e) && Dead(c, s, g)
    requires e.Publishes? ==> e.draft.id != g
    ensures Dead(c, Sys(move.mem, s.threads[t := move.pc]), g)
  {
  }

  /** A failed check is a fact about the table that nobody else is about to change. */
  lemma FailedCheckIsDead(c: Config, s: Sys, t: Tid, move: Move, g: GrantId)
    requires t < |s.threads| && AgentLocks.LocksOwned(s)
    requires Has(c, s.mem, s.threads[t], move, Noted(Checked(g, false, s.mem.clock)))
    ensures Dead(c, s, g)
  {
    assert !IsLive(s.mem.table, c.idle, g, s.mem.clock);
    forall u | 0 <= u < |s.threads|
      ensures !AboutToTouch(s.threads[u])
    {
      assert AboutToTouch(s.threads[u]) ==> HoldsState(s.threads[u]);
    }
  }

  lemma EffectKeepsEnded(c: Config, s: Sys, t: Tid, move: Move, e: Effect)
    requires t < |s.threads| && Has(c, s.mem, s.threads[t], move, e)
    requires AgentLocks.LocksOwned(s) && EndedStayDead(c, s)
    ensures EndedStayDead(c, Sys(move.mem, s.threads[t := move.pc]))
  {
    var s' := Sys(move.mem, s.threads[t := move.pc]);
    forall i, g | 0 <= i < |s'.mem.log| && Ends(s'.mem.log[i], g)
      ensures PublishedWithin(s'.mem.log, i, |s'.mem.log|, g) || Dead(c, s', g)
    {
      if i < |s.mem.log| {
        assert s'.mem.log[i] == s.mem.log[i];
        if k :| i <= k < |s.mem.log| && Publishes(s.mem.log[k], g) {
          assert s'.mem.log[k] == s.mem.log[k];
        } else if e.Publishes? && e.draft.id == g {
          assert Publishes(s'.mem.log[|s.mem.log|], g);
        } else {
          EffectKeepsDead(c, s, t, move, e, g);
        }
      } else if e.Noted? {
        FailedCheckIsDead(c, s, t, move, g);
        EffectKeepsDead(c, s, t, move, e, g);
      }
    }
  }

  lemma EffectRevivesNone(c: Config, s: Sys, t: Tid, move: Move, e: Effect)
    requires t < |s.threads| && Has(c, s.mem, s.threads[t], move, e)
    requires EndedStayDead(c, s) && NoneRevived(s.mem.log)
    ensures NoneRevived(move.mem.log)
  {
    var log, log' := s.mem.log, move.mem.log;
    forall i, j | 0 <= i < j < |log'| && log'[j].Checked? && log'[j].live && Ends(log'[i], log'[j].id)
      ensures PublishedWithin(log', i, j, log'[j].id)
    {
      var g := log'[j].id;
      assert log'[i] == log[i];
      if j < |log| {
        assert log'[j] == log[j];
        var k :| i <= k < j && Publishes(log[k], g);
        assert log'[k] == log[k];
      } else {
        assert IsLive(s.mem.table, c.idle, g, s.mem.clock);
        assert !Dead(c, s, g);
        var k :| i <= k < |log| && Publishes(log[k], g);
        assert log'[k] == log[k];
      }
    }
  }

  // ----- where a live grant comes from

  /** Event `k` is the publication that the grant `g` comes from: nothing since has replaced or removed it. */
  ghost predicate Source(log: seq<Event>, k: nat, to: nat, g: GrantId)
    requires to <= |log|
  {
    k < to && Publishes(log[k], g) && forall j | k < j < to :: !Publishes(log[j], g) && !(log[j].Removed? && log[j].id == g)
  }

  ghost predicate Sourced(s: Mem) {
    forall g | g in s.table.grants ::
      exists k | 0 <= k < |s.log| :: Source(s.log, k, |s.log|, g) && EntryOf(s.log[k].draft) == s.table.grants[g]
  }

  /** Entry `j` is not a successful check, or its grant comes from a publication still in time. */
  ghost predicate CheckSourced(log: seq<Event>, j: nat)
    requires j < |log|
  {
    log[j].Checked? && log[j].live ==>
      exists k | 0 <= k < j :: Source(log, k, j, log[j].id) && log[j].at < log[k].draft.expiresAt
  }

  ghost predicate LiveChecksSourced(log: seq<Event>) {
    forall j | 0 <= j < |log| :: CheckSourced(log, j)
  }

  lemma LongerLog(log: seq<Event>, e: Event, j: nat)
    requires j < |log| && CheckSourced(log, j)
    ensures CheckSourced(log + [e], j)
  {
    var log' := log + [e];
    if log[j].Checked? && log[j].live {
      var k :| 0 <= k < j && Source(log, k, j, log[j].id) && log[j].at < log[k].draft.expiresAt;
      assert Source(log', k, j, log'[j].id);
    }
  }

  lemma NewCheckSourced(s: Mem, g: GrantId, idle: nat)
    requires Sourced(s)
    ensures CheckSourced(s.log + [Checked(g, IsLive(s.table, idle, g, s.clock), s.clock)], |s.log|)
  {
    var log' := s.log + [Checked(g, IsLive(s.table, idle, g, s.clock), s.clock)];
    if IsLive(s.table, idle, g, s.clock) {
      var k :| 0 <= k < |s.log| && Source(s.log, k, |s.log|, g) && EntryOf(s.log[k].draft) == s.table.grants[g];
      assert Source(log', k, |s.log|, g);
    }
  }

  lemma EffectKeepsSourced(c: Config, s: Mem, pc: Pc, move: Move, e: Effect)
    requires Has(c, s, pc, move, e) && Sourced(s)
    ensures Sourced(move.mem)
  {
    var s' := move.mem;
    forall g | g in s'.table.grants
      ensures exists k | 0 <= k < |s'.log| :: Source(s'.log, k, |s'.log|, g) && EntryOf(s'.log[k].draft) == s'.table.grants[g]
    {
      if e.Publishes? && e.draft.id == g {
        assert Source(s'.log, |s.log|, |s'.log|, g);
      } else {
        assert g in s.table.grants && s'.table.grants[g] == s.table.grants[g];
        var k :| 0 <= k < |s.log| && Source(s.log, k, |s.log|, g) && EntryOf(s.log[k].draft) == s.table.grants[g];
        assert s'.log[k] == s.log[k];
        assert Source(s'.log, k, |s'.log|, g);
      }
    }
  }

  lemma EffectKeepsChecksSourced(c: Config, s: Mem, pc: Pc, move: Move, e: Effect)
    requires Has(c, s, pc, move, e) && Sourced(s) && LiveChecksSourced(s.log)
    ensures LiveChecksSourced(move.mem.log)
  {
    var log, log' := s.log, move.mem.log;
    if log' != log {
      var event := log'[|log|];
      forall j | 0 <= j < |log|
        ensures CheckSourced(log', j)
      {
        LongerLog(log, event, j);
      }
      if event.Checked? {
        NewCheckSourced(s, event.id, c.idle);
      }
    }
  }

  // ----- what a request opens its envelopes with

  /** The snapshot at `j` found `q.id` live, and `deks` are the keys that publication `k` brought. */
  ghost predicate Snapshot(log: seq<Event>, q: Request, deks: map<DekKey, Page>, j: nat, k: nat) {
    j < |log| && log[j].Checked? && log[j].live && log[j].id == q.id && Source(log, k, j, q.id) && deks == log[k].draft.deks
  }

  ghost predicate OpensSnapshot(log: seq<Event>, pc: Pc) {
    pc.InOpen? && pc.o.Opening? ==> exists j, k :: Snapshot(log, pc.request, pc.o.deks, j, k)
  }

  lemma SnapshotKept(log: seq<Event>, e: Event, pc: Pc)
    requires OpensSnapshot(log, pc)
    ensures OpensSnapshot(log + [e], pc)
  {
    if pc.InOpen? && pc.o.Opening? {
      var j, k :| Snapshot(log, pc.request, pc.o.deks, j, k);
      assert Snapshot(log + [e], pc.request, pc.o.deks, j, k);
    }
  }

  lemma MoveOpensSnapshot(c: Config, s: Mem, t: Tid, pc: Pc, ok: bool)
    requires Sourced(s)
    ensures OpensSnapshot(MoveOf(c, s, t, pc, ok).mem.log, MoveOf(c, s, t, pc, ok).pc)
  {
    var move := MoveOf(c, s, t, pc, ok);
    if move.pc.InOpen? && move.pc.o.Opening? {
      assert pc.InOpen? && pc.o.SnapLocked? && pc.request == move.pc.request;
      var g := pc.request.id;
      var k :| 0 <= k < |s.log| && Source(s.log, k, |s.log|, g) && EntryOf(s.log[k].draft) == s.table.grants[g];
      assert move.mem.log == s.log + [Checked(g, true, s.clock)];
      assert Snapshot(move.mem.log, pc.request, move.pc.o.deks, |s.log|, k);
    }
  }

  lemma OthersKeepSnapshot(c: Config, s: Mem, pc: Pc, move: Move, e: Effect, other: Pc)
    requires Has(c, s, pc, move, e) && OpensSnapshot(s.log, other)
    ensures OpensSnapshot(move.mem.log, other)
  {
    if move.mem.log != s.log {
      SnapshotKept(s.log, move.mem.log[|s.log|], other);
    }
  }

  // ----- every run

  ghost predicate Lively(c: Config, s: Sys) {
    && AgentLocks.LocksOwned(s)
    && EndedStayDead(c, s)
    && NoneRevived(s.mem.log)
    && Sourced(s.mem)
    && LiveChecksSourced(s.mem.log)
    && forall t | 0 <= t < |s.threads| :: OpensSnapshot(s.mem.log, s.threads[t])
  }

  lemma TimeKeepsEnded(c: Config, s: Sys, elapsed: nat)
    requires EndedStayDead(c, s)
    ensures EndedStayDead(c, Step(c, s, Tick(elapsed)))
  {
    var s' := Step(c, s, Tick(elapsed));
    forall g | Dead(c, s, g)
      ensures Dead(c, s', g)
    {
    }
  }

  lemma BeginningKeepsEnded(c: Config, s: Sys, t: Tid, op: Op)
    requires EndedStayDead(c, s)
    ensures EndedStayDead(c, Step(c, s, Begin(t, op)))
  {
    var s' := Step(c, s, Begin(t, op));
    forall g | Dead(c, s, g)
      ensures Dead(c, s', g)
    {
    }
  }

  lemma LivelyMove(c: Config, s: Sys, t: Tid, ok: bool)
    requires Lively(c, s) && t < |s.threads| && CanGo(s.mem, s.threads[t])
    ensures var move := MoveOf(c, s.mem, t, s.threads[t], ok);
            var s' := Sys(move.mem, s.threads[t := move.pc]);
            && EndedStayDead(c, s') && NoneRevived(s'.mem.log) && Sourced(s'.mem) && LiveChecksSourced(s'.mem.log)
            && forall u | 0 <= u < |s'.threads| :: OpensSnapshot(s'.mem.log, s'.threads[u])
  {
    var pc := s.threads[t];
    var move := MoveOf(c, s.mem, t, pc, ok);
    var e := MoveEffect(c, s.mem, t, pc, ok);
    EffectKeepsEnded(c, s, t, move, e);
    EffectRevivesNone(c, s, t, move, e);
    EffectKeepsSourced(c, s.mem, pc, move, e);
    EffectKeepsChecksSourced(c, s.mem, pc, move, e);
    MoveOpensSnapshot(c, s.mem, t, pc, ok);
    forall u | 0 <= u < |s.threads|
      ensures OpensSnapshot(move.mem.log, s.threads[u])
    {
      OthersKeepSnapshot(c, s.mem, pc, move, e, s.threads[u]);
    }
  }

  lemma {:induction false} LivelyStep(c: Config, s: Sys, a: Action)
    requires Lively(c, s)
    ensures Lively(c, Step(c, s, a))
  {
    AgentLocks.LocksStep(c, s, a);
    match a {
      case Tick(elapsed) => TimeKeepsEnded(c, s, elapsed);
      case Begin(t, op) => BeginningKeepsEnded(c, s, t, op);
      case Go(t, ok) =>
        if t < |s.threads| && CanGo(s.mem, s.threads[t]) {
          LivelyMove(c, s, t, ok);
        }
    }
  }

  lemma {:induction false} LivelyAlways(c: Config, threads: nat, now: Instant, actions: seq<Action>)
    ensures Lively(c, Run(c, Start(threads, now), actions))
    decreases |actions|
  {
    if actions != [] {
      var before := actions[..|actions| - 1];
      LivelyAlways(c, threads, now, before);
      LivelyStep(c, Run(c, Start(threads, now), before), actions[|actions| - 1]);
    }
  }

  /**
   In any run, if a check found grant `g` not live, or a release removed it, and a later check (first check or
   snapshot) found it live, then `g` was published in between.
   */
  lemma NoRevival(c: Config, threads: nat, now: Instant, actions: seq<Action>, i: nat, j: nat, g: GrantId)
    requires var log := Run(c, Start(threads, now), actions).mem.log;
             i < j < |log| && Ends(log[i], g) && log[j].Checked? && log[j].live && log[j].id == g
    ensures PublishedWithin(Run(c, Start(threads, now), actions).mem.log, i, j, g)
  {
    LivelyAlways(c, threads, now, actions);
  }

  /**
   Every check that finds a grant live comes after a publication of that grant which nothing has since
   replaced or removed, within the grant's TTL and before each of its approval deadlines.
   */
  lemma {:induction false} LiveWithinBounds(c: Config, threads: nat, now: Instant, actions: seq<Action>, j: nat) returns (k: nat)
    requires var log := Run(c, Start(threads, now), actions).mem.log;
             j < |log| && log[j].Checked? && log[j].live
    ensures var log := Run(c, Start(threads, now), actions).mem.log;
            && Source(log, k, j, log[j].id)
            && var d := log[k].draft;
               && log[j].at < d.start + d.ttl
               && forall m | 0 <= m < |d.spent| :: log[j].at < d.spent[m].deadline <= d.spent[m].approval.expires
  {
    LivelyAlways(c, threads, now, actions);
    AgentApprovals.ApprovedAlways(c, threads, now, actions);
    var log := Run(c, Start(threads, now), actions).mem.log;
    assert CheckSourced(log, j);
    k :| 0 <= k < j && Source(log, k, j, log[j].id) && log[j].at < log[k].draft.expiresAt;
    assert AgentApprovals.PublishOk(log[k], Run(c, Start(threads, now), actions).mem.clock);
  }

  /**
   A request that is opening envelopes took a snapshot that found its grant live, opens them with exactly the
   keys published under that grant, and no release had removed the grant before the snapshot without a
   publication after it.
   */
  lemma OpensOnlySnapshot(c: Config, threads: nat, now: Instant, actions: seq<Action>, t: Tid) returns (j: nat, k: nat)
    requires var s := Run(c, Start(threads, now), actions);
             t < |s.threads| && s.threads[t].InOpen? && s.threads[t].o.Opening?
    ensures var s := Run(c, Start(threads, now), actions);
            && Snapshot(s.mem.log, s.threads[t].request, s.threads[t].o.deks, j, k)
            && forall i | 0 <= i < j && Ends(s.mem.log[i], s.threads[t].request.id) ::
                 PublishedWithin(s.mem.log, i, j, s.threads[t].request.id)
  {
    LivelyAlways(c, threads, now, actions);
    var s := Run(c, Start(threads, now), actions);
    assert OpensSnapshot(s.mem.log, s.threads[t]);
    j, k :| Snapshot(s.mem.log, s.threads[t].request, s.threads[t].o.deks, j, k);
  }
}
