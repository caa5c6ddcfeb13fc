/**
 What one move can do to the grant table and the log. Each move has exactly one of five effects; the
 invariants about the table are proved effect by effect.
 */
module AgentEffects {
  import opened AgentTable
  import opened AgentProtocol

  datatype Effect =
    | Quiet
    | Noted(event: Event)
    | Purges
    | Touches
    | Removes(id: GrantId)
    | Publishes(draft: Draft)

  /** Inside a critical section, after its last purge and before it moves the idle clock. */
  ghost predicate AboutToTouch(pc: Pc) {
    match pc
    case InGrant(_, g) => g.GrantPurged?
    case InRelease(_, r) => r.ReleaseTouched?
    case InOpen(_, o) => o.TouchPurged?
    case _ => false
  }

  ghost predicate IsTableEvent(e: Event) {
    e.Publish? || e.Removed?
  }

  ghost predicate Has(c: Config, s: Mem, pc: Pc, move: Move, e: Effect) {
    var s' := move.mem;
    && s'.clock == s.clock
    && (!e.Purges? ==> s'.purgedAt == s.purgedAt && !AboutToTouch(move.pc))
    && match e
       case Quiet => s'.table == s.table && s'.log == s.log
       case Noted(event) =>
         && s'.table == s.table && s'.log == s.log + [event] && !IsTableEvent(event)
         && (event.Checked? ==>
               HoldsState(pc) && !AboutToTouch(pc) && event == Checked(event.id, IsLive(s.table, c.idle, event.id, s.clock), s.clock))
       case Purges =>
         && HoldsState(pc) && s'.table == Purged(s.table, c.idle, s.clock) && s'.purgedAt == s.clock && s'.log == s.log
       case Touches =>
         && AboutToTouch(pc) && s'.table == s.table.(lastActivity := s.clock) && s'.log == s.log
       case Removes(id) =>
         && HoldsState(pc) && !AboutToTouch(pc) && id in s.table.grants
         && s'.table == s.table.(grants := s.table.grants - {id}) && s'.log == s.log + [Removed(id, s.clock)]
       case Publishes(d) =>
         && pc == InGrant(d, GrantPurged)
         && PublishCheck(s.table, EntryOf(d), Spend(d.spent), s.clock).None?
         && s'.table == Published(s.table, d.id, EntryOf(d), Spend(d.spent), s.clock)
         && s'.log == s.log + [Publish(d, s.clock)]
  }

  lemma GrantEffect(c: Config, s: Mem, t: Tid, d: Draft, g: GrantPc, ok: bool) returns (e: Effect)
    ensures Has(c, s, InGrant(d, g), GrantMove(c, s, t, d, g, ok), e)
  {
    e := if g.GrantLocked? then Purges
         else if g.GrantPurged? && PublishCheck(s.table, EntryOf(d), Spend(d.spent), s.clock).None? then Publishes(d)
         else Quiet;
  }

  lemma ReleaseEffect(c: Config, s: Mem, t: Tid, id: GrantId, r: ReleasePc) returns (e: Effect)
    ensures Has(c, s, InRelease(id, r), ReleaseMove(c, s, t, id, r), e)
  {
    e := match r
      case ReleaseWait => Quiet
      case ReleaseLocked => Purges
      case ReleasePurged => if id in s.table.grants then Removes(id) else Quiet
      case ReleaseTouch => Purges
      case ReleaseTouched => Touches;
  }

  lemma OpenEffect(c: Config, s: Mem, t: Tid, q: Request, o: OpenPc, ok: bool) returns (e: Effect)
    ensures Has(c, s, InOpen(q, o), OpenMove(c, s, t, q, o, ok), e)
  {
    e := if o.CheckLocked? || o.SnapLocked? then Noted(Checked(q.id, IsLive(s.table, c.idle, q.id, s.clock), s.clock))
         else if o.TouchLocked? then Purges
         else if o.TouchPurged? then Touches
         else Quiet;
  }

  lemma GetEffect(c: Config, s: Mem, t: Tid, q: Request, m: GetPc, ok: bool) returns (e: Effect)
    ensures Has(c, s, InGet(q, m), GetMove(c, s, t, q, m, ok), e)
  {
    var log := GetMove(c, s, t, q, m, ok).mem.log;
    e := if |log| == |s.log| then Quiet else Noted(log[|s.log|]);
  }

  lemma MaintainEffect(c: Config, s: Mem, t: Tid, p: MaintainPc) returns (e: Effect)
    ensures Has(c, s, InMaintain(p), MaintainMove(c, s, t, p), e)
  {
    e := if p.MaintLocked? then Purges else Quiet;
  }

  lemma MoveEffect(c: Config, s: Mem, t: Tid, pc: Pc, ok: bool) returns (e: Effect)
    requires !pc.Idle?
    ensures Has(c, s, pc, MoveOf(c, s, t, pc, ok), e)
  {
    match pc {
      case InGrant(d, g) => e := GrantEffect(c, s, t, d, g, ok);
      case InRelease(id, r) => e := ReleaseEffect(c, s, t, id, r);
      case InOpen(q, o) => e := OpenEffect(c, s, t, q, o, ok);
      case InGet(q, m) => e := GetEffect(c, s, t, q, m, ok);
      case InMaintain(p) => e := MaintainEffect(c, s, t, p);
    }
  }

  /**
   The idle clock moves only when a grant is published, at the end of a request whose envelopes opened, or
   at the end of a release that removed a grant.
   */
  lemma IdleClockMovesOnly(c: Config, s: Sys, a: Action)
    ensures Step(c, s, a).mem.table.lastActivity != s.mem.table.lastActivity ==>
              && a.Go? && a.t < |s.threads|
              && var pc := s.threads[a.t];
                 || (pc.InGrant? && pc.g.GrantPurged? && Step(c, s, a).mem.log == s.mem.log + [Publish(pc.draft, s.mem.clock)])
                 || (pc.InOpen? && pc.o.TouchPurged?)
                 || (pc.InRelease? && pc.r.ReleaseTouched?)
  {
    if a.Go? && a.t < |s.threads| && CanGo(s.mem, s.threads[a.t]) {
      var e := MoveEffect(c, s.mem, a.t, s.threads[a.t], a.ok);
    }
  }

  // ----- and only after a success

  /** Past a successful opening: about to count as activity. */
  predicate Touching(pc: Pc, q: Request) {
    pc.InOpen? && pc.request == q && (pc.o.TouchWait? || pc.o.TouchLocked? || pc.o.TouchPurged?)
  }

  /** Past the removal of a grant. */
  predicate Releasing(pc: Pc, id: GrantId) {
    pc.InRelease? && pc.id == id && (pc.r.ReleaseTouch? || pc.r.ReleaseTouched?)
  }

  predicate OpensNow(s: Sys, a: Action, t: Tid, q: Request) {
    a == Go(t, true) && t < |s.threads| && s.threads[t].InOpen? && s.threads[t].request == q && s.threads[t].o.Opening?
  }

  predicate RemovesNow(c: Config, s: Sys, a: Action, t: Tid, id: GrantId) {
    a.Go? && a.t == t && Step(c, s, a).mem.log == s.mem.log + [Removed(id, s.mem.clock)]
  }

  lemma TouchingComesFrom(c: Config, s: Sys, a: Action, t: Tid, q: Request)
    requires t < |s.threads| && Touching(Step(c, s, a).threads[t], q)
    ensures Touching(s.threads[t], q) || OpensNow(s, a, t, q)
  {
    hide Purge, Touch, Expire, UseCached, Check, NewDek, NewMaster, DropEntries, Clone, Drop, Published, PublishCheck, HasNonce, IsLive;
  }

  lemma ReleasingComesFrom(c: Config, s: Sys, a: Action, t: Tid, id: GrantId)
    requires t < |s.threads| && Releasing(Step(c, s, a).threads[t], id)
    ensures Releasing(s.threads[t], id) || RemovesNow(c, s, a, t, id)
  {
    hide Purge, Touch, Expire, UseCached, Check, NewDek, NewMaster, DropEntries, Clone, Drop, Published, PublishCheck, HasNonce, IsLive;
  }

  lemma {:induction false} ThreadsKept(c: Config, s: Sys, actions: seq<Action>)
    ensures |Run(c, s, actions).threads| == |s.threads|
    decreases |actions|
  {
    if actions != [] {
      ThreadsKept(c, s, actions[..|actions| - 1]);
    }
  }

  ghost predicate TouchingSince(c: Config, s: Sys, actions: seq<Action>, n: nat, t: Tid, q: Request) {
    && n < |actions| && OpensNow(Run(c, s, actions[..n]), actions[n], t, q)
    && forall m | n < m <= |actions| ::
         t < |Run(c, s, actions[..m]).threads| && Touching(Run(c, s, actions[..m]).threads[t], q)
  }

  ghost predicate ReleasingSince(c: Config, s: Sys, actions: seq<Action>, n: nat, t: Tid, id: GrantId) {
    && n < |actions| && RemovesNow(c, Run(c, s, actions[..n]), actions[n], t, id)
    && forall m | n < m <= |actions| ::
         t < |Run(c, s, actions[..m]).threads| && Releasing(Run(c, s, actions[..m]).threads[t], id)
  }

  /** A thread about to count as activity has been, ever since its envelopes opened. */
  lemma {:induction false} TouchesAfterOpening(c: Config, threads: nat, now: Instant, actions: seq<Action>, t: Tid, q: Request) returns (n: nat)
    requires var s := Run(c, Start(threads, now), actions); t < |s.threads| && Touching(s.threads[t], q)
    ensures TouchingSince(c, Start(threads, now), actions, n, t, q)
    decreases |actions|
  {
    hide Touching, OpensNow, Step;
    var start := Start(threads, now);
    var last := |actions| - 1;
    StartsIdle(threads, now);
    assert actions != [] && actions[..|actions|] == actions;
    var before := Run(c, start, actions[..last]);
    ThreadsKept(c, start, actions);
    ThreadsKept(c, start, actions[..last]);
    TouchingComesFrom(c, before, actions[last], t, q);
    if OpensNow(before, actions[last], t, q) {
      n := last;
    } else {
      n := TouchesAfterOpening(c, threads, now, actions[..last], t, q);
      assert actions[..last][..n] == actions[..n];
      forall m | n < m <= |actions|
        ensures t < |Run(c, start, actions[..m]).threads| && Touching(Run(c, start, actions[..m]).threads[t], q)
      {
        if m <= last {
          assert actions[..last][..m] == actions[..m];
        }
      }
    }
  }

  lemma {:induction false} ReleasesAfterRemoval(c: Config, threads: nat, now: Instant, actions: seq<Action>, t: Tid, id: GrantId) returns (n: nat)
    requires var s := Run(c, Start(threads, now), actions); t < |s.threads| && Releasing(s.threads[t], id)
    ensures ReleasingSince(c, Start(threads, now), actions, n, t, id)
    decreases |actions|
  {
    hide Releasing, RemovesNow, Step;
    var start := Start(threads, now);
    var last := |actions| - 1;
    StartsIdle(threads, now);
    assert actions != [] && actions[..|actions|] == actions;
    var before := Run(c, start, actions[..last]);
    ThreadsKept(c, start, actions);
    ThreadsKept(c, start, actions[..last]);
    ReleasingComesFrom(c, before, actions[last], t, id);
    if RemovesNow(c, before, actions[last], t, id) {
      n := last;
    } else {
      n := ReleasesAfterRemoval(c, threads, now, actions[..last], t, id);
      assert actions[..last][..n] == actions[..n];
      forall m | n < m <= |actions|
        ensures t < |Run(c, start, actions[..m]).threads| && Releasing(Run(c, start, actions[..m]).threads[t], id)
      {
        if m <= last {
          assert actions[..last][..m] == actions[..m];
        }
      }
    }
  }

  lemma StartsIdle(threads: nat, now: Instant)
    ensures forall t | 0 <= t < |Start(threads, now).threads| ::
              && (forall q :: !Touching(Start(threads, now).threads[t], q))
              && (forall id :: !Releasing(Start(threads, now).threads[t], id))
  {
  }

  /**
   In every run, what moves the idle clock is a publication, a request whose envelopes had opened, or a release that
   had removed its grant, and the thread has done nothing else since: a request that fails does not extend it.
   */
  lemma {:induction false} IdleClockMovesAfterSuccess(c: Config, threads: nat, now: Instant, actions: seq<Action>, a: Action) returns (n: nat)
    requires var s := Run(c, Start(threads, now), actions); Step(c, s, a).mem.table.lastActivity != s.mem.table.lastActivity
    ensures var s := Run(c, Start(threads, now), actions);
            && a.Go? && a.t < |s.threads|
            && var pc := s.threads[a.t];
               || (pc.InGrant? && Step(c, s, a).mem.log == s.mem.log + [Publish(pc.draft, s.mem.clock)])
               || (pc.InOpen? && TouchingSince(c, Start(threads, now), actions, n, a.t, pc.request))
               || (pc.InRelease? && ReleasingSince(c, Start(threads, now), actions, n, a.t, pc.id))
  {
    hide Step, Run, TouchingSince, ReleasingSince;
    var s := Run(c, Start(threads, now), actions);
    IdleClockMovesOnly(c, s, a);
    var pc := s.threads[a.t];
    n := 0;
    if pc.InOpen? {
      n := TouchesAfterOpening(c, threads, now, actions, a.t, pc.request);
    } else if pc.InRelease? {
      n := ReleasesAfterRemoval(c, threads, now, actions, a.t, pc.id);
    }
  }
}
