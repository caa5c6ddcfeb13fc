/**
 A run of the agent in which one approval is published in two grants: the window that
 `AgentApprovals.NonceReuseWindow` leaves open is reachable.
 */
module AgentReplay {
  import opened Wrappers
  import opened AgentTable
  import opened AgentProtocol
  import opened AgentApprovals

  lemma RunMore(c: Config, s: Sys, actions: seq<Action>, a: Action)
    ensures Run(c, s, actions + [a]) == Step(c, Run(c, s, actions), a)
  {
    assert (actions + [a])[..|actions|] == actions;
  }

  lemma {:induction false} RunBoth(c: Config, s: Sys, xs: seq<Action>, ys: seq<Action>)
    ensures Run(c, s, xs + ys) == Run(c, Run(c, s, xs), ys)
    decreases |ys|
  {
    if ys == [] {
      assert xs + ys == xs;
    } else {
      var last := |ys| - 1;
      assert xs + ys == (xs + ys[..last]) + [ys[last]];
      RunMore(c, s, xs + ys[..last], ys[last]);
      RunBoth(c, s, xs, ys[..last]);
    }
  }

  /** A single thread, at `pc`, with every lock it may want free. */
  ghost predicate Alone(s: Sys, pc: Pc) {
    s.threads == [pc]
  }

  const KEY: DekKey := DekKey(Deliver, "K", None, None)

  /** The draft of a one-key grant whose deadline was computed over two readings `lag` apart. */
  function OneKey(id: GrantId, ttl: nat, a: Approval, lag: nat, start: Instant, page: Page): Draft
    requires lag <= a.expires
  {
    Draft(id, start, ttl, Min(start + ttl, a.expires - lag), map[KEY := page], [Spent(a, a.expires - lag)])
  }

  lemma BoxOpened(s: Mem, id: GrantId, ttl: nat, a: Approval, lag: nat, start: Instant)
    requires start + lag == s.clock <= a.expires
    ensures OpenBox(s, Draft(id, start, ttl, start + ttl, map[], []), DekRequest(KEY, a), [], start, true)
         == Move(InGrant(OneKey(id, ttl, a, lag, start, s.nextDek), GrantNext([])), NewDek(s))
  {
    var d := Draft(id, start, ttl, start + ttl, map[], []);
    assert d.deks[KEY := s.nextDek] == map[KEY := s.nextDek];
    assert d.spent + [Spent(a, a.expires - lag)] == [Spent(a, a.expires - lag)];
  }

  /** From an idle thread to the point where the grant's one blind box has been opened. */
  lemma OpensAlone(c: Config, s: Sys, id: GrantId, ttl: nat, a: Approval, lag: nat) returns (actions: seq<Action>)
    requires Alone(s, Idle) && s.mem.clock + lag < a.expires && id != "" && ValidTtl(ttl) && Parses(a)
    ensures Run(c, s, actions) ==
            Sys(NewDek(s.mem.(clock := s.mem.clock + lag)), [InGrant(OneKey(id, ttl, a, lag, s.mem.clock, s.mem.nextDek), GrantNext([]))])
  {
    var now := s.mem.clock;
    var d := Draft(id, now, ttl, now + ttl, map[], []);
    var todo := [DekRequest(KEY, a)];
    var op := OpGrant(id, ttl, todo);
    actions := [];
    RunMore(c, s, actions, Begin(0, op));
    actions := actions + [Begin(0, op)];
    assert Run(c, s, actions) == Sys(s.mem, [InGrant(d, GrantNext(todo))]);
    RunMore(c, s, actions, Go(0, true));
    actions := actions + [Go(0, true)];
    assert Run(c, s, actions) == Sys(s.mem, [InGrant(d, GrantValidated(todo))]);
    RunMore(c, s, actions, Go(0, true));
    actions := actions + [Go(0, true)];
    assert Run(c, s, actions) == Sys(s.mem, [InGrant(d, GrantDated(todo, now))]);
    RunMore(c, s, actions, Tick(lag));
    actions := actions + [Tick(lag)];
    var mem := s.mem.(clock := now + lag);
    assert Run(c, s, actions) == Sys(mem, [InGrant(d, GrantDated(todo, now))]);
    RunMore(c, s, actions, Go(0, true));
    actions := actions + [Go(0, true)];
    BoxOpened(mem, id, ttl, a, lag, now);
    assert todo[1..] == [];
  }

  lemma OneKeyPublishes(s: Mem, id: GrantId, ttl: nat, a: Approval, lag: nat, start: Instant, page: Page)
    requires lag <= a.expires && a.nonce !in s.table.used
    requires s.clock < start + ttl && s.clock < a.expires - lag
    ensures var d := OneKey(id, ttl, a, lag, start, page);
            var move := PublishDraft(s, d);
            && move.pc == Idle && move.mem.stateLock == None && move.mem.clock == s.clock
            && move.mem.log == s.log + [Publish(d, s.clock)]
            && move.mem.table.used == s.table.used[a.nonce := a.expires - lag]
  {
    var d := OneKey(id, ttl, a, lag, start, page);
    var nonces := Spend(d.spent);
    assert nonces == [(a.nonce, a.expires - lag)];
    var used := s.table.used[a.nonce := a.expires - lag];
    assert Extended(s.table.used, nonces) == Extended(used, nonces[1..]) == used;
    assert PublishCheck(s.table, EntryOf(d), nonces, s.clock) == None;
  }

  /** From there to the published grant. */
  lemma PublishesAlone(c: Config, s: Sys, id: GrantId, ttl: nat, a: Approval, lag: nat, start: Instant, page: Page) returns (actions: seq<Action>)
    requires lag <= a.expires && Alone(s, InGrant(OneKey(id, ttl, a, lag, start, page), GrantNext([]))) && s.mem.stateLock.None?
    requires start <= s.mem.clock < a.expires - lag && s.mem.clock < start + ttl
    requires a.nonce in s.mem.table.used ==> s.mem.table.used[a.nonce] <= s.mem.clock
    ensures var s' := Run(c, s, actions);
            && Alone(s', Idle) && s'.mem.stateLock.None? && s'.mem.clock == s.mem.clock
            && s'.mem.log == s.mem.log + [Publish(OneKey(id, ttl, a, lag, start, page), s.mem.clock)]
            && a.nonce in s'.mem.table.used && s'.mem.table.used[a.nonce] == a.expires - lag
  {
    var d := OneKey(id, ttl, a, lag, start, page);
    actions := [];
    RunMore(c, s, actions, Go(0, true));
    actions := actions + [Go(0, true)];
    var locked := s.mem.(stateLock := Some(0));
    assert Run(c, s, actions) == Sys(locked, [InGrant(d, GrantLocked)]);
    RunMore(c, s, actions, Go(0, true));
    actions := actions + [Go(0, true)];
    var purged := Purge(c, locked);
    assert Run(c, s, actions) == Sys(purged, [InGrant(d, GrantPurged)]);
    RunMore(c, s, actions, Go(0, true));
    actions := actions + [Go(0, true)];
    OneKeyPublishes(purged, id, ttl, a, lag, start, page);
  }

  /** A grant of one key, alone, with `lag` between the two clock readings of its approval deadline. */
  lemma {:induction false} GrantAlone(c: Config, s: Sys, id: GrantId, ttl: nat, a: Approval, lag: nat) returns (actions: seq<Action>, d: Draft)
    requires Alone(s, Idle) && s.mem.stateLock.None?
    requires s.mem.clock + lag + lag < a.expires && id != "" && lag < ttl && ValidTtl(ttl) && Parses(a)
    requires a.nonce in s.mem.table.used ==> s.mem.table.used[a.nonce] <= s.mem.clock + lag
    ensures var s' := Run(c, s, actions);
            && Alone(s', Idle) && s'.mem.stateLock.None?
            && s'.mem.clock == s.mem.clock + lag
            && s'.mem.log == s.mem.log + [Publish(d, s'.mem.clock)]
            && a.nonce in s'.mem.table.used && s'.mem.table.used[a.nonce] == a.expires - lag
    ensures d.spent == [Spent(a, a.expires - lag)]
  {
    d := OneKey(id, ttl, a, lag, s.mem.clock, s.mem.nextDek);
    var opening := OpensAlone(c, s, id, ttl, a, lag);
    var ready := Sys(NewDek(s.mem.(clock := s.mem.clock + lag)), [InGrant(d, GrantNext([]))]);
    assert Run(c, s, opening) == ready;
    var publishing := PublishesAlone(c, ready, id, ttl, a, lag, s.mem.clock, s.mem.nextDek);
    RunBoth(c, s, opening, publishing);
    actions := opening + publishing;
  }

  /**
   For every approval that parses, every TTL allowed and every lag below the TTL: if that much time passes between
   the two clock readings of one grant and none between those of the next, the approval can be published in both.
   */
  lemma ApprovalTwiceAfterSlowRead(c: Config, a: Approval, ttl: nat, lag: nat, now: Instant) returns (actions: seq<Action>)
    requires Parses(a) && ValidTtl(ttl) && 0 < lag < ttl && now + lag + lag < a.expires
    ensures var log := Run(c, Start(1, now), actions).mem.log;
            && |log| == 2 && Carries(log[0], a) && Carries(log[1], a)
            && log[0].draft.spent == [Spent(a, a.expires - lag)] && log[1].draft.spent == [Spent(a, a.expires)]
  {
    hide Run, Step, Parses, ValidTtl;
    var s0 := Start(1, now);
    StartAlone(c, now);
    var first, d := GrantAlone(c, s0, "g1", ttl, a, lag);
    var s1 := Run(c, s0, first);
    var wait := a.expires - lag - s1.mem.clock;
    RunMore(c, s0, first, Tick(wait));
    Waits(c, s1, wait);
    var s2 := Step(c, s1, Tick(wait));
    var second, e := GrantAlone(c, s2, "g2", ttl, a, 0);
    RunBoth(c, s0, first + [Tick(wait)], second);
    actions := first + [Tick(wait)] + second;
    var log := Run(c, s0, actions).mem.log;
    assert log == [Publish(d, s1.mem.clock), Publish(e, s2.mem.clock)];
    assert d.spent[0].approval == a && e.spent[0].approval == a;
  }

  lemma StartAlone(c: Config, now: Instant)
    ensures var s := Start(1, now);
            Alone(s, Idle) && s.mem.stateLock.None? && s.mem.clock == now && s.mem.table.used == map[] && s.mem.log == []
  {
  }

  lemma Waits(c: Config, s: Sys, elapsed: nat)
    ensures Step(c, s, Tick(elapsed)) == s.(mem := s.mem.(clock := s.mem.clock + elapsed))
  {
  }

  // ----- exactly when approvals are used once

  ghost function LogOf(c: Config, threads: nat, now: Instant, actions: seq<Action>): seq<Event> {
    Run(c, Start(threads, now), actions).mem.log
  }

  /** No deadline in the log falls short of its approval's expiry by more than `lag`: the two readings were that close. */
  ghost predicate ReadingsWithin(log: seq<Event>, lag: nat) {
    forall i, k | 0 <= i < |log| && log[i].Publish? && 0 <= k < |log[i].draft.spent| ::
      log[i].draft.spent[k].approval.expires <= log[i].draft.spent[k].deadline + lag
  }

  ghost predicate UsedOnce(log: seq<Event>) {
    forall i, j, a: Approval | 0 <= i < |log| && 0 <= j < |log| && Carries(log[i], a) && Carries(log[j], a) :: i == j
  }

  lemma ExactReadingsUsedOnce(c: Config, threads: nat, now: Instant, actions: seq<Action>)
    requires ReadingsWithin(LogOf(c, threads, now, actions), 0)
    ensures UsedOnce(LogOf(c, threads, now, actions))
  {
    hide Run, Start;
    var log := LogOf(c, threads, now, actions);
    ApprovedAlways(c, threads, now, actions);
    assert DeadlinesExact(log) by {
      forall i, k | 0 <= i < |log| && log[i].Publish? && 0 <= k < |log[i].draft.spent|
        ensures log[i].draft.spent[k].deadline == log[i].draft.spent[k].approval.expires
      {
        assert PublishOk(log[i], Run(c, Start(threads, now), actions).mem.clock);
      }
    }
    forall i, j, a: Approval | 0 <= i < |log| && 0 <= j < |log| && Carries(log[i], a) && Carries(log[j], a)
      ensures i == j
    {
      NoApprovalTwice(c, threads, now, actions, i, j, a);
    }
  }

  /**
   If all that is known of the two clock readings of a deadline is that they are at most `lag` apart, then
   approvals are used once in every run exactly when `lag` is zero.
   */
  lemma UsedOnceExactly(c: Config, lag: nat)
    ensures (forall threads: nat, now: Instant, actions: seq<Action> ::
               ReadingsWithin(LogOf(c, threads, now, actions), lag) ==> UsedOnce(LogOf(c, threads, now, actions)))
            <==> lag == 0
  {
    hide Run, Start;
    if lag == 0 {
      forall threads: nat, now: Instant, actions: seq<Action> | ReadingsWithin(LogOf(c, threads, now, actions), lag)
        ensures UsedOnce(LogOf(c, threads, now, actions))
      {
        ExactReadingsUsedOnce(c, threads, now, actions);
      }
    } else {
      var a := Approval(seq(MIN_NONCE_BYTES, i => 0), SECOND);
      var actions := ApprovalTwiceAfterSlowRead(c, a, SECOND, 1, 0);
      var log := LogOf(c, 1, 0, actions);
      assert ReadingsWithin(log, lag);
      assert !UsedOnce(log) by {
        assert Carries(log[0], a) && Carries(log[1], a);
      }
    }
  }
}
