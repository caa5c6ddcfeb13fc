/**
 Single use of approvals. The agent forgets a consumed nonce once its deadline has passed, so what keeps an
 approval from being used twice is that publishing needs every deadline to be in the future. The deadline
 is computed from two clocks that are read one after the other, so it can fall short of the approval's own
 expiry by the time between the two readings; the theorems below are about the deadlines actually computed.
 */
module AgentApprovals {
  import opened AgentTable
  import opened AgentProtocol
  import opened AgentEffects

  /** What the grant loop has established about the boxes opened so far. */
  ghost predicate DraftOk(d: Draft, now: Instant) {
    && d.start <= now
    && d.expiresAt <= d.start + d.ttl
    && (forall k | 0 <= k < |d.spent| :: d.expiresAt <= d.spent[k].deadline <= d.spent[k].approval.expires)
    && (forall k, l | 0 <= k < l < |d.spent| :: d.spent[k].approval.nonce != d.spent[l].approval.nonce)
  }

  ghost predicate PcOk(pc: Pc, now: Instant) {
    pc.InGrant? ==> DraftOk(pc.draft, now) && (pc.g.GrantDated? ==> pc.g.instant <= now)
  }

  /** Event `e` publishes a grant that consumes `nonce` with the computed deadline `deadline`. */
  ghost predicate Consumes(e: Event, nonce: Nonce, deadline: Instant) {
    e.Publish? && exists k | 0 <= k < |e.draft.spent| ::
      e.draft.spent[k].approval.nonce == nonce && e.draft.spent[k].deadline == deadline
  }

  ghost predicate PublishOk(e: Event, now: Instant) {
    e.Publish? ==> e.at <= now && DraftOk(e.draft, e.at) && e.at < e.draft.expiresAt
  }

  /** The nonce table holds exactly the published nonces whose deadline the last purge had not reached. */
  ghost predicate Remembers(s: Mem) {
    && s.purgedAt <= s.clock
    && (forall i, n: Nonce, x: Instant | 0 <= i < |s.log| && Consumes(s.log[i], n, x) :: x > s.purgedAt ==> n in s.table.used && s.table.used[n] == x)
    && (forall n | n in s.table.used :: s.table.used[n] > s.purgedAt && exists i | 0 <= i < |s.log| :: Consumes(s.log[i], n, s.table.used[n]))
  }

  /** A nonce is consumed again only once its earlier deadline has passed, and with a later deadline. */
  ghost predicate UsedInTurn(log: seq<Event>) {
    forall i, j, n: Nonce, x: Instant, y: Instant | 0 <= i < j < |log| && Consumes(log[i], n, x) && Consumes(log[j], n, y) :: x <= log[j].at < y
  }

  ghost predicate Approved(s: Sys) {
    && (forall t | 0 <= t < |s.threads| :: PcOk(s.threads[t], s.mem.clock))
    && (forall i | 0 <= i < |s.mem.log| :: PublishOk(s.mem.log[i], s.mem.clock))
    && Remembers(s.mem)
    && UsedInTurn(s.mem.log)
  }

  lemma OpenBoxOk(s: Mem, d: Draft, request: DekRequest, rest: seq<DekRequest>, instant: Instant, ok: bool)
    requires DraftOk(d, s.clock) && instant <= s.clock
    ensures PcOk(OpenBox(s, d, request, rest, instant, ok).pc, s.clock)
  {
  }

  lemma MovePcOk(c: Config, s: Mem, t: Tid, pc: Pc, ok: bool)
    requires PcOk(pc, s.clock)
    ensures PcOk(MoveOf(c, s, t, pc, ok).pc, s.clock)
  {
    if pc.InGrant? && pc.g.GrantDated? && pc.g.todo != [] {
      OpenBoxOk(s, pc.draft, pc.g.todo[0], pc.g.todo[1..], pc.g.instant, ok);
    }
  }

  lemma NotingRemembers(s: Mem, s': Mem, event: Event)
    requires Remembers(s) && UsedInTurn(s.log) && !event.Publish?
    requires s'.log == s.log + [event]
    requires s'.table.used == s.table.used && s'.purgedAt == s.purgedAt && s'.clock == s.clock
    ensures Remembers(s') && UsedInTurn(s'.log)
  {
    forall n | n in s'.table.used
      ensures exists i | 0 <= i < |s'.log| :: Consumes(s'.log[i], n, s'.table.used[n])
    {
      var i :| 0 <= i < |s.log| && Consumes(s.log[i], n, s.table.used[n]);
      assert s'.log[i] == s.log[i];
    }
  }

  /** The nonces a grant consumes were not in the table, and are in it afterwards. */
  lemma ConsumedAfresh(s: Mem, d: Draft, n: Nonce, x: Instant)
    requires DraftOk(d, s.clock) && PublishCheck(s.table, EntryOf(d), Spend(d.spent), s.clock).None?
    requires Consumes(Publish(d, s.clock), n, x)
    ensures n !in s.table.used && x > s.clock
    ensures n in Extended(s.table.used, Spend(d.spent)) && Extended(s.table.used, Spend(d.spent))[n] == x
  {
    var nonces := Spend(d.spent);
    ExtendedIs(s.table.used, nonces);
    var k :| 0 <= k < |d.spent| && d.spent[k].approval.nonce == n && d.spent[k].deadline == x;
    assert nonces[k] == (n, x);
  }

  /** The table afterwards holds what it held and what the grant consumes, and nothing else. */
  lemma TableAfterPublish(s: Mem, d: Draft, n: Nonce)
    requires DraftOk(d, s.clock) && PublishCheck(s.table, EntryOf(d), Spend(d.spent), s.clock).None?
    ensures var used := Extended(s.table.used, Spend(d.spent));
            && (n in s.table.used ==> n in used && used[n] == s.table.used[n])
            && (n in used && n !in s.table.used ==> Consumes(Publish(d, s.clock), n, used[n]))
  {
    var nonces := Spend(d.spent);
    ExtendedIs(s.table.used, nonces);
    var used := Extended(s.table.used, nonces);
    if n in used && n !in s.table.used {
      var k :| 0 <= k < |nonces| && nonces[k].0 == n;
      assert d.spent[k].approval.nonce == n && d.spent[k].deadline == used[n];
    }
  }

  lemma PublishingRemembers(s: Mem, s': Mem, d: Draft)
    requires Remembers(s) && DraftOk(d, s.clock)
    requires PublishCheck(s.table, EntryOf(d), Spend(d.spent), s.clock).None?
    requires s'.table.used == Extended(s.table.used, Spend(d.spent))
    requires s'.log == s.log + [Publish(d, s.clock)]
    requires s'.purgedAt == s.purgedAt && s'.clock == s.clock
    ensures Remembers(s')
  {
    forall i, n: Nonce, x: Instant | 0 <= i < |s'.log| && Consumes(s'.log[i], n, x) && x > s'.purgedAt
      ensures n in s'.table.used && s'.table.used[n] == x
    {
      if i < |s.log| {
        TableAfterPublish(s, d, n);
      } else {
        ConsumedAfresh(s, d, n, x);
      }
    }
    forall n | n in s'.table.used
      ensures s'.table.used[n] > s'.purgedAt && exists i | 0 <= i < |s'.log| :: Consumes(s'.log[i], n, s'.table.used[n])
    {
      TableAfterPublish(s, d, n);
      if n in s.table.used {
        var i :| 0 <= i < |s.log| && Consumes(s.log[i], n, s.table.used[n]);
        assert s'.log[i] == s.log[i];
      } else {
        assert s'.log[|s.log|] == Publish(d, s.clock);
        ConsumedAfresh(s, d, n, s'.table.used[n]);
      }
    }
  }

  lemma PublishingInTurn(s: Mem, d: Draft)
    requires Remembers(s) && UsedInTurn(s.log) && DraftOk(d, s.clock)
    requires PublishCheck(s.table, EntryOf(d), Spend(d.spent), s.clock).None?
    ensures UsedInTurn(s.log + [Publish(d, s.clock)])
  {
    var log := s.log + [Publish(d, s.clock)];
    forall i, j, n: Nonce, x: Instant, y: Instant | 0 <= i < j < |log| && Consumes(log[i], n, x) && Consumes(log[j], n, y)
      ensures x <= log[j].at < y
    {
      if j == |s.log| {
        ConsumedAfresh(s, d, n, y);
        assert log[i] == s.log[i];
      }
    }
  }

  lemma {:induction false} EffectRemembers(c: Config, s: Mem, pc: Pc, move: Move, e: Effect)
    requires Remembers(s) && UsedInTurn(s.log) && PcOk(pc, s.clock) && Has(c, s, pc, move, e)
    ensures Remembers(move.mem) && UsedInTurn(move.mem.log)
  {
    match e {
      case Noted(event) => NotingRemembers(s, move.mem, event);
      case Removes(id) => NotingRemembers(s, move.mem, Removed(id, s.clock));
      case Publishes(d) =>
        PublishingRemembers(s, move.mem, d);
        PublishingInTurn(s, d);
      case _ =>
    }
  }

  lemma EffectPublishOk(c: Config, s: Mem, pc: Pc, move: Move, e: Effect)
    requires forall i | 0 <= i < |s.log| :: PublishOk(s.log[i], s.clock)
    requires PcOk(pc, s.clock) && Has(c, s, pc, move, e)
    ensures forall i | 0 <= i < |move.mem.log| :: PublishOk(move.mem.log[i], move.mem.clock)
  {
  }

  lemma {:induction false} ApprovedStep(c: Config, s: Sys, a: Action)
    requires Approved(s)
    ensures Approved(Step(c, s, a))
  {
    if a.Go? && a.t < |s.threads| && CanGo(s.mem, s.threads[a.t]) {
      var pc := s.threads[a.t];
      var move := MoveOf(c, s.mem, a.t, pc, a.ok);
      var e := MoveEffect(c, s.mem, a.t, pc, a.ok);
      MovePcOk(c, s.mem, a.t, pc, a.ok);
      EffectRemembers(c, s.mem, pc, move, e);
      EffectPublishOk(c, s.mem, pc, move, e);
    }
  }

  lemma {:induction false} ApprovedAlways(c: Config, threads: nat, now: Instant, actions: seq<Action>)
    ensures Approved(Run(c, Start(threads, now), actions))
    decreases |actions|
  {
    if actions != [] {
      var before := actions[..|actions| - 1];
      ApprovedAlways(c, threads, now, before);
      ApprovedStep(c, Run(c, Start(threads, now), before), actions[|actions| - 1]);
    }
  }

  // ----- the theorems

  /**
   In any run, if two grants consumed the same nonce, the later was published when the deadline computed for
   the earlier had passed and the one computed for the later had not.
   */
  lemma {:induction false} NonceReuseWindow(c: Config, threads: nat, now: Instant, actions: seq<Action>, i: nat, j: nat, n: Nonce, x: Instant, y: Instant)
    requires var log := Run(c, Start(threads, now), actions).mem.log;
             i < j < |log| && Consumes(log[i], n, x) && Consumes(log[j], n, y)
    ensures x <= Run(c, Start(threads, now), actions).mem.log[j].at < y
  {
    ApprovedAlways(c, threads, now, actions);
  }

  ghost predicate Carries(e: Event, a: Approval) {
    e.Publish? && exists k | 0 <= k < |e.draft.spent| :: e.draft.spent[k].approval == a
  }

  /** Every deadline in the log is the approval's own expiry: the two clocks were read at one instant. */
  ghost predicate DeadlinesExact(log: seq<Event>) {
    forall i, k | 0 <= i < |log| && log[i].Publish? && 0 <= k < |log[i].draft.spent| ::
      log[i].draft.spent[k].deadline == log[i].draft.spent[k].approval.expires
  }

  /** With exact deadlines no approval is ever published in two grants, though its nonce is forgotten. */
  lemma NoApprovalTwice(c: Config, threads: nat, now: Instant, actions: seq<Action>, i: nat, j: nat, a: Approval)
    requires var log := Run(c, Start(threads, now), actions).mem.log;
             DeadlinesExact(log) && i < |log| && j < |log| && Carries(log[i], a) && Carries(log[j], a)
    ensures i == j
  {
    var log := Run(c, Start(threads, now), actions).mem.log;
    var k :| 0 <= k < |log[i].draft.spent| && log[i].draft.spent[k].approval == a;
    var l :| 0 <= l < |log[j].draft.spent| && log[j].draft.spent[l].approval == a;
    assert Consumes(log[i], a.nonce, a.expires) && Consumes(log[j], a.nonce, a.expires);
    if i < j {
      NonceReuseWindow(c, threads, now, actions, i, j, a.nonce, a.expires, a.expires);
    } else if j < i {
      NonceReuseWindow(c, threads, now, actions, j, i, a.nonce, a.expires, a.expires);
    }
  }

  /** Some nonce of `d` was consumed with a deadline that the last purge had not reached. */
  ghost predicate StillSpent(s: Mem, d: Draft) {
    exists i, k, x: Instant | 0 <= i < |s.log| && 0 <= k < |d.spent| && Consumes(s.log[i], d.spent[k].approval.nonce, x) ::
      x > s.purgedAt
  }

  lemma RefusedForNonce(s: Mem, d: Draft)
    requires Remembers(s)
    ensures Reuses(s.table.used, Spend(d.spent)) <==> StillSpent(s, d)
  {
    var nonces := Spend(d.spent);
    if Reuses(s.table.used, nonces) {
      var k :| 0 <= k < |nonces| && nonces[k].0 in s.table.used;
      var n := d.spent[k].approval.nonce;
      var i :| 0 <= i < |s.log| && Consumes(s.log[i], n, s.table.used[n]);
    }
    if StillSpent(s, d) {
      var i, k, x: Instant :| 0 <= i < |s.log| && 0 <= k < |d.spent| && Consumes(s.log[i], d.spent[k].approval.nonce, x) && x > s.purgedAt;
      assert nonces[k].0 in s.table.used;
    }
  }

  /**
   Exactly when a grant is published: its TTL and every deadline are still ahead, and none of its nonces was
   consumed with a deadline that the purge of this critical section had not reached.
   */
  lemma {:induction false} PublishedExactlyWhen(c: Config, threads: nat, now: Instant, actions: seq<Action>, t: Tid, d: Draft, ok: bool)
    requires var s := Run(c, Start(threads, now), actions);
             t < |s.threads| && s.threads[t] == InGrant(d, GrantPurged)
    ensures var s := Run(c, Start(threads, now), actions);
            (Step(c, s, Go(t, ok)).mem.log == s.mem.log + [Publish(d, s.mem.clock)])
            <==> s.mem.clock < d.expiresAt && !StillSpent(s.mem, d)
  {
    ApprovedAlways(c, threads, now, actions);
    var s := Run(c, Start(threads, now), actions);
    RefusedForNonce(s.mem, d);
    assert MoveOf(c, s.mem, t, s.threads[t], ok) == PublishDraft(s.mem, d);
    assert CanGo(s.mem, s.threads[t]);
  }
}
