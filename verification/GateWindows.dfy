/**
 Cooldown windows of the authorization gate: when a prompt can start after a denial, and for how long a
 record of any content can hold prompts back.
 */
module GateWindows {
  import opened Wrappers
  import opened CooldownRecord
  import opened AuthorizationGate
  import Decimal

  // ----- readings never come from the future

  ghost predicate TimedBefore(pc: Pc, clock: nat) {
    && (pc.Timed? ==> pc.now <= clock)
    && (pc.Rewriting? ==> pc.now <= clock)
    && (pc.DeniedAt? ==> pc.now <= clock)
    && (pc.Recording? ==> pc.now <= clock)
  }

  // ----- a window on file

  /** The record says `until`, and whoever holds the gate has yet to look, having read the clock no earlier than `from`. */
  ghost predicate OnFile(s: Gate, from: nat, until: nat) {
    && Until(s.record) == Some(until)
    && forall p | 0 <= p < |s.callers| && HoldsLock(s.callers[p]) ::
         s.callers[p].Locked? || (s.callers[p].Timed? && s.callers[p].now >= from)
  }

  /** The window that an event announces. */
  ghost predicate Opens(e: Event, from: nat, until: nat) {
    match e
    case Recorded(_, at) => from == at && until == SatAdd(at, COOLDOWN_SECS)
    case Reported(_, now, secs) => from == now && until == SatAdd(now, secs) && 1 <= secs <= COOLDOWN_SECS
    case _ => false
  }

  lemma LookInWindow(r: Record, until: nat, from: nat, now: nat)
    requires Until(r) == Some(until) && from <= now && until <= from + COOLDOWN_SECS
    ensures LookAt(r, now) == if until <= now then Clear else Refuse(until - now)
  {
    assert Until(EMPTY) == None;
  }

  /** A caller that may hold the gate while a window from `from` on is on file. */
  ghost predicate YetToLook(pc: Pc, from: nat) {
    HoldsLock(pc) ==> pc.Locked? || (pc.Timed? && pc.now >= from)
  }

  /** A caller's move with a window on file: the window stays, or it is over and the caller that looked clears it. */
  lemma MoveInWindow(s: Gate, p: Pid, move: Move, a: Action, from: nat, until: nat)
    requires IsMove(s, p, move, a) && Until(s.record) == Some(until) && YetToLook(s.callers[p], from)
    requires from <= s.clock && until <= from + COOLDOWN_SECS && TimedBefore(s.callers[p], s.clock)
    ensures || (move.record == s.record && YetToLook(move.pc, from) && !(move.note.Some? && move.note.value.Prompted?))
            || (move.record == EMPTY && until <= s.clock && HoldsLock(s.callers[p]) && !IsDenial(move.pc) && !move.pc.Rewriting?)
    ensures move.note.Some? && move.note.value.Reported? ==> SatAdd(move.note.value.now, move.note.value.secs) == until
  {
    hide LookAt, Until;
    var pc := s.callers[p];
    if pc.Timed? {
      LookInWindow(s.record, until, from, pc.now);
      UntilRange(s.record);
    }
  }

  lemma OnFileYet(s: Gate, p: Pid, from: nat, until: nat)
    requires OnFile(s, from, until) && p < |s.callers|
    ensures YetToLook(s.callers[p], from) && Until(s.record) == Some(until)
  {
    hide Until;
  }

  lemma OnFileStays(s: Gate, p: Pid, move: Move, from: nat, until: nat)
    requires OnFile(s, from, until) && p < |s.callers| && move.record == s.record && YetToLook(move.pc, from)
    ensures OnFile(Apply(s, p, move), from, until)
  {
    hide Until;
  }

  /** While a window is on file it stays there, no prompt starts, and every report names its end, until time has reached it. */
  lemma OnFileMove(s: Gate, p: Pid, move: Move, a: Action, from: nat, until: nat)
    requires IsMove(s, p, move, a) && OnFile(s, from, until)
    requires from <= s.clock && until <= from + COOLDOWN_SECS && TimedBefore(s.callers[p], s.clock)
    ensures s.clock < until ==> OnFile(Apply(s, p, move), from, until) && !(move.note.Some? && move.note.value.Prompted?)
    ensures move.note.Some? && move.note.value.Reported? ==> SatAdd(move.note.value.now, move.note.value.secs) == until
  {
    hide OnFile, YetToLook, Apply, Until, MoveOf, CrashOf;
    OnFileYet(s, p, from, until);
    MoveInWindow(s, p, move, a, from, until);
    if s.clock < until {
      OnFileStays(s, p, move, from, until);
    }
  }

  ghost predicate WindowHolds(s: Gate, from: nat, until: nat) {
    from <= s.clock && until <= from + COOLDOWN_SECS && (s.clock >= until || OnFile(s, from, until))
  }

  ghost predicate WindowsHold(s: Gate) {
    && (forall p | 0 <= p < |s.callers| :: TimedBefore(s.callers[p], s.clock))
    && (forall i, from, until | 0 <= i < |s.log| && Opens(s.log[i], from, until) :: WindowHolds(s, from, until))
    && (forall i, j, from, until | 0 <= i < j < |s.log| && Opens(s.log[i], from, until) && s.log[j].Prompted? :: s.log[j].at >= until)
  }

  /** An event that announces a window is the last thing its caller does, with the window on file. */
  lemma {:induction false} AnnouncingMove(s: Gate, p: Pid, move: Move, a: Action, from: nat, until: nat)
    requires IsMove(s, p, move, a) && TimedBefore(s.callers[p], s.clock)
    requires move.note.Some? && Opens(move.note.value, from, until)
    ensures HoldsLock(s.callers[p]) && move.pc.Outside?
    ensures Until(move.record) == Some(until) && from <= s.clock && until <= from + COOLDOWN_SECS
  {
    var pc := s.callers[p];
    if pc.Timed? {
      assert Until(EMPTY) == None;
    } else {
      assert pc.Rewriting? || pc.Recording?;
      RecordReadsBack(SatAdd(pc.now, COOLDOWN_SECS));
    }
  }

  lemma {:induction false} AnnouncedOnFile(s: Gate, p: Pid, move: Move, a: Action, from: nat, until: nat)
    requires LockOwned(s) && IsMove(s, p, move, a) && TimedBefore(s.callers[p], s.clock)
    requires move.note.Some? && Opens(move.note.value, from, until)
    ensures OnFile(Apply(s, p, move), from, until) && from <= s.clock && until <= from + COOLDOWN_SECS
  {
    AnnouncingMove(s, p, move, a, from, until);
    assert forall q | 0 <= q < |s.callers| && q != p :: !HoldsLock(s.callers[q]);
  }

  lemma MoveTimed(s: Gate, p: Pid, move: Move, a: Action)
    requires IsMove(s, p, move, a) && TimedBefore(s.callers[p], s.clock)
    ensures TimedBefore(move.pc, s.clock)
    ensures move.note.Some? && move.note.value.Prompted? ==> move.note.value.at == s.clock
  {
  }

  lemma WindowsMove(s: Gate, p: Pid, move: Move, a: Action)
    requires LockOwned(s) && WindowsHold(s) && IsMove(s, p, move, a)
    ensures WindowsHold(Apply(s, p, move))
  {
    var s' := Apply(s, p, move);
    MoveTimed(s, p, move, a);
    forall i, from, until | 0 <= i < |s'.log| && Opens(s'.log[i], from, until)
      ensures WindowHolds(s', from, until)
    {
      if i < |s.log| {
        assert s'.log[i] == s.log[i];
        assert WindowHolds(s, from, until);
        if s.clock < until {
          OnFileMove(s, p, move, a, from, until);
        }
      } else {
        AnnouncedOnFile(s, p, move, a, from, until);
      }
    }
    forall i, j, from, until | 0 <= i < j < |s'.log| && Opens(s'.log[i], from, until) && s'.log[j].Prompted?
      ensures s'.log[j].at >= until
    {
      assert s'.log[i] == s.log[i];
      if j < |s.log| {
        assert s'.log[j] == s.log[j];
      } else {
        assert WindowHolds(s, from, until);
        if s.clock < until {
          OnFileMove(s, p, move, a, from, until);
        }
      }
    }
  }

  lemma WindowsStep(s: Gate, a: Action)
    requires LockOwned(s) && WindowsHold(s)
    ensures WindowsHold(Step(s, a))
  {
    if a.Tick? {
      forall from, until | WindowHolds(s, from, until)
        ensures WindowHolds(Step(s, a), from, until)
      {
      }
    } else {
      var p, move := StepIsMove(s, a);
      if Step(s, a) != s {
        WindowsMove(s, p, move, a);
      }
    }
  }

  lemma {:induction false} WindowsAlways(callers: nat, now: nat, record: Record, actions: seq<Action>)
    ensures WindowsHold(Run(Start(callers, now, record), actions))
    decreases |actions|
  {
    if actions != [] {
      var before := actions[..|actions| - 1];
      WindowsAlways(callers, now, record, before);
      LockAlways(callers, now, record, before);
      WindowsStep(Run(Start(callers, now, record), before), actions[|actions| - 1]);
    }
  }

  /**
   After a recorded denial whose answer time was read as `at`, and after a refusal that reported `secs`
   seconds at `now`, no caller of any process starts a prompt before `at + 120`, or `now + secs`.
   */
  lemma NoPromptInWindow(callers: nat, now: nat, record: Record, actions: seq<Action>, i: nat, j: nat, from: nat, until: nat)
    requires var log := Run(Start(callers, now, record), actions).log;
             i < j < |log| && Opens(log[i], from, until) && log[j].Prompted?
    ensures Run(Start(callers, now, record), actions).log[j].at >= until
  {
    WindowsAlways(callers, now, record, actions);
  }

  // ----- from the denial itself

  ghost predicate Settles(e: Event, p: Pid, at: nat) {
    e == Lost(p) || (e.Recorded? && e.p == p && e.at >= at)
  }

  /** The denial of entry `i` has been recorded or lost, or its caller is still about to record it. */
  ghost predicate Settled(s: Gate, i: nat)
    requires i < |s.log| && s.log[i].Denied?
  {
    var p, at := s.log[i].p, s.log[i].at;
    || (exists k | i < k < |s.log| :: Settles(s.log[k], p, at))
    || (p < |s.callers| && IsDenial(s.callers[p]) && at <= s.clock
        && (s.callers[p].DeniedAt? || s.callers[p].Recording? ==> s.callers[p].now >= at))
  }

  ghost predicate DenialsSettled(s: Gate) {
    forall i | 0 <= i < |s.log| && s.log[i].Denied? :: Settled(s, i)
  }

  /** A caller on its way to recording gets there, loses the record, or goes one step further. */
  lemma DenialMoves(s: Gate, p: Pid, move: Move, a: Action)
    requires IsMove(s, p, move, a) && IsDenial(s.callers[p])
    ensures var pc := s.callers[p];
            || move.note == Some(Lost(p))
            || (pc.Recording? && move.note == Some(Recorded(p, pc.now)))
            || (pc.Answered? && move.note == None && move.pc == DeniedAt(s.clock))
            || (pc.DeniedAt? && move.note == None && move.pc == Recording(pc.now))
            || (move.note == None && move.pc == pc)
  {
  }

  lemma DenialEvent(s: Gate, p: Pid, move: Move, a: Action)
    requires IsMove(s, p, move, a) && move.note.Some? && move.note.value.Denied?
    ensures move == Move(Answered, s.record, Some(Denied(p, s.clock)))
  {
  }

  lemma SettledMove(s: Gate, p: Pid, move: Move, a: Action, i: nat)
    requires IsMove(s, p, move, a) && i < |s.log| && s.log[i].Denied? && Settled(s, i)
    ensures Settled(Apply(s, p, move), i)
  {
    var s' := Apply(s, p, move);
    var q, at := s.log[i].p, s.log[i].at;
    assert s'.log[i] == s.log[i];
    if k :| i < k < |s.log| && Settles(s.log[k], q, at) {
      assert s'.log[k] == s.log[k];
    } else if q == p {
      DenialMoves(s, p, move, a);
      if move.note.Some? {
        assert Settles(s'.log[|s.log|], q, at);
      }
    }
  }

  lemma SettledStep(s: Gate, a: Action)
    requires DenialsSettled(s)
    ensures DenialsSettled(Step(s, a))
  {
    if a.Tick? {
      forall i | 0 <= i < |s.log| && s.log[i].Denied?
        ensures Settled(Step(s, a), i)
      {
        assert Settled(s, i);
      }
    } else {
      var p, move := StepIsMove(s, a);
      var s' := Step(s, a);
      if s' != s {
        forall i | 0 <= i < |s'.log| && s'.log[i].Denied?
          ensures Settled(s', i)
        {
          if i < |s.log| {
            assert s'.log[i] == s.log[i];
            SettledMove(s, p, move, a, i);
          } else {
            DenialEvent(s, p, move, a);
          }
        }
      }
    }
  }

  /** Between a denial and its being recorded or lost, nobody prompts. */
  ghost predicate PromptsAfterSettling(log: seq<Event>) {
    forall i, j | 0 <= i < j < |log| && log[i].Denied? && log[j].Prompted? ::
      exists k | i < k < j :: Settles(log[k], log[i].p, log[i].at)
  }

  lemma PromptMove(s: Gate, p: Pid, move: Move, a: Action)
    requires IsMove(s, p, move, a) && move.note.Some? && move.note.value.Prompted?
    ensures s.callers[p].Timed?
  {
  }

  lemma PromptsAfterSettlingStep(s: Gate, a: Action)
    requires LockOwned(s) && DenialsSettled(s) && PromptsAfterSettling(s.log)
    ensures PromptsAfterSettling(Step(s, a).log)
  {
    if !a.Tick? {
      var p, move := StepIsMove(s, a);
      var s' := Step(s, a);
      if s' != s {
        forall i, j | 0 <= i < j < |s'.log| && s'.log[i].Denied? && s'.log[j].Prompted?
          ensures exists k | i < k < j :: Settles(s'.log[k], s'.log[i].p, s'.log[i].at)
        {
          assert s'.log[i] == s.log[i];
          var q, at := s.log[i].p, s.log[i].at;
          if j < |s.log| {
            assert s'.log[j] == s.log[j];
            var k :| i < k < j && Settles(s.log[k], q, at);
            assert s'.log[k] == s.log[k];
          } else {
            PromptMove(s, p, move, a);
            assert Settled(s, i);
            assert HoldsLock(s.callers[p]);
            var k :| i < k < |s.log| && Settles(s.log[k], q, at);
            assert s'.log[k] == s.log[k];
          }
        }
      }
    }
  }

  lemma {:induction false} SettlingAlways(callers: nat, now: nat, record: Record, actions: seq<Action>)
    ensures var s := Run(Start(callers, now, record), actions); DenialsSettled(s) && PromptsAfterSettling(s.log)
    decreases |actions|
  {
    if actions != [] {
      var before := actions[..|actions| - 1];
      SettlingAlways(callers, now, record, before);
      LockAlways(callers, now, record, before);
      SettledStep(Run(Start(callers, now, record), before), actions[|actions| - 1]);
      PromptsAfterSettlingStep(Run(Start(callers, now, record), before), actions[|actions| - 1]);
    }
  }

  /**
   After a denial answered at `at`, no prompt of any process starts before `at + 120`, unless recording that
   denial failed: its write or clock reading failed, or its caller died first.
   */
  lemma DenialCoolsDown(callers: nat, now: nat, record: Record, actions: seq<Action>, i: nat, j: nat)
    requires var log := Run(Start(callers, now, record), actions).log;
             i < j < |log| && log[i].Denied? && log[j].Prompted?
    ensures var log := Run(Start(callers, now, record), actions).log;
            || log[j].at >= SatAdd(log[i].at, COOLDOWN_SECS)
            || exists k | i < k < j :: log[k] == Lost(log[i].p)
  {
    SettlingAlways(callers, now, record, actions);
    var log := Run(Start(callers, now, record), actions).log;
    var k :| i < k < j && Settles(log[k], log[i].p, log[i].at);
    if log[k].Recorded? {
      NoPromptInWindow(callers, now, record, actions, k, j, log[k].at, SatAdd(log[k].at, COOLDOWN_SECS));
    }
  }

  // ----- one window at most

  /** Nothing is on file and nobody is about to write. */
  ghost predicate Cleared(s: Gate) {
    s.record == EMPTY && forall p | 0 <= p < |s.callers| && HoldsLock(s.callers[p]) :: !IsDenial(s.callers[p]) && !s.callers[p].Rewriting?
  }

  /** A window that was announced and that no denial has replaced: still on file, or over and cleared. */
  ghost predicate OneWindow(s: Gate, from: nat, until: nat) {
    && from <= s.clock && until <= from + COOLDOWN_SECS
    && (OnFile(s, from, until) || Cleared(s))
  }

  ghost predicate DeniedSince(log: seq<Event>, i: nat, to: nat)
    requires to <= |log|
  {
    exists k | i < k < to :: log[k].Denied?
  }

  ghost predicate ReportsAgree(s: Gate) {
    && (forall i, from, until | 0 <= i < |s.log| && Opens(s.log[i], from, until) && !DeniedSince(s.log, i, |s.log|) ::
          OneWindow(s, from, until))
    && (forall i, j, from, until | 0 <= i < j < |s.log| && Opens(s.log[i], from, until) && s.log[j].Reported? && !DeniedSince(s.log, i, j) ::
          SatAdd(s.log[j].now, s.log[j].secs) == until)
  }

  /** With nothing on file and no denial under way, nothing is written unless the user denies. */
  lemma MoveOnEmpty(s: Gate, p: Pid, move: Move, a: Action)
    requires IsMove(s, p, move, a) && s.record == EMPTY && !IsDenial(s.callers[p]) && !s.callers[p].Rewriting?
    requires !(move.note.Some? && move.note.value.Denied?)
    ensures move.record == EMPTY && !IsDenial(move.pc) && !move.pc.Rewriting?
    ensures !(move.note.Some? && move.note.value.Reported?)
  {
    hide Until;
  }

  lemma ClearedMove(s: Gate, p: Pid, move: Move)
    requires p < |s.callers| && move.record == EMPTY && !IsDenial(move.pc) && !move.pc.Rewriting?
    requires Cleared(s) || (LockOwned(s) && HoldsLock(s.callers[p]))
    ensures Cleared(Apply(s, p, move))
  {
  }

  lemma {:induction false} OneWindowMove(s: Gate, p: Pid, move: Move, a: Action, from: nat, until: nat)
    requires LockOwned(s) && IsMove(s, p, move, a) && OneWindow(s, from, until) && TimedBefore(s.callers[p], s.clock)
    requires !(move.note.Some? && move.note.value.Denied?)
    ensures OneWindow(Apply(s, p, move), from, until)
    ensures move.note.Some? && move.note.value.Reported? ==> SatAdd(move.note.value.now, move.note.value.secs) == until
  {
    hide OnFile, YetToLook, LockOwned, Until, MoveOf, CrashOf, TimedBefore;
    if OnFile(s, from, until) {
      OnFileYet(s, p, from, until);
      MoveInWindow(s, p, move, a, from, until);
      if move.record == s.record && YetToLook(move.pc, from) {
        OnFileStays(s, p, move, from, until);
      } else {
        ClearedMove(s, p, move);
      }
    } else {
      MoveOnEmpty(s, p, move, a);
      ClearedMove(s, p, move);
    }
  }

  lemma DeniedSinceLonger(log: seq<Event>, log': seq<Event>, i: nat, to: nat)
    requires log <= log' && to <= |log| && DeniedSince(log, i, to)
    ensures DeniedSince(log', i, to)
  {
    var k :| i < k < to && log[k].Denied?;
    assert log'[k].Denied?;
  }

  lemma DenialsKept(s: Gate, p: Pid, move: Move, i: nat)
    requires p < |s.callers| && i < |s.log|
    ensures var log' := Apply(s, p, move).log;
            (DeniedSince(s.log, i, |s.log|) || (move.note.Some? && move.note.value.Denied?)) ==> DeniedSince(log', i, |log'|)
  {
    var log' := Apply(s, p, move).log;
    if DeniedSince(s.log, i, |s.log|) {
      DeniedSinceLonger(s.log, log', i, |s.log|);
    } else if move.note.Some? && move.note.value.Denied? {
      assert log'[|s.log|].Denied?;
    }
  }

  lemma AgreeMove(s: Gate, p: Pid, move: Move, a: Action)
    requires LockOwned(s) && WindowsHold(s) && ReportsAgree(s) && IsMove(s, p, move, a)
    ensures ReportsAgree(Apply(s, p, move))
  {
    var s' := Apply(s, p, move);
    forall i, from, until | 0 <= i < |s'.log| && Opens(s'.log[i], from, until) && !DeniedSince(s'.log, i, |s'.log|)
      ensures OneWindow(s', from, until)
    {
      if i < |s.log| {
        assert s'.log[i] == s.log[i];
        DenialsKept(s, p, move, i);
        OneWindowMove(s, p, move, a, from, until);
      } else {
        AnnouncedOnFile(s, p, move, a, from, until);
      }
    }
    forall i, j, from, until | 0 <= i < j < |s'.log| && Opens(s'.log[i], from, until) && s'.log[j].Reported? && !DeniedSince(s'.log, i, j)
      ensures SatAdd(s'.log[j].now, s'.log[j].secs) == until
    {
      assert s'.log[i] == s.log[i];
      if j < |s.log| {
        assert s'.log[j] == s.log[j];
        if DeniedSince(s.log, i, j) {
          DeniedSinceLonger(s.log, s'.log, i, j);
        }
      } else {
        if DeniedSince(s.log, i, |s.log|) {
          DeniedSinceLonger(s.log, s'.log, i, |s.log|);
        }
        OneWindowMove(s, p, move, a, from, until);
      }
    }
  }

  lemma AgreeStep(s: Gate, a: Action)
    requires LockOwned(s) && WindowsHold(s) && ReportsAgree(s)
    ensures ReportsAgree(Step(s, a))
  {
    if a.Tick? {
      forall from, until | OneWindow(s, from, until)
        ensures OneWindow(Step(s, a), from, until)
      {
      }
    } else {
      var p, move := StepIsMove(s, a);
      if Step(s, a) != s {
        AgreeMove(s, p, move, a);
      }
    }
  }

  lemma {:induction false} AgreeAlways(callers: nat, now: nat, record: Record, actions: seq<Action>)
    ensures ReportsAgree(Run(Start(callers, now, record), actions))
    decreases |actions|
  {
    if actions != [] {
      var before := actions[..|actions| - 1];
      AgreeAlways(callers, now, record, before);
      LockAlways(callers, now, record, before);
      WindowsAlways(callers, now, record, before);
      AgreeStep(Run(Start(callers, now, record), before), actions[|actions| - 1]);
    }
  }

  /**
   A record of whatever content holds prompts back for at most one window: with no denial in between, every
   refusal names the same end of the window as the first, so all of them come within 120 seconds of it.
   */
  lemma OneWindowAtMost(callers: nat, now: nat, record: Record, actions: seq<Action>, i: nat, j: nat)
    requires var s := Run(Start(callers, now, record), actions);
             && i < j < |s.log| && s.log[i].Reported? && s.log[j].Reported? && !DeniedSince(s.log, i, j)
             && s.clock + COOLDOWN_SECS <= Decimal.U64_MAX
    ensures var log := Run(Start(callers, now, record), actions).log;
            && log[j].now + log[j].secs == log[i].now + log[i].secs
            && log[j].now < log[i].now + COOLDOWN_SECS
  {
    ReportsAlways(callers, now, record, actions);
    AgreeAlways(callers, now, record, actions);
    var log := Run(Start(callers, now, record), actions).log;
    assert Opens(log[i], log[i].now, SatAdd(log[i].now, log[i].secs));
  }

  /** A reported remainder is always between 1 and 120 seconds. */
  lemma ReportedRange(callers: nat, now: nat, record: Record, actions: seq<Action>, i: nat)
    requires var log := Run(Start(callers, now, record), actions).log; i < |log| && log[i].Reported?
    ensures var log := Run(Start(callers, now, record), actions).log; 1 <= log[i].secs <= COOLDOWN_SECS
  {
    ReportsAlways(callers, now, record, actions);
  }

  ghost predicate ReportsOk(s: Gate) {
    && (forall p | 0 <= p < |s.callers| :: TimedBefore(s.callers[p], s.clock))
    && (forall i | 0 <= i < |s.log| && s.log[i].Reported? :: 1 <= s.log[i].secs <= COOLDOWN_SECS && s.log[i].now <= s.clock)
  }

  lemma {:induction false} ReportMove(s: Gate, p: Pid, move: Move, a: Action)
    requires IsMove(s, p, move, a) && TimedBefore(s.callers[p], s.clock) && move.note.Some? && move.note.value.Reported?
    ensures 1 <= move.note.value.secs <= COOLDOWN_SECS && move.note.value.now <= s.clock
  {
  }

  lemma {:induction false} ReportsAlways(callers: nat, now: nat, record: Record, actions: seq<Action>)
    ensures ReportsOk(Run(Start(callers, now, record), actions))
    decreases |actions|
  {
    if actions != [] {
      var last := actions[|actions| - 1];
      var s := Run(Start(callers, now, record), actions[..|actions| - 1]);
      ReportsAlways(callers, now, record, actions[..|actions| - 1]);
      if !last.Tick? {
        var p, move := StepIsMove(s, last);
        if Step(s, last) != s {
          MoveTimed(s, p, move, last);
          if move.note.Some? && move.note.value.Reported? {
            ReportMove(s, p, move, last);
          }
        }
      }
    }
  }

  // ----- when a caller does prompt

  /** The four steps of a caller that finds the gate free. */
  function Visit(p: Pid): seq<Action> {
    [Enter(p), Go(p, true, Granted), Go(p, true, Granted), Go(p, true, Granted)]
  }

  lemma FourSteps(s: Gate, a: Action, b: Action, c: Action, d: Action)
    ensures Run(s, [a, b, c, d]) == Step(Step(Step(Step(s, a), b), c), d)
  {
    assert [a, b, c, d][..3] == [a, b, c];
    assert [a, b, c][..2] == [a, b];
    assert [a, b][..1] == [a];
    assert [a][..0] == [];
    assert Run(s, [a]) == Step(s, a);
    assert Run(s, [a, b]) == Step(Run(s, [a]), b);
    assert Run(s, [a, b, c]) == Step(Run(s, [a, b]), c);
  }

  /**
   A caller that finds the gate free prompts at once exactly when nothing is recorded or the recorded time has
   come; so a record that names no time in the future does not hold prompts back.
   */
  lemma FreeGatePromptsExactlyWhen(s: Gate, p: Pid)
    requires p < |s.callers| && s.callers[p].Outside? && s.lock.None?
    ensures p < |Run(s, Visit(p)).callers| &&
            (Run(s, Visit(p)).callers[p].Prompting? <==>
               s.record == EMPTY || (Until(s.record).Some? && Until(s.record).value <= s.clock))
    ensures Run(s, Visit(p)).callers[p].Prompting? ==>
              Run(s, Visit(p)) == Gate(s.clock, EMPTY, Some(p), s.callers[p := Prompting], s.log + [Entered(p), Prompted(p, s.clock)])
  {
    FourSteps(s, Enter(p), Go(p, true, Granted), Go(p, true, Granted), Go(p, true, Granted));
    var s1 := Step(s, Enter(p));
    assert s1.callers[p] == Arrived;
    var s2 := Step(s1, Go(p, true, Granted));
    assert s2.callers[p] == Locked(false);
    var s3 := Step(s2, Go(p, true, Granted));
    assert s3.callers[p] == Timed(false, s.clock) && s3.record == s.record;
    var s4 := Step(s3, Go(p, true, Granted));
    assert s4.callers[p].Prompting? ==> s4.log == s.log + [Entered(p), Prompted(p, s.clock)] && s4.callers == s.callers[p := Prompting];
  }

  /**
   Prompts come back: in every reachable state in which the lock is free and the window of some report is over,
   with no denial since, a caller from outside that takes the gate prompts, whatever the file held at first.
   */
  lemma PromptsAfterWindow(callers: nat, now: nat, record: Record, actions: seq<Action>, i: nat, p: Pid)
    requires var s := Run(Start(callers, now, record), actions);
             && i < |s.log| && s.log[i].Reported? && !DeniedSince(s.log, i, |s.log|)
             && s.clock >= SatAdd(s.log[i].now, s.log[i].secs)
             && s.lock.None? && p < |s.callers| && s.callers[p].Outside?
    ensures var s := Run(Start(callers, now, record), actions + Visit(p)); p < |s.callers| && s.callers[p].Prompting?
  {
    hide Until, Visit, OnFile, Cleared;
    ReportsAlways(callers, now, record, actions);
    AgreeAlways(callers, now, record, actions);
    var s := Run(Start(callers, now, record), actions);
    var from, until := s.log[i].now, SatAdd(s.log[i].now, s.log[i].secs);
    assert Opens(s.log[i], from, until);
    assert OneWindow(s, from, until);
    WindowOnRecord(s, from, until);
    FreeGatePromptsExactlyWhen(s, p);
    RunBoth(Start(callers, now, record), actions, Visit(p));
  }

  lemma WindowOnRecord(s: Gate, from: nat, until: nat)
    requires OneWindow(s, from, until)
    ensures s.record == EMPTY || Until(s.record) == Some(until)
  {
    hide Until;
  }

  lemma {:induction false} RunBoth(s: Gate, xs: seq<Action>, ys: seq<Action>)
    ensures Run(s, xs + ys) == Run(Run(s, xs), ys)
    decreases |ys|
  {
    if ys == [] {
      assert xs + ys == xs;
    } else {
      assert (xs + ys)[..|xs + ys| - 1] == xs + ys[..|ys| - 1];
      RunBoth(s, xs, ys[..|ys| - 1]);
    }
  }

  /** The user refuses caller 0, which dies after truncating the record and before writing it. */
  const REFUSED_AND_LOST: seq<Action> := [Go(0, true, Refused), Go(0, true, Failed), Go(0, true, Failed), Crash(0, 0)]

  lemma RefusedSteps(s: Gate)
    requires s.callers == [Prompting, Outside] && s.lock == Some(0)
    ensures Step(Step(s, Go(0, true, Refused)), Go(0, true, Failed)) ==
            Gate(s.clock, s.record, Some(0), [DeniedAt(s.clock), Outside], s.log + [Denied(0, s.clock)])
  {
    hide LookAt, Until;
    assert Step(s, Go(0, true, Refused)) == Gate(s.clock, s.record, Some(0), [Answered, Outside], s.log + [Denied(0, s.clock)]);
  }

  lemma TruncatesRecord(s: Gate, now: nat)
    requires s.callers == [DeniedAt(now), Outside] && s.lock == Some(0)
    ensures Step(s, Go(0, true, Failed)) == Gate(s.clock, EMPTY, Some(0), [Recording(now), Outside], s.log)
  {
    hide LookAt, Until;
  }

  /** Dying before the first character is written leaves the truncated file. */
  lemma CrashOfRecording(now: nat)
    ensures CrashOf(EMPTY, 0, Recording(now), 0) == Move(Outside, EMPTY, Some(Lost(0)))
  {
    Decimal.ValueOfText(SatAdd(now, COOLDOWN_SECS));
    assert Decimal.Text(SatAdd(now, COOLDOWN_SECS))[..0] == "";
  }

  lemma DiesRecording(s: Gate, now: nat)
    requires s.callers == [Recording(now), Outside] && s.lock == Some(0) && s.record == EMPTY
    ensures Step(s, Crash(0, 0)) == Gate(s.clock, EMPTY, None, [Outside, Outside], s.log + [Lost(0)])
  {
    hide MoveOf, CrashOf;
    CrashOfRecording(now);
  }

  lemma RefusedAndLostRuns(s: Gate)
    requires s.callers == [Prompting, Outside] && s.lock == Some(0)
    ensures Run(s, REFUSED_AND_LOST) == Gate(s.clock, EMPTY, None, [Outside, Outside], s.log + [Denied(0, s.clock), Lost(0)])
  {
    hide Step, Run;
    RefusedSteps(s);
    var log := s.log + [Denied(0, s.clock)];
    TruncatesRecord(Gate(s.clock, s.record, Some(0), [DeniedAt(s.clock), Outside], log), s.clock);
    DiesRecording(Gate(s.clock, EMPTY, Some(0), [Recording(s.clock), Outside], log), s.clock);
    assert s.log + [Denied(0, s.clock)] + [Lost(0)] == s.log + [Denied(0, s.clock), Lost(0)];
    FourSteps(s, Go(0, true, Refused), Go(0, true, Failed), Go(0, true, Failed), Crash(0, 0));
  }

  lemma StartOfTwo(now: nat)
    ensures Start(2, now, EMPTY) == Gate(now, EMPTY, None, [Outside, Outside], [])
  {
  }

  /** The exception in `DenialCoolsDown` is real: after a lost record the next caller prompts at once. */
  lemma LostRecordPromptsAtOnce(now: nat) returns (actions: seq<Action>)
    ensures Run(Start(2, now, EMPTY), actions).log ==
            [Entered(0), Prompted(0, now), Denied(0, now), Lost(0), Entered(1), Prompted(1, now)]
  {
    hide Run, Step, Visit, Until;
    var s := Gate(now, EMPTY, None, [Outside, Outside], []);
    StartOfTwo(now);
    FreeGatePromptsExactlyWhen(s, 0);
    var s1 := Gate(now, EMPTY, Some(0), [Prompting, Outside], [Entered(0), Prompted(0, now)]);
    assert [] + [Entered(0), Prompted(0, now)] == [Entered(0), Prompted(0, now)];
    assert Run(s, Visit(0)) == s1;
    RefusedAndLostRuns(s1);
    var s2 := Gate(now, EMPTY, None, [Outside, Outside], s1.log + [Denied(0, now), Lost(0)]);
    FreeGatePromptsExactlyWhen(s2, 1);
    actions := Visit(0) + REFUSED_AND_LOST + Visit(1);
    RunBoth(s, Visit(0), REFUSED_AND_LOST);
    RunBoth(s, Visit(0) + REFUSED_AND_LOST, Visit(1));
  }
}
