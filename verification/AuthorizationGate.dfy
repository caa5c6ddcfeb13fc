/**
 The per-user gate in front of macOS Keychain prompts (`authorize_with_gate` in crates/avault-store/src/lib.rs)
 as a transition system: any number of callers in any number of processes, one lock file, a monotone clock,
 callers that crash at any point, and writes that fail or are cut short.
 */
module AuthorizationGate {
  import opened Wrappers
  import opened CooldownRecord
  import Decimal

  type Pid = nat

  datatype Pc =
    | Outside
    | Arrived                                // about to try the lock for the first time
    | Waiting                                // polling
    | Locked(waited: bool)
    | Timed(waited: bool, now: nat)          // holds the lock and has read the clock
    | Rewriting(now: nat)                    // has truncated an unusable record
    | Background                             // waited: runs the coalesced read
    | Prompting
    | Answered                               // the user denied or cancelled
    | DeniedAt(now: nat)
    | Recording(now: nat)                    // has truncated the record

  datatype Event =
    | Entered(p: Pid)
    | Waited(p: Pid)
    | Prompted(p: Pid, at: nat)
    | Denied(p: Pid, at: nat)
    | Recorded(p: Pid, at: nat)              // the denial whose answer time was read as `at`
    | Lost(p: Pid)                           // the denial could not be recorded
    | Reported(p: Pid, now: nat, secs: nat)

  datatype Gate = Gate(clock: nat, record: Record, lock: Option<Pid>, callers: seq<Pc>, log: seq<Event>)

  datatype Answer = Granted | Refused | Failed

  datatype Action =
    | Tick(elapsed: nat)
    | Enter(p: Pid)
    | Go(p: Pid, ok: bool, answer: Answer)   // `ok`: the write or clock reading involved succeeds
    | GiveUp(p: Pid)                         // the wait is over
    | Crash(p: Pid, written: nat)            // mid-write, this many characters reach the file

  function Start(callers: nat, now: nat, record: Record): Gate {
    Gate(now, record, None, seq(callers, i => Outside), [])
  }

  predicate HoldsLock(pc: Pc) {
    !pc.Outside? && !pc.Arrived? && !pc.Waiting?
  }

  /** What one step of a caller does: where it goes, what the file holds then, and what is noted. */
  datatype Move = Move(pc: Pc, record: Record, note: Option<Event>)

  /** The caller may go on: it prompts, unless it had to wait. */
  function PassOn(clock: nat, record: Record, p: Pid, waited: bool): Move {
    if waited then Move(Background, record, None) else Move(Prompting, record, Some(Prompted(p, clock)))
  }

  function Look(clock: nat, record: Record, p: Pid, waited: bool, now: nat, ok: bool): Move {
    match LookAt(record, now)
    case Pass => PassOn(clock, record, p, waited)
    case Clear => if ok then PassOn(clock, EMPTY, p, waited) else Move(Outside, record, None)
    case Refuse(secs) => Move(Outside, record, Some(Reported(p, now, secs)))
    case Rewrite => if ok then Move(Rewriting(now), EMPTY, None) else Move(Outside, record, None)
  }

  function MoveOf(clock: nat, record: Record, free: bool, p: Pid, pc: Pc, ok: bool, answer: Answer): Move {
    match pc
    case Outside => Move(Outside, record, None)
    case Arrived => if free then Move(Locked(false), record, None) else Move(Waiting, record, Some(Waited(p)))
    case Waiting => Move(if free then Locked(true) else Waiting, record, None)
    case Locked(waited) => Move(if ok then Timed(waited, clock) else Outside, record, None)
    case Timed(waited, now) => Look(clock, record, p, waited, now, ok)
    case Rewriting(now) =>
      if ok then Move(Outside, RecordOf(SatAdd(now, COOLDOWN_SECS)), Some(Reported(p, now, COOLDOWN_SECS)))
      else Move(Outside, record, None)
    case Background => Move(Outside, record, None)
    case Prompting =>
      (match answer
       case Granted => Move(Outside, if ok then EMPTY else record, None)
       case Refused => Move(Answered, record, Some(Denied(p, clock)))
       case Failed => Move(Outside, record, None))
    case Answered => if ok then Move(DeniedAt(clock), record, None) else Move(Outside, record, Some(Lost(p)))
    case DeniedAt(now) => if ok then Move(Recording(now), EMPTY, None) else Move(Outside, record, Some(Lost(p)))
    case Recording(now) =>
      if ok then Move(Outside, RecordOf(SatAdd(now, COOLDOWN_SECS)), Some(Recorded(p, now)))
      else Move(Outside, record, Some(Lost(p)))
  }

  predicate IsDenial(pc: Pc) {
    pc.Answered? || pc.DeniedAt? || pc.Recording?
  }

  /** What a dead caller was writing may have reached the file in part. */
  function CrashOf(record: Record, p: Pid, pc: Pc, written: nat): Move {
    var text := if pc.Recording? || pc.Rewriting? then Decimal.Text(SatAdd(pc.now, COOLDOWN_SECS)) else [];
    Move(Outside, if written < |text| then Text(text[..written]) else record, if IsDenial(pc) then Some(Lost(p)) else None)
  }

  /** The kernel frees the lock when its holder closes the file, by leaving or by dying. */
  function Apply(s: Gate, p: Pid, move: Move): Gate
    requires p < |s.callers|
  {
    Gate(s.clock, move.record,
         if HoldsLock(move.pc) then Some(p) else if HoldsLock(s.callers[p]) then None else s.lock,
         s.callers[p := move.pc],
         if move.note.Some? then s.log + [move.note.value] else s.log)
  }

  predicate IsMove(s: Gate, p: Pid, move: Move, a: Action)
  {
    p < |s.callers| &&
    var pc := s.callers[p];
    match a
    case Tick(_) => false
    case Enter(q) => q == p && pc.Outside? && move == Move(Arrived, s.record, Some(Entered(p)))
    case Go(q, ok, answer) => q == p && move == MoveOf(s.clock, s.record, s.lock.None?, p, pc, ok, answer)
    case GiveUp(q) => q == p && pc.Waiting? && move == Move(Outside, s.record, None)
    case Crash(q, written) => q == p && move == CrashOf(s.record, p, pc, written)
  }

  function Step(s: Gate, a: Action): Gate {
    match a
    case Tick(elapsed) => s.(clock := s.clock + elapsed)
    case Enter(p) => if p < |s.callers| && s.callers[p].Outside? then Apply(s, p, Move(Arrived, s.record, Some(Entered(p)))) else s
    case Go(p, ok, answer) =>
      if p < |s.callers| then Apply(s, p, MoveOf(s.clock, s.record, s.lock.None?, p, s.callers[p], ok, answer)) else s
    case GiveUp(p) => if p < |s.callers| && s.callers[p].Waiting? then Apply(s, p, Move(Outside, s.record, None)) else s
    case Crash(p, written) => if p < |s.callers| then Apply(s, p, CrashOf(s.record, p, s.callers[p], written)) else s
  }

  function Run(s: Gate, actions: seq<Action>): Gate
    decreases |actions|
  {
    if actions == [] then s else Step(Run(s, actions[..|actions| - 1]), actions[|actions| - 1])
  }

  // ----- mutual exclusion

  ghost predicate LockOwned(s: Gate) {
    && (s.lock.Some? ==> s.lock.value < |s.callers| && HoldsLock(s.callers[s.lock.value]))
    && (forall p | 0 <= p < |s.callers| && HoldsLock(s.callers[p]) :: s.lock == Some(p))
  }

  /** A step other than the passing of time is one caller's move, or nothing. */
  lemma StepIsMove(s: Gate, a: Action) returns (p: Pid, move: Move)
    requires !a.Tick?
    ensures Step(s, a) == s || (IsMove(s, p, move, a) && Step(s, a) == Apply(s, p, move))
  {
    p := a.p;
    move := Move(Outside, s.record, None);
    if p < |s.callers| {
      move := match a
        case Enter(_) => Move(Arrived, s.record, Some(Entered(p)))
        case Go(_, ok, answer) => MoveOf(s.clock, s.record, s.lock.None?, p, s.callers[p], ok, answer)
        case GiveUp(_) => move
        case Crash(_, written) => CrashOf(s.record, p, s.callers[p], written);
    }
  }

  lemma MoveTakesFreeLock(s: Gate, p: Pid, move: Move, a: Action)
    requires IsMove(s, p, move, a) && HoldsLock(move.pc)
    ensures HoldsLock(s.callers[p]) || s.lock.None?
  {
  }

  lemma LockStep(s: Gate, a: Action)
    requires LockOwned(s)
    ensures LockOwned(Step(s, a))
  {
    if !a.Tick? {
      var p, move := StepIsMove(s, a);
      if Step(s, a) != s && HoldsLock(move.pc) {
        MoveTakesFreeLock(s, p, move, a);
      }
    }
  }

  lemma {:induction false} LockAlways(callers: nat, now: nat, record: Record, actions: seq<Action>)
    ensures LockOwned(Run(Start(callers, now, record), actions))
    decreases |actions|
  {
    if actions != [] {
      LockAlways(callers, now, record, actions[..|actions| - 1]);
      LockStep(Run(Start(callers, now, record), actions[..|actions| - 1]), actions[|actions| - 1]);
    }
  }

  /** Prompts are mutually exclusive, and no one else is anywhere inside the gate while one is shown. */
  lemma PromptsExclusive(callers: nat, now: nat, record: Record, actions: seq<Action>, p: Pid, q: Pid)
    requires var s := Run(Start(callers, now, record), actions);
             p < |s.callers| && q < |s.callers| && p != q && s.callers[p].Prompting?
    ensures !HoldsLock(Run(Start(callers, now, record), actions).callers[q])
  {
    LockAlways(callers, now, record, actions);
  }

  // ----- a caller that waited never prompts

  /** Entry `i` is where `p` came in, and it has not waited since. */
  ghost predicate CameStraight(log: seq<Event>, i: nat, to: nat, p: Pid)
    requires to <= |log|
  {
    i < to && log[i] == Entered(p) && forall k | i < k < to :: log[k] != Waited(p) && log[k] != Entered(p)
  }

  ghost predicate Straight(log: seq<Event>, to: nat, p: Pid)
    requires to <= |log|
  {
    exists i :: CameStraight(log, i, to, p)
  }

  predicate MayPrompt(pc: Pc) {
    pc.Arrived? || pc == Locked(false) || (pc.Timed? && !pc.waited)
  }

  ghost predicate StraightOk(s: Gate) {
    && (forall p | 0 <= p < |s.callers| && MayPrompt(s.callers[p]) :: Straight(s.log, |s.log|, p))
    && (forall j | 0 <= j < |s.log| && s.log[j].Prompted? :: Straight(s.log, j, s.log[j].p))
  }

  lemma StraightLonger(log: seq<Event>, e: Event, to: nat, p: Pid)
    requires to <= |log| && Straight(log, to, p)
    ensures Straight(log + [e], to, p)
    ensures to == |log| && e != Waited(p) && e != Entered(p) ==> Straight(log + [e], to + 1, p)
  {
    var i :| CameStraight(log, i, to, p);
    assert CameStraight(log + [e], i, to, p);
    if to == |log| && e != Waited(p) && e != Entered(p) {
      assert CameStraight(log + [e], i, to + 1, p);
    }
  }

  /** Only a caller that may prompt prompts, one that waits may not, and one starts to only by entering. */
  lemma MoveStraight(s: Gate, p: Pid, move: Move, a: Action)
    requires IsMove(s, p, move, a)
    ensures move.note.Some? ==> move.note.value.p == p
    ensures move.note.Some? && move.note.value.Prompted? ==> MayPrompt(s.callers[p])
    ensures MayPrompt(move.pc) ==> move.note == Some(Entered(p)) || (move.note.None? && MayPrompt(s.callers[p]))
  {
  }

  lemma StraightStep(s: Gate, a: Action)
    requires StraightOk(s)
    ensures StraightOk(Step(s, a))
  {
    if !a.Tick? {
      var p, move := StepIsMove(s, a);
      var s' := Step(s, a);
      if s' != s {
        MoveStraight(s, p, move, a);
        if move.note.Some? {
          NotedStraight(s, p, move);
        }
      }
    }
  }

  lemma NotedStraight(s: Gate, p: Pid, move: Move)
    requires StraightOk(s) && p < |s.callers| && move.note.Some? && move.note.value.p == p
    requires move.note.value.Prompted? ==> MayPrompt(s.callers[p])
    requires MayPrompt(move.pc) ==> move.note.value == Entered(p)
    ensures StraightOk(Apply(s, p, move))
  {
    var s' := Apply(s, p, move);
    var e := move.note.value;
    forall j | 0 <= j < |s'.log| && s'.log[j].Prompted?
      ensures Straight(s'.log, j, s'.log[j].p)
    {
      if j < |s.log| {
        assert s'.log[j] == s.log[j];
      }
      StraightLonger(s.log, e, j, s'.log[j].p);
    }
    forall q | 0 <= q < |s'.callers| && MayPrompt(s'.callers[q])
      ensures Straight(s'.log, |s'.log|, q)
    {
      if q != p {
        StraightLonger(s.log, e, |s.log|, q);
      } else {
        assert CameStraight(s'.log, |s.log|, |s'.log|, p);
      }
    }
  }

  lemma {:induction false} StraightAlways(callers: nat, now: nat, record: Record, actions: seq<Action>)
    ensures StraightOk(Run(Start(callers, now, record), actions))
    decreases |actions|
  {
    if actions != [] {
      StraightAlways(callers, now, record, actions[..|actions| - 1]);
      StraightStep(Run(Start(callers, now, record), actions[..|actions| - 1]), actions[|actions| - 1]);
    }
  }

  /** Every prompt is shown by a caller that has not waited since it entered. */
  lemma WaitersNeverPrompt(callers: nat, now: nat, record: Record, actions: seq<Action>, j: nat) returns (i: nat)
    requires var log := Run(Start(callers, now, record), actions).log; j < |log| && log[j].Prompted?
    ensures var log := Run(Start(callers, now, record), actions).log; CameStraight(log, i, j, log[j].p)
  {
    StraightAlways(callers, now, record, actions);
    var log := Run(Start(callers, now, record), actions).log;
    assert Straight(log, j, log[j].p);
    i :| CameStraight(log, i, j, log[j].p);
  }
}
