/**
 The macOS `auto` policy of crates/avault-store/src/lib.rs: any number of concurrent callers over an optional key
 file and the Keychain, with every Keychain access failing as it pleases. Unlike the Linux policy it never makes a
 file, so its callers agree even while they run at once.
 */
module MacAutoPolicy {
  import opened Wrappers

  type Key = nat

  datatype ErrorClass = NotFound | Duplicate | Unavailable | Other

  datatype Pc =
    | Idle
    | Looking(create: bool)                  // about to look for the key file
    | Reading(create: bool)
    | Adding
    | Rereading
    | Migrating(fileKey: Key)                // has read the key file
    | MigrateAdding(fileKey: Key)
    | MigrateRereading(fileKey: Key)
    | Importing(key: Key, force: bool)
    | ImportAdding(key: Key)
    | Replacing(key: Key, fileToo: bool)     // forced: the Keychain first
    | ReplacingFile(key: Key)                // and then the file there was

  /** `answered`: the Keychain did answer the caller, with this key or by taking it. */
  datatype Event = Returned(key: Key, answered: bool) | Imported(key: Key)

  datatype Stores = Stores(file: Option<Key>, keychain: Option<Key>, callers: seq<Pc>, log: seq<Event>)

  /** What the environment decides: whether the file can be read, an access error, an error after an add, a fresh key. */
  datatype Env = Env(readable: bool, error: Option<ErrorClass>, late: Option<ErrorClass>, generated: Key)

  datatype Op = Load(create: bool) | Import(key: Key, force: bool)

  datatype Action = Begin(t: nat, op: Op) | Go(t: nat, env: Env) | Crash(t: nat)

  function Read(keychain: Option<Key>, env: Env): Result<Key, ErrorClass> {
    if env.error.Some? then Err(env.error.value) else if keychain.Some? then Ok(keychain.value) else Err(NotFound)
  }

  /** Adding an item: what the Keychain holds then, and the outcome. */
  function Add(keychain: Option<Key>, key: Key, env: Env): (Option<Key>, Option<ErrorClass>) {
    if env.error.Some? then (keychain, env.error)
    else if keychain.Some? then (keychain, Some(Duplicate))
    else (Some(key), env.late)
  }

  /** Where a caller goes, what the stores hold then, and its success if it has one. */
  datatype Move = Move(pc: Pc, file: Option<Key>, keychain: Option<Key>, note: Option<Event>)

  function Goes(pc: Pc, file: Option<Key>, keychain: Option<Key>): Move {
    Move(pc, file, keychain, None)
  }

  function Answer(r: Result<Key, ErrorClass>, answered: bool, file: Option<Key>, keychain: Option<Key>): Move {
    Move(Idle, file, keychain, if r.Ok? then Some(Returned(r.value, answered)) else None)
  }

  /** The file's key, unless the Keychain holds another. */
  function Agree(fileKey: Key, r: Result<Key, ErrorClass>): Result<Key, ErrorClass> {
    if r.Ok? && r.value != fileKey then Err(Other) else r
  }

  function LoadMove(file: Option<Key>, keychain: Option<Key>, pc: Pc, env: Env): Move
    requires pc.Looking? || pc.Reading? || pc.Adding? || pc.Rereading?
  {
    match pc
    case Looking(create) =>
      Goes(if file.None? then Reading(create) else if env.readable then Migrating(file.value) else Idle, file, keychain)
    case Reading(create) =>
      var read := Read(keychain, env);
      if read == Err(NotFound) && create then Goes(Adding, file, keychain) else Answer(read, true, file, keychain)
    case Adding =>
      var (after, error) := Add(keychain, env.generated, env);
      if error == Some(Duplicate) then Goes(Rereading, file, after)
      else Answer(if error.Some? then Err(error.value) else Ok(env.generated), true, file, after)
    case Rereading => Answer(Read(keychain, env), true, file, keychain)
  }

  function MigrateMove(file: Option<Key>, keychain: Option<Key>, pc: Pc, env: Env): Move
    requires pc.Migrating? || pc.MigrateAdding? || pc.MigrateRereading?
  {
    match pc
    case Migrating(fileKey) =>
      var read := Read(keychain, env);
      if read == Err(NotFound) then Goes(MigrateAdding(fileKey), file, keychain)
      else if read == Err(Unavailable) then Answer(Ok(fileKey), false, file, keychain)
      else Answer(Agree(fileKey, read), true, file, keychain)
    case MigrateAdding(fileKey) =>
      var (after, error) := Add(keychain, fileKey, env);
      if error == Some(Duplicate) then Goes(MigrateRereading(fileKey), file, after)
      else if error == Some(Unavailable) then Answer(Ok(fileKey), false, file, after)
      else Answer(if error.Some? then Err(error.value) else Ok(fileKey), true, file, after)
    case MigrateRereading(fileKey) => Answer(Agree(fileKey, Read(keychain, env)), true, file, keychain)
  }

  function ImportMove(file: Option<Key>, keychain: Option<Key>, pc: Pc, env: Env): Move
    requires pc.Importing? || pc.ImportAdding? || pc.Replacing? || pc.ReplacingFile?
  {
    match pc
    case Importing(key, force) =>
      Goes(if force then Replacing(key, file.Some?) else if file.Some? then Idle else ImportAdding(key), file, keychain)
    case ImportAdding(key) =>
      var (after, error) := Add(keychain, key, env);
      Move(Idle, file, after, if error.None? then Some(Imported(key)) else None)
    case Replacing(key, fileToo) =>
      if env.error.Some? then Goes(Idle, file, keychain)
      else if env.late.Some? then Goes(Idle, file, Some(key))
      else if fileToo then Goes(ReplacingFile(key), file, Some(key))
      else Move(Idle, file, Some(key), Some(Imported(key)))
    case ReplacingFile(key) =>
      if env.error.Some? then Goes(Idle, file, keychain)
      else Move(Idle, Some(key), keychain, if env.late.None? then Some(Imported(key)) else None)
  }

  function MoveOf(file: Option<Key>, keychain: Option<Key>, pc: Pc, env: Env): Move {
    if pc.Idle? then Goes(Idle, file, keychain)
    else if pc.Importing? || pc.ImportAdding? || pc.Replacing? || pc.ReplacingFile? then ImportMove(file, keychain, pc, env)
    else if pc.Migrating? || pc.MigrateAdding? || pc.MigrateRereading? then MigrateMove(file, keychain, pc, env)
    else LoadMove(file, keychain, pc, env)
  }

  function FirstPc(op: Op): Pc {
    match op
    case Load(create) => Looking(create)
    case Import(key, force) => Importing(key, force)
  }

  function Step(s: Stores, a: Action): Stores {
    if a.t >= |s.callers| then s else
    match a
    case Begin(t, op) => if s.callers[t].Idle? then s.(callers := s.callers[t := FirstPc(op)]) else s
    case Go(t, env) =>
      var move := MoveOf(s.file, s.keychain, s.callers[t], env);
      s.(file := move.file, keychain := move.keychain, callers := s.callers[t := move.pc],
         log := if move.note.Some? then s.log + [move.note.value] else s.log)
    case Crash(t) => s.(callers := s.callers[t := Idle])
  }

  function Start(file: Option<Key>, keychain: Option<Key>, callers: nat): Stores {
    Stores(file, keychain, seq(callers, i => Idle), [])
  }

  function Run(s: Stores, actions: seq<Action>): Stores
    decreases |actions|
  {
    if actions == [] then s else Step(Run(s, actions[..|actions| - 1]), actions[|actions| - 1])
  }

  // ----- agreement

  /** The key the policy stands by: the file's if there is a file, else the Keychain's. */
  function Chosen(file: Option<Key>, keychain: Option<Key>): Option<Key> {
    if file.Some? then file else keychain
  }

  /** A caller that migrates has read the file, one that adds to the Keychain has found none, and none replaces. */
  predicate PcFits(file: Option<Key>, pc: Pc) {
    && (pc.Migrating? || pc.MigrateAdding? || pc.MigrateRereading? ==> file == Some(pc.fileKey))
    && (pc.Reading? || pc.Adding? || pc.Rereading? || pc.ImportAdding? ==> file.None?)
    && !pc.Replacing? && !pc.ReplacingFile? && (pc.Importing? ==> !pc.force)
  }

  predicate Unforced(a: Action) {
    a.Begin? && a.op.Import? ==> !a.op.force
  }

  ghost predicate Agreed(s: Stores) {
    && (forall t | 0 <= t < |s.callers| :: PcFits(s.file, s.callers[t]))
    && (forall i | 0 <= i < |s.log| :: Chosen(s.file, s.keychain) == Some(s.log[i].key))
  }

  lemma MoveFits(file: Option<Key>, keychain: Option<Key>, pc: Pc, env: Env)
    requires PcFits(file, pc)
    ensures var move := MoveOf(file, keychain, pc, env);
            && PcFits(file, move.pc) && move.file == file
            && (keychain.Some? ==> move.keychain == keychain)
            && (move.note.Some? ==> Chosen(file, move.keychain) == Some(move.note.value.key))
  {
  }

  lemma AgreedStep(s: Stores, a: Action)
    requires Agreed(s) && Unforced(a)
    ensures var s' := Step(s, a); Agreed(s') && s'.file == s.file && (s.keychain.Some? ==> s'.keychain == s.keychain)
  {
    hide MoveOf;
    if a.Go? && a.t < |s.callers| {
      MoveFits(s.file, s.keychain, s.callers[a.t], a.env);
    }
  }

  lemma {:induction false} AgreedAlways(file: Option<Key>, keychain: Option<Key>, callers: nat, actions: seq<Action>)
    requires forall k | 0 <= k < |actions| :: Unforced(actions[k])
    ensures var s := Run(Start(file, keychain, callers), actions);
            Agreed(s) && s.file == file && (keychain.Some? ==> s.keychain == keychain)
    decreases |actions|
  {
    if actions != [] {
      var before := actions[..|actions| - 1];
      AgreedAlways(file, keychain, callers, before);
      AgreedStep(Run(Start(file, keychain, callers), before), actions[|actions| - 1]);
    }
  }

  /**
   In every interleaving of loads, creating loads and unforced imports, whatever fails and whoever crashes: all
   successes are about one key, the file's if there is a file; no file is ever made, and a key in the Keychain is
   never replaced. A Keychain error selects no other backend and creates no replacement key.
   */
  lemma {:induction false} AllAgree(file: Option<Key>, keychain: Option<Key>, callers: nat, actions: seq<Action>, i: nat, j: nat)
    requires forall k | 0 <= k < |actions| :: Unforced(actions[k])
    requires var log := Run(Start(file, keychain, callers), actions).log; i < |log| && j < |log|
    ensures var s := Run(Start(file, keychain, callers), actions);
            && s.log[i].key == s.log[j].key && (file.Some? ==> s.log[i].key == file.value)
            && s.file == file && (keychain.Some? ==> s.keychain == keychain)
  {
    AgreedAlways(file, keychain, callers, actions);
  }

  // ----- exactly when the stores come to differ

  predicate Differ(s: Stores) {
    s.file.Some? && s.keychain.Some? && s.file != s.keychain
  }

  /** What every caller knows of the stores, forced imports included: whether there is a file never changes. */
  predicate Knows(file: Option<Key>, keychain: Option<Key>, pc: Pc) {
    && (pc.Reading? || pc.Adding? || pc.Rereading? || pc.ImportAdding? ==> file.None?)
    && (pc.Migrating? || pc.MigrateAdding? || pc.MigrateRereading? ==>
          file.Some? && (keychain.None? ==> file == Some(pc.fileKey)))
    && (pc.Replacing? ==> (pc.fileToo <==> file.Some?))
    && (pc.ReplacingFile? ==> file.Some? && keychain.Some?)
  }

  ghost predicate AllKnow(s: Stores) {
    forall t | 0 <= t < |s.callers| :: Knows(s.file, s.keychain, s.callers[t])
  }

  /** A forced import writes its key into one store while the other holds another key. */
  predicate Splits(s: Stores, a: Action) {
    && a.Go? && a.t < |s.callers| && a.env.error.None?
    && var pc := s.callers[a.t];
       || (pc.Replacing? && s.file.Some? && s.file != Some(pc.key))
       || (pc.ReplacingFile? && s.keychain != Some(pc.key))
  }

  /** A forced import writes into one store the key that the other holds. */
  predicate Joins(s: Stores, a: Action) {
    && a.Go? && a.t < |s.callers| && a.env.error.None?
    && var pc := s.callers[a.t];
       || (pc.Replacing? && s.file == Some(pc.key))
       || (pc.ReplacingFile? && s.keychain == Some(pc.key))
  }

  /** A move keeps what its caller knows and what any other does. */
  lemma KnowsMove(file: Option<Key>, keychain: Option<Key>, pc: Pc, env: Env, other: Pc)
    requires Knows(file, keychain, pc) && Knows(file, keychain, other)
    ensures var move := MoveOf(file, keychain, pc, env); Knows(move.file, move.keychain, move.pc) && Knows(move.file, move.keychain, other)
  {
  }

  lemma KnowsStep(s: Stores, a: Action)
    requires AllKnow(s)
    ensures AllKnow(Step(s, a))
  {
    hide MoveOf, Knows;
    var s' := Step(s, a);
    if a.t < |s.callers| {
      FirstKnows(s, a);
      forall u | 0 <= u < |s'.callers| ensures Knows(s'.file, s'.keychain, s'.callers[u]) {
        if a.Go? {
          KnowsMove(s.file, s.keychain, s.callers[a.t], a.env, s.callers[u]);
        }
      }
    }
  }

  lemma FirstKnows(s: Stores, a: Action)
    ensures Knows(s.file, s.keychain, Idle) && (a.Begin? ==> Knows(s.file, s.keychain, FirstPc(a.op)))
  {
  }

  lemma {:induction false} KnowsAlways(file: Option<Key>, keychain: Option<Key>, callers: nat, actions: seq<Action>)
    ensures AllKnow(Run(Start(file, keychain, callers), actions))
    decreases |actions|
  {
    hide Step;
    if actions != [] {
      KnowsAlways(file, keychain, callers, actions[..|actions| - 1]);
      KnowsStep(Run(Start(file, keychain, callers), actions[..|actions| - 1]), actions[|actions| - 1]);
    }
  }

  /** One action makes stores that agree differ, and stores that differ agree, exactly so. */
  lemma DiffersExactly(s: Stores, a: Action)
    requires AllKnow(s)
    ensures Differ(Step(s, a)) <==> if Differ(s) then !Joins(s, a) else Splits(s, a)
  {
    if a.Go? && a.t < |s.callers| {
      assert Knows(s.file, s.keychain, s.callers[a.t]);
    }
  }

  ghost predicate SplitsAt(start: Stores, actions: seq<Action>, n: nat) {
    n < |actions| && Splits(Run(start, actions[..n]), actions[n])
  }

  lemma RunOneMore(s: Stores, actions: seq<Action>, n: nat)
    requires n < |actions|
    ensures Run(s, actions[..n + 1]) == Step(Run(s, actions[..n]), actions[n])
  {
    assert actions[..n + 1][..n] == actions[..n];
  }

  lemma {:induction false} FirstSplit(file: Option<Key>, keychain: Option<Key>, callers: nat, actions: seq<Action>, n: nat)
    requires var start := Start(file, keychain, callers); !Differ(start) && n <= |actions| && Differ(Run(start, actions[..n]))
    ensures exists m | 0 <= m < n :: SplitsAt(Start(file, keychain, callers), actions, m)
    decreases n
  {
    hide Step, Splits, Joins, Differ;
    var start := Start(file, keychain, callers);
    assert actions[..0] == [];
    if n > 0 && Differ(Run(start, actions[..n - 1])) {
      FirstSplit(file, keychain, callers, actions, n - 1);
    } else {
      assert n > 0;
      KnowsAlways(file, keychain, callers, actions[..n - 1]);
      RunOneMore(start, actions, n - 1);
      DiffersExactly(Run(start, actions[..n - 1]), actions[n - 1]);
      assert SplitsAt(start, actions, n - 1);
    }
  }

  /** In every interleaving, forced imports and crashes included, the stores differ at some point exactly if some action splits them. */
  lemma {:induction false} RunDiffersExactly(file: Option<Key>, keychain: Option<Key>, callers: nat, actions: seq<Action>)
    requires !Differ(Start(file, keychain, callers))
    ensures (exists n | 0 <= n <= |actions| :: Differ(Run(Start(file, keychain, callers), actions[..n]))) <==>
            (exists n | 0 <= n < |actions| :: SplitsAt(Start(file, keychain, callers), actions, n))
  {
    hide Step, Splits, Joins, Differ;
    var start := Start(file, keychain, callers);
    if n :| 0 <= n < |actions| && SplitsAt(start, actions, n) {
      if !Differ(Run(start, actions[..n])) {
        KnowsAlways(file, keychain, callers, actions[..n]);
        DiffersExactly(Run(start, actions[..n]), actions[n]);
        RunOneMore(start, actions, n);
      }
    }
    if n :| 0 <= n <= |actions| && Differ(Run(start, actions[..n])) {
      FirstSplit(file, keychain, callers, actions, n);
    }
  }

  /** In particular they never come to differ without a forced import. */
  lemma {:induction false} UnforcedNeverDiffers(file: Option<Key>, keychain: Option<Key>, callers: nat, actions: seq<Action>)
    requires !Differ(Start(file, keychain, callers)) && forall k | 0 <= k < |actions| :: Unforced(actions[k])
    ensures !Differ(Run(Start(file, keychain, callers), actions))
    decreases |actions|
  {
    hide Step, Differ;
    if actions != [] {
      var before := actions[..|actions| - 1];
      var s := Run(Start(file, keychain, callers), before);
      var last := actions[|actions| - 1];
      UnforcedNeverDiffers(file, keychain, callers, before);
      KnowsAlways(file, keychain, callers, before);
      AgreedAlways(file, keychain, callers, before);
      DiffersExactly(s, last);
      assert last.t < |s.callers| ==> PcFits(s.file, s.callers[last.t]);
    }
  }

  // ----- ways to end up with different keys

  lemma OverlapBegins(file: Key, keychain: Option<Key>, k1: Key, k2: Key)
    ensures Step(Step(Start(Some(file), keychain, 2), Begin(0, Import(k1, true))), Begin(1, Import(k2, true))) ==
            Stores(Some(file), keychain, [Importing(k1, true), Importing(k2, true)], [])
  {
    var s := Start(Some(file), keychain, 2);
    assert s == Stores(Some(file), keychain, [Idle, Idle], []);
    assert Step(s, Begin(0, Import(k1, true))) == s.(callers := [Importing(k1, true), Idle]);
  }

  lemma OverlapWrites(file: Key, keychain: Option<Key>, k1: Key, k2: Key, env: Env)
    requires env.error.None? && env.late.None?
    ensures var s := Stores(Some(file), keychain, [Importing(k1, true), Importing(k2, true)], []);
            Step(Step(Step(Step(Step(Step(s, Go(0, env)), Go(1, env)), Go(0, env)), Go(1, env)), Go(1, env)), Go(0, env)) ==
            Stores(Some(k1), Some(k2), [Idle, Idle], [Imported(k2), Imported(k1)])
  {
    var s := Stores(Some(file), keychain, [Importing(k1, true), Importing(k2, true)], []);
    var s1 := Step(s, Go(0, env));
    assert s1 == s.(callers := [Replacing(k1, true), Importing(k2, true)]);
    var s2 := Step(s1, Go(1, env));
    assert s2 == s.(callers := [Replacing(k1, true), Replacing(k2, true)]);
    var s3 := Step(s2, Go(0, env));
    assert s3 == Stores(Some(file), Some(k1), [ReplacingFile(k1), Replacing(k2, true)], []);
    var s4 := Step(s3, Go(1, env));
    assert s4 == Stores(Some(file), Some(k2), [ReplacingFile(k1), ReplacingFile(k2)], []);
    var s5 := Step(s4, Go(1, env));
    assert s5 == Stores(Some(k2), Some(k2), [ReplacingFile(k1), Idle], [Imported(k2)]);
    var s6 := Step(s5, Go(0, env));
    assert s6 == Stores(Some(k1), Some(k2), [Idle, Idle], [Imported(k2)] + [Imported(k1)]);
  }

  /**
   Two forced imports that overlap can both succeed, with no failure and no crash, and leave different keys: the
   Keychain gets the first key and then the second, the file the other way round.
   */
  lemma OverlapLeavesTwoKeys(file: Key, keychain: Option<Key>, k1: Key, k2: Key, env: Env) returns (actions: seq<Action>)
    requires k1 != k2 && env.error.None? && env.late.None?
    ensures var s := Run(Start(Some(file), keychain, 2), actions);
            s == Stores(Some(k1), Some(k2), [Idle, Idle], [Imported(k2), Imported(k1)]) && Differ(s)
  {
    hide Step;
    var start := Start(Some(file), keychain, 2);
    actions := [Begin(0, Import(k1, true)), Begin(1, Import(k2, true)), Go(0, env), Go(1, env), Go(0, env), Go(1, env), Go(1, env), Go(0, env)];
    EightSteps(start, actions);
    OverlapBegins(file, keychain, k1, k2);
    OverlapWrites(file, keychain, k1, k2, env);
  }

  lemma EightSteps(s: Stores, a: seq<Action>)
    requires |a| == 8
    ensures Run(s, a) == Step(Step(Step(Step(Step(Step(Step(Step(s, a[0]), a[1]), a[2]), a[3]), a[4]), a[5]), a[6]), a[7])
  {
    hide Step;
    assert a[..0] == [] && a[..8] == a;
    RunOneMore(s, a, 0);
    RunOneMore(s, a, 1);
    RunOneMore(s, a, 2);
    RunOneMore(s, a, 3);
    RunOneMore(s, a, 4);
    RunOneMore(s, a, 5);
    RunOneMore(s, a, 6);
    RunOneMore(s, a, 7);
  }

  /** A forced import over a file, cut between its two writes, leaves the Keychain with the new key and the file with the old. */
  lemma CutImportLeavesTwoKeys(file: Key, keychain: Option<Key>, key: Key, env: Env)
    requires env.error.None? && env.late.None?
    ensures var s := Start(Some(file), keychain, 1);
            Step(Step(Step(Step(s, Begin(0, Import(key, true))), Go(0, env)), Go(0, env)), Crash(0)) == Start(Some(file), Some(key), 1)
  {
    var s := Start(Some(file), keychain, 1);
    var begun := Step(s, Begin(0, Import(key, true)));
    assert begun == s.(callers := [Importing(key, true)]);
    var looked := Step(begun, Go(0, env));
    assert looked == s.(callers := [Replacing(key, true)]);
    var replaced := Step(looked, Go(0, env));
    assert replaced == s.(keychain := Some(key), callers := [ReplacingFile(key)]);
  }

  /** Only callers the Keychain did not answer have succeeded, with the file's key. */
  ghost predicate OnlyUnanswered(s: Stores, file: Key, keychain: Key) {
    && s.file == Some(file) && s.keychain == Some(keychain)
    && (forall t | 0 <= t < |s.callers| :: PcFits(s.file, s.callers[t]))
    && (forall i | 0 <= i < |s.log| :: s.log[i] == Returned(file, false))
  }

  lemma NoAnsweredSuccess(file: Key, keychain: Key, pc: Pc, env: Env)
    requires file != keychain && PcFits(Some(file), pc)
    ensures var move := MoveOf(Some(file), Some(keychain), pc, env); move.note.Some? ==> move.note.value == Returned(file, false)
  {
  }

  /**
   From stores with different keys, in every interleaving without a forced import: no load that the Keychain
   answers succeeds, nothing is imported, and nothing is written. The policy does not choose between the keys; a
   caller for whom the Keychain is unavailable still goes by the file.
   */
  lemma {:induction false} DifferentKeysRefuse(file: Key, keychain: Key, callers: nat, actions: seq<Action>)
    requires file != keychain && forall k | 0 <= k < |actions| :: Unforced(actions[k])
    ensures OnlyUnanswered(Run(Start(Some(file), Some(keychain), callers), actions), file, keychain)
    decreases |actions|
  {
    hide MoveOf;
    if actions != [] {
      var before := actions[..|actions| - 1];
      var s := Run(Start(Some(file), Some(keychain), callers), before);
      var last := actions[|actions| - 1];
      DifferentKeysRefuse(file, keychain, callers, before);
      if last.Go? && last.t < |s.callers| {
        MoveFits(s.file, s.keychain, s.callers[last.t], last.env);
        NoAnsweredSuccess(file, keychain, s.callers[last.t], last.env);
      }
    }
  }
}
