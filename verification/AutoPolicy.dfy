/**
 The Linux `auto` policy of crates/avault-store/src/lib.rs, over a file store and a TPM store that are meant to
 hold one key; when exactly an operation leaves them with two is `DivergesExactly`. Operations are serialised; each
 access of each operation may fail for its own reasons, and an operation may be cut short after any of its writes.
 */
module AutoPolicy {
  import opened Wrappers

  type Key = nat

  datatype ErrorClass = NotFound | AlreadyExists | Unavailable | Other

  /** `is_tpm_unavailable` goes by message text, and that of an io "not found" matches too. */
  predicate IsTpmUnavailable(e: ErrorClass) {
    e.Unavailable? || e.NotFound?
  }

  datatype Disk = Disk(file: Option<Key>, tpm: Option<Key>)

  /** The environment's part in one operation: an error per access, and the keys generated. */
  datatype Env = Env(
    fileRead: bool, fileReread: bool, fileInstall: Option<ErrorClass>, fileLate: Option<ErrorClass>,
    tpmRead: Option<ErrorClass>, tpmReread: Option<ErrorClass>, tpmSeal: Option<ErrorClass>, tpmLate: Option<ErrorClass>,
    tpmKey: Key, fileKey: Key)

  /** What an operation does: the states of the disk it goes through, one write at a time, and its answer. */
  datatype Outcome<T> = Outcome(disks: seq<Disk>, result: Result<T, ErrorClass>)

  function Final<T>(o: Outcome<T>): Disk
    requires o.disks != []
  {
    o.disks[|o.disks| - 1]
  }

  // ----- the two stores

  function TpmGet(d: Disk, error: Option<ErrorClass>): Result<Key, ErrorClass> {
    if error.Some? then Err(error.value) else if d.tpm.Some? then Ok(d.tpm.value) else Err(NotFound)
  }

  function FileGet(d: Disk, readable: bool): Result<Key, ErrorClass> {
    if readable && d.file.Some? then Ok(d.file.value) else Err(Other)
  }

  /** `create_noclobber_with` and `create_force_with`. */
  function TpmCreate(d: Disk, key: Key, force: bool, env: Env): Outcome<()> {
    if env.tpmSeal.Some? then Outcome([d], Err(env.tpmSeal.value))
    else if !force && d.tpm.Some? then Outcome([d], Err(AlreadyExists))
    else Outcome([d, d.(tpm := Some(key))], if env.tpmLate.Some? then Err(env.tpmLate.value) else Ok(()))
  }

  function TpmImport(d: Disk, key: Key, force: bool, env: Env): Outcome<()> {
    if d.tpm.Some? && !force then Outcome([d], Err(Other)) else TpmCreate(d, key, force, env)
  }

  function TpmGetOrCreate(d: Disk, env: Env): Outcome<Key> {
    match TpmGet(d, env.tpmRead)
    case Ok(key) => Outcome([d], Ok(key))
    case Err(e) =>
      if !e.NotFound? then Outcome([d], Err(e))
      else
        var o := TpmCreate(d, env.tpmKey, false, env);
        match o.result
        case Ok(_) => Outcome(o.disks, Ok(env.tpmKey))
        case Err(e) => Outcome(o.disks, if e.AlreadyExists? then TpmGet(Final(o), env.tpmReread) else Err(e))
  }

  function FileImport(d: Disk, key: Key, force: bool, env: Env): Outcome<()> {
    if d.file.Some? && !force then Outcome([d], Err(Other))
    else if env.fileInstall.Some? then Outcome([d], Err(env.fileInstall.value))
    else Outcome([d, d.(file := Some(key))], if env.fileLate.Some? then Err(env.fileLate.value) else Ok(()))
  }

  function FileGetOrCreate(d: Disk, env: Env): Outcome<Key> {
    match FileGet(d, env.fileRead)
    case Ok(key) => Outcome([d], Ok(key))
    case Err(_) =>
      if env.fileInstall.Some? then Outcome([d], Err(env.fileInstall.value))
      else if d.file.Some? then Outcome([d], FileGet(d, env.fileReread))
      else
        var d' := d.(file := Some(env.fileKey));
        Outcome([d, d'], if env.fileLate.Some? then Err(env.fileLate.value) else FileGet(d', env.fileReread))
  }

  // ----- the policy

  function Agree(fileKey: Key, tpm: Result<Key, ErrorClass>): Result<Key, ErrorClass> {
    match tpm
    case Ok(key) => if key == fileKey then Ok(key) else Err(Other)
    case Err(e) => Err(e)
  }

  function Migrate(d: Disk, fileKey: Key, env: Env): Outcome<Key> {
    match TpmGet(d, env.tpmRead)
    case Ok(key) => Outcome([d], Agree(fileKey, Ok(key)))
    case Err(e) =>
      if e.NotFound? then
        var o := TpmCreate(d, fileKey, false, env);
        match o.result
        case Ok(_) => Outcome(o.disks, Ok(fileKey))
        case Err(e) =>
          if e.AlreadyExists? then Outcome(o.disks, Agree(fileKey, TpmGet(Final(o), env.tpmReread)))
          else if IsTpmUnavailable(e) then Outcome(o.disks, Ok(fileKey))
          else Outcome(o.disks, Err(e))
      else if IsTpmUnavailable(e) then Outcome([d], Ok(fileKey))
      else Outcome([d], Err(e))
  }

  function FromFile(d: Disk, env: Env): Outcome<Key> {
    match FileGet(d, env.fileRead)
    case Ok(fileKey) => Migrate(d, fileKey, env)
    case Err(e) => Outcome([d], Err(e))
  }

  function Load(d: Disk, env: Env): Outcome<Key> {
    if d.file.Some? then FromFile(d, env) else Outcome([d], TpmGet(d, env.tpmRead))
  }

  function LoadOrCreate(d: Disk, env: Env): Outcome<Key> {
    if d.file.Some? then FromFile(d, env)
    else if d.tpm.Some? then Outcome([d], TpmGet(d, env.tpmRead))
    else
      var o := TpmGetOrCreate(d, env);
      if o.result.Err? && IsTpmUnavailable(o.result.error) then
        var o' := FileGetOrCreate(Final(o), env);
        Outcome(o.disks + o'.disks[1..], o'.result)
      else o
  }

  function Import(d: Disk, key: Key, force: bool, env: Env): Outcome<()> {
    if d.file.Some? then
      if !force then Outcome([d], Err(Other))
      else
        var o := TpmImport(d, key, true, env);
        if o.result.Ok? || (IsTpmUnavailable(o.result.error) && Final(o).tpm.None?) then
          var o' := FileImport(Final(o), key, true, env);
          Outcome(o.disks + o'.disks[1..], o'.result)
        else o
    else
      var o := TpmImport(d, key, force, env);
      if o.result.Err? && IsTpmUnavailable(o.result.error) && Final(o).tpm.None? then
        var o' := FileImport(Final(o), key, force, env);
        Outcome(o.disks + o'.disks[1..], o'.result)
      else o
  }

  // ----- the same, in place

  /** From the last state of `before` on, `after` goes through the states of the outcome. */
  ghost predicate Wrote<T>(before: seq<Disk>, o: Outcome<T>, after: seq<Disk>) {
    before != [] && o.disks != [] && o.disks[0] == before[|before| - 1] && after == before + o.disks[1..]
  }

  lemma WroteBoth<T, U>(before: seq<Disk>, o: Outcome<T>, between: seq<Disk>, o': Outcome<U>, after: seq<Disk>)
    requires Wrote(before, o, between) && Wrote(between, o', after)
    ensures Wrote(before, Outcome(o.disks + o'.disks[1..], o'.result), after)
    ensures between[|between| - 1] == Final(o) && Final(Outcome(o.disks + o'.disks[1..], o'.result)) == Final(o')
  {
  }

  class MachineStores {
    var file: Option<Key>
    var tpm: Option<Key>
    /** The states the stores have been in, one more with each write; the last is the present one. */
    ghost var trace: seq<Disk>

    ghost predicate Valid()
      reads this
    {
      trace != [] && trace[|trace| - 1] == View()
    }

    constructor (d: Disk)
      ensures Valid() && View() == d && trace == [d]
    {
      file, tpm, trace := d.file, d.tpm, [d];
    }

    function View(): Disk
      reads this
    {
      Disk(file, tpm)
    }

    method CreateTpm(key: Key, force: bool, env: Env) returns (r: Result<(), ErrorClass>)
      requires Valid()
      modifies this
      ensures var o := TpmCreate(old(View()), key, force, env); r == o.result && Valid() && View() == Final(o) && Wrote(old(trace), o, trace)
    {
      if env.tpmSeal.Some? {
        return Err(env.tpmSeal.value);
      }
      if !force && tpm.Some? {
        return Err(AlreadyExists);
      }
      tpm := Some(key);
      trace := trace + [View()];
      r := if env.tpmLate.Some? then Err(env.tpmLate.value) else Ok(());
    }

    method ImportTpm(key: Key, force: bool, env: Env) returns (r: Result<(), ErrorClass>)
      requires Valid()
      modifies this
      ensures var o := TpmImport(old(View()), key, force, env); r == o.result && Valid() && View() == Final(o) && Wrote(old(trace), o, trace)
    {
      if tpm.Some? && !force {
        return Err(Other);
      }
      r := CreateTpm(key, force, env);
    }

    method ImportFile(key: Key, force: bool, env: Env) returns (r: Result<(), ErrorClass>)
      requires Valid()
      modifies this
      ensures var o := FileImport(old(View()), key, force, env); r == o.result && Valid() && View() == Final(o) && Wrote(old(trace), o, trace)
    {
      if file.Some? && !force {
        return Err(Other);
      }
      if env.fileInstall.Some? {
        return Err(env.fileInstall.value);
      }
      file := Some(key);
      trace := trace + [View()];
      r := if env.fileLate.Some? then Err(env.fileLate.value) else Ok(());
    }

    method GetOrCreateTpm(env: Env) returns (r: Result<Key, ErrorClass>)
      requires Valid()
      modifies this
      ensures var o := TpmGetOrCreate(old(View()), env); r == o.result && Valid() && View() == Final(o) && Wrote(old(trace), o, trace)
    {
      r := TpmGet(View(), env.tpmRead);
      if r.Ok? || !r.error.NotFound? {
        return;
      }
      var created := CreateTpm(env.tpmKey, false, env);
      match created {
        case Ok(_) => r := Ok(env.tpmKey);
        case Err(e) => r := if e.AlreadyExists? then TpmGet(View(), env.tpmReread) else Err(e);
      }
    }

    method GetOrCreateFile(env: Env) returns (r: Result<Key, ErrorClass>)
      requires Valid()
      modifies this
      ensures var o := FileGetOrCreate(old(View()), env); r == o.result && Valid() && View() == Final(o) && Wrote(old(trace), o, trace)
    {
      r := FileGet(View(), env.fileRead);
      if r.Ok? {
        return;
      }
      if env.fileInstall.Some? {
        return Err(env.fileInstall.value);
      }
      if file.None? {
        file := Some(env.fileKey);
        trace := trace + [View()];
        if env.fileLate.Some? {
          return Err(env.fileLate.value);
        }
      }
      r := FileGet(View(), env.fileReread);
    }

    method MigrateFileKey(fileKey: Key, env: Env) returns (r: Result<Key, ErrorClass>)
      requires Valid()
      modifies this
      ensures var o := Migrate(old(View()), fileKey, env); r == o.result && Valid() && View() == Final(o) && Wrote(old(trace), o, trace)
    {
      var read := TpmGet(View(), env.tpmRead);
      if read.Ok? {
        return if read.value == fileKey then Ok(fileKey) else Err(Other);
      }
      if !read.error.NotFound? {
        return if IsTpmUnavailable(read.error) then Ok(fileKey) else Err(read.error);
      }
      var created := CreateTpm(fileKey, false, env);
      if created.Ok? {
        return Ok(fileKey);
      }
      if created.error.AlreadyExists? {
        return Agree(fileKey, TpmGet(View(), env.tpmReread));
      }
      return if IsTpmUnavailable(created.error) then Ok(fileKey) else Err(created.error);
    }

    method LoadKey(env: Env) returns (r: Result<Key, ErrorClass>)
      requires Valid()
      modifies this
      ensures var o := Load(old(View()), env); r == o.result && Valid() && View() == Final(o) && Wrote(old(trace), o, trace)
    {
      if file.Some? {
        r := FileGet(View(), env.fileRead);
        if r.Ok? {
          r := MigrateFileKey(r.value, env);
        }
        return;
      }
      r := TpmGet(View(), env.tpmRead);
    }

    method LoadOrCreateKey(env: Env) returns (r: Result<Key, ErrorClass>)
      requires Valid()
      modifies this
      ensures var o := LoadOrCreate(old(View()), env); r == o.result && Valid() && View() == Final(o) && Wrote(old(trace), o, trace)
    {
      hide TpmGetOrCreate, FileGetOrCreate, Migrate;
      if file.Some? {
        r := FileGet(View(), env.fileRead);
        if r.Ok? {
          r := MigrateFileKey(r.value, env);
        }
        return;
      }
      if tpm.Some? {
        r := TpmGet(View(), env.tpmRead);
        return;
      }
      r := GetOrCreateTpm(env);
      if r.Err? && IsTpmUnavailable(r.error) {
        ghost var d, between := View(), trace;
        r := GetOrCreateFile(env);
        WroteBoth(old(trace), TpmGetOrCreate(old(View()), env), between, FileGetOrCreate(d, env), trace);
      }
    }

    method ImportKey(key: Key, force: bool, env: Env) returns (r: Result<(), ErrorClass>)
      requires Valid()
      modifies this
      ensures var o := Import(old(View()), key, force, env); r == o.result && Valid() && View() == Final(o) && Wrote(old(trace), o, trace)
    {
      hide TpmImport, FileImport;
      if file.Some? {
        if !force {
          return Err(Other);
        }
        r := ImportTpm(key, true, env);
        if r.Ok? || (IsTpmUnavailable(r.error) && tpm.None?) {
          ghost var d, between := View(), trace;
          r := ImportFile(key, true, env);
          WroteBoth(old(trace), TpmImport(old(View()), key, true, env), between, FileImport(d, key, true, env), trace);
        }
        return;
      }
      r := ImportTpm(key, force, env);
      if r.Err? && IsTpmUnavailable(r.error) && tpm.None? {
        ghost var d, between := View(), trace;
        r := ImportFile(key, force, env);
        WroteBoth(old(trace), TpmImport(old(View()), key, force, env), between, FileImport(d, key, force, env), trace);
      }
    }
  }

  // ----- what single operations guarantee

  /** The key the policy stands by: the file's if there is a file, else the TPM's. */
  function Chosen(d: Disk): Option<Key> {
    if d.file.Some? then d.file else d.tpm
  }

  lemma MigrateKeepsFile(d: Disk, fileKey: Key, env: Env)
    requires d.file == Some(fileKey)
    ensures var o := Migrate(d, fileKey, env);
            && o.disks != [] && o.disks[0] == d
            && (forall k | 0 <= k < |o.disks| :: o.disks[k].file == d.file)
            && (o.result.Ok? ==> o.result.value == fileKey)
  {
  }

  /**
   Of any load, creating or not: it returns the chosen key of the state it leaves, or fails; and once a key is
   chosen no write of a load changes or loses it.
   */
  ghost predicate KeepsChosen(d: Disk, o: Outcome<Key>) {
    && o.disks != [] && o.disks[0] == d
    && (o.result.Ok? ==> Chosen(Final(o)) == Some(o.result.value))
    && (Chosen(d).Some? ==> forall k | 0 <= k < |o.disks| :: Chosen(o.disks[k]) == Chosen(d) && o.disks[k].file == d.file)
  }

  lemma LoadKeepsChosen(d: Disk, env: Env)
    ensures KeepsChosen(d, Load(d, env))
  {
    if d.file.Some? {
      MigrateKeepsFile(d, d.file.value, env);
    }
  }

  lemma LoadOrCreateKeepsChosen(d: Disk, env: Env)
    ensures KeepsChosen(d, LoadOrCreate(d, env))
  {
    if d.file.Some? {
      MigrateKeepsFile(d, d.file.value, env);
    }
  }

  /** With a file present a successful load returns the file's key, whatever the TPM holds. */
  lemma FileKeyAuthoritative(d: Disk, env: Env, create: bool)
    requires d.file.Some?
    ensures var o := if create then LoadOrCreate(d, env) else Load(d, env);
            o.result.Ok? ==> o.result.value == d.file.value
  {
  }

  /** An unforced import changes nothing unless both stores are empty, and then succeeds only by storing its key. */
  lemma UnforcedImportKeepsKeys(d: Disk, key: Key, env: Env)
    ensures var o := Import(d, key, false, env);
            && (Chosen(d).Some? ==> o.disks == [d] && o.result.Err?)
            && (o.result.Ok? ==> Chosen(Final(o)) == Some(key))
  {
  }

  /** A successful forced import leaves its key as the chosen one, and no other key in the TPM. */
  lemma ForcedImportInstalls(d: Disk, key: Key, env: Env)
    ensures var o := Import(d, key, true, env);
            o.result.Ok? ==>
              && Chosen(Final(o)) == Some(key)
              && (d.file.Some? ==> Final(o).tpm == Some(key) || Final(o).tpm == None)
  {
  }

  // ----- runs

  datatype Op = OpLoad | OpLoadOrCreate | OpImport(key: Key, force: bool)

  /** An operation that runs to its end, or that is cut short after `writes` of its writes. */
  datatype Action = Complete(op: Op, env: Env) | CutShort(op: Op, env: Env, writes: nat)

  datatype State = State(disk: Disk, returned: seq<Key>)

  function Loaded(o: Outcome<Key>, s: State): State
    requires o.disks != []
  {
    State(Final(o), if o.result.Ok? then s.returned + [o.result.value] else s.returned)
  }

  function Cut<T>(o: Outcome<T>, s: State, writes: nat): State {
    if writes < |o.disks| then s.(disk := o.disks[writes]) else s
  }

  function Step(s: State, a: Action): State {
    match a
    case Complete(OpLoad, env) => Loaded(Load(s.disk, env), s)
    case Complete(OpLoadOrCreate, env) => Loaded(LoadOrCreate(s.disk, env), s)
    case Complete(OpImport(key, force), env) => s.(disk := Final(Import(s.disk, key, force, env)))
    case CutShort(OpLoad, env, writes) => Cut(Load(s.disk, env), s, writes)
    case CutShort(OpLoadOrCreate, env, writes) => Cut(LoadOrCreate(s.disk, env), s, writes)
    case CutShort(OpImport(key, force), env, writes) => Cut(Import(s.disk, key, force, env), s, writes)
  }

  function Run(d: Disk, actions: seq<Action>): State
    decreases |actions|
  {
    if actions == [] then State(d, []) else Step(Run(d, actions[..|actions| - 1]), actions[|actions| - 1])
  }

  predicate Unforced(a: Action) {
    a.op.OpImport? ==> !a.op.force
  }

  ghost predicate AllReturned(s: State) {
    forall i | 0 <= i < |s.returned| :: Chosen(s.disk) == Some(s.returned[i])
  }

  lemma {:induction false} UnforcedStep(s: State, a: Action)
    requires AllReturned(s) && Unforced(a)
    ensures AllReturned(Step(s, a)) && (Chosen(s.disk).Some? ==> Chosen(Step(s, a).disk) == Chosen(s.disk))
  {
    LoadKeepsChosen(s.disk, a.env);
    LoadOrCreateKeepsChosen(s.disk, a.env);
    if a.op.OpImport? {
      UnforcedImportKeepsKeys(s.disk, a.op.key, a.env);
    }
  }

  lemma {:induction false} ReturnedAlways(d: Disk, actions: seq<Action>)
    requires forall i | 0 <= i < |actions| :: Unforced(actions[i])
    ensures AllReturned(Run(d, actions))
    decreases |actions|
  {
    if actions != [] {
      ReturnedAlways(d, actions[..|actions| - 1]);
      UnforcedStep(Run(d, actions[..|actions| - 1]), actions[|actions| - 1]);
    }
  }

  /**
   From any disk, over any run of loads, creating loads and unforced imports, with every TPM and file access
   failing or not as it pleases and any operation cut short: all successful loads return one key.
   */
  lemma OneKeyPerRun(d: Disk, actions: seq<Action>, i: nat, j: nat)
    requires forall k | 0 <= k < |actions| :: Unforced(actions[k])
    requires i < |Run(d, actions).returned| && j < |Run(d, actions).returned|
    ensures Run(d, actions).returned[i] == Run(d, actions).returned[j]
  {
    ReturnedAlways(d, actions);
  }

  // ----- a forced import cut short

  predicate Diverged(d: Disk) {
    d.file.Some? && d.tpm.Some? && d.file != d.tpm
  }

  /** A forced import over a file, cut between its two writes, leaves the TPM with the new key and the file with the old. */
  lemma CutImportDiverges(d: Disk, key: Key, env: Env)
    requires d.file.Some? && d.file != Some(key) && |Import(d, key, true, env).disks| == 3
    ensures Import(d, key, true, env).disks[1] == Disk(d.file, Some(key)) && Diverged(Import(d, key, true, env).disks[1])
    ensures Import(d, key, true, env).disks[2] == Disk(Some(key), Some(key))
  {
  }

  /**
   From diverged stores every load that can read the TPM refuses; one that cannot, and reads the file, still
   goes by the file. Neither loads nor unforced imports resolve it or write anything.
   */
  lemma DivergedRefuses(d: Disk, env: Env, create: bool, key: Key)
    requires Diverged(d)
    ensures var o := if create then LoadOrCreate(d, env) else Load(d, env);
            && o.disks == [d]
            && (env.tpmRead.None? ==> o.result.Err?)
            && (env.tpmRead == Some(Unavailable) && env.fileRead ==> o.result == Ok(d.file.value))
    ensures Import(d, key, false, env).disks == [d]
  {
  }

  /** The refusal lasts over any run without a forced import: no load that can read the TPM succeeds. */
  lemma {:induction false} DivergedStays(d: Disk, actions: seq<Action>)
    requires Diverged(d) && forall i | 0 <= i < |actions| :: Unforced(actions[i])
    ensures Run(d, actions).disk == d
    ensures (forall i | 0 <= i < |actions| :: actions[i].env.tpmRead.None?) ==> Run(d, actions).returned == []
    decreases |actions|
  {
    if actions != [] {
      var last := actions[|actions| - 1];
      DivergedStays(d, actions[..|actions| - 1]);
      DivergedRefuses(d, last.env, true, if last.op.OpImport? then last.op.key else 0);
      DivergedRefuses(d, last.env, false, 0);
    }
  }

  // ----- exactly when the stores come to differ

  /** The answer of a creating TPM access that did install its key, when the installation's late error is `late`. */
  function LateAnswer(env: Env): Option<ErrorClass> {
    if env.tpmLate == Some(AlreadyExists) then env.tpmReread else env.tpmLate
  }

  /**
   A creating load that finds both stores empty seals a key in the TPM, takes a later failure for a missing TPM,
   and installs another key in a file.
   */
  predicate SplitsCreating(d: Disk, a: Action) {
    && a.op.OpLoadOrCreate? && d == Disk(None, None)
    && (a.env.tpmRead.None? || a.env.tpmRead.value.NotFound?) && a.env.tpmSeal.None?
    && LateAnswer(a.env).Some? && IsTpmUnavailable(LateAnswer(a.env).value)
    && a.env.fileInstall.None? && a.env.fileKey != a.env.tpmKey
    && (a.CutShort? ==> a.writes == 2)
  }

  /** A forced import over a file of another key changes the TPM, and is cut or fails before it changes the file. */
  predicate SplitsImporting(d: Disk, a: Action) {
    && a.op.OpImport? && a.op.force && d.file.Some? && d.file != Some(a.op.key) && a.env.tpmSeal.None?
    && (if a.CutShort? then a.writes == 1 else a.env.tpmLate.Some? || a.env.fileInstall.Some?)
  }

  /** What a forced import over a file goes through. */
  lemma ForcedOverFile(d: Disk, key: Key, env: Env)
    requires d.file.Some?
    ensures var o, both := Import(d, key, true, env), Disk(Some(key), Some(key));
            && (env.tpmSeal.None? && env.tpmLate.None? && env.fileInstall.None? ==> o.disks == [d, Disk(d.file, Some(key)), both])
            && (env.tpmSeal.None? && (env.tpmLate.Some? || env.fileInstall.Some?) ==> o.disks == [d, Disk(d.file, Some(key))])
            && (env.tpmSeal.Some? ==> o.disks == [d] || (d.tpm.None? && o.disks == [d, Disk(Some(key), None)]))
  {
  }

  lemma OtherImportsKeepTogether(d: Disk, key: Key, force: bool, env: Env)
    requires !Diverged(d) && !(force && d.file.Some?)
    ensures var o := Import(d, key, force, env); o.disks != [] && forall k | 0 <= k < |o.disks| :: !Diverged(o.disks[k])
  {
  }

  lemma ImportDivergesExactly(s: State, a: Action)
    requires !Diverged(s.disk) && a.op.OpImport?
    ensures Diverged(Step(s, a).disk) <==> SplitsImporting(s.disk, a)
  {
    hide Import;
    if a.op.force && s.disk.file.Some? {
      ForcedOverFile(s.disk, a.op.key, a.env);
    } else {
      OtherImportsKeepTogether(s.disk, a.op.key, a.op.force, a.env);
    }
  }

  /** What a creating load over empty stores goes through. */
  lemma CreatesOverNothing(env: Env)
    ensures var o, installs := LoadOrCreate(Disk(None, None), env), (env.tpmRead.None? || env.tpmRead.value.NotFound?) && env.tpmSeal.None?;
            var falls := LateAnswer(env).Some? && IsTpmUnavailable(LateAnswer(env).value) && env.fileInstall.None?;
            && (installs && falls ==>
                  o.disks == [Disk(None, None), Disk(None, Some(env.tpmKey)), Disk(Some(env.fileKey), Some(env.tpmKey))])
            && (installs && !falls ==> o.disks == [Disk(None, None), Disk(None, Some(env.tpmKey))])
            && (!installs ==> forall k | 0 <= k < |o.disks| :: o.disks[k].tpm.None?)
  {
    var d := Disk(None, None);
    var o := TpmGetOrCreate(d, env);
    if (env.tpmRead.None? || env.tpmRead.value.NotFound?) && env.tpmSeal.None? {
      assert o.disks == [d, Disk(None, Some(env.tpmKey))];
      assert o.result == if LateAnswer(env).Some? then Err(LateAnswer(env).value) else Ok(env.tpmKey);
    } else {
      assert o.disks == [d];
    }
  }

  /** A load that is not over empty stores leaves the key the file has, and the TPM's. */
  lemma LoadKeepsTogether(d: Disk, env: Env, create: bool)
    requires !Diverged(d) && (create ==> d != Disk(None, None))
    ensures var o := if create then LoadOrCreate(d, env) else Load(d, env);
            o.disks != [] && forall k | 0 <= k < |o.disks| :: !Diverged(o.disks[k])
  {
  }

  lemma CreatingDivergesExactly(s: State, a: Action)
    requires s.disk == Disk(None, None) && a.op.OpLoadOrCreate?
    ensures Diverged(Step(s, a).disk) <==> SplitsCreating(s.disk, a)
  {
    hide LoadOrCreate;
    CreatesOverNothing(a.env);
    LoadOrCreateKeepsChosen(s.disk, a.env);
  }

  lemma LoadDivergesExactly(s: State, a: Action)
    requires !Diverged(s.disk) && !a.op.OpImport?
    ensures Diverged(Step(s, a).disk) <==> SplitsCreating(s.disk, a)
  {
    hide LoadOrCreate, Load, Diverged;
    if a.op.OpLoadOrCreate? && s.disk == Disk(None, None) {
      CreatingDivergesExactly(s, a);
    } else {
      LoadKeepsTogether(s.disk, a.env, a.op.OpLoadOrCreate?);
    }
  }

  /** From stores that do not differ, one action makes them differ exactly in those two cases. */
  lemma DivergesExactly(s: State, a: Action)
    requires !Diverged(s.disk)
    ensures Diverged(Step(s, a).disk) <==> SplitsCreating(s.disk, a) || SplitsImporting(s.disk, a)
  {
    hide Step, SplitsCreating, SplitsImporting, Diverged;
    if a.op.OpImport? {
      ImportDivergesExactly(s, a);
      NotBoth(s.disk, a);
    } else {
      LoadDivergesExactly(s, a);
      NotBoth(s.disk, a);
    }
  }

  lemma NotBoth(d: Disk, a: Action)
    ensures SplitsCreating(d, a) ==> !a.op.OpImport?
    ensures SplitsImporting(d, a) ==> a.op.OpImport?
  {
  }

  /** The stores differ somewhere in a run exactly if some action of it splits them. */
  lemma {:induction false} RunDivergesExactly(d: Disk, actions: seq<Action>)
    requires !Diverged(d)
    ensures (exists n | 0 <= n <= |actions| :: Diverged(Run(d, actions[..n]).disk)) <==>
            (exists n | 0 <= n < |actions| :: SplitsAt(d, actions, n))
    decreases |actions|
  {
    hide Step, SplitsCreating, SplitsImporting, Diverged;
    if n :| 0 <= n < |actions| && SplitsAt(d, actions, n) {
      if !Diverged(Run(d, actions[..n]).disk) {
        DivergesExactly(Run(d, actions[..n]), actions[n]);
        RunOneMore(d, actions, n);
      }
    }
    if n :| 0 <= n <= |actions| && Diverged(Run(d, actions[..n]).disk) {
      FirstSplit(d, actions, n);
    }
  }

  predicate SplitsAt(d: Disk, actions: seq<Action>, n: nat)
    requires n < |actions|
  {
    var disk := Run(d, actions[..n]).disk;
    SplitsCreating(disk, actions[n]) || SplitsImporting(disk, actions[n])
  }

  lemma RunOneMore(d: Disk, actions: seq<Action>, n: nat)
    requires n < |actions|
    ensures Run(d, actions[..n + 1]) == Step(Run(d, actions[..n]), actions[n])
  {
    assert actions[..n + 1][..n] == actions[..n];
  }

  lemma {:induction false} FirstSplit(d: Disk, actions: seq<Action>, n: nat)
    requires !Diverged(d) && n <= |actions| && Diverged(Run(d, actions[..n]).disk)
    ensures exists m | 0 <= m < |actions| :: SplitsAt(d, actions, m)
    decreases n
  {
    hide Step, SplitsCreating, SplitsImporting, Diverged;
    assert actions[..0] == [];
    if n > 0 && Diverged(Run(d, actions[..n - 1]).disk) {
      FirstSplit(d, actions, n - 1);
    } else {
      assert n > 0;
      RunOneMore(d, actions, n - 1);
      DivergesExactly(Run(d, actions[..n - 1]), actions[n - 1]);
      assert SplitsAt(d, actions, n - 1);
    }
  }

  /** The TPM key of this operation is installed without a failure after it, and a forced import writes its file. */
  predicate Unbroken(a: Action) {
    && (a.op.OpLoadOrCreate? ==> a.env.tpmLate.None?)
    && (a.op.OpImport? && a.op.force ==> a.Complete? && a.env.tpmLate.None? && a.env.fileInstall.None?)
  }

  /** Without failures after a TPM installation, the stores never differ unless a forced import is cut or fails halfway. */
  lemma {:induction false} NeverDiverges(d: Disk, actions: seq<Action>)
    requires !Diverged(d) && forall i | 0 <= i < |actions| :: Unbroken(actions[i])
    ensures !Diverged(Run(d, actions).disk)
    decreases |actions|
  {
    hide Step, Diverged;
    if actions != [] {
      var last := |actions| - 1;
      NeverDiverges(d, actions[..last]);
      assert Unbroken(actions[last]);
      DivergesExactly(Run(d, actions[..last]), actions[last]);
    }
  }

  /**
   The first case is real: with no import at all, a creating load over empty stores returns a key and leaves another
   in the TPM, and every later load that can read the TPM refuses.
   */
  lemma CreatingLoadMayDiverge(tpmKey: Key, fileKey: Key, later: seq<Action>)
    requires tpmKey != fileKey
    requires forall i | 0 <= i < |later| :: Unforced(later[i]) && later[i].env.tpmRead.None?
    ensures var env := Env(true, true, None, None, None, None, None, Some(Unavailable), tpmKey, fileKey);
            var o := LoadOrCreate(Disk(None, None), env);
            && o.result == Ok(fileKey) && Final(o) == Disk(Some(fileKey), Some(tpmKey)) && Diverged(Final(o))
            && Run(Final(o), later) == State(Final(o), [])
  {
    var env := Env(true, true, None, None, None, None, None, Some(Unavailable), tpmKey, fileKey);
    var o := LoadOrCreate(Disk(None, None), env);
    assert Final(o) == Disk(Some(fileKey), Some(tpmKey));
    DivergedStays(Final(o), later);
  }
}
