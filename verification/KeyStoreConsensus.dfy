/**
 One master-key store (file, passphrase file, TPM blob or Keychain item) used by any number of callers in any
 number of processes: `get`, `get_or_create` and unforced `import` of crates/avault-store/src/lib.rs.

 The stored item is put in place atomically and only if absent. Every access may fail for reasons of the
 environment, with any class of error, including after the item was installed.
 */
module KeyStoreConsensus {
  import opened Wrappers

  type Key = nat
  type Passphrase = nat

  /** What is stored: a key under a passphrase (one fixed passphrase for stores without), or unreadable bytes. */
  datatype Item = Item(key: Key, passphrase: Passphrase) | Unreadable

  datatype ErrorClass = NotFound | AlreadyExists | Unavailable | Other

  /**
   How `get_or_create` treats errors. `FileLike`: any failed read leads to a create, an existing item is left
   alone, and the key is read back. `TpmLike` (TPM and Keychain): only "not found" leads to a create, whose own
   key is returned; an item created meanwhile is read instead.
   */
  datatype Kind = FileLike | TpmLike

  datatype Pc =
    | Idle
    | Getting(passphrase: Passphrase, create: bool)
    | Creating(passphrase: Passphrase)
    | Rereading(passphrase: Passphrase)
    | Importing(key: Key, passphrase: Passphrase)

  datatype Event =
    | Returned(passphrase: Passphrase, key: Key)
    | Imported(key: Key)

  datatype Store = Store(kind: Kind, item: Option<Item>, callers: seq<Pc>, log: seq<Event>)

  datatype Op = Get(passphrase: Passphrase) | GetOrCreate(passphrase: Passphrase) | Import(key: Key, passphrase: Passphrase)

  /** What the environment decides: an access error, an error after the install, the key generated. */
  datatype Env = Env(error: Option<ErrorClass>, late: Option<ErrorClass>, generated: Key)

  datatype Action = Begin(t: nat, op: Op) | Go(t: nat, env: Env) | Crash(t: nat)

  function Read(item: Option<Item>, passphrase: Passphrase, env: Env): Result<Key, ErrorClass> {
    if env.error.Some? then Err(env.error.value)
    else
      match item
      case None => Err(NotFound)
      case Some(Unreadable) => Err(Other)
      case Some(Item(key, p)) => if p == passphrase then Ok(key) else Err(Other)
  }

  /** `persist_noclobber`, or adding a Keychain item: what is stored then, and the outcome. */
  function Put(item: Option<Item>, key: Key, passphrase: Passphrase, env: Env): (Option<Item>, Option<ErrorClass>) {
    if env.error.Some? then (item, env.error)
    else if item.Some? then (item, Some(AlreadyExists))
    else (Some(Item(key, passphrase)), env.late)
  }

  function FirstPc(op: Op): Pc {
    match op
    case Get(p) => Getting(p, false)
    case GetOrCreate(p) => Getting(p, true)
    case Import(k, p) => Importing(k, p)
  }

  datatype Move = Move(pc: Pc, item: Option<Item>, note: Option<Event>)

  function Answer(r: Result<Key, ErrorClass>, item: Option<Item>, passphrase: Passphrase): Move {
    Move(Idle, item, if r.Ok? then Some(Returned(passphrase, r.value)) else None)
  }

  function MoveOf(kind: Kind, item: Option<Item>, pc: Pc, env: Env): Move {
    match pc
    case Idle => Move(Idle, item, None)
    case Getting(p, create) =>
      var r := Read(item, p, env);
      if create && r.Err? && (kind.FileLike? || r.error.NotFound?) then Move(Creating(p), item, None)
      else Answer(r, item, p)
    case Creating(p) =>
      var (after, err) := Put(item, env.generated, p, env);
      (match kind
       case FileLike =>
         if err.None? || (item.Some? && err == Some(AlreadyExists) && env.error.None?) then Move(Rereading(p), after, None)
         else Move(Idle, after, None)
       case TpmLike =>
         if err.None? then Answer(Ok(env.generated), after, p)
         else if err == Some(AlreadyExists) then Move(Rereading(p), after, None)
         else Move(Idle, after, None))
    case Rereading(p) => Answer(Read(item, p, env), item, p)
    case Importing(k, p) =>
      var (after, err) := Put(item, k, p, env);
      Move(Idle, after, if err.None? then Some(Imported(k)) else None)
  }

  function Step(s: Store, a: Action): Store {
    if a.t >= |s.callers| then s else
    match a
    case Begin(t, op) => if s.callers[t].Idle? then s.(callers := s.callers[t := FirstPc(op)]) else s
    case Go(t, env) =>
      var move := MoveOf(s.kind, s.item, s.callers[t], env);
      s.(item := move.item, callers := s.callers[t := move.pc], log := if move.note.Some? then s.log + [move.note.value] else s.log)
    case Crash(t) => s.(callers := s.callers[t := Idle])
  }

  function Start(kind: Kind, callers: nat, item: Option<Item>): Store {
    Store(kind, item, seq(callers, i => Idle), [])
  }

  function Run(s: Store, actions: seq<Action>): Store
    decreases |actions|
  {
    if actions == [] then s else Step(Run(s, actions[..|actions| - 1]), actions[|actions| - 1])
  }

  /** The success is about the item that is stored. */
  predicate AboutItem(e: Event, item: Option<Item>) {
    && item.Some? && item.value.Item? && e.key == item.value.key
    && (e.Returned? ==> e.passphrase == item.value.passphrase)
  }

  /** Every success, of a read or of an import, is about the item that is stored. */
  ghost predicate Agreed(s: Store) {
    forall i | 0 <= i < |s.log| :: AboutItem(s.log[i], s.item)
  }

  lemma AgreedMove(kind: Kind, item: Option<Item>, pc: Pc, env: Env)
    ensures var move := MoveOf(kind, item, pc, env);
            && (item.Some? ==> move.item == item)
            && (move.note.Some? ==> AboutItem(move.note.value, move.item))
  {
  }

  lemma AgreedStep(s: Store, a: Action)
    requires Agreed(s)
    ensures Agreed(Step(s, a)) && (s.item.Some? ==> Step(s, a).item == s.item)
  {
    hide MoveOf;
    var s' := Step(s, a);
    if a.Go? && a.t < |s.callers| {
      AgreedMove(s.kind, s.item, s.callers[a.t], a.env);
      var note := MoveOf(s.kind, s.item, s.callers[a.t], a.env).note;
      forall i | 0 <= i < |s'.log| ensures AboutItem(s'.log[i], s'.item) {
        if i < |s.log| {
          assert s'.log[i] == s.log[i] && AboutItem(s.log[i], s.item);
        } else {
          assert s'.log[i] == note.value;
        }
      }
    } else {
      assert s'.item == s.item && s'.log == s.log;
    }
  }

  lemma {:induction false} AgreedAlways(kind: Kind, callers: nat, item: Option<Item>, actions: seq<Action>)
    ensures var s := Run(Start(kind, callers, item), actions);
            Agreed(s) && (item.Some? ==> s.item == item)
    decreases |actions|
  {
    if actions != [] {
      AgreedAlways(kind, callers, item, actions[..|actions| - 1]);
      AgreedStep(Run(Start(kind, callers, item), actions[..|actions| - 1]), actions[|actions| - 1]);
    }
  }

  /**
   Consensus: in every interleaving, whatever fails and whoever crashes, all callers that get a key get the
   same key, and a successful import is of that key too.
   */
  lemma AllAgree(kind: Kind, callers: nat, item: Option<Item>, actions: seq<Action>, i: nat, j: nat)
    requires var log := Run(Start(kind, callers, item), actions).log; i < |log| && j < |log|
    ensures var log := Run(Start(kind, callers, item), actions).log; log[i].key == log[j].key
  {
    AgreedAlways(kind, callers, item, actions);
  }

  /**
   What is stored already is never replaced, even if it cannot be read or is tried with a wrong passphrase: a
   success then returns the stored key to a caller that has its passphrase, and an unreadable item allows none.
   */
  lemma ExistingItemKept(kind: Kind, callers: nat, item: Item, actions: seq<Action>)
    ensures var s := Run(Start(kind, callers, Some(item)), actions);
            && s.item == Some(item)
            && (s.log != [] ==> item.Item?)
            && (forall i | 0 <= i < |s.log| :: item.Item? && s.log[i].key == item.key)
            && (forall i | 0 <= i < |s.log| && s.log[i].Returned? :: item.Item? && s.log[i].passphrase == item.passphrase)
  {
    AgreedAlways(kind, callers, Some(item), actions);
    var s := Run(Start(kind, callers, Some(item)), actions);
    if s.log != [] {
      assert AboutItem(s.log[0], s.item);
    }
  }

  /** An empty store is filled at most once: once filled it holds the same item for good. */
  lemma FilledOnce(kind: Kind, callers: nat, item: Option<Item>, before: seq<Action>, after: seq<Action>)
    requires Run(Start(kind, callers, item), before).item.Some?
    ensures Run(Start(kind, callers, item), before + after).item == Run(Start(kind, callers, item), before).item
    decreases |after|
  {
    if after == [] {
      assert before + after == before;
    } else {
      var actions := before + after;
      assert actions[..|actions| - 1] == before + after[..|after| - 1];
      FilledOnce(kind, callers, item, before, after[..|after| - 1]);
      AgreedAlways(kind, callers, item, actions[..|actions| - 1]);
      AgreedStep(Run(Start(kind, callers, item), actions[..|actions| - 1]), actions[|actions| - 1]);
    }
  }
}
