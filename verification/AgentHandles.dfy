/**
 Where key handles are. The reference count of a DEK page is one if its grant is in the map or still being
 opened, plus one for each request opening envelopes with it, so nothing holds a DEK during external I/O;
 a page whose count has reached zero, and which has therefore been zeroized, is never handed out again.
 */
module AgentHandles {
  import opened Wrappers
  import opened AgentTable
  import opened AgentProtocol

  datatype Hold = Drafting(page: Page) | OpeningWith(page: Page) | UsingMaster(page: Page)

  /** Whether a thread at `pc` has a handle of the given kind. */
  predicate Holds(h: Hold, pc: Pc) {
    match h
    case Drafting(p) => pc.InGrant? && p in pc.draft.deks.Values
    case OpeningWith(p) => pc.InOpen? && pc.o.Opening? && p in pc.o.deks.Values
    case UsingMaster(p) =>
      match pc
      case InGet(_, m) => (m.StoreWait? || m.StoreLocked? || m.LoadingRelease?) && m.key == p
      case InOpen(_, o) => (o.SnapWait? || o.SnapLocked? || o.Opening?) && o.master == Some(p)
      case _ => false
  }

  function One(b: bool): nat {
    if b then 1 else 0
  }

  /** How many threads have such a handle. */
  function Tally(threads: seq<Pc>, h: Hold): nat {
    if threads == [] then 0 else One(Holds(h, threads[0])) + Tally(threads[1..], h)
  }

  lemma {:induction false} TallyAfter(threads: seq<Pc>, t: nat, pc: Pc, h: Hold)
    requires t < |threads|
    ensures Tally(threads[t := pc], h) == Tally(threads, h) - One(Holds(h, threads[t])) + One(Holds(h, pc))
  {
    var threads' := threads[t := pc];
    if t == 0 {
      assert threads'[1..] == threads[1..];
    } else {
      assert threads'[1..] == threads[1..][t - 1 := pc];
      TallyAfter(threads[1..], t - 1, pc, h);
    }
  }

  lemma {:induction false} TallyZero(threads: seq<Pc>, h: Hold)
    ensures Tally(threads, h) == 0 <==> forall t | 0 <= t < |threads| :: !Holds(h, threads[t])
  {
    if threads != [] {
      TallyZero(threads[1..], h);
      assert forall t | 1 <= t < |threads| :: threads[t] == threads[1..][t - 1];
    }
  }

  // ----- dropping entries of the map

  lemma HavingSplit(before: map<GrantId, GrantEntry>, after: map<GrantId, GrantEntry>, p: Page)
    requires after.Keys <= before.Keys && forall g | g in after :: after[g] == before[g]
    ensures |Having(before, p)| == |Having(after, p)| + |Having(before - after.Keys, p)|
  {
    var kept, gone := Having(after, p), Having(before - after.Keys, p);
    assert Having(before, p) == kept + gone;
    assert kept !! gone;
  }

  lemma HavingInserted(grants: map<GrantId, GrantEntry>, g: GrantId, entry: GrantEntry, p: Page)
    ensures |Having(grants[g := entry], p)| == |Having(grants - {g}, p)| + One(p in entry.deks.Values)
  {
    var others := Having(grants - {g}, p);
    assert Having(grants[g := entry], p) == others + (if p in entry.deks.Values then {g} else {});
    assert g !in others;
  }

  // ----- DEK pages: each move accounts for the handles it takes and drops

  /** Handles on `p` that neither the map nor this thread explains. */
  function Owed(s: Mem, pc: Pc, p: Page): int
    requires p in s.deks
  {
    s.deks[p] - |Having(s.table.grants, p)| - One(Holds(Drafting(p), pc)) - One(Holds(OpeningWith(p), pc))
  }

  /** Handles on `p` still in the map or in a draft; the page's one home. */
  function Home(s: Mem, pc: Pc, p: Page): int {
    |Having(s.table.grants, p)| + One(Holds(Drafting(p), pc))
  }

  ghost predicate Balanced(s: Mem, pc: Pc, move: Move) {
    && s.deks.Keys <= move.mem.deks.Keys
    && (forall p | p in s.deks :: Owed(move.mem, move.pc, p) == Owed(s, pc, p) && Home(move.mem, move.pc, p) <= Home(s, pc, p))
  }

  lemma PurgeBalanced(c: Config, s: Mem, p: Page)
    requires p in s.deks
    ensures Purge(c, s).deks[p] - |Having(Purge(c, s).table.grants, p)| == s.deks[p] - |Having(s.table.grants, p)|
    ensures |Having(Purge(c, s).table.grants, p)| <= |Having(s.table.grants, p)|
  {
    HavingSplit(s.table.grants, Purge(c, s).table.grants, p);
  }

  lemma PublishBalanced(s: Mem, d: Draft)
    ensures Balanced(s, InGrant(d, GrantPurged), PublishDraft(s, d))
  {
    forall p | p in s.deks
      ensures Owed(PublishDraft(s, d).mem, PublishDraft(s, d).pc, p) == Owed(s, InGrant(d, GrantPurged), p)
      ensures Home(PublishDraft(s, d).mem, PublishDraft(s, d).pc, p) <= Home(s, InGrant(d, GrantPurged), p)
    {
      HavingSplit(s.table.grants, s.table.grants - {d.id}, p);
      HavingInserted(s.table.grants, d.id, EntryOf(d), p);
    }
  }

  lemma OpenBoxBalanced(s: Mem, d: Draft, request: DekRequest, rest: seq<DekRequest>, instant: Instant, ok: bool, g: GrantPc)
    requires s.nextDek !in s.deks
    ensures Balanced(s, InGrant(d, g), OpenBox(s, d, request, rest, instant, ok))
  {
    if request.key !in d.deks {
      InsertedValues(d.deks, request.key, s.nextDek);
    }
  }

  lemma InsertedValues(m: map<DekKey, Page>, k: DekKey, p: Page)
    requires k !in m
    ensures m[k := p].Values == m.Values + {p}
  {
    var m' := m[k := p];
    forall v | v in m.Values + {p}
      ensures v in m'.Values
    {
      if v == p {
        assert m'[k] == p;
      } else {
        var j :| j in m && m[j] == v;
        assert m'[j] == v;
      }
    }
  }

  lemma AbandonBalanced(s: Mem, d: Draft, g: GrantPc)
    ensures Balanced(s, InGrant(d, g), Abandon(s, d))
  {
  }

  lemma GrantPurgeBalanced(c: Config, s: Mem, d: Draft)
    ensures Balanced(s, InGrant(d, GrantLocked), Move(InGrant(d, GrantPurged), Purge(c, s)))
  {
    forall p | p in s.deks
      ensures Owed(Purge(c, s), InGrant(d, GrantPurged), p) == Owed(s, InGrant(d, GrantLocked), p)
      ensures Home(Purge(c, s), InGrant(d, GrantPurged), p) <= Home(s, InGrant(d, GrantLocked), p)
    {
      PurgeBalanced(c, s, p);
    }
  }

  /** Moves of a grant that touch no page and no entry. */
  lemma StillBalanced(s: Mem, d: Draft, g: GrantPc, g': GrantPc, lock: Option<Tid>)
    ensures Balanced(s, InGrant(d, g), Move(InGrant(d, g'), s.(stateLock := lock)))
  {
  }

  lemma GrantBalanced(c: Config, s: Mem, t: Tid, d: Draft, g: GrantPc, ok: bool)
    requires s.nextDek !in s.deks
    ensures Balanced(s, InGrant(d, g), GrantMove(c, s, t, d, g, ok))
  {
    hide Balanced, Abandon, Purge, OpenBox, PublishDraft;
    match g {
      case GrantNext(todo) =>
        AbandonBalanced(s, d, g);
        StillBalanced(s, d, g, GrantLocked, Some(t));
        StillBalanced(s, d, g, GrantValidated(todo), s.stateLock);
      case GrantValidated(todo) => StillBalanced(s, d, g, GrantDated(todo, s.clock), s.stateLock);
      case GrantDated(todo, instant) =>
        if todo != [] {
          OpenBoxBalanced(s, d, todo[0], todo[1..], instant, ok, g);
        } else {
          AbandonBalanced(s, d, g);
        }
      case GrantLocked => GrantPurgeBalanced(c, s, d);
      case GrantPurged => PublishBalanced(s, d);
    }
  }

  lemma ReleaseBalanced(c: Config, s: Mem, t: Tid, id: GrantId, r: ReleasePc)
    ensures Balanced(s, InRelease(id, r), ReleaseMove(c, s, t, id, r))
  {
    var move := ReleaseMove(c, s, t, id, r);
    forall p | p in s.deks
      ensures Owed(move.mem, move.pc, p) == Owed(s, InRelease(id, r), p)
      ensures Home(move.mem, move.pc, p) <= Home(s, InRelease(id, r), p)
    {
      PurgeBalanced(c, s, p);
      HavingSplit(s.table.grants, s.table.grants - {id}, p);
    }
  }

  lemma OpenBalanced(c: Config, s: Mem, t: Tid, q: Request, o: OpenPc, ok: bool)
    ensures Balanced(s, InOpen(q, o), OpenMove(c, s, t, q, o, ok))
  {
    var move := OpenMove(c, s, t, q, o, ok);
    forall p | p in s.deks
      ensures Owed(move.mem, move.pc, p) == Owed(s, InOpen(q, o), p)
      ensures Home(move.mem, move.pc, p) <= Home(s, InOpen(q, o), p)
    {
      PurgeBalanced(c, s, p);
    }
  }

  lemma GetBalanced(c: Config, s: Mem, t: Tid, q: Request, m: GetPc, ok: bool)
    ensures Balanced(s, InGet(q, m), GetMove(c, s, t, q, m, ok))
  {
  }

  lemma MaintainBalanced(c: Config, s: Mem, t: Tid, p: MaintainPc)
    ensures Balanced(s, InMaintain(p), MaintainMove(c, s, t, p))
  {
    var move := MaintainMove(c, s, t, p);
    forall page | page in s.deks
      ensures Owed(move.mem, move.pc, page) == Owed(s, InMaintain(p), page)
      ensures Home(move.mem, move.pc, page) <= Home(s, InMaintain(p), page)
    {
      PurgeBalanced(c, s, page);
    }
  }

  lemma MoveBalanced(c: Config, s: Mem, t: Tid, pc: Pc, ok: bool)
    requires !pc.Idle? && s.nextDek !in s.deks
    ensures Balanced(s, pc, MoveOf(c, s, t, pc, ok))
  {
    match pc {
      case InGrant(d, g) => GrantBalanced(c, s, t, d, g, ok);
      case InRelease(id, r) => ReleaseBalanced(c, s, t, id, r);
      case InOpen(q, o) => OpenBalanced(c, s, t, q, o, ok);
      case InGet(q, m) => GetBalanced(c, s, t, q, m, ok);
      case InMaintain(p) => MaintainBalanced(c, s, t, p);
    }
  }

  /** A thread starts opening with a page only by cloning it from the map. */
  lemma OpensFromMap(c: Config, s: Mem, t: Tid, pc: Pc, ok: bool, p: Page)
    requires Holds(OpeningWith(p), MoveOf(c, s, t, pc, ok).pc)
    ensures Having(s.table.grants, p) != {}
  {
    assert pc.InOpen? && pc.o.SnapLocked?;
    assert pc.request.id in Having(s.table.grants, p);
  }

  // ----- the counts of a whole state

  ghost predicate Counted(s: Sys, p: Page)
    requires p in s.mem.deks
  {
    && s.mem.deks[p] == |Having(s.mem.table.grants, p)| + Tally(s.threads, Drafting(p)) + Tally(s.threads, OpeningWith(p))
    && |Having(s.mem.table.grants, p)| + Tally(s.threads, Drafting(p)) <= 1
  }

  ghost predicate Allocated(s: Sys) {
    && (forall p :: p in s.mem.deks <==> 0 <= p < s.mem.nextDek)
    && (forall g, p | g in s.mem.table.grants && p in s.mem.table.grants[g].deks.Values :: p in s.mem.deks)
    && (forall t, p | 0 <= t < |s.threads| && (Holds(Drafting(p), s.threads[t]) || Holds(OpeningWith(p), s.threads[t])) :: p in s.mem.deks)
  }

  ghost predicate HandlesOk(s: Sys) {
    Allocated(s) && forall p | p in s.mem.deks :: Counted(s, p)
  }

  /** Which pages a move can bring into the map or into the moving thread's hands. */
  ghost predicate Brings(s: Mem, pc: Pc, move: Move) {
    && s.nextDek <= move.mem.nextDek <= s.nextDek + 1
    && move.mem.deks.Keys == (if move.mem.nextDek == s.nextDek then s.deks.Keys else s.deks.Keys + {s.nextDek})
    && (forall p | Holds(Drafting(p), move.pc) :: Holds(Drafting(p), pc) || (p == s.nextDek && p in move.mem.deks))
    && (forall g | g in move.mem.table.grants ::
          || (g in s.table.grants && move.mem.table.grants[g] == s.table.grants[g])
          || (pc.InGrant? && move.mem.table.grants[g] == EntryOf(pc.draft)))
    && (move.mem.nextDek == s.nextDek + 1 ==>
          && move.mem.deks[s.nextDek] == 1 && Holds(Drafting(s.nextDek), move.pc) && !Holds(OpeningWith(s.nextDek), move.pc)
          && move.mem.table == s.table)
  }

  lemma GrantBrings(c: Config, s: Mem, t: Tid, d: Draft, g: GrantPc, ok: bool)
    ensures Brings(s, InGrant(d, g), GrantMove(c, s, t, d, g, ok))
  {
    if g.GrantDated? && g.todo != [] && g.todo[0].key !in d.deks {
      InsertedValues(d.deks, g.todo[0].key, s.nextDek);
    }
  }

  lemma ReleaseBrings(c: Config, s: Mem, t: Tid, id: GrantId, r: ReleasePc)
    ensures Brings(s, InRelease(id, r), ReleaseMove(c, s, t, id, r))
  {
  }

  lemma OpenBrings(c: Config, s: Mem, t: Tid, q: Request, o: OpenPc, ok: bool)
    ensures Brings(s, InOpen(q, o), OpenMove(c, s, t, q, o, ok))
  {
  }

  lemma GetBrings(c: Config, s: Mem, t: Tid, q: Request, m: GetPc, ok: bool)
    ensures Brings(s, InGet(q, m), GetMove(c, s, t, q, m, ok))
  {
  }

  lemma {:induction false} MoveBrings(c: Config, s: Mem, t: Tid, pc: Pc, ok: bool)
    ensures Brings(s, pc, MoveOf(c, s, t, pc, ok))
  {
    match pc {
      case Idle =>
      case InGrant(d, g) => GrantBrings(c, s, t, d, g, ok);
      case InRelease(id, r) => ReleaseBrings(c, s, t, id, r);
      case InOpen(q, o) => OpenBrings(c, s, t, q, o, ok);
      case InGet(q, m) => GetBrings(c, s, t, q, m, ok);
      case InMaintain(p) =>
    }
  }

  lemma {:induction false} MoveAllocated(c: Config, s: Sys, t: Tid, ok: bool)
    requires Allocated(s) && t < |s.threads| && !s.threads[t].Idle?
    ensures var move := MoveOf(c, s.mem, t, s.threads[t], ok);
            Allocated(Sys(move.mem, s.threads[t := move.pc]))
  {
    hide MoveOf;
    var pc := s.threads[t];
    var move := MoveOf(c, s.mem, t, pc, ok);
    MoveBrings(c, s.mem, t, pc, ok);
    forall p | Holds(OpeningWith(p), move.pc)
      ensures p in move.mem.deks
    {
      OpensFromMap(c, s.mem, t, pc, ok, p);
    }
  }

  /** The page `p` exists already: what the move took and dropped adds up. */
  lemma OldPageCounted(c: Config, s: Sys, t: Tid, ok: bool, p: Page)
    requires HandlesOk(s) && t < |s.threads| && !s.threads[t].Idle? && p in s.mem.deks
    ensures var move := MoveOf(c, s.mem, t, s.threads[t], ok);
            p in move.mem.deks && Counted(Sys(move.mem, s.threads[t := move.pc]), p)
  {
    var pc := s.threads[t];
    var move := MoveOf(c, s.mem, t, pc, ok);
    MoveBalanced(c, s.mem, t, pc, ok);
    assert Owed(move.mem, move.pc, p) == Owed(s.mem, pc, p);
    TallyAfter(s.threads, t, move.pc, Drafting(p));
    TallyAfter(s.threads, t, move.pc, OpeningWith(p));
    assert Counted(s, p);
  }

  lemma UnknownPage(s: Sys, p: Page)
    requires Allocated(s) && p !in s.mem.deks
    ensures |Having(s.mem.table.grants, p)| == 0 && Tally(s.threads, Drafting(p)) == 0 && Tally(s.threads, OpeningWith(p)) == 0
  {
    assert Having(s.mem.table.grants, p) == {};
    TallyZero(s.threads, Drafting(p));
    TallyZero(s.threads, OpeningWith(p));
  }

  /** The page `p` was just allocated, for the draft of this thread. */
  lemma {:induction false} NewPageCounted(c: Config, s: Sys, t: Tid, ok: bool, p: Page)
    requires HandlesOk(s) && t < |s.threads| && !s.threads[t].Idle? && p !in s.mem.deks
    ensures var move := MoveOf(c, s.mem, t, s.threads[t], ok);
            p in move.mem.deks ==> Counted(Sys(move.mem, s.threads[t := move.pc]), p)
  {
    var pc := s.threads[t];
    var move := MoveOf(c, s.mem, t, pc, ok);
    MoveBrings(c, s.mem, t, pc, ok);
    if p in move.mem.deks {
      UnknownPage(s, p);
      TallyAfter(s.threads, t, move.pc, Drafting(p));
      TallyAfter(s.threads, t, move.pc, OpeningWith(p));
    }
  }

  lemma BeginCounted(c: Config, s: Sys, t: Tid, op: Op)
    requires HandlesOk(s)
    ensures HandlesOk(Step(c, s, Begin(t, op)))
  {
    if t < |s.threads| && CanBegin(s.threads[t], op) {
      var pc := FirstPc(op, s.mem.clock);
      var s' := Step(c, s, Begin(t, op));
      assert forall h: Hold :: !Holds(h, pc);
      forall p | p in s.mem.deks
        ensures Counted(s', p)
      {
        TallyAfter(s.threads, t, pc, Drafting(p));
        TallyAfter(s.threads, t, pc, OpeningWith(p));
        assert Counted(s, p);
      }
    }
  }

  lemma {:induction false} HandlesStep(c: Config, s: Sys, a: Action)
    requires HandlesOk(s)
    ensures HandlesOk(Step(c, s, a))
  {
    match a {
      case Tick(_) => assert forall p | p in s.mem.deks :: Counted(s, p);
      case Begin(t, op) => BeginCounted(c, s, t, op);
      case Go(t, ok) =>
        if t < |s.threads| && CanGo(s.mem, s.threads[t]) {
          MoveAllocated(c, s, t, ok);
          forall p | p in Step(c, s, a).mem.deks
            ensures Counted(Step(c, s, a), p)
          {
            if p in s.mem.deks {
              OldPageCounted(c, s, t, ok, p);
            } else {
              NewPageCounted(c, s, t, ok, p);
            }
          }
        }
    }
  }

  lemma StartsEmpty(threads: nat, now: Instant)
    ensures HandlesOk(Start(threads, now))
  {
    var s := Start(threads, now);
    forall t, h | 0 <= t < |s.threads|
      ensures !Holds(h, s.threads[t])
    {
    }
  }

  lemma {:induction false} HandlesAlways(c: Config, threads: nat, now: Instant, actions: seq<Action>)
    ensures HandlesOk(Run(c, Start(threads, now), actions))
    decreases |actions|
  {
    if actions == [] {
      StartsEmpty(threads, now);
    } else {
      var before := actions[..|actions| - 1];
      HandlesAlways(c, threads, now, before);
      HandlesStep(c, Run(c, Start(threads, now), before), actions[|actions| - 1]);
    }
  }

  // ----- theorems

  /**
   In every reachable state, the handles on a DEK page are: one if a grant in the map holds it or a grant
   still being opened does (never both, never two), and one for each request in its open phase.
   */
  lemma {:induction false} HandlesAccounted(c: Config, threads: nat, now: Instant, actions: seq<Action>, p: Page)
    requires p < Run(c, Start(threads, now), actions).mem.nextDek
    ensures var s := Run(c, Start(threads, now), actions);
            && p in s.mem.deks
            && s.mem.deks[p] == |Having(s.mem.table.grants, p)| + Tally(s.threads, Drafting(p)) + Tally(s.threads, OpeningWith(p))
            && |Having(s.mem.table.grants, p)| + Tally(s.threads, Drafting(p)) <= 1
  {
    HandlesAlways(c, threads, now, actions);
    assert Counted(Run(c, Start(threads, now), actions), p);
  }

  /** A thread that is neither opening a grant nor opening envelopes: waiting, running a child, fetching, idle. */
  predicate OutsideCrypto(pc: Pc) {
    !pc.InGrant? && !(pc.InOpen? && pc.o.Opening?)
  }

  /**
   Once the grant of a page has left the map and every thread is outside its in-memory crypto, whatever else
   the threads are doing, no handle on the page is left: it has been zeroized.
   */
  lemma NoHandleOutsideCrypto(c: Config, threads: nat, now: Instant, actions: seq<Action>, p: Page)
    requires var s := Run(c, Start(threads, now), actions);
             && p < s.mem.nextDek && Having(s.mem.table.grants, p) == {}
             && forall t | 0 <= t < |s.threads| :: OutsideCrypto(s.threads[t])
    ensures var s := Run(c, Start(threads, now), actions); p in s.mem.deks && s.mem.deks[p] == 0
  {
    HandlesAccounted(c, threads, now, actions, p);
    TallyZero(Run(c, Start(threads, now), actions).threads, Drafting(p));
    TallyZero(Run(c, Start(threads, now), actions).threads, OpeningWith(p));
  }

  /** A zeroized page stays zeroized, whatever happens next. */
  lemma ZeroizedForGood(c: Config, threads: nat, now: Instant, actions: seq<Action>, p: Page, a: Action)
    requires var s := Run(c, Start(threads, now), actions); p in s.mem.deks && s.mem.deks[p] == 0
    ensures var s := Step(c, Run(c, Start(threads, now), actions), a); p in s.mem.deks && s.mem.deks[p] == 0
  {
    HandlesAlways(c, threads, now, actions);
    var s := Run(c, Start(threads, now), actions);
    assert Counted(s, p);
    if a.Go? && a.t < |s.threads| && CanGo(s.mem, s.threads[a.t]) {
      var t, pc := a.t, s.threads[a.t];
      var move := MoveOf(c, s.mem, t, pc, a.ok);
      MoveBalanced(c, s.mem, t, pc, a.ok);
      OldPageCounted(c, s, t, a.ok, p);
      TallyZero(s.threads, Drafting(p));
      TallyZero(s.threads, OpeningWith(p));
      assert Home(move.mem, move.pc, p) <= Home(s.mem, pc, p) == 0;
      if Holds(OpeningWith(p), move.pc) {
        OpensFromMap(c, s.mem, t, pc, a.ok, p);
      }
      assert Owed(move.mem, move.pc, p) == Owed(s.mem, pc, p) == 0;
    }
  }
}
