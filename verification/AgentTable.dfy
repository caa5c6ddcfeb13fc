/**
 The resident agent's grant table: `AgentState` in crates/avault-cli/src/main.rs.

 `Table` is the value of the table at one moment. Each method of the class `AgentState` is proved to
 take the table from one value to the next exactly as the functions on `Table` say; the functions are
 also the critical-section bodies of the transition system in AgentProtocol.dfy.
 */
module AgentTable {
  import opened Bytes
  import opened Wrappers

  /** Nanoseconds; deadlines and durations of the wire format are whole seconds. */
  type Instant = nat
  const SECOND: nat := 1_000_000_000
  type GrantId = string
  type Nonce = seq<byte>
  /** The identity of one locked, zeroize-on-last-drop page holding a key. */
  type Page = nat

  datatype Purpose = Deliver | Sign
  datatype DekKey = DekKey(purpose: Purpose, name: string, scheme: Option<string>, digestHex: Option<string>)
  datatype GrantEntry = GrantEntry(expiresAt: Instant, deks: map<DekKey, Page>)

  datatype Table = Table(
    grants: map<GrantId, GrantEntry>,
    used: map<Nonce, Instant>,
    lastActivity: Instant)

  datatype PublishError = GrantExpired | ApprovalReused

  /** `Instant::duration_since`, which saturates at zero. */
  function Since(now: Instant, earlier: Instant): nat {
    if now >= earlier then now - earlier else 0
  }

  predicate IsIdle(v: Table, idle: nat, now: Instant) {
    Since(now, v.lastActivity) >= idle
  }

  /** The grants that survive a purge at `now`. */
  function Retained(v: Table, idle: nat, now: Instant): map<GrantId, GrantEntry> {
    if IsIdle(v, idle, now) then map[]
    else map g | g in v.grants && v.grants[g].expiresAt > now :: v.grants[g]
  }

  function Purged(v: Table, idle: nat, now: Instant): Table {
    v.(grants := Retained(v, idle, now),
       used := map n | n in v.used && v.used[n] > now :: v.used[n])
  }

  predicate IsLive(v: Table, idle: nat, g: GrantId, now: Instant) {
    !IsIdle(v, idle, now) && g in v.grants && v.grants[g].expiresAt > now
  }

  predicate Reuses(used: map<Nonce, Instant>, nonces: seq<(Nonce, Instant)>) {
    exists i | 0 <= i < |nonces| :: nonces[i].0 in used
  }

  /** `HashMap::extend`: inserts in order, later entries replacing earlier ones. */
  function Extended(used: map<Nonce, Instant>, nonces: seq<(Nonce, Instant)>): map<Nonce, Instant>
    decreases |nonces|
  {
    if nonces == [] then used
    else Extended(used[nonces[0].0 := nonces[0].1], nonces[1..])
  }

  /** Whether a grant may be published into an already purged table at `now`. */
  function PublishCheck(v: Table, entry: GrantEntry, nonces: seq<(Nonce, Instant)>, now: Instant): Option<PublishError> {
    if entry.expiresAt <= now then Some(GrantExpired)
    else if Reuses(v.used, nonces) then Some(ApprovalReused)
    else None
  }

  function Published(v: Table, g: GrantId, entry: GrantEntry, nonces: seq<(Nonce, Instant)>, now: Instant): Table {
    Table(v.grants[g := entry], Extended(v.used, nonces), now)
  }

  /** A monotone clock that may advance by any amount before each reading. */
  class Clock {
    var now: Instant

    method Read() returns (t: Instant)
      modifies this
      ensures t == now >= old(now)
    {
      var elapsed: nat :| elapsed >= 0;
      now := now + elapsed;
      t := now;
    }
  }

  class AgentState {
    var grants: map<GrantId, GrantEntry>
    var usedGrantNonces: map<Nonce, Instant>
    var lastActivity: Instant
    const idleTimeout: nat

    function View(): Table
      reads this
    {
      Table(grants, usedGrantNonces, lastActivity)
    }

    constructor (idleTimeout: nat, clock: Clock)
      modifies clock
      ensures this.idleTimeout == idleTimeout && old(clock.now) <= clock.now
      ensures View() == Table(map[], map[], clock.now)
    {
      var now := clock.Read();
      this.grants, this.usedGrantNonces := map[], map[];
      this.lastActivity := now;
      this.idleTimeout := idleTimeout;
    }

    method Purge(clock: Clock) returns (ghost at: Instant)
      modifies this, clock
      ensures old(clock.now) <= at == clock.now
      ensures View() == Purged(old(View()), idleTimeout, at)
    {
      var now := clock.Read();
      at := now;
      if Since(now, lastActivity) >= idleTimeout {
        grants := map[];
      }
      grants := map g | g in grants && grants[g].expiresAt > now :: grants[g];
      usedGrantNonces := map n | n in usedGrantNonces && usedGrantNonces[n] > now :: usedGrantNonces[n];
    }

    /** Expires first, so that activity cannot bring back a grant that already went idle. */
    method RecordActivity(clock: Clock) returns (ghost purgedAt: Instant)
      modifies this, clock
      ensures old(clock.now) <= purgedAt <= clock.now
      ensures View() == Purged(old(View()), idleTimeout, purgedAt).(lastActivity := clock.now)
    {
      purgedAt := Purge(clock);
      lastActivity := clock.Read();
    }

    method GetLiveGrant(g: GrantId, clock: Clock) returns (r: Option<GrantEntry>)
      modifies clock
      ensures old(clock.now) <= clock.now
      ensures r.Some? <==> IsLive(View(), idleTimeout, g, clock.now)
      ensures r.Some? ==> g in grants && r.value == grants[g]
    {
      var now := clock.Read();
      if Since(now, lastActivity) >= idleTimeout {
        return None;
      }
      if g !in grants {
        return None;
      }
      var grant := grants[g];
      if grant.expiresAt <= now {
        return None;
      }
      return Some(grant);
    }

    /**
     Publishes the grant together with consuming its nonces and recording activity. A refusal leaves
     nothing changed except what the purge removed.
     */
    method PublishGrant(g: GrantId, entry: GrantEntry, nonces: seq<(Nonce, Instant)>, clock: Clock)
      returns (r: Option<PublishError>, ghost purgedAt: Instant)
      modifies this, clock
      ensures old(clock.now) <= purgedAt <= clock.now
      ensures var v := Purged(old(View()), idleTimeout, purgedAt);
              && r == PublishCheck(v, entry, nonces, clock.now)
              && View() == if r.None? then Published(v, g, entry, nonces, clock.now) else v
    {
      purgedAt := Purge(clock);
      var now := clock.Read();
      if entry.expiresAt <= now {
        return Some(GrantExpired), purgedAt;
      }
      if exists i | 0 <= i < |nonces| :: nonces[i].0 in usedGrantNonces {
        return Some(ApprovalReused), purgedAt;
      }
      usedGrantNonces := Extended(usedGrantNonces, nonces);
      lastActivity := now;
      grants := grants[g := entry];
      r := None;
    }

    /** The `release` / `revoke` critical section. */
    method Release(g: GrantId, clock: Clock) returns (released: bool, ghost purgedAt: Instant, ghost secondPurgeAt: Instant)
      modifies this, clock
      ensures old(clock.now) <= purgedAt <= secondPurgeAt <= clock.now
      ensures var v := Purged(old(View()), idleTimeout, purgedAt);
              && released == (g in v.grants)
              && View() == if released
                           then Purged(v.(grants := v.grants - {g}), idleTimeout, secondPurgeAt).(lastActivity := clock.now)
                           else v
    {
      purgedAt := Purge(clock);
      secondPurgeAt := purgedAt;
      released := g in grants;
      grants := grants - {g};
      if released {
        secondPurgeAt := RecordActivity(clock);
      } else {
        assert grants == Purged(old(View()), idleTimeout, purgedAt).grants;
      }
    }
  }

  /** What `Extended` leaves in the table when the nonces are pairwise distinct. */
  lemma {:induction false} ExtendedIs(used: map<Nonce, Instant>, nonces: seq<(Nonce, Instant)>)
    requires forall i, j | 0 <= i < j < |nonces| :: nonces[i].0 != nonces[j].0
    ensures forall i | 0 <= i < |nonces| :: nonces[i].0 in Extended(used, nonces) && Extended(used, nonces)[nonces[i].0] == nonces[i].1
    ensures forall n | n in used && (forall i | 0 <= i < |nonces| :: nonces[i].0 != n) ::
              n in Extended(used, nonces) && Extended(used, nonces)[n] == used[n]
    ensures forall n | n in Extended(used, nonces) :: n in used || exists i | 0 <= i < |nonces| :: nonces[i].0 == n
    decreases |nonces|
  {
    if nonces != [] {
      var rest := nonces[1..];
      var used1 := used[nonces[0].0 := nonces[0].1];
      ExtendedIs(used1, rest);
      var ext := Extended(used1, rest);
      assert forall i | 0 <= i < |rest| :: rest[i] == nonces[i + 1];
      assert forall i | 0 < i < |nonces| :: nonces[i] == rest[i - 1];
      forall n | n in used && (forall i | 0 <= i < |nonces| :: nonces[i].0 != n)
        ensures n in ext && ext[n] == used[n]
      {
        assert nonces[0].0 != n;
        assert n in used1 && used1[n] == used[n];
      }
    }
  }
}
