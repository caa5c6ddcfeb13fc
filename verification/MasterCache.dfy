/**
 The agent's cached standard master: `AgentMasterCache` in crates/avault-cli/src/main.rs, as seen by one
 thread at a time. Interleavings of many threads are in AgentProtocol.dfy, which uses the same
 functions as critical-section bodies.
 */
module MasterCache {
  import opened Wrappers
  import opened AgentTable

  datatype CachedMaster = CachedMaster(key: Page, lastUsed: Instant)

  function AfterExpiry(cached: Option<CachedMaster>, idle: nat, now: Instant): Option<CachedMaster> {
    if cached.Some? && Since(now, cached.value.lastUsed) >= idle then None else cached
  }

  function AfterUse(cached: Option<CachedMaster>, idle: nat, now: Instant): Option<CachedMaster> {
    match AfterExpiry(cached, idle, now)
    case None => None
    case Some(c) => Some(c.(lastUsed := now))
  }

  datatype MasterSource = Unlocked(key: Page) | Store

  class AgentMasterCache {
    const source: MasterSource
    const idleTimeout: nat
    var cached: Option<CachedMaster>

    constructor (source: MasterSource, idleTimeout: nat)
      ensures this.source == source && this.idleTimeout == idleTimeout && cached == None
    {
      this.source, this.idleTimeout, this.cached := source, idleTimeout, None;
    }

    method Expire(now: Instant)
      modifies this
      ensures cached == AfterExpiry(old(cached), idleTimeout, now)
    {
      if cached.Some? && Since(now, cached.value.lastUsed) >= idleTimeout {
        cached := None;
      }
    }

    method Purge(clock: Clock)
      modifies this, clock
      ensures old(clock.now) <= clock.now
      ensures cached == AfterExpiry(old(cached), idleTimeout, clock.now)
    {
      var now := clock.Read();
      Expire(now);
    }

    method UseCached(clock: Clock) returns (r: Option<Page>)
      modifies this, clock
      ensures old(clock.now) <= clock.now
      ensures cached == AfterUse(old(cached), idleTimeout, clock.now)
      ensures r == if cached.Some? then Some(cached.value.key) else None
    {
      var now := clock.Read();
      Expire(now);
      match cached {
        case None => r := None;
        case Some(c) =>
          cached := Some(c.(lastUsed := now));
          r := Some(c.key);
      }
    }

    /**
     `loaded` is what the store would answer. The store is asked only if the cache had nothing fresh at
     either look, and a failed load leaves the cache empty.
     */
    method Get(loaded: Option<Page>, clock: Clock) returns (r: Option<Page>, ghost asked: bool, ghost firstLook: Instant)
      modifies this, clock
      ensures old(clock.now) <= firstLook <= clock.now
      ensures source.Unlocked? ==> r == Some(source.key) && !asked && cached == old(cached)
      ensures source.Store? && AfterUse(old(cached), idleTimeout, firstLook).Some? ==>
                !asked && r == Some(old(cached).value.key) && cached == Some(CachedMaster(r.value, firstLook))
      ensures source.Store? && AfterUse(old(cached), idleTimeout, firstLook).None? ==>
                && asked && r == loaded
                && cached == if loaded.Some? then Some(CachedMaster(loaded.value, clock.now)) else None
    {
      asked, firstLook := false, clock.now;
      if source.Unlocked? {
        return Some(source.key), asked, firstLook;
      }
      r := UseCached(clock);
      firstLook := clock.now;
      if r.Some? {
        return;
      }
      r := UseCached(clock);
      if r.Some? {
        return;
      }
      asked := true;
      if loaded.None? {
        return None, asked, firstLook;
      }
      var now := clock.Read();
      cached := Some(CachedMaster(loaded.value, now));
      r := loaded;
    }
  }
}
