/**
 The two verifiers' key caches as objects.  A method that takes the refresh lock is one refresh event; other
 requests may refresh before it gets the lock and after it gives it up.
 */
module Verifiers {
  import opened Wrappers
  import opened Numbers
  import opened Jwks

  datatype RefreshAttempt = Refreshed | Skipped

  function FetchOf(document: Option<seq<Jwk>>, at: Seconds): Fetch {
    match document
    case None => Failed(false)
    case Some(entries) => Fetched(UsableKeys(entries), at)
  }

  /** The document was fetched and holds a usable key. */
  predicate Brings(document: Option<seq<Jwk>>) {
    document.Some? && UsableKeys(document.value) != map[]
  }

  /** A forced refresh in its turn of the lock fails: the key is unknown, and a recent one failed or its own does. */
  predicate ForcedFails(trace: seq<Event>, kid: Kid, now: Seconds, document: Option<seq<Jwk>>) {
    !Holds(trace, kid) && if Recent(trace, false, now) then LastForcedFailed(trace) else !Brings(document)
  }

  class GitHubVerifier {
    var keys: KeySet
    var fetchedAt: Seconds
    var lastSoftAttempt: Seconds
    var lastForcedAttempt: Seconds
    var lastForcedFailed: bool
    var refreshFailures: nat
    const maxStaleness: nat
    ghost var trace: seq<Event>

    constructor (maxStaleness: nat)
      ensures Valid() && trace == [] && this.maxStaleness == maxStaleness
    {
      keys, fetchedAt := map[], 0;
      lastSoftAttempt, lastForcedAttempt, lastForcedFailed := 0, 0, false;
      refreshFailures := 0;
      this.maxStaleness := maxStaleness;
      trace := [];
    }

    ghost function State(): Cache
      reads this
    {
      Cache(keys, fetchedAt, lastSoftAttempt, lastForcedAttempt, lastForcedFailed, refreshFailures)
    }

    ghost predicate Valid()
      reads this
    {
      State() == Exec(EMPTY, trace)
    }

    /** Refreshes by other requests and by the background loop. */
    method Interfere()
      requires Valid()
      modifies this
      ensures Valid() && old(trace) <= trace
    {
    }

    ghost method Record(e: Event)
      requires State() == Next(Exec(EMPTY, trace), e)
      modifies this`trace
      ensures Valid() && trace == old(trace) + [e]
    {
      assert (trace + [e])[..|trace|] == trace;
      trace := trace + [e];
    }

    method RefreshNow(document: Option<seq<Jwk>>, at: Seconds) returns (r: Result<(), KeyError>)
      modifies this`keys, this`fetchedAt
      ensures var fetch := FetchOf(document, at);
        && (r.Ok? <==> Succeeds(fetch))
        && (r.Err? ==> r.error == KeysUnavailable)
        && State() == if Succeeds(fetch) then old(State()).(keys := fetch.keys, fetchedAt := at) else old(State())
    {
      if document.None? {
        return Err(KeysUnavailable);
      }
      var collected := CollectKeys(document.value);
      if collected == map[] {
        return Err(KeysUnavailable);
      }
      keys, fetchedAt := collected, at;
      return Ok(());
    }

    method RunRefresh(document: Option<seq<Jwk>>, at: Seconds) returns (r: Result<RefreshAttempt, KeyError>)
      modifies this`keys, this`fetchedAt, this`refreshFailures
      ensures var fetch := FetchOf(document, at);
        && r == (if Succeeds(fetch) then Ok(Refreshed) else Err(KeysUnavailable))
        && State() == Refresh(old(State()), fetch)
    {
      var result := RefreshNow(document, at);
      if result.Err? {
        refreshFailures := (refreshFailures + 1) % U64_MODULUS;
        return Err(result.error);
      }
      return Ok(Refreshed);
    }

    method WarmUp(document: Option<seq<Jwk>>, at: Seconds) returns (r: Result<RefreshAttempt, KeyError>)
      requires Valid()
      modifies this
      ensures Valid() && trace == old(trace) + [Event.WarmUp(FetchOf(document, at))]
      ensures r.Ok? <==> Succeeds(FetchOf(document, at))
    {
      r := RunRefresh(document, at);
      Record(Event.WarmUp(FetchOf(document, at)));
    }

    method RefreshSoftIfDue(now: Seconds, ageNow: Seconds, document: Option<seq<Jwk>>, at: Seconds)
      returns (r: Result<RefreshAttempt, KeyError>)
      requires Valid()
      modifies this
      ensures Valid() && trace == old(trace) + [Soft(now, ageNow, FetchOf(document, at))]
      ensures r == if Fresh(old(trace), ageNow, 299) || Recent(old(trace), true, now) then Ok(Skipped)
                   else if Brings(document) then Ok(Refreshed) else Err(KeysUnavailable)
    {
      AttemptedExactly(trace, Soft(now, ageNow, FetchOf(document, at)));
      if CacheAge(fetchedAt, ageNow) < JWKS_SOFT_REFRESH_SECONDS || AttemptedRecently(lastSoftAttempt, now) {
        r := Ok(Skipped);
      } else {
        lastSoftAttempt := now;
        r := RunRefresh(document, at);
      }
      Record(Soft(now, ageNow, FetchOf(document, at)));
    }

    method RefreshForUnknownKidIfDue(kid: Kid, now: Seconds, document: Option<seq<Jwk>>, at: Seconds)
      returns (r: Result<RefreshAttempt, KeyError>)
      requires Valid()
      modifies this
      ensures Valid() && trace == old(trace) + [Forced(Some(kid), now, FetchOf(document, at))]
      ensures r.Err? <==> ForcedFails(old(trace), kid, now, document)
      ensures r.Err? ==> r.error == KeysUnavailable
      ensures r == Ok(Refreshed) <==> !Holds(old(trace), kid) && !Recent(old(trace), false, now) && Brings(document)
    {
      CacheShowsHistory(trace, kid, now, 0);
      if kid in keys {
        r := Ok(Skipped);
      } else if AttemptedRecently(lastForcedAttempt, now) {
        r := if lastForcedFailed then Err(KeysUnavailable) else Ok(Skipped);
      } else {
        lastForcedAttempt := now;
        r := RunRefresh(document, at);
        lastForcedFailed := r.Err?;
      }
      Record(Forced(Some(kid), now, FetchOf(document, at)));
    }

    /** The request goes away while it holds the lock: the attempt counts, but its failure is not remembered. */
    method AbandonForcedRefresh(kid: Kid, now: Seconds, counted: bool)
      requires Valid()
      modifies this
      ensures Valid() && trace == old(trace) + [Forced(Some(kid), now, Dropped(counted))]
      ensures keys == old(keys) && fetchedAt == old(fetchedAt) && lastForcedFailed == old(lastForcedFailed)
      ensures lastForcedAttempt ==
              if Attempts(old(State()), Forced(Some(kid), now, Dropped(counted))) then now else old(lastForcedAttempt)
    {
      if kid !in keys && !AttemptedRecently(lastForcedAttempt, now) {
        lastForcedAttempt := now;
        if counted {
          refreshFailures := (refreshFailures + 1) % U64_MODULUS;
        }
      }
      Record(Forced(Some(kid), now, Dropped(counted)));
    }

    /** Ready exactly when some key would be served without a fetch, that is, while the last successful fetch is young enough. */
    method CheckReady(now: Seconds) returns (r: Result<(), KeyError>)
      requires Valid()
      ensures r.Ok? <==> exists kid :: Look(State(), kid, now, maxStaleness).Served?
      ensures r.Ok? <==> Fresh(trace, now, maxStaleness)
      ensures r.Err? ==> r.error == KeysUnavailable
    {
      ReadyMeansServed(State(), now, maxStaleness);
      CacheShowsHistory(trace, "", now, maxStaleness);
      if Usable(Cache(keys, fetchedAt, lastSoftAttempt, lastForcedAttempt, lastForcedFailed, refreshFailures), now, maxStaleness) {
        return Ok(());
      }
      return Err(KeysUnavailable);
    }

    /**
     Looks a key up: at reading `first`; then, for an unknown ID, in its turn of the lock at `locked`; then again at
     `last`.  `atFirst` and `atLock` are the histories at the first look and at the turn of the lock.  A known key is
     served or too old, without a fetch.  For an unknown one the refresh is tried, and then whatever the last
     successful fetch holds is served, if it is young enough; the assertion is invalid only if that fetch is young
     enough, lacks the key, and the refresh did not fail.
     */
    method LookUp(kid: Kid, first: Seconds, locked: Seconds, document: Option<seq<Jwk>>, at: Seconds, last: Seconds)
      returns (r: Result<Key, KeyError>, ghost atFirst: seq<Event>, ghost atLock: seq<Event>)
      requires Valid()
      modifies this
      ensures Valid() && old(trace) <= atFirst <= atLock <= trace
      ensures Holds(atFirst, kid) ==>
        trace == atFirst && r == if Fresh(atFirst, first, maxStaleness) then Ok(HeldKey(atFirst, kid)) else Err(KeysUnavailable)
      ensures !Holds(atFirst, kid) ==>
        && atLock + [Forced(Some(kid), locked, FetchOf(document, at))] <= trace
        && (r.Ok? <==> Holds(trace, kid) && Fresh(trace, last, maxStaleness))
        && (r.Ok? ==> r.value == HeldKey(trace, kid))
        && (r == Err(Invalid) <==>
            Fresh(trace, last, maxStaleness) && !Holds(trace, kid) && !ForcedFails(atLock, kid, locked, document))
    {
      hide Holds, HeldKey, Fresh, Recent, ForcedFails;
      Interfere();
      atFirst, atLock := trace, trace;
      CacheShowsHistory(trace, kid, first, maxStaleness);
      var cache := Cache(keys, fetchedAt, lastSoftAttempt, lastForcedAttempt, lastForcedFailed, refreshFailures);
      if Usable(cache, first, maxStaleness) && kid in keys {
        return Ok(keys[kid]), atFirst, atLock;
      }
      if kid in keys {
        return Err(KeysUnavailable), atFirst, atLock;
      }
      Interfere();
      atLock := trace;
      var refresh := RefreshForUnknownKidIfDue(kid, locked, document, at);
      Interfere();
      CacheShowsHistory(trace, kid, last, maxStaleness);
      cache := Cache(keys, fetchedAt, lastSoftAttempt, lastForcedAttempt, lastForcedFailed, refreshFailures);
      if Usable(cache, last, maxStaleness) {
        if kid in keys {
          return Ok(keys[kid]), atFirst, atLock;
        }
        return match refresh case Ok(_) => Err(Invalid) case Err(error) => Err(error), atFirst, atLock;
      }
      return match refresh case Err(error) => Err(error) case Ok(_) => Err(KeysUnavailable), atFirst, atLock;
    }
  }

  // ----- the generic OIDC variant -----

  /** A discovery document must name the issuer and a same-origin key endpoint before keys are fetched from it. */
  datatype Discovery = NoDiscovery | BadDiscovery | Discovered(document: Option<seq<Jwk>>)

  function ProviderFetchOf(response: Discovery, at: Seconds): Fetch {
    match response
    case NoDiscovery => Failed(false)
    case BadDiscovery => Failed(true)
    case Discovered(document) => FetchOf(document, at)
  }

  predicate DiscoveryBrings(response: Discovery) {
    response.Discovered? && Brings(response.document)
  }

  class ProviderVerifier {
    var keys: KeySet
    var fetchedAt: Seconds
    var lastSoftAttempt: Seconds
    var lastForcedAttempt: Seconds
    const maxStaleness: nat
    ghost var trace: seq<Event>

    constructor (maxStaleness: nat)
      ensures Valid() && trace == [] && this.maxStaleness == maxStaleness
    {
      keys, fetchedAt := map[], 0;
      lastSoftAttempt, lastForcedAttempt := 0, 0;
      this.maxStaleness := maxStaleness;
      trace := [];
    }

    /** This verifier neither counts failures nor remembers whether the last forced refresh failed. */
    ghost predicate Shows(s: Cache)
      reads this
    {
      s.keys == keys && s.fetchedAt == fetchedAt && s.lastSoft == lastSoftAttempt && s.lastForced == lastForcedAttempt
    }

    ghost predicate Valid()
      reads this
    {
      Shows(Exec(EMPTY, trace))
    }

    method Interfere()
      requires Valid()
      modifies this
      ensures Valid() && old(trace) <= trace
    {
    }

    ghost method Record(e: Event)
      requires Shows(Next(Exec(EMPTY, trace), e))
      modifies this`trace
      ensures Valid() && trace == old(trace) + [e]
    {
      assert (trace + [e])[..|trace|] == trace;
      trace := trace + [e];
    }

    method RefreshNow(response: Discovery, at: Seconds) returns (r: Result<(), KeyError>)
      modifies this`keys, this`fetchedAt
      ensures r == if DiscoveryBrings(response) then Ok(())
                   else Err(if response.BadDiscovery? then Invalid else KeysUnavailable)
      ensures var fetch := ProviderFetchOf(response, at);
        && (DiscoveryBrings(response) <==> Succeeds(fetch))
        && keys == (if Succeeds(fetch) then fetch.keys else old(keys))
        && fetchedAt == (if Succeeds(fetch) then at else old(fetchedAt))
    {
      if response.NoDiscovery? {
        return Err(KeysUnavailable);
      }
      if response.BadDiscovery? {
        return Err(Invalid);
      }
      if response.document.None? {
        return Err(KeysUnavailable);
      }
      var collected := CollectKeys(response.document.value);
      if collected == map[] {
        return Err(KeysUnavailable);
      }
      keys, fetchedAt := collected, at;
      return Ok(());
    }

    method RefreshSoftIfDue(now: Seconds, response: Discovery, at: Seconds) returns (r: Result<(), KeyError>)
      requires Valid()
      modifies this
      ensures Valid() && trace == old(trace) + [Soft(now, now, ProviderFetchOf(response, at))]
      ensures r == if Fresh(old(trace), now, 299) || Recent(old(trace), true, now) || DiscoveryBrings(response) then Ok(())
                   else Err(if response.BadDiscovery? then Invalid else KeysUnavailable)
    {
      AttemptedExactly(trace, Soft(now, now, ProviderFetchOf(response, at)));
      if CacheAge(fetchedAt, now) < JWKS_SOFT_REFRESH_SECONDS || AttemptedRecently(lastSoftAttempt, now) {
        r := Ok(());
      } else {
        lastSoftAttempt := now;
        r := RefreshNow(response, at);
      }
      Record(Soft(now, now, ProviderFetchOf(response, at)));
    }

    method RefreshForUnknownKidIfDue(now: Seconds, response: Discovery, at: Seconds) returns (r: Result<(), KeyError>)
      requires Valid()
      modifies this
      ensures Valid() && trace == old(trace) + [Forced(None, now, ProviderFetchOf(response, at))]
      ensures r == if Recent(old(trace), false, now) then Err(KeysUnavailable)
                   else if DiscoveryBrings(response) then Ok(())
                   else Err(if response.BadDiscovery? then Invalid else KeysUnavailable)
    {
      CacheShowsHistory(trace, "", now, 0);
      if AttemptedRecently(lastForcedAttempt, now) {
        r := Err(KeysUnavailable);
      } else {
        lastForcedAttempt := now;
        r := RefreshNow(response, at);
      }
      Record(Forced(None, now, ProviderFetchOf(response, at)));
    }

    /** The request goes away while it holds the lock: only the attempt is remembered. */
    method AbandonForcedRefresh(now: Seconds)
      requires Valid()
      modifies this
      ensures Valid() && trace == old(trace) + [Forced(None, now, Dropped(false))]
      ensures keys == old(keys) && fetchedAt == old(fetchedAt)
    {
      if !AttemptedRecently(lastForcedAttempt, now) {
        lastForcedAttempt := now;
      }
      Record(Forced(None, now, Dropped(false)));
    }

    /**
     Looks a key up as the GitHub verifier does, but refuses every key once a filled cache is too old, and serves an
     unknown key only if its own refresh succeeds.
     */
    method LookUp(kid: Kid, first: Seconds, locked: Seconds, response: Discovery, at: Seconds, last: Seconds)
      returns (r: Result<Key, KeyError>, ghost atFirst: seq<Event>, ghost atLock: seq<Event>)
      requires Valid()
      modifies this
      ensures Valid() && old(trace) <= atFirst <= atLock <= trace
      ensures Holds(atFirst, kid) && Fresh(atFirst, first, maxStaleness) ==> trace == atFirst && r == Ok(HeldKey(atFirst, kid))
      ensures LastSuccess(EMPTY, atFirst).Some? && !Fresh(atFirst, first, maxStaleness) ==>
        trace == atFirst && r == Err(KeysUnavailable)
      ensures LastSuccess(EMPTY, atFirst).None? || (Fresh(atFirst, first, maxStaleness) && !Holds(atFirst, kid)) ==>
        && atLock + [Forced(None, locked, ProviderFetchOf(response, at))] <= trace
        && r == if Recent(atLock, false, locked) then Err(KeysUnavailable)
                else if !DiscoveryBrings(response) then Err(if response.BadDiscovery? then Invalid else KeysUnavailable)
                else if !Fresh(trace, last, maxStaleness) then Err(KeysUnavailable)
                else if Holds(trace, kid) then Ok(HeldKey(trace, kid))
                else Err(Invalid)
    {
      hide Holds, HeldKey, Fresh, Recent, LastSuccess, DiscoveryBrings;
      Interfere();
      atFirst, atLock := trace, trace;
      CacheShowsHistory(trace, kid, first, maxStaleness);
      var cache := Cache(keys, fetchedAt, lastSoftAttempt, lastForcedAttempt, false, 0);
      if Usable(cache, first, maxStaleness) {
        if kid in keys {
          return Ok(keys[kid]), atFirst, atLock;
        }
      } else if keys != map[] {
        return Err(KeysUnavailable), atFirst, atLock;
      }
      Interfere();
      atLock := trace;
      var refresh := RefreshForUnknownKidIfDue(locked, response, at);
      if refresh.Err? {
        return Err(refresh.error), atFirst, atLock;
      }
      Interfere();
      CacheShowsHistory(trace, kid, last, maxStaleness);
      cache := Cache(keys, fetchedAt, lastSoftAttempt, lastForcedAttempt, false, 0);
      if !Usable(cache, last, maxStaleness) {
        return Err(KeysUnavailable), atFirst, atLock;
      }
      if kid !in keys {
        return Err(Invalid), atFirst, atLock;
      }
      return Ok(keys[kid]), atFirst, atLock;
    }
  }
}
