/**
 The signing-key cache of the verifiers: soft and hard staleness, a background refresh, and a rate-limited
 refresh for unknown key IDs.  Refreshes are serialised by the refresh lock, so a run is a sequence of
 refresh events; readers come at any moment between them.
 */
module Jwks {
  import opened Wrappers
  import opened Numbers

  type Kid = string
  type Key = string
  type KeySet = map<Kid, Key>

  const JWKS_SOFT_REFRESH_SECONDS: int := 300
  const JWKS_REFRESH_RETRY_SECONDS: int := 30

  datatype Cache = Cache(
    keys: KeySet,
    fetchedAt: Seconds,
    lastSoft: Seconds,
    lastForced: Seconds,
    lastForcedFailed: bool,
    failures: nat)

  const EMPTY := Cache(map[], 0, 0, 0, false, 0)

  function SaturatingSub(a: Seconds, b: Seconds): Seconds {
    if a - b < I64_MIN then I64_MIN else if a - b > I64_MAX then I64_MAX else a - b
  }

  predicate AttemptedRecently(lastAttempt: Seconds, now: Seconds) {
    lastAttempt > 0 && SaturatingSub(now, lastAttempt) < JWKS_REFRESH_RETRY_SECONDS
  }

  /** A cache never filled is older than anything; a clock that stepped back makes it new. */
  function CacheAge(fetchedAt: Seconds, now: Seconds): nat {
    if fetchedAt <= 0 then U64_MODULUS - 1
    else if SaturatingSub(now, fetchedAt) < 0 then 0
    else SaturatingSub(now, fetchedAt)
  }

  predicate Usable(s: Cache, now: Seconds, maxStaleness: nat) {
    s.keys != map[] && CacheAge(s.fetchedAt, now) <= maxStaleness
  }

  // ----- the fetched document -----

  /** A key entry; `key` is present when the parameters decode to an RSA key. */
  datatype Jwk = Jwk(kid: Option<Kid>, alg: Option<string>, usage: Option<string>, key: Option<Key>)

  predicate UsableJwk(jwk: Jwk) {
    jwk.kid.Some? && jwk.alg == Some("RS256") && jwk.usage == Some("sig") && jwk.key.Some?
  }

  /** The usable keys of a document; a later entry replaces an earlier one with the same ID. */
  function UsableKeys(document: seq<Jwk>): KeySet {
    if document == [] then map[]
    else
      var last := document[|document| - 1];
      var earlier := UsableKeys(document[..|document| - 1]);
      if UsableJwk(last) then earlier[last.kid.value := last.key.value] else earlier
  }

  method CollectKeys(document: seq<Jwk>) returns (keys: KeySet)
    ensures keys == UsableKeys(document)
  {
    keys := map[];
    for i := 0 to |document|
      invariant keys == UsableKeys(document[..i])
    {
      assert document[..i + 1][..i] == document[..i];
      var jwk := document[i];
      if jwk.kid.None? || jwk.alg != Some("RS256") || jwk.usage != Some("sig") {
        continue;
      }
      if jwk.key.Some? {
        keys := keys[jwk.kid.value := jwk.key.value];
      }
    }
    assert document[..|document|] == document;
  }

  /** A cached key comes from the last usable entry with its ID. */
  lemma {:induction false} UsableKeysMeaning(document: seq<Jwk>, kid: Kid)
    ensures kid in UsableKeys(document) <==> exists i :: 0 <= i < |document| && UsableJwk(document[i]) && document[i].kid == Some(kid)
    ensures kid in UsableKeys(document) ==>
      exists i :: && 0 <= i < |document| && UsableJwk(document[i]) && document[i].kid == Some(kid)
                  && document[i].key == Some(UsableKeys(document)[kid])
                  && forall j :: i < j < |document| && UsableJwk(document[j]) ==> document[j].kid != Some(kid)
  {
    if document != [] {
      var n := |document| - 1;
      UsableKeysMeaning(document[..n], kid);
      if UsableJwk(document[n]) && document[n].kid == Some(kid) {
        assert document[n].key == Some(UsableKeys(document)[kid]);
      } else if kid in UsableKeys(document[..n]) {
        var i :| && 0 <= i < n && UsableJwk(document[..n][i]) && document[..n][i].kid == Some(kid)
                 && document[..n][i].key == Some(UsableKeys(document[..n])[kid])
                 && forall j :: i < j < n && UsableJwk(document[..n][j]) ==> document[..n][j].kid != Some(kid);
        assert document[i] == document[..n][i];
        assert forall j :: i < j < n ==> document[j] == document[..n][j];
        assert UsableJwk(document[i]) && document[i].kid == Some(kid);
      } else {
        assert forall j :: 0 <= j < n ==> document[j] == document[..n][j];
      }
    }
  }

  // ----- refreshes -----

  /**
   What a fetch brings, if one is made: a key set and the reading when it arrived, or a failure.  `Dropped`: the
   request that made it went away before it was over, possibly after its failure was counted.
   */
  datatype Fetch = Fetched(keys: KeySet, at: Seconds) | Failed(invalid: bool) | Dropped(counted: bool)

  /**
   A turn of the refresh lock.  `Forced` for a key ID re-checks the cache under the lock, as the GitHub
   verifier does; the generic OIDC verifier forces without re-checking.
   */
  datatype Event =
    | Soft(now: Seconds, ageNow: Seconds, fetch: Fetch)
    | Forced(recheck: Option<Kid>, now: Seconds, fetch: Fetch)
    | WarmUp(fetch: Fetch)

  predicate Succeeds(fetch: Fetch) {
    fetch.Fetched? && fetch.keys != map[]
  }

  function Refresh(s: Cache, fetch: Fetch): Cache {
    if Succeeds(fetch) then s.(keys := fetch.keys, fetchedAt := fetch.at)
    else if fetch == Dropped(false) then s
    else s.(failures := (s.failures + 1) % U64_MODULUS)
  }

  predicate Attempts(s: Cache, e: Event) {
    match e
    case Soft(now, ageNow, _) =>
      !(CacheAge(s.fetchedAt, ageNow) < JWKS_SOFT_REFRESH_SECONDS || AttemptedRecently(s.lastSoft, now))
    case Forced(recheck, now, _) =>
      !(recheck.Some? && recheck.value in s.keys) && !AttemptedRecently(s.lastForced, now)
    case WarmUp(_) => true
  }

  function Next(s: Cache, e: Event): Cache {
    if !Attempts(s, e) then s
    else
      match e
      case Soft(now, _, fetch) => Refresh(s.(lastSoft := now), fetch)
      case Forced(_, now, fetch) =>
        var t := Refresh(s.(lastForced := now), fetch);
        if fetch.Dropped? then t else t.(lastForcedFailed := !Succeeds(fetch))
      case WarmUp(fetch) => Refresh(s, fetch)
  }

  function Exec(s: Cache, trace: seq<Event>): Cache {
    if trace == [] then s else Next(Exec(s, trace[..|trace| - 1]), trace[|trace| - 1])
  }

  // ----- the cache is the last successful fetch -----

  /** The last fetch of a run that was made and succeeded. */
  function LastSuccess(s: Cache, trace: seq<Event>): Option<Fetch> {
    if trace == [] then None
    else
      var before, e := trace[..|trace| - 1], trace[|trace| - 1];
      if Attempts(Exec(s, before), e) && Succeeds(e.fetch) then Some(e.fetch) else LastSuccess(s, before)
  }

  /** Keys and age always come together from the last successful fetch; failures change neither. */
  lemma {:induction false} CacheIsLastSuccess(s: Cache, trace: seq<Event>)
    ensures var t := Exec(s, trace);
            match LastSuccess(s, trace)
            case Some(fetch) => fetch.Fetched? && t.keys == fetch.keys && t.fetchedAt == fetch.at && t.keys != map[]
            case None => t.keys == s.keys && t.fetchedAt == s.fetchedAt
    decreases |trace|
  {
    if trace != [] {
      CacheIsLastSuccess(s, trace[..|trace| - 1]);
    }
  }

  lemma {:induction false} FilledCacheStaysFilled(s: Cache, trace: seq<Event>)
    requires s.keys != map[]
    ensures Exec(s, trace).keys != map[]
  {
    CacheIsLastSuccess(s, trace);
  }

  // ----- fetches are rate-limited -----

  function Reading(e: Event): Seconds
    requires !e.WarmUp?
  {
    match e
    case Soft(now, _, _) => now
    case Forced(_, now, _) => now
  }

  predicate AttemptsKind(s: Cache, e: Event, soft: bool) {
    Attempts(s, e) && (if soft then e.Soft? else e.Forced?)
  }

  /** The readings at which fetches of one kind were made, in order. */
  function AttemptReadings(s: Cache, trace: seq<Event>, soft: bool): seq<Seconds> {
    if trace == [] then []
    else
      var before, e := trace[..|trace| - 1], trace[|trace| - 1];
      var earlier := AttemptReadings(s, before, soft);
      if AttemptsKind(Exec(s, before), e, soft) then earlier + [Reading(e)] else earlier
  }

  ghost predicate ClockPositive(trace: seq<Event>) {
    forall i :: 0 <= i < |trace| && !trace[i].WarmUp? ==> 0 < Reading(trace[i]) <= I64_MAX
  }

  ghost predicate Spaced(readings: seq<Seconds>) {
    forall i, j :: 0 <= i < j < |readings| ==> readings[j] - readings[i] >= JWKS_REFRESH_RETRY_SECONDS * (j - i)
  }

  function LastAttempt(s: Cache, soft: bool): Seconds {
    if soft then s.lastSoft else s.lastForced
  }

  /** A fetch records its reading, and comes at least the retry time after the last recorded one. */
  lemma AttemptIsRecorded(s: Cache, e: Event, soft: bool)
    ensures LastAttempt(Next(s, e), soft) == if AttemptsKind(s, e, soft) then Reading(e) else LastAttempt(s, soft)
    ensures AttemptsKind(s, e, soft) && 0 < Reading(e) <= I64_MAX && 0 < LastAttempt(s, soft) <= I64_MAX ==>
              Reading(e) - LastAttempt(s, soft) >= JWKS_REFRESH_RETRY_SECONDS
  {
  }

  lemma NothingIsSpaced()
    ensures Spaced([])
  {
  }

  lemma EmptyHasNoAttempt()
    ensures LastAttempt(EMPTY, true) == 0 && LastAttempt(EMPTY, false) == 0
  {
  }

  lemma SpacedExtends(readings: seq<Seconds>, next: Seconds)
    requires Spaced(readings)
    requires readings != [] ==> next - readings[|readings| - 1] >= JWKS_REFRESH_RETRY_SECONDS
    ensures Spaced(readings + [next])
  {
    var longer, n := readings + [next], |readings|;
    forall i | 0 <= i < n ensures longer[n] - longer[i] >= JWKS_REFRESH_RETRY_SECONDS * (n - i) {
      assert readings[n - 1] - readings[i] >= JWKS_REFRESH_RETRY_SECONDS * (n - 1 - i);
    }
  }

  /** As long as the clock shows positive times, n fetches of a kind span 30(n-1) seconds, even if it steps back. */
  lemma {:induction false} FetchesAreSpaced(trace: seq<Event>, soft: bool)
    requires ClockPositive(trace)
    ensures var readings := AttemptReadings(EMPTY, trace, soft);
            && Spaced(readings)
            && LastAttempt(Exec(EMPTY, trace), soft) == (if readings == [] then 0 else readings[|readings| - 1])
            && (forall r :: r in readings ==> 0 < r <= I64_MAX)
    decreases |trace|
  {
    hide Spaced, Attempts, Next, Refresh, LastAttempt;
    if trace == [] {
      NothingIsSpaced();
      EmptyHasNoAttempt();
    } else {
      var n := |trace| - 1;
      var before, e := trace[..n], trace[n];
      assert forall i :: 0 <= i < n ==> before[i] == trace[i];
      FetchesAreSpaced(before, soft);
      var earlier := AttemptReadings(EMPTY, before, soft);
      AttemptIsRecorded(Exec(EMPTY, before), e, soft);
      if AttemptsKind(Exec(EMPTY, before), e, soft) {
        assert 0 < Reading(trace[n]) <= I64_MAX;
        if earlier != [] {
          assert earlier[|earlier| - 1] in earlier;
        }
        SpacedExtends(earlier, Reading(e));
      }
    }
  }

  /** Every reading of the clock shows `r`. */
  ghost predicate AllAt(trace: seq<Event>, r: Seconds) {
    forall i :: 0 <= i < |trace| && !trace[i].WarmUp? ==> Reading(trace[i]) == r
  }

  lemma {:induction false} ReadingsAt(trace: seq<Event>, r: Seconds, soft: bool)
    requires AllAt(trace, r)
    ensures forall x :: x in AttemptReadings(EMPTY, trace, soft) ==> x == r
    decreases |trace|
  {
    hide AttemptsKind, Exec;
    if trace != [] {
      var n := |trace| - 1;
      assert forall i :: 0 <= i < n ==> trace[..n][i] == trace[i];
      ReadingsAt(trace[..n], r, soft);
      AttemptHasReading(Exec(EMPTY, trace[..n]), trace[n], soft);
      assert !trace[n].WarmUp? ==> Reading(trace[n]) == r;
    }
  }

  lemma AttemptHasReading(s: Cache, e: Event, soft: bool)
    ensures AttemptsKind(s, e, soft) ==> !e.WarmUp?
  {
  }

  lemma RepeatsAreNotSpaced(readings: seq<Seconds>, r: Seconds)
    requires |readings| > 1 && forall x :: x in readings ==> x == r
    ensures !Spaced(readings)
  {
    assert readings[0] in readings && readings[1] in readings;
    assert readings[1] - readings[0] < JWKS_REFRESH_RETRY_SECONDS * (1 - 0);
  }

  /** A clock at the epoch or before it switches both limiters off: any number of fetches at one reading. */
  lemma {:induction false} LimiterNeedsPositiveClock(r: Seconds, n: nat, soft: bool) returns (trace: seq<Event>)
    requires r <= 0
    ensures AllAt(trace, r) && |AttemptReadings(EMPTY, trace, soft)| == n
    ensures var s := Exec(EMPTY, trace); s.keys == map[] && s.fetchedAt == 0 && s.lastSoft <= 0 && s.lastForced <= 0
  {
    if n == 0 {
      trace := [];
    } else {
      var before := LimiterNeedsPositiveClock(r, n - 1, soft);
      trace := before + [if soft then Soft(r, r, Failed(false)) else Forced(None, r, Failed(false))];
      assert trace[..|trace| - 1] == before;
    }
  }

  /** At one reading a limiter admits at most one fetch if and only if that reading is positive. */
  lemma LimiterExactly(r: Seconds, soft: bool)
    requires r <= I64_MAX
    ensures (forall trace :: AllAt(trace, r) ==> |AttemptReadings(EMPTY, trace, soft)| <= 1) <==> 0 < r
  {
    if 0 < r {
      forall trace | AllAt(trace, r) ensures |AttemptReadings(EMPTY, trace, soft)| <= 1 {
        ReadingsAt(trace, r, soft);
        FetchesAreSpaced(trace, soft);
        var readings := AttemptReadings(EMPTY, trace, soft);
        hide AllAt, Spaced;
        if |readings| > 1 {
          RepeatsAreNotSpaced(readings, r);
        }
      }
    } else {
      var trace := LimiterNeedsPositiveClock(r, 2, soft);
      assert |AttemptReadings(EMPTY, trace, soft)| == 2;
    }
  }

  // ----- what the history says -----

  /** The last fetch of a kind was made at most 30 s ago, at a positive reading. */
  predicate Recent(trace: seq<Event>, soft: bool, now: Seconds) {
    var readings := AttemptReadings(EMPTY, trace, soft);
    readings != [] && 0 < readings[|readings| - 1] && now - readings[|readings| - 1] < JWKS_REFRESH_RETRY_SECONDS
  }

  /** The last forced fetch that was not dropped had failed. */
  function LastForcedFailed(trace: seq<Event>): bool {
    if trace == [] then false
    else
      var before, e := trace[..|trace| - 1], trace[|trace| - 1];
      if AttemptsKind(Exec(EMPTY, before), e, false) && !e.fetch.Dropped? then !Succeeds(e.fetch) else LastForcedFailed(before)
  }

  predicate Holds(trace: seq<Event>, kid: Kid) {
    LastSuccess(EMPTY, trace).Some? && LastSuccess(EMPTY, trace).value.Fetched? && kid in LastSuccess(EMPTY, trace).value.keys
  }

  function HeldKey(trace: seq<Event>, kid: Kid): Key
    requires Holds(trace, kid)
  {
    LastSuccess(EMPTY, trace).value.keys[kid]
  }

  /** The last successful fetch is at most this old. */
  predicate Fresh(trace: seq<Event>, now: Seconds, bound: nat) {
    LastSuccess(EMPTY, trace).Some? && LastSuccess(EMPTY, trace).value.Fetched? &&
    CacheAge(LastSuccess(EMPTY, trace).value.at, now) <= bound
  }

  /** Ages of times after the epoch are differences; a clock that stepped back shows age zero. */
  lemma AgeExactly(fetchedAt: Seconds, now: Seconds)
    requires I64_MIN <= now <= I64_MAX && fetchedAt <= I64_MAX
    ensures fetchedAt > 0 ==> CacheAge(fetchedAt, now) == if now < fetchedAt then 0 else now - fetchedAt
    ensures fetchedAt <= 0 ==> CacheAge(fetchedAt, now) == 0xffff_ffff_ffff_ffff
  {
  }

  /** The cache remembers the history: the last successful fetch, the last attempts, and how the last forced one ended. */
  lemma {:induction false} CacheShowsHistory(trace: seq<Event>, kid: Kid, now: Seconds, bound: nat)
    ensures var s := Exec(EMPTY, trace);
      && (kid in s.keys <==> Holds(trace, kid))
      && (kid in s.keys ==> s.keys[kid] == HeldKey(trace, kid))
      && (Usable(s, now, bound) <==> Fresh(trace, now, bound))
      && (s.keys != map[] <==> LastSuccess(EMPTY, trace).Some?)
      && (AttemptedRecently(s.lastForced, now) <==> Recent(trace, false, now))
      && (AttemptedRecently(s.lastSoft, now) <==> Recent(trace, true, now))
      && s.lastForcedFailed == LastForcedFailed(trace)
  {
    CacheIsLastSuccess(EMPTY, trace);
    LastAttemptIsLastReading(trace, true);
    LastAttemptIsLastReading(trace, false);
    FlagIsLastOutcome(trace);
    hide Exec, LastSuccess, AttemptReadings, LastForcedFailed;
  }

  lemma {:induction false} LastAttemptIsLastReading(trace: seq<Event>, soft: bool)
    ensures var readings := AttemptReadings(EMPTY, trace, soft);
            LastAttempt(Exec(EMPTY, trace), soft) == (if readings == [] then 0 else readings[|readings| - 1])
    decreases |trace|
  {
    if trace == [] {
      EmptyHasNoAttempt();
    } else {
      var before, e := trace[..|trace| - 1], trace[|trace| - 1];
      LastAttemptIsLastReading(before, soft);
      AttemptIsRecorded(Exec(EMPTY, before), e, soft);
      hide Attempts, Next, LastAttempt;
    }
  }

  lemma {:induction false} FlagIsLastOutcome(trace: seq<Event>)
    ensures Exec(EMPTY, trace).lastForcedFailed == LastForcedFailed(trace)
    decreases |trace|
  {
    if trace != [] {
      var before, e := trace[..|trace| - 1], trace[|trace| - 1];
      FlagIsLastOutcome(before);
      FlagAfter(Exec(EMPTY, before), e);
      hide Next, Attempts;
    }
  }

  lemma FlagAfter(s: Cache, e: Event)
    ensures Next(s, e).lastForcedFailed ==
            if AttemptsKind(s, e, false) && !e.fetch.Dropped? then !Succeeds(e.fetch) else s.lastForcedFailed
  {
  }

  /**
   When a fetch is made: a warm-up always; a forced one unless the last successful fetch already holds the key or a
   forced one was recent; a background one unless the last successful fetch is under 300 s old or one was recent.
   */
  lemma AttemptedExactly(trace: seq<Event>, e: Event)
    ensures e.WarmUp? ==> Attempts(Exec(EMPTY, trace), e)
    ensures e.Forced? ==>
      (Attempts(Exec(EMPTY, trace), e) <==>
       !(e.recheck.Some? && Holds(trace, e.recheck.value)) && !Recent(trace, false, e.now))
    ensures e.Soft? ==> (Attempts(Exec(EMPTY, trace), e) <==> !Fresh(trace, e.ageNow, 299) && !Recent(trace, true, e.now))
  {
    match e {
      case WarmUp(_) =>
      case Forced(recheck, now, _) =>
        CacheShowsHistory(trace, if recheck.Some? then recheck.value else "", now, 0);
        hide Holds, Recent, Exec;
      case Soft(now, ageNow, _) =>
        CacheShowsHistory(trace, "", now, 0);
        CacheIsLastSuccess(EMPTY, trace);
        hide Recent, Exec, LastSuccess;
    }
  }

  // ----- reading a key -----

  datatype KeyError = Invalid | KeysUnavailable

  datatype FirstLook = Served(key: Key) | HardStale | Unknown

  /** The GitHub verifier's first look at the cache. */
  function Look(s: Cache, kid: Kid, now: Seconds, maxStaleness: nat): FirstLook {
    if Usable(s, now, maxStaleness) && kid in s.keys then Served(s.keys[kid])
    else if kid in s.keys then HardStale
    else Unknown
  }

  /** The generic OIDC verifier's: any key ID is refused once a filled cache is past its bound. */
  function ProviderLook(s: Cache, kid: Kid, now: Seconds, maxStaleness: nat): FirstLook {
    if Usable(s, now, maxStaleness) then (if kid in s.keys then Served(s.keys[kid]) else Unknown)
    else if s.keys != map[] then HardStale
    else Unknown
  }

  /** `check_ready` holds exactly when every cached key, and when any key, is served without a fetch. */
  lemma ReadyMeansServed(s: Cache, now: Seconds, maxStaleness: nat)
    ensures Usable(s, now, maxStaleness) <==> exists kid :: Look(s, kid, now, maxStaleness).Served?
    ensures s.keys != map[] ==>
      (Usable(s, now, maxStaleness) <==> forall kid :: kid in s.keys ==> Look(s, kid, now, maxStaleness) == Served(s.keys[kid]))
    ensures forall kid :: Look(s, kid, now, maxStaleness).Served? <==> ProviderLook(s, kid, now, maxStaleness).Served?
  {
    if s.keys != map[] {
      var kid :| kid in s.keys;
      assert Look(s, kid, now, maxStaleness).Served? <==> Usable(s, now, maxStaleness);
    }
  }

  // ----- availability -----

  /** One outage, from second `from` to second `to`; only fetches that overlap it fail. */
  datatype Outage = Outage(from: Seconds, to: Seconds)

  /** Reading at the last background tick, or at the moment the loop starts. */
  function LastTick(trace: seq<Event>, start: Seconds): Seconds {
    if trace == [] then start
    else
      var e := trace[|trace| - 1];
      if e.Soft? then e.now else LastTick(trace[..|trace| - 1], start)
  }

  /** Reading when it was over; `ends` gives that of each event. */
  function LastEnd(trace: seq<Event>, ends: seq<Seconds>, start: Seconds): Seconds
    requires |ends| == |trace|
  {
    if trace == [] then start
    else
      var n := |trace| - 1;
      if trace[n].Soft? then ends[n] else LastEnd(trace[..n], ends[..n], start)
  }

  /**
   The loop sleeps 30 s from the end of a tick to the next one, and a tick is over at most `gap` seconds after
   the previous one began.
   */
  ghost predicate TickTimely(e: Event, end: Seconds, lastTick: Seconds, lastEnd: Seconds, gap: nat)
    requires e.Soft?
  {
    lastEnd + JWKS_REFRESH_RETRY_SECONDS <= e.now <= e.ageNow <= end <= lastTick + gap && end <= I64_MAX
  }

  /** A tick's fetch fails only if it overlaps the outage.  Fetches by requests may succeed or fail as they like. */
  ghost predicate TickFetches(e: Event, end: Seconds, outage: Outage)
    requires e.Soft?
  {
    if Succeeds(e.fetch) then e.ageNow <= e.fetch.at <= end else e.now <= outage.to && outage.from <= end
  }

  ghost predicate EventTimely(s: Cache, e: Event, end: Seconds, lastTick: Seconds, lastEnd: Seconds, gap: nat, outage: Outage) {
    && (e.Soft? ==> TickTimely(e, end, lastTick, lastEnd, gap) && TickFetches(e, end, outage))
    && (Succeeds(e.fetch) ==> e.fetch.at >= s.fetchedAt)
  }

  ghost predicate RunTimely(s: Cache, trace: seq<Event>, ends: seq<Seconds>, start: Seconds, gap: nat, outage: Outage) {
    |ends| == |trace| &&
    (trace == [] ||
     var n := |trace| - 1;
     && RunTimely(s, trace[..n], ends[..n], start, gap, outage)
     && EventTimely(Exec(s, trace[..n]), trace[n], ends[n], LastTick(trace[..n], start), LastEnd(trace[..n], ends[..n], start),
                    gap, outage))
  }

  // ----- how old the cache gets -----

  /** The greatest age the cache reaches with ticks at most `gap` apart and one outage of `length` seconds. */
  function OutageBound(gap: nat, length: nat): nat {
    if gap < JWKS_REFRESH_RETRY_SECONDS then JWKS_SOFT_REFRESH_SECONDS - 1 + gap
    else JWKS_SOFT_REFRESH_SECONDS - 1 + 2 * gap + Reach(gap, length)
  }

  /** How far a sequence of ticks, at least 30 s and at most `gap` apart, reaches within `time`. */
  function Reach(gap: nat, time: nat): nat {
    var ticks := time / JWKS_REFRESH_RETRY_SECONDS;
    if time < gap * ticks then time else gap * ticks
  }

  /** The bound is never more than linear, and is linear when ticks are a minute apart and the outage outlasts a pause. */
  lemma OutageBoundIsLinear(gap: nat, length: nat)
    ensures OutageBound(gap, length) <= 299 + 2 * gap + length
    ensures gap >= 60 && length >= 30 ==> OutageBound(gap, length) == 299 + 2 * gap + length
  {
    if gap >= 60 && length >= 30 {
      var ticks := length / JWKS_REFRESH_RETRY_SECONDS;
      assert length < 30 * ticks + 30 <= 60 * ticks;
      MoreTicksReachFurther(ticks, 60, gap);
    }
  }

  /** Ticks fail since the one that was over at `first`: that one and `more` later ones. */
  ghost predicate Failing(s: Cache, lastTick: Seconds, lastEnd: Seconds, gap: nat, outage: Outage, first: Seconds, more: nat) {
    && first < s.fetchedAt + JWKS_SOFT_REFRESH_SECONDS + gap
    && outage.from <= first && lastTick <= outage.to
    && first + JWKS_REFRESH_RETRY_SECONDS * more <= lastEnd
    && (more > 0 ==> first + JWKS_REFRESH_RETRY_SECONDS * more <= lastTick)
    && lastTick <= first + gap * more
  }

  /** Either the last tick found the cache fresh, or ticks have been failing in the outage since one that did. */
  ghost predicate Healthy(s: Cache, lastTick: Seconds, lastEnd: Seconds, gap: nat, outage: Outage) {
    && s.keys != map[] && s.fetchedAt > 0 && 0 < lastTick <= lastEnd
    && s.lastSoft <= lastTick
    && (lastTick < s.fetchedAt + JWKS_SOFT_REFRESH_SECONDS ||
        exists first: Seconds, more: nat :: Failing(s, lastTick, lastEnd, gap, outage, first, more))
  }

  lemma TickStaysHealthy(s: Cache, e: Event, end: Seconds, lastTick: Seconds, lastEnd: Seconds, gap: nat, outage: Outage)
    requires Healthy(s, lastTick, lastEnd, gap, outage)
    requires e.Soft? && EventTimely(s, e, end, lastTick, lastEnd, gap, outage)
    ensures Healthy(Next(s, e), e.now, end, gap, outage)
  {
    var t := Next(s, e);
    TickOutcome(s, e, end, lastTick, lastEnd, gap, outage);
    if t.fetchedAt + JWKS_SOFT_REFRESH_SECONDS <= e.now {
      hide Next, TickFetches;
      if lastTick < s.fetchedAt + JWKS_SOFT_REFRESH_SECONDS {
        assert Failing(t, e.now, end, gap, outage, end, 0);
      } else {
        var first: Seconds, more: nat :| Failing(s, lastTick, lastEnd, gap, outage, first, more);
        OneMoreFails(s, t, e, end, lastTick, lastEnd, gap, outage, first, more);
      }
    }
  }

  /** A tick leaves the cache fresh, or fails in the outage and leaves it as it is. */
  lemma TickOutcome(s: Cache, e: Event, end: Seconds, lastTick: Seconds, lastEnd: Seconds, gap: nat, outage: Outage)
    requires s.keys != map[] && s.fetchedAt > 0 && 0 < lastTick <= lastEnd && s.lastSoft <= lastTick
    requires e.Soft? && TickTimely(e, end, lastTick, lastEnd, gap) && TickFetches(e, end, outage)
    ensures var t := Next(s, e);
      && t.keys != map[] && t.fetchedAt > 0 && t.lastSoft <= e.now
      && (e.now < t.fetchedAt + JWKS_SOFT_REFRESH_SECONDS ||
          (t.fetchedAt == s.fetchedAt && e.now <= outage.to && outage.from <= end))
  {
    assert !AttemptedRecently(s.lastSoft, e.now);
  }

  lemma OneMoreFails(s: Cache, t: Cache, e: Event, end: Seconds, lastTick: Seconds, lastEnd: Seconds,
                     gap: nat, outage: Outage, first: Seconds, more: nat)
    requires Failing(s, lastTick, lastEnd, gap, outage, first, more) && t.fetchedAt == s.fetchedAt
    requires e.Soft? && TickTimely(e, end, lastTick, lastEnd, gap) && e.now <= outage.to
    ensures Failing(t, e.now, end, gap, outage, first, more + 1)
  {
    assert gap * (more + 1) == gap * more + gap;
  }

  lemma OtherStaysHealthy(s: Cache, e: Event, end: Seconds, lastTick: Seconds, lastEnd: Seconds, gap: nat, outage: Outage)
    requires Healthy(s, lastTick, lastEnd, gap, outage)
    requires !e.Soft? && EventTimely(s, e, end, lastTick, lastEnd, gap, outage)
    ensures Healthy(Next(s, e), lastTick, lastEnd, gap, outage)
  {
    var t := Next(s, e);
    if lastTick >= t.fetchedAt + JWKS_SOFT_REFRESH_SECONDS {
      var first: Seconds, more: nat :| Failing(s, lastTick, lastEnd, gap, outage, first, more);
      assert Failing(t, lastTick, lastEnd, gap, outage, first, more);
    }
  }

  lemma {:induction false} StaysHealthy(s: Cache, trace: seq<Event>, ends: seq<Seconds>, start: Seconds, gap: nat, outage: Outage)
    requires Healthy(s, start, start, gap, outage)
    requires RunTimely(s, trace, ends, start, gap, outage)
    ensures Healthy(Exec(s, trace), LastTick(trace, start), LastEnd(trace, ends, start), gap, outage)
    decreases |trace|
  {
    hide Healthy, EventTimely, Next;
    if trace != [] {
      var n := |trace| - 1;
      StaysHealthy(s, trace[..n], ends[..n], start, gap, outage);
      var t, tick, over := Exec(s, trace[..n]), LastTick(trace[..n], start), LastEnd(trace[..n], ends[..n], start);
      if trace[n].Soft? {
        TickStaysHealthy(t, trace[n], ends[n], tick, over, gap, outage);
      } else {
        OtherStaysHealthy(t, trace[n], ends[n], tick, over, gap, outage);
      }
    }
  }

  /** Without room for a tick there is none. */
  lemma {:induction false} NoTicks(s: Cache, trace: seq<Event>, ends: seq<Seconds>, start: Seconds, gap: nat, outage: Outage)
    requires gap < JWKS_REFRESH_RETRY_SECONDS && s.keys != map[] && s.fetchedAt > 0
    requires RunTimely(s, trace, ends, start, gap, outage)
    ensures var t := Exec(s, trace);
      && LastTick(trace, start) == start && LastEnd(trace, ends, start) == start
      && t.fetchedAt >= s.fetchedAt && t.keys != map[]
    decreases |trace|
  {
    if trace != [] {
      NoTicks(s, trace[..|trace| - 1], ends[..|trace| - 1], start, gap, outage);
    }
  }

  /** A run of the loop that starts with a fresh cache, and a moment up to the end of its next background tick. */
  ghost predicate Scenario(s: Cache, trace: seq<Event>, ends: seq<Seconds>, start: Seconds, gap: nat, outage: Outage, now: Seconds) {
    && s.keys != map[] && 0 < s.fetchedAt && s.lastSoft <= start
    && 0 < start < s.fetchedAt + JWKS_SOFT_REFRESH_SECONDS
    && outage.from <= outage.to
    && RunTimely(s, trace, ends, start, gap, outage)
    && 0 < now <= I64_MAX && now <= LastTick(trace, start) + gap
  }

  /** After a successful fetch the service stays ready through an outage, if the bound is within the hard-staleness one. */
  lemma ReadyThroughOutage(s: Cache, trace: seq<Event>, ends: seq<Seconds>, start: Seconds, gap: nat, outage: Outage,
                           maxStaleness: nat, now: Seconds)
    requires Scenario(s, trace, ends, start, gap, outage, now)
    requires OutageBound(gap, outage.to - outage.from) <= maxStaleness
    ensures Usable(Exec(s, trace), now, maxStaleness)
  {
    assert |ends| == |trace|;
    hide RunTimely;
    if gap < JWKS_REFRESH_RETRY_SECONDS {
      NoTicks(s, trace, ends, start, gap, outage);
    } else {
      var t, tick, over := Exec(s, trace), LastTick(trace, start), LastEnd(trace, ends, start);
      StaysHealthy(s, trace, ends, start, gap, outage);
      if tick >= t.fetchedAt + JWKS_SOFT_REFRESH_SECONDS {
        var first: Seconds, more: nat :| Failing(t, tick, over, gap, outage, first, more);
        FailingReach(t, tick, over, gap, outage, first, more);
      }
    }
  }

  lemma FailingReach(s: Cache, lastTick: Seconds, lastEnd: Seconds, gap: nat, outage: Outage, first: Seconds, more: nat)
    requires outage.from <= outage.to && Failing(s, lastTick, lastEnd, gap, outage, first, more)
    ensures lastTick - first <= Reach(gap, outage.to - outage.from)
  {
    var time := outage.to - outage.from;
    var most := time / JWKS_REFRESH_RETRY_SECONDS;
    assert lastTick - first <= time;
    if more > 0 {
      AtMostAsManyFit(more, time);
    }
    MoreTicksReachFurther(gap, more, most);
  }

  lemma AtMostAsManyFit(ticks: nat, time: nat)
    requires JWKS_REFRESH_RETRY_SECONDS * ticks <= time
    ensures ticks <= time / JWKS_REFRESH_RETRY_SECONDS
  {
  }

  lemma MoreTicksReachFurther(gap: nat, few: nat, many: nat)
    requires few <= many
    ensures gap * few <= gap * many
  {
  }

  // ----- the bound is reached -----

  const FILLED := Cache(map["k" := "v"], 2, 0, 0, false, 0)

  /** The readings of a run whose events take no time. */
  function Instants(trace: seq<Event>): seq<Seconds>
    requires forall e :: e in trace ==> e.Soft?
  {
    seq(|trace|, i requires 0 <= i < |trace| => trace[i].now)
  }

  /** One more tick that takes no time. */
  lemma OneMoreTick(s: Cache, before: seq<Event>, e: Event, start: Seconds, gap: nat, outage: Outage)
    requires forall b :: b in before ==> b.Soft?
    requires e.Soft? && e.ageNow == e.now <= I64_MAX && TickFetches(e, e.now, outage)
    requires RunTimely(s, before, Instants(before), start, gap, outage)
    requires LastTick(before, start) == LastEnd(before, Instants(before), start)
    requires 30 <= e.now - LastTick(before, start) <= gap
    requires Succeeds(e.fetch) ==> e.fetch.at >= Exec(s, before).fetchedAt
    ensures var trace := before + [e];
      && RunTimely(s, trace, Instants(trace), start, gap, outage)
      && LastTick(trace, start) == LastEnd(trace, Instants(trace), start) == e.now
      && Exec(s, trace) == Next(Exec(s, before), e)
  {
    var trace := before + [e];
    assert trace[..|before|] == before && Instants(trace)[..|before|] == Instants(before);
  }

  /** `k` ticks 30 s apart that find the cache fresh; the tenth as late as possible. */
  function FreshTicks(k: nat): (ticks: seq<Event>)
    ensures forall e :: e in ticks ==> e.Soft?
  {
    if k == 0 then [] else FreshTicks(k - 1) + [Soft(1 + 30 * k, 1 + 30 * k, Fetched(FILLED.keys, 1 + 30 * k))]
  }

  lemma {:induction false} FreshTicksPass(k: nat, gap: nat, outage: Outage)
    requires k <= 10 && gap >= JWKS_REFRESH_RETRY_SECONDS
    ensures var trace := FreshTicks(k);
      && RunTimely(FILLED, trace, Instants(trace), 1, gap, outage)
      && Exec(FILLED, trace) == FILLED
      && LastTick(trace, 1) == LastEnd(trace, Instants(trace), 1) == 1 + 30 * k
  {
    if k > 0 {
      FreshTicksPass(k - 1, gap, outage);
      var now := 1 + 30 * k;
      var e := Soft(now, now, Fetched(FILLED.keys, now));
      assert "k" in FILLED.keys;
      assert !Attempts(FILLED, e);
      hide RunTimely, Exec;
      OneMoreTick(FILLED, FreshTicks(k - 1), e, 1, gap, outage);
    }
  }

  /** Tick `i` of `ticks` that reach `total` in steps between 30 and `gap`: as far as possible, but not too far. */
  function TickAt(gap: nat, ticks: nat, total: nat, i: nat): int {
    if gap * i < total - 30 * (ticks - i) then gap * i else total - 30 * (ticks - i)
  }

  lemma TickSteps(gap: nat, ticks: nat, total: nat, i: nat)
    requires gap >= 30 && 30 * ticks <= total <= gap * ticks && i < ticks
    ensures 30 <= TickAt(gap, ticks, total, i + 1) - TickAt(gap, ticks, total, i) <= gap
  {
    assert gap * (i + 1) == gap * i + gap;
  }

  lemma TickBounds(gap: nat, ticks: nat, total: nat, i: nat)
    requires gap >= 30 && 30 * ticks <= total <= gap * ticks && i <= ticks
    ensures 0 <= TickAt(gap, ticks, total, i) <= total
    ensures TickAt(gap, ticks, total, 0) == 0 && TickAt(gap, ticks, total, ticks) == total
  {
    assert 0 <= gap * i;
  }

  /** After the last fresh tick, one that fails as late as possible, and `i` more. */
  function FailingTicks(gap: nat, ticks: nat, total: nat, i: nat): (trace: seq<Event>)
    ensures forall e :: e in trace ==> e.Soft?
  {
    var now := 301 + gap + TickAt(gap, ticks, total, i);
    (if i == 0 then FreshTicks(10) else FailingTicks(gap, ticks, total, i - 1)) + [Soft(now, now, Failed(false))]
  }

  lemma {:induction false} FailingTicksPass(gap: nat, length: nat, ticks: nat, total: nat, i: nat)
    requires gap >= 30 && 30 * ticks <= total <= gap * ticks && i <= ticks
    requires total <= length && 301 + gap + total <= I64_MAX
    ensures var outage := Outage(301 + gap, 301 + gap + length);
            var trace := FailingTicks(gap, ticks, total, i);
            && RunTimely(FILLED, trace, Instants(trace), 1, gap, outage)
            && Exec(FILLED, trace).keys == FILLED.keys && Exec(FILLED, trace).fetchedAt == 2
            && LastTick(trace, 1) == LastEnd(trace, Instants(trace), 1) == 301 + gap + TickAt(gap, ticks, total, i)
  {
    hide TickAt, FreshTicks, RunTimely, Exec, LastTick, LastEnd, Instants;
    var outage := Outage(301 + gap, 301 + gap + length);
    TickBounds(gap, ticks, total, i);
    var now := 301 + gap + TickAt(gap, ticks, total, i);
    var e := Soft(now, now, Failed(false));
    if i == 0 {
      FreshTicksPass(10, gap, outage);
      OneMoreTick(FILLED, FreshTicks(10), e, 1, gap, outage);
    } else {
      FailingTicksPass(gap, length, ticks, total, i - 1);
      TickSteps(gap, ticks, total, i - 1);
      OneMoreTick(FILLED, FailingTicks(gap, ticks, total, i - 1), e, 1, gap, outage);
    }
  }

  /** A run and a moment at which the cache has exactly the age of the bound. */
  lemma OldestCache(gap: nat, length: nat)
    returns (trace: seq<Event>, ends: seq<Seconds>, start: Seconds, outage: Outage, now: Seconds)
    requires 2 + OutageBound(gap, length) <= I64_MAX
    ensures outage.to - outage.from == length
    ensures Scenario(FILLED, trace, ends, start, gap, outage, now)
    ensures CacheAge(Exec(FILLED, trace).fetchedAt, now) == OutageBound(gap, length)
  {
    assert "k" in FILLED.keys;
    if gap < JWKS_REFRESH_RETRY_SECONDS {
      trace, ends, start, outage, now := [], [], 301, Outage(1, 1 + length), 301 + gap;
    } else {
      hide RunTimely, FailingTicks, Exec, LastEnd, LastTick;
      var ticks, total := length / JWKS_REFRESH_RETRY_SECONDS, Reach(gap, length);
      MoreTicksReachFurther(ticks, JWKS_REFRESH_RETRY_SECONDS, gap);
      FailingTicksPass(gap, length, ticks, total, ticks);
      TickBounds(gap, ticks, total, ticks);
      trace, start, outage := FailingTicks(gap, ticks, total, ticks), 1, Outage(301 + gap, 301 + gap + length);
      ends := Instants(trace);
      now := 301 + 2 * gap + total;
    }
  }

  /**
   The service stays ready through every outage of this length, in every timely run, if and only if the bound is
   within the hard-staleness one.  (The premise keeps the readings of the longest run within 64 bits.)
   */
  lemma ReadyThroughOutageExactly(gap: nat, length: nat, maxStaleness: nat)
    requires 2 + OutageBound(gap, length) <= I64_MAX
    ensures (forall s, trace, ends, start, outage: Outage, now ::
               Scenario(s, trace, ends, start, gap, outage, now) && outage.to - outage.from == length ==>
               Usable(Exec(s, trace), now, maxStaleness))
       <==> OutageBound(gap, length) <= maxStaleness
  {
    hide Scenario, OutageBound;
    if OutageBound(gap, length) <= maxStaleness {
      forall s, trace, ends, start, outage: Outage, now
        | Scenario(s, trace, ends, start, gap, outage, now) && outage.to - outage.from == length
        ensures Usable(Exec(s, trace), now, maxStaleness)
      {
        ReadyThroughOutage(s, trace, ends, start, gap, outage, maxStaleness, now);
      }
    } else {
      var trace, ends, start, outage, now := OldestCache(gap, length);
      assert !Usable(Exec(FILLED, trace), now, maxStaleness);
    }
  }
}
