/**
 Lease arithmetic of the replay ledger: how long a record is kept, what is stored, and when it
 counts as expired.  Instants are integer nanoseconds since the epoch, because the lease length is
 cut to whole seconds and the stored time to whole microseconds.
 */
module Leases {
  import opened Wrappers
  import opened Numbers

  type Instant = int

  const NANOS: int := 1_000_000_000
  const NANOS_PER_MICRO: int := 1_000

  const RETENTION_SECONDS: int := 300
  const MAX_LEASE_DURATION_SECONDS: int := 960
  const MAX_CLEANUP_PAGES: nat := 2
  const LEEWAY_SECONDS: int := 30
  const MAX_SOURCE_LIFETIME_SECONDS: int := 600

  // First and last whole second that a chrono UTC time can hold.
  const CHRONO_MIN_SECONDS: int := -8_334_601_228_800
  const CHRONO_MAX_SECONDS: int := 8_210_266_876_799

  const LEDGER_LABEL := "github-oidc-exchange.apelogic.io/replay-ledger"
  const LEDGER_VERSION := "v1"
  const LEDGER_HOLDER := "github-oidc-exchange-replay-ledger"

  datatype ReplayError = Replayed | Unavailable

  /** The stored renew time, or text that is not an RFC 3339 time. */
  datatype StoredTime = At(instant: Instant) | Malformed

  datatype Lease = Lease(labels: map<string, string>, holder: string, durationSeconds: int, renewTime: StoredTime)

  /** Whole seconds of a clock reading; chrono rounds towards the past. */
  function WholeSeconds(reading: Instant): Seconds {
    reading / NANOS
  }

  /** Whole seconds of a signed duration; chrono rounds towards zero. */
  function TruncatedSeconds(duration: int): Seconds {
    if duration >= 0 then duration / NANOS else -((-duration) / NANOS)
  }

  function CheckedI64(value: int): Option<int> {
    if I64_MIN <= value <= I64_MAX then Some(value) else None
  }

  /** `retained_until`: the second up to which a record for an assertion must be kept. */
  function RetainedUntil(expiresAt: Seconds, now: Seconds): Result<Seconds, ReplayError> {
    match CheckedI64(expiresAt + RETENTION_SECONDS)
    case None => Err(Unavailable)
    case Some(retained) =>
      match CheckedI64(retained - now)
      case None => Err(Unavailable)
      case Some(duration) =>
        if duration <= 0 || duration > MAX_LEASE_DURATION_SECONDS then Err(Unavailable)
        else if retained < CHRONO_MIN_SECONDS || retained > CHRONO_MAX_SECONDS then Err(Unavailable)
        else Ok(retained)
  }

  /** `Lease::new`: whole seconds of lease, and the creation time cut to microseconds. */
  function NewLease(retained: Seconds, now: Instant): Result<Lease, ReplayError> {
    var duration := TruncatedSeconds(retained * NANOS - now);
    if duration < I32_MIN || duration > I32_MAX then Err(Unavailable)
    else Ok(Lease(map[LEDGER_LABEL := LEDGER_VERSION], LEDGER_HOLDER, duration,
                  At(now / NANOS_PER_MICRO * NANOS_PER_MICRO)))
  }

  /** The record `use_once` writes for an assertion expiring at `expiresAt`, called at `now`. */
  function LeaseFor(expiresAt: Seconds, now: Instant): Result<Lease, ReplayError> {
    match RetainedUntil(expiresAt, WholeSeconds(now))
    case Err(e) => Err(e)
    case Ok(retained) => NewLease(retained, now)
  }

  predicate Labelled(lease: Lease) {
    LEDGER_LABEL in lease.labels && lease.labels[LEDGER_LABEL] == LEDGER_VERSION
  }

  predicate Owned(lease: Lease) {
    Labelled(lease) && lease.holder == LEDGER_HOLDER
  }

  /** `expired`: only records of this ledger with a positive length and a readable time expire. */
  predicate Expired(lease: Lease, now: Instant) {
    Owned(lease) && lease.durationSeconds > 0 && lease.renewTime.At? &&
    lease.renewTime.instant + lease.durationSeconds * NANOS <= now
  }

  /** The record is kept for ever: no reading makes it expired. */
  ghost predicate Perpetual(lease: Lease) {
    forall now: Instant :: !Expired(lease, now)
  }

  // ----- time checks of the verifiers -----

  datatype Source = GitHub | GenericOidc

  datatype Times = Times(exp: Seconds, iat: Seconds, nbf: Option<Seconds>)

  /** The `exp` and `nbf` checks of the JWT library, which compare whole seconds with leeway. */
  predicate WithinLeeway(times: Times, now: Seconds) {
    times.exp >= now - LEEWAY_SECONDS &&
    (times.nbf.Some? ==> times.nbf.value <= now + LEEWAY_SECONDS)
  }

  /** Every time condition an assertion passes before it reaches the ledger. */
  predicate TimesAccepted(source: Source, times: Times, now: Seconds) {
    && I64_MIN <= times.exp <= I64_MAX && I64_MIN <= times.iat <= I64_MAX
    && WithinLeeway(times, now)
    && CheckedI64(times.exp - times.iat).Some?
    && 0 < times.exp - times.iat <= MAX_SOURCE_LIFETIME_SECONDS
    && times.iat <= now + LEEWAY_SECONDS
    && (source.GitHub? ==> times.nbf.Some? && times.nbf.value <= times.iat)
    && (source.GenericOidc? ==> times.exp > now)
  }

  /** The clock shows a time from 1970 up to the last one for which a record can still be written. */
  predicate PlausibleClock(reading: Instant) {
    0 <= reading && WholeSeconds(reading) <= CHRONO_MAX_SECONDS - MAX_LEASE_DURATION_SECONDS
  }

  // ----- what is stored -----

  /** Every record written is owned, is at most 960 s long, and expires within [exp+299 s, exp+300 s]. */
  lemma StoredExpiry(expiresAt: Seconds, now: Instant)
    requires LeaseFor(expiresAt, now).Ok?
    ensures var lease := LeaseFor(expiresAt, now).value;
            && Owned(lease)
            && 0 <= lease.durationSeconds <= MAX_LEASE_DURATION_SECONDS
            && lease.renewTime.At?
            && lease.renewTime.instant <= now < lease.renewTime.instant + NANOS_PER_MICRO
            && (expiresAt + 299) * NANOS
               <= lease.renewTime.instant + lease.durationSeconds * NANOS
               <= (expiresAt + 300) * NANOS
  {
    var retained := expiresAt + RETENTION_SECONDS;
    var left := retained * NANOS - now;
    assert now == NANOS * WholeSeconds(now) + now % NANOS;
    assert left == NANOS * (left / NANOS) + left % NANOS;
    assert now == NANOS_PER_MICRO * (now / NANOS_PER_MICRO) + now % NANOS_PER_MICRO;
    WholeSecondsHoldMicros(now);
  }

  /**
   A record is written exactly when 1 to 960 whole seconds are left until 300 s after expiry and all times can be
   represented.
   */
  lemma LeaseForExactly(expiresAt: Seconds, now: Instant)
    ensures var retained, whole := expiresAt + 300, WholeSeconds(now);
      LeaseFor(expiresAt, now).Ok? <==>
        && I64_MIN <= retained <= I64_MAX && 0 < retained - whole <= 960
        && CHRONO_MIN_SECONDS <= retained <= CHRONO_MAX_SECONDS
    ensures LeaseFor(expiresAt, now).Err? ==> LeaseFor(expiresAt, now).error == Unavailable
  {
    var left := (expiresAt + RETENTION_SECONDS) * NANOS - now;
    assert now == NANOS * WholeSeconds(now) + now % NANOS;
    assert 0 <= left < 960 * NANOS + NANOS ==> 0 <= TruncatedSeconds(left) <= 960;
  }

  /** The length of a record is what is left until 300 s after expiry, cut to whole seconds; its time is cut to microseconds. */
  lemma LeaseLength(expiresAt: Seconds, now: Instant)
    requires LeaseFor(expiresAt, now).Ok?
    ensures var lease := LeaseFor(expiresAt, now).value;
      && lease.durationSeconds * NANOS <= (expiresAt + 300) * NANOS - now < (lease.durationSeconds + 1) * NANOS
      && lease.renewTime.At? && lease.renewTime.instant % 1_000 == 0
      && lease.renewTime.instant <= now < lease.renewTime.instant + 1_000
  {
    var left := (expiresAt + RETENTION_SECONDS) * NANOS - now;
    assert left == NANOS * (left / NANOS) + left % NANOS;
    assert now == NANOS * WholeSeconds(now) + now % NANOS;
  }

  /** Cutting to microseconds never leaves the second. */
  lemma WholeSecondsHoldMicros(now: Instant)
    ensures NANOS * WholeSeconds(now) <= now / NANOS_PER_MICRO * NANOS_PER_MICRO
  {
  }

  /**
   The one record that never expires: the call was made, at a fraction of a second, in the very last
   second `retained_until` still allows.  The length is then cut to zero.
   */
  lemma PerpetualExactly(expiresAt: Seconds, now: Instant)
    requires LeaseFor(expiresAt, now).Ok?
    ensures Perpetual(LeaseFor(expiresAt, now).value)
       <==> WholeSeconds(now) == expiresAt + 299 && now % NANOS != 0
  {
    var lease := LeaseFor(expiresAt, now).value;
    StoredExpiry(expiresAt, now);
    var left := (expiresAt + RETENTION_SECONDS) * NANOS - now;
    assert left == NANOS * (left / NANOS) + left % NANOS;
    assert now == NANOS * WholeSeconds(now) + now % NANOS;
    if lease.durationSeconds > 0 {
      assert Expired(lease, lease.renewTime.instant + lease.durationSeconds * NANOS);
    }
  }

  /** Such a record is written: for an assertion that expired at the epoch, by a call 299 s and a nanosecond later. */
  lemma PerpetualIsWritten()
    ensures LeaseFor(0, 299 * NANOS + 1).Ok? && Perpetual(LeaseFor(0, 299 * NANOS + 1).value)
  {
    assert LeaseFor(0, 299 * NANOS + 1).Ok?;
    PerpetualExactly(0, 299 * NANOS + 1);
  }

  // ----- which accepted assertions get a record -----

  /** The call writes a record that will expire, rather than none or a perpetual one. */
  predicate Leased(expiresAt: Seconds, now: Instant) {
    LeaseFor(expiresAt, now).Ok? && 0 < LeaseFor(expiresAt, now).value.durationSeconds
  }

  /** In whole seconds the ledger reads its clock 30 s before to 269 s after the verifier, at 269 s on the full second only. */
  predicate WithinLag(verified: Instant, now: Instant) {
    var lag := WholeSeconds(now) - WholeSeconds(verified);
    -30 <= lag <= 268 || (lag == 269 && now % NANOS == 0)
  }

  /** Within that window every accepted assertion, of either kind, gets a positive lease of at most 960 s. */
  lemma AcceptedAssertionIsLeased(source: Source, times: Times, verified: Instant, now: Instant)
    requires PlausibleClock(verified) && PlausibleClock(now)
    requires TimesAccepted(source, times, WholeSeconds(verified))
    requires WithinLag(verified, now)
    ensures Leased(times.exp, now) && LeaseFor(times.exp, now).value.durationSeconds <= MAX_LEASE_DURATION_SECONDS
  {
  }

  /** Outside it there is an accepted GitHub assertion that gets no such lease, so the window is exact. */
  lemma LeasedExactly(verified: Instant, now: Instant)
    requires PlausibleClock(verified) && PlausibleClock(now)
    ensures (forall times :: TimesAccepted(GitHub, times, WholeSeconds(verified)) ==> Leased(times.exp, now))
       <==> WithinLag(verified, now)
  {
    var v := WholeSeconds(verified);
    if WithinLag(verified, now) {
      forall times | TimesAccepted(GitHub, times, v) ensures Leased(times.exp, now) {
        AcceptedAssertionIsLeased(GitHub, times, verified, now);
      }
    } else {
      var times := if WholeSeconds(now) < v then Times(v + 630, v + 30, Some(v + 30)) else Times(v - 30, v - 40, Some(v - 40));
      assert TimesAccepted(GitHub, times, v);
      assert now == NANOS * WholeSeconds(now) + now % NANOS;
      assert !Leased(times.exp, now);
    }
  }

  /** The last second at which a verifier still accepts an assertion. */
  function LastAccepted(source: Source, exp: Seconds): Seconds {
    match source
    case GitHub => exp + 30
    case GenericOidc => exp - 1
  }

  lemma AcceptedUntil(source: Source, times: Times, now: Seconds)
    requires TimesAccepted(source, times, now)
    ensures now <= LastAccepted(source, times.exp)
  {
  }
}
