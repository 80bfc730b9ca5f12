/**
 What uses of the ledger do to its records when a replica is alone on a working server: each accepted use cleans
 up at most one expired record, and a supply of them clears every record that was expired, unless the records they
 write expire and take its place.
 */
module Uses {
  import opened Wrappers
  import opened Numbers
  import opened Leases
  import opened Cleanup
  import Decimal

  /** The record a use writes is live when it is written. */
  lemma NewRecordIsLive(expiresAt: Seconds, now: Instant)
    requires LeaseFor(expiresAt, now).Ok?
    ensures !Expired(LeaseFor(expiresAt, now).value, now)
  {
    var left := (expiresAt + RETENTION_SECONDS) * NANOS - now;
    assert left == NANOS * (left / NANOS) + left % NANOS;
    assert now == NANOS * WholeSeconds(now) + now % NANOS;
    StoredExpiry(expiresAt, now);
  }

  /**
   One use.  Without a record to write, or with a live one in place, it is refused and changes nothing.  Otherwise
   its record is stored, every other record is kept or, one at most, gone because it was owned and expired; and with
   a fresh listing of fewer than 50 records one such is gone if there was any.
   */
  ghost predicate UsedOnce(before: Ledger, use: Use, after: Ledger, r: Result<(), ReplayError>) {
    match LeaseFor(use.expiresAt, use.now)
    case Err(error) => r == Err(error) && after == before
    case Ok(lease) =>
      if use.name in before.live && !Expired(before.live[use.name], use.now) then r == Err(Replayed) && after == before
      else
        && r == Ok(())
        && use.name in after.live && after.live[use.name] == lease
        && OthersKept(before, use, after)
        && (before.cursor.None? && |before.live| < 50 && SomeOtherExpired(before, use) ==>
              exists n :: n in before.live && n !in after.live)
  }

  ghost predicate OthersKept(before: Ledger, use: Use, after: Ledger) {
    && (forall n :: n in after.live && n != use.name ==> n in before.live && after.live[n] == before.live[n])
    && (forall n :: n in before.live && n !in after.live ==> Owned(before.live[n]) && Expired(before.live[n], use.now))
    && (forall m, n :: m in before.live && m !in after.live && n in before.live && n !in after.live ==> m == n)
  }

  ghost predicate SomeOtherExpired(before: Ledger, use: Use) {
    exists n :: n in before.live && n != use.name && Owned(before.live[n]) && Expired(before.live[n], use.now)
  }

  /** A complete listing has no more entries than there are records. */
  lemma {:induction false} ListingIsShort(live: map<string, Lease>, items: seq<Item>, names: set<string>)
    requires forall i, j :: 0 <= i < j < |items| ==> items[i].name != items[j].name
    requires forall i :: 0 <= i < |items| ==> items[i].name in names
    ensures |items| <= |names|
    decreases |items|
  {
    if items != [] {
      var n := |items| - 1;
      ListingIsShort(live, items[..n], names - {items[n].name});
    }
  }

  lemma UseCleansUp(before: Ledger, use: Use, order: Lister)
    requires Lists(order) && Accepts(before, use)
    requires before.cursor.None? && |before.live| < 50 && SomeOtherExpired(before, use)
    ensures var after := UseOnce(before, use.name, use.expiresAt, use.now, order).0;
            exists n :: n in before.live && n !in after.live
  {
    hide Expired, Owned, LeaseFor, CleanOne;
    NewRecordIsLive(use.expiresAt, use.now);
    var written := before.(live := before.live[use.name := LeaseFor(use.expiresAt, use.now).value]);
    assert ListsExactly(written.live, order(written.live));
    var items, i := CleanOneExactly(written, use.now, order);
    ListingIsShort(written.live, items, written.live.Keys);
    assert written.live.Keys == before.live.Keys + {use.name};
    var n :| n in before.live && n != use.name && Owned(before.live[n]) && Expired(before.live[n], use.now);
    OwnedIsLabelled(written.live[n]);
    assert Item(n, written.live[n]) in items;
    assert items[i].name != use.name && items[i].name in before.live;
  }

  lemma OwnedIsLabelled(lease: Lease)
    ensures Owned(lease) ==> Labelled(lease)
  {
  }

  lemma UseKeepsOthers(before: Ledger, use: Use, order: Lister)
    requires Accepts(before, use)
    ensures var after := UseOnce(before, use.name, use.expiresAt, use.now, order).0;
      && use.name in after.live && after.live[use.name] == LeaseFor(use.expiresAt, use.now).value
      && OthersKept(before, use, after)
  {
    hide Expired, Owned, LeaseFor, Clean;
    var written := before.(live := before.live[use.name := LeaseFor(use.expiresAt, use.now).value]);
    NewRecordIsLive(use.expiresAt, use.now);
    CleanFrame(written, use.now, order, MAX_CLEANUP_PAGES);
    var after := CleanOne(written, use.now, order);
    if after.live != written.live {
      var n :| n in written.live && Owned(written.live[n]) && Expired(written.live[n], use.now) && after.live == written.live - {n};
      assert n != use.name;
    }
  }

  /** The ledger's `use_once` is such a use. */
  lemma UseExactly(before: Ledger, use: Use, order: Lister)
    requires Lists(order)
    ensures var (after, r) := UseOnce(before, use.name, use.expiresAt, use.now, order); UsedOnce(before, use, after, r)
  {
    hide Expired, Owned, LeaseFor, CleanOne, SomeOtherExpired, OthersKept;
    if Accepts(before, use) {
      UseKeepsOthers(before, use, order);
      if before.cursor.None? && |before.live| < 50 && SomeOtherExpired(before, use) {
        UseCleansUp(before, use, order);
      }
    }
  }

  // ----- many uses -----

  /** The records that are expired at a given time. */
  ghost function Doomed(live: map<string, Lease>, until: Instant): set<string> {
    set n | n in live && Expired(live[n], until)
  }

  /** Progress measure: records that expire in time, phase of the sweep, records left in the sweep. */
  ghost predicate Nearer(after: Ledger, before: Ledger, since: Instant, until: Instant) {
    var a, b := |Doomed(after.live, until)|, |Doomed(before.live, until)|;
    a < b || (a == b && (Phase(after, since) < Phase(before, since) ||
                         (Phase(after, since) == Phase(before, since) && Rest(after) < Rest(before))))
  }

  lemma StaysExpired(lease: Lease, now: Instant, until: Instant)
    requires now <= until && Expired(lease, now)
    ensures Expired(lease, until)
  {
  }

  lemma SmallerSet(a: set<string>, b: set<string>)
    requires a <= b
    ensures |a| <= |b| && (|a| == |b| ==> a == b)
  {
    assert b == a + (b - a);
  }

  /** Writing a record that will not expire in time dooms nothing, and frees its name if that was doomed. */
  lemma DoomedAfterWrite(live: map<string, Lease>, name: string, lease: Lease, until: Instant)
    requires !Expired(lease, until)
    ensures Doomed(live[name := lease], until) == Doomed(live, until) - {name}
  {
  }

  lemma WritingKeepsPhase(before: Ledger, name: string, lease: Lease, since: Instant)
    requires name !in before.live
    ensures Phase(before.(live := before.live[name := lease]), since) <= Phase(before, since)
  {
  }

  /** While a record expired at `since` is stored, every accepted use is progress, if its own record does not expire in time. */
  lemma UseMakesProgress(before: Ledger, use: Use, since: Instant, until: Instant, order: Lister)
    requires Lists(order) && since <= use.now <= until
    requires Accepts(before, use) && !Expired(LeaseFor(use.expiresAt, use.now).value, until)
    requires !Clear(before, since)
    requires before.cursor.Some? ==> before.cursor.value != []
    ensures var after := UseOnce(before, use.name, use.expiresAt, use.now, order).0;
      && (after.cursor.Some? ==> after.cursor.value != [])
      && (Clear(after, since) || Nearer(after, before, since, until))
  {
    hide Expired, Owned, LeaseFor, Clean, Phase, Lists;
    var lease := LeaseFor(use.expiresAt, use.now).value;
    var written := before.(live := before.live[use.name := lease]);
    var after := CleanOne(written, use.now, order);
    DoomedAfterWrite(before.live, use.name, lease, until);
    CleanFrame(written, use.now, order, MAX_CLEANUP_PAGES);
    forall n | n in written.live && Expired(written.live[n], use.now) ensures n in Doomed(written.live, until) {
      StaysExpired(written.live[n], use.now, until);
    }
    SmallerSet(Doomed(after.live, until), Doomed(written.live, until));
    SmallerSet(Doomed(written.live, until), Doomed(before.live, until));
    CleanKeepsCursor(written, use.now, order, MAX_CLEANUP_PAGES);
    if use.name in before.live {
      StaysExpired(before.live[use.name], use.now, until);
      assert use.name in Doomed(before.live, until);
    } else {
      assert !Clear(written, since) by { WritingClearsNothing(before, use.name, lease, since); }
      CleanMakesProgress(written, since, use.now, order, MAX_CLEANUP_PAGES);
      WritingKeepsPhase(before, use.name, lease, since);
      if |after.live| < |written.live| {
        var n :| n in written.live && Owned(written.live[n]) && Expired(written.live[n], use.now) && after.live == written.live - {n};
        assert n in Doomed(written.live, until) && n !in Doomed(after.live, until);
      }
    }
  }

  lemma WritingClearsNothing(before: Ledger, name: string, lease: Lease, since: Instant)
    requires name !in before.live && !Clear(before, since)
    ensures !Clear(before.(live := before.live[name := lease]), since)
  {
    hide Expired;
    var n :| n in before.live && Expired(before.live[n], since);
    assert before.live[name := lease][n] == before.live[n];
  }

  lemma CleanKeepsCursor(ledger: Ledger, now: Instant, order: Lister, pages: nat)
    requires ledger.cursor.Some? ==> ledger.cursor.value != []
    ensures var after := Clean(ledger, now, order, pages); after.cursor.Some? ==> after.cursor.value != []
    decreases pages
  {
    hide Expired, Owned;
    if pages > 0 {
      var snapshot := Snapshot(ledger, order);
      CleanKeepsCursor(ledger.(cursor := TokenFor(snapshot[PageLength(snapshot)..])), now, order, pages - 1);
    }
  }

  lemma ClearStays(ledger: Ledger, use: Use, since: Instant, order: Lister)
    requires Clear(ledger, since) && Accepts(ledger, use) && !Expired(LeaseFor(use.expiresAt, use.now).value, since)
    ensures Clear(UseOnce(ledger, use.name, use.expiresAt, use.now, order).0, since)
  {
    hide Expired, LeaseFor, Clean;
    var written := ledger.(live := ledger.live[use.name := LeaseFor(use.expiresAt, use.now).value]);
    CleanFrame(written, use.now, order, MAX_CLEANUP_PAGES);
  }

  /** Every use of the supply is accepted, between `since` and `until`, and its record does not expire before `until`. */
  ghost predicate Supplies(ledger: Ledger, uses: nat -> Use, since: Instant, until: Instant, order: Lister) {
    forall i: nat ::
      && since <= uses(i).now <= until
      && Accepts(After(ledger, uses, i, order), uses(i))
      && !Expired(LeaseFor(uses(i).expiresAt, uses(i).now).value, until)
  }

  /** From use `k` on, sufficiently many accepted uses clear every record that was expired at `since`. */
  lemma {:induction false} UsesClearFrom(ledger: Ledger, uses: nat -> Use, since: Instant, until: Instant, order: Lister, k: nat)
    returns (n: nat)
    requires Lists(order) && Supplies(ledger, uses, since, until, order)
    requires var now := After(ledger, uses, k, order); now.cursor.Some? ==> now.cursor.value != []
    ensures k <= n && Clear(After(ledger, uses, n, order), since)
    decreases |Doomed(After(ledger, uses, k, order).live, until)|,
              Phase(After(ledger, uses, k, order), since), Rest(After(ledger, uses, k, order))
  {
    hide Lists, Clear, UseOnce, Accepts, Doomed, Phase, Rest, Expired, LeaseFor;
    var now := After(ledger, uses, k, order);
    if Clear(now, since) {
      n := k;
    } else {
      assert Accepts(now, uses(k)) && !Expired(LeaseFor(uses(k).expiresAt, uses(k).now).value, until) by {
        SuppliedUse(ledger, uses, since, until, order, k);
      }
      UseMakesProgress(now, uses(k), since, until, order);
      assert After(ledger, uses, k + 1, order) == UseOnce(now, uses(k).name, uses(k).expiresAt, uses(k).now, order).0;
      if Clear(After(ledger, uses, k + 1, order), since) {
        n := k + 1;
      } else {
        n := UsesClearFrom(ledger, uses, since, until, order, k + 1);
      }
    }
  }

  lemma SuppliedUse(ledger: Ledger, uses: nat -> Use, since: Instant, until: Instant, order: Lister, i: nat)
    requires Supplies(ledger, uses, since, until, order)
    ensures LeaseFor(uses(i).expiresAt, uses(i).now).Ok?
    ensures since <= uses(i).now <= until && Accepts(After(ledger, uses, i, order), uses(i))
    ensures !Expired(LeaseFor(uses(i).expiresAt, uses(i).now).value, until)
    ensures !Expired(LeaseFor(uses(i).expiresAt, uses(i).now).value, since)
  {
  }

  lemma {:induction false} StaysClear(ledger: Ledger, uses: nat -> Use, since: Instant, until: Instant, order: Lister, n: nat, m: nat)
    requires Supplies(ledger, uses, since, until, order) && n <= m
    requires Clear(After(ledger, uses, n, order), since)
    ensures Clear(After(ledger, uses, m, order), since)
    decreases m - n
  {
    hide Clear, UseOnce, Accepts, Expired, LeaseFor, Supplies;
    if n < m {
      SuppliedUse(ledger, uses, since, until, order, n);
      ClearStays(After(ledger, uses, n, order), uses(n), since, order);
      StaysClear(ledger, uses, since, until, order, n + 1, m);
    }
  }

  /**
   Whatever the sweep remembers and however records are listed, sufficiently many accepted uses leave no record that
   was expired at `since`, and none comes back, if no record they write expires before the last of them.
   */
  lemma UsesClear(ledger: Ledger, uses: nat -> Use, since: Instant, until: Instant, order: Lister) returns (n: nat)
    requires Lists(order) && Supplies(ledger, uses, since, until, order)
    requires ledger.cursor.Some? ==> ledger.cursor.value != []
    ensures forall m: nat :: n <= m ==> Clear(After(ledger, uses, m, order), since)
  {
    hide Lists, Clear, Supplies;
    n := UsesClearFrom(ledger, uses, since, until, order, 0);
    forall m: nat | n <= m ensures Clear(After(ledger, uses, m, order), since) {
      StaysClear(ledger, uses, since, until, order, n, m);
    }
  }

  // ----- why the records written must not expire -----

  const OLD_RECORD := Lease(map[LEDGER_LABEL := LEDGER_VERSION], LEDGER_HOLDER, 10, At(-1_000_000 * NANOS))

  /** Some of the records, in some order. */
  ghost function ListAll(live: map<string, Lease>, names: set<string>): (items: seq<Item>)
    requires names <= live.Keys
    ensures forall i :: 0 <= i < |items| ==> items[i].name in names && live[items[i].name] == items[i].lease
    ensures forall n :: n in names ==> Item(n, live[n]) in items
    ensures forall i, j :: 0 <= i < j < |items| ==> items[i].name != items[j].name
    decreases |names|
  {
    if names == {} then []
    else
      var n :| n in names;
      [Item(n, live[n])] + ListAll(live, names - {n})
  }

  /** A server that lists the record "old" last. */
  ghost function OldLast(live: map<string, Lease>): seq<Item> {
    ListAll(live, live.Keys - {"old"}) + (if "old" in live then [Item("old", live["old"])] else [])
  }

  lemma OldLastLists()
    ensures Lists(OldLast)
  {
    forall live ensures ListsExactly(live, OldLast(live)) {
    }
  }

  /** A use every thousand seconds, each of a new name, for an assertion that expires a minute later. */
  function RareUse(i: nat): Use {
    Use(Decimal.Print(i + 1), 1_000 * i + 60, 1_000 * i * NANOS)
  }

  /** The clock library can represent the time of the use and the expiry of its record. */
  predicate OnCalendar(i: nat) {
    1_000 * i + 360 <= CHRONO_MAX_SECONDS
  }

  function RareRecord(i: int): Lease {
    Lease(map[LEDGER_LABEL := LEDGER_VERSION], LEDGER_HOLDER, 360, At(1_000 * i * NANOS))
  }

  lemma RareRecordIsWritten(i: nat)
    requires OnCalendar(i)
    ensures LeaseFor(RareUse(i).expiresAt, RareUse(i).now) == Ok(RareRecord(i))
    ensures !Expired(RareRecord(i), RareUse(i).now)
    ensures Expired(RareRecord(i - 1), RareUse(i).now) && Expired(OLD_RECORD, RareUse(i).now)
  {
    var now := RareUse(i).now;
    assert now == NANOS * (1_000 * i) && WholeSeconds(now) == 1_000 * i;
    assert now == NANOS_PER_MICRO * (1_000_000_000 * i) && now / NANOS_PER_MICRO == 1_000_000_000 * i;
    assert TruncatedSeconds(360 * NANOS) == 360;
  }

  function Starving(i: nat): Ledger {
    Ledger(map["old" := OLD_RECORD, Decimal.Print(i) := RareRecord(i - 1)], None)
  }

  lemma NamesDiffer(i: nat)
    ensures Decimal.Print(i) != "old" && Decimal.Print(i + 1) != "old" && Decimal.Print(i) != Decimal.Print(i + 1)
  {
    assert !IsDigitText("old");
    if Decimal.Print(i) == Decimal.Print(i + 1) {
      Decimal.PrintIsInjective(i, i + 1);
    }
  }

  predicate IsDigitText(s: string) {
    s != "" && '0' <= s[0] <= '9'
  }

  /** The use deletes the record of the use before it, which has expired meanwhile, and not the old one. */
  lemma StarvingStep(i: nat)
    requires OnCalendar(i)
    ensures Accepts(Starving(i), RareUse(i))
    ensures UseOnce(Starving(i), RareUse(i).name, RareUse(i).expiresAt, RareUse(i).now, OldLast) == (Starving(i + 1), Ok(()))
  {
    hide Expired, LeaseFor, CleanOne, Decimal.Print;
    NamesDiffer(i);
    RareRecordIsWritten(i);
    var a, b := Decimal.Print(i), Decimal.Print(i + 1);
    var written := Starving(i).(live := Starving(i).live[b := RareRecord(i)]);
    assert written.live == Three(a, b, RareRecord(i - 1), RareRecord(i));
    FirstOfThree(a, b, RareRecord(i - 1), RareRecord(i), RareUse(i).now);
    hide RareRecord;
    assert written.live - {a} == Starving(i + 1).live;
  }

  function Three(a: string, b: string, spent: Lease, live: Lease): map<string, Lease> {
    map["old" := OLD_RECORD, a := spent, b := live]
  }

  /** Of an old record, a spent one and a live one, listed with the old one last, the spent one is cleaned up. */
  lemma FirstOfThree(a: string, b: string, spent: Lease, live: Lease, now: Instant)
    requires a != "old" && b != "old" && a != b
    requires Expired(spent, now) && !Expired(live, now)
    ensures CleanOne(Ledger(Three(a, b, spent, live), None), now, OldLast) == Ledger(Three(a, b, spent, live) - {a}, None)
  {
    hide Expired, CleanOne, ListAll;
    var written := Three(a, b, spent, live);
    OldLastLists();
    assert ListsExactly(written, OldLast(written));
    var items, k := CleanOneExactly(Ledger(written, None), now, OldLast);
    assert written.Keys == {"old", a, b};
    ListingIsShort(written, items, {"old", a, b});
    var others := ListAll(written, written.Keys - {"old"});
    ExpiredIsOwned(spent, now);
    assert Item(a, written[a]) in others;
    var j :| 0 <= j < |others| && others[j] == Item(a, written[a]);
    assert items[j] == others[j] && k <= j;
    assert items[k].name != "old" && items[k].name != b;
  }

  lemma ExpiredIsOwned(lease: Lease, now: Instant)
    ensures Expired(lease, now) ==> Owned(lease)
  {
  }

  /** So a record can stay expired as long as the calendar lasts although every use is accepted and cleans up. */
  lemma {:induction false} OldRecordStarves(n: nat)
    requires OnCalendar(n)
    ensures Lists(OldLast) && After(Starving(0), RareUse, n, OldLast) == Starving(n)
    ensures Accepts(Starving(n), RareUse(n)) && !Clear(Starving(n), 0)
  {
    OldLastLists();
    StarvingStep(n);
    RareRecordIsWritten(0);
    assert Expired(Starving(n).live["old"], 0) by { NamesDiffer(n); }
    if n > 0 {
      OldRecordStarves(n - 1);
      StarvingStep(n - 1);
    }
  }
}
