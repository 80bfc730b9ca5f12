/**
 The ledger seen by a replica that is alone on a working API server: what one `use_once` and one bounded
 cleanup do to the stored records, and why repeated cleanups leave no expired record behind.
 A list request without a token takes a snapshot; a continue token stands for the rest of that snapshot.
 */
module Cleanup {
  import opened Wrappers
  import opened Numbers
  import opened Leases

  const CLEANUP_PAGE_SIZE: nat := 50

  datatype Item = Item(name: string, lease: Lease)

  type Token = seq<Item>

  /** The order in which the server lists the labelled records. */
  type Lister = map<string, Lease> -> seq<Item>

  /** A listing names every labelled record once, with its content. */
  ghost predicate Lists(order: Lister) {
    forall live :: ListsExactly(live, order(live))
  }

  ghost predicate ListsExactly(live: map<string, Lease>, items: seq<Item>) {
    && (forall i, j :: 0 <= i < j < |items| ==> items[i].name != items[j].name)
    && (forall i :: 0 <= i < |items| ==> items[i].name in live && live[items[i].name] == items[i].lease)
    && (forall n :: n in live && Labelled(live[n]) ==> Item(n, live[n]) in items)
  }

  /** The stored records, and this replica's place in its current sweep. */
  datatype Ledger = Ledger(live: map<string, Lease>, cursor: Option<Token>)

  /** The first record of a page that is owned and expired. */
  function FirstExpired(items: seq<Item>, now: Instant): (found: Option<string>)
    ensures found.Some? <==> exists item :: item in items && Owned(item.lease) && Expired(item.lease, now)
  {
    if items == [] then None
    else if Owned(items[0].lease) && Expired(items[0].lease, now) then Some(items[0].name)
    else
      assert forall item :: item in items <==> item == items[0] || item in items[1..];
      FirstExpired(items[1..], now)
  }

  function Snapshot(ledger: Ledger, order: Lister): seq<Item> {
    match ledger.cursor
    case None => order(ledger.live)
    case Some(rest) => rest
  }

  function PageLength(items: seq<Item>): nat {
    if |items| < CLEANUP_PAGE_SIZE then |items| else CLEANUP_PAGE_SIZE
  }

  function TokenFor(rest: seq<Item>): Option<Token> {
    if rest == [] then None else Some(rest)
  }

  predicate Removable(ledger: Ledger, candidate: Option<string>, now: Instant) {
    candidate.Some? && candidate.value in ledger.live &&
    Owned(ledger.live[candidate.value]) && Expired(ledger.live[candidate.value], now)
  }

  /** `cleanup_one` with `pages` list requests left. */
  function Clean(ledger: Ledger, now: Instant, order: Lister, pages: nat): Ledger
    decreases pages
  {
    if pages == 0 then ledger
    else
      var snapshot := Snapshot(ledger, order);
      var n := PageLength(snapshot);
      var advanced := ledger.(cursor := TokenFor(snapshot[n..]));
      var candidate := FirstExpired(snapshot[..n], now);
      if Removable(ledger, candidate, now) then advanced.(live := ledger.live - {candidate.value})
      else if snapshot[n..] == [] then advanced
      else Clean(advanced, now, order, pages - 1)
  }

  function CleanOne(ledger: Ledger, now: Instant, order: Lister): Ledger {
    Clean(ledger, now, order, MAX_CLEANUP_PAGES)
  }

  lemma CleanOneMeaning(ledger: Ledger, now: Instant, order: Lister)
    ensures CleanOne(ledger, now, order) == Clean(ledger, now, order, MAX_CLEANUP_PAGES)
  {
  }

  /** `use_once` as one atomic step: a fresh or expired name is taken, a live record is a replay. */
  function UseOnce(ledger: Ledger, name: string, expiresAt: Seconds, now: Instant, order: Lister)
    : (Ledger, Result<(), ReplayError>)
  {
    match LeaseFor(expiresAt, now)
    case Err(error) => (ledger, Err(error))
    case Ok(lease) =>
      if name in ledger.live && !Expired(ledger.live[name], now) then (ledger, Err(Replayed))
      else (CleanOne(ledger.(live := ledger.live[name := lease]), now, order), Ok(()))
  }

  // ----- what one cleanup does -----

  /** One cleanup removes at most one record, and only an owned, expired one; every other record is kept as it is. */
  lemma {:induction false} CleanFrame(ledger: Ledger, now: Instant, order: Lister, pages: nat)
    ensures var after := Clean(ledger, now, order, pages);
            || after.live == ledger.live
            || exists n :: && n in ledger.live && Owned(ledger.live[n]) && Expired(ledger.live[n], now)
                           && after.live == ledger.live - {n}
    decreases pages
  {
    if pages > 0 {
      var snapshot := Snapshot(ledger, order);
      var n := PageLength(snapshot);
      if !Removable(ledger, FirstExpired(snapshot[..n], now), now) && snapshot[n..] != [] {
        CleanFrame(ledger.(cursor := TokenFor(snapshot[n..])), now, order, pages - 1);
      }
    }
  }

  // ----- records that never expire -----

  datatype Use = Use(name: string, expiresAt: Seconds, now: Instant)

  /** The ledger after the first `n` of a supply of uses. */
  function After(ledger: Ledger, uses: nat -> Use, n: nat, order: Lister): Ledger {
    if n == 0 then ledger
    else
      var before, use := After(ledger, uses, n - 1, order), uses(n - 1);
      UseOnce(before, use.name, use.expiresAt, use.now, order).0
  }

  /** The use finds its name free or its record expired, and can build a new one. */
  predicate Accepts(ledger: Ledger, use: Use) {
    LeaseFor(use.expiresAt, use.now).Ok? && (use.name in ledger.live ==> Expired(ledger.live[use.name], use.now))
  }

  lemma UseKeepsPerpetual(ledger: Ledger, name: string, use: Use, order: Lister)
    requires name in ledger.live && Perpetual(ledger.live[name])
    ensures var after := UseOnce(ledger, use.name, use.expiresAt, use.now, order).0;
            name in after.live && after.live[name] == ledger.live[name]
    ensures use.name == name ==>
      UseOnce(ledger, use.name, use.expiresAt, use.now, order).1 ==
        Err(if LeaseFor(use.expiresAt, use.now).Ok? then Replayed else LeaseFor(use.expiresAt, use.now).error)
  {
    hide Expired, LeaseFor, Clean;
    assert !Expired(ledger.live[name], use.now);
    if LeaseFor(use.expiresAt, use.now).Ok? && use.name != name {
      var taken := ledger.(live := ledger.live[use.name := LeaseFor(use.expiresAt, use.now).value]);
      CleanFrame(taken, use.now, order, MAX_CLEANUP_PAGES);
    }
  }

  /** A record that never expires is never cleaned up, and its name is refused for ever. */
  lemma {:induction false} PerpetualBlocksForEver(ledger: Ledger, name: string, uses: nat -> Use, n: nat, use: Use, order: Lister)
    requires name in ledger.live && Perpetual(ledger.live[name]) && use.name == name
    ensures var after := After(ledger, uses, n, order);
      && name in after.live && after.live[name] == ledger.live[name]
      && UseOnce(after, use.name, use.expiresAt, use.now, order).1.Err?
    decreases n
  {
    hide Perpetual, UseOnce;
    if n > 0 {
      PerpetualBlocksForEver(ledger, name, uses, n - 1, use, order);
      UseKeepsPerpetual(After(ledger, uses, n - 1, order), name, uses(n - 1), order);
    }
    UseKeepsPerpetual(After(ledger, uses, n, order), name, use, order);
  }

  // ----- repeated cleanups -----

  /** The rest of the sweep shows records as they are now. */
  ghost predicate Accurate(live: map<string, Lease>, items: seq<Item>) {
    && (forall i, j :: 0 <= i < j < |items| ==> items[i].name != items[j].name)
    && (forall i :: 0 <= i < |items| ==> items[i].name in live && live[items[i].name] == items[i].lease)
  }

  predicate HasExpired(items: seq<Item>, since: Instant) {
    exists item :: item in items && Owned(item.lease) && Expired(item.lease, since)
  }

  /** How certain the sweep is to meet a record expired at `since`: surely, after a fresh listing, or not yet. */
  ghost function Phase(ledger: Ledger, since: Instant): nat {
    if ledger.cursor.None? then 1
    else if Accurate(ledger.live, ledger.cursor.value) && HasExpired(ledger.cursor.value, since) then 0
    else 2
  }

  ghost function Rest(ledger: Ledger): nat {
    if ledger.cursor.None? then 0 else |ledger.cursor.value|
  }

  ghost predicate Clear(ledger: Ledger, since: Instant) {
    forall n :: n in ledger.live ==> !Expired(ledger.live[n], since)
  }

  /** Progress measure, compared lexicographically: records stored, phase of the sweep, records left in the sweep. */
  ghost predicate Closer(after: Ledger, before: Ledger, since: Instant) {
    || |after.live| < |before.live|
    || (after.live == before.live && Phase(after, since) < Phase(before, since))
    || (after.live == before.live && Phase(after, since) == Phase(before, since) && Rest(after) < Rest(before))
  }

  /** While a record expired at `since` is stored, one listed page is progress, whatever the sweep remembers. */
  lemma PageMakesProgress(ledger: Ledger, since: Instant, now: Instant, order: Lister)
    requires Lists(order) && since <= now
    requires !Clear(ledger, since)
    requires ledger.cursor.Some? ==> ledger.cursor.value != []
    ensures var snapshot := Snapshot(ledger, order);
            var n := PageLength(snapshot);
            var after := ledger.(cursor := TokenFor(snapshot[n..]));
            !Removable(ledger, FirstExpired(snapshot[..n], now), now) ==> Closer(after, ledger, since)
  {
    var snapshot := Snapshot(ledger, order);
    var n := PageLength(snapshot);
    var page, rest := snapshot[..n], snapshot[n..];
    assert snapshot == page + rest;
    if !Removable(ledger, FirstExpired(page, now), now) && (ledger.cursor.None? || Phase(ledger, since) == 0) {
      if ledger.cursor.None? {
        assert ListsExactly(ledger.live, snapshot);
        var e :| e in ledger.live && Expired(ledger.live[e], since);
        assert Item(e, ledger.live[e]) in snapshot;
      }
      assert Accurate(ledger.live, snapshot) && HasExpired(snapshot, since);
      PageHasNone(ledger, page, rest, since, now);
    }
  }

  /** In an accurate sweep a page without a removable record has no expired one, so one is still to come. */
  lemma PageHasNone(ledger: Ledger, page: seq<Item>, rest: seq<Item>, since: Instant, now: Instant)
    requires since <= now
    requires Accurate(ledger.live, page + rest) && HasExpired(page + rest, since)
    requires !Removable(ledger, FirstExpired(page, now), now)
    ensures Accurate(ledger.live, rest) && HasExpired(rest, since) && rest != []
  {
    var all := page + rest;
    assert forall i :: 0 <= i < |rest| ==> rest[i] == all[|page| + i];
    assert forall i :: 0 <= i < |page| ==> page[i] == all[i];
    var first := FirstExpiredIsListed(page, now);
    var item :| item in all && Owned(item.lease) && Expired(item.lease, since);
    if item in page {
      assert false;
    }
  }

  /** The candidate is the first owned and expired entry of a page, and there is none only if no entry is. */
  lemma {:induction false} FirstExpiredIsListed(items: seq<Item>, now: Instant) returns (i: nat)
    ensures i <= |items| && forall j :: 0 <= j < i ==> !(Owned(items[j].lease) && Expired(items[j].lease, now))
    ensures i == |items| ==> FirstExpired(items, now).None?
    ensures i < |items| ==>
      Owned(items[i].lease) && Expired(items[i].lease, now) && FirstExpired(items, now) == Some(items[i].name)
  {
    if items == [] || (Owned(items[0].lease) && Expired(items[0].lease, now)) {
      i := 0;
    } else {
      var k := FirstExpiredIsListed(items[1..], now);
      i := k + 1;
      forall j | 0 <= j < i ensures !(Owned(items[j].lease) && Expired(items[j].lease, now)) {
        if j > 0 { assert items[j] == items[1..][j - 1]; }
      }
    }
  }

  lemma {:induction false} CleanMakesProgress(ledger: Ledger, since: Instant, now: Instant, order: Lister, pages: nat)
    requires Lists(order) && since <= now && pages > 0
    requires !Clear(ledger, since)
    requires ledger.cursor.Some? ==> ledger.cursor.value != []
    ensures Closer(Clean(ledger, now, order, pages), ledger, since)
    ensures Clean(ledger, now, order, pages).cursor.Some? ==> Clean(ledger, now, order, pages).cursor.value != []
    decreases pages
  {
    var snapshot := Snapshot(ledger, order);
    var n := PageLength(snapshot);
    var after := ledger.(cursor := TokenFor(snapshot[n..]));
    var candidate := FirstExpired(snapshot[..n], now);
    PageMakesProgress(ledger, since, now, order);
    if Removable(ledger, candidate, now) {
      assert ledger.live.Keys == (ledger.live - {candidate.value}).Keys + {candidate.value};
    } else if snapshot[n..] != [] && pages > 1 {
      CleanMakesProgress(after, since, now, order, pages - 1);
    }
  }

  /** The ledger after cleanups at the given readings. */
  function CleanAll(ledger: Ledger, readings: seq<Instant>, order: Lister): Ledger
    decreases |readings|
  {
    if readings == [] then ledger else CleanAll(CleanOne(ledger, readings[0], order), readings[1..], order)
  }

  /**
   Whatever the sweep remembers, finitely many cleanups at readings from `since` on remove every record that
   was expired at `since`.  `clock` gives the reading of each cleanup.
   */
  lemma {:induction false} CleanupCompletes(ledger: Ledger, since: Instant, clock: nat -> Instant, order: Lister)
    returns (readings: seq<Instant>)
    requires Lists(order) && forall i: nat :: since <= clock(i)
    requires ledger.cursor.Some? ==> ledger.cursor.value != []
    ensures forall i :: 0 <= i < |readings| ==> readings[i] == clock(i)
    ensures Clear(CleanAll(ledger, readings, order), since)
    decreases |ledger.live|, Phase(ledger, since), Rest(ledger)
  {
    hide Clean, Lists, Accurate, HasExpired, Clear;
    if Clear(ledger, since) {
      readings := [];
    } else {
      CleanMakesProgress(ledger, since, clock(0), order, MAX_CLEANUP_PAGES);
      var next := CleanOne(ledger, clock(0), order);
      var later := (i: nat) => clock(i + 1);
      var rest := CleanupCompletes(next, since, later, order);
      readings := [clock(0)] + rest;
      assert readings[1..] == rest;
      forall i | 0 <= i < |readings| ensures readings[i] == clock(i) {
        if i > 0 { assert rest[i - 1] == later(i - 1); }
      }
    }
  }

  // ----- exactly what one cleanup does -----

  function RestAfter(items: seq<Item>, count: nat): Option<Token> {
    if |items| <= count then None else Some(items[count..])
  }

  /** The first expired entry of a list is the first of the page that holds it. */
  lemma FirstOnPage(items: seq<Item>, start: nat, count: nat, i: nat, now: Instant)
    requires start <= i <= |items| && start + count <= |items|
    requires forall j :: start <= j < i ==> !(Owned(items[j].lease) && Expired(items[j].lease, now))
    requires i < |items| ==> Owned(items[i].lease) && Expired(items[i].lease, now)
    ensures FirstExpired(items[start..start + count], now) == if i < start + count then Some(items[i].name) else None
  {
    hide Expired, Owned;
    var page := items[start..start + count];
    assert forall j :: 0 <= j < count ==> page[j] == items[start + j];
    var k := FirstExpiredIsListed(page, now);
    if i < start + count {
      assert page[i - start] == items[i];
    }
  }

  /**
   A cleanup whose sweep shows records as they are looks at up to 100 entries, in pages of 50, and deletes the first
   expired one among them; the sweep goes on behind the page where it stopped.
   */
  lemma CleanOneExactly(ledger: Ledger, now: Instant, order: Lister) returns (items: seq<Item>, i: nat)
    requires Accurate(ledger.live, Snapshot(ledger, order))
    ensures items == match ledger.cursor case None => order(ledger.live) case Some(rest) => rest
    ensures i <= |items| && forall j :: 0 <= j < i ==> !(Owned(items[j].lease) && Expired(items[j].lease, now))
    ensures i < |items| ==> Owned(items[i].lease) && Expired(items[i].lease, now)
    ensures var after := CleanOne(ledger, now, order);
      if i < |items| && i < 100
      then items[i].name in ledger.live && after == Ledger(ledger.live - {items[i].name}, RestAfter(items, if i < 50 then 50 else 100))
      else after == Ledger(ledger.live, RestAfter(items, 100))
  {
    hide Expired, Owned, FirstExpired;
    items := Snapshot(ledger, order);
    i := FirstExpiredIsListed(items, now);
    var n := PageLength(items);
    FirstOnPage(items, 0, n, i, now);
    assert items[0..0 + n] == items[..n];
    if i >= n && items[n..] != [] {
      var rest := items[n..];
      var m := PageLength(rest);
      FirstOnPage(items, n, m, i, now);
      assert items[n..n + m] == rest[..m] && rest[m..] == items[n + m..];
      var advanced := ledger.(cursor := TokenFor(rest));
      assert Clean(advanced, now, order, 1) == CleanLast(advanced, now, order);
    }
  }

  /** The last page of a cleanup. */
  function CleanLast(ledger: Ledger, now: Instant, order: Lister): Ledger {
    var snapshot := Snapshot(ledger, order);
    var n := PageLength(snapshot);
    var candidate := FirstExpired(snapshot[..n], now);
    Ledger(if Removable(ledger, candidate, now) then ledger.live - {candidate.value} else ledger.live, TokenFor(snapshot[n..]))
  }
}
