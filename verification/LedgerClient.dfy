/**
 The ledger client as the program it is: `use_once`, `reclaim_expired` and `cleanup_one` with their bounded
 loops and early returns.  Between any two requests other calls and other clients may act; every request is
 one step of the ledger protocol, so whatever the client does is a run of that protocol.
 */
module LedgerClient {
  import opened Wrappers
  import opened Leases
  import opened LedgerProtocol
  import opened LedgerSafety
  import Cleanup
  import Uses

  datatype CreateResult = Created | NameTaken

  /** A record as read: without a usable resource version it can neither be updated nor deleted. */
  datatype Fetched = Fetched(lease: Lease, resourceVersion: Option<Rv>)

  datatype LeaseList = LeaseList(items: seq<Cleanup.Item>, continueToken: Option<Cleanup.Token>)

  /** The stored records by name. */
  function Live(s: Store): map<Name, Lease> {
    map n | n in s.current && s.current[n] < |s.versions| :: s.versions[s.current[n]].lease
  }

  lemma LiveIsCurrent(s: Store, name: Name)
    requires StoreOk(s)
    ensures name in Live(s) <==> name in s.current
    ensures name in s.current ==> IsNewest(s, name, s.current[name]) && Live(s)[name] == s.versions[s.current[name]].lease
  {
  }

  lemma LiveAfterWrite(s: Store, name: Name, lease: Lease)
    requires CurrentOk(s)
    ensures Live(Write(s, name, lease)) == Live(s)[name := lease]
  {
    forall n | n in s.current ensures IsNewest(s, n, s.current[n]) {
    }
  }

  lemma LiveAfterCreate(s: Store, name: Name, lease: Lease)
    requires StoreOk(s)
    ensures Live(Create(s, name, lease).0) == if name in Live(s) then Live(s) else Live(s)[name := lease]
    ensures Create(s, name, lease).1 == (name !in Live(s))
  {
    hide OwnedOk, SuccessionOk, EndingOk;
    LiveIsCurrent(s, name);
    LiveAfterWrite(s, name, lease);
  }

  lemma LiveAfterUpdate(s: Store, name: Name, rv: Rv, lease: Lease, now: Stamp)
    requires StoreOk(s) && name in s.current && s.current[name] == rv
    ensures Live(Update(s, name, rv, lease, now).0) == Live(s)[name := lease]
    ensures Update(s, name, rv, lease, now).1 == Updated
  {
  }

  lemma LiveAfterDelete(s: Store, name: Name, rv: Rv, now: Stamp)
    requires StoreOk(s) && name in s.current && s.current[name] == rv
    ensures Live(Delete(s, name, rv, now)) == Live(s) - {name}
  {
    hide OwnedOk, SuccessionOk, EndingOk;
  }

  /** The page at a place in a sweep, and the token for the rest. */
  function PageAt(live: map<Name, Lease>, continueToken: Option<Cleanup.Token>, order: Cleanup.Lister): LeaseList {
    var snapshot := Cleanup.Snapshot(Cleanup.Ledger(live, continueToken), order);
    var n := Cleanup.PageLength(snapshot);
    LeaseList(snapshot[..n], Cleanup.TokenFor(snapshot[n..]))
  }

  /** The next state of a call after each kind of response, as far as the response alone decides it. */
  function AfterCreate(before: Pc, r: Result<CreateResult, ReplayError>): Pc {
    match r
    case Err(e) => Refuse(Unavailable)
    case Ok(Created) => Listing(0)
    case Ok(NameTaken) => if before.Creating? then Reading(0) else Refuse(Unavailable)
  }

  function AfterRead(attempt: nat, now: Instant, r: Result<Option<Fetched>, ReplayError>): Pc {
    match r
    case Err(_) => Refuse(Unavailable)
    case Ok(None) => Recreating
    case Ok(Some(fetched)) =>
      if !Expired(fetched.lease, now) then Refuse(Replayed)
      else match fetched.resourceVersion
        case None => Refuse(Unavailable)
        case Some(rv) => Replacing(attempt, rv)
  }

  function AfterCheck(page: nat, candidate: Name, more: bool, now: Instant, r: Result<Option<Fetched>, ReplayError>): Pc {
    match r
    case Ok(Some(fetched)) =>
      if Owned(fetched.lease) && Expired(fetched.lease, now) && fetched.resourceVersion.Some?
      then Deleting(candidate, fetched.resourceVersion.value)
      else NextPage(page, more)
    case _ => NextPage(page, more)
  }

  function AfterList(page: nat, now: Instant, r: Result<LeaseList, ReplayError>): Pc {
    match r
    case Err(_) => Finished(Accepted)
    case Ok(list) =>
      match Cleanup.FirstExpired(list.items, now)
      case Some(candidate) => Checking(page, candidate, list.continueToken.Some?)
      case None => NextPage(page, list.continueToken.Some?)
  }

  function AfterUpdate(attempt: nat, r: Result<PutResult, ReplayError>): Pc {
    match r
    case Ok(Updated) => Listing(0)
    case Ok(Conflict) => if attempt == 0 then Reading(1) else Refuse(Unavailable)
    case _ => Refuse(Unavailable)
  }

  /** What the client sees of a read response. */
  function Seen(s: Store, reply: Reply): Result<Option<Fetched>, ReplayError>
    requires reply.Found? ==> reply.version < |s.versions|
  {
    match reply
    case Missing => Ok(None)
    case Found(v, hasVersion) => Ok(Some(Fetched(s.versions[v].lease, if hasVersion then Some(v) else None)))
    case _ => Err(Unavailable)
  }

  function AfterGet(proc: Proc, r: Result<Option<Fetched>, ReplayError>): Pc {
    match proc.pc
    case Reading(attempt) => AfterRead(attempt, proc.call.started.reading, r)
    case Checking(page, candidate, more) => AfterCheck(page, candidate, more, proc.call.started.reading, r)
    case other => other
  }

  /** The protocol and the client take the same branch after a read. */
  lemma ReadsAgree(s: State, p: Pid, reply: Reply)
    requires Enabled(s, Respond(p, reply)) && (s.procs[p].pc.Reading? || s.procs[p].pc.Checking?)
    ensures Apply(s, Respond(p, reply)) == Goto(s, p, AfterGet(s.procs[p], Seen(s.store, reply)))
  {
  }

  lemma StoreIsOk(s: State)
    requires Inv(s)
    ensures StoreOk(s.store)
  {
  }

  lemma WinnersAreAccepted(s: State, p: Pid)
    requires Inv(s) && p in s.procs
    ensures p in s.wonAs <==> HasWon(s.procs[p].pc)
  {
  }

  lemma BeginKeepsLive(s: State, p: Pid, call: Call)
    requires Enabled(s, Begin(p, call))
    ensures var t := Apply(s, Begin(p, call));
            && Live(t.store) == Live(s.store)
            && p in t.procs && t.procs[p] == Proc(call, LeaseFor(call.assertion.times.exp, call.started.reading).value, Creating)
  {
  }

  class KubernetesLeaseReplayLedger {
    /** The API server and every call on every replica, as far as the protocol sees them. */
    var world: State
    ghost const start: State
    ghost var trace: seq<Step>

    /** This replica's place in its cleanup sweep, shared by its calls. */
    var cleanupContinue: Option<Cleanup.Token>

    /** Whether this replica is alone on a working API server, which lists records in the given order. */
    const alone: bool
    const order: Cleanup.Lister

    constructor (server: State, alone: bool, order: Cleanup.Lister)
      requires Initial(server) && (alone ==> Cleanup.Lists(order))
      ensures Valid() && world == server && trace == [] && cleanupContinue == None
      ensures this.alone == alone && this.order == order
    {
      world, start, trace := server, server, [];
      cleanupContinue := None;
      this.alone, this.order := alone, order;
      new;
      RunKeeps(start, []);
    }

    ghost predicate Valid()
      reads this
    {
      && Initial(start) && Legal(start, trace) && world == Exec(start, trace) && Inv(world)
      && (alone ==> Cleanup.Lists(order))
    }

    ghost function Records(): Cleanup.Ledger
      reads this
    {
      Cleanup.Ledger(Live(world.store), cleanupContinue)
    }

    /** The state of a call is its own business: nobody else changes it. */
    twostate predicate Continues(p: Pid)
      reads this
    {
      && old(trace) <= trace
      && p in old(world.procs) && p in world.procs
      && world.procs[p].call == old(world.procs[p].call) && world.procs[p].lease == old(world.procs[p].lease)
    }

    /** Any number of steps of other calls and other clients; none when this replica is alone. */
    method Interfere(p: Pid)
      requires Valid()
      modifies this`world, this`trace, this`cleanupContinue
      ensures Valid() && old(trace) <= trace
      ensures p in world.procs <==> p in old(world.procs)
      ensures p in world.procs ==> world.procs[p] == old(world.procs[p])
      ensures alone ==> world == old(world) && cleanupContinue == old(cleanupContinue)
    {
    }

    /** The client of a call goes away: any part of the call's requests are made, then no more, and it signs nothing. */
    method Abandoned(p: Pid)
      requires Valid() && p !in world.procs
      modifies this`world, this`trace, this`cleanupContinue
      ensures Valid() && old(trace) <= trace
      ensures p in world.procs ==> world.procs[p].pc != Issued
    {
    }

    lemma IsReachable()
      requires Valid()
      ensures Reachable(world)
    {
    }

    /** The signer's turn, after an accepted call. */
    method Sign(p: Pid, succeeds: bool)
      requires Valid() && p in world.procs && world.procs[p].pc == Finished(Accepted)
      modifies this`world, this`trace, this`cleanupContinue
      ensures Valid() && Continues(p) && Reachable(world) && p in world.wonAs
      ensures world.procs[p].pc == if succeeds then Issued else Unsigned
    {
      hide Inv, Initial, Legal, Exec;
      Interfere(p);
      Take(Step.Sign(p, succeeds));
      WinnersAreAccepted(world, p);
      IsReachable();
    }

    /** A request may fail at any time, unless the server is working. */
    method Fails() returns (failed: bool)
      ensures alone ==> !failed
    {
      var chance: bool := *;
      failed := chance && !alone;
    }

    /** The protocol takes one step. */
    method Take(step: Step)
      requires Valid() && Enabled(world, step)
      modifies this`world, this`trace
      ensures Valid()
      ensures world == Apply(old(world), step) && trace == old(trace) + [step]
    {
      hide Inv;
      Extend(start, trace, step);
      StepKeeps(world, step);
      world := Apply(world, step);
      trace := trace + [step];
    }

    method Create(p: Pid) returns (r: Result<CreateResult, ReplayError>)
      requires Valid() && p in world.procs && (world.procs[p].pc.Creating? || world.procs[p].pc.Recreating?)
      modifies this`world, this`trace, this`cleanupContinue
      ensures Valid() && Continues(p)
      ensures world.procs[p].pc == AfterCreate(old(world.procs[p].pc), r)
      ensures alone ==>
        var proc := old(world.procs[p]); var before := old(Records()); var name := proc.call.assertion.name;
        && r == Ok(if name in before.live then NameTaken else Created)
        && Records() == if name in before.live then before else before.(live := before.live[name := proc.lease])
    {
      hide Inv, Live, Initial, Legal, Exec, StoreOk;
      Interfere(p);
      var failed := Fails();
      ghost var before := world.store;
      ghost var proc := world.procs[p];
      StoreIsOk(world);
      LiveAfterCreate(before, proc.call.assertion.name, proc.lease);
      LiveIsCurrent(before, proc.call.assertion.name);
      var taken := world.procs[p].call.assertion.name in world.store.current;
      Take(Respond(p, if failed then Lost else Done));
      r := if failed then Err(Unavailable) else if taken then Ok(NameTaken) else Ok(Created);
    }

    /** A read sees any version ever stored under the name, or nothing; alone on the server it sees the current one. */
    method Get(p: Pid) returns (r: Result<Option<Fetched>, ReplayError>)
      requires Valid() && p in world.procs && (world.procs[p].pc.Reading? || world.procs[p].pc.Checking?)
      modifies this`world, this`trace, this`cleanupContinue
      ensures Valid() && Continues(p)
      ensures world.procs[p].pc == AfterGet(old(world.procs[p]), r)
      ensures alone ==>
        var name := Target(old(world.procs[p])); var before := old(Records());
        && r == Ok(if name in before.live then Some(Fetched(before.live[name], CurrentVersion(name))) else None)
        && world.store == old(world.store) && cleanupContinue == old(cleanupContinue)
        && (name in before.live <==> name in world.store.current)
    {
      hide Inv, Live, Initial, Legal, Exec, StoreOk, Expired, Apply, AfterGet;
      Interfere(p);
      var failed := Fails();
      var name := Target(world.procs[p]);
      StoreIsOk(world);
      LiveIsCurrent(world.store, name);
      var v: Rv := *;
      var hasVersion: bool := *;
      if alone {
        v := if name in world.store.current then world.store.current[name] else |world.store.versions|;
        hasVersion := true;
      }
      var reply :=
        if failed then Lost
        else if 0 <= v < |world.store.versions| && world.store.versions[v].name == name then Found(v, hasVersion)
        else Missing;
      r := Seen(world.store, reply);
      ReadsAgree(world, p, reply);
      Take(Respond(p, reply));
    }

    function CurrentVersion(name: Name): Option<Rv>
      reads this
    {
      if name in world.store.current then Some(world.store.current[name]) else None
    }

    method Update(p: Pid) returns (r: Result<PutResult, ReplayError>)
      requires Valid() && p in world.procs && world.procs[p].pc.Replacing?
      modifies this`world, this`trace, this`cleanupContinue
      ensures Valid() && Continues(p)
      ensures world.procs[p].pc == AfterUpdate(old(world.procs[p].pc.attempt), r)
      ensures alone ==>
        var proc := old(world.procs[p]); var before := old(Records()); var name := proc.call.assertion.name;
        old(CurrentVersion(name)) == Some(proc.pc.rv) ==>
          && r == Ok(Updated)
          && Records() == before.(live := before.live[name := proc.lease])
    {
      hide Inv, Live, Initial, Legal, Exec, StoreOk;
      Interfere(p);
      var failed := Fails();
      var proc := world.procs[p];
      var name := proc.call.assertion.name;
      var result := LedgerProtocol.Update(world.store, name, proc.pc.rv, proc.lease, proc.call.started).1;
      StoreIsOk(world);
      if name in world.store.current && world.store.current[name] == proc.pc.rv {
        LiveAfterUpdate(world.store, name, proc.pc.rv, proc.lease, proc.call.started);
      }
      Take(Respond(p, if failed then Lost else Done));
      r := if failed then Err(Unavailable) else Ok(result);
    }

    /** A list page may hold anything; alone on the server it is the next page of a snapshot. */
    method List(p: Pid, continueToken: Option<Cleanup.Token>) returns (r: Result<LeaseList, ReplayError>)
      requires Valid() && p in world.procs && world.procs[p].pc.Listing?
      modifies this`world, this`trace, this`cleanupContinue
      ensures Valid() && Continues(p)
      ensures world.procs[p].pc == AfterList(old(world.procs[p].pc.page), old(world.procs[p].call.started.reading), r)
      ensures alone ==>
        r == Ok(PageAt(old(Records()).live, continueToken, order)) && Records() == old(Records())
    {
      hide Inv, Live, Initial, Legal, Exec, StoreOk, Expired, PageAt, Cleanup.FirstExpired;
      Interfere(p);
      var failed := Fails();
      var list: LeaseList := *;
      if alone {
        list := PageAt(Live(world.store), continueToken, order);
      }
      var candidate := Cleanup.FirstExpired(list.items, world.procs[p].call.started.reading);
      Take(Respond(p, if failed then Lost else Page(candidate, list.continueToken.Some?)));
      r := if failed then Err(Unavailable) else Ok(list);
    }

    method Delete(p: Pid)
      requires Valid() && p in world.procs && world.procs[p].pc.Deleting?
      modifies this`world, this`trace, this`cleanupContinue
      ensures Valid() && Continues(p)
      ensures world.procs[p].pc == Finished(Accepted)
      ensures alone ==>
        var pc := old(world.procs[p].pc); var before := old(Records());
        old(CurrentVersion(pc.candidate)) == Some(pc.rv) ==> Records() == before.(live := before.live - {pc.candidate})
    {
      hide Inv, Live, Initial, Legal, Exec, StoreOk;
      Interfere(p);
      var failed := Fails();
      var proc := world.procs[p];
      StoreIsOk(world);
      if proc.pc.candidate in world.store.current && world.store.current[proc.pc.candidate] == proc.pc.rv {
        LiveAfterDelete(world.store, proc.pc.candidate, proc.pc.rv, proc.call.started);
      }
      Take(Respond(p, if failed then Lost else Done));
    }

    /** Replaces an expired record, retrying once when another writer got in between. */
    method ReclaimExpired(p: Pid) returns (r: Result<(), ReplayError>)
      requires Valid() && p in world.procs && world.procs[p].pc == Reading(0)
      modifies this`world, this`trace, this`cleanupContinue
      ensures Valid() && Continues(p)
      ensures world.procs[p].pc == if r.Ok? then Listing(0) else Refuse(r.error)
      ensures alone ==>
        var proc := old(world.procs[p]); var before := old(Records()); var name := proc.call.assertion.name;
        if name in before.live && !Expired(before.live[name], proc.call.started.reading)
        then r == Err(Replayed) && Records() == before
        else r == Ok(()) && Records() == before.(live := before.live[name := proc.lease])
    {
      hide Inv, Live, Initial, Legal, Exec, StoreOk, Expired;
      for attempt := 0 to 2
        invariant Valid() && Continues(p)
        invariant world.procs[p].pc == if attempt < 2 then Reading(attempt) else Refuse(Unavailable)
        invariant alone ==> attempt == 0 && Records() == old(Records())
      {
        var existing := Get(p);
        if existing.Err? {
          return Err(Unavailable);
        }
        if existing.value.None? {
          var created := Create(p);
          return match created case Ok(Created) => Ok(()) case _ => Err(Unavailable);
        }
        if !Expired(existing.value.value.lease, world.procs[p].call.started.reading) {
          return Err(Replayed);
        }
        if existing.value.value.resourceVersion.None? {
          return Err(Unavailable);
        }
        var updated := Update(p);
        if updated == Ok(Updated) {
          return Ok(());
        }
        if updated != Ok(Conflict) || attempt != 0 {
          return Err(Unavailable);
        }
      }
      return Err(Unavailable);
    }

    /** Bounded, best-effort cleanup after an accepted call: at most two pages, at most one deletion. */
    method CleanupOne(p: Pid)
      requires Valid() && p in world.procs && world.procs[p].pc == Listing(0)
      modifies this`world, this`trace, this`cleanupContinue
      ensures Valid() && Continues(p)
      ensures world.procs[p].pc == Finished(Accepted)
      ensures alone ==> Records() == Cleanup.CleanOne(old(Records()), old(world.procs[p].call.started.reading), order)
    {
      hide Inv, Live, Initial, Legal, Exec, StoreOk, Expired, Owned;
      hide Cleanup.Snapshot, Cleanup.PageLength, Cleanup.FirstExpired, Apply, Cleanup.CleanOne;
      Cleanup.CleanOneMeaning(Records(), world.procs[p].call.started.reading, order);
      var now := world.procs[p].call.started.reading;
      var continueToken := cleanupContinue;
      for page := 0 to MAX_CLEANUP_PAGES
        invariant Valid() && Continues(p)
        invariant world.procs[p].pc == if page < MAX_CLEANUP_PAGES then Listing(page) else Finished(Accepted)
        invariant alone ==> continueToken == cleanupContinue
        invariant alone ==> Cleanup.Clean(Records(), now, order, MAX_CLEANUP_PAGES - page) == Cleanup.CleanOne(old(Records()), now, order)
      {
        ghost var before := Records();
        var leases := List(p, continueToken);
        if leases.Err? {
          cleanupContinue := None;
          return;
        }
        var next := leases.value.continueToken;
        cleanupContinue := next;
        var candidate := Cleanup.FirstExpired(leases.value.items, now);
        if candidate.Some? {
          var current := Get(p);
          if current.Ok? && current.value.Some? && Owned(current.value.value.lease) &&
             Expired(current.value.value.lease, now) && current.value.value.resourceVersion.Some?
          {
            Delete(p);
            return;
          }
        }
        if next.None? {
          return;
        }
        continueToken := next;
      }
    }

    /** The steps of `use_once`: a new record, or an expired one reclaimed, and a cleanup after either. */
    method UseSteps(p: Pid, assertion: Assertion, verified: Stamp, reading: Instant) returns (r: Result<(), ReplayError>)
      requires Valid() && p !in world.procs
      requires verified.actual <= world.store.time
      requires TimesAccepted(assertion.source, assertion.times, WholeSeconds(verified.reading))
      modifies this`world, this`trace, this`cleanupContinue
      ensures Valid() && old(trace) <= trace
      ensures LeaseFor(assertion.times.exp, reading).Err? ==> r == Err(Unavailable) && world == old(world)
      ensures LeaseFor(assertion.times.exp, reading).Ok? ==>
        && p in world.procs
        && world.procs[p].call == Call(assertion, verified, Stamp(reading, old(world.store.time)))
        && world.procs[p].pc == (if r.Ok? then Finished(Accepted) else Refuse(r.error))
        && (p in world.wonAs <==> r.Ok?)
      ensures Reachable(world)
      ensures alone ==> (Records(), r) == Cleanup.UseOnce(old(Records()), assertion.name, assertion.times.exp, reading, order)
    {
      hide Inv, Live, Initial, Legal, Exec, StoreOk, Expired, TimesAccepted, Apply;
      var retained := RetainedUntil(assertion.times.exp, WholeSeconds(reading));
      if retained.Err? {
        return Err(Unavailable);
      }
      var lease := NewLease(retained.value, reading);
      if lease.Err? {
        return Err(Unavailable);
      }
      BeginKeepsLive(world, p, Call(assertion, verified, Stamp(reading, world.store.time)));
      Take(Begin(p, Call(assertion, verified, Stamp(reading, world.store.time))));
      var created := Create(p);
      match created {
        case Err(_) =>
          WinnersAreAccepted(world, p);
          return Err(Unavailable);
        case Ok(Created) =>
          CleanupOne(p);
          WinnersAreAccepted(world, p);
          return Ok(());
        case Ok(NameTaken) =>
          var reclaimed := ReclaimExpired(p);
          if reclaimed.Err? {
            WinnersAreAccepted(world, p);
            return reclaimed;
          }
          CleanupOne(p);
          WinnersAreAccepted(world, p);
          return Ok(());
      }
    }

    /**
     `use_once`: accepted exactly when the call's process in the protocol is.  Alone on the server it is a use of the
     ledger that leaves at most one expired record the fewer, and one exactly when a short fresh listing shows any.
     */
    method UseOnce(p: Pid, assertion: Assertion, verified: Stamp, reading: Instant) returns (r: Result<(), ReplayError>)
      requires Valid() && p !in world.procs
      requires verified.actual <= world.store.time
      requires TimesAccepted(assertion.source, assertion.times, WholeSeconds(verified.reading))
      modifies this`world, this`trace, this`cleanupContinue
      ensures Valid() && old(trace) <= trace
      ensures LeaseFor(assertion.times.exp, reading).Err? ==> r == Err(Unavailable) && world == old(world)
      ensures LeaseFor(assertion.times.exp, reading).Ok? ==>
        && p in world.procs
        && world.procs[p].call == Call(assertion, verified, Stamp(reading, old(world.store.time)))
        && world.procs[p].pc == (if r.Ok? then Finished(Accepted) else Refuse(r.error))
        && (p in world.wonAs <==> r.Ok?)
      ensures Reachable(world)
      ensures alone ==> (Records(), r) == Cleanup.UseOnce(old(Records()), assertion.name, assertion.times.exp, reading, order)
      ensures alone ==> Uses.UsedOnce(old(Records()), Cleanup.Use(assertion.name, assertion.times.exp, reading), Records(), r)
    {
      hide Uses.UsedOnce, Cleanup.UseOnce, Cleanup.Lists, Inv, Live, Initial, Legal, Exec, Expired, LeaseFor, TimesAccepted;
      if alone {
        Uses.UseExactly(Records(), Cleanup.Use(assertion.name, assertion.times.exp, reading), order);
      }
      r := UseSteps(p, assertion, verified, reading);
    }
  }
}
