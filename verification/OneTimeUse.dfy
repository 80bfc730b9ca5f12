/**
 What the ledger protocol guarantees to those who rely on it: no record is touched before it expires,
 racing replicas do not both win, and one assertion yields one token as long as clock error and call
 delay together stay within 268 seconds (299 for generic OIDC), which is exactly the limit.
 */
module OneTimeUse {
  import opened Wrappers
  import opened Numbers
  import opened Leases
  import opened LedgerProtocol
  import opened LedgerSafety

  /** Of all calls that try to replace the same expired record at most one is accepted. */
  lemma RacersNeverBothWin(s: State, p: Pid, q: Pid)
    requires Reachable(s)
    requires p in s.took && q in s.took && s.took[p] == s.took[q]
    ensures p == q
  {
    hide StoreOk, CallsOk, WinnersOk;
    ReachableStates(s);
  }

  // ----- frame -----

  ghost predicate IsCurrent(s: Store, name: Name, rv: Rv) {
    name in s.current && s.current[name] == rv
  }

  /** The version a ledger step is entitled to end, and the reading that entitles it. */
  ghost predicate Ends(s: State, step: Step, name: Name, rv: Rv, now: Stamp) {
    match step
    case Respond(p, _) =>
      p in s.procs && now == s.procs[p].call.started &&
      (match s.procs[p].pc
       case Replacing(_, v) => v == rv && name == s.procs[p].call.assertion.name
       case Deleting(candidate, v) => v == rv && name == candidate
       case _ => false)
    case Late(request) =>
      (match request
       case Put(n, v, _, stamp) => n == name && v == rv && stamp == now
       case Remove(n, v, stamp) => n == name && v == rv && stamp == now
       case _ => false)
    case _ => false
  }

  lemma WaitingCallMayEnd(s: State, p: Pid)
    requires Inv(s) && p in s.procs
    ensures PcOk(s.store, s.procs[p].call, s.procs[p].pc)
  {
  }

  lemma ResponseEndsOwnTarget(s: State, p: Pid, reply: Reply, name: Name, rv: Rv)
    requires Inv(s) && Enabled(s, Respond(p, reply)) && IsCurrent(s.store, name, rv)
    ensures IsCurrent(Apply(s, Respond(p, reply)).store, name, rv) ||
            (Ends(s, Respond(p, reply), name, rv, s.procs[p].call.started) && MayEnd(s.store, name, rv, s.procs[p].call.started))
  {
    hide Inv, ReplyFits, OnCreate, OnRead, OnReplace, OnList, OnCheck, OnDelete, MayEnd;
    WaitingCallMayEnd(s, p);
    var proc := s.procs[p];
    match proc.pc {
      case Creating => CreateEndsNothing(s, p, reply, true, name, rv);
      case Recreating => CreateEndsNothing(s, p, reply, false, name, rv);
      case Replacing(attempt, v) => ReplaceEndsTarget(s, p, reply, attempt, v, name, rv);
      case Deleting(candidate, v) => DeleteEndsTarget(s, p, reply, candidate, v, name, rv);
      case Reading(_) | Listing(_) | Checking(_, _, _) => ReadsEndNothing(s, p, reply);
      case _ =>
    }
  }

  lemma CreateEndsNothing(s: State, p: Pid, reply: Reply, first: bool, name: Name, rv: Rv)
    requires p in s.procs && IsCurrent(s.store, name, rv)
    ensures IsCurrent(OnCreate(s, p, reply, first).store, name, rv)
  {
  }

  lemma ReadsEndNothing(s: State, p: Pid, reply: Reply)
    requires Enabled(s, Respond(p, reply))
    requires s.procs[p].pc.Reading? || s.procs[p].pc.Listing? || s.procs[p].pc.Checking?
    ensures Apply(s, Respond(p, reply)).store == s.store
  {
  }

  lemma ReplaceEndsTarget(s: State, p: Pid, reply: Reply, attempt: nat, v: Rv, name: Name, rv: Rv)
    requires p in s.procs && IsCurrent(s.store, name, rv)
    ensures IsCurrent(OnReplace(s, p, reply, attempt, v).store, name, rv) ||
            (name == s.procs[p].call.assertion.name && rv == v)
  {
  }

  lemma DeleteEndsTarget(s: State, p: Pid, reply: Reply, candidate: Name, v: Rv, name: Name, rv: Rv)
    requires p in s.procs && IsCurrent(s.store, name, rv)
    ensures IsCurrent(OnDelete(s, p, reply, candidate, v).store, name, rv) || (name == candidate && rv == v)
  {
  }

  lemma LateRequestEndsOwnTarget(s: State, request: Request, name: Name, rv: Rv) returns (now: Stamp)
    requires Inv(s) && request in s.abandoned
    requires IsCurrent(s.store, name, rv) && !IsCurrent(Perform(s.store, request), name, rv)
    ensures Ends(s, Late(request), name, rv, now)
    ensures MayEnd(s.store, name, rv, now)
  {
    hide Expired, LeaseFor, TimesAccepted, WinsOk, WinnersOk, StoreOk;
    assert RequestOk(s.store, request);
    now := match request case Put(_, _, _, stamp) => stamp case Remove(_, _, stamp) => stamp case Post(_, _) => Stamp(0, 0);
  }

  /** A record with the ledger's label and holder, whose time plus its positive length has been reached. */
  predicate IsOver(lease: Lease, now: Instant) {
    && LEDGER_LABEL in lease.labels && lease.labels[LEDGER_LABEL] == "v1"
    && lease.holder == "github-oidc-exchange-replay-ledger"
    && lease.durationSeconds > 0 && lease.renewTime.At?
    && lease.renewTime.instant + lease.durationSeconds * NANOS <= now
  }

  lemma ExpiredIsOver(lease: Lease, now: Instant)
    ensures Expired(lease, now) <==> IsOver(lease, now)
  {
  }

  /**
   Ledger frame.  If any step makes a stored record stop being current, then either another client did it
   and the record was not owned, or the ledger did it in a step that names this very version and that had
   read a time at which the record was owned and expired.
   */
  lemma OnlyExpiredRecordsEnd(s: State, step: Step, name: Name, rv: Rv)
    requires Reachable(s) && Enabled(s, step)
    requires IsCurrent(s.store, name, rv) && !IsCurrent(Apply(s, step).store, name, rv)
    ensures rv < |s.store.versions| && s.store.versions[rv].name == name
    ensures step.External? ==> !Owned(s.store.versions[rv].lease)
    ensures !step.External? ==>
      exists now :: Ends(s, step, name, rv, now) && IsOver(s.store.versions[rv].lease, now.reading)
  {
    hide IsOver, Owned, LeaseFor, TimesAccepted, CallsOk, WinsOk, WinnersOk, Ends;
    ReachableStates(s);
    assert IsNewest(s.store, name, rv);
    match step {
      case Respond(p, reply) =>
        ResponseEndsOwnTarget(s, p, reply, name, rv);
        ExpiredIsOver(s.store.versions[rv].lease, s.procs[p].call.started.reading);
      case Late(request) =>
        var now := LateRequestEndsOwnTarget(s, request, name, rv);
        ExpiredIsOver(s.store.versions[rv].lease, now.reading);
      case _ =>
    }
  }

  /** Stored content is never rewritten in place, and one step stores at most one record. */
  lemma VersionsAreImmutable(s: State, step: Step)
    requires Enabled(s, step)
    ensures Appends(s.store, Apply(s, step).store)
  {
    hide Expired, LeaseFor, TimesAccepted, ReplyFits, Owned, OnCreate, OnRead, OnReplace, OnList, OnCheck, OnDelete;
    match step {
      case Respond(p, reply) => ResponseAppends(s, p, reply);
      case _ =>
    }
  }

  ghost predicate Appends(s: Store, t: Store) {
    s.versions <= t.versions && |t.versions| <= |s.versions| + 1
  }

  lemma ResponseAppends(s: State, p: Pid, reply: Reply)
    requires Enabled(s, Respond(p, reply))
    ensures Appends(s.store, Apply(s, Respond(p, reply)).store)
  {
    hide Expired, Owned, LeaseFor, TimesAccepted;
    match s.procs[p].pc {
      case Reading(_) | Listing(_) | Checking(_, _, _) => ReadsEndNothing(s, p, reply);
      case _ =>
    }
  }

  lemma ReachableFurther(s: State, step: Step)
    requires Reachable(s) && Enabled(s, step)
    ensures Reachable(Apply(s, step))
  {
    var start, trace :| Initial(start) && Legal(start, trace) && s == Exec(start, trace);
    hide Enabled, Apply, Initial, Legal, Exec;
    Extend(start, trace, step);
  }

  /** A record that never expires stays current in every continuation of every run, whatever calls do. */
  lemma {:induction false} PerpetualIsForEver(s: State, more: seq<Step>, name: Name, rv: Rv)
    requires Reachable(s) && Legal(s, more)
    requires IsCurrent(s.store, name, rv) && rv < |s.store.versions|
    requires Owned(s.store.versions[rv].lease) && Perpetual(s.store.versions[rv].lease)
    ensures var t := Exec(s, more);
      && Reachable(t)
      && IsCurrent(t.store, name, rv) && rv < |t.store.versions| && t.store.versions[rv] == s.store.versions[rv]
    decreases |more|
  {
    hide Reachable, Owned, Expired, Enabled, Apply, IsCurrent;
    if more != [] {
      var before, step := more[..|more| - 1], more[|more| - 1];
      PerpetualIsForEver(s, before, name, rv);
      ReachableFurther(Exec(s, before), step);
      VersionsAreImmutable(Exec(s, before), step);
      if !IsCurrent(Apply(Exec(s, before), step).store, name, rv) {
        OnlyExpiredRecordsEnd(Exec(s, before), step, name, rv);
        PerpetualIsNeverOver(s.store.versions[rv].lease);
      }
    }
  }

  lemma PerpetualIsNeverOver(lease: Lease)
    requires Perpetual(lease)
    ensures forall now :: !IsOver(lease, now)
  {
    forall now ensures !IsOver(lease, now) {
      ExpiredIsOver(lease, now);
    }
  }

  /** After a call that wrote such a record no other call for its name is accepted. */
  lemma PerpetualIsLast(s: State, p: Pid, q: Pid)
    requires Reachable(s)
    requires p in s.wonAs && q in s.wonAs && p in s.procs && q in s.procs && p != q
    requires s.procs[p].call.assertion.name == s.procs[q].call.assertion.name
    requires Perpetual(s.procs[p].lease)
    ensures s.wonAs[q] < s.wonAs[p]
  {
    hide StoreOk, CallsOk, WinnersOk, Expired;
    ReachableStates(s);
    if s.wonAs[p] < s.wonAs[q] {
      AcceptancesAreSeparated(s, p, q);
    }
  }

  // ----- what each answer of the server leads to -----

  /** The state of a call after a response. */
  function After(s: State, p: Pid, reply: Reply): Pc
    requires Enabled(s, Respond(p, reply))
  {
    var t := Apply(s, Respond(p, reply));
    if p in t.procs then t.procs[p].pc else s.procs[p].pc
  }

  /** A create: accepted if the name was free; the first one goes on to reclaim a taken name, the second gives up. */
  lemma CreateAnswers(s: State, p: Pid, reply: Reply)
    requires Enabled(s, Respond(p, reply)) && (s.procs[p].pc.Creating? || s.procs[p].pc.Recreating?)
    ensures After(s, p, reply) ==
            (if reply.Lost? then Finished(Refused(Unavailable))
             else if s.procs[p].call.assertion.name !in s.store.current then Listing(0)
             else if s.procs[p].pc.Creating? then Reading(0)
             else Finished(Refused(Unavailable)))
    ensures !reply.Lost? && s.procs[p].call.assertion.name !in s.store.current ==>
      var t := Apply(s, Respond(p, reply));
      && p in t.wonAs && t.wonAs[p] == |s.store.versions|
      && t.store.versions == s.store.versions + [Version(s.procs[p].call.assertion.name, s.procs[p].lease, s.store.time)]
  {
  }

  /** A read: a live record is a replay, a missing one is created, one that is over is replaced if it has a version. */
  lemma ReadAnswers(s: State, p: Pid, reply: Reply, attempt: nat)
    requires Enabled(s, Respond(p, reply)) && s.procs[p].pc == Reading(attempt)
    ensures reply.Missing? ==> After(s, p, reply) == Recreating
    ensures !reply.Missing? && !reply.Found? ==> After(s, p, reply) == Finished(Refused(Unavailable))
    ensures reply.Found? ==>
              After(s, p, reply) ==
              (if !IsOver(s.store.versions[reply.version].lease, s.procs[p].call.started.reading) then Finished(Refused(Replayed))
               else if reply.hasVersion then Replacing(attempt, reply.version)
               else Finished(Refused(Unavailable)))
  {
    hide Expired, IsOver;
    if reply.Found? {
      ExpiredIsOver(s.store.versions[reply.version].lease, s.procs[p].call.started.reading);
    }
  }

  /** An update: accepted if the version still stood; one conflict leads to another read, the second to giving up. */
  lemma ReplaceAnswers(s: State, p: Pid, reply: Reply, attempt: nat, rv: Rv)
    requires Enabled(s, Respond(p, reply)) && s.procs[p].pc == Replacing(attempt, rv)
    ensures var name := s.procs[p].call.assertion.name;
            After(s, p, reply) ==
            (if reply.Lost? || name !in s.store.current then Finished(Refused(Unavailable))
             else if s.store.current[name] == rv then Listing(0)
             else if attempt == 0 then Reading(1)
             else Finished(Refused(Unavailable)))
    ensures var name := s.procs[p].call.assertion.name;
      !reply.Lost? && name in s.store.current && s.store.current[name] == rv ==>
        var t := Apply(s, Respond(p, reply));
        && p in t.wonAs && t.wonAs[p] == |s.store.versions|
        && t.store.versions == s.store.versions + [Version(name, s.procs[p].lease, s.store.time)]
  {
  }

  // ----- what a refusal means -----

  /** The call was answered with a record of its name that was not over at its reading. */
  ghost predicate SawLive(s: Store, call: Call) {
    exists v :: 0 <= v < |s.versions| && s.versions[v].name == call.assertion.name && !IsOver(s.versions[v].lease, call.started.reading)
  }

  ghost predicate ReplaysOk(s: State) {
    forall p :: p in s.procs && s.procs[p].pc == Finished(Refused(Replayed)) ==> SawLive(s.store, s.procs[p].call)
  }

  lemma SawLiveGrows(s: Store, t: Store, call: Call)
    requires s.versions <= t.versions && SawLive(s, call)
    ensures SawLive(t, call)
  {
    var v :| 0 <= v < |s.versions| && s.versions[v].name == call.assertion.name && !IsOver(s.versions[v].lease, call.started.reading);
    assert t.versions[v] == s.versions[v];
  }

  /** The step moved one call on, and left it refused as a replay only if it saw a live record. */
  ghost predicate Moved(s: State, t: State, p: Pid) {
    && t.procs.Keys == s.procs.Keys && p in s.procs
    && (forall q :: q in s.procs && q != p ==> t.procs[q] == s.procs[q])
    && t.procs[p].call == s.procs[p].call
    && (t.procs[p].pc == Finished(Refused(Replayed)) ==> SawLive(s.store, s.procs[p].call))
  }

  lemma CreateMoves(s: State, p: Pid, reply: Reply, first: bool)
    requires p in s.procs
    ensures Moved(s, OnCreate(s, p, reply, first), p)
  {
    hide Create, SawLive;
  }

  lemma ReplaceMoves(s: State, p: Pid, reply: Reply, attempt: nat, rv: Rv)
    requires p in s.procs
    ensures Moved(s, OnReplace(s, p, reply, attempt, rv), p)
  {
    hide Update, SawLive;
  }

  lemma DeleteMoves(s: State, p: Pid, reply: Reply, candidate: Name, rv: Rv)
    requires p in s.procs
    ensures Moved(s, OnDelete(s, p, reply, candidate, rv), p)
  {
    hide Delete, SawLive;
  }

  lemma ReadMoves(s: State, p: Pid, reply: Reply, attempt: nat)
    requires p in s.procs && (reply.Found? ==> reply.version < |s.store.versions|)
    requires reply.Found? ==> s.store.versions[reply.version].name == s.procs[p].call.assertion.name
    ensures Moved(s, OnRead(s, p, reply, attempt), p)
  {
    hide Expired, IsOver;
    if reply.Found? {
      ExpiredIsOver(s.store.versions[reply.version].lease, s.procs[p].call.started.reading);
    }
  }

  lemma ListMoves(s: State, p: Pid, reply: Reply)
    requires Enabled(s, Respond(p, reply)) && (s.procs[p].pc.Listing? || s.procs[p].pc.Checking?)
    ensures Moved(s, Apply(s, Respond(p, reply)), p)
  {
    hide Expired, Owned, SawLive;
  }

  lemma ResponseMoves(s: State, p: Pid, reply: Reply)
    requires Enabled(s, Respond(p, reply))
    ensures Moved(s, Apply(s, Respond(p, reply)), p)
  {
    hide Moved, OnCreate, OnRead, OnReplace, OnList, OnCheck, OnDelete;
    match s.procs[p].pc {
      case Creating => CreateMoves(s, p, reply, true);
      case Recreating => CreateMoves(s, p, reply, false);
      case Reading(attempt) => ReadMoves(s, p, reply, attempt);
      case Replacing(attempt, rv) => ReplaceMoves(s, p, reply, attempt, rv);
      case Deleting(candidate, rv) => DeleteMoves(s, p, reply, candidate, rv);
      case Listing(_) | Checking(_, _, _) => ListMoves(s, p, reply);
      case _ =>
    }
  }

  lemma StepKeepsReplays(s: State, step: Step)
    requires ReplaysOk(s) && Enabled(s, step)
    ensures ReplaysOk(Apply(s, step))
  {
    hide SawLive, LeaseFor, TimesAccepted, ReplyFits, Owned, OnCreate, OnRead, OnReplace, OnList, OnCheck, OnDelete, Perform;
    var t := Apply(s, step);
    VersionsAreImmutable(s, step);
    match step {
      case Respond(p, reply) => ResponseMoves(s, p, reply);
      case _ =>
    }
    forall p | p in t.procs && t.procs[p].pc == Finished(Refused(Replayed)) ensures SawLive(t.store, t.procs[p].call) {
      SawLiveGrows(s.store, t.store, t.procs[p].call);
    }
  }

  /** In every run a call is refused as a replay only if it read a record of its name that was not over. */
  lemma {:induction false} ReplayedMeansLive(start: State, trace: seq<Step>, p: Pid)
    requires Initial(start) && Legal(start, trace)
    ensures ReplaysOk(Exec(start, trace))
    ensures var s := Exec(start, trace);
      p in s.procs && s.procs[p].pc == Finished(Refused(Replayed)) ==> SawLive(s.store, s.procs[p].call)
    decreases |trace|
  {
    hide Enabled, Apply, SawLive;
    if trace != [] {
      ReplayedMeansLive(start, trace[..|trace| - 1], p);
      StepKeepsReplays(Exec(start, trace[..|trace| - 1]), trace[|trace| - 1]);
    }
  }

  // ----- one token per assertion -----

  /**
   Clocks are at most `ahead` fast and `behind` slow, and an accepted call had its record written at most
   `delay` after its assertion was verified.
   */
  ghost predicate Timely(s: State, ahead: nat, behind: nat, delay: nat) {
    && (forall r :: r in s.store.readings ==> r.actual <= r.reading + behind && r.reading <= r.actual + ahead)
    && (forall p :: p in s.wonAs && p in s.procs && s.wonAs[p] < |s.store.versions| ==>
          s.store.versions[s.wonAs[p]].written <= s.procs[p].call.verified.actual + delay)
  }

  /**
   A lease name can be accepted a second time only for an assertion that expires later: the second
   assertion was still accepted by its verifier after the first record had expired.
   */
  lemma SecondAcceptance(s: State, p: Pid, q: Pid, ahead: nat, behind: nat, delay: nat)
    requires Reachable(s) && Timely(s, ahead, behind, delay)
    requires p in s.wonAs && q in s.wonAs && s.wonAs[p] < s.wonAs[q]
    requires p in s.procs && q in s.procs && s.procs[p].call.assertion.name == s.procs[q].call.assertion.name
    ensures var a, b := s.procs[p].call.assertion, s.procs[q].call.assertion;
            (a.times.exp + 299) * NANOS < (LastAccepted(b.source, b.times.exp) + 1) * NANOS + ahead + behind + delay
  {
    hide StoreOk, WinsOk, WinnersOk, LeaseFor, TimesAccepted, PcOk;
    AcceptancesAreSeparated(s, p, q);
    ReachableStates(s);
    var cp, cq := s.procs[p].call, s.procs[q].call;
    assert CallOk(s.store, s.procs[p]) && CallOk(s.store, s.procs[q]);
    StoredExpiry(cp.assertion.times.exp, cp.started.reading);
    AcceptedUntil(cq.assertion.source, cq.assertion.times, WholeSeconds(cq.verified.reading));
    assert cq.verified.reading < (WholeSeconds(cq.verified.reading) + 1) * NANOS;
  }

  /** Slack between the last acceptance of an assertion and the earliest expiry of its record. */
  function Margin(source: Source): Seconds {
    match source
    case GitHub => 268
    case GenericOidc => 299
  }

  ghost predicate IssuedFor(s: State, p: Pid, assertion: Assertion) {
    p in s.procs && s.procs[p].pc == Issued && s.procs[p].call.assertion == assertion
  }

  /** At most one token is ever issued for one assertion. */
  lemma OneTokenPerAssertion(s: State, assertion: Assertion, p: Pid, q: Pid, ahead: nat, behind: nat, delay: nat)
    requires Reachable(s) && Timely(s, ahead, behind, delay)
    requires ahead + behind + delay <= Margin(assertion.source) * NANOS
    requires IssuedFor(s, p, assertion) && IssuedFor(s, q, assertion)
    ensures p == q
  {
    hide StoreOk, CallsOk;
    ReachableStates(s);
    if s.wonAs[p] < s.wonAs[q] {
      SecondAcceptance(s, p, q, ahead, behind, delay);
    } else if s.wonAs[q] < s.wonAs[p] {
      SecondAcceptance(s, q, p, ahead, behind, delay);
    }
  }

  // ----- the limit is exact -----

  const EXPIRY: Seconds := 1_000_000

  /** The instant at which the record of the first call expires. */
  const RECORD_EXPIRY: Instant := (EXPIRY + 299) * NANOS

  /** The instant just before a verifier turns the assertion away. */
  function LastMoment(source: Source): Instant {
    (LastAccepted(source, EXPIRY) + 1) * NANOS - 1
  }

  function LateAssertion(source: Source): Assertion {
    Assertion("replay-0", source, Times(EXPIRY, EXPIRY - 200, Some(EXPIRY - 200)))
  }

  /** The first call reads its clock one nanosecond into a second, so its record is as short as can be. */
  function FirstCall(source: Source): Call {
    var now := Stamp((EXPIRY - 100) * NANOS + 1, (EXPIRY - 100) * NANOS + 1);
    Call(LateAssertion(source), now, now)
  }

  /** The second call verifies at the last moment on a slow clock and starts as soon as a fast one shows the expiry. */
  function SecondCall(source: Source, ahead: nat, behind: nat): Call {
    var verified := LastMoment(source) + behind;
    var started := if verified < RECORD_EXPIRY - ahead then RECORD_EXPIRY - ahead else verified;
    Call(LateAssertion(source), Stamp(LastMoment(source), verified), Stamp(RECORD_EXPIRY, started))
  }

  function FirstLease(): Lease {
    Lease(map[LEDGER_LABEL := LEDGER_VERSION], LEDGER_HOLDER, 399, At((EXPIRY - 100) * NANOS))
  }

  lemma AcceptedTwice(source: Source, ahead: nat, behind: nat)
    ensures forall call | call in {FirstCall(source), SecondCall(source, ahead, behind)} ::
              TimesAccepted(call.assertion.source, call.assertion.times, WholeSeconds(call.verified.reading))
  {
  }

  lemma LeasesOfTheTwoCalls(source: Source, ahead: nat, behind: nat)
    ensures LeaseFor(EXPIRY, FirstCall(source).started.reading) == Ok(FirstLease())
    ensures LeaseFor(EXPIRY, SecondCall(source, ahead, behind).started.reading).Ok?
    ensures Expired(FirstLease(), SecondCall(source, ahead, behind).started.reading)
  {
  }

  /** The first call creates its record, skips cleanup because listing fails, and is issued a token. */
  lemma FirstIssues(source: Source) returns (trace: seq<Step>)
    ensures var start := Empty((EXPIRY - 100) * NANOS + 1);
            Legal(start, trace) &&
            var s := Exec(start, trace); var call := FirstCall(source);
            && s.procs == map[0 := Proc(call, FirstLease(), Issued)]
            && s.store.versions == [Version("replay-0", FirstLease(), call.started.actual)]
            && s.store.current == map["replay-0" := 0]
            && s.store.readings == {call.started} && s.store.time == call.started.actual
            && s.wonAs == map[0 := 0]
  {
    hide Expired, LeaseFor, TimesAccepted, Exec, Legal;
    var start := Empty((EXPIRY - 100) * NANOS + 1);
    LeasesOfTheTwoCalls(source, 0, 0);
    AcceptedTwice(source, 0, 0);
    trace := Nothing(start);
    trace := Continue(start, trace, Begin(0, FirstCall(source)));
    trace := Continue(start, trace, Respond(0, Done));
    trace := Continue(start, trace, Respond(0, Lost));
    trace := Continue(start, trace, Sign(0, true));
  }

  lemma Nothing(start: State) returns (trace: seq<Step>)
    ensures Legal(start, trace) && Exec(start, trace) == start
  {
    trace := [];
  }

  lemma Continue(start: State, trace: seq<Step>, step: Step) returns (longer: seq<Step>)
    requires Legal(start, trace) && Enabled(Exec(start, trace), step)
    ensures Legal(start, longer) && Exec(start, longer) == Apply(Exec(start, trace), step)
  {
    Extend(start, trace, step);
    longer := trace + [step];
  }

  ghost predicate FirstDone(source: Source, s: State) {
    && s.procs.Keys == {0} && 0 in s.procs && s.procs[0] == Proc(FirstCall(source), FirstLease(), Issued)
    && |s.store.versions| == 1 && s.store.versions[0].name == "replay-0" && s.store.versions[0].lease == FirstLease()
    && s.store.current == map["replay-0" := 0]
  }

  /** The second call finds the name taken. */
  lemma SecondBegins(source: Source, ahead: nat, behind: nat, start: State, soFar: seq<Step>) returns (trace: seq<Step>)
    requires Legal(start, soFar)
    requires var s := Exec(start, soFar); FirstDone(source, s) && s.store.time == SecondCall(source, ahead, behind).started.actual
    ensures Legal(start, trace)
    ensures var s := Exec(start, soFar); var call := SecondCall(source, ahead, behind);
            exists lease :: Exec(start, trace) == s.(
              store := s.store.(readings := s.store.readings + {call.verified, call.started}),
              procs := s.procs[1 := Proc(call, lease, Reading(0))])
  {
    hide Expired, LeaseFor, TimesAccepted, Exec, Legal;
    var call := SecondCall(source, ahead, behind);
    LeasesOfTheTwoCalls(source, ahead, behind);
    AcceptedTwice(source, ahead, behind);
    trace := Continue(start, soFar, Begin(1, call));
    trace := Continue(start, trace, Respond(1, Done));
  }

  /** It then reads the expired record and replaces it. */
  lemma SecondReplaces(source: Source, ahead: nat, behind: nat, start: State, soFar: seq<Step>) returns (trace: seq<Step>)
    requires Legal(start, soFar)
    requires var s := Exec(start, soFar); FirstDone(source, s) && s.store.time == SecondCall(source, ahead, behind).started.actual
    ensures Legal(start, trace)
    ensures var s := Exec(start, soFar); var t := Exec(start, trace); var call := SecondCall(source, ahead, behind);
            && t.procs.Keys == {0, 1} && 0 in t.procs && 1 in t.procs && t.procs[0] == s.procs[0]
            && t.procs[1].call == call && t.procs[1].pc == Listing(0)
            && t.store.readings == s.store.readings + {call.verified, call.started}
            && |t.store.versions| == 2 && t.store.versions[0] == s.store.versions[0]
            && t.store.versions[1].written == call.started.actual
            && t.wonAs == s.wonAs[1 := 1]
  {
    hide Expired, LeaseFor, TimesAccepted, Exec, Legal;
    LeasesOfTheTwoCalls(source, ahead, behind);
    trace := SecondBegins(source, ahead, behind, start, soFar);
    trace := Continue(start, trace, Respond(1, Found(0, true)));
    assert Exec(start, trace).procs[1].pc == Replacing(0, 0);
    trace := Continue(start, trace, Respond(1, Done));
  }

  lemma SecondIssues(start: State, soFar: seq<Step>) returns (trace: seq<Step>)
    requires Legal(start, soFar) && var s := Exec(start, soFar); 1 in s.procs && s.procs[1].pc == Listing(0)
    ensures Legal(start, trace)
    ensures var s := Exec(start, soFar);
            Exec(start, trace) == s.(procs := s.procs[1 := s.procs[1].(pc := Issued)])
  {
    trace := Continue(start, soFar, Respond(1, Lost));
    assert Exec(start, trace).procs[1].pc == Finished(Accepted);
    trace := Continue(start, trace, Sign(1, true));
  }

  /** Over the limit by a nanosecond, a run exists in which one assertion is issued two tokens. */
  lemma OverTheLimit(source: Source, ahead: nat, behind: nat, delay: nat) returns (s: State)
    requires ahead + behind + delay > Margin(source) * NANOS
    ensures Reachable(s) && Timely(s, ahead, behind, delay)
    ensures IssuedFor(s, 0, LateAssertion(source)) && IssuedFor(s, 1, LateAssertion(source))
  {
    hide Expired, LeaseFor, Enabled, Legal, Exec, Apply;
    var start := Empty((EXPIRY - 100) * NANOS + 1);
    var call := SecondCall(source, ahead, behind);
    var trace := FirstIssues(source);
    trace := Wait(start, trace, call.started.actual - FirstCall(source).started.actual);
    trace := SecondReplaces(source, ahead, behind, start, trace);
    trace := SecondIssues(start, trace);
    s := Exec(start, trace);
    assert s.store.readings == {FirstCall(source).started, call.verified, call.started};
  }

  lemma Wait(start: State, soFar: seq<Step>, elapsed: nat) returns (trace: seq<Step>)
    requires Legal(start, soFar)
    ensures Legal(start, trace)
    ensures var s := Exec(start, soFar); Exec(start, trace) == s.(store := s.store.(time := s.store.time + elapsed))
  {
    trace := Continue(start, soFar, Tick(elapsed));
  }

  /** Two tokens for one assertion of this kind, in a run within the given budgets. */
  ghost predicate IssuedTwice(source: Source, s: State, p: Pid, q: Pid, ahead: nat, behind: nat, delay: nat) {
    && Reachable(s) && Timely(s, ahead, behind, delay) && p != q
    && p in s.procs && q in s.procs
    && s.procs[p].pc == Issued && s.procs[q].pc == Issued
    && s.procs[p].call.assertion == s.procs[q].call.assertion
    && s.procs[p].call.assertion.source == source
  }

  /** An assertion can be issued two tokens exactly when clock error and delay together may exceed the margin of its kind. */
  lemma OneTimeUseExactly(source: Source, ahead: nat, behind: nat, delay: nat)
    ensures (exists s, p, q :: IssuedTwice(source, s, p, q, ahead, behind, delay))
       <==> ahead + behind + delay > Margin(source) * NANOS
  {
    if ahead + behind + delay > Margin(source) * NANOS {
      var s := OverTheLimit(source, ahead, behind, delay);
      assert IssuedTwice(source, s, 0, 1, ahead, behind, delay);
    } else {
      forall s, p, q ensures !IssuedTwice(source, s, p, q, ahead, behind, delay) {
        if IssuedTwice(source, s, p, q, ahead, behind, delay) {
          OneTokenPerAssertion(s, s.procs[p].call.assertion, p, q, ahead, behind, delay);
        }
      }
    }
  }
}
