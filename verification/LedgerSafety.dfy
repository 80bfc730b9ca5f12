/**
 What every run of the replay ledger keeps, and what follows for the tokens that are issued.
 No clock is trusted in the invariant; trust in clocks enters only in the end-to-end theorems.
 */
module LedgerSafety {
  import opened Wrappers
  import opened Leases
  import opened LedgerProtocol

  // ----- the invariant of the store -----

  /** The version `rv` of `name` was read as expired at `now`, so its reader may end it. */
  ghost predicate MayEnd(s: Store, name: Name, rv: Rv, now: Stamp) {
    && rv < |s.versions| && s.versions[rv].name == name
    && Expired(s.versions[rv].lease, now.reading)
    && now in s.readings
  }

  ghost predicate EndingOk(s: Store, v: Rv, ending: Ending) {
    && v < |s.versions| && v < ending.at <= |s.versions|
    && Expired(s.versions[v].lease, ending.now.reading)
    && ending.now in s.readings
    && forall w :: ending.at <= w < |s.versions| ==> ending.now.actual <= s.versions[w].written
  }

  /** The current version of a name is its newest one and has not been ended. */
  ghost predicate CurrentOk(s: Store) {
    forall n :: n in s.current ==> IsNewest(s, n, s.current[n])
  }

  ghost predicate IsNewest(s: Store, n: Name, v: Rv) {
    && v < |s.versions|
    && s.versions[v].name == n
    && v !in s.ended
    && forall w :: v < w < |s.versions| ==> s.versions[w].name != n
  }

  /** An owned version is current until it is ended. */
  ghost predicate OwnedOk(s: Store) {
    forall v :: 0 <= v < |s.versions| && Owned(s.versions[v].lease) ==>
      v in s.ended || (s.versions[v].name in s.current && s.current[s.versions[v].name] == v)
  }

  /** Before a name gets its next version, its owned version was ended. */
  ghost predicate SuccessionOk(s: Store) {
    forall v, w :: 0 <= v < w < |s.versions| && s.versions[v].name == s.versions[w].name && Owned(s.versions[v].lease) ==>
      v in s.ended && s.ended[v].at <= w
  }

  ghost predicate StoreOk(s: Store) {
    && CurrentOk(s) && OwnedOk(s) && SuccessionOk(s)
    && (forall v :: v in s.ended ==> EndingOk(s, v, s.ended[v]))
    && (forall v :: 0 <= v < |s.versions| ==> s.versions[v].written <= s.time)
    && (forall r :: r in s.readings ==> r.actual <= s.time)
  }

  // ----- the invariant of the calls -----

  /** The calls whose record was written and whose writing was confirmed. */
  predicate HasWon(pc: Pc) {
    pc.Listing? || pc.Checking? || pc.Deleting? || pc.Issued? || pc.Unsigned? || pc == Finished(Accepted)
  }

  ghost predicate CallOk(s: Store, proc: Proc) {
    var call := proc.call;
    && LeaseFor(call.assertion.times.exp, call.started.reading) == Ok(proc.lease)
    && TimesAccepted(call.assertion.source, call.assertion.times, WholeSeconds(call.verified.reading))
    && call.verified in s.readings && call.started in s.readings
  }

  ghost predicate PcOk(s: Store, call: Call, pc: Pc) {
    match pc
    case Replacing(_, rv) => MayEnd(s, call.assertion.name, rv, call.started)
    case Deleting(candidate, rv) => MayEnd(s, candidate, rv, call.started)
    case _ => true
  }

  ghost predicate RequestOk(s: Store, request: Request) {
    match request
    case Post(_, _) => true
    case Put(name, rv, _, now) => MayEnd(s, name, rv, now)
    case Remove(name, rv, now) => MayEnd(s, name, rv, now)
  }

  ghost predicate CallsOk(s: Store, procs: map<Pid, Proc>, abandoned: set<Request>) {
    && (forall p :: p in procs ==> CallOk(s, procs[p]) && PcOk(s, procs[p].call, procs[p].pc))
    && (forall r :: r in abandoned ==> RequestOk(s, r))
  }

  /** A call is accepted exactly when it has won a version. */
  ghost predicate WinnersOk(procs: map<Pid, Proc>, wonAs: map<Pid, Rv>) {
    forall p :: p in wonAs <==> p in procs && HasWon(procs[p].pc)
  }

  ghost predicate Wrote(s: Store, proc: Proc, rv: Rv) {
    rv < |s.versions| && s.versions[rv].name == proc.call.assertion.name && s.versions[rv].lease == proc.lease
  }

  /** An accepted call is the only winner of the version it wrote, and alone took the version it replaced. */
  ghost predicate WinsOk(s: Store, procs: map<Pid, Proc>, wonAs: map<Pid, Rv>, took: map<Pid, Rv>) {
    && (forall p :: p in wonAs && p in procs ==> Wrote(s, procs[p], wonAs[p]))
    && (forall p, q :: p in wonAs && q in wonAs && p != q ==> wonAs[p] != wonAs[q])
    && (forall p :: p in took ==> p in wonAs && took[p] in s.ended && s.ended[took[p]].at == wonAs[p])
  }

  ghost predicate Inv(s: State) {
    && StoreOk(s.store)
    && CallsOk(s.store, s.procs, s.abandoned)
    && WinnersOk(s.procs, s.wonAs)
    && WinsOk(s.store, s.procs, s.wonAs, s.took)
  }

  // ----- every store operation keeps the store invariant -----

  /** Versions are never changed or forgotten, and neither are endings. */
  ghost predicate Grows(s: Store, t: Store) {
    && s.versions <= t.versions
    && s.readings <= t.readings
    && s.time <= t.time
    && forall v :: v in s.ended ==> v in t.ended && t.ended[v] == s.ended[v]
  }

  lemma WriteKeepsCurrent(s: Store, name: Name, lease: Lease)
    requires CurrentOk(s) && forall v :: v in s.ended ==> v < |s.versions|
    ensures CurrentOk(Write(s, name, lease))
  {
    var t := Write(s, name, lease);
    forall n | n in t.current ensures IsNewest(t, n, t.current[n]) {
      if n != name { assert IsNewest(s, n, s.current[n]); }
    }
  }

  lemma WriteKeepsSuccession(s: Store, name: Name, lease: Lease)
    requires StoreOk(s) && name !in s.current
    ensures OwnedOk(Write(s, name, lease)) && SuccessionOk(Write(s, name, lease))
  {
    hide Expired, Owned;
    var t := Write(s, name, lease);
    forall v | v in s.ended ensures v < |s.versions| && s.ended[v].at <= |s.versions| {
      assert EndingOk(s, v, s.ended[v]);
    }
  }

  /** Writing the next version of a name, once its owned versions have ended. */
  lemma WriteKeeps(s: Store, name: Name, lease: Lease)
    requires StoreOk(s.(current := s.current - {name}))
    ensures StoreOk(Write(s, name, lease)) && Grows(s, Write(s, name, lease))
  {
    hide Expired, Owned, CurrentOk, OwnedOk, SuccessionOk;
    var r := s.(current := s.current - {name});
    var t := Write(s, name, lease);
    assert t == Write(r, name, lease);
    forall v | v in t.ended ensures EndingOk(t, v, t.ended[v]) && v < |s.versions| {
      assert EndingOk(r, v, r.ended[v]);
    }
    WriteKeepsCurrent(r, name, lease);
    WriteKeepsSuccession(r, name, lease);
  }

  /** Ending a version that its reader saw expired, and dropping it. */
  lemma EndKeeps(s: Store, name: Name, rv: Rv, now: Stamp)
    requires StoreOk(s) && MayEnd(s, name, rv, now) && name in s.current && s.current[name] == rv
    ensures var t := End(s, rv, now).(current := s.current - {name}); StoreOk(t) && Grows(s, t)
  {
    hide Expired, Owned, CurrentOk, OwnedOk, SuccessionOk;
    var t := End(s, rv, now).(current := s.current - {name});
    forall v | v in t.ended ensures EndingOk(t, v, t.ended[v]) {
      if v != rv { assert EndingOk(s, v, s.ended[v]); }
    }
    CurrentIsNotEnded(s, name);
    EndKeepsOrder(s, name, rv, now);
  }

  lemma CurrentIsNotEnded(s: Store, name: Name)
    requires CurrentOk(s) && name in s.current
    ensures s.current[name] !in s.ended
  {
  }

  lemma EndKeepsOrder(s: Store, name: Name, rv: Rv, now: Stamp)
    requires CurrentOk(s) && OwnedOk(s) && SuccessionOk(s) && name in s.current && s.current[name] == rv
    ensures var t := End(s, rv, now).(current := s.current - {name}); CurrentOk(t) && OwnedOk(t) && SuccessionOk(t)
  {
    hide Owned;
    var t := End(s, rv, now).(current := s.current - {name});
    assert IsNewest(s, name, rv);
    forall n | n in t.current ensures IsNewest(t, n, t.current[n]) {
      assert IsNewest(s, n, s.current[n]);
    }
  }

  /** A version that is not owned may be dropped without an ending. */
  lemma DropKeeps(s: Store, name: Name)
    requires StoreOk(s) && (name in s.current ==> !Owned(s.versions[s.current[name]].lease))
    ensures StoreOk(s.(current := s.current - {name}))
  {
    var t := s.(current := s.current - {name});
    forall v | v in t.ended ensures EndingOk(t, v, t.ended[v]) {
      assert EndingOk(s, v, s.ended[v]);
    }
    forall n | n in t.current ensures IsNewest(t, n, t.current[n]) {
      assert IsNewest(s, n, s.current[n]);
    }
  }

  lemma CreateKeeps(s: Store, name: Name, lease: Lease)
    requires StoreOk(s)
    ensures var t := Create(s, name, lease).0; StoreOk(t) && Grows(s, t)
  {
    if name !in s.current {
      assert s.current - {name} == s.current;
      WriteKeeps(s, name, lease);
    }
  }

  lemma UpdateKeeps(s: Store, name: Name, rv: Rv, lease: Lease, now: Stamp)
    requires StoreOk(s) && MayEnd(s, name, rv, now)
    ensures var t := Update(s, name, rv, lease, now).0; StoreOk(t) && Grows(s, t)
  {
    if name in s.current && s.current[name] == rv {
      EndKeeps(s, name, rv, now);
      WriteKeeps(End(s, rv, now), name, lease);
    }
  }

  lemma DeleteKeeps(s: Store, name: Name, rv: Rv, now: Stamp)
    requires StoreOk(s) && MayEnd(s, name, rv, now)
    ensures var t := Delete(s, name, rv, now); StoreOk(t) && Grows(s, t)
  {
    if name in s.current && s.current[name] == rv {
      EndKeeps(s, name, rv, now);
    }
  }

  lemma ExternalKeeps(s: State, name: Name, content: Option<Lease>)
    requires StoreOk(s.store) && Enabled(s, External(name, content))
    ensures var t := Apply(s, External(name, content)); StoreOk(t.store) && Grows(s.store, t.store)
  {
    DropKeeps(s.store, name);
    if content.Some? {
      WriteKeeps(s.store, name, content.value);
    }
  }

  lemma TickKeeps(s: Store, elapsed: nat)
    requires StoreOk(s)
    ensures var t := s.(time := s.time + elapsed); StoreOk(t) && Grows(s, t)
  {
    var t := s.(time := s.time + elapsed);
    forall v | v in t.ended ensures EndingOk(t, v, t.ended[v]) {
      assert EndingOk(s, v, s.ended[v]);
    }
    forall n | n in t.current ensures IsNewest(t, n, t.current[n]) {
      assert IsNewest(s, n, s.current[n]);
    }
  }

  lemma ReadingsKeep(s: Store, more: set<Stamp>)
    requires StoreOk(s) && forall r :: r in more ==> r.actual <= s.time
    ensures var t := s.(readings := s.readings + more); StoreOk(t) && Grows(s, t)
  {
    var t := s.(readings := s.readings + more);
    forall v | v in t.ended ensures EndingOk(t, v, t.ended[v]) {
      assert EndingOk(s, v, s.ended[v]);
    }
    forall n | n in t.current ensures IsNewest(t, n, t.current[n]) {
      assert IsNewest(s, n, s.current[n]);
    }
  }

  lemma GrowthKeepsCall(s: Store, t: Store, proc: Proc)
    requires Grows(s, t) && CallOk(s, proc) && PcOk(s, proc.call, proc.pc)
    ensures CallOk(t, proc) && PcOk(t, proc.call, proc.pc)
  {
  }

  lemma GrowthKeepsRequest(s: Store, t: Store, request: Request)
    requires Grows(s, t) && RequestOk(s, request)
    ensures RequestOk(t, request)
  {
  }

  lemma GrowthKeepsCalls(s: State, t: Store)
    requires Inv(s) && StoreOk(t) && Grows(s.store, t)
    ensures Inv(s.(store := t))
  {
    hide StoreOk, CallOk, PcOk, RequestOk;
    forall p | p in s.procs ensures CallOk(t, s.procs[p]) && PcOk(t, s.procs[p].call, s.procs[p].pc) {
      GrowthKeepsCall(s.store, t, s.procs[p]);
    }
    forall r | r in s.abandoned ensures RequestOk(t, r) {
      GrowthKeepsRequest(s.store, t, r);
    }
    forall p | p in s.wonAs && p in s.procs ensures Wrote(t, s.procs[p], s.wonAs[p]) {
      assert Wrote(s.store, s.procs[p], s.wonAs[p]);
    }
  }

  // ----- every step of a call keeps the invariant -----

  lemma GotoKeeps(s: State, p: Pid, pc: Pc)
    requires Inv(s) && p in s.procs
    requires HasWon(s.procs[p].pc) == HasWon(pc)
    requires PcOk(s.store, s.procs[p].call, pc)
    ensures Inv(Goto(s, p, pc))
  {
    hide StoreOk, CallOk, PcOk, RequestOk, Wrote;
    var t := Goto(s, p, pc);
    assert t.procs[p].call == s.procs[p].call && t.procs[p].lease == s.procs[p].lease;
    CallDependsOnCall(s.store, s.procs[p], t.procs[p]);
  }

  /** Moving a call on changes neither what it was called with nor what it may have written. */
  lemma CallDependsOnCall(s: Store, before: Proc, after: Proc)
    requires before.call == after.call && before.lease == after.lease
    ensures CallOk(s, before) == CallOk(s, after)
    ensures forall rv :: Wrote(s, before, rv) == Wrote(s, after, rv)
  {
  }

  lemma AbandonKeeps(s: State, p: Pid, request: Request, pc: Pc)
    requires Inv(s) && p in s.procs
    requires HasWon(s.procs[p].pc) == HasWon(pc)
    requires PcOk(s.store, s.procs[p].call, pc) && RequestOk(s.store, request)
    ensures Inv(Abandon(s, p, request, pc))
  {
    GotoKeeps(s, p, pc);
  }

  /** A call that just wrote the newest version wins with it. */
  lemma WinKeeps(s: State, p: Pid)
    requires Inv(s) && p in s.procs && !HasWon(s.procs[p].pc)
    requires |s.store.versions| > 0
    requires Wrote(s.store, s.procs[p], |s.store.versions| - 1)
    requires forall q :: q in s.wonAs ==> s.wonAs[q] < |s.store.versions| - 1
    ensures Inv(Win(s, p, |s.store.versions| - 1))
  {
    hide StoreOk, CallOk, RequestOk, Wrote;
    var rv := |s.store.versions| - 1;
    var t := Win(s, p, rv);
    CallDependsOnCall(s.store, s.procs[p], t.procs[p]);
  }

  lemma WinsAreStored(s: State)
    requires Inv(s)
    ensures forall q :: q in s.wonAs ==> s.wonAs[q] < |s.store.versions|
  {
    hide StoreOk, CallsOk;
    forall q | q in s.wonAs ensures s.wonAs[q] < |s.store.versions| {
      assert Wrote(s.store, s.procs[q], s.wonAs[q]);
    }
  }

  /** Recording which version a winner replaced. */
  lemma TookKeeps(s: State, p: Pid, rv: Rv)
    requires Inv(s) && p in s.wonAs && rv in s.store.ended && s.store.ended[rv].at == s.wonAs[p]
    ensures Inv(s.(took := s.took[p := rv]))
  {
    hide Expired, Owned, TimesAccepted, LeaseFor, StoreOk, CallsOk, WinnersOk;
  }

  lemma OnCreateKeeps(s: State, p: Pid, reply: Reply, first: bool)
    requires Inv(s) && p in s.procs && (s.procs[p].pc.Creating? || s.procs[p].pc.Recreating?)
    ensures Inv(OnCreate(s, p, reply, first))
  {
    hide StoreOk, CallsOk, WinsOk, WinnersOk, Expired;
    WinsAreStored(s);
    var proc := s.procs[p];
    var name := proc.call.assertion.name;
    if reply.Lost? {
      AbandonKeeps(s, p, Post(name, proc.lease), Refuse(Unavailable));
    } else {
      var (stored, created) := Create(s.store, name, proc.lease);
      CreateKeeps(s.store, name, proc.lease);
      GrowthKeepsCalls(s, stored);
      if created {
        WinKeeps(s.(store := stored), p);
      } else {
        GotoKeeps(s.(store := stored), p, if first then Reading(0) else Refuse(Unavailable));
      }
    }
  }

  lemma OnReplaceKeeps(s: State, p: Pid, reply: Reply, attempt: nat, rv: Rv)
    requires Inv(s) && p in s.procs && s.procs[p].pc == Replacing(attempt, rv)
    ensures Inv(OnReplace(s, p, reply, attempt, rv))
  {
    hide StoreOk, WinsOk, WinnersOk, CallOk, Expired;
    WinsAreStored(s);
    var proc := s.procs[p];
    var name := proc.call.assertion.name;
    assert MayEnd(s.store, name, rv, proc.call.started);
    if reply.Lost? {
      AbandonKeeps(s, p, Put(name, rv, proc.lease, proc.call.started), Refuse(Unavailable));
    } else {
      var (stored, result) := Update(s.store, name, rv, proc.lease, proc.call.started);
      UpdateKeeps(s.store, name, rv, proc.lease, proc.call.started);
      GrowthKeepsCalls(s, stored);
      match result {
        case Updated =>
          WinKeeps(s.(store := stored), p);
          TookKeeps(Win(s.(store := stored), p, |s.store.versions|), p, rv);
        case Conflict => GotoKeeps(s.(store := stored), p, if attempt == 0 then Reading(1) else Refuse(Unavailable));
        case NotFound => GotoKeeps(s.(store := stored), p, Refuse(Unavailable));
      }
    }
  }

  lemma OnDeleteKeeps(s: State, p: Pid, reply: Reply, candidate: Name, rv: Rv)
    requires Inv(s) && p in s.procs && s.procs[p].pc == Deleting(candidate, rv)
    ensures Inv(OnDelete(s, p, reply, candidate, rv))
  {
    hide StoreOk, WinsOk, WinnersOk, CallOk, Expired;
    var now := s.procs[p].call.started;
    assert MayEnd(s.store, candidate, rv, now);
    if reply.Lost? {
      AbandonKeeps(s, p, Remove(candidate, rv, now), Finished(Accepted));
    } else {
      DeleteKeeps(s.store, candidate, rv, now);
      GrowthKeepsCalls(s, Delete(s.store, candidate, rv, now));
      GotoKeeps(s.(store := Delete(s.store, candidate, rv, now)), p, Finished(Accepted));
    }
  }

  /** A read or a list response only moves the call on; whoever may end a version has read it as expired. */
  lemma ReadAdvances(s: State, p: Pid, reply: Reply) returns (pc: Pc)
    requires Enabled(s, Respond(p, reply))
    requires s.procs[p].pc.Reading? || s.procs[p].pc.Listing? || s.procs[p].pc.Checking?
    requires s.procs[p].call.started in s.store.readings
    ensures Apply(s, Respond(p, reply)) == Goto(s, p, pc)
    ensures HasWon(pc) == HasWon(s.procs[p].pc) && PcOk(s.store, s.procs[p].call, pc)
  {
    hide TimesAccepted, LeaseFor, Expired, Owned;
    pc := Apply(s, Respond(p, reply)).procs[p].pc;
  }

  lemma OnReadKeeps(s: State, p: Pid, reply: Reply)
    requires Inv(s) && Enabled(s, Respond(p, reply))
    requires s.procs[p].pc.Reading? || s.procs[p].pc.Listing? || s.procs[p].pc.Checking?
    ensures Inv(Apply(s, Respond(p, reply)))
  {
    hide StoreOk, WinnersOk, WinsOk, RequestOk, PcOk, TimesAccepted, LeaseFor, ReplyFits, Apply, Goto;
    assert CallOk(s.store, s.procs[p]);
    var pc := ReadAdvances(s, p, reply);
    GotoKeeps(s, p, pc);
  }

  lemma RespondKeeps(s: State, p: Pid, reply: Reply)
    requires Inv(s) && Enabled(s, Respond(p, reply))
    ensures Inv(Apply(s, Respond(p, reply)))
  {
    hide Inv, ReplyFits, OnCreate, OnRead, OnReplace, OnList, OnCheck, OnDelete;
    match s.procs[p].pc {
      case Creating => OnCreateKeeps(s, p, reply, true);
      case Recreating => OnCreateKeeps(s, p, reply, false);
      case Replacing(attempt, rv) => OnReplaceKeeps(s, p, reply, attempt, rv);
      case Deleting(candidate, rv) => OnDeleteKeeps(s, p, reply, candidate, rv);
      case _ => OnReadKeeps(s, p, reply);
    }
  }

  lemma LateKeeps(s: State, request: Request)
    requires Inv(s) && request in s.abandoned
    ensures Inv(s.(store := Perform(s.store, request)))
  {
    assert RequestOk(s.store, request);
    match request {
      case Post(name, lease) => CreateKeeps(s.store, name, lease);
      case Put(name, rv, lease, now) => UpdateKeeps(s.store, name, rv, lease, now);
      case Remove(name, rv, now) => DeleteKeeps(s.store, name, rv, now);
    }
    GrowthKeepsCalls(s, Perform(s.store, request));
  }

  lemma BeginKeeps(s: State, p: Pid, call: Call)
    requires Inv(s) && Enabled(s, Begin(p, call))
    ensures Inv(Apply(s, Begin(p, call)))
  {
    hide TimesAccepted, LeaseFor, StoreOk, RequestOk, MayEnd, Wrote;
    var t := Apply(s, Begin(p, call));
    ReadingsKeep(s.store, {call.verified, call.started});
    GrowthKeepsCalls(s, t.store);
    assert CallOk(t.store, t.procs[p]) && PcOk(t.store, call, Creating) by {
      hide Inv;
    }
  }

  lemma StepKeeps(s: State, step: Step)
    requires Inv(s) && Enabled(s, step)
    ensures Inv(Apply(s, step))
  {
    hide TimesAccepted, LeaseFor, StoreOk, CallsOk, WinsOk, Perform, Grows, OnCreate, OnRead, OnReplace, OnList, OnCheck, OnDelete;
    match step {
      case Tick(elapsed) =>
        TickKeeps(s.store, elapsed);
        GrowthKeepsCalls(s, Apply(s, step).store);
      case Begin(p, call) => BeginKeeps(s, p, call);
      case Respond(p, reply) => RespondKeeps(s, p, reply);
      case Late(request) => LateKeeps(s, request);
      case External(name, content) =>
        ExternalKeeps(s, name, content);
        GrowthKeepsCalls(s, Apply(s, step).store);
      case Sign(p, succeeds) => GotoKeeps(s, p, if succeeds then Issued else Unsigned);
    }
  }

  lemma {:induction false} RunKeeps(s: State, trace: seq<Step>)
    requires Initial(s) && Legal(s, trace)
    ensures Inv(Exec(s, trace))
    decreases |trace|
  {
    if trace != [] {
      RunKeeps(s, trace[..|trace| - 1]);
      StepKeeps(Exec(s, trace[..|trace| - 1]), trace[|trace| - 1]);
    }
  }

  // ----- one-time use -----

  ghost predicate Reachable(s: State) {
    exists start, trace :: Initial(start) && Legal(start, trace) && s == Exec(start, trace)
  }

  lemma ReachableStates(s: State)
    requires Reachable(s)
    ensures Inv(s)
  {
    var start, trace :| Initial(start) && Legal(start, trace) && s == Exec(start, trace);
    RunKeeps(start, trace);
  }

  /**
   Two accepted calls for one lease name are separated by a step that saw the first record expired: it
   ended that record before the second one was written.
   */
  lemma AcceptancesAreSeparated(s: State, p: Pid, q: Pid)
    requires Reachable(s)
    requires p in s.wonAs && q in s.wonAs && s.wonAs[p] < s.wonAs[q]
    requires p in s.procs && q in s.procs && s.procs[p].call.assertion.name == s.procs[q].call.assertion.name
    ensures var first := s.wonAs[p];
            && s.wonAs[q] < |s.store.versions|
            && first in s.store.ended
            && first < s.store.ended[first].at <= s.wonAs[q]
            && Expired(s.procs[p].lease, s.store.ended[first].now.reading)
            && s.store.ended[first].now in s.store.readings
            && s.store.ended[first].now.actual <= s.store.versions[s.wonAs[q]].written
  {
    hide Expired;
    ReachableStates(s);
    var first, second := s.wonAs[p], s.wonAs[q];
    assert Wrote(s.store, s.procs[p], first) && Wrote(s.store, s.procs[q], second);
    StoredExpiry(s.procs[p].call.assertion.times.exp, s.procs[p].call.started.reading);
    assert EndingOk(s.store, first, s.store.ended[first]);
  }
}
