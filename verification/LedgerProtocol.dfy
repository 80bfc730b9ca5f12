/**
 The replay ledger as a distributed protocol.  Any number of exchange calls, on any number of
 replicas, run against one Lease store; every API request is one atomic step.  A request whose
 response is lost stays on the wire and may still take effect later, once or several times.  Reads
 may be stale, list pages are arbitrary, clocks read anything, and other clients may write records
 that are not ledger records.
 */
module LedgerProtocol {
  import opened Wrappers
  import opened Leases

  type Name = string
  type Pid = nat
  type Rv = nat

  /** A clock reading, and the real time at which the clock was read. */
  datatype Stamp = Stamp(reading: Instant, actual: int)

  /** A verified assertion: the lease name derived from its replay identity, and its time claims. */
  datatype Assertion = Assertion(name: Name, source: Source, times: Times)

  /** One exchange call: `verified` is when the assertion passed the time checks, `started` the reading of `use_once`. */
  datatype Call = Call(assertion: Assertion, verified: Stamp, started: Stamp)

  /** Everything ever stored, in order; the position is the resource version. */
  datatype Version = Version(name: Name, lease: Lease, written: int)

  /** An owned version stopped being current: before version `at` was written, by a step that had read `now`. */
  datatype Ending = Ending(at: nat, now: Stamp)

  datatype Request =
    | Post(name: Name, lease: Lease)
    | Put(name: Name, rv: Rv, lease: Lease, now: Stamp)
    | Remove(name: Name, rv: Rv, now: Stamp)

  datatype Outcome = Accepted | Refused(error: ReplayError)

  /** Where a call is: the request it is waiting for, or its outcome. */
  datatype Pc =
    | Creating
    | Reading(attempt: nat)
    | Recreating
    | Replacing(attempt: nat, rv: Rv)
    | Listing(page: nat)
    | Checking(page: nat, candidate: Name, more: bool)
    | Deleting(candidate: Name, rv: Rv)
    | Finished(outcome: Outcome)
    | Issued
    | Unsigned

  datatype Proc = Proc(call: Call, lease: Lease, pc: Pc)

  /** A response. `Lost` stands for every failed, timed out or unexpected response. */
  datatype Reply =
    | Done
    | Lost
    | Missing
    | Found(version: Rv, hasVersion: bool)
    | Page(candidate: Option<Name>, more: bool)

  datatype Step =
    | Tick(elapsed: nat)
    | Begin(pid: Pid, call: Call)
    | Respond(pid: Pid, reply: Reply)
    | Late(request: Request)
    | External(name: Name, content: Option<Lease>)
    | Sign(pid: Pid, succeeds: bool)

  /**
   `wonAs` is the history of accepted calls: the version each of them wrote.  `took` names the expired
   version an accepted call replaced, if it replaced one.
   */
  datatype State = State(
    store: Store,
    procs: map<Pid, Proc>,
    abandoned: set<Request>,
    wonAs: map<Pid, Rv>,
    took: map<Pid, Rv>)

  /** The Lease store at real time `time`, with the record of how owned versions ended and of all clock readings. */
  datatype Store = Store(
    versions: seq<Version>,
    current: map<Name, Rv>,
    ended: map<Rv, Ending>,
    readings: set<Stamp>,
    time: int)

  // ----- the store: create, conditional update, conditional delete -----

  function Write(s: Store, name: Name, lease: Lease): Store {
    s.(versions := s.versions + [Version(name, lease, s.time)], current := s.current[name := |s.versions|])
  }

  function End(s: Store, rv: Rv, now: Stamp): Store {
    s.(ended := s.ended[rv := Ending(|s.versions|, now)])
  }

  /** 409 Conflict when the name exists, otherwise 201 Created. */
  function Create(s: Store, name: Name, lease: Lease): (Store, bool) {
    if name in s.current then (s, false) else (Write(s, name, lease), true)
  }

  datatype PutResult = Updated | Conflict | NotFound

  /** An update names the version it read: 404, 409, or the content is replaced. */
  function Update(s: Store, name: Name, rv: Rv, lease: Lease, now: Stamp): (Store, PutResult) {
    if name !in s.current then (s, NotFound)
    else if s.current[name] != rv then (s, Conflict)
    else (Write(End(s, rv, now), name, lease), Updated)
  }

  /** A delete with a resource-version precondition; 404 and 409 leave the store alone. */
  function Delete(s: Store, name: Name, rv: Rv, now: Stamp): Store {
    if name in s.current && s.current[name] == rv then End(s, rv, now).(current := s.current - {name}) else s
  }

  function Perform(s: Store, request: Request): Store {
    match request
    case Post(name, lease) => Create(s, name, lease).0
    case Put(name, rv, lease, now) => Update(s, name, rv, lease, now).0
    case Remove(name, rv, now) => Delete(s, name, rv, now)
  }

  // ----- a call -----

  function Goto(s: State, p: Pid, pc: Pc): State
    requires p in s.procs
  {
    s.(procs := s.procs[p := s.procs[p].(pc := pc)])
  }

  /** The response says the record is this call's: the call is accepted and goes on to clean up. */
  function Win(s: State, p: Pid, rv: Rv): State
    requires p in s.procs
  {
    Goto(s, p, Listing(0)).(wonAs := s.wonAs[p := rv])
  }

  /** The response is lost: the request stays on the wire. */
  function Abandon(s: State, p: Pid, request: Request, pc: Pc): State
    requires p in s.procs
  {
    Goto(s, p, pc).(abandoned := s.abandoned + {request})
  }

  function Refuse(error: ReplayError): Pc {
    Finished(Refused(error))
  }

  /** After a page without a deletion: the next page if there is one and the limit allows, else done. */
  function NextPage(page: nat, more: bool): Pc {
    if more && page + 1 < MAX_CLEANUP_PAGES then Listing(page + 1) else Finished(Accepted)
  }

  /** The name a waiting call reads. */
  function Target(proc: Proc): Name {
    match proc.pc
    case Checking(_, candidate, _) => candidate
    case Deleting(candidate, _) => candidate
    case _ => proc.call.assertion.name
  }

  function OnCreate(s: State, p: Pid, reply: Reply, first: bool): State
    requires p in s.procs
  {
    var proc := s.procs[p];
    var name := proc.call.assertion.name;
    if reply.Lost? then Abandon(s, p, Post(name, proc.lease), Refuse(Unavailable))
    else
      var (stored, created) := Create(s.store, name, proc.lease);
      if created then Win(s.(store := stored), p, |s.store.versions|)
      else if first then Goto(s.(store := stored), p, Reading(0))
      else Goto(s.(store := stored), p, Refuse(Unavailable))
  }

  function OnRead(s: State, p: Pid, reply: Reply, attempt: nat): State
    requires p in s.procs
    requires reply.Found? ==> reply.version < |s.store.versions|
  {
    match reply
    case Missing => Goto(s, p, Recreating)
    case Found(v, hasVersion) =>
      if !Expired(s.store.versions[v].lease, s.procs[p].call.started.reading) then Goto(s, p, Refuse(Replayed))
      else if !hasVersion then Goto(s, p, Refuse(Unavailable))
      else Goto(s, p, Replacing(attempt, v))
    case _ => Goto(s, p, Refuse(Unavailable))
  }

  function OnReplace(s: State, p: Pid, reply: Reply, attempt: nat, rv: Rv): State
    requires p in s.procs
  {
    var proc := s.procs[p];
    var name := proc.call.assertion.name;
    if reply.Lost? then Abandon(s, p, Put(name, rv, proc.lease, proc.call.started), Refuse(Unavailable))
    else
      var (stored, result) := Update(s.store, name, rv, proc.lease, proc.call.started);
      match result
      case Updated => Win(s.(store := stored), p, |s.store.versions|).(took := s.took[p := rv])
      case Conflict => Goto(s.(store := stored), p, if attempt == 0 then Reading(1) else Refuse(Unavailable))
      case NotFound => Goto(s.(store := stored), p, Refuse(Unavailable))
  }

  function OnList(s: State, p: Pid, reply: Reply, page: nat): State
    requires p in s.procs
  {
    match reply
    case Page(candidate, more) =>
      if candidate.Some? then Goto(s, p, Checking(page, candidate.value, more)) else Goto(s, p, NextPage(page, more))
    case _ => Goto(s, p, Finished(Accepted))
  }

  function OnCheck(s: State, p: Pid, reply: Reply, page: nat, candidate: Name, more: bool): State
    requires p in s.procs
    requires reply.Found? ==> reply.version < |s.store.versions|
  {
    match reply
    case Found(v, hasVersion) =>
      var lease := s.store.versions[v].lease;
      if Owned(lease) && Expired(lease, s.procs[p].call.started.reading) && hasVersion
      then Goto(s, p, Deleting(candidate, v))
      else Goto(s, p, NextPage(page, more))
    case _ => Goto(s, p, NextPage(page, more))
  }

  function OnDelete(s: State, p: Pid, reply: Reply, candidate: Name, rv: Rv): State
    requires p in s.procs
  {
    var now := s.procs[p].call.started;
    if reply.Lost? then Abandon(s, p, Remove(candidate, rv, now), Finished(Accepted))
    else Goto(s.(store := Delete(s.store, candidate, rv, now)), p, Finished(Accepted))
  }

  // ----- steps and runs -----

  predicate Waiting(pc: Pc) {
    !pc.Finished? && !pc.Issued? && !pc.Unsigned?
  }

  predicate ReplyFits(s: State, proc: Proc, reply: Reply) {
    match proc.pc
    case Reading(_) | Checking(_, _, _) =>
      (reply.Lost? || reply.Missing? ||
       (reply.Found? && reply.version < |s.store.versions| && s.store.versions[reply.version].name == Target(proc)))
    case Listing(_) => reply.Lost? || reply.Page?
    case _ => reply.Lost? || reply.Done?
  }

  /**
   A call begins once its assertion has passed the time checks and its record could be built; a call
   whose record cannot be built returns before its first request and takes no step.
   */
  predicate Enabled(s: State, step: Step) {
    match step
    case Tick(_) => true
    case Begin(p, call) =>
      && p !in s.procs
      && call.started.actual == s.store.time && call.verified.actual <= s.store.time
      && TimesAccepted(call.assertion.source, call.assertion.times, WholeSeconds(call.verified.reading))
      && LeaseFor(call.assertion.times.exp, call.started.reading).Ok?
    case Respond(p, reply) =>
      p in s.procs && Waiting(s.procs[p].pc) && ReplyFits(s, s.procs[p], reply)
    case Late(request) => request in s.abandoned
    case External(name, _) =>
      name in s.store.current ==> s.store.current[name] < |s.store.versions| && !Owned(s.store.versions[s.store.current[name]].lease)
    case Sign(p, _) => p in s.procs && s.procs[p].pc == Finished(Accepted)
  }

  function Apply(s: State, step: Step): State
    requires Enabled(s, step)
  {
    match step
    case Tick(elapsed) => s.(store := s.store.(time := s.store.time + elapsed))
    case Begin(p, call) =>
      var lease := LeaseFor(call.assertion.times.exp, call.started.reading).value;
      s.(procs := s.procs[p := Proc(call, lease, Creating)],
         store := s.store.(readings := s.store.readings + {call.verified, call.started}))
    case Respond(p, reply) =>
      (match s.procs[p].pc
       case Creating => OnCreate(s, p, reply, true)
       case Reading(attempt) => OnRead(s, p, reply, attempt)
       case Recreating => OnCreate(s, p, reply, false)
       case Replacing(attempt, rv) => OnReplace(s, p, reply, attempt, rv)
       case Listing(page) => OnList(s, p, reply, page)
       case Checking(page, candidate, more) => OnCheck(s, p, reply, page, candidate, more)
       case Deleting(candidate, rv) => OnDelete(s, p, reply, candidate, rv)
       case _ => s)
    case Late(request) => s.(store := Perform(s.store, request))
    case External(name, content) =>
      s.(store := if content.Some? then Write(s.store, name, content.value)
                 else s.store.(current := s.store.current - {name}))
    case Sign(p, succeeds) => Goto(s, p, if succeeds then Issued else Unsigned)
  }

  /** The store may already hold any records, each under its own name; no call has been made. */
  predicate Initial(s: State) {
    InitialStore(s.store) && s.procs == map[] && s.abandoned == {} && s.wonAs == map[] && s.took == map[]
  }

  predicate InitialStore(s: Store) {
    && (forall v, w :: 0 <= v < w < |s.versions| ==> s.versions[v].name != s.versions[w].name)
    && (forall v :: 0 <= v < |s.versions| ==>
          s.versions[v].name in s.current && s.current[s.versions[v].name] == v && s.versions[v].written <= s.time)
    && (forall n :: n in s.current ==> s.current[n] < |s.versions| && s.versions[s.current[n]].name == n)
    && s.ended == map[] && s.readings == {}
  }

  /** The store is empty and it is `time`. */
  function Empty(time: int): (s: State)
    ensures Initial(s)
  {
    State(Store([], map[], map[], {}, time), map[], {}, map[], map[])
  }

  /** `trace` can be executed from `s`. */
  predicate Legal(s: State, trace: seq<Step>)
    decreases |trace|, 0
  {
    trace == [] || (Legal(s, trace[..|trace| - 1]) && Enabled(Exec(s, trace[..|trace| - 1]), trace[|trace| - 1]))
  }

  function Exec(s: State, trace: seq<Step>): State
    requires Legal(s, trace)
    decreases |trace|, 1
  {
    if trace == [] then s else Apply(Exec(s, trace[..|trace| - 1]), trace[|trace| - 1])
  }

  /** One more step. */
  lemma Extend(s: State, trace: seq<Step>, step: Step)
    requires Legal(s, trace) && Enabled(Exec(s, trace), step)
    ensures Legal(s, trace + [step]) && Exec(s, trace + [step]) == Apply(Exec(s, trace), step)
  {
  }
}
