/**
 The counters of the two exchange services under concurrency.  Every counter update is one atomic addition
 modulo 2^64; any number of exchanges interleave between additions.  An exchange whose client goes away is
 dropped where it waits, with its timer but without an outcome.
 */
module Accounting {
  import opened Wrappers
  import opened Numbers
  import Leases

  /** Upper bounds of the duration buckets, in nanoseconds. */
  const BUCKET_BOUNDS: seq<nat> := [10_000_000, 25_000_000, 50_000_000, 100_000_000, 250_000_000, 500_000_000, 1_000_000_000, 5_000_000_000]
  const BUCKETS: nat := 8

  /** The GitHub exchange counts a replay once and observes durations; the generic one also counts it as denied. */
  type Service = Leases.Source

  datatype Outcome = Issue | Deny | Replay | Fail

  datatype Phase =
    | Verifying
    | Authorizing
    | AtLedger
    | Signing
    | Counting(outcome: Outcome)
    | AlsoDenying
    | Observing(result: Option<Outcome>, step: nat)
    | Done(result: Option<Outcome>)

  /** One exchange; `accepted` once the ledger accepted it, `elapsed` once its timer was read. */
  datatype Proc = Proc(phase: Phase, accepted: bool, elapsed: nat)

  datatype Counter = Requests | Issued | Denied | Replayed | Errors | DurationCount | Bucket(index: nat)

  datatype State = State(service: Service, procs: seq<Proc>, counters: map<Counter, nat>, durationSumMicros: nat)

  datatype Step = Arrive | Decide(i: nat, to: Phase) | Advance(i: nat, elapsed: nat) | Drop(i: nat, elapsed: nat)

  function Value(s: State, c: Counter): nat {
    if c in s.counters then s.counters[c] else 0
  }

  function FetchAdd(s: State, c: Option<Counter>): map<Counter, nat> {
    match c
    case None => s.counters
    case Some(counter) => s.counters[counter := (Value(s, counter) + 1) % U64_MODULUS]
  }

  function CounterOf(outcome: Outcome): Counter {
    match outcome
    case Issue => Issued
    case Deny => Denied
    case Replay => Replayed
    case Fail => Errors
  }

  /** The choices an exchange makes before it has an outcome. */
  predicate MayDecide(from: Phase, to: Phase) {
    match from
    case Verifying => to == Authorizing || to == Counting(Deny) || to == Counting(Fail)
    case Authorizing => to == AtLedger || to == Counting(Deny)
    case AtLedger => to == Signing || to == Counting(Replay) || to == Counting(Fail)
    case Signing => to == Counting(Issue) || to == Counting(Fail)
    case _ => false
  }

  /** The addition an exchange makes next, if any. */
  function NextAddition(proc: Proc): Option<Counter> {
    match proc.phase
    case Counting(outcome) => Some(CounterOf(outcome))
    case AlsoDenying => Some(Denied)
    case Observing(_, step) =>
      if step == 0 then Some(DurationCount)
      else if 2 <= step < 2 + BUCKETS && proc.elapsed <= BUCKET_BOUNDS[step - 2] then Some(Bucket(step - 2))
      else None
    case _ => None
  }

  /** An exchange waits for the verifier and for the ledger; only there can it be dropped. */
  predicate MayDrop(phase: Phase) {
    phase.Verifying? || phase.AtLedger?
  }

  /** When it is over, with its outcome counted or without any, a GitHub exchange drops its timer. */
  function Ended(service: Service, result: Option<Outcome>): Phase {
    if service.GitHub? then Observing(result, 0) else Done(result)
  }

  function NextPhase(service: Service, phase: Phase): Phase {
    match phase
    case Counting(outcome) => if service.GenericOidc? && outcome.Replay? then AlsoDenying else Ended(service, Some(outcome))
    case AlsoDenying => Ended(service, Some(Replay))
    case Observing(result, step) => if step + 1 < 2 + BUCKETS then Observing(result, step + 1) else Done(result)
    case other => other
  }

  predicate Undecided(phase: Phase) {
    phase.Verifying? || phase.Authorizing? || phase.AtLedger? || phase.Signing?
  }

  predicate Enabled(s: State, step: Step) {
    match step
    case Arrive => true
    case Decide(i, to) => i < |s.procs| && MayDecide(s.procs[i].phase, to)
    case Advance(i, _) => i < |s.procs| && !Undecided(s.procs[i].phase) && !s.procs[i].phase.Done?
    case Drop(i, _) => i < |s.procs| && MayDrop(s.procs[i].phase)
  }

  /** The timer is read when the exchange leaves its counters behind. */
  function Advanced(service: Service, proc: Proc, elapsed: nat): Proc {
    var phase := NextPhase(service, proc.phase);
    Proc(phase, proc.accepted, if proc.phase.Observing? then proc.elapsed else elapsed)
  }

  function Apply(s: State, step: Step): State
    requires Enabled(s, step)
  {
    match step
    case Arrive =>
      s.(procs := s.procs + [Proc(Verifying, false, 0)], counters := FetchAdd(s, Some(Requests)))
    case Decide(i, to) =>
      s.(procs := s.procs[i := s.procs[i].(phase := to, accepted := s.procs[i].accepted || to.Signing?)])
    case Advance(i, elapsed) =>
      var proc := s.procs[i];
      s.(procs := s.procs[i := Advanced(s.service, proc, elapsed)],
         counters := FetchAdd(s, NextAddition(proc)),
         durationSumMicros := if proc.phase.Observing? && proc.phase.step == 1
                              then (s.durationSumMicros + Micros(proc.elapsed)) % U64_MODULUS else s.durationSumMicros)
    case Drop(i, elapsed) =>
      s.(procs := s.procs[i := Dropped(s.service, s.procs[i], elapsed)])
  }

  /** The timer of a dropped exchange is read at once. */
  function Dropped(service: Service, proc: Proc, elapsed: nat): Proc {
    Proc(Ended(service, None), proc.accepted, elapsed)
  }

  function Micros(elapsed: nat): nat {
    if elapsed / 1_000 < U64_MODULUS then elapsed / 1_000 else U64_MODULUS - 1
  }

  function Idle(service: Service): State {
    State(service, [], map[], 0)
  }

  predicate Legal(s: State, trace: seq<Step>)
    decreases |trace|, 0
  {
    trace == [] || (Legal(s, trace[..|trace| - 1]) && Enabled(Exec(s, trace[..|trace| - 1]), trace[|trace| - 1]))
  }

  function Exec(s: State, trace: seq<Step>): State
    requires Legal(s, trace)
    decreases |trace|, 1
  {
    if trace == [] then s else Apply(Exec(s, trace[..|trace| - 1]), trace[|trace| - 1])
  }

  lemma Extend(s: State, trace: seq<Step>, step: Step)
    requires Legal(s, trace) && Enabled(Exec(s, trace), step)
    ensures Legal(s, trace + [step]) && Exec(s, trace + [step]) == Apply(Exec(s, trace), step)
  {
  }

  // ----- what a counter counts -----

  function OutcomeOf(proc: Proc): Option<Outcome> {
    match proc.phase
    case Observing(result, _) => result
    case Done(result) => result
    case _ => None
  }

  /** How far the exchange is in its observation; a finished one is past every step. */
  function Observed(service: Service, proc: Proc): nat {
    match proc.phase
    case Observing(_, step) => step
    case Done(_) => if service.GitHub? then 2 + BUCKETS else 0
    case _ => 0
  }

  /** The exchange has made its addition to the counter. */
  predicate Counted(service: Service, c: Counter, proc: Proc) {
    match c
    case Requests => true
    case Issued => OutcomeOf(proc) == Some(Issue)
    case Denied => OutcomeOf(proc) == Some(Deny) || (service.GenericOidc? && OutcomeOf(proc) == Some(Replay))
    case Replayed => OutcomeOf(proc) == Some(Replay) || proc.phase.AlsoDenying?
    case Errors => OutcomeOf(proc) == Some(Fail)
    case DurationCount => Observed(service, proc) > 0
    case Bucket(b) => b < BUCKETS && Observed(service, proc) > 2 + b && proc.elapsed <= BUCKET_BOUNDS[b]
  }

  /** What may be counted over all exchanges. */
  datatype Measure = Added(counter: Counter) | Open | AcceptedByLedger | Within(index: nat)

  predicate Shows(service: Service, m: Measure, proc: Proc) {
    match m
    case Added(c) => Counted(service, c, proc)
    case Open => OutcomeOf(proc).None?
    case AcceptedByLedger => proc.accepted
    case Within(b) => b < BUCKETS && proc.elapsed <= BUCKET_BOUNDS[b]
  }

  function Count(service: Service, m: Measure, procs: seq<Proc>): nat {
    if procs == [] then 0
    else Count(service, m, procs[..|procs| - 1]) + (if Shows(service, m, procs[|procs| - 1]) then 1 else 0)
  }

  lemma CountAppend(service: Service, m: Measure, procs: seq<Proc>, proc: Proc)
    ensures Count(service, m, procs + [proc]) == Count(service, m, procs) + (if Shows(service, m, proc) then 1 else 0)
  {
  }

  lemma {:induction false} CountUpdate(service: Service, m: Measure, procs: seq<Proc>, i: nat, proc: Proc)
    requires i < |procs|
    ensures Count(service, m, procs[i := proc]) + (if Shows(service, m, procs[i]) then 1 else 0) ==
            Count(service, m, procs) + (if Shows(service, m, proc) then 1 else 0)
    decreases |procs|
  {
    hide Shows;
    var n := |procs| - 1;
    if i == n {
      assert procs[i := proc][..n] == procs[..n];
    } else {
      assert procs[i := proc][..n] == procs[..n][i := proc];
      CountUpdate(service, m, procs[..n], i, proc);
    }
  }

  function Tally(s: State, m: Measure): nat {
    Count(s.service, m, s.procs)
  }

  ghost predicate ProcOk(service: Service, proc: Proc) {
    && (proc.phase.Observing? ==> service.GitHub? && proc.phase.step < 2 + BUCKETS)
    && (proc.phase.AlsoDenying? ==> service.GenericOidc?)
    && (proc.phase.Signing? || proc.phase == Counting(Issue) || OutcomeOf(proc) == Some(Issue) ==> proc.accepted)
  }

  /** Every counter shows, modulo 2^64, how many exchanges have made their addition to it. */
  ghost predicate Inv(s: State) {
    && (forall i :: 0 <= i < |s.procs| ==> ProcOk(s.service, s.procs[i]))
    && (forall c :: Value(s, c) == Tally(s, Added(c)) % U64_MODULUS)
  }

  lemma AdvanceAddsOnce(service: Service, proc: Proc, elapsed: nat, c: Counter)
    requires ProcOk(service, proc) && !Undecided(proc.phase) && !proc.phase.Done?
    ensures ProcOk(service, Advanced(service, proc, elapsed))
    ensures Counted(service, c, Advanced(service, proc, elapsed)) <==>
            Counted(service, c, proc) || NextAddition(proc) == Some(c)
    ensures NextAddition(proc) == Some(c) ==> !Counted(service, c, proc)
  {
  }

  lemma DropAddsNothing(service: Service, proc: Proc, elapsed: nat, c: Counter)
    requires ProcOk(service, proc) && MayDrop(proc.phase)
    ensures var after := Dropped(service, proc, elapsed);
            ProcOk(service, after) && (Counted(service, c, after) <==> Counted(service, c, proc))
  {
  }

  lemma DecideAddsNothing(service: Service, proc: Proc, to: Phase, c: Counter)
    requires ProcOk(service, proc) && MayDecide(proc.phase, to)
    ensures var after := proc.(phase := to, accepted := proc.accepted || to.Signing?);
            ProcOk(service, after) && (Counted(service, c, after) <==> Counted(service, c, proc))
  {
  }

  lemma AdditionKeepsTally(value: nat, before: nat, after: nat)
    requires value == before % U64_MODULUS && after == before + 1
    ensures (value + 1) % U64_MODULUS == after % U64_MODULUS
  {
  }

  lemma StepKeepsCounter(s: State, step: Step, c: Counter)
    requires Inv(s) && Enabled(s, step)
    ensures Value(Apply(s, step), c) == Tally(Apply(s, step), Added(c)) % U64_MODULUS
  {
    hide Counted, Advanced, Dropped, NextAddition, MayDecide, Count, ProcOk, NextPhase;
    var m := Added(c);
    assert Value(s, c) == Tally(s, m) % U64_MODULUS;
    match step {
      case Arrive =>
        var arrived := Proc(Verifying, false, 0);
        CountAppend(s.service, m, s.procs, arrived);
        ArrivalCounts(s.service, c);
        if c.Requests? { AdditionKeepsTally(Value(s, c), Tally(s, m), Tally(s, m) + 1); }
      case Decide(i, to) =>
        var proc := s.procs[i];
        DecideAddsNothing(s.service, proc, to, c);
        CountUpdate(s.service, m, s.procs, i, proc.(phase := to, accepted := proc.accepted || to.Signing?));
      case Advance(i, elapsed) =>
        AdvanceAddsOnce(s.service, s.procs[i], elapsed, c);
        CountUpdate(s.service, m, s.procs, i, Advanced(s.service, s.procs[i], elapsed));
        if NextAddition(s.procs[i]) == Some(c) { AdditionKeepsTally(Value(s, c), Tally(s, m), Tally(s, m) + 1); }
      case Drop(i, elapsed) =>
        DropAddsNothing(s.service, s.procs[i], elapsed, c);
        CountUpdate(s.service, m, s.procs, i, Dropped(s.service, s.procs[i], elapsed));
    }
  }

  lemma ArrivalCounts(service: Service, c: Counter)
    ensures Counted(service, c, Proc(Verifying, false, 0)) <==> c.Requests?
  {
  }

  lemma StepKeeps(s: State, step: Step)
    requires Inv(s) && Enabled(s, step)
    ensures Inv(Apply(s, step))
  {
    hide Tally, Value, Counted, NextAddition;
    forall c ensures Value(Apply(s, step), c) == Tally(Apply(s, step), Added(c)) % U64_MODULUS {
      StepKeepsCounter(s, step, c);
    }
    match step {
      case Arrive =>
      case Decide(i, to) => DecideAddsNothing(s.service, s.procs[i], to, Requests);
      case Advance(i, elapsed) => AdvanceAddsOnce(s.service, s.procs[i], elapsed, Requests);
      case Drop(i, elapsed) => DropAddsNothing(s.service, s.procs[i], elapsed, Requests);
    }
  }

  lemma {:induction false} RunKeeps(service: Service, trace: seq<Step>)
    requires Legal(Idle(service), trace)
    ensures Inv(Exec(Idle(service), trace)) && Exec(Idle(service), trace).service == service
    decreases |trace|
  {
    if trace != [] {
      RunKeeps(service, trace[..|trace| - 1]);
      StepKeeps(Exec(Idle(service), trace[..|trace| - 1]), trace[|trace| - 1]);
    }
  }

  // ----- conservation -----

  /** Every exchange shows exactly one of the terms of the balance. */
  lemma OneTermEach(service: Service, proc: Proc)
    requires ProcOk(service, proc)
    ensures Shows(service, Added(Requests), proc)
    ensures 1 == (if Shows(service, Added(Issued), proc) then 1 else 0)
               + (if Shows(service, Added(Denied), proc) then 1 else 0)
               + (if service.GitHub? && Shows(service, Added(Replayed), proc) then 1 else 0)
               + (if Shows(service, Added(Errors), proc) then 1 else 0)
               + (if Shows(service, Open, proc) then 1 else 0)
  {
    match OutcomeOf(proc) {
      case None =>
      case Some(Issue) =>
      case Some(Deny) =>
      case Some(Replay) =>
      case Some(Fail) =>
    }
  }

  lemma {:induction false} TalliesAddUp(service: Service, procs: seq<Proc>)
    requires forall i :: 0 <= i < |procs| ==> ProcOk(service, procs[i])
    ensures Count(service, Added(Requests), procs) == |procs|
    ensures |procs| == Count(service, Added(Issued), procs) + Count(service, Added(Denied), procs)
                     + (if service.GitHub? then Count(service, Added(Replayed), procs) else 0)
                     + Count(service, Added(Errors), procs) + Count(service, Open, procs)
    decreases |procs|
  {
    hide Shows, ProcOk;
    if procs != [] {
      TalliesAddUp(service, procs[..|procs| - 1]);
      OneTermEach(service, procs[|procs| - 1]);
    }
  }

  /**
   In every state of every interleaving, each request is accounted for: issued, denied, replayed (GitHub
   only; the generic service counts replays among the denied), failed, or without an outcome: unfinished or
   dropped.
   */
  lemma Conservation(service: Service, trace: seq<Step>)
    requires Legal(Idle(service), trace)
    ensures var s := Exec(Idle(service), trace);
      Value(s, Requests) ==
        (Value(s, Issued) + Value(s, Denied) + (if service.GitHub? then Value(s, Replayed) else 0) + Value(s, Errors)
         + Tally(s, Open)) % U64_MODULUS
  {
    hide Count, Value, Exec, Legal, ProcOk;
    RunKeeps(service, trace);
    var s := Exec(Idle(service), trace);
    TalliesAddUp(service, s.procs);
    var replayed := if service.GitHub? then Tally(s, Added(Replayed)) else 0;
    assert Value(s, Requests) == Tally(s, Added(Requests)) % U64_MODULUS;
    SumOfRemainders(Tally(s, Added(Issued)), Tally(s, Added(Denied)), replayed, Tally(s, Added(Errors)), Tally(s, Open));
  }

  lemma SumOfRemainders(a: nat, b: nat, c: nat, d: nat, e: nat)
    ensures (a % U64_MODULUS + b % U64_MODULUS + c % U64_MODULUS + d % U64_MODULUS + e) % U64_MODULUS
         == (a + b + c + d + e) % U64_MODULUS
  {
  }

  lemma {:induction false} CountMonotone(service: Service, a: Measure, b: Measure, procs: seq<Proc>)
    requires forall i :: 0 <= i < |procs| && Shows(service, a, procs[i]) ==> Shows(service, b, procs[i])
    ensures Count(service, a, procs) <= Count(service, b, procs)
    decreases |procs|
  {
    hide Shows;
    if procs != [] {
      CountMonotone(service, a, b, procs[..|procs| - 1]);
    }
  }

  lemma {:induction false} CountBounded(service: Service, m: Measure, procs: seq<Proc>)
    ensures Count(service, m, procs) <= |procs|
    ensures (forall i :: 0 <= i < |procs| ==> Shows(service, m, procs[i])) ==> Count(service, m, procs) == |procs|
    decreases |procs|
  {
    hide Shows;
    if procs != [] {
      CountBounded(service, m, procs[..|procs| - 1]);
    }
  }

  ghost predicate Quiescent(s: State) {
    forall i :: 0 <= i < |s.procs| ==> s.procs[i].phase.Done?
  }

  /** With fewer than 2^64 requests a counter shows its tally itself. */
  lemma ExactCounters(service: Service, trace: seq<Step>, c: Counter)
    requires Legal(Idle(service), trace) && |Exec(Idle(service), trace).procs| < U64_MODULUS
    ensures var s := Exec(Idle(service), trace);
      && s.service == service
      && Value(s, c) == Tally(s, Added(c))
      && forall i :: 0 <= i < |s.procs| ==> ProcOk(service, s.procs[i])
  {
    hide Count, Value, Exec, Legal, ProcOk;
    RunKeeps(service, trace);
    var s := Exec(Idle(service), trace);
    assert Value(s, c) == Tally(s, Added(c)) % U64_MODULUS;
    CountBounded(service, Added(c), s.procs);
  }

  /** No token is issued without a ledger acceptance; when all is quiet the generic service has denied every replay. */
  lemma IssuedAreAccepted(service: Service, trace: seq<Step>)
    requires Legal(Idle(service), trace) && |Exec(Idle(service), trace).procs| < U64_MODULUS
    ensures var s := Exec(Idle(service), trace);
      && Value(s, Issued) <= Tally(s, AcceptedByLedger)
      && (service.GenericOidc? && Quiescent(s) ==> Value(s, Replayed) <= Value(s, Denied))
  {
    hide Count, Value, Exec, Legal;
    var s := Exec(Idle(service), trace);
    ExactCounters(service, trace, Issued);
    ExactCounters(service, trace, Denied);
    ExactCounters(service, trace, Replayed);
    CountMonotone(service, Added(Issued), AcceptedByLedger, s.procs);
    if service.GenericOidc? && Quiescent(s) {
      CountMonotone(service, Added(Replayed), Added(Denied), s.procs);
    }
  }

  /** In every state a bucket is at most the count; when all is quiet buckets are exact and nondecreasing. */
  lemma BucketsAreCumulative(trace: seq<Step>, b: nat, c: nat)
    requires Legal(Idle(Leases.GitHub), trace) && |Exec(Idle(Leases.GitHub), trace).procs| < U64_MODULUS
    requires b <= c < BUCKETS
    ensures var s := Exec(Idle(Leases.GitHub), trace);
      && Value(s, Bucket(b)) <= Value(s, DurationCount)
      && (Quiescent(s) ==>
            && Value(s, DurationCount) == |s.procs|
            && Value(s, Bucket(b)) == Tally(s, Within(b))
            && Value(s, Bucket(b)) <= Value(s, Bucket(c)))
  {
    hide Count, Value, Exec, Legal, ProcOk;
    var s := Exec(Idle(Leases.GitHub), trace);
    ExactCounters(Leases.GitHub, trace, Bucket(b));
    ExactCounters(Leases.GitHub, trace, Bucket(c));
    ExactCounters(Leases.GitHub, trace, DurationCount);
    CountMonotone(Leases.GitHub, Added(Bucket(b)), Added(DurationCount), s.procs);
    if Quiescent(s) {
      assert BUCKET_BOUNDS[b] <= BUCKET_BOUNDS[c];
      CountMonotone(Leases.GitHub, Added(Bucket(b)), Added(Bucket(c)), s.procs);
      CountMonotone(Leases.GitHub, Added(Bucket(b)), Within(b), s.procs);
      CountMonotone(Leases.GitHub, Within(b), Added(Bucket(b)), s.procs);
      CountBounded(Leases.GitHub, Added(DurationCount), s.procs);
    }
  }

  // ----- what one exchange adds -----

  /** The step is the exchange's addition to the counter. */
  predicate Adds(s: State, step: Step, i: nat, c: Counter) {
    match step
    case Arrive => i == |s.procs| && c.Requests?
    case Advance(j, _) => j == i < |s.procs| && NextAddition(s.procs[i]) == Some(c)
    case _ => false
  }

  /** How often the exchange adds to the counter in a run. */
  ghost function MadeBy(service: Service, trace: seq<Step>, i: nat, c: Counter): nat
    requires Legal(Idle(service), trace)
    decreases |trace|
  {
    if trace == [] then 0
    else
      var before := trace[..|trace| - 1];
      MadeBy(service, before, i, c) + (if Adds(Exec(Idle(service), before), trace[|trace| - 1], i, c) then 1 else 0)
  }

  /** What the step adds to the sum of durations on behalf of the exchange. */
  function MicrosAdded(s: State, step: Step, i: nat): nat {
    if step.Advance? && step.i == i < |s.procs| && s.procs[i].phase.Observing? && s.procs[i].phase.step == 1
    then Micros(s.procs[i].elapsed) else 0
  }

  ghost function MicrosBy(service: Service, trace: seq<Step>, i: nat): nat
    requires Legal(Idle(service), trace)
    decreases |trace|
  {
    if trace == [] then 0
    else
      var before := trace[..|trace| - 1];
      MicrosBy(service, before, i) + MicrosAdded(Exec(Idle(service), before), trace[|trace| - 1], i)
  }

  lemma StepAddsAsCounted(s: State, step: Step, i: nat, c: Counter)
    requires Inv(s) && Enabled(s, step)
    ensures var t := Apply(s, step);
            |s.procs| <= |t.procs| &&
            (i < |t.procs| && Counted(t.service, c, t.procs[i]) <==>
             (i < |s.procs| && Counted(s.service, c, s.procs[i])) || Adds(s, step, i, c)) &&
            !(i < |s.procs| && Counted(s.service, c, s.procs[i]) && Adds(s, step, i, c))
  {
    hide Counted, Advanced, Dropped, NextAddition, MayDecide, ProcOk, NextPhase;
    match step {
      case Arrive => ArrivalCounts(s.service, c);
      case Decide(j, to) => DecideAddsNothing(s.service, s.procs[j], to, c);
      case Advance(j, elapsed) => AdvanceAddsOnce(s.service, s.procs[j], elapsed, c);
      case Drop(j, elapsed) => DropAddsNothing(s.service, s.procs[j], elapsed, c);
    }
  }

  /** In every run an exchange has added to a counter once if its phase says so, and else never. */
  lemma {:induction false} AdditionsMade(service: Service, trace: seq<Step>, i: nat, c: Counter)
    requires Legal(Idle(service), trace)
    ensures var s := Exec(Idle(service), trace);
            MadeBy(service, trace, i, c) == if i < |s.procs| && Counted(service, c, s.procs[i]) then 1 else 0
    decreases |trace|
  {
    hide Counted, Adds, Apply, Enabled, Inv;
    if trace == [] {
    } else {
      var before := trace[..|trace| - 1];
      AdditionsMade(service, before, i, c);
      RunKeeps(service, before);
      RunKeeps(service, trace);
      StepAddsAsCounted(Exec(Idle(service), before), trace[|trace| - 1], i, c);
    }
  }

  /** What an exchange has put into the sum of durations. */
  function Summed(service: Service, proc: Proc): nat {
    if Observed(service, proc) > 1 then Micros(proc.elapsed) else 0
  }

  lemma StepSums(s: State, step: Step, i: nat)
    requires Inv(s) && Enabled(s, step)
    ensures var t := Apply(s, step);
            |s.procs| <= |t.procs| &&
            (if i < |t.procs| then Summed(t.service, t.procs[i]) else 0) ==
            (if i < |s.procs| then Summed(s.service, s.procs[i]) else 0) + MicrosAdded(s, step, i)
  {
    hide Micros, NextAddition;
  }

  lemma {:induction false} MicrosMade(service: Service, trace: seq<Step>, i: nat)
    requires Legal(Idle(service), trace)
    ensures var s := Exec(Idle(service), trace);
            MicrosBy(service, trace, i) == if i < |s.procs| then Summed(service, s.procs[i]) else 0
    decreases |trace|
  {
    hide Summed, MicrosAdded, Apply, Enabled, Inv;
    if trace == [] {
    } else {
      var before := trace[..|trace| - 1];
      MicrosMade(service, before, i);
      RunKeeps(service, before);
      RunKeeps(service, trace);
      StepSums(Exec(Idle(service), before), trace[|trace| - 1], i);
    }
  }

  /** What an exchange adds in all, when it ends with this outcome, or dropped without one, after this time. */
  predicate Owes(service: Service, result: Option<Outcome>, elapsed: nat, c: Counter) {
    match c
    case Requests => true
    case Issued => result == Some(Issue)
    case Denied => result == Some(Deny) || (service.GenericOidc? && result == Some(Replay))
    case Replayed => result == Some(Replay)
    case Errors => result == Some(Fail)
    case DurationCount => service.GitHub?
    case Bucket(b) => service.GitHub? && b < BUCKETS && elapsed <= BUCKET_BOUNDS[b]
  }

  /** An exchange that is done has made exactly the additions it owes, each once. */
  lemma DoneHasPaid(service: Service, trace: seq<Step>, i: nat)
    requires Legal(Idle(service), trace)
    requires var s := Exec(Idle(service), trace); i < |s.procs| && s.procs[i].phase.Done?
    ensures var proc := Exec(Idle(service), trace).procs[i];
            && (forall c :: MadeBy(service, trace, i, c) == if Owes(service, proc.phase.result, proc.elapsed, c) then 1 else 0)
            && MicrosBy(service, trace, i) == if service.GitHub? then Micros(proc.elapsed) else 0
  {
    hide Legal, Exec, MadeBy, MicrosBy;
    var proc := Exec(Idle(service), trace).procs[i];
    forall c ensures MadeBy(service, trace, i, c) == if Owes(service, proc.phase.result, proc.elapsed, c) then 1 else 0 {
      AdditionsMade(service, trace, i, c);
      assert Counted(service, c, proc) <==> Owes(service, proc.phase.result, proc.elapsed, c);
    }
    MicrosMade(service, trace, i);
  }

  // ----- the sum of durations -----

  function SumOf(service: Service, procs: seq<Proc>): nat {
    if procs == [] then 0 else SumOf(service, procs[..|procs| - 1]) + Summed(service, procs[|procs| - 1])
  }

  lemma SumAppend(service: Service, procs: seq<Proc>, proc: Proc)
    ensures SumOf(service, procs + [proc]) == SumOf(service, procs) + Summed(service, proc)
  {
    assert (procs + [proc])[..|procs|] == procs;
  }

  lemma {:induction false} SumUpdate(service: Service, procs: seq<Proc>, i: nat, proc: Proc)
    requires i < |procs|
    ensures SumOf(service, procs[i := proc]) + Summed(service, procs[i]) == SumOf(service, procs) + Summed(service, proc)
    decreases |procs|
  {
    hide Summed;
    var n := |procs| - 1;
    if i == n {
      assert procs[i := proc][..n] == procs[..n];
    } else {
      assert procs[i := proc][..n] == procs[..n][i := proc];
      SumUpdate(service, procs[..n], i, proc);
    }
  }

  lemma StepKeepsSum(s: State, step: Step)
    requires Inv(s) && Enabled(s, step) && s.durationSumMicros == SumOf(s.service, s.procs) % U64_MODULUS
    ensures var t := Apply(s, step); t.durationSumMicros == SumOf(t.service, t.procs) % U64_MODULUS
  {
    hide Micros, NextAddition, SumOf, Summed, FetchAdd;
    match step {
      case Arrive =>
        SumAppend(s.service, s.procs, Proc(Verifying, false, 0));
        StepSums(s, step, |s.procs|);
      case Decide(i, to) =>
        SumUpdate(s.service, s.procs, i, Apply(s, step).procs[i]);
        StepSums(s, step, i);
      case Advance(i, elapsed) =>
        SumUpdate(s.service, s.procs, i, Apply(s, step).procs[i]);
        StepSums(s, step, i);
      case Drop(i, elapsed) =>
        SumUpdate(s.service, s.procs, i, Apply(s, step).procs[i]);
        StepSums(s, step, i);
    }
  }

  /** In every state the sum of durations is that of the exchanges which have added theirs, modulo 2^64. */
  lemma {:induction false} DurationsAreSummed(service: Service, trace: seq<Step>)
    requires Legal(Idle(service), trace)
    ensures var s := Exec(Idle(service), trace); s.durationSumMicros == SumOf(service, s.procs) % U64_MODULUS
    decreases |trace|
  {
    hide Inv, Apply, Enabled;
    if trace == [] {
    } else {
      var before := trace[..|trace| - 1];
      DurationsAreSummed(service, before);
      RunKeeps(service, before);
      RunKeeps(service, trace);
      StepKeepsSum(Exec(Idle(service), before), trace[|trace| - 1]);
    }
  }
}
