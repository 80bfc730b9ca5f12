/**
 The exchange services as programs: verify, authorize, ledger, sign, with a counter bumped on every way out
 and, for the GitHub service, a duration observed when the timer is dropped.  The ledger is the ledger client
 itself.  Other exchanges may act between any two additions and between any two ledger requests.
 */
module Services {
  import opened Wrappers
  import opened Accounting
  import Leases
  import LedgerClient
  import LedgerProtocol
  import LedgerSafety
  import OneTimeUse

  /** `ClientGone` is no answer: the client goes away while the exchange waits, and the exchange is dropped. */
  datatype VerifyAnswer = Verified | Rejected | KeysDown | ClientGone

  datatype LedgerAnswer = NotAsked | Once | AlreadyUsed | LedgerDown | NotAwaited

  /** What the verifier, the policy, the replay identity and the signer answer; `stays`: the client waits for the ledger. */
  datatype Answers = Answers(verify: VerifyAnswer, authorized: bool, identified: bool, stays: bool, signs: bool)

  datatype ExchangeError = Unauthorized | Unavailable

  predicate AsksLedger(service: Service, a: Answers) {
    a.verify.Verified? && a.authorized && (service.GitHub? || a.identified)
  }

  /** The first step that does not succeed decides; a dropped exchange has no outcome. */
  function OutcomeFor(service: Service, a: Answers, ledger: LedgerAnswer): Option<Outcome> {
    match a.verify
    case ClientGone => None
    case Rejected => Some(Deny)
    case KeysDown => Some(Fail)
    case Verified =>
      if !AsksLedger(service, a) then Some(Deny)
      else match ledger
        case Once => Some(if a.signs then Issue else Fail)
        case AlreadyUsed => Some(Replay)
        case LedgerDown => Some(Fail)
        case _ => None
  }

  function Response(result: Option<Outcome>): Option<Result<(), ExchangeError>> {
    match result
    case None => None
    case Some(Issue) => Some(Ok(()))
    case Some(Fail) => Some(Err(Unavailable))
    case Some(_) => Some(Err(Unauthorized))
  }

  /** What the ledger's protocol shows of a call, once it was answered. */
  ghost predicate LedgerShows(world: LedgerProtocol.State, p: LedgerProtocol.Pid, answer: LedgerAnswer) {
    match answer
    case NotAsked => p !in world.procs
    case Once => p in world.wonAs
    case AlreadyUsed => p in world.procs && world.procs[p].pc == LedgerProtocol.Refuse(Leases.Replayed)
    case LedgerDown => p in world.procs ==> world.procs[p].pc == LedgerProtocol.Refuse(Leases.Unavailable)
    case NotAwaited => p in world.procs ==> world.procs[p].pc != LedgerProtocol.Issued
  }

  class ExchangeService {
    const service: Service
    var world: State
    ghost var trace: seq<Step>

    constructor (service: Service)
      ensures Valid() && world == Idle(service) && this.service == service
    {
      this.service, world, trace := service, Idle(service), [];
    }

    ghost predicate Valid()
      reads this
    {
      Legal(Idle(service), trace) && world == Exec(Idle(service), trace) && world.service == service
    }

    ghost predicate At(i: nat, phase: Phase)
      reads this
    {
      i < |world.procs| && world.procs[i].phase == phase
    }

    /** How often the exchange has added to the counter so far, and what it has added to the sum of durations. */
    ghost function Made(i: nat, c: Counter): nat
      requires Valid()
      reads this
    {
      MadeBy(service, trace, i, c)
    }

    ghost function Micros(i: nat): nat
      requires Valid()
      reads this
    {
      MicrosBy(service, trace, i)
    }

    /** The exchange is over and has made exactly the additions it owes, each once. */
    ghost predicate Settled(i: nat, result: Option<Outcome>, elapsed: nat)
      requires Valid()
      reads this
    {
      && At(i, Done(result))
      && (forall c :: Made(i, c) == if Owes(service, result, elapsed, c) then 1 else 0)
      && Micros(i) == if service.GitHub? then Accounting.Micros(elapsed) else 0
    }

    /** The exchange has added this often to the counters of outcomes, and once to the requests. */
    ghost predicate Counts(i: nat, issued: nat, denied: nat, replayed: nat, errors: nat)
      requires Valid()
      reads this
    {
      && Made(i, Requests) == 1
      && Made(i, Issued) == issued && Made(i, Denied) == denied && Made(i, Replayed) == replayed && Made(i, Errors) == errors
    }

    /** The duration was observed once by a GitHub exchange and never by a generic one. */
    ghost predicate Observed(i: nat, elapsed: nat)
      requires Valid()
      reads this
    {
      var once := if service.GitHub? then 1 else 0;
      && Made(i, DurationCount) == once
      && (forall b: nat :: Made(i, Bucket(b)) == if b < BUCKETS && elapsed <= BUCKET_BOUNDS[b] then once else 0)
      && Micros(i) == once * Accounting.Micros(elapsed)
    }

    lemma SettledCounts(i: nat, result: Option<Outcome>, elapsed: nat)
      requires Valid() && Settled(i, result, elapsed)
      ensures Counts(i,
                if result == Some(Issue) then 1 else 0,
                if result == Some(Deny) || (result == Some(Replay) && service.GenericOidc?) then 1 else 0,
                if result == Some(Replay) then 1 else 0,
                if result == Some(Fail) then 1 else 0)
      ensures Observed(i, elapsed)
    {
      hide Legal, Exec, MadeBy, MicrosBy;
    }

    /** Steps of other exchanges. */
    method Interfere(i: nat)
      requires Valid() && i < |world.procs|
      modifies this`world, this`trace
      ensures Valid() && old(trace) <= trace
      ensures i < |world.procs| && world.procs[i] == old(world.procs[i])
    {
    }

    method Take(step: Step)
      requires Valid() && Enabled(world, step)
      modifies this`world, this`trace
      ensures Valid() && trace == old(trace) + [step] && world == Apply(old(world), step)
    {
      Extend(Idle(service), trace, step);
      world := Apply(world, step);
      trace := trace + [step];
    }

    /** The exchange's own next step, after any steps of others. */
    method Decide(i: nat, to: Phase)
      requires Valid() && i < |world.procs| && MayDecide(world.procs[i].phase, to)
      modifies this`world, this`trace
      ensures Valid() && old(trace) <= trace
      ensures At(i, to) && world.procs[i].accepted == (old(world.procs[i].accepted) || to.Signing?)
    {
      hide Legal, Exec;
      Interfere(i);
      Take(Step.Decide(i, to));
    }

    /** One atomic addition, or the passing of a bucket that is too small. */
    method FetchAdd(i: nat, elapsed: nat)
      requires Valid() && i < |world.procs| && !Undecided(world.procs[i].phase) && !world.procs[i].phase.Done?
      modifies this`world, this`trace
      ensures Valid() && old(trace) <= trace
      ensures i < |world.procs| && world.procs[i] == Advanced(service, old(world.procs[i]), elapsed)
    {
      hide Legal, Exec;
      Interfere(i);
      Take(Advance(i, elapsed));
    }

    /** Before its observation an exchange has added neither to the count nor to a bucket nor to the sum. */
    lemma NothingObserved(i: nat, result: Option<Outcome>)
      requires Valid() && At(i, Observing(result, 0))
      ensures Micros(i) == 0 && Made(i, DurationCount) == 0 && forall b: nat :: Made(i, Bucket(b)) == 0
      ensures forall c: Counter :: !c.DurationCount? && !c.Bucket? ==> Made(i, c) == if Owes(service, result, 0, c) then 1 else 0
    {
      hide Legal, Exec, MadeBy, MicrosBy;
      MicrosMade(service, trace, i);
      AdditionsMade(service, trace, i, DurationCount);
      forall b: nat ensures Made(i, Bucket(b)) == 0 {
        AdditionsMade(service, trace, i, Bucket(b));
      }
      forall c: Counter | !c.DurationCount? && !c.Bucket? ensures Made(i, c) == if Owes(service, result, 0, c) then 1 else 0 {
        AdditionsMade(service, trace, i, c);
      }
    }

    lemma DoneIsSettled(i: nat, result: Option<Outcome>)
      requires Valid() && At(i, Done(result))
      ensures Settled(i, result, world.procs[i].elapsed)
    {
      hide Legal, Exec, MadeBy, MicrosBy;
      DoneHasPaid(service, trace, i);
    }

    /** `observe_duration`: count, sum, then every bucket whose bound the duration does not exceed. */
    method ObserveDuration(i: nat, result: Option<Outcome>)
      requires Valid() && service.GitHub? && At(i, Observing(result, 0))
      modifies this`world, this`trace
      ensures Valid() && old(trace) <= trace
      ensures At(i, Done(result)) && world.procs[i].elapsed == old(world.procs[i].elapsed)
      ensures Made(i, DurationCount) == old(Made(i, DurationCount)) + 1
      ensures Micros(i) == old(Micros(i)) + Accounting.Micros(old(world.procs[i].elapsed))
      ensures forall b: nat :: Made(i, Bucket(b)) == old(Made(i, Bucket(b))) +
                (if b < BUCKETS && old(world.procs[i].elapsed) <= BUCKET_BOUNDS[b] then 1 else 0)
      ensures forall c: Counter :: !c.DurationCount? && !c.Bucket? ==> Made(i, c) == old(Made(i, c))
    {
      hide Legal, Exec, Accounting.Micros, MadeBy, MicrosBy;
      NothingObserved(i, result);
      FetchAdd(i, 0);
      FetchAdd(i, 0);
      for b := 0 to BUCKETS
        invariant Valid() && old(trace) <= trace
        invariant At(i, if b < BUCKETS then Observing(result, 2 + b) else Done(result))
        invariant world.procs[i].elapsed == old(world.procs[i].elapsed)
      {
        FetchAdd(i, 0);
      }
      DoneIsSettled(i, result);
    }

    /** Drops the timer of an exchange that has counted its outcome, or never will. */
    method DropTimer(i: nat, result: Option<Outcome>, elapsed: nat)
      requires Valid() && At(i, Ended(service, result)) && world.procs[i].elapsed == elapsed
      modifies this`world, this`trace
      ensures Valid() && old(trace) <= trace
      ensures Settled(i, result, elapsed)
    {
      hide Legal, Exec, MadeBy, MicrosBy;
      if service.GitHub? {
        ObserveDuration(i, result);
      }
      DoneIsSettled(i, result);
    }

    /** Counts the outcome and, on return, drops the timer. */
    method Finish(i: nat, outcome: Outcome, elapsed: nat) returns (r: Option<Result<(), ExchangeError>>)
      requires Valid() && At(i, Counting(outcome))
      modifies this`world, this`trace
      ensures Valid() && old(trace) <= trace
      ensures Settled(i, Some(outcome), elapsed)
      ensures r == Response(Some(outcome))
    {
      hide Legal, Exec, Settled;
      FetchAdd(i, elapsed);
      if service.GenericOidc? && outcome.Replay? {
        FetchAdd(i, elapsed);
      }
      DropTimer(i, Some(outcome), elapsed);
      return Response(Some(outcome));
    }

    method Begin() returns (i: nat)
      requires Valid()
      modifies this`world, this`trace
      ensures Valid() && old(trace) <= trace && At(i, Verifying)
    {
      hide Legal, Exec;
      i := |world.procs|;
      Take(Arrive);
    }

    /** A way out of the exchange. */
    method Conclude(i: nat, outcome: Outcome, elapsed: nat) returns (r: Option<Result<(), ExchangeError>>)
      requires Valid() && i < |world.procs| && MayDecide(world.procs[i].phase, Counting(outcome))
      modifies this`world, this`trace
      ensures Valid() && old(trace) <= trace
      ensures Settled(i, Some(outcome), elapsed)
      ensures r == Response(Some(outcome))
    {
      hide Legal, Exec, Settled;
      Decide(i, Counting(outcome));
      r := Finish(i, outcome, elapsed);
    }

    /** The exchange is dropped where it waits: only its request and its duration were counted. */
    method Drop(i: nat, elapsed: nat)
      requires Valid() && i < |world.procs| && MayDrop(world.procs[i].phase)
      modifies this`world, this`trace
      ensures Valid() && old(trace) <= trace
      ensures Settled(i, None, elapsed)
    {
      hide Legal, Exec, Settled;
      Interfere(i);
      Take(Step.Drop(i, elapsed));
      DropTimer(i, None, elapsed);
    }

    /**
     One exchange, as call `p` of the ledger.  It ends with the outcome its answers call for, has made exactly
     the additions that outcome owes, and hands out a token exactly when the ledger's protocol records one as
     issued for this assertion, whatever other exchanges, replicas and clients do.  What each cause gives: a bad
     assertion, a missing rule and a missing identity are unauthorized and denied; missing keys, a ledger that is
     down and a failing signer are unavailable and errors; a replay is unauthorized and replayed (and, by the generic
     service, denied as well); a client that goes away gets nothing.
     */
    method Exchange(a: Answers, ledger: LedgerClient.KubernetesLeaseReplayLedger, p: LedgerProtocol.Pid,
                    assertion: LedgerProtocol.Assertion, verified: LedgerProtocol.Stamp, reading: Leases.Instant, elapsed: nat)
      returns (r: Option<Result<(), ExchangeError>>, i: nat, answer: LedgerAnswer)
      requires Valid() && ledger.Valid() && p !in ledger.world.procs
      requires a.verify.Verified? ==>
        && verified.actual <= ledger.world.store.time
        && Leases.TimesAccepted(assertion.source, assertion.times, Leases.WholeSeconds(verified.reading))
      modifies this`world, this`trace, ledger`world, ledger`trace, ledger`cleanupContinue
      ensures Valid() && old(trace) <= trace && ledger.Valid() && old(ledger.trace) <= ledger.trace
      ensures LedgerSafety.Reachable(ledger.world)
      ensures AsksLedger(service, a) <==> !answer.NotAsked?
      ensures answer.NotAwaited? ==> !a.stays
      ensures LedgerShows(ledger.world, p, answer)
      ensures Settled(i, OutcomeFor(service, a, answer), elapsed)
      ensures r == Response(OutcomeFor(service, a, answer))
      ensures r == Some(Ok(())) <==> OneTimeUse.IssuedFor(ledger.world, p, assertion)
      ensures Observed(i, elapsed)
      ensures a.verify.ClientGone? ==> r == None && Counts(i, 0, 0, 0, 0)
      ensures a.verify.Rejected? ==> r == Some(Err(Unauthorized)) && Counts(i, 0, 1, 0, 0)
      ensures a.verify.KeysDown? ==> r == Some(Err(Unavailable)) && Counts(i, 0, 0, 0, 1)
      ensures a.verify.Verified? && (!a.authorized || (service.GenericOidc? && !a.identified)) ==>
        r == Some(Err(Unauthorized)) && Counts(i, 0, 1, 0, 0) && p !in ledger.world.procs
      ensures a.verify.Verified? && a.authorized && (service.GenericOidc? ==> a.identified) && a.stays ==>
        (p in ledger.world.procs <==> Leases.LeaseFor(assertion.times.exp, reading).Ok?) &&
        if p !in ledger.world.procs then r == Some(Err(Unavailable)) && Counts(i, 0, 0, 0, 1)
        else match ledger.world.procs[p].pc
          case Finished(Refused(Replayed)) =>
            r == Some(Err(Unauthorized)) && Counts(i, 0, if service.GenericOidc? then 1 else 0, 1, 0)
          case Finished(Refused(Unavailable)) => r == Some(Err(Unavailable)) && Counts(i, 0, 0, 0, 1)
          case Issued => a.signs && r == Some(Ok(())) && Counts(i, 1, 0, 0, 0)
          case Unsigned => !a.signs && r == Some(Err(Unavailable)) && Counts(i, 0, 0, 0, 1)
          case _ => false
      ensures a.verify.Verified? && a.authorized && (service.GenericOidc? ==> a.identified) && !a.stays ==> r == None && Counts(i, 0, 0, 0, 0)
    {
      hide Legal, Exec, Apply, Enabled, Advanced, Settled, LedgerSafety.Reachable, LedgerSafety.Inv, Leases.TimesAccepted, Leases.LeaseFor;
      hide LedgerProtocol.Legal, LedgerProtocol.Exec, LedgerProtocol.Initial, Counts, Observed;
      ledger.IsReachable();
      answer := NotAsked;
      i := Begin();
      if a.verify.ClientGone? {
        Drop(i, elapsed);
        SettledCounts(i, None, elapsed);
        r := None;
        return;
      }
      if a.verify.Rejected? {
        r := Conclude(i, Deny, elapsed);
        SettledCounts(i, Some(Deny), elapsed);
        return;
      }
      if a.verify.KeysDown? {
        r := Conclude(i, Fail, elapsed);
        SettledCounts(i, Some(Fail), elapsed);
        return;
      }
      Decide(i, Authorizing);
      if !a.authorized || (service.GenericOidc? && !a.identified) {
        r := Conclude(i, Deny, elapsed);
        SettledCounts(i, Some(Deny), elapsed);
        return;
      }
      Decide(i, AtLedger);
      r, answer := Redeem(i, a, ledger, p, assertion, verified, reading, elapsed);
    }

    /** The second half of an exchange, from the ledger on. */
    method Redeem(i: nat, a: Answers, ledger: LedgerClient.KubernetesLeaseReplayLedger, p: LedgerProtocol.Pid,
                  assertion: LedgerProtocol.Assertion, verified: LedgerProtocol.Stamp, reading: Leases.Instant, elapsed: nat)
      returns (r: Option<Result<(), ExchangeError>>, answer: LedgerAnswer)
      requires Valid() && ledger.Valid() && p !in ledger.world.procs
      requires At(i, AtLedger) && AsksLedger(service, a)
      requires verified.actual <= ledger.world.store.time
      requires Leases.TimesAccepted(assertion.source, assertion.times, Leases.WholeSeconds(verified.reading))
      modifies this`world, this`trace, ledger`world, ledger`trace, ledger`cleanupContinue
      ensures Valid() && old(trace) <= trace && ledger.Valid() && old(ledger.trace) <= ledger.trace
      ensures LedgerSafety.Reachable(ledger.world)
      ensures !answer.NotAsked? && (answer.NotAwaited? <==> !a.stays)
      ensures LedgerShows(ledger.world, p, answer)
      ensures Settled(i, OutcomeFor(service, a, answer), elapsed)
      ensures r == Response(OutcomeFor(service, a, answer))
      ensures r == Some(Ok(())) <==> OneTimeUse.IssuedFor(ledger.world, p, assertion)
      ensures Observed(i, elapsed)
      ensures a.stays ==>
        (p in ledger.world.procs <==> Leases.LeaseFor(assertion.times.exp, reading).Ok?) &&
        if p !in ledger.world.procs then r == Some(Err(Unavailable)) && Counts(i, 0, 0, 0, 1)
        else match ledger.world.procs[p].pc
          case Finished(Refused(Replayed)) =>
            r == Some(Err(Unauthorized)) && Counts(i, 0, if service.GenericOidc? then 1 else 0, 1, 0)
          case Finished(Refused(Unavailable)) => r == Some(Err(Unavailable)) && Counts(i, 0, 0, 0, 1)
          case Issued => a.signs && r == Some(Ok(())) && Counts(i, 1, 0, 0, 0)
          case Unsigned => !a.signs && r == Some(Err(Unavailable)) && Counts(i, 0, 0, 0, 1)
          case _ => false
      ensures !a.stays ==> r == None && Counts(i, 0, 0, 0, 0)
    {
      hide Legal, Exec, Apply, Enabled, Advanced, Settled, LedgerSafety.Reachable, LedgerSafety.Inv, Leases.TimesAccepted, Leases.LeaseFor;
      hide LedgerProtocol.Legal, LedgerProtocol.Exec, LedgerProtocol.Initial, Counts, Observed;
      answer := AskLedger(a.stays, ledger, p, assertion, verified, reading);
      if answer.NotAwaited? {
        Drop(i, elapsed);
        SettledCounts(i, None, elapsed);
        r := None;
        return;
      }
      if answer.AlreadyUsed? {
        r := Conclude(i, Replay, elapsed);
        SettledCounts(i, Some(Replay), elapsed);
        return;
      }
      if answer.LedgerDown? {
        r := Conclude(i, Fail, elapsed);
        SettledCounts(i, Some(Fail), elapsed);
        return;
      }
      r := SignToken(i, a.signs, ledger, p, assertion, elapsed);
    }

    /** The last step: a token for an accepted call, or a failure. */
    method SignToken(i: nat, signs: bool, ledger: LedgerClient.KubernetesLeaseReplayLedger, p: LedgerProtocol.Pid,
                     assertion: LedgerProtocol.Assertion, elapsed: nat)
      returns (r: Option<Result<(), ExchangeError>>)
      requires Valid() && ledger.Valid() && At(i, AtLedger)
      requires p in ledger.world.procs && ledger.world.procs[p].call.assertion == assertion
      requires ledger.world.procs[p].pc == LedgerProtocol.Finished(LedgerProtocol.Accepted)
      modifies this`world, this`trace, ledger`world, ledger`trace, ledger`cleanupContinue
      ensures Valid() && old(trace) <= trace && ledger.Valid() && old(ledger.trace) <= ledger.trace
      ensures LedgerSafety.Reachable(ledger.world) && LedgerShows(ledger.world, p, Once)
      ensures Settled(i, Some(if signs then Issue else Fail), elapsed)
      ensures r == Response(Some(if signs then Issue else Fail))
      ensures signs <==> OneTimeUse.IssuedFor(ledger.world, p, assertion)
      ensures p in ledger.world.procs &&
              ledger.world.procs[p].pc == if signs then LedgerProtocol.Pc.Issued else LedgerProtocol.Unsigned
      ensures Observed(i, elapsed)
      ensures if signs then r == Some(Ok(())) && Counts(i, 1, 0, 0, 0) else r == Some(Err(Unavailable)) && Counts(i, 0, 0, 0, 1)
    {
      hide Legal, Exec, Apply, Enabled, Advanced, Settled, LedgerSafety.Reachable, LedgerSafety.Inv, Leases.TimesAccepted, Leases.LeaseFor;
      hide LedgerProtocol.Legal, LedgerProtocol.Exec, LedgerProtocol.Initial, Counts, Observed;
      Decide(i, Signing);
      ledger.Sign(p, signs);
      r := Conclude(i, if signs then Issue else Fail, elapsed);
      SettledCounts(i, Some(if signs then Issue else Fail), elapsed);
    }

    /** Calls `use_once`, unless the client goes away before it returns. */
    method AskLedger(stays: bool, ledger: LedgerClient.KubernetesLeaseReplayLedger, p: LedgerProtocol.Pid,
                     assertion: LedgerProtocol.Assertion, verified: LedgerProtocol.Stamp, reading: Leases.Instant)
      returns (answer: LedgerAnswer)
      requires ledger.Valid() && p !in ledger.world.procs
      requires verified.actual <= ledger.world.store.time
      requires Leases.TimesAccepted(assertion.source, assertion.times, Leases.WholeSeconds(verified.reading))
      modifies ledger`world, ledger`trace, ledger`cleanupContinue
      ensures ledger.Valid() && old(ledger.trace) <= ledger.trace && LedgerSafety.Reachable(ledger.world)
      ensures !answer.NotAsked? && (answer.NotAwaited? <==> !stays)
      ensures LedgerShows(ledger.world, p, answer)
      ensures stays ==> (p in ledger.world.procs <==> Leases.LeaseFor(assertion.times.exp, reading).Ok?)
      ensures p in ledger.world.procs && answer.Once? ==>
        ledger.world.procs[p].pc == LedgerProtocol.Finished(LedgerProtocol.Accepted)
      ensures answer.Once? ==> p in ledger.world.procs && ledger.world.procs[p].call.assertion == assertion
      ensures !answer.Once? && p in ledger.world.procs ==> ledger.world.procs[p].pc != LedgerProtocol.Issued
    {
      hide Leases.TimesAccepted, Leases.LeaseFor, LedgerSafety.Reachable, LedgerSafety.Inv;
      hide LedgerProtocol.Legal, LedgerProtocol.Exec, LedgerProtocol.Initial;
      if !stays {
        ledger.Abandoned(p);
        ledger.IsReachable();
        return NotAwaited;
      }
      var used := ledger.UseOnce(p, assertion, verified, reading);
      return match used case Ok(_) => Once case Err(Replayed) => AlreadyUsed case Err(Unavailable) => LedgerDown;
    }
  }
}
