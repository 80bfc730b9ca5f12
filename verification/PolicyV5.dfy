/**
 Policy version 5, and the entry points that choose a version.  Version 5 refuses only exact duplicates of a
 rule, so two rules may still match one request; the authorizer then denies it.
 */
module PolicyV5 {
  import opened Wrappers
  import opened Text
  import opened GitHubClaims
  import Leases
  import Provenance
  import opened Policy
  import Sorting

  predicate RequiredOk(selector: Selector) {
    selector.Some? && ValuesOk(selector.value)
  }

  predicate RuleOkV5(rule: Rule) {
    && RepositoryIdsOk(rule, false)
    && rule.jobWorkflowRefs.None? && rule.jobWorkflowShas.None?
    && RequiredOk(rule.subjects) && RequiredOk(rule.events) && RequiredOk(rule.refs)
    && AllOk(rule.subjects, SubjectOk)
  }

  ghost predicate NoDuplicate(rules: seq<Rule>) {
    forall i, j :: 0 <= i < j < |rules| ==> rules[i] != rules[j]
  }

  ghost predicate ValidV5(p: Policy) {
    && p.actingGroupPrefix == Some(ACTING_PREFIX)
    && p.allowedEmailDomains.Some? && DomainsOk(p.allowedEmailDomains.value)
    && p.actors.Some? && p.actors.value != map[] && ActorsOk(p.actors.value, p.allowedEmailDomains.value, false)
    && (forall r :: r in p.repositories ==> RuleOkV5(r))
    && NoDuplicate(p.repositories)
  }

  type RuleKey = (string, string, seq<string>, seq<string>, seq<string>)

  function KeyOf(rule: Rule): RuleKey
    requires rule.subjects.Some? && rule.events.Some? && rule.refs.Some?
  {
    (rule.ownerId, rule.repositoryId, rule.subjects.value, rule.events.value, rule.refs.value)
  }

  /** The repository loop of `validate_v5`. */
  method ValidateRepositoriesV5(rules: seq<Rule>) returns (r: Result<(), PolicyError>)
    ensures r == if (forall rule :: rule in rules ==> RuleOkV5(rule)) && NoDuplicate(rules) then Ok(()) else Err(Invalid)
  {
    hide SubjectOk, ValuesOk, RepositoryIdsOk;
    var repositoryRules: set<RuleKey> := {};
    for i := 0 to |rules|
      invariant forall k :: 0 <= k < i ==> RuleOkV5(rules[k])
      invariant NoDuplicate(rules[..i])
      invariant forall key :: key in repositoryRules ==> exists k :: 0 <= k < i && KeyOf(rules[k]) == key
      invariant forall k :: 0 <= k < i ==> KeyOf(rules[k]) in repositoryRules
    {
      var rule := rules[i];
      assert rule in rules;
      if !RepositoryIdsOk(rule, false) || rule.jobWorkflowRefs.Some? || rule.jobWorkflowShas.Some? {
        return Err(Invalid);
      }
      var subjects := RequireRequired(rule.subjects);
      if !subjects { return Err(Invalid); }
      var events := RequireRequired(rule.events);
      if !events { return Err(Invalid); }
      var refs := RequireRequired(rule.refs);
      if !refs { return Err(Invalid); }
      var key := (rule.ownerId, rule.repositoryId, rule.subjects.value, rule.events.value, rule.refs.value);
      if key in repositoryRules {
        var k :| 0 <= k < i && KeyOf(rules[k]) == key;
        assert rules[k] == rules[i];
        return Err(Invalid);
      }
      repositoryRules := repositoryRules + {key};
      if !AllOk(rule.subjects, SubjectOk) {
        return Err(Invalid);
      }
    }
    assert rules[..|rules|] == rules;
    return Ok(());
  }

  method RequireRequired(selector: Selector) returns (ok: bool)
    ensures ok <==> RequiredOk(selector)
  {
    if selector.None? {
      return false;
    }
    ok := RequireValues(selector.value);
  }

  method ValidateV5(p: Policy) returns (r: Result<(), PolicyError>)
    ensures r == if ValidV5(p) then Ok(()) else Err(Invalid)
  {
    hide RuleOkV5, NoDuplicate, DomainOk, ActorsOk;
    if p.actingGroupPrefix != Some(ACTING_PREFIX) || p.allowedEmailDomains.None? {
      return Err(Invalid);
    }
    var domains := ValidateDomains(p.allowedEmailDomains.value);
    if !domains || p.actors.None? || p.actors.value == map[] {
      return Err(Invalid);
    }
    var actors := ValidateActors(p.actors.value, p.allowedEmailDomains.value, false);
    if actors.Err? {
      return actors;
    }
    r := ValidateRepositoriesV5(p.repositories);
  }

  // ----- authorization under version 5 -----

  predicate RequiredMatch(selector: Selector, wanted: string) {
    selector.Some? && wanted in selector.value
  }

  predicate RuleMatchesV5(rule: Rule, c: Claims) {
    && rule.ownerId == c.ownerId && rule.repositoryId == c.repositoryId
    && RequiredMatch(rule.subjects, c.sub)
    && RequiredMatch(rule.events, c.eventName)
    && RequiredMatch(rule.refs, c.gitRef)
  }

  function MatchingV5(p: Policy, c: Claims): seq<Rule> {
    Filter(p.repositories, rule => RuleMatchesV5(rule, c))
  }

  function AuthorizeV5(p: Policy, c: Claims): Result<Identity, PolicyError> {
    if p.actors.None? || c.actorId !in p.actors.value || !p.actors.value[c.actorId].verified then Err(Unauthorized)
    else
      var actor := p.actors.value[c.actorId];
      var matching := MatchingV5(p, c);
      if |matching| != 1 || p.actingGroupPrefix.None? then Err(Unauthorized)
      else Ok(Identity(c.actorId, None, Some(actor.email), Some(actor.verified), "github-actions:actor:" + c.actorId,
                       Some(Groups(p.serviceGroup, p.actingGroupPrefix.value, actor)), IDENTITY_CONTRACT,
                       matching[0].ownerId + "/" + matching[0].repositoryId, c.workflowRef, c.jobWorkflowRef))
  }

  /** Both rules are for one repository and match a request with these claims, which some verified assertion makes. */
  ghost predicate ShareRequest(a: Rule, b: Rule, sub: string, event: string, ref: string) {
    && a.ownerId == b.ownerId && a.repositoryId == b.repositoryId
    && RequiredMatch(a.subjects, sub) && RequiredMatch(b.subjects, sub)
    && RequiredMatch(a.events, event) && RequiredMatch(b.events, event)
    && RequiredMatch(a.refs, ref) && RequiredMatch(b.refs, ref)
    && Provenance.Requestable(a.ownerId, a.repositoryId, sub, event, ref)
  }

  /** Two rules list, for one repository, a subject, an event and a ref in common that can be requested together. */
  ghost predicate HasOverlap(rules: seq<Rule>) {
    exists i, j, sub, event, ref :: 0 <= i < j < |rules| && ShareRequest(rules[i], rules[j], sub, event, ref)
  }

  /** Whatever the policy, a request that two of its rules match is denied. */
  lemma AmbiguousIsDenied(p: Policy, c: Claims, i: nat, j: nat)
    requires i < j < |p.repositories|
    requires forall k :: k in [i, j] ==>
      var r := p.repositories[k];
      && r.ownerId == c.ownerId && r.repositoryId == c.repositoryId
      && r.subjects.Some? && c.sub in r.subjects.value
      && r.events.Some? && c.eventName in r.events.value
      && r.refs.Some? && c.gitRef in r.refs.value
    ensures AuthorizeV5(p, c) == Err(Unauthorized)
  {
    hide Groups;
    assert i in [i, j] && j in [i, j];
    FilterOfPair(p.repositories, rule => RuleMatchesV5(rule, c), i, j);
  }

  /** Without an overlap no verified request matches two rules. */
  lemma VerifiedMatchesOnce(p: Policy, c: Claims, audience: string, reading: Leases.Instant)
    requires Provenance.Verified(c, audience, reading) && !HasOverlap(p.repositories)
    ensures |MatchingV5(p, c)| <= 1
  {
    hide Provenance.Verified, Provenance.Requestable;
    var rules := p.repositories;
    Provenance.VerifiedIsRequestable(c, audience, reading);
    var keep := rule => RuleMatchesV5(rule, c);
    forall i, j | 0 <= i < j < |rules| ensures !(keep(rules[i]) && keep(rules[j])) {
      assert !ShareRequest(rules[i], rules[j], c.sub, c.eventName, c.gitRef);
    }
    FilterOfSingles(rules, keep);
  }

  /** Some verified assertion is ambiguous under a policy exactly when two of its rules overlap. */
  lemma AmbiguousExactly(p: Policy, audience: string, reading: Leases.Instant)
    requires Leases.PlausibleClock(reading)
    ensures (exists c :: Provenance.Verified(c, audience, reading) && |MatchingV5(p, c)| >= 2) <==> HasOverlap(p.repositories)
  {
    hide Provenance.Verified, Provenance.Requestable;
    var rules := p.repositories;
    if HasOverlap(rules) {
      var i, j, sub, event, ref :| 0 <= i < j < |rules| && ShareRequest(rules[i], rules[j], sub, event, ref);
      var c := Provenance.RequestableIsVerified(rules[i].ownerId, rules[i].repositoryId, sub, event, ref, audience, reading);
      FilterOfPair(rules, rule => RuleMatchesV5(rule, c), i, j);
      assert |MatchingV5(p, c)| >= 2;
    } else {
      forall c | Provenance.Verified(c, audience, reading) ensures |MatchingV5(p, c)| <= 1 {
        VerifiedMatchesOnce(p, c, audience, reading);
      }
    }
  }

  /**
   Without overlapping rules a verified request is admitted exactly when its actor is mapped and some rule lists its
   subject, event and ref for its repository.
   */
  lemma AdmittedExactly(p: Policy, c: Claims, audience: string, reading: Leases.Instant)
    requires ValidV5(p) && !HasOverlap(p.repositories)
    requires Provenance.Verified(c, audience, reading)
    ensures AuthorizeV5(p, c).Ok? <==>
      && c.actorId in p.actors.value
      && exists r :: r in p.repositories
           && r.ownerId == c.ownerId && r.repositoryId == c.repositoryId
           && r.subjects.Some? && c.sub in r.subjects.value
           && r.events.Some? && c.eventName in r.events.value
           && r.refs.Some? && c.gitRef in r.refs.value
    ensures AuthorizeV5(p, c).Err? ==> AuthorizeV5(p, c).error == Unauthorized
  {
    hide RuleOkV5, DomainsOk, Groups, HasOverlap, Provenance.Verified;
    VerifiedMatchesOnce(p, c, audience, reading);
    var keep := rule => RuleMatchesV5(rule, c);
    FilterMeaning(p.repositories, keep);
    if r :| r in p.repositories && RuleMatchesV5(r, c) {
      assert r in MatchingV5(p, c);
    } else {
      FilterOfNone(p.repositories, keep);
    }
  }

  /** What an admitted request is known as under version 5. */
  lemma AdmittedIdentityV5(p: Policy, c: Claims)
    requires ValidV5(p) && AuthorizeV5(p, c).Ok?
    ensures c.actorId in p.actors.value
    ensures var id, actor := AuthorizeV5(p, c).value, p.actors.value[c.actorId];
      && id.actorId == c.actorId && id.actorLogin.None?
      && id.subject == "github-actions:actor:" + c.actorId
      && id.repository == c.ownerId + "/" + c.repositoryId
      && id.workflowRef == c.workflowRef && id.jobWorkflowRef == c.jobWorkflowRef
      && id.identityContract == "steward-task-v2"
      && id.email == Some(actor.email) && id.emailVerified == Some(true) && actor.verified
      && id.groups.Some? && Sorting.Sorted(Itself, id.groups.value)
      && multiset(id.groups.value) == multiset{
           p.serviceGroup,
           "agents.apelogic.ai/acting-user:" + actor.email,
           "agents.apelogic.ai/canonical-user:" + actor.canonicalUserId}
  {
    hide RuleOkV5, NoDuplicate, DomainsOk, ActorOk, Groups;
    var matching := MatchingV5(p, c);
    FilterMeaning(p.repositories, rule => RuleMatchesV5(rule, c));
    assert matching[0] in matching;
    GroupsMeaning(p.serviceGroup, ACTING_PREFIX, p.actors.value[c.actorId]);
    PrefixTexts();
  }

  const EXAMPLE_SUBJECT := "repo:o/r:ref:refs/heads/main"

  function FirstRule(): Rule {
    Rule("1", "2", Some([EXAMPLE_SUBJECT]), Some(["push"]), Some(["refs/heads/main"]), None, None)
  }

  function SecondRule(): Rule {
    Rule("1", "2", Some([EXAMPLE_SUBJECT, "repo:o/r:pull_request"]), Some(["push"]), Some(["refs/heads/main"]), None, None)
  }

  function ExampleActor(): Actor {
    Actor("u@a.b", "usr_" + seq(32, _ => '0'), true)
  }

  function ExamplePolicy(rules: seq<Rule>): Policy {
    Policy(POLICY_VERSION, SERVICE_PREFIX + "ci", Some(ACTING_PREFIX), Some(["a.b"]), rules, Some(map["7" := ExampleActor()]))
  }

  /**
   A validated version 5 policy can be ambiguous: this one is accepted, and at any time some assertion verifies
   that each of its rules alone admits and that together they deny.
   */
  lemma ValidatedV5MayDenyWhatEachRuleAdmits(audience: string, reading: Leases.Instant) returns (c: Claims)
    requires Leases.PlausibleClock(reading)
    ensures Provenance.Verified(c, audience, reading)
    ensures ValidV5(ExamplePolicy([FirstRule(), SecondRule()]))
    ensures ValidV5(ExamplePolicy([FirstRule()])) && ValidV5(ExamplePolicy([SecondRule()]))
    ensures AuthorizeV5(ExamplePolicy([FirstRule()]), c).Ok?
    ensures AuthorizeV5(ExamplePolicy([SecondRule()]), c).Ok?
    ensures AuthorizeV5(ExamplePolicy([FirstRule(), SecondRule()]), c) == Err(Unauthorized)
  {
    hide RuleOkV5, ActorsOk, DomainsOk, Provenance.Verified, Provenance.Requestable;
    Provenance.MainBranchIsRequestable();
    c := Provenance.RequestableIsVerified("1", "2", EXAMPLE_SUBJECT, "push", "refs/heads/main", audience, reading);
    ExampleRulesOk();
    ExampleActorOk();
    assert |FirstRule().subjects.value| != |SecondRule().subjects.value|;
    assert "7" in ExamplePolicy([]).actors.value;
    var keep := rule => RuleMatchesV5(rule, c);
    assert keep(FirstRule()) && keep(SecondRule());
    FilterOfPair([FirstRule(), SecondRule()], keep, 0, 1);
    assert [FirstRule()][1..] == [] && [SecondRule()][1..] == [];
  }

  lemma ExampleRulesOk()
    ensures RuleOkV5(FirstRule()) && RuleOkV5(SecondRule())
  {
    hide SubjectOk;
    BranchSubjectOk();
    PullRequestSubjectOk();
    ExampleValuesOk();
  }

  lemma ExampleValuesOk()
    ensures ValuesOk([EXAMPLE_SUBJECT]) && ValuesOk(["push"]) && ValuesOk(["refs/heads/main"])
    ensures ValuesOk([EXAMPLE_SUBJECT, "repo:o/r:pull_request"])
  {
    assert |EXAMPLE_SUBJECT| != |"repo:o/r:pull_request"|;
  }

  lemma BranchSubjectOk()
    ensures SubjectOk(EXAMPLE_SUBJECT)
  {
    assert EXAMPLE_SUBJECT[..5] == "repo:";
  }

  lemma PullRequestSubjectOk()
    ensures SubjectOk("repo:o/r:pull_request")
  {
    assert "repo:o/r:pull_request"[..5] == "repo:";
  }

  lemma ExampleActorOk()
    ensures ActorsOk(map["7" := ExampleActor()], ["a.b"], false) && DomainsOk(["a.b"])
  {
    hide CanonicalEmail, CanonicalUserId, DomainOk, HasSuffix;
    ExampleEmailOk();
    ExampleUserOk();
    ExampleDomainOk();
    assert "a.b" in ["a.b"];
    assert ActorOk("7", ExampleActor(), ["a.b"], false);
  }

  lemma ExampleDomainOk()
    ensures DomainOk("a.b")
  {
    var domain := "a.b";
    assert domain[0] == 'a' && domain[1] == '.' && domain[2] == 'b';
    assert domain[2..] == "b" && domain[..1] == "a";
  }

  lemma ExampleEmailOk()
    ensures CanonicalEmail("u@a.b") && HasSuffix("u@a.b", "@" + "a.b")
  {
    var email := "u@a.b";
    assert email[0] == 'u' && email[1] == '@' && email[2] == 'a' && email[3] == '.' && email[4] == 'b';
    assert IndexOf(email, '@') == 1;
    assert email[1..] == "@" + "a.b";
  }

  lemma ExampleUserOk()
    ensures CanonicalUserId(ExampleActor().canonicalUserId)
  {
  }

  // ----- either version -----

  ghost predicate ValidPolicy(p: Policy) {
    && HasPrefix(p.serviceGroup, SERVICE_PREFIX) && p.serviceGroup != SERVICE_PREFIX
    && p.repositories != []
    && ((p.version == POLICY_VERSION && ValidV5(p)) || (p.version == SOURCE_AUTH_POLICY_VERSION && ValidV6(p)))
  }

  method Validate(p: Policy) returns (r: Result<(), PolicyError>)
    ensures r == if ValidPolicy(p) then Ok(()) else Err(Invalid)
  {
    hide ValidV5, ValidV6;
    if p.version != POLICY_VERSION && p.version != SOURCE_AUTH_POLICY_VERSION {
      return Err(Invalid);
    }
    if !HasPrefix(p.serviceGroup, SERVICE_PREFIX) || p.serviceGroup == SERVICE_PREFIX || p.repositories == [] {
      return Err(Invalid);
    }
    if p.version == POLICY_VERSION {
      r := ValidateV5(p);
    } else {
      assert p.version != POLICY_VERSION;
      r := ValidateV6(p);
    }
  }

  function Authorize(p: Policy, c: Claims): Result<Identity, PolicyError> {
    if p.version == POLICY_VERSION then AuthorizeV5(p, c)
    else if p.version == SOURCE_AUTH_POLICY_VERSION then AuthorizeV6(p, c)
    else Err(Unauthorized)
  }

  /** A policy admits by the rules of its version, and says so. */
  lemma VersionDecides(p: Policy, c: Claims)
    requires ValidPolicy(p)
    ensures p.version == "github-oidc-exchange.apelogic.io/v5" || p.version == "github-oidc-exchange.apelogic.io/v6"
    ensures p.version == "github-oidc-exchange.apelogic.io/v5" ==> Authorize(p, c) == AuthorizeV5(p, c)
    ensures p.version == "github-oidc-exchange.apelogic.io/v6" ==> Authorize(p, c) == AuthorizeV6(p, c)
    ensures Authorize(p, c).Ok? ==>
      Authorize(p, c).value.identityContract ==
        if p.version == "github-oidc-exchange.apelogic.io/v5" then "steward-task-v2" else "steward-task-v3"
  {
    hide ValidV5, ValidV6, HasPrefix, NumericIdentifier, Groups;
    VersionsDiffer();
  }

  lemma VersionsDiffer()
    ensures POLICY_VERSION != SOURCE_AUTH_POLICY_VERSION
  {
    assert POLICY_VERSION[|POLICY_VERSION| - 1] == '5' && |POLICY_VERSION| == |SOURCE_AUTH_POLICY_VERSION|;
    assert SOURCE_AUTH_POLICY_VERSION[|POLICY_VERSION| - 1] == '6';
  }

  /** On a validated policy the sorted group list is always acting user, canonical user, service. */
  lemma GroupsOfValidated(p: Policy, c: Claims)
    requires ValidPolicy(p) && Authorize(p, c).Ok? && Authorize(p, c).value.groups.Some?
    ensures p.actors.Some? && c.actorId in p.actors.value
    ensures var actor := p.actors.value[c.actorId];
            Authorize(p, c).value.groups ==
              Some([ACTING_PREFIX + actor.email, CANONICAL_USER_PREFIX + actor.canonicalUserId, p.serviceGroup])
  {
    var actor := p.actors.value[c.actorId];
    SortedGroups(p.serviceGroup, actor);
  }

  lemma SortedGroups(serviceGroup: string, actor: Actor)
    requires HasPrefix(serviceGroup, SERVICE_PREFIX)
    ensures Groups(serviceGroup, ACTING_PREFIX, actor) ==
            [ACTING_PREFIX + actor.email, CANONICAL_USER_PREFIX + actor.canonicalUserId, serviceGroup]
  {
    hide Sorting.Le, Sorting.SortBy, HasPrefix;
    var acting, canonical, service := PartsAfterRoot(serviceGroup, actor);
    Sorting.LeAfterPrefix(GROUP_ROOT, acting, canonical);
    Sorting.LeAfterPrefix(GROUP_ROOT, acting, service);
    Sorting.LeAfterPrefix(GROUP_ROOT, canonical, service);
    SortThree(Itself, GROUP_ROOT + service, GROUP_ROOT + acting, GROUP_ROOT + canonical);
  }

  lemma PartsAfterRoot(serviceGroup: string, actor: Actor) returns (acting: string, canonical: string, service: string)
    requires HasPrefix(serviceGroup, SERVICE_PREFIX)
    ensures ACTING_PREFIX + actor.email == GROUP_ROOT + acting && acting != "" && acting[0] == 'a'
    ensures CANONICAL_USER_PREFIX + actor.canonicalUserId == GROUP_ROOT + canonical && canonical != "" && canonical[0] == 'c'
    ensures serviceGroup == GROUP_ROOT + service && service != "" && service[0] == 's'
  {
    acting, canonical := "acting-user:" + actor.email, "canonical-user:" + actor.canonicalUserId;
    service := serviceGroup[|GROUP_ROOT|..];
    assert SERVICE_PREFIX[|GROUP_ROOT|] == 's';
    assert serviceGroup[..|GROUP_ROOT|] == serviceGroup[..|SERVICE_PREFIX|][..|GROUP_ROOT|];
  }

  lemma SortTwo(key: string -> string, a: string, b: string)
    requires !Sorting.Le(key(a), key(b))
    ensures Sorting.SortBy(key, [a, b]) == [b, a]
  {
    hide Sorting.Le;
    assert [a, b][..1] == [a] && [a][..0] == [];
    assert Sorting.SortBy(key, [a]) == Sorting.Insert(key, a, []) == [a];
    assert Sorting.Insert(key, b, [a]) == Sorting.Insert(key, b, []) + [a];
  }

  lemma SortThree(key: string -> string, a: string, b: string, c: string)
    requires Sorting.Le(key(b), key(c)) && !Sorting.Le(key(a), key(b)) && !Sorting.Le(key(a), key(c))
    ensures Sorting.SortBy(key, [a, b, c]) == [b, c, a]
  {
    hide Sorting.Le;
    assert [a, b, c][..2] == [a, b];
    SortTwo(key, a, b);
    assert Sorting.SortBy(key, [a, b, c]) == Sorting.Insert(key, c, [b, a]);
    assert [b, a][..1] == [b];
    assert Sorting.Insert(key, c, [b]) == [b] + [c];
  }
}
