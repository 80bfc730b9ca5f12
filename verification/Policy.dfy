/**
 The GitHub authorization policy, versions 5 and 6: the validators that build sets in file order, and the
 authorizers that admit a request when exactly one repository rule matches.
 */
module Policy {
  import opened Wrappers
  import opened Text
  import opened GitHubClaims
  import Sorting

  const POLICY_VERSION := "github-oidc-exchange.apelogic.io/v5"
  const SOURCE_AUTH_POLICY_VERSION := "github-oidc-exchange.apelogic.io/v6"
  const IDENTITY_CONTRACT := "steward-task-v2"
  const SOURCE_AUTH_IDENTITY_CONTRACT := "steward-task-v3"
  const GROUP_ROOT := "agents.apelogic.ai/"
  const SERVICE_PREFIX := GROUP_ROOT + "service-principal:"
  const ACTING_PREFIX := GROUP_ROOT + "acting-user:"
  const CANONICAL_USER_PREFIX := GROUP_ROOT + "canonical-user:"

  type Selector = Option<seq<string>>

  datatype Rule = Rule(
    ownerId: string,
    repositoryId: string,
    subjects: Selector,
    events: Selector,
    refs: Selector,
    jobWorkflowRefs: Selector,
    jobWorkflowShas: Selector)

  datatype Actor = Actor(email: string, canonicalUserId: string, verified: bool)

  datatype Policy = Policy(
    version: string,
    serviceGroup: string,
    actingGroupPrefix: Option<string>,
    allowedEmailDomains: Selector,
    repositories: seq<Rule>,
    actors: Option<map<string, Actor>>)

  datatype Identity = Identity(
    actorId: string,
    actorLogin: Option<string>,
    email: Option<string>,
    emailVerified: Option<bool>,
    subject: string,
    groups: Selector,
    identityContract: string,
    repository: string,
    workflowRef: string,
    jobWorkflowRef: string)

  datatype PolicyError = Invalid | Unauthorized

  // ----- single fields -----

  predicate CanonicalEmail(value: string) {
    match SplitOnce(value, '@')
    case None => false
    case Some((local, domain)) =>
      local != "" && domain != "" && !HasWhitespace(value) && IsLowercase(value)
  }

  predicate DomainOk(domain: string) {
    !HasPrefix(domain, ".") && !HasSuffix(domain, ".") && '.' in domain && IsLowercase(domain)
  }

  predicate SubjectOk(subject: string) {
    HasPrefix(subject, "repo:") && |subject| <= 2_048 && AllGraphic(subject)
  }

  predicate WorkflowRefOk(workflowRef: string) {
    |workflowRef| <= 2_048 && AllGraphic(workflowRef) && Contains(workflowRef, "/.github/workflows/") && '@' in workflowRef
  }

  predicate WorkflowShaOk(sha: string) {
    |sha| == 40 && AllHex(sha)
  }

  // ----- lists of values -----

  predicate Distinct(values: seq<string>) {
    forall i, j :: 0 <= i < j < |values| ==> values[i] != values[j]
  }

  predicate ValuesOk(values: seq<string>) {
    values != [] && Distinct(values) && "" !in values
  }

  function Unique(values: seq<string>): set<string> {
    set v | v in values
  }

  /** A list has as many distinct values as entries exactly when no entry repeats. */
  lemma {:induction false} DistinctByCount(values: seq<string>)
    ensures |Unique(values)| <= |values|
    ensures |Unique(values)| == |values| <==> Distinct(values)
  {
    if values != [] {
      var n := |values| - 1;
      var init, last := values[..n], values[n];
      DistinctByCount(init);
      assert Unique(values) == Unique(init) + {last};
      assert forall i :: 0 <= i < n ==> values[i] == init[i];
      if last in init {
        assert Unique(values) == Unique(init);
      }
    }
  }

  /** `require_values`: unique, non-empty, at least one. */
  method RequireValues(values: seq<string>) returns (ok: bool)
    ensures ok <==> ValuesOk(values)
  {
    DistinctByCount(values);
    var unique := Unique(values);
    ok := values != [] && |unique| == |values| && "" !in values;
  }

  predicate SelectorOk(selector: Selector) {
    selector.None? || ValuesOk(selector.value)
  }

  predicate DomainsOk(domains: seq<string>) {
    ValuesOk(domains) && forall d :: d in domains ==> DomainOk(d)
  }

  // ----- actors -----

  predicate ActorOk(id: string, actor: Actor, domains: seq<string>, bounded: bool) {
    && (if bounded then NumericIdentifier(id) else DecimalIdentifier(id))
    && actor.verified
    && CanonicalEmail(actor.email)
    && CanonicalUserId(actor.canonicalUserId)
    && exists d :: d in domains && HasSuffix(actor.email, "@" + d)
  }

  /** Every mapping is well formed and no two actors share a canonical user. */
  ghost predicate ActorsOk(actors: map<string, Actor>, domains: seq<string>, bounded: bool) {
    && (forall id :: id in actors ==> ActorOk(id, actors[id], domains, bounded))
    && (forall a, b :: a in actors && b in actors && a != b ==> actors[a].canonicalUserId != actors[b].canonicalUserId)
  }

  /** One more actor keeps the mappings good exactly when it is good itself and its canonical user is new. */
  lemma ActorsOkExtends(actors: map<string, Actor>, seen: map<string, Actor>, id: string, domains: seq<string>, bounded: bool)
    requires seen.Keys <= actors.Keys && id in actors && id !in seen
    requires forall a :: a in seen ==> seen[a] == actors[a]
    requires ActorsOk(seen, domains, bounded)
    ensures ActorsOk(seen[id := actors[id]], domains, bounded)
       <==> ActorOk(id, actors[id], domains, bounded) && actors[id].canonicalUserId !in CanonicalUsers(seen)
    ensures !ActorsOk(seen[id := actors[id]], domains, bounded) ==> !ActorsOk(actors, domains, bounded)
    ensures CanonicalUsers(seen[id := actors[id]]) == CanonicalUsers(seen) + {actors[id].canonicalUserId}
  {
    hide ActorOk;
    var more := seen[id := actors[id]];
    assert id in more;
    assert forall a :: a in more ==> more[a] == actors[a];
  }

  lemma NoActors(domains: seq<string>, bounded: bool)
    ensures ActorsOk(map[], domains, bounded) && CanonicalUsers(map[]) == {}
  {
  }

  function CanonicalUsers(actors: map<string, Actor>): set<string> {
    set id | id in actors :: actors[id].canonicalUserId
  }

  /** `validate_actors`: the map is visited in any order; the verdict does not depend on it. */
  method ValidateActors(actors: map<string, Actor>, domains: seq<string>, bounded: bool) returns (r: Result<(), PolicyError>)
    ensures r == if ActorsOk(actors, domains, bounded) then Ok(()) else Err(Invalid)
  {
    hide ActorOk, ActorsOk, CanonicalUsers;
    var canonicalUserIds: set<string> := {};
    var left := actors.Keys;
    ghost var seen: map<string, Actor> := map[];
    NoActors(domains, bounded);
    while left != {}
      invariant left <= actors.Keys && seen.Keys == actors.Keys - left
      invariant forall id :: id in seen ==> seen[id] == actors[id]
      invariant ActorsOk(seen, domains, bounded) && canonicalUserIds == CanonicalUsers(seen)
      decreases |left|
    {
      var id :| id in left;
      ActorsOkExtends(actors, seen, id, domains, bounded);
      var actor := actors[id];
      if !ActorOk(id, actor, domains, bounded) {
        return Err(Invalid);
      }
      if actor.canonicalUserId in canonicalUserIds {
        return Err(Invalid);
      }
      canonicalUserIds := canonicalUserIds + {actor.canonicalUserId};
      left := left - {id};
      seen := seen[id := actor];
    }
    assert seen == actors;
    return Ok(());
  }

  // ----- policy version 6 -----

  predicate RepositoryIdsOk(rule: Rule, bounded: bool) {
    if bounded then NumericIdentifier(rule.ownerId) && (NumericIdentifier(rule.repositoryId) || rule.repositoryId == "*")
    else DecimalIdentifier(rule.ownerId) && DecimalIdentifier(rule.repositoryId)
  }

  predicate AllOk(selector: Selector, ok: string -> bool) {
    selector.None? || forall v :: v in selector.value ==> ok(v)
  }

  predicate RuleOkV6(rule: Rule) {
    && RepositoryIdsOk(rule, true)
    && SelectorOk(rule.subjects) && AllOk(rule.subjects, SubjectOk)
    && SelectorOk(rule.events)
    && SelectorOk(rule.refs)
    && SelectorOk(rule.jobWorkflowRefs) && AllOk(rule.jobWorkflowRefs, WorkflowRefOk)
    && SelectorOk(rule.jobWorkflowShas) && AllOk(rule.jobWorkflowShas, WorkflowShaOk)
  }

  /** Two rules claim a common repository: same owner, and one is for all its repositories or both for the same. */
  predicate Conflict(a: Rule, b: Rule) {
    a.ownerId == b.ownerId && (a.repositoryId == "*" || b.repositoryId == "*" || a.repositoryId == b.repositoryId)
  }

  ghost predicate NoConflict(rules: seq<Rule>) {
    forall i, j :: 0 <= i < j < |rules| ==> !Conflict(rules[i], rules[j])
  }

  ghost predicate ActorBundleOk(p: Policy) {
    match (p.actors, p.allowedEmailDomains, p.actingGroupPrefix)
    case (None, None, None) => true
    case (Some(actors), Some(domains), Some(prefix)) =>
      prefix == ACTING_PREFIX && actors != map[] && DomainsOk(domains) && ActorsOk(actors, domains, true)
    case _ => false
  }

  ghost predicate ValidV6(p: Policy) {
    ActorBundleOk(p) && (forall r :: r in p.repositories ==> RuleOkV6(r)) && NoConflict(p.repositories)
  }

  method RequireSelector(selector: Selector) returns (ok: bool)
    ensures ok <==> SelectorOk(selector)
  {
    if selector.None? {
      return true;
    }
    ok := RequireValues(selector.value);
  }

  method ValidateRuleV6(rule: Rule) returns (ok: bool)
    requires RepositoryIdsOk(rule, true)
    ensures ok <==> RuleOkV6(rule)
  {
    var subjects := RequireSelector(rule.subjects);
    if !subjects || !AllOk(rule.subjects, SubjectOk) { return false; }
    var events := RequireSelector(rule.events);
    if !events { return false; }
    var refs := RequireSelector(rule.refs);
    if !refs { return false; }
    var workflowRefs := RequireSelector(rule.jobWorkflowRefs);
    if !workflowRefs || !AllOk(rule.jobWorkflowRefs, WorkflowRefOk) { return false; }
    var workflowShas := RequireSelector(rule.jobWorkflowShas);
    return workflowShas && AllOk(rule.jobWorkflowShas, WorkflowShaOk);
  }

  /** Owners with a rule for all their repositories, and the repositories that have a rule of their own. */
  ghost function OwnerScopes(rules: seq<Rule>): set<string> {
    set r | r in rules && r.repositoryId == "*" :: r.ownerId
  }

  ghost function RepositoryIds(rules: seq<Rule>): set<(string, string)> {
    set r | r in rules && r.repositoryId != "*" :: (r.ownerId, r.repositoryId)
  }

  ghost predicate ConflictsWithAny(rules: seq<Rule>, rule: Rule) {
    exists r :: r in rules && Conflict(r, rule)
  }

  lemma ScopesOfExtended(rules: seq<Rule>, rule: Rule)
    ensures OwnerScopes(rules + [rule]) == OwnerScopes(rules) + (if rule.repositoryId == "*" then {rule.ownerId} else {})
    ensures RepositoryIds(rules + [rule]) ==
            RepositoryIds(rules) + (if rule.repositoryId == "*" then {} else {(rule.ownerId, rule.repositoryId)})
  {
    forall o | o in OwnerScopes(rules) ensures o in OwnerScopes(rules + [rule]) {
      var r :| r in rules && r.repositoryId == "*" && r.ownerId == o;
      assert r in rules + [rule];
    }
    forall id | id in RepositoryIds(rules) ensures id in RepositoryIds(rules + [rule]) {
      var r :| r in rules && r.repositoryId != "*" && (r.ownerId, r.repositoryId) == id;
      assert r in rules + [rule];
    }
    assert rule in rules + [rule];
  }

  /** What the two sets tell about a further rule is exactly whether it conflicts with an earlier one. */
  lemma SetsDetectConflicts(rules: seq<Rule>, rule: Rule)
    ensures rule.repositoryId == "*" ==>
      (ConflictsWithAny(rules, rule) <==>
       rule.ownerId in OwnerScopes(rules) || exists id :: id in RepositoryIds(rules) && id.0 == rule.ownerId)
    ensures rule.repositoryId != "*" ==>
      (ConflictsWithAny(rules, rule) <==>
       rule.ownerId in OwnerScopes(rules) || (rule.ownerId, rule.repositoryId) in RepositoryIds(rules))
  {
    if ConflictsWithAny(rules, rule) {
      var r :| r in rules && Conflict(r, rule);
      if r.repositoryId == "*" {
        assert r.ownerId in OwnerScopes(rules);
      } else {
        assert (r.ownerId, r.repositoryId) in RepositoryIds(rules);
      }
    }
  }

  lemma NoConflictExtends(rules: seq<Rule>, rule: Rule)
    ensures NoConflict(rules + [rule]) <==> NoConflict(rules) && !ConflictsWithAny(rules, rule)
  {
    var all := rules + [rule];
    if NoConflict(all) {
      forall i, j | 0 <= i < j < |rules| ensures !Conflict(rules[i], rules[j]) {
        assert all[i] == rules[i] && all[j] == rules[j];
      }
      forall r | r in rules ensures !Conflict(r, rule) {
        var i :| 0 <= i < |rules| && rules[i] == r;
        assert all[i] == r && all[|rules|] == rule;
      }
    }
  }

  lemma NoConflictOfPrefix(rules: seq<Rule>, n: nat)
    requires n <= |rules| && NoConflict(rules)
    ensures NoConflict(rules[..n])
  {
  }

  /** The repository loop of `validate_v6` accepts exactly the lists of well-formed rules with no conflicting pair. */
  method ValidateRepositoriesV6(rules: seq<Rule>) returns (r: Result<(), PolicyError>)
    ensures r == if (forall rule :: rule in rules ==> RuleOkV6(rule)) && NoConflict(rules) then Ok(()) else Err(Invalid)
  {
    hide RuleOkV6, NoConflict, Conflict, OwnerScopes, RepositoryIds;
    assert NoConflict([]) by { EmptyHasNoConflict(); }
    assert OwnerScopes([]) == {} && RepositoryIds([]) == {} by { EmptyHasNoScopes(); }
    var repositoryIds: set<(string, string)> := {};
    var ownerScopes: set<string> := {};
    for i := 0 to |rules|
      invariant forall rule :: rule in rules[..i] ==> RuleOkV6(rule)
      invariant NoConflict(rules[..i])
      invariant ownerScopes == OwnerScopes(rules[..i])
      invariant repositoryIds == RepositoryIds(rules[..i])
    {
      var rule := rules[i];
      assert rules[..i + 1] == rules[..i] + [rule];
      ScopesOfExtended(rules[..i], rule);
      SetsDetectConflicts(rules[..i], rule);
      NoConflictExtends(rules[..i], rule);
      if NoConflict(rules) { NoConflictOfPrefix(rules, i + 1); }
      if !RepositoryIdsOk(rule, true) {
        RuleOkNeedsIds(rule);
        return Err(Invalid);
      }
      var owner, name := rule.ownerId, rule.repositoryId;
      var ambiguous;
      if name == "*" {
        ambiguous := owner in ownerScopes || exists id :: id in repositoryIds && id.0 == owner;
        ownerScopes := ownerScopes + {owner};
      } else {
        ambiguous := owner in ownerScopes || (owner, name) in repositoryIds;
        repositoryIds := repositoryIds + {(owner, name)};
      }
      if ambiguous {
        return Err(Invalid);
      }
      var ok := ValidateRuleV6(rule);
      if !ok {
        return Err(Invalid);
      }
    }
    assert rules[..|rules|] == rules;
    return Ok(());
  }

  lemma EmptyHasNoConflict()
    ensures NoConflict([])
  {
  }

  lemma EmptyHasNoScopes()
    ensures OwnerScopes([]) == {} && RepositoryIds([]) == {}
  {
  }

  lemma RuleOkNeedsIds(rule: Rule)
    ensures RuleOkV6(rule) ==> RepositoryIdsOk(rule, true)
  {
  }

  method ValidateV6(p: Policy) returns (r: Result<(), PolicyError>)
    ensures r == if ValidV6(p) then Ok(()) else Err(Invalid)
  {
    hide RuleOkV6, NoConflict, DomainOk, ActorsOk;
    if p.actingGroupPrefix.Some? && p.actingGroupPrefix.value != ACTING_PREFIX {
      return Err(Invalid);
    }
    if p.allowedEmailDomains.Some? {
      var domains := ValidateDomains(p.allowedEmailDomains.value);
      if !domains {
        return Err(Invalid);
      }
    }
    match (p.actors, p.allowedEmailDomains, p.actingGroupPrefix) {
      case (None, None, None) =>
      case (Some(actors), Some(domains), Some(_)) =>
        if actors == map[] {
          return Err(Invalid);
        }
        var ok := ValidateActors(actors, domains, true);
        if ok.Err? {
          return ok;
        }
      case _ => return Err(Invalid);
    }
    r := ValidateRepositoriesV6(p.repositories);
  }

  method ValidateDomains(domains: seq<string>) returns (ok: bool)
    ensures ok <==> DomainsOk(domains)
  {
    ok := RequireValues(domains);
    ok := ok && forall d :: d in domains ==> DomainOk(d);
  }

  // ----- authorization under version 6 -----

  predicate OptionalMatch(selector: Selector, wanted: string) {
    selector.None? || wanted in selector.value
  }

  predicate RuleMatchesV6(rule: Rule, c: Claims) {
    && rule.ownerId == c.ownerId
    && (rule.repositoryId == "*" || rule.repositoryId == c.repositoryId)
    && OptionalMatch(rule.subjects, c.sub)
    && OptionalMatch(rule.events, c.eventName)
    && OptionalMatch(rule.refs, c.gitRef)
    && OptionalMatch(rule.jobWorkflowRefs, c.jobWorkflowRef)
    && OptionalMatch(rule.jobWorkflowShas, c.jobWorkflowSha)
  }

  /** The rules that pass a filter, in file order. */
  function Filter(rules: seq<Rule>, keep: Rule -> bool): seq<Rule> {
    if rules == [] then []
    else
      var rest := Filter(rules[1..], keep);
      if keep(rules[0]) then [rules[0]] + rest else rest
  }

  function Itself(group: string): string {
    group
  }

  function Groups(serviceGroup: string, actingPrefix: string, actor: Actor): seq<string> {
    Sorting.SortBy(Itself,
      [serviceGroup, actingPrefix + actor.email, CANONICAL_USER_PREFIX + actor.canonicalUserId])
  }

  function IdentityV6(p: Policy, c: Claims): Result<Identity, PolicyError> {
    var base := Identity(c.actorId, Some(c.actor), None, None, "github-actions:actor:" + c.actorId, None,
                         SOURCE_AUTH_IDENTITY_CONTRACT, c.ownerId + "/" + c.repositoryId, c.workflowRef, c.jobWorkflowRef);
    match p.actors
    case None => Ok(base)
    case Some(actors) =>
      if c.actorId !in actors || !actors[c.actorId].verified || p.actingGroupPrefix.None? then Err(Unauthorized)
      else
        var actor := actors[c.actorId];
        Ok(base.(email := Some(actor.email), emailVerified := Some(true),
                 groups := Some(Groups(p.serviceGroup, p.actingGroupPrefix.value, actor))))
  }

  function AuthorizeV6(p: Policy, c: Claims): Result<Identity, PolicyError> {
    if !NumericIdentifier(c.actorId) then Err(Unauthorized)
    else if |Filter(p.repositories, rule => RuleMatchesV6(rule, c))| != 1 then Err(Unauthorized)
    else IdentityV6(p, c)
  }

  // ----- what validation gives the version 6 authorizer -----

  lemma {:induction false} FilterMeaning(rules: seq<Rule>, keep: Rule -> bool)
    ensures forall r :: r in Filter(rules, keep) <==> r in rules && keep(r)
  {
    if rules != [] {
      assert rules == [rules[0]] + rules[1..];
      FilterMeaning(rules[1..], keep);
    }
  }

  lemma {:induction false} FilterOfNone(rules: seq<Rule>, keep: Rule -> bool)
    requires forall k :: 0 <= k < |rules| ==> !keep(rules[k])
    ensures Filter(rules, keep) == []
  {
    if rules != [] {
      assert forall k :: 0 <= k < |rules[1..]| ==> rules[1..][k] == rules[k + 1];
      FilterOfNone(rules[1..], keep);
    }
  }

  /** At most one entry passes a filter that no two entries pass together. */
  lemma {:induction false} FilterOfSingles(rules: seq<Rule>, keep: Rule -> bool)
    requires forall i, j :: 0 <= i < j < |rules| ==> !(keep(rules[i]) && keep(rules[j]))
    ensures |Filter(rules, keep)| <= 1
  {
    if rules != [] {
      forall i, j | 0 <= i < j < |rules[1..]| ensures !(keep(rules[1..][i]) && keep(rules[1..][j])) {
        assert rules[1..][i] == rules[i + 1] && rules[1..][j] == rules[j + 1];
      }
      FilterOfSingles(rules[1..], keep);
      if keep(rules[0]) {
        forall k | 0 <= k < |rules[1..]| ensures !keep(rules[1..][k]) {
          assert rules[1..][k] == rules[k + 1];
        }
        FilterOfNone(rules[1..], keep);
      }
    }
  }

  lemma {:induction false} FilterOfPair(rules: seq<Rule>, keep: Rule -> bool, i: nat, j: nat)
    requires i < j < |rules| && keep(rules[i]) && keep(rules[j])
    ensures |Filter(rules, keep)| >= 2
    decreases i
  {
    FilterMeaning(rules[1..], keep);
    if i == 0 {
      assert rules[1..][j - 1] == rules[j];
      assert rules[j] in Filter(rules[1..], keep);
    } else {
      FilterOfPair(rules[1..], keep, i - 1, j - 1);
    }
  }

  /** Whatever the policy, a request that two of its rules match is denied. */
  lemma AmbiguousIsDenied(p: Policy, c: Claims, i: nat, j: nat)
    requires i < j < |p.repositories|
    requires forall k :: k in [i, j] ==>
      var r := p.repositories[k];
      && r.ownerId == c.ownerId && (r.repositoryId == "*" || r.repositoryId == c.repositoryId)
      && (r.subjects.Some? ==> c.sub in r.subjects.value)
      && (r.events.Some? ==> c.eventName in r.events.value)
      && (r.refs.Some? ==> c.gitRef in r.refs.value)
      && (r.jobWorkflowRefs.Some? ==> c.jobWorkflowRef in r.jobWorkflowRefs.value)
      && (r.jobWorkflowShas.Some? ==> c.jobWorkflowSha in r.jobWorkflowShas.value)
    ensures AuthorizeV6(p, c) == Err(Unauthorized)
  {
    hide IdentityV6, NumericIdentifier;
    assert i in [i, j] && j in [i, j];
    FilterOfPair(p.repositories, rule => RuleMatchesV6(rule, c), i, j);
  }

  ghost predicate SomeRuleMatches(rules: seq<Rule>, c: Claims) {
    exists r :: r in rules && RuleMatchesV6(r, c)
  }

  /** On a validated policy no request is ambiguous: it is admitted exactly when some rule matches. */
  lemma ValidatedIsUnambiguous(p: Policy, c: Claims)
    requires ValidV6(p)
    ensures |Filter(p.repositories, rule => RuleMatchesV6(rule, c))| <= 1
    ensures AuthorizeV6(p, c) ==
            if NumericIdentifier(c.actorId) && SomeRuleMatches(p.repositories, c) then IdentityV6(p, c) else Err(Unauthorized)
  {
    hide ActorBundleOk, RuleOkV6, NumericIdentifier, IdentityV6;
    var keep := rule => RuleMatchesV6(rule, c);
    forall i, j | 0 <= i < j < |p.repositories| ensures !(keep(p.repositories[i]) && keep(p.repositories[j])) {
      assert !Conflict(p.repositories[i], p.repositories[j]);
    }
    FilterOfSingles(p.repositories, keep);
    FilterMeaning(p.repositories, keep);
    var matching := Filter(p.repositories, keep);
    if SomeRuleMatches(p.repositories, c) {
      var r :| r in p.repositories && RuleMatchesV6(r, c);
      assert r in matching;
    } else {
      FilterOfNone(p.repositories, keep);
    }
  }

  /**
   Version 6 admission.  A valid policy admits a request exactly when its actor ID is numeric, some rule's every
   selector lists what the request claims, and its actor is mapped if the policy maps actors at all.
   */
  lemma AdmittedExactly(p: Policy, c: Claims)
    requires ValidV6(p)
    ensures AuthorizeV6(p, c).Ok? <==>
      && 0 < |c.actorId| <= 20 && AllDigits(c.actorId) && c.actorId[0] != '0'
      && (p.actors.Some? ==> c.actorId in p.actors.value)
      && exists r :: r in p.repositories
           && r.ownerId == c.ownerId && (r.repositoryId == "*" || r.repositoryId == c.repositoryId)
           && (r.subjects.Some? ==> c.sub in r.subjects.value)
           && (r.events.Some? ==> c.eventName in r.events.value)
           && (r.refs.Some? ==> c.gitRef in r.refs.value)
           && (r.jobWorkflowRefs.Some? ==> c.jobWorkflowRef in r.jobWorkflowRefs.value)
           && (r.jobWorkflowShas.Some? ==> c.jobWorkflowSha in r.jobWorkflowShas.value)
    ensures AuthorizeV6(p, c).Err? ==> AuthorizeV6(p, c).error == Unauthorized
  {
    hide RuleOkV6, NoConflict, DomainsOk, Groups, AuthorizeV6;
    ValidatedIsUnambiguous(p, c);
  }

  function FirstOf(selector: Selector): string {
    if selector.Some? && selector.value != [] then selector.value[0] else ""
  }

  /** No rule of a valid policy is dead: some request is admitted by it. */
  lemma EveryRuleAdmits(p: Policy, r: Rule, template: Claims) returns (c: Claims)
    requires ValidV6(p) && r in p.repositories
    ensures AuthorizeV6(p, c).Ok? && RuleMatchesV6(r, c)
    ensures c.ownerId == r.ownerId && (r.repositoryId != "*" ==> c.repositoryId == r.repositoryId)
  {
    hide NoConflict, DomainsOk, Groups, AuthorizeV6, AllOk, NumericIdentifier;
    var actorId := "1";
    OneIsNumeric();
    if p.actors.Some? {
      assert p.actors.value != map[];
      actorId :| actorId in p.actors.value;
      assert ActorOk(actorId, p.actors.value[actorId], p.allowedEmailDomains.value, true);
    }
    c := template.(actorId := actorId, ownerId := r.ownerId,
                   repositoryId := if r.repositoryId == "*" then "1" else r.repositoryId,
                   sub := FirstOf(r.subjects), eventName := FirstOf(r.events), gitRef := FirstOf(r.refs),
                   jobWorkflowRef := FirstOf(r.jobWorkflowRefs), jobWorkflowSha := FirstOf(r.jobWorkflowShas));
    assert RuleMatchesV6(r, c);
    ValidatedIsUnambiguous(p, c);
    assert SomeRuleMatches(p.repositories, c);
    hide RuleOkV6, RuleMatchesV6;
  }

  lemma OneIsNumeric()
    ensures NumericIdentifier("1")
  {
  }

  /** What an admitted request is known as: its claims, and the mapped actor's email and groups if actors are mapped. */
  lemma AdmittedIdentity(p: Policy, c: Claims)
    requires ValidV6(p) && AuthorizeV6(p, c).Ok?
    ensures var id := AuthorizeV6(p, c).value;
      && id.actorId == c.actorId && id.actorLogin == Some(c.actor)
      && id.subject == "github-actions:actor:" + c.actorId
      && id.repository == c.ownerId + "/" + c.repositoryId
      && id.workflowRef == c.workflowRef && id.jobWorkflowRef == c.jobWorkflowRef
      && id.identityContract == "steward-task-v3"
      && (match p.actors
          case None => id.email.None? && id.emailVerified.None? && id.groups.None?
          case Some(actors) =>
            && c.actorId in actors && actors[c.actorId].verified
            && id.email == Some(actors[c.actorId].email) && id.emailVerified == Some(true)
            && id.groups.Some? && Sorting.Sorted(Itself, id.groups.value)
            && multiset(id.groups.value) == multiset{
                 p.serviceGroup,
                 "agents.apelogic.ai/acting-user:" + actors[c.actorId].email,
                 "agents.apelogic.ai/canonical-user:" + actors[c.actorId].canonicalUserId})
  {
    hide RuleOkV6, NoConflict, DomainsOk, ActorOk, NumericIdentifier, Groups;
    if p.actors.Some? {
      GroupsMeaning(p.serviceGroup, ACTING_PREFIX, p.actors.value[c.actorId]);
      PrefixTexts();
    }
  }

  lemma PrefixTexts()
    ensures ACTING_PREFIX == "agents.apelogic.ai/acting-user:"
    ensures CANONICAL_USER_PREFIX == "agents.apelogic.ai/canonical-user:"
  {
  }

  lemma GroupsMeaning(serviceGroup: string, actingPrefix: string, actor: Actor)
    ensures var groups := Groups(serviceGroup, actingPrefix, actor);
      && Sorting.Sorted(Itself, groups)
      && multiset(groups) == multiset{serviceGroup, actingPrefix + actor.email, CANONICAL_USER_PREFIX + actor.canonicalUserId}
  {
    Sorting.SortByMeaning(Itself, [serviceGroup, actingPrefix + actor.email, CANONICAL_USER_PREFIX + actor.canonicalUserId]);
  }

  /** An admitted email is lower-case, without white space, and in an allowed domain; no two actors share a canonical user. */
  lemma AdmittedActors(p: Policy, c: Claims, d: Claims)
    requires ValidV6(p) && p.actors.Some? && AuthorizeV6(p, c).Ok? && AuthorizeV6(p, d).Ok?
    ensures var actors := p.actors.value;
      && c.actorId in actors && d.actorId in actors
      && IsLowercase(actors[c.actorId].email) && !HasWhitespace(actors[c.actorId].email)
      && p.allowedEmailDomains.Some?
      && (exists domain :: domain in p.allowedEmailDomains.value && HasSuffix(actors[c.actorId].email, "@" + domain))
      && (actors[c.actorId].canonicalUserId == actors[d.actorId].canonicalUserId ==> c.actorId == d.actorId)
  {
    hide RuleOkV6, NoConflict, DomainsOk, NumericIdentifier, Groups, HasSuffix, HasWhitespace, IsLowercase, CanonicalUserId;
  }

  /** Rules may be listed in any order: neither the verdict on the policy nor any decision changes. */
  lemma RuleOrderIsIrrelevant(p: Policy, rules: seq<Rule>, c: Claims)
    requires Sorting.SameEntries(p.repositories, rules)
    ensures ValidV6(p) <==> ValidV6(p.(repositories := rules))
    ensures ValidV6(p) ==> AuthorizeV6(p, c) == AuthorizeV6(p.(repositories := rules), c)
  {
    hide RuleOkV6, Conflict, RuleMatchesV6, NumericIdentifier, IdentityV6, AuthorizeV6, ActorBundleOk;
    Sorting.SameMembers(p.repositories, rules);
    SameIdentity(p, rules, c);
    if NoConflict(p.repositories) { NoConflictPermutes(p.repositories, rules); }
    if NoConflict(rules) { NoConflictPermutes(rules, p.repositories); }
    if ValidV6(p) {
      ValidatedIsUnambiguous(p, c);
      ValidatedIsUnambiguous(p.(repositories := rules), c);
    }
  }

  lemma SameIdentity(p: Policy, rules: seq<Rule>, c: Claims)
    ensures IdentityV6(p, c) == IdentityV6(p.(repositories := rules), c)
    ensures ActorBundleOk(p) == ActorBundleOk(p.(repositories := rules))
  {
  }

  lemma NoConflictPermutes(a: seq<Rule>, b: seq<Rule>)
    requires Sorting.SameEntries(a, b) && NoConflict(a)
    ensures NoConflict(b)
  {
    forall i, j | 0 <= i < j < |b| ensures !Conflict(b[i], b[j]) {
      var m, n := Sorting.TwoPlaces(a, b, i, j);
      assert if m < n then !Conflict(a[m], a[n]) else !Conflict(a[n], a[m]);
    }
  }

  /** Adding rules to a policy that stays valid takes no admission away. */
  lemma AddingRulesKeepsAdmissions(p: Policy, rules: seq<Rule>, c: Claims)
    requires ValidV6(p) && ValidV6(p.(repositories := rules))
    requires forall r :: r in p.repositories ==> r in rules
    requires AuthorizeV6(p, c).Ok?
    ensures AuthorizeV6(p.(repositories := rules), c) == AuthorizeV6(p, c)
  {
    hide RuleOkV6, Conflict, NumericIdentifier, IdentityV6, AuthorizeV6, ActorBundleOk;
    ValidatedIsUnambiguous(p, c);
    ValidatedIsUnambiguous(p.(repositories := rules), c);
    SameIdentity(p, rules, c);
  }

  /** `a` selects no more than `b`. */
  predicate Within(a: Selector, b: Selector) {
    b.None? || (a.Some? && forall v :: v in a.value ==> v in b.value)
  }

  predicate Narrower(a: Rule, b: Rule) {
    && a.ownerId == b.ownerId && (b.repositoryId == "*" || a.repositoryId == b.repositoryId)
    && Within(a.subjects, b.subjects) && Within(a.events, b.events) && Within(a.refs, b.refs)
    && Within(a.jobWorkflowRefs, b.jobWorkflowRefs) && Within(a.jobWorkflowShas, b.jobWorkflowShas)
  }

  lemma NarrowerMatchesLess(a: Rule, b: Rule, c: Claims)
    requires Narrower(a, b) && RuleMatchesV6(a, c)
    ensures RuleMatchesV6(b, c)
  {
  }

  /** Narrowing rules, for one by adding a selector, only narrows admission. */
  lemma NarrowingOnlyNarrows(p: Policy, rules: seq<Rule>, c: Claims)
    requires ValidV6(p) && ValidV6(p.(repositories := rules))
    requires forall a :: a in rules ==> exists b :: b in p.repositories && Narrower(a, b)
    requires AuthorizeV6(p.(repositories := rules), c).Ok?
    ensures AuthorizeV6(p, c) == AuthorizeV6(p.(repositories := rules), c)
  {
    hide RuleOkV6, Conflict, NumericIdentifier, IdentityV6, AuthorizeV6, ActorBundleOk, RuleMatchesV6, Narrower;
    ValidatedIsUnambiguous(p, c);
    ValidatedIsUnambiguous(p.(repositories := rules), c);
    SameIdentity(p, rules, c);
    var a :| a in rules && RuleMatchesV6(a, c);
    var b :| b in p.repositories && Narrower(a, b);
    NarrowerMatchesLess(a, b, c);
  }
}
