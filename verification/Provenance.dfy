/**
 Parsing of the signed GitHub provenance: repository names, Git refs, workflow references and subjects.
 Each accepted text has exactly one reading.
 */
module Provenance {
  import opened Wrappers
  import opened Text
  import opened GitHubClaims
  import Leases
  import opened Numbers

  const GITHUB_ISSUER := "https://token.actions.githubusercontent.com"
  const SEPARATOR := "/.github/workflows/"

  predicate IsSlugChar(c: char) {
    IsDigit(c) || IsUpper(c) || IsLower(c) || c == '-' || c == '_' || c == '.'
  }

  predicate AllSlugChars(s: string) {
    forall i :: 0 <= i < |s| ==> IsSlugChar(s[i])
  }

  predicate GitHubSlug(value: string) {
    0 < |value| <= 100 && value != "." && value != ".." && AllSlugChars(value)
  }

  /** `github_repository`: exactly two slugs around a slash. */
  predicate GitHubRepository(value: string) {
    var components := Split(value, '/');
    var owner := components[0];
    var repository := if |components| > 1 then components[1] else "";
    |components| <= 2 && GitHubSlug(owner) && GitHubSlug(repository) && repository != "." && repository != ".."
  }

  predicate GitSha1(value: string) {
    |value| == 40 && AllHex(value)
  }

  predicate IsForbiddenInRef(c: char) {
    c == '~' || c == '^' || c == ':' || c == '?' || c == '*' || c == '['
  }

  predicate LongerThan(value: string, prefix: string) {
    HasPrefix(value, prefix) && |value| > |prefix|
  }

  predicate ValidGitRef(value: string) {
    && BoundedGraphic(value, 2_048)
    && (LongerThan(value, "refs/heads/") || LongerThan(value, "refs/tags/") || LongerThan(value, "refs/pull/"))
    && !HasSuffix(value, "/") && !HasSuffix(value, ".")
    && !Contains(value, "..") && !Contains(value, "@{") && !Contains(value, "//") && '\\' !in value
    && (forall i :: 0 <= i < |value| ==> !IsForbiddenInRef(value[i]))
    && (forall part :: part in Split(value, '/') ==> !HasPrefix(part, ".") && !HasSuffix(part, ".lock"))
  }

  predicate WorkflowFile(file: string) {
    0 < |file| <= 255 && (HasSuffix(file, ".yml") || HasSuffix(file, ".yaml")) && AllSlugChars(file)
  }

  predicate WorkflowRevision(ref: string, resolvedSha: string) {
    ValidGitRef(ref) || (GitSha1(ref) && ref == resolvedSha)
  }

  /** `workflow_reference`: cut at the first separator and at the last `@`. */
  predicate WorkflowReference(value: string, expected: Option<string>, resolvedSha: string) {
    BoundedGraphic(value, 2_048) &&
    match SplitOnceAt(value, SEPARATOR)
    case None => false
    case Some((repository, workflowAndRef)) =>
      GitHubRepository(repository) && (expected.None? || expected.value == repository) &&
      match RSplitOnce(workflowAndRef, '@')
      case None => false
      case Some((workflow, ref)) => WorkflowFile(workflow) && WorkflowRevision(ref, resolvedSha)
  }

  // ----- repository names -----

  ghost predicate IsRepository(value: string, owner: string, name: string) {
    GitHubSlug(owner) && GitHubSlug(name) && value == owner + "/" + name
  }

  lemma SplitWithout(s: string, c: char)
    requires c !in s
    ensures Split(s, c) == [s]
  {
  }

  lemma SplitAround(a: string, c: char, b: string)
    requires c !in a
    ensures Split(a + [c] + b, c) == [a] + Split(b, c)
  {
    var s := a + [c] + b;
    assert s[|a|] == c;
    assert forall k :: 0 <= k < |a| ==> s[k] == a[k];
    assert IndexOf(s, c) == |a|;
    assert s[..|a|] == a && s[|a| + 1..] == b;
  }

  lemma SlugsMakeRepository(owner: string, name: string)
    requires GitHubSlug(owner) && GitHubSlug(name)
    ensures GitHubRepository(owner + "/" + name)
  {
    SplitAround(owner, '/', name);
    SplitWithout(name, '/');
    assert [owner] + [name] == [owner, name];
  }

  /** A text in two parts is its parts around the separator. */
  lemma TwoParts(s: string, c: char)
    requires |Split(s, c)| == 2
    ensures s == Split(s, c)[0] + [c] + Split(s, c)[1]
  {
  }

  lemma RepositoryHasSlugs(value: string) returns (owner: string, name: string)
    requires GitHubRepository(value)
    ensures IsRepository(value, owner, name)
  {
    hide GitHubSlug;
    assert !GitHubSlug("") by { EmptyIsNoSlug(); }
    TwoParts(value, '/');
    owner, name := Split(value, '/')[0], Split(value, '/')[1];
  }

  lemma EmptyIsNoSlug()
    ensures !GitHubSlug("")
  {
  }

  /** A repository name is accepted exactly when it is two slugs around one slash. */
  lemma RepositoryExactly(value: string)
    ensures GitHubRepository(value) <==> exists owner, name :: IsRepository(value, owner, name)
  {
    hide GitHubRepository, GitHubSlug;
    if owner, name :| IsRepository(value, owner, name) {
      SlugsMakeRepository(owner, name);
    }
    if GitHubRepository(value) {
      var owner, name := RepositoryHasSlugs(value);
    }
  }

  // ----- workflow references -----

  /** One reading of a workflow reference: repository, file, and a revision without `@`. */
  ghost predicate Reads(value: string, repository: string, file: string, ref: string, expected: Option<string>, resolvedSha: string) {
    && value == repository + SEPARATOR + file + "@" + ref
    && GitHubRepository(repository) && (expected.None? || expected.value == repository)
    && WorkflowFile(file) && WorkflowRevision(ref, resolvedSha) && '@' !in ref
  }

  /** The separator cannot start inside the repository name, not even when that name is `.github`. */
  lemma NoEarlierSeparator(repository: string, rest: string, i: nat)
    requires GitHubRepository(repository) && i < |repository|
    ensures !OccursAt(repository + SEPARATOR + rest, SEPARATOR, i)
  {
    hide GitHubRepository, OccursAt;
    var owner, name := RepositoryHasSlugs(repository);
    var value := repository + SEPARATOR + rest;
    assert forall k :: 0 <= k < |owner| ==> value[k] == owner[k];
    assert forall k :: 0 <= k < |name| ==> value[|owner| + 1 + k] == name[k];
    assert SEPARATOR[0] == '/' && SEPARATOR[1] == '.';
    assert value[|repository|] == '/' && value[|repository| + 1] == '.';
    if OccursAt(value, SEPARATOR, i) {
      SeparatorShape(value, i);
    }
  }

  /** Where the separator occurs there is a slash, seven other bytes, a slash and a `w`. */
  lemma SeparatorShape(value: string, i: nat)
    requires OccursAt(value, SEPARATOR, i)
    ensures |SEPARATOR| == 19 && i + 19 <= |value|
    ensures value[i] == '/' && value[i + 8] == '/' && value[i + 9] == 'w'
    ensures forall k :: i + 1 <= k < i + 8 ==> value[k] != '/'
  {
    SeparatorHead();
    assert SEPARATOR[0] == '/' && SEPARATOR[8] == '/' && SEPARATOR[9] == 'w';
    var window := value[i..i + |SEPARATOR|];
    assert value[i] == window[0] && value[i + 8] == window[8] && value[i + 9] == window[9];
    forall k | i + 1 <= k < i + 8 ensures value[k] != '/' {
      assert value[k] == window[k - i] == SEPARATOR[k - i];
    }
  }

  lemma SeparatorHead()
    ensures forall k :: 1 <= k < 8 ==> SEPARATOR[k] != '/'
  {
  }

  lemma SplitsAtRepository(repository: string, rest: string)
    requires GitHubRepository(repository)
    ensures SplitOnceAt(repository + SEPARATOR + rest, SEPARATOR) == Some((repository, rest))
  {
    hide GitHubRepository;
    var value := repository + SEPARATOR + rest;
    var i := FindFrom(value, SEPARATOR, 0);
    assert value[|repository|..|repository| + |SEPARATOR|] == SEPARATOR;
    assert OccursAt(value, SEPARATOR, |repository|);
    if 0 <= i < |repository| {
      NoEarlierSeparator(repository, rest, i);
    }
    assert i == |repository|;
    assert value[..i] == repository && value[i + |SEPARATOR|..] == rest;
  }

  lemma SplitsAtLastAt(file: string, ref: string)
    requires '@' !in ref
    ensures RSplitOnce(file + "@" + ref, '@') == Some((file, ref))
  {
    var value := file + "@" + ref;
    assert value[|file|] == '@';
    assert forall k :: |file| < k < |value| ==> value[k] == ref[k - |file| - 1];
    assert LastIndexOf(value, '@') == |file|;
    assert value[..|file|] == file && value[|file| + 1..] == ref;
  }

  lemma ReadingIsAccepted(value: string, repository: string, file: string, ref: string, expected: Option<string>, sha: string)
    requires BoundedGraphic(value, 2_048) && Reads(value, repository, file, ref, expected, sha)
    ensures WorkflowReference(value, expected, sha)
  {
    hide GitHubRepository, WorkflowFile, WorkflowRevision, SplitOnceAt, RSplitOnce, BoundedGraphic;
    assert value == repository + SEPARATOR + (file + "@" + ref);
    SplitsAtRepository(repository, file + "@" + ref);
    SplitsAtLastAt(file, ref);
  }

  lemma AcceptedHasReading(value: string, expected: Option<string>, sha: string)
    returns (repository: string, file: string, ref: string)
    requires WorkflowReference(value, expected, sha)
    ensures Reads(value, repository, file, ref, expected, sha)
  {
    hide GitHubRepository, WorkflowFile, WorkflowRevision, BoundedGraphic, SplitOnceAt, RSplitOnce;
    var parts := SplitOnceAt(value, SEPARATOR).value;
    SplitOnceAtJoins(value, SEPARATOR);
    var tail := RSplitOnce(parts.1, '@').value;
    RSplitOnceJoins(parts.1, '@');
    repository, file, ref := parts.0, tail.0, tail.1;
    assert repository + SEPARATOR + (file + "@" + ref) == repository + SEPARATOR + file + "@" + ref;
  }

  /** A workflow reference is accepted exactly when it has a reading. */
  lemma WorkflowExactly(value: string, expected: Option<string>, resolvedSha: string)
    ensures WorkflowReference(value, expected, resolvedSha) <==>
            BoundedGraphic(value, 2_048) &&
            exists repository, file, ref :: Reads(value, repository, file, ref, expected, resolvedSha)
  {
    hide Reads, BoundedGraphic;
    if BoundedGraphic(value, 2_048) {
      if repository, file, ref :| Reads(value, repository, file, ref, expected, resolvedSha) {
        ReadingIsAccepted(value, repository, file, ref, expected, resolvedSha);
      }
    }
    if WorkflowReference(value, expected, resolvedSha) {
      var repository, file, ref := AcceptedHasReading(value, expected, resolvedSha);
    }
  }

  /** A text has at most one reading. */
  lemma ReadingIsUnique(value: string, expected: Option<string>, sha: string, r1: string, f1: string, g1: string, r2: string, f2: string, g2: string)
    requires Reads(value, r1, f1, g1, expected, sha) && Reads(value, r2, f2, g2, expected, sha)
    ensures r1 == r2 && f1 == f2 && g1 == g2
  {
    hide GitHubRepository, WorkflowFile, WorkflowRevision, SplitOnceAt, RSplitOnce;
    assert value == r1 + SEPARATOR + (f1 + "@" + g1) && value == r2 + SEPARATOR + (f2 + "@" + g2);
    SplitsAtRepository(r1, f1 + "@" + g1);
    SplitsAtRepository(r2, f2 + "@" + g2);
    SplitsAtLastAt(f1, g1);
    SplitsAtLastAt(f2, g2);
  }

  // ----- subjects -----

  function StandardPrefix(c: Claims): string {
    "repo:" + c.repository + ":"
  }

  function NumericPrefix(owner: string, name: string, c: Claims): string {
    "repo:" + owner + "@" + c.ownerId + "/" + name + "@" + c.repositoryId + ":"
  }

  /** What follows the repository part of the subject, in whichever form it is written. */
  function SubjectSuffix(c: Claims): Option<string> {
    match SplitOnce(c.repository, '/')
    case None => None
    case Some((owner, name)) =>
      match StripPrefix(c.sub, StandardPrefix(c))
      case Some(suffix) => Some(suffix)
      case None => StripPrefix(c.sub, NumericPrefix(owner, name, c))
  }

  /** What the Git ref must be for a subject with this suffix. */
  predicate SuffixConsistent(suffix: string, gitRef: string) {
    && BoundedGraphic(suffix, 1_024)
    && (HasPrefix(suffix, "ref:") ==> suffix[4..] == gitRef)
    && (suffix == "pull_request" ==> HasPrefix(gitRef, "refs/pull/") && HasSuffix(gitRef, "/merge"))
  }

  predicate ProvenanceConsistent(c: Claims) {
    match SubjectSuffix(c)
    case None => false
    case Some(suffix) =>
      && SuffixConsistent(suffix, c.gitRef)
      && WorkflowReference(c.workflowRef, Some(c.repository), c.workflowSha)
      && WorkflowReference(c.jobWorkflowRef, None, c.jobWorkflowSha)
  }

  predicate IsExactly(aud: Audience, expected: string) {
    match aud
    case One(name) => name == expected
    case Many(names) => names == [expected]
    case Missing => false
  }

  /** Every check of `verify` on the claims of a signed assertion, at a clock reading. */
  predicate Verified(c: Claims, audience: string, reading: Leases.Instant) {
    && c.iss == GITHUB_ISSUER && IsExactly(c.aud, audience)
    && Leases.TimesAccepted(Leases.GitHub, Leases.Times(c.exp, c.iat, Some(c.nbf)), Leases.WholeSeconds(reading))
    && c.sub != "" && c.jti != ""
    && NumericIdentifier(c.actorId) && BoundedGraphic(c.actor, 128)
    && Accepted(c)
    && GitSha1(c.sha) && NumericIdentifier(c.runId) && c.runAttempt != 0
    && BoundedGraphic(c.workflowRef, 2_048) && GitSha1(c.workflowSha)
    && BoundedGraphic(c.jobWorkflowRef, 2_048) && GitSha1(c.jobWorkflowSha)
    && BoundedGraphic(c.eventName, 255)
    && ValidGitRef(c.gitRef)
  }

  /** Those on which reading a subject relies. */
  predicate Accepted(c: Claims) {
    && GitHubRepository(c.repository)
    && NumericIdentifier(c.ownerId) && NumericIdentifier(c.repositoryId)
    && ProvenanceConsistent(c)
  }

  /** The repository part of a subject: the name, or the name with both numeric IDs. */
  datatype Body = Named(repository: string) | Numbered(owner: string, ownerId: string, name: string, repositoryId: string)

  function BodyText(body: Body): string {
    match body
    case Named(repository) => repository
    case Numbered(owner, ownerId, name, repositoryId) => owner + "@" + ownerId + ("/" + (name + "@" + repositoryId))
  }

  ghost predicate BodyOk(body: Body) {
    match body
    case Named(repository) => GitHubRepository(repository)
    case Numbered(owner, ownerId, name, repositoryId) =>
      GitHubSlug(owner) && GitHubSlug(name) && NumericIdentifier(ownerId) && NumericIdentifier(repositoryId)
  }

  function RepositoryOf(body: Body): string {
    match body
    case Named(repository) => repository
    case Numbered(owner, _, name, _) => owner + "/" + name
  }

  lemma RepositoryChars(repository: string)
    requires GitHubRepository(repository)
    ensures ':' !in repository && '@' !in repository
  {
    hide GitHubRepository;
    var owner, name := RepositoryHasSlugs(repository);
    forall k | 0 <= k < |repository| ensures repository[k] != ':' && repository[k] != '@' {
      assert k < |owner| ==> repository[k] == owner[k];
      assert k > |owner| ==> repository[k] == name[k - |owner| - 1];
    }
  }

  lemma BodyHasNoColon(body: Body)
    requires BodyOk(body)
    ensures ':' !in BodyText(body)
  {
    match body {
      case Named(repository) => RepositoryChars(repository);
      case Numbered(owner, ownerId, name, repositoryId) =>
    }
  }

  /** The two forms never coincide, and each determines its parts. */
  lemma BodyIsUnique(a: Body, b: Body)
    requires BodyOk(a) && BodyOk(b) && BodyText(a) == BodyText(b)
    ensures a == b
  {
    if a.Numbered? && b.Numbered? {
      NumberedIsUnique(a, b);
    } else {
      if a.Named? { RepositoryChars(a.repository); } else { NumberedHasAt(a); }
      if b.Named? { RepositoryChars(b.repository); } else { NumberedHasAt(b); }
    }
  }

  lemma NumberedHasAt(body: Body)
    requires body.Numbered?
    ensures '@' in BodyText(body)
  {
  }

  lemma NumberedIsUnique(a: Body, b: Body)
    requires a.Numbered? && b.Numbered? && BodyOk(a) && BodyOk(b) && BodyText(a) == BodyText(b)
    ensures a == b
  {
    var left, right := a.owner + "@" + a.ownerId, b.owner + "@" + b.ownerId;
    var x, y := a.name + "@" + a.repositoryId, b.name + "@" + b.repositoryId;
    assert '/' !in left && '/' !in right;
    assert BodyText(a) == left + ['/'] + x && BodyText(b) == right + ['/'] + y;
    SplitIsUnique(left, right, '/', x, y);
    assert a.owner + ['@'] + a.ownerId == b.owner + ['@'] + b.ownerId;
    SplitIsUnique(a.owner, b.owner, '@', a.ownerId, b.ownerId);
    assert a.name + ['@'] + a.repositoryId == b.name + ['@'] + b.repositoryId;
    SplitIsUnique(a.name, b.name, '@', a.repositoryId, b.repositoryId);
  }

  /** An accepted subject is `repo:`, a body for the claimed repository, a colon, and the suffix. */
  lemma SubjectHasBody(c: Claims) returns (body: Body)
    requires Accepted(c)
    ensures BodyOk(body) && RepositoryOf(body) == c.repository
    ensures body.Numbered? ==> body.ownerId == c.ownerId && body.repositoryId == c.repositoryId
    ensures c.sub == "repo:" + (BodyText(body) + [':'] + SubjectSuffix(c).value)
  {
    hide WorkflowReference, NumericIdentifier, GitHubRepository, GitHubSlug, BoundedGraphic, SplitOnce;
    var owner, name := RepositoryHasSlugs(c.repository);
    assert c.repository == owner + ['/'] + name;
    SplitAtSlash(owner, name);
    if HasPrefix(c.sub, StandardPrefix(c)) {
      body := Named(c.repository);
      PrefixAndRest(c.sub, "repo:", c.repository);
    } else {
      body := Numbered(owner, c.ownerId, name, c.repositoryId);
      assert NumericPrefix(owner, name, c) == "repo:" + BodyText(body) + ":";
      PrefixAndRest(c.sub, "repo:", BodyText(body));
    }
  }

  lemma PrefixAndRest(s: string, head: string, body: string)
    requires HasPrefix(s, head + body + ":")
    ensures s == head + (body + [':'] + s[|head + body + ":"|..])
  {
  }

  lemma SplitAtSlash(owner: string, name: string)
    requires GitHubSlug(owner)
    ensures SplitOnce(owner + ['/'] + name, '/') == Some((owner, name))
  {
    var s := owner + ['/'] + name;
    assert s[|owner|] == '/';
    assert forall k :: 0 <= k < |owner| ==> s[k] == owner[k];
    assert IndexOf(s, '/') == |owner|;
    assert s[..|owner|] == owner && s[|owner| + 1..] == name;
  }

  predicate InNumericForm(c: Claims) {
    !HasPrefix(c.sub, StandardPrefix(c))
  }

  /** The subject names the claimed repository in one of the two forms, and then the suffix. */
  ghost predicate SubjectReads(c: Claims, body: Body, suffix: string) {
    RepositoryOf(body) == c.repository && SubjectText(c.sub, c.ownerId, c.repositoryId, body, suffix)
  }

  /** The text is a subject with this body, which has these IDs if it has any, and this suffix. */
  ghost predicate SubjectText(sub: string, ownerId: string, repositoryId: string, body: Body, suffix: string) {
    && BodyOk(body)
    && (body.Numbered? ==> body.ownerId == ownerId && body.repositoryId == repositoryId)
    && sub == "repo:" + (BodyText(body) + [':'] + suffix)
  }

  lemma SuffixOfReading(c: Claims, body: Body, suffix: string)
    requires GitHubRepository(c.repository) && SubjectReads(c, body, suffix)
    ensures SubjectSuffix(c) == Some(suffix)
  {
    hide GitHubRepository, GitHubSlug, NumericIdentifier, SplitOnce, HasPrefix, StripPrefix, StandardPrefix, NumericPrefix, BodyText;
    FormOfBody(c, body, suffix);
    var owner, name := RepositoryHasSlugs(c.repository);
    assert c.repository == owner + ['/'] + name;
    SplitAtSlash(owner, name);
    NotPrefixed(c);
    if body.Named? {
      NamedText(c, body, suffix);
      StripsPrefix(StandardPrefix(c), suffix);
    } else {
      assert c.repository == body.owner + ['/'] + body.name;
      SplitAtSlash(body.owner, body.name);
      NumberedText(c, body, suffix);
      StripsPrefix(NumericPrefix(owner, name, c), suffix);
    }
  }

  lemma NotPrefixed(c: Claims)
    ensures InNumericForm(c) ==> StripPrefix(c.sub, StandardPrefix(c)) == None
  {
  }

  lemma NamedText(c: Claims, body: Body, suffix: string)
    requires body == Named(c.repository)
    ensures "repo:" + (BodyText(body) + [':'] + suffix) == StandardPrefix(c) + suffix
  {
  }

  lemma NumberedText(c: Claims, body: Body, suffix: string)
    requires body.Numbered? && body.ownerId == c.ownerId && body.repositoryId == c.repositoryId
    ensures "repo:" + (BodyText(body) + [':'] + suffix) == NumericPrefix(body.owner, body.name, c) + suffix
  {
    assert NumericPrefix(body.owner, body.name, c) == "repo:" + BodyText(body) + ":";
  }

  /** Provenance is consistent exactly when the subject has a consistent reading and both workflow references have one. */
  lemma ProvenanceExactly(c: Claims)
    requires GitHubRepository(c.repository) && NumericIdentifier(c.ownerId) && NumericIdentifier(c.repositoryId)
    ensures ProvenanceConsistent(c) <==>
            && (exists body, suffix :: SubjectReads(c, body, suffix) && SuffixConsistent(suffix, c.gitRef))
            && WorkflowReference(c.workflowRef, Some(c.repository), c.workflowSha)
            && WorkflowReference(c.jobWorkflowRef, None, c.jobWorkflowSha)
  {
    hide GitHubRepository, NumericIdentifier, WorkflowReference, SubjectSuffix, BoundedGraphic;
    if ProvenanceConsistent(c) {
      var body := SubjectHasBody(c);
      assert SubjectReads(c, body, SubjectSuffix(c).value) && SuffixConsistent(SubjectSuffix(c).value, c.gitRef);
    } else if body, suffix :| SubjectReads(c, body, suffix) && SuffixConsistent(suffix, c.gitRef) {
      SuffixOfReading(c, body, suffix);
    }
  }

  /**
   One subject is accepted for one repository only; in numeric form for one pair of IDs; and a `ref:`
   subject for one Git ref.
   */
  lemma SubjectDetermines(c: Claims, d: Claims)
    requires Accepted(c) && Accepted(d) && c.sub == d.sub
    ensures c.repository == d.repository
    ensures InNumericForm(c) == InNumericForm(d)
    ensures InNumericForm(c) ==> c.ownerId == d.ownerId && c.repositoryId == d.repositoryId
    ensures SubjectSuffix(c) == SubjectSuffix(d)
    ensures HasPrefix(SubjectSuffix(c).value, "ref:") ==> c.gitRef == d.gitRef
  {
    hide GitHubRepository, NumericIdentifier, WorkflowReference, SubjectSuffix;
    var a := SubjectHasBody(c);
    var b := SubjectHasBody(d);
    BodyHasNoColon(a);
    BodyHasNoColon(b);
    var x, y := SubjectSuffix(c).value, SubjectSuffix(d).value;
    assert c.sub[5..] == BodyText(a) + [':'] + x && d.sub[5..] == BodyText(b) + [':'] + y;
    SplitIsUnique(BodyText(a), BodyText(b), ':', x, y);
    BodyIsUnique(a, b);
    FormOfBody(c, a, x);
  }

  lemma FormOfBody(c: Claims, body: Body, suffix: string)
    requires BodyOk(body) && RepositoryOf(body) == c.repository && GitHubRepository(c.repository)
    requires c.sub == "repo:" + (BodyText(body) + [':'] + suffix)
    ensures InNumericForm(c) == body.Numbered?
  {
    hide GitHubRepository, GitHubSlug, NumericIdentifier;
    if body.Named? {
      assert c.sub == StandardPrefix(c) + suffix;
    } else {
      BodyHasNoColon(body);
      RepositoryChars(c.repository);
      NumberedHasAt(body);
      if HasPrefix(c.sub, StandardPrefix(c)) {
        PrefixAndRest(c.sub, "repo:", c.repository);
        var rest := c.sub[|StandardPrefix(c)|..];
        assert c.sub[5..] == c.repository + [':'] + rest && c.sub[5..] == BodyText(body) + [':'] + suffix;
        SplitIsUnique(c.repository, BodyText(body), ':', rest, suffix);
      }
    }
  }

  // ----- which requests can reach the policy -----

  /** Some verified assertion carries this subject, event and ref for the repository with these IDs. */
  ghost predicate Requestable(ownerId: string, repositoryId: string, sub: string, event: string, ref: string) {
    && NumericIdentifier(ownerId) && NumericIdentifier(repositoryId)
    && BoundedGraphic(event, 255) && ValidGitRef(ref)
    && exists body, suffix :: SubjectText(sub, ownerId, repositoryId, body, suffix) && SuffixConsistent(suffix, ref)
  }

  const ANY_SHA := "0000000000000000000000000000000000000000"

  function AnyWorkflow(repository: string): string {
    repository + SEPARATOR + "ci.yml" + "@" + ANY_SHA
  }

  lemma AnyWorkflowIsAccepted(repository: string, expected: Option<string>)
    requires GitHubRepository(repository) && (expected.None? || expected.value == repository)
    ensures BoundedGraphic(AnyWorkflow(repository), 2_048)
    ensures WorkflowReference(AnyWorkflow(repository), expected, ANY_SHA)
  {
    hide GitHubRepository, GitHubSlug, WorkflowReference;
    AnyWorkflowIsGraphic(repository);
    AnyFile();
    assert Reads(AnyWorkflow(repository), repository, "ci.yml", ANY_SHA, expected, ANY_SHA);
    ReadingIsAccepted(AnyWorkflow(repository), repository, "ci.yml", ANY_SHA, expected, ANY_SHA);
  }

  lemma AnyFile()
    ensures WorkflowFile("ci.yml") && GitSha1(ANY_SHA)
  {
    assert "ci.yml"[2..] == ".yml";
  }

  lemma AnyWorkflowIsGraphic(repository: string)
    requires GitHubRepository(repository)
    ensures BoundedGraphic(AnyWorkflow(repository), 2_048)
  {
    hide GitHubRepository;
    var owner, name := RepositoryHasSlugs(repository);
    GraphicParts(owner + "/", name);
    hide AllGraphic, GitHubSlug;
    WorkflowPartsAreGraphic();
    GraphicParts(repository, SEPARATOR);
    GraphicParts(repository + SEPARATOR, "ci.yml");
    GraphicParts(repository + SEPARATOR + "ci.yml", "@");
    GraphicParts(repository + SEPARATOR + "ci.yml" + "@", ANY_SHA);
    assert |repository| <= 201 by { SlugsAreShort(owner, name); }
  }

  lemma WorkflowPartsAreGraphic()
    ensures AllGraphic(SEPARATOR) && AllGraphic("ci.yml") && AllGraphic("@") && AllGraphic(ANY_SHA)
  {
  }

  lemma SlugsAreShort(owner: string, name: string)
    requires GitHubSlug(owner) && GitHubSlug(name)
    ensures |owner + "/" + name| <= 201
  {
  }

  lemma GraphicParts(a: string, b: string)
    requires AllGraphic(a) && AllGraphic(b)
    ensures AllGraphic(a + b)
  {
  }

  lemma RepositoryOfBody(body: Body)
    requires BodyOk(body)
    ensures GitHubRepository(RepositoryOf(body))
  {
    hide GitHubRepository;
    if body.Numbered? {
      SlugsMakeRepository(body.owner, body.name);
    }
  }

  function RequestFor(ownerId: string, repositoryId: string, sub: string, event: string, ref: string,
                      repository: string, audience: string, now: Seconds): Claims {
    Claims(GITHUB_ISSUER, sub, One(audience), now + 60, now, now, "jti", "7", "octocat", repository, repositoryId, ownerId,
           ANY_SHA, "1", 1, AnyWorkflow(repository), ANY_SHA, AnyWorkflow(repository), ANY_SHA, event, ref)
  }

  /** Whatever is requestable is requested by some assertion that verifies at a plausible clock reading. */
  lemma RequestableIsVerified(ownerId: string, repositoryId: string, sub: string, event: string, ref: string,
                              audience: string, reading: Leases.Instant) returns (c: Claims)
    requires Leases.PlausibleClock(reading)
    requires Requestable(ownerId, repositoryId, sub, event, ref)
    ensures Verified(c, audience, reading)
    ensures c.ownerId == ownerId && c.repositoryId == repositoryId && c.sub == sub && c.eventName == event && c.gitRef == ref
    ensures c.actorId == "7"
  {
    hide GitHubRepository, NumericIdentifier, WorkflowReference, BoundedGraphic, ValidGitRef, BodyOk, BodyText, SuffixConsistent;
    hide ProvenanceConsistent, GitSha1;
    var body, suffix :| SubjectText(sub, ownerId, repositoryId, body, suffix) && SuffixConsistent(suffix, ref);
    RepositoryOfBody(body);
    c := RequestFor(ownerId, repositoryId, sub, event, ref, RepositoryOf(body), audience, Leases.WholeSeconds(reading));
    AnyFile();
    ExampleNumbers();
    AnyWorkflowIsAccepted(c.repository, None);
    AnyWorkflowIsAccepted(c.repository, Some(c.repository));
    assert SubjectReads(c, body, suffix);
    ProvenanceExactly(c);
    ExampleTimes(reading);
  }

  lemma ExampleNumbers()
    ensures NumericIdentifier("7") && NumericIdentifier("1") && BoundedGraphic("octocat", 128)
  {
  }

  lemma ExampleTimes(reading: Leases.Instant)
    requires Leases.PlausibleClock(reading)
    ensures var now := Leases.WholeSeconds(reading);
            Leases.TimesAccepted(Leases.GitHub, Leases.Times(now + 60, now, Some(now)), now)
  {
  }

  /** Only what is requestable is ever verified. */
  lemma VerifiedIsRequestable(c: Claims, audience: string, reading: Leases.Instant)
    requires Verified(c, audience, reading)
    ensures Requestable(c.ownerId, c.repositoryId, c.sub, c.eventName, c.gitRef)
  {
    hide GitHubRepository, NumericIdentifier, WorkflowReference, BoundedGraphic, ValidGitRef, BodyOk, BodyText, SuffixConsistent;
    ProvenanceExactly(c);
  }

  /** A push to `main` of repository `o/r`. */
  lemma MainBranchIsRequestable()
    ensures Requestable("1", "2", "repo:o/r:ref:refs/heads/main", "push", "refs/heads/main")
  {
    hide ValidGitRef, GitHubRepository, AllGraphic, SuffixConsistent;
    var body, suffix := Named("o/r"), "ref:refs/heads/main";
    MainIsValidRef();
    SlugsMakeRepository("o", "r");
    assert "o" + "/" + "r" == "o/r";
    hide GitHubSlug, BoundedGraphic;
    MainSubject();
    assert SubjectText("repo:o/r:ref:refs/heads/main", "1", "2", body, suffix);
    MainSuffix();
    PushIsEvent();
    IdsAreNumeric();
  }

  lemma IdsAreNumeric()
    ensures NumericIdentifier("1") && NumericIdentifier("2")
  {
  }

  lemma MainSubject()
    ensures "repo:" + (BodyText(Named("o/r")) + [':'] + "ref:refs/heads/main") == "repo:o/r:ref:refs/heads/main"
  {
  }

  lemma PushIsEvent()
    ensures BoundedGraphic("push", 255)
  {
  }

  lemma MainSuffix()
    ensures SuffixConsistent("ref:refs/heads/main", "refs/heads/main")
  {
    var suffix, ref := "ref:refs/heads/main", "refs/heads/main";
    MainIsPlain();
    hide AllGraphic;
    assert suffix == "ref:" + ref && suffix[4..] == ref && |suffix| == 19;
    assert AllGraphic("ref:") by { RefIsGraphic(); }
    GraphicParts("ref:", ref);
  }

  lemma RefIsGraphic()
    ensures AllGraphic("ref:")
  {
  }

  lemma MainIsValidRef()
    ensures ValidGitRef("refs/heads/main")
  {
    hide Contains, Split, HasSuffix;
    var ref := "refs/heads/main";
    assert ref[..11] == "refs/heads/";
    MainIsPlain();
    PlainHasNoForbidden(ref);
    PlainHasNoHiddenParts(ref);
  }

  /** Lower-case letters, with single slashes inside. */
  predicate IsPlain(value: string) {
    && value != "" && value[|value| - 1] != '/'
    && (forall i :: 0 <= i < |value| ==> IsLower(value[i]) || value[i] == '/')
    && (forall i :: 0 <= i < |value| - 1 ==> value[i] != '/' || value[i + 1] != '/')
  }

  lemma MainIsPlain()
    ensures IsPlain("refs/heads/main") && AllGraphic("refs/heads/main")
  {
    var ref := "refs/heads/main";
    assert ref[0] == 'r' && ref[1] == 'e' && ref[2] == 'f' && ref[3] == 's' && ref[4] == '/';
    assert ref[5] == 'h' && ref[6] == 'e' && ref[7] == 'a' && ref[8] == 'd' && ref[9] == 's' && ref[10] == '/';
    assert ref[11] == 'm' && ref[12] == 'a' && ref[13] == 'i' && ref[14] == 'n' && |ref| == 15;
  }

  lemma PlainHasNoForbidden(value: string)
    requires IsPlain(value)
    ensures !HasSuffix(value, "/") && !HasSuffix(value, ".")
    ensures !Contains(value, "..") && !Contains(value, "@{") && !Contains(value, "//") && '\\' !in value
    ensures forall i :: 0 <= i < |value| ==> !IsForbiddenInRef(value[i])
  {
    var last := value[|value| - 1..];
    assert last[0] != '/' && last[0] != '.';
    forall i | 0 <= i <= |value| ensures !OccursAt(value, "..", i) && !OccursAt(value, "@{", i) && !OccursAt(value, "//", i) {
      if i <= |value| - 2 {
        var pair := value[i..i + 2];
        assert pair[0] == value[i] && pair[1] == value[i + 1];
        assert ".."[0] == '.' && "@{"[0] == '@' && "//"[0] == '/' && "//"[1] == '/';
      }
    }
  }

  /** A byte of a part is a byte of the text. */
  lemma {:induction false} PartsAreInside(s: string, c: char, part: string, k: nat)
    requires part in Split(s, c) && k < |part|
    ensures part[k] in s
    decreases |s|
  {
    var i := IndexOf(s, c);
    if i < |s| && part != s[..i] {
      PartsAreInside(s[i + 1..], c, part, k);
    }
  }

  lemma PlainHasNoHiddenParts(value: string)
    requires IsPlain(value)
    ensures forall part :: part in Split(value, '/') ==> !HasPrefix(part, ".") && !HasSuffix(part, ".lock")
  {
    hide Split;
    forall part | part in Split(value, '/') ensures !HasPrefix(part, ".") && !HasSuffix(part, ".lock") {
      if HasPrefix(part, ".") {
        assert part[0] == part[..1][0] == '.';
        PartsAreInside(value, '/', part, 0);
      }
      if HasSuffix(part, ".lock") {
        var k := |part| - 5;
        assert part[k] == part[k..][0] == '.';
        PartsAreInside(value, '/', part, k);
      }
    }
  }
}
