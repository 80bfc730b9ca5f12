# Verification model of the identity exchange

This project models the parts of the exchange service that decide whether a signed assertion is turned into a
short-lived token, and proves what those parts promise. It is one Dafny project: `dafny verify dfyconfig.toml`
checks all of it.

## What is modelled

**Replay ledger.** `LedgerProtocol` is the distributed protocol: any number of exchange calls on any number of
replicas run against one Lease store, one API request per step. Reads may be stale, a request may fail, have its
response lost, arrive late or arrive twice, list pages hold anything, clocks read anything, and other clients may
write records that are not ledger records. `LedgerSafety` proves the invariant of every run; `OneTimeUse` draws the
consequences for tokens. `LedgerClient` is the client as the object it is (`use_once`, `reclaim_expired`,
`cleanup_one` with their loops): each of its requests is one step of the protocol, and its method `Interfere`, of
which callers know only the contract, stands for any steps of others in between. For a replica that is alone on a
working server the same methods are proved equal to the functions of `Cleanup`, about which progress is proved;
`Uses` proves what single uses and sequences of them do to the stored records.
`Leases` holds the time arithmetic, in integer nanoseconds.

**Signing-key cache.** `Jwks` treats the cache of both verifiers as a machine of refresh events taken under the
refresh lock; `Verifiers` holds the two verifier objects, whose methods are proved to be those events.

**Policies.** `Policy` and `PolicyV5` hold the GitHub policy, `OidcPolicy` the generic one: loop-based validators are
proved equal to pairwise conditions, and the authorizers are judged against those.

**Encodings and parsers.** `Encoding` (length-prefixed replay identities), `Decimal` (`numeric_string`),
`Provenance` (repositories, workflow references, subjects).

**Keys.** `KeyRings` (loader, signing window, readiness, published list), `KeyringTool` (the command-line tool).

**Exchanges.** `Accounting` holds the counters under all interleavings of atomic additions, including exchanges that
are dropped because their client goes away. `Services` holds the exchange as a program over the ledger client: it is
proved both to make exactly the additions its outcome owes and to hand out a token exactly when the ledger's protocol
records one as issued.

`Text`, `Sorting`, `Numbers`, `GitHubClaims`, `OidcClaims` and `Wrappers` are shared vocabulary. SHA-256, URL checks and the decoding of keys are function
parameters; nothing is assumed about them unless a lemma says so in its `requires`.

Five results differ from a first reading of the code:

* One-time use holds exactly up to 268 s of clock error plus call delay, not 269 s. The JWT library compares whole
  seconds, so an assertion is accepted up to the end of second `exp + 30`; the record of an assertion expires no
  earlier than `exp + 299 s`. A generic OIDC assertion is not accepted after `exp`, which leaves 299 s.
  `OneTimeUse.OneTimeUseExactly` proves both directions for both.
* A call in the very last second that `retained_until` allows, at a fraction of that second, writes a record of
  length zero, which never expires. It is never cleaned up and its name is refused for ever
  (`Leases.PerpetualExactly`, `Leases.PerpetualIsWritten`, `Cleanup.PerpetualBlocksForEver`,
  `OneTimeUse.PerpetualIsForEver`).
* Cleanup keeps up only while the records it makes room for do not expire themselves. If no record written expires
  before the last use, sufficiently many accepted uses clear every record that was expired at first
  (`Uses.UsesClear`). Without that an old record can stay: with a use every 1,000 s and a server that lists it last,
  each cleanup deletes the record of the use before instead (`Uses.OldRecordStarves`).
* The rate limiters of the key cache work only while the clock shows positive times (`Jwks.LimiterExactly`).
* A validated version 5 policy may contain two different rules that match one request, which is then denied although
  each rule alone admits it. `PolicyV5.AmbiguousExactly` gives the exact condition over verified assertions,
  `PolicyV5.ValidatedV5MayDenyWhatEachRuleAdmits` an example. Version 6 policies cannot (`Policy.ValidatedIsUnambiguous`).

## Model

| member | source | states |
|---|---|---|
| Leases.StoredExpiry | src/replay.rs:419-446 | Every record written is owned, at most 960 s long, stores its time cut to microseconds, and expires within [exp + 299 s, exp + 300 s] |
| Leases.LeaseForExactly | src/replay.rs:514-525 | A record is written exactly when 1 to 960 whole seconds are left until 300 s after expiry and all times are representable; else the call is unavailable |
| Leases.LeaseLength | src/replay.rs:425-429 | Its length is what is left, cut to whole seconds, and its time is the call's, cut to microseconds |
| Leases.PerpetualExactly | src/replay.rs:527-537 | A written record never expires if and only if it was made at a fraction of the last second still allowed |
| Leases.PerpetualIsWritten | src/replay.rs:514-537 | Such a record is written, at a concrete input |
| Leases.AcceptedAssertionIsLeased | src/replay.rs:514-525 | Every assertion passing the GitHub or generic time checks gets a record of positive length, at most 960 s, without overflow, within the stated lag of the two clock readings |
| Leases.LeasedExactly | src/github.rs:180-198 | That lag window is exact: all accepted GitHub assertions are leased if and only if the readings lie within it |
| LedgerSafety.EndKeeps | src/replay.rs:221-251 | Ending a record its reader saw expired keeps the store invariant: current records are newest, owned ones stay until ended |
| LedgerSafety.WriteKeeps | src/replay.rs:167-182 | Storing the next record of a name keeps the store invariant once the name's owned records have ended |
| LedgerSafety.CreateKeeps | src/replay.rs:167-182 | A create request keeps the store invariant and forgets nothing, whether the name is taken or not |
| LedgerSafety.UpdateKeeps | src/replay.rs:204-219 | A conditional update keeps the store invariant if its version was read as expired |
| LedgerSafety.DeleteKeeps | src/replay.rs:328-345 | A conditional delete keeps the store invariant if its version was read as expired |
| LedgerSafety.GrowthKeepsCalls | src/replay.rs:253-290 | Whatever others do to the store, what each call has read and won stays true |
| LedgerSafety.OnCreateKeeps | src/replay.rs:354-370 | A create response keeps the invariant of the protocol: the call wins a version only if it wrote it |
| LedgerSafety.OnReplaceKeeps | src/replay.rs:242-247 | An update response keeps it: of racing calls only the one whose version still stood wins |
| LedgerSafety.OnReadKeeps | src/replay.rs:228-241 | A read response keeps it: a call goes on to replace or delete only a version it saw expired |
| LedgerSafety.StepKeeps | src/replay.rs:221-290 | Every step of every call, late request, other client or clock keeps the invariant |
| LedgerSafety.RunKeeps | src/replay.rs:354-370 | Every reachable state of every interleaving satisfies the invariant |
| LedgerSafety.AcceptancesAreSeparated | src/replay.rs:354-370 | Two accepted calls for one name are separated by a step that had read a time at which the first record was expired, before the second was written |
| OneTimeUse.RacersNeverBothWin | src/replay.rs:221-251 | Two calls that replaced the same expired record are the same call |
| OneTimeUse.OnlyExpiredRecordsEnd | src/replay.rs:527-546 | Ledger frame: a record stops being current only by another client when it is not owned, or by a ledger step that names this version and had read it owned and expired |
| OneTimeUse.VersionsAreImmutable | src/replay.rs:204-219 | Stored content is never changed in place, and a step stores at most one record |
| OneTimeUse.CreateAnswers | src/replay.rs:358-369 | What each answer to a create leads to: accepted with the record stored, on to reclaiming, or unavailable |
| OneTimeUse.ReadAnswers | src/replay.rs:228-241 | What each answer to a read leads to: a replay for a record that is not over, else creation, replacement or unavailability |
| OneTimeUse.ReplaceAnswers | src/replay.rs:244-249 | What each answer to an update leads to: accepted with the record stored, one more read after the first conflict, or unavailable |
| OneTimeUse.ReplayedMeansLive | src/replay.rs:234-236 | In every run a call refused as a replay had read a record of its name that was not over at its reading |
| OneTimeUse.SecondAcceptance | src/github.rs:180-198 | A second acceptance of a name needs an assertion still accepted after the first record expired, up to clock error and delay |
| OneTimeUse.OneTokenPerAssertion | src/service.rs:220-266 | At most one token is issued per assertion in every run whose clock error plus delay is within 268 s (299 s for generic OIDC) |
| OneTimeUse.OverTheLimit | src/replay.rs:514-537 | For every larger budget a reachable state exists in which one assertion, of either kind, was issued two tokens |
| OneTimeUse.OneTimeUseExactly | src/github.rs:180-198 | Two tokens for one assertion are reachable if and only if the budget exceeds 268 s (GitHub) or 299 s (generic OIDC) |
| OneTimeUse.PerpetualIsForEver | src/replay.rs:527-537 | A record that never expires stays current in every continuation of every run |
| OneTimeUse.PerpetualIsLast | src/replay.rs:221-251 | After a call that wrote such a record no other call for its name is accepted |
| LedgerClient.KubernetesLeaseReplayLedger.Create | src/replay.rs:167-182 | Create is one protocol step; alone, it stores the record exactly when the name is free and says so |
| LedgerClient.KubernetesLeaseReplayLedger.Get | src/replay.rs:184-202 | Get is one protocol step that may see any version ever stored; alone, it returns the stored record |
| LedgerClient.KubernetesLeaseReplayLedger.Update | src/replay.rs:204-219 | Update is one protocol step; alone, it replaces the record whose version it names |
| LedgerClient.KubernetesLeaseReplayLedger.List | src/replay.rs:305-326 | List returns one page; alone, the next 50 labelled records of a snapshot and the token for the rest |
| LedgerClient.KubernetesLeaseReplayLedger.Delete | src/replay.rs:328-345 | Delete is one protocol step and never fails the call; alone, it removes the record whose version it names |
| LedgerClient.KubernetesLeaseReplayLedger.ReclaimExpired | src/replay.rs:221-251 | Reclaiming is a run of the protocol that ends won or refused; alone, a live record is a replay and an expired one is replaced, nothing else changes |
| LedgerClient.KubernetesLeaseReplayLedger.CleanupOne | src/replay.rs:253-290 | Cleanup is a run of the protocol that never changes the outcome of the call; alone, it is `Cleanup.CleanOne` |
| LedgerClient.KubernetesLeaseReplayLedger.UseSteps | src/replay.rs:354-370 | The steps of a use are a run of the protocol; alone, they amount to the atomic use of `Cleanup` |
| LedgerClient.KubernetesLeaseReplayLedger.UseOnce | src/replay.rs:354-370 | Ok exactly when the protocol records the call as accepted, in a reachable state, whatever others do; alone, the answer and the stored record for each case, all other records kept but at most one expired one, and one such gone whenever a fresh listing of fewer than 50 records has any |
| LedgerClient.ReadsAgree | src/replay.rs:228-241 | Protocol and client take the same branch after every read response |
| LedgerClient.KubernetesLeaseReplayLedger.Sign | src/service.rs:242-266 | Only an accepted call is signed for, and the outcome of signing is recorded |
| Cleanup.FirstExpired | src/replay.rs:548-552 | A candidate is found exactly when the page holds an owned, expired record |
| Cleanup.FirstExpiredIsListed | src/replay.rs:548-552 | The candidate is the first such entry of the page |
| Cleanup.CleanOneExactly | src/replay.rs:253-290 | A cleanup of an accurate sweep deletes the first expired of up to 100 entries and goes on behind the page of 50 where it stopped |
| Cleanup.CleanFrame | src/replay.rs:253-290 | One cleanup removes at most one record, owned and expired, and keeps all others as they are |
| Cleanup.PerpetualBlocksForEver | src/replay.rs:253-290 | A record that never expires survives every sequence of uses and cleanups, and its name is refused each time |
| Cleanup.PageMakesProgress | src/replay.rs:261-287 | While an expired record is stored, one page without a deletion brings the sweep closer to it |
| Cleanup.CleanMakesProgress | src/replay.rs:253-290 | While an expired record is stored, every cleanup strictly decreases records, sweep phase, or records left in the sweep |
| Cleanup.CleanupCompletes | src/replay.rs:253-303 | Repeated cleanups remove every record that was expired when they began, from any cursor |
| Uses.UseExactly | src/replay.rs:354-370 | Every use of the atomic ledger has the stated effect on answer, own record and other records |
| Uses.UseMakesProgress | src/replay.rs:358-369 | While an expired record is stored, every accepted use brings the sweep closer to it, if its own record does not expire in time |
| Uses.UsesClear | src/replay.rs:358-369 | Sufficiently many accepted uses leave no record that was expired at first, from any cursor and listing order, if no record they write expires before the last of them |
| Uses.OldRecordStarves | src/replay.rs:268-280 | Without that condition a record stays expired through any number of accepted uses |
| Jwks.CollectKeys | src/github.rs:406-420 | The loop collects exactly the usable keys of a document |
| Jwks.UsableKeysMeaning | src/github.rs:406-420 | A key ID is cached exactly when some usable RS256 signature entry has it, with the key of the last such entry |
| Jwks.CacheIsLastSuccess | src/github.rs:421-431 | In every run keys and fetch time are those of the last successful fetch; failures change neither |
| Jwks.CacheShowsHistory | src/github.rs:103-115 | Keys, age, both limiters and the failure flag are functions of the history of fetches |
| Jwks.AttemptedExactly | src/github.rs:308-350 | A fetch is made exactly when the last successful one lacks the key or is 300 s old, and none of its kind was made in the last 30 s |
| Jwks.AgeExactly | src/github.rs:453-458 | The age is the time since the fetch, zero if the clock stepped back, and maximal if nothing was fetched |
| Jwks.FilledCacheStaysFilled | src/github.rs:421-431 | A filled cache never empties |
| Jwks.FetchesAreSpaced | src/github.rs:308-350 | With a clock showing positive times, n forced (or n soft) fetches span at least 30(n-1) s, even if it steps back |
| Jwks.LimiterNeedsPositiveClock | src/github.rs:449-451 | At any reading at or before the epoch both limiters are off: runs with any number of fetches exist |
| Jwks.LimiterExactly | src/github.rs:449-451 | At one reading a limiter, soft or forced, admits at most one fetch in every run if and only if the reading is positive |
| Jwks.ReadyMeansServed | src/github.rs:236-306 | Ready exactly when every cached key is served without a fetch, and when any is; both verifiers serve the same keys |
| Jwks.StaysHealthy | src/github.rs:308-325 | Background ticks keep the cache fresh, or have been failing in the outage for a bounded number of steps |
| Jwks.ReadyThroughOutage | src/github.rs:236-246 | Ready at every moment of every timely run through an outage, if the bound for its length and the tick distance is within the hard-staleness bound |
| Jwks.OldestCache | src/github.rs:453-462 | For every tick distance and outage length a run exists in which the cache reaches exactly that bound |
| Jwks.ReadyThroughOutageExactly | src/github.rs:236-246 | So the service is ready through every outage of a length if and only if the bound is within hard staleness |
| Jwks.OutageBoundIsLinear | src/github.rs:308-325 | The bound is at most 299 + 2g + D seconds, and exactly that for g of at least 60 s and D of at least 30 s |
| Verifiers.GitHubVerifier.RefreshNow | src/github.rs:373-431 | A fetch replaces keys and time together, or nothing |
| Verifiers.GitHubVerifier.RunRefresh | src/github.rs:352-359 | A failed refresh only counts a failure |
| Verifiers.GitHubVerifier.WarmUp | src/github.rs:227-234 | Warming up is one unconditional refresh event |
| Verifiers.GitHubVerifier.RefreshSoftIfDue | src/github.rs:308-318 | One soft event; skipped exactly when the last successful fetch is under 300 s old or a soft one was recent, else refreshed or failed by what was fetched |
| Verifiers.GitHubVerifier.RefreshForUnknownKidIfDue | src/github.rs:327-350 | One forced event; it fails exactly when the key is unknown and a recent forced fetch had failed, or its own brings no key |
| Verifiers.GitHubVerifier.AbandonForcedRefresh | src/github.rs:327-350 | A forced refresh whose request goes away is one event: the attempt is remembered, its failure is not |
| Verifiers.GitHubVerifier.CheckReady | src/github.rs:236-246 | Ready exactly when some key is served without a fetch, and exactly while the last successful fetch is young enough |
| Verifiers.GitHubVerifier.LookUp | src/github.rs:261-306 | A known key is served or too old, without a fetch; an unknown one is served exactly when the last successful fetch then holds it, young enough; invalid only if that fetch is young enough, lacks it, and the refresh did not fail |
| Verifiers.ProviderVerifier.RefreshNow | src/oidc.rs:615-653 | A generic fetch replaces keys and time together, or nothing, and tells a bad discovery document from an outage |
| Verifiers.ProviderVerifier.RefreshSoftIfDue | src/oidc.rs:595-613 | One soft event with a single clock reading, and its answer by history and response |
| Verifiers.ProviderVerifier.RefreshForUnknownKidIfDue | src/oidc.rs:585-593 | One forced event without re-check, refused after a recent one, else answered by the response |
| Verifiers.ProviderVerifier.AbandonForcedRefresh | src/oidc.rs:585-593 | A forced refresh whose request goes away leaves the keys and remembers only the attempt |
| Verifiers.ProviderVerifier.LookUp | src/oidc.rs:566-583 | The answer for every history: served, too old, or, after an own refresh that succeeds, what the last successful fetch then holds |
| Policy.DistinctByCount | src/policy.rs:483-494 | A list has as many distinct values as entries exactly when none repeats |
| Policy.RequireValues | src/policy.rs:483-494 | Accepts exactly the non-empty lists of distinct, non-empty values |
| Policy.ActorsOkExtends | src/policy.rs:447-481 | One more mapping keeps a map valid exactly when it is valid itself and its canonical user is new |
| Policy.ValidateActors | src/policy.rs:447-481 | Accepts exactly the maps of well-formed actors with pairwise different canonical users, in any visiting order |
| Policy.ValidateRuleV6 | src/policy.rs:230-248 | Accepts exactly the rules whose present selectors are all well formed |
| Policy.SetsDetectConflicts | src/policy.rs:213-229 | Looking into the two sets finds a conflict exactly when some earlier rule conflicts |
| Policy.ValidateRepositoriesV6 | src/policy.rs:213-250 | The order-sensitive loop accepts exactly the lists of well-formed rules without a conflicting pair |
| Policy.ValidateV6 | src/policy.rs:181-250 | Accepts exactly the declaratively valid version 6 policies |
| Policy.ValidateDomains | src/policy.rs:421-434 | Accepts exactly non-empty lists of distinct well-formed domains |
| Policy.AmbiguousIsDenied | src/policy.rs:300-319 | Whatever the policy, a request that two rules match is denied |
| Policy.ValidatedIsUnambiguous | src/policy.rs:296-319 | On a validated policy no request matches two rules |
| Policy.AdmittedExactly | src/policy.rs:296-327 | A valid policy admits exactly the requests with a numeric actor, a rule whose every selector lists the claim, and, if actors are mapped, a mapped actor |
| Policy.AdmittedIdentity | src/policy.rs:321-360 | Every field of the admitted identity: from the claims, and email and sorted groups of the mapped actor, or none |
| Policy.AdmittedActors | src/policy.rs:447-481 | An admitted email is canonical and in an allowed domain, and no two admitted actors share a canonical user |
| Policy.EveryRuleAdmits | src/policy.rs:181-250 | No rule of a valid policy is dead: some request is admitted by it |
| Policy.RuleOrderIsIrrelevant | src/policy.rs:213-229 | Permuting the rules changes neither the verdict on the policy nor any decision |
| Policy.AddingRulesKeepsAdmissions | src/policy.rs:296-360 | Adding rules to a policy that stays valid keeps every admission, with the same identity |
| Policy.NarrowingOnlyNarrows | src/policy.rs:502-506 | Narrowing selectors or a wildcard admits nothing new |
| PolicyV5.ValidateRepositoriesV5 | src/policy.rs:156-179 | Accepts exactly the lists of well-formed rules without exact duplicates |
| PolicyV5.ValidateV5 | src/policy.rs:134-179 | Accepts exactly the declaratively valid version 5 policies |
| PolicyV5.AmbiguousExactly | src/policy.rs:252-275 | Some verified assertion matches two rules exactly when two rules for one repository list a subject, an event and a ref in common that can be requested together |
| PolicyV5.AmbiguousIsDenied | src/policy.rs:259-271 | Whatever the policy, a request that two rules match is denied |
| PolicyV5.AdmittedExactly | src/policy.rs:252-294 | Without such a pair a verified request is admitted exactly when its actor is mapped and some rule lists its subject, event and ref for its repository |
| PolicyV5.AdmittedIdentityV5 | src/policy.rs:272-294 | Every field of the admitted identity, groups sorted |
| PolicyV5.VersionDecides | src/policy.rs:94-124 | A valid policy admits by the rules of its version, and the identity says which |
| PolicyV5.ValidatedV5MayDenyWhatEachRuleAdmits | src/policy.rs:252-294 | A validated policy, and at any time a verified assertion, such that its two rules each admit the request and together deny it |
| PolicyV5.Validate | src/policy.rs:94-114 | Accepts exactly the policies with a valid service group that their version's validator accepts |
| PolicyV5.GroupsOfValidated | src/policy.rs:331-346 | The sorted groups of an admitted identity are its acting user, canonical user and service, in this order |
| OidcPolicy.OverlapExactly | src/oidc.rs:162-171 | Two bindings overlap if and only if some claims object matches both |
| OidcPolicy.ValidateBindings | src/oidc.rs:104-130 | Accepts exactly the lists of well-formed, pairwise non-overlapping bindings |
| OidcPolicy.Validate | src/oidc.rs:83-133 | Accepts exactly the declaratively valid policies |
| OidcPolicy.AmbiguousIsDenied | src/oidc.rs:135-155 | Whatever the bindings, claims that two of them match are denied |
| OidcPolicy.ValidatedDecides | src/oidc.rs:135-155 | Under a validated policy at most one binding matches any claims object, and exactly that one decides |
| OidcPolicy.AdmittedClaims | src/oidc.rs:108-155 | Who is admitted carries every bound claim as a string, a subject among them and none of the protocol's own claims, and gets that binding's owner |
| OidcPolicy.OffersDecide | src/oidc.rs:135-155 | Valid policies that offer the same bindings decide alike |
| OidcPolicy.OrderIsIrrelevant | src/oidc.rs:83-155 | Reordering providers and their bindings changes neither the verdict on the policy nor any decision |
| Encoding.ComponentIsPrefixFree | src/oidc.rs:1017-1020 | A length-prefixed component can be cut off a byte string in one way |
| Encoding.PreimageExactly | src/oidc.rs:995-1008 | Hashed bytes are equal if and only if the replay identities are, within and across the `jti` and build forms |
| Encoding.SubjectPreimageExactly | src/oidc.rs:1010-1015 | Hashed subject bytes are equal if and only if issuer and subject are |
| Encoding.Hasher.WriteReplayComponent | src/oidc.rs:1017-1020 | Appends eight big-endian length bytes and the value to what was hashed |
| Encoding.PreimageReadsBack | src/oidc.rs:995-1008 | The hashed bytes read back as issuer, tag and `jti`, or issuer, tag, subject, issue time and build number, in this order |
| Encoding.ReplayIdentifier | src/oidc.rs:995-1008 | The digest of bytes that read back as those components, in this order; none without `jti` and build number |
| Encoding.ProviderScopedSubject | src/oidc.rs:1010-1015 | The digest of bytes that read back as issuer and then subject |
| Encoding.IdentifierExactly | src/oidc.rs:995-1008 | Unless the hash collides on them, two assertions share an identifier exactly when they share the identity |
| Decimal.PrintIsCanonical | src/github.rs:494-499 | Printing yields canonical decimal with the same value |
| Decimal.PrintIntIsInjective | src/oidc.rs:1003-1004 | Printing signed integers is injective |
| Decimal.SerializeRoundTrip | src/github.rs:491-517 | Deserializing what was serialized gives the number back, for every u32 |
| Decimal.AcceptedExactly | src/github.rs:501-516 | A text is accepted exactly when it is the notation of some u32, and then re-serializes to itself |
| Decimal.OverflowExactly | src/github.rs:509-515 | A text is too large exactly when it is the notation of a number of at most ten digits beyond 32 bits |
| Provenance.RepositoryExactly | src/github.rs:523-542 | A repository name is accepted exactly when it is two slugs around one slash |
| Provenance.NoEarlierSeparator | src/github.rs:582-604 | The workflow separator cannot begin inside the repository name, not even for a repository `.github` |
| Provenance.WorkflowExactly | src/github.rs:582-604 | A workflow reference is accepted exactly when it is repository, file and `@`-free revision, within the length bound |
| Provenance.ReadingIsUnique | src/github.rs:582-604 | A workflow reference has at most one such decomposition |
| Provenance.BodyIsUnique | src/github.rs:551-566 | The named and the numbered form of a subject never coincide, and each determines its parts |
| Provenance.ProvenanceExactly | src/github.rs:551-580 | Provenance is accepted exactly when the subject names the claimed repository in one of two forms with a suffix that agrees with the ref, and both workflow references have a reading |
| Provenance.RequestableIsVerified | src/github.rs:180-219 | Every subject, event and ref that fit each other, with numeric IDs, are carried by some assertion that passes every check |
| Provenance.VerifiedIsRequestable | src/github.rs:180-219 | And no other are |
| Provenance.SubjectDetermines | src/github.rs:551-580 | One subject is accepted for one repository, one suffix, in numeric form one pair of IDs, and for `ref:` one Git ref |
| KeyRings.Load | src/keys.rs:121-174 | Loading succeeds exactly with unique well-formed keys and a current key valid now, and keeps exactly the unexpired keys |
| KeyRings.RetainedMeaning | src/keys.rs:137-164 | The loop retains a key ID exactly when an unexpired entry has it, with that entry's key |
| KeyRings.SignsExactly | src/keys.rs:180-199 | A loaded ring signs exactly within the window of the document's current key, and with that key |
| KeyRings.ReadyExactly | src/keys.rs:201-212 | Ready exactly from the window's start until threshold plus one second before its end |
| KeyRings.ReadyRingSigns | src/keys.rs:180-212 | A ready ring passes the signing window at every instant up to the threshold ahead |
| KeyRings.TokenExpiresBeforeKey | src/config.rs:129-152 | With a threshold of at least 120 s a 120 s token signed while ready expires before its key |
| KeyRings.Jwks | src/keys.rs:214-236 | The published list holds exactly the ring's keys, sorted by ID, each once, in whatever order the map is visited |
| KeyRings.PublishedIsUnique | src/keys.rs:214-236 | There is only one such list |
| KeyRings.JwkSet.Extend | src/keys.rs:374-378 | Extending keeps exactly the keys of both lists, sorted by ID, and keys with one ID in the order they came |
| KeyRings.DisjointExactly | src/keys.rs:363-370 | Rings are disjoint exactly when no ID occurs twice in their published lists together |
| KeyRings.ExtendedPublishesBoth | src/keys.rs:363-378 | Extending by a disjoint ring publishes exactly the keys of both, each once and in order |
| Sorting.SortIsStable | src/keys.rs:376-378 | The sort keeps the order of keys with one ID |
| KeyringTool.Tool.ValidatePrivate | src/bin/keyring-tool.rs:179-198 | Accepts exactly a private regular file that loads |
| KeyringTool.Tool.WritePrivate | src/bin/keyring-tool.rs:221-258 | The path is replaced by a loadable private file exactly when every step works, else left alone; the temporary file stays only if it cannot be removed, and then private |
| KeyringTool.Tool.Run | src/bin/keyring-tool.rs:69-130 | One run of the tool does what its command promises, or leaves the path alone |
| KeyringTool.EditEffects | src/bin/keyring-tool.rs:95-126 | Add grows the key set by one, activate keeps it, retire removes one non-current key; every other key is kept as it is |
| KeyringTool.GenerateExactly | src/bin/keyring-tool.rs:70-84 | When a generate command succeeds, and the one-key file it leaves |
| KeyringTool.EditExactly | src/bin/keyring-tool.rs:88-128 | When an add, activate or retire command succeeds, and the document it leaves |
| KeyringTool.StepWritesLoadable | src/bin/keyring-tool.rs:221-258 | A run leaves the path as it was or with a file that loaded when written; a failed run leaves it as it was |
| KeyringTool.FileWasLoadable | src/bin/keyring-tool.rs:221-258 | Over every sequence of runs the file is the first one or was loadable when written |
| KeyringTool.KeyStaysUntilRetired | src/bin/keyring-tool.rs:88-128 | Over every sequence of runs a key stays in the file with its window until it is retired |
| KeyringTool.KeptKeyIsPublished | src/keys.rs:160-164 | A key in the file is published on loading exactly as long as it has not expired |
| KeyringTool.ExpiredCurrentKeyLocksFile | src/bin/keyring-tool.rs:69-89 | Once the current key is outside its window every command on the file fails |
| Accounting.StepKeeps | src/service.rs:189-280 | Every atomic addition, in every interleaving, keeps each counter at the number of exchanges that made it, modulo 2^64 |
| Accounting.RunKeeps | src/service.rs:189-280 | So it is in every state of every run of either service |
| Accounting.Conservation | src/service.rs:189-280 | In every state requests are issued, denied, replayed (GitHub), failed, or without an outcome (unfinished or dropped), each once |
| Accounting.ExactCounters | src/oidc.rs:904-973 | Below 2^64 requests every counter shows its number itself |
| Accounting.IssuedAreAccepted | src/oidc.rs:904-973 | Issued never exceeds ledger acceptances; for the generic service replays never exceed denials when quiescent |
| Accounting.BucketsAreCumulative | src/service.rs:49-64 | Buckets never exceed the count; when quiescent each is the number of durations within its bound, nondecreasing |
| Accounting.DurationsAreSummed | src/service.rs:49-54 | In every state the sum of durations is that of the exchanges that have observed theirs, modulo 2^64 |
| Accounting.AdditionsMade | src/service.rs:189-280 | In every run an exchange has added to a counter at most once, and exactly when its phase says so |
| Accounting.DoneHasPaid | src/service.rs:84-88 | A finished or dropped exchange has made exactly the additions its outcome and duration call for |
| Services.ExchangeService.ObserveDuration | src/service.rs:49-64 | Adds one to the count, the microseconds to the sum, and one to exactly the buckets whose bound the duration does not exceed, nothing else, under any interleaving |
| Services.ExchangeService.Finish | src/service.rs:84-88 | The exchange ends having made exactly the additions its outcome and duration call for, each once |
| Services.ExchangeService.Drop | src/service.rs:84-88 | An exchange whose client goes away ends with its request and duration counted and no outcome |
| Services.ExchangeService.AskLedger | src/service.rs:220-236 | The ledger's answer is what the protocol shows of the call |
| Services.ExchangeService.SignToken | src/service.rs:237-266 | A token for an accepted call exactly when signing succeeds, recorded as issued |
| Services.ExchangeService.Redeem | src/service.rs:220-280 | What each state of the call at the ledger gives: a replay is unauthorized and replayed, an outage or a failing signer unavailable and an error, an issued call a token |
| Services.ExchangeService.Exchange | src/service.rs:189-280 | What each cause gives as answer and as additions to the counters, the duration observed once, and a token if and only if the protocol records one as issued for this assertion, whatever others do |

## Left out

- HTTP routing, JSON and configuration decoding, TLS, audit events, startup and shutdown: plumbing around the modelled logic.
- `src/workload.rs` and `src/browser_hop1.rs`: smaller repeats of the same patterns; the workload profile does not bound the source lifetime, so the lease results are not claimed for it.
- The ledger's readiness probe and its cache, the test-only key source, credential files: they do not touch the records.
- Leases.LeasedExactly: only for clock readings from 1970 up to the last time for which a record can be written; other readings fail or overflow.
- OneTimeUse.OneTokenPerAssertion: the two clock readings of one verification (library and service) are taken as one; the leeway of the JWT library is taken to be `exp >= now - 30` and `nbf <= now + 30` in whole seconds.
- OneTimeUse.OneTimeUseExactly: a record is found by its lease name; that different identities get different names is not needed, since a collision only turns a use into a replay.
- The Kubernetes API server: create, update and delete are atomic and conditional on the resource version, an update on a missing name fails; everything else is left free. That list pages come from one snapshot is assumed only for a replica alone on the server.
- LedgerClient.KubernetesLeaseReplayLedger.CleanupOne: an empty resource version counts as missing, as in reclaiming; the server never sends one.
- LedgerClient.KubernetesLeaseReplayLedger.UseOnce: the lease name is part of the assertion; the hash that derives it is not modelled.
- The lease text form: the stored time is an integer of microseconds; a time so large that adding the duration overflows is not modelled.
- Cleanup.CleanupCompletes: it needs a replica alone on a working server; with failing lists or racing writers cleanup is best effort and nothing is claimed.
- Uses.UsesClear: its condition is sufficient; that it cannot simply be dropped is shown by an example, not that it is necessary for every order of listing.
- Jwks.ReadyThroughOutageExactly: for bounds that fit 64-bit seconds, and for a loop whose ticks begin at least 30 s after the previous one ended and are over at most g seconds after it began.
- Jwks.FetchesAreSpaced: that the lock keeps at most one fetch in flight is part of the model, where a fetch is one event, and not proved separately.
- The discovery checks of `src/oidc.rs:772-785` and URL parsing: one answer of the discovery response, and a parameter.
- Provenance.RequestableIsVerified: signatures, the header and the size of an assertion are not modelled; `Verified` holds every check on its claims.
- Error messages: only the kind of an error is kept.
- Texts are byte strings in UTF-8; that they are well formed is not modelled.
- OidcPolicy.ValidatedDecides: a claim value is a string or something else; JSON numbers, lists and objects are not told apart, since no binding matches them.
- Encoding.IdentifierExactly: assumes only that the hash does not collide on the two given inputs.
- KeyRings.Load: the two rings differ in decoding key material, which is a parameter; reading and parsing the file is not modelled.
- KeyRings.TokenExpiresBeforeKey: signing may happen at most threshold minus 120 s after the ring was seen ready.
- KeyringTool.Tool.Run: argument parsing and `export-jwks` are left out; nobody else writes the path during a run, so the second look before the rename finds what the first one did.
- Services.ExchangeService.Exchange: the answers of verifier, policy and signer are parameters; their meaning is in the other modules. What a dropped call had done at the ledger is any part of a run.
- Accounting.BucketsAreCumulative: durations are compared as integer nanoseconds, not as rounded floating-point seconds.
