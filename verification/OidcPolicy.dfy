/**
 The generic OIDC policy: providers with exact claim bindings.  Two bindings of one provider may not overlap,
 and overlap is decided by looking at the bindings alone.
 */
module OidcPolicy {
  import opened Wrappers
  import opened Text
  import opened OidcClaims
  import Sorting

  const OIDC_POLICY_VERSION := "github-oidc-exchange.apelogic.io/oidc-policy-v1"
  const RESERVED_CLAIMS: set<string> := {"iss", "aud", "exp", "iat", "nbf", "jti"}

  datatype Owner = Owner(service: string, ownerCanonicalUserId: string, ownerEmail: string)

  type ClaimMap = map<string, string>

  datatype Binding = Binding(claims: ClaimMap, owner: Owner)

  datatype Provider = Provider(issuer: string, audience: string, bindings: seq<Binding>)

  datatype Policy = Policy(version: string, providers: seq<Provider>)

  datatype Error = Invalid | Unauthorized

  // ----- overlap -----

  /** `claim_bindings_overlap`: no claim is bound to two values. */
  predicate BindingsOverlap(left: ClaimMap, right: ClaimMap) {
    !exists name :: name in left && name in right && right[name] != left[name]
  }

  predicate Matches(binding: ClaimMap, values: map<string, Value>) {
    forall name :: name in binding ==> name in values && values[name] == Text(binding[name])
  }

  /** Overlap is exact: two bindings overlap exactly when some claims object matches both. */
  lemma OverlapExactly(left: ClaimMap, right: ClaimMap)
    ensures BindingsOverlap(left, right) <==> exists values :: Matches(left, values) && Matches(right, values)
  {
    if BindingsOverlap(left, right) {
      var values := map name | name in left.Keys + right.Keys :: Text(if name in left then left[name] else right[name]);
      assert Matches(left, values) && Matches(right, values);
    } else {
      var name :| name in left && name in right && right[name] != left[name];
    }
  }

  // ----- validation -----

  predicate IssuerOk(issuer: string, urlOk: string -> bool) {
    |issuer| <= 2_048 && !HasSuffix(issuer, "/") && urlOk(issuer)
  }

  predicate ClaimNameOk(name: string) {
    BoundedGraphic(name, 128) && '.' !in name && '[' !in name && ']' !in name
  }

  predicate OwnerOk(owner: Owner) {
    && BoundedGraphic(owner.service, 128)
    && CanonicalUserId(owner.ownerCanonicalUserId)
    && IsLowercase(owner.ownerEmail) && !HasWhitespace(owner.ownerEmail)
    && var parts := SplitOnce(owner.ownerEmail, '@');
       parts.Some? && parts.value.0 != "" && '.' in parts.value.1
  }

  predicate BindingOk(binding: Binding) {
    && 0 < |binding.claims| <= 16
    && "sub" in binding.claims && BoundedGraphic(binding.claims["sub"], 2_048)
    && (forall name :: name in binding.claims ==>
          ClaimNameOk(name) && BoundedGraphic(binding.claims[name], 2_048) && name !in RESERVED_CLAIMS)
    && OwnerOk(binding.owner)
  }

  ghost predicate NoOverlap(bindings: seq<Binding>) {
    forall i, j :: 0 <= i < j < |bindings| ==> !BindingsOverlap(bindings[i].claims, bindings[j].claims)
  }

  ghost predicate BindingsOk(bindings: seq<Binding>) {
    (forall b :: b in bindings ==> BindingOk(b)) && NoOverlap(bindings)
  }

  predicate ProviderHeadOk(provider: Provider, urlOk: string -> bool) {
    IssuerOk(provider.issuer, urlOk) && BoundedGraphic(provider.audience, 255) && 0 < |provider.bindings| <= 256
  }

  ghost predicate DistinctIssuers(providers: seq<Provider>) {
    forall i, j :: 0 <= i < j < |providers| ==> providers[i].issuer != providers[j].issuer
  }

  ghost predicate Valid(p: Policy, urlOk: string -> bool) {
    && p.version == OIDC_POLICY_VERSION
    && 0 < |p.providers| <= 32
    && (forall q :: q in p.providers ==> ProviderHeadOk(q, urlOk) && BindingsOk(q.bindings))
    && DistinctIssuers(p.providers)
  }

  method ValidateBindings(list: seq<Binding>) returns (ok: bool)
    ensures ok <==> BindingsOk(list)
  {
    hide BindingOk, BindingsOverlap;
    var bindings: seq<ClaimMap> := [];
    for i := 0 to |list|
      invariant |bindings| == i && forall k :: 0 <= k < i ==> bindings[k] == list[k].claims
      invariant forall k :: 0 <= k < i ==> BindingOk(list[k])
      invariant forall j, k :: 0 <= j < k < i ==> !BindingsOverlap(list[j].claims, list[k].claims)
    {
      var binding := list[i];
      assert binding in list;
      if exists existing :: existing in bindings && BindingsOverlap(existing, binding.claims) {
        var existing :| existing in bindings && BindingsOverlap(existing, binding.claims);
        var k :| 0 <= k < i && bindings[k] == existing;
        assert BindingsOverlap(list[k].claims, list[i].claims);
        return false;
      }
      if !BindingOk(binding) {
        return false;
      }
      bindings := bindings + [binding.claims];
    }
    return true;
  }

  /** `OidcPolicy::validate` accepts exactly the declaratively valid policies. */
  method Validate(p: Policy, urlOk: string -> bool) returns (r: Result<(), Error>)
    ensures r == if Valid(p, urlOk) then Ok(()) else Err(Invalid)
  {
    hide ProviderHeadOk, BindingsOk;
    if p.version != OIDC_POLICY_VERSION || p.providers == [] || |p.providers| > 32 {
      return Err(Invalid);
    }
    var issuers: set<string> := {};
    for i := 0 to |p.providers|
      invariant forall k :: 0 <= k < i ==> ProviderHeadOk(p.providers[k], urlOk) && BindingsOk(p.providers[k].bindings)
      invariant forall j, k :: 0 <= j < k < i ==> p.providers[j].issuer != p.providers[k].issuer
      invariant forall s :: s in issuers <==> exists k :: 0 <= k < i && p.providers[k].issuer == s
    {
      var provider := p.providers[i];
      assert provider in p.providers;
      if !ProviderHeadOk(provider, urlOk) || provider.issuer in issuers {
        return Err(Invalid);
      }
      issuers := issuers + {provider.issuer};
      var bindings := ValidateBindings(provider.bindings);
      if !bindings {
        return Err(Invalid);
      }
    }
    return Ok(());
  }

  // ----- authorization -----

  function FindProvider(providers: seq<Provider>, issuer: string): Option<Provider> {
    if providers == [] then None
    else if providers[0].issuer == issuer then Some(providers[0])
    else FindProvider(providers[1..], issuer)
  }

  function MatchingBindings(bindings: seq<Binding>, values: map<string, Value>): seq<Binding> {
    if bindings == [] then []
    else
      var rest := MatchingBindings(bindings[1..], values);
      if Matches(bindings[0].claims, values) then [bindings[0]] + rest else rest
  }

  function Authorize(p: Policy, claims: Claims): Result<Owner, Error> {
    match FindProvider(p.providers, claims.issuer)
    case None => Err(Unauthorized)
    case Some(provider) =>
      var matching := MatchingBindings(provider.bindings, claims.values);
      if |matching| != 1 then Err(Unauthorized) else Ok(matching[0].owner)
  }

  /** The policy binds an issuer's claims to an owner. */
  ghost predicate Offers(p: Policy, issuer: string, binding: Binding) {
    exists q :: q in p.providers && q.issuer == issuer && binding in q.bindings
  }

  lemma {:induction false} FindProviderMeaning(providers: seq<Provider>, issuer: string)
    ensures match FindProvider(providers, issuer)
            case None => forall q :: q in providers ==> q.issuer != issuer
            case Some(q) => q in providers && q.issuer == issuer
  {
    if providers != [] && providers[0].issuer != issuer {
      FindProviderMeaning(providers[1..], issuer);
      assert providers == [providers[0]] + providers[1..];
    }
  }

  lemma {:induction false} MatchingMeaning(bindings: seq<Binding>, values: map<string, Value>)
    ensures forall b :: b in MatchingBindings(bindings, values) <==> b in bindings && Matches(b.claims, values)
    ensures NoOverlap(bindings) ==> |MatchingBindings(bindings, values)| <= 1
  {
    hide Matches, BindingsOverlap;
    if bindings != [] {
      var head, tail := bindings[0], bindings[1..];
      assert bindings == [head] + tail;
      MatchingMeaning(tail, values);
      if NoOverlap(bindings) {
        assert forall k :: 0 <= k < |tail| ==> tail[k] == bindings[k + 1];
        if Matches(head.claims, values) {
          forall b | b in tail ensures !Matches(b.claims, values) {
            var k :| 0 <= k < |tail| && tail[k] == b;
            assert !BindingsOverlap(bindings[0].claims, bindings[k + 1].claims);
            OverlapExactly(head.claims, b.claims);
          }
          NoneMatch(tail, values);
        }
      }
    }
  }

  lemma {:induction false} NoneMatch(bindings: seq<Binding>, values: map<string, Value>)
    requires forall b :: b in bindings ==> !Matches(b.claims, values)
    ensures MatchingBindings(bindings, values) == []
  {
    if bindings != [] {
      assert bindings[0] in bindings;
      NoneMatch(bindings[1..], values);
    }
  }

  lemma {:induction false} TwoMatch(bindings: seq<Binding>, values: map<string, Value>, i: nat, j: nat)
    requires i < j < |bindings| && Matches(bindings[i].claims, values) && Matches(bindings[j].claims, values)
    ensures |MatchingBindings(bindings, values)| >= 2
    decreases i
  {
    hide Matches;
    MatchingMeaning(bindings[1..], values);
    if i == 0 {
      assert bindings[1..][j - 1] == bindings[j];
      assert bindings[j] in MatchingBindings(bindings[1..], values);
    } else {
      TwoMatch(bindings[1..], values, i - 1, j - 1);
    }
  }

  /** Whatever the policy, claims that two bindings of their provider match are denied. */
  lemma AmbiguousIsDenied(p: Policy, claims: Claims, k: nat, i: nat, j: nat)
    requires k < |p.providers| && p.providers[k].issuer == claims.issuer && DistinctIssuers(p.providers)
    requires i < j < |p.providers[k].bindings|
    requires Matches(p.providers[k].bindings[i].claims, claims.values) && Matches(p.providers[k].bindings[j].claims, claims.values)
    ensures Authorize(p, claims) == Err(Unauthorized)
  {
    hide Matches;
    FindProviderMeaning(p.providers, claims.issuer);
    assert p.providers[k] in p.providers;
    SameIssuerSameProvider(p.providers, FindProvider(p.providers, claims.issuer).value, p.providers[k]);
    TwoMatch(p.providers[k].bindings, claims.values, i, j);
  }

  /** Under a valid policy every claims object matches at most one offered binding, and that one decides. */
  lemma ValidatedDecides(p: Policy, urlOk: string -> bool, claims: Claims)
    requires Valid(p, urlOk)
    ensures forall a, b | Offers(p, claims.issuer, a) && Offers(p, claims.issuer, b) ::
              Matches(a.claims, claims.values) && Matches(b.claims, claims.values) ==> a == b
    ensures forall b :: Offers(p, claims.issuer, b) && Matches(b.claims, claims.values) ==> Authorize(p, claims) == Ok(b.owner)
    ensures Authorize(p, claims).Ok? ==>
              exists b :: Offers(p, claims.issuer, b) && Matches(b.claims, claims.values) && Authorize(p, claims) == Ok(b.owner)
    ensures Authorize(p, claims).Err? ==> Authorize(p, claims) == Err(Unauthorized)
  {
    hide Matches, BindingOk, ProviderHeadOk, BindingsOverlap;
    FindProviderMeaning(p.providers, claims.issuer);
    match FindProvider(p.providers, claims.issuer) {
      case None =>
      case Some(provider) =>
        MatchingMeaning(provider.bindings, claims.values);
        var matching := MatchingBindings(provider.bindings, claims.values);
        forall b | Offers(p, claims.issuer, b) ensures b in provider.bindings {
          var q :| q in p.providers && q.issuer == claims.issuer && b in q.bindings;
          SameIssuerSameProvider(p.providers, q, provider);
        }
        if matching != [] {
          assert matching[0] in matching && Offers(p, claims.issuer, matching[0]);
        }
    }
  }

  /**
   Who is admitted: the owner bound by a provider with the claimed issuer, to claims that the assertion carries as
   strings, its subject among them and none of the protocol's own.
   */
  lemma AdmittedClaims(p: Policy, urlOk: string -> bool, claims: Claims) returns (q: Provider, b: Binding)
    requires Valid(p, urlOk) && Authorize(p, claims).Ok?
    ensures q in p.providers && q.issuer == claims.issuer && b in q.bindings && Authorize(p, claims) == Ok(b.owner)
    ensures "sub" in b.claims && b.claims["sub"] != "" && "sub" in claims.values
    ensures forall name :: name in b.claims ==> name in claims.values && claims.values[name] == Text(b.claims[name])
    ensures forall name :: name in ["iss", "aud", "exp", "iat", "nbf", "jti"] ==> name !in b.claims
  {
    hide OwnerOk, ClaimNameOk, NoOverlap, IssuerOk;
    FindProviderMeaning(p.providers, claims.issuer);
    q := FindProvider(p.providers, claims.issuer).value;
    MatchingMeaning(q.bindings, claims.values);
    b := MatchingBindings(q.bindings, claims.values)[0];
    assert b in MatchingBindings(q.bindings, claims.values);
    assert BindingOk(b);
  }

  lemma SameIssuerSameProvider(providers: seq<Provider>, a: Provider, b: Provider)
    requires DistinctIssuers(providers) && a in providers && b in providers && a.issuer == b.issuer
    ensures a == b
  {
  }

  /** What the policy offers decides, however it is listed. */
  lemma OffersDecide(p: Policy, q: Policy, urlOk: string -> bool, claims: Claims)
    requires Valid(p, urlOk) && Valid(q, urlOk)
    requires forall b :: Offers(p, claims.issuer, b) <==> Offers(q, claims.issuer, b)
    ensures Authorize(p, claims) == Authorize(q, claims)
  {
    hide Matches, Valid, Authorize, Offers;
    ValidatedDecides(p, urlOk, claims);
    ValidatedDecides(q, urlOk, claims);
  }

  // ----- order -----

  lemma OverlapIsSymmetric(a: ClaimMap, b: ClaimMap)
    ensures BindingsOverlap(a, b) == BindingsOverlap(b, a)
  {
  }

  lemma BindingsOkPermutes(a: seq<Binding>, b: seq<Binding>)
    requires Sorting.SameEntries(a, b) && BindingsOk(a)
    ensures BindingsOk(b)
  {
    hide BindingOk, BindingsOverlap;
    Sorting.SameMembers(a, b);
    forall i, j | 0 <= i < j < |b| ensures !BindingsOverlap(b[i].claims, b[j].claims) {
      var m, n := Sorting.TwoPlaces(a, b, i, j);
      OverlapIsSymmetric(a[m].claims, a[n].claims);
    }
  }

  lemma IssuersPermute(a: seq<Provider>, b: seq<Provider>)
    requires Sorting.SameEntries(a, b) && DistinctIssuers(a)
    ensures DistinctIssuers(b)
  {
    forall i, j | 0 <= i < j < |b| ensures b[i].issuer != b[j].issuer {
      var m, n := Sorting.TwoPlaces(a, b, i, j);
      assert if m < n then a[m].issuer != a[n].issuer else a[n].issuer != a[m].issuer;
    }
  }

  /** The same provider, its bindings in any order. */
  ghost predicate SameProvider(a: Provider, b: Provider) {
    a.issuer == b.issuer && a.audience == b.audience && Sorting.SameEntries(a.bindings, b.bindings)
  }

  ghost predicate SameProviders(a: seq<Provider>, b: seq<Provider>) {
    |a| == |b| && forall i :: 0 <= i < |a| ==> SameProvider(a[i], b[i])
  }

  /** The same policy, with its providers and their bindings in any order: `between` has the providers of `p` reordered. */
  ghost predicate Rearranged(p: Policy, between: seq<Provider>, q: Policy) {
    p.version == q.version && Sorting.SameEntries(p.providers, between) && SameProviders(between, q.providers)
  }

  lemma SameProviderIsValid(a: Provider, b: Provider, urlOk: string -> bool)
    requires SameProvider(a, b)
    ensures ProviderHeadOk(a, urlOk) == ProviderHeadOk(b, urlOk) && BindingsOk(a.bindings) == BindingsOk(b.bindings)
  {
    hide BindingsOk, IssuerOk;
    Sorting.SameMembers(a.bindings, b.bindings);
    if BindingsOk(a.bindings) { BindingsOkPermutes(a.bindings, b.bindings); }
    if BindingsOk(b.bindings) { BindingsOkPermutes(b.bindings, a.bindings); }
  }

  lemma ProvidersPermute(p: Policy, providers: seq<Provider>, urlOk: string -> bool)
    requires Sorting.SameEntries(p.providers, providers) && Valid(p, urlOk)
    ensures Valid(p.(providers := providers), urlOk)
  {
    hide ProviderHeadOk, BindingsOk;
    Sorting.SameMembers(p.providers, providers);
    IssuersPermute(p.providers, providers);
  }

  lemma BindingsPermute(p: Policy, providers: seq<Provider>, urlOk: string -> bool)
    requires SameProviders(p.providers, providers) && Valid(p, urlOk)
    ensures Valid(p.(providers := providers), urlOk)
  {
    hide ProviderHeadOk, BindingsOk, Sorting.SameEntries;
    forall i | 0 <= i < |providers| ensures ProviderHeadOk(providers[i], urlOk) && BindingsOk(providers[i].bindings) {
      assert p.providers[i] in p.providers;
      SameProviderIsValid(p.providers[i], providers[i], urlOk);
    }
  }

  lemma SameIsSymmetric(a: seq<Provider>, b: seq<Provider>)
    requires SameProviders(a, b)
    ensures SameProviders(b, a)
  {
  }

  lemma RearrangedOffers(p: Policy, between: seq<Provider>, q: Policy, issuer: string, b: Binding)
    requires Rearranged(p, between, q)
    ensures Offers(p, issuer, b) ==> Offers(q, issuer, b)
    ensures Offers(q, issuer, b) ==> Offers(p, issuer, b)
  {
    hide Sorting.SameEntries;
    Sorting.SameMembers(p.providers, between);
    if Offers(p, issuer, b) {
      var o :| o in p.providers && o.issuer == issuer && b in o.bindings;
      var i :| 0 <= i < |between| && between[i] == o;
      Sorting.SameMembers(o.bindings, q.providers[i].bindings);
      assert q.providers[i] in q.providers;
    }
    if Offers(q, issuer, b) {
      var o :| o in q.providers && o.issuer == issuer && b in o.bindings;
      var i :| 0 <= i < |between| && q.providers[i] == o;
      Sorting.SameMembers(between[i].bindings, o.bindings);
      assert between[i] in p.providers;
    }
  }

  /** Providers and bindings may be listed in any order: neither the verdict on the policy nor any decision changes. */
  lemma OrderIsIrrelevant(p: Policy, between: seq<Provider>, q: Policy, urlOk: string -> bool, claims: Claims)
    requires Rearranged(p, between, q)
    ensures Valid(p, urlOk) <==> Valid(q, urlOk)
    ensures Valid(p, urlOk) ==> Authorize(p, claims) == Authorize(q, claims)
  {
    hide Valid, Authorize, Offers, Sorting.SameEntries, SameProviders;
    var m := p.(providers := between);
    assert m.(providers := q.providers) == q && q.(providers := between) == m && m.(providers := p.providers) == p;
    SameIsSymmetric(between, q.providers);
    EntriesAreSymmetric(p.providers, between);
    if Valid(p, urlOk) {
      ProvidersPermute(p, between, urlOk);
      BindingsPermute(m, q.providers, urlOk);
      forall b ensures Offers(p, claims.issuer, b) <==> Offers(q, claims.issuer, b) {
        RearrangedOffers(p, between, q, claims.issuer, b);
      }
      OffersDecide(p, q, urlOk, claims);
    }
    if Valid(q, urlOk) {
      BindingsPermute(q, between, urlOk);
      ProvidersPermute(m, p.providers, urlOk);
    }
  }

  lemma EntriesAreSymmetric(a: seq<Provider>, b: seq<Provider>)
    requires Sorting.SameEntries(a, b)
    ensures Sorting.SameEntries(b, a)
  {
  }
}
