/**
 Signing keyrings: the loader, the signing window, the readiness margin, and the published key list.  The
 P-256 and RSA rings differ only in how a key is decoded, so one loader serves both.
 */
module KeyRings {
  import opened Wrappers
  import opened Leases
  import Sorting

  type Kid = string
  type Key = string

  const KEYRING_VERSION := "github-oidc-exchange.apelogic.io/keyring-v1"
  const RSA_KEYRING_VERSION := "github-oidc-exchange.apelogic.io/rsa-keyring-v1"
  const TOKEN_TTL_SECONDS: nat := 120
  const MIN_READINESS_THRESHOLD_SECONDS: nat := 120

  datatype Algorithm = Es256 | Rsa

  function VersionOf(algorithm: Algorithm): string {
    if algorithm.Es256? then KEYRING_VERSION else RSA_KEYRING_VERSION
  }

  datatype KeySpec = KeySpec(kid: Kid, material: string, notBefore: Instant, notAfter: Instant)

  datatype Document = Document(version: string, currentKid: Kid, keys: seq<KeySpec>)

  /** How key material is decoded and checked; the code for it is not part of this model. */
  type Decoder = string -> Option<Key>

  datatype KeyRing = KeyRing(
    currentKid: Kid,
    currentNotBefore: Instant,
    currentNotAfter: Instant,
    readinessThreshold: nat,
    keys: map<Kid, Key>)

  datatype KeyError = Invalid | Signing

  // ----- loading -----

  predicate SpecOk(spec: KeySpec, decode: Decoder) {
    spec.kid != "" && spec.notBefore < spec.notAfter && decode(spec.material).Some?
  }

  predicate UniqueKids(keys: seq<KeySpec>) {
    forall i, j :: 0 <= i < j < |keys| ==> keys[i].kid != keys[j].kid
  }

  predicate ValidAt(spec: KeySpec, now: Instant) {
    spec.notBefore <= now < spec.notAfter
  }

  ghost predicate HasCurrent(doc: Document, now: Instant) {
    exists i :: 0 <= i < |doc.keys| && doc.keys[i].kid == doc.currentKid && ValidAt(doc.keys[i], now)
  }

  /** A keyring file is accepted: well-formed keys with unique IDs, and a current key valid now. */
  ghost predicate Loadable(doc: Document, now: Instant, algorithm: Algorithm, decode: Decoder) {
    && doc.version == VersionOf(algorithm)
    && (forall i :: 0 <= i < |doc.keys| ==> SpecOk(doc.keys[i], decode))
    && UniqueKids(doc.keys)
    && HasCurrent(doc, now)
  }

  /** The loaded ring holds exactly the unexpired keys, and the window of the current one. */
  ghost predicate RingOf(ring: KeyRing, doc: Document, now: Instant, decode: Decoder) {
    && ring.currentKid == doc.currentKid
    && (exists i :: 0 <= i < |doc.keys| && doc.keys[i].kid == doc.currentKid &&
          ring.currentNotBefore == doc.keys[i].notBefore && ring.currentNotAfter == doc.keys[i].notAfter)
    && (forall kid :: kid in ring.keys ==> Retained(doc.keys, kid, now))
    && (forall i :: 0 <= i < |doc.keys| && now < doc.keys[i].notAfter ==>
          doc.keys[i].kid in ring.keys && decode(doc.keys[i].material) == Some(ring.keys[doc.keys[i].kid]))
  }

  ghost predicate Retained(keys: seq<KeySpec>, kid: Kid, now: Instant) {
    exists i :: 0 <= i < |keys| && keys[i].kid == kid && now < keys[i].notAfter
  }

  // What the loop has collected from the keys it has seen.

  ghost function KidsOf(keys: seq<KeySpec>): set<Kid> {
    set spec | spec in keys :: spec.kid
  }

  function RetainedKeys(keys: seq<KeySpec>, now: Instant, decode: Decoder): map<Kid, Key> {
    if keys == [] then map[]
    else
      var last := keys[|keys| - 1];
      var earlier := RetainedKeys(keys[..|keys| - 1], now, decode);
      if now < last.notAfter && decode(last.material).Some? then earlier[last.kid := decode(last.material).value] else earlier
  }

  function CurrentSpec(keys: seq<KeySpec>, kid: Kid): Option<KeySpec> {
    if keys == [] then None
    else if keys[|keys| - 1].kid == kid then Some(keys[|keys| - 1])
    else CurrentSpec(keys[..|keys| - 1], kid)
  }

  ghost predicate KeysOk(keys: seq<KeySpec>, decode: Decoder) {
    (forall i :: 0 <= i < |keys| ==> SpecOk(keys[i], decode)) && UniqueKids(keys)
  }

  lemma KeysOkExtends(keys: seq<KeySpec>, spec: KeySpec, decode: Decoder)
    ensures KeysOk(keys + [spec], decode) <==> KeysOk(keys, decode) && SpecOk(spec, decode) && spec.kid !in KidsOf(keys)
    ensures KidsOf(keys + [spec]) == KidsOf(keys) + {spec.kid}
  {
    var all := keys + [spec];
    assert all[|keys|] == spec;
    assert forall k :: 0 <= k < |keys| ==> all[k] == keys[k];
    forall kid | kid in KidsOf(keys) ensures kid in KidsOf(all) {
      var s :| s in keys && s.kid == kid;
      assert s in all;
    }
    assert spec in all;
    if KeysOk(all, decode) {
      forall s | s in keys ensures s.kid != spec.kid {
        var k :| 0 <= k < |keys| && keys[k] == s;
        assert all[k].kid != all[|keys|].kid;
      }
    }
  }

  lemma KeysOkOfPrefix(keys: seq<KeySpec>, n: nat, decode: Decoder)
    requires n <= |keys| && KeysOk(keys, decode)
    ensures KeysOk(keys[..n], decode)
  {
  }

  lemma {:induction false} RetainedMeaning(keys: seq<KeySpec>, now: Instant, decode: Decoder)
    requires KeysOk(keys, decode)
    ensures forall kid :: kid in RetainedKeys(keys, now, decode) ==> Retained(keys, kid, now)
    ensures forall i :: 0 <= i < |keys| && now < keys[i].notAfter ==>
              keys[i].kid in RetainedKeys(keys, now, decode) &&
              decode(keys[i].material) == Some(RetainedKeys(keys, now, decode)[keys[i].kid])
  {
    if keys != [] {
      var n := |keys| - 1;
      var init := keys[..n];
      assert forall k :: 0 <= k < n ==> init[k] == keys[k];
      RetainedMeaning(init, now, decode);
      forall kid | kid in RetainedKeys(keys, now, decode) ensures Retained(keys, kid, now) {
        if kid in RetainedKeys(init, now, decode) {
          var i :| 0 <= i < n && init[i].kid == kid && now < init[i].notAfter;
          assert keys[i].kid == kid;
        } else {
          assert keys[n].kid == kid;
        }
      }
      hide Retained, SpecOk;
      forall i | 0 <= i < |keys| && now < keys[i].notAfter
        ensures keys[i].kid in RetainedKeys(keys, now, decode)
        ensures decode(keys[i].material) == Some(RetainedKeys(keys, now, decode)[keys[i].kid])
      {
        if i < n {
          assert init[i].kid in RetainedKeys(init, now, decode) && keys[i].kid != keys[n].kid;
        } else {
          SpecOkMeaning(keys[n], decode);
        }
      }
    }
  }

  lemma {:induction false} CurrentMeaning(keys: seq<KeySpec>, kid: Kid)
    requires UniqueKids(keys)
    ensures match CurrentSpec(keys, kid)
            case None => forall i :: 0 <= i < |keys| ==> keys[i].kid != kid
            case Some(spec) => exists i :: 0 <= i < |keys| && keys[i] == spec && spec.kid == kid
    ensures forall i :: 0 <= i < |keys| && keys[i].kid == kid ==> CurrentSpec(keys, kid) == Some(keys[i])
  {
    if keys != [] {
      var n := |keys| - 1;
      assert forall k :: 0 <= k < n ==> keys[..n][k] == keys[k];
      CurrentMeaning(keys[..n], kid);
    }
  }

  /** `load_with_readiness_threshold`. */
  method Load(doc: Document, now: Instant, threshold: nat, algorithm: Algorithm, decode: Decoder)
    returns (r: Result<KeyRing, KeyError>)
    ensures r.Ok? <==> Loadable(doc, now, algorithm, decode)
    ensures r.Ok? ==> RingOf(r.value, doc, now, decode) && r.value.readinessThreshold == threshold
    ensures r.Err? ==> r.error == Invalid
  {
    hide KeysOk, KidsOf, SpecOk;
    LoadableMeaning(doc, now, algorithm, decode);
    if doc.version != VersionOf(algorithm) || doc.currentKid == "" || doc.keys == [] {
      return Err(Invalid);
    }
    var keys: map<Kid, Key> := map[];
    var keyIds: set<Kid> := {};
    var currentValid := false;
    var currentWindow: Option<(Instant, Instant)> := None;
    EmptyKeys(decode);
    for i := 0 to |doc.keys|
      invariant KeysOk(doc.keys[..i], decode)
      invariant keyIds == KidsOf(doc.keys[..i])
      invariant keys == RetainedKeys(doc.keys[..i], now, decode)
      invariant match CurrentSpec(doc.keys[..i], doc.currentKid)
                case None => currentWindow == None && !currentValid
                case Some(spec) => currentWindow == Some((spec.notBefore, spec.notAfter)) && currentValid == ValidAt(spec, now)
    {
      var spec := doc.keys[i];
      assert doc.keys[..i + 1] == doc.keys[..i] + [spec] && doc.keys[..i + 1][..i] == doc.keys[..i];
      KeysOkExtends(doc.keys[..i], spec, decode);
      if KeysOk(doc.keys, decode) { KeysOkOfPrefix(doc.keys, i + 1, decode); }
      SpecOkMeaning(spec, decode);
      if spec.kid == "" || spec.notAfter <= spec.notBefore || spec.kid in keyIds {
        return Err(Invalid);
      }
      keyIds := keyIds + {spec.kid};
      var key := decode(spec.material);
      if key.None? {
        return Err(Invalid);
      }
      if spec.kid == doc.currentKid {
        currentValid := spec.notBefore <= now && now < spec.notAfter;
        currentWindow := Some((spec.notBefore, spec.notAfter));
      }
      if now < spec.notAfter {
        keys := keys[spec.kid := key.value];
      }
    }
    assert doc.keys[..|doc.keys|] == doc.keys;
    if !currentValid || doc.currentKid !in keys || currentWindow.None? {
      MissingCurrent(doc, now, decode);
      return Err(Invalid);
    }
    var ring := KeyRing(doc.currentKid, currentWindow.value.0, currentWindow.value.1, threshold, keys);
    CollectedRing(ring, doc, now, decode);
    return Ok(ring);
  }

  lemma SpecOkMeaning(spec: KeySpec, decode: Decoder)
    ensures SpecOk(spec, decode) <==> spec.kid != "" && spec.notBefore < spec.notAfter && decode(spec.material).Some?
  {
  }

  lemma EmptyKeys(decode: Decoder)
    ensures KeysOk([], decode) && KidsOf([]) == {}
  {
  }

  lemma LoadableMeaning(doc: Document, now: Instant, algorithm: Algorithm, decode: Decoder)
    ensures Loadable(doc, now, algorithm, decode) <==>
            doc.version == VersionOf(algorithm) && KeysOk(doc.keys, decode) && HasCurrent(doc, now)
    ensures Loadable(doc, now, algorithm, decode) ==> doc.currentKid != "" && doc.keys != []
  {
  }

  lemma MissingCurrent(doc: Document, now: Instant, decode: Decoder)
    requires KeysOk(doc.keys, decode)
    requires match CurrentSpec(doc.keys, doc.currentKid)
             case None => true
             case Some(spec) => !ValidAt(spec, now) || doc.currentKid !in RetainedKeys(doc.keys, now, decode)
    ensures !HasCurrent(doc, now)
  {
    CurrentMeaning(doc.keys, doc.currentKid);
    RetainedMeaning(doc.keys, now, decode);
  }

  lemma CollectedRing(ring: KeyRing, doc: Document, now: Instant, decode: Decoder)
    requires KeysOk(doc.keys, decode) && ring.keys == RetainedKeys(doc.keys, now, decode)
    requires ring.currentKid == doc.currentKid
    requires match CurrentSpec(doc.keys, doc.currentKid)
             case None => false
             case Some(spec) => ring.currentNotBefore == spec.notBefore && ring.currentNotAfter == spec.notAfter && ValidAt(spec, now)
    ensures RingOf(ring, doc, now, decode) && HasCurrent(doc, now)
  {
    CurrentMeaning(doc.keys, doc.currentKid);
    RetainedMeaning(doc.keys, now, decode);
  }

  // ----- signing window and readiness -----

  /** `sign_at` up to the encoding itself: the key that signs, or a refusal. */
  function SigningKey(ring: KeyRing, now: Instant): Result<Key, KeyError> {
    if now < ring.currentNotBefore || now >= ring.currentNotAfter then Err(Invalid)
    else if ring.currentKid !in ring.keys then Err(Invalid)
    else Ok(ring.keys[ring.currentKid])
  }

  /**
   A loaded ring signs exactly within the window of the document's current key, and with that key; outside the
   window it refuses.
   */
  lemma SignsExactly(ring: KeyRing, doc: Document, loaded: Instant, algorithm: Algorithm, decode: Decoder, now: Instant)
    requires Loadable(doc, loaded, algorithm, decode) && RingOf(ring, doc, loaded, decode)
    ensures SigningKey(ring, now).Ok? <==> ring.currentNotBefore <= now < ring.currentNotAfter
    ensures forall i :: 0 <= i < |doc.keys| && doc.keys[i].kid == doc.currentKid ==>
      && (SigningKey(ring, now).Ok? <==> doc.keys[i].notBefore <= now < doc.keys[i].notAfter)
      && (SigningKey(ring, now).Ok? ==> decode(doc.keys[i].material) == Some(SigningKey(ring, now).value))
    ensures SigningKey(ring, now).Err? ==> SigningKey(ring, now).error == Invalid
  {
    var i :| 0 <= i < |doc.keys| && doc.keys[i].kid == doc.currentKid && ValidAt(doc.keys[i], loaded);
    assert loaded < doc.keys[i].notAfter;
    assert forall j :: 0 <= j < |doc.keys| && doc.keys[j].kid == doc.currentKid ==> j == i;
  }

  function SecondsUntilExpiry(ring: KeyRing, now: Instant): nat {
    var seconds := TruncatedSeconds(ring.currentNotAfter - now);
    if seconds < 0 then 0 else seconds
  }

  predicate IsReadyAt(ring: KeyRing, now: Instant) {
    && now >= ring.currentNotBefore
    && now < ring.currentNotAfter
    && SecondsUntilExpiry(ring, now) > ring.readinessThreshold
  }

  /** Rounding to whole seconds makes readiness stricter: it needs one second more than the threshold. */
  lemma ReadyExactly(ring: KeyRing, now: Instant)
    ensures IsReadyAt(ring, now) <==>
            ring.currentNotBefore <= now && now + (ring.readinessThreshold + 1) * NANOS <= ring.currentNotAfter
  {
  }

  /** A ready ring, loaded at any earlier time, can sign at every instant up to the threshold ahead. */
  lemma ReadyRingSigns(ring: KeyRing, doc: Document, loaded: Instant, algorithm: Algorithm, decode: Decoder, now: Instant, later: Instant)
    requires Loadable(doc, loaded, algorithm, decode) && RingOf(ring, doc, loaded, decode)
    requires IsReadyAt(ring, now) && loaded <= now
    requires now <= later <= now + ring.readinessThreshold * NANOS
    ensures SigningKey(ring, later).Ok?
  {
  }

  /**
   A token signed while the ring is ready, or up to threshold minus 120 s later, expires before its key:
   `issued` is the earlier clock reading from which its `exp` is computed.
   */
  lemma TokenExpiresBeforeKey(ring: KeyRing, ready: Instant, issued: Instant, signed: Instant)
    requires ring.readinessThreshold >= MIN_READINESS_THRESHOLD_SECONDS
    requires IsReadyAt(ring, ready)
    requires issued <= signed <= ready + (ring.readinessThreshold - TOKEN_TTL_SECONDS) * NANOS
    ensures (WholeSeconds(issued) + TOKEN_TTL_SECONDS) * NANOS < ring.currentNotAfter
  {
  }

  // ----- published keys -----

  datatype PublicJwk = PublicJwk(kid: Kid, publicKey: string)

  function KidOf(jwk: PublicJwk): string {
    jwk.kid
  }

  /** A list of public keys by strictly increasing ID. */
  ghost predicate Published(jwks: seq<PublicJwk>, keys: map<Kid, Key>, public: Key -> string) {
    && Sorting.Sorted(KidOf, jwks) && Sorting.UniqueKeys(KidOf, jwks)
    && (forall jwk :: jwk in jwks <==> jwk.kid in keys && jwk.publicKey == public(keys[jwk.kid]))
  }

  /** `jwks`: the map is visited in any order, the published list is always the same. */
  method Jwks(ring: KeyRing, public: Key -> string) returns (jwks: seq<PublicJwk>)
    ensures Published(jwks, ring.keys, public)
  {
    var list: seq<PublicJwk> := [];
    var left := ring.keys.Keys;
    while left != {}
      invariant left <= ring.keys.Keys
      invariant Sorting.UniqueKeys(KidOf, list)
      invariant forall jwk :: jwk in list <==> jwk.kid in ring.keys.Keys - left && jwk.publicKey == public(ring.keys[jwk.kid])
      decreases |left|
    {
      var kid :| kid in left;
      assert forall i :: 0 <= i < |list| ==> list[i] in list && list[i].kid != kid;
      list := list + [PublicJwk(kid, public(ring.keys[kid]))];
      left := left - {kid};
    }
    Sorting.SortByMeaning(KidOf, list);
    Sorting.SortIgnoresOrder(KidOf, list, list);
    jwks := Sorting.SortBy(KidOf, list);
    forall jwk ensures jwk in jwks <==> jwk in list {
      assert jwk in jwks <==> jwk in multiset(jwks);
      assert jwk in list <==> jwk in multiset(list);
    }
  }

  lemma PublishedIsUnique(a: seq<PublicJwk>, b: seq<PublicJwk>, keys: map<Kid, Key>, public: Key -> string)
    requires Published(a, keys, public) && Published(b, keys, public)
    ensures a == b
  {
    SameMultiset(a, b);
    Sorting.SortedIsUnique(KidOf, a, b);
  }

  lemma SameMultiset(a: seq<PublicJwk>, b: seq<PublicJwk>)
    requires Sorting.UniqueKeys(KidOf, a) && Sorting.UniqueKeys(KidOf, b)
    requires forall jwk :: jwk in a <==> jwk in b
    ensures multiset(a) == multiset(b)
  {
    forall jwk ensures multiset(a)[jwk] == multiset(b)[jwk] {
      Sorting.OnceInMultiset(KidOf, a, jwk);
      Sorting.OnceInMultiset(KidOf, b, jwk);
      assert jwk in a <==> jwk in multiset(a);
      assert jwk in b <==> jwk in multiset(b);
    }
  }

  /** `ensure_disjoint_from`: the retained keys of the two rings have no ID in common. */
  function EnsureDisjoint(rsa: KeyRing, es256: KeyRing): Result<(), KeyError> {
    if exists kid :: kid in rsa.keys && kid in es256.keys then Err(Invalid) else Ok(())
  }

  class JwkSet {
    var keys: seq<PublicJwk>

    constructor (keys: seq<PublicJwk>)
      ensures this.keys == keys
    {
      this.keys := keys;
    }

    /** Merges another list: all keys of both, by ID, and keys with one ID in the order they came. */
    method Extend(other: seq<PublicJwk>)
      modifies this
      ensures Sorting.Sorted(KidOf, keys) && multiset(keys) == multiset(old(keys) + other)
      ensures forall kid :: Sorting.Select(KidOf, keys, kid) == Sorting.Select(KidOf, old(keys) + other, kid)
    {
      keys := keys + other;
      ghost var all := keys;
      keys := Sorting.SortBy(KidOf, keys);
      Sorting.SortByMeaning(KidOf, all);
      forall kid ensures Sorting.Select(KidOf, keys, kid) == Sorting.Select(KidOf, all, kid) {
        Sorting.SortIsStable(KidOf, all, kid);
      }
    }
  }

  /** Two rings are disjoint exactly when no ID occurs twice in their published lists together. */
  lemma DisjointExactly(es256: KeyRing, rsa: KeyRing, a: seq<PublicJwk>, b: seq<PublicJwk>, public: Key -> string)
    requires Published(a, es256.keys, public) && Published(b, rsa.keys, public)
    ensures EnsureDisjoint(rsa, es256).Ok? <==> Sorting.UniqueKeys(KidOf, a + b)
  {
    var all := a + b;
    if EnsureDisjoint(rsa, es256).Ok? {
      forall i, j | 0 <= i < j < |all| ensures all[i].kid != all[j].kid {
        assert i < |a| ==> all[i] in a;
        assert j >= |a| ==> all[j] in b;
      }
    } else {
      var kid :| kid in rsa.keys && kid in es256.keys;
      assert PublicJwk(kid, public(es256.keys[kid])) in a && PublicJwk(kid, public(rsa.keys[kid])) in b;
      var i :| 0 <= i < |a| && a[i].kid == kid;
      var j :| 0 <= j < |b| && b[j].kid == kid;
      assert KidOf(all[i]) == KidOf(all[|a| + j]);
    }
  }

  /** Extending with the keys of a disjoint ring publishes exactly the keys of both, each once and in order. */
  lemma ExtendedPublishesBoth(es256: KeyRing, rsa: KeyRing, a: seq<PublicJwk>, b: seq<PublicJwk>, merged: seq<PublicJwk>,
                              public: Key -> string)
    requires Published(a, es256.keys, public) && Published(b, rsa.keys, public)
    requires EnsureDisjoint(rsa, es256).Ok?
    requires Sorting.Sorted(KidOf, merged) && multiset(merged) == multiset(a + b)
    ensures Published(merged, es256.keys + rsa.keys, public)
  {
    var all := a + b;
    DisjointExactly(es256, rsa, a, b, public);
    Sorting.UniqueKeysPermute(KidOf, all, merged);
    forall jwk ensures jwk in merged <==> jwk in a || jwk in b {
      assert jwk in merged <==> jwk in multiset(merged);
      assert jwk in all <==> jwk in multiset(all);
    }
  }
}
