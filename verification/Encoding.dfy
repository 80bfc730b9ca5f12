/**
 Replay identity of a generic OIDC assertion: the bytes fed to the hash are length-prefixed, so they say
 exactly which identity was meant.
 */
module Encoding {
  import opened Wrappers
  import opened Text
  import opened Numbers
  import opened OidcClaims
  import Decimal

  // ----- big-endian lengths -----

  function Power256(width: nat): nat {
    if width == 0 then 1 else 256 * Power256(width - 1)
  }

  function BigEndian(n: nat, width: nat): (s: string)
    ensures |s| == width
  {
    if width == 0 then "" else BigEndian(n / 256, width - 1) + [(n % 256) as char]
  }

  lemma {:induction false} BigEndianIsInjective(m: nat, n: nat, width: nat)
    requires m < Power256(width) && n < Power256(width)
    requires BigEndian(m, width) == BigEndian(n, width)
    ensures m == n
  {
    if width > 0 {
      var a, b := BigEndian(m, width), BigEndian(n, width);
      assert a[..width - 1] == BigEndian(m / 256, width - 1) && b[..width - 1] == BigEndian(n / 256, width - 1);
      assert a[width - 1] == (m % 256) as char && b[width - 1] == (n % 256) as char;
      BigEndianIsInjective(m / 256, n / 256, width - 1);
    }
  }

  lemma EightBytes()
    ensures Power256(8) == U64_MODULUS
  {
  }

  // ----- components -----

  /** `write_replay_component`: the length as eight big-endian bytes, then the bytes. */
  function Component(value: string): string {
    BigEndian(|value| % U64_MODULUS, 8) + value
  }

  predicate Short(value: string) {
    |value| < U64_MODULUS
  }

  /** A component can be cut off the front of a text in one way. */
  lemma ComponentIsPrefixFree(a: string, b: string, x: string, y: string)
    requires Short(a) && Short(b)
    requires Component(a) + x == Component(b) + y
    ensures a == b && x == y
  {
    hide BigEndian, Power256;
    var s, t := Component(a) + x, Component(b) + y;
    assert s[..8] == BigEndian(|a|, 8) && t[..8] == BigEndian(|b|, 8);
    EightBytes();
    BigEndianIsInjective(|a|, |b|, 8);
    assert s[8..8 + |a|] == a && t[8..8 + |b|] == b;
    assert s[8 + |a|..] == x && t[8 + |b|..] == y;
  }

  // ----- reading components back -----

  /** The number that big-endian bytes stand for. */
  function FromBigEndian(s: string): nat {
    if s == "" then 0 else 256 * FromBigEndian(s[..|s| - 1]) + s[|s| - 1] as nat
  }

  lemma {:induction false} BigEndianReadsBack(n: nat, width: nat)
    requires n < Power256(width)
    ensures FromBigEndian(BigEndian(n, width)) == n
  {
    if width > 0 {
      var s := BigEndian(n, width);
      assert s[..width - 1] == BigEndian(n / 256, width - 1) && s[width - 1] == (n % 256) as char;
      BigEndianReadsBack(n / 256, width - 1);
    }
  }

  /** Components one after the other: eight bytes of length and as many bytes, until nothing is left. */
  function ReadComponents(bytes: string): Option<seq<string>>
    decreases |bytes|
  {
    if bytes == "" then Some([])
    else if |bytes| < 8 then None
    else
      var length := FromBigEndian(bytes[..8]);
      if |bytes| < 8 + length then None
      else
        match ReadComponents(bytes[8 + length..])
        case None => None
        case Some(rest) => Some([bytes[8..8 + length]] + rest)
  }

  lemma ReadsComponent(value: string, rest: string)
    requires Short(value) && ReadComponents(rest).Some?
    ensures ReadComponents(Component(value) + rest) == Some([value] + ReadComponents(rest).value)
  {
    hide BigEndian, FromBigEndian, Power256;
    var bytes := Component(value) + rest;
    EightBytes();
    BigEndianReadsBack(|value|, 8);
    ComponentParts(value, rest);
    hide Component;
    assert FromBigEndian(bytes[..8]) == |value|;
  }

  lemma ComponentParts(value: string, rest: string)
    requires Short(value)
    ensures var bytes := Component(value) + rest;
      && |bytes| == 8 + |value| + |rest|
      && bytes[..8] == BigEndian(|value|, 8) && bytes[8..8 + |value|] == value && bytes[8 + |value|..] == rest
  {
    hide BigEndian;
  }

  // ----- replay identity -----

  predicate Identified(c: Claims) {
    c.jti.Some? || c.buildNumber.Some?
  }

  /** The bytes hashed by `replay_identifier`; without a `jti` a build number is needed. */
  function Preimage(c: Claims): (bytes: Option<string>)
    ensures bytes.Some? <==> Identified(c)
  {
    match c.jti
    case Some(jti) => Some(Component(c.issuer) + (Component("jti") + Component(jti)))
    case None =>
      match c.buildNumber
      case None => None
      case Some(build) =>
        Some(Component(c.issuer) + (Component("jenkins-build") +
             (Component(c.subject) + (Component(Decimal.PrintInt(c.issuedAt)) + Component(Decimal.Print(build))))))
  }

  /** The replay identity: issuer and `jti`, or, without a `jti`, issuer, subject, issue time and build. */
  predicate SameIdentity(c: Claims, d: Claims) {
    && c.issuer == d.issuer
    && c.jti == d.jti
    && (c.jti.None? ==> c.subject == d.subject && c.issuedAt == d.issuedAt && c.buildNumber == d.buildNumber)
  }

  /** Bounds that every verified assertion meets: texts of at most 32 KiB, 64-bit numbers. */
  predicate Bounded(c: Claims) {
    && Short(c.issuer) && Short(c.subject)
    && (c.jti.Some? ==> Short(c.jti.value))
    && -0x8000_0000_0000_0000 <= c.issuedAt < 0x8000_0000_0000_0000
    && (c.buildNumber.Some? ==> c.buildNumber.value < U64_MODULUS)
  }

  lemma NumbersAreShort(n: nat)
    requires n < U64_MODULUS
    ensures Short(Decimal.Print(n)) && Short("-" + Decimal.Print(n))
  {
    assert Decimal.Power10(5) == 100_000;
    assert Decimal.Power10(10) == 10_000_000_000;
    assert Decimal.Power10(15) == 1_000_000_000_000_000;
    assert Decimal.Power10(20) == 100_000_000_000_000_000_000;
    Decimal.PrintLength(n, 20);
  }

  lemma TagsDiffer(x: string, y: string)
    ensures Component("jti") + x != Component("jenkins-build") + y
  {
    assert |"jti"| != |"jenkins-build"|;
    if Component("jti") + x == Component("jenkins-build") + y {
      ComponentIsPrefixFree("jti", "jenkins-build", x, y);
    }
  }

  lemma SplitComponent(a: string, b: string, x: string, y: string)
    requires Short(a) && Short(b)
    ensures Component(a) + x == Component(b) + y <==> a == b && x == y
  {
    if Component(a) + x == Component(b) + y {
      ComponentIsPrefixFree(a, b, x, y);
    }
  }

  lemma SameComponent(a: string, b: string)
    requires Short(a) && Short(b)
    ensures Component(a) == Component(b) <==> a == b
  {
    assert Component(a) + "" == Component(a) && Component(b) + "" == Component(b);
    SplitComponent(a, b, "", "");
  }

  /** The hashed bytes are equal exactly when the replay identities are, across both forms. */
  lemma PreimageExactly(c: Claims, d: Claims)
    requires Bounded(c) && Bounded(d)
    requires Identified(c) && Identified(d)
    ensures Preimage(c) == Preimage(d) <==> SameIdentity(c, d)
  {
    hide Component, Decimal.Print, Decimal.PrintInt;
    var cTail, dTail := Tail(c), Tail(d);
    SplitComponent(c.issuer, d.issuer, cTail, dTail);
    if c.jti.Some? && d.jti.Some? {
      SplitComponent("jti", "jti", Component(c.jti.value), Component(d.jti.value));
      SameComponent(c.jti.value, d.jti.value);
    } else if c.jti.None? && d.jti.None? {
      BuildTailExactly(c, d);
    } else if c.jti.Some? {
      TagsDiffer(Component(c.jti.value), BuildTail(d));
    } else {
      TagsDiffer(Component(d.jti.value), BuildTail(c));
    }
  }

  /**
   The hashed bytes are, in this order: the issuer, then the tag and the `jti`, or the tag, the subject, the issue
   time and the build number.
   */
  lemma PreimageReadsBack(c: Claims)
    requires Bounded(c) && Identified(c)
    ensures ReadComponents(Preimage(c).value) == Some(
      if c.jti.Some? then [c.issuer, "jti", c.jti.value]
      else [c.issuer, "jenkins-build", c.subject, Decimal.PrintInt(c.issuedAt), Decimal.Print(c.buildNumber.value)])
  {
    hide Component, ReadComponents, Decimal.Print, Decimal.PrintInt;
    NothingLeft();
    if c.jti.Some? {
      var jti := c.jti.value;
      assert Component(jti) + "" == Component(jti);
      ReadsComponent(jti, "");
      ReadsComponent("jti", Component(jti));
      ReadsComponent(c.issuer, Component("jti") + Component(jti));
      assert [c.issuer] + (["jti"] + ([jti] + [])) == [c.issuer, "jti", jti];
    } else {
      PrintsAreShort(c);
      var m, n := Decimal.PrintInt(c.issuedAt), Decimal.Print(c.buildNumber.value);
      assert Component(n) + "" == Component(n);
      ReadsComponent(n, "");
      ReadsComponent(m, Component(n));
      ReadsComponent(c.subject, Component(m) + Component(n));
      ReadsComponent("jenkins-build", Component(c.subject) + (Component(m) + Component(n)));
      ReadsComponent(c.issuer, Component("jenkins-build") + (Component(c.subject) + (Component(m) + Component(n))));
      assert [c.issuer] + (["jenkins-build"] + ([c.subject] + ([m] + ([n] + [])))) == [c.issuer, "jenkins-build", c.subject, m, n];
    }
  }

  lemma NothingLeft()
    ensures ReadComponents("") == Some([])
  {
  }

  function BuildTail(c: Claims): string
    requires c.buildNumber.Some?
  {
    Component(c.subject) + (Component(Decimal.PrintInt(c.issuedAt)) + Component(Decimal.Print(c.buildNumber.value)))
  }

  function Tail(c: Claims): string
    requires Identified(c)
  {
    if c.jti.Some? then Component("jti") + Component(c.jti.value) else Component("jenkins-build") + BuildTail(c)
  }

  lemma PrintsAreShort(c: Claims)
    requires Bounded(c) && c.buildNumber.Some?
    ensures Short(Decimal.PrintInt(c.issuedAt)) && Short(Decimal.Print(c.buildNumber.value))
  {
    NumbersAreShort(if c.issuedAt < 0 then -c.issuedAt else c.issuedAt);
    NumbersAreShort(c.buildNumber.value);
  }

  lemma BuildTailExactly(c: Claims, d: Claims)
    requires Bounded(c) && Bounded(d) && c.buildNumber.Some? && d.buildNumber.Some?
    ensures Component("jenkins-build") + BuildTail(c) == Component("jenkins-build") + BuildTail(d) <==>
            c.subject == d.subject && c.issuedAt == d.issuedAt && c.buildNumber == d.buildNumber
  {
    hide Component, Decimal.Print, Decimal.PrintInt;
    var m, n := Decimal.PrintInt(c.issuedAt), Decimal.PrintInt(d.issuedAt);
    var i, j := Decimal.Print(c.buildNumber.value), Decimal.Print(d.buildNumber.value);
    PrintsAreShort(c);
    PrintsAreShort(d);
    SplitComponent("jenkins-build", "jenkins-build", BuildTail(c), BuildTail(d));
    SplitComponent(c.subject, d.subject, Component(m) + Component(i), Component(n) + Component(j));
    SplitComponent(m, n, Component(i), Component(j));
    SameComponent(i, j);
    if m == n { Decimal.PrintIntIsInjective(c.issuedAt, d.issuedAt); }
    if i == j { Decimal.PrintIsInjective(c.buildNumber.value, d.buildNumber.value); }
  }

  /** The bytes hashed by `provider_scoped_subject` determine issuer and subject. */
  function SubjectPreimage(c: Claims): string {
    Component(c.issuer) + Component(c.subject)
  }

  lemma SubjectPreimageExactly(c: Claims, d: Claims)
    requires Bounded(c) && Bounded(d)
    ensures SubjectPreimage(c) == SubjectPreimage(d) <==> c.issuer == d.issuer && c.subject == d.subject
  {
    SplitComponent(c.issuer, d.issuer, Component(c.subject), Component(d.subject));
    SameComponent(c.subject, d.subject);
  }

  /** The hashed bytes are the issuer and then the subject. */
  lemma SubjectPreimageReadsBack(c: Claims)
    requires Bounded(c)
    ensures ReadComponents(SubjectPreimage(c)) == Some([c.issuer, c.subject])
  {
    hide Component, ReadComponents;
    NothingLeft();
    assert Component(c.subject) + "" == Component(c.subject);
    ReadsComponent(c.subject, "");
    ReadsComponent(c.issuer, Component(c.subject));
    assert [c.issuer] + ([c.subject] + []) == [c.issuer, c.subject];
  }

  // ----- the hasher -----

  /** SHA-256 as the buffer of bytes it was fed; `digest` stands for the hash in hexadecimal. */
  class Hasher {
    var buffer: string

    constructor ()
      ensures buffer == ""
    {
      buffer := "";
    }

    method Update(bytes: string)
      modifies this
      ensures buffer == old(buffer) + bytes
    {
      buffer := buffer + bytes;
    }

    method WriteReplayComponent(value: string)
      modifies this
      ensures buffer == old(buffer) + Component(value)
    {
      Update(BigEndian(|value| % U64_MODULUS, 8));
      Update(value);
    }
  }

  method ReplayIdentifier(c: Claims, digest: string -> string) returns (r: Option<string>)
    ensures r == match Preimage(c) case None => None case Some(bytes) => Some("oidc-" + digest(bytes))
    ensures r.None? <==> c.jti.None? && c.buildNumber.None?
    ensures r.Some? && Bounded(c) ==> exists bytes ::
      && r.value == "oidc-" + digest(bytes)
      && ReadComponents(bytes) == Some(
           if c.jti.Some? then [c.issuer, "jti", c.jti.value]
           else [c.issuer, "jenkins-build", c.subject, Decimal.PrintInt(c.issuedAt), Decimal.Print(c.buildNumber.value)])
  {
    hide Component, ReadComponents, Decimal.Print, Decimal.PrintInt;
    if Bounded(c) && Identified(c) {
      PreimageReadsBack(c);
    }
    var hasher := new Hasher();
    hasher.WriteReplayComponent(c.issuer);
    if c.jti.Some? {
      hasher.WriteReplayComponent("jti");
      hasher.WriteReplayComponent(c.jti.value);
    } else {
      hasher.WriteReplayComponent("jenkins-build");
      hasher.WriteReplayComponent(c.subject);
      hasher.WriteReplayComponent(Decimal.PrintInt(c.issuedAt));
      if c.buildNumber.None? {
        return None;
      }
      hasher.WriteReplayComponent(Decimal.Print(c.buildNumber.value));
    }
    assert hasher.buffer == Component(c.issuer) + Tail(c);
    return Some("oidc-" + digest(hasher.buffer));
  }

  method ProviderScopedSubject(c: Claims, digest: string -> string) returns (r: string)
    ensures r == "oidc:" + digest(SubjectPreimage(c))
    ensures Bounded(c) ==> exists bytes :: r == "oidc:" + digest(bytes) && ReadComponents(bytes) == Some([c.issuer, c.subject])
  {
    hide Component, ReadComponents;
    if Bounded(c) {
      SubjectPreimageReadsBack(c);
    }
    var hasher := new Hasher();
    hasher.WriteReplayComponent(c.issuer);
    hasher.WriteReplayComponent(c.subject);
    assert hasher.buffer == SubjectPreimage(c);
    r := "oidc:" + digest(hasher.buffer);
  }

  function IdentifierOf(c: Claims, digest: string -> string): string
    requires Identified(c)
  {
    "oidc-" + digest(Preimage(c).value)
  }

  /** Unless the hash collides on them, two assertions share a replay identifier exactly when they share the identity. */
  lemma IdentifierExactly(c: Claims, d: Claims, digest: string -> string)
    requires Bounded(c) && Bounded(d) && Identified(c) && Identified(d)
    requires digest(Preimage(c).value) == digest(Preimage(d).value) ==> Preimage(c) == Preimage(d)
    ensures IdentifierOf(c, digest) == IdentifierOf(d, digest) <==> SameIdentity(c, d)
  {
    hide Preimage, SameIdentity;
    var p, q := digest(Preimage(c).value), digest(Preimage(d).value);
    assert ("oidc-" + p)[5..] == p && ("oidc-" + q)[5..] == q;
    PreimageExactly(c, d);
  }
}
