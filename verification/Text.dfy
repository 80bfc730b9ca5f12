/**
 Byte strings.  A `string` stands for the UTF-8 bytes of a Rust string, one character a byte, so lengths and
 per-byte checks are exactly those of the program.
 */
module Text {
  import opened Wrappers

  predicate HasPrefix(s: string, prefix: string) {
    |prefix| <= |s| && s[..|prefix|] == prefix
  }

  predicate HasSuffix(s: string, suffix: string) {
    |suffix| <= |s| && s[|s| - |suffix|..] == suffix
  }

  predicate OccursAt(s: string, part: string, i: int) {
    0 <= i <= |s| - |part| && s[i..i + |part|] == part
  }

  predicate Contains(s: string, part: string) {
    exists i :: 0 <= i <= |s| && OccursAt(s, part, i)
  }

  predicate IsDigit(c: char) {
    '0' <= c <= '9'
  }

  predicate IsUpper(c: char) {
    'A' <= c <= 'Z'
  }

  predicate IsLower(c: char) {
    'a' <= c <= 'z'
  }

  predicate IsGraphic(c: char) {
    '!' <= c <= '~'
  }

  predicate IsHex(c: char) {
    IsDigit(c) || 'a' <= c <= 'f'
  }

  predicate AllGraphic(s: string) {
    forall i :: 0 <= i < |s| ==> IsGraphic(s[i])
  }

  predicate AllDigits(s: string) {
    forall i :: 0 <= i < |s| ==> IsDigit(s[i])
  }

  predicate AllHex(s: string) {
    forall i :: 0 <= i < |s| ==> IsHex(s[i])
  }

  function ByteAt(s: string, i: nat): int {
    if i < |s| then s[i] as int else 0
  }

  /** The UTF-8 bytes of a character with the Unicode property White_Space begin at `i`. */
  predicate WhitespaceAt(s: string, i: nat) {
    var a, b, c := ByteAt(s, i), ByteAt(s, i + 1), ByteAt(s, i + 2);
    || 0x09 <= a <= 0x0d || a == 0x20
    || (a == 0xc2 && (b == 0x85 || b == 0xa0))
    || (a == 0xe1 && b == 0x9a && c == 0x80)
    || (a == 0xe2 && b == 0x80 && (0x80 <= c <= 0x8a || c == 0xa8 || c == 0xa9 || c == 0xaf))
    || (a == 0xe2 && b == 0x81 && c == 0x9f)
    || (a == 0xe3 && b == 0x80 && c == 0x80)
  }

  /** `contains(char::is_whitespace)`. */
  predicate HasWhitespace(s: string) {
    exists i :: 0 <= i < |s| && WhitespaceAt(s, i)
  }

  /** Equal to its own ASCII lower-casing. */
  predicate IsLowercase(s: string) {
    forall i :: 0 <= i < |s| ==> !IsUpper(s[i])
  }

  predicate BoundedGraphic(s: string, maximum: nat) {
    0 < |s| <= maximum && AllGraphic(s)
  }

  /** Position of the first occurrence of `c`, or the length. */
  function IndexOf(s: string, c: char): (i: nat)
    ensures i <= |s|
    ensures i < |s| ==> s[i] == c
    ensures forall k :: 0 <= k < i ==> s[k] != c
  {
    if s == "" || s[0] == c then 0 else 1 + IndexOf(s[1..], c)
  }

  /** Position of the last occurrence of `c`, or -1. */
  function LastIndexOf(s: string, c: char): (i: int)
    ensures -1 <= i < |s|
    ensures 0 <= i ==> s[i] == c
    ensures forall k :: i < k < |s| ==> s[k] != c
  {
    if s == "" then -1
    else if s[|s| - 1] == c then |s| - 1
    else LastIndexOf(s[..|s| - 1], c)
  }

  /** Position of the first occurrence of `part` from `start` on, or -1. */
  function FindFrom(s: string, part: string, start: nat): (i: int)
    requires start <= |s|
    ensures i == -1 || (start <= i && OccursAt(s, part, i))
    ensures forall k :: start <= k && (i == -1 || k < i) ==> !OccursAt(s, part, k)
    decreases |s| - start
  {
    if OccursAt(s, part, start) then start
    else if start == |s| then -1
    else FindFrom(s, part, start + 1)
  }

  /** `split_once(c)`. */
  function SplitOnce(s: string, c: char): Option<(string, string)> {
    var i := IndexOf(s, c);
    if i == |s| then None else Some((s[..i], s[i + 1..]))
  }

  /** `rsplit_once(c)`. */
  function RSplitOnce(s: string, c: char): Option<(string, string)> {
    var i := LastIndexOf(s, c);
    if i == -1 then None else Some((s[..i], s[i + 1..]))
  }

  /** `split_once(part)`. */
  function SplitOnceAt(s: string, part: string): Option<(string, string)> {
    var i := FindFrom(s, part, 0);
    if i == -1 then None else Some((s[..i], s[i + |part|..]))
  }

  /** `strip_prefix(prefix)`. */
  function StripPrefix(s: string, prefix: string): Option<string> {
    if HasPrefix(s, prefix) then Some(s[|prefix|..]) else None
  }

  lemma StripsPrefix(prefix: string, rest: string)
    ensures HasPrefix(prefix + rest, prefix) && StripPrefix(prefix + rest, prefix) == Some(rest)
  {
  }

  predicate DecimalIdentifier(value: string) {
    value != "" && AllDigits(value)
  }

  predicate NumericIdentifier(value: string) {
    |value| <= 20 && DecimalIdentifier(value) && value != "0" && value[0] != '0'
  }

  /** A canonical user ID: `usr_` and 32 lower-case hex digits. */
  predicate CanonicalUserId(value: string) {
    match StripPrefix(value, "usr_")
    case None => false
    case Some(suffix) => |suffix| == 32 && AllHex(suffix)
  }

  /** `split(c)`: the parts between occurrences. */
  function Split(s: string, c: char): (parts: seq<string>)
    ensures parts != []
    decreases |s|
  {
    var i := IndexOf(s, c);
    if i == |s| then [s] else [s[..i]] + Split(s[i + 1..], c)
  }

  lemma SplitOnceAtJoins(s: string, part: string)
    requires SplitOnceAt(s, part).Some?
    ensures s == SplitOnceAt(s, part).value.0 + part + SplitOnceAt(s, part).value.1
  {
  }

  lemma RSplitOnceJoins(s: string, c: char)
    requires RSplitOnce(s, c).Some?
    ensures s == RSplitOnce(s, c).value.0 + [c] + RSplitOnce(s, c).value.1
    ensures c !in RSplitOnce(s, c).value.1
  {
  }

  /** A separator that occurs in neither head splits a text in one way. */
  lemma SplitIsUnique(a: string, b: string, c: char, x: string, y: string)
    requires a + [c] + x == b + [c] + y
    requires c !in a && c !in b
    ensures a == b && x == y
  {
    var s, t := a + [c] + x, b + [c] + y;
    assert s[|a|] == c && t[|b|] == c;
    assert forall k :: 0 <= k < |a| ==> s[k] == a[k];
    assert forall k :: 0 <= k < |b| ==> t[k] == b[k];
    assert |a| == |b|;
    assert a == s[..|a|] && b == t[..|b|];
    assert x == s[|a| + 1..] && y == t[|b| + 1..];
  }
}
