/** Decimal notation: printing of integers, and the `numeric_string` form of 32-bit claims. */
module Decimal {
  import opened Wrappers
  import opened Text
  import opened Numbers

  function DigitChar(d: nat): char
    requires d < 10
  {
    '0' + d as char
  }

  function DigitValue(c: char): nat
    requires IsDigit(c)
  {
    (c - '0') as nat
  }

  /** `to_string` of an unsigned integer. */
  function Print(n: nat): (s: string)
    ensures s != "" && AllDigits(s)
  {
    if n < 10 then [DigitChar(n)] else Print(n / 10) + [DigitChar(n % 10)]
  }

  /** `to_string` of a signed integer. */
  function PrintInt(n: int): string {
    if n < 0 then "-" + Print(-n) else Print(n)
  }

  function ValueOf(s: string): nat
    requires AllDigits(s)
  {
    if s == "" then 0 else 10 * ValueOf(s[..|s| - 1]) + DigitValue(s[|s| - 1])
  }

  /** No leading zero, and nothing but digits. */
  predicate Canonical(s: string) {
    s != "" && AllDigits(s) && (|s| > 1 ==> s[0] != '0')
  }

  lemma {:induction false} PrintIsCanonical(n: nat)
    ensures Canonical(Print(n)) && ValueOf(Print(n)) == n
    ensures n > 0 ==> Print(n)[0] != '0'
  {
    if n >= 10 {
      PrintIsCanonical(n / 10);
      assert Print(n)[..|Print(n)| - 1] == Print(n / 10);
    }
  }

  /** A canonical numeral longer than one digit is not below ten. */
  lemma {:induction false} CanonicalValue(s: string)
    requires Canonical(s)
    ensures s != "0" ==> ValueOf(s) > 0
  {
    if |s| == 1 {
      assert ValueOf(s[..0]) == 0;
    } else {
      var head := s[..|s| - 1];
      assert head[0] == s[0];
      CanonicalValue(head);
    }
  }

  lemma {:induction false} PrintOfValue(s: string)
    requires Canonical(s)
    ensures Print(ValueOf(s)) == s
  {
    if |s| == 1 {
      assert ValueOf(s[..0]) == 0;
    } else {
      var head := s[..|s| - 1];
      assert head[0] == s[0];
      CanonicalValue(head);
      PrintOfValue(head);
      assert s == head + [s[|s| - 1]];
    }
  }

  lemma PrintIsInjective(m: nat, n: nat)
    requires Print(m) == Print(n)
    ensures m == n
  {
    PrintIsCanonical(m);
    PrintIsCanonical(n);
  }

  lemma PrintIntIsInjective(m: int, n: int)
    requires PrintInt(m) == PrintInt(n)
    ensures m == n
  {
    assert PrintInt(m)[0] == '-' <==> m < 0;
    assert PrintInt(n)[0] == '-' <==> n < 0;
    if m < 0 {
      assert PrintInt(m)[1..] == Print(-m) && PrintInt(n)[1..] == Print(-n);
      PrintIsInjective(-m, -n);
    } else {
      PrintIsInjective(m, n);
    }
  }

  function Power10(k: nat): nat {
    if k == 0 then 1 else 10 * Power10(k - 1)
  }

  lemma {:induction false} PrintLength(n: nat, k: nat)
    requires k > 0 && n < Power10(k)
    ensures |Print(n)| <= k
  {
    if n >= 10 {
      PrintLength(n / 10, k - 1);
    }
  }

  // ----- numeric_string -----

  function Serialize(value: nat): string
    requires value <= U32_MAX
  {
    Print(value)
  }

  datatype ParseError = NotCanonical | Overflow

  function Deserialize(value: string): Result<nat, ParseError> {
    if value == "" || |value| > 10 || !AllDigits(value) || (|value| > 1 && value[0] == '0') then Err(NotCanonical)
    else if ValueOf(value) > U32_MAX then Err(Overflow)
    else Ok(ValueOf(value))
  }

  /** Reading what was written gives the number back. */
  lemma SerializeRoundTrip(n: nat)
    requires n <= U32_MAX
    ensures Deserialize(Serialize(n)) == Ok(n)
  {
    PrintIsCanonical(n);
    assert Power10(10) == 10_000_000_000 by {
      assert Power10(5) == 100_000;
    }
    PrintLength(n, 10);
  }

  /** A text is too large exactly when it is the notation of a number of at most ten digits beyond 32 bits. */
  lemma OverflowExactly(value: string)
    ensures Deserialize(value) == Err(Overflow) <==> exists n: nat :: U32_MAX < n < 10_000_000_000 && Print(n) == value
  {
    if Deserialize(value) == Err(Overflow) {
      PrintOfValue(value);
      ValueIsShort(value);
      TenDigits();
      assert Print(ValueOf(value)) == value;
    }
    if n: nat :| U32_MAX < n < 10_000_000_000 && Print(n) == value {
      PrintIsCanonical(n);
      TenDigits();
      PrintLength(n, 10);
    }
  }

  lemma TenDigits()
    ensures Power10(10) == 10_000_000_000
  {
    assert Power10(5) == 100_000;
  }

  lemma {:induction false} ValueIsShort(s: string)
    requires AllDigits(s)
    ensures ValueOf(s) < Power10(|s|)
    ensures |s| <= 10 ==> Power10(|s|) <= Power10(10)
  {
    if s != "" {
      ValueIsShort(s[..|s| - 1]);
    }
    if |s| <= 10 {
      MorePower10(|s|, 10);
    }
  }

  lemma {:induction false} MorePower10(few: nat, many: nat)
    requires few <= many
    ensures Power10(few) <= Power10(many)
    decreases many
  {
    if few < many {
      MorePower10(few, many - 1);
    }
  }

  /** A text is accepted exactly when it is the one notation of a 32-bit number. */
  lemma AcceptedExactly(value: string)
    ensures Deserialize(value).Ok? <==> exists n: nat :: n <= U32_MAX && Serialize(n) == value
    ensures Deserialize(value).Ok? ==> Deserialize(value).value <= U32_MAX && Serialize(Deserialize(value).value) == value
  {
    if Deserialize(value).Ok? {
      PrintOfValue(value);
      assert Serialize(ValueOf(value)) == value;
    }
    if n: nat :| n <= U32_MAX && Serialize(n) == value {
      SerializeRoundTrip(n);
    }
  }
}
