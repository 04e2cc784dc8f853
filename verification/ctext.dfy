/** The C library behaviour the tree code relies on: NUL-terminated copies
    (strncpy into a zeroed buffer, then strcmp or "%s"), atoi on a
    primitive's text, and "%d" when a number is printed. */
module CText {

  /** The C string held by a buffer: its characters up to the first NUL. */
  function CStr(s: string): (r: string)
    ensures |r| <= |s| && r == s[..|r|]
    ensures '\0' !in r
    ensures |r| < |s| ==> s[|r|] == '\0'
  {
    if s == [] || s[0] == '\0' then [] else [s[0]] + CStr(s[1..])
  }

  /** A buffer without a NUL is its own C string. */
  lemma CStrNoNul(s: string)
    requires '\0' !in s
    ensures CStr(s) == s
  {
  }

  /** isspace in the C locale. */
  predicate IsSpace(c: char) {
    c == ' ' || c == '\t' || c == '\n' || c == '\U{B}' || c == '\U{C}' || c == '\r'
  }

  predicate IsDigit(c: char) {
    '0' <= c <= '9'
  }

  function DigitValue(c: char): (d: nat)
    requires IsDigit(c)
    ensures d < 10
  {
    (c as int) - ('0' as int)
  }

  function DigitChar(d: nat): (c: char)
    requires d < 10
    ensures IsDigit(c) && DigitValue(c) == d
  {
    (('0' as int) + d) as char
  }

  /** What atoi skips before the number: leading white space. */
  function SkipSpace(s: string): (r: string)
    ensures |r| <= |s| && r == s[|s| - |r|..]
    ensures r == [] || !IsSpace(r[0])
    ensures forall k :: 0 <= k < |s| - |r| ==> IsSpace(s[k])
  {
    if s != [] && IsSpace(s[0]) then SkipSpace(s[1..]) else s
  }

  /** The longest prefix of s made of decimal digits. */
  function LeadingDigits(s: string): (r: string)
    ensures |r| <= |s| && r == s[..|r|]
    ensures forall k :: 0 <= k < |r| ==> IsDigit(r[k])
    ensures |r| < |s| ==> !IsDigit(s[|r|])
  {
    if s != [] && IsDigit(s[0]) then [s[0]] + LeadingDigits(s[1..]) else []
  }

  /** The value of a string of decimal digits, most significant first. */
  function DigitsValue(d: string): (n: nat)
    requires forall k :: 0 <= k < |d| ==> IsDigit(d[k])
  {
    if d == [] then 0 else DigitsValue(d[..|d| - 1]) * 10 + DigitValue(d[|d| - 1])
  }

  function Pow10(k: nat): (p: nat)
    ensures p >= 1
  {
    if k == 0 then 1 else 10 * Pow10(k - 1)
  }

  /** atoi: white space, an optional sign, then as many digits as there are.
      Text without digits gives 0. Overflow is not modelled (see AtoiBound). */
  function Atoi(s: string): int {
    Signed(SkipSpace(s))
  }

  /** The number atoi reads once white space is skipped. */
  function Signed(t: string): int {
    if t != [] && t[0] == '-' then 0 - Unsigned(t[1..])
    else if t != [] && t[0] == '+' then Unsigned(t[1..])
    else Unsigned(t)
  }

  function Unsigned(t: string): nat {
    DigitsValue(LeadingDigits(t))
  }

  /** The digits of a natural number, as "%d" writes them. */
  function Digits(n: nat): (r: string)
    ensures |r| >= 1
    ensures forall k :: 0 <= k < |r| ==> IsDigit(r[k])
  {
    if n < 10 then [DigitChar(n)] else Digits(n / 10) + [DigitChar(n % 10)]
  }

  /** "%d": a minus sign for negative numbers, then the digits. */
  function Decimal(n: int): (r: string)
    ensures |r| >= 1
    ensures r[0] == '-' || IsDigit(r[0])
  {
    if n < 0 then "-" + Digits(-n) else Digits(n)
  }

  lemma {:induction false} DigitsValueBound(d: string)
    requires forall k :: 0 <= k < |d| ==> IsDigit(d[k])
    ensures DigitsValue(d) < Pow10(|d|)
  {
    if d != [] {
      DigitsValueBound(d[..|d| - 1]);
    }
  }

  lemma {:induction false} DigitsRoundTrip(n: nat)
    ensures DigitsValue(Digits(n)) == n
  {
    if n >= 10 {
      DigitsRoundTrip(n / 10);
      var d := Digits(n);
      assert d[..|d| - 1] == Digits(n / 10);
    }
  }

  lemma {:induction false} LeadingDigitsAll(s: string)
    requires forall k :: 0 <= k < |s| ==> IsDigit(s[k])
    ensures LeadingDigits(s) == s
  {
    if s != [] {
      LeadingDigitsAll(s[1..]);
    }
  }

  /** Reading back what "%d" wrote gives the number: atoi inverts Decimal. */
  lemma AtoiDecimal(n: int)
    ensures Atoi(Decimal(n)) == n
  {
    if n < 0 {
      AtoiNegative(n);
    } else {
      AtoiNonNegative(n);
    }
  }

  lemma AtoiNonNegative(n: int)
    requires n >= 0
    ensures Atoi(Decimal(n)) == n
  {
    var d := Digits(n);
    assert Decimal(n) == d;
    AtoiOfDigits(d);
    DigitsRoundTrip(n);
  }

  lemma AtoiNegative(n: int)
    requires n < 0
    ensures Atoi(Decimal(n)) == n
  {
    var d := Digits(-n);
    var s := Decimal(n);
    assert s == "-" + d;
    SkipNone(s);
    assert s[1..] == d;
    assert Signed(s) == 0 - Unsigned(d);
    LeadingDigitsAll(d);
    DigitsRoundTrip(-n);
  }

  /** atoi of a non-empty run of digits is their value. */
  lemma AtoiOfDigits(s: string)
    requires s != [] && forall k :: 0 <= k < |s| ==> IsDigit(s[k])
    ensures Atoi(s) == DigitsValue(s)
  {
    AtoiUnsigned(s);
    LeadingDigitsAll(s);
  }

  /** Text that starts with a digit is read as digits. */
  lemma AtoiUnsigned(s: string)
    requires s != [] && IsDigit(s[0])
    ensures Atoi(s) == Unsigned(s)
  {
    SkipNone(s);
    SignedDigits(s);
  }

  lemma SkipNone(s: string)
    requires s != [] && !IsSpace(s[0])
    ensures SkipSpace(s) == s
  {
  }

  lemma SignedDigits(t: string)
    requires t != [] && IsDigit(t[0])
    ensures Signed(t) == Unsigned(t)
  {
  }

  /** A primitive of at most 9 characters (all that fits the builder's
      10-byte buffer) holds at most 9 digits, so atoi never overflows a
      32-bit int on it. */
  lemma AtoiBound(s: string)
    requires |s| <= 9
    ensures -999999999 <= Atoi(s) <= 999999999
    ensures -0x8000_0000 <= Atoi(s) < 0x8000_0000
  {
    var t := SkipSpace(s);
    var u := if t != [] && (t[0] == '-' || t[0] == '+') then t[1..] else t;
    assert Atoi(s) == Unsigned(u) || Atoi(s) == 0 - Unsigned(u);
    DigitsValueBound(LeadingDigits(u));
    PowMonotone(|LeadingDigits(u)|, 9);
  }

  lemma {:induction false} PowMonotone(a: nat, b: nat)
    requires a <= b
    ensures Pow10(a) <= Pow10(b)
    ensures Pow10(9) == 1000000000
  {
    if a < b {
      PowMonotone(a, b - 1);
    }
  }

  /** "%d" writes only digits and a leading minus sign, never a NUL, so the
      text reads back unchanged through a C string. */
  lemma DecimalHasNoNul(n: int)
    ensures '\0' !in Decimal(n)
    ensures Decimal(n) != "null" && Decimal(n) != "true" && Decimal(n) != "false"
  {
    var d := if n < 0 then Digits(-n) else Digits(n);
    assert forall k :: 0 <= k < |d| ==> d[k] != '\0';
    if n < 0 {
      assert Decimal(n) == "-" + d;
      assert forall k :: 0 < k < |Decimal(n)| ==> Decimal(n)[k] == d[k - 1];
    }
  }
}
