/** Decimal integers as `strconv` prints and parses them. */
module Decimal {
  import opened Wrappers

  const MIN_INT64 := -0x8000_0000_0000_0000
  const MAX_INT64 := 0x7fff_ffff_ffff_ffff

  predicate IsDigit(c: char) { '0' <= c <= '9' }

  predicate AllDigits(s: string) {
    forall i :: 0 <= i < |s| ==> IsDigit(s[i])
  }

  function DigitChar(d: nat): (c: char)
    requires d < 10
    ensures IsDigit(c) && DigitValue(c) == d
  {
    ('0' as int + d) as char
  }

  function DigitValue(c: char): nat
    requires IsDigit(c)
  {
    c as int - '0' as int
  }

  lemma DigitCharIs(d: nat)
    requires d < 10
    ensures DigitChar(d) == "0123456789"[d]
  {
  }

  function FormatNat(n: nat): (s: string)
    ensures s != "" && AllDigits(s)
  {
    if n < 10 then [DigitChar(n)] else FormatNat(n / 10) + [DigitChar(n % 10)]
  }

  /** `strconv.FormatInt(n, 10)` */
  function FormatInt(n: int): string {
    if n < 0 then "-" + FormatNat(-n) else FormatNat(n)
  }

  function ParseNat(s: string): nat
    requires AllDigits(s)
  {
    if s == "" then 0 else 10 * ParseNat(s[..|s| - 1]) + DigitValue(s[|s| - 1])
  }

  function ParseSigned(s: string): Option<int> {
    var negative := s != "" && s[0] == '-';
    var digits := if s != "" && (s[0] == '-' || s[0] == '+') then s[1..] else s;
    if digits == "" || !AllDigits(digits) then None
    else
      var n: int := ParseNat(digits);
      Some(if negative then -n else n)
  }

  /** `strconv.ParseInt(s, 10, 64)`: an optional sign, digits, and a value that fits. */
  function ParseInt(s: string): Option<int> {
    var n := ParseSigned(s);
    if n.Some? && MIN_INT64 <= n.value <= MAX_INT64 then n else None
  }

  lemma {:induction false} ParseFormatNat(n: nat)
    ensures ParseNat(FormatNat(n)) == n
  {
    if n >= 10 {
      var s := FormatNat(n / 10);
      ParseFormatNat(n / 10);
      assert (s + [DigitChar(n % 10)])[..|s|] == s;
    } else {
      assert [DigitChar(n)][..0] == "";
    }
  }

  /** A plus sign changes nothing, a minus sign negates, and more digits after `digits` weigh in tens. */
  lemma ParseSignedIs(digits: string, d: nat)
    requires AllDigits(digits) && d < 10
    ensures digits != "" ==>
              && ParseSigned("+" + digits) == ParseSigned(digits) == Some(ParseNat(digits))
              && ParseSigned("-" + digits) == Some(0 - ParseNat(digits))
    ensures AllDigits(digits + [DigitChar(d)]) && ParseNat(digits + [DigitChar(d)]) == 10 * ParseNat(digits) + d
    ensures ParseNat("") == 0
  {
    assert ("+" + digits)[1..] == digits && ("-" + digits)[1..] == digits;
    if digits != "" { assert IsDigit(digits[0]); }
    assert (digits + [DigitChar(d)])[..|digits|] == digits;
  }

  /** Printing and parsing are inverse on every integer. */
  lemma ParseFormat(n: int)
    ensures ParseSigned(FormatInt(n)) == Some(n)
    ensures MIN_INT64 <= n <= MAX_INT64 ==> ParseInt(FormatInt(n)) == Some(n)
  {
    hide ParseSigned, ParseNat, FormatNat;
    var size := if n < 0 then -n else n;
    ParseFormatNat(size);
    ParseSignedIs(FormatNat(size), 0);
  }

  lemma FormatInjective(n: int, k: int)
    requires FormatInt(n) == FormatInt(k)
    ensures n == k
  {
    ParseFormat(n);
    ParseFormat(k);
  }

  /** The printed form consists of digits, after a minus sign perhaps. */
  lemma FormatChars(n: int, c: char)
    requires !IsDigit(c) && c != '-'
    ensures c !in FormatInt(n)
  {
  }

  /** What is a number: an optional sign and then digits, at least one; within 64 bits. */
  lemma ParseIntIff(s: string)
    ensures ParseSigned(s).Some? <==>
              exists digits ::
                digits != "" && AllDigits(digits) && (s == digits || s == "+" + digits || s == "-" + digits)
    ensures ParseInt(s).Some? <==>
              ParseSigned(s).Some? && -0x8000_0000_0000_0000 <= ParseSigned(s).value <= 0x7fff_ffff_ffff_ffff
  {
    if ParseSigned(s).Some? {
      var digits := if s[0] == '-' || s[0] == '+' then s[1..] else s;
      assert s == [s[0]] + s[1..];
      assert digits != "" && AllDigits(digits) && (s == digits || s == "+" + digits || s == "-" + digits);
    }
    forall digits | digits != "" && AllDigits(digits) && (s == digits || s == "+" + digits || s == "-" + digits)
      ensures ParseSigned(s).Some?
    {
      ParseSignedIs(digits, 0);
    }
  }
}
