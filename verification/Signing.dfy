/** The string that is signed, and its signature. */
module Signing {
  import opened Text
  import opened ObjectState
  import opened Decimal

  /** A message authentication code: some bytes, at least one. */
  type MacBytes = bs: seq<Byte> | |bs| > 0 witness [0]

  /** The keyed hash, from secret and message. */
  type Mac = (string, string) -> MacBytes

  const NEWLINE := '\n'

  function StringToSign(httpMethod: string, path: string, epochSeconds: int): string {
    httpMethod + [NEWLINE] + path + [NEWLINE] + FormatInt(epochSeconds)
  }

  lemma SplitAtFirst(a: string, b: string, c: char, s: string, t: string)
    requires c !in a && c !in b && a + [c] + s == b + [c] + t
    ensures a == b && s == t
  {
    IndexOfAppend(a, c, s);
    IndexOfAppend(b, c, t);
    assert (a + [c] + s)[..|a|] == a && (b + [c] + t)[..|b|] == b;
    assert (a + [c] + s)[|a| + 1..] == s && (b + [c] + t)[|b| + 1..] == t;
  }

  lemma SplitAtLast(a: string, b: string, c: char, s: string, t: string)
    requires c !in s && c !in t && a + [c] + s == b + [c] + t
    ensures a == b && s == t
  {
    var w := a + [c] + s;
    LastIsNotEarlier(a, b, c, s, t);
    LastIsNotEarlier(b, a, c, t, s);
    assert w[..|a|] == a && w[..|b|] == b;
    assert w[|a| + 1..] == s && w[|b| + 1..] == t;
  }

  lemma LastIsNotEarlier(a: string, b: string, c: char, s: string, t: string)
    requires c !in t && a + [c] + s == b + [c] + t
    ensures |a| <= |b|
  {
    var w := b + [c] + t;
    assert w[|a|] == c;
    forall i | |b| < i < |w|
      ensures w[i] != c
    {
      assert w[i] == t[i - |b| - 1] && w[i] in t;
    }
  }

  /** Different requests are signed over different strings: the method holds no newline, the time none,
      and the path may hold any number. */
  lemma StringToSignInjective(m: string, p: string, t: int, m': string, p': string, t': int)
    requires NEWLINE !in m && NEWLINE !in m'
    requires StringToSign(m, p, t) == StringToSign(m', p', t')
    ensures m == m' && p == p' && t == t'
  {
    hide FormatInt, StringToSign;
    var rest, rest' := p + [NEWLINE] + FormatInt(t), p' + [NEWLINE] + FormatInt(t');
    MethodFirst(m, p, t);
    MethodFirst(m', p', t');
    SplitAtFirst(m, m', NEWLINE, rest, rest');
    FormatChars(t, NEWLINE);
    FormatChars(t', NEWLINE);
    SplitAtLast(p, p', NEWLINE, FormatInt(t), FormatInt(t'));
    FormatInjective(t, t');
  }

  lemma MethodFirst(m: string, p: string, t: int)
    ensures StringToSign(m, p, t) == m + [NEWLINE] + (p + [NEWLINE] + FormatInt(t))
  {
    hide FormatInt;
  }

  /** Read back at the newlines: the method, the pieces of the path, the time. */
  lemma StringToSignSplits(m: string, p: string, t: int)
    requires NEWLINE !in m
    ensures Split(StringToSign(m, p, t), '\n') == [m] + Split(p, '\n') + [FormatInt(t)]
  {
    FormatChars(t, '\n');
    assert StringToSign(m, p, t) == m + ['\n'] + (p + ['\n'] + FormatInt(t));
    SplitFirst(m, p + ['\n'] + FormatInt(t), '\n');
    SplitLast(p, FormatInt(t), '\n');
  }

  lemma {:induction false} SplitLast(s: string, last: string, c: char)
    requires c !in last
    ensures Split(s + [c] + last, c) == Split(s, c) + [last]
    decreases |s|
  {
    hide IndexOf;
    var i := IndexOf(s, c);
    if i < |s| {
      var tail := s[i + 1..];
      assert s == s[..i] + [c] + tail;
      assert s + [c] + last == s[..i] + [c] + (tail + [c] + last);
      SplitFirst(s[..i], tail + [c] + last, c);
      SplitFirst(s[..i], tail, c);
      SplitLast(tail, last, c);
    } else {
      SplitFirst(s, last, c);
      SplitWhole(s, c);
      SplitWhole(last, c);
    }
  }

  lemma SplitWhole(s: string, c: char)
    requires c !in s
    ensures Split(s, c) == [s]
  {
  }

  // ---- hexadecimal ----

  /** The sixteen digits, in lower case. */
  lemma LowerHexDigitIs(d: nat)
    requires d < 16
    ensures LowerHexDigit(d) == "0123456789abcdef"[d]
  {
  }

  /** Hexadecimal digits by their codes, in either case, and what they are worth. */
  lemma HexCharIff(c: char)
    ensures IsHexChar(c) <==> 48 <= c as int <= 57 || 65 <= c as int <= 70 || 97 <= c as int <= 102
    ensures IsHexChar(c) ==>
              HexValue(c) == c as int - (if c as int <= 57 then 48 else if c as int <= 70 then 55 else 87)
  {
  }

  predicate IsHexChar(c: char) { '0' <= c <= '9' || 'a' <= c <= 'f' || 'A' <= c <= 'F' }

  function LowerHexDigit(d: nat): (c: char)
    requires d < 16
    ensures IsHexChar(c) && HexValue(c) == d
  {
    if d < 10 then ('0' as int + d) as char else ('a' as int + d - 10) as char
  }

  function HexValue(c: char): (d: nat)
    requires IsHexChar(c)
    ensures d < 16
  {
    if c <= '9' then c as int - '0' as int
    else if c <= 'F' then c as int - 'A' as int + 10
    else c as int - 'a' as int + 10
  }

  /** `hex.EncodeToString` */
  function Hex(bs: seq<Byte>): (s: string)
    ensures |s| == 2 * |bs|
    ensures forall i :: 0 <= i < |s| ==> IsHexChar(s[i])
  {
    if bs == [] then "" else [LowerHexDigit(bs[0] / 16), LowerHexDigit(bs[0] % 16)] + Hex(bs[1..])
  }

  lemma {:induction false} HexInjective(a: seq<Byte>, b: seq<Byte>)
    requires Hex(a) == Hex(b)
    ensures a == b
  {
    assert |Hex(a)| == 2 * |a| && |Hex(b)| == 2 * |b|;
    if a != [] {
      var s := Hex(a);
      assert s[0] == LowerHexDigit(a[0] / 16) == LowerHexDigit(b[0] / 16);
      assert s[1] == LowerHexDigit(a[0] % 16) == LowerHexDigit(b[0] % 16);
      assert HexValue(s[0]) == a[0] / 16 == b[0] / 16 && HexValue(s[1]) == a[0] % 16 == b[0] % 16;
      assert Hex(a)[2..] == Hex(a[1..]) && Hex(b)[2..] == Hex(b[1..]);
      HexInjective(a[1..], b[1..]);
      assert a == [a[0]] + a[1..] && b == [b[0]] + b[1..];
    }
  }

  /** `Sign`: lower-case hex of the code over the string. */
  function Sign(mac: Mac, secret: string, s: string): (signature: string)
    ensures signature != "" && forall i :: 0 <= i < |signature| ==> IsHexChar(signature[i])
  {
    Hex(mac(secret, s))
  }

  /** Two secrets sign a string alike exactly when their codes agree on it. */
  lemma SameSignature(mac: Mac, a: string, b: string, s: string)
    ensures Sign(mac, a, s) == Sign(mac, b, s) <==> mac(a, s) == mac(b, s)
  {
    if Sign(mac, a, s) == Sign(mac, b, s) { HexInjective(mac(a, s), mac(b, s)); }
  }
}
