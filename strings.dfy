/**
 * The few Python string operations the demos rely on: `str.lower` on the
 * ASCII range, `str.find` / `str.rfind` of one character, `str.endswith`,
 * and `%d` formatting of an integer.
 */
module Strings {

  /** Lower-casing of one character, as `str.lower` does on ASCII letters. */
  function LowerChar(c: char): char {
    if 'A' <= c <= 'Z' then (c as int - 'A' as int + 'a' as int) as char else c
  }

  /** `s.lower()`, restricted to ASCII letters (other characters are kept). */
  function Lower(s: string): (r: string)
    ensures |r| == |s|
    ensures forall i :: 0 <= i < |s| ==> r[i] == LowerChar(s[i])
  {
    seq(|s|, i requires 0 <= i < |s| => LowerChar(s[i]))
  }

  lemma LowerAppend(a: string, b: string)
    ensures Lower(a + b) == Lower(a) + Lower(b)
  {
    assert forall i :: 0 <= i < |a + b| ==> Lower(a + b)[i] == (Lower(a) + Lower(b))[i];
  }

  /** `s.find(c)`: the first index of `c` in `s`, or -1. */
  function Find(s: string, c: char): (r: int)
    ensures -1 <= r < |s|
    ensures r == -1 <==> c !in s
    ensures 0 <= r ==> s[r] == c && c !in s[..r]
  {
    if s == [] then -1
    else if s[0] == c then 0
    else
      var k := Find(s[1..], c);
      assert s[1..][..if k < 0 then 0 else k] == s[1..1 + (if k < 0 then 0 else k)];
      if k < 0 then -1 else k + 1
  }

  /** The first `c` of `a + [c] + b` is the one after `a` when `a` has none. */
  lemma FindAt(a: string, b: string, c: char)
    requires c !in a
    ensures Find(a + [c] + b, c) == |a|
  {
    var s := a + [c] + b;
    assert s[|a|] == c && s[..|a|] == a;
  }

  /** `s.rfind(c)`: the last index of `c` in `s`, or -1. */
  function RFind(s: string, c: char): (r: int)
    ensures -1 <= r < |s|
    ensures r == -1 <==> c !in s
    ensures 0 <= r ==> s[r] == c && c !in s[r + 1..]
  {
    if s == [] then -1
    else if s[|s| - 1] == c then |s| - 1
    else
      var t := s[..|s| - 1];
      assert s == t + [s[|s| - 1]];
      var k := RFind(t, c);
      assert k >= 0 ==> s[k + 1..] == t[k + 1..] + [s[|s| - 1]];
      k
  }

  /** A suffix without `c` does not move the last occurrence of `c`. */
  lemma RFindSkipsSuffix(a: string, b: string, c: char)
    requires c !in b
    ensures RFind(a + b, c) == RFind(a, c)
  {
    if b != [] {
      assert (a + b)[..|a + b| - 1] == a + b[..|b| - 1];
      RFindSkipsSuffix(a, b[..|b| - 1], c);
    } else {
      assert a + b == a;
    }
  }

  /** The last `c` of `a + [c] + b` is the one between them when `b` has none. */
  lemma RFindAt(a: string, b: string, c: char)
    requires c !in b
    ensures RFind(a + [c] + b, c) == |a|
  {
    var s := a + [c] + b;
    assert s[|a|] == c && s[|a| + 1..] == b;
    assert forall i :: |a| < i < |s| ==> s[i] == b[i - |a| - 1];
  }

  /** `s.endswith(suffix)` */
  predicate EndsWith(s: string, suffix: string) {
    |suffix| <= |s| && s[|s| - |suffix|..] == suffix
  }

  lemma EndsWithAppend(a: string, b: string)
    ensures EndsWith(a + b, b)
  {
    assert (a + b)[|a|..] == b;
  }

  /** A character missing from a suffix is missing from every shorter suffix. */
  lemma SuffixLacks(s: string, i: nat, j: nat, c: char)
    requires i <= j <= |s| && c !in s[i..]
    ensures c !in s[j..]
  {
    assert forall k :: 0 <= k < |s| - j ==> s[j..][k] == s[i..][k + j - i];
  }

  predicate IsDigit(c: char) {
    '0' <= c <= '9'
  }

  predicate AllDigits(s: string) {
    forall i :: 0 <= i < |s| ==> IsDigit(s[i])
  }

  function DigitChar(d: nat): (c: char)
    requires d < 10
    ensures IsDigit(c)
  {
    ('0' as int + d) as char
  }

  function DigitValue(c: char): nat
    requires IsDigit(c)
  {
    c as int - '0' as int
  }

  /** Decimal digits with no leading zero, unless the number is zero itself. */
  predicate CanonicalNat(s: string) {
    |s| > 0 && AllDigits(s) && (s[0] == '0' ==> |s| == 1)
  }

  /** A canonical natural, or a minus sign before a canonical natural other than "0". */
  predicate CanonicalInt(s: string) {
    if |s| > 0 && s[0] == '-' then CanonicalNat(s[1..]) && s[1..] != "0" else CanonicalNat(s)
  }

  /** The decimal digits of `n`, most significant first, without leading zeros. */
  function FormatNat(n: nat): (s: string)
    ensures CanonicalNat(s)
    ensures s[0] == '0' <==> n == 0
  {
    if n < 10 then [DigitChar(n)] else FormatNat(n / 10) + [DigitChar(n % 10)]
  }

  /** `'%d' % n` in Python: a minus sign for negative numbers, then the digits. */
  function FormatInt(n: int): (s: string)
    ensures CanonicalInt(s)
    ensures s[0] == '-' <==> n < 0
  {
    if n < 0 then "-" + FormatNat(-n) else FormatNat(n)
  }

  /** The value of a string of decimal digits (`int(s)` for such strings). */
  function ParseNat(s: string): nat
    requires AllDigits(s)
  {
    if s == [] then 0 else 10 * ParseNat(s[..|s| - 1]) + DigitValue(s[|s| - 1])
  }

  /** The value of an optionally signed string of decimal digits. */
  function ParseInt(s: string): int
    requires if |s| > 0 && s[0] == '-' then AllDigits(s[1..]) else AllDigits(s)
  {
    if |s| > 0 && s[0] == '-' then -(ParseNat(s[1..]) as int) else ParseNat(s)
  }

  lemma {:induction false} ParseFormatNat(n: nat)
    ensures ParseNat(FormatNat(n)) == n
  {
    if n >= 10 {
      var s := FormatNat(n);
      assert s[..|s| - 1] == FormatNat(n / 10);
      ParseFormatNat(n / 10);
    }
  }

  /** Reading back what `%d` printed gives the number that was printed. */
  lemma ParseFormatInt(n: int)
    ensures var s := FormatInt(n);
            (if |s| > 0 && s[0] == '-' then AllDigits(s[1..]) else AllDigits(s)) && ParseInt(s) == n
  {
    if n < 0 {
      assert FormatInt(n)[1..] == FormatNat(-n);
      ParseFormatNat(-n);
    } else {
      ParseFormatNat(n);
    }
  }

  lemma DigitRoundTrip(c: char)
    requires IsDigit(c)
    ensures DigitChar(DigitValue(c)) == c
  {
  }

  /** Digits led by a non-zero digit denote a positive number. */
  lemma {:induction false} LeadingDigitPositive(s: string)
    requires AllDigits(s) && |s| > 0 && s[0] != '0'
    ensures ParseNat(s) > 0
  {
    if |s| > 1 {
      LeadingDigitPositive(s[..|s| - 1]);
    }
  }

  /** Appending a digit `d` to `m` gives a number whose last digit is `d` and whose other digits make `m`. */
  lemma AppendDigit(m: nat, d: nat)
    requires d < 10
    ensures (10 * m + d) / 10 == m && (10 * m + d) % 10 == d
  {
  }

  /** A canonical string of digits is the one `%d` prints for its value. */
  lemma {:induction false} FormatParseNat(s: string)
    requires CanonicalNat(s)
    ensures FormatNat(ParseNat(s)) == s
  {
    var d := s[|s| - 1];
    DigitRoundTrip(d);
    if |s| > 1 {
      var t := s[..|s| - 1];
      assert t[0] == s[0];
      var m := ParseNat(t);
      LeadingDigitPositive(t);
      FormatParseNat(t);
      AppendDigit(m, DigitValue(d));
      assert ParseNat(s) == 10 * m + DigitValue(d);
      assert FormatNat(ParseNat(s)) == FormatNat(m) + [d];
      assert s == t + [d];
    } else {
      assert ParseNat(s) == DigitValue(d);
    }
  }

  /** A canonical integer is the one `%d` prints for its value, so `%d` output is unique. */
  lemma FormatParseInt(s: string)
    requires CanonicalInt(s)
    ensures FormatInt(ParseInt(s)) == s
  {
    if |s| > 0 && s[0] == '-' {
      var t := s[1..];
      FormatParseNat(t);
      assert s == "-" + t;
    } else {
      FormatParseNat(s);
    }
  }
}
