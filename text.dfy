/**
 * The string operations the service relies on: Java's decimal rendering of an
 * int (string concatenation and String.valueOf) and String.equalsIgnoreCase,
 * the latter restricted to ASCII case mapping.
 */
module Text {

  predicate IsDigit(c: char) {
    '0' <= c <= '9'
  }

  function DigitChar(d: nat): (c: char)
    requires d < 10
    ensures IsDigit(c)
  {
    ('0' as int + d) as char
  }

  /** Decimal form of a natural number: no sign and no leading zeros. */
  function NatToString(n: nat): (s: string)
    ensures |s| >= 1
    ensures |s| == 1 <==> n < 10
    ensures forall i :: 0 <= i < |s| ==> IsDigit(s[i])
    decreases n
  {
    if n < 10 then [DigitChar(n)] else NatToString(n / 10) + [DigitChar(n % 10)]
  }

  /** Decimal form of an integer, as Integer.toString writes it. */
  function IntToString(i: int): (s: string)
    ensures |s| >= 1
    ensures s[0] == '-' <==> i < 0
    ensures forall k :: 1 <= k < |s| ==> s[k] != '-'
  {
    if i < 0 then "-" + NatToString(-i) else NatToString(i)
  }

  lemma {:induction false} NatToStringInjective(a: nat, b: nat)
    requires NatToString(a) == NatToString(b)
    ensures a == b
    decreases a
  {
    if a < 10 {
      assert DigitChar(a) == NatToString(a)[0] == NatToString(b)[0] == DigitChar(b);
    } else {
      var s := NatToString(a);
      assert s == NatToString(a / 10) + [DigitChar(a % 10)];
      assert s == NatToString(b / 10) + [DigitChar(b % 10)];
      assert s[..|s| - 1] == NatToString(a / 10) == NatToString(b / 10);
      assert DigitChar(a % 10) == s[|s| - 1] == DigitChar(b % 10);
      NatToStringInjective(a / 10, b / 10);
    }
  }

  lemma IntToStringInjective(a: int, b: int)
    requires IntToString(a) == IntToString(b)
    ensures a == b
  {
    var s := IntToString(a);
    if a < 0 {
      assert s[1..] == NatToString(-a) == NatToString(-b);
      NatToStringInjective(-a, -b);
    } else {
      NatToStringInjective(a, b);
    }
  }

  /** ASCII upper-casing, the part of Character.toUpperCase this model keeps. */
  function ToUpper(c: char): char {
    if 'a' <= c <= 'z' then (c as int - 32) as char else c
  }

  /** ASCII lower-casing, the part of Character.toLowerCase this model keeps. */
  function ToLower(c: char): char {
    if 'A' <= c <= 'Z' then (c as int + 32) as char else c
  }

  /** The per-character test of String.regionMatches with ignoreCase set. */
  predicate CharEqualsIgnoreCase(c1: char, c2: char) {
    c1 == c2 || ToUpper(c1) == ToUpper(c2) || ToLower(ToUpper(c1)) == ToLower(ToUpper(c2))
  }

  /** String.equalsIgnoreCase on a non-null argument: every string matches itself, and only strings of its length. */
  predicate EqualsIgnoreCase(a: string, b: string): (r: bool)
    ensures a == b ==> r
    ensures r ==> |a| == |b|
  {
    |a| == |b| && forall i :: 0 <= i < |a| ==> CharEqualsIgnoreCase(a[i], b[i])
  }

  function UpperCased(s: string): (r: string)
    ensures |r| == |s|
    ensures forall i :: 0 <= i < |s| ==> r[i] == ToUpper(s[i])
  {
    seq(|s|, i requires 0 <= i < |s| => ToUpper(s[i]))
  }

  lemma CharEqualsIgnoreCaseIffSameUpper(c1: char, c2: char)
    ensures CharEqualsIgnoreCase(c1, c2) <==> ToUpper(c1) == ToUpper(c2)
  {
  }

  /** equalsIgnoreCase is equality after upper-casing both sides. */
  lemma EqualsIgnoreCaseIffSameUpper(a: string, b: string)
    ensures EqualsIgnoreCase(a, b) <==> UpperCased(a) == UpperCased(b)
  {
    if |a| == |b| {
      forall i | 0 <= i < |a|
        ensures CharEqualsIgnoreCase(a[i], b[i]) <==> UpperCased(a)[i] == UpperCased(b)[i]
      {
        CharEqualsIgnoreCaseIffSameUpper(a[i], b[i]);
      }
    }
  }

}
