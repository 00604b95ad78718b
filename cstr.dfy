/**
 * The pieces of the C library that Lab2.c relies on for its string
 * surgery: isdigit, isspace, strcmp, strrchr, atoi and sprintf("%d").
 * A C string is a sequence of characters without the terminating NUL.
 */
module CStr {
  import opened Wrappers

  /** A C string cannot hold the NUL byte that ends it. */
  predicate NoNul(s: string) {
    '\0' !in s
  }

  /** isdigit in the "C" locale. */
  predicate IsDigit(c: char) {
    '0' <= c <= '9'
  }

  /** isspace in the "C" locale: space, \t, \n, \v, \f and \r. */
  predicate IsSpace(c: char) {
    c == ' ' || '\t' <= c <= '\r'
  }

  predicate AllDigits(s: string) {
    forall i :: 0 <= i < |s| ==> IsDigit(s[i])
  }

  // ---------------------------------------------------------------- strcmp

  /**
   * strcmp: the difference of the first pair of characters that differ,
   * where the end of the shorter string reads as the NUL byte 0.
   */
  function StrCmp(a: string, b: string): (r: int)
    ensures NoNul(a) && NoNul(b) ==> (r == 0 <==> a == b)
    decreases |a|
  {
    if a == [] then (if b == [] then 0 else 0 - b[0] as int)
    else if b == [] then a[0] as int
    else if a[0] != b[0] then a[0] as int - b[0] as int
    else
      assert NoNul(a) ==> NoNul(a[1..]) by { assert forall i :: 0 <= i < |a[1..]| ==> a[1..][i] == a[i + 1]; }
      assert NoNul(b) ==> NoNul(b[1..]) by { assert forall i :: 0 <= i < |b[1..]| ==> b[1..][i] == b[i + 1]; }
      assert a == [a[0]] + a[1..] && b == [b[0]] + b[1..];
      StrCmp(a[1..], b[1..])
  }

  /** Swapping the arguments of strcmp negates its result. */
  lemma {:induction false} StrCmpAntisymmetric(a: string, b: string)
    ensures StrCmp(b, a) == -StrCmp(a, b)
    decreases |a|
  {
    if a != [] && b != [] && a[0] == b[0] {
      StrCmpAntisymmetric(a[1..], b[1..]);
    }
  }

  /** On C strings, "strcmp(a, b) <= 0" is transitive. */
  lemma {:induction false} StrCmpTransitive(a: string, b: string, c: string)
    requires NoNul(a) && NoNul(b) && NoNul(c)
    requires StrCmp(a, b) <= 0 && StrCmp(b, c) <= 0
    ensures StrCmp(a, c) <= 0
    decreases |a|
  {
    if a != [] && b != [] && c != [] && a[0] == b[0] == c[0] {
      assert '\0' !in a[1..] && '\0' !in b[1..] && '\0' !in c[1..] by {
        assert forall i :: 0 <= i < |a[1..]| ==> a[1..][i] == a[i + 1];
        assert forall i :: 0 <= i < |b[1..]| ==> b[1..][i] == b[i + 1];
        assert forall i :: 0 <= i < |c[1..]| ==> c[1..][i] == c[i + 1];
      }
      StrCmpTransitive(a[1..], b[1..], c[1..]);
    }
  }

  /** The length of the longest common prefix of a and b. */
  function CommonPrefix(a: string, b: string): (k: nat)
    ensures k <= |a| && k <= |b| && a[..k] == b[..k]
    ensures k < |a| && k < |b| ==> a[k] != b[k]
    decreases |a|
  {
    if a == [] || b == [] || a[0] != b[0] then 0
    else
      var k := CommonPrefix(a[1..], b[1..]);
      assert a[..k + 1] == [a[0]] + a[1..][..k];
      assert b[..k + 1] == [b[0]] + b[1..][..k];
      k + 1
  }

  /**
   * strcmp orders C strings lexicographically: a comes first exactly when
   * it is a proper prefix of b, or at the first position where they differ
   * a has the smaller character.
   */
  lemma {:induction false} StrCmpIsLexicographic(a: string, b: string)
    requires NoNul(a) && NoNul(b)
    ensures var k := CommonPrefix(a, b);
      StrCmp(a, b) < 0 <==> (k == |a| < |b|) || (k < |a| && k < |b| && a[k] < b[k])
    decreases |a|
  {
    if a != [] && b != [] && a[0] == b[0] {
      assert '\0' !in a[1..] && '\0' !in b[1..] by {
        assert forall i :: 0 <= i < |a[1..]| ==> a[1..][i] == a[i + 1];
        assert forall i :: 0 <= i < |b[1..]| ==> b[1..][i] == b[i + 1];
      }
      StrCmpIsLexicographic(a[1..], b[1..]);
    } else if a == [] && b != [] {
      assert b[0] in b;
    }
  }

  // --------------------------------------------------------------- strrchr

  /** strrchr: the index of the last occurrence of c in s, or None. */
  function StrRChr(s: string, c: char): (r: Option<nat>)
    ensures r.None? <==> c !in s
    ensures r.Some? ==> r.value < |s| && s[r.value] == c
    ensures r.Some? ==> forall i :: r.value < i < |s| ==> s[i] != c
    decreases |s|
  {
    if s == [] then None
    else if s[|s| - 1] == c then Some(|s| - 1)
    else
      var r := StrRChr(s[..|s| - 1], c);
      assert s == s[..|s| - 1] + [s[|s| - 1]];
      r
  }

  /** strrchr over a + b: an occurrence in b if there is one, else strrchr over a. */
  lemma {:induction false} StrRChrConcat(a: string, b: string, c: char)
    ensures StrRChr(a + b, c) == if c in b then Some(|a| + StrRChr(b, c).value) else StrRChr(a, c)
    decreases |b|
  {
    if b == [] {
      assert a + b == a;
    } else {
      var s := a + b;
      var b' := b[..|b| - 1];
      var last := b[|b| - 1];
      assert s[|s| - 1] == last;
      if last == c {
        assert StrRChr(s, c) == Some(|s| - 1);
        assert StrRChr(b, c) == Some(|b| - 1);
        assert last in b;
      } else {
        assert s[..|s| - 1] == a + b';
        assert StrRChr(s, c) == StrRChr(a + b', c);
        assert StrRChr(b, c) == StrRChr(b', c);
        StrRChrConcat(a, b', c);
        assert b == b' + [last];
        assert c in b <==> c in b';
      }
    }
  }

  // ------------------------------------------------------------------ atoi

  /** The value of a string of decimal digits, most significant digit first. */
  function DigitsValue(ds: string): int {
    if ds == [] then 0 else 10 * DigitsValue(ds[..|ds| - 1]) + (ds[|ds| - 1] as int - '0' as int)
  }

  /** The longest prefix of s that is made of decimal digits. */
  function LeadingDigits(s: string): string {
    if s == [] || !IsDigit(s[0]) then [] else [s[0]] + LeadingDigits(s[1..])
  }

  /** What atoi skips first: the leading white space. */
  function SkipSpaces(s: string): string {
    if s != [] && IsSpace(s[0]) then SkipSpaces(s[1..]) else s
  }

  /**
   * atoi: optional white space, an optional sign, then as many decimal
   * digits as there are; anything after them is ignored, and a string
   * with no digits there reads as 0.
   */
  function Atoi(s: string): int {
    var t := SkipSpaces(s);
    if t != [] && t[0] == '-' then 0 - DigitsValue(LeadingDigits(t[1..]))
    else if t != [] && t[0] == '+' then DigitsValue(LeadingDigits(t[1..]))
    else DigitsValue(LeadingDigits(t))
  }

  /** LeadingDigits stops at the first character that is not a digit. */
  lemma {:induction false} LeadingDigitsIsLongestDigitPrefix(s: string)
    ensures var r := LeadingDigits(s);
      |r| <= |s| && r == s[..|r|] && AllDigits(r) && (|r| < |s| ==> !IsDigit(s[|r|]))
  {
    if s != [] && IsDigit(s[0]) {
      LeadingDigitsIsLongestDigitPrefix(s[1..]);
      var t := LeadingDigits(s[1..]);
      assert s[..|t| + 1] == [s[0]] + s[1..][..|t|];
    }
  }

  lemma {:induction false} LeadingDigitsOfDigits(ds: string)
    requires AllDigits(ds)
    ensures LeadingDigits(ds) == ds
  {
    if ds != [] {
      LeadingDigitsOfDigits(ds[1..]);
      assert ds == [ds[0]] + ds[1..];
    }
  }

  // --------------------------------------------------------- sprintf("%d")

  function DigitChar(d: nat): char
    requires d < 10
  {
    ('0' as int + d) as char
  }

  /** The decimal digits of n, without leading zeros. */
  function NatToDigits(n: nat): string
    decreases n
  {
    if n < 10 then [DigitChar(n)] else NatToDigits(n / 10) + [DigitChar(n % 10)]
  }

  /** sprintf("%d", n): a minus sign for negative numbers, then the digits. */
  function IntToString(n: int): string {
    if n < 0 then "-" + NatToDigits(-n) else NatToDigits(n)
  }

  /** The digits of n are decimal digits and read back as n. */
  lemma {:induction false} NatToDigitsCorrect(n: nat)
    ensures |NatToDigits(n)| >= 1 && AllDigits(NatToDigits(n))
    ensures DigitsValue(NatToDigits(n)) == n
    decreases n
  {
    if n >= 10 {
      NatToDigitsCorrect(n / 10);
      var r := NatToDigits(n);
      assert r[..|r| - 1] == NatToDigits(n / 10);
    }
  }

  /**
   * What sprintf("%d") writes: at least one character, all of them
   * decimal digits except a leading '-' for a negative number.
   */
  lemma IntToStringShape(n: int)
    ensures var r := IntToString(n);
      |r| >= 1 && IsDigit(r[|r| - 1]) && NoNul(r) && '[' !in r && ']' !in r && '/' !in r &&
      (n >= 0 ==> AllDigits(r)) &&
      forall i :: 0 <= i < |r| ==> IsDigit(r[i]) || (i == 0 && r[i] == '-' && n < 0)
  {
    NatToDigitsCorrect(if n < 0 then -n else n);
  }

  /** atoi reads back what sprintf("%d") writes. */
  lemma AtoiIntToString(n: int)
    ensures Atoi(IntToString(n)) == n
  {
    var s := IntToString(n);
    NatToDigitsCorrect(if n < 0 then -n else n);
    assert s[0] == '-' || IsDigit(s[0]);
    assert SkipSpaces(s) == s;
    if n < 0 {
      assert s[1..] == NatToDigits(-n);
      LeadingDigitsOfDigits(NatToDigits(-n));
      assert Atoi(s) == 0 - DigitsValue(NatToDigits(-n));
    } else {
      LeadingDigitsOfDigits(s);
      assert s[0] != '-' && s[0] != '+';
      assert Atoi(s) == DigitsValue(s);
    }
  }

  /** Different numbers print differently. */
  lemma IntToStringInjective(m: int, n: int)
    requires IntToString(m) == IntToString(n)
    ensures m == n
  {
    AtoiIntToString(m);
    AtoiIntToString(n);
  }
}
