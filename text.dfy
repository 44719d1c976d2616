/**
 * Character classes and small string functions shared by the extractor and
 * the downloader. Python's Unicode-aware classes are modelled on ASCII,
 * except for whitespace, which follows `str.isspace()` exactly.
 */
module Text {

  /** The regex class `\d`, on ASCII. */
  predicate IsDigit(c: char) { '0' <= c <= '9' }

  predicate IsAlnum(c: char) { IsDigit(c) || 'a' <= c <= 'z' || 'A' <= c <= 'Z' }

  /** The regex class `\w`, on ASCII: letters, digits and the underscore. */
  predicate IsWordChar(c: char) { IsAlnum(c) || c == '_' }

  /** The characters for which Python's `str.isspace()` holds. */
  predicate IsSpace(c: char) {
    c == ' ' || '\t' <= c <= '\r' || '\U{1C}' <= c <= '\U{1F}' || c == '\U{85}' || c == '\U{A0}'
    || c == '\U{1680}' || '\U{2000}' <= c <= '\U{200A}' || c == '\U{2028}' || c == '\U{2029}'
    || c == '\U{202F}' || c == '\U{205F}' || c == '\U{3000}'
  }

  // ---------------------------------------------------------------------
  // str.strip(chars): remove a prefix and a suffix of dropped characters
  // ---------------------------------------------------------------------

  /** Index of the first character that is not dropped (|s| if there is none). */
  function KeptFrom(s: string, drop: char -> bool): (lo: nat)
    ensures lo <= |s|
    ensures forall i :: 0 <= i < lo ==> drop(s[i])
    ensures lo < |s| ==> !drop(s[lo])
    decreases |s|
  {
    if s == [] || !drop(s[0]) then 0 else 1 + KeptFrom(s[1..], drop)
  }

  /** One past the index of the last character that is not dropped (0 if there is none). */
  function KeptUntil(s: string, drop: char -> bool): (hi: nat)
    ensures hi <= |s|
    ensures forall i :: hi <= i < |s| ==> drop(s[i])
    ensures hi > 0 ==> !drop(s[hi - 1])
    decreases |s|
  {
    if s == [] || !drop(s[|s| - 1]) then |s| else KeptUntil(s[..|s| - 1], drop)
  }

  /** Python's `s.strip(chars)` where `drop` tells which characters are in `chars`. */
  function StripBy(s: string, drop: char -> bool): (r: string)
    ensures |r| <= |s|
    ensures r == [] <==> forall i :: 0 <= i < |s| ==> drop(s[i])
    ensures r != [] ==> !drop(r[0]) && !drop(r[|r| - 1])
    ensures s == [] || (!drop(s[0]) && !drop(s[|s| - 1])) ==> r == s
    ensures forall c :: c in r ==> c in s
  {
    var lo, hi := KeptFrom(s, drop), KeptUntil(s, drop);
    if lo < hi then s[lo..hi] else []
  }

  /** Python's `s.strip()`. */
  function Strip(s: string): string { StripBy(s, IsSpace) }

  /** `s` has nothing that `str.strip()` would remove. */
  predicate IsStripped(s: string) { s == [] || (!IsSpace(s[0]) && !IsSpace(s[|s| - 1])) }

  // ---------------------------------------------------------------------
  // Decimal rendering, as done by an f-string
  // ---------------------------------------------------------------------

  function DigitChar(d: nat): (c: char)
    requires d < 10
    ensures IsDigit(c) && c as int - '0' as int == d
  {
    (d + '0' as int) as char
  }

  /** `str(n)` for a natural number. */
  function NatToString(n: nat): (r: string)
    ensures |r| >= 1
    ensures forall i :: 0 <= i < |r| ==> IsDigit(r[i])
    ensures n >= 10 <==> |r| >= 2
  {
    if n < 10 then [DigitChar(n)] else NatToString(n / 10) + [DigitChar(n % 10)]
  }

  /** `str(i)` for an integer: a minus sign before the digits of a negative number. */
  function IntToString(i: int): (r: string)
    ensures r != [] && (r[0] == '-' <==> i < 0)
    ensures forall k :: 0 <= k < |r| ==> IsDigit(r[k]) || (k == 0 && r[k] == '-')
  {
    if i < 0 then "-" + NatToString(-i) else NatToString(i)
  }

  lemma {:induction false} NatToStringInjective(m: nat, n: nat)
    requires NatToString(m) == NatToString(n)
    ensures m == n
    decreases n
  {
    var rm, rn := NatToString(m), NatToString(n);
    if m < 10 && n < 10 {
      assert DigitChar(m) == rm[0] == rn[0] == DigitChar(n);
    } else if m >= 10 && n >= 10 {
      assert rm[..|rm| - 1] == NatToString(m / 10);
      assert rn[..|rn| - 1] == NatToString(n / 10);
      NatToStringInjective(m / 10, n / 10);
      assert DigitChar(m % 10) == rm[|rm| - 1] == rn[|rn| - 1] == DigitChar(n % 10);
    }
  }

  /** Different integers never render to the same text. */
  lemma IntToStringInjective(i: int, j: int)
    requires IntToString(i) == IntToString(j)
    ensures i == j
  {
    if i < 0 && j < 0 {
      assert IntToString(i)[1..] == NatToString(-i);
      assert IntToString(j)[1..] == NatToString(-j);
      NatToStringInjective(-i, -j);
    } else if i >= 0 && j >= 0 {
      NatToStringInjective(i, j);
    }
  }

  /** Texts that agree up to a point and then continue with different pieces of equal length differ. */
  lemma {:induction false} PrefixedPathsDiffer(p: string, a: string, b: string, q: string, r: string)
    requires a != b && |a| == |b|
    ensures p + a + q != p + b + r
  {
    var k :| 0 <= k < |a| && a[k] != b[k];
    assert (p + a + q)[|p| + k] == a[k];
    assert (p + b + r)[|p| + k] == b[k];
  }

  /** Two different renderings of integers, each followed by `/`, give different texts whatever follows. */
  lemma DigitsThenSlash(s1: string, s2: string, a: string, b: string)
    requires s1 != s2
    requires forall k :: 0 <= k < |s1| ==> s1[k] != '/'
    requires forall k :: 0 <= k < |s2| ==> s2[k] != '/'
    ensures s1 + "/" + a != s2 + "/" + b
  {
    var u, v := s1 + "/" + a, s2 + "/" + b;
    if |s1| < |s2| {
      assert u[|s1|] == '/' && v[|s1|] == s2[|s1|];
    } else if |s2| < |s1| {
      assert v[|s2|] == '/' && u[|s2|] == s1[|s2|];
    } else {
      var k :| 0 <= k < |s1| && s1[k] != s2[k];
      assert u[k] == s1[k] && v[k] == s2[k];
    }
  }

  /** Paths of the form `<prefix><year>/...` differ for different years, whatever follows. */
  lemma YearFoldersDiffer(prefix: string, y1: int, y2: int, a: string, b: string)
    requires y1 != y2
    ensures prefix + IntToString(y1) + "/" + a != prefix + IntToString(y2) + "/" + b
  {
    var s1, s2 := IntToString(y1), IntToString(y2);
    if s1 == s2 {
      IntToStringInjective(y1, y2);
    }
    DigitsThenSlash(s1, s2, a, b);
    var x1, x2 := s1 + "/" + a, s2 + "/" + b;
    assert prefix + s1 + "/" + a == prefix + x1;
    assert prefix + s2 + "/" + b == prefix + x2;
    assert (prefix + x1)[|prefix|..] == x1 && (prefix + x2)[|prefix|..] == x2;
  }

  // ---------------------------------------------------------------------
  // Case folding and substring search
  // ---------------------------------------------------------------------

  function LowerChar(c: char): char {
    if 'A' <= c <= 'Z' then (c as int + 32) as char else c
  }

  /** `s.lower()`, on ASCII letters. */
  function ToLower(s: string): (r: string)
    ensures |r| == |s|
  {
    seq(|s|, i requires 0 <= i < |s| => LowerChar(s[i]))
  }

  /** Lower-casing twice is lower-casing once. */
  lemma ToLowerIdempotent(s: string)
    ensures ToLower(ToLower(s)) == ToLower(s)
  {
    forall i | 0 <= i < |s|
      ensures ToLower(ToLower(s))[i] == ToLower(s)[i]
    {
      assert !('A' <= LowerChar(s[i]) <= 'Z');
    }
  }

  /** Python's `sub in s`. */
  predicate Contains(s: string, sub: string)
    decreases |s|
  {
    |sub| <= |s| && (s[..|sub|] == sub || Contains(s[1..], sub))
  }

  /** A text that lacks one of the characters of `sub` cannot contain `sub`. */
  lemma {:induction false} MissingCharNotContained(s: string, sub: string, c: char)
    requires c in sub && c !in s
    ensures !Contains(s, sub)
    decreases |s|
  {
    if |sub| <= |s| {
      assert c !in s[1..];
      MissingCharNotContained(s[1..], sub, c);
    }
  }
}
