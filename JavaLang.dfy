/** The behaviour of java.lang.String and java.lang.Integer that the editor
    relies on. Case mapping is restricted to ASCII letters, where it is
    length-preserving and locale-independent. */
module JavaLang {

  datatype Option<+T> = None | Some(value: T)

  /** A Java `int`. */
  type Int32 = n: int | -0x8000_0000 <= n <= 0x7FFF_FFFF

  const INT_MIN: int := -0x8000_0000
  const INT_MAX: int := 0x7FFF_FFFF

  function Min(a: int, b: int): int { if a <= b then a else b }
  function Max(a: int, b: int): int { if a <= b then b else a }

  /** Java's `int` addition: two's complement wrap-around to 32 bits. */
  function Wrap(n: int): (r: Int32)
    ensures INT_MIN <= n <= INT_MAX ==> r == n
    ensures (n - r) % 0x1_0000_0000 == 0
  {
    (n - INT_MIN) % 0x1_0000_0000 + INT_MIN
  }

  // ---------------------------------------------------------------------
  // Substring search: String.indexOf(String, int), String.lastIndexOf(String, int)
  // ---------------------------------------------------------------------

  /** `s.startsWith(p, k)`: k is within range and the characters agree. */
  predicate OccursAt(s: string, p: string, k: int)
  {
    0 <= k && k + |p| <= |s| && SameFrom(s, p, k, 0)
  }

  /** p[j..] occurs in s at k + j, compared character by character as
      `startsWith` does. */
  predicate SameFrom(s: string, p: string, k: nat, j: nat)
    decreases |p| - j
  {
    j >= |p| || (k + j < |s| && s[k + j] == p[j] && SameFrom(s, p, k, j + 1))
  }

  /** The character-by-character comparison agrees with the slice one. */
  lemma {:induction false} SameFromIff(s: string, p: string, k: nat, j: nat)
    requires j <= |p| && k + j <= |s|
    ensures SameFrom(s, p, k, j) <==> k + |p| <= |s| && s[k + j..k + |p|] == p[j..]
    decreases |p| - j
  {
    if j < |p| && k + j < |s| {
      SameFromIff(s, p, k, j + 1);
      if k + |p| <= |s| {
        assert s[k + j..k + |p|] == [s[k + j]] + s[k + j + 1..k + |p|];
        assert p[j..] == [p[j]] + p[j + 1..];
      }
    }
  }

  /** `s.indexOf(p, from)`: the least k >= min(from, |s|) at which p occurs
      in s, or -1 when there is none. A negative `from` acts as 0. */
  function IndexOf(s: string, p: string, from: int): (r: int)
    ensures r == -1 || (0 <= r && r + |p| <= |s| && Min(from, |s|) <= r)
    decreases |s| - from
  {
    var start := Max(0, Min(from, |s|));
    if start + |p| > |s| then -1
    else if SameFrom(s, p, start, 0) then start
    else IndexOf(s, p, start + 1)
  }

  /** indexOf finds the least occurrence from `from` on, and reports none
      only when there is none there. */
  lemma {:induction false} IndexOfSpec(s: string, p: string, from: int)
    ensures var r := IndexOf(s, p, from);
      (r == -1 || (OccursAt(s, p, r) && Min(from, |s|) <= r)) &&
      (r >= 0 ==> forall k :: Min(from, |s|) <= k < r ==> !OccursAt(s, p, k)) &&
      (r == -1 ==> forall k :: Min(from, |s|) <= k ==> !OccursAt(s, p, k))
    decreases |s| - from
  {
    var start := Max(0, Min(from, |s|));
    assert forall k :: Min(from, |s|) <= k < start ==> !OccursAt(s, p, k);
    if start + |p| <= |s| {
      SameFromIff(s, p, start, 0);
      if !SameFrom(s, p, start, 0) {
        IndexOfSpec(s, p, start + 1);
        assert !OccursAt(s, p, start);
      }
    }
  }

  /** `s.lastIndexOf(p, from)`: the greatest k <= from at which p occurs in s,
      or -1 when there is none. */
  function LastIndexOf(s: string, p: string, from: int): (r: int)
    ensures r == -1 || (0 <= r <= from && r + |p| <= |s|)
    decreases Max(from + 1, 0)
  {
    var start := Min(from, |s| - |p|);
    if start < 0 then -1
    else if SameFrom(s, p, start, 0) then start
    else LastIndexOf(s, p, start - 1)
  }

  /** lastIndexOf finds the greatest occurrence at or before `from`, and
      reports none only when there is none there. */
  lemma {:induction false} LastIndexOfSpec(s: string, p: string, from: int)
    ensures var r := LastIndexOf(s, p, from);
      (r == -1 || (OccursAt(s, p, r) && r <= from)) &&
      (r >= 0 ==> forall k :: r < k <= from ==> !OccursAt(s, p, k)) &&
      (r == -1 ==> forall k :: k <= from ==> !OccursAt(s, p, k))
    decreases Max(from + 1, 0)
  {
    var start := Min(from, |s| - |p|);
    assert forall k :: start < k <= from ==> !OccursAt(s, p, k);
    if start >= 0 {
      SameFromIff(s, p, start, 0);
      if !SameFrom(s, p, start, 0) {
        LastIndexOfSpec(s, p, start - 1);
        assert !OccursAt(s, p, start);
      }
    }
  }

  /** The occurrences in a prefix are those that end within it. */
  lemma PrefixOccurrences(s: string, p: string, n: int)
    requires 0 <= n <= |s|
    ensures forall k :: OccursAt(s[..n], p, k) <==> k + |p| <= n && OccursAt(s, p, k)
  {
    forall k ensures OccursAt(s[..n], p, k) <==> k + |p| <= n && OccursAt(s, p, k) {
      if 0 <= k && k + |p| <= n {
        SameFromIff(s[..n], p, k, 0);
        SameFromIff(s, p, k, 0);
        assert s[..n][k..k + |p|] == s[k..k + |p|];
      }
    }
  }

  // ---------------------------------------------------------------------
  // String.trim(): strips leading and trailing characters <= ' '
  // ---------------------------------------------------------------------

  /** The leading spaces and control characters of s dropped. */
  function StripLeading(s: string): (r: string)
    ensures |r| <= |s|
  {
    if s != [] && s[0] <= ' ' then StripLeading(s[1..]) else s
  }

  /** The trailing spaces and control characters of s dropped. */
  function StripTrailing(s: string): (r: string)
    ensures |r| <= |s|
  {
    if s != [] && s[|s| - 1] <= ' ' then StripTrailing(s[..|s| - 1]) else s
  }

  /** StripLeading leaves a suffix of s that is empty or starts above ' ',
      and drops only characters at or below ' '. */
  lemma {:induction false} StripLeadingSpec(s: string)
    ensures var r := StripLeading(s);
      r == s[|s| - |r|..] && (r == [] || r[0] > ' ') &&
      forall i :: 0 <= i < |s| - |r| ==> s[i] <= ' '
  {
    if s != [] && s[0] <= ' ' {
      StripLeadingSpec(s[1..]);
      var r := StripLeading(s);
      forall i | 0 <= i < |s| - |r| ensures s[i] <= ' ' {
        if i > 0 {
          assert s[i] == s[1..][i - 1];
        }
      }
    }
  }

  /** StripTrailing leaves a prefix of s that is empty or ends above ' ',
      and drops only characters at or below ' '. */
  lemma {:induction false} StripTrailingSpec(s: string)
    ensures var r := StripTrailing(s);
      r == s[..|r|] && (r == [] || r[|r| - 1] > ' ') &&
      forall i :: |r| <= i < |s| ==> s[i] <= ' '
  {
    if s != [] && s[|s| - 1] <= ' ' {
      StripTrailingSpec(s[..|s| - 1]);
      var r := StripTrailing(s);
      forall i | |r| <= i < |s| ensures s[i] <= ' ' {
        if i < |s| - 1 {
          assert s[i] == s[..|s| - 1][i];
        }
      }
    }
  }

  /** `s.trim()`. */
  function Trim(s: string): (r: string)
  {
    StripTrailing(StripLeading(s))
  }

  /** Every character of s is a space or a control character. */
  predicate Blank(s: string)
  {
    forall i :: 0 <= i < |s| ==> s[i] <= ' '
  }

  /** `s.trim()` is empty exactly when s is blank. */
  lemma TrimEmptyIffBlank(s: string)
    ensures |Trim(s)| == 0 <==> Blank(s)
  {
    var l := StripLeading(s);
    StripLeadingSpec(s);
    StripTrailingSpec(l);
    if |Trim(s)| == 0 {
      assert |l| == 0;
    } else {
      var t := Trim(s);
      assert t[0] == l[0] == s[|s| - |l|];
      assert !(s[|s| - |l|] <= ' ');
    }
  }

  // ---------------------------------------------------------------------
  // ASCII case mapping: toUpperCase, toLowerCase, equalsIgnoreCase
  // ---------------------------------------------------------------------

  function UpperChar(c: char): char
  {
    if 'a' <= c <= 'z' then (c as int - 32) as char else c
  }

  function LowerChar(c: char): char
  {
    if 'A' <= c <= 'Z' then (c as int + 32) as char else c
  }

  /** `s.toUpperCase()` on ASCII text. */
  function ToUpperCase(s: string): (r: string)
    ensures |r| == |s|
  {
    seq(|s|, i requires 0 <= i < |s| => UpperChar(s[i]))
  }

  /** `s.toLowerCase()` on ASCII text. */
  function ToLowerCase(s: string): (r: string)
    ensures |r| == |s|
  {
    seq(|s|, i requires 0 <= i < |s| => LowerChar(s[i]))
  }

  /** The per-character rule of `String.regionMatches(true, ...)`. */
  predicate CharsEqualIgnoreCase(a: char, b: char)
  {
    a == b || UpperChar(a) == UpperChar(b) || LowerChar(UpperChar(a)) == LowerChar(UpperChar(b))
  }

  /** `a.equalsIgnoreCase(b)`. */
  predicate EqualsIgnoreCase(a: string, b: string)
  {
    |a| == |b| && forall i :: 0 <= i < |a| ==> CharsEqualIgnoreCase(a[i], b[i])
  }

  /** On ASCII, equalsIgnoreCase compares the upper-cased strings. */
  lemma EqualsIgnoreCaseIffSameUpper(a: string, b: string)
    ensures EqualsIgnoreCase(a, b) <==> ToUpperCase(a) == ToUpperCase(b)
  {
    if EqualsIgnoreCase(a, b) {
      forall i | 0 <= i < |a| ensures ToUpperCase(a)[i] == ToUpperCase(b)[i] {
        assert CharsEqualIgnoreCase(a[i], b[i]);
      }
    }
    if ToUpperCase(a) == ToUpperCase(b) {
      forall i | 0 <= i < |a| ensures CharsEqualIgnoreCase(a[i], b[i]) {
        assert ToUpperCase(a)[i] == ToUpperCase(b)[i];
      }
    }
  }

  /** Upper-casing never moves a character across the `trim()` threshold. */
  lemma UpperCaseKeepsBlank(s: string)
    ensures Blank(ToUpperCase(s)) <==> Blank(s)
  {
    if Blank(ToUpperCase(s)) {
      forall i | 0 <= i < |s| ensures s[i] <= ' ' {
        assert ToUpperCase(s)[i] <= ' ';
      }
    }
  }

  // ---------------------------------------------------------------------
  // Decimal text of an int: "" + n, and Integer.parseInt
  // ---------------------------------------------------------------------

  predicate IsDigit(c: char) { '0' <= c <= '9' }

  predicate AllDigits(s: string) { forall i :: 0 <= i < |s| ==> IsDigit(s[i]) }

  function DigitChar(d: nat): (c: char)
    requires d < 10
  {
    ('0' as int + d) as char
  }

  function DigitValue(c: char): (d: nat)
    requires IsDigit(c)
  {
    c as int - '0' as int
  }

  /** The decimal digits of n, without leading zeros. */
  function NatToString(n: nat): (r: string)
    ensures |r| >= 1 && AllDigits(r)
  {
    if n < 10 then [DigitChar(n)] else NatToString(n / 10) + [DigitChar(n % 10)]
  }

  /** The value of a string of decimal digits. */
  function DigitsValue(s: string): nat
    requires AllDigits(s)
  {
    if s == [] then 0 else DigitsValue(s[..|s| - 1]) * 10 + DigitValue(s[|s| - 1])
  }

  /** `"" + n` for a Java int. */
  function IntToString(n: Int32): (r: string)
  {
    if n < 0 then "-" + NatToString(-(n as int)) else NatToString(n)
  }

  /** `Integer.parseInt(s)`; None stands for the NumberFormatException it
      throws on anything but an optional sign followed by decimal digits, or
      on a value outside the int range. */
  function ParseInt(s: string): (r: Option<Int32>)
    ensures r.Some? ==> |s| > 0
    ensures r.Some? ==> var first := if s[0] == '-' || s[0] == '+' then 1 else 0;
                        first < |s| && AllDigits(s[first..])
  {
    if |s| == 0 then None
    else
      var digits := if s[0] == '-' || s[0] == '+' then s[1..] else s;
      if |digits| == 0 || !AllDigits(digits) then None
      else
        var v: int := if s[0] == '-' then -(DigitsValue(digits) as int) else DigitsValue(digits);
        if INT_MIN <= v <= INT_MAX then Some(v) else None
  }

  lemma {:induction false} DigitsValueOfNatToString(n: nat)
    ensures DigitsValue(NatToString(n)) == n
  {
    var s := NatToString(n);
    if n >= 10 {
      DigitsValueOfNatToString(n / 10);
      assert s[..|s| - 1] == NatToString(n / 10);
    }
  }

  /** Parsing the decimal text of an int gives the int back. */
  lemma ParseIntToString(n: Int32)
    ensures ParseInt(IntToString(n)) == Some(n)
  {
    DigitsValueOfNatToString(if n < 0 then -(n as int) else n);
    var s := IntToString(n);
    if n < 0 {
      assert s[1..] == NatToString(-(n as int));
    } else {
      assert s[0] != '-' && s[0] != '+';
    }
  }

  /** Distinct ints have distinct decimal texts. */
  lemma IntToStringInjective(a: Int32, b: Int32)
    ensures IntToString(a) == IntToString(b) ==> a == b
  {
    ParseIntToString(a);
    ParseIntToString(b);
  }
}
