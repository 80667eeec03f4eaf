/** The string functions the Python code leans on: `str.strip()`,
    `str.split(sep)[-1]` (also `os.path.basename` with a chosen separator),
    `str.replace(pat, "")` and `str(int)`. */
module Text {

  /** Python's `str.isspace` for one character: the ASCII controls TAB..CR,
      the separators FS..US, SPACE, NEL, NBSP and the Unicode space separators. */
  predicate IsSpace(c: char) {
    var n := c as int;
    || (9 <= n <= 13)
    || (28 <= n <= 32)
    || n == 0x85 || n == 0xA0 || n == 0x1680
    || (0x2000 <= n <= 0x200A)
    || n == 0x2028 || n == 0x2029 || n == 0x202F || n == 0x205F || n == 0x3000
  }

  predicate AllSpace(s: string) {
    forall i :: 0 <= i < |s| ==> IsSpace(s[i])
  }

  /** Drops the leading whitespace: what is dropped is all space and what is
      kept starts with a non-space character. */
  function TrimStart(s: string): (r: string)
    ensures |r| <= |s| && r == s[|s| - |r|..]
    ensures forall i :: 0 <= i < |s| - |r| ==> IsSpace(s[i])
    ensures r == [] || !IsSpace(r[0])
  {
    if |s| > 0 && IsSpace(s[0]) then TrimStart(s[1..]) else s
  }

  /** Drops the trailing whitespace, symmetric to `TrimStart`. */
  function TrimEnd(s: string): (r: string)
    ensures |r| <= |s| && r == s[..|r|]
    ensures forall i :: |r| <= i < |s| ==> IsSpace(s[i])
    ensures r == [] || !IsSpace(r[|r| - 1])
  {
    if |s| > 0 && IsSpace(s[|s| - 1]) then TrimEnd(s[..|s| - 1]) else s
  }

  /** Python `s.strip()`: a slice of `s` that neither starts nor ends with
      whitespace, and empty exactly when `s` is all whitespace. */
  function Strip(s: string): (r: string)
    ensures |r| <= |s|
    ensures r == [] || (!IsSpace(r[0]) && !IsSpace(r[|r| - 1]))
  {
    TrimEnd(TrimStart(s))
  }

  /** `s.strip() == ""` holds exactly for the strings made only of whitespace
      (the empty string included). */
  lemma StripEmptyIff(s: string)
    ensures Strip(s) == "" <==> AllSpace(s)
  {
  }

  /** A string that neither starts nor ends with whitespace is its own strip. */
  lemma StripUnspaced(s: string)
    requires s == [] || (!IsSpace(s[0]) && !IsSpace(s[|s| - 1]))
    ensures Strip(s) == s
  {
  }

  /** The text after the last `sep`, or all of `s` when it holds none:
      Python `s.split(sep)[-1]`, and `os.path.basename` for separator `sep`. */
  function LastSegment(s: string, sep: char): string {
    if |s| == 0 then ""
    else if s[|s| - 1] == sep then ""
    else LastSegment(s[..|s| - 1], sep) + [s[|s| - 1]]
  }

  /** The last segment holds no separator, ends the string, and is preceded
      by a separator unless it is the whole string. */
  lemma LastSegmentShape(s: string, sep: char)
    ensures sep !in LastSegment(s, sep)
    ensures |LastSegment(s, sep)| <= |s| && LastSegment(s, sep) == s[|s| - |LastSegment(s, sep)|..]
    ensures |LastSegment(s, sep)| < |s| ==> s[|s| - |LastSegment(s, sep)| - 1] == sep
  {
    LastSegmentNoSep(s, sep);
    LastSegmentSuffix(s, sep);
  }

  /** No separator survives into the last segment. */
  lemma {:induction false} LastSegmentNoSep(s: string, sep: char)
    ensures sep !in LastSegment(s, sep)
  {
    if |s| > 0 && s[|s| - 1] != sep {
      LastSegmentNoSep(s[..|s| - 1], sep);
    }
  }

  /** The last segment is a suffix, and the character before it is `sep`. */
  lemma {:induction false} LastSegmentSuffix(s: string, sep: char)
    ensures |LastSegment(s, sep)| <= |s| && LastSegment(s, sep) == s[|s| - |LastSegment(s, sep)|..]
    ensures |LastSegment(s, sep)| < |s| ==> s[|s| - |LastSegment(s, sep)| - 1] == sep
  {
    if |s| > 0 && s[|s| - 1] != sep {
      var init := s[..|s| - 1];
      var c := s[|s| - 1];
      LastSegmentSuffix(init, sep);
      var r := LastSegment(init, sep);
      assert LastSegment(s, sep) == r + [c];
      assert s == init + [c];
      SuffixSnoc(init, c, |r|);
      assert s[|s| - |r + [c]|..] == init[|init| - |r|..] + [c];
      if |r| < |init| {
        assert s[|s| - |r + [c]| - 1] == init[|init| - |r| - 1];
      }
    }
  }

  /** Extending a string extends each of its suffixes. */
  lemma SuffixSnoc(a: string, c: char, k: nat)
    requires k <= |a|
    ensures (a + [c])[|a| - k..] == a[|a| - k..] + [c]
  {
  }

  /** A string without `sep` is its own last segment. */
  lemma LastSegmentAbsent(s: string, sep: char)
    requires sep !in s
    ensures LastSegment(s, sep) == s
  {
    assert s[0..] == s;
  }

  /** Splitting `prefix + sep + name` keeps `name` whenever `name` has no `sep`. */
  lemma {:induction false} LastSegmentOfJoin(prefix: string, sep: char, name: string)
    requires sep !in name
    ensures LastSegment(prefix + [sep] + name, sep) == name
  {
    var s := prefix + [sep] + name;
    if |name| > 0 {
      assert s[..|s| - 1] == prefix + [sep] + name[..|name| - 1];
      LastSegmentOfJoin(prefix, sep, name[..|name| - 1]);
      assert name == name[..|name| - 1] + [name[|name| - 1]];
    }
  }

  /** Python `s.replace(pat, "")` for a non-empty `pat`: every occurrence,
      found left to right without overlap, is removed. */
  function RemoveAll(s: string, pat: string): (r: string)
    requires |pat| > 0
    ensures |r| <= |s|
    decreases |s|
  {
    if |pat| <= |s| && s[..|pat|] == pat then RemoveAll(s[|pat|..], pat)
    else if |s| == 0 then ""
    else [s[0]] + RemoveAll(s[1..], pat)
  }

  /** Text without the first character of `pat` cannot start an occurrence
      and is kept as it is. */
  lemma {:induction false} RemoveAllKeepsHead(a: string, t: string, pat: string)
    requires |pat| > 0 && pat[0] !in a
    ensures RemoveAll(a + t, pat) == a + RemoveAll(t, pat)
  {
    if |a| == 0 {
      assert a + t == t;
    } else {
      assert (a + t)[0] == a[0];
      assert (a + t)[1..] == a[1..] + t;
      RemoveAllKeepsHead(a[1..], t, pat);
    }
  }

  /** An occurrence at the front is dropped. */
  lemma RemoveAllDropsHead(t: string, pat: string)
    requires |pat| > 0
    ensures RemoveAll(pat + t, pat) == RemoveAll(t, pat)
  {
    assert (pat + t)[..|pat|] == pat;
    assert (pat + t)[|pat|..] == t;
  }

  predicate OccursAt(pat: string, s: string, i: int) {
    0 <= i && i + |pat| <= |s| && s[i..i + |pat|] == pat
  }

  ghost predicate Occurs(pat: string, s: string) {
    exists i :: OccursAt(pat, s, i)
  }

  /** A string without an occurrence of `pat` comes back unchanged. */
  lemma {:induction false} RemoveAllAbsent(s: string, pat: string)
    requires |pat| > 0 && !Occurs(pat, s)
    ensures RemoveAll(s, pat) == s
    decreases |s|
  {
    assert !OccursAt(pat, s, 0);
    if |s| > 0 {
      forall i | 0 <= i
        ensures !OccursAt(pat, s[1..], i)
      {
        assert !OccursAt(pat, s, i + 1);
        if i + |pat| <= |s[1..]| {
          assert s[1..][i..i + |pat|] == s[i + 1..i + 1 + |pat|];
        }
      }
      RemoveAllAbsent(s[1..], pat);
    }
  }

  predicate IsDigits(s: string) {
    forall i :: 0 <= i < |s| ==> '0' <= s[i] <= '9'
  }

  /** Decimal digits of `n`, most significant first, without leading zeros. */
  function NatToString(n: nat): (r: string)
    ensures |r| > 0 && IsDigits(r)
    ensures |r| > 1 ==> r[0] != '0'
  {
    if n < 10 then [(48 + n) as char]
    else NatToString(n / 10) + [(48 + n % 10) as char]
  }

  /** The value of a string of decimal digits. */
  function ParseDigits(s: string): nat
    requires IsDigits(s)
  {
    if |s| == 0 then 0
    else ParseDigits(s[..|s| - 1]) * 10 + (s[|s| - 1] as int - 48)
  }

  lemma {:induction false} ParseNatToString(n: nat)
    ensures ParseDigits(NatToString(n)) == n
  {
    if n >= 10 {
      var s := NatToString(n);
      assert s[..|s| - 1] == NatToString(n / 10);
      ParseNatToString(n / 10);
    }
  }

  /** Python `str(i)`: an optional minus sign followed by the digits of `|i|`. */
  function IntToString(i: int): (r: string)
    ensures |r| > 0
    ensures i < 0 <==> r[0] == '-'
    ensures forall k :: 0 < k < |r| ==> '0' <= r[k] <= '9'
    ensures i >= 0 ==> IsDigits(r)
  {
    if i < 0 then "-" + NatToString(-i) else NatToString(i)
  }

  /** Distinct naturals print differently. */
  lemma NatToStringInjective(x: nat, y: nat)
    requires NatToString(x) == NatToString(y)
    ensures x == y
  {
    ParseNatToString(x);
    ParseNatToString(y);
  }

  /** Distinct integers print differently. */
  lemma IntToStringInjective(a: int, b: int)
    requires IntToString(a) == IntToString(b)
    ensures a == b
  {
    if a < 0 {
      assert IntToString(a)[1..] == NatToString(-a);
      assert IntToString(b)[1..] == NatToString(-b);
      NatToStringInjective(-a, -b);
    } else {
      NatToStringInjective(a, b);
    }
  }
}
