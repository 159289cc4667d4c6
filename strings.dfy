/** Character classes and plain string helpers shared by the formatting passes:
    Python's notion of whitespace (`\s`, `str.strip()`), the word and letter
    classes used by the patterns, substring occurrence, and decimal rendering
    of integers (as an f-string does). */
module Strings {

  /** Python's `str.isspace()`, which is also what `\s` matches in a `str` pattern. */
  predicate IsSpace(c: char) {
    var n := c as int;
    (9 <= n <= 13) || (28 <= n <= 32) || n == 0x85 || n == 0xA0 || n == 0x1680
    || (0x2000 <= n <= 0x200A) || n == 0x2028 || n == 0x2029 || n == 0x202F
    || n == 0x205F || n == 0x3000
  }

  predicate IsAsciiUpper(c: char) { 'A' <= c <= 'Z' }

  predicate IsAsciiLetter(c: char) { 'A' <= c <= 'Z' || 'a' <= c <= 'z' }

  predicate IsDigit(c: char) { '0' <= c <= '9' }

  /** `\w`, restricted to ASCII. */
  predicate IsWordChar(c: char) { IsAsciiLetter(c) || IsDigit(c) || c == '_' }

  predicate AllSpace(s: string) {
    forall i :: 0 <= i < |s| ==> IsSpace(s[i])
  }

  /** Neither the first nor the last character is whitespace. */
  predicate NoEdgeSpace(s: string) {
    s == [] || (!IsSpace(s[0]) && !IsSpace(s[|s| - 1]))
  }

  /** The end of the whitespace run that starts at `i`. */
  function SpaceRunEnd(s: string, i: nat): (j: nat)
    requires i <= |s|
    ensures i <= j <= |s|
    ensures forall k :: i <= k < j ==> IsSpace(s[k])
    ensures j < |s| ==> !IsSpace(s[j])
    decreases |s| - i
  {
    if i < |s| && IsSpace(s[i]) then SpaceRunEnd(s, i + 1) else i
  }

  /** The start of the whitespace run that ends at `j`. */
  function SpaceRunStart(s: string, j: nat): (i: nat)
    requires j <= |s|
    ensures i <= j
    ensures forall k :: i <= k < j ==> IsSpace(s[k])
    ensures 0 < i ==> !IsSpace(s[i - 1])
  {
    if 0 < j && IsSpace(s[j - 1]) then SpaceRunStart(s, j - 1) else j
  }

  /** Drops leading whitespace, as `str.lstrip()`. */
  function StripLeft(s: string): (r: string)
    ensures |r| <= |s| && r == s[|s| - |r|..]
    ensures AllSpace(s[..|s| - |r|])
    ensures r == [] || !IsSpace(r[0])
  {
    s[SpaceRunEnd(s, 0)..]
  }

  /** Drops trailing whitespace, as `str.rstrip()`. */
  function StripRight(s: string): (r: string)
    ensures |r| <= |s| && r == s[..|r|]
    ensures AllSpace(s[|r|..])
    ensures r == [] || !IsSpace(r[|r| - 1])
  {
    s[..SpaceRunStart(s, |s|)]
  }

  /** `str.strip()` with no argument. */
  function Strip(s: string): string {
    StripRight(StripLeft(s))
  }

  /** Strip removes whitespace from both ends and nothing else: the input is
      the result with whitespace on either side, and the result has no
      whitespace at either end. */
  lemma StripSpec(s: string)
    ensures NoEdgeSpace(Strip(s))
    ensures var r, i := Strip(s), |s| - |StripLeft(s)|;
      i + |r| <= |s| && s[i..i + |r|] == r && AllSpace(s[..i]) && AllSpace(s[i + |r|..])
  {
    StripCompose(s, StripLeft(s), StripRight(StripLeft(s)));
  }

  lemma StripCompose(s: string, l: string, r: string)
    requires |l| <= |s| && l == s[|s| - |l|..] && (l == [] || !IsSpace(l[0]))
    requires |r| <= |l| && r == l[..|r|] && AllSpace(l[|r|..]) && (r == [] || !IsSpace(r[|r| - 1]))
    ensures NoEdgeSpace(r)
    ensures var i := |s| - |l|; s[i..i + |r|] == r && AllSpace(s[i + |r|..])
  {
    var i := |s| - |l|;
    if r != [] {
      assert r[0] == l[0];
    }
    forall x | 0 <= x < |r| ensures s[i..i + |r|][x] == r[x] {
      assert r[x] == l[x] && l[x] == s[i + x];
    }
    var tail := s[i + |r|..];
    forall x | 0 <= x < |tail| ensures IsSpace(tail[x]) {
      assert l[|r|..][x] == l[|r| + x] == s[i + |r| + x];
    }
  }

  /** Trimming a body followed by one newline gives back the trimmed body. */
  lemma StripNewline(s: string)
    requires NoEdgeSpace(s)
    ensures Strip(s + "\n") == s
  {
    if s == [] {
      assert StripLeft("\n") == StripLeft([]);
    } else {
      assert StripLeft(s + "\n") == s + "\n";
      assert (s + "\n")[..|s + "\n"| - 1] == s;
    }
  }

  lemma SliceOfSlice(t: string, i: nat, k: nat, a: nat, b: nat)
    requires i <= k <= |t| && a <= b <= k - i
    ensures t[i..k][a..b] == t[i + a..i + b]
  {
    assert |t[i..k][a..b]| == |t[i + a..i + b]|;
    forall x | 0 <= x < b - a ensures t[i..k][a..b][x] == t[i + a..i + b][x] { }
  }

  /** `n` occurs in `s` starting at index `j`. */
  predicate OccursAt(s: string, j: nat, n: string) {
    j + |n| <= |s| && s[j..j + |n|] == n
  }

  /** `n` occurs nowhere in `s` (the `n not in s` of Python). */
  predicate NoOcc(s: string, n: string) {
    forall j :: 0 <= j <= |s| ==> !OccursAt(s, j, n)
  }

  /** A needle whose first character is absent from `s` occurs nowhere in it. */
  lemma NoOccFirstAbsent(s: string, n: string)
    requires n != [] && n[0] !in s
    ensures NoOcc(s, n)
  {
    forall j | 0 <= j <= |s| ensures !OccursAt(s, j, n) {
      if OccursAt(s, j, n) {
        OccursChar(s, j, n, 0);
      }
    }
  }

  lemma OccursChar(s: string, j: nat, n: string, e: nat)
    requires OccursAt(s, j, n) && e < |n|
    ensures s[j + e] == n[e]
  {
    assert s[j..j + |n|][e] == n[e];
  }

  lemma OccursAtPrefix(s: string, j: nat, n: string, m: nat)
    requires OccursAt(s, j, n) && m <= |n|
    ensures OccursAt(s, j, n[..m])
  {
    assert s[j..j + m] == s[j..j + |n|][..m];
  }

  /** An occurrence at or after the end of `a` in `a + b` is an occurrence in `b`. */
  lemma OccursShift(a: string, b: string, j: nat, n: string)
    requires j >= |a|
    ensures OccursAt(a + b, j, n) <==> OccursAt(b, j - |a|, n)
  {
    if j + |n| <= |a + b| {
      assert (a + b)[j..j + |n|] == b[j - |a|..j - |a| + |n|];
    }
  }

  /** An occurrence that ends inside `a` is an occurrence in `a`. */
  lemma OccursInPrefix(a: string, b: string, j: nat, n: string)
    requires j + |n| <= |a|
    ensures OccursAt(a + b, j, n) <==> OccursAt(a, j, n)
  {
    assert (a + b)[j..j + |n|] == a[j..j + |n|];
  }

  /** Occurrence at `j` of `s` is occurrence at the start of the suffix `s[j..]`. */
  lemma OccursSuffix(s: string, j: nat, n: string)
    requires j <= |s|
    ensures OccursAt(s, j, n) <==> OccursAt(s[j..], 0, n)
  {
    if j + |n| <= |s| {
      assert s[j..][..|n|] == s[j..j + |n|];
    }
  }

  /** What is absent from `a + b` is absent from both parts. */
  lemma NoOccParts(a: string, b: string, n: string)
    requires NoOcc(a + b, n)
    ensures NoOcc(a, n) && NoOcc(b, n)
  {
    forall j | 0 <= j <= |a| ensures !OccursAt(a, j, n) {
      if j + |n| <= |a| { OccursInPrefix(a, b, j, n); }
    }
    forall j | 0 <= j <= |b| ensures !OccursAt(b, j, n) {
      OccursShift(a, b, |a| + j, n);
    }
  }

  function DigitChar(d: nat): (c: char)
    requires d < 10
    ensures IsDigit(c)
  {
    ('0' as int + d) as char
  }

  /** Decimal digits of `n`, as `str(n)` for a non-negative int. */
  function NatToDecimal(n: nat): (r: string)
    ensures |r| >= 1
    ensures forall i :: 0 <= i < |r| ==> IsDigit(r[i])
    ensures n < 10 ==> r == [DigitChar(n)]
    ensures n >= 10 ==> |r| >= 2
  {
    if n < 10 then [DigitChar(n)] else NatToDecimal(n / 10) + [DigitChar(n % 10)]
  }

  /** `str(i)` for any int. */
  function IntToDecimal(i: int): (r: string)
    ensures |r| >= 1
    ensures i < 0 <==> r[0] == '-'
  {
    if i < 0 then "-" + NatToDecimal(-i) else NatToDecimal(i)
  }
}
