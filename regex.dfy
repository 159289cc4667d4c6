/** A model of `re.sub(pattern, repl, text)` for one fixed pattern at a time.

    The pattern is given as a matcher: a function that looks at the text
    remaining at the current position and either reports a hit (how many
    characters the match consumes and what replaces them, with the groups
    already substituted) or no hit. `Sub` scans left to right: on a hit it
    emits the replacement and resumes after the match, otherwise it copies one
    character and moves on. None of the patterns of app.py can match the
    empty string and none looks behind, so this is exactly how Python's
    engine walks the text. `str.replace` is `Sub` with a literal matcher. */
module Regex {
  import opened Strings

  datatype Option<T> = None | Some(value: T)

  /** A match at the current position: its length and its replacement text. */
  datatype Hit = Hit(len: nat, repl: string)

  type Matcher = string -> Option<Hit>

  /** Every hit consumes at least one character and no more than remain. */
  ghost predicate Consumes(m: Matcher) {
    forall t :: m(t).Some? ==> 0 < m(t).value.len <= |t|
  }

  /** A hit, if any, at `t` replaces exactly the text it consumed. */
  ghost predicate Keeps(m: Matcher, t: string) {
    m(t).None? || (m(t).value.len <= |t| && m(t).value.repl == t[..m(t).value.len])
  }

  /** A hit, if any, at `t` is replaced by nothing longer than what it consumed. */
  ghost predicate Shrinks(m: Matcher, t: string) {
    m(t).None? || |m(t).value.repl| <= m(t).value.len
  }

  /** `re.sub` with the pattern `m`: on a hit, emit its replacement and resume
      after the match; otherwise copy one character. */
  function Sub(m: Matcher, s: string): string
    requires Consumes(m)
    decreases |s|
  {
    if s == [] then []
    else match m(s)
      case Some(h) => h.repl + Sub(m, s[h.len..])
      case None => [s[0]] + Sub(m, s[1..])
  }

  /** When every hit in `s` reproduces its own text, `Sub` changes nothing. */
  lemma {:induction false} SubKeeps(m: Matcher, s: string)
    requires Consumes(m)
    requires forall j :: 0 <= j < |s| ==> Keeps(m, s[j..])
    ensures Sub(m, s) == s
    decreases |s|
  {
    if s != [] {
      assert Keeps(m, s[0..]);
      assert s[0..] == s;
      match m(s)
      case Some(h) =>
        forall j | 0 <= j < |s[h.len..]| ensures Keeps(m, s[h.len..][j..]) {
          assert s[h.len..][j..] == s[h.len + j..];
        }
        SubKeeps(m, s[h.len..]);
        assert s == s[..h.len] + s[h.len..];
      case None =>
        forall j | 0 <= j < |s[1..]| ensures Keeps(m, s[1..][j..]) {
          assert s[1..][j..] == s[1 + j..];
        }
        SubKeeps(m, s[1..]);
    }
  }

  /** When no hit in `s` grows the text, neither does `Sub`. */
  lemma {:induction false} SubShrinks(m: Matcher, s: string)
    requires Consumes(m)
    requires forall j :: 0 <= j < |s| ==> Shrinks(m, s[j..])
    ensures |Sub(m, s)| <= |s|
    decreases |s|
  {
    if s != [] {
      assert s[0..] == s;
      match m(s)
      case Some(h) =>
        forall j | 0 <= j < |s[h.len..]| ensures Shrinks(m, s[h.len..][j..]) {
          assert s[h.len..][j..] == s[h.len + j..];
        }
        SubShrinks(m, s[h.len..]);
      case None =>
        forall j | 0 <= j < |s[1..]| ensures Shrinks(m, s[1..][j..]) {
          assert s[1..][j..] == s[1 + j..];
        }
        SubShrinks(m, s[1..]);
    }
  }

  /** A prefix `a` that holds no match start is copied verbatim. */
  lemma {:induction false} SubSkip(m: Matcher, a: string, b: string)
    requires Consumes(m)
    requires forall j :: 0 <= j < |a| ==> m((a + b)[j..]).None?
    ensures Sub(m, a + b) == a + Sub(m, b)
    decreases |a|
  {
    if a != [] {
      assert (a + b)[0..] == a + b;
      assert m(a + b).None?;
      assert (a + b)[1..] == a[1..] + b;
      forall j | 0 <= j < |a[1..]| ensures m((a[1..] + b)[j..]).None? {
        assert (a[1..] + b)[j..] == (a + b)[1 + j..];
      }
      SubSkip(m, a[1..], b);
      calc {
        Sub(m, a + b);
        [(a + b)[0]] + Sub(m, (a + b)[1..]);
        [a[0]] + (a[1..] + Sub(m, b));
        { assert a == [a[0]] + a[1..]; }
        a + Sub(m, b);
      }
    } else {
      assert a + b == b;
    }
  }

  /** A text in which the pattern matches nowhere is left unchanged. */
  lemma SubNoHit(m: Matcher, s: string)
    requires Consumes(m)
    requires forall j :: 0 <= j < |s| ==> m(s[j..]).None?
    ensures Sub(m, s) == s
  {
    forall j | 0 <= j < |s| ensures Keeps(m, s[j..]) { }
    SubKeeps(m, s);
  }

  /** The lazy `(.*?)` followed by `n`, tried from index `i` of `t`: the first
      index `k >= i` at which `n` occurs. Without DOTALL (`dotAll == false`) the
      group cannot cross a newline, so the search gives up at the first `\n`. */
  function Find(t: string, i: nat, n: string, dotAll: bool): (r: Option<nat>)
    requires i <= |t|
    ensures r.Some? ==> i <= r.value && OccursAt(t, r.value, n)
    ensures r.Some? ==> forall k :: i <= k < r.value ==> !OccursAt(t, k, n)
    ensures r.Some? && !dotAll ==> '\n' !in t[i..r.value]
    ensures r.None? ==> forall k :: i <= k <= |t| && (dotAll || '\n' !in t[i..k]) ==> !OccursAt(t, k, n)
    decreases |t| - i
  {
    if OccursAt(t, i, n) then Some(i)
    else if i == |t| || (!dotAll && t[i] == '\n') then None
    else
      var r := Find(t, i + 1, n, dotAll);
      assert forall k :: i + 1 <= k <= |t| ==> t[i..k] == [t[i]] + t[i + 1..k];
      r
  }

  /** `Find` stops at the first occurrence that it may reach. */
  lemma FindExact(t: string, i: nat, n: string, dotAll: bool, k: nat)
    requires i <= k <= |t|
    requires OccursAt(t, k, n)
    requires forall j :: i <= j < k ==> !OccursAt(t, j, n)
    requires dotAll || '\n' !in t[i..k]
    ensures Find(t, i, n, dotAll) == Some(k)
  {
  }

  /** The greedy `[^c]*` from index `i` of `t`: the index of the first `c` at or
      after `i`, or `|t|` when there is none. */
  function FirstOf(t: string, i: nat, c: char): (j: nat)
    requires i <= |t|
    ensures i <= j <= |t|
    ensures c !in t[i..j]
    ensures j < |t| ==> t[j] == c
    decreases |t| - i
  {
    if i == |t| || t[i] == c then i
    else
      var j := FirstOf(t, i + 1, c);
      assert t[i..j] == [t[i]] + t[i + 1..j];
      j
  }

  /** The literal pattern `needle`, replaced by `repl`. */
  function LiteralAt(needle: string, repl: string, t: string): (r: Option<Hit>)
    ensures r.Some? <==> needle != [] && OccursAt(t, 0, needle)
    ensures r.Some? ==> r.value == Hit(|needle|, repl)
  {
    if needle != [] && OccursAt(t, 0, needle) then Some(Hit(|needle|, repl)) else None
  }

  /** `s.replace(needle, repl)`: every non-overlapping occurrence, left to
      right. Text that does not contain the needle is left as it is, and a
      replacement no longer than the needle never grows the text. The empty
      needle, which Python matches between every two characters, never
      matches here; app.py never passes one. */
  function Replace(s: string, needle: string, repl: string): (r: string)
    ensures NoOcc(s, needle) ==> r == s
    ensures |repl| <= |needle| ==> |r| <= |s|
  {
    var r := Sub(t => LiteralAt(needle, repl, t), s);
    assert NoOcc(s, needle) ==> r == s by {
      if NoOcc(s, needle) {
        forall j | 0 <= j < |s| ensures LiteralAt(needle, repl, s[j..]).None? {
          OccursSuffix(s, j, needle);
        }
        SubNoHit(t => LiteralAt(needle, repl, t), s);
      }
    }
    assert |repl| <= |needle| ==> |r| <= |s| by {
      if |repl| <= |needle| {
        SubShrinks(t => LiteralAt(needle, repl, t), s);
      }
    }
    r
  }

  /** `Replace` copies a prefix in which no occurrence of the needle starts. */
  lemma ReplaceSkip(a: string, b: string, needle: string, repl: string)
    requires forall j :: 0 <= j < |a| ==> !OccursAt(a + b, j, needle)
    ensures Replace(a + b, needle, repl) == a + Replace(b, needle, repl)
  {
    forall j | 0 <= j < |a| ensures LiteralAt(needle, repl, (a + b)[j..]).None? {
      OccursSuffix(a + b, j, needle);
    }
    SubSkip(t => LiteralAt(needle, repl, t), a, b);
  }

  /** An occurrence at the start is replaced, and scanning resumes after it. */
  lemma ReplaceFirst(b: string, needle: string, repl: string)
    requires needle != [] && OccursAt(b, 0, needle)
    ensures Replace(b, needle, repl) == repl + Replace(b[|needle|..], needle, repl)
  {
  }
}
