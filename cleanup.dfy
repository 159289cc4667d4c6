/** The clean-up that ends `format_response` (app.py:98-103): the think tags
    are deleted, runs of blank lines are collapsed, a line break is put
    after each sentence that runs into a capital letter, and the result is
    trimmed. */
module Cleanup {
  import opened Strings
  import opened Regex

  /** Line 99: `text.replace('</think>', '').replace('<think>', '')`. Deleting
      the tags never lengthens the text, and text free of both tags is left as
      it is. */
  function StripThink(s: string): (r: string)
    ensures |r| <= |s|
    ensures NoOcc(s, "</think>") && NoOcc(s, "<think>") ==> r == s
  {
    Replace(Replace(s, "</think>", ""), "<think>", "")
  }

  /** The greedy `\s*` from index `i` of `t`: the end of the whitespace run
      that starts there. */
  function SpaceEnd(t: string, i: nat): (r: nat)
    requires i <= |t|
    ensures i <= r <= |t|
    ensures AllSpace(t[i..r])
    ensures r < |t| ==> !IsSpace(t[r])
    decreases |t| - i
  {
    if i < |t| && IsSpace(t[i]) then
      var r := SpaceEnd(t, i + 1);
      assert t[i..r] == [t[i]] + t[i + 1..r];
      r
    else i
  }

  /** The last newline in `t[i..j]`, if there is one. */
  function LastNewline(t: string, i: nat, j: nat): (r: Option<nat>)
    requires i <= j <= |t|
    ensures r.Some? ==> i <= r.value < j && t[r.value] == '\n' && '\n' !in t[r.value + 1..j]
    ensures r.None? ==> '\n' !in t[i..j]
    decreases j - i
  {
    if j == i then None
    else if t[j - 1] == '\n' then Some(j - 1)
    else
      var r := LastNewline(t, i, j - 1);
      assert r.Some? ==> t[r.value + 1..j] == t[r.value + 1..j - 1] + [t[j - 1]];
      assert t[i..j] == t[i..j - 1] + [t[j - 1]];
      r
  }

  /** `\n\s*\n` (line 100) at the start of `t`: a newline, then the longest
      whitespace run that still ends in a newline. The greedy `\s*` takes the
      whole run and gives back characters until the last newline in it. */
  function BlankLinesAt(t: string): (r: Option<Hit>)
    ensures r.Some? ==> 2 <= r.value.len <= |t| && r.value.repl == "\n\n"
  {
    if t != [] && t[0] == '\n' then
      match LastNewline(t, 1, SpaceEnd(t, 1))
      case Some(k) => Some(Hit(k + 1, "\n\n"))
      case None => None
    else None
  }

  /** Line 100: `re.sub(r'\n\s*\n', '\n\n', text)`. Text without a newline
      is left as it is. */
  function Collapse(s: string): (r: string)
    ensures '\n' !in s ==> r == s
  {
    var r := Sub(BlankLinesAt, s);
    assert '\n' !in s ==> r == s by {
      if '\n' !in s {
        NoNewlineNoBlankLines(s);
      }
    }
    r
  }

  lemma NoNewlineNoBlankLines(s: string)
    requires '\n' !in s
    ensures Sub(BlankLinesAt, s) == s
  {
    forall j | 0 <= j < |s| ensures BlankLinesAt(s[j..]).None? {
      assert s[j..][0] == s[j];
    }
    SubNoHit(BlankLinesAt, s);
  }

  /** A blank-line match starts exactly at a newline whose whitespace run holds
      another newline; it ends at the last newline of that run. */
  lemma BlankLinesHit(t: string)
    ensures BlankLinesAt(t).Some? <==> t != [] && t[0] == '\n' && '\n' in t[1..SpaceEnd(t, 1)]
    ensures BlankLinesAt(t).Some? ==> var n, w := BlankLinesAt(t).value.len, SpaceEnd(t, 1);
      n <= w && t[n - 1] == '\n' && '\n' !in t[n..w]
  {
    if t != [] && t[0] == '\n' {
      var w := SpaceEnd(t, 1);
      var last := LastNewline(t, 1, w);
      if last.Some? {
        assert t[1..w][last.value - 1] == '\n';
      }
    }
  }

  /** What a blank-line match consumes is whitespace. */
  lemma BlankLinesSpace(t: string)
    requires BlankLinesAt(t).Some?
    ensures AllSpace(t[..BlankLinesAt(t).value.len])
  {
    var n, w := BlankLinesAt(t).value.len, SpaceEnd(t, 1);
    BlankLinesHit(t);
    forall x | 0 <= x < n ensures IsSpace(t[..n][x]) {
      if x > 0 {
        assert t[..n][x] == t[1..w][x - 1];
      }
    }
  }

  /** The number of newlines in the whitespace run that starts `t`. */
  function RunNewlines(t: string): nat
    decreases |t|
  {
    if t == [] || !IsSpace(t[0]) then 0
    else (if t[0] == '\n' then 1 else 0) + RunNewlines(t[1..])
  }

  lemma RunNewlinesCons(c: char, t: string)
    ensures RunNewlines([c] + t)
         == if IsSpace(c) then (if c == '\n' then 1 else 0) + RunNewlines(t) else 0
  {
    assert ([c] + t)[1..] == t;
  }

  /** A run whose only characters before the next non-space (or the end of the
      text) are whitespace other than `\n` holds no newline. */
  lemma {:induction false} QuietRun(t: string, a: nat, b: nat)
    requires a <= b <= |t| && AllSpace(t[a..b]) && '\n' !in t[a..b]
    requires b == |t| || !IsSpace(t[b])
    ensures RunNewlines(t[a..]) == 0
    decreases b - a
  {
    if a < b {
      assert t[a..][0] == t[a..b][0];
      assert t[a..][1..] == t[a + 1..];
      assert t[a + 1..b] == t[a..b][1..];
      QuietRun(t, a + 1, b);
    } else if a < |t| {
      assert t[a..][0] == t[b];
    }
  }

  /** Text whose leading run holds no newline keeps that property through the
      collapse: no match can start inside the run. */
  lemma {:induction false} CollapseQuiet(s: string)
    requires RunNewlines(s) == 0
    ensures RunNewlines(Collapse(s)) == 0
    decreases |s|
  {
    if s != [] && BlankLinesAt(s).None? {
      var out := Collapse(s);
      assert out == [s[0]] + Collapse(s[1..]);
      if IsSpace(s[0]) {
        CollapseQuiet(s[1..]);
        assert out[1..] == Collapse(s[1..]);
      }
    }
  }

  /** After a blank-line match, the collapsed rest starts with no newline in
      its leading whitespace: the match took the last newline of the run. */
  lemma AfterBlankLines(s: string)
    requires BlankLinesAt(s).Some?
    ensures RunNewlines(Collapse(s[BlankLinesAt(s).value.len..])) == 0
  {
    var w := SpaceEnd(s, 1);
    var k := LastNewline(s, 1, w).value;
    assert s[k + 1..w] == s[1..w][k..];
    QuietRun(s, k + 1, w);
    CollapseQuiet(s[k + 1..]);
  }

  /** After the collapse, the whitespace run at the very start holds at most
      two newlines. */
  lemma {:induction false} CollapseHead(s: string)
    ensures RunNewlines(Collapse(s)) <= 2
    decreases |s|
  {
    if s != [] {
      match BlankLinesAt(s)
      case Some(h) =>
        AfterBlankLines(s);
        var rest := Collapse(s[h.len..]);
        CollapseHitStep(s);
        RunNewlinesCons('\n', rest);
        RunNewlinesCons('\n', ['\n'] + rest);
        assert Collapse(s) == ['\n'] + (['\n'] + rest);
      case None =>
        CollapseMissStep(s);
        RunNewlinesCons(s[0], Collapse(s[1..]));
        if s[0] == '\n' {
          var w := SpaceEnd(s, 1);
          assert LastNewline(s, 1, w).None?;
          QuietRun(s, 1, w);
          CollapseQuiet(s[1..]);
        } else if IsSpace(s[0]) {
          CollapseHead(s[1..]);
        }
    }
  }

  lemma CollapseHitStep(s: string)
    requires BlankLinesAt(s).Some?
    ensures Collapse(s) == "\n\n" + Collapse(s[BlankLinesAt(s).value.len..])
  {
  }

  lemma CollapseMissStep(s: string)
    requires s != [] && BlankLinesAt(s).None?
    ensures Collapse(s) == [s[0]] + Collapse(s[1..])
  {
  }

  /** No whitespace run anywhere in the collapsed text holds more than two
      newlines: every run of blank lines has become one empty line. */
  lemma {:induction false} CollapseBound(s: string)
    ensures forall i :: 0 <= i <= |Collapse(s)| ==> RunNewlines(Collapse(s)[i..]) <= 2
    decreases |s|
  {
    if s != [] {
      var out := Collapse(s);
      CollapseHead(s);
      assert out[0..] == out;
      match BlankLinesAt(s)
      case Some(h) =>
        var rest := Collapse(s[h.len..]);
        CollapseBound(s[h.len..]);
        assert out == "\n\n" + rest;
        forall i | 1 <= i <= |out| ensures RunNewlines(out[i..]) <= 2 {
          if i == 1 {
            assert out[1..][1..] == rest;
            AfterBlankLines(s);
          } else {
            assert out[i..] == rest[i - 2..];
          }
        }
      case None =>
        var rest := Collapse(s[1..]);
        CollapseBound(s[1..]);
        assert out == [s[0]] + rest;
        forall i | 1 <= i <= |out| ensures RunNewlines(out[i..]) <= 2 {
          assert out[i..] == rest[i - 1..];
        }
    }
  }

  predicate IsStop(c: char) { c == '.' || c == '!' || c == '?' }

  /** `([.!?])\s*([A-Z])` (line 101) at the start of `t`, replaced by
      `\1\n\2`: the whitespace between the stop and the capital, whatever it
      was, becomes one newline. */
  function SentenceBreakAt(t: string): (r: Option<Hit>)
    ensures r.Some? ==> 2 <= r.value.len <= |t|
    ensures r.Some? <==> t != [] && IsStop(t[0]) && SpaceEnd(t, 1) < |t| && IsAsciiUpper(t[SpaceEnd(t, 1)])
    ensures r.Some? ==> var n := r.value.len;
      AllSpace(t[1..n - 1]) && IsAsciiUpper(t[n - 1]) && r.value.repl == [t[0], '\n', t[n - 1]]
  {
    if t != [] && IsStop(t[0]) then
      var w := SpaceEnd(t, 1);
      if w < |t| && IsAsciiUpper(t[w]) then Some(Hit(w + 1, [t[0], '\n', t[w]])) else None
    else None
  }

  /** No full stop, `!` or `?` anywhere in `s`. */
  predicate NoStop(s: string) {
    forall j :: 0 <= j < |s| ==> !IsStop(s[j])
  }

  /** Line 101: `re.sub(r'([.!?])\s*([A-Z])', r'\1\n\2', text)`. Text
      without a full stop, `!` or `?` is left as it is. */
  function BreakSentences(s: string): (r: string)
    ensures NoStop(s) ==> r == s
  {
    var r := Sub(SentenceBreakAt, s);
    assert NoStop(s) ==> r == s by {
      if NoStop(s) {
        NoStopNoBreak(s);
      }
    }
    r
  }

  lemma NoStopNoBreak(s: string)
    requires NoStop(s)
    ensures Sub(SentenceBreakAt, s) == s
  {
    forall j | 0 <= j < |s| ensures SentenceBreakAt(s[j..]).None? {
      assert s[j..][0] == s[j];
    }
    SubNoHit(SentenceBreakAt, s);
  }

  /** Where no stop, whitespace and capital start the text, its first
      character is copied and the scan moves on by one. */
  lemma BreakMiss(s: string)
    requires s != [] && !(IsStop(s[0]) && SpaceEnd(s, 1) < |s| && IsAsciiUpper(s[SpaceEnd(s, 1)]))
    ensures BreakSentences(s) == [s[0]] + BreakSentences(s[1..])
  {
  }

  /** A stop followed by whitespace and a capital is rewritten to the stop, one
      newline and the capital, and scanning resumes after the capital. */
  lemma BreakAt(p: char, gap: string, c: char, rest: string)
    requires IsStop(p) && AllSpace(gap) && IsAsciiUpper(c)
    ensures BreakSentences([p] + gap + [c] + rest) == [p, '\n', c] + BreakSentences(rest)
  {
    var t := [p] + gap + [c] + rest;
    assert t[1..1 + |gap|] == gap;
    assert t[1 + |gap|] == c;
    assert SpaceEnd(t, 1) == 1 + |gap|;
    assert t[|gap| + 2..] == rest;
  }

  /** The first character survives the rewrite. */
  lemma BreakFirst(s: string)
    requires s != []
    ensures BreakSentences(s) != [] && BreakSentences(s)[0] == s[0]
  {
  }

  /** At the start of `t`: if `t` opens with a stop that whitespace separates
      from a capital, that whitespace is exactly one newline. */
  predicate BrokenAt(t: string) {
    (t != [] && IsStop(t[0]) && SpaceEnd(t, 1) < |t| && IsAsciiUpper(t[SpaceEnd(t, 1)]))
    ==> SpaceEnd(t, 1) == 2 && t[1] == '\n'
  }

  lemma BrokenAtStop(p: char, c: char, rest: string)
    requires IsStop(p) && IsAsciiUpper(c)
    ensures BrokenAt([p, '\n', c] + rest)
  {
    var t := [p, '\n', c] + rest;
    assert SpaceEnd(t, 2) == 2;
  }

  /** Where no match starts, the first character and the whitespace run after
      it are copied. */
  lemma MissKeepsRun(s: string)
    requires s != [] && SentenceBreakAt(s).None?
    ensures BreakSentences(s) == s[..SpaceEnd(s, 1)] + BreakSentences(s[SpaceEnd(s, 1)..])
  {
    var w := SpaceEnd(s, 1);
    var a, b := s[..w], s[w..];
    assert a + b == s;
    forall j | 0 <= j < |a| ensures SentenceBreakAt((a + b)[j..]).None? {
      if j > 0 {
        assert (a + b)[j..][0] == s[1..w][j - 1];
      }
    }
    SubSkip(SentenceBreakAt, a, b);
  }

  lemma {:induction false} SpaceEndIs(t: string, i: nat, w: nat)
    requires i <= w <= |t| && AllSpace(t[i..w]) && (w == |t| || !IsSpace(t[w]))
    ensures SpaceEnd(t, i) == w
    decreases w - i
  {
    if i < w {
      assert t[i] == t[i..w][0];
      assert t[i + 1..w] == t[i..w][1..];
      SpaceEndIs(t, i + 1, w);
    }
  }

  /** A stop that did not start a match keeps its non-capital follower. */
  lemma BrokenAfterMiss(s: string)
    requires s != [] && SentenceBreakAt(s).None?
    ensures BrokenAt(BreakSentences(s))
  {
    BreakFirst(s);
    if IsStop(s[0]) {
      var w := SpaceEnd(s, 1);
      MissKeepsRun(s);
      var out, after := BreakSentences(s), BreakSentences(s[w..]);
      assert out == s[..w] + after;
      assert out[1..w] == s[1..w];
      if w < |s| {
        BreakFirst(s[w..]);
        assert out[w] == after[0];
      }
      SpaceEndIs(out, 1, w);
    }
  }

  /** Everywhere in the result, a stop that whitespace separates from a
      capital is followed by exactly one newline and then the capital. */
  lemma {:induction false} BreakSentencesSpec(s: string)
    ensures forall i :: 0 <= i <= |BreakSentences(s)| ==> BrokenAt(BreakSentences(s)[i..])
    decreases |s|
  {
    if s != [] {
      var out := BreakSentences(s);
      assert out[0..] == out;
      match SentenceBreakAt(s)
      case Some(h) =>
        var w := h.len - 1;
        var rest := BreakSentences(s[h.len..]);
        BreakSentencesSpec(s[h.len..]);
        assert out == [s[0], '\n', s[w]] + rest;
        BrokenAtStop(s[0], s[w], rest);
        forall i | 1 <= i <= |out| ensures BrokenAt(out[i..]) {
          if i >= 3 {
            assert out[i..] == rest[i - 3..];
          }
        }
      case None =>
        var rest := BreakSentences(s[1..]);
        BreakSentencesSpec(s[1..]);
        BrokenAfterMiss(s);
        assert out == [s[0]] + rest;
        forall i | 1 <= i <= |out| ensures BrokenAt(out[i..]) {
          assert out[i..] == rest[i - 1..];
        }
    }
  }

  /** The text with its whitespace removed. */
  function NonSpace(s: string): string
    decreases |s|
  {
    if s == [] then []
    else (if IsSpace(s[0]) then [] else [s[0]]) + NonSpace(s[1..])
  }

  lemma {:induction false} NonSpaceAppend(a: string, b: string)
    ensures NonSpace(a + b) == NonSpace(a) + NonSpace(b)
    decreases |a|
  {
    if a != [] {
      assert (a + b)[0] == a[0];
      assert (a + b)[1..] == a[1..] + b;
      NonSpaceAppend(a[1..], b);
      var h := if IsSpace(a[0]) then [] else [a[0]];
      calc {
        NonSpace(a + b);
        h + NonSpace(a[1..] + b);
        h + (NonSpace(a[1..]) + NonSpace(b));
        (h + NonSpace(a[1..])) + NonSpace(b);
        NonSpace(a) + NonSpace(b);
      }
    } else {
      assert a + b == b;
    }
  }

  lemma {:induction false} NonSpaceOfSpace(a: string)
    requires AllSpace(a)
    ensures NonSpace(a) == []
    decreases |a|
  {
    if a != [] {
      NonSpaceOfSpace(a[1..]);
    }
  }

  /** A stop, whitespace and a capital, and their rewrite, have the same
      non-space characters. */
  lemma BreakKeepsStops(p: char, gap: string, c: char)
    requires !IsSpace(p) && AllSpace(gap) && !IsSpace(c)
    ensures NonSpace([p] + gap + [c]) == NonSpace([p, '\n', c])
  {
    NonSpaceOfSpace(gap);
    NonSpaceAppend([p] + gap, [c]);
    NonSpaceAppend([p], gap);
    assert NonSpace([c]) == [c] by { assert [c][1..] == []; }
    assert NonSpace([p]) == [p] by { assert [p][1..] == []; }
    assert NonSpace([p, '\n', c]) == [p, c] by {
      assert [p, '\n', c][1..] == ['\n', c];
      assert ['\n', c][1..] == [c];
    }
  }

  /** The sentence break only ever changes whitespace: deleting all whitespace
      from input and result gives the same text. */
  lemma {:induction false} BreakKeepsNonSpace(s: string)
    ensures NonSpace(BreakSentences(s)) == NonSpace(s)
    decreases |s|
  {
    if s != [] {
      match SentenceBreakAt(s)
      case Some(h) =>
        var w := h.len - 1;
        BreakKeepsNonSpace(s[h.len..]);
        var gap := s[1..w];
        assert s == ([s[0]] + gap + [s[w]]) + s[h.len..];
        NonSpaceAppend([s[0]] + gap + [s[w]], s[h.len..]);
        NonSpaceAppend([s[0], '\n', s[w]], BreakSentences(s[h.len..]));
        BreakKeepsStops(s[0], gap, s[w]);
      case None =>
        BreakKeepsNonSpace(s[1..]);
        assert BreakSentences(s) == [s[0]] + BreakSentences(s[1..]);
        NonSpaceAppend([s[0]], BreakSentences(s[1..]));
        assert [s[0]][1..] == [];
    }
  }

  /** The collapse only ever changes whitespace: deleting all whitespace from
      input and result gives the same text. */
  lemma {:induction false} CollapseKeepsNonSpace(s: string)
    ensures NonSpace(Collapse(s)) == NonSpace(s)
    decreases |s|
  {
    if s != [] {
      match BlankLinesAt(s)
      case Some(h) =>
        CollapseKeepsNonSpace(s[h.len..]);
        BlankLinesSpace(s);
        assert s == s[..h.len] + s[h.len..];
        NonSpaceAppend(s[..h.len], s[h.len..]);
        NonSpaceOfSpace(s[..h.len]);
        assert Collapse(s) == "\n\n" + Collapse(s[h.len..]);
        NonSpaceAppend("\n\n", Collapse(s[h.len..]));
        NonSpaceOfSpace("\n\n");
      case None =>
        CollapseKeepsNonSpace(s[1..]);
        assert Collapse(s) == [s[0]] + Collapse(s[1..]);
        NonSpaceAppend([s[0]], Collapse(s[1..]));
        assert [s[0]][1..] == [];
    }
  }

  /** Lines 98-103 after the restore loop. */
  function Finish(s: string): (r: string)
    ensures NoEdgeSpace(r)
  {
    StripSpec(BreakSentences(Collapse(StripThink(s))));
    Strip(BreakSentences(Collapse(StripThink(s))))
  }
}
