/** Math shielding in `format_response` (app.py:82-96): every `$$...$$` or
    `$...$` span is recorded in order and replaced by `MATH_BLOCK_i`; after the
    markdown conversion each placeholder is replaced back by its span. */
module Shielding {
  import opened Strings
  import opened Regex

  const Tag := "MATH_BLOCK_"

  /** `f'MATH_BLOCK_{i}'`. */
  function Placeholder(i: nat): string {
    Tag + NatToDecimal(i)
  }

  predicate IsMathSpan(x: string) {
    |x| >= 2 && x[0] == '$' && x[|x| - 1] == '$'
  }

  /** `\$\$.*?\$\$|\$.*?\$` with DOTALL (line 88): the length of the span
      that starts the text, if one does. The display form is tried first;
      when it has no closing `$$` the inline form is tried. */
  function MathSpanAt(t: string): (r: Option<nat>)
    ensures r.Some? ==> 2 <= r.value <= |t| && IsMathSpan(t[..r.value])
  {
    if OccursAt(t, 0, "$$") && Find(t, 2, "$$", true).Some? then
      var k := Find(t, 2, "$$", true).value;
      assert t[0] == t[0..2][0];
      assert t[k + 1] == t[k..k + 2][1];
      Some(k + 2)
    else if OccursAt(t, 0, "$") && Find(t, 1, "$", true).Some? then
      var k := Find(t, 1, "$", true).value;
      assert t[0] == t[0..1][0];
      assert t[k] == t[k..k + 1][0];
      Some(k + 1)
    else None
  }

  /** A span starts the text exactly when the text starts with `$` and holds
      another `$` after it. */
  lemma MathSpanExists(t: string)
    ensures MathSpanAt(t).Some? <==> t != [] && t[0] == '$' && '$' in t[1..]
  {
    if MathSpanAt(t).Some? {
      var n := MathSpanAt(t).value;
      assert t[1..][n - 2] == t[..n][n - 1];
    }
    if t != [] && t[0] == '$' && '$' in t[1..] {
      var j :| 0 <= j < |t[1..]| && t[1..][j] == '$';
      assert t[0..1] == "$" && t[j + 1..j + 2] == "$";
      assert OccursAt(t, j + 1, "$");
    }
  }

  /** The display form is tried first: after an opening `$$`, the span runs to
      the first closing `$$`. */
  lemma MathSpanDisplay(t: string, k: nat)
    requires OccursAt(t, 0, "$$") && 2 <= k && OccursAt(t, k, "$$")
    requires forall j :: 2 <= j < k ==> !OccursAt(t, j, "$$")
    ensures MathSpanAt(t).Some? && MathSpanAt(t).value == k + 2
  {
    FindExact(t, 2, "$$", true, k);
  }

  /** Otherwise the inline form ends the span at the first `$` after the
      opening one, across newlines too. */
  lemma MathSpanInline(t: string, k: nat)
    requires t != [] && t[0] == '$' && 1 <= k < |t| && t[k] == '$' && '$' !in t[1..k]
    requires OccursAt(t, 0, "$$") ==> forall j :: 2 <= j <= |t| ==> !OccursAt(t, j, "$$")
    ensures MathSpanAt(t).Some? && MathSpanAt(t).value == k + 1
  {
    assert t[0..1] == "$" && t[k..k + 1] == "$";
    forall j | 1 <= j < k ensures !OccursAt(t, j, "$") {
      assert t[1..k][j - 1] == t[j];
    }
    FindExact(t, 1, "$", true, k);
  }

  /** `runs[0] + seps[0] + runs[1] + ... + seps[n-1] + runs[n]`. */
  function Interleave(runs: seq<string>, seps: seq<string>): string
    requires |runs| == |seps| + 1
    decreases |seps|
  {
    if seps == [] then runs[0] else runs[0] + seps[0] + Interleave(runs[1..], seps[1..])
  }

  /** The text cut at its math spans: the spans, left to right, and the runs of
      plain text around them. */
  datatype Split = Split(runs: seq<string>, spans: seq<string>)

  lemma InterleaveCons(x: string, runs: seq<string>, seps: seq<string>)
    requires |runs| == |seps| + 1
    ensures Interleave([x + runs[0]] + runs[1..], seps) == x + Interleave(runs, seps)
  {
    var rs := [x + runs[0]] + runs[1..];
    if seps != [] {
      assert rs[1..] == runs[1..];
    }
  }

  lemma InterleaveHit(span: string, runs: seq<string>, seps: seq<string>)
    requires |runs| == |seps| + 1
    ensures Interleave([[]] + runs, [span] + seps) == span + Interleave(runs, seps)
  {
    var rs, ss := [[]] + runs, [span] + seps;
    assert rs[0] == [] && ss[0] == span;
    assert rs[1..] == runs && ss[1..] == seps;
    var tail := Interleave(runs, seps);
    assert Interleave(rs, ss) == rs[0] + ss[0] + tail;
    assert [] + span == span;
  }

  predicate AllMathSpans(spans: seq<string>) {
    forall i :: 0 <= i < |spans| ==> IsMathSpan(spans[i])
  }

  lemma MathSpansCons(span: string, spans: seq<string>)
    requires IsMathSpan(span) && AllMathSpans(spans)
    ensures AllMathSpans([span] + spans)
  {
    forall i | 0 <= i < |spans| + 1 ensures IsMathSpan(([span] + spans)[i]) {
      if i > 0 {
        assert ([span] + spans)[i] == spans[i - 1];
      }
    }
  }

  function Tokenize(s: string): (r: Split)
    ensures |r.runs| == |r.spans| + 1
    ensures Interleave(r.runs, r.spans) == s
    ensures AllMathSpans(r.spans)
    decreases |s|
  {
    if s == [] then Split([[]], [])
    else match MathSpanAt(s)
      case Some(n) =>
        var rest := Tokenize(s[n..]);
        InterleaveHit(s[..n], rest.runs, rest.spans);
        assert s == s[..n] + s[n..];
        MathSpansCons(s[..n], rest.spans);
        Split([[]] + rest.runs, [s[..n]] + rest.spans)
      case None =>
        var rest := Tokenize(s[1..]);
        InterleaveCons([s[0]], rest.runs, rest.spans);
        assert s == [s[0]] + s[1..];
        Split([[s[0]] + rest.runs[0]] + rest.runs[1..], rest.spans)
  }

  /** At most one `$`, and nothing after it can close a span. */
  predicate AtMostOneDollar(x: string) {
    forall a, b :: 0 <= a < b < |x| && x[a] == '$' ==> x[b] != '$'
  }

  /** Every span was taken: no run but the last holds a `$`, and the last holds
      at most one, which no later `$` closes. */
  predicate Exhaustive(runs: seq<string>) {
    runs != []
    && (forall i :: 0 <= i < |runs| - 1 ==> '$' !in runs[i])
    && AtMostOneDollar(runs[|runs| - 1])
  }

  lemma ExhaustiveHit(runs: seq<string>)
    requires Exhaustive(runs)
    ensures Exhaustive([[]] + runs)
  {
    var rs := [[]] + runs;
    forall i | 1 <= i < |rs| ensures rs[i] == runs[i - 1] { }
  }

  lemma ExhaustiveMiss(c: char, runs: seq<string>)
    requires c != '$' && Exhaustive(runs)
    ensures Exhaustive([[c] + runs[0]] + runs[1..])
  {
    var rs := [[c] + runs[0]] + runs[1..];
    forall i | 1 <= i < |rs| ensures rs[i] == runs[i] { }
    if |runs| == 1 {
      forall a, b | 0 <= a < b < |rs[0]| && rs[0][a] == '$' ensures rs[0][b] != '$' {
        assert rs[0][a] == runs[0][a - 1] && rs[0][b] == runs[0][b - 1];
      }
    } else {
      assert '$' !in runs[0];
    }
  }

  /** The substitution takes every span there is: what it leaves in the runs
      cannot start one. */
  lemma {:induction false} TokenizeComplete(s: string)
    ensures Exhaustive(Tokenize(s).runs)
    decreases |s|
  {
    if s != [] {
      match MathSpanAt(s)
      case Some(n) =>
        TokenizeComplete(s[n..]);
        ExhaustiveHit(Tokenize(s[n..]).runs);
      case None =>
        if s[0] == '$' {
          MathSpanExists(s);
          NoDollarNoSpans(s[1..]);
          assert [s[0]] + s[1..] == s;
          forall a, b | 0 <= a < b < |s| && s[a] == '$' ensures s[b] != '$' {
            assert s[b] == s[1..][b - 1];
          }
        } else {
          TokenizeComplete(s[1..]);
          ExhaustiveMiss(s[0], Tokenize(s[1..]).runs);
        }
    }
  }

  /** `n` placeholders numbered from `from`. */
  function Placeholders(from: nat, n: nat): (r: seq<string>)
    ensures |r| == n
    ensures forall i :: 0 <= i < n ==> r[i] == Placeholder(from + i)
    decreases n
  {
    if n == 0 then [] else [Placeholder(from)] + Placeholders(from + 1, n - 1)
  }

  /** The spans `math_replace` appends to `math_blocks`, in order. */
  function Blocks(s: string): seq<string> {
    Tokenize(s).spans
  }

  /** The shielded form of `s` when the spans before it were already numbered
      `0 .. from - 1`. */
  function ShieldedFrom(s: string, from: nat): string {
    var split := Tokenize(s);
    Interleave(split.runs, Placeholders(from, |split.spans|))
  }

  /** The text after the substitution of line 88: the i-th span replaced by
      `MATH_BLOCK_i`, everything else kept. */
  function ShieldedText(s: string): string {
    ShieldedFrom(s, 0)
  }

  lemma BlocksHit(s: string, n: nat)
    requires MathSpanAt(s).Some? && MathSpanAt(s).value == n
    ensures Blocks(s) == [s[..n]] + Blocks(s[n..])
  {
  }

  lemma ShieldedFromHit(s: string, from: nat, n: nat)
    requires MathSpanAt(s).Some? && MathSpanAt(s).value == n
    ensures ShieldedFrom(s, from) == Placeholder(from) + ShieldedFrom(s[n..], from + 1)
  {
    var tail := Tokenize(s[n..]);
    assert Placeholders(from, 1 + |tail.spans|) == [Placeholder(from)] + Placeholders(from + 1, |tail.spans|);
    InterleaveHit(Placeholder(from), tail.runs, Placeholders(from + 1, |tail.spans|));
  }

  lemma ShieldedFromMiss(s: string, from: nat)
    requires s != [] && MathSpanAt(s).None?
    ensures Tokenize(s).spans == Tokenize(s[1..]).spans
    ensures ShieldedFrom(s, from) == [s[0]] + ShieldedFrom(s[1..], from)
  {
    var tail := Tokenize(s[1..]);
    InterleaveCons([s[0]], tail.runs, Placeholders(from, |tail.spans|));
  }

  lemma ShieldedFromEmpty(from: nat)
    ensures Tokenize([]).spans == [] && ShieldedFrom([], from) == []
  {
  }

  /** One span found at the start of `rest`: recording it keeps the first
      loop invariant of `Shield`, ... */
  lemma ShieldHitBlocks(rest: string, n: nat, blocks: seq<string>)
    requires MathSpanAt(rest).Some? && MathSpanAt(rest).value == n
    ensures (blocks + [rest[..n]]) + Blocks(rest[n..]) == blocks + Blocks(rest)
  {
    BlocksHit(rest, n);
    var later := Blocks(rest[n..]);
    assert (blocks + [rest[..n]]) + later == blocks + ([rest[..n]] + later);
  }

  /** ... and emitting its placeholder keeps the second. */
  lemma ShieldHitText(rest: string, n: nat, shielded: string, from: nat)
    requires MathSpanAt(rest).Some? && MathSpanAt(rest).value == n
    ensures (shielded + Placeholder(from)) + ShieldedFrom(rest[n..], from + 1)
         == shielded + ShieldedFrom(rest, from)
  {
    ShieldedFromHit(rest, from, n);
    var tail := ShieldedFrom(rest[n..], from + 1);
    assert (shielded + Placeholder(from)) + tail == shielded + (Placeholder(from) + tail);
  }

  /** No span at the start of `rest`: copying its first character keeps the
      loop invariant of `Shield`. */
  lemma ShieldMiss(rest: string, shielded: string, blocks: seq<string>)
    requires rest != [] && MathSpanAt(rest).None?
    ensures Blocks(rest[1..]) == Blocks(rest)
    ensures (shielded + [rest[0]]) + ShieldedFrom(rest[1..], |blocks|) == shielded + ShieldedFrom(rest, |blocks|)
  {
    ShieldedFromMiss(rest, |blocks|);
    var tail := ShieldedFrom(rest[1..], |blocks|);
    assert (shielded + [rest[0]]) + tail == shielded + ([rest[0]] + tail);
  }

  /** The substitution of line 88 with its `math_replace` callback, which
      appends each span to `math_blocks` and returns its placeholder. The
      scan keeps the text not yet looked at in `rest`. */
  method Shield(text: string) returns (shielded: string, blocks: seq<string>)
    ensures shielded == ShieldedText(text)
    ensures blocks == Blocks(text)
  {
    shielded, blocks := [], [];
    var rest := text;
    while rest != []
      invariant blocks + Blocks(rest) == Blocks(text)
      invariant shielded + ShieldedFrom(rest, |blocks|) == ShieldedText(text)
      decreases |rest|
    {
      var span := MathSpanAt(rest);
      if span.Some? {
        ShieldHitBlocks(rest, span.value, blocks);
        ShieldHitText(rest, span.value, shielded, |blocks|);
        shielded := shielded + Placeholder(|blocks|);
        blocks := blocks + [rest[..span.value]];
        rest := rest[span.value..];
      } else {
        ShieldMiss(rest, shielded, blocks);
        shielded := shielded + [rest[0]];
        rest := rest[1..];
      }
    }
    ShieldedFromEmpty(|blocks|);
  }

  /** Shielding cuts the text at its spans, left to right: the text is its
      runs and spans interleaved, every span begins and ends with `$`, no `$`
      is left in the runs that could open a span, and the shielded text is the
      same runs with the i-th span replaced by `MATH_BLOCK_i`. */
  lemma ShieldShape(s: string)
    ensures var split := Tokenize(s);
      s == Interleave(split.runs, split.spans)
      && Blocks(s) == split.spans
      && ShieldedText(s) == Interleave(split.runs, Placeholders(0, |split.spans|))
      && (forall i :: 0 <= i < |split.spans| ==> IsMathSpan(split.spans[i]))
      && (forall i :: 0 <= i < |split.runs| - 1 ==> '$' !in split.runs[i])
      && AtMostOneDollar(split.runs[|split.runs| - 1])
  {
    TokenizeComplete(s);
  }

  /** A text without `$` holds no span, and shielding leaves it unchanged. */
  lemma {:induction false} NoDollarNoSpans(s: string)
    requires '$' !in s
    ensures Blocks(s) == [] && Tokenize(s).runs == [s]
    ensures ShieldedText(s) == s
    decreases |s|
  {
    if s != [] {
      NoDollarNoSpans(s[1..]);
      assert s == [s[0]] + s[1..];
    }
  }

  /** The restore loop of lines 95-96 after its first `|blocks|` rounds. */
  function Restored(text: string, blocks: seq<string>): string {
    if blocks == [] then text
    else Replace(Restored(text, blocks[..|blocks| - 1]), Placeholder(|blocks| - 1), blocks[|blocks| - 1])
  }

  /** Lines 95-96: `text = text.replace(f'MATH_BLOCK_{i}', block)` for each block. */
  method Restore(text: string, blocks: seq<string>) returns (r: string)
    ensures r == Restored(text, blocks)
  {
    r := text;
    for i := 0 to |blocks|
      invariant r == Restored(text, blocks[..i])
    {
      assert blocks[..i + 1][..i] == blocks[..i];
      r := Replace(r, Placeholder(i), blocks[i]);
    }
    assert blocks[..|blocks|] == blocks;
  }

  lemma PlaceholderShape(i: nat)
    requires i < 10
    ensures |Placeholder(i)| == 12 && Placeholder(i)[..11] == Tag
    ensures Placeholder(i)[0] == 'M'
    ensures forall e :: 1 <= e < 12 ==> Placeholder(i)[e] != 'M'
    ensures Placeholder(i)[11] == DigitChar(i)
  {
  }

  /** A needle shaped like a placeholder cannot start inside a text with no
      `MATH_BLOCK_` that is followed by a placeholder: it would either hold the
      tag or put the placeholder's `M` where the needle has none. */
  lemma NoStartBeforeTag(a: string, z: string, n: string)
    requires |n| == 12 && n[..11] == Tag && forall e :: 1 <= e < 12 ==> n[e] != 'M'
    requires NoOcc(a, Tag) && z != [] && z[0] == 'M'
    ensures forall j :: 0 <= j < |a| ==> !OccursAt(a + z, j, n)
  {
    forall j | 0 <= j < |a| ensures !OccursAt(a + z, j, n) {
      if OccursAt(a + z, j, n) {
        if j + 11 <= |a| {
          OccursAtPrefix(a + z, j, n, 11);
          OccursInPrefix(a, z, j, Tag);
        } else {
          assert (a + z)[|a|] == 'M';
          OccursChar(a + z, j, n, |a| - j);
        }
      }
    }
  }

  /** A different placeholder followed by text free of the needle holds no needle. */
  lemma NoOccAfterOtherPlaceholder(m: nat, k: nat, y: string)
    requires m < 10 && k < 10 && m != k
    requires NoOcc(y, Placeholder(k))
    ensures NoOcc(Placeholder(m) + y, Placeholder(k))
  {
    PlaceholderShape(m);
    PlaceholderShape(k);
    var x := Placeholder(m) + y;
    var n := Placeholder(k);
    forall j | 0 <= j <= |x| ensures !OccursAt(x, j, n) {
      if j == 0 {
      } else if j < 12 {
        if OccursAt(x, j, n) {
          assert x[j] == Placeholder(m)[j];
          OccursChar(x, j, n, 0);
        }
      } else {
        OccursShift(Placeholder(m), y, j, n);
      }
    }
  }

  lemma NoTagNoPlaceholder(x: string, k: nat)
    requires k < 10 && NoOcc(x, Tag)
    ensures NoOcc(x, Placeholder(k))
  {
    PlaceholderShape(k);
    forall j | 0 <= j <= |x| ensures !OccursAt(x, j, Placeholder(k)) {
      if OccursAt(x, j, Placeholder(k)) {
        OccursAtPrefix(x, j, Placeholder(k), 11);
      }
    }
  }

  /** The part after the placeholder being restored holds only later
      placeholders and plain runs, so the needle occurs nowhere in it. */
  lemma {:induction false} LaterPartHoldsNoNeedle(runs: seq<string>, m: nat, cnt: nat, k: nat)
    requires |runs| == cnt + 1 && k < m && m + cnt <= 10
    requires forall i :: 0 <= i < |runs| ==> NoOcc(runs[i], Tag)
    ensures NoOcc(Interleave(runs, Placeholders(m, cnt)), Placeholder(k))
    decreases cnt
  {
    PlaceholderShape(k);
    if cnt == 0 {
      NoTagNoPlaceholder(runs[0], k);
    } else {
      var ps := Placeholders(m, cnt);
      assert ps[1..] == Placeholders(m + 1, cnt - 1);
      var y := Interleave(runs[1..], Placeholders(m + 1, cnt - 1));
      LaterPartHoldsNoNeedle(runs[1..], m + 1, cnt - 1, k);
      NoOccAfterOtherPlaceholder(m, k, y);
      var z := Placeholder(m) + y;
      PlaceholderShape(m);
      NoStartBeforeTag(runs[0], z, Placeholder(k));
      assert Interleave(runs, ps) == runs[0] + z;
      forall j | |runs[0]| <= j <= |runs[0] + z| ensures !OccursAt(runs[0] + z, j, Placeholder(k)) {
        OccursShift(runs[0], z, j, Placeholder(k));
      }
    }
  }

  /** Cutting an interleaving at its k-th separator. */
  lemma {:induction false} InterleaveSplit(runs: seq<string>, seps: seq<string>, k: nat)
    requires |runs| == |seps| + 1 && k < |seps|
    ensures Interleave(runs, seps)
         == Interleave(runs[..k + 1], seps[..k]) + seps[k] + Interleave(runs[k + 1..], seps[k + 1..])
    decreases k
  {
    if k == 0 {
      assert runs[..1][0] == runs[0];
    } else {
      InterleaveSplit(runs[1..], seps[1..], k - 1);
      assert runs[..k + 1][1..] == runs[1..][..k];
      assert seps[..k][1..] == seps[1..][..k - 1];
      assert runs[1..][k..] == runs[k + 1..];
      assert seps[1..][k..] == seps[k + 1..];
    }
  }

  lemma {:induction false} RunsHoldNoTag(runs: seq<string>, seps: seq<string>)
    requires |runs| == |seps| + 1
    requires NoOcc(Interleave(runs, seps), Tag)
    ensures forall i :: 0 <= i < |runs| ==> NoOcc(runs[i], Tag)
    decreases |seps|
  {
    if seps == [] {
    } else {
      NoOccParts(runs[0] + seps[0], Interleave(runs[1..], seps[1..]), Tag);
      NoOccParts(runs[0], seps[0], Tag);
      RunsHoldNoTag(runs[1..], seps[1..]);
      assert forall i :: 1 <= i < |runs| ==> runs[i] == runs[1..][i - 1];
    }
  }

  /** Replacing placeholder k in `pre + placeholder + post`, where `pre` holds
      no tag and `post` no such placeholder, touches only that placeholder. */
  lemma ReplaceAtPlaceholder(pre: string, k: nat, post: string, span: string)
    requires k < 10 && NoOcc(pre, Tag) && NoOcc(post, Placeholder(k))
    ensures Replace(pre + Placeholder(k) + post, Placeholder(k), span) == pre + span + post
  {
    PlaceholderShape(k);
    var z := Placeholder(k) + post;
    NoStartBeforeTag(pre, z, Placeholder(k));
    assert pre + Placeholder(k) + post == pre + z;
    ReplaceSkip(pre, z, Placeholder(k), span);
    assert z[..12] == Placeholder(k);
    ReplaceFirst(z, Placeholder(k), span);
    assert z[12..] == post;
    assert pre + span + post == pre + (span + post);
  }

  /** Round k of the restore loop puts the k-th span back in place of its
      placeholder and changes nothing else. */
  lemma RestoreStep(runs: seq<string>, spans: seq<string>, k: nat)
    requires |runs| == |spans| + 1 && k < |spans| <= 10
    requires NoOcc(Interleave(runs, spans), Tag)
    ensures Replace(Interleave(runs, spans[..k] + Placeholders(k, |spans| - k)), Placeholder(k), spans[k])
         == Interleave(runs, spans[..k + 1] + Placeholders(k + 1, |spans| - k - 1))
  {
    var n := |spans|;
    var q := spans[..k] + Placeholders(k, n - k);
    var q2 := spans[..k + 1] + Placeholders(k + 1, n - k - 1);
    assert q[..k] == spans[..k] && q[k] == Placeholder(k) && q[k + 1..] == Placeholders(k + 1, n - k - 1);
    assert q2[..k] == spans[..k] && q2[k] == spans[k] && q2[k + 1..] == Placeholders(k + 1, n - k - 1);
    InterleaveSplit(runs, q, k);
    InterleaveSplit(runs, q2, k);
    InterleaveSplit(runs, spans, k);
    var pre := Interleave(runs[..k + 1], spans[..k]);
    var later := Interleave(runs[k + 1..], spans[k + 1..]);
    var post := Interleave(runs[k + 1..], Placeholders(k + 1, n - k - 1));
    NoOccParts(pre + spans[k], later, Tag);
    NoOccParts(pre, spans[k], Tag);
    RunsHoldNoTag(runs[k + 1..], spans[k + 1..]);
    LaterPartHoldsNoNeedle(runs[k + 1..], k + 1, n - k - 1, k);
    ReplaceAtPlaceholder(pre, k, post, spans[k]);
  }

  lemma {:induction false} RestoredPrefix(runs: seq<string>, spans: seq<string>, k: nat)
    requires |runs| == |spans| + 1 && k <= |spans| <= 10
    requires NoOcc(Interleave(runs, spans), Tag)
    ensures Restored(Interleave(runs, Placeholders(0, |spans|)), spans[..k])
         == Interleave(runs, spans[..k] + Placeholders(k, |spans| - k))
    decreases k
  {
    if k == 0 {
      assert spans[..0] + Placeholders(0, |spans|) == Placeholders(0, |spans|);
    } else {
      assert spans[..k][..k - 1] == spans[..k - 1];
      RestoredPrefix(runs, spans, k - 1);
      RestoreStep(runs, spans, k - 1);
      assert spans[..k - 1 + 1] == spans[..k];
    }
  }

  /** With the converter taken as the identity, restoring the placeholders
      gives back the text as it was before shielding, provided there are
      at most ten spans (so no placeholder is a prefix of another) and the
      text holds no `MATH_BLOCK_` of its own. */
  lemma RoundTrip(s: string)
    requires |Blocks(s)| <= 10
    requires NoOcc(s, Tag)
    ensures Restored(ShieldedText(s), Blocks(s)) == s
  {
    var split := Tokenize(s);
    var n := |split.spans|;
    RestoredPrefix(split.runs, split.spans, n);
    assert split.spans[..n] == split.spans;
    assert split.spans + Placeholders(n, 0) == split.spans;
  }
}
