/** `format_math` (app.py:37-59): nine `re.sub` passes in a fixed order, each
    modelled by a hand-written matcher for its one pattern. */
module MathFormat {
  import opened Strings
  import opened Regex
  import opened MathClean

  const BoxOpen := "<div class=\"boxed\">"
  const BoxClose := "</div>"

  /** `\\boxed\{\\text\{([^}]*)\}\}` (line 45): the opener, a run without `}`
      and `}}` become the boxed container around the run. It matches exactly
      when the first `}` after the opener is doubled. */
  function BoxedTextAt(t: string): (r: Option<Hit>)
    ensures r.Some? ==> var n := r.value.len;
      15 <= n <= |t| && OccursAt(t, 0, "\\boxed{\\text{") && OccursAt(t, n - 2, "}}")
      && '}' !in t[13..n - 2] && r.value.repl == BoxOpen + t[13..n - 2] + BoxClose
    ensures OccursAt(t, 0, "\\boxed{\\text{") && OccursAt(t, FirstOf(t, 13, '}'), "}}") ==> r.Some?
  {
    if !OccursAt(t, 0, "\\boxed{\\text{") then None
    else
      var j := FirstOf(t, 13, '}');
      if j + 1 < |t| && t[j + 1] == '}' then
        assert t[j..j + 2] == "}}";
        Some(Hit(j + 2, BoxOpen + t[13..j] + BoxClose))
      else None
  }

  /** `\\boxed\{([^}]*)\}` (line 46): the opener, a run without `}` and the
      first `}` become the boxed container around the run. It matches exactly
      when a `}` follows the opener somewhere. */
  function BoxedAt(t: string): (r: Option<Hit>)
    ensures r.Some? <==> OccursAt(t, 0, "\\boxed{") && '}' in t[7..]
    ensures r.Some? ==> var n := r.value.len;
      8 <= n <= |t| && t[n - 1] == '}' && '}' !in t[7..n - 1]
      && r.value.repl == BoxOpen + t[7..n - 1] + BoxClose
  {
    if !OccursAt(t, 0, "\\boxed{") then None
    else
      var j := FirstOf(t, 7, '}');
      assert j == |t| ==> t[7..] == t[7..j];
      if j < |t| then Some(Hit(j + 1, BoxOpen + t[7..j] + BoxClose)) else None
  }

  /** `\$\$(.*?)\$\$` with DOTALL, re-wrapped as `$$\1$$` (line 49): a hit runs
      from the opener to the first `$$` after it and is replaced by itself. It
      matches whenever the opener is followed by another `$$`. */
  function DisplayDollarAt(t: string): (r: Option<Hit>)
    ensures r.Some? ==> var n := r.value.len;
      4 <= n <= |t| && OccursAt(t, 0, "$$") && OccursAt(t, n - 2, "$$")
      && (forall j :: 2 <= j < n - 2 ==> !OccursAt(t, j, "$$")) && r.value.repl == t[..n]
    ensures forall k :: 2 <= k && OccursAt(t, k, "$$") && OccursAt(t, 0, "$$") ==> r.Some?
  {
    if !OccursAt(t, 0, "$$") then None
    else match Find(t, 2, "$$", true)
      case Some(k) =>
        assert t[..k + 2] == t[0..2] + t[2..k] + t[k..k + 2];
        Some(Hit(k + 2, "$$" + t[2..k] + "$$"))
      case None => None
  }

  /** `\$(.*?)\$`, re-wrapped as `$\1$` (line 50): a hit runs from the opener to
      the first `$` after it on the same line and is replaced by itself. It
      matches whenever another `$` follows on the same line. */
  function InlineDollarAt(t: string): (r: Option<Hit>)
    ensures r.Some? ==> var n := r.value.len;
      2 <= n <= |t| && OccursAt(t, 0, "$") && t[n - 1] == '$' && '$' !in t[1..n - 1]
      && '\n' !in t[1..n - 1] && r.value.repl == t[..n]
    ensures forall k :: 1 <= k && OccursAt(t, k, "$") && OccursAt(t, 0, "$") && '\n' !in t[1..k] ==> r.Some?
  {
    if !OccursAt(t, 0, "$") then None
    else match Find(t, 1, "$", false)
      case Some(k) =>
        InlineDollarShape(t, k);
        Some(Hit(k + 1, "$" + t[1..k] + "$"))
      case None => None
  }

  /** The text of an inline hit: `$`, a run without `$`, and the closing `$`. */
  lemma InlineDollarShape(t: string, k: nat)
    requires OccursAt(t, 0, "$") && 1 <= k && OccursAt(t, k, "$")
    requires forall j :: 1 <= j < k ==> !OccursAt(t, j, "$")
    ensures t[..k + 1] == "$" + t[1..k] + "$" && t[k] == '$' && '$' !in t[1..k]
  {
    assert t[..k + 1] == t[0..1] + t[1..k] + t[k..k + 1];
    forall x | 0 <= x < k - 1 ensures t[1..k][x] != '$' {
      assert !OccursAt(t, 1 + x, "$");
      assert t[1 + x..2 + x] == [t[1..k][x]];
    }
  }

  /** `\\\[(.*?)\\\]` with DOTALL, through `process_math_content` (lines 39-42,
      51): a hit runs from `\[` to the first `\]` after it, and the content is
      stripped, cleaned and put between `$$`. It matches whenever a `\]`
      follows the opener. */
  function DisplayBracketAt(t: string): (r: Option<Hit>)
    ensures r.Some? ==> var n := r.value.len;
      4 <= n <= |t| && OccursAt(t, 0, "\\[") && OccursAt(t, n - 2, "\\]")
      && (forall j :: 2 <= j < n - 2 ==> !OccursAt(t, j, "\\]"))
      && r.value.repl == "$$" + Clean(Strip(t[2..n - 2])) + "$$"
    ensures forall k :: 2 <= k && OccursAt(t, k, "\\]") && OccursAt(t, 0, "\\[") ==> r.Some?
  {
    if !OccursAt(t, 0, "\\[") then None
    else match Find(t, 2, "\\]", true)
      case Some(k) => Some(Hit(k + 2, "$$" + Clean(Strip(t[2..k])) + "$$"))
      case None => None
  }

  /** `\\\((.*?)\\\)`, rewritten to `$\1$` (line 52): a hit runs from `\(` to
      the first `\)` after it on the same line, and the content is put between
      single `$`. It matches whenever a `\)` follows on the same line. */
  function InlineParenAt(t: string): (r: Option<Hit>)
    ensures r.Some? ==> var n := r.value.len;
      4 <= n <= |t| && OccursAt(t, 0, "\\(") && OccursAt(t, n - 2, "\\)")
      && (forall j :: 2 <= j < n - 2 ==> !OccursAt(t, j, "\\)")) && '\n' !in t[2..n - 2]
      && r.value.repl == "$" + t[2..n - 2] + "$"
    ensures forall k :: 2 <= k && OccursAt(t, k, "\\)") && OccursAt(t, 0, "\\(") && '\n' !in t[2..k] ==> r.Some?
  {
    if !OccursAt(t, 0, "\\(") then None
    else match Find(t, 2, "\\)", false)
      case Some(k) => Some(Hit(k + 2, "$" + t[2..k] + "$"))
      case None => None
  }

  /** `\\times(?![a-zA-Z])`, replaced by `\times` (line 55): it matches `\times`
      exactly when no ASCII letter follows, and puts back what it matched. */
  function TimesAt(t: string): (r: Option<Hit>)
    ensures r.Some? <==> OccursAt(t, 0, "\\times") && (|t| == 6 || !IsAsciiLetter(t[6]))
    ensures r.Some? ==> r.value.len == 6 && r.value.repl == t[..6]
  {
    if OccursAt(t, 0, "\\times") && (|t| == 6 || !IsAsciiLetter(t[6])) then Some(Hit(6, "\\times"))
    else None
  }

  /** `\\frac\{([^}]*)\}\{([^}]*)\}`, replaced by `\frac{\1}{\2}` (line 56): it
      matches when the first `}` after `\frac{` is followed by `{` and a later
      `}`, and a hit puts back exactly what it matched. */
  function FracAt(t: string): (r: Option<Hit>)
    ensures r.Some? ==> var n := r.value.len;
      8 <= n <= |t| && OccursAt(t, 0, "\\frac{") && t[n - 1] == '}' && r.value.repl == t[..n]
    ensures OccursAt(t, 0, "\\frac{") ==> var j := FirstOf(t, 6, '}');
      j + 1 < |t| && t[j + 1] == '{' && '}' in t[j + 2..] ==> r.Some?
  {
    if !OccursAt(t, 0, "\\frac{") then None
    else
      var j := FirstOf(t, 6, '}');
      if j + 1 < |t| && t[j + 1] == '{' then
        var j2 := FirstOf(t, j + 2, '}');
        assert j2 == |t| ==> t[j + 2..] == t[j + 2..j2];
        if j2 < |t| then
          assert t[..j2 + 1] == t[0..6] + t[6..j] + t[j..j + 2] + t[j + 2..j2] + t[j2..j2 + 1];
          assert t[j..j + 2] == "}{";
          Some(Hit(j2 + 1, "\\frac{" + t[6..j] + "}{" + t[j + 2..j2] + "}"))
        else None
      else None
  }

  /** `\\text\{([^}]*)\}`, replaced by the group (line 57): the opener, a run
      without `}` and the first `}` become the run. It matches exactly when a
      `}` follows the opener somewhere. */
  function TextAt(t: string): (r: Option<Hit>)
    ensures r.Some? <==> OccursAt(t, 0, "\\text{") && '}' in t[6..]
    ensures r.Some? ==> var n := r.value.len;
      7 <= n <= |t| && t[n - 1] == '}' && '}' !in t[6..n - 1] && r.value.repl == t[6..n - 1]
  {
    if !OccursAt(t, 0, "\\text{") then None
    else
      var j := FirstOf(t, 6, '}');
      assert j == |t| ==> t[6..] == t[6..j];
      if j < |t| then Some(Hit(j + 1, t[6..j])) else None
  }

  /** `format_math`: the passes in the order of the source. Every pattern
      starts with a backslash or re-emits what it matched, so text without a
      backslash comes back unchanged. */
  function FormatMath(text: string): (r: string)
    ensures '\\' !in text ==> r == text
  {
    var t1 := Sub(BoxedTextAt, text);
    var t2 := Sub(BoxedAt, t1);
    var t3 := Sub(DisplayDollarAt, t2);
    var t4 := Sub(InlineDollarAt, t3);
    var t5 := Sub(DisplayBracketAt, t4);
    var t6 := Sub(InlineParenAt, t5);
    var t7 := Sub(TimesAt, t6);
    var t8 := Sub(FracAt, t7);
    var r := Sub(TextAt, t8);
    assert '\\' !in text ==> r == text by {
      if '\\' !in text {
        PassesNoBackslash(text);
      }
    }
    r
  }

  /** The pass of line 49 gives back exactly the text it matched. */
  lemma DisplayDollarIdentity(s: string)
    ensures Sub(DisplayDollarAt, s) == s
  {
    forall t | true ensures Keeps(DisplayDollarAt, t) { }
    SubKeeps(DisplayDollarAt, s);
  }

  /** The pass of line 50 gives back exactly the text it matched. */
  lemma InlineDollarIdentity(s: string)
    ensures Sub(InlineDollarAt, s) == s
  {
    forall t | true ensures Keeps(InlineDollarAt, t) { }
    SubKeeps(InlineDollarAt, s);
  }

  /** The pass of line 55 gives back exactly the text it matched. */
  lemma TimesIdentity(s: string)
    ensures Sub(TimesAt, s) == s
  {
    forall t | true ensures Keeps(TimesAt, t) { }
    SubKeeps(TimesAt, s);
  }

  /** The pass of line 56 gives back exactly the text it matched. */
  lemma FracIdentity(s: string)
    ensures Sub(FracAt, s) == s
  {
    forall t | true ensures Keeps(FracAt, t) { }
    SubKeeps(FracAt, s);
  }

  /** `\(X\)` becomes `$X$` with `X` untouched, when the first `\)` after the
      opener (on the same line) is the one that closes `X`. */
  lemma ParenRewrite(x: string, rest: string)
    requires '\n' !in x && NoOcc(x, "\\)")
    ensures Sub(InlineParenAt, "\\(" + x + "\\)" + rest) == "$" + x + "$" + Sub(InlineParenAt, rest)
  {
    var t := "\\(" + x + "\\)" + rest;
    var k := 2 + |x|;
    assert t[0..2] == "\\(";
    assert t[k..k + 2] == "\\)";
    assert t[2..k] == x;
    forall j | 2 <= j < k ensures !OccursAt(t, j, "\\)") {
      if j + 1 < k {
        assert t[j..j + 2] == x[j - 2..j];
        assert !OccursAt(x, j - 2, "\\)");
      } else {
        assert t[j..j + 2][1] == '\\';
      }
    }
    FindExact(t, 2, "\\)", false, k);
    assert InlineParenAt(t).Some? && InlineParenAt(t).value.len == k + 2 && InlineParenAt(t).value.repl == "$" + x + "$";
    assert t[k + 2..] == rest;
  }

  /** `\[X\]` becomes `$$` + clean_math_expressions(X.strip()) + `$$`, when the
      first `\]` after the opener is the one that closes `X`. */
  lemma BracketRewrite(x: string, rest: string)
    requires NoOcc(x, "\\]")
    ensures Sub(DisplayBracketAt, "\\[" + x + "\\]" + rest)
         == "$$" + Clean(Strip(x)) + "$$" + Sub(DisplayBracketAt, rest)
  {
    var t := "\\[" + x + "\\]" + rest;
    var k := 2 + |x|;
    assert t[0..2] == "\\[";
    assert t[k..k + 2] == "\\]";
    assert t[2..k] == x;
    forall j | 2 <= j < k ensures !OccursAt(t, j, "\\]") {
      if j + 1 < k {
        assert t[j..j + 2] == x[j - 2..j];
        assert !OccursAt(x, j - 2, "\\]");
      } else {
        assert t[j..j + 2][1] == '\\';
      }
    }
    FindExact(t, 2, "\\]", true, k);
    assert DisplayBracketAt(t).Some? && DisplayBracketAt(t).value.len == k + 2 && DisplayBracketAt(t).value.repl == "$$" + Clean(Strip(x)) + "$$";
    assert t[k + 2..] == rest;
  }

  /** The first `}` at or after index `i` is the one at `i + |x|`. */
  lemma FirstBrace(t: string, i: nat, x: string)
    requires i + |x| < |t| && t[i..i + |x|] == x && t[i + |x|] == '}' && '}' !in x
    ensures FirstOf(t, i, '}') == i + |x|
  {
  }

  /** `\text{X}` becomes `X` when `X` holds no `}`. */
  lemma TextUnwrap(x: string, rest: string)
    requires '}' !in x
    ensures Sub(TextAt, "\\text{" + x + "}" + rest) == x + Sub(TextAt, rest)
  {
    var t := "\\text{" + x + "}" + rest;
    assert t[0..6] == "\\text{";
    assert t[6..6 + |x|] == x;
    FirstBrace(t, 6, x);
    assert TextAt(t).Some? && TextAt(t).value.len == 7 + |x| && TextAt(t).value.repl == x;
    assert t[7 + |x|..] == rest;
  }

  /** `\boxed{\text{X}}` becomes the boxed container around `X`. */
  lemma BoxedTextRewrite(x: string, rest: string)
    requires '}' !in x
    ensures Sub(BoxedTextAt, "\\boxed{\\text{" + x + "}}" + rest)
         == BoxOpen + x + BoxClose + Sub(BoxedTextAt, rest)
  {
    var t := "\\boxed{\\text{" + x + "}}" + rest;
    assert t[0..13] == "\\boxed{\\text{";
    assert t[13..13 + |x|] == x;
    FirstBrace(t, 13, x);
    assert BoxedTextAt(t).Some? && BoxedTextAt(t).value.len == 15 + |x| && BoxedTextAt(t).value.repl == BoxOpen + x + BoxClose;
    assert t[15 + |x|..] == rest;
  }

  /** `\boxed{X}` becomes the boxed container around `X`. */
  lemma BoxedRewrite(x: string, rest: string)
    requires '}' !in x
    ensures Sub(BoxedAt, "\\boxed{" + x + "}" + rest) == BoxOpen + x + BoxClose + Sub(BoxedAt, rest)
  {
    var t := "\\boxed{" + x + "}" + rest;
    assert t[0..7] == "\\boxed{";
    assert t[7..7 + |x|] == x;
    FirstBrace(t, 7, x);
    assert BoxedAt(t).Some? && BoxedAt(t).value.len == 8 + |x| && BoxedAt(t).value.repl == BoxOpen + x + BoxClose;
    assert t[8 + |x|..] == rest;
  }

  /** A pass whose pattern starts with a backslash leaves text without one alone. */
  lemma BackslashPassNoOp(m: Matcher, s: string)
    requires Consumes(m)
    requires forall t :: m(t).Some? ==> t != [] && t[0] == '\\'
    requires '\\' !in s
    ensures Sub(m, s) == s
  {
    forall j | 0 <= j < |s| ensures m(s[j..]).None? {
      assert s[j..][0] == s[j];
    }
    SubNoHit(m, s);
  }

  /** Every pass of `format_math` leaves text without a backslash alone. */
  lemma PassesNoBackslash(s: string)
    requires '\\' !in s
    ensures Sub(BoxedTextAt, s) == s && Sub(BoxedAt, s) == s
    ensures Sub(DisplayDollarAt, s) == s && Sub(InlineDollarAt, s) == s
    ensures Sub(DisplayBracketAt, s) == s && Sub(InlineParenAt, s) == s
    ensures Sub(TimesAt, s) == s && Sub(FracAt, s) == s && Sub(TextAt, s) == s
  {
    TextOnlyPassesKeep(s);
    forall t | TextAt(t).Some? ensures t != [] && t[0] == '\\' {
      OccursChar(t, 0, "\\text{", 0);
    }
    BackslashPassNoOp(TextAt, s);
  }

  /** Every backslash of `s` is followed by `t`, as in `\text`. */
  predicate OnlyTextCommands(s: string) {
    forall j :: 0 <= j < |s| && s[j] == '\\' ==> j + 1 < |s| && s[j + 1] == 't'
  }

  lemma OnlyTextPrefix(y: string)
    requires OnlyTextCommands(y)
    ensures OnlyTextCommands("\\text{" + y)
  {
    var s := "\\text{" + y;
    forall j | 0 <= j < |s| && s[j] == '\\' ensures j + 1 < |s| && s[j + 1] == 't' {
      if j >= 6 {
        assert s[j] == y[j - 6];
        assert s[j + 1] == y[j - 5];
      }
    }
  }

  /** A pass whose pattern starts with a backslash and the character `c` leaves
      alone text in which every backslash is followed by something else. */
  lemma LeadPassNoOp(m: Matcher, c: char, s: string)
    requires Consumes(m) && c != 't'
    requires forall t :: m(t).Some? ==> 2 <= |t| && t[0] == '\\' && t[1] == c
    requires OnlyTextCommands(s)
    ensures Sub(m, s) == s
  {
    forall j | 0 <= j < |s| ensures m(s[j..]).None? {
      assert s[j..][0] == s[j];
      if s[j] == '\\' {
        assert s[j..][1] == s[j + 1];
      }
    }
    SubNoHit(m, s);
  }

  /** The passes before the last leave text whose only commands are `\text` alone. */
  lemma TextOnlyPasses(s: string)
    requires OnlyTextCommands(s)
    ensures FormatMath(s) == Sub(TextAt, s)
  {
    TextOnlyPassesKeep(s);
  }

  /** Each of the first eight passes leaves such text alone. */
  lemma TextOnlyPassesKeep(s: string)
    requires OnlyTextCommands(s)
    ensures Sub(BoxedTextAt, s) == s && Sub(BoxedAt, s) == s
    ensures Sub(DisplayDollarAt, s) == s && Sub(InlineDollarAt, s) == s
    ensures Sub(DisplayBracketAt, s) == s && Sub(InlineParenAt, s) == s
    ensures Sub(TimesAt, s) == s && Sub(FracAt, s) == s
  {
    BoxedPassesKeep(s);
    BracketPassesKeep(s);
    DisplayDollarIdentity(s);
    InlineDollarIdentity(s);
    TimesIdentity(s);
    FracIdentity(s);
  }

  lemma BoxedPassesKeep(s: string)
    requires OnlyTextCommands(s)
    ensures Sub(BoxedTextAt, s) == s && Sub(BoxedAt, s) == s
  {
    BoxedTextPassKeeps(s);
    BoxedPassKeeps(s);
  }

  lemma BoxedTextPassKeeps(s: string)
    requires OnlyTextCommands(s)
    ensures Sub(BoxedTextAt, s) == s
  {
    forall t | BoxedTextAt(t).Some? ensures 2 <= |t| && t[0] == '\\' && t[1] == 'b' {
      OccursChar(t, 0, "\\boxed{\\text{", 0);
      OccursChar(t, 0, "\\boxed{\\text{", 1);
    }
    LeadPassNoOp(BoxedTextAt, 'b', s);
  }

  lemma BoxedPassKeeps(s: string)
    requires OnlyTextCommands(s)
    ensures Sub(BoxedAt, s) == s
  {
    forall t | BoxedAt(t).Some? ensures 2 <= |t| && t[0] == '\\' && t[1] == 'b' {
      OccursChar(t, 0, "\\boxed{", 0);
      OccursChar(t, 0, "\\boxed{", 1);
    }
    LeadPassNoOp(BoxedAt, 'b', s);
  }

  lemma BracketPassesKeep(s: string)
    requires OnlyTextCommands(s)
    ensures Sub(DisplayBracketAt, s) == s && Sub(InlineParenAt, s) == s
  {
    forall t | DisplayBracketAt(t).Some? ensures 2 <= |t| && t[0] == '\\' && t[1] == '[' {
      OccursChar(t, 0, "\\[", 0);
      OccursChar(t, 0, "\\[", 1);
    }
    LeadPassNoOp(DisplayBracketAt, '[', s);
    forall t | InlineParenAt(t).Some? ensures 2 <= |t| && t[0] == '\\' && t[1] == '(' {
      OccursChar(t, 0, "\\(", 0);
      OccursChar(t, 0, "\\(", 1);
    }
    LeadPassNoOp(InlineParenAt, '(', s);
  }


  /** A character other than a backslash can follow such text. */
  lemma OnlyTextSuffix(u: string, c: char)
    requires OnlyTextCommands(u) && c != '\\'
    ensures OnlyTextCommands(u + [c])
  {
    var s := u + [c];
    forall j | 0 <= j < |s| && s[j] == '\\' ensures j + 1 < |s| && s[j + 1] == 't' {
      assert s[j] == u[j];
      assert s[j + 1] == u[j + 1];
    }
  }

  lemma Regroup(a: string, y: string, b: string, c: string)
    ensures a + (y + b) + c == a + y + b + c
  {
  }

  /** `format_math` is not idempotent: a nested `\text` loses one level per
      call, so a second call changes the result of the first. */
  lemma FormatMathNotIdempotent(x: string)
    requires '\\' !in x && '}' !in x
    ensures var once := "\\text{" + x + "}";
      FormatMath("\\text{" + once + "}") == once && FormatMath(once) == x
  {
    UnwrapOnce(x);
    UnwrapNested(x);
  }

  /** One call unwraps a single `\text` around text without commands. */
  lemma UnwrapOnce(x: string)
    requires '\\' !in x && '}' !in x
    ensures FormatMath("\\text{" + x + "}") == x
  {
    var once := "\\text{" + x + "}";
    assert OnlyTextCommands(x);
    OnlyTextPrefix(x);
    OnlyTextSuffix("\\text{" + x, '}');
    TextOnlyPasses(once);
    TextUnwrap(x, "");
    assert once + "" == once;
  }

  /** Of two nested `\text`, one call unwraps only the outer one. */
  lemma UnwrapNested(x: string)
    requires '\\' !in x && '}' !in x
    ensures var once := "\\text{" + x + "}"; FormatMath("\\text{" + once + "}") == once
  {
    NestedOnlyText(x);
    TextOnlyPasses("\\text{" + ("\\text{" + x + "}") + "}");
    NestedTextPass(x);
  }

  lemma NestedOnlyText(x: string)
    requires '\\' !in x
    ensures OnlyTextCommands("\\text{" + ("\\text{" + x + "}") + "}")
  {
    assert OnlyTextCommands(x);
    OnlyTextPrefix(x);
    OnlyTextSuffix("\\text{" + x, '}');
    OnlyTextPrefix("\\text{" + x + "}");
    OnlyTextSuffix("\\text{" + ("\\text{" + x + "}"), '}');
  }

  lemma NestedTextPass(x: string)
    requires '}' !in x
    ensures Sub(TextAt, "\\text{" + ("\\text{" + x + "}") + "}") == "\\text{" + x + "}"
  {
    var y := "\\text{" + x;
    assert '}' !in y by { OpenerNoBrace(x); }
    TextUnwrap(y, "}");
    Regroup("\\text{", y, "}", "}");
    assert Sub(TextAt, "}") == "}";
  }

  lemma OpenerNoBrace(x: string)
    requires '}' !in x
    ensures '}' !in "\\text{" + x
  {
  }
}
