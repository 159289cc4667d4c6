/** `clean_math_expressions` (app.py:21-35): five substitutions applied one
    after the other, in the order of the dictionary that lists them. */
module MathClean {
  import opened Strings
  import opened Regex

  /** One entry of the replacement table. `Env(stem)` is the pattern
      `stem\*?\}` (the environment marker with or without its star), deleted;
      `Lit(needle, repl)` is a pattern of plain characters. */
  datatype Rule = Env(stem: string) | Lit(needle: string, repl: string)

  /** The table, in the order Python iterates it. */
  const Rules: seq<Rule> := [
    Env("\\begin{align"),
    Env("\\end{align"),
    Env("\\begin{equation"),
    Env("\\end{equation"),
    Lit("\\ ", " ")
  ]

  /** The matcher of one entry. An environment entry matches exactly where its
      marker stands, with or without the star, and deletes all of it; a plain
      entry matches exactly where its needle stands and puts its replacement. */
  function RuleAt(rule: Rule, t: string): (r: Option<Hit>)
    ensures r.Some? ==> 0 < r.value.len <= |t|
    ensures r.Some? ==> OccursAt(t, 0, if rule.Env? then rule.stem else rule.needle)
    ensures rule.Env? ==>
      (r.Some? <==> rule.stem != [] && (OccursAt(t, 0, rule.stem + "}") || OccursAt(t, 0, rule.stem + "*}")))
    ensures rule.Env? && r.Some? ==>
      r.value.repl == "" && r.value.len == if OccursAt(t, 0, rule.stem + "}") then |rule.stem| + 1 else |rule.stem| + 2
    ensures rule.Lit? ==> (r.Some? <==> rule.needle != [] && OccursAt(t, 0, rule.needle))
    ensures rule.Lit? && r.Some? ==> r.value == Hit(|rule.needle|, rule.repl)
  {
    match rule
    case Env(stem) =>
      if stem == [] then None
      else if OccursAt(t, 0, stem + "}") then
        OccursAtPrefix(t, 0, stem + "}", |stem|);
        assert (stem + "}")[..|stem|] == stem;
        Some(Hit(|stem| + 1, ""))
      else if OccursAt(t, 0, stem + "*}") then
        OccursAtPrefix(t, 0, stem + "*}", |stem|);
        assert (stem + "*}")[..|stem|] == stem;
        Some(Hit(|stem| + 2, ""))
      else None
    case Lit(needle, repl) => LiteralAt(needle, repl, t)
  }

  /** `re.sub` of one table entry over the whole text. */
  function Apply(rule: Rule, s: string): string {
    Sub(t => RuleAt(rule, t), s)
  }

  /** The given entries applied one after the other, first to last. */
  function ApplyAll(rules: seq<Rule>, s: string): string {
    if rules == [] then s
    else Apply(rules[|rules| - 1], ApplyAll(rules[..|rules| - 1], s))
  }

  /** The whole of `clean_math_expressions`, as used inside the display-math
      rewrite of `format_math`. */
  function Clean(s: string): string {
    ApplyAll(Rules, s)
  }

  /** `clean_math_expressions`: the loop over the table, reassigning the text. */
  method CleanMath(text: string) returns (r: string)
    ensures r == Clean(text)
    ensures |r| <= |text|
    ensures '\\' !in text ==> r == text
  {
    r := text;
    for i := 0 to |Rules|
      invariant r == ApplyAll(Rules[..i], text)
    {
      assert Rules[..i + 1][..i] == Rules[..i];
      r := Apply(Rules[i], r);
    }
    assert Rules[..|Rules|] == Rules;
    CleanNotLonger(text);
    if '\\' !in text {
      CleanNoBackslash(text);
    }
  }

  /** An environment marker at the scan position is deleted, with or without
      its star, and scanning resumes after it. */
  lemma MarkerDeleted(stem: string, starred: bool, rest: string)
    requires stem != []
    ensures var marker := stem + (if starred then "*}" else "}");
      Apply(Env(stem), marker + rest) == Apply(Env(stem), rest)
  {
    var m := if starred then "*}" else "}";
    var t := stem + m + rest;
    assert t[..|stem| + |m|] == stem + m;
    if starred {
      assert t[|stem|] == '*';
      assert !OccursAt(t, 0, stem + "}") by {
        if OccursAt(t, 0, stem + "}") {
          OccursChar(t, 0, stem + "}", |stem|);
        }
      }
    }
    assert RuleAt(Env(stem), t) == Some(Hit(|stem| + |m|, ""));
    assert t[|stem| + |m|..] == rest;
  }

  /** An escaped space `\ ` at the scan position becomes one space. */
  lemma EscapedSpace(rest: string)
    ensures Apply(Lit("\\ ", " "), "\\ " + rest) == " " + Apply(Lit("\\ ", " "), rest)
  {
    var t := "\\ " + rest;
    assert t[..2] == "\\ ";
    assert t[2..] == rest;
  }

  /** Every entry deletes text or turns two characters into one. */
  lemma ApplyNotLonger(rule: Rule, s: string)
    requires rule in Rules
    ensures |Apply(rule, s)| <= |s|
  {
    forall j | 0 <= j < |s| ensures Shrinks(t => RuleAt(rule, t), s[j..]) { }
    SubShrinks(t => RuleAt(rule, t), s);
  }

  /** Every pattern of the table starts with a backslash, so text without one
      is left as it is. */
  lemma ApplyNoBackslash(rule: Rule, s: string)
    requires rule in Rules
    requires '\\' !in s
    ensures Apply(rule, s) == s
  {
    forall j | 0 <= j < |s| ensures RuleAt(rule, s[j..]).None? {
      if RuleAt(rule, s[j..]).Some? {
        var stem := if rule.Env? then rule.stem else rule.needle;
        OccursChar(s[j..], 0, stem, 0);
      }
    }
    SubNoHit(t => RuleAt(rule, t), s);
  }

  lemma {:induction false} ApplyAllNotLonger(rules: seq<Rule>, s: string)
    requires forall r :: r in rules ==> r in Rules
    ensures |ApplyAll(rules, s)| <= |s|
  {
    if rules != [] {
      var init := rules[..|rules| - 1];
      assert forall r :: r in init ==> r in rules;
      ApplyAllNotLonger(init, s);
      ApplyNotLonger(rules[|rules| - 1], ApplyAll(init, s));
    }
  }

  lemma {:induction false} ApplyAllNoBackslash(rules: seq<Rule>, s: string)
    requires forall r :: r in rules ==> r in Rules
    requires '\\' !in s
    ensures ApplyAll(rules, s) == s
  {
    if rules != [] {
      var init := rules[..|rules| - 1];
      assert forall r :: r in init ==> r in rules;
      ApplyAllNoBackslash(init, s);
      ApplyNoBackslash(rules[|rules| - 1], s);
    }
  }

  /** `clean_math_expressions` never makes its input longer. */
  lemma CleanNotLonger(s: string)
    ensures |Clean(s)| <= |s|
  {
    ApplyAllNotLonger(Rules, s);
  }

  /** Text without a backslash comes back unchanged. */
  lemma CleanNoBackslash(s: string)
    requires '\\' !in s
    ensures Clean(s) == s
  {
    ApplyAllNoBackslash(Rules, s);
  }
}
