/** `format_code_blocks` (app.py:61-70): one `re.sub` pass over
    ```` ```(\w*)\n(.*?)``` ```` with DOTALL. */
module CodeBlocks {
  import opened Strings
  import opened Regex

  const Fence := "```"

  /** The end of the greedy `\w*` that starts at `i`. */
  function WordEnd(t: string, i: nat): (j: nat)
    requires i <= |t|
    ensures i <= j <= |t|
    ensures forall k :: i <= k < j ==> IsWordChar(t[k])
    ensures j < |t| ==> !IsWordChar(t[j])
    decreases |t| - i
  {
    if i < |t| && IsWordChar(t[i]) then WordEnd(t, i + 1) else i
  }

  /** `match.group(1) or 'plaintext'`. */
  function Language(tag: string): string {
    if tag == [] then "plaintext" else tag
  }

  /** A fence, a tag and a newline, then the shortest body up to the next fence;
      re-emitted by `replace_code_block` (lines 63-66). */
  function CodeFenceAt(t: string): (r: Option<Hit>)
    ensures r.Some? ==> 0 < r.value.len <= |t|
  {
    if !OccursAt(t, 0, Fence) then None
    else
      var j := WordEnd(t, 3);
      if j < |t| && t[j] == '\n' then
        match Find(t, j + 1, Fence, true)
        case Some(k) => Some(Hit(k + 3, Fence + Language(t[3..j]) + "\n" + Strip(t[j + 1..k]) + "\n" + Fence))
        case None => None
      else None
  }

  /** A hit is a fence, a `\w*` tag, a newline, a body and the first fence after
      it, and is re-emitted with the tag defaulted to `plaintext` and the body
      stripped. */
  lemma CodeFenceHit(t: string)
    requires CodeFenceAt(t).Some?
    ensures OccursAt(t, 0, Fence) && var j, n := WordEnd(t, 3), CodeFenceAt(t).value.len;
      j < |t| && t[j] == '\n' && j + 4 <= n <= |t|
      && OccursAt(t, n - 3, Fence) && (forall p :: j + 1 <= p < n - 3 ==> !OccursAt(t, p, Fence))
      && CodeFenceAt(t).value.repl == Fence + Language(t[3..j]) + "\n" + Strip(t[j + 1..n - 3]) + "\n" + Fence
  {
    var j := WordEnd(t, 3);
    var k := Find(t, j + 1, Fence, true).value;
    assert CodeFenceAt(t).value.len - 3 == k;
  }

  /** A fence followed by a tag and a newline matches whenever another fence
      comes later. */
  lemma CodeFenceMatches(t: string, k: nat)
    requires OccursAt(t, 0, Fence)
    requires var j := WordEnd(t, 3); j < |t| && t[j] == '\n' && j + 1 <= k && OccursAt(t, k, Fence)
    ensures CodeFenceAt(t).Some?
  {
  }

  /** `format_code_blocks`: the pass over the whole text. Text without a fence
      is left as it is. */
  function FormatCodeBlocks(text: string): (r: string)
    ensures NoOcc(text, Fence) ==> r == text
  {
    var r := Sub(CodeFenceAt, text);
    assert NoOcc(text, Fence) ==> r == text by {
      if NoOcc(text, Fence) {
        forall j | 0 <= j < |text| ensures CodeFenceAt(text[j..]).None? {
          OccursSuffix(text, j, Fence);
        }
        SubNoHit(CodeFenceAt, text);
      }
    }
    r
  }

  predicate IsTag(tag: string) {
    forall i :: 0 <= i < |tag| ==> IsWordChar(tag[i])
  }

  /** The first fence after the body is the one written right after it. */
  predicate FenceBody(body: string) {
    NoOcc(body, Fence) && (body == [] || body[|body| - 1] != '`')
  }

  lemma WordEndIs(t: string, i: nat, tag: string)
    requires IsTag(tag) && i + |tag| < |t| && t[i..i + |tag|] == tag && !IsWordChar(t[i + |tag|])
    ensures WordEnd(t, i) == i + |tag|
  {
  }

  /** No fence starts inside a `FenceBody` placed at `t[i..k]` and followed by a fence. */
  lemma BodyHoldsNoFence(t: string, i: nat, k: nat, body: string)
    requires i <= k && k + 3 <= |t| && t[i..k] == body && t[k..k + 3] == Fence
    requires FenceBody(body)
    ensures forall p :: i <= p < k ==> !OccursAt(t, p, Fence)
  {
    forall p | i <= p < k ensures !OccursAt(t, p, Fence) {
      if p + 3 <= k {
        SliceOfSlice(t, i, k, p - i, p - i + 3);
        assert !OccursAt(body, p - i, Fence);
      } else {
        assert t[k - 1] == t[i..k][|body| - 1];
        if OccursAt(t, p, Fence) {
          OccursChar(t, p, Fence, k - 1 - p);
        }
      }
    }
  }

  lemma FenceHit(t: string, tag: string, body: string, j: nat, k: nat)
    requires IsTag(tag) && FenceBody(body)
    requires j == 3 + |tag| && k == j + 1 + |body| && k + 3 <= |t|
    requires t[0..3] == Fence && t[3..j] == tag && t[j] == '\n'
    requires t[j + 1..k] == body && t[k..k + 3] == Fence
    ensures CodeFenceAt(t).Some? && CodeFenceAt(t).value.len == k + 3
    ensures CodeFenceAt(t).value.repl == Fence + Language(tag) + "\n" + Strip(body) + "\n" + Fence
  {
    assert OccursAt(t, 0, Fence);
    WordEndIs(t, 3, tag);
    assert WordEnd(t, 3) == j;
    BodyHoldsNoFence(t, j + 1, k, body);
    FindExact(t, j + 1, Fence, true, k);
    assert Language(t[3..j]) == Language(tag) && Strip(t[j + 1..k]) == Strip(body);
    FenceFound(t, j, k);
  }

  lemma FenceFound(t: string, j: nat, k: nat)
    requires OccursAt(t, 0, Fence) && WordEnd(t, 3) == j && j < |t| && t[j] == '\n'
    requires Find(t, j + 1, Fence, true) == Some(k)
    ensures CodeFenceAt(t).Some? && CodeFenceAt(t).value.len == k + 3
    ensures CodeFenceAt(t).value.repl == Fence + Language(t[3..j]) + "\n" + Strip(t[j + 1..k]) + "\n" + Fence
  {
  }

  /** Each matched fence is re-emitted with its tag defaulted to `plaintext`
      and its body stripped; scanning resumes after the closing fence. */
  lemma FenceRewrite(tag: string, body: string, rest: string)
    requires IsTag(tag) && FenceBody(body)
    ensures FormatCodeBlocks(Fence + tag + "\n" + body + Fence + rest)
         == Fence + Language(tag) + "\n" + Strip(body) + "\n" + Fence + FormatCodeBlocks(rest)
  {
    var t := Fence + tag + "\n" + body + Fence + rest;
    var k := 4 + |tag| + |body|;
    assert t[0..3] == Fence;
    assert t[3..3 + |tag|] == tag;
    assert t[4 + |tag|..k] == body;
    assert t[k..k + 3] == Fence;
    FenceHit(t, tag, body, 3 + |tag|, k);
    assert t[k + 3..] == rest;
  }

  /** A trimmed body without a fence, followed by the newline the canonical
      form puts before the closing fence, still closes at that fence. */
  lemma NewlineBody(body: string)
    requires NoOcc(body, Fence)
    ensures FenceBody(body + "\n")
  {
    var b := body + "\n";
    forall i | 0 <= i <= |b| ensures !OccursAt(b, i, Fence) {
      if i + 3 <= |body| {
        OccursInPrefix(body, "\n", i, Fence);
      } else if i + 3 <= |b| {
        assert b[i..i + 3][2] == '\n';
      }
    }
  }

  /** A fence already in canonical form (a tag and a trimmed body) passes
      through unchanged. */
  lemma CanonicalFenceKept(tag: string, body: string, rest: string)
    requires tag != [] && IsTag(tag)
    requires NoEdgeSpace(body) && NoOcc(body, Fence)
    ensures FormatCodeBlocks(Fence + tag + "\n" + body + "\n" + Fence + rest)
         == Fence + tag + "\n" + body + "\n" + Fence + FormatCodeBlocks(rest)
  {
    var b := body + "\n";
    NewlineBody(body);
    StripNewline(body);
    FenceRewrite(tag, b, rest);
    var head := Fence + tag + "\n";
    assert head + body + "\n" == head + b;
    assert head + body + "\n" + Fence + rest == head + b + Fence + rest;
  }
}
