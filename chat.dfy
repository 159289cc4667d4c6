/** The `generate` stream inside the `/chat` route (app.py:138-196): a
    "thinking" message, then either one error or the clearing of the thinking
    message followed by one response per received fragment, each response
    carrying the whole answer received so far. The HTTP exchange with the
    model server is given as a value (`Upstream`), the markdown conversion as
    a function, and the random choice of the thinking message as an index. */
module Chat {
  import opened Strings
  import opened Regex
  import opened Response

  /** One line of the streamed answer, as `iter_lines` delivers it. */
  datatype Line =
    | Blank                 // an empty line, skipped by `if line:`
    | Unparseable           // `json.loads` raises `JSONDecodeError`
    | Parsed(delta: string) // a JSON object; `delta` is its `response` field, "" when
                            // absent or falsy (`null`, `0`, `false`, `[]`, `{}`)

  /** The outcome of `requests.post` and of reading its body. */
  datatype Upstream =
    | Unreachable(reason: string)
      // `requests.post` raised a `RequestException` (a timeout among them)
      // whose text is `reason`
    | Answered(status: int, body: string, lines: seq<Line>, dropped: Option<string>)
      // the server answered; after `lines`, `dropped == Some(reason)` when
      // reading the stream raised a `RequestException`

  /** One JSON object written to the event stream. */
  datatype Event =
    | Thinking(text: string)
    | ClearThinking
    | Reply(text: string)
    | Failure(text: string)

  /** The list of app.py:116-122. */
  const ThinkingMessages: seq<string> := [
    "Analizando tu pregunta...",
    "Procesando la informaci\U{CE69}n...",
    "Elaborando una respuesta...",
    "Pensando...",
    "Trabajando en ello..."
  ]

  /** `get_thinking_message()` when `random.choice` picks entry `pick`: the
      thinking emoji, a space and one of the listed messages. */
  function ThinkingText(pick: nat): (r: string)
    requires pick < |ThinkingMessages|
    ensures |r| > |ThinkingEmoji| + 1 && r[..|ThinkingEmoji| + 1] == ThinkingEmoji + " "
    ensures r[|ThinkingEmoji| + 1..] in ThinkingMessages
  {
    var r := ThinkingEmoji + " " + ThinkingMessages[pick];
    assert r[|ThinkingEmoji| + 1..] == ThinkingMessages[pick];
    r
  }

  const StatusPrefix := "Error al conectar con Ollama API. C\U{CE69}digo de estado: "
  const BodyLabel := ". Respuesta: "

  /** The message of line 162 for a status other than 200: the fixed opening,
      the status in decimal, and the body of the answer at the end, as it
      came. */
  function StatusError(status: int, body: string): (r: string)
    ensures |r| == |StatusPrefix| + |IntToDecimal(status)| + |BodyLabel| + |body|
    ensures r[..|StatusPrefix|] == StatusPrefix
    ensures OccursAt(r, |StatusPrefix|, IntToDecimal(status))
    ensures OccursAt(r, |StatusPrefix| + |IntToDecimal(status)|, BodyLabel)
    ensures r[|r| - |body|..] == body
  {
    var r := StatusPrefix + IntToDecimal(status) + BodyLabel + body;
    var n := |StatusPrefix| + |IntToDecimal(status)|;
    assert r[|StatusPrefix|..n] == IntToDecimal(status);
    assert r[n..n + |BodyLabel|] == BodyLabel;
    r
  }

  const ConnectionPrefix := "Error de conexi\U{CE69}n: "

  /** The message of line 192 for a `RequestException`: the fixed opening
      followed by the text of the exception, as it came. */
  function ConnectionError(reason: string): (r: string)
    ensures |r| == |ConnectionPrefix| + |reason|
    ensures r[..|ConnectionPrefix|] == ConnectionPrefix && r[|ConnectionPrefix|..] == reason
  {
    ConnectionPrefix + reason
  }

  /** The fragments that count: the non-empty `response` fields, in order. */
  function Deltas(lines: seq<Line>): (r: seq<string>)
    ensures |r| <= |lines|
    ensures forall k :: 0 <= k < |r| ==> r[k] != []
  {
    if lines == [] then []
    else
      var init := Deltas(lines[..|lines| - 1]);
      match lines[|lines| - 1]
      case Parsed(d) => if d != [] then init + [d] else init
      case _ => init
  }

  function Concat(ds: seq<string>): string {
    if ds == [] then [] else Concat(ds[..|ds| - 1]) + ds[|ds| - 1]
  }

  /** `decorate_message(message, is_error)` as the stream uses it. The stream
      is described for any such function; `DecoratorOf(convert)` is the one
      of app.py. */
  type Decorator = (string, bool) -> string

  function DecoratorOf(convert: Converter): Decorator {
    (message, isError) => DecorateSpec(message, isError, convert)
  }

  /** The response events for `lines`: one per counted fragment, decorating
      everything received up to and including it. */
  function Replies(lines: seq<Line>, decorate: Decorator): seq<Event> {
    if lines == [] then []
    else
      var init := Replies(lines[..|lines| - 1], decorate);
      match lines[|lines| - 1]
      case Parsed(d) =>
        if d != [] then init + [Reply(decorate(Concat(Deltas(lines)), false))] else init
      case _ => init
  }

  /** Everything `generate` writes for a given upstream outcome. */
  function ExpectedEvents(pick: nat, upstream: Upstream, decorate: Decorator): (r: seq<Event>)
    requires pick < |ThinkingMessages|
    ensures |r| >= 2 && r[0] == Thinking(ThinkingText(pick))
  {
    var thinking := [Thinking(ThinkingText(pick))];
    match upstream
    case Unreachable(reason) =>
      thinking + [Failure(decorate(ConnectionError(reason), true))]
    case Answered(status, body, lines, dropped) =>
      if status != 200 then
        thinking + [Failure(decorate(StatusError(status, body), true))]
      else
        var streamed := thinking + [ClearThinking] + Replies(lines, decorate);
        if dropped.Some? then
          streamed + [Failure(decorate(ConnectionError(dropped.value), true))]
        else streamed
  }

  /** The k-th reply decorates the concatenation of the first k + 1
      fragments, and there is one reply per fragment. */
  lemma {:induction false} RepliesSpec(lines: seq<Line>, decorate: Decorator)
    ensures |Replies(lines, decorate)| == |Deltas(lines)|
    ensures forall k :: 0 <= k < |Deltas(lines)| ==>
      Replies(lines, decorate)[k] == Reply(decorate(Concat(Deltas(lines)[..k + 1]), false))
    decreases |lines|
  {
    if lines != [] {
      var init := lines[..|lines| - 1];
      RepliesSpec(init, decorate);
      var l := lines[|lines| - 1];
      if l.Parsed? && l.delta != [] {
        var ds, pre := Deltas(lines), Deltas(init);
        var rs, rpre := Replies(lines, decorate), Replies(init, decorate);
        assert ds == pre + [l.delta];
        assert rs == rpre + [Reply(decorate(Concat(ds), false))];
        forall k | 0 <= k < |ds|
          ensures rs[k] == Reply(decorate(Concat(ds[..k + 1]), false))
        {
          if k < |pre| {
            assert rs[k] == rpre[k];
            assert ds[..k + 1] == pre[..k + 1];
          } else {
            assert ds[..k + 1] == ds;
          }
        }
      }
    }
  }

  /** The stream depends on the lines only through their fragments: two
      answers with the same fragments give the same replies. */
  lemma RepliesByDeltas(a: seq<Line>, b: seq<Line>, decorate: Decorator)
    requires Deltas(a) == Deltas(b)
    ensures Replies(a, decorate) == Replies(b, decorate)
  {
    RepliesSpec(a, decorate);
    RepliesSpec(b, decorate);
  }

  lemma {:induction false} DeltasSkip(pre: seq<Line>, l: Line, post: seq<Line>)
    requires !(l.Parsed? && l.delta != [])
    ensures Deltas(pre + [l] + post) == Deltas(pre + post)
    decreases |post|
  {
    if post == [] {
      assert pre + [l] + post == pre + [l];
      assert (pre + [l])[..|pre|] == pre;
      assert pre + post == pre;
    } else {
      var init := post[..|post| - 1];
      DeltasSkip(pre, l, init);
      assert (pre + [l] + post)[..|pre + [l] + post| - 1] == pre + [l] + init;
      assert (pre + post)[..|pre + post| - 1] == pre + init;
    }
  }

  /** A blank line, an unparseable line, or one without a fragment produces
      nothing, wherever it occurs. */
  lemma SilentLine(pre: seq<Line>, l: Line, post: seq<Line>, decorate: Decorator)
    requires l == Blank || l == Unparseable || l == Parsed("")
    ensures Replies(pre + [l] + post, decorate) == Replies(pre + post, decorate)
  {
    DeltasSkip(pre, l, post);
    RepliesByDeltas(pre + [l] + post, pre + post, decorate);
  }

  /** The stream begins with the thinking message, and a connection failure
      or a status other than 200 gives exactly one error and nothing after
      it. */
  lemma GenerateFailure(pick: nat, upstream: Upstream, decorate: Decorator)
    requires pick < |ThinkingMessages|
    ensures var r := ExpectedEvents(pick, upstream, decorate);
      && r[0] == Thinking(ThinkingEmoji + " " + ThinkingMessages[pick])
      && (upstream.Unreachable? ==>
            r == [r[0], Failure(decorate(ConnectionError(upstream.reason), true))])
      && (upstream.Answered? && upstream.status != 200 ==>
            r == [r[0], Failure(decorate(StatusError(upstream.status, upstream.body), true))])
  {
  }

  /** With status 200 the thinking message is cleared, one reply is sent per
      fragment, the k-th decorating the first k - 1 fragments put together
      (counting the thinking message and its clearing as events 0 and 1), and
      a failure while reading ends the stream with one error. */
  lemma GenerateStream(pick: nat, upstream: Upstream, decorate: Decorator)
    requires pick < |ThinkingMessages|
    requires upstream.Answered? && upstream.status == 200
    ensures var r, ds := ExpectedEvents(pick, upstream, decorate), Deltas(upstream.lines);
      && |r| == 2 + |ds| + (if upstream.dropped.Some? then 1 else 0)
      && r[1] == ClearThinking
      && (forall k :: 2 <= k < 2 + |ds| ==> r[k] == Reply(decorate(Concat(ds[..k - 1]), false)))
      && (upstream.dropped.Some? ==>
            r[|r| - 1] == Failure(decorate(ConnectionError(upstream.dropped.value), true)))
  {
    var ds := Deltas(upstream.lines);
    var rs := Replies(upstream.lines, decorate);
    RepliesSpec(upstream.lines, decorate);
    var streamed := [Thinking(ThinkingText(pick))] + [ClearThinking] + rs;
    var r := ExpectedEvents(pick, upstream, decorate);
    assert r[..|streamed|] == streamed;
    forall k | 2 <= k < 2 + |ds|
      ensures r[k] == Reply(decorate(Concat(ds[..k - 1]), false))
    {
      assert r[k] == streamed[k] == rs[k - 2];
    }
  }

  /** With the decoration of app.py, an error event is the warning emoji,
      a space and the message of line 162 or line 192, untouched. */
  lemma GenerateErrorText(pick: nat, upstream: Upstream, convert: Converter)
    requires pick < |ThinkingMessages|
    requires upstream.Unreachable? || upstream.status != 200
    ensures var r := ExpectedEvents(pick, upstream, DecoratorOf(convert));
      var message := if upstream.Unreachable? then ConnectionError(upstream.reason)
                     else StatusError(upstream.status, upstream.body);
      r == [Thinking(ThinkingText(pick)), Failure(ErrorEmoji + " " + message)]
  {
    var message := if upstream.Unreachable? then ConnectionError(upstream.reason)
                   else StatusError(upstream.status, upstream.body);
    GenerateFailure(pick, upstream, DecoratorOf(convert));
    DecorateShape(message, true, convert);
  }

  /** With the decoration of app.py, every reply is the robot emoji, a space
      and a formatted answer with no whitespace at either end. */
  lemma ReplyText(lines: seq<Line>, convert: Converter, k: nat)
    requires k < |Replies(lines, DecoratorOf(convert))|
    ensures var e := Replies(lines, DecoratorOf(convert))[k]; e.Reply? && ResponseText(e.text)
  {
    RepliesSpec(lines, DecoratorOf(convert));
    var so := Concat(Deltas(lines)[..k + 1]);
    DecorateShape(so, false, convert);
    assert Replies(lines, DecoratorOf(convert))[k] == Reply(DecorateSpec(so, false, convert));
  }

  /** A line with a fragment, appended: the answer grows by the fragment and
      one reply over the grown answer is added. */
  lemma RepliesSnoc(init: seq<Line>, d: string, decorate: Decorator)
    requires d != []
    ensures Concat(Deltas(init + [Parsed(d)])) == Concat(Deltas(init)) + d
    ensures Replies(init + [Parsed(d)], decorate)
         == Replies(init, decorate) + [Reply(decorate(Concat(Deltas(init)) + d, false))]
  {
    var ls := init + [Parsed(d)];
    assert ls[..|ls| - 1] == init;
    var ds := Deltas(ls);
    assert ds == Deltas(init) + [d];
    assert ds[..|ds| - 1] == Deltas(init);
  }

  /** Three non-empty fragments give three replies over the growing answer. */
  lemma ThreeFragments(x: string, y: string, z: string, decorate: Decorator)
    requires x != [] && y != [] && z != []
    ensures Replies([Parsed(x), Parsed(y), Parsed(z)], decorate)
         == [Reply(decorate(x, false)), Reply(decorate(x + y, false)), Reply(decorate(x + y + z, false))]
  {
    var r1, r2, r3 := Reply(decorate(x, false)), Reply(decorate(x + y, false)),
                      Reply(decorate(x + y + z, false));
    var l0: seq<Line> := [];
    var l1 := l0 + [Parsed(x)];
    var l2 := l1 + [Parsed(y)];
    assert Concat(Deltas(l1)) == x && Replies(l1, decorate) == [r1] by {
      RepliesSnoc(l0, x, decorate);
      assert [] + x == x;
    }
    assert Concat(Deltas(l2)) == x + y && Replies(l2, decorate) == [r1, r2] by {
      RepliesSnoc(l1, y, decorate);
    }
    assert Replies(l2 + [Parsed(z)], decorate) == [r1, r2, r3] by {
      RepliesSnoc(l2, z, decorate);
    }
    assert l2 + [Parsed(z)] == [Parsed(x), Parsed(y), Parsed(z)];
  }

  /** Fragments "Hel", "lo" and " world" followed by the end of the stream:
      the thinking message, its clearing, three replies over the growing
      answer, the last over "Hello world", and no error. */
  lemma HelloWorldStream(pick: nat, decorate: Decorator)
    requires pick < |ThinkingMessages|
    ensures ExpectedEvents(pick, Answered(200, "", [Parsed("Hel"), Parsed("lo"), Parsed(" world")], None), decorate)
         == [Thinking(ThinkingText(pick)), ClearThinking,
             Reply(decorate("Hel", false)), Reply(decorate("Hello", false)),
             Reply(decorate("Hello world", false))]
  {
    var lines := [Parsed("Hel"), Parsed("lo"), Parsed(" world")];
    var rs := Replies(lines, decorate);
    assert rs == [Reply(decorate("Hel", false)), Reply(decorate("Hello", false)),
                  Reply(decorate("Hello world", false))] by {
      ThreeFragments("Hel", "lo", " world", decorate);
      assert "Hel" + "lo" == "Hello";
      assert "Hel" + "lo" + " world" == "Hello world";
    }
    assert ExpectedEvents(pick, Answered(200, "", lines, None), decorate)
        == [Thinking(ThinkingText(pick))] + [ClearThinking] + rs;
  }

  lemma StatusText500(body: string)
    ensures StatusError(500, body) == StatusPrefix + "500" + BodyLabel + body
  {
    assert IntToDecimal(500) == "500" by {
      assert NatToDecimal(5) == "5";
      assert NatToDecimal(50) == "50";
    }
  }

  /** A server answering 500: the thinking message, then one error carrying
      the warning emoji and a message that states the status, and nothing
      more. */
  lemma ServerErrorStream(pick: nat, body: string, lines: seq<Line>, dropped: Option<string>, convert: Converter)
    requires pick < |ThinkingMessages|
    ensures ExpectedEvents(pick, Answered(500, body, lines, dropped), DecoratorOf(convert))
         == [Thinking(ThinkingText(pick)), Failure(ErrorEmoji + " " + StatusError(500, body))]
    ensures StatusError(500, body) == StatusPrefix + "500" + BodyLabel + body
  {
    GenerateErrorText(pick, Answered(500, body, lines, dropped), convert);
    StatusText500(body);
  }

  /** One more line extends the fragments and the replies as the loop body of
      lines 175-185 does. */
  lemma StreamStep(lines: seq<Line>, i: nat, decorate: Decorator)
    requires i < |lines|
    ensures var l, pre := lines[i], lines[..i];
      if l.Parsed? && l.delta != [] then
        && Concat(Deltas(lines[..i + 1])) == Concat(Deltas(pre)) + l.delta
        && Replies(lines[..i + 1], decorate)
           == Replies(pre, decorate) + [Reply(decorate(Concat(Deltas(pre)) + l.delta, false))]
      else
        && Concat(Deltas(lines[..i + 1])) == Concat(Deltas(pre))
        && Replies(lines[..i + 1], decorate) == Replies(pre, decorate)
  {
    var next := lines[..i + 1];
    assert next[..i] == lines[..i];
    var ds := Deltas(next);
    if lines[i].Parsed? && lines[i].delta != [] {
      assert ds[..|ds| - 1] == Deltas(lines[..i]);
    }
  }

  /** `generate()`: the events in the order they are yielded. */
  method Generate(pick: nat, upstream: Upstream, convert: Converter) returns (events: seq<Event>)
    requires pick < |ThinkingMessages|
    ensures events == ExpectedEvents(pick, upstream, DecoratorOf(convert))
  {
    events := [Thinking(ThinkingText(pick))];
    match upstream
    case Unreachable(reason) =>
      var error := Decorate(ConnectionError(reason), true, convert);
      events := events + [Failure(error)];
    case Answered(status, body, lines, dropped) =>
      if status != 200 {
        var error := Decorate(StatusError(status, body), true, convert);
        events := events + [Failure(error)];
        return;
      }
      events := events + [ClearThinking];
      var replies := Relay(lines, convert);
      events := events + replies;
      if dropped.Some? {
        var error := Decorate(ConnectionError(dropped.value), true, convert);
        events := events + [Failure(error)];
      }
  }

  /** The loop of lines 175-185: the answer so far grows by each counted
      fragment, and each growth is decorated and sent. */
  method Relay(lines: seq<Line>, convert: Converter) returns (replies: seq<Event>)
    ensures replies == Replies(lines, DecoratorOf(convert))
  {
    replies := [];
    var fullResponse := "";
    for i := 0 to |lines|
      invariant fullResponse == Concat(Deltas(lines[..i]))
      invariant replies == Replies(lines[..i], DecoratorOf(convert))
    {
      StreamStep(lines, i, DecoratorOf(convert));
      if lines[i].Parsed? && lines[i].delta != [] {
        fullResponse := fullResponse + lines[i].delta;
        var decorated := Decorate(fullResponse, false, convert);
        replies := replies + [Reply(decorated)];
      }
    }
    assert lines[..|lines|] == lines;
  }
}
