# Message formatting and streaming of a local chat front end

The application is a small Flask server in front of a local Ollama model.
Its core is a text pipeline and a stream:

- `clean_math_expressions` deletes LaTeX environment markers and unescapes
  `\ `.
- `format_math` rewrites LaTeX delimiters into the `$...$` / `$$...$$` form
  that KaTeX expects. It boxes `\boxed{...}` and unwraps `\text{...}`.
- `format_code_blocks` puts every fenced code block into a canonical shape.
- `format_response` shields math spans behind `MATH_BLOCK_i` placeholders
  while markdown is converted, then puts them back. It then removes
  `<think>` tags, collapses blank lines, breaks sentences and trims the
  edges.
- `decorate_message` puts an emoji in front of a message. Error messages
  stay raw; responses are formatted.
- The `generate` stream of `/chat`:
  1. sends a thinking message;
  2. then either one error, or a clear-thinking event followed by one
     response per received fragment;
  3. each response re-formats the whole answer received so far;
  4. when reading the stream fails partway, it ends with one error.

The model is arranged by module:

- `Strings`: Python whitespace, `str.strip`, substring occurrence, and
  `str(int)`.
- `Regex`: a left-to-right model of `re.sub`. A pattern is given as a
  matcher over the remaining text, and `str.replace` is the literal
  matcher.
- `MathClean`: the cleaning loop.
- `MathFormat`: the nine passes of `format_math`.
- `CodeBlocks`: the fence pass.
- `Shielding`: placeholders out and back in.
- `Cleanup`: the final passes.
- `Response`: `format_response` and `decorate_message`.
- `Chat`: the stream.

Parts that update state step by step are methods with loops, proved
against specification functions:

- the cleaning loop;
- the shielding substitution with its `math_blocks` list;
- the restore loop;
- the response loop of `generate`.

How the model reads the source:

- The blank-line collapse uses the pattern `\n\s*\n`. It leaves at most
  two newlines in any whitespace run, and the model proves that bound.
- The sentence break uses `\s*`. A stop directly followed by a capital
  ("a.B") is broken too.
- The two emoji of responses and thinking messages, the warning sign of
  errors and the accented letters of the Spanish messages are taken code
  point for code point as they stand in app.py, where they appear as
  Hangul and CJK characters.
- `format_math` is not idempotent: `\text{\text{a}}` becomes `\text{a}`,
  which becomes `a` on a second pass. The model proves this.

## Model

| member | source | states |
|---|---|---|
| Regex.SubSkip | app.py:33 | `re.sub` copies a prefix in which no match starts and carries on after it |
| Regex.SubNoHit | app.py:33 | a text in which the pattern matches nowhere comes back unchanged |
| Regex.SubKeeps | app.py:33 | when every match is replaced by the text it matched, the substitution changes nothing |
| Regex.SubShrinks | app.py:33 | when no replacement is longer than its match, the substitution never lengthens the text |
| Regex.Find | app.py:49-52 | the lazy `(.*?)` before a closing delimiter ends at the first occurrence of the delimiter; without DOTALL it cannot cross a newline, and when it fails no reachable occurrence exists |
| Regex.Replace | app.py:96 | `str.replace` leaves text without the needle unchanged, and a replacement no longer than the needle never lengthens the text |
| Regex.ReplaceFirst | app.py:96 | an occurrence of the needle at the start is replaced and the search resumes after it |
| Regex.ReplaceSkip | app.py:96 | a prefix in which no occurrence starts is copied unchanged |
| MathClean.RuleAt | app.py:25-29 | an entry of the table matches only where its pattern starts; it consumes the marker with or without its `*` |
| MathClean.MarkerDeleted | app.py:25-28 | an environment marker, starred or not, is deleted and the scan resumes right after it |
| MathClean.EscapedSpace | app.py:29 | `\ ` becomes a single space and the scan resumes right after it |
| MathClean.CleanMath | app.py:21-35 | the loop applies the five substitutions in table order; the result is never longer than the input; text without a backslash comes back unchanged |
| MathClean.CleanNotLonger | app.py:24-33 | `clean_math_expressions` never lengthens its input |
| MathClean.CleanNoBackslash | app.py:24-33 | every pattern starts with a backslash, so text without one is unchanged |
| MathFormat.BoxedTextAt | app.py:45 | a match is `\boxed{\text{`, a run without `}` and `}}`, and becomes the boxed `div` around the run; it matches whenever the first `}` after the opener is doubled |
| MathFormat.BoxedAt | app.py:46 | matches exactly when `\boxed{` is followed later by a `}`; the text up to the first `}` goes into the boxed `div` |
| MathFormat.DisplayDollarAt | app.py:49 | matches from an opening `$$` to the first closing `$$`, across newlines, whenever one exists, and puts back the matched text |
| MathFormat.InlineDollarAt | app.py:50 | matches from a `$` to the next `$` on the same line, whenever one exists, and puts back the matched text |
| MathFormat.DisplayBracketAt | app.py:51 | matches from `\[` to the first `\]`, across newlines, whenever one exists; the content is stripped, cleaned and put between `$$` |
| MathFormat.InlineParenAt | app.py:52 | matches from `\(` to the first `\)` on the same line, whenever one exists; the content is put between `$` |
| MathFormat.TimesAt | app.py:55 | matches exactly `\times` not followed by an ASCII letter, and puts it back |
| MathFormat.FracAt | app.py:56 | a match starts with `\frac{`, ends with `}` and is put back unchanged; it matches whenever the first `}` after `\frac{` is followed by `{` and a later `}` |
| MathFormat.TextAt | app.py:57 | matches exactly when `\text{` is followed later by a `}`; the text up to the first `}` replaces the whole command |
| MathFormat.FormatMath | app.py:37-59 | text without a backslash passes through all nine substitutions unchanged |
| MathFormat.FormatMathNotIdempotent | app.py:57 | for brace-free X, `\text{\text{X}}` becomes `\text{X}`, which becomes X on a second pass |
| MathFormat.BoxedTextRewrite | app.py:45 | `\boxed{\text{X}}` becomes the boxed `div` around X when X holds no `}` |
| MathFormat.BoxedRewrite | app.py:46 | `\boxed{X}` becomes the boxed `div` around X when X holds no `}` |
| MathFormat.DisplayDollarIdentity | app.py:49 | the `$$...$$` pass leaves every text unchanged |
| MathFormat.InlineDollarIdentity | app.py:50 | the `$...$` pass leaves every text unchanged |
| MathFormat.BracketRewrite | app.py:39-51 | `\[X\]` becomes `$$` + clean(strip(X)) + `$$` when the first `\]` closes X; scanning resumes after it |
| MathFormat.ParenRewrite | app.py:52 | `\(X\)` becomes `$X$` when X is on one line and the first `\)` closes it |
| MathFormat.TimesIdentity | app.py:55 | the `\times` pass leaves every text unchanged |
| MathFormat.FracIdentity | app.py:56 | the `\frac{..}{..}` pass leaves every text unchanged |
| MathFormat.TextUnwrap | app.py:57 | `\text{X}` becomes X when X holds no `}` |
| CodeBlocks.FormatCodeBlocks | app.py:61-70 | text without a triple backtick is left unchanged |
| CodeBlocks.CodeFenceHit | app.py:63-69 | a match is a fence, a `\w*` tag, a newline, a body and the first fence after it; it is re-emitted with the tag defaulted to `plaintext` and the body stripped |
| CodeBlocks.CodeFenceMatches | app.py:69 | a fence, a `\w*` tag and a newline match whenever another fence follows |
| CodeBlocks.FenceRewrite | app.py:63-69 | a fence, a `\w*` tag, a newline, a body and the next fence become the fence, the tag (or `plaintext` when it is empty), a newline, the stripped body, a newline and the fence |
| CodeBlocks.CanonicalFenceKept | app.py:61-70 | a fence with a tag and a trimmed, fence-free body is left unchanged |
| Shielding.MathSpanAt | app.py:88 | a span found at the start begins and ends with `$`; the display form is tried before the inline one |
| Shielding.Tokenize | app.py:88 | the text is exactly its plain runs and its math spans interleaved, each span beginning and ending with `$` |
| Shielding.MathSpanExists | app.py:88 | a span starts the text exactly when the text starts with `$` and holds another `$` after it |
| Shielding.MathSpanDisplay | app.py:88 | after an opening `$$`, the display form is taken first and ends at the first closing `$$` |
| Shielding.MathSpanInline | app.py:88 | when the display form finds no closing `$$`, the span ends at the first `$` after the opening one, across newlines |
| Shielding.TokenizeComplete | app.py:88 | every span is taken: no run before the last holds a `$`, and the last holds at most one |
| Shielding.Placeholders | app.py:85 | the i-th placeholder is `MATH_BLOCK_` followed by the decimal index |
| Shielding.Shield | app.py:82-88 | the substitution with its callback returns the shielded text and the list of spans in order of appearance |
| Shielding.ShieldShape | app.py:83-88 | spans are recorded left to right; the shielded text is the same runs with the i-th span replaced by placeholder i |
| Shielding.NoDollarNoSpans | app.py:88 | a text without `$` records no span and is not changed by shielding |
| Shielding.Restore | app.py:95-96 | the loop replaces each placeholder by its span, in order |
| Shielding.RoundTrip | app.py:82-96 | with the conversion taken as the identity, restoring gives back the text before shielding (at most ten spans, no `MATH_BLOCK_` in the text) |
| Strings.StripSpec | app.py:103 | `strip()` removes whitespace runs at both ends and nothing else; the result has no edge whitespace |
| Cleanup.StripThink | app.py:99 | removing the tags never lengthens the text; text free of both tags is unchanged |
| Cleanup.Collapse | app.py:100 | text without a newline is unchanged by the collapse |
| Cleanup.BlankLinesAt | app.py:100 | a blank-line match consumes at least two characters and is replaced by two newlines |
| Cleanup.BlankLinesHit | app.py:100 | a match starts exactly at a newline whose following whitespace run holds another newline, and ends at the last newline of that run |
| Cleanup.CollapseBound | app.py:100 | after the collapse, no whitespace run anywhere holds more than two newlines |
| Cleanup.CollapseKeepsNonSpace | app.py:100 | the collapse changes only whitespace: input and result have the same non-space characters |
| Cleanup.SentenceBreakAt | app.py:101 | a match starts exactly at a stop followed by a possibly empty whitespace run and an ASCII capital; the run is the gap, and the match becomes the stop, a newline and the capital |
| Cleanup.BreakAt | app.py:101 | a stop, any whitespace and a capital become the stop, one newline and the capital; scanning resumes after the capital |
| Cleanup.BreakMiss | app.py:101 | where no stop, whitespace and capital start the text, its first character is copied and the scan moves on by one, so whitespace outside the gaps is kept |
| Cleanup.BreakSentences | app.py:101 | text without `.`, `!` or `?` is unchanged by the sentence break |
| Cleanup.BreakSentencesSpec | app.py:101 | everywhere in the result, a stop that whitespace separates from a capital is followed by exactly one newline |
| Cleanup.BreakKeepsNonSpace | app.py:101 | the sentence break changes only whitespace: the non-space characters of input and result are the same |
| Cleanup.Finish | app.py:98-103 | the final text has no whitespace at either end |
| Response.FormatResponse | app.py:72-103 | the passes, shielding, conversion, restore and clean-up in order; the result has no edge whitespace |
| Response.FormatResponseIdentity | app.py:74-103 | with the conversion taken as the identity, shielding is invisible: the result is the clean-up of the formatted text |
| Response.FormatResponseNoMath | app.py:72-103 | for text without a backslash, `$` or backtick, and any conversion, the result is the clean-up of the converted text: the formatting passes and the shielding change nothing |
| Response.FormatResponsePlain | app.py:72-103 | with the conversion taken as the identity, plain text (no backslash, `$`, backtick, `<` or newline) only has its sentences broken and its edges trimmed |
| Response.Decorate | app.py:105-112 | an error is the warning emoji, a space and the raw message; otherwise the robot emoji, a space and `format_response` of the message |
| Response.DecorateShape | app.py:105-112 | an error keeps its message untouched; a response is the robot prefix and a trimmed text; the first character tells them apart |
| Chat.ThinkingText | app.py:114-123 | a thinking message is the thinking emoji, a space and one of the five listed messages |
| Chat.StatusError | app.py:162 | the status error message is the fixed opening, the status in decimal, `. Respuesta: ` and the body as it came |
| Chat.ConnectionError | app.py:192 | the connection error message is the fixed opening followed by the text of the exception |
| Chat.Deltas | app.py:175-181 | the counted fragments are the non-empty `response` fields; there are no more of them than lines |
| Chat.ExpectedEvents | app.py:138-196 | every stream starts with the thinking message and holds at least one more event |
| Chat.Generate | app.py:138-196 | the events yielded are the expected events for the outcome of the upstream call |
| Chat.Relay | app.py:173-185 | the loop accumulates the fragments and yields one decorated reply over the answer so far per fragment |
| Chat.StreamStep | app.py:175-185 | one more line grows the answer by its fragment and adds one reply, or changes neither |
| Chat.RepliesSpec | app.py:173-185 | there is one reply per fragment, and the k-th decorates the concatenation of the first k fragments |
| Chat.RepliesByDeltas | app.py:175-185 | the replies depend on the lines only through their fragments |
| Chat.SilentLine | app.py:176-189 | a blank line, an unparseable line or one without a fragment produces nothing, wherever it stands |
| Chat.GenerateFailure | app.py:141-196 | the stream starts with the thinking message; a connection failure or a status other than 200 gives exactly one error and nothing after |
| Chat.GenerateStream | app.py:161-196 | with status 200: the clearing event, one reply per fragment over the growing answer, then one error if reading failed |
| Chat.GenerateErrorText | app.py:161-196 | with the decoration of the source, the error event is the warning emoji and the raw status or connection message |
| Chat.ReplyText | app.py:184 | with the decoration of the source, every reply is the robot emoji, a space and trimmed text |
| Chat.RepliesSnoc | app.py:180-185 | a line with a non-empty fragment grows the answer by that fragment and adds one reply over the grown answer |
| Chat.ThreeFragments | app.py:175-185 | three non-empty fragments give three replies, over the first, the first two and all three put together |
| Chat.HelloWorldStream | app.py:170-185 | fragments "Hel", "lo", " world" give thinking, clearing and three replies, the last over "Hello world", with no error |
| Chat.ServerErrorStream | app.py:161-167 | status 500 gives the thinking message, then one error whose message states the status 500 |

## Left out

- The routes `/` and `/health`, the reading of `message` and `model` from the request, the payload sent upstream and all logging are not modelled. They are I/O around the core.
- `requests.post` and `iter_lines` are replaced by a value. It says whether the server is reachable, gives the status, the body and the received lines, and whether reading failed partway. A `RequestException` raised inside `requests.post`, a timeout among them, is the unreachable case; one raised while reading is the failure partway.
- `json.loads` is replaced by the three kinds of line it meets: blank, unparseable, or an object with its `response` field. A field that is absent or falsy (`null`, `0`, `false`, `[]`, `{}`) counts as the empty fragment and is skipped.
  - Not modelled: a valid JSON line that is not an object, or whose `response` is a truthy non-string. In the source the first raises at `.get` and the second at the string concatenation of line 182; neither is caught.
  - Not modelled: exceptions other than `RequestException`.
- `json.dumps` of each event is not modelled. The events are values of a datatype.
- The client disconnecting mid-stream is not modelled.
- The markdown conversion (`markdown.Markdown(...).convert`) is an arbitrary function from text to text. It is not part of this model.
- `random.choice` in `get_thinking_message` is replaced by the index it picks.
- `\w` is modelled as ASCII letters, digits and `_`. Python also counts other Unicode letters and digits.
- Regex.Replace: the empty needle is not modelled. Python inserts the replacement between every two characters; here it never matches. app.py always passes a non-empty needle.
- Shielding.RoundTrip: holds only for at most ten spans and a text free of `MATH_BLOCK_`.
  - With eleven spans, `MATH_BLOCK_1` is a prefix of `MATH_BLOCK_10`, and the restore loop rewrites the longer placeholder wrongly.
  - A text that already contains a placeholder can be restored wrongly. This happens only when it holds `MATH_BLOCK_i` for some i below the number of spans.
  - The model follows the code, so the round trip is claimed only where it holds.
- Response.FormatResponseIdentity: states shielding invisible only under the same two conditions as Shielding.RoundTrip.
- Cleanup.StripThink: does not claim the tags are gone afterwards. Removing `<think>` from `</<think>think>` leaves `</think>`.
