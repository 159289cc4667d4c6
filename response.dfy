/** `format_response` (app.py:72-103) and `decorate_message` (app.py:105-112):
    the formatting passes, the math shielding around the markdown conversion,
    the final clean-up, and the emoji in front of every message. */
module Response {
  import opened Strings
  import opened Regex
  import opened MathFormat
  import opened CodeBlocks
  import opened Shielding
  import opened Cleanup

  /** `markdown.Markdown(extensions=['fenced_code', 'tables']).convert`, which
      is not part of this model: any function from text to text. */
  type Converter = string -> string

  /** The emoji constants of app.py:17-19, character for character as they
      stand in the file. */
  const ThinkingEmoji: string := "\U{6E38}\U{BC42}"
  const ResponseEmoji: string := "\U{6E38}\U{BC44}"
  const ErrorEmoji: string := "\U{4E18}\U{BA46}\U{C7BA}"

  /** Lines 75-79: `format_math`, then `format_code_blocks`. */
  function Prepared(text: string): string {
    FormatCodeBlocks(FormatMath(text))
  }

  /** What `format_response` returns for `text` when markdown conversion is
      `convert`. */
  function FormatResponseSpec(text: string, convert: Converter): string {
    var t := Prepared(text);
    Finish(Restored(convert(ShieldedText(t)), Blocks(t)))
  }

  /** `format_response`: the passes, the shielding loop, the conversion, the
      restore loop and the clean-up, one after the other. */
  method FormatResponse(text: string, convert: Converter) returns (r: string)
    ensures r == FormatResponseSpec(text, convert)
    ensures NoEdgeSpace(r)
  {
    var t := FormatMath(text);
    t := FormatCodeBlocks(t);
    var shielded, blocks := Shield(t);
    var html := convert(shielded);
    var restored := Restore(html, blocks);
    r := Finish(restored);
  }

  /** When the conversion changes nothing, the shielding is invisible: the
      result is the clean-up applied to the formatted text. */
  lemma FormatResponseIdentity(text: string)
    requires |Blocks(Prepared(text))| <= 10
    requires NoOcc(Prepared(text), Tag)
    ensures FormatResponseSpec(text, s => s) == Finish(Prepared(text))
  {
    RoundTrip(Prepared(text));
  }

  /** Text without a backslash, `$` or backtick gives the formatting passes and
      the shielding nothing to do, whatever the conversion: the result is the
      clean-up of the converted text. */
  lemma FormatResponseNoMath(text: string, convert: Converter)
    requires '\\' !in text && '$' !in text && '`' !in text
    ensures FormatResponseSpec(text, convert) == Finish(convert(text))
  {
    NoOccFirstAbsent(text, Fence);
    assert Prepared(text) == text;
    NoDollarNoSpans(text);
  }

  /** Plain text (no backslash, `$`, backtick, `<` or newline) with the
      conversion taken as the identity only has its sentences broken and its
      edges trimmed. */
  lemma FormatResponsePlain(text: string)
    requires '\\' !in text && '$' !in text && '`' !in text && '<' !in text && '\n' !in text
    ensures FormatResponseSpec(text, s => s) == Strip(BreakSentences(text))
  {
    FormatResponseNoMath(text, s => s);
    NoOccFirstAbsent(text, "</think>");
    NoOccFirstAbsent(text, "<think>");
  }

  /** A response message: the robot emoji, a space, and text with no
      whitespace at either end. */
  predicate ResponseText(t: string) {
    |t| > |ResponseEmoji| && t[..|ResponseEmoji| + 1] == ResponseEmoji + " "
    && NoEdgeSpace(t[|ResponseEmoji| + 1..])
  }

  /** `decorate_message(message, is_error)`. */
  function DecorateSpec(message: string, isError: bool, convert: Converter): string {
    if isError then ErrorEmoji + " " + message
    else ResponseEmoji + " " + FormatResponseSpec(message, convert)
  }

  method Decorate(message: string, isError: bool, convert: Converter) returns (r: string)
    ensures r == DecorateSpec(message, isError, convert)
  {
    if isError {
      r := ErrorEmoji + " " + message;
      return;
    }
    var formatted := FormatResponse(message, convert);
    r := ResponseEmoji + " " + formatted;
  }

  /** An error is its message, untouched, after the warning sign; a response is
      the formatted, trimmed message after the robot. The first character
      tells the two apart. */
  lemma DecorateShape(message: string, isError: bool, convert: Converter)
    ensures var r := DecorateSpec(message, isError, convert);
      && (isError ==> r == ErrorEmoji + " " + message)
      && (!isError ==> r[..|ResponseEmoji| + 1] == ResponseEmoji + " "
                       && NoEdgeSpace(r[|ResponseEmoji| + 1..]))
      && (r[0] == ErrorEmoji[0] <==> isError)
  {
    var r := DecorateSpec(message, isError, convert);
    if !isError {
      var f := FormatResponseSpec(message, convert);
      assert r == ResponseEmoji + " " + f;
      assert r[|ResponseEmoji| + 1..] == f;
    }
  }
}
