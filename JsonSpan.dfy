/** The tail of entity extraction: pick the JSON candidate out of the
    generated text with the greedy, dot-matches-newline pattern `\{.*\}`
    and hand it to a parser that may fail. The parser (Python's
    `json.loads`) is a parameter. */
module JsonSpan {
  import opened Outcomes

  /** Position of the first `c` in `s`. */
  function FirstIndex(s: string, c: char): (r: Option<nat>)
    ensures r.None? <==> c !in s
    ensures r.Some? ==> r.value < |s| && s[r.value] == c && c !in s[..r.value]
    decreases |s|
  {
    if s == [] then None
    else if s[0] == c then Some(0)
    else
      match FirstIndex(s[1..], c)
      case None => None
      case Some(k) =>
        assert s[..k + 1] == [s[0]] + s[1..][..k];
        Some(k + 1)
  }

  /** Position of the last `c` in `s`. */
  function LastIndex(s: string, c: char): (r: Option<nat>)
    ensures r.None? <==> c !in s
    ensures r.Some? ==> r.value < |s| && s[r.value] == c && c !in s[r.value + 1..]
    decreases |s|
  {
    if s == [] then None
    else if s[|s| - 1] == c then Some(|s| - 1)
    else
      match LastIndex(s[..|s| - 1], c)
      case None => None
      case Some(k) =>
        assert s[k + 1..] == s[..|s| - 1][k + 1..] + [s[|s| - 1]];
        Some(k)
  }

  /** A `{` at `i` and a `}` at `j` after it: a place the pattern can match. */
  predicate BracePair(text: string, i: int, j: int) {
    0 <= i < j < |text| && text[i] == '{' && text[j] == '}'
  }

  /** `re.search(r"\{.*\}", text, re.DOTALL)`: the leftmost match starts at
      the first `{`, and the greedy `.*` runs it to the last `}`. */
  function JsonSpan(text: string): (r: Option<string>)
    ensures r.Some? <==> exists i, j :: BracePair(text, i, j)
    ensures r.Some? ==> exists i, j ::
      BracePair(text, i, j) && r.value == text[i..j + 1] && '{' !in text[..i] && '}' !in text[j + 1..]
  {
    match FirstIndex(text, '{')
    case None => None
    case Some(i) =>
      match LastIndex(text, '}')
      case None => None
      case Some(j) =>
        if i < j then
          assert BracePair(text, i, j);
          Some(text[i..j + 1])
        else
          None
  }

  /** The span is the longest match: it starts at or before, and ends at or
      after, every `{ ... }` pair in the text. */
  lemma SpanCoversPairs(text: string, a: int, b: int)
    requires BracePair(text, a, b)
    ensures JsonSpan(text).Some?
    ensures exists i, j ::
      BracePair(text, i, j) && JsonSpan(text).value == text[i..j + 1] && i <= a && b <= j
  {
    assert text[a] in text && text[b] in text;
    var i, j := FirstIndex(text, '{').value, LastIndex(text, '}').value;
    assert BracePair(text, i, j);
  }

  /** What extraction returns: the parsed document, or an error record with
      a message and the raw generated text. */
  datatype Extracted<D> = Document(doc: D) | ExtractionError(error: string, raw: string)

  const NoJsonMessage: string := "No JSON found in LLM output"
  const ParseFailedPrefix: string := "JSON parsing failed: "

  /** The `try` block at the end of `extract_entities`. */
  function SelectJson<D>(generated: string, parse: string -> Result<D, string>): (r: Extracted<D>)
    ensures r.Document? <==> JsonSpan(generated).Some? && parse(JsonSpan(generated).value).Ok?
    ensures r.Document? ==> parse(JsonSpan(generated).value) == Ok(r.doc)
    ensures r.ExtractionError? ==> r.raw == generated
    ensures r.ExtractionError? ==>
      (r.error == NoJsonMessage <==> forall i, j :: !BracePair(generated, i, j))
    ensures r.ExtractionError? && JsonSpan(generated).Some? ==>
      r.error == ParseFailedPrefix + parse(JsonSpan(generated).value).error
  {
    match JsonSpan(generated)
    case None => ExtractionError(NoJsonMessage, generated)
    case Some(span) =>
      match parse(span)
      case Ok(doc) => Document(doc)
      case Err(msg) =>
        assert (ParseFailedPrefix + msg)[0] != NoJsonMessage[0];
        ExtractionError(ParseFailedPrefix + msg, generated)
  }

  /** The first `c` is at `k` when `s[k]` is `c` and no `c` precedes it. */
  lemma FirstIndexAt(s: string, c: char, k: nat)
    requires k < |s| && s[k] == c && c !in s[..k]
    ensures FirstIndex(s, c) == Some(k)
  {
  }

  /** The last `c` is at `k` when `s[k]` is `c` and no `c` follows it. */
  lemma LastIndexAt(s: string, c: char, k: nat)
    requires k < |s| && s[k] == c && c !in s[k + 1..]
    ensures LastIndex(s, c) == Some(k)
  {
  }

  /** A text that is a parsable document surrounded by brace-free prose
      yields that document. */
  lemma DocumentInProse<D>(before: string, body: string, after: string,
                          parse: string -> Result<D, string>)
    requires '{' !in before && '}' !in after
    requires |body| >= 2 && body[0] == '{' && body[|body| - 1] == '}'
    requires parse(body).Ok?
    ensures SelectJson(before + body + after, parse) == Document(parse(body).value)
  {
    var text := before + body + after;
    var i, j := |before|, |before| + |body| - 1;
    assert text[..i] == before && text[i] == '{';
    FirstIndexAt(text, '{', i);
    assert text[j + 1..] == after && text[j] == '}';
    LastIndexAt(text, '}', j);
    assert text[i..j + 1] == body;
  }
}
