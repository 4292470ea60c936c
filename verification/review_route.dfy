/** The decision logic of the `POST /api/review` handler: validate the request, build the
    prompt, hand it to the model provider, cut the JSON span out of the reply with the
    pattern /{[\s\S]*}/, check that it parses, and pick the response.

    The model provider and JSON.parse are parameters: `complete` maps a prompt to how the
    provider call finished (its reply content, possibly absent, or an exception), and
    `parse` maps a text to the parsed value, or None where JSON.parse would throw. */
module ReviewRoute {
  import opened JsRuntime

  /** The fields read from the request body; absent when the body lacks them. */
  datatype RequestBody = RequestBody(code: Option<string>, language: Option<string>)

  /** Every response the handler can produce. `J` is the type of parsed JSON values. */
  datatype Response<J> =
    | Reviewed(body: J)        // 200, the parsed reply as the body
    | MissingInput             // 400
    | InvalidJsonFromModel     // 500, the catch around the second JSON.parse
    | ExtractedJsonInvalid     // 500
    | NoJsonFound              // 500
    | ProcessingFailed         // 500, any exception reaching the outer catch

  /** The HTTP status of a response: 200 only for a review, 400 only for missing input. */
  function Status<J>(r: Response<J>): (status: int)
    ensures status == 200 <==> r.Reviewed?
    ensures status == 400 <==> r == MissingInput
    ensures status == 200 || status == 400 || status == 500
  {
    match r
    case Reviewed(_) => 200
    case MissingInput => 400
    case _ => 500
  }

  /** The `error` field of the response body; none for a successful review. */
  function ErrorMessage<J>(r: Response<J>): (message: Option<string>)
    ensures message.None? <==> r.Reviewed?
  {
    match r
    case Reviewed(_) => None
    case MissingInput => Some("Code or language not provided")
    case InvalidJsonFromModel => Some("Invalid JSON response from Groq API. Please try again.")
    case ExtractedJsonInvalid => Some("Extracted JSON is invalid. Please check the response.")
    case NoJsonFound => Some("No valid JSON found in the Groq API response.")
    case ProcessingFailed => Some("Failed to process code review.")
  }

  /** The error responses are told apart by their messages, and only the missing-input
      one is a client error. */
  lemma ErrorResponsesDistinct<J>(r1: Response<J>, r2: Response<J>)
    requires !r1.Reviewed? && !r2.Reviewed?
    ensures ErrorMessage(r1).Some? && ErrorMessage(r2).Some?
    ensures ErrorMessage(r1) == ErrorMessage(r2) <==> r1 == r2
    ensures Status(r1) == 400 <==> r1 == MissingInput
  {
  }

  // ---------------------------------------------------------------- the prompt

  const PromptIntro: string :=
    "\n      You are an expert code reviewer and senior software developer. Analyze the following "
  const PromptFormat: string :=
    " code and provide a detailed review in the following JSON format:\n" +
    "      {\n" +
    "        \"score\": number (1-10),\n" +
    "        \"suggestions\": string[] (list of specific improvement suggestions),\n" +
    "        \"security\": string[] (list of security concerns or vulnerabilities),\n" +
    "        \"bestPractices\": string (detailed best practices recommendations),\n" +
    "        \"complexity\": {\n" +
    "          \"score\": number (1-10),\n" +
    "          \"details\": string (explanation of complexity analysis)\n" +
    "        },\n" +
    "        \"performance\": {\n" +
    "          \"score\": number (1-10),\n" +
    "          \"suggestions\": string[] (list of performance improvement suggestions)\n" +
    "        }\n" +
    "      }\n" +
    "\n" +
    "      Focus on:\n" +
    "      1. Code quality and readability\n" +
    "      2. Security vulnerabilities\n" +
    "      3. Performance optimizations\n" +
    "      4. Adherence to "
  const PromptFocus: string :=
    " best practices\n" +
    "      5. Code complexity and maintainability\n" +
    "      6. Potential bugs or edge cases\n" +
    "\n" +
    "      Here's the code to analyze:\n" +
    "      "
  const PromptEnd: string := "\n    "

  /** The prompt template, filled with the language (twice) and the code (once, last):
      the language right after the fixed opening, the code right before the fixed ending. */
  function Prompt(language: string, code: string): (p: string)
    ensures OccursAt(language, p, |PromptIntro|)
    ensures |p| >= |code| + |PromptEnd| && OccursAt(code, p, |p| - |PromptEnd| - |code|)
  {
    PromptIntro + language + PromptFormat + language + PromptFocus + code + PromptEnd
  }

  /** `x` occurs in `s` starting at position i. */
  predicate OccursAt(x: string, s: string, i: nat) {
    i + |x| <= |s| && s[i..i + |x|] == x
  }

  /** `x` occurs in `s` as a contiguous substring. */
  ghost predicate Occurs(x: string, s: string) {
    exists i :: OccursAt(x, s, i)
  }

  /** The prompt carries the language and the code verbatim, and the code can be read back
      from it: two prompts for the same language are equal only for the same code. */
  lemma PromptEmbedsInputs(language: string, code: string)
    ensures Occurs(language, Prompt(language, code))
    ensures Occurs(code, Prompt(language, code))
    ensures forall other | Prompt(language, other) == Prompt(language, code) :: other == code
  {
  }

  // ---------------------------------------------------------------- the JSON span

  /** The characters s[start..end] matched by the pattern. */
  datatype Span = Span(start: nat, end: nat)

  /** After the `{` at position p, the greedy `[\s\S]*` first runs to the end of the
      reply and then gives back one character at a time; q is where `}` is tried next.
      The result is where the closing `}` matched: the last `}` after p. */
  function GiveBack(s: string, p: nat, q: int): (r: Option<nat>)
    requires p < |s| && q < |s|
    decreases q
    ensures r.Some? ==> p < r.value <= q && s[r.value] == '}'
    ensures r.Some? ==> forall k | r.value < k <= q :: s[k] != '}'
    ensures r.None? ==> forall k | p < k <= q :: s[k] != '}'
  {
    if q <= p then None
    else if s[q] == '}' then Some(q)
    else GiveBack(s, p, q - 1)
  }

  /** The pattern tried at one start position: it matches exactly when s[p] is `{` and a
      `}` follows, and then runs to the last `}`. */
  function MatchAt(s: string, p: nat): (r: Option<Span>)
    requires p < |s|
    ensures r.Some? <==> s[p] == '{' && exists k | p < k < |s| :: s[k] == '}'
    ensures r.Some? ==> r.value.start == p && p + 2 <= r.value.end <= |s| && s[r.value.end - 1] == '}'
    ensures r.Some? ==> forall k | r.value.end <= k < |s| :: s[k] != '}'
  {
    if s[p] != '{' then None
    else match GiveBack(s, p, |s| - 1)
      case None => None
      case Some(q) => Some(Span(p, q + 1))
  }

  /** String.prototype.match with a non-global pattern: the match at the leftmost start
      position from p on where the pattern matches at all. */
  function Search(s: string, p: nat): (r: Option<Span>)
    requires p <= |s|
    decreases |s| - p
    ensures r.Some? ==> p <= r.value.start && r.value.start + 2 <= r.value.end <= |s|
    ensures r.Some? ==> s[r.value.start] == '{' && s[r.value.end - 1] == '}'
    ensures r.Some? ==> forall k | p <= k < r.value.start :: s[k] != '{'
    ensures r.Some? ==> forall k | r.value.end <= k < |s| :: s[k] != '}'
    ensures r.None? ==> forall i, j | p <= i < j < |s| :: !(s[i] == '{' && s[j] == '}')
  {
    if p == |s| then None
    else match MatchAt(s, p)
      case Some(sp) => Some(sp)
      case None => Search(s, p + 1)
  }

  /** `reply.match(/{[\s\S]*}/)`: the matched text, if any. */
  function JsonMatch(reply: string): (r: Option<string>)
    ensures r.Some? ==> |r.value| >= 2 && r.value[0] == '{' && r.value[|r.value| - 1] == '}'
  {
    match Search(reply, 0)
    case None => None
    case Some(sp) => Some(reply[sp.start..sp.end])
  }

  // An independent description of the span: from the first `{` to the last `}`.

  function IndexOf(s: string, c: char): (r: Option<nat>)
    ensures r.Some? ==> r.value < |s| && s[r.value] == c && forall k | 0 <= k < r.value :: s[k] != c
    ensures r.None? ==> forall k | 0 <= k < |s| :: s[k] != c
  {
    if s == [] then None
    else if s[0] == c then Some(0)
    else match IndexOf(s[1..], c)
      case None => None
      case Some(i) => Some(i + 1)
  }

  function LastIndexOf(s: string, c: char): (r: Option<nat>)
    ensures r.Some? ==> r.value < |s| && s[r.value] == c && forall k | r.value < k < |s| :: s[k] != c
    ensures r.None? ==> forall k | 0 <= k < |s| :: s[k] != c
  {
    if s == [] then None
    else if s[|s| - 1] == c then Some(|s| - 1)
    else LastIndexOf(s[..|s| - 1], c)
  }

  function BraceSpan(s: string): Option<Span> {
    match (IndexOf(s, '{'), LastIndexOf(s, '}'))
    case (Some(b), Some(e)) => if b < e then Some(Span(b, e + 1)) else None
    case _ => None
  }

  /** The reply holds a `{` with a `}` somewhere after it. */
  predicate HasBracePair(s: string) {
    exists i, j | 0 <= i < j < |s| :: s[i] == '{' && s[j] == '}'
  }

  /** The regex match is exactly the stretch from the first `{` to the last `}`, and it
      exists exactly when a `{` is followed somewhere by a `}`. */
  lemma SearchIsBraceSpan(s: string)
    ensures Search(s, 0) == BraceSpan(s)
    ensures Search(s, 0).Some? <==> HasBracePair(s)
  {
  }

  /** What JsonMatch finds: a contiguous piece of the reply that starts with `{` and ends
      with `}`, with no `{` before it and no `}` after it. */
  lemma JsonMatchShape(reply: string)
    ensures JsonMatch(reply).Some? <==> HasBracePair(reply)
    ensures JsonMatch(reply).Some? ==>
      exists b, e | 0 <= b < e <= |reply| ::
        JsonMatch(reply).value == reply[b..e] && e - b >= 2 &&
        reply[b] == '{' && reply[e - 1] == '}' &&
        (forall k | 0 <= k < b :: reply[k] != '{') &&
        (forall k | e <= k < |reply| :: reply[k] != '}')
  {
  }

  /** The match is the brace span, never empty, and `.trim()` leaves it as it is, since it
      starts with `{` and ends with `}`. */
  lemma MatchIsTrimmedSpan(reply: string)
    ensures JsonMatch(reply).Some? <==> BraceSpan(reply).Some?
    ensures JsonMatch(reply).Some? ==>
      JsonMatch(reply).value != "" &&
      JsonMatch(reply).value == reply[BraceSpan(reply).value.start..BraceSpan(reply).value.end] &&
      Trim(JsonMatch(reply).value) == JsonMatch(reply).value
  {
    SearchIsBraceSpan(reply);
    if JsonMatch(reply).Some? {
      BracedTextTrimmed(JsonMatch(reply).value);
    }
  }

  /** `.trim()` leaves a text that starts with `{` and ends with `}` as it is. */
  lemma BracedTextTrimmed(t: string)
    requires |t| >= 2 && t[0] == '{' && t[|t| - 1] == '}'
    ensures Trim(t) == t
  {
  }

  // ---------------------------------------------------------------- the handler

  /** The function isValidJSON: whether JSON.parse returns rather than throws. */
  predicate IsValidJson<J>(parse: string -> Option<J>, s: string) {
    parse(s).Some?
  }

  /** What the handler does with the reply text (`completionResponse`): extract the span,
      trim it, check it with isValidJSON, and parse it once more for the response body. */
  function HandleReply<J>(reply: string, parse: string -> Option<J>): (r: Response<J>)
    ensures r != InvalidJsonFromModel
    ensures BraceSpan(reply).None? ==> r == NoJsonFound
    ensures BraceSpan(reply).Some? ==>
      var text := reply[BraceSpan(reply).value.start..BraceSpan(reply).value.end];
      r == (if parse(text).Some? then Reviewed(parse(text).value) else ExtractedJsonInvalid)
  {
    MatchIsTrimmedSpan(reply);
    var jsonMatch := JsonMatch(reply);
    if jsonMatch.Some? && jsonMatch.value != "" then
      var jsonResponse := Trim(jsonMatch.value);
      if IsValidJson(parse, jsonResponse) then
        match parse(jsonResponse)
        case Some(response) => Reviewed(response)
        case None => InvalidJsonFromModel
      else
        ExtractedJsonInvalid
    else
      NoJsonFound
  }

  /** One call of the handler: the prompt it sent to the model provider, if any, and the
      response. */
  datatype Exchange<J> = Exchange(sent: Option<string>, response: Response<J>)

  /** The request passes the handler's check `!code || !language`. */
  predicate Accepted(body: RequestBody) {
    Truthy(body.code) && Truthy(body.language)
  }

  /** POST /api/review. `body` is how `await req.json()` finished. */
  function Post<J>(body: Completion<RequestBody>, complete: string -> Completion<Option<string>>,
                   parse: string -> Option<J>): (r: Exchange<J>)
    ensures r.response != InvalidJsonFromModel
    ensures r.response == MissingInput <==> body.Returned? && !Accepted(body.value)
    ensures r.sent.Some? <==> body.Returned? && Accepted(body.value)
    ensures r.sent.Some? ==> r.sent.value == Prompt(body.value.language.value, body.value.code.value)
    ensures body.Threw? ==> r.response == ProcessingFailed
    ensures r.sent.Some? && complete(r.sent.value).Threw? ==> r.response == ProcessingFailed
    ensures r.sent.Some? && complete(r.sent.value).Returned? ==>
      r.response == HandleReply(OrEmpty(complete(r.sent.value).value), parse)
  {
    match body
    case Threw => Exchange(None, ProcessingFailed)
    case Returned(fields) =>
      if !Truthy(fields.code) || !Truthy(fields.language) then
        Exchange(None, MissingInput)
      else
        var prompt := Prompt(fields.language.value, fields.code.value);
        match complete(prompt)
        case Threw => Exchange(Some(prompt), ProcessingFailed)
        case Returned(content) =>
          Exchange(Some(prompt), HandleReply(OrEmpty(content), parse))
  }

  /** A reply that holds one JSON text between prose free of braces yields that text's
      parse as the 200 body; a reply whose span does not parse yields the "invalid" error;
      a reply without a `{ ... }` pair, the absent reply included, yields "no JSON found". */
  lemma HandleReplyCases<J>(before: string, json: string, after: string, parse: string -> Option<J>)
    requires |json| >= 2 && json[0] == '{' && json[|json| - 1] == '}'
    requires forall k | 0 <= k < |before| :: before[k] != '{'
    requires forall k | 0 <= k < |after| :: after[k] != '}'
    ensures HandleReply(before + json + after, parse) ==
      if parse(json).Some? then Reviewed(parse(json).value) else ExtractedJsonInvalid
    ensures HandleReply(before + after, parse) == NoJsonFound
    ensures HandleReply(OrEmpty(None), parse) == NoJsonFound
  {
    EmbeddedSpan(before, json, after);
    NoSpanWithoutOpening(before, after);
    assert OrEmpty(None) == "";
  }

  lemma EmbeddedSpan(before: string, json: string, after: string)
    requires |json| >= 2 && json[0] == '{' && json[|json| - 1] == '}'
    requires forall k | 0 <= k < |before| :: before[k] != '{'
    requires forall k | 0 <= k < |after| :: after[k] != '}'
    ensures BraceSpan(before + json + after) == Some(Span(|before|, |before| + |json|))
    ensures (before + json + after)[|before|..|before| + |json|] == json
  {
    var s := before + json + after;
    var b, e := |before|, |before| + |json|;
    assert s[b] == '{' && s[e - 1] == '}';
    forall k | 0 <= k < b ensures s[k] != '{' { assert s[k] == before[k]; }
    forall k | e <= k < |s| ensures s[k] != '}' { assert s[k] == after[k - e]; }
    assert IndexOf(s, '{') == Some(b);
    assert LastIndexOf(s, '}') == Some(e - 1);
    assert s[b..e] == json;
  }

  lemma NoSpanWithoutOpening(before: string, after: string)
    requires forall k | 0 <= k < |before| :: before[k] != '{'
    requires forall k | 0 <= k < |after| :: after[k] != '}'
    ensures BraceSpan(before + after).None?
  {
  }

  /** Two objects in one reply are not separated: the span runs from the first object's
      `{` to the second object's `}`, gap included. */
  lemma TwoObjectsMerged(first: string, gap: string, second: string)
    requires |first| >= 2 && first[0] == '{' && first[|first| - 1] == '}'
    requires |second| >= 2 && second[0] == '{' && second[|second| - 1] == '}'
    ensures JsonMatch(first + gap + second) == Some(first + gap + second)
  {
    var s := first + gap + second;
    SearchIsBraceSpan(s);
    assert IndexOf(s, '{') == Some(0);
    assert s[|s| - 1] == '}';
    assert LastIndexOf(s, '}') == Some(|s| - 1);
    assert s[0..|s|] == s;
  }
}
