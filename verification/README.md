# CodeIQ review: a verified model of the endpoint and the review page

CodeIQ is a web tool that sends source code to a hosted language model and shows the
review that comes back. This project models its two pieces of logic in Dafny.

- **The review endpoint** (`POST /api/review`, module `ReviewRoute`). It checks that
  `code` and `language` are present. It fills the prompt template with them and passes the
  prompt to the model provider. From the reply it cuts out the text matched by
  `/{[\s\S]*}/`, trims it, checks that it parses as JSON, and returns the parsed value.
  Failures map to one of five error responses. The module is written as functions.
  The provider call is the parameter `complete`. It maps a prompt to the reply content,
  which may be absent, or to an exception. `JSON.parse` is the parameter `parse`. It maps
  a text to its parsed value, or to `None` where it would throw.
- **The review page** (module `ReviewPage`). The component's state is the class
  `CodeReviewer`. Its methods are the submit handler `analyzeCode`, the "Load This Code"
  history action and the two input handlers. The `fetch` outcome and the clock are
  parameters of `AnalyzeCode`. The colour of a score and the history preview are
  functions.
- **JavaScript runtime pieces** (module `JsRuntime`): absent values, calls that throw,
  `String.prototype.trim` (the whitespace set of ECMA-262) and `slice(0, n)`.

Main results:
- The regex match is a leftmost-start, greedy backtracking search. It equals the stretch
  from the first `{` to the last `}`. It exists exactly when some `{` has a `}` after it.
- `.trim()` on the match changes nothing.
- The handler's inner `catch`, which returns "Invalid JSON response from Groq API", can never
  be reached. `isValidJSON` and the second `JSON.parse` call the same deterministic parse.
- The page's history is always the five most recent successful reviews, newest first.

## Model

| member | source | states |
|---|---|---|
| `JsRuntime.OrEmpty` | app/api/review/route.ts:81 | a missing or empty reply content becomes `''`, and any other content is kept |
| `JsRuntime.Take` | app/page.tsx:80 | `slice(0, n)` keeps the first min(n, length) elements in order, and keeps everything exactly when the length is at most n |
| `JsRuntime.TrimStart` | app/api/review/route.ts:87 | only whitespace is dropped from the front, and what is kept is a suffix that does not start with whitespace |
| `JsRuntime.TrimEnd` | app/api/review/route.ts:87 | only whitespace is dropped from the back, and what is kept is a prefix that does not end with whitespace |
| `JsRuntime.Trim` | app/api/review/route.ts:87 | the result is a contiguous middle part of the input, everything dropped before and after it is whitespace, and it neither starts nor ends with whitespace |
| `JsRuntime.TrimEmptyIff` | app/page.tsx:53 | `code.trim()` is empty exactly when every character of the code is whitespace |
| `JsRuntime.TrimFixedIff` | app/api/review/route.ts:87 | `trim` changes nothing exactly when the string is empty or has non-whitespace at both ends |
| `ReviewRoute.ErrorResponsesDistinct` | app/api/review/route.ts:33-122 | every error response carries its own message, and only the missing-input one has status 400 |
| `ReviewRoute.Status` | app/api/review/route.ts:33-122 | status 200 exactly for a review, 400 exactly for missing input, 500 otherwise |
| `ReviewRoute.ErrorMessage` | app/api/review/route.ts:33-122 | every response but a review carries an `error` message (the messages themselves are compared in `ErrorResponsesDistinct`) |
| `ReviewRoute.Accepted` | app/api/review/route.ts:33 | the missing-input check passes exactly when `code` and `language` are both present and non-empty (used by `Post`) |
| `ReviewRoute.Prompt` | app/api/review/route.ts:40-67 | the language sits right after the fixed opening and the code right before the fixed ending; the substring and read-back properties are in `PromptEmbedsInputs` |
| `ReviewRoute.PromptEmbedsInputs` | app/api/review/route.ts:40-67 | the prompt contains the language and the code verbatim as substrings, and for one language it determines the code |
| `ReviewRoute.GiveBack` | app/api/review/route.ts:84 | greedy backtracking after a `{` stops at the last `}` after it, or finds none exactly when no `}` follows |
| `ReviewRoute.MatchAt` | app/api/review/route.ts:84 | the pattern matches at a position exactly when a `{` stands there with a `}` after it, and the match then runs to the last `}` |
| `ReviewRoute.Search` | app/api/review/route.ts:84 | a match starts with `{` and ends with `}`, with no `{` before it and no `}` after it; there is no match exactly when no `{` has a `}` after it |
| `ReviewRoute.JsonMatch` | app/api/review/route.ts:84 | the matched text starts with `{` and ends with `}`; its position and existence are in `JsonMatchShape` |
| `ReviewRoute.IndexOf` | app/api/review/route.ts:84 | the reference definition's first occurrence of a character, or none when it does not occur |
| `ReviewRoute.LastIndexOf` | app/api/review/route.ts:84 | the reference definition's last occurrence of a character, or none when it does not occur |
| `ReviewRoute.SearchIsBraceSpan` | app/api/review/route.ts:84 | the regex match equals the span from the first `{` to the last `}`, and exists exactly when a `{` has a `}` after it |
| `ReviewRoute.JsonMatchShape` | app/api/review/route.ts:84-86 | the matched text exists exactly when a `{` has a `}` after it; it is a contiguous substring of the reply that starts with `{` and ends with `}`, with no `{` before it and no `}` after it |
| `ReviewRoute.MatchIsTrimmedSpan` | app/api/review/route.ts:84-87 | the match is never empty, is the brace span, and `.trim()` leaves it unchanged |
| `ReviewRoute.BracedTextTrimmed` | app/api/review/route.ts:87 | `.trim()` leaves any text that starts with `{` and ends with `}` unchanged |
| `ReviewRoute.IsValidJson` | app/api/review/route.ts:126-133 | `isValidJSON` holds exactly when the parse returns a value instead of throwing (used by `HandleReply`, where it makes the inner catch unreachable) |
| `ReviewRoute.HandleReply` | app/api/review/route.ts:84-115 | no brace span gives "no JSON found"; a span that does not parse gives "extracted JSON invalid"; a span that parses gives 200 with the parsed value unchanged; the inner-catch response never occurs |
| `ReviewRoute.Post` | app/api/review/route.ts:29-123 | a missing or empty `code` or `language` gives 400 and no prompt is sent; otherwise the prompt for exactly those values is sent; an exception reading the body or calling the model gives the generic 500; otherwise the reply (absent content read as `''`) is handled as above |
| `ReviewRoute.HandleReplyCases` | app/api/review/route.ts:84-115 | a reply with one JSON text between brace-free prose gives that text's parse (or "invalid"); a reply without braces, the absent reply included, gives "no JSON found" |
| `ReviewRoute.EmbeddedSpan` | app/api/review/route.ts:84 | the span of a braced text between brace-free prose is exactly that text |
| `ReviewRoute.NoSpanWithoutOpening` | app/api/review/route.ts:84 | text with no `{` followed by text with no `}` has no span |
| `ReviewRoute.TwoObjectsMerged` | app/api/review/route.ts:84 | two braced objects in one reply are merged into one span that runs over the text between them |
| `ReviewPage.PushHistory` | app/page.tsx:76-80 | the new history holds at most 5 entries, starts with the new entry, and continues with the first min(4, old length) old entries in order |
| `ReviewPage.LatestFirst` | app/page.tsx:76-80 | the reference view: entry k is the k-th most recent element of the log, at most n of them |
| `ReviewPage.PushHistoryKeepsLatest` | app/page.tsx:76-80 | pushing onto the latest-first view of a log gives the view of the log with the entry appended |
| `ReviewPage.LatestFirstByTime` | app/page.tsx:76-80 | if timestamps never decrease from one submission to the next, the history is ordered by timestamp, newest first |
| `ReviewPage.IsBlank` | app/page.tsx:53 | `!code.trim()` holds exactly when every character of the code is whitespace |
| `ReviewPage.CodeReviewer.constructor` | app/page.tsx:36-41 | the initial state: empty code, not loading, no review, no error, empty history, language `javascript` |
| `ReviewPage.CodeReviewer.EditCode` | app/page.tsx:156 | typing replaces the code and changes nothing else |
| `ReviewPage.CodeReviewer.SelectLanguage` | app/page.tsx:141 | choosing a language replaces the selected language and changes nothing else |
| `ReviewPage.CodeReviewer.AnalyzeCode` | app/page.tsx:52-86 | blank input sets the empty-input error, sends nothing and changes nothing else; otherwise it posts the code and language and clears loading at the end; on success it sets the review, clears the error and pushes the entry onto the history; on failure it sets the generic error and keeps review and history; the history stays the newest at most 5 reviews |
| `ReviewPage.CodeReviewer.RecordReview` | app/page.tsx:76-80 | the history update keeps the history equal to the latest successful reviews, newest first |
| `ReviewPage.CodeReviewer.LoadFromHistory` | app/page.tsx:284-287 | code and review become exactly the entry's stored values; history and everything else stay unchanged |
| `ReviewPage.PostedRequestAccepted` | app/page.tsx:62-68 | a request the page posts with a selected language passes the endpoint's input check, and the endpoint sends the prompt for that code and language |
| `ReviewPage.ScoreBand` | app/page.tsx:88-92 | good exactly for scores of at least 8, warning exactly for at least 6 and below 8, bad exactly below 6 |
| `ReviewPage.SeverityColor` | app/page.tsx:88-92 | green exactly for scores of at least 8, yellow exactly for at least 6 and below 8, red exactly below 6 |
| `ReviewPage.ProgressColor` | app/page.tsx:110 | the progress bar colour uses the same three bands, taken from `ScoreBand` |
| `ReviewPage.ColoursAgree` | app/page.tsx:88-110 | the text colour and the bar colour split scores identically, and a higher score never gets a worse colour |
| `ReviewPage.Preview` | app/page.tsx:278 | the preview is the first min(200, length) characters of the stored code |

## Left out

- The model provider call and its configuration (model name, temperature, token budget, API key, app/api/review/route.ts:5-7 and 69-79): it is the parameter `complete`. Only the prompt it receives and how it finishes are modelled.
- `JSON.parse` and the JSON grammar: it is the parameter `parse`, a deterministic function from text to an optional value. The endpoint never checks the parsed value against the review shape, and neither does the model.
- `req.json()`: its result is a `Completion` of a body whose `code` and `language` are strings or absent. Non-string values (numbers, objects), which JavaScript would test for truthiness and turn into text in the prompt, are not modelled.
- `NextResponse`, HTTP transport, `fetch` and `console.error` logging: responses are the `Response` datatype with `Status` and `ErrorMessage`, and the page's fetch is the `FetchOutcome` parameter.
- React rendering, layout, tabs, badges, animation, CSS classes and external links (app/page.tsx:94-316), apart from the colour thresholds and the preview. The `...` always appended after the preview is not modelled.
- `Date.now()` and `toLocaleString()`: the timestamp is the parameter `now`. Whether the clock moves forward is a hypothesis of `LatestFirstByTime`, not a fact.
- `score * 10` for the progress value: scores are `real`s used only in comparisons, with no floating-point arithmetic. Scores that are missing or not numbers in the returned JSON are not modelled.
- Overlapping submits and the disabled button while loading: each `AnalyzeCode` is one atomic step. The `loading = true` state between sending the request and the reply is therefore not observable in the model.
- The fixed list of languages in the selector (app/page.tsx:43-50): the endpoint does not enforce it, so `SelectLanguage` accepts any string.
- JavaScript strings are UTF-16 code units, but `string` here is a sequence of Unicode scalar values. `Preview` counts characters, while `slice(0, 200)` counts code units and can split a surrogate pair.
