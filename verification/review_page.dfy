/** The review page: the component state, the submit handler `analyzeCode`, the
    "Load This Code" history action, the score colouring and the history preview.

    `analyzeCode` is one atomic step here: the outcome of its `fetch` and the value of
    `Date.now()` are parameters. */
module ReviewPage {
  import opened JsRuntime
  import ReviewRoute

  datatype Complexity = Complexity(score: real, details: string)
  datatype Performance = Performance(score: real, suggestions: seq<string>)

  /** The review the endpoint returns. */
  datatype CodeReview = CodeReview(
    score: real,
    suggestions: seq<string>,
    security: seq<string>,
    bestPractices: string,
    complexity: Complexity,
    performance: Performance)

  datatype HistoryEntry = HistoryEntry(timestamp: int, code: string, review: CodeReview)

  /** The JSON body the page posts to the endpoint. */
  datatype ReviewRequest = ReviewRequest(code: string, language: string)

  /** How the request to the endpoint ended: a 2xx response with its decoded body, a
      non-2xx response, or an exception (network failure, undecodable body). */
  datatype FetchOutcome = Ok(data: CodeReview) | NotOk | Exception

  const HistoryLimit: nat := 5
  const PreviewLength: nat := 200
  const EmptyInputMessage: string := "Please enter some code to review"
  const FailureMessage: string := "Failed to analyze code. Please try again."
  const DefaultLanguage: string := "javascript"

  /** The input counts as empty when `code.trim()` is the empty string. */
  predicate IsBlank(code: string): (b: bool)
    ensures b <==> forall k | 0 <= k < |code| :: IsWhitespace(code[k])
  {
    TrimEmptyIff(code);
    Trim(code) == ""
  }

  // ---------------------------------------------------------------- history

  /** The updater passed to setHistory: the new entry in front, cut to the limit. The
      oldest entries are the ones that drop off. */
  function PushHistory(entry: HistoryEntry, prev: seq<HistoryEntry>): (r: seq<HistoryEntry>)
    ensures |r| == Min(HistoryLimit, |prev| + 1) && r[0] == entry
    ensures r[1..] == prev[..Min(HistoryLimit - 1, |prev|)]
  {
    var r := Take([entry] + prev, HistoryLimit);
    assert r[1..] == prev[..Min(HistoryLimit - 1, |prev|)];
    r
  }

  /** The n most recent entries of a log kept oldest first, newest first. */
  function LatestFirst(log: seq<HistoryEntry>, n: nat): (r: seq<HistoryEntry>)
    ensures |r| == Min(n, |log|)
    ensures forall k | 0 <= k < |r| :: r[k] == log[|log| - 1 - k]
  {
    seq(Min(n, |log|), k requires 0 <= k < Min(n, |log|) => log[|log| - 1 - k])
  }

  /** Pushing an entry onto the newest-first view of a log gives the view of the log with
      that entry appended: the history is always the latest reviews, newest first. */
  lemma PushHistoryKeepsLatest(log: seq<HistoryEntry>, entry: HistoryEntry)
    ensures PushHistory(entry, LatestFirst(log, HistoryLimit)) == LatestFirst(log + [entry], HistoryLimit)
  {
  }

  /** When the clock never runs backwards across submissions, the history is ordered by
      timestamp, newest first. */
  lemma LatestFirstByTime(log: seq<HistoryEntry>, n: nat)
    requires forall i, j | 0 <= i < j < |log| :: log[i].timestamp <= log[j].timestamp
    ensures forall i, j | 0 <= i < j < |LatestFirst(log, n)| ::
      LatestFirst(log, n)[i].timestamp >= LatestFirst(log, n)[j].timestamp
  {
  }

  // ---------------------------------------------------------------- the component

  class CodeReviewer {
    var code: string
    var loading: bool
    var review: Option<CodeReview>
    var error: string
    var history: seq<HistoryEntry>
    var selectedLanguage: string

    /** Every review that came back successfully, oldest first. */
    ghost var Reviewed: seq<HistoryEntry>

    /** The history shows the latest successful reviews, newest first, at most five. */
    ghost predicate Valid()
      reads this
    {
      history == LatestFirst(Reviewed, HistoryLimit)
    }

    /** The initial state of the useState hooks. */
    constructor ()
      ensures Valid()
      ensures code == "" && !loading && review == None && error == ""
      ensures history == [] && selectedLanguage == DefaultLanguage && Reviewed == []
    {
      code := "";
      loading := false;
      review := None;
      error := "";
      history := [];
      selectedLanguage := DefaultLanguage;
      Reviewed := [];
    }

    /** The textarea's onChange. */
    method EditCode(text: string)
      requires Valid()
      modifies this
      ensures Valid() && code == text
      ensures loading == old(loading) && review == old(review) && error == old(error)
      ensures history == old(history) && selectedLanguage == old(selectedLanguage)
      ensures Reviewed == old(Reviewed)
    {
      code := text;
    }

    /** The language selector's onChange. */
    method SelectLanguage(language: string)
      requires Valid()
      modifies this
      ensures Valid() && selectedLanguage == language
      ensures code == old(code) && loading == old(loading) && review == old(review)
      ensures error == old(error) && history == old(history) && Reviewed == old(Reviewed)
    {
      selectedLanguage := language;
    }

    /** `analyzeCode`. Returns the body it posted, or None when it posted nothing. */
    method AnalyzeCode(outcome: FetchOutcome, now: int) returns (request: Option<ReviewRequest>)
      requires Valid()
      modifies this
      ensures Valid() && |history| <= HistoryLimit
      ensures code == old(code) && selectedLanguage == old(selectedLanguage)
      // blank input: an error message, no request, nothing else changes
      ensures IsBlank(old(code)) ==>
        request == None && error == EmptyInputMessage &&
        loading == old(loading) && review == old(review) && history == old(history) &&
        Reviewed == old(Reviewed)
      // otherwise one request, and loading is off again at the end
      ensures !IsBlank(old(code)) ==>
        request == Some(ReviewRequest(old(code), old(selectedLanguage))) && !loading
      ensures !IsBlank(old(code)) && outcome.Ok? ==>
        review == Some(outcome.data) && error == "" &&
        Reviewed == old(Reviewed) + [HistoryEntry(now, old(code), outcome.data)] &&
        history == PushHistory(HistoryEntry(now, old(code), outcome.data), old(history))
      ensures !IsBlank(old(code)) && !outcome.Ok? ==>
        error == FailureMessage && review == old(review) && history == old(history) &&
        Reviewed == old(Reviewed)
    {
      var blank := IsBlank(code);
      if blank {
        error := EmptyInputMessage;
        return None;
      }

      loading := true;
      error := "";
      request := Some(ReviewRequest(code, selectedLanguage));
      if outcome.Ok? {
        var entry := HistoryEntry(now, code, outcome.data);
        review := Some(outcome.data);
        RecordReview(entry);
      } else {
        error := FailureMessage;
      }
      loading := false;
    }

    /** The setHistory call of a successful review. */
    method RecordReview(entry: HistoryEntry)
      requires Valid()
      modifies this`history, this`Reviewed
      ensures Valid()
      ensures history == PushHistory(entry, old(history)) && Reviewed == old(Reviewed) + [entry]
    {
      PushHistoryKeepsLatest(Reviewed, entry);
      history := PushHistory(entry, history);
      Reviewed := Reviewed + [entry];
    }

    /** The "Load This Code" button of history entry i. */
    method LoadFromHistory(i: nat)
      requires Valid() && i < |history|
      modifies this
      ensures Valid()
      ensures code == old(history[i].code) && review == Some(old(history[i].review))
      ensures history == old(history) && loading == old(loading) && error == old(error)
      ensures selectedLanguage == old(selectedLanguage) && Reviewed == old(Reviewed)
    {
      code := history[i].code;
      review := Some(history[i].review);
    }
  }

  /** A request the page posts is never turned away by the endpoint's input check as long
      as a language is selected, and the prompt it leads to carries the posted code. */
  lemma PostedRequestAccepted<J>(request: ReviewRequest,
                                 complete: string -> Completion<Option<string>>,
                                 parse: string -> Option<J>)
    requires !IsBlank(request.code) && request.language != ""
    ensures var body := ReviewRoute.RequestBody(Some(request.code), Some(request.language));
      ReviewRoute.Post(Returned(body), complete, parse).sent ==
        Some(ReviewRoute.Prompt(request.language, request.code))
  {
  }

  // ---------------------------------------------------------------- rendering helpers

  /** The three colour bands of a score, split at 8 and at 6. */
  datatype Band = Good | Warning | Bad

  function ScoreBand(score: real): (b: Band)
    ensures b == Good <==> score >= 8.0
    ensures b == Warning <==> 6.0 <= score < 8.0
    ensures b == Bad <==> score < 6.0
  {
    if score >= 8.0 then Good else if score >= 6.0 then Warning else Bad
  }

  /** getSeverityColor: the text colour of a score. */
  function SeverityColor(score: real): (r: string)
    ensures r == "text-green-400" <==> score >= 8.0
    ensures r == "text-yellow-400" <==> 6.0 <= score < 8.0
    ensures r == "text-red-400" <==> score < 6.0
  {
    match ScoreBand(score)
    case Good => "text-green-400"
    case Warning => "text-yellow-400"
    case Bad => "text-red-400"
  }

  /** The background colour of a metric card's progress bar. */
  function ProgressColor(score: real): (r: string)
    ensures r == "#4CAF50" <==> score >= 8.0
    ensures r == "#FFC107" <==> 6.0 <= score < 8.0
    ensures r == "#F44336" <==> score < 6.0
  {
    match ScoreBand(score)
    case Good => "#4CAF50"
    case Warning => "#FFC107"
    case Bad => "#F44336"
  }

  /** The text colour and the progress bar split scores at the same thresholds, and a
      higher score never gets a worse colour. */
  lemma ColoursAgree(a: real, b: real)
    ensures SeverityColor(a) == SeverityColor(b) <==> ProgressColor(a) == ProgressColor(b)
    ensures a <= b && SeverityColor(a) == "text-green-400" ==> SeverityColor(b) == "text-green-400"
    ensures a <= b && SeverityColor(b) == "text-red-400" ==> SeverityColor(a) == "text-red-400"
  {
  }

  /** The code shown for a history entry: its first 200 characters. */
  function Preview(code: string): (r: string)
    ensures |r| == Min(PreviewLength, |code|)
    ensures r <= code
    ensures r == code <==> |code| <= PreviewLength
  {
    Take(code, PreviewLength)
  }
}
