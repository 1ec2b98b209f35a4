/** The `update_hypotheses` tool: turns an analysis verdict into an update record with a status picked from the
    confidence score, hands it to the row store, and reports the outcome as text. */
module UpdateTool {
  import opened Results
  import opened Text

  /** The three values of the `Status` column. */
  datatype Status = Validated | NotValidated | NeedsMoreData

  function StatusName(s: Status): string {
    match s
    case Validated => "VALIDATED"
    case NotValidated => "NOT_VALIDATED"
    case NeedsMoreData => "NEEDS_MORE_DATA"
  }

  /** `HypothesisUpdate`: the optional `status` is absent unless a threshold was crossed. */
  datatype HypothesisUpdate = HypothesisUpdate(
    confidence: string,
    confidencePercent: real,
    quote1: string,
    quote2: string,
    status: Option<Status>)

  /** Scores at or above this are validated. */
  const ValidatedAt: real := 80.0

  /** Scores below this are not validated. */
  const NotValidatedBelow: real := 50.0

  /** The status the thresholds pick: validated from 80 up, not validated below 50, none in between. */
  function PickStatus(score: real): (r: Option<Status>)
    ensures r == Some(Validated) <==> score >= ValidatedAt
    ensures r == Some(NotValidated) <==> score < NotValidatedBelow
    ensures r.None? <==> NotValidatedBelow <= score < ValidatedAt
    ensures r != Some(NeedsMoreData)
  {
    if score >= ValidatedAt then Some(Validated)
    else if score < NotValidatedBelow then Some(NotValidated)
    else None
  }

  /** `relevant_quotes[i] || ''`: the quote at position `i`, or the empty text when there is none. */
  function QuoteAt(quotes: seq<string>, i: nat): (r: string)
    ensures i < |quotes| ==> r == quotes[i]
    ensures i >= |quotes| ==> r == ""
  {
    if i < |quotes| && quotes[i] != "" then quotes[i] else ""
  }

  /** The update record the tool builds from its arguments. */
  function BuildUpdate(score: real, reasoning: string, quotes: seq<string>): (r: HypothesisUpdate)
    ensures r.confidence == reasoning && r.confidencePercent == score
    ensures r.quote1 == (if |quotes| > 0 then quotes[0] else "")
    ensures r.quote2 == (if |quotes| > 1 then quotes[1] else "")
    ensures r.status == PickStatus(score)
  {
    HypothesisUpdate(reasoning, score, QuoteAt(quotes, 0), QuoteAt(quotes, 1), PickStatus(score))
  }

  /** `updates.status || 'unchanged'`. */
  function StatusText(status: Option<Status>): (r: string)
    ensures status.Some? ==> r == StatusName(status.value)
  {
    match status
    case None => "unchanged"
    case Some(s) => StatusName(s)
  }

  /** The tool's reply: its text and whether it reports an error. */
  datatype ToolResponse = ToolResponse(text: string, isError: bool)

  /** `updateHypotheses`. The row store's write is abstract: `storeError` is the message of the error it raised,
      if any. The status recommendation is accepted and not used. */
  function UpdateHypotheses(hypothesisId: string, score: real, reasoning: string, quotes: seq<string>,
                            statusRecommendation: string, storeError: Option<string>): (r: ToolResponse)
    ensures r.isError <==> storeError.Some?
  {
    var updates := BuildUpdate(score, reasoning, quotes);
    match storeError
    case Some(message) => ToolResponse("\U{274C} Error updating hypothesis: " + message, true)
    case None =>
      ToolResponse("\U{2705} Updated hypothesis " + hypothesisId + ": " + NumberText(score) + "% confidence, status: "
                   + StatusText(updates.status), false)
  }

  /** The reported status is `unchanged` exactly for scores from 50 up to, not including, 80. */
  lemma UnchangedStatusBand(score: real)
    ensures StatusText(BuildUpdate(score, "", []).status) == "unchanged" <==> NotValidatedBelow <= score < ValidatedAt
  {
    var s := PickStatus(score);
    if s.Some? {
      assert StatusName(s.value) != "unchanged";
    }
  }

  /** A status never moves down as the score rises: not validated, then no status, then validated. */
  function Rank(status: Option<Status>): nat {
    match status
    case Some(NotValidated) => 0
    case None => 1
    case Some(NeedsMoreData) => 1
    case Some(Validated) => 2
  }

  lemma StatusMonotone(a: real, b: real)
    requires a <= b
    ensures Rank(PickStatus(a)) <= Rank(PickStatus(b))
  {
  }

  /** The built record depends on the score, the reasoning and the first two quotes alone. */
  lemma BuildUpdateUsesTwoQuotes(score: real, reasoning: string, q1: seq<string>, q2: seq<string>)
    requires |q1| >= 2 && |q2| >= 2 && q1[..2] == q2[..2]
    ensures BuildUpdate(score, reasoning, q1) == BuildUpdate(score, reasoning, q2)
  {
    assert q1[0] == q1[..2][0] && q2[0] == q2[..2][0];
    assert q1[1] == q1[..2][1] && q2[1] == q2[..2][1];
  }

  /** The status recommendation never changes the reply. */
  lemma RecommendationIgnored(hypothesisId: string, score: real, reasoning: string, quotes: seq<string>,
                              rec1: string, rec2: string, storeError: Option<string>)
    ensures UpdateHypotheses(hypothesisId, score, reasoning, quotes, rec1, storeError)
         == UpdateHypotheses(hypothesisId, score, reasoning, quotes, rec2, storeError)
  {
  }

  /** A successful reply names the hypothesis, the score and the picked status. */
  lemma SuccessReply(hypothesisId: string, score: real, reasoning: string, quotes: seq<string>, rec: string)
    ensures var r := UpdateHypotheses(hypothesisId, score, reasoning, quotes, rec, None);
      && !r.isError
      && r.text == "\U{2705} Updated hypothesis " + hypothesisId + ": " + NumberText(score) + "% confidence, status: "
                   + (if score >= ValidatedAt then "VALIDATED" else if score < NotValidatedBelow then "NOT_VALIDATED" else "unchanged")
  {
  }
}
