/**
  The content pipeline of `summarise_paper`: up to three attempts to fetch
  and convert the paper's PDF, truncation of the middle of overlong
  content, and a fallback to the title and abstract when nothing was
  fetched. The PDF fetch is a parameter giving the outcome of each attempt;
  the language model that writes the summary is a parameter too.
 */
module Summarisation {
  import opened Strings
  import opened DataModels

  // ---------------------------------------------------------------------------
  // Fetching the PDF

  /** The outcome of one call of `parse_pdf`. */
  datatype FetchOutcome =
    | Fetched(content: string)    // the PDF converted to Markdown
    | HttpStatus(status: int)     // `httpx.HTTPStatusError`
    | ConnectFailure              // `httpx.ConnectError` or `httpx.ConnectTimeout`
    | ConversionFailure           // docling's `ConversionError`
    | OtherFailure                // any other exception, which is not caught

  const NumAttempts := 3

  /** An outcome after which the loop tries again. */
  predicate Retryable(o: FetchOutcome) {
    (o.HttpStatus? && o.status != 403) || o.ConnectFailure?
  }

  /** The fetch loop's result: the content (empty when nothing was
      fetched), the number of attempts made, and whether an uncaught
      exception ended it. */
  datatype FetchRun = FetchRun(content: string, attempts: nat, raised: bool)

  /** The `for` loop from attempt `k` on; `attempt(j)` is the outcome of
      attempt `j`. */
  function FetchFrom(k: nat, attempt: nat -> FetchOutcome): (r: FetchRun)
    requires k <= NumAttempts
    ensures k <= r.attempts <= NumAttempts
    ensures k < NumAttempts ==> k < r.attempts
    ensures forall j :: k <= j < r.attempts - 1 ==> Retryable(attempt(j))
    ensures r.attempts < NumAttempts && k < r.attempts ==> !Retryable(attempt(r.attempts - 1))
    ensures r.raised <==> k < r.attempts && attempt(r.attempts - 1).OtherFailure?
    ensures r.content != "" ==> k < r.attempts && attempt(r.attempts - 1) == Fetched(r.content)
    ensures k < r.attempts && attempt(r.attempts - 1).Fetched? ==> r.content == attempt(r.attempts - 1).content
    decreases NumAttempts - k
  {
    if k == NumAttempts then FetchRun("", k, false)
    else match attempt(k)
      case Fetched(c) => FetchRun(c, k + 1, false)
      case HttpStatus(s) => if s == 403 then FetchRun("", k + 1, false) else FetchFrom(k + 1, attempt)
      case ConnectFailure => FetchFrom(k + 1, attempt)
      case ConversionFailure => FetchRun("", k + 1, false)
      case OtherFailure => FetchRun("", k + 1, true)
  }

  /** The fetch step of `summarise_paper`: no attempt without a URL. */
  function FetchContent(url: string, attempt: nat -> FetchOutcome): (r: FetchRun)
    ensures url == "" ==> r == FetchRun("", 0, false)
    ensures url != "" ==> 1 <= r.attempts <= NumAttempts
  {
    if url == "" then FetchRun("", 0, false) else FetchFrom(0, attempt)
  }

  /** The attempts stop at the first outcome that is not retryable; only a
      run of retryable outcomes uses all three attempts. */
  lemma FetchStopsAtFirstFinal(url: string, attempt: nat -> FetchOutcome, k: nat)
    requires url != "" && k < NumAttempts
    requires !Retryable(attempt(k))
    requires forall j :: 0 <= j < k ==> Retryable(attempt(j))
    ensures FetchContent(url, attempt).attempts == k + 1
  {
  }

  lemma FetchRetriesAll(url: string, attempt: nat -> FetchOutcome)
    requires url != ""
    requires forall j :: 0 <= j < NumAttempts ==> Retryable(attempt(j))
    ensures FetchContent(url, attempt) == FetchRun("", NumAttempts, false)
  {
  }

  // ---------------------------------------------------------------------------
  // Truncation

  const MaxContentLength := 150000
  const HalfLength := MaxContentLength / 2
  const TruncationMarker := "\n\n(...content truncated...)\n\n"

  /** Content longer than the maximum keeps only its first and last
      `HalfLength` characters, with a marker between them. */
  function Truncate(content: string): (r: string)
    ensures |content| <= MaxContentLength ==> r == content
    ensures |content| > MaxContentLength ==>
              && |r| == 2 * HalfLength + |TruncationMarker|
              && r[..HalfLength] == content[..HalfLength]
              && r[HalfLength..HalfLength + |TruncationMarker|] == TruncationMarker
              && r[HalfLength + |TruncationMarker|..] == content[|content| - HalfLength..]
  {
    if |content| > MaxContentLength then
      var r := content[..HalfLength] + TruncationMarker + content[|content| - HalfLength..];
      assert r[HalfLength + |TruncationMarker|..] == content[|content| - HalfLength..];
      r
    else content
  }

  /** Truncating twice is truncating once: a truncated text is over the
      maximum again, and its ends are the original ends. */
  lemma TruncateIdempotent(content: string)
    ensures Truncate(Truncate(content)) == Truncate(content)
  {
    var t := Truncate(content);
    if |content| > MaxContentLength {
      var tt := Truncate(t);
      assert |t| > MaxContentLength;
      assert tt[..HalfLength] == t[..HalfLength];
      assert t[|t| - HalfLength..] == t[HalfLength + |TruncationMarker|..];
      assert tt[HalfLength + |TruncationMarker|..] == t[HalfLength + |TruncationMarker|..];
      assert tt == tt[..HalfLength] + tt[HalfLength..HalfLength + |TruncationMarker|]
                   + tt[HalfLength + |TruncationMarker|..];
      assert t == t[..HalfLength] + t[HalfLength..HalfLength + |TruncationMarker|]
                  + t[HalfLength + |TruncationMarker|..];
    }
  }

  /** Truncation never yields more than the maximum plus the marker, and
      keeps empty content empty. */
  lemma TruncateBounded(content: string)
    ensures |Truncate(content)| <= MaxContentLength + |TruncationMarker|
    ensures Truncate(content) == "" <==> content == ""
  {
  }

  // ---------------------------------------------------------------------------
  // Fallback and the whole pipeline

  const SummaryHeading := "\n\n## Summary\n\n"

  /** Without content, the title as a heading, followed by the abstract
      under its own heading when there is one. */
  function Fallback(content: string, title: string, summary: string): (r: string)
    ensures r != ""
    ensures content != "" ==> r == content
    ensures content == "" && summary == "" ==> r == "# " + title
    ensures content == "" && summary != "" ==> r == "# " + title + SummaryHeading + summary
  {
    if content != "" then content
    else if summary != "" then "# " + title + SummaryHeading + summary
    else "# " + title
  }

  /** The content `summarise_paper` hands to the language model, or `None`
      when an uncaught exception ends the fetch. */
  function PaperContent(paper: Paper, attempt: nat -> FetchOutcome): (r: Option<string>)
    ensures r.None? <==> FetchContent(paper.url, attempt).raised
    ensures r.Some? ==> r.value != ""
  {
    var fetched := FetchContent(paper.url, attempt);
    if fetched.raised then None
    else Some(Fallback(Truncate(fetched.content), paper.title, paper.summary))
  }

  /** Fetched content is never replaced by the fallback; without a URL, or
      when nothing could be fetched, the fallback is used. */
  lemma FetchedContentKept(paper: Paper, attempt: nat -> FetchOutcome)
    ensures var fetched := FetchContent(paper.url, attempt);
            && (!fetched.raised && fetched.content != "" ==>
                  PaperContent(paper, attempt) == Some(Truncate(fetched.content)))
            && (!fetched.raised && fetched.content == "" ==>
                  PaperContent(paper, attempt) == Some(Fallback("", paper.title, paper.summary)))
  {
    var fetched := FetchContent(paper.url, attempt);
    TruncateBounded(fetched.content);
  }

  /** `summarise_paper`: the language model's summary of the content,
      focused on `topic`. */
  function SummarisePaper(paper: Paper, topic: string, attempt: nat -> FetchOutcome,
                          summarise: (string, string) -> string): (r: Option<string>)
    ensures r.None? <==> FetchContent(paper.url, attempt).raised
    ensures r.Some? ==> exists c :: c != "" && PaperContent(paper, attempt) == Some(c) && r.value == summarise(topic, c)
  {
    match PaperContent(paper, attempt)
    case None => None
    case Some(c) => Some(summarise(topic, c))
  }
}
