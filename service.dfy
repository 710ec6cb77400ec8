/** `process_text` and `get_history`: the request handler behind POST /process
    and the in-memory history behind GET /history. The three provider calls
    are not modelled; their outcomes are an input (`Replies`), each either the
    raw reply text or a failed call. */
module Service {
  import opened Text
  import opened Parsers

  datatype Option<T> = None | Some(value: T)

  /** The body of a POST /process request. */
  datatype TextRequest = TextRequest(text: string)

  /** One processed text, as answered and as kept in the history. */
  datatype ProcessedText = ProcessedText(
    originalText: string,
    summary: string,
    keywords: seq<string>,
    sentiment: string)

  /** What the provider answered to the summary, keyword and sentiment
      prompts, in that order; `None` is a call that raised. */
  datatype Replies = Replies(
    summary: Option<string>,
    keywords: Option<string>,
    sentiment: Option<string>)

  datatype Step = SummaryStep | KeywordsStep | SentimentStep

  datatype Error =
    | BadRequest(status: nat, detail: string)
    | ProviderError(step: Step)

  datatype Result<T> = Success(value: T) | Failure(error: Error)

  /** The HTTP 400 answer to a blank text. */
  const EmptyTextError: Error := BadRequest(400, "Text cannot be empty.")

  /** What every record built by a successful request looks like: a
      non-blank original text, a stripped summary, clean keywords and a
      capitalized, stripped sentiment. */
  predicate WellFormed(p: ProcessedText) {
    && !AllSpace(p.originalText)
    && IsTrimmed(p.summary)
    && (forall k | k in p.keywords :: k != [] && IsTrimmed(k) && ',' !in k)
    && IsTrimmed(p.sentiment)
    && (p.sentiment == [] || !IsLower(p.sentiment[0]))
    && (forall i | 1 <= i < |p.sentiment| :: !IsUpper(p.sentiment[i]))
  }

  /** The answer of `process_text`. A blank text is refused before any
      provider call; otherwise the steps run in order and the first failed
      call aborts the rest. A success echoes the text unchanged and carries
      the three post-processed replies. */
  function HandleRequest(request: TextRequest, replies: Replies): (r: Result<ProcessedText>)
    ensures r.Success? <==>
              && !AllSpace(request.text)
              && replies.summary.Some? && replies.keywords.Some? && replies.sentiment.Some?
    ensures AllSpace(request.text) ==> r == Failure(EmptyTextError)
    ensures !AllSpace(request.text) && replies.summary.None? ==>
              r == Failure(ProviderError(SummaryStep))
    ensures !AllSpace(request.text) && replies.summary.Some? && replies.keywords.None? ==>
              r == Failure(ProviderError(KeywordsStep))
    ensures !AllSpace(request.text) && replies.summary.Some? && replies.keywords.Some?
              && replies.sentiment.None? ==>
              r == Failure(ProviderError(SentimentStep))
    ensures r.Success? ==>
              && r.value.originalText == request.text
              && r.value.summary == Summarize(replies.summary.value)
              && r.value.keywords == ParseKeywords(replies.keywords.value)
              && r.value.sentiment == NormalizeSentiment(replies.sentiment.value)
              && WellFormed(r.value)
  {
    StripEmptyIff(request.text);
    if Strip(request.text) == [] then Failure(EmptyTextError)
    else if replies.summary.None? then Failure(ProviderError(SummaryStep))
    else if replies.keywords.None? then Failure(ProviderError(KeywordsStep))
    else if replies.sentiment.None? then Failure(ProviderError(SentimentStep))
    else
      Success(ProcessedText(
        request.text,
        Summarize(replies.summary.value),
        ParseKeywords(replies.keywords.value),
        NormalizeSentiment(replies.sentiment.value)))
  }

  /** One POST /process call: the request and what the provider answered. */
  datatype Call = Call(request: TextRequest, replies: Replies)

  function Outcome(c: Call): Result<ProcessedText> {
    HandleRequest(c.request, c.replies)
  }

  /** The values of the successful results, in order. */
  function Kept<T>(results: seq<Result<T>>): (values: seq<T>)
    ensures |values| <= |results|
    ensures forall v | v in values :: Success(v) in results
  {
    if results == [] then []
    else
      var init, last := results[..|results| - 1], results[|results| - 1];
      assert forall x | x in init :: x in results;
      Kept(init) + if last.Success? then [last.value] else []
  }

  /** When every result is a success, all of them are kept, in order. */
  lemma {:induction false} KeptAllSucceed<T>(results: seq<Result<T>>)
    requires forall i | 0 <= i < |results| :: results[i].Success?
    ensures |Kept(results)| == |results|
    ensures forall i | 0 <= i < |results| :: Kept(results)[i] == results[i].value
  {
    if results != [] {
      var init := results[..|results| - 1];
      KeptAllSucceed(init);
    }
  }

  /** The result of every call, in order. */
  function Outcomes(calls: seq<Call>): (results: seq<Result<ProcessedText>>)
    ensures |results| == |calls|
    ensures forall i | 0 <= i < |calls| :: results[i] == Outcome(calls[i])
  {
    seq(|calls|, i requires 0 <= i < |calls| => Outcome(calls[i]))
  }

  /** The records that a sequence of calls leaves in the history: the result
      of each successful call, in the order of the calls. Each is well
      formed. */
  function Successes(calls: seq<Call>): (records: seq<ProcessedText>)
    ensures |records| <= |calls|
    ensures forall p | p in records :: WellFormed(p)
  {
    var results := Outcomes(calls);
    assert forall r | r in results :: r.Success? ==> WellFormed(r.value);
    Kept(results)
  }

  /** One more call appends its record when it succeeds and nothing
      otherwise. */
  lemma SuccessesSnoc(calls: seq<Call>, c: Call)
    ensures Successes(calls + [c]) ==
              Successes(calls) + if Outcome(c).Success? then [Outcome(c).value] else []
  {
    var all := Outcomes(calls + [c]);
    assert all[..|calls|] == Outcomes(calls);
  }

  /** After N calls that all succeed, the history holds exactly N records,
      the i-th being the result of the i-th call. */
  lemma SuccessesAllSucceed(calls: seq<Call>)
    requires forall i | 0 <= i < |calls| :: Outcome(calls[i]).Success?
    ensures |Successes(calls)| == |calls|
    ensures forall i | 0 <= i < |calls| :: Successes(calls)[i] == Outcome(calls[i]).value
  {
    KeptAllSucceed(Outcomes(calls));
  }

  /** Calls that are refused or whose provider step fails leave no record:
      every record is the result of a successful call, and its original
      text is that call's request text. */
  lemma SuccessesFromCalls(calls: seq<Call>, p: ProcessedText)
    requires p in Successes(calls)
    ensures exists i | 0 <= i < |calls| ::
              Outcome(calls[i]) == Success(p) && calls[i].request.text == p.originalText
  {
    var results := Outcomes(calls);
    assert Success(p) in results;
    var i :| 0 <= i < |results| && results[i] == Success(p);
    var r := HandleRequest(calls[i].request, calls[i].replies);
    assert r == Success(p);
    assert calls[i].request.text == p.originalText;
  }

  /** The in-memory history, `history_storage`. It only ever grows, by one
      record per successful call. */
  class History {
    var records: seq<ProcessedText>
    /** Every call handled so far, for the specification only. */
    ghost var calls: seq<Call>

    ghost predicate Valid()
      reads this
    {
      records == Successes(calls)
    }

    constructor ()
      ensures Valid()
      ensures records == [] && calls == []
    {
      records := [];
      calls := [];
    }

    /** POST /process: validate, run the three steps in order, and append
        the record only once all three have succeeded. */
    method Process(request: TextRequest, replies: Replies) returns (r: Result<ProcessedText>)
      requires Valid()
      modifies this
      ensures Valid()
      ensures r == HandleRequest(request, replies)
      ensures calls == old(calls) + [Call(request, replies)]
      ensures records == if r.Success? then old(records) + [r.value] else old(records)
    {
      SuccessesSnoc(calls, Call(request, replies));
      calls := calls + [Call(request, replies)];
      if Strip(request.text) == [] {
        r := Failure(EmptyTextError);
        return;
      }
      if replies.summary.None? {
        r := Failure(ProviderError(SummaryStep));
        return;
      }
      var summary := Summarize(replies.summary.value);
      if replies.keywords.None? {
        r := Failure(ProviderError(KeywordsStep));
        return;
      }
      var keywords := ParseKeywords(replies.keywords.value);
      if replies.sentiment.None? {
        r := Failure(ProviderError(SentimentStep));
        return;
      }
      var sentiment := NormalizeSentiment(replies.sentiment.value);
      var processed := ProcessedText(request.text, summary, keywords, sentiment);
      records := records + [processed];
      r := Success(processed);
    }

    /** GET /history: every record, in the order it was appended. */
    method GetHistory() returns (h: seq<ProcessedText>)
      requires Valid()
      ensures h == records
      ensures forall p | p in h :: WellFormed(p)
    {
      h := records;
    }
  }
}
