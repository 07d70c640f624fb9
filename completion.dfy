/** The completion client `call_aipipe_api` (main.py:47-108): a bounded
    retry loop with exponential back-off. Each HTTP attempt is an input
    reply; the sleeps are returned as a log instead of being performed. */
module Completion {
  import opened Wrappers
  import opened Errors
  import opened Backoff

  /** The default `max_retries` (main.py:47). */
  const DefaultRetries := 3

  /** One element of an `output[0]["content"]` list; `text` is `None` when
      the key is absent. */
  datatype ContentPart = ContentPart(text: Option<string>)

  /** One element of `output`; `content` is `None` when the key is absent. */
  datatype OutputItem = OutputItem(content: Option<seq<ContentPart>>)

  /** One element of `choices`; `messageContent` is `None` when
      `["message"]["content"]` does not exist. */
  datatype Choice = Choice(messageContent: Option<string>)

  /** A body that `response.json()` decodes to a JSON object: the `output`
      and `choices` lists when present, and `str(result)` for the fallback. */
  datatype CompletionBody = CompletionBody(
    output: Option<seq<OutputItem>>,
    choices: Option<seq<Choice>>,
    rendered: string)

  /** What one `requests.post` attempt gives: an exception, or a status code
      with a body that is `None` when `response.json()` fails or decodes to
      something other than an object (`null`, a list, a string, a number).
      Such a value has no `keys()`, so on a 200 the fallback at main.py:96
      raises and the attempt fails. */
  datatype Reply =
    | Raised
    | Answered(status: int, body: Option<CompletionBody>)

  /** `not AIPIPE_API_KEY`: unset or empty. */
  predicate KeyMissing(apiKey: Option<string>) {
    apiKey.None? || apiKey.value == ""
  }

  /** The text taken from a 200 body (main.py:84-97), or `None` when the
      parsing raises (the chat format without `message.content`). */
  function ExtractText(body: CompletionBody, useOpenAi: bool): Option<string> {
    if useOpenAi then
      if body.output.Some? && |body.output.value| > 0
         && body.output.value[0].content.Some? && |body.output.value[0].content.value| > 0
      then Some(body.output.value[0].content.value[0].text.GetOr(""))
      else Some(body.rendered)
    else if body.choices.Some? && |body.choices.value| > 0 then
      body.choices.value[0].messageContent
    else
      Some(body.rendered)
  }

  /** The text an attempt returns, or `None` when the attempt fails: an
      exception, a status other than 200, an undecodable body or a parse
      error. */
  function AttemptText(reply: Reply, useOpenAi: bool): Option<string> {
    match reply
    case Raised => None
    case Answered(status, body) =>
      if status == 200 && body.Some? then ExtractText(body.value, useOpenAi) else None
  }

  /** A 200 answer whose body decodes to a JSON object always yields a text
      in the responses format; in the chat format the only such failing 200
      is one without `message.content`. */
  lemma ResponsesFormatNeverFailsOn200(body: CompletionBody)
    ensures ExtractText(body, true).Some?
    ensures ExtractText(body, false).None? <==>
      body.choices.Some? && |body.choices.value| > 0 && body.choices.value[0].messageContent.None?
  {
  }

  /** Attempt `k` is the first of `replies` that yields a text. */
  predicate FirstAnswerAt(replies: seq<Reply>, useOpenAi: bool, k: nat)
    requires k < |replies|
  {
    AttemptText(replies[k], useOpenAi).Some? &&
    forall j :: 0 <= j < k ==> AttemptText(replies[j], useOpenAi).None?
  }

  /** At most one attempt is the first to yield a text. */
  lemma FirstAnswerUnique(replies: seq<Reply>, useOpenAi: bool, i: nat, j: nat)
    requires i < |replies| && j < |replies|
    requires FirstAnswerAt(replies, useOpenAi, i) && FirstAnswerAt(replies, useOpenAi, j)
    ensures i == j
  {
  }

  /** The first of the first `n` attempts that yields a text, when one does. */
  function FirstAnswer(replies: seq<Reply>, useOpenAi: bool, n: nat): (k: nat)
    requires n <= |replies|
    requires exists k :: 0 <= k < n && AttemptText(replies[k], useOpenAi).Some?
    ensures k < n && FirstAnswerAt(replies, useOpenAi, k)
  {
    if exists k :: 0 <= k < n - 1 && AttemptText(replies[k], useOpenAi).Some? then
      FirstAnswer(replies, useOpenAi, n - 1)
    else
      n - 1
  }

  /** Calls the completion endpoint: a missing key fails before any attempt;
      otherwise at most `maxRetries` attempts, returning the text of the
      first that succeeds, sleeping 1, 2, 4, … units after each failed
      attempt but the last, and failing once every attempt has failed. */
  method CallCompletion(apiKey: Option<string>, useOpenAi: bool, maxRetries: nat, replies: seq<Reply>)
    returns (r: Result<string, Error>, attempts: nat, sleeps: seq<nat>)
    requires |replies| >= maxRetries
    ensures KeyMissing(apiKey) ==> r == Failure(MissingApiKey) && attempts == 0
    ensures !KeyMissing(apiKey) ==> attempts <= maxRetries
    ensures r.Success? <==>
      !KeyMissing(apiKey) && exists k :: 0 <= k < maxRetries && AttemptText(replies[k], useOpenAi).Some?
    ensures r.Success? ==>
      1 <= attempts && AttemptText(replies[attempts - 1], useOpenAi) == Some(r.value) &&
      forall k :: 0 <= k < attempts - 1 ==> AttemptText(replies[k], useOpenAi).None?
    ensures r.Failure? && !KeyMissing(apiKey) ==>
      attempts == maxRetries && r.error == CompletionUnavailable(maxRetries)
    ensures sleeps == Delays(if attempts == 0 then 0 else attempts - 1)
  {
    if KeyMissing(apiKey) {
      return Failure(MissingApiKey), 0, [];
    }
    sleeps := [];
    var attempt := 0;
    while attempt < maxRetries
      invariant 0 <= attempt <= maxRetries
      invariant forall k :: 0 <= k < attempt ==> AttemptText(replies[k], useOpenAi).None?
      invariant sleeps == Delays(if attempt == 0 then 0 else if attempt < maxRetries then attempt else attempt - 1)
    {
      match replies[attempt] {
        case Answered(status, body) =>
          if status == 200 && body.Some? {
            var text := ExtractText(body.value, useOpenAi);
            if text.Some? {
              return Success(text.value), attempt + 1, sleeps;
            }
          }
        case Raised =>
      }
      if attempt < maxRetries - 1 {
        DelaysGrow(attempt);
        sleeps := sleeps + [Pow2(attempt)];
      }
      attempt := attempt + 1;
    }
    return Failure(CompletionUnavailable(maxRetries)), maxRetries, sleeps;
  }
}
