/** RSSMonitorService: one fetch-and-process attempt, the retry loop around it, and the update of the
    cached feed. The HTTP client is replaced by the outcome each attempt has. */
module Monitor {
  import opened Base
  import opened Strings
  import opened XTree
  import opened Options
  import opened Platform
  import opened FeedRewrite
  import opened Document
  import opened FeedUpdate

  /** The service tries a feed at most this many times per polling cycle. */
  const MaxRetries: nat := 3

  /** What HttpClient.GetStringAsync does on one attempt: returns the body, throws an
      HttpRequestException (with the response status when there was one), is cancelled by the client
      timeout (TaskCanceledException), or throws anything else. */
  datatype FetchOutcome =
    | Fetched(content: string)
    | HttpFailure(status: Option<int>)
    | Canceled
    | Faulted(description: string)

  /** FetchAndProcessFeed: an empty body, malformed XML and a document without a root are errors; otherwise
      the document is processed with the root's default namespace. */
  function FetchAndProcess(outcome: FetchOutcome, options: RSSFilterOptions, P: Platform): (r: Result<seq<Node>>)
    ensures r.Ok? ==> outcome.Fetched? && outcome.content != "" && P.parse(outcome.content).Document?
    ensures outcome.Fetched? && outcome.content == "" ==> r == Err(EmptyContent)
    ensures outcome.Fetched? && outcome.content != "" && P.parse(outcome.content).Malformed? ==> r == Err(XmlError)
  {
    match outcome
    case HttpFailure(status) => Err(HttpRequestError(status))
    case Canceled => Err(TaskCanceled)
    case Faulted(description) => Err(OtherError(description))
    case Fetched(content) =>
      if IsNullOrEmpty(content) then Err(EmptyContent)
      else match P.parse(content)
        case Malformed => Err(XmlError)
        case Document(nodes, declarations) =>
          if !HasRoot(nodes) then Err(MissingRoot)
          else match ProcessFeed(Doc(nodes, Bound(nodes)), declarations, DefaultNamespace(declarations), options, P)
            case Err(e) => Err(e)
            case Ok(d) => Ok(d.nodes)
  }

  /** FetchAndProcessFeed with the document it builds and edits in place. */
  method FetchAndProcessFeed(outcome: FetchOutcome, options: RSSFilterOptions, P: Platform) returns (r: Result<FeedDocument>)
    ensures match FetchAndProcess(outcome, options, P)
      case Ok(nodes) => r.Ok? && fresh(r.value) && r.value.Valid() && r.value.nodes == nodes
      case Err(e) => r == Err(e)
  {
    match outcome
    case HttpFailure(status) => return Err(HttpRequestError(status));
    case Canceled => return Err(TaskCanceled);
    case Faulted(description) => return Err(OtherError(description));
    case Fetched(rssContent) =>
      if IsNullOrEmpty(rssContent) {
        return Err(EmptyContent);
      }
      var parsed := P.parse(rssContent);
      if parsed.Malformed? {
        return Err(XmlError);
      }
      var xmlDoc := new FeedDocument(parsed.nodes, parsed.declarations);
      if !HasRoot(xmlDoc.nodes) {
        return Err(MissingRoot);
      }
      var defaultNamespace := DefaultNamespace(xmlDoc.declarations);
      var o := xmlDoc.ProcessFeed(defaultNamespace, options, P);
      if o.Fail? {
        return Err(o.error);
      }
      r := Ok(xmlDoc);
  }

  /** The errors the retry loop retries: an HTTP status of 500 or more, 408 (Request Timeout), and a
      cancelled request. */
  predicate Retriable(e: Error) {
    || (e.HttpRequestError? && e.status.Some? && (e.status.value >= 500 || e.status.value == 408))
    || e.TaskCanceled?
  }

  /** The exception the loop keeps for a retriable error: a cancellation becomes a TimeoutException that
      names the attempt. */
  function Recorded(e: Error, attempt: nat): Error {
    if e.TaskCanceled? then TimeoutError(attempt) else e
  }

  /** The outcome of the retry loop and how many attempts it made. */
  datatype RetryResult = RetryResult(result: Result<seq<Node>>, attempts: nat)

  /** The retry loop from attempt `attempt` on, given the outcome of every attempt: the first success
      is returned, a non-retriable error is rethrown at once, and after the last attempt the recorded
      retriable error is thrown. */
  function Retry(outcome: nat -> Result<seq<Node>>, attempt: nat): (r: RetryResult)
    requires 1 <= attempt <= MaxRetries
    ensures attempt <= r.attempts <= MaxRetries
    decreases MaxRetries - attempt
  {
    var o := outcome(attempt);
    if o.Ok? || !Retriable(o.error) then RetryResult(o, attempt)
    else if attempt == MaxRetries then RetryResult(Err(Recorded(o.error, attempt)), attempt)
    else Retry(outcome, attempt + 1)
  }

  /** The outcome of each attempt of a polling cycle. */
  function Attempts(fetch: nat -> FetchOutcome, options: RSSFilterOptions, P: Platform): nat -> Result<seq<Node>> {
    (i: nat) => FetchAndProcess(fetch(i), options, P)
  }

  /** Every attempt before the last one the loop makes failed with a retriable error. */
  lemma {:induction false} RetryEarlierAttemptsRetriable(outcome: nat -> Result<seq<Node>>, attempt: nat)
    requires 1 <= attempt <= MaxRetries
    ensures forall i :: attempt <= i < Retry(outcome, attempt).attempts ==>
      outcome(i).Err? && Retriable(outcome(i).error)
    decreases MaxRetries - attempt
  {
    var o := outcome(attempt);
    if !(o.Ok? || !Retriable(o.error)) && attempt < MaxRetries {
      RetryEarlierAttemptsRetriable(outcome, attempt + 1);
    }
  }

  /** How the loop ends: with the last attempt's success, with its non-retriable error, or, when every
      attempt failed in a retriable way, after all three attempts with the last error as recorded. */
  lemma {:induction false} RetryEnds(outcome: nat -> Result<seq<Node>>, attempt: nat)
    requires 1 <= attempt <= MaxRetries
    ensures var r := Retry(outcome, attempt);
      var last := outcome(r.attempts);
      && (last.Ok? ==> r.result == last)
      && (last.Err? && !Retriable(last.error) ==> r.result == last)
      && (last.Err? && Retriable(last.error) ==> r.attempts == MaxRetries && r.result == Err(Recorded(last.error, MaxRetries)))
    decreases MaxRetries - attempt
  {
    var o := outcome(attempt);
    if !(o.Ok? || !Retriable(o.error)) && attempt < MaxRetries {
      RetryEnds(outcome, attempt + 1);
    }
  }

  /** The loop succeeds exactly when one of the three attempts succeeds before any non-retriable error. */
  lemma RetrySucceeds(outcome: nat -> Result<seq<Node>>)
    ensures Retry(outcome, 1).result.Ok? <==>
      exists n :: 1 <= n <= MaxRetries && outcome(n).Ok?
        && forall i :: 1 <= i < n ==> outcome(i).Err? && Retriable(outcome(i).error)
  {
    var r := Retry(outcome, 1);
    RetryEarlierAttemptsRetriable(outcome, 1);
    RetryEnds(outcome, 1);
    if exists n :: 1 <= n <= MaxRetries && outcome(n).Ok? && forall i :: 1 <= i < n ==> outcome(i).Err? && Retriable(outcome(i).error) {
      var n :| 1 <= n <= MaxRetries && outcome(n).Ok? && forall i :: 1 <= i < n ==> outcome(i).Err? && Retriable(outcome(i).error);
      assert n == r.attempts;
    }
  }

  /** FetchAndProcessFeedWithRetry. Besides the outcome and the number of attempts it counts the waits
      between attempts (Task.Delay of the retry delay). */
  method FetchAndProcessFeedWithRetry(fetch: nat -> FetchOutcome, options: RSSFilterOptions, P: Platform)
    returns (r: Result<FeedDocument>, attempts: nat, delays: nat)
    ensures var run := Retry(Attempts(fetch, options, P), 1);
      && attempts == run.attempts && delays == attempts - 1
      && match run.result
         case Ok(nodes) => r.Ok? && fresh(r.value) && r.value.Valid() && r.value.nodes == nodes
         case Err(e) => r == Err(e)
  {
    ghost var outcome := Attempts(fetch, options, P);
    attempts := 0;
    delays := 0;
    var lastException: Option<Error> := None;
    while attempts < MaxRetries
      invariant attempts <= MaxRetries
      invariant delays == (if attempts < MaxRetries then attempts else MaxRetries - 1)
      invariant attempts == 0 ==> lastException == None
      invariant 0 < attempts ==> (outcome(attempts).Err? && Retriable(outcome(attempts).error)
        && lastException == Some(Recorded(outcome(attempts).error, attempts)))
      invariant attempts < MaxRetries ==> Retry(outcome, 1) == Retry(outcome, attempts + 1)
      invariant attempts == MaxRetries ==> Retry(outcome, 1) == RetryResult(Err(lastException.value), attempts)
    {
      attempts := attempts + 1;
      var result := FetchAndProcessFeed(fetch(attempts), options, P);
      assert outcome(attempts) == FetchAndProcess(fetch(attempts), options, P);
      if result.Ok? {
        return result, attempts, delays;
      }
      var e := result.error;
      if e.HttpRequestError? && e.status.Some? && (e.status.value >= 500 || e.status.value == 408) {
        lastException := Some(e);
        if attempts < MaxRetries {
          delays := delays + 1;
        }
      } else if e.TaskCanceled? {
        lastException := Some(TimeoutError(attempts));
        if attempts < MaxRetries {
          delays := delays + 1;
        }
      } else {
        return Err(e), attempts, delays;
      }
    }
    r := Err(if lastException.Some? then lastException.value else RetriesExhausted);
  }

  /** UpdateCachedFeed: the processed feed, serialized, replaces the cached one only when the retry
      loop succeeds; on failure the cache keeps what it had and the error is rethrown. `now` stands for
      DateTime.Now. */
  method UpdateCachedFeed(cache: RSSFeedUpdate, fetch: nat -> FetchOutcome, options: RSSFilterOptions, P: Platform,
                          now: int) returns (o: Outcome)
    modifies cache
    ensures match Retry(Attempts(fetch, options, P), 1).result
      case Ok(nodes) => o == Pass && cache.latestFeed == P.serialize(nodes) && cache.lastUpdated == now
      case Err(e) => o == Fail(e) && cache.latestFeed == old(cache.latestFeed) && cache.lastUpdated == old(cache.lastUpdated)
  {
    var processedFeed, attempts, delays := FetchAndProcessFeedWithRetry(fetch, options, P);
    if processedFeed.Err? {
      return Fail(processedFeed.error);
    }
    cache.UpdateFeed(P.serialize(processedFeed.value.nodes), now);
    o := Pass;
  }
}
