/** `fetchWithRetry` of lib/scraper.ts: one GET per attempt, a 404 thrown at
    once, any other failure retried after a growing pause. */
module Fetcher {
  import opened Wrappers
  import opened Dom

  const DEFAULT_RETRIES: nat := 3
  const BACKOFF_STEP_MS: nat := 1000

  /** What one GET returns: a response with its status and parsed body, or a
      network-level failure. */
  datatype Outcome = Response(status: int, page: Document) | NetworkError

  /** The network: the outcomes successive attempts on a URL meet. Every call
      of the fetcher replays the list from its start; an attempt past its end,
      or on a URL the map lacks, fails at the network level. */
  type Web = map<string, seq<Outcome>>

  datatype FetchError = NotFound | HttpError(status: int) | NetworkFailure | RetriesExhausted

  function OutcomesOf(web: Web, url: string): seq<Outcome> {
    if url in web then web[url] else []
  }

  function AttemptOutcome(outcomes: seq<Outcome>, i: nat): Outcome {
    if i < |outcomes| then outcomes[i] else NetworkError
  }

  /** One attempt: a 404 is the not-found error, any other status outside
      200-299 an HTTP error, a network failure its own error. */
  function Attempt(o: Outcome): Result<Document, FetchError> {
    match o
    case NetworkError => Failure(NetworkFailure)
    case Response(status, page) =>
      if status == 404 then Failure(NotFound)
      else if !(200 <= status <= 299) then Failure(HttpError(status))
      else Success(page)
  }

  /** Failures other than not-found are retried. */
  predicate Retryable(r: Result<Document, FetchError>) {
    r.Failure? && r.error != NotFound
  }

  /** The result of the retry loop and the number of attempts it made. */
  datatype Run = Run(result: Result<Document, FetchError>, attempts: nat)

  /** The retry loop from attempt `i` on. */
  function RetryFrom(outcomes: seq<Outcome>, retries: nat, i: nat): Run
    decreases retries - i
  {
    if retries <= i then
      Run(Failure(RetriesExhausted), i)
    else
      var r := Attempt(AttemptOutcome(outcomes, i));
      if !Retryable(r) || i == retries - 1 then Run(r, i + 1) else RetryFrom(outcomes, retries, i + 1)
  }

  function Retry(outcomes: seq<Outcome>, retries: nat): Run {
    RetryFrom(outcomes, retries, 0)
  }

  /** The page a URL yields with the default budget of attempts. */
  function Fetch(web: Web, url: string): Result<Document, FetchError> {
    Retry(OutcomesOf(web, url), DEFAULT_RETRIES).result
  }

  /** What the retry loop with the default budget yields for a URL is that
      URL's fetch result. */
  lemma RetryRunIsFetch(web: Web, url: string, result: Result<Document, FetchError>, attempts: nat)
    requires Run(result, attempts) == Retry(OutcomesOf(web, url), DEFAULT_RETRIES)
    ensures result == Fetch(web, url)
  {
  }

  /** The pauses made before attempts 2..attempts: `1000 * (i + 1)` ms before
      attempt i + 2. */
  function Backoff(attempts: nat): seq<nat> {
    seq(if attempts == 0 then 0 else attempts - 1, j requires 0 <= j => BACKOFF_STEP_MS * (j + 1))
  }

  /** The back-off grows linearly: one pause fewer than attempts, each pause
      one step longer than the one before it. */
  lemma BackoffGrows(attempts: nat)
    ensures |Backoff(attempts)| == if attempts == 0 then 0 else attempts - 1
    ensures |Backoff(attempts)| > 0 ==> Backoff(attempts)[0] == BACKOFF_STEP_MS
    ensures forall j :: 0 < j < |Backoff(attempts)| ==> Backoff(attempts)[j] == Backoff(attempts)[j - 1] + BACKOFF_STEP_MS
  {
  }

  /** The retry loop: attempts are made in order until one succeeds, one is
      not-found, or the budget is spent, pausing between attempts. The pauses
      are returned, not slept. */
  method FetchWithRetry(web: Web, url: string, retries: nat) returns (result: Result<Document, FetchError>, attempts: nat, delays: seq<nat>)
    ensures Run(result, attempts) == Retry(OutcomesOf(web, url), retries)
    ensures delays == Backoff(attempts)
  {
    var outcomes := OutcomesOf(web, url);
    delays := [];
    var i: nat := 0;
    while i < retries
      invariant i <= retries && (i == 0 || i < retries)
      invariant Retry(outcomes, retries) == RetryFrom(outcomes, retries, i)
      invariant delays == Backoff(i + 1)
    {
      var r := Attempt(AttemptOutcome(outcomes, i));
      if r.Success? {
        return r, i + 1, delays;
      }
      if r.error == NotFound {
        return r, i + 1, delays;
      }
      if i == retries - 1 {
        return r, i + 1, delays;
      }
      delays := delays + [BACKOFF_STEP_MS * (i + 1)];
      i := i + 1;
    }
    return Failure(RetriesExhausted), i, delays;
  }

  /** From attempt `i` on, the loop stops at the first attempt that is not
      retryable or at the last one allowed, and reports that attempt's result. */
  lemma {:induction false} RetryFromCharacterised(outcomes: seq<Outcome>, retries: nat, i: nat)
    requires i < retries
    ensures var run := RetryFrom(outcomes, retries, i);
      && i < run.attempts <= retries
      && run.result == Attempt(AttemptOutcome(outcomes, run.attempts - 1))
      && (forall j :: i <= j < run.attempts - 1 ==> Retryable(Attempt(AttemptOutcome(outcomes, j))))
      && (run.attempts < retries ==> !Retryable(run.result))
    decreases retries - i
  {
    var r := Attempt(AttemptOutcome(outcomes, i));
    if Retryable(r) && i < retries - 1 {
      RetryFromCharacterised(outcomes, retries, i + 1);
    }
  }

  /** The whole retry loop: with no budget nothing is attempted; otherwise
      every attempt but the last was a retryable failure, the result is the
      last attempt's, and the budget is used up only by retryable failures. */
  lemma RetryCharacterised(outcomes: seq<Outcome>, retries: nat)
    ensures var run := Retry(outcomes, retries);
      && (retries == 0 ==> run == Run(Failure(RetriesExhausted), 0))
      && (retries > 0 ==>
            && 1 <= run.attempts <= retries
            && run.result == Attempt(AttemptOutcome(outcomes, run.attempts - 1))
            && (forall j :: 0 <= j < run.attempts - 1 ==> Retryable(Attempt(AttemptOutcome(outcomes, j))))
            && (run.attempts < retries ==> !Retryable(run.result)))
  {
    if retries > 0 {
      RetryFromCharacterised(outcomes, retries, 0);
    }
  }

  /** A 404 is never retried: no attempt follows it, and a not-found result
      comes from the final attempt. */
  lemma NotFoundNeverRetried(outcomes: seq<Outcome>, retries: nat, j: nat)
    requires j < retries && Attempt(AttemptOutcome(outcomes, j)) == Failure(NotFound)
    ensures Retry(outcomes, retries).attempts <= j + 1
  {
    RetryCharacterised(outcomes, retries);
  }

  /** A 404 on the first attempt is the one and only attempt. */
  lemma NotFoundAttemptedOnce(outcomes: seq<Outcome>, retries: nat)
    requires retries > 0 && Attempt(AttemptOutcome(outcomes, 0)) == Failure(NotFound)
    ensures Retry(outcomes, retries) == Run(Failure(NotFound), 1)
  {
    RetryCharacterised(outcomes, retries);
  }

  /** The loop returns the first success, provided every earlier attempt was a
      retryable failure. */
  lemma FirstSuccessReturned(outcomes: seq<Outcome>, retries: nat, j: nat)
    requires j < retries && Attempt(AttemptOutcome(outcomes, j)).Success?
    requires forall k :: 0 <= k < j ==> Retryable(Attempt(AttemptOutcome(outcomes, k)))
    ensures Retry(outcomes, retries) == Run(Attempt(AttemptOutcome(outcomes, j)), j + 1)
  {
    RetryCharacterised(outcomes, retries);
  }

  /** Failures that keep being retryable use up the whole budget and the last
      one is what surfaces. */
  lemma PersistentFailureExhaustsBudget(outcomes: seq<Outcome>, retries: nat)
    requires retries > 0
    requires forall k :: 0 <= k < retries ==> Retryable(Attempt(AttemptOutcome(outcomes, k)))
    ensures Retry(outcomes, retries) == Run(Attempt(AttemptOutcome(outcomes, retries - 1)), retries)
  {
    RetryCharacterised(outcomes, retries);
  }
}
