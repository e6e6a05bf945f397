/**
 * The retry policy of `call_deepseek`. The HTTP exchange is abstracted
 * into what attempt k observed, and `time.sleep` into the list of delays
 * the loop would sleep, in seconds.
 */
module Api {
  import opened Values
  import opened Text

  /** The number of attempts `call_deepseek` makes when the caller does not say. */
  const DefaultMaxRetries: int := 2

  /** What one attempt observed. */
  datatype Outcome =
      /**
       * A response arrived. `choices` holds the message contents of the
       * body's `choices` list (`None` when the key is absent), `errorMessage`
       * the body's `error.message` (`None` when absent), `text` the raw body.
       */
      Responded(status: nat, choices: Option<seq<string>>, errorMessage: Option<string>, text: string)
      /**
       * `requests.exceptions.RequestException`, with its `str(e)`: a failed
       * connection, and also a body that is not JSON, since `response.json()`
       * then raises `requests.exceptions.JSONDecodeError`, a subclass.
       */
    | RequestFailed(detail: string)
      /**
       * Any other exception, with its `str(e)`: a JSON body of the wrong
       * shape, such as a 400 body that is not an object or whose `error` is
       * not one, or a 200 body whose first choice has no `message.content`.
       */
    | Crashed(detail: string)

  /** Which of the loop's returns produced the result. */
  datatype Exit = Content | BadFormat | RateLimited | BadRequest | ApiError | ConnectionError | UnexpectedError | GaveUp

  /** The returned string, its kind, the number of requests made and the delays slept between them. */
  datatype CallResult = CallResult(text: string, exit: Exit, attempts: nat, delays: seq<nat>)

  const FormatMessage: string := "Error: Format respons API tidak sesuai"
  const RateLimitMessage: string := "Error: Rate limit exceeded. Silakan coba lagi beberapa menit kemudian."
  const GaveUpMessage: string := "Gagal menghubungi API setelah beberapa percobaan."

  /** The outcomes after which a non-final attempt sleeps and tries again: status 429 and the two exception kinds. */
  predicate Retryable(o: Outcome) {
    match o
    case Responded(status, _, _, _) => status == 429
    case RequestFailed(_) => true
    case Crashed(_) => true
  }

  function Pow2(k: nat): (r: nat)
    ensures r >= 1
  {
    if k == 0 then 1 else 2 * Pow2(k - 1)
  }

  /** The pause before retrying after attempt k: `2 ** k` after status 429, 1 after an exception. */
  function Backoff(o: Outcome, k: nat): (d: nat)
    requires Retryable(o)
    ensures o.Responded? ==> d == Pow2(k)
    ensures !o.Responded? ==> d == 1
  {
    if o.Responded? then Pow2(k) else 1
  }

  /** The kind of return an outcome leads to when the loop does not retry after it. */
  function ExitOf(o: Outcome): (e: Exit)
    ensures e != GaveUp
    ensures e == RateLimited || e == ConnectionError || e == UnexpectedError <==> Retryable(o)
  {
    match o
    case Responded(status, choices, _, _) =>
      if status == 200 then
        (if choices.Some? && |choices.value| > 0 then Content else BadFormat)
      else if status == 429 then RateLimited
      else if status == 400 then BadRequest
      else ApiError
    case RequestFailed(_) => ConnectionError
    case Crashed(_) => UnexpectedError
  }

  /** The string returned when the loop does not retry after this outcome. */
  function Final(o: Outcome): (s: string)
    ensures ExitOf(o) == Content ==> s == o.choices.value[0]
    ensures ExitOf(o) == BadFormat ==> s == FormatMessage
    ensures ExitOf(o) == RateLimited ==> s == RateLimitMessage
    ensures ExitOf(o) == BadRequest ==>
      s == "Error: " + o.errorMessage.GetOr("Bad Request") + ". Silakan cek konfigurasi API Anda."
    ensures ExitOf(o) == ApiError ==> s == "Error API (" + NatToString(o.status) + "): " + o.text
    ensures ExitOf(o) == ConnectionError ==> s == "Error koneksi ke API: " + o.detail
    ensures ExitOf(o) == UnexpectedError ==> s == "Error tidak terduga: " + o.detail
  {
    match o
    case Responded(status, choices, errorMessage, text) =>
      if status == 200 then
        (if choices.Some? && |choices.value| > 0 then choices.value[0] else FormatMessage)
      else if status == 429 then RateLimitMessage
      else if status == 400 then "Error: " + errorMessage.GetOr("Bad Request") + ". Silakan cek konfigurasi API Anda."
      else "Error API (" + NatToString(status) + "): " + text
    case RequestFailed(e) => "Error koneksi ke API: " + e
    case Crashed(e) => "Error tidak terduga: " + e
  }

  /**
   * The loop from attempt k on: past the last attempt it gives up; a
   * retryable outcome on a non-final attempt sleeps and continues; any other
   * outcome is returned.
   */
  function Run(env: nat -> Outcome, maxRetries: int, k: nat): (r: CallResult)
    ensures r.exit == GaveUp <==> k >= maxRetries
    ensures r.exit == GaveUp ==> r == CallResult(GaveUpMessage, GaveUp, k, [])
    ensures r.exit != GaveUp ==> k < r.attempts <= maxRetries
    decreases maxRetries - k
  {
    if k >= maxRetries then CallResult(GaveUpMessage, GaveUp, k, [])
    else if Retryable(env(k)) && k < maxRetries - 1 then
      var rest := Run(env, maxRetries, k + 1);
      var r := rest.(delays := [Backoff(env(k), k)] + rest.delays);
      assert r.text == rest.text && r.exit == rest.exit && r.attempts == rest.attempts;
      r
    else
      var o := env(k);
      CallResult(Final(o), ExitOf(o), k + 1, [])
  }

  /** `call_deepseek(prompt, max_retries=maxRetries)`, attempt k answering as `env(k)`. */
  function Call(env: nat -> Outcome, maxRetries: int): (r: CallResult)
    ensures r.exit == GaveUp <==> maxRetries <= 0
    ensures r.exit != GaveUp ==> 1 <= r.attempts <= maxRetries
  {
    Run(env, maxRetries, 0)
  }

  /** The loop as the source writes it: `for attempt in range(max_retries)` with `continue` and early returns. */
  method CallDeepseek(env: nat -> Outcome, maxRetries: int) returns (text: string, exit: Exit, attempts: nat, delays: seq<nat>)
    ensures CallResult(text, exit, attempts, delays) == Call(env, maxRetries)
  {
    delays := [];
    var attempt: nat := 0;
    while attempt < maxRetries
      invariant delays + Run(env, maxRetries, attempt).delays == Call(env, maxRetries).delays
      invariant Run(env, maxRetries, attempt).(delays := []) == Call(env, maxRetries).(delays := [])
      decreases maxRetries - attempt
    {
      var o := env(attempt);
      if Retryable(o) && attempt < maxRetries - 1 {
        delays := delays + [Backoff(o, attempt)];
        attempt := attempt + 1;
        continue;
      }
      text, exit, attempts := Final(o), ExitOf(o), attempt + 1;
      return;
    }
    text, exit, attempts := GaveUpMessage, GaveUp, attempt;
  }

  /** Run from attempt k: the counts of attempts and delays. */
  lemma {:induction false} RunCounts(env: nat -> Outcome, maxRetries: int, k: nat)
    ensures var r := Run(env, maxRetries, k);
      (k >= maxRetries ==> r.attempts == k && r.delays == [] && r.exit == GaveUp)
      && (k < maxRetries ==> k < r.attempts <= maxRetries && |r.delays| == r.attempts - k - 1 && r.exit != GaveUp)
    decreases maxRetries - k
  {
    if k < maxRetries && Retryable(env(k)) && k < maxRetries - 1 {
      RunCounts(env, maxRetries, k + 1);
    }
  }

  /**
   * At most `max_retries` requests are made, one fewer delays than requests,
   * and the give-up message is returned exactly when no request is made,
   * which is when `max_retries <= 0`.
   */
  lemma CallBounds(env: nat -> Outcome, maxRetries: int)
    ensures var r := Call(env, maxRetries);
      && (maxRetries <= 0 ==> r.attempts == 0 && r.delays == [])
      && (maxRetries > 0 ==> 1 <= r.attempts <= maxRetries && |r.delays| == r.attempts - 1)
      && (r.exit == GaveUp <==> maxRetries <= 0)
      && (r.exit == GaveUp ==> r.text == GaveUpMessage)
  {
    RunCounts(env, maxRetries, 0);
  }

  /** Attempt k was retryable and was followed by the pause d. */
  predicate RetriedAt(env: nat -> Outcome, k: nat, d: nat) {
    Retryable(env(k)) && d == Backoff(env(k), k)
  }

  /** Attempts k, k + 1, ... were each retryable and followed by the given delays, one delay per attempt. */
  predicate RetriedBefore(env: nat -> Outcome, k: nat, delays: seq<nat>) {
    forall j :: 0 <= j < |delays| ==> RetriedAt(env, k + j, delays[j])
  }

  /** A retryable attempt k and its backoff in front of a trace from k + 1 make a trace from k. */
  lemma RetriedCons(env: nat -> Outcome, k: nat, delays: seq<nat>)
    requires Retryable(env(k)) && RetriedBefore(env, k + 1, delays)
    ensures RetriedBefore(env, k, [Backoff(env(k), k)] + delays)
  {
    var ds := [Backoff(env(k), k)] + delays;
    forall j | 0 <= j < |ds|
      ensures RetriedAt(env, k + j, ds[j])
    {
      if j > 0 {
        var i := j - 1;
        assert ds[j] == delays[i];
        assert RetriedAt(env, k + 1 + i, delays[i]);
        assert k + 1 + i == k + j;
      } else {
        assert ds[0] == Backoff(env(k), k);
      }
    }
  }

  /** The last attempt of a run from attempt k gives the result; stopping early means it was not retryable. */
  lemma {:induction false} RunLast(env: nat -> Outcome, maxRetries: int, k: nat)
    requires k < maxRetries
    ensures var r := Run(env, maxRetries, k);
      && r.text == Final(env(r.attempts - 1)) && r.exit == ExitOf(env(r.attempts - 1))
      && (r.attempts < maxRetries ==> !Retryable(env(r.attempts - 1)))
    decreases maxRetries - k
  {
    var r := Run(env, maxRetries, k);
    if Retryable(env(k)) && k < maxRetries - 1 {
      RunLast(env, maxRetries, k + 1);
      var rest := Run(env, maxRetries, k + 1);
      assert r.attempts == rest.attempts && r.text == rest.text && r.exit == rest.exit;
    } else {
      assert r == CallResult(Final(env(k)), ExitOf(env(k)), k + 1, []);
    }
  }

  /** Every attempt of a run from attempt k before its last was retryable and was followed by its backoff. */
  lemma {:induction false} RunDelays(env: nat -> Outcome, maxRetries: int, k: nat)
    requires k < maxRetries
    ensures var r := Run(env, maxRetries, k);
      |r.delays| == r.attempts - k - 1 && RetriedBefore(env, k, r.delays)
    decreases maxRetries - k
  {
    if Retryable(env(k)) && k < maxRetries - 1 {
      RunDelays(env, maxRetries, k + 1);
      RetriedCons(env, k, Run(env, maxRetries, k + 1).delays);
    }
  }

  /**
   * The trace of a run from attempt k: every attempt before the last was
   * retryable and was followed by its backoff delay, and the last attempt's
   * outcome gave the result, after a non-retryable outcome or on the final
   * attempt.
   */
  lemma RunTrace(env: nat -> Outcome, maxRetries: int, k: nat)
    requires k < maxRetries
    ensures var r := Run(env, maxRetries, k);
      && k < r.attempts <= maxRetries
      && |r.delays| == r.attempts - k - 1
      && RetriedBefore(env, k, r.delays)
      && r.text == Final(env(r.attempts - 1)) && r.exit == ExitOf(env(r.attempts - 1))
      && (r.attempts < maxRetries ==> !Retryable(env(r.attempts - 1)))
  {
    RunLast(env, maxRetries, k);
    RunDelays(env, maxRetries, k);
  }

  /** A first attempt that is not retryable is returned at once, without any delay. */
  lemma ImmediateReturn(env: nat -> Outcome, maxRetries: int)
    requires maxRetries >= 1 && !Retryable(env(0))
    ensures Call(env, maxRetries) == CallResult(Final(env(0)), ExitOf(env(0)), 1, [])
  {
  }

  /** Status 429 on every attempt: `max_retries` requests, delays 1, 2, 4, ..., and the rate-limit message. */
  lemma PersistentRateLimit(env: nat -> Outcome, maxRetries: int)
    requires maxRetries >= 1
    requires forall j: nat :: j < maxRetries ==> env(j).Responded? && env(j).status == 429
    ensures var r := Call(env, maxRetries);
      && r.attempts == maxRetries
      && |r.delays| == maxRetries - 1
      && (forall j :: 0 <= j < |r.delays| ==> r.delays[j] == Pow2(j))
      && r.text == RateLimitMessage && r.exit == RateLimited
  {
    RunTrace(env, maxRetries, 0);
    var r := Call(env, maxRetries);
    assert env(r.attempts - 1).status == 429;
  }

  /** With the default of two attempts, a persistent 429 makes two requests with one pause of a second. */
  lemma DefaultRateLimit(env: nat -> Outcome)
    requires forall j: nat :: j < 2 ==> env(j).Responded? && env(j).status == 429
    ensures Call(env, DefaultMaxRetries) == CallResult(RateLimitMessage, RateLimited, 2, [1])
  {
    PersistentRateLimit(env, DefaultMaxRetries);
  }
}
