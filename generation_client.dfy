/** `generateContentWithRetry` (backend/app.js:37-56): call the generation
    service up to `retries` times, sleeping between attempts only after a
    503, with a delay that doubles each time.

    The service is injected as `service`, which gives the outcome of the
    call made on attempt number `attempt` (1, 2, ...); the sleeps the loop
    performs are returned as a trace of delays instead of being awaited. */
module GenerationClient {
  import opened Options

  /** What one call of `model.generateContent(prompt)` produces. */
  datatype Outcome =
    | Reply(text: string)            // a result whose `response.text()` gives `text`
    | Malformed                      // no result, no `response`, or no `text` accessor
    | Thrown(status: Option<int>)    // the call throws, with or without an HTTP status

  /** The error the retry helper throws to its caller. */
  datatype Failure =
    | InvalidResponse                // 'Invalid Gemini response'
    | ServiceError(status: Option<int>)
    | RetriesFailed                  // 'Gemini API retries failed'

  datatype Generated = Text(text: string) | Error(failure: Failure)

  /** The defaults the upload handler relies on. */
  const DefaultRetries: int := 3
  const DefaultDelay: int := 1000

  /** The only condition under which the helper tries again. */
  predicate IsUnavailable(o: Outcome)
  {
    o.Thrown? && o.status == Some(503)
  }

  /** How one attempt ends when it is not retried: the reply's text is
      returned, anything else is rethrown. */
  function Settle(o: Outcome): (g: Generated)
    ensures g.Text? <==> o.Reply?
    ensures g.Text? ==> g.text == o.text
    ensures o.Malformed? ==> g == Error(InvalidResponse)
    ensures o.Thrown? ==> g == Error(ServiceError(o.status))
  {
    match o
    case Reply(text) => Text(text)
    case Malformed => Error(InvalidResponse)
    case Thrown(status) => Error(ServiceError(status))
  }

  function Pow2(k: nat): nat
  {
    if k == 0 then 1 else 2 * Pow2(k - 1)
  }

  /** The first `n` delays of a schedule that starts at `delay` and doubles. */
  function Backoff(delay: int, n: nat): (s: seq<int>)
    ensures |s| == n
    ensures forall k :: 0 <= k < n ==> s[k] == delay * Pow2(k)
  {
    if n == 0 then []
    else
      Backoff(delay, n - 1) + [delay * Pow2(n - 1)]
  }

  /** Runs the retry loop against `service`. `attempts` is the number of
      calls made and `sleeps` the delays awaited between them, in order. */
  method GenerateWithRetry(service: nat -> Outcome, retries: int, delay: int)
    returns (g: Generated, attempts: nat, sleeps: seq<int>)
    ensures retries < 1 ==> g == Error(RetriesFailed) && attempts == 0
    ensures retries >= 1 ==> 1 <= attempts <= retries && g == Settle(service(attempts))
    ensures forall a :: 1 <= a < attempts ==> IsUnavailable(service(a))
    ensures 1 <= attempts < retries ==> !IsUnavailable(service(attempts))
    ensures sleeps == Backoff(delay, if attempts == 0 then 0 else attempts - 1)
  {
    var current := delay;
    sleeps := [];
    attempts := 0;
    var attempt := 1;
    while attempt <= retries
      invariant 1 <= attempt && attempts == attempt - 1
      invariant if retries >= 1 then attempt <= retries else attempt == 1
      invariant forall a :: 1 <= a < attempt ==> IsUnavailable(service(a))
      invariant sleeps == Backoff(delay, attempt - 1)
      invariant current == delay * Pow2(attempt - 1)
      decreases retries - attempt
    {
      var outcome := service(attempt);
      attempts := attempt;
      if outcome.Reply? {
        g := Text(outcome.text);
        return;
      }
      if IsUnavailable(outcome) && attempt < retries {
        sleeps := sleeps + [current];
        current := current * 2;
      } else {
        g := Settle(outcome);
        return;
      }
      attempt := attempt + 1;
    }
    g := Error(RetriesFailed);
  }

  /** The attempt on which the loop stops, searched from `attempt` on: the
      first one that is not a 503, or the last one allowed. */
  function StopAttempt(service: nat -> Outcome, retries: int, attempt: nat): (n: nat)
    requires 1 <= attempt <= retries
    ensures attempt <= n <= retries
    decreases retries - attempt
  {
    if attempt == retries || !IsUnavailable(service(attempt)) then attempt
    else StopAttempt(service, retries, attempt + 1)
  }

  /** The postcondition of GenerateWithRetry pins the number of calls down:
      any count meeting it is the stop attempt of the service's answers. */
  lemma {:induction false} AttemptsDetermined(service: nat -> Outcome, retries: int, from: nat, n: nat)
    requires 1 <= from <= n <= retries
    requires forall a :: from <= a < n ==> IsUnavailable(service(a))
    requires n < retries ==> !IsUnavailable(service(n))
    ensures StopAttempt(service, retries, from) == n
    decreases n - from
  {
    if from < n {
      AttemptsDetermined(service, retries, from + 1, n);
    }
  }

  /** A first call that fails with anything but a 503 is never retried. */
  method FatalFirstAttempt(status: int) returns (g: Generated, attempts: nat, sleeps: seq<int>)
    requires status != 503
    ensures g == Error(ServiceError(Some(status))) && attempts == 1 && sleeps == []
  {
    var service: nat -> Outcome := a => Thrown(Some(status));
    g, attempts, sleeps := GenerateWithRetry(service, DefaultRetries, DefaultDelay);
    assert !IsUnavailable(service(1));
  }

  /** Two 503s and then a reply: three calls, sleeps of 1000 and 2000, and
      the reply's text. */
  method RecoversOnThirdAttempt(text: string) returns (g: Generated, attempts: nat, sleeps: seq<int>)
    ensures g == Text(text) && attempts == 3 && sleeps == [1000, 2000]
  {
    var service: nat -> Outcome := a => if a <= 2 then Thrown(Some(503)) else Reply(text);
    g, attempts, sleeps := GenerateWithRetry(service, DefaultRetries, DefaultDelay);
    assert IsUnavailable(service(1)) && IsUnavailable(service(2));
    assert Backoff(DefaultDelay, 2) == [1000, 2000];
  }

  /** A 503 on every call: three calls, then the last 503 is rethrown. */
  method UnavailableThroughout() returns (g: Generated, attempts: nat, sleeps: seq<int>)
    ensures g == Error(ServiceError(Some(503))) && attempts == 3 && sleeps == [1000, 2000]
  {
    var service: nat -> Outcome := a => Thrown(Some(503));
    g, attempts, sleeps := GenerateWithRetry(service, DefaultRetries, DefaultDelay);
    assert Backoff(DefaultDelay, 2) == [1000, 2000];
  }
}
