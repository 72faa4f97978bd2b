/** The patience of the upload client: chunk retries and finalise polling (cli/arccli/client.py). */
module RetryPolicy {
  import opened Options

  const MAX_ATTEMPTS := 6
  const MAX_BACKOFF := 30
  const MIN_INTERVAL := 2
  const MAX_INTERVAL := 10
  const POLL_TIMEOUT := 14400

  // ---- Chunks ----

  /** What one attempt meets: an answer, an API error that may carry a status code, or a network error. */
  datatype Reply = Accepted | Refused(status: Option<nat>) | Unreachable

  predicate Permanent(reply: Reply) {
    reply.Refused? && reply.status.Some? && 400 <= reply.status.value < 500
  }

  predicate Transient(reply: Reply) {
    !reply.Accepted? && !Permanent(reply)
  }

  datatype Outcome = Delivered | Rejected(status: nat) | GaveUp

  function Power(exponent: nat): nat {
    if exponent == 0 then 1 else 2 * Power(exponent - 1)
  }

  /** The pause before attempt `attempt`; the first has none. */
  function Pause(attempt: nat): nat {
    if attempt == 0 then 0 else if Power(attempt) < MAX_BACKOFF then Power(attempt) else MAX_BACKOFF
  }

  /** All pauses before `attempts` attempts are over. */
  function Backoff(attempts: nat): nat {
    if attempts == 0 then 0 else Backoff(attempts - 1) + Pause(attempts - 1)
  }

  lemma BackoffBound(attempts: nat)
    requires attempts <= MAX_ATTEMPTS
    ensures Backoff(attempts) <= 60
    ensures Backoff(attempts) == 60 <==> attempts == MAX_ATTEMPTS
  {
    assert Power(1) == 2 && Power(2) == 4 && Power(3) == 8 && Power(4) == 16 && Power(5) == 32;
    assert Backoff(1) == 0 && Backoff(2) == 2 && Backoff(3) == 6 && Backoff(4) == 14 && Backoff(5) == 30
      && Backoff(6) == 60;
  }

  lemma BackoffSteps(attempts: nat)
    requires attempts < MAX_ATTEMPTS
    ensures Backoff(attempts) + Pause(attempts) == [0, 2, 6, 14, 30, 60][attempts]
  {
    assert Power(1) == 2 && Power(2) == 4 && Power(3) == 8 && Power(4) == 16 && Power(5) == 32;
    assert Backoff(1) == 0 && Backoff(2) == 2 && Backoff(3) == 6 && Backoff(4) == 14 && Backoff(5) == 30;
  }

  /**
    Only transient failures are retried, the first answer that is not one decides,
    and giving up takes six of them and a full minute of pauses.
   */
  method UploadChunkWithRetry(replies: nat -> Reply) returns (outcome: Outcome, attempts: nat, slept: nat)
    ensures 1 <= attempts <= MAX_ATTEMPTS && slept <= 60
    ensures forall i: nat | i < attempts - 1 :: Transient(replies(i))
    ensures outcome == Delivered <==> replies(attempts - 1) == Accepted
    ensures forall status: nat :: outcome == Rejected(status) <==>
              replies(attempts - 1) == Refused(Some(status)) && 400 <= status < 500
    ensures outcome == GaveUp <==> forall i: nat | i < MAX_ATTEMPTS :: Transient(replies(i))
    ensures outcome == GaveUp ==> attempts == MAX_ATTEMPTS && slept == 60
    ensures slept == [0, 2, 6, 14, 30, 60][attempts - 1]
    // All attempts but the last met a network error, or an API error that is no 4xx.
    ensures forall i: nat | i < attempts - 1 ::
              replies(i) == Unreachable || (exists status ::
                replies(i) == Refused(status) && (status.Some? ==> !(400 <= status.value <= 499)))
  {
    attempts, slept := 0, 0;
    while attempts < MAX_ATTEMPTS
      invariant attempts <= MAX_ATTEMPTS && slept == Backoff(attempts)
      invariant attempts > 0 ==> slept == [0, 2, 6, 14, 30, 60][attempts - 1]
      invariant forall i: nat | i < attempts :: Transient(replies(i))
    {
      BackoffBound(attempts + 1);
      BackoffSteps(attempts);
      slept := slept + Pause(attempts);
      var reply := replies(attempts);
      attempts := attempts + 1;
      match reply
      case Accepted =>
        return Delivered, attempts, slept;
      case Refused(status) =>
        if status.Some? && 400 <= status.value < 500 {
          return Rejected(status.value), attempts, slept;
        }
      case Unreachable =>
    }
    BackoffBound(attempts);
    outcome := GaveUp;
  }

  // ---- Polling ----

  datatype Poll = Done(artefact: nat) | Failed | Working | ApiError(status: Option<nat>) | NoConnection

  /** Replies after which the client sleeps and asks again. */
  predicate KeepsPolling(poll: Poll) {
    poll.Working? || poll.NoConnection? || (poll.ApiError? && poll.status != Some(404))
  }

  datatype Verdict = Artefact(artefact: nat) | ServerFailed | Expired | TimedOut

  function Interval(n: nat): nat {
    if n == 0 then MIN_INTERVAL else if Interval(n - 1) * 2 < MAX_INTERVAL then Interval(n - 1) * 2 else MAX_INTERVAL
  }

  /** The sleep asked for in the first `n` polls. */
  function Waited(n: nat): nat {
    if n == 0 then 0 else Waited(n - 1) + Interval(n - 1)
  }

  lemma {:induction false} WaitedIs(n: nat)
    requires n >= 3
    ensures Interval(n) == MAX_INTERVAL && Waited(n) == 14 + 10 * (n - 3)
  {
    if n == 3 {
      assert Interval(0) == 2 && Interval(1) == 4 && Interval(2) == 8;
      assert Waited(1) == 2 && Waited(2) == 6;
    } else {
      WaitedIs(n - 1);
    }
  }

  /**
    The loop runs once more after `n` sleeps of exactly the requested length if and
    only if fewer than 1442 polls were made.
   */
  lemma PollsBeforeDeadline(n: nat)
    ensures Waited(n) < POLL_TIMEOUT <==> n < 1442
  {
    if n >= 3 {
      WaitedIs(n);
    } else {
      assert Interval(0) == 2 && Interval(1) == 4;
      assert Waited(1) == 2 && Waited(2) == 6;
    }
  }

  /**
    `delay(k)` is how much longer poll `k` takes than the sleep it asks for. At most
    1442 status requests are made, and that many when nothing takes any longer and
    nothing is ever decided.
   */
  method PollFinalize(polls: nat -> Poll, delay: nat -> real) returns (verdict: Verdict, requests: nat, elapsed: real)
    requires forall k: nat :: delay(k) >= 0.0
    ensures requests <= 1442
    ensures verdict == TimedOut ==> elapsed >= POLL_TIMEOUT as real
    // The last reply decides, unless time is up, and none before it does.
    ensures forall artefact: nat :: verdict == Artefact(artefact) <==>
              requests > 0 && polls(requests - 1) == Done(artefact)
    ensures verdict == ServerFailed <==> requests > 0 && polls(requests - 1) == Failed
    ensures verdict == Expired <==> requests > 0 && polls(requests - 1) == ApiError(Some(404))
    ensures forall k: nat | k < (if verdict == TimedOut then requests else requests - 1) :: KeepsPolling(polls(k))
    ensures (forall k: nat :: KeepsPolling(polls(k)) && delay(k) == 0.0) ==> verdict == TimedOut && requests == 1442
  {
    var interval := MIN_INTERVAL;
    requests, elapsed := 0, 0.0;
    while elapsed < POLL_TIMEOUT as real
      invariant interval == Interval(requests) && Waited(requests) as real <= elapsed
      invariant requests <= 1442
      invariant forall k: nat | k < requests :: KeepsPolling(polls(k))
      invariant (forall k: nat :: delay(k) == 0.0) ==> elapsed == Waited(requests) as real
      decreases 1442 - requests
    {
      PollsBeforeDeadline(requests);
      var poll := polls(requests);
      var cost := delay(requests);
      requests := requests + 1;
      match poll
      case Done(artefact) => return Artefact(artefact), requests, elapsed;
      case Failed => return ServerFailed, requests, elapsed;
      case ApiError(Some(404)) => return Expired, requests, elapsed;
      case _ =>
        assert KeepsPolling(poll);
        elapsed := elapsed + interval as real + cost;
        interval := if interval * 2 < MAX_INTERVAL then interval * 2 else MAX_INTERVAL;
    }
    PollsBeforeDeadline(requests);
    verdict := TimedOut;
  }
}
