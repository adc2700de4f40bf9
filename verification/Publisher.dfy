/** The bounded publish loop (src/monitoring/notifications.py, publish_notify_payload). */
module Publisher {
  import opened Common
  import opened Text
  import opened Notify

  /** One attempt's outcome: an httpx.HTTPError, a response, or any other exception. */
  datatype Reply = TransportFailure | Http(status: int, replayedHeader: bool) | Broken

  datatype Cause =
    | NoCause
    | Disabled
    | PartialConfiguration
    | InvalidContractInput
    | TransportError
    | InvalidReplayResponse
    | IdempotencyConflict
    | HttpRejected
    | UnexpectedError
    | PublishFailed

  datatype PublishResult = PublishResult(delivered: bool, attempts: nat, replayed: bool, cause: Cause)

  datatype Settings = Settings(enabled: bool, credentials: bool, httpsEndpoint: bool, maxAttempts: int)

  function Attempts(s: Settings): nat { Max(1, Min(5, s.maxAttempts)) }

  /** 201, or 200 with Idempotency-Replayed: true. */
  predicate Accepted(r: Reply) { r.Http? && (r.status == 201 || (r.status == 200 && r.replayedHeader)) }

  predicate Retryable(r: Reply) { r.TransportFailure? || (r.Http? && (r.status == 429 || r.status >= 500)) }

  /** The local checks made before any network traffic. */
  function Refusal(s: Settings, payload: Payload, key: string): Cause {
    if !s.enabled then Disabled
    else if !s.credentials then PartialConfiguration
    else if !s.httpsEndpoint || Validated(payload).Raised? || RequiredText(key, 80).Raised?
            || !(KEY_PREFIX <= Strip(key)) then InvalidContractInput
    else NoCause
  }

  /** The attempt that ends the loop: the first one not worth retrying, or the last one allowed. */
  predicate StopsAt(replies: nat -> Reply, limit: nat, k: nat) {
    && 1 <= k <= limit
    && (forall i :: 1 <= i < k ==> Retryable(replies(i)))
    && (k == limit || !Retryable(replies(k)))
  }

  function Verdict(r: Reply, attempt: nat): PublishResult {
    match r
    case TransportFailure => PublishResult(false, attempt, false, TransportError)
    case Broken => PublishResult(false, 0, false, UnexpectedError)
    case Http(status, replayed) =>
      if status == 201 then PublishResult(true, attempt, false, NoCause)
      else if status == 200 then
        if replayed then PublishResult(true, attempt, true, NoCause)
        else PublishResult(false, attempt, false, InvalidReplayResponse)
      else if status == 409 then PublishResult(false, attempt, false, IdempotencyConflict)
      else PublishResult(false, attempt, false, HttpRejected)
  }

  /** `posts` counts the requests sent; each carries the same payload and key. */
  method Publish(s: Settings, payload: Payload, key: string, replies: nat -> Reply)
    returns (result: PublishResult, posts: nat)
    ensures Refusal(s, payload, key) != NoCause ==>
              posts == 0 && result == PublishResult(false, 0, false, Refusal(s, payload, key))
    ensures Refusal(s, payload, key) == NoCause ==>
              StopsAt(replies, Attempts(s), posts) && result == Verdict(replies(posts), posts)
  {
    hide Validated;
    posts := 0;
    result := PublishResult(false, 0, false, UnexpectedError);
    if !s.enabled {
      return PublishResult(false, 0, false, Disabled), posts;
    }
    if !s.credentials {
      return PublishResult(false, 0, false, PartialConfiguration), posts;
    }
    var wire := ValidatePayload(payload);
    if !s.httpsEndpoint || wire.Raised? || RequiredText(key, 80).Raised? || !(KEY_PREFIX <= Strip(key)) {
      return PublishResult(false, 0, false, InvalidContractInput), posts;
    }
    var limit := Attempts(s);
    for attempt := 1 to limit + 1
      invariant posts == attempt - 1
      invariant forall i :: 1 <= i < attempt ==> Retryable(replies(i))
      invariant attempt <= limit
    {
      posts := attempt;
      var reply := replies(attempt);
      match reply {
        case TransportFailure =>
          if attempt == limit {
            return PublishResult(false, attempt, false, TransportError), posts;
          }
        case Broken =>
          return PublishResult(false, 0, false, UnexpectedError), posts;
        case Http(status, replayed) =>
          if status == 201 {
            return PublishResult(true, attempt, false, NoCause), posts;
          }
          if status == 200 {
            if !replayed {
              return PublishResult(false, attempt, false, InvalidReplayResponse), posts;
            }
            return PublishResult(true, attempt, true, NoCause), posts;
          }
          if status == 409 {
            return PublishResult(false, attempt, false, IdempotencyConflict), posts;
          }
          if !(status == 429 || status >= 500) || attempt == limit {
            return PublishResult(false, attempt, false, HttpRejected), posts;
          }
      }
    }
    assert false;
  }

  /** The loop stops at one attempt only, it always stops, and delivery is claimed exactly when some
      attempt it made was accepted by the receiver. */
  lemma DeliveredIffAccepted(s: Settings, replies: nat -> Reply, posts: nat)
    requires StopsAt(replies, Attempts(s), posts)
    ensures Verdict(replies(posts), posts).delivered <==> exists i :: 1 <= i <= posts && Accepted(replies(i))
    ensures forall k: nat :: StopsAt(replies, Attempts(s), k) ==> k == posts
  {
    forall i: nat | 1 <= i <= posts && Accepted(replies(i)) ensures i == posts {
      assert i < posts ==> Retryable(replies(i));
    }
    forall k: nat | StopsAt(replies, Attempts(s), k) ensures k == posts {
      assert k < posts ==> Retryable(replies(k));
      assert posts < k ==> Retryable(replies(posts));
    }
  }

  // ---- The loop in terms of statuses --------------------------------------------------------------

  /** After n - 1 transport failures, 429s and server errors the n-th reply, if it is none of these, ends the
      loop, as long as n attempts are allowed (at least one, at most five); and it decides the result. */
  lemma AnsweredAfterRetries(s: Settings, replies: nat -> Reply, n: nat)
    requires n == 1 || (2 <= n <= 5 && n <= s.maxAttempts)
    requires forall i :: 1 <= i < n ==>
               || replies(i) == TransportFailure
               || (replies(i).Http? && (replies(i).status == 429 || replies(i).status >= 500))
    requires replies(n).Http? && replies(n).status != 429 && replies(n).status < 500
    ensures StopsAt(replies, Attempts(s), n)
    ensures Verdict(replies(n), n)
            == if replies(n).status == 201 then PublishResult(true, n, false, NoCause)
               else if replies(n).status == 200 && replies(n).replayedHeader then PublishResult(true, n, true, NoCause)
               else if replies(n).status == 200 then PublishResult(false, n, false, InvalidReplayResponse)
               else if replies(n).status == 409 then PublishResult(false, n, false, IdempotencyConflict)
               else PublishResult(false, n, false, HttpRejected)
  {
  }

  /** When every allowed attempt fails that way, the last one is reported: as a transport error, or as a
      rejection with its status. */
  lemma ExhaustedRetries(s: Settings, replies: nat -> Reply, n: nat)
    requires (n == 1 && s.maxAttempts <= 1) || (n == 5 && s.maxAttempts >= 5) || (1 <= n <= 5 && n == s.maxAttempts)
    requires forall i :: 1 <= i <= n ==>
               || replies(i) == TransportFailure
               || (replies(i).Http? && (replies(i).status == 429 || replies(i).status >= 500))
    ensures StopsAt(replies, Attempts(s), n)
    ensures Verdict(replies(n), n)
            == if replies(n) == TransportFailure then PublishResult(false, n, false, TransportError)
               else PublishResult(false, n, false, HttpRejected)
  {
  }

  /** Any other exception ends the loop at once, and no attempt is counted. */
  lemma BrokenAttempt(s: Settings, replies: nat -> Reply, n: nat)
    requires n == 1 || (2 <= n <= 5 && n <= s.maxAttempts)
    requires forall i :: 1 <= i < n ==>
               || replies(i) == TransportFailure
               || (replies(i).Http? && (replies(i).status == 429 || replies(i).status >= 500))
    requires replies(n) == Broken
    ensures StopsAt(replies, Attempts(s), n)
    ensures Verdict(replies(n), n) == PublishResult(false, 0, false, UnexpectedError)
  {
  }

  /** A busy receiver, then an accepting one: with three attempts allowed the second delivers. */
  lemma BusyThenAccepted(s: Settings, replies: nat -> Reply, header: bool, other: bool)
    requires s.maxAttempts == 3 && replies(1) == Http(503, header) && replies(2) == Http(201, other)
    ensures StopsAt(replies, Attempts(s), 2) && Verdict(replies(2), 2) == PublishResult(true, 2, false, NoCause)
  {
    AnsweredAfterRetries(s, replies, 2);
  }

  /** What is refused before anything is sent, and why. */
  lemma RefusedExactly(s: Settings, payload: Payload, key: string)
    ensures Refusal(s, payload, key) == Disabled <==> !s.enabled
    ensures Refusal(s, payload, key) == PartialConfiguration <==> s.enabled && !s.credentials
    ensures Refusal(s, payload, key) == NoCause <==>
              && s.enabled && s.credentials && s.httpsEndpoint && Validated(payload).Ok?
              && 1 <= |Strip(key)| <= 80 && "gcm-v1-" <= Strip(key)
    ensures Refusal(s, payload, key) in {Disabled, PartialConfiguration, InvalidContractInput, NoCause}
  {
    hide Validated, Strip;
  }
}
