/** The delivery outbox: one row, the workers that claim it and write outcomes, the
    reconciler, and the manual retry. Times are in microseconds. */
module Outbox {
  import opened Basics

  const SECOND := 1_000_000
  const BACKOFF_SCHEDULE_SECONDS := [30, 120, 600, 3600, 21600]
  const MAX_ATTEMPTS := |BACKOFF_SCHEDULE_SECONDS|
  const MAX_RETRY_AFTER_SECONDS := 30 * 24 * 3600
  const STUCK_AFTER := 600 * SECOND

  // ----- backoff and Retry-After -----

  /** The header as `int()` and the date parser see it; a date is given by its distance
      from the clock. */
  datatype RetryAfterHeader = Absent | Seconds(n: int) | HttpDate(distance: int) | Malformed

  /** Python's `int()` of a number of seconds: towards zero. */
  function WholeSeconds(distance: int): int {
    if distance >= 0 then distance / SECOND else -((-distance) / SECOND)
  }

  /** Between one second and thirty days; within those bounds the number of seconds asked
      for, or less than a second short of the date; a minute when there is nothing to read. */
  function ParseRetryAfter(header: RetryAfterHeader): (seconds: int)
    ensures 1 <= seconds <= MAX_RETRY_AFTER_SECONDS
    ensures header.Absent? || header.Malformed? ==> seconds == 60
    ensures header.Seconds? && 1 <= header.n <= MAX_RETRY_AFTER_SECONDS ==> seconds == header.n
    ensures header.Seconds? && header.n < 1 ==> seconds == 1
    ensures header.Seconds? && header.n > MAX_RETRY_AFTER_SECONDS ==> seconds == MAX_RETRY_AFTER_SECONDS
    ensures header.HttpDate? && header.distance <= MAX_RETRY_AFTER_SECONDS * SECOND ==>
      seconds * SECOND > header.distance - SECOND
    ensures header.HttpDate? && header.distance >= SECOND ==> seconds * SECOND <= header.distance
  {
    match header
    case Absent => 60
    case Seconds(n) => Min(Max(1, n), MAX_RETRY_AFTER_SECONDS)
    case HttpDate(distance) => Min(Max(1, WholeSeconds(distance)), MAX_RETRY_AFTER_SECONDS)
    case Malformed => 60
  }

  predicate JitterOk(attempt: int, jitter: real) {
    1 <= attempt <= MAX_ATTEMPTS ==> 0.0 <= jitter <= BACKOFF_SCHEDULE_SECONDS[attempt - 1] as real * 0.2
  }

  /** From the scheduled delay up to a fifth more. */
  function CalculateRetryDelay(attempt: int, jitter: real): (seconds: int)
    requires JitterOk(attempt, jitter)
    ensures 1 <= attempt <= MAX_ATTEMPTS ==>
      var base := BACKOFF_SCHEDULE_SECONDS[attempt - 1];
      && base <= seconds && 5 * seconds <= 6 * base
      && seconds as real <= base as real + jitter < (seconds + 1) as real
  {
    if attempt < 1 || attempt > MAX_ATTEMPTS then 0
    else (BACKOFF_SCHEDULE_SECONDS[attempt - 1] as real + jitter).Floor
  }

  // ----- the row -----

  datatype Status = Pending | Sending | Sent | Failed | Dead

  datatype Row = Row(status: Status, attempts: int, nextAttemptAt: int, lockedAt: Option<int>,
                     sentAt: Option<int>, responseCode: Option<int>, lastError: Option<string>)

  predicate Terminal(status: Status) {
    status == Sent || status == Dead
  }

  /** What the first transaction finds next to the row. */
  datatype Target = ChannelMissing | ChannelDisabled | Undecryptable(reason: string) | Ready

  /** What a worker carries out of the first transaction. */
  datatype Claim = Claim(token: int, attemptsSoFar: int)

  datatype Response = Responded(code: int, retryAfter: RetryAfterHeader, error: string) | Raised(error: string)

  datatype WebhookResult = WebhookResult(ok: bool, statusCode: Option<int>, retryAfter: Option<int>, error: string)

  /** `send_webhook_sync` seen from outside: 429 first, then success, then the rest. */
  function ResultOf(response: Response): (r: WebhookResult)
    ensures r.statusCode == Some(429) <==> r.retryAfter.Some?
    ensures r.retryAfter.Some? ==> 1 <= r.retryAfter.value <= MAX_RETRY_AFTER_SECONDS && !r.ok
  {
    match response
    case Raised(error) => WebhookResult(false, None, None, error)
    case Responded(code, header, error) =>
      if code == 429 then WebhookResult(false, Some(429), Some(ParseRetryAfter(header)), "rate limited")
      else if 200 <= code < 300 then WebhookResult(true, Some(code), None, "")
      else WebhookResult(false, Some(code), None, error)
  }

  /** The WHERE clause of the first transaction. */
  predicate Claimable(row: Row, dueAt: int) {
    row.status == Pending || (row.status == Failed && row.nextAttemptAt <= dueAt)
  }

  function ClaimStep(row: Row, dueAt: int, target: Target, now: int): (Row, Option<Claim>) {
    if !Claimable(row, dueAt) then (row, None)
    else match target
      case ChannelMissing => (row.(status := Dead, lastError := Some("channel or notification missing")), None)
      case ChannelDisabled => (row.(status := Dead, lastError := Some("channel disabled before delivery")), None)
      case Undecryptable(reason) => (row.(status := Dead, lastError := Some(reason)), None)
      case Ready => (row.(status := Sending, lockedAt := Some(now)), Some(Claim(now, row.attempts)))
  }

  /** The fence: the row is still the one this worker claimed. */
  predicate Owns(row: Row, token: int) {
    row.status == Sending && row.lockedAt == Some(token)
  }

  predicate IsClientError(result: WebhookResult) {
    result.statusCode.Some? && 400 <= result.statusCode.value < 500
  }

  /** An outcome that costs an attempt: 429, or anything but success and other 4xx. */
  predicate Retryable(result: WebhookResult) {
    !result.ok && (result.statusCode == Some(429) || !IsClientError(result))
  }

  /** Seconds to wait after a retryable outcome; `retry_after or 60` for a 429. */
  function Wait(attempt: int, result: WebhookResult, jitter: real): int
    requires JitterOk(attempt, jitter)
  {
    if result.statusCode == Some(429)
    then (if result.retryAfter.Some? && result.retryAfter.value != 0 then result.retryAfter.value else 60)
    else CalculateRetryDelay(attempt, jitter)
  }

  function RecordStep(row: Row, claim: Claim, result: WebhookResult, now: int, jitter: real): Row
    requires JitterOk(claim.attemptsSoFar + 1, jitter)
  {
    if !Owns(row, claim.token) then row
    else if result.ok then
      row.(status := Sent, sentAt := Some(now), responseCode := result.statusCode, lastError := None)
    else if !Retryable(result) then
      row.(status := Dead, responseCode := result.statusCode, lastError := Some(result.error))
    else
      var attempts := claim.attemptsSoFar + 1;
      var tried := row.(attempts := attempts, responseCode := result.statusCode, lastError := Some(result.error));
      if attempts >= MAX_ATTEMPTS then tried.(status := Dead)
      else tried.(status := Failed, nextAttemptAt := now + Wait(attempts, result, jitter) * SECOND)
  }

  /** The conditional UPDATE of the reconciler. */
  predicate Stuck(row: Row, cutoff: int) {
    row.status == Sending && row.lockedAt.Some? && row.lockedAt.value < cutoff
  }

  function ReclaimStep(row: Row, cutoff: int): Row {
    if Stuck(row, cutoff) then row.(status := Failed, lockedAt := None) else row
  }

  /** What the reconciler puts back on the queue without touching the row. */
  predicate Due(row: Row, now: int) {
    (row.status == Pending || row.status == Failed) && row.nextAttemptAt <= now
  }

  function RetryStep(row: Row, now: int): Row {
    if row.status != Dead then row
    else row.(status := Pending, attempts := 0, lastError := None, lockedAt := None, nextAttemptAt := now)
  }

  /** A delivery as the tasks see it: a row whose columns are assigned in place. Each method
      is one transaction. */
  class Delivery {
    var status: Status
    var attempts: int
    var nextAttemptAt: int
    var lockedAt: Option<int>
    var sentAt: Option<int>
    var responseCode: Option<int>
    var lastError: Option<string>

    constructor (now: int)
      ensures Columns() == Row(Pending, 0, now, None, None, None, None)
    {
      status, attempts, nextAttemptAt, lockedAt := Pending, 0, now, None;
      sentAt, responseCode, lastError := None, None, None;
    }

    function Columns(): Row
      reads this
    {
      Row(status, attempts, nextAttemptAt, lockedAt, sentAt, responseCode, lastError)
    }

    /** First transaction of `dispatch_delivery`: from the SELECT to the commit. */
    method TakeClaim(dueAt: int, target: Target, now: int) returns (claim: Option<Claim>)
      modifies this
      ensures (Columns(), claim) == ClaimStep(old(Columns()), dueAt, target, now)
    {
      if !(status == Pending || (status == Failed && nextAttemptAt <= dueAt)) { return None; }
      if target.ChannelMissing? {
        status := Dead;
        lastError := Some("channel or notification missing");
        return None;
      }
      if target.ChannelDisabled? {
        status := Dead;
        lastError := Some("channel disabled before delivery");
        return None;
      }
      if target.Undecryptable? {
        status := Dead;
        lastError := Some(target.reason);
        return None;
      }
      status := Sending;
      lockedAt := Some(now);
      return Some(Claim(now, attempts));
    }

    /** Second transaction: the outcome, unless the row has changed hands. */
    method RecordOutcome(claim: Claim, result: WebhookResult, now: int, jitter: real)
      requires JitterOk(claim.attemptsSoFar + 1, jitter)
      modifies this
      ensures Columns() == RecordStep(old(Columns()), claim, result, now, jitter)
    {
      if status != Sending || lockedAt != Some(claim.token) { return; }
      if result.ok {
        status, sentAt, responseCode, lastError := Sent, Some(now), result.statusCode, None;
        return;
      }
      if result.statusCode == Some(429) {
        attempts, responseCode, lastError := claim.attemptsSoFar + 1, result.statusCode, Some(result.error);
        if attempts >= MAX_ATTEMPTS {
          status := Dead;
        } else {
          status := Failed;
          var wait := if result.retryAfter.Some? && result.retryAfter.value != 0 then result.retryAfter.value else 60;
          nextAttemptAt := now + wait * SECOND;
        }
        return;
      }
      if result.statusCode.Some? && 400 <= result.statusCode.value < 500 {
        status, responseCode, lastError := Dead, result.statusCode, Some(result.error);
        return;
      }
      attempts, responseCode, lastError := claim.attemptsSoFar + 1, result.statusCode, Some(result.error);
      if attempts >= MAX_ATTEMPTS {
        status := Dead;
      } else {
        status := Failed;
        var delay := CalculateRetryDelay(attempts, jitter);
        nextAttemptAt := now + delay * SECOND;
      }
    }

    /** The UPDATE of `reconcile_deliveries`, which looks at the row again. */
    method Reclaim(cutoff: int) returns (reclaimed: bool)
      modifies this
      ensures Columns() == ReclaimStep(old(Columns()), cutoff) && reclaimed == Stuck(old(Columns()), cutoff)
    {
      reclaimed := status == Sending && lockedAt.Some? && lockedAt.value < cutoff;
      if reclaimed { status, lockedAt := Failed, None; }
    }

    /** The dashboard's retry of a dead delivery; any other one is refused. */
    method ManualRetry(now: int) returns (accepted: bool)
      modifies this
      ensures Columns() == RetryStep(old(Columns()), now) && accepted == (old(status) == Dead)
    {
      accepted := status == Dead;
      if accepted {
        status, attempts, lastError, lockedAt, nextAttemptAt := Pending, 0, None, None, now;
      }
    }
  }
}
