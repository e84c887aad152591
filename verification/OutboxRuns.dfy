/** Every interleaving of workers, reconcilers and manual retries over one outbox row. */
module OutboxRuns {
  import opened Basics
  import opened Outbox

  /** A worker between its two transactions; `epoch` numbers the claims of the row. */
  datatype Worker = Worker(claim: Claim, epoch: nat)

  /** What happened since the row was created or last retried by hand. */
  datatype Life = Life(tokens: seq<int>, retryable: nat, finals: nat, reclaims: nat, notBefore: Option<int>)

  const NEW_LIFE := Life([], 0, 0, 0, None)

  /** `workers` are in flight, `selected` holds the cutoffs of reconcilers between their
      SELECT and their UPDATE. `owner` is the claim the row belongs to, `epoch` the number of
      claims ever made, `tokens` their tokens; these and `life` are history that no step
      reads. */
  datatype World = World(clock: int, row: Row, workers: map<int, Worker>, selected: map<int, int>,
                         owner: Option<nat>, epoch: nat, tokens: seq<int>, life: Life)

  datatype Event =
    | Tick(now: int)
    | ClaimBy(id: int, dueAt: int, target: Target)
    | RecordBy(id: int, response: Response, jitter: real)
    | Crash(id: int)
    | SelectStuck(rid: int, startedAt: int)
    | UpdateStuck(rid: int)
    | RetryByHand

  ghost predicate Enabled(w: World, e: Event) {
    match e
    case Tick(now) => w.clock <= now
    case ClaimBy(id, dueAt, target) => id !in w.workers && dueAt <= w.clock
    case RecordBy(id, response, jitter) => id in w.workers && JitterOk(w.workers[id].claim.attemptsSoFar + 1, jitter)
    case Crash(id) => id in w.workers
    case SelectStuck(rid, startedAt) => startedAt <= w.clock && Stuck(w.row, startedAt - STUCK_AFTER)
    case UpdateStuck(rid) => rid in w.selected
    case RetryByHand => true
  }

  function LifeAfterOutcome(w: World, result: WebhookResult, after: Row): Life {
    if !Retryable(result) then w.life.(finals := w.life.finals + 1)
    else w.life.(retryable := w.life.retryable + 1,
                 notBefore := if after.status == Failed then Some(after.nextAttemptAt) else w.life.notBefore)
  }

  ghost function Apply(w: World, e: Event): World
    requires Enabled(w, e)
  {
    match e
    case Tick(now) => w.(clock := now)
    case ClaimBy(id, dueAt, target) =>
      var (row, claim) := ClaimStep(w.row, dueAt, target, w.clock);
      if claim == None then w.(row := row)
      else w.(row := row, workers := w.workers[id := Worker(claim.value, w.epoch + 1)], owner := Some(w.epoch + 1),
              epoch := w.epoch + 1, tokens := w.tokens + [claim.value.token],
              life := w.life.(tokens := w.life.tokens + [claim.value.token]))
    case RecordBy(id, response, jitter) =>
      var worker, result := w.workers[id], ResultOf(response);
      var row := RecordStep(w.row, worker.claim, result, w.clock, jitter);
      var left := w.(workers := w.workers - {id}, row := row);
      if Owns(w.row, worker.claim.token) then left.(owner := None, life := LifeAfterOutcome(w, result, row)) else left
    case Crash(id) => w.(workers := w.workers - {id})
    case SelectStuck(rid, startedAt) => w.(selected := w.selected[rid := startedAt - STUCK_AFTER])
    case UpdateStuck(rid) =>
      var row := ReclaimStep(w.row, w.selected[rid]);
      var left := w.(selected := w.selected - {rid}, row := row);
      if Stuck(w.row, w.selected[rid]) then left.(owner := None, life := w.life.(reclaims := w.life.reclaims + 1))
      else left
    case RetryByHand =>
      var row := RetryStep(w.row, w.clock);
      if w.row.status == Dead then w.(row := row, life := NEW_LIFE) else w.(row := row)
  }

  ghost predicate Init(w: World) {
    exists created ::
      && created <= w.clock
      && w == World(w.clock, Row(Pending, 0, created, None, None, None, None), map[], map[], None, 0, [], NEW_LIFE)
  }

  ghost predicate Next(w: World, w': World) {
    exists e :: Enabled(w, e) && w' == Apply(w, e)
  }

  ghost predicate IsRun(ws: seq<World>) {
    ws != [] && Init(ws[0]) && forall i :: 0 < i < |ws| ==> Next(ws[i - 1], ws[i])
  }

  ghost predicate Reachable(w: World) {
    exists ws :: ws != [] && IsRun(ws) && LastOf(ws) == w
  }

  // ----- the invariant -----

  /** While a claim owns the row, that claim alone carries the row's token; every other
      token in flight is smaller, and without an owner smaller than the clock. */
  ghost predicate Fenced(w: World) {
    && (w.row.status == Sending <==> w.owner.Some?)
    && (w.owner.Some? ==> w.owner.value == w.epoch && w.row.lockedAt.Some? && w.row.lockedAt.value <= w.clock)
    && (forall id :: id in w.workers ==> w.workers[id].epoch <= w.epoch)
    && (forall id, other :: id in w.workers && other in w.workers && id != other ==>
          w.workers[id].epoch != w.workers[other].epoch)
    && (forall id :: id in w.workers ==> Dated(w, w.workers[id]))
    && (forall rid :: rid in w.selected ==> w.selected[rid] <= w.clock - STUCK_AFTER)
  }

  predicate Dated(w: World, worker: Worker) {
    if w.owner == Some(worker.epoch)
    then w.row.lockedAt == Some(worker.claim.token) && worker.claim.attemptsSoFar == w.row.attempts
    else if w.owner.Some? then w.row.lockedAt.Some? && worker.claim.token < w.row.lockedAt.value
    else worker.claim.token < w.clock
  }

  predicate Accounted(w: World) {
    var life := w.life;
    && |life.tokens| == life.retryable + life.finals + life.reclaims + (if w.row.status == Sending then 1 else 0)
    && w.row.attempts == life.retryable && life.finals <= 1
    && (life.finals == 1 ==> Terminal(w.row.status))
    && (w.row.status == Sent ==> life.finals == 1)
    && life.retryable <= MAX_ATTEMPTS
    && (!Terminal(w.row.status) ==> w.row.attempts < MAX_ATTEMPTS)
    && (life.finals == 1 ==> life.retryable < MAX_ATTEMPTS)
  }

  /** The tokens of a life increase, and the last one lies before any later claim. */
  predicate Timed(w: World) {
    var life := w.life;
    && Ascending(life.tokens)
    && (w.row.status == Pending ==> life.tokens == [] && life.notBefore == None && w.row.nextAttemptAt <= w.clock)
    && (life.tokens != [] ==>
         var last := life.tokens[|life.tokens| - 1];
         && last <= w.clock
         && (w.row.status == Sending ==> w.row.lockedAt == Some(last))
         && (w.row.status == Failed ==> last < w.clock || last < w.row.nextAttemptAt))
    && (w.row.status == Sending ==> w.row.nextAttemptAt <= w.clock)
    && (life.notBefore.Some? && !Terminal(w.row.status) ==> w.row.nextAttemptAt == life.notBefore.value)
  }

  /** No token ever was later than the clock, none was smaller than one before it, and the
      life of the row is the end of its history. */
  predicate Archived(w: World) {
    |w.tokens| == w.epoch && IsEnd(w.life.tokens, w.tokens) && NeverBack(w.tokens, w.clock)
  }

  predicate IsEnd(end: seq<int>, s: seq<int>) {
    |end| <= |s| && end == s[|s| - |end|..]
  }

  predicate NeverBack(s: seq<int>, clock: int) {
    && (forall i :: 0 <= i < |s| ==> s[i] <= clock)
    && forall i, j :: 0 <= i < j < |s| ==> s[i] <= s[j]
  }

  lemma EndMore(end: seq<int>, s: seq<int>, x: int)
    requires IsEnd(end, s)
    ensures IsEnd(end + [x], s + [x])
  {}

  lemma NeverBackMore(s: seq<int>, clock: int)
    requires NeverBack(s, clock)
    ensures NeverBack(s + [clock], clock)
  {}

  ghost predicate Inv(w: World) {
    Fenced(w) && Accounted(w) && Timed(w) && Archived(w)
  }

  lemma InitInv(w: World)
    requires Init(w)
    ensures Inv(w)
  {}

  lemma NextInv(w: World, e: Event)
    requires Inv(w) && Enabled(w, e)
    ensures Inv(Apply(w, e))
  {
    hide Fenced, Accounted, Timed, Archived, Enabled, Apply;
    NextArchived(w, e);
    match e
    case Tick(_) => TickInv(w, e);
    case ClaimBy(_, _, _) => ClaimInv(w, e);
    case RecordBy(_, _, _) => RecordInv(w, e);
    case Crash(_) => CrashInv(w, e);
    case SelectStuck(_, _) => SelectInv(w, e);
    case UpdateStuck(_) => UpdateInv(w, e);
    case RetryByHand => RetryInv(w, e);
  }

  lemma NextArchived(w: World, e: Event)
    requires Archived(w) && Enabled(w, e)
    ensures Archived(Apply(w, e))
  {
    hide RecordStep, ReclaimStep, RetryStep, Stuck, Owns, ResultOf, JitterOk;
    if e.ClaimBy? { ClaimArchived(w, e); }
  }

  lemma ClaimArchived(w: World, e: Event)
    requires Archived(w) && e.ClaimBy? && Enabled(w, e)
    ensures Archived(Apply(w, e))
  {
    hide IsEnd, NeverBack;
    EndMore(w.life.tokens, w.tokens, w.clock);
    NeverBackMore(w.tokens, w.clock);
  }

  lemma TickInv(w: World, e: Event)
    requires Fenced(w) && Accounted(w) && Timed(w) && e.Tick? && Enabled(w, e)
    ensures Fenced(Apply(w, e)) && Accounted(Apply(w, e)) && Timed(Apply(w, e))
  {}

  lemma CrashInv(w: World, e: Event)
    requires Fenced(w) && Accounted(w) && Timed(w) && e.Crash? && Enabled(w, e)
    ensures Fenced(Apply(w, e)) && Accounted(Apply(w, e)) && Timed(Apply(w, e))
  {}

  lemma SelectInv(w: World, e: Event)
    requires Fenced(w) && Accounted(w) && Timed(w) && e.SelectStuck? && Enabled(w, e)
    ensures Fenced(Apply(w, e)) && Accounted(Apply(w, e)) && Timed(Apply(w, e))
  {}

  lemma UpdateInv(w: World, e: Event)
    requires Fenced(w) && Accounted(w) && Timed(w) && e.UpdateStuck? && Enabled(w, e)
    ensures Fenced(Apply(w, e)) && Accounted(Apply(w, e)) && Timed(Apply(w, e))
  {}

  lemma RetryInv(w: World, e: Event)
    requires Fenced(w) && Accounted(w) && Timed(w) && e.RetryByHand? && Enabled(w, e)
    ensures Fenced(Apply(w, e)) && Accounted(Apply(w, e)) && Timed(Apply(w, e))
  {}

  lemma ClaimInv(w: World, e: Event)
    requires Fenced(w) && Accounted(w) && Timed(w) && e.ClaimBy? && Enabled(w, e)
    ensures Fenced(Apply(w, e)) && Accounted(Apply(w, e)) && Timed(Apply(w, e))
  {
    hide Fenced, Accounted, Timed, Enabled, Apply;
    ClaimFenced(w, e);
    ClaimAccounted(w, e);
    ClaimTimed(w, e);
  }

  lemma ClaimFenced(w: World, e: Event)
    requires Fenced(w) && e.ClaimBy? && Enabled(w, e)
    ensures Fenced(Apply(w, e))
  {}

  lemma ClaimAccounted(w: World, e: Event)
    requires Accounted(w) && Timed(w) && e.ClaimBy? && Enabled(w, e)
    ensures Accounted(Apply(w, e))
  {}

  lemma ClaimTimed(w: World, e: Event)
    requires Accounted(w) && Timed(w) && e.ClaimBy? && Enabled(w, e)
    ensures Timed(Apply(w, e))
  {
    hide Ascending;
    if w.life.tokens == [] || LastOf(w.life.tokens) < w.clock {
      AscendingMore(w.life.tokens, w.clock);
    }
  }

  lemma AscendingMore(s: seq<int>, x: int)
    requires Ascending(s) && (s != [] ==> LastOf(s) < x)
    ensures Ascending(s + [x])
  {}

  lemma RecordInv(w: World, e: Event)
    requires Fenced(w) && Accounted(w) && Timed(w) && e.RecordBy? && Enabled(w, e)
    ensures Fenced(Apply(w, e)) && Accounted(Apply(w, e)) && Timed(Apply(w, e))
  {
    hide Fenced, Accounted, Timed, Enabled, Apply;
    RecordFenced(w, e);
    RecordAccounted(w, e);
    RecordTimed(w, e);
  }

  lemma RecordFenced(w: World, e: Event)
    requires Fenced(w) && e.RecordBy? && Enabled(w, e)
    ensures Fenced(Apply(w, e))
  {
    hide Wait, ResultOf;
  }

  lemma RecordAccounted(w: World, e: Event)
    requires Fenced(w) && Accounted(w) && e.RecordBy? && Enabled(w, e)
    ensures Accounted(Apply(w, e))
  {
    hide Wait, ResultOf;
  }

  lemma RecordTimed(w: World, e: Event)
    requires Fenced(w) && Accounted(w) && Timed(w) && e.RecordBy? && Enabled(w, e)
    ensures Timed(Apply(w, e))
  {
    hide CalculateRetryDelay, ParseRetryAfter;
  }

  lemma {:induction false} RunInv(ws: seq<World>)
    requires IsRun(ws)
    ensures forall i :: 0 <= i < |ws| ==> Inv(ws[i])
    decreases |ws|
  {
    hide Inv, Init, Next;
    if |ws| == 1 {
      InitInv(ws[0]);
    } else {
      var front := ws[..|ws| - 1];
      RunInv(front);
      StepInv(ws[|ws| - 2], ws[|ws| - 1]);
    }
  }

  lemma StepInv(w: World, w': World)
    requires Inv(w) && Next(w, w')
    ensures Inv(w')
  {
    hide Inv, Apply, Enabled;
    var e :| Enabled(w, e) && w' == Apply(w, e);
    NextInv(w, e);
  }

  lemma ReachableInv(w: World)
    requires Reachable(w)
    ensures Inv(w)
  {
    hide Inv, IsRun;
    var ws :| ws != [] && IsRun(ws) && LastOf(ws) == w;
    RunInv(ws);
  }

  // ----- the fence -----

  /** The token test is ownership: a worker passes it exactly when the row belongs to its
      own claim, so after a reclaim or a later claim it never does again. */
  lemma FenceIsOwnership(w: World, id: int)
    requires Reachable(w) && id in w.workers
    ensures Owns(w.row, w.workers[id].claim.token) <==> w.owner == Some(w.workers[id].epoch)
  {
    hide Reachable;
    ReachableInv(w);
  }

  /** A worker whose claim is no longer the owner leaves the row as it is. */
  lemma StaleOutcomeIsDropped(w: World, id: int, response: Response, jitter: real)
    requires Reachable(w) && Enabled(w, RecordBy(id, response, jitter))
    requires w.owner != Some(w.workers[id].epoch)
    ensures Apply(w, RecordBy(id, response, jitter)).row == w.row
  {
    FenceIsOwnership(w, id);
  }

  lemma AtMostOneOwner(w: World, id: int, other: int)
    requires Reachable(w) && id in w.workers && other in w.workers && id != other
    ensures !(Owns(w.row, w.workers[id].claim.token) && Owns(w.row, w.workers[other].claim.token))
  {
    FenceIsOwnership(w, id);
    FenceIsOwnership(w, other);
    hide Reachable;
    ReachableInv(w);
  }

  /** A new claim takes a token above every token still in flight. */
  lemma ClaimTakesNewToken(w: World, e: Event, id: int)
    requires Reachable(w) && e.ClaimBy? && Enabled(w, e) && Apply(w, e).epoch != w.epoch && id in w.workers
    ensures w.workers[id].claim.token < Apply(w, e).workers[e.id].claim.token
  {
    hide Reachable;
    ReachableInv(w);
  }

  /** Between two manual retries the successive tokens of a row strictly increase. */
  lemma TokensIncrease(w: World)
    requires Reachable(w)
    ensures Ascending(w.life.tokens)
  {
    hide Reachable;
    ReachableInv(w);
  }

  /** Over the whole history a new token is no smaller than any before it. It repeats the last
      one exactly when the clock has not moved since, and then the row has been retried by
      hand in between. */
  lemma TokenRepeatsExactly(w: World, e: Event)
    requires Reachable(w) && e.ClaimBy? && Enabled(w, e) && Apply(w, e).epoch != w.epoch
    ensures var tokens := Apply(w, e).tokens;
            && tokens == w.tokens + [w.clock]
            && (forall i :: 0 <= i < |w.tokens| ==> w.tokens[i] <= w.clock)
            && (w.tokens != [] ==>
                 && (w.clock == LastOf(w.tokens) <==> w.clock in w.tokens)
                 && (w.clock == LastOf(w.tokens) ==> w.life.tokens == []))
  {
    hide Reachable;
    ReachableInv(w);
    if w.life.tokens != [] { assert LastOf(w.life.tokens) == LastOf(w.tokens); }
  }

  /** Only the manual retry starts a new life. */
  lemma OnlyRetryStartsAgain(w: World, w': World)
    requires Next(w, w') && w.life.tokens != [] && w'.life.tokens == []
    ensures IsRetry(w, w')
  {}

  /** Between a claim and a world in which the row has none in its present life, the row was
      retried by hand. */
  lemma {:induction false} RetryInBetween(ws: seq<World>, i: nat, j: nat)
    requires IsRun(ws) && i <= j < |ws| && ws[i].life.tokens != [] && ws[j].life.tokens == []
    ensures exists k :: i < k <= j && IsRetry(ws[k - 1], ws[k])
    decreases j - i
  {
    hide Next, Init, IsRetry;
    if i == j {
      assert false;
    } else if ws[j - 1].life.tokens == [] {
      RetryInBetween(ws, i, j - 1);
    } else {
      OnlyRetryStartsAgain(ws[j - 1], ws[j]);
    }
  }

  const REVOKED := Responded(404, Absent, "HTTP 404")

  /** A run in which a token comes twice: claimed, refused by the webhook, retried by hand and
      claimed again, all in the same microsecond. */
  lemma TokenCanRepeat(clock: int) returns (ws: seq<World>)
    ensures ws != [] && IsRun(ws) && LastOf(ws).tokens == [clock, clock]
  {
    var w0 := World(clock, Row(Pending, 0, clock, None, None, None, None), map[], map[], None, 0, [], NEW_LIFE);
    var e1, e2, e3, e4 := ClaimBy(1, clock, Ready), RecordBy(1, REVOKED, 0.0), RetryByHand, ClaimBy(2, clock, Ready);
    var w1 := Apply(w0, e1);
    var w2 := Apply(w1, e2);
    var w3 := Apply(w2, e3);
    assert w3.row.status == Pending;
    var w4 := Apply(w3, e4);
    ws := [w0, w1, w2, w3, w4];
    assert Next(w0, w1) && Next(w1, w2) && Next(w2, w3) && Next(w3, w4);
  }

  /** A terminal row stays as it is: `sent` for ever, `dead` until a manual retry. */
  lemma {:induction false} TerminalIsFinal(ws: seq<World>, i: nat, j: nat)
    requires IsRun(ws) && i <= j < |ws| && Terminal(ws[i].row.status)
    ensures ws[i].row.status == Sent ==> ws[j].row == ws[i].row
    ensures ws[j].row == ws[i].row || exists k :: i < k <= j && IsRetry(ws[k - 1], ws[k])
    decreases j - i
  {
    hide Apply, Enabled, Init;
    if i == j {
    } else {
      TerminalIsFinal(ws, i, j - 1);
      assert Next(ws[j - 1], ws[j]);
      if ws[j - 1].row == ws[i].row { TerminalStep(ws[j - 1], ws[j]); }
    }
  }

  predicate IsRetry(w: World, w': World) {
    w.row.status == Dead && w'.row == RetryStep(w.row, w.clock)
  }

  lemma TerminalStep(w: World, w': World)
    requires Next(w, w') && Terminal(w.row.status)
    ensures w'.row == w.row || IsRetry(w, w')
  {}

  // ----- accounting -----

  /** Claims are outcomes, reclaims and possibly one claim under way; attempts are the
      retryable outcomes and stay below the limit until the row is dead. */
  lemma Accounting(w: World)
    requires Reachable(w)
    ensures |w.life.tokens|
         == w.life.retryable + w.life.finals + w.life.reclaims + (if w.row.status == Sending then 1 else 0)
    ensures w.row.attempts == w.life.retryable
    ensures !Terminal(w.row.status) ==> w.row.attempts < MAX_ATTEMPTS
  {
    hide Reachable;
    ReachableInv(w);
  }

  /** An outcome that is written asks for a backoff only while the schedule has one, and
      the last entry of the schedule is never asked for. */
  lemma BackoffInRange(w: World, id: int, response: Response, jitter: real)
    requires Reachable(w) && Enabled(w, RecordBy(id, response, jitter)) && Owns(w.row, w.workers[id].claim.token)
    ensures var attempt := w.workers[id].claim.attemptsSoFar + 1;
            && 1 <= attempt <= MAX_ATTEMPTS && attempt == w.row.attempts + 1
            && (Apply(w, RecordBy(id, response, jitter)).row.status == Failed ==> attempt < MAX_ATTEMPTS)
  {
    hide Reachable;
    ReachableInv(w);
  }

  /** How long a retryable outcome keeps the row away from the webhook. */
  lemma WaitAfterOutcome(row: Row, claim: Claim, response: Response, now: int, jitter: real)
    requires row.status == Sending && row.lockedAt == Some(claim.token) && 0 <= claim.attemptsSoFar
    requires JitterOk(claim.attemptsSoFar + 1, jitter)
    requires RecordStep(row, claim, ResultOf(response), now, jitter).status == Failed
    ensures var wait := RecordStep(row, claim, ResultOf(response), now, jitter).nextAttemptAt - now;
            if response.Responded? && response.code == 429 then wait == ParseRetryAfter(response.retryAfter) * SECOND
            else
              var base := [30, 120, 600, 3600][claim.attemptsSoFar] * SECOND;
              base <= wait && 5 * wait <= 6 * base
  {
    assert BACKOFF_SCHEDULE_SECONDS[claim.attemptsSoFar] == [30, 120, 600, 3600][claim.attemptsSoFar];
  }

  /** No claim before the wait of the last retryable outcome is over. */
  lemma NoClaimBeforeWait(w: World, e: Event)
    requires Reachable(w) && e.ClaimBy? && Enabled(w, e) && Apply(w, e).epoch != w.epoch
    ensures w.life.notBefore.Some? ==> w.life.notBefore.value <= w.clock
  {
    hide Reachable;
    ReachableInv(w);
  }

  // ----- progress -----

  /** A row that is not terminal is being sent, waits for its time, or is picked up by a
      reconciler that starts now; a reclaimed row is due at once. */
  lemma NothingIsLost(w: World)
    requires Reachable(w) && !Terminal(w.row.status)
    ensures var cutoff := w.clock - STUCK_AFTER;
            || (w.row.status == Sending && w.row.lockedAt.Some? && cutoff <= w.row.lockedAt.value <= w.clock)
            || (w.row.status == Failed && w.clock < w.row.nextAttemptAt)
            || Due(w.row, w.clock)
            || (Stuck(w.row, cutoff) && Due(ReclaimStep(w.row, cutoff), w.clock))
  {
    hide Reachable;
    ReachableInv(w);
  }

  /** A due row is claimed by the next worker whose clock is not behind. */
  lemma DueIsClaimed(w: World, id: int, dueAt: int, now: int)
    requires Due(w.row, now) && now <= dueAt && Enabled(w, ClaimBy(id, dueAt, Ready))
    ensures Apply(w, ClaimBy(id, dueAt, Ready)).row.status == Sending
  {}

  /** A row that is neither terminal, nor freshly being sent, nor waiting can be on its way
      again without the clock moving: a reconciler reclaims it if need be, a worker claims. */
  lemma PickedUp(w: World, id: int, rid: int) returns (w': World)
    requires Reachable(w) && !Terminal(w.row.status) && id !in w.workers && rid !in w.selected
    requires !(w.row.status == Sending && w.row.lockedAt.Some? && w.clock - STUCK_AFTER <= w.row.lockedAt.value)
    requires !(w.row.status == Failed && w.clock < w.row.nextAttemptAt)
    ensures Reachable(w') && w'.clock == w.clock && w'.row.status == Sending && w'.row.lockedAt == Some(w.clock)
  {
    hide Reachable;
    NothingIsLost(w);
    w' := w;
    if Stuck(w.row, w.clock - STUCK_AFTER) {
      w' := Apply(w', SelectStuck(rid, w.clock));
      GoesOn(w, SelectStuck(rid, w.clock));
      GoesOn(w', UpdateStuck(rid));
      w' := Apply(w', UpdateStuck(rid));
    }
    DueIsClaimed(w', id, w.clock, w.clock);
    GoesOn(w', ClaimBy(id, w.clock, Ready));
    w' := Apply(w', ClaimBy(id, w.clock, Ready));
  }

  lemma GoesOn(w: World, e: Event)
    requires Reachable(w) && Enabled(w, e)
    ensures Reachable(Apply(w, e))
  {
    hide Enabled, Apply, Init;
    var ws :| ws != [] && IsRun(ws) && LastOf(ws) == w;
    var longer := ws + [Apply(w, e)];
    assert Next(w, Apply(w, e));
    assert IsRun(longer) && LastOf(longer) == Apply(w, e);
  }

  /** Apart from reclaimed claims, a row is claimed at most five times; when as many claims
      have recorded an outcome the row is terminal. */
  lemma ClaimsAreBounded(w: World)
    requires Reachable(w)
    ensures |w.life.tokens| - w.life.reclaims <= MAX_ATTEMPTS
    ensures w.life.retryable + w.life.finals == MAX_ATTEMPTS ==> Terminal(w.row.status)
  {
    hide Reachable;
    ReachableInv(w);
  }

  // ----- what a response, a target or a retry leads to -----

  /** The answer of the webhook to a worker that still owns the row, from the response alone: a 2xx
      is sent; any other 4xx than 429 is dead at once and costs no attempt; everything else costs one
      and fails, or is dead on the fifth. */
  lemma OutcomeByResponse(row: Row, claim: Claim, response: Response, now: int, jitter: real)
    requires row.status == Sending && row.lockedAt == Some(claim.token) && JitterOk(claim.attemptsSoFar + 1, jitter)
    ensures var after := RecordStep(row, claim, ResultOf(response), now, jitter);
            if response.Responded? && 200 <= response.code < 300 then
              after == row.(status := Sent, sentAt := Some(now), responseCode := Some(response.code), lastError := None)
            else if response.Responded? && 400 <= response.code < 500 && response.code != 429 then
              after == row.(status := Dead, responseCode := Some(response.code), lastError := Some(response.error))
            else
              && after.status == (if claim.attemptsSoFar < 4 then Failed else Dead)
              && after.attempts == claim.attemptsSoFar + 1
              && after.responseCode == (if response.Responded? then Some(response.code) else None)
              && after.lastError.Some? && after.sentAt == row.sentAt && after.lockedAt == row.lockedAt
              && (after.status == Dead ==> after.nextAttemptAt == row.nextAttemptAt)
  {}

  /** In every run: what becomes of the row when the worker that owns it hears from the webhook. */
  lemma OwnedOutcome(w: World, id: int, response: Response, jitter: real)
    requires Reachable(w) && Enabled(w, RecordBy(id, response, jitter))
    requires w.row.status == Sending && w.row.lockedAt == Some(w.workers[id].claim.token)
    ensures var row, after := w.row, Apply(w, RecordBy(id, response, jitter)).row;
            var final := response.Responded? && 400 <= response.code < 500 && response.code != 429;
            var sent := response.Responded? && 200 <= response.code < 300;
            && (after.status == Sent <==> sent)
            && (after.status == Failed <==> !sent && !final && row.attempts < 4)
            && (after.status == Dead <==> final || (!sent && row.attempts >= 4))
            && after.attempts == (if sent || final then row.attempts else row.attempts + 1)
  {
    hide Reachable, RecordStep;
    ReachableInv(w);
    OutcomeByResponse(w.row, w.workers[id].claim, response, w.clock, jitter);
  }

  /** A claim is made exactly of a row that waits for one, with a target that can be sent to; a row that
      waits with any other target is dead, and a row that does not wait is left alone. */
  lemma ClaimedWhenReady(row: Row, dueAt: int, target: Target, now: int)
    ensures var (after, claim) := ClaimStep(row, dueAt, target, now);
            var waits := row.status == Pending || (row.status == Failed && row.nextAttemptAt <= dueAt);
            && (claim.Some? <==> waits && target == Ready)
            && (claim.Some? ==> after == row.(status := Sending, lockedAt := Some(now))
                                && claim.value == Claim(now, row.attempts))
            && (waits && target != Ready ==>
                  after == row.(status := Dead, lastError := after.lastError) && after.lastError.Some?)
            && (!waits ==> after == row)
  {}

  /** A reclaim takes the row from a claim that is more than ten minutes old, and makes it due. */
  lemma ReclaimsAreLate(w: World, rid: int)
    requires Reachable(w) && Enabled(w, UpdateStuck(rid)) && Apply(w, UpdateStuck(rid)).row != w.row
    ensures w.row.status == Sending && w.row.lockedAt.Some? && w.row.lockedAt.value + 600 * SECOND < w.clock
    ensures Apply(w, UpdateStuck(rid)).row == w.row.(status := Failed, lockedAt := None)
    ensures Due(Apply(w, UpdateStuck(rid)).row, w.clock)
  {
    hide Reachable;
    ReachableInv(w);
  }

  /** A dead delivery that is retried is like one just created, save what is known of its past. */
  lemma RetriedIsNew(row: Row, now: int)
    requires row.status == Dead
    ensures RetryStep(row, now).(sentAt := None, responseCode := None) == Row(Pending, 0, now, None, None, None, None)
    ensures RetryStep(row, now).sentAt == row.sentAt && RetryStep(row, now).responseCode == row.responseCode
  {}
}
