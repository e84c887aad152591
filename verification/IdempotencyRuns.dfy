/** Every interleaving of requests with the same receiver and `X-Request-Id`. */
module IdempotencyRuns {
  import opened Basics
  import opened Idempotency

  /** Where a request stands. `Failing` may still release the key; `Stored` has been through
      `store_response`, whether or not that reached the key. */
  datatype Phase =
    | Polling(deadline: int)
    | TryingSet(deadline: int)
    | Checking(deadline: int)
    | Owner(reservedAt: int)
    | Failing(reservedAt: int)
    | Gone
    | Saved(reservedAt: int, body: string)
    | Stored(reservedAt: int, body: string)
    | Answered(body: string)
    | Refused

  datatype Request = Request(token: string, phase: Phase)

  /** `author` is the request whose value the key last received: history, read by no step. */
  datatype World = World(clock: int, entry: Option<Entry>, requests: map<int, Request>, author: int)

  datatype Event =
    | Tick(now: int)
    | Start(id: int, token: string)
    | PollGet(id: int)
    | PollSet(id: int)
    | PollCheck(id: int)
    | Commit(id: int, body: string)
    | Fail(id: int)
    | Release(id: int)
    | Store(id: int)
    | StoreLost(id: int)

  predicate In(w: World, id: int) {
    id in w.requests
  }

  ghost predicate Enabled(w: World, e: Event) {
    match e
    case Tick(now) => w.clock <= now
    case Start(id, token) => !In(w, id) && forall other :: In(w, other) ==> w.requests[other].token != token
    case PollGet(id) => In(w, id) && w.requests[id].phase.Polling?
    case PollSet(id) => In(w, id) && w.requests[id].phase.TryingSet?
    case PollCheck(id) => In(w, id) && w.requests[id].phase.Checking?
    case Commit(id, body) => In(w, id) && w.requests[id].phase.Owner? && IsJsonObject(body)
    case Fail(id) => In(w, id) && w.requests[id].phase.Owner?
    case Release(id) => In(w, id) && w.requests[id].phase.Failing?
    case Store(id) => In(w, id) && w.requests[id].phase.Saved?
    case StoreLost(id) => In(w, id) && w.requests[id].phase.Saved?
  }

  function To(w: World, id: int, phase: Phase): World
    requires In(w, id)
  {
    w.(requests := w.requests[id := w.requests[id].(phase := phase)])
  }

  /** SET NX by a request: it owns the key, or goes on to `otherwise`. */
  function TakeKey(w: World, id: int, otherwise: Phase): World
    requires In(w, id)
  {
    var (entry, wasSet) := SetNx(w.entry, w.clock, Sentinel(w.requests[id].token));
    if wasSet then To(w, id, Owner(w.clock)).(entry := entry, author := id) else To(w, id, otherwise)
  }

  ghost function Apply(w: World, e: Event): World
    requires Enabled(w, e)
  {
    match e
    case Tick(now) => w.(clock := now)
    case Start(id, token) =>
      TakeKey(w.(requests := w.requests[id := Request(token, Refused)]), id, Polling(w.clock + WAIT))
    case PollGet(id) =>
      var deadline := w.requests[id].phase.deadline;
      var stored := Get(w.entry, w.clock);
      if stored == None then To(w, id, TryingSet(deadline))
      else if !IsSentinel(stored.value) then To(w, id, Answered(stored.value))
      else To(w, id, Checking(deadline))
    case PollSet(id) => TakeKey(w, id, Checking(w.requests[id].phase.deadline))
    case PollCheck(id) =>
      var deadline := w.requests[id].phase.deadline;
      To(w, id, if w.clock >= deadline then Refused else Polling(deadline))
    case Commit(id, body) => To(w, id, Saved(w.requests[id].phase.reservedAt, body))
    case Fail(id) => To(w, id, Failing(w.requests[id].phase.reservedAt))
    case Release(id) => To(w, id, Gone).(entry := CompareAndDelete(w.entry, w.clock, Sentinel(w.requests[id].token)))
    case Store(id) =>
      var phase := w.requests[id].phase;
      var entry := CompareAndStore(w.entry, w.clock, Sentinel(w.requests[id].token), phase.body);
      To(w, id, Stored(phase.reservedAt, phase.body)).(entry := entry)
    case StoreLost(id) => To(w, id, Stored(w.requests[id].phase.reservedAt, w.requests[id].phase.body))
  }

  ghost predicate Next(w: World, w': World) {
    exists e :: Enabled(w, e) && w' == Apply(w, e)
  }

  ghost predicate IsRun(ws: seq<World>) {
    ws != [] && ws[0].entry == None && ws[0].requests == map[] && forall i :: 0 < i < |ws| ==> Next(ws[i - 1], ws[i])
  }

  ghost predicate Reachable(w: World) {
    exists ws :: ws != [] && IsRun(ws) && LastOf(ws) == w
  }

  // ----- the invariant -----

  /** The notification of this request exists, or may still come to exist. */
  predicate Kept(phase: Phase) {
    phase.Owner? || phase.Saved? || phase.Stored?
  }

  ghost predicate DistinctTokens(w: World) {
    forall id, other :: In(w, id) && In(w, other) && id != other ==> w.requests[id].token != w.requests[other].token
  }

  /** The key holds the sentinel or the committed body of its author. */
  ghost predicate Authored(w: World) {
    w.entry.Some? ==>
      && In(w, w.author)
      && var author := w.requests[w.author];
      && (w.entry.value.value == Sentinel(author.token)
          || (author.phase.Stored? && w.entry.value.value == author.phase.body))
  }

  /** A request that may lead to a notification guards the key for a whole window. */
  predicate Guarded(w: World, id: int)
    requires In(w, id)
  {
    Kept(w.requests[id].phase) && w.clock < w.requests[id].phase.reservedAt + WINDOW ==>
      w.entry.Some? && w.author == id && w.requests[id].phase.reservedAt + WINDOW <= w.entry.value.expiresAt
  }

  predicate BodyOk(w: World, id: int)
    requires In(w, id)
  {
    var phase := w.requests[id].phase;
    && (phase.Saved? || phase.Stored? ==> IsJsonObject(phase.body))
    && (Kept(phase) ==> phase.reservedAt <= w.clock)
  }

  ghost predicate StoredSomewhere(w: World, body: string) {
    exists id :: In(w, id) && w.requests[id].phase.Stored? && w.requests[id].phase.body == body
  }

  predicate Apart(w: World, id: int, other: int)
    requires In(w, id) && In(w, other)
  {
    var a, b := w.requests[id].phase, w.requests[other].phase;
    Kept(a) && Kept(b) ==> a.reservedAt + WINDOW <= b.reservedAt || b.reservedAt + WINDOW <= a.reservedAt
  }

  ghost predicate Inv(w: World) {
    && DistinctTokens(w) && Authored(w)
    && (forall id :: In(w, id) ==> Guarded(w, id) && BodyOk(w, id))
    && (forall id :: In(w, id) && w.requests[id].phase.Answered? ==> StoredSomewhere(w, w.requests[id].phase.body))
    && (forall id, other :: In(w, id) && In(w, other) && id != other ==> Apart(w, id, other))
  }

  lemma NextInv(w: World, e: Event)
    requires Inv(w) && Enabled(w, e)
    ensures Inv(Apply(w, e))
  {
    hide Sentinel, IsSentinel, IsJsonObject;
    match e
    case Tick(_) => TickInv(w, e);
    case Start(id, token) => StartInv(w, e);
    case PollGet(id) => PollGetInv(w, e);
    case PollSet(id) => TakeKeyInv(w, id, Checking(w.requests[id].phase.deadline));
    case PollCheck(id) =>
      var deadline := w.requests[id].phase.deadline;
      PhaseInv(w, id, if w.clock >= deadline then Refused else Polling(deadline));
    case Commit(id, body) => PhaseInv(w, id, Saved(w.requests[id].phase.reservedAt, body));
    case Fail(id) => PhaseInv(w, id, Failing(w.requests[id].phase.reservedAt));
    case Release(id) => ReleaseInv(w, e);
    case Store(id) => StoreInv(w, e);
    case StoreLost(id) => PhaseInv(w, id, Stored(w.requests[id].phase.reservedAt, w.requests[id].phase.body));
  }

  lemma TickInv(w: World, e: Event)
    requires Inv(w) && e.Tick? && Enabled(w, e)
    ensures Inv(Apply(w, e))
  {
    hide Sentinel, IsSentinel, IsJsonObject;
    var w' := Apply(w, e);
    assert forall id :: In(w', id) ==> In(w, id) && Guarded(w, id) && BodyOk(w, id);
    assert forall id, other :: In(w', id) && In(w', other) && id != other ==> Apart(w, id, other);
    forall id | In(w', id) && w'.requests[id].phase.Answered? ensures StoredSomewhere(w', w'.requests[id].phase.body) {
      SameRequests(w, w', w'.requests[id].phase.body);
    }
  }

  lemma SameRequests(w: World, w': World, body: string)
    requires w.requests == w'.requests && StoredSomewhere(w, body)
    ensures StoredSomewhere(w', body)
  {
    var id :| In(w, id) && w.requests[id].phase.Stored? && w.requests[id].phase.body == body;
    assert In(w', id);
  }

  /** A request that moves on without touching the key: it may give up, commit, or go on
      polling, but not gain a reservation. */
  lemma PhaseInv(w: World, id: int, phase: Phase)
    requires Inv(w) && In(w, id)
    requires var before := w.requests[id].phase;
             && !before.Stored? && !phase.Answered?
             && (Kept(phase) ==> Kept(before) && phase.reservedAt == before.reservedAt)
             && (phase.Saved? || phase.Stored? ==> IsJsonObject(phase.body))
    ensures Inv(To(w, id, phase))
  {
    hide Sentinel, IsSentinel, IsJsonObject;
    var w' := To(w, id, phase);
    forall other | In(w', other) ensures Guarded(w', other) && BodyOk(w', other) {
      assert In(w, other) && Guarded(w, other) && BodyOk(w, other);
    }
    forall a, b | In(w', a) && In(w', b) && a != b ensures Apart(w', a, b) {
      assert In(w, a) && In(w, b) && Apart(w, a, b);
    }
    AnswersKept(w, w', id);
  }

  /** Bodies stay where they were stored. */
  lemma AnswersKept(w: World, w': World, id: int)
    requires Inv(w) && In(w, id) && !w.requests[id].phase.Stored?
    requires id in w'.requests && w'.requests == w.requests[id := w'.requests[id]] && !w'.requests[id].phase.Answered?
    ensures forall other :: In(w', other) && w'.requests[other].phase.Answered? ==>
      StoredSomewhere(w', w'.requests[other].phase.body)
  {
    forall other | In(w', other) && w'.requests[other].phase.Answered?
      ensures StoredSomewhere(w', w'.requests[other].phase.body)
    {
      assert In(w, other);
      var body := w.requests[other].phase.body;
      var holder :| In(w, holder) && w.requests[holder].phase.Stored? && w.requests[holder].phase.body == body;
      assert In(w', holder) && w'.requests[holder] == w.requests[holder];
    }
  }

  /** SET NX succeeds only when every earlier reservation that still counts is a whole
      window old. */
  lemma TakeKeyInv(w: World, id: int, otherwise: Phase)
    requires Inv(w) && In(w, id) && !Kept(w.requests[id].phase)
    requires otherwise.Polling? || otherwise.Checking?
    ensures Inv(TakeKey(w, id, otherwise))
  {
    hide Sentinel, IsSentinel, IsJsonObject;
    if Get(w.entry, w.clock) == None {
      var w' := TakeKey(w, id, otherwise);
      forall other | In(w', other) ensures Guarded(w', other) && BodyOk(w', other) {
        assert In(w, other) && Guarded(w, other) && BodyOk(w, other);
      }
      forall a, b | In(w', a) && In(w', b) && a != b ensures Apart(w', a, b) {
        assert In(w, a) && In(w, b) && Apart(w, a, b) && Guarded(w, a) && Guarded(w, b) && BodyOk(w, a) && BodyOk(w, b);
      }
      AnswersKept(w, w', id);
    } else {
      PhaseInv(w, id, otherwise);
    }
  }

  lemma StartInv(w: World, e: Event)
    requires Inv(w) && e.Start? && Enabled(w, e)
    ensures Inv(Apply(w, e))
  {
    hide Sentinel, IsSentinel, IsJsonObject, TakeKey;
    var w' := w.(requests := w.requests[e.id := Request(e.token, Refused)]);
    assert forall id :: In(w', id) && id != e.id ==> In(w, id) && Guarded(w, id) && BodyOk(w, id);
    forall a, b | In(w', a) && In(w', b) && a != b ensures Apart(w', a, b) {
      if a != e.id && b != e.id { assert In(w, a) && In(w, b) && Apart(w, a, b); }
    }
    forall id | In(w', id) && w'.requests[id].phase.Answered? ensures StoredSomewhere(w', w'.requests[id].phase.body) {
      var holder :| In(w, holder) && w.requests[holder].phase.Stored?
        && w.requests[holder].phase.body == w.requests[id].phase.body;
      assert In(w', holder);
    }
    TakeKeyInv(w', e.id, Polling(w.clock + WAIT));
  }

  lemma PollGetInv(w: World, e: Event)
    requires Inv(w) && e.PollGet? && Enabled(w, e)
    ensures Inv(Apply(w, e))
  {
    hide Sentinel;
    var id := e.id;
    var deadline, stored := w.requests[id].phase.deadline, Get(w.entry, w.clock);
    if stored == None {
      PhaseInv(w, id, TryingSet(deadline));
    } else if IsSentinel(stored.value) {
      PhaseInv(w, id, Checking(deadline));
    } else {
      AnswerInv(w, id, stored.value);
    }
  }

  /** What a GET finds that is no sentinel is a body its author committed and stored. */
  lemma AnswerInv(w: World, id: int, body: string)
    requires Inv(w) && In(w, id) && w.requests[id].phase.Polling?
    requires Get(w.entry, w.clock) == Some(body) && !IsSentinel(body)
    ensures Inv(To(w, id, Answered(body)))
  {
    hide IsJsonObject;
    var author := w.requests[w.author];
    assert body != Sentinel(author.token) by { SentinelIsSentinel(author.token); }
    var w' := To(w, id, Answered(body));
    assert In(w', w.author) && StoredSomewhere(w', body);
    forall other | In(w', other) ensures Guarded(w', other) && BodyOk(w', other) {
      assert In(w, other) && Guarded(w, other) && BodyOk(w, other);
    }
    forall a, b | In(w', a) && In(w', b) && a != b ensures Apart(w', a, b) {
      assert In(w, a) && In(w, b) && Apart(w, a, b);
    }
    forall other | In(w', other) && w'.requests[other].phase.Answered?
      ensures StoredSomewhere(w', w'.requests[other].phase.body)
    {
      if other != id {
        assert In(w, other);
        var holder :| In(w, holder) && w.requests[holder].phase.Stored?
          && w.requests[holder].phase.body == w.requests[other].phase.body;
        assert In(w', holder);
      }
    }
  }

  lemma SentinelIsSentinel(token: string)
    ensures IsSentinel(Sentinel(token))
  {}

  /** The two scripts reach the key only for its author. */
  lemma OnlyTheAuthor(w: World, id: int)
    requires Inv(w) && In(w, id) && w.entry.Some? && w.entry.value.value == Sentinel(w.requests[id].token)
    ensures w.author == id
  {
    hide Guarded, Apart;
    var author := w.requests[w.author];
    if w.entry.value.value == Sentinel(author.token) {
      SentinelsDiffer(author.token, w.requests[id].token);
    } else {
      assert BodyOk(w, w.author);
      BodyIsNoSentinel(author.phase.body);
      assert false;
    }
  }

  lemma ReleaseInv(w: World, e: Event)
    requires Inv(w) && e.Release? && Enabled(w, e)
    ensures Inv(Apply(w, e))
  {
    hide Sentinel, IsSentinel, IsJsonObject;
    var id, w' := e.id, Apply(w, e);
    if Get(w.entry, w.clock) == Some(Sentinel(w.requests[id].token)) { OnlyTheAuthor(w, id); }
    forall other | In(w', other) ensures Guarded(w', other) && BodyOk(w', other) {
      assert In(w, other) && Guarded(w, other) && BodyOk(w, other);
    }
    forall a, b | In(w', a) && In(w', b) && a != b ensures Apart(w', a, b) {
      assert In(w, a) && In(w, b) && Apart(w, a, b);
    }
    AnswersKept(w, w', id);
  }

  lemma StoreInv(w: World, e: Event)
    requires Inv(w) && e.Store? && Enabled(w, e)
    ensures Inv(Apply(w, e))
  {
    hide Sentinel, IsSentinel, IsJsonObject;
    var id, w' := e.id, Apply(w, e);
    if Get(w.entry, w.clock) == Some(Sentinel(w.requests[id].token)) { OnlyTheAuthor(w, id); }
    forall other | In(w', other) ensures Guarded(w', other) && BodyOk(w', other) {
      assert In(w, other) && Guarded(w, other) && BodyOk(w, other);
    }
    forall a, b | In(w', a) && In(w', b) && a != b ensures Apart(w', a, b) {
      assert In(w, a) && In(w, b) && Apart(w, a, b);
    }
    AnswersKept(w, w', id);
  }

  lemma {:induction false} RunInv(ws: seq<World>)
    requires IsRun(ws)
    ensures forall i :: 0 <= i < |ws| ==> Inv(ws[i])
    decreases |ws|
  {
    hide Inv, Next;
    if |ws| == 1 {
      EmptyInv(ws[0]);
    } else {
      RunInv(ws[..|ws| - 1]);
      StepInv(ws[|ws| - 2], ws[|ws| - 1]);
    }
  }

  lemma EmptyInv(w: World)
    requires w.entry == None && w.requests == map[]
    ensures Inv(w)
  {}

  lemma StepInv(w: World, w': World)
    requires Inv(w) && Next(w, w')
    ensures Inv(w')
  {
    hide Inv, Apply, Enabled;
    var e :| Enabled(w, e) && w' == Apply(w, e);
    NextInv(w, e);
  }

  lemma ReachableInv(w: World)
    requires Reachable(w)
    ensures Inv(w)
  {
    hide Inv, IsRun;
    var ws :| ws != [] && IsRun(ws) && LastOf(ws) == w;
    RunInv(ws);
  }

  // ----- what every run keeps -----

  /** Two requests that each committed a notification, or still may, reserved the key at
      least a whole window apart. */
  lemma CommitsAreApart(w: World, id: int, other: int)
    requires Reachable(w) && In(w, id) && In(w, other) && id != other
    requires Kept(w.requests[id].phase) && Kept(w.requests[other].phase)
    ensures var a, b := w.requests[id].phase.reservedAt, w.requests[other].phase.reservedAt;
            a + WINDOW <= b || b + WINDOW <= a
  {
    hide Reachable;
    ReachableInv(w);
    assert Apart(w, id, other);
  }

  /** A replay repeats, word for word, the body stored by a request that committed it. */
  lemma ReplayIsCommitted(w: World, id: int)
    requires Reachable(w) && In(w, id) && w.requests[id].phase.Answered?
    ensures StoredSomewhere(w, w.requests[id].phase.body)
  {
    hide Reachable;
    ReachableInv(w);
  }

  /** A value still alive in the key is replaced or removed only by the request it names. */
  lemma OnlyOwnerTouchesKey(w: World, e: Event)
    requires Reachable(w) && Enabled(w, e) && Get(w.entry, w.clock).Some? && Apply(w, e).entry != w.entry
    ensures (e.Release? || e.Store?) && e.id == w.author
    ensures w.entry.value.value == Sentinel(w.requests[w.author].token)
  {
    hide Reachable, Sentinel;
    ReachableInv(w);
    if e.Release? || e.Store? {
      OnlyTheAuthor(w, e.id);
    }
  }

  /** After a commit nobody else gets the key for the rest of the window, whether or not the
      body ever reaches it. */
  lemma NoReservationInsideWindow(w: World, e: Event, id: int)
    requires Reachable(w) && Enabled(w, e) && In(w, id) && Kept(w.requests[id].phase)
    requires w.clock < w.requests[id].phase.reservedAt + WINDOW
    ensures forall other :: In(Apply(w, e), other) && Apply(w, e).requests[other].phase.Owner? ==>
              In(w, other) && w.requests[other].phase.Owner?
  {
    hide Reachable;
    ReachableInv(w);
    assert Guarded(w, id);
  }

  // ----- the polling loop in a run -----

  /** Where in a run the GET, the SET NX and the look at the clock of one round are. */
  datatype Moments = Moments(get: nat, set': nat, check: nat)

  /** Request `id` goes through a round of its loop in the run, and meets what `round` says. */
  ghost predicate Plays(ws: seq<World>, id: int, deadline: int, m: Moments, round: Round) {
    && m.get + 1 < |ws| && m.set' + 1 < |ws| && m.check + 1 < |ws|
    && InPhase(ws[m.get], id, Polling(deadline)) && ws[m.get + 1] == Apply(ws[m.get], PollGet(id))
    && round.stored == Get(ws[m.get].entry, ws[m.get].clock)
    && (round.stored == None ==>
          && InPhase(ws[m.set'], id, TryingSet(deadline)) && ws[m.set' + 1] == Apply(ws[m.set'], PollSet(id))
          && (round.wins <==> SetNx(ws[m.set'].entry, ws[m.set'].clock, Sentinel(ws[m.set'].requests[id].token)).1))
    && (Undecided(round) ==>
          && InPhase(ws[m.check], id, Checking(deadline)) && ws[m.check + 1] == Apply(ws[m.check], PollCheck(id))
          && round.clock == ws[m.check].clock)
  }

  predicate InPhase(w: World, id: int, phase: Phase) {
    In(w, id) && w.requests[id].phase == phase
  }

  /** What `Poll` answers is where the round leaves the request: it owns the key, repeats the body,
      gives up, or polls again. */
  lemma RoundIsPlayed(ws: seq<World>, id: int, deadline: int, m: Moments, round: Round)
    requires Plays(ws, id, deadline, m, round)
    ensures round.stored == None && round.wins ==> InPhase(ws[m.set' + 1], id, Owner(ws[m.set'].clock))
    ensures forall b :: round.stored == Some(b) && !(PROCESSING_PREFIX <= b) ==> InPhase(ws[m.get + 1], id, Answered(b))
    ensures Undecided(round) ==>
      InPhase(ws[m.check + 1], id, if deadline <= round.clock then Refused else Polling(deadline))
  {
    hide Sentinel;
  }

  /** So a request that `Poll` tells it owns the key owns it alone: every other reservation that led
      to a notification, or still may, is a whole window old. */
  lemma PollOwnsAlone(ws: seq<World>, id: int, deadline: int, m: Moments, round: Round, other: int)
    requires IsRun(ws) && Plays(ws, id, deadline, m, round) && round.stored == None && round.wins
    requires In(ws[m.set' + 1], other) && other != id && Kept(ws[m.set' + 1].requests[other].phase)
    ensures ws[m.set' + 1].requests[other].phase.reservedAt + WINDOW <= ws[m.set'].clock
  {
    hide Inv, Plays, Apply, IsRun, Next;
    RoundIsPlayed(ws, id, deadline, m, round);
    PlaysInside(ws, id, deadline, m, round);
    RunInv(ws);
    assert Inv(ws[m.set' + 1]);
    InvApart(ws[m.set' + 1], id, other);
    OwnersClock(ws[m.set'], ws[m.set' + 1], id);
  }

  lemma PlaysInside(ws: seq<World>, id: int, deadline: int, m: Moments, round: Round)
    requires Plays(ws, id, deadline, m, round) && round.stored == None
    ensures m.set' + 1 < |ws| && InPhase(ws[m.set'], id, TryingSet(deadline))
    ensures ws[m.set' + 1] == Apply(ws[m.set'], PollSet(id))
  {
    hide Apply;
  }

  lemma InvApart(w: World, id: int, other: int)
    requires Inv(w) && In(w, id) && In(w, other) && id != other
    ensures Apart(w, id, other) && BodyOk(w, id) && BodyOk(w, other)
  {}

  lemma OwnersClock(w: World, w': World, id: int)
    requires In(w, id) && w.requests[id].phase.TryingSet? && w' == Apply(w, PollSet(id))
    ensures w'.clock == w.clock
  {}

  // ----- what a commit and a failure leave in the key -----

  /** A body that is stored within the window is what every request that polls is answered with. */
  lemma StoredIsReplayed(w: World, id: int, other: int)
    requires Reachable(w) && Enabled(w, Store(id)) && w.clock < w.requests[id].phase.reservedAt + WINDOW
    requires In(w, other) && w.requests[other].phase.Polling?
    ensures var body, stored := w.requests[id].phase.body, Apply(w, Store(id));
            && stored.entry == Some(Entry(body, w.clock + WINDOW))
            && InPhase(Apply(stored, PollGet(other)), other, Answered(body))
  {
    hide Reachable, Sentinel, IsSentinel;
    ReachableInv(w);
    assert Guarded(w, id) && BodyOk(w, id);
    BodyIsNoSentinel(w.requests[id].phase.body);
  }

  /** A request that has failed and releases the key leaves it free for the next one that tries. */
  lemma ReleasedIsFree(w: World, id: int, other: int)
    requires Reachable(w) && Enabled(w, Release(id)) && Get(w.entry, w.clock) == Some(Sentinel(w.requests[id].token))
    requires In(w, other) && w.requests[other].phase.TryingSet?
    ensures InPhase(Apply(Apply(w, Release(id)), PollSet(other)), other, Owner(w.clock))
  {
    hide Reachable, Sentinel;
  }
}
