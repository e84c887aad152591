/** Every interleaving of ingests, checks and policy changes over one receiver. */
module SurveillanceRuns {
  import opened Basics
  import opened Calendar
  import CronFire
  import CronSchedule
  import CronMonotone
  import CronZone
  import Severity
  import opened Surveillance

  /** An ingest between reading the clock and committing. */
  datatype Ping = Ping(phase: Phase, receivedAt: int)

  /** The synthetic notifications, and the alarms withdrawn by a policy change. An alarm is `rewound`
      when a policy change since the alarm before made the watch count from before that one. */
  datatype Entry =
    | Alarm(at: int, policy: Policy, reference: int, rewound: bool)
    | Recovery(at: int, conclusion: int)
    | Withdrawn(at: int)

  /** A PATCH between reading the row and writing it. */
  datatype Draft = Draft(seen: Row, readAt: int)

  /** `concluded` and `started` are the receive times committed so far; `rewound` says whether there
      was such a policy change since the last alarm. Like `log`, no step reads these. */
  datatype World = World(clock: int, row: Row, pings: map<int, Ping>, drafts: map<int, Draft>,
                         concluded: seq<int>, started: seq<int>, log: seq<Entry>, rewound: bool)

  datatype Event =
    | Tick(now: int)
    | Arrive(id: int, phase: Phase)
    | Commit(id: int)
    | Abort(id: int)
    | Check(now: int, after: Row, outcome: Outcome)
    | ReadPatch(id: int)
    | WritePatch(id: int, body: Body, now: int)
    | DropPatch(id: int)

  /** The job reads the clock once, before it comes to the receiver; a PATCH reads it after
      the row. A PATCH that is refused, or violates the constraint, or whose client goes away, is
      dropped. */
  ghost predicate Enabled(w: World, e: Event) {
    match e
    case Tick(now) => w.clock <= now
    case Arrive(id, phase) => id !in w.pings
    case Commit(id) => id in w.pings
    case Abort(id) => id in w.pings
    case Check(now, after, outcome) => now <= w.clock && RowOk(w.row) && IsCheck(w.row, now, after, outcome)
    case ReadPatch(id) => id !in w.drafts
    case WritePatch(id, body, now) =>
      id in w.drafts && w.drafts[id].readAt <= now <= w.clock && BodyOk(body)
      && PatchResult(w.row, w.drafts[id].seen, body, now).1 == Done
    case DropPatch(id) => id in w.drafts
  }

  ghost function Apply(w: World, e: Event): World
    requires Enabled(w, e)
  {
    match e
    case Tick(now) => w.(clock := now)
    case Arrive(id, phase) => w.(pings := w.pings[id := Ping(phase, w.clock)])
    case Commit(id) =>
      var ping := w.pings[id];
      var left := w.(pings := w.pings - {id}, row := HeartbeatStep(w.row, ping.phase, ping.receivedAt));
      if ping.phase == Start then left.(started := w.started + [ping.receivedAt])
      else left.(concluded := w.concluded + [ping.receivedAt])
    case Abort(id) => w.(pings := w.pings - {id})
    case Check(now, after, outcome) => Checked(w.(row := after), w.row, now, outcome)
    case ReadPatch(id) => w.(drafts := w.drafts[id := Draft(w.row, w.clock)])
    case WritePatch(id, body, now) =>
      Patched(w.(drafts := w.drafts - {id}), PatchResult(w.row, w.drafts[id].seen, body, now).0)
    case DropPatch(id) => w.(drafts := w.drafts - {id})
  }

  /** The log after a check of `row`. */
  function Checked(left: World, row: Row, now: int, outcome: Outcome): World {
    if outcome == Missing && row.expected.severity.Some? && ReferenceInstant(row).Some? then
      var alarm := Alarm(now, PolicyOf(row.expected).value, ReferenceInstant(row).value, left.rewound);
      left.(log := left.log + [alarm], rewound := false)
    else if outcome == Recovered && row.lastNotificationAt.Some? then
      left.(log := left.log + [Recovery(now, row.lastNotificationAt.value)])
    else left
  }

  /** The log after a policy change. */
  function Patched(w: World, row: Row): World {
    var withdrawn := w.row.missingAlertedAt.Some? && row.missingAlertedAt == None;
    var log := if withdrawn then w.log + [Withdrawn(w.clock)] else w.log;
    w.(row := row, log := log, rewound := w.rewound || Rewound(row, log))
  }

  /** An instant the watch could count from is missing or before `at`. */
  predicate Early(t: Option<int>, at: int) {
    t.Some? ==> t.value < at
  }

  function LastAlarm(log: seq<Entry>): Option<int> {
    if log == [] then None
    else if log[|log| - 1].Alarm? then Some(log[|log| - 1].at)
    else if |log| >= 2 && log[|log| - 2].Alarm? then Some(log[|log| - 2].at)
    else None
  }

  /** The receiver is watched, its last alarm is over, and the watch counts from before it. */
  predicate Rewound(row: Row, log: seq<Entry>) {
    && Watched(row) && row.missingAlertedAt == None && LastAlarm(log).Some?
    && Early(row.lastNotificationAt, LastAlarm(log).value) && Early(row.expectedSince, LastAlarm(log).value)
  }

  ghost predicate Init(w: World) {
    && CronFire.Recent(w.clock) && w.pings == map[] && w.drafts == map[]
    && w.concluded == [] && w.started == [] && w.log == [] && !w.rewound
    && ExpectationOk(w.row.expected) && w.row.active && w.row.missingAlertedAt == None
    && w.row.lastNotificationAt == None && w.row.lastStartAt == None
    && w.row.expectedSince == if w.row.expected.severity.Some? then Some(w.clock) else None
  }

  ghost predicate Next(w: World, w': World) {
    exists e :: Enabled(w, e) && w' == Apply(w, e)
  }

  ghost predicate IsRun(ws: seq<World>) {
    ws != [] && Init(ws[0]) && forall i :: 0 < i < |ws| ==> Next(ws[i - 1], ws[i])
  }

  ghost predicate Reachable(w: World) {
    exists ws :: ws != [] && IsRun(ws) && LastOf(ws) == w
  }

  // ----- the invariant -----

  function MaxOf(times: seq<int>): Option<int> {
    if times == [] then None else Some(
      var before := MaxOf(times[..|times| - 1]);
      var t := times[|times| - 1];
      if before.Some? && before.value > t then before.value else t)
  }

  predicate Known(w: World, t: int) {
    t <= w.clock && CronFire.Recent(t)
  }

  predicate KnownOrNone(w: World, t: Option<int>) {
    t.Some? ==> Known(w, t.value)
  }

  ghost predicate Beating(w: World) {
    && CronFire.Recent(w.clock)
    && (forall id :: id in w.pings ==> Known(w, w.pings[id].receivedAt))
    && (forall id :: id in w.drafts ==> Known(w, w.drafts[id].readAt))
    && w.row.lastNotificationAt == MaxOf(w.concluded) && w.row.lastStartAt == MaxOf(w.started)
    && KnownOrNone(w, w.row.lastNotificationAt) && KnownOrNone(w, w.row.expectedSince)
    && ExpectationOk(w.row.expected)
  }

  predicate Alternates(log: seq<Entry>) {
    forall i :: 0 <= i < |log| ==> (log[i].Alarm? <==> i % 2 == 0)
  }

  /** The receiver is marked while the last entry of the log is an alarm. */
  predicate Marked(w: World) {
    && Alternates(w.log)
    && (forall i :: 0 <= i < |w.log| ==> w.log[i].at <= w.clock)
    && w.row.missingAlertedAt == (if |w.log| % 2 == 1 then Some(w.log[|w.log| - 1].at) else None)
  }

  /** An alarm is due by its own policy and, unless the watch was rewound or after a recovery, counts
      from no earlier than the alarm before it; a recovery has a committed conclusion later than its
      alarm. */
  ghost predicate EntryOk(w: World, i: int)
    requires 0 <= i < |w.log|
  {
    match w.log[i]
    case Alarm(at, policy, reference, rewound) =>
      && Known(w, reference) && Usable(policy)
      && (exists d :: IsDeadline(policy, reference, d) && d.Some? && at > d.value)
      && (i >= 2 && (!rewound || w.log[i - 1].Recovery?) ==> w.log[i - 2].at <= reference)
    case Recovery(_, conclusion) => i >= 1 && conclusion in w.concluded && conclusion > w.log[i - 1].at
    case Withdrawn(_) => i >= 1
  }

  ghost predicate Justified(w: World) {
    forall i :: 0 <= i < |w.log| ==> EntryOk(w, i)
  }

  predicate Rearmed(w: World) {
    Rewound(w.row, w.log) ==> w.rewound
  }

  ghost predicate Inv(w: World) {
    Beating(w) && Marked(w) && Justified(w) && Rearmed(w)
  }

  lemma InitInv(w: World)
    requires Init(w)
    ensures Inv(w)
  {
    hide ExpectationOk;
  }

  lemma BeatingIsRowOk(w: World)
    requires Beating(w)
    ensures RowOk(w.row) && KnownOrNone(w, ReferenceInstant(w.row))
  {
    hide ExpectationOk;
  }

  lemma MaxGrows(times: seq<int>, t: int)
    ensures MaxOf(times + [t]) == Greatest(MaxOf(times), t)
  {
    assert (times + [t])[..|times|] == times;
  }

  /** A heartbeat touches one column, which does not go back. */
  lemma HeartbeatEffect(row: Row, phase: Phase, receivedAt: int)
    ensures var after := HeartbeatStep(row, phase, receivedAt);
            && after == row.(lastNotificationAt := after.lastNotificationAt, lastStartAt := after.lastStartAt)
            && after.lastStartAt == (if phase == Start then Greatest(row.lastStartAt, receivedAt) else row.lastStartAt)
            && after.lastNotificationAt
               == (if phase == Start then row.lastNotificationAt else Greatest(row.lastNotificationAt, receivedAt))
            && (ReferenceInstant(row).Some? ==>
                  ReferenceInstant(after).Some? && ReferenceInstant(row).value <= ReferenceInstant(after).value)
            && forall log :: Rewound(after, log) ==> Rewound(row, log)
  {}

  lemma CommitInv(w: World, e: Event)
    requires Inv(w) && e.Commit? && Enabled(w, e)
    ensures Inv(Apply(w, e))
  {
    hide Usable, IsDeadline, MaxOf, CronFire.Recent, HeartbeatStep, ReferenceInstant, Greatest, Rewound, ExpectationOk;
    var w' := Apply(w, e);
    CommitBeating(w, e);
    HeartbeatEffect(w.row, w.pings[e.id].phase, w.pings[e.id].receivedAt);
    assert Rewound(w'.row, w'.log) ==> Rewound(w.row, w.log);
    forall i | 0 <= i < |w'.log| ensures EntryOk(w', i) { assert EntryOk(w, i); }
  }

  lemma CommitBeating(w: World, e: Event)
    requires Beating(w) && e.Commit? && Enabled(w, e)
    ensures Beating(Apply(w, e))
  {
    hide Usable, IsDeadline, MaxOf, CronFire.Recent, HeartbeatStep, ReferenceInstant, ExpectationOk, Rewound;
    var ping := w.pings[e.id];
    HeartbeatEffect(w.row, ping.phase, ping.receivedAt);
    MaxGrows(w.started, ping.receivedAt);
    MaxGrows(w.concluded, ping.receivedAt);
  }

  lemma CheckInv(w: World, e: Event)
    requires Inv(w) && e.Check? && Enabled(w, e)
    ensures Inv(Apply(w, e))
  {
    hide Beating, Marked, Justified, Rearmed, Enabled, Apply;
    CheckBeating(w, e);
    CheckMarked(w, e);
    CheckJustified(w, e);
  }

  lemma CheckKeepsBeats(row: Row, now: int, after: Row, outcome: Outcome)
    requires RowOk(row) && IsCheck(row, now, after, outcome)
    ensures after == row.(missingAlertedAt := after.missingAlertedAt)
  {
    hide IsRowDeadline, RowOk;
  }

  lemma CheckBeating(w: World, e: Event)
    requires Beating(w) && e.Check? && Enabled(w, e)
    ensures Beating(Apply(w, e))
  {
    hide MaxOf, CronFire.Recent, IsCheck, ExpectationOk;
    CheckKeepsBeats(w.row, e.now, e.after, e.outcome);
  }

  lemma CheckMarked(w: World, e: Event)
    requires Marked(w) && Rearmed(w) && e.Check? && Enabled(w, e)
    ensures Marked(Apply(w, e)) && Rearmed(Apply(w, e))
  {
    hide IsRowDeadline, ReferenceInstant, RowOk;
  }

  lemma CheckJustified(w: World, e: Event)
    requires Inv(w) && e.Check? && Enabled(w, e)
    ensures Justified(Apply(w, e))
  {
    hide Usable, IsDeadline, MaxOf, CronFire.Recent, Beating, Marked, Rearmed, IsCheck, RowOk;
    var w', n := Apply(w, e), |w.log|;
    forall i | 0 <= i < |w'.log| ensures EntryOk(w', i) {
      if i < n { assert EntryOk(w, i); } else { NewEntryOk(w, e); }
    }
  }

  lemma NewEntryOk(w: World, e: Event)
    requires Inv(w) && e.Check? && Enabled(w, e) && |Apply(w, e).log| > |w.log|
    ensures EntryOk(Apply(w, e), |w.log|)
  {
    hide Usable, IsDeadline, MaxOf, CronFire.Recent, ExpectationOk, TimingOf;
    var n := |w.log|;
    BeatingIsRowOk(w);
    ExpectationIsUsable(w.row.expected);
    MaxIsMember(w.concluded);
    if n >= 1 { assert EntryOk(w, n - 1); }
    if e.outcome == Missing && Watched(w.row) {
      var d :| IsRowDeadline(w.row, d) && IsVerdict(w.row, e.now, d, e.after, e.outcome);
      assert IsDeadline(PolicyOf(w.row.expected).value, ReferenceInstant(w.row).value, d);
    }
  }

  lemma {:induction false} MaxIsMember(times: seq<int>)
    ensures MaxOf(times).Some? ==> MaxOf(times).value in times
    ensures forall t :: t in times ==> MaxOf(times).Some? && t <= MaxOf(times).value
  {
    if times == [] {
    } else {
      var front := times[..|times| - 1];
      MaxIsMember(front);
      assert times == front + [times[|times| - 1]];
    }
  }

  /** What a policy change writes: readable columns, and the present or nothing. */
  lemma WrittenRow(row: Row, seen: Row, body: Body, now: int)
    requires PatchResult(row, seen, body, now).1 == Done && ExpectationOk(row.expected) && BodyOk(body)
    ensures var after := PatchResult(row, seen, body, now).0;
            && after.lastNotificationAt == row.lastNotificationAt && after.lastStartAt == row.lastStartAt
            && ExpectationOk(after.expected)
            && after.expectedSince in {row.expectedSince, None, Some(now)}
            && after.missingAlertedAt in {row.missingAlertedAt, None}
  {
    hide CronSchedule.WellFormed, CronZone.RealZone, CronFire.Settles, Validate, TimingOf;
  }

  lemma WriteInv(w: World, e: Event)
    requires Inv(w) && e.WritePatch? && Enabled(w, e)
    ensures Inv(Apply(w, e))
  {
    hide Usable, IsDeadline, MaxOf, CronFire.Recent, PatchResult, ExpectationOk, BodyOk, Rewound;
    var w' := Apply(w, e);
    WrittenRow(w.row, w.drafts[e.id].seen, e.body, e.now);
    NowIsRecent(w.drafts[e.id].readAt, e.now);
    forall i | 0 <= i < |w'.log| ensures EntryOk(w', i) {
      if i < |w.log| { assert EntryOk(w, i); }
    }
  }

  lemma NowIsRecent(readAt: int, now: int)
    requires CronFire.Recent(readAt) && readAt <= now
    ensures CronFire.Recent(now)
  {}

  /** The other steps leave row and log alone. */
  lemma OtherInv(w: World, e: Event)
    requires Inv(w) && Enabled(w, e) && (e.Tick? || e.Arrive? || e.Abort? || e.ReadPatch? || e.DropPatch?)
    ensures Inv(Apply(w, e))
  {
    hide Usable, IsDeadline, Beating, Rewound;
    OtherBeating(w, e);
    forall i | 0 <= i < |w.log| ensures EntryOk(Apply(w, e), i) { assert EntryOk(w, i); }
  }

  lemma OtherBeating(w: World, e: Event)
    requires Beating(w) && Enabled(w, e) && (e.Tick? || e.Arrive? || e.Abort? || e.ReadPatch? || e.DropPatch?)
    ensures Beating(Apply(w, e))
  {
    hide MaxOf, ExpectationOk;
  }

  lemma NextInv(w: World, e: Event)
    requires Inv(w) && Enabled(w, e)
    ensures Inv(Apply(w, e))
  {
    hide Inv, Enabled, Apply;
    match e
    case Commit(_) => CommitInv(w, e);
    case Check(_, _, _) => CheckInv(w, e);
    case WritePatch(_, _, _) => WriteInv(w, e);
    case Tick(_) => OtherInv(w, e);
    case Arrive(_, _) => OtherInv(w, e);
    case Abort(_) => OtherInv(w, e);
    case ReadPatch(_) => OtherInv(w, e);
    case DropPatch(_) => OtherInv(w, e);
  }

  lemma {:induction false} RunInv(ws: seq<World>)
    requires ws != [] && IsRun(ws)
    ensures Inv(LastOf(ws))
  {
    hide Inv, Init, Enabled, Apply;
    if |ws| == 1 {
      InitInv(ws[0]);
    } else {
      var front := ws[..|ws| - 1];
      RunInv(front);
      assert Next(ws[|ws| - 2], ws[|ws| - 1]);
      StepInv(LastOf(front), LastOf(ws));
    }
  }

  lemma StepInv(w: World, w': World)
    requires Inv(w) && Next(w, w')
    ensures Inv(w')
  {
    hide Inv, Enabled, Apply;
    var e :| Enabled(w, e) && w' == Apply(w, e);
    NextInv(w, e);
  }

  lemma ReachableInv(w: World)
    requires Reachable(w)
    ensures Inv(w)
  {
    hide Inv, IsRun;
    var ws :| ws != [] && IsRun(ws) && LastOf(ws) == w;
    RunInv(ws);
  }

  // ----- what holds of every run -----

  function Count(log: seq<Entry>, kind: Entry -> bool): nat {
    if log == [] then 0 else Count(log[..|log| - 1], kind) + if kind(log[|log| - 1]) then 1 else 0
  }

  lemma {:induction false} AlternationCounts(log: seq<Entry>)
    requires Alternates(log)
    ensures Count(log, (e: Entry) => e.Alarm?) == Count(log, (e: Entry) => !e.Alarm?) + |log| % 2
  {
    if log == [] {
    } else {
      assert |log| % 2 == 1 - (|log| - 1) % 2;
      AlternationCounts(log[..|log| - 1]);
    }
  }

  /** Alarms alternate with recoveries and withdrawals, and there is one more alarm exactly
      while the receiver is marked. */
  lemma AlarmsAlternate(w: World)
    requires Reachable(w)
    ensures forall i :: 0 <= i < |w.log| ==> (w.log[i].Alarm? <==> i % 2 == 0)
    ensures Count(w.log, (e: Entry) => e.Alarm?) - Count(w.log, (e: Entry) => !e.Alarm?)
         == if w.row.missingAlertedAt.Some? then 1 else 0
  {
    hide Reachable, Beating, Justified, Rearmed;
    ReachableInv(w);
    AlternationCounts(w.log);
  }

  /** Every recovery ends the alarm just before it and rests on a real conclusion, committed
      and received after that alarm. */
  lemma RecoveryIsReal(w: World, i: int)
    requires Reachable(w) && 0 <= i < |w.log| && w.log[i].Recovery?
    ensures i >= 1 && w.log[i - 1].Alarm? && w.log[i].conclusion in w.concluded && w.log[i].conclusion > w.log[i - 1].at
  {
    hide Reachable, Beating, Rearmed;
    ReachableInv(w);
    assert EntryOk(w, i);
  }

  /** Every alarm comes after what its own policy expected from its reference, and the
      tolerance. After a recovery, and after a policy change unless one made the watch count from
      before the alarm before, its reference is no earlier than that alarm: the two are further
      apart than interval and tolerance, or than the wait for the next firing and the tolerance. */
  lemma AlarmsAreApart(w: World, i: int)
    requires Reachable(w) && 0 <= i < |w.log| && w.log[i].Alarm?
    ensures var entry := w.log[i];
            && Usable(entry.policy) && PastExpected(entry.policy, entry.reference, entry.at)
            && (i >= 2 && (!entry.rewound || w.log[i - 1].Recovery?) ==>
                  && w.log[i - 2].Alarm? && w.log[i - 2].at <= entry.reference
                  && entry.at > w.log[i - 2].at + Patience(entry.policy))
  {
    hide Reachable, Beating, Rearmed, Usable, IsDeadline, CronFire.Recent, PastExpected;
    ReachableInv(w);
    assert EntryOk(w, i);
    var entry := w.log[i];
    var d :| IsDeadline(entry.policy, entry.reference, d) && d.Some? && entry.at > d.value;
    DeadlineIsLater(entry.policy, entry.reference, d);
    OverdueIsPastExpected(entry.policy, entry.reference, entry.at, d);
  }

  /** When an alarm is raised, no committed conclusion is later than its reference, and what
      was expected from there on has passed. */
  lemma AlarmIsTrue(w: World, w': World, c: int)
    requires Reachable(w) && Next(w, w') && |w'.log| > |w.log| && w'.log[|w.log|].Alarm? && c in w.concluded
    ensures var entry := w'.log[|w.log|];
            && Usable(entry.policy) && c <= entry.reference && PastExpected(entry.policy, entry.reference, entry.at)
            && c + Patience(entry.policy) < entry.at
  {
    hide Reachable, Rearmed, Usable, IsDeadline, CronFire.Recent, MaxOf, PastExpected, ExpectationOk, TimingOf, IsCheck;
    ReachableInv(w);
    MaxIsMember(w.concluded);
    var e :| Enabled(w, e) && w' == Apply(w, e);
    BeatingIsRowOk(w);
    var d := AlarmComesFromCheck(w, e);
    DeadlineIsLater(PolicyOf(w.row.expected).value, ReferenceInstant(w.row).value, d);
    OverdueIsPastExpected(PolicyOf(w.row.expected).value, ReferenceInstant(w.row).value, e.now, d);
  }

  lemma AlarmComesFromCheck(w: World, e: Event) returns (d: Option<int>)
    requires Marked(w) && RowOk(w.row) && Enabled(w, e)
    requires |Apply(w, e).log| > |w.log| && Apply(w, e).log[|w.log|].Alarm?
    ensures e.Check? && w.row.expected.severity.Some? && ReferenceInstant(w.row).Some?
    ensures Usable(PolicyOf(w.row.expected).value)
    ensures IsDeadline(PolicyOf(w.row.expected).value, ReferenceInstant(w.row).value, d) && d.Some? && e.now > d.value
    ensures Apply(w, e).log[|w.log|]
         == Alarm(e.now, PolicyOf(w.row.expected).value, ReferenceInstant(w.row).value, w.rewound)
  {
    hide Usable, IsDeadline, PatchResult, ExpectationOk, TimingOf, BodyOk, CronFire.Recent;
    ExpectationIsUsable(w.row.expected);
    d :| IsRowDeadline(w.row, d) && IsVerdict(w.row, e.now, d, e.after, e.outcome);
  }

  /** What a check does in any run, from the history: a watched receiver whose last entry is an alarm
      recovers exactly when a conclusion later than that alarm has been committed; one whose last
      entry is none is alarmed exactly when what was expected and the tolerance have passed; and
      nothing else changes anything. */
  lemma CheckDecides(w: World, e: Event)
    requires Reachable(w) && e.Check? && Enabled(w, e)
    ensures var watched := w.row.active && w.row.expected.severity.Some?;
            var marked := w.log != [] && w.log[|w.log| - 1].Alarm?;
            if watched && marked && (exists c :: c in w.concluded && c > w.log[|w.log| - 1].at) then
              && Apply(w, e).row == w.row.(missingAlertedAt := None) && e.outcome == Recovered
              && w.row.lastNotificationAt.Some?
              && Apply(w, e).log == w.log + [Recovery(e.now, w.row.lastNotificationAt.value)]
            else if watched && !marked && IsLate(w.row, e.now) then
              && Apply(w, e).row == w.row.(missingAlertedAt := Some(e.now)) && e.outcome == Missing
              && |Apply(w, e).log| == |w.log| + 1 && w.log < Apply(w, e).log && Apply(w, e).log[|w.log|].Alarm?
            else Apply(w, e).row == w.row && Apply(w, e).log == w.log && e.outcome == Quiet
  {
    hide Reachable, Usable, IsDeadline, CronFire.Recent, MaxOf, ExpectationOk, TimingOf, PastExpected, Justified;
    ReachableInv(w);
    MaxIsMember(w.concluded);
    BeatingIsRowOk(w);
    LateMeansOverdue(w.row, e.now);
    if Watched(w.row) && !Recovering(w.row) && w.row.missingAlertedAt == None && ReferenceInstant(w.row).Some? {
      var d :| IsRowDeadline(w.row, d) && IsVerdict(w.row, e.now, d, e.after, e.outcome);
      RowDeadlineIsUnique(w.row, d);
    }
  }

  /** What the policy expected from the instant the watch counts from, and the tolerance, have passed. */
  ghost predicate IsLate(row: Row, now: int)
    requires RowOk(row)
  {
    ExpectationIsUsable(row.expected);
    row.expected.severity.Some? && ReferenceInstant(row).Some?
    && PastExpected(PolicyOf(row.expected).value, ReferenceInstant(row).value, now)
  }

  lemma LateMeansOverdue(row: Row, now: int)
    requires RowOk(row)
    ensures row.expected.severity.Some? && ReferenceInstant(row).Some? ==>
      forall d :: IsRowDeadline(row, d) ==> (IsLate(row, now) <==> d.Some? && now > d.value)
  {
    hide Usable, IsDeadline, CronFire.Recent, ExpectationOk, TimingOf, PastExpected;
    if row.expected.severity.Some? && ReferenceInstant(row).Some? {
      ExpectationIsUsable(row.expected);
      ReferenceIsRecent(row);
      forall d | IsRowDeadline(row, d) ensures IsLate(row, now) <==> d.Some? && now > d.value {
        OverdueIsPastExpected(PolicyOf(row.expected).value, ReferenceInstant(row).value, now, d);
      }
    }
  }

  lemma ReferenceIsRecent(row: Row)
    requires RowOk(row)
    ensures RecentOrNone(ReferenceInstant(row))
  {
    hide ExpectationOk, CronFire.Recent;
  }

  lemma RowDeadlineIsUnique(row: Row, d: Option<int>)
    requires RowOk(row) && row.expected.severity.Some? && ReferenceInstant(row).Some? && IsRowDeadline(row, d)
    ensures forall d' :: IsRowDeadline(row, d') ==> d' == d
  {
    hide Usable, IsDeadline, CronFire.Recent, ExpectationOk, TimingOf;
    ExpectationIsUsable(row.expected);
    forall d' | IsRowDeadline(row, d') ensures d' == d {
      DeadlineIsUnique(PolicyOf(row.expected).value, ReferenceInstant(row).value, d, d');
    }
  }

  /** In whatever order they commit, the column holds the latest conclusion received. */
  lemma HeartbeatIsLatest(w: World)
    requires Reachable(w)
    ensures w.row.lastNotificationAt == None <==> w.concluded == []
    ensures w.row.lastNotificationAt.Some? ==>
      && w.row.lastNotificationAt.value in w.concluded
      && forall c :: c in w.concluded ==> c <= w.row.lastNotificationAt.value
  {
    hide Reachable, Marked, Justified, Rearmed;
    ReachableInv(w);
    MaxIsMember(w.concluded);
    if w.concluded != [] { assert w.concluded[0] in w.concluded; }
  }

  /** In every run the columns meet their constraint, and the policy can be computed with. */
  lemma PolicyIsWhole(w: World)
    requires Reachable(w)
    ensures RowOk(w.row) && (PolicyOf(w.row.expected).Some? ==> Usable(PolicyOf(w.row.expected).value))
  {
    hide Reachable, Marked, Justified, Rearmed, RowOk, Usable;
    ReachableInv(w);
    BeatingIsRowOk(w);
    ExpectationIsUsable(w.row.expected);
  }

  /** A commit of a conclusion later than the one the watch counts from. */
  predicate Concludes(w: World, e: Event) {
    e.Commit? && e.id in w.pings && w.pings[e.id].phase != Start
    && ReferenceInstant(w.row).Some? && w.pings[e.id].receivedAt > ReferenceInstant(w.row).value
  }

  /** Nothing but a later conclusion or a policy change ends being overdue: not a start, not
      an old conclusion that commits late, not a check, not the passing of time. */
  lemma OverdueStays(w: World, e: Event, now: int, later: int)
    requires Reachable(w) && Enabled(w, e) && !e.WritePatch? && !Concludes(w, e) && now <= later
    requires RowOk(w.row) && Overdue(w.row, now)
    ensures RowOk(Apply(w, e).row) && Overdue(Apply(w, e).row, later)
  {
    hide Reachable, IsDeadline, Usable, Marked, Justified, Rearmed, MaxOf, ExpectationOk, TimingOf;
    ReachableInv(w);
    SameReference(w, e);
    var d :| IsRowDeadline(w.row, d) && d.Some? && now > d.value;
    assert IsRowDeadline(Apply(w, e).row, d) && d.Some? && later > d.value;
  }

  lemma SameReference(w: World, e: Event)
    requires Beating(w) && Enabled(w, e) && !e.WritePatch? && !Concludes(w, e) && ReferenceInstant(w.row).Some?
    ensures ReferenceInstant(Apply(w, e).row) == ReferenceInstant(w.row) && Apply(w, e).row.expected == w.row.expected
    ensures RowOk(Apply(w, e).row)
  {
    hide MaxOf, CronFire.Recent, HeartbeatStep, ReferenceInstant, Greatest, IsCheck, ExpectationOk;
    BeatingIsRowOk(w);
    if e.Commit? {
      OldBeat(w.row, w.pings[e.id]);
    } else {
      if e.Check? { CheckKeepsBeats(w.row, e.now, e.after, e.outcome); }
      SameBeats(w.row, Apply(w, e).row);
    }
  }

  lemma OldBeat(row: Row, ping: Ping)
    requires RowOk(row) && ReferenceInstant(row).Some? && CronFire.Recent(ping.receivedAt)
    requires ping.phase == Start || ping.receivedAt <= ReferenceInstant(row).value
    ensures var after := HeartbeatStep(row, ping.phase, ping.receivedAt);
            ReferenceInstant(after) == ReferenceInstant(row) && after.expected == row.expected && RowOk(after)
  {
    hide ExpectationOk, CronFire.Recent;
  }

  lemma SameBeats(row: Row, after: Row)
    requires after.lastNotificationAt == row.lastNotificationAt && after.expectedSince == row.expectedSince
    ensures ReferenceInstant(after) == ReferenceInstant(row)
  {}

  // ----- the deadline over a run without a policy change -----

  ghost predicate Continues(w: World, w': World) {
    exists e :: Enabled(w, e) && !e.WritePatch? && w' == Apply(w, e)
  }

  ghost predicate Unpatched(ws: seq<World>) {
    ws != [] && Reachable(ws[0]) && forall i :: 0 < i < |ws| ==> Continues(ws[i - 1], ws[i])
  }

  lemma ContinuesNext(w: World, w': World)
    requires Continues(w, w')
    ensures Next(w, w')
    ensures w'.row.expected == w.row.expected
    ensures ReferenceInstant(w.row).Some? ==>
      ReferenceInstant(w'.row).Some? && ReferenceInstant(w.row).value <= ReferenceInstant(w'.row).value
  {
    hide RowOk, HeartbeatStep, ReferenceInstant, Greatest, IsCheck, Rewound;
    var e :| Enabled(w, e) && !e.WritePatch? && w' == Apply(w, e);
    if e.Commit? {
      HeartbeatEffect(w.row, w.pings[e.id].phase, w.pings[e.id].receivedAt);
    } else {
      if e.Check? { CheckKeepsBeats(w.row, e.now, e.after, e.outcome); }
      SameBeats(w.row, w'.row);
    }
  }

  lemma NextReachable(w: World, w': World)
    requires Reachable(w) && Next(w, w')
    ensures Reachable(w')
  {
    hide Next, Init;
    var ws :| ws != [] && IsRun(ws) && LastOf(ws) == w;
    var longer := ws + [w'];
    forall i | 0 < i < |longer| ensures Next(longer[i - 1], longer[i]) {
      if i < |ws| { assert Next(ws[i - 1], ws[i]); }
    }
    assert IsRun(longer) && LastOf(longer) == w';
  }

  lemma {:induction false} ReferenceGoesOn(ws: seq<World>)
    requires Unpatched(ws) && ReferenceInstant(ws[0].row).Some?
    ensures Reachable(LastOf(ws)) && LastOf(ws).row.expected == ws[0].row.expected
    ensures ReferenceInstant(LastOf(ws).row).Some?
    ensures ReferenceInstant(ws[0].row).value <= ReferenceInstant(LastOf(ws).row).value
  {
    hide Reachable, Continues, Next, ReferenceInstant;
    if |ws| == 1 {
    } else {
      var front := ws[..|ws| - 1];
      ReferenceGoesOn(front);
      assert Continues(ws[|ws| - 2], ws[|ws| - 1]);
      ContinuesNext(ws[|ws| - 2], ws[|ws| - 1]);
      NextReachable(ws[|ws| - 2], ws[|ws| - 1]);
    }
  }

  /** Over any run without a policy change, a deadline that stands never moves back. */
  lemma DeadlineNeverMovesBack(ws: seq<World>, d: Option<int>, d': Option<int>)
    requires Unpatched(ws) && RowOk(ws[0].row) && RowOk(LastOf(ws).row)
    requires ws[0].row.expected.severity.Some? && ReferenceInstant(ws[0].row).Some?
    requires Usable(PolicyOf(ws[0].row.expected).value)
    requires DeadlineStands(PolicyOf(ws[0].row.expected).value, ReferenceInstant(ws[0].row).value)
    requires IsRowDeadline(ws[0].row, d)
    requires LastOf(ws).row.expected.severity.Some? && ReferenceInstant(LastOf(ws).row).Some?
    requires IsRowDeadline(LastOf(ws).row, d')
    ensures CronMonotone.NotSooner(d, d')
  {
    hide Unpatched, IsDeadline, Usable, ExpectationOk, TimingOf, ReferenceInstant, CronFire.Recent;
    ReferenceGoesOn(ws);
  }

  /** And one that does not stand moves back in some run: it takes a conclusion at the right moment. */
  lemma DeadlineMovesBack(w: World, id: int) returns (ws: seq<World>, d: Option<int>, d': Option<int>)
    requires Reachable(w) && RowOk(w.row) && w.row.expected.severity.Some? && ReferenceInstant(w.row) == Some(w.clock)
    requires id !in w.pings && Usable(PolicyOf(w.row.expected).value)
    requires !DeadlineStands(PolicyOf(w.row.expected).value, w.clock)
    ensures Unpatched(ws) && ws[0] == w && IsRowDeadline(w.row, d)
    ensures RowOk(LastOf(ws).row) && LastOf(ws).row.expected.severity.Some?
    ensures ReferenceInstant(LastOf(ws).row).Some? && IsRowDeadline(LastOf(ws).row, d')
    ensures !CronMonotone.NotSooner(d, d')
  {
    hide Reachable, IsDeadline, Usable, ExpectationOk, TimingOf, CronFire.Recent, Rewound;
    var p := PolicyOf(w.row.expected).value;
    var b: int;
    b, d, d' :| w.clock <= b && IsDeadline(p, w.clock, d) && IsDeadline(p, b, d') && !CronMonotone.NotSooner(d, d');
    var w1 := Apply(w, Tick(b));
    var w2 := Apply(w1, Arrive(id, End));
    var w3 := Apply(w2, Commit(id));
    ws := [w, w1, w2, w3];
    assert Continues(w, w1) && Continues(w1, w2) && Continues(w2, w3);
    ReachableInv(w);
    NowIsRecent(w.clock, b);
  }

  // ----- when a policy change rewinds the watch -----

  /** The request starts the watch anew, for the row it has seen. */
  predicate Starts(seen: Row, body: Body) {
    && Merged(seen.expected, body).severity.Some?
    && ((SendsPolicy(body) && seen.expected.severity.None?) || (!seen.active && Sent(body.active, seen.active)))
  }

  /** The request ends it. */
  predicate Stops(body: Body, seen: Row) {
    SendsPolicy(body) && Merged(seen.expected, body).severity.None?
  }

  /** Severity and status once the request is written: what it sends where that differs from what it
      has seen, else what the row holds. */
  predicate LeavesWatched(row: Row, seen: Row, body: Body) {
    && (if body.active.Some? && body.active.value != seen.active then body.active.value else row.active)
    && (if body.severity.Some? && body.severity.value != seen.expected.severity then body.severity.value.Some?
        else row.expected.severity.Some?)
  }

  /** No mark is left: there is none, or the request has seen one and starts or ends the watch. */
  predicate LeavesUnmarked(row: Row, seen: Row, body: Body) {
    row.missingAlertedAt == None || ((Starts(seen, body) || Stops(body, seen)) && seen.missingAlertedAt.Some?)
  }

  /** Whether the start of the watch is before the alarm `alarm` once the request is written: it starts
      the watch by a clock read before that alarm; or it ends one, written over a new one it has not
      seen; or it leaves the start alone, and that is how the row stands. */
  predicate CountsFromBefore(row: Row, seen: Row, body: Body, now: int, alarm: int) {
    if Starts(seen, body) && seen.expectedSince != Some(now) then now < alarm
    else if Stops(body, seen) && seen.expectedSince.Some? then true
    else Early(row.expectedSince, alarm)
  }

  /** In every run, for every policy change: exactly when it leaves the receiver watched, its last
      alarm over, and the watch counting from before that alarm. Where that was not so before, a
      request that leaves the start of the watch alone has put the policy back over the end of a watch
      it has not seen. */
  lemma WriteRewinds(w: World, e: Event)
    requires Reachable(w) && e.WritePatch? && Enabled(w, e)
    ensures var row, alarm, seen := Apply(w, e).row, LastAlarm(w.log), w.drafts[e.id].seen;
            Rewound(row, Apply(w, e).log)
            <==> (&& LeavesWatched(w.row, seen, e.body) && LeavesUnmarked(w.row, seen, e.body)
                  && alarm.Some? && Early(w.row.lastNotificationAt, alarm.value)
                  && CountsFromBefore(w.row, seen, e.body, e.now, alarm.value))
    ensures var row, seen := Apply(w, e).row, w.drafts[e.id].seen;
            Rewound(row, Apply(w, e).log) && !Rewound(w.row, w.log) && row.expectedSince == w.row.expectedSince
            ==> !(Watched(w.row) && w.row.missingAlertedAt == None)
  {
    hide Reachable, Beating, Justified, Rearmed, Validate, CheckHolds, BodyOk;
    ReachableInv(w);
    var seen := w.drafts[e.id].seen;
    WrittenSince(w.row, seen, e.body, e.now);
    assert LastAlarm(Apply(w, e).log) == LastAlarm(w.log);
  }

  /** The start of the watch that is written, and the mark. */
  lemma WrittenSince(row: Row, seen: Row, body: Body, now: int)
    requires PatchResult(row, seen, body, now).1 == Done
    ensures var after := PatchResult(row, seen, body, now).0;
            && after.lastNotificationAt == row.lastNotificationAt
            && after.expectedSince == (if Starts(seen, body) && seen.expectedSince != Some(now) then Some(now)
                                       else if Stops(body, seen) && seen.expectedSince.Some? then None
                                       else row.expectedSince)
            && after.missingAlertedAt == (if LeavesUnmarked(row, seen, body) then None else row.missingAlertedAt)
            && (Watched(after) <==> LeavesWatched(row, seen, body))
  {
    hide Validate, CheckHolds;
  }

  /** A request that has seen the row as it is, watch and mark included, and reads the clock after the
      last alarm never does. */
  lemma FreshWriteIsSafe(w: World, e: Event)
    requires Reachable(w) && e.WritePatch? && Enabled(w, e) && !Rewound(w.row, w.log)
    requires var seen := w.drafts[e.id].seen;
             && seen.expected.severity == w.row.expected.severity && seen.active == w.row.active
             && seen.expectedSince == w.row.expectedSince && seen.missingAlertedAt == w.row.missingAlertedAt
    requires LastAlarm(w.log).Some? ==> LastAlarm(w.log).value <= e.now
    ensures !Rewound(Apply(w, e).row, Apply(w, e).log)
  {
    hide Reachable, Validate, CheckHolds, BodyOk;
    WriteRewinds(w, e);
  }

  /** Nor does one that neither touches the policy nor the status, whatever it has seen. */
  lemma IdleWriteIsSafe(w: World, e: Event)
    requires Reachable(w) && e.WritePatch? && Enabled(w, e) && !SendsPolicy(e.body) && e.body.active == None
    ensures Apply(w, e).row == w.row && Apply(w, e).log == w.log && Apply(w, e).rewound == w.rewound
  {
    hide Reachable, Validate, CheckHolds, BodyOk, Beating, Justified, Marked;
    ReachableInv(w);
  }

  /** No step of the run makes the watch count from before the last alarm. */
  ghost predicate NeverRewound(ws: seq<World>) {
    forall i :: 0 < i < |ws| && Rewound(ws[i].row, ws[i].log) ==> Rewound(ws[i - 1].row, ws[i - 1].log)
  }

  /** Only a policy change can. */
  lemma OnlyWritesRewind(w: World, e: Event)
    requires Reachable(w) && Enabled(w, e) && !Rewound(w.row, w.log) && Rewound(Apply(w, e).row, Apply(w, e).log)
    ensures e.WritePatch?
  {
    hide Reachable, HeartbeatStep, RowOk, IsRowDeadline, Beating, Justified, MaxOf, ReferenceInstant;
    ReachableInv(w);
    if e.Commit? { HeartbeatEffect(w.row, w.pings[e.id].phase, w.pings[e.id].receivedAt); }
  }

  /** In a run without such a policy change all alarms are apart. */
  lemma AlarmsAreApartUnlessRewound(ws: seq<World>, i: int)
    requires ws != [] && IsRun(ws) && NeverRewound(ws) && 2 <= i < |LastOf(ws).log| && LastOf(ws).log[i].Alarm?
    ensures var log := LastOf(ws).log;
            && log[i - 2].Alarm? && log[i - 2].at <= log[i].reference
            && log[i].at > log[i - 2].at + Patience(log[i].policy)
  {
    hide IsRun, NeverRewound;
    assert Reachable(LastOf(ws));
    NoneRewound(ws);
    AlarmsAreApart(LastOf(ws), i);
  }

  predicate UnmarkedLog(w: World) {
    !w.rewound && !Rewound(w.row, w.log) && forall i :: 0 <= i < |w.log| && w.log[i].Alarm? ==> !w.log[i].rewound
  }

  lemma {:induction false} NoneRewound(ws: seq<World>)
    requires ws != [] && IsRun(ws) && NeverRewound(ws)
    ensures UnmarkedLog(LastOf(ws))
  {
    hide Enabled, Apply, Rewound, UnmarkedLog;
    if |ws| == 1 {
      assert UnmarkedLog(ws[0]) by { InitUnmarked(ws[0]); }
    } else {
      var front := ws[..|ws| - 1];
      assert NeverRewound(front) by {
        forall i | 0 < i < |front| && Rewound(front[i].row, front[i].log)
          ensures Rewound(front[i - 1].row, front[i - 1].log)
        {
          assert Rewound(ws[i].row, ws[i].log);
        }
      }
      NoneRewound(front);
      assert Next(ws[|ws| - 2], ws[|ws| - 1]);
      StepUnmarked(ws[|ws| - 2], ws[|ws| - 1]);
    }
  }

  lemma InitUnmarked(w: World)
    requires Init(w)
    ensures UnmarkedLog(w)
  {}

  lemma StepUnmarked(w: World, w': World)
    requires UnmarkedLog(w) && Next(w, w') && (Rewound(w'.row, w'.log) ==> Rewound(w.row, w.log))
    ensures UnmarkedLog(w')
  {
    hide Rewound, RowOk, IsCheck, PatchResult, BodyOk, HeartbeatStep, ReferenceInstant;
    var e :| Enabled(w, e) && w' == Apply(w, e);
  }

  // ----- a run in which one does -----

  lemma Grow(ws: seq<World>, e: Event) returns (longer: seq<World>)
    requires ws != [] && IsRun(ws) && Enabled(LastOf(ws), e)
    ensures longer != [] && IsRun(longer) && LastOf(longer) == Apply(LastOf(ws), e)
  {
    hide Enabled, Apply, Init;
    longer := ws + [Apply(LastOf(ws), e)];
    assert Next(LastOf(ws), LastOf(longer));
  }

  /** An hour and a minute's tolerance, then half an hour and two minutes. */
  const HOURLY := Expectation(Some(3600), None, None, Some(60), Some(Severity.Warning))
  const HALF_HOURLY := Expectation(Some(1800), None, None, Some(120), Some(Severity.Critical))
  const OFF := Expectation(None, None, None, None, None)

  /** A request that sends all five fields. */
  function Sending(x: Expectation): Body {
    Body(Some(x.every), Some(x.cron), Some(x.timezone), Some(x.grace), Some(x.severity), None)
  }

  const WAIT := 3_660_001

  function AfterAlarm(c: int): World {
    World(c + WAIT, Row(HOURLY, true, Some(c + WAIT), Some(c), None, Some(c)), map[], map[], [c], [],
          [Alarm(c + WAIT, PolicyOf(HOURLY).value, c, false)], false)
  }

  /** A conclusion at `c`, and an alarm when an hour and a minute have passed. */
  lemma FirstAlarm(c: int) returns (ws: seq<World>)
    requires CronFire.Recent(c)
    ensures ws != [] && IsRun(ws) && LastOf(ws) == AfterAlarm(c)
  {
    hide CronFire.Recent, IsRun, IsCheck, Rewound;
    var row := Row(HOURLY, true, None, Some(c), None, Some(c));
    var alarmed := row.(missingAlertedAt := Some(c + WAIT));
    ws := [World(c, row.(lastNotificationAt := None), map[], map[], [], [], [], false)];
    assert IsRun(ws) by { OneWorld(ws); }
    ws := Grow(ws, Arrive(1, End));
    ws := Grow(ws, Commit(1));
    ws := Grow(ws, Tick(c + WAIT));
    assert LastOf(ws).pings == map[];
    OverdueCheck(row, HOURLY, c, c + WAIT, alarmed);
    ws := Grow(ws, Check(c + WAIT, alarmed, Missing));
  }

  lemma OneWorld(ws: seq<World>)
    requires |ws| == 1 && Init(ws[0])
    ensures IsRun(ws)
  {}

  /** One edit reads the row, another switches the watch off, and the first writes its policy
      back, all its columns changed: the watch is on again without having been started anew. */
  lemma LostUpdate(c: int, before: seq<World>) returns (ws: seq<World>)
    requires CronFire.Recent(c) && before != [] && IsRun(before) && LastOf(before) == AfterAlarm(c)
    ensures ws != [] && IsRun(ws) && LastOf(ws).clock == c + WAIT && LastOf(ws).rewound
    ensures LastOf(ws).row == Row(HALF_HOURLY, true, None, Some(c), None, None)
    ensures LastOf(ws).log == [Alarm(c + WAIT, PolicyOf(HOURLY).value, c, false), Withdrawn(c + WAIT)]
  {
    hide CronFire.Recent, IsRun, IsCheck;
    ws := Grow(before, ReadPatch(1));
    ws := Grow(ws, ReadPatch(2));
    ws := Grow(ws, WritePatch(2, Sending(OFF), c + WAIT));
    assert LastOf(ws).row == Row(OFF, true, None, Some(c), None, None);
    ws := Grow(ws, WritePatch(1, Sending(HALF_HOURLY), c + WAIT));
  }

  /** So the receiver is alarmed twice within a minute although the interval is half an hour. */
  lemma LostUpdateRepeatsAlarm(c: int) returns (ws: seq<World>)
    requires CronFire.Recent(c)
    ensures ws != [] && IsRun(ws) && LastOf(ws).row.expected == HALF_HOURLY
    ensures var log := LastOf(ws).log;
            && |log| == 3 && log[0].Alarm? && log[2].Alarm? && log[2].at == log[0].at + MINUTE_MS
            && log[2].rewound && Patience(log[2].policy) == 32 * MINUTE_MS
  {
    hide CronFire.Recent, IsRun, IsCheck, Rewound;
    ws := FirstAlarm(c);
    ws := LostUpdate(c, ws);
    ws := Grow(ws, Tick(c + WAIT + MINUTE_MS));
    var row := LastOf(ws).row;
    var again := row.(missingAlertedAt := Some(c + WAIT + MINUTE_MS));
    OverdueCheck(row, HALF_HOURLY, c, c + WAIT + MINUTE_MS, again);
    ws := Grow(ws, Check(c + WAIT + MINUTE_MS, again, Missing));
  }

  lemma OverdueCheck(row: Row, x: Expectation, reference: int, now: int, after: Row)
    requires row.expected == x && row.active && row.missingAlertedAt == None && ReferenceInstant(row) == Some(reference)
    requires x.every.Some? && x.cron.None? && x.severity.Some? && RowOk(row)
    requires now > reference + Patience(PolicyOf(x).value)
    requires after == row.(missingAlertedAt := Some(now))
    ensures IsCheck(row, now, after, Missing)
  {
    hide CronFire.Recent;
    var d := Some(reference + Patience(PolicyOf(x).value));
    assert IsRowDeadline(row, d) && IsVerdict(row, now, d, after, Missing);
  }
}
