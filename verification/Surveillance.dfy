/** The dead man's switch of one receiver: deadlines, heartbeats, the job's decision and the
    policy changes that re-arm it. Times are in milliseconds, as in the cron engine. */
module Surveillance {
  import opened Basics
  import opened Calendar
  import opened CronSchedule
  import opened CronZone
  import CronChanges
  import CronCounterexamples
  import CronFire
  import CronMonotone
  import Severity

  /** A fixed interval, a cron line in a zone, or a cron or zone that cannot be read. */
  datatype Timing = Every(period: int) | CronLine(schedule: Schedule, zone: Zone) | Unusable

  datatype Policy = Policy(timing: Timing, grace: int)

  ghost predicate Usable(p: Policy) {
    p.grace >= 0 &&
    match p.timing
    case Every(period) => period > 0
    case CronLine(s, z) => RealZone(z) && CronFire.Settles(z) && WellFormed(s)
    case Unusable => true
  }

  // ----- deadlines -----

  /** `alert_deadline`, or nothing for an expectation that cannot be computed. */
  ghost predicate IsDeadline(p: Policy, reference: int, d: Option<int>)
    requires Usable(p)
  {
    match p.timing
    case Every(period) => d == Some(reference + period + p.grace)
    case CronLine(s, z) => exists fire :: CronFire.IsNextFire(z, s, reference, fire) && d == Plus(fire, p.grace)
    case Unusable => d == None
  }

  function Plus(t: Option<int>, more: int): Option<int> {
    if t.Some? then Some(t.value + more) else None
  }

  /** The shortest silence that can raise an alarm. */
  function Patience(p: Policy): int {
    if p.timing.Every? then p.timing.period + p.grace else p.grace
  }

  method AlertDeadline(p: Policy, reference: int) returns (d: Option<int>)
    requires Usable(p) && CronFire.Recent(reference)
    ensures IsDeadline(p, reference, d)
  {
    hide RealZone, WellFormed, CronFire.Settles, CronFire.IsNextFire;
    match p.timing
    case Every(period) => d := Some(reference + period + p.grace);
    case Unusable => d := None;
    case CronLine(s, z) =>
      var fire := CronFire.NextFireAfter(s, z, reference);
      d := Plus(fire, p.grace);
  }

  /** The deadline depends on the policy and the reference, on nothing else. */
  lemma DeadlineIsUnique(p: Policy, reference: int, d: Option<int>, d': Option<int>)
    requires Usable(p) && IsDeadline(p, reference, d) && IsDeadline(p, reference, d')
    ensures d == d'
  {
    hide RealZone, WellFormed, CronFire.Settles, CronFire.IsNextFire;
    if p.timing.CronLine? {
      var s, z := p.timing.schedule, p.timing.zone;
      var f :| CronFire.IsNextFire(z, s, reference, f) && d == Plus(f, p.grace);
      var f' :| CronFire.IsNextFire(z, s, reference, f') && d' == Plus(f', p.grace);
      CronFire.NextFireIsUnique(z, s, reference, f, f');
    }
  }

  /** The deadline comes after the reference by more than the tolerance, or by the whole
      interval and the tolerance. */
  lemma DeadlineIsLater(p: Policy, reference: int, d: Option<int>)
    requires Usable(p) && CronFire.Recent(reference) && IsDeadline(p, reference, d)
    ensures d.Some? ==> d.value > reference + p.grace && d.value >= reference + Patience(p)
  {
    hide RealZone, WellFormed, CronFire.Settles, CronFire.IsNextFire, CronFire.Due, CronFire.Recent;
    if p.timing.CronLine? {
      var s, z := p.timing.schedule, p.timing.zone;
      var f :| CronFire.IsNextFire(z, s, reference, f) && d == Plus(f, p.grace);
      CronFire.NextFireIsLater(z, s, reference, f);
    }
  }

  /** A cron line's deadlines follow its firings. */
  lemma DeadlineOfFire(p: Policy, reference: int, d: Option<int>)
    requires Usable(p) && p.timing.CronLine?
    ensures IsDeadline(p, reference, d)
        <==> d == Plus(CronFire.NextFire(p.timing.zone, p.timing.schedule, reference), p.grace)
  {
    hide RealZone, WellFormed, CronFire.Settles, CronFire.IsNextFire;
    var fire := CronFire.NextFire(p.timing.zone, p.timing.schedule, reference);
    assert CronFire.IsNextFire(p.timing.zone, p.timing.schedule, reference, fire);
  }

  // ----- when a later reference has an earlier deadline -----

  /** No later reference has an earlier deadline. */
  ghost predicate DeadlineStands(p: Policy, a: int)
    requires Usable(p)
  {
    forall b, d, e :: a <= b && IsDeadline(p, a, d) && IsDeadline(p, b, e) ==> CronMonotone.NotSooner(d, e)
  }

  /** A deadline stands exactly when the firing it waits for is never overtaken. */
  lemma StandsExactly(p: Policy, a: int)
    requires Usable(p) && p.timing.CronLine?
    ensures DeadlineStands(p, a) <==> CronMonotone.NeverOvertaken(p.timing.zone, p.timing.schedule, a)
  {
    hide RealZone, WellFormed, CronFire.Settles, CronFire.IsNextFire, IsDeadline;
    var s, z := p.timing.schedule, p.timing.zone;
    forall reference, d
      ensures IsDeadline(p, reference, d) <==> d == Plus(CronFire.NextFire(z, s, reference), p.grace)
    {
      DeadlineOfFire(p, reference, d);
    }
    if !CronMonotone.NeverOvertaken(z, s, a) {
      var b :| a <= b && !CronMonotone.NotSooner(CronFire.NextFire(z, s, a), CronFire.NextFire(z, s, b));
      var d, e := Plus(CronFire.NextFire(z, s, a), p.grace), Plus(CronFire.NextFire(z, s, b), p.grace);
      assert IsDeadline(p, a, d) && IsDeadline(p, b, e) && !CronMonotone.NotSooner(d, e);
    }
  }

  /** Away from changes of offset a deadline stands, whatever the schedule: none shortly before the
      reference, none on the way to the first matches ahead. With an interval it always stands. */
  lemma StandsWhenCalm(p: Policy, a: int)
    requires Usable(p) && CronFire.Recent(a)
    requires p.timing.CronLine? ==>
      CronChanges.QuietMinute(p.timing.zone, a) && CronFire.CalmAhead(p.timing.zone, p.timing.schedule, a)
    ensures DeadlineStands(p, a)
  {
    hide RealZone, WellFormed, CronFire.Settles, CronFire.IsNextFire, CronMonotone.Punctual;
    hide CronMonotone.NeverOvertaken;
    hide CronFire.Recent, CronFire.CalmAhead, CronChanges.QuietMinute;
    if p.timing.CronLine? {
      hide DeadlineStands;
      CronMonotone.CalmIsPunctual(p.timing.zone, p.timing.schedule, a);
      CronMonotone.PunctualIsNeverOvertaken(p.timing.zone, p.timing.schedule, a);
      StandsExactly(p, a);
    }
  }

  /** Across a change back, with the first match ahead at the offset after it: exactly when no match
      is repeated, or none lies between the start of the second search and the first repeated one. */
  lemma StandsAcrossFall(p: Policy, a: int, t: int, w: int, e: int, i: int, x: int)
    requires Usable(p) && p.timing.CronLine? && CronFire.Recent(a)
    requires var z, s := p.timing.zone, p.timing.schedule;
             && !CronFire.BothDaysRestricted(s.fields) && CronChanges.QuietMinute(z, a)
             && CronChanges.Across(z, s.fields, s, a, t, w, e, i) && z(i) == z(t) && z(t) < z(a)
             && CronChanges.Quiet(z, a, z(t)) && CronChanges.IsFirstMatch(s.fields, s, a + z(t), x)
    ensures var z, s := p.timing.zone, p.timing.schedule;
            DeadlineStands(p, a)
            <==> (CronChanges.Repeats(z, s.fields, s, a, t)
                  ==> forall y :: a + z(t) < y < t + z(t) ==> !Matches(s.fields, s, y))
  {
    hide RealZone, WellFormed, CronFire.Settles, CronMonotone.NeverOvertaken, DeadlineStands, CronChanges.Across;
    hide Matches;
    hide CronFire.Recent, CronChanges.QuietMinute, CronChanges.Quiet, CronChanges.Repeats, CronChanges.IsFirstMatch;
    StandsExactly(p, a);
    CronMonotone.FallAndStayMonotone(p.timing.zone, p.timing.schedule, a, t, w, e, i, x);
  }

  /** With the first match ahead at the offset of now again, shown or at the end of a later gap:
      exactly when no match is repeated after the change itself. */
  lemma StandsAcrossReturn(p: Policy, a: int, t: int, w: int, e: int, i: int)
    requires Usable(p) && p.timing.CronLine? && CronFire.Recent(a)
    requires var z, s := p.timing.zone, p.timing.schedule;
             && !CronFire.BothDaysRestricted(s.fields) && CronChanges.QuietMinute(z, a)
             && CronChanges.Across(z, s.fields, s, a, t, w, e, i) && z(i) == z(a) && z(t) < z(a)
    ensures var z, s := p.timing.zone, p.timing.schedule;
            DeadlineStands(p, a) <==> forall m :: t + z(t) < m <= a + z(a) ==> !Matches(s.fields, s, m)
  {
    hide RealZone, WellFormed, CronFire.Settles, CronMonotone.NeverOvertaken, DeadlineStands, CronChanges.Across;
    hide Matches;
    hide CronFire.Recent, CronChanges.QuietMinute;
    StandsExactly(p, a);
    CronMonotone.FallAndReturnMonotone(p.timing.zone, p.timing.schedule, a, t, w, e, i);
  }

  /** The same when every hour is allowed and a later change skips the first match ahead: the end of
      the gap has to match as well. */
  lemma StandsAcrossLaterGap(p: Policy, a: int, t: int, g: int, e: int, y: int, w: int)
    requires Usable(p) && p.timing.CronLine? && CronFire.Recent(a)
    requires var z, s := p.timing.zone, p.timing.schedule;
             && !CronFire.BothDaysRestricted(s.fields) && CronChanges.QuietMinute(z, a) && Star in s.fields.hour
             && CronChanges.Turns(z, a, t) && t < g && CronChanges.PastGap(z, s.fields, s, g, e, y, w)
             && CronChanges.IsFirstMatch(s.fields, s, a + z(a), y) && z(g) == z(a) && z(g) - z(g - 1) <= DAY_MS
    ensures var z, s := p.timing.zone, p.timing.schedule;
            DeadlineStands(p, a)
            <==> ((forall m :: t + z(t) < m <= a + z(a) ==> !Matches(s.fields, s, m)) && Matches(s.fields, s, e))
  {
    hide RealZone, WellFormed, CronFire.Settles, CronMonotone.NeverOvertaken, DeadlineStands, CronChanges.PastGap;
    hide Matches;
    hide CronFire.Recent, CronChanges.QuietMinute, CronChanges.Turns, CronChanges.IsFirstMatch;
    StandsExactly(p, a);
    CronMonotone.LaterGapEveryHourMonotone(p.timing.zone, p.timing.schedule, a, t, g, e, y, w);
  }

  /** Across a change on it stands: with the first match ahead shown, or moved to the end of its
      gap. */
  lemma StandsAcrossRise(p: Policy, a: int, t: int, w: int, e: int, i: int, x: int)
    requires Usable(p) && p.timing.CronLine? && CronFire.Recent(a)
    requires var z, s := p.timing.zone, p.timing.schedule;
             && !CronFire.BothDaysRestricted(s.fields) && CronChanges.QuietMinute(z, a)
             && CronChanges.Across(z, s.fields, s, a, t, w, e, i) && z(t) > z(a)
             && CronChanges.SearchesAgain(z, s.fields, s, a, z(i), x)
    ensures DeadlineStands(p, a)
  {
    hide RealZone, WellFormed, CronFire.Settles, CronMonotone.NeverOvertaken, DeadlineStands, CronChanges.Across;
    hide CronFire.Recent, CronChanges.QuietMinute, CronChanges.SearchesAgain, CronMonotone.Punctual;
    StandsExactly(p, a);
    CronMonotone.RiseMonotone(p.timing.zone, p.timing.schedule, a, t, w, e, i, x);
  }

  /** And with every hour allowed when that change skips it. */
  lemma StandsPastGap(p: Policy, a: int, t: int, e: int, y: int, w: int, x: int)
    requires Usable(p) && p.timing.CronLine? && CronFire.Recent(a)
    requires var z, s := p.timing.zone, p.timing.schedule;
             && !CronFire.BothDaysRestricted(s.fields) && CronChanges.QuietMinute(z, a) && Star in s.fields.hour
             && CronChanges.Rises(z, a, t) && CronChanges.PastGap(z, s.fields, s, t, e, y, w)
             && CronChanges.IsFirstMatch(s.fields, s, a + z(a), y)
             && CronChanges.IsFirstMatch(s.fields, s, a + z(t), x)
    ensures DeadlineStands(p, a)
  {
    hide RealZone, WellFormed, CronFire.Settles, CronMonotone.NeverOvertaken, DeadlineStands, CronChanges.PastGap;
    hide CronFire.Recent, CronChanges.QuietMinute, CronChanges.Rises, CronChanges.IsFirstMatch;
    StandsExactly(p, a);
    CronMonotone.GapEveryHourMonotone(p.timing.zone, p.timing.schedule, a, t, e, y, w, x);
  }

  /** With both day fields restricted it stands when every repeated match of either kind comes no
      earlier than one that a second search finds. */
  lemma StandsForBothDays(p: Policy, a: int, t: int, wd: int, ed: int, id: int, xd: int,
                          ww: int, ew: int, iw: int, xw: int)
    requires Usable(p) && p.timing.CronLine? && CronFire.Recent(a)
    requires var z, s := p.timing.zone, p.timing.schedule;
             var byDay, byWeekday := CronFire.ByDay(s.fields), CronFire.ByWeekday(s.fields);
             && CronFire.BothDaysRestricted(s.fields) && CronChanges.QuietMinute(z, a)
             && CronChanges.Across(z, byDay, s, a, t, wd, ed, id)
             && CronChanges.SearchesAgain(z, byDay, s, a, z(id), xd)
             && CronChanges.Across(z, byWeekday, s, a, t, ww, ew, iw)
             && CronChanges.SearchesAgain(z, byWeekday, s, a, z(iw), xw)
             && forall m :: t + z(t) <= m <= a + z(a) && CronFire.Wanted(s, m) ==>
                  CronMonotone.FindsBy(z, a, t, z(id), xd, m) || CronMonotone.FindsBy(z, a, t, z(iw), xw, m)
    ensures DeadlineStands(p, a)
  {
    hide RealZone, WellFormed, CronFire.Settles, CronMonotone.NeverOvertaken, DeadlineStands, CronChanges.Across;
    hide CronFire.Recent, CronChanges.QuietMinute, CronChanges.SearchesAgain, CronMonotone.Punctual, CronFire.Wanted;
    hide CronMonotone.FindsBy;
    StandsExactly(p, a);
    CronMonotone.BothDaysAcrossChange(p.timing.zone, p.timing.schedule, a, t, wd, ed, id, xd, ww, ew, iw, xw);
    CronMonotone.PunctualIsNeverOvertaken(p.timing.zone, p.timing.schedule, a);
  }

  /** A match missed away from changes moves the deadline back when a conclusion arrives just
      before it. */
  lemma MissedMovesDeadlineBack(p: Policy, a: int, u: int, d: Option<int>, e: Option<int>)
    requires Usable(p) && p.timing.CronLine? && !CronFire.BothDaysRestricted(p.timing.schedule.fields)
    requires IsDeadline(p, a, d) && d.Some? && a < u < d.value - p.grace
    requires Matches(p.timing.schedule.fields, p.timing.schedule, u + p.timing.zone(u))
    requires p.timing.zone(u - 1) == p.timing.zone(u)
    requires IsDeadline(p, u - 1, e)
    ensures e == Some(u + p.grace) && e.value < d.value
  {
    hide RealZone, WellFormed, CronFire.Settles, CronFire.IsNextFire, IsDeadline, Matches;
    DeadlineOfFire(p, u - 1, e);
    CronMonotone.MissedIsFound(p.timing.zone, p.timing.schedule, u);
  }

  function LordHowe(grace: nat): Policy {
    Policy(CronLine(CronCounterexamples.TWICE, CronCounterexamples.HalfHour()), grace)
  }

  /** In a zone that puts its clock back by half an hour, a conclusion eleven minutes later
      can bring the deadline almost a day forward. */
  lemma LaterConclusionEarlierDeadline(grace: nat, d: Option<int>, e: Option<int>)
    requires Usable(LordHowe(grace))
    requires IsDeadline(LordHowe(grace), CronCounterexamples.BACK - 10 * MINUTE_MS, d)
    requires IsDeadline(LordHowe(grace), CronCounterexamples.BACK + MINUTE_MS, e)
    ensures d.Some? && e.Some? && e.value == d.value - 23 * HOUR_MS - 50 * MINUTE_MS
  {
    hide RealZone, WellFormed, CronFire.Settles, CronFire.IsNextFire;
    var s, z := CronCounterexamples.TWICE, CronCounterexamples.HalfHour();
    var f :| CronFire.IsNextFire(z, s, CronCounterexamples.BACK - 10 * MINUTE_MS, f) && d == Plus(f, grace);
    var g :| CronFire.IsNextFire(z, s, CronCounterexamples.BACK + MINUTE_MS, g) && e == Plus(g, grace);
    CronCounterexamples.LaterReferenceFiresEarlier(f, g);
  }

  function Yearly(grace: nat): Policy {
    Policy(CronLine(CronCounterexamples.YEARLY, CronCounterexamples.Rome()), grace)
  }

  /** In Rome a conclusion twenty-five minutes later can bring it almost a year forward. */
  lemma RomeDeadlineMovesBack(grace: nat, d: Option<int>, e: Option<int>)
    requires Usable(Yearly(grace))
    requires IsDeadline(Yearly(grace), CronCounterexamples.FALL_BACK - 20 * MINUTE_MS, d)
    requires IsDeadline(Yearly(grace), CronCounterexamples.FALL_BACK + 5 * MINUTE_MS, e)
    ensures d.Some? && e.Some? && e.value == d.value - 365 * DAY_MS + HOUR_MS
  {
    hide RealZone, WellFormed, CronFire.Settles, CronFire.IsNextFire, IsDeadline;
    DeadlineOfFire(Yearly(grace), CronCounterexamples.FALL_BACK - 20 * MINUTE_MS, d);
    DeadlineOfFire(Yearly(grace), CronCounterexamples.FALL_BACK + 5 * MINUTE_MS, e);
    CronCounterexamples.RomeFiresEarlier();
  }

  /** The two policies of the counterexamples are usable. */
  lemma CounterexamplesAreUsable(grace: nat)
    ensures Usable(LordHowe(grace)) && Usable(Yearly(grace))
  {
    CronCounterexamples.HalfHourIsReal();
    CronCounterexamples.RomeIsReal();
  }

  /** What was expected by `at` after the reference, and the tolerance on top, has passed. */
  ghost predicate PastExpected(p: Policy, reference: int, at: int)
    requires Usable(p)
  {
    match p.timing
    case Every(period) => at > reference + period + p.grace
    case CronLine(s, z) =>
      var fire := CronFire.NextFire(z, s, reference);
      fire.Some? && fire.value > reference && at > fire.value + p.grace
    case Unusable => false
  }

  lemma OverdueIsPastExpected(p: Policy, reference: int, at: int, d: Option<int>)
    requires Usable(p) && CronFire.Recent(reference) && IsDeadline(p, reference, d)
    ensures d.Some? && at > d.value <==> PastExpected(p, reference, at)
  {
    hide RealZone, WellFormed, CronFire.Settles, CronFire.IsNextFire;
    if p.timing.CronLine? {
      DeadlineOfFire(p, reference, d);
      DeadlineIsLater(p, reference, d);
    }
  }

  // ----- the five columns of the policy -----

  /** A cron line as stored, with its meaning when it can be read. */
  datatype CronText = CronText(text: string, schedule: Option<Schedule>)

  /** A zone as stored, with its offsets when the name is known. */
  datatype ZoneName = ZoneName(name: string, rules: Option<Zone>)

  /** `expected_every_seconds`, `expected_cron`, `expected_timezone`, `expected_grace_seconds` and
      `missing_severity`. */
  datatype Expectation =
    Expectation(every: Option<int>, cron: Option<CronText>, timezone: Option<ZoneName>,
                grace: Option<int>, severity: Option<Severity.Severity>)

  predicate AllNull(x: Expectation) {
    x.every.None? && x.cron.None? && x.timezone.None? && x.grace.None? && x.severity.None?
  }

  /** The CHECK constraint on the columns. */
  predicate CheckHolds(x: Expectation) {
    || AllNull(x)
    || ((if x.every.Some? then x.cron.None? && x.every.value > 0 else x.cron.Some?)
        && x.grace.Some? && x.grace.value >= 0 && x.severity.Some? && (x.timezone.None? || x.cron.Some?))
  }

  function Utc(): (z: Zone)
    ensures forall t :: z(t) == 0
  {
    t => 0
  }

  function TimingOf(x: Expectation): Timing {
    match x.cron
    case Some(line) =>
      var rules := if x.timezone.Some? then x.timezone.value.rules else Some(Utc());
      if line.schedule.Some? && rules.Some? then CronLine(line.schedule.value, rules.value) else Unusable
    case None => if x.every.Some? then Every(1000 * x.every.value) else Unusable
  }

  /** `schedule_from_receiver`: the severity says whether there is a policy. */
  function PolicyOf(x: Expectation): Option<Policy> {
    if x.severity.None? then None
    else Some(Policy(TimingOf(x), if x.grace.Some? then 1000 * x.grace.value else 0))
  }

  /** What is read from the two texts is a schedule and a zone. */
  ghost predicate Readable(cron: Option<CronText>, timezone: Option<ZoneName>) {
    && (cron.Some? && cron.value.schedule.Some? ==> WellFormed(cron.value.schedule.value))
    && (timezone.Some? && timezone.value.rules.Some? ==>
          RealZone(timezone.value.rules.value) && CronFire.Settles(timezone.value.rules.value))
  }

  ghost predicate ExpectationOk(x: Expectation) {
    CheckHolds(x) && Readable(x.cron, x.timezone)
  }

  lemma ExpectationIsUsable(x: Expectation)
    requires ExpectationOk(x)
    ensures PolicyOf(x).Some? ==> Usable(PolicyOf(x).value)
  {
    hide WellFormed;
  }

  /** What the five columns expect: the interval and the tolerance in seconds; or the next firing of the
      line in the zone of the column, in UTC without one; and nothing that cannot be read. */
  lemma ColumnsExpect(x: Expectation, reference: int, at: int)
    requires ExpectationOk(x) && x.severity.Some? && CronFire.Recent(reference)
    ensures var p := PolicyOf(x).value;
            && Usable(p)
            && (x.every.Some? ==>
                  (PastExpected(p, reference, at) <==> at > reference + 1000 * (x.every.value + x.grace.value)))
            && (x.cron.Some? && (x.cron.value.schedule == None
                                 || (x.timezone.Some? && x.timezone.value.rules == None)) ==>
                  !PastExpected(p, reference, at))
            && (forall s, z :: x.cron.Some? && x.cron.value.schedule == Some(s) && IsZoneOf(x.timezone, z)
                               && RealZone(z) && CronFire.Settles(z) ==>
                  var fire := CronFire.NextFire(z, s, reference);
                  (PastExpected(p, reference, at) <==> fire.Some? && at > fire.value + 1000 * x.grace.value))
  {
    hide RealZone, WellFormed, CronFire.Settles, CronFire.IsNextFire, CronFire.Due;
    ExpectationIsUsable(x);
    if x.cron.Some? && x.cron.value.schedule.Some? {
      var p := PolicyOf(x).value;
      if p.timing.CronLine? {
        var fire := CronFire.NextFire(p.timing.zone, p.timing.schedule, reference);
        CronFire.NextFireIsLater(p.timing.zone, p.timing.schedule, reference, fire);
      }
    }
  }

  ghost predicate IsZoneOf(timezone: Option<ZoneName>, z: Zone) {
    if timezone.Some? then timezone.value.rules == Some(z) else z == Utc()
  }

  datatype Refusal = BothModes | HalfConfigured | ZoneWithoutCron | BadCron | BadZone

  /** `_validate_expected_fields`. */
  function Validate(x: Expectation): Option<Refusal> {
    if AllNull(x) then None
    else if x.every.Some? && x.cron.Some? then Some(BothModes)
    else if (x.every.None? && x.cron.None?) || x.grace.None? || x.severity.None? then Some(HalfConfigured)
    else if x.timezone.Some? && x.cron.None? then Some(ZoneWithoutCron)
    else if x.cron.Some? && x.cron.value.schedule.None? then Some(BadCron)
    else if x.timezone.Some? && x.timezone.value.rules.None? then Some(BadZone)
    else None
  }

  /** For numbers the schema lets through, the validation accepts exactly what the constraint
      accepts and can be read. */
  lemma ValidateMeetsCheck(x: Expectation)
    requires (x.every.Some? ==> x.every.value >= 1) && (x.grace.Some? ==> x.grace.value >= 0)
    ensures Validate(x) == None <==> CheckHolds(x) && (PolicyOf(x).Some? ==> !PolicyOf(x).value.timing.Unusable?)
  {}

  // ----- the receiver's columns -----

  datatype Row = Row(expected: Expectation, active: bool, missingAlertedAt: Option<int>,
                     lastNotificationAt: Option<int>, lastStartAt: Option<int>, expectedSince: Option<int>)

  datatype Phase = Start | End | Undeclared

  /** Postgres' GREATEST, which ignores NULL. */
  function Greatest(column: Option<int>, at: int): Option<int> {
    if column.Some? && column.value > at then column else Some(at)
  }

  function HeartbeatStep(row: Row, phase: Phase, receivedAt: int): Row {
    if phase == Start then row.(lastStartAt := Greatest(row.lastStartAt, receivedAt))
    else row.(lastNotificationAt := Greatest(row.lastNotificationAt, receivedAt))
  }

  /** The later of the last conclusion and the start of the watch. */
  function ReferenceInstant(row: Row): (r: Option<int>)
    ensures r == None <==> row.lastNotificationAt == None && row.expectedSince == None
    ensures r.Some? ==> r == row.lastNotificationAt || r == row.expectedSince
    ensures row.lastNotificationAt.Some? ==> r.value >= row.lastNotificationAt.value
    ensures row.expectedSince.Some? ==> r.value >= row.expectedSince.value
  {
    if row.lastNotificationAt.Some? then Greatest(row.expectedSince, row.lastNotificationAt.value)
    else row.expectedSince
  }

  predicate RecentOrNone(t: Option<int>) {
    t.Some? ==> CronFire.Recent(t.value)
  }

  ghost predicate RowOk(row: Row) {
    ExpectationOk(row.expected) && RecentOrNone(row.lastNotificationAt) && RecentOrNone(row.expectedSince)
  }

  datatype Outcome = Quiet | Missing | Recovered

  predicate Recovering(row: Row) {
    && row.missingAlertedAt.Some? && row.lastNotificationAt.Some?
    && row.lastNotificationAt.value > row.missingAlertedAt.value
  }

  predicate Watched(row: Row) {
    row.active && row.expected.severity.Some?
  }

  /** The deadline of a row with a policy, from the instant its watch counts from. */
  ghost predicate IsRowDeadline(row: Row, d: Option<int>)
    requires RowOk(row) && row.expected.severity.Some? && ReferenceInstant(row).Some?
  {
    ExpectationIsUsable(row.expected);
    IsDeadline(PolicyOf(row.expected).value, ReferenceInstant(row).value, d)
  }

  ghost predicate Overdue(row: Row, now: int)
    requires RowOk(row)
  {
    && row.expected.severity.Some? && ReferenceInstant(row).Some?
    && exists d :: IsRowDeadline(row, d) && d.Some? && now > d.value
  }

  /** One turn of the job's loop. */
  ghost predicate IsCheck(row: Row, now: int, after: Row, outcome: Outcome)
    requires RowOk(row)
  {
    if !Watched(row) then after == row && outcome == Quiet
    else if Recovering(row) then after == row.(missingAlertedAt := None) && outcome == Recovered
    else if row.missingAlertedAt.Some? || ReferenceInstant(row) == None then after == row && outcome == Quiet
    else exists d :: IsRowDeadline(row, d) && IsVerdict(row, now, d, after, outcome)
  }

  ghost predicate IsVerdict(row: Row, now: int, deadline: Option<int>, after: Row, outcome: Outcome) {
    if deadline.Some? && now > deadline.value then after == row.(missingAlertedAt := Some(now)) && outcome == Missing
    else after == row && outcome == Quiet
  }

  // ----- PATCH -----

  /** The fields of the request that matter here; an outer `None` is a field that is not sent. */
  datatype Body =
    Body(every: Option<Option<int>>, cron: Option<Option<CronText>>, timezone: Option<Option<ZoneName>>,
         grace: Option<Option<int>>, severity: Option<Option<Severity.Severity>>, active: Option<bool>)

  predicate SendsPolicy(body: Body) {
    body.every.Some? || body.cron.Some? || body.timezone.Some? || body.grace.Some? || body.severity.Some?
  }

  function Sent<T>(field: Option<T>, stored: T): T {
    if field.Some? then field.value else stored
  }

  /** The state that would remain. */
  function Merged(x: Expectation, body: Body): Expectation {
    Expectation(Sent(body.every, x.every), Sent(body.cron, x.cron), Sent(body.timezone, x.timezone),
                Sent(body.grace, x.grace), Sent(body.severity, x.severity))
  }

  /** What the schema lets through. */
  ghost predicate BodyOk(body: Body) {
    && (body.every.Some? && body.every.value.Some? ==> body.every.value.value >= 1)
    && (body.grace.Some? && body.grace.value.Some? ==> body.grace.value.value >= 0)
    && Readable(Sent(body.cron, None), Sent(body.timezone, None))
  }

  /** `_apply_expected_policy` on the row the request has read: switched off there is no watch,
      switched on it starts now. */
  function PolicyStep(row: Row, body: Body, now: int): Row {
    var left := row.(expected := Merged(row.expected, body));
    if !SendsPolicy(body) then row
    else if left.expected.severity.None? then left.(expectedSince := None, missingAlertedAt := None)
    else if row.expected.severity.None? then left.(expectedSince := Some(now), missingAlertedAt := None)
    else left
  }

  /** The row a PATCH aims at, or nothing when it is refused with 422. A receiver that is switched on
      again starts its watch anew. */
  function PatchStep(row: Row, body: Body, now: int): Option<Row> {
    if SendsPolicy(body) && Validate(Merged(row.expected, body)).Some? then None
    else
      var left := PolicyStep(row, body, now).(active := Sent(body.active, row.active));
      Some(if !row.active && Watched(left) then left.(expectedSince := Some(now), missingAlertedAt := None) else left)
  }

  /** The UPDATE the ORM sends: only the columns that differ from what was read. */
  ghost function Written<T>(current: T, seen: T, target: T): T {
    if target != seen then target else current
  }

  ghost function WrittenPolicy(x: Expectation, seen: Expectation, target: Expectation): Expectation {
    Expectation(Written(x.every, seen.every, target.every), Written(x.cron, seen.cron, target.cron),
                Written(x.timezone, seen.timezone, target.timezone), Written(x.grace, seen.grace, target.grace),
                Written(x.severity, seen.severity, target.severity))
  }

  ghost function WriteBack(row: Row, seen: Row, target: Row): Row {
    row.(expected := WrittenPolicy(row.expected, seen.expected, target.expected),
         active := Written(row.active, seen.active, target.active),
         missingAlertedAt := Written(row.missingAlertedAt, seen.missingAlertedAt, target.missingAlertedAt),
         expectedSince := Written(row.expectedSince, seen.expectedSince, target.expectedSince))
  }

  /** A row that is still as it was read ends up as the request wants it, and the constraint holds
      then. */
  lemma UndisturbedPatch(row: Row, body: Body, now: int)
    requires RowOk(row) && BodyOk(body) && PatchStep(row, body, now).Some?
    ensures WriteBack(row, row, PatchStep(row, body, now).value) == PatchStep(row, body, now).value
    ensures ExpectationOk(PatchStep(row, body, now).value.expected)
  {
    hide WellFormed, RealZone, CronFire.Settles, CronFire.Recent;
    if SendsPolicy(body) {
      ValidateMeetsCheck(Merged(row.expected, body));
    }
  }

  /** Over columns that have been emptied in the meantime, an edit of one policy into another brings a
      policy back exactly when it changes the severity, the tolerance, and the interval or cron line;
      with fewer changes the constraint is violated or nothing comes back. */
  lemma PutBackExactly(x: Expectation, seen: Expectation, target: Expectation)
    requires AllNull(x) && CheckHolds(seen) && CheckHolds(target) && seen.severity.Some? && target.severity.Some?
    ensures var after := WrittenPolicy(x, seen, target);
            CheckHolds(after) && after.severity.Some?
            <==> (&& target.severity != seen.severity && target.grace != seen.grace
                  && (target.every != seen.every || target.cron != seen.cron))
  {}

  /** What the columns would be: what is sent is stored, the rest kept. */
  function AsSent(x: Expectation, body: Body): Expectation {
    Expectation(if body.every.Some? then body.every.value else x.every,
                if body.cron.Some? then body.cron.value else x.cron,
                if body.timezone.Some? then body.timezone.value else x.timezone,
                if body.grace.Some? then body.grace.value else x.grace,
                if body.severity.Some? then body.severity.value else x.severity)
  }

  predicate NamesNoPolicy(body: Body) {
    body.every == None && body.cron == None && body.timezone == None && body.grace == None && body.severity == None
  }

  lemma MergedAsSent(x: Expectation, body: Body)
    ensures Merged(x, body) == AsSent(x, body) && (SendsPolicy(body) <==> !NamesNoPolicy(body))
  {}

  /** A PATCH is refused exactly when it sends some of the policy and what would remain violates the
      constraint or cannot be computed with. */
  lemma PatchRefusedExactly(row: Row, body: Body, now: int)
    requires RowOk(row) && BodyOk(body)
    ensures var final := AsSent(row.expected, body);
            PatchStep(row, body, now) == None
            <==> (&& !NamesNoPolicy(body)
                  && !(CheckHolds(final) && (final.severity.Some? ==> !PolicyOf(final).value.timing.Unusable?)))
  {
    hide WellFormed, RealZone, CronFire.Settles, CronFire.Recent, Validate, CheckHolds, TimingOf, PolicyStep;
    hide Merged, AsSent, SendsPolicy, NamesNoPolicy;
    MergedAsSent(row.expected, body);
    FinalBounds(row, body);
    ValidateMeetsCheck(Merged(row.expected, body));
  }

  /** What an accepted PATCH does, field by field: without a policy there is no watch and no mark; a
      policy or a receiver switched on starts the watch now, unmarked; nothing else touches the two. */
  lemma PatchAsSent(row: Row, body: Body, now: int)
    requires PatchStep(row, body, now).Some?
    ensures var target, sends := PatchStep(row, body, now).value, !NamesNoPolicy(body);
            var active := if body.active.Some? then body.active.value else row.active;
            var on := target.expected.severity.Some?;
            var started := on && ((sends && row.expected.severity == None) || (!row.active && active));
            && target.expected == AsSent(row.expected, body) && target.active == active
            && target.lastNotificationAt == row.lastNotificationAt && target.lastStartAt == row.lastStartAt
            && (target.expectedSince, target.missingAlertedAt)
               == if started then (Some(now), None)
                  else if !on && sends then (None, None)
                  else (row.expectedSince, row.missingAlertedAt)
  {
    hide Validate, Merged, AsSent, SendsPolicy, NamesNoPolicy;
    MergedAsSent(row.expected, body);
    if NamesNoPolicy(body) { NothingSent(row.expected, body); }
  }

  lemma NothingSent(x: Expectation, body: Body)
    requires NamesNoPolicy(body)
    ensures AsSent(x, body) == x
  {}

  lemma FinalBounds(row: Row, body: Body)
    requires RowOk(row) && BodyOk(body)
    ensures var final := Merged(row.expected, body);
            && (final.every.Some? ==> final.every.value >= 1) && (final.grace.Some? ==> final.grace.value >= 0)
  {
    hide WellFormed, RealZone, CronFire.Settles, CronFire.Recent;
  }

  datatype PatchOutcome = Done | Unprocessable | ConstraintViolated

  /** A PATCH on the row as it is now, by a request that has `seen` an earlier one. */
  ghost function PatchResult(row: Row, seen: Row, body: Body, now: int): (Row, PatchOutcome) {
    match PatchStep(seen, body, now)
    case None => (row, Unprocessable)
    case Some(target) =>
      var after := WriteBack(row, seen, target);
      if CheckHolds(after.expected) then (after, Done) else (row, ConstraintViolated)
  }

  /** Equal names have equal rules. */
  ghost predicate SameZones(stored: Option<ZoneName>, sent: Option<ZoneName>) {
    SameName(stored, sent) ==> stored == sent
  }

  predicate SameName(stored: Option<ZoneName>, sent: Option<ZoneName>) {
    if stored.Some? && sent.Some? then stored.value.name == sent.value.name else stored.None? && sent.None?
  }

  method WritePolicy(current: Expectation, seen: Expectation, target: Expectation) returns (x: Expectation)
    requires SameZones(seen.timezone, target.timezone)
    ensures x == WrittenPolicy(current, seen, target)
  {
    x := current;
    if target.every != seen.every { x := x.(every := target.every); }
    if target.cron != seen.cron { x := x.(cron := target.cron); }
    if !SameName(seen.timezone, target.timezone) { x := x.(timezone := target.timezone); }
    if target.grace != seen.grace { x := x.(grace := target.grace); }
    if target.severity != seen.severity { x := x.(severity := target.severity); }
  }

  class Receiver {
    var expectedEvery: Option<int>
    var expectedCron: Option<CronText>
    var expectedTimezone: Option<ZoneName>
    var expectedGrace: Option<int>
    var missingSeverity: Option<Severity.Severity>
    var active: bool
    var missingAlertedAt: Option<int>
    var lastNotificationAt: Option<int>
    var lastStartAt: Option<int>
    var expectedSince: Option<int>

    constructor (x: Expectation, now: int)
      ensures Columns() == Row(x, true, None, None, None, if x.severity.Some? then Some(now) else None)
    {
      expectedEvery, expectedCron, expectedTimezone := x.every, x.cron, x.timezone;
      expectedGrace, missingSeverity := x.grace, x.severity;
      active, missingAlertedAt, lastNotificationAt, lastStartAt := true, None, None, None;
      expectedSince := if x.severity.Some? then Some(now) else None;
    }

    function Expected(): Expectation
      reads this
    {
      Expectation(expectedEvery, expectedCron, expectedTimezone, expectedGrace, missingSeverity)
    }

    function Columns(): Row
      reads this
    {
      Row(Expected(), active, missingAlertedAt, lastNotificationAt, lastStartAt, expectedSince)
    }

    /** The UPDATE of `persist_notification`. */
    method Heartbeat(phase: Phase, receivedAt: int)
      modifies this
      ensures Columns() == HeartbeatStep(old(Columns()), phase, receivedAt)
    {
      if phase.Start? {
        lastStartAt := Greatest(lastStartAt, receivedAt);
      } else {
        lastNotificationAt := Greatest(lastNotificationAt, receivedAt);
      }
    }

    /** A PATCH for the row it has `seen`. Zones are compared by their names. */
    method Patch(seen: Row, body: Body, now: int) returns (outcome: PatchOutcome)
      requires SameZones(seen.expected.timezone, Sent(body.timezone, seen.expected.timezone))
      modifies this
      ensures (Columns(), outcome) == PatchResult(old(Columns()), seen, body, now)
    {
      var final, newActive := Merged(seen.expected, body), seen.active;
      var newSince, newAlert := seen.expectedSince, seen.missingAlertedAt;
      if body.active.Some? { newActive := body.active.value; }
      if SendsPolicy(body) {
        if Validate(final).Some? { return Unprocessable; }
        if final.severity.None? {
          newSince, newAlert := None, None;
        } else if seen.expected.severity.None? {
          newSince, newAlert := Some(now), None;
        }
      }
      if !seen.active && newActive && final.severity.Some? {
        newSince, newAlert := Some(now), None;
      }
      outcome := Update(seen, final, newActive, newAlert, newSince);
    }

    /** The UPDATE and its constraint. */
    method Update(seen: Row, final: Expectation, newActive: bool, newAlert: Option<int>, newSince: Option<int>)
      returns (outcome: PatchOutcome)
      requires SameZones(seen.expected.timezone, final.timezone)
      modifies this
      ensures var row, target := old(Columns()), seen.(expected := final, active := newActive,
                                                       missingAlertedAt := newAlert, expectedSince := newSince);
              var after := WriteBack(row, seen, target);
              (Columns(), outcome) == if CheckHolds(after.expected) then (after, Done) else (row, ConstraintViolated)
    {
      hide WrittenPolicy, CheckHolds, SameZones;
      var x := WritePolicy(Expected(), seen.expected, final);
      if !CheckHolds(x) { return ConstraintViolated; }
      expectedEvery, expectedCron, expectedTimezone := x.every, x.cron, x.timezone;
      expectedGrace, missingSeverity := x.grace, x.severity;
      if newActive != seen.active { active := newActive; }
      if newAlert != seen.missingAlertedAt { missingAlertedAt := newAlert; }
      if newSince != seen.expectedSince { expectedSince := newSince; }
      return Done;
    }

    method Check(now: int) returns (outcome: Outcome)
      requires RowOk(Columns())
      modifies this
      ensures IsCheck(old(Columns()), now, Columns(), outcome)
    {
      hide Usable, IsDeadline, CronFire.Recent, ExpectationOk, TimingOf;
      var policy := PolicyOf(Expected());
      if !active || policy.None? { return Quiet; }
      if missingAlertedAt.Some? && lastNotificationAt.Some? && lastNotificationAt.value > missingAlertedAt.value {
        missingAlertedAt := None;
        return Recovered;
      }
      if missingAlertedAt.Some? { return Quiet; }
      var reference := ReferenceInstant(Columns());
      if reference.None? { return Quiet; }
      ExpectationIsUsable(Expected());
      var deadline := AlertDeadline(policy.value, reference.value);
      assert IsRowDeadline(Columns(), deadline);
      if deadline.None? || now <= deadline.value { return Quiet; }
      missingAlertedAt := Some(now);
      return Missing;
    }
  }

  /** The receivers that come out this way. */
  ghost function Those(outcomes: seq<Outcome>, outcome: Outcome): set<int> {
    set i | 0 <= i < |outcomes| && outcomes[i] == outcome
  }

  lemma OneMore(outcomes: seq<Outcome>, next: Outcome, outcome: Outcome)
    ensures |Those(outcomes + [next], outcome)| == |Those(outcomes, outcome)| + if next == outcome then 1 else 0
  {
    var before, after := Those(outcomes, outcome), Those(outcomes + [next], outcome);
    assert after == if next == outcome then before + {|outcomes|} else before;
  }

  /** One tenant's receivers in one run of the job: each is decided on its own columns, and
      an expectation that cannot be computed does not keep the others from being checked. */
  method CheckTenant(receivers: seq<Receiver>, now: int)
    returns (missing: nat, recovered: nat, ghost outcomes: seq<Outcome>)
    requires forall i, j :: 0 <= i < j < |receivers| ==> receivers[i] != receivers[j]
    requires forall i :: 0 <= i < |receivers| ==> RowOk(receivers[i].Columns())
    modifies receivers
    ensures |outcomes| == |receivers|
    ensures forall i :: 0 <= i < |receivers| ==>
              IsCheck(old(receivers[i].Columns()), now, receivers[i].Columns(), outcomes[i])
    ensures missing == |Those(outcomes, Missing)| && recovered == |Those(outcomes, Recovered)|
  {
    hide IsCheck, RowOk;
    missing, recovered, outcomes := 0, 0, [];
    for i := 0 to |receivers|
      invariant |outcomes| == i
      invariant forall k :: 0 <= k < i ==>
                  IsCheck(old(receivers[k].Columns()), now, receivers[k].Columns(), outcomes[k])
      invariant forall k :: i <= k < |receivers| ==> receivers[k].Columns() == old(receivers[k].Columns())
      invariant missing == |Those(outcomes, Missing)| && recovered == |Those(outcomes, Recovered)|
    {
      var outcome := receivers[i].Check(now);
      OneMore(outcomes, outcome, Missing);
      OneMore(outcomes, outcome, Recovered);
      outcomes := outcomes + [outcome];
      if outcome == Missing { missing := missing + 1; }
      if outcome == Recovered { recovered := recovered + 1; }
    }
  }

  // ----- one receiver, one step -----

  /** An overdue receiver that is not yet marked is marked by the next check, however long
      the tolerance is. */
  lemma OverdueIsAlarmed(row: Row, now: int, later: int, after: Row, outcome: Outcome)
    requires RowOk(row) && Watched(row) && row.missingAlertedAt == None && Overdue(row, now) && now <= later
    requires IsCheck(row, later, after, outcome)
    ensures outcome == Missing && after.missingAlertedAt == Some(later)
  {
    hide Usable, IsDeadline, ExpectationOk, TimingOf;
    var d :| IsRowDeadline(row, d) && d.Some? && now > d.value;
    var d' :| IsRowDeadline(row, d') && IsVerdict(row, later, d', after, outcome);
    ExpectationIsUsable(row.expected);
    DeadlineIsUnique(PolicyOf(row.expected).value, ReferenceInstant(row).value, d, d');
  }

  /** Start pings change no decision of the job. */
  lemma StartsDecideNothing(row: Row, receivedAt: int, now: int, after: Row, outcome: Outcome)
    requires RowOk(row)
    ensures var pinged := HeartbeatStep(row, Start, receivedAt);
            && RowOk(pinged)
            && (IsCheck(row, now, after, outcome) ==>
                  IsCheck(pinged, now, after.(lastStartAt := pinged.lastStartAt), outcome))
  {
    hide Usable, IsDeadline, CronFire.Recent, ExpectationOk, TimingOf;
    var pinged := HeartbeatStep(row, Start, receivedAt);
    if Watched(row) && ReferenceInstant(row).Some? {
      forall d ensures IsRowDeadline(pinged, d) <==> IsRowDeadline(row, d) {}
    }
  }
}
