/** Where the cron engine does not do what one would expect, with concrete inputs. */
module CronCounterexamples {
  import opened Arithmetic
  import opened Basics
  import opened Calendar
  import opened CronSchedule
  import opened CronSearch
  import opened CronZone
  import opened CronChanges
  import opened CronFire
  import opened CronMonotone

  // ----- one branch without a match -----

  /** `0 0 30 2 1`: February 30th or a Monday in February. */
  const NEVER := Schedule(Fields([Num(0)], [Num(0)], [Num(30)], [Num(2)], [Num(1)]), map[], {})

  function Utc(): Zone { t => 0 }

  /** It never fires, although Mondays in February are wanted. */
  lemma OneEmptyBranchSilencesTheOther(instant: int, r: Option<int>)
    requires RealZone(Utc()) && Settles(Utc()) && IsNextFire(Utc(), NEVER, instant, r)
    ensures r == None
    ensures Wanted(NEVER, WallOf(2025, 2, 3, 0, 0))
  {
    hide IsNextFire, RealZone, Settles, CivilOf, WallOf, IsNext;
    FixedNextFire(Utc(), 0, NEVER, instant, r);
    var found := Search(instant, ByDay(NEVER.fields), NEVER);
    NextIsLater(instant, ByDay(NEVER.fields), NEVER);
    if found.Some? { NoThirtiethOfFebruary(found.value); }
    CivilOfWall(Date(2025, 2, 3), 0, 0);
    WallIsMinute(2025, 2, 3);
  }

  lemma WallIsMinute(y: int, mo: int, d: int)
    requires y >= 100 && 1 <= mo <= 12
    ensures WallOf(y, mo, d, 0, 0) % MINUTE_MS == 0
  {
    hide MonthStart, WallOf;
    WallOfModern(y, mo, d, 0, 0);
    ModOf(WallOf(y, mo, d, 0, 0), 1440 * (MonthStart(y, mo) + d - 1), 0, MINUTE_MS);
  }

  lemma NoThirtiethOfFebruary(wall: int)
    ensures !Matches(ByDay(NEVER.fields), NEVER, wall)
  {
    hide DateOfDay, DowOfDay;
    var date := DateOfDay(wall / DAY_MS);
    assert ValidDate(date);
  }

  // ----- a clock put back by half an hour -----

  /** `25,35 1 * * *`. */
  const TWICE := Schedule(Fields([Num(25), Num(35)], [Num(1)], [Star], [Star], [Star]), map[], {})

  const DAY0 := 20000 * DAY_MS

  /** At this instant the clock goes from 02:00 on day 20000 back to 01:30. */
  const BACK := DAY0 - 9 * HOUR_MS

  /** Eleven hours ahead, then ten and a half, as on Lord Howe Island. */
  function HalfHour(): Zone {
    t => if t < BACK then 11 * HOUR_MS else 10 * HOUR_MS + 30 * MINUTE_MS
  }

  lemma HalfHourIsReal()
    ensures RealZone(HalfHour()) && Settles(HalfHour())
  {
    assert forall t :: Transition(HalfHour(), t) <==> t == BACK;
  }

  lemma TwiceMatches(wall: int)
    ensures Matches(TWICE.fields, TWICE, wall) <==>
      (&& wall % MINUTE_MS == 0 && wall / HOUR_MS % 24 == 1
       && (wall / MINUTE_MS % 60 == 25 || wall / MINUTE_MS % 60 == 35))
  {
    hide DateOfDay, DowOfDay;
  }

  /** A match a few years ahead is within the horizon. */
  lemma SoonInHorizon(start: int, wall: int)
    requires start < wall <= start + 2000 * DAY_MS
    ensures InHorizon(start, wall)
  {
    var m, n := NextMinute(start) / DAY_MS, wall / DAY_MS;
    if YearOfDay(n) > YearOfDay(m) + 50 { YearsGrow(YearOfDay(m) + 1, YearOfDay(n)); }
  }

  lemma TwiceSearch(start: int, wall: int)
    requires start < wall <= start + 2 * DAY_MS && Matches(TWICE.fields, TWICE, wall)
    requires forall v :: start < v < wall ==> !Matches(TWICE.fields, TWICE, v)
    ensures Search(start, TWICE.fields, TWICE) == Some(wall)
  {
    hide Matches, InHorizon;
    SoonInHorizon(start, wall);
    SearchUnique(start, TWICE.fields, TWICE, Search(start, TWICE.fields, TWICE), Some(wall));
  }

  /** From 01:25 to 01:35 on a day, and on to 01:25 on the next, nothing matches. */
  lemma TwiceGaps(day: int)
    ensures Search(day * DAY_MS + 80 * MINUTE_MS, TWICE.fields, TWICE) == Some(day * DAY_MS + 85 * MINUTE_MS)
    ensures Search(day * DAY_MS + 91 * MINUTE_MS, TWICE.fields, TWICE) == Some(day * DAY_MS + 95 * MINUTE_MS)
    ensures Search(day * DAY_MS + 110 * MINUTE_MS, TWICE.fields, TWICE) == Some((day + 1) * DAY_MS + 85 * MINUTE_MS)
  {
    hide Matches;
    TwiceOnDay(day, 80, 85);
    TwiceOnDay(day, 91, 95);
    TwiceOnDay(day, 110, 1525);
  }

  lemma TwiceOnDay(day: int, from: int, to: int)
    requires (from == 80 && to == 85) || (from == 91 && to == 95) || (from == 110 && to == 1525)
    ensures Search(day * DAY_MS + from * MINUTE_MS, TWICE.fields, TWICE) == Some(day * DAY_MS + to * MINUTE_MS)
  {
    hide Matches;
    var start, wall := day * DAY_MS + from * MINUTE_MS, day * DAY_MS + to * MINUTE_MS;
    TwiceThere(day, to);
    forall v | start < v < wall ensures !Matches(TWICE.fields, TWICE, v) { NotTwice(day, from, to, v); }
    TwiceSearch(start, wall);
  }

  lemma TwiceThere(day: int, to: int)
    requires to == 85 || to == 95 || to == 1525
    ensures Matches(TWICE.fields, TWICE, day * DAY_MS + to * MINUTE_MS)
  {
    hide Matches;
    TwiceMatches(day * DAY_MS + to * MINUTE_MS);
    MinuteOfDay(day, to);
  }

  lemma NotTwice(day: int, from: int, to: int, v: int)
    requires (from == 80 && to == 85) || (from == 91 && to == 95) || (from == 110 && to == 1525)
    requires day * DAY_MS + from * MINUTE_MS < v < day * DAY_MS + to * MINUTE_MS
    ensures !Matches(TWICE.fields, TWICE, v)
  {
    hide Matches;
    TwiceMatches(v);
    if v % MINUTE_MS == 0 {
      var minutes := v / MINUTE_MS - 1440 * day;
      DivLaw(v, MINUTE_MS);
      assert v == day * DAY_MS + minutes * MINUTE_MS && from < minutes < to;
      MinuteOfDay(day, minutes);
    }
  }

  lemma MinuteOfDay(day: int, minutes: int)
    requires 0 <= minutes < 2880
    ensures var wall := day * DAY_MS + minutes * MINUTE_MS;
            && wall % MINUTE_MS == 0
            && wall / HOUR_MS % 24 == minutes / 60 % 24 && wall / MINUTE_MS % 60 == minutes % 60
  {
    var wall, hours := day * DAY_MS + minutes * MINUTE_MS, 24 * day + minutes / 60;
    DivLaw(minutes, 60);
    ModOf(wall, 1440 * day + minutes, 0, MINUTE_MS);
    ModOf(wall, hours, minutes % 60 * MINUTE_MS, HOUR_MS);
    ModOf(1440 * day + minutes, hours, minutes % 60, 60);
    ModMany(minutes / 60, day, 24);
  }

  lemma ZonedOnce(wall: int, now: Moment, m: Moment, there: bool, i: int)
    requires IsZoned(HalfHour(), wall, now, m, there) && At(HalfHour(), i, wall)
    requires forall j :: At(HalfHour(), j, wall) ==> j == i
    ensures there && m == Moment(wall, i, wall - i)
  {
    hide HalfHour;
  }

  lemma ZonedTwice(wall: int, now: Moment, m: Moment, there: bool, i: int, j: int)
    requires IsZoned(HalfHour(), wall, now, m, there) && At(HalfHour(), i, wall) && At(HalfHour(), j, wall)
    requires forall k :: At(HalfHour(), k, wall) ==> k == i || k == j
    requires i < j && i <= now.instant
    ensures there && m == Moment(wall, j, wall - j)
  {
    hide HalfHour;
  }

  const ONE_TWENTY_FIVE := DAY0 + 85 * MINUTE_MS
  const ONE_THIRTY_FIVE := DAY0 + 95 * MINUTE_MS
  const NEXT_DAY := DAY0 + DAY_MS + 85 * MINUTE_MS

  /** 01:25 is shown once on the day of the change, 01:35 twice, 01:25 once the day after. */
  lemma Shown()
    ensures forall i :: At(HalfHour(), i, ONE_TWENTY_FIVE) <==> i == BACK - 35 * MINUTE_MS
    ensures forall i :: At(HalfHour(), i, ONE_THIRTY_FIVE) <==> i == BACK - 25 * MINUTE_MS || i == BACK + 5 * MINUTE_MS
    ensures forall i :: At(HalfHour(), i, NEXT_DAY) <==> i == BACK + 23 * HOUR_MS + 55 * MINUTE_MS
  {}

  lemma BeforeTheChange(p: Option<int>)
    requires RealZone(HalfHour()) && Settles(HalfHour())
    requires IsNextFire(HalfHour(), TWICE, BACK - 10 * MINUTE_MS, p)
    ensures p == Some(BACK + 23 * HOUR_MS + 55 * MINUTE_MS)
  {
    hide RealZone, Settles, IsNext, IsZoned, IsSkip;
    TwiceGaps(20000);
    Shown();
    var z, f, now := HalfHour(), TWICE.fields, ClockAt(HalfHour(), BACK - 10 * MINUTE_MS);
    assert now.wall == DAY0 + 110 * MINUTE_MS && now.offset == 11 * HOUR_MS;
    var r :| IsAware(z, now, f, TWICE, r) && p == InstantOf(r);
    var first :| IsFirstMoment(z, now, f, TWICE, first) && IsBetter(z, now, f, TWICE, first, r);
    var m, there :| IsDelivered(z, NEXT_DAY, now, f, TWICE, m, there, first);
    ZonedOnce(NEXT_DAY, now, m, there, BACK + 23 * HOUR_MS + 55 * MINUTE_MS);
    assert now.wall + m.offset - now.offset == DAY0 + 80 * MINUTE_MS;
    var other, there' :| IsZoned(z, ONE_TWENTY_FIVE, now, other, there') && r == Some(Earlier(now, other, m));
    ZonedOnce(ONE_TWENTY_FIVE, now, other, there', BACK - 35 * MINUTE_MS);
  }

  lemma AfterTheChange(q: Option<int>)
    requires RealZone(HalfHour()) && Settles(HalfHour())
    requires IsNextFire(HalfHour(), TWICE, BACK + MINUTE_MS, q)
    ensures q == Some(BACK + 5 * MINUTE_MS)
  {
    hide RealZone, Settles, IsNext, IsZoned, IsSkip;
    TwiceGaps(20000);
    Shown();
    var z, f, now := HalfHour(), TWICE.fields, ClockAt(HalfHour(), BACK + MINUTE_MS);
    assert now.wall == DAY0 + 91 * MINUTE_MS;
    var r :| IsAware(z, now, f, TWICE, r) && q == InstantOf(r);
    var first :| IsFirstMoment(z, now, f, TWICE, first) && IsBetter(z, now, f, TWICE, first, r);
    var m, there :| IsDelivered(z, ONE_THIRTY_FIVE, now, f, TWICE, m, there, first);
    ZonedTwice(ONE_THIRTY_FIVE, now, m, there, BACK - 25 * MINUTE_MS, BACK + 5 * MINUTE_MS);
  }

  /** Asked ten minutes before the clock goes back, `nextFireAfter` answers with the next
      day; asked a minute after, with the second 01:35 of the same day. So the answer is not
      always the earliest firing, and a later reference can have an earlier answer. */
  lemma LaterReferenceFiresEarlier(p: Option<int>, q: Option<int>)
    requires RealZone(HalfHour()) && Settles(HalfHour())
    requires IsNextFire(HalfHour(), TWICE, BACK - 10 * MINUTE_MS, p)
    requires IsNextFire(HalfHour(), TWICE, BACK + MINUTE_MS, q)
    ensures p == Some(BACK + 23 * HOUR_MS + 55 * MINUTE_MS)
    ensures q == Some(BACK + 5 * MINUTE_MS)
  {
    BeforeTheChange(p);
    AfterTheChange(q);
  }

  // ----- a second passage lost in an ordinary zone -----

  /** `30 2 d mo *`: 02:30 on one day of the year. */
  function HalfPastTwo(mo: int, d: int): Schedule {
    Schedule(Fields([Num(30)], [Num(2)], [Num(d)], [Num(mo)], [Star]), map[], {})
  }

  /** October 25th. */
  const YEARLY := HalfPastTwo(10, 25)

  /** October 25th 2026 and March 28th 2027. */
  const AUTUMN := 20751
  const SPRING := 20905

  /** At these instants the clock goes from 03:00 back to 02:00, and from 02:00 on to 03:00. */
  const FALL_BACK := AUTUMN * DAY_MS + HOUR_MS
  const SPRING_ON := SPRING * DAY_MS + HOUR_MS

  /** Rome from the summer of 2026 to October 30th 2027: two hours ahead, one in winter. */
  function Rome(): Zone {
    t => if FALL_BACK <= t < SPRING_ON then HOUR_MS else 2 * HOUR_MS
  }

  lemma RomeIsReal()
    ensures RealZone(Rome()) && Settles(Rome())
  {
    assert forall t :: Transition(Rome(), t) <==> t == FALL_BACK || t == SPRING_ON;
  }

  const HALF_PAST_TWO := AUTUMN * DAY_MS + 150 * MINUTE_MS
  const YEAR_AFTER := HALF_PAST_TWO + 365 * DAY_MS

  predicate EveryYear(mo: int, d: int) {
    1 <= mo <= 12 && 1 <= d <= 28
  }

  function TimeOn(mo: int, d: int, y: int): int
    requires EveryYear(mo, d)
  {
    DayNumber(Date(y, mo, d)) * DAY_MS + 150 * MINUTE_MS
  }

  lemma KnownDays()
    ensures TimeOn(10, 25, 2025) == HALF_PAST_TWO - 365 * DAY_MS && TimeOn(10, 25, 2026) == HALF_PAST_TWO
    ensures TimeOn(10, 25, 2027) == YEAR_AFTER
    ensures TimeOn(3, 28, 2026) == MISSING - 365 * DAY_MS && TimeOn(3, 28, 2027) == MISSING
    ensures TimeOn(3, 28, 2028) == MISSING + 366 * DAY_MS
  {}

  lemma OnMatch(mo: int, d: int, y: int)
    requires EveryYear(mo, d)
    ensures Matches(HalfPastTwo(mo, d).fields, HalfPastTwo(mo, d), TimeOn(mo, d, y))
  {
    hide DateOfDay, DowOfDay, YearStart, DaysBeforeMonth;
    var day := DayNumber(Date(y, mo, d));
    DayNumberInverse(Date(y, mo, d));
    CivilOfParts(day, 2, 30);
    ModOf(day * DAY_MS + 150 * MINUTE_MS, 1440 * day + 150, 0, MINUTE_MS);
  }

  /** A matching minute is 02:30 on the day of its year. */
  lemma OnOnly(mo: int, d: int, wall: int)
    requires EveryYear(mo, d) && Matches(HalfPastTwo(mo, d).fields, HalfPastTwo(mo, d), wall)
    ensures wall == TimeOn(mo, d, CivilOf(wall).y)
  {
    hide YearStart, DowOfDay, DaysBeforeMonth;
    MinuteParts(wall);
  }

  lemma EarlierYear(mo: int, d: int, y: int, z: int)
    requires EveryYear(mo, d) && y <= z
    ensures TimeOn(mo, d, y) <= TimeOn(mo, d, z) && TimeOn(mo, d, z) - TimeOn(mo, d, z - 1) <= 367 * DAY_MS
  {
    hide YearStart;
    YearLength(z - 1);
    if y < z { YearsGrow(y, z); }
  }

  /** From one year's firing on, the first match is the next year's. */
  lemma OnSearch(mo: int, d: int, y: int, start: int)
    requires EveryYear(mo, d) && TimeOn(mo, d, y - 1) <= start < TimeOn(mo, d, y)
    ensures IsFirstMatch(HalfPastTwo(mo, d).fields, HalfPastTwo(mo, d), start, TimeOn(mo, d, y))
  {
    hide CivilOf, Matches, InHorizon, TimeOn;
    var s := HalfPastTwo(mo, d);
    OnMatch(mo, d, y);
    EarlierYear(mo, d, y, y);
    SoonInHorizon(start, TimeOn(mo, d, y));
    forall v | start < v < TimeOn(mo, d, y) ensures !Matches(s.fields, s, v) {
      if Matches(s.fields, s, v) {
        OnOnly(mo, d, v);
        if CivilOf(v).y < y { EarlierYear(mo, d, CivilOf(v).y, y - 1); } else { EarlierYear(mo, d, y, CivilOf(v).y); }
      }
    }
  }

  lemma AutumnSearch(start: int)
    ensures HALF_PAST_TWO <= start < YEAR_AFTER ==> IsFirstMatch(YEARLY.fields, YEARLY, start, YEAR_AFTER)
    ensures HALF_PAST_TWO - DAY_MS <= start < HALF_PAST_TWO ==>
      IsFirstMatch(YEARLY.fields, YEARLY, start, HALF_PAST_TWO)
    ensures Matches(YEARLY.fields, YEARLY, HALF_PAST_TWO)
  {
    hide IsFirstMatch, Matches, TimeOn;
    KnownDays();
    OnMatch(10, 25, 2026);
    if HALF_PAST_TWO <= start < YEAR_AFTER { OnSearch(10, 25, 2027, start); }
    if HALF_PAST_TWO - DAY_MS <= start < HALF_PAST_TWO { OnSearch(10, 25, 2026, start); }
  }

  /** Twenty minutes before the clock goes back, at 02:40, the next firing found is a year
      away, at the same offset as now; the second 02:30 of the same night is passed over. */
  lemma SecondPassageIsMissed(r: Option<int>)
    requires RealZone(Rome()) && Settles(Rome()) && IsNextFire(Rome(), YEARLY, FALL_BACK - 20 * MINUTE_MS, r)
    ensures r == Some(YEAR_AFTER - 2 * HOUR_MS)
    ensures At(Rome(), FALL_BACK + 30 * MINUTE_MS, HALF_PAST_TWO) && Matches(YEARLY.fields, YEARLY, HALF_PAST_TWO)
  {
    hide RealZone, Settles, IsNext, IsZoned, IsSkip, Matches;
    var z, f, now := Rome(), YEARLY.fields, ClockAt(Rome(), FALL_BACK - 20 * MINUTE_MS);
    AutumnSearch(now.wall);
    FirstMatchIsSearch(f, YEARLY, now.wall, YEAR_AFTER);
    var m :| IsAware(z, now, f, YEARLY, m) && r == InstantOf(m);
    var first :| IsFirstMoment(z, now, f, YEARLY, first) && IsBetter(z, now, f, YEARLY, first, m);
    var found, there :| IsDelivered(z, YEAR_AFTER, now, f, YEARLY, found, there, first);
    RomeOnce(now, found, there);
  }

  lemma RomeOnce(now: Moment, m: Moment, there: bool)
    requires IsZoned(Rome(), YEAR_AFTER, now, m, there)
    ensures there && m == Moment(YEAR_AFTER, YEAR_AFTER - 2 * HOUR_MS, 2 * HOUR_MS)
  {
    assert At(Rome(), YEAR_AFTER - 2 * HOUR_MS, YEAR_AFTER);
  }

  /** Asked again twenty-five minutes later, after the clock has gone back, the answer is the
      second 02:30, almost a year sooner. */
  lemma RomeFiresEarlier()
    requires RealZone(Rome()) && Settles(Rome())
    ensures NextFire(Rome(), YEARLY, FALL_BACK - 20 * MINUTE_MS) == Some(YEAR_AFTER - 2 * HOUR_MS)
    ensures NextFire(Rome(), YEARLY, FALL_BACK + 5 * MINUTE_MS) == Some(FALL_BACK + 30 * MINUTE_MS)
    ensures !NeverOvertaken(Rome(), YEARLY, FALL_BACK - 20 * MINUTE_MS)
  {
    hide RealZone, Settles, IsNext, IsNextFire, Matches;
    var z, b := Rome(), FALL_BACK + 5 * MINUTE_MS;
    SecondPassageIsMissed(NextFire(z, YEARLY, FALL_BACK - 20 * MINUTE_MS));
    AutumnSearch(b + z(b));
    FirstMatchIsSearch(YEARLY.fields, YEARLY, b + z(b), HALF_PAST_TWO);
    forall w | IsNext(b + z(b), YEARLY.fields, YEARLY, Some(w)) ensures w == HALF_PAST_TWO {
      SearchUnique(b + z(b), YEARLY.fields, YEARLY, Some(w), Some(HALF_PAST_TWO));
    }
    CalmNextFire(z, YEARLY, b, NextFire(z, YEARLY, b));
    Overtaken(z, YEARLY, FALL_BACK - 20 * MINUTE_MS, b);
  }

  // ----- a time skipped in spring -----

  /** `30 2 28 3 *`: 02:30 on March 28th, which 2027 does not have in Rome. */
  const MARCH := HalfPastTwo(3, 28)
  const MISSING := SPRING * DAY_MS + 150 * MINUTE_MS
  const THREE := SPRING * DAY_MS + 3 * HOUR_MS

  lemma SpringSearch(start: int)
    ensures MISSING - 365 * DAY_MS <= start < MISSING ==> IsFirstMatch(MARCH.fields, MARCH, start, MISSING)
    ensures MISSING <= start < MISSING + DAY_MS ==> IsFirstMatch(MARCH.fields, MARCH, start, MISSING + 366 * DAY_MS)
  {
    hide IsFirstMatch, TimeOn;
    KnownDays();
    if MISSING - 365 * DAY_MS <= start < MISSING { OnSearch(3, 28, 2027, start); }
    if MISSING <= start < MISSING + DAY_MS { OnSearch(3, 28, 2028, start); }
  }

  /** Asked just before, the firing is at 03:00, the end of the gap, and nothing is missed. */
  lemma RomeFiresAtGapEnd(a: int)
    requires SPRING_ON - 30 * MINUTE_MS <= a < SPRING_ON
    ensures RealZone(Rome()) && Settles(Rome()) && NextFire(Rome(), MARCH, a) == Some(SPRING_ON)
    ensures Punctual(Rome(), MARCH, a) && NeverOvertaken(Rome(), MARCH, a)
  {
    hide RealZone, Settles, IsFirstMatch, IsNextFire, Punctual, NeverOvertaken, IsAware, IsEarliestFiring, Across;
    RomeIsReal();
    var z, x := Rome(), if a + 2 * HOUR_MS < MISSING then MISSING else MISSING + 366 * DAY_MS;
    SpringSearch(a + z(a));
    SpringSearch(a + 2 * HOUR_MS);
    var m := UnrestrictedAware(z, MARCH, a);
    EarliestAtGapEnd(z, MARCH.fields, MARCH, a, SPRING_ON, THREE, MISSING, x, m);
    GapAcross(z, MARCH.fields, MARCH, a, SPRING_ON, SPRING_ON, THREE, MISSING);
    RiseMonotone(z, MARCH, a, SPRING_ON, MISSING, THREE, SPRING_ON, x);
  }

  /** So it is when asked in the autumn before, across the change back. */
  lemma RomeFiresAtGapEndFromAutumn(a: int)
    requires AUTUMN * DAY_MS <= a < FALL_BACK
    ensures RealZone(Rome()) && Settles(Rome()) && NextFire(Rome(), MARCH, a) == Some(SPRING_ON)
    ensures Punctual(Rome(), MARCH, a) && NeverOvertaken(Rome(), MARCH, a)
  {
    hide RealZone, Settles, IsFirstMatch, IsNextFire, Punctual, NeverOvertaken, IsAware, IsEarliestFiring, Across;
    hide Matches;
    RomeIsReal();
    var z := Rome();
    SpringSearch(a + z(a));
    FirstMatchFacts(MARCH.fields, MARCH, a + z(a), MISSING);
    SpringSearch(AUTUMN * DAY_MS);
    FirstMatchFacts(MARCH.fields, MARCH, AUTUMN * DAY_MS, MISSING);
    GapAcross(z, MARCH.fields, MARCH, a, FALL_BACK, SPRING_ON, THREE, MISSING);
    ReturnAnswer(z, MARCH, a, FALL_BACK, MISSING, THREE, SPRING_ON);
    PunctualAcrossChange(z, MARCH, a, FALL_BACK, MISSING, THREE, SPRING_ON, MISSING);
    PunctualIsNeverOvertaken(z, MARCH, a);
  }

  /** `30 * * * *`. */
  const HOURLY := Schedule(Fields([Num(30)], [Star], [Star], [Star], [Star]), map[], {})
  const HALF_PAST_THREE := THREE + 30 * MINUTE_MS

  lemma HourlyMatches(wall: int)
    ensures Matches(HOURLY.fields, HOURLY, wall) <==> wall % MINUTE_MS == 0 && wall / MINUTE_MS % 60 == 30
  {
    hide DateOfDay, DowOfDay;
  }

  lemma HourlySearch(start: int, wall: int)
    requires start < wall <= start + HOUR_MS && (wall == MISSING || wall == HALF_PAST_THREE)
    ensures IsFirstMatch(HOURLY.fields, HOURLY, start, wall)
  {
    hide Matches, InHorizon;
    HourlyMatches(wall);
    SoonInHorizon(start, wall);
    forall v | start < v < wall ensures !Matches(HOURLY.fields, HOURLY, v) { HourlyMatches(v); }
  }

  /** Every hour: the missing 02:30 is passed over and the end of its gap not answered, though it
      counts as due; still no later reference is answered with anything sooner than 03:30. */
  lemma HourlyPastGap(a: int)
    requires SPRING_ON - 20 * MINUTE_MS <= a < SPRING_ON
    ensures RealZone(Rome()) && Settles(Rome()) && NextFire(Rome(), HOURLY, a) == Some(SPRING_ON + 30 * MINUTE_MS)
    ensures !Punctual(Rome(), HOURLY, a) && NeverOvertaken(Rome(), HOURLY, a)
  {
    hide RealZone, Settles, IsFirstMatch, IsNextFire, NeverOvertaken, IsAware, IsEarliest, Matches, InHorizon, FiresAt;
    RomeIsReal();
    var z, f := Rome(), HOURLY.fields;
    HourlySearch(a + z(a), MISSING);
    HourlySearch(THREE - 1, HALF_PAST_THREE);
    HourlySearch(a + 2 * HOUR_MS, HALF_PAST_THREE);
    SoonInHorizon(MISSING, HALF_PAST_THREE);
    assert At(z, HALF_PAST_THREE - 2 * HOUR_MS, HALF_PAST_THREE);
    var m := UnrestrictedAware(z, HOURLY, a);
    GapAnswer(z, f, HOURLY, a, SPRING_ON, SPRING_ON, THREE, MISSING, HALF_PAST_THREE, HALF_PAST_THREE, m);
    GapEveryHourMonotone(z, HOURLY, a, SPRING_ON, THREE, MISSING, HALF_PAST_THREE, HALF_PAST_THREE);
    GapEndIsDue(MISSING);
    assert Due(z, HOURLY, SPRING_ON);
  }

  lemma GapEndIsDue(y: int)
    requires y == MISSING
    ensures FiresAt(Rome(), HOURLY.fields, HOURLY, SPRING_ON)
  {
    hide RealZone, Matches, IsMoved, Exists, IsFirst;
    RomeIsReal();
    HourlyMatches(y);
    GapIsMissing(Rome(), SPRING_ON, y);
    MovedToGapEnd(Rome(), SPRING_ON, THREE, y, THREE);
    AfterRise(Rome(), SPRING_ON, THREE);
  }

  // ----- the examples of a change back meet the conditions of the general statements -----

  /** In Rome the first match ahead lies at the offset of now again, and one is repeated. */
  lemma RomeFallsAndReturns()
    ensures var z, f, a := Rome(), YEARLY.fields, FALL_BACK - 20 * MINUTE_MS;
            && RealZone(z) && Settles(z) && Recent(a) && QuietMinute(z, a) && z(FALL_BACK) < z(a)
            && Across(z, f, YEARLY, a, FALL_BACK, YEAR_AFTER, YEAR_AFTER, YEAR_AFTER - z(a))
            && z(YEAR_AFTER - z(a)) == z(a)
            && Repeats(z, f, YEARLY, a, FALL_BACK)
  {
    hide Matches, InHorizon, IsFirstMatch;
    var z, a := Rome(), FALL_BACK - 20 * MINUTE_MS;
    RomeIsReal();
    AutumnSearch(a + z(a));
    assert At(z, YEAR_AFTER - 2 * HOUR_MS, YEAR_AFTER);
    ShownAcross(z, YEARLY.fields, YEARLY, a, FALL_BACK, YEAR_AFTER, YEAR_AFTER - z(a));
    assert Matches(YEARLY.fields, YEARLY, HALF_PAST_TWO);
  }

  /** On Lord Howe Island it lies at the offset after the change, one is repeated, and the
      second search meets 01:25, which is over. */
  lemma LordHoweFallsAndStays()
    ensures var z, f, a := HalfHour(), TWICE.fields, BACK - 10 * MINUTE_MS;
            && RealZone(z) && Settles(z) && Recent(a) && QuietMinute(z, a) && Quiet(z, a, z(BACK)) && z(BACK) < z(a)
            && Across(z, f, TWICE, a, BACK, NEXT_DAY, NEXT_DAY, NEXT_DAY - z(BACK)) && z(NEXT_DAY - z(BACK)) == z(BACK)
            && IsFirstMatch(f, TWICE, a + z(BACK), ONE_TWENTY_FIVE) && Repeats(z, f, TWICE, a, BACK)
            && a + z(BACK) < ONE_TWENTY_FIVE < BACK + z(BACK) && Matches(f, TWICE, ONE_TWENTY_FIVE)
  {
    hide Matches, InHorizon;
    HalfHourIsReal();
    TwiceGaps(20000);
    TwiceThere(20000, 85);
    TwiceThere(20000, 95);
    var z, a := HalfHour(), BACK - 10 * MINUTE_MS;
    assert At(z, NEXT_DAY - 10 * HOUR_MS - 30 * MINUTE_MS, NEXT_DAY);
    ShownAcross(z, TWICE.fields, TWICE, a, BACK, NEXT_DAY, NEXT_DAY - z(BACK));
    QuietInFirstPassage(z, a, BACK);
    assert Matches(TWICE.fields, TWICE, ONE_THIRTY_FIVE);
  }
}
