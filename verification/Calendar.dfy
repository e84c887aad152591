/** The proleptic Gregorian calendar behind the cron search.

    A wall time is what the source keeps in a `Date` read in UTC: milliseconds, with
    no time zone. A day number counts days from 1970-01-01. `DateUTC` follows the
    arithmetic of `Date.UTC` (ECMAScript, MakeDay and MakeFullYear), including its
    reading of the years 0..99 as 1900..1999; the search is therefore proved for walls
    from the year 100 on (`Modern`). */
module Calendar {
  import opened Arithmetic
  import opened Basics

  const MINUTE_MS := 60_000
  const HOUR_MS := 3_600_000
  const DAY_MS := 86_400_000

  datatype Date = Date(y: int, mo: int, d: int)

  /** A wall time taken apart; `dow` is 0 on Sunday. */
  datatype Civil = Civil(y: int, mo: int, d: int, h: int, mi: int, dow: int)

  predicate IsLeap(y: int) {
    y % 4 == 0 && (y % 100 != 0 || y % 400 == 0)
  }

  function DaysInMonth(y: int, mo: int): (len: int)
    requires 1 <= mo <= 12
    ensures 28 <= len <= 31
  {
    if mo == 2 then (if IsLeap(y) then 29 else 28)
    else if mo == 4 || mo == 6 || mo == 9 || mo == 11 then 30
    else 31
  }

  predicate ValidDate(date: Date) {
    1 <= date.mo <= 12 && 1 <= date.d <= DaysInMonth(date.y, date.mo)
  }

  /** The day number of January 1st. */
  function YearStart(y: int): int {
    365 * (y - 1) + (y - 1) / 4 - (y - 1) / 100 + (y - 1) / 400 - 719162
  }

  /** Days of the year before month `mo`; month 13 stands for the whole year. */
  function DaysBeforeMonth(y: int, mo: int): int
    requires 1 <= mo <= 13
  {
    [0, 31, 59, 90, 120, 151, 181, 212, 243, 273, 304, 334, 365][mo - 1]
    + (if mo > 2 && IsLeap(y) then 1 else 0)
  }

  function MonthStart(y: int, mo: int): int
    requires 1 <= mo <= 12
  {
    YearStart(y) + DaysBeforeMonth(y, mo)
  }

  function DayNumber(date: Date): int
    requires ValidDate(date)
  {
    MonthStart(date.y, date.mo) + date.d - 1
  }

  /** The largest year that starts no later than day `n`. */
  function YearOfDay(n: int): (y: int)
    ensures YearStart(y) <= n < YearStart(y + 1)
  {
    var guess := 400 * (n + 719162) / 146097 + 1;
    YearGuess(n);
    if YearStart(guess + 1) <= n then guess + 1 else guess
  }

  lemma YearGuess(n: int)
    ensures var g := 400 * (n + 719162) / 146097 + 1;
            YearStart(g) <= n && n < YearStart(g + 2)
  {
    var q := 400 * (n + 719162) / 146097;
    FourHundredYears(q);
    FourHundredYears(q + 2);
  }

  /** Four hundred times the days before a year, up to less than two days. */
  lemma FourHundredYears(q: int)
    ensures 146097 * q - 699 <= 400 * (YearStart(q + 1) + 719162) <= 146097 * q + 396
  {
    assert q == 4 * (q / 4) + q % 4;
    assert q == 100 * (q / 100) + q % 100;
    assert q == 400 * (q / 400) + q % 400;
  }

  /** Each year is as long as its months. */
  lemma YearLength(y: int)
    ensures YearStart(y + 1) == YearStart(y) + DaysBeforeMonth(y, 13)
  {
    var four := DivStep(y, 4);
    var hundred := DivStep(y, 100);
    var fourHundred := DivStep(y, 400);
    Multiples(y);
    assert YearStart(y + 1) - YearStart(y) == 365 + four - hundred + fourHundred;
  }

  lemma DivStep(y: int, k: int) returns (step: int)
    requires k == 4 || k == 100 || k == 400
    ensures y / k == (y - 1) / k + step
    ensures step == if y % k == 0 then 1 else 0
  {
    step := if y % k == 0 then 1 else 0;
    match k
    case 4 => assert y / 4 == (y - 1) / 4 + step;
    case 100 => assert y / 100 == (y - 1) / 100 + step;
    case _ => assert y / 400 == (y - 1) / 400 + step;
  }

  lemma Multiples(y: int)
    ensures y % 400 == 0 ==> y % 100 == 0
    ensures y % 100 == 0 ==> y % 4 == 0
  {
    DivLaw(y, 400);
    DivLaw(y, 100);
    if y % 400 == 0 { ModOf(y, 4 * (y / 400), 0, 100); }
    if y % 100 == 0 { ModOf(y, 25 * (y / 100), 0, 4); }
  }

  lemma {:induction false} YearsGrow(y: int, z: int)
    requires y <= z
    ensures YearStart(y) + 365 * (z - y) <= YearStart(z)
    decreases z - y
  {
    if y == z {
    } else {
      YearLength(y);
      YearsGrow(y + 1, z);
    }
  }

  /** The year of a day is the only one that contains it. */
  lemma YearUnique(n: int, y: int)
    requires YearStart(y) <= n < YearStart(y + 1)
    ensures YearOfDay(n) == y
  {
    var z := YearOfDay(n);
    if z < y { YearsGrow(z + 1, y); }
    if y < z { YearsGrow(y + 1, z); }
  }

  /** The month that holds day `doy` (0-based) of year `y`. */
  function MonthOfYearDay(y: int, doy: int): (mo: int)
    requires 0 <= doy < DaysBeforeMonth(y, 13)
    ensures 1 <= mo <= 12
    ensures DaysBeforeMonth(y, mo) <= doy < DaysBeforeMonth(y, mo) + DaysInMonth(y, mo)
  {
    if doy < DaysBeforeMonth(y, 2) then 1
    else if doy < DaysBeforeMonth(y, 3) then 2
    else if doy < DaysBeforeMonth(y, 4) then 3
    else if doy < DaysBeforeMonth(y, 5) then 4
    else if doy < DaysBeforeMonth(y, 6) then 5
    else if doy < DaysBeforeMonth(y, 7) then 6
    else if doy < DaysBeforeMonth(y, 8) then 7
    else if doy < DaysBeforeMonth(y, 9) then 8
    else if doy < DaysBeforeMonth(y, 10) then 9
    else if doy < DaysBeforeMonth(y, 11) then 10
    else if doy < DaysBeforeMonth(y, 12) then 11
    else 12
  }

  function DateOfDay(n: int): (date: Date)
    ensures ValidDate(date) && DayNumber(date) == n
  {
    var y := YearOfDay(n);
    YearLength(y);
    var doy := n - YearStart(y);
    var mo := MonthOfYearDay(y, doy);
    Date(y, mo, doy - DaysBeforeMonth(y, mo) + 1)
  }

  lemma MonthLength(y: int, mo: int)
    requires 1 <= mo <= 12
    ensures DaysBeforeMonth(y, mo + 1) == DaysBeforeMonth(y, mo) + DaysInMonth(y, mo)
  {}

  lemma MonthsGrow(y: int, mo: int, mp: int)
    requires 1 <= mo <= mp <= 13
    ensures DaysBeforeMonth(y, mo) + 28 * (mp - mo) <= DaysBeforeMonth(y, mp)
    decreases mp - mo
  {
    if mo == mp {
    } else {
      MonthLength(y, mo);
      MonthsGrow(y, mo + 1, mp);
    }
  }

  /** `DateOfDay` undoes `DayNumber`: with the contract of `DateOfDay` the two are
      mutually inverse. */
  lemma DayNumberInverse(date: Date)
    requires ValidDate(date)
    ensures DateOfDay(DayNumber(date)) == date
  {
    var n := DayNumber(date);
    MonthLength(date.y, date.mo);
    MonthsGrow(date.y, 1, date.mo);
    MonthsGrow(date.y, date.mo + 1, 13);
    YearLength(date.y);
    YearUnique(n, date.y);
    var back := DateOfDay(n);
    MonthLength(date.y, back.mo);
    if back.mo < date.mo { MonthsGrow(date.y, back.mo + 1, date.mo); }
    if date.mo < back.mo { MonthsGrow(date.y, date.mo + 1, back.mo); }
  }

  // ----- months counted without years -----

  /** Months since year 0: 12 * year + month - 1. */
  /** Day 0 is the first of 1970, and every date has the number after the one before it: thirty days in
      April, June, September and November, and February by the rule of 4, 100 and 400. */
  lemma DaysFollow(date: Date)
    requires ValidDate(date)
    ensures DayNumber(Date(1970, 1, 1)) == 0
    ensures var Date(y, mo, d) := date;
            var last := if mo == 2 then (if y % 400 == 0 || (y % 4 == 0 && y % 100 != 0) then 29 else 28)
                        else if mo in {4, 6, 9, 11} then 30
                        else 31;
            var next := if d < last then Date(y, mo, d + 1)
                        else if mo < 12 then Date(y, mo + 1, 1)
                        else Date(y + 1, 1, 1);
            ValidDate(next) && DayNumber(next) == DayNumber(date) + 1
  {
    assert YearStart(1970) == 0;
    hide YearStart;
    MonthLength(date.y, date.mo);
    YearLength(date.y);
  }

  function MonthStartAt(index: int): int {
    MonthStart(index / 12, index % 12 + 1)
  }

  function MonthIndex(n: int): int {
    var date := DateOfDay(n);
    12 * date.y + date.mo - 1
  }

  lemma MonthIndexParts(y: int, mo: int)
    requires 1 <= mo <= 12
    ensures (12 * y + mo - 1) / 12 == y && (12 * y + mo - 1) % 12 + 1 == mo
  {
    ModOf(12 * y + mo - 1, y, mo - 1, 12);
  }

  lemma NextMonthStart(index: int)
    ensures MonthStartAt(index + 1) == MonthStartAt(index) + DaysInMonth(index / 12, index % 12 + 1)
  {
    hide YearStart;
    var y, mo := index / 12, index % 12 + 1;
    MonthLength(y, mo);
    YearLength(y);
    if mo == 12 { MonthIndexParts(y + 1, 1); } else { MonthIndexParts(y, mo + 1); }
    assert index == 12 * y + mo - 1;
  }

  lemma {:induction false} MonthStartsGrow(i: int, j: int)
    requires i <= j
    ensures MonthStartAt(i) + 28 * (j - i) <= MonthStartAt(j)
    decreases j - i
  {
    hide MonthStartAt;
    if i == j {
    } else {
      NextMonthStart(i);
      MonthStartsGrow(i + 1, j);
    }
  }

  /** A day lies between the start of its month and the start of the next. */
  lemma MonthBracket(n: int)
    ensures var date, ix := DateOfDay(n), MonthIndex(n);
            && MonthStartAt(ix) == n - date.d + 1 && ix / 12 == date.y && ix % 12 + 1 == date.mo
            && MonthStartAt(ix) <= n < MonthStartAt(ix + 1) == MonthStartAt(ix) + DaysInMonth(date.y, date.mo)
  {
    hide YearStart, DateOfDay, DaysBeforeMonth, MonthStart, DaysInMonth;
    var date := DateOfDay(n);
    MonthIndexParts(date.y, date.mo);
    NextMonthStart(MonthIndex(n));
  }

  /** The month index is monotone, and strictly below that of any later month start. */
  lemma MonthIndexMonotone(n: int, index: int)
    ensures n < MonthStartAt(index) <==> MonthIndex(n) < index
  {
    hide MonthStartAt, MonthIndex, DateOfDay, DaysInMonth;
    MonthBracket(n);
    if MonthIndex(n) < index { MonthStartsGrow(MonthIndex(n) + 1, index); }
    else { MonthStartsGrow(index, MonthIndex(n)); }
  }

  /** From the start of a month on, a day of the month is at most the days gone by. */
  lemma DayOfMonthBound(n: int, index: int)
    requires MonthStartAt(index) <= n
    ensures DateOfDay(n).d <= n - MonthStartAt(index) + 1
  {
    hide MonthStartAt, MonthIndex, DateOfDay;
    MonthBracket(n);
    MonthIndexMonotone(n, index);
    MonthStartsGrow(index, MonthIndex(n));
  }

  /** Within a month the date moves with the day number. */
  lemma SameMonth(n: int, m: int)
    requires var date := DateOfDay(n); n - date.d + 1 <= m <= n - date.d + DaysInMonth(date.y, date.mo)
    ensures DateOfDay(m) == DateOfDay(n).(d := DateOfDay(n).d + m - n)
  {
    hide YearStart, DaysBeforeMonth;
    var date := DateOfDay(n);
    var moved := date.(d := date.d + m - n);
    DayNumberInverse(moved);
  }

  // ----- walls -----

  function MakeFullYear(y: int): int {
    if 0 <= y <= 99 then 1900 + y else y
  }

  /** `Date.UTC` with a 0-based month index; an index past 11 or a day 0 overflows
      into the neighbouring month. */
  function DateUTC(y: int, monthIndex: int, d: int, h: int, mi: int): int {
    var first := MonthStart(MakeFullYear(y) + monthIndex / 12, monthIndex % 12 + 1);
    DAY_MS * (first + d - 1) + HOUR_MS * h + MINUTE_MS * mi
  }

  function WallOf(y: int, mo: int, d: int, h: int, mi: int): int {
    DateUTC(y, mo - 1, d, h, mi)
  }

  /** Sunday is 0; day 0 was a Thursday. */
  function DowOfDay(n: int): (dow: int)
    ensures 0 <= dow < 7
  {
    (n + 4) % 7
  }

  function CivilOf(wall: int): Civil {
    var date := DateOfDay(wall / DAY_MS);
    Civil(date.y, date.mo, date.d, wall / HOUR_MS % 24, wall / MINUTE_MS % 60, DowOfDay(wall / DAY_MS))
  }

  /** The walls on which `Date.UTC` reads a year as written. */
  predicate Modern(wall: int) {
    wall >= DAY_MS * YearStart(100)
  }

  lemma WallOfModern(y: int, mo: int, d: int, h: int, mi: int)
    requires y >= 100 && 1 <= mo <= 12
    ensures WallOf(y, mo, d, h, mi) == DAY_MS * (MonthStart(y, mo) + d - 1) + HOUR_MS * h + MINUTE_MS * mi
  {
    assert (mo - 1) / 12 == 0 && (mo - 1) % 12 + 1 == mo;
  }

  lemma WallParts(day: int, h: int, mi: int)
    requires 0 <= h < 24 && 0 <= mi < 60
    ensures var wall := DAY_MS * day + HOUR_MS * h + MINUTE_MS * mi;
            && wall / DAY_MS == day
            && wall / HOUR_MS % 24 == h
            && wall / MINUTE_MS % 60 == mi
  {
    var wall, hours := DAY_MS * day + HOUR_MS * h + MINUTE_MS * mi, 24 * day + h;
    ModOf(wall, day, HOUR_MS * h + MINUTE_MS * mi, DAY_MS);
    ModOf(wall, hours, MINUTE_MS * mi, HOUR_MS);
    ModOf(hours, day, h, 24);
    ModOf(wall, 60 * hours + mi, 0, MINUTE_MS);
    ModOf(60 * hours + mi, hours, mi, 60);
  }

  lemma CivilOfParts(day: int, h: int, mi: int)
    requires 0 <= h < 24 && 0 <= mi < 60
    ensures var date := DateOfDay(day);
            CivilOf(DAY_MS * day + HOUR_MS * h + MINUTE_MS * mi)
              == Civil(date.y, date.mo, date.d, h, mi, DowOfDay(day))
  {
    hide DateOfDay, DowOfDay;
    WallParts(day, h, mi);
  }

  lemma MinuteParts(wall: int)
    requires wall % MINUTE_MS == 0
    ensures wall == DAY_MS * (wall / DAY_MS) + HOUR_MS * (wall / HOUR_MS % 24) + MINUTE_MS * (wall / MINUTE_MS % 60)
  {
    var minutes, hours, days := wall / MINUTE_MS, wall / HOUR_MS, wall / DAY_MS;
    assert hours == minutes / 60;
    assert days == hours / 24;
  }

  lemma ModernYear(wall: int)
    requires Modern(wall)
    ensures CivilOf(wall).y >= 100
  {
    var n := wall / DAY_MS;
    assert n >= YearStart(100);
    var y := YearOfDay(n);
    if y < 100 { YearsGrow(y + 1, 100); }
  }

  /** `civil` and `wallOf` are mutually inverse on whole minutes: one direction. */
  lemma WallOfCivil(wall: int)
    requires Modern(wall) && wall % MINUTE_MS == 0
    ensures var c := CivilOf(wall); WallOf(c.y, c.mo, c.d, c.h, c.mi) == wall
  {
    hide YearStart, DaysBeforeMonth, DateOfDay, DateUTC, WallOf, CivilOf;
    ModernYear(wall);
    WallOfCivilExactly(wall);
  }

  lemma WallOfWritten(y: int, mo: int, d: int, h: int, mi: int)
    requires 1 <= mo <= 12
    ensures WallOf(y, mo, d, h, mi) == DAY_MS * (MonthStart(MakeFullYear(y), mo) + d - 1) + HOUR_MS * h + MINUTE_MS * mi
  {
    assert (mo - 1) / 12 == 0 && (mo - 1) % 12 + 1 == mo;
  }

  lemma CenturiesApart(y: int, mo: int)
    requires 1 <= mo <= 12
    ensures MonthStart(y, mo) < MonthStart(1900 + y, mo)
  {
    hide YearStart;
    YearsGrow(y, 1900 + y);
  }

  /** Over all whole minutes, `wallOf` undoes `civil` exactly outside the years 0 to 99, which
      `Date.UTC` moves into the twentieth century. */
  lemma WallOfCivilExactly(wall: int)
    requires wall % MINUTE_MS == 0
    ensures var c := CivilOf(wall); WallOf(c.y, c.mo, c.d, c.h, c.mi) == wall <==> !(0 <= c.y <= 99)
  {
    hide YearStart, DaysBeforeMonth, DateOfDay, DateUTC, WallOf, MonthStart;
    MinuteParts(wall);
    var c := CivilOf(wall);
    WallOfWritten(c.y, c.mo, c.d, c.h, c.mi);
    CenturiesApart(c.y, c.mo);
    assert wall / DAY_MS == MonthStart(c.y, c.mo) + c.d - 1;
  }

  /** The other direction. */
  lemma CivilOfWall(date: Date, h: int, mi: int)
    requires ValidDate(date) && date.y >= 100 && 0 <= h < 24 && 0 <= mi < 60
    ensures CivilOf(WallOf(date.y, date.mo, date.d, h, mi))
         == Civil(date.y, date.mo, date.d, h, mi, DowOfDay(DayNumber(date)))
    ensures Modern(WallOf(date.y, date.mo, date.d, h, mi))
  {
    hide YearStart, DateOfDay, DateUTC, WallOf, MonthStart, DaysInMonth, CivilOf, DowOfDay;
    WallOfModern(date.y, date.mo, date.d, h, mi);
    ModernDay(date);
    CivilOfParts(DayNumber(date), h, mi);
    DayNumberInverse(date);
  }

  lemma ModernDay(date: Date)
    requires ValidDate(date) && date.y >= 100
    ensures DayNumber(date) >= YearStart(100)
  {
    hide YearStart;
    YearsGrow(100, date.y);
  }

  /** Day 0 of the next month, as the source asks for it: of the month in the year that
      `Date.UTC` reads. */
  function LastDayOfMonth(y: int, mo: int): (len: int)
    requires 1 <= mo <= 12
    ensures len == DaysInMonth(MakeFullYear(y), mo)
  {
    LastDayIsDayZero(y, mo);
    CivilOf(DateUTC(y, mo, 0, 0, 0)).d
  }

  lemma LastDayIsDayZero(y: int, mo: int)
    requires 1 <= mo <= 12
    ensures CivilOf(DateUTC(y, mo, 0, 0, 0)).d == DaysInMonth(MakeFullYear(y), mo)
  {
    hide YearStart, DateOfDay, DateUTC, DaysBeforeMonth, MonthStart, DowOfDay, MakeFullYear;
    var last := Date(MakeFullYear(y), mo, DaysInMonth(MakeFullYear(y), mo));
    DayZero(y, mo);
    DayNumberInverse(last);
    CivilOfParts(DayNumber(last), 0, 0);
  }

  lemma DayZero(y: int, mo: int)
    requires 1 <= mo <= 12
    ensures var full := MakeFullYear(y);
            DateUTC(y, mo, 0, 0, 0) == DAY_MS * DayNumber(Date(full, mo, DaysInMonth(full, mo)))
  {
    hide YearStart, MakeFullYear;
    MonthLength(MakeFullYear(y), mo);
    YearLength(MakeFullYear(y));
    if mo == 12 {
      assert mo / 12 == 1 && mo % 12 == 0;
    } else {
      assert mo / 12 == 0 && mo % 12 == mo;
    }
  }

  // ----- weekdays of a month -----

  predicate IsWeekday(dow: int) {
    1 <= dow <= 5
  }

  function DowIn(y: int, mo: int, d: int): int
    requires 1 <= mo <= 12
  {
    DowOfDay(MonthStart(y, mo) + d - 1)
  }

  /** The weekday of day `d` of a month, asked of `Date` as the source does. */
  function DowOf(y: int, mo: int, d: int): (dow: int)
    requires 1 <= mo <= 12
    ensures dow == DowIn(MakeFullYear(y), mo, d)
  {
    DowIsDayNumber(y, mo, d);
    CivilOf(WallOf(y, mo, d, 0, 0)).dow
  }

  lemma DowIsDayNumber(y: int, mo: int, d: int)
    requires 1 <= mo <= 12
    ensures CivilOf(WallOf(y, mo, d, 0, 0)).dow == DowIn(MakeFullYear(y), mo, d)
  {
    hide MonthStart, DateOfDay, WallOf, DowOfDay, MakeFullYear;
    WallOfWritten(y, mo, d, 0, 0);
    CivilOfParts(MonthStart(MakeFullYear(y), mo) + d - 1, 0, 0);
  }

  /** The days of a month that fall on weekday `dow`, in order: of the month in the year that
      `Date.UTC` reads. */
  method WeekdaysOfMonth(y: int, mo: int, dow: int) returns (days: seq<int>)
    requires 1 <= mo <= 12 && 0 <= dow < 7
    ensures forall i, j :: 0 <= i < j < |days| ==> days[i] < days[j]
    ensures forall d ::
      d in days <==> 1 <= d <= DaysInMonth(MakeFullYear(y), mo) && DowIn(MakeFullYear(y), mo, d) == dow
    ensures 4 <= |days| && days[|days| - 1] + 7 > DaysInMonth(MakeFullYear(y), mo)
    ensures forall i :: 0 <= i < |days| ==> (days[i] - 1) / 7 == i
  {
    hide YearStart, DaysBeforeMonth, DowOfDay, CivilOf, DateUTC, LastDayOfMonth, WallOf, MakeFullYear;
    var first := DowOf(y, mo, 1);
    var start := 1 + (dow - first + 7) % 7;
    var day := start;
    days := [];
    while day <= LastDayOfMonth(y, mo)
      invariant day == start + 7 * |days|
      invariant forall i :: 0 <= i < |days| ==> days[i] == start + 7 * i <= DaysInMonth(MakeFullYear(y), mo)
    {
      days := days + [day];
      day := day + 7;
    }
    ghost var full := MakeFullYear(y);
    forall d ensures d in days <==> 1 <= d <= DaysInMonth(full, mo) && DowIn(full, mo, d) == dow {
      SameWeekday(MonthStart(full, mo), start, d, dow);
      if 1 <= d <= DaysInMonth(full, mo) && (d - start) % 7 == 0 {
        assert days[(d - start) / 7] == d;
      }
    }
  }

  lemma SameWeekday(first: int, start: int, d: int, dow: int)
    requires 0 <= dow < 7 && start == 1 + (dow - DowOfDay(first) + 7) % 7
    ensures DowOfDay(first + d - 1) == dow <==> (d - start) % 7 == 0
  {}

  function Distance(a: int, b: int): int { if a < b then b - a else a - b }

  /** croniter's nearest weekday: the clamped target, moved off a weekend without
      leaving the month. */
  function NearestWeekday(y: int, mo: int, target: int): (r: int)
    requires 1 <= mo <= 12 && 1 <= target
  {
    var last := LastDayOfMonth(y, mo);
    var day := Min(target, last);
    var weekday := (DowOf(y, mo, day) + 6) % 7;
    if weekday < 5 then day
    else if weekday == 5 then (if day > 1 then day - 1 else day + 2)
    else (if day < last then day + 1 else day - 2)
  }

  /** Monday to Friday in the same month, and strictly nearer to the clamped target
      than every other such day of the month. */
  lemma NearestWeekdayIsNearest(y: int, mo: int, target: int)
    requires 1 <= mo <= 12 && 1 <= target
    ensures var full := MakeFullYear(y);
            var r, len := NearestWeekday(y, mo, target), DaysInMonth(full, mo);
            && 1 <= r <= len && IsWeekday(DowIn(full, mo, r))
            && forall d :: 1 <= d <= len && d != r && IsWeekday(DowIn(full, mo, d))
                 ==> Distance(r, Min(target, len)) < Distance(d, Min(target, len))
  {
    hide YearStart, DaysBeforeMonth, CivilOf, DateUTC, WallOf, MakeFullYear, LastDayOfMonth;
    var full := MakeFullYear(y);
    var len := DaysInMonth(full, mo);
    var day := Min(target, len);
    var dow := DowOf(y, mo, day);
    forall d | 1 <= d <= len ensures DowIn(full, mo, d) == (dow + d - day) % 7 {
      DowShift(MonthStart(full, mo) + day - 1, d - day);
    }
  }

  lemma DowShift(n: int, k: int)
    ensures DowOfDay(n + k) == (DowOfDay(n) + k) % 7
  {}
}
