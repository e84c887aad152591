/** `searchWall`: the jump search, proved to return the least matching minute. */
module CronSearch {
  import opened Arithmetic
  import opened Basics
  import opened Calendar
  import opened CronSchedule

  const MAX_YEARS_BETWEEN_MATCHES := 50

  // ----- nextNearestDiff -----

  /** Value `v` is on offer when the range ends at `rangeVal`; `l` stands for the end. */
  predicate Offers(allowed: seq<Value>, rangeVal: int, v: int) {
    (Num(v) in allowed && v <= rangeVal) || (Last in allowed && v == rangeVal)
  }

  /** `diff` leads from `x` to the least value on offer at or after it; with none left,
      to the first value of the list, one range further on. */
  ghost predicate IsNearestDiff(x: int, allowed: seq<Value>, rangeVal: int, diff: int)
    requires allowed != []
  {
    if exists v :: x <= v && Offers(allowed, rangeVal, v)
    then diff >= 0 && Offers(allowed, rangeVal, x + diff)
      && forall v :: x <= v < x + diff ==> !Offers(allowed, rangeVal, v)
    else diff == (if allowed[0].Num? then allowed[0].n else rangeVal) - x + rangeVal
  }

  /** The first value at or after `x`, or else the first value of the list, one range
      further on. */
  method NextNearestDiff(x: int, allowed: seq<Value>, rangeVal: int) returns (diff: int)
    requires allowed != [] && Sorted(allowed) && Star !in allowed
    requires forall v :: v in allowed && v.Num? ==> v.n < 100
    ensures IsNearestDiff(x, allowed, rangeVal, diff)
  {
    for i := 0 to |allowed|
      invariant forall j, v :: 0 <= j < i && x <= v ==> allowed[j] != Num(v) || v > rangeVal
      invariant forall j :: 0 <= j < i && allowed[j] == Last ==> rangeVal < x
    {
      var item := allowed[i];
      if item == Last || item.n <= rangeVal {
        var value := if item == Last then rangeVal else item.n;
        if value >= x {
          assert Offers(allowed, rangeVal, x + (value - x));
          return value - x;
        }
      }
    }
    diff := (if allowed[0].Num? then allowed[0].n else rangeVal) - x + rangeVal;
  }

  /** Lengths of the fields that run in a circle: weekdays, months, hours, minutes. */
  predicate Circle(n: int) {
    n == 7 || n == 12 || n == 24 || n == 60
  }

  function Residue(i: int, n: int): (r: int)
    requires Circle(n)
    ensures 0 <= r < n
  {
    if n == 7 then i % 7 else if n == 12 then i % 12 else if n == 24 then i % 24 else i % 60
  }

  lemma {:induction false} ResidueShift(i: int, k: int, n: int)
    requires Circle(n) && 0 <= k < 2 * n - Residue(i, n)
    ensures Residue(i + k, n) == if Residue(i, n) + k < n then Residue(i, n) + k else Residue(i, n) + k - n
    decreases k
  {
    hide Residue;
    if k == 0 {
    } else {
      ResidueShift(i, k - 1, n);
      ResidueStep(i + k - 1, n);
    }
  }

  lemma ResidueStep(i: int, n: int)
    requires Circle(n)
    ensures Residue(i + 1, n) == if Residue(i, n) == n - 1 then 0 else Residue(i, n) + 1
  {
    if n == 7 { Step7(i); } else if n == 12 { Step12(i); } else if n == 24 { Step24(i); } else { Step60(i); }
  }

  lemma Step7(i: int) ensures (i + 1) % 7 == if i % 7 == 6 then 0 else i % 7 + 1 {}

  lemma Step12(i: int) ensures (i + 1) % 12 == if i % 12 == 11 then 0 else i % 12 + 1 {}

  lemma Step24(i: int) ensures (i + 1) % 24 == if i % 24 == 23 then 0 else i % 24 + 1 {}

  lemma Step60(i: int) ensures (i + 1) % 60 == if i % 60 == 59 then 0 else i % 60 + 1 {}

  /** The reading of `nextNearestDiff` on a field that runs in a circle of `n` values
      from `lo`: the jump passes over no allowed residue. */
  lemma CyclicJump(index: int, n: int, lo: int, allowed: seq<Value>, diff: int)
    requires Circle(n) && (lo == 0 || lo == 1)
    requires FieldOk(allowed, lo, lo + n - 1) && Star !in allowed && Last !in allowed
    requires IsNearestDiff(lo + Residue(index, n), allowed, n, diff)
    ensures diff >= 0 && (diff == 0 <==> Num(lo + Residue(index, n)) in allowed)
    ensures forall i :: index <= i < index + diff ==> Num(lo + Residue(i, n)) !in allowed
  {
    hide Residue;
    var x := lo + Residue(index, n);
    assert allowed[0] in allowed;
    if Num(x) in allowed { assert Offers(allowed, n, x); }
    forall i | index <= i < index + diff ensures Num(lo + Residue(i, n)) !in allowed {
      ResidueShift(index, i - index, n);
      var v := lo + Residue(i, n);
      if v < x {
        FirstIsLeast(allowed, v);
      } else {
        assert Num(v) in allowed ==> Offers(allowed, n, v);
      }
    }
  }

  lemma FirstIsLeast(allowed: seq<Value>, v: int)
    requires allowed != [] && Sorted(allowed) && allowed[0].Num?
    ensures v < allowed[0].n ==> Num(v) !in allowed
  {
    assert forall i :: 0 < i < |allowed| ==> SortKey(allowed[0]) < SortKey(allowed[i]);
  }

  // ----- one jump per field -----

  /** A jump goes forward, to a whole minute. */
  predicate Forward(wall: int, next: int) {
    wall < next && next % MINUTE_MS == 0
  }

  predicate OnMinute(wall: int) {
    Modern(wall) && wall % MINUTE_MS == 0
  }

  lemma CivilMonth(v: int)
    ensures CivilOf(v).mo == 1 + Residue(MonthIndex(v / DAY_MS), 12)
  {
    hide DateOfDay, DaysInMonth, MonthStartAt;
    MonthBracket(v / DAY_MS);
  }

  lemma CivilDow(v: int)
    ensures CivilOf(v).dow == Residue(v / DAY_MS + 4, 7)
  {
    hide DateOfDay;
  }

  lemma CivilHour(v: int)
    ensures CivilOf(v).h == Residue(v / HOUR_MS, 24)
  {
    hide DateOfDay, DowOfDay;
  }

  lemma CivilMinute(v: int)
    ensures CivilOf(v).mi == Residue(v / MINUTE_MS, 60)
  {
    hide DateOfDay, DowOfDay;
  }

  lemma WallAtDay(wall: int)
    requires Modern(wall)
    ensures var c := CivilOf(wall); WallOf(c.y, c.mo, c.d, 0, 0) == DAY_MS * (wall / DAY_MS)
  {
    hide DateOfDay, WallOf, MonthStart, DaysInMonth;
    ModernYear(wall);
    var c := CivilOf(wall);
    assert DayNumber(DateOfDay(wall / DAY_MS)) == wall / DAY_MS;
    WallOfModern(c.y, c.mo, c.d, 0, 0);
  }

  lemma WallAtHour(wall: int)
    requires Modern(wall)
    ensures var c := CivilOf(wall); WallOf(c.y, c.mo, c.d, c.h, 0) == HOUR_MS * (wall / HOUR_MS)
  {
    hide DateOfDay, WallOf, MonthStart, DaysInMonth;
    ModernYear(wall);
    var c := CivilOf(wall);
    assert DayNumber(DateOfDay(wall / DAY_MS)) == wall / DAY_MS;
    WallOfModern(c.y, c.mo, c.d, c.h, 0);
    assert wall / DAY_MS == wall / HOUR_MS / 24;
  }

  lemma WallAtMinute(wall: int)
    requires OnMinute(wall)
    ensures var c := CivilOf(wall); WallOf(c.y, c.mo, c.d, c.h, c.mi) == MINUTE_MS * (wall / MINUTE_MS)
  {
    hide CivilOf, WallOf;
    WallOfCivil(wall);
  }

  lemma MinuteSpan(wall: int, v: int, diff: int)
    requires wall <= v < MINUTE_MS * (wall / MINUTE_MS + diff)
    ensures wall / MINUTE_MS <= v / MINUTE_MS < wall / MINUTE_MS + diff
  {}

  lemma HourSpan(wall: int, v: int, diff: int)
    requires wall <= v < HOUR_MS * (wall / HOUR_MS + diff)
    ensures wall / HOUR_MS <= v / HOUR_MS < wall / HOUR_MS + diff
  {}

  lemma DaySpan(wall: int, v: int, diff: int)
    requires wall <= v < DAY_MS * (wall / DAY_MS + diff)
    ensures wall / DAY_MS <= v / DAY_MS < wall / DAY_MS + diff
  {}

  lemma MonthSpan(wall: int, v: int, diff: int)
    requires wall <= v < DAY_MS * MonthStartAt(MonthIndex(wall / DAY_MS) + diff)
    ensures MonthIndex(wall / DAY_MS) <= MonthIndex(v / DAY_MS) < MonthIndex(wall / DAY_MS) + diff
  {
    hide MonthStartAt, MonthIndex;
    var index := MonthIndex(wall / DAY_MS);
    MonthIndexMonotone(v / DAY_MS, index + diff);
    MonthIndexMonotone(wall / DAY_MS, index);
    MonthIndexMonotone(v / DAY_MS, index);
  }

  lemma MonthsForward(wall: int, diff: int)
    requires diff > 0
    ensures Forward(wall, DAY_MS * MonthStartAt(MonthIndex(wall / DAY_MS) + diff))
  {
    hide MonthStartAt, MonthIndex;
    var start := MonthStartAt(MonthIndex(wall / DAY_MS) + diff);
    MonthIndexMonotone(wall / DAY_MS, MonthIndex(wall / DAY_MS) + diff);
    assert DAY_MS * start == MINUTE_MS * (1440 * start);
  }

  /** The start of a later minute, hour or day lies ahead, on a minute. */
  lemma UnitsForward(wall: int, diff: int)
    requires diff > 0
    ensures Forward(wall, MINUTE_MS * (wall / MINUTE_MS + diff))
    ensures Forward(wall, HOUR_MS * (wall / HOUR_MS + diff))
    ensures Forward(wall, DAY_MS * (wall / DAY_MS + diff))
  {
    hide Forward;
    UnitForward(wall, diff, MINUTE_MS, 1);
    UnitForward(wall, diff, HOUR_MS, 60);
    UnitForward(wall, diff, DAY_MS, 1440);
  }

  lemma UnitForward(wall: int, diff: int, unit: int, minutes: int)
    requires diff > 0 && minutes >= 1 && unit == MINUTE_MS * minutes
    ensures Forward(wall, unit * (wall / unit + diff))
  {
    var q := wall / unit;
    var next := unit * (q + diff);
    DivLaw(wall, unit);
    MulAtLeast(unit, diff);
    assert next == unit * q + unit * diff;
    assert next == MINUTE_MS * (minutes * (q + diff));
    ModOf(next, minutes * (q + diff), 0, MINUTE_MS);
  }

  // Each pair below is a lemma saying that no match is passed over, and the method
  // that jumps.

  lemma MonthsSkipped(f: Fields, wall: int, diff: int)
    requires FieldOk(f.month, 1, 12) && Star !in f.month && Last !in f.month && OnMinute(wall)
    requires IsNearestDiff(CivilOf(wall).mo, f.month, 12, diff)
    ensures diff >= 0 && (diff == 0 <==> MonthOk(f, wall))
    ensures var c := CivilOf(wall); var total := c.mo - 1 + diff;
            var next := WallOf(c.y + total / 12, total % 12 + 1, 1, 0, 0);
            diff > 0 ==> Forward(wall, next) && forall v :: wall <= v < next ==> !MonthOk(f, v)
  {
    hide FieldOk, CivilOf, WallOf, MonthIndex, Residue, IsNearestDiff, MonthStartAt;
    var index := MonthIndex(wall / DAY_MS);
    CivilMonth(wall);
    CyclicJump(index, 12, 1, f.month, diff);
    if diff > 0 {
      MonthJumpTarget(wall, diff);
      MonthsForward(wall, diff);
      forall v | wall <= v < DAY_MS * MonthStartAt(index + diff) ensures !MonthOk(f, v) {
        CivilMonth(v);
        MonthSpan(wall, v, diff);
      }
    }
  }

  lemma MonthJumpTarget(wall: int, diff: int)
    requires Modern(wall) && diff >= 0
    ensures var c := CivilOf(wall); var total := c.mo - 1 + diff;
            WallOf(c.y + total / 12, total % 12 + 1, 1, 0, 0) == DAY_MS * MonthStartAt(MonthIndex(wall / DAY_MS) + diff)
  {
    hide DateOfDay, WallOf, MonthStart;
    ModernYear(wall);
    var c := CivilOf(wall);
    var total := c.mo - 1 + diff;
    WallOfModern(c.y + total / 12, total % 12 + 1, 1, 0, 0);
    assert (12 * c.y + total) / 12 == c.y + total / 12 && (12 * c.y + total) % 12 == total % 12;
  }

  method MonthJump(f: Fields, wall: int) returns (next: Option<int>)
    requires FieldsOk(f) && OnMinute(wall)
    ensures next == None <==> MonthOk(f, wall)
    ensures next.Some? ==> Forward(wall, next.value) && forall v :: wall <= v < next.value ==> !MonthOk(f, v)
  {
    hide CivilOf, WallOf, IsNearestDiff;
    if Star in f.month { return None; }
    var c := CivilOf(wall);
    var diff := NextNearestDiff(c.mo, f.month, 12);
    MonthsSkipped(f, wall, diff);
    if diff == 0 { return None; }
    var total := c.mo - 1 + diff;
    next := Some(WallOf(c.y + total / 12, total % 12 + 1, 1, 0, 0));
  }

  lemma HourSkipped(f: Fields, wall: int, diff: int)
    requires FieldOk(f.hour, 0, 23) && Star !in f.hour && Last !in f.hour && OnMinute(wall)
    requires IsNearestDiff(CivilOf(wall).h, f.hour, 24, diff)
    ensures diff >= 0 && (diff == 0 <==> HourOk(f, wall))
    ensures var c := CivilOf(wall); var next := WallOf(c.y, c.mo, c.d, c.h, 0) + diff * HOUR_MS;
            diff > 0 ==> Forward(wall, next) && forall v :: wall <= v < next ==> !HourOk(f, v)
  {
    hide FieldOk, CivilOf, WallOf, Residue, IsNearestDiff;
    CivilHour(wall);
    CyclicJump(wall / HOUR_MS, 24, 0, f.hour, diff);
    WallAtHour(wall);
    if diff > 0 { UnitsForward(wall, diff); }
    var next := HOUR_MS * (wall / HOUR_MS + diff);
    forall v | wall <= v < next ensures diff > 0 ==> !HourOk(f, v) {
      HourSpan(wall, v, diff);
      CivilHour(v);
    }
  }

  method HourJump(f: Fields, wall: int) returns (next: Option<int>)
    requires FieldsOk(f) && OnMinute(wall)
    ensures next == None <==> HourOk(f, wall)
    ensures next.Some? ==> Forward(wall, next.value) && forall v :: wall <= v < next.value ==> !HourOk(f, v)
  {
    hide CivilOf, WallOf, IsNearestDiff;
    if Star in f.hour { return None; }
    var c := CivilOf(wall);
    var diff := NextNearestDiff(c.h, f.hour, 24);
    HourSkipped(f, wall, diff);
    if diff == 0 { return None; }
    next := Some(WallOf(c.y, c.mo, c.d, c.h, 0) + diff * HOUR_MS);
  }

  lemma MinuteSkipped(f: Fields, wall: int, diff: int)
    requires FieldOk(f.minute, 0, 59) && Star !in f.minute && Last !in f.minute && OnMinute(wall)
    requires IsNearestDiff(CivilOf(wall).mi, f.minute, 60, diff)
    ensures diff >= 0 && (diff == 0 <==> MinuteOk(f, wall))
    ensures var c := CivilOf(wall); var next := WallOf(c.y, c.mo, c.d, c.h, c.mi) + diff * MINUTE_MS;
            diff > 0 ==> Forward(wall, next) && forall v :: wall <= v < next ==> !MinuteOk(f, v)
  {
    hide FieldOk, CivilOf, WallOf, Residue, IsNearestDiff;
    CivilMinute(wall);
    CyclicJump(wall / MINUTE_MS, 60, 0, f.minute, diff);
    WallAtMinute(wall);
    if diff > 0 { UnitsForward(wall, diff); }
    var next := MINUTE_MS * (wall / MINUTE_MS + diff);
    forall v | wall <= v < next ensures diff > 0 ==> !MinuteOk(f, v) {
      MinuteSpan(wall, v, diff);
      CivilMinute(v);
    }
  }

  method MinuteJump(f: Fields, wall: int) returns (next: Option<int>)
    requires FieldsOk(f) && OnMinute(wall)
    ensures next == None <==> MinuteOk(f, wall)
    ensures next.Some? ==> Forward(wall, next.value) && forall v :: wall <= v < next.value ==> !MinuteOk(f, v)
  {
    hide CivilOf, WallOf, IsNearestDiff;
    if Star in f.minute { return None; }
    var c := CivilOf(wall);
    var diff := NextNearestDiff(c.mi, f.minute, 60);
    MinuteSkipped(f, wall, diff);
    if diff == 0 { return None; }
    next := Some(WallOf(c.y, c.mo, c.d, c.h, c.mi) + diff * MINUTE_MS);
  }

  // ----- jumps by day -----

  /** Day `n` as the predicates on walls see it. */
  predicate DayNumberOk(f: Fields, n: int) {
    var date := DateOfDay(n);
    DayListed(f.day, date.d, DaysInMonth(date.y, date.mo))
  }

  lemma DayOfMonthSkipped(f: Fields, wall: int, diff: int)
    requires FieldsOk(f) && Star !in f.day && OnMinute(wall)
    requires var c := CivilOf(wall); IsNearestDiff(c.d, f.day, DaysInMonth(c.y, c.mo), diff)
    ensures diff >= 0 && (diff == 0 <==> DayNumberOk(f, wall / DAY_MS))
    ensures forall n :: wall / DAY_MS <= n < wall / DAY_MS + diff ==> !DayNumberOk(f, n)
  {
    hide DateOfDay, MonthStartAt, MonthIndex, DaysInMonth;
    var day := wall / DAY_MS;
    var date := DateOfDay(day);
    var len := DaysInMonth(date.y, date.mo);
    assert f.day[0] in f.day;
    if DayNumberOk(f, day) { assert Offers(f.day, len, date.d); }
    forall n | day <= n < day + diff ensures !DayNumberOk(f, n) {
      if n <= day - date.d + len {
        SameMonth(day, n);
        var d := date.d + n - day;
        assert DayListed(f.day, d, len) ==> Offers(f.day, len, d);
      } else {
        OverflowSkipped(f, day, n, diff);
      }
    }
  }

  /** The overflow of a short month: with nothing left in the month the jump is counted
      from its end, may land a month too far, and still passes over no allowed day. */
  lemma OverflowSkipped(f: Fields, day: int, n: int, diff: int)
    requires FieldsOk(f) && Star !in f.day
    requires var date := DateOfDay(day);
             && IsNearestDiff(date.d, f.day, DaysInMonth(date.y, date.mo), diff)
             && day - date.d + DaysInMonth(date.y, date.mo) < n < day + diff
    ensures !DayNumberOk(f, n)
  {
    hide DateOfDay, MonthStartAt, MonthIndex, DaysInMonth;
    var date := DateOfDay(day);
    var len := DaysInMonth(date.y, date.mo);
    assert Last in f.day ==> Offers(f.day, len, len);
    assert f.day[0] in f.day && f.day[0].Num? && diff == f.day[0].n - date.d + len;
    MonthBracket(day);
    DayOfMonthBound(n, MonthIndex(day) + 1);
    FirstIsLeast(f.day, DateOfDay(n).d);
  }

  method DayOfMonthJump(f: Fields, s: Schedule, wall: int) returns (next: Option<int>)
    requires FieldsOk(f) && s.nearest == {} && OnMinute(wall)
    ensures next == None <==> DayOk(f, s, wall)
    ensures next.Some? ==> Forward(wall, next.value) && forall v :: wall <= v < next.value ==> !DayOk(f, s, v)
  {
    hide DateOfDay, WallOf, IsNearestDiff, DaysInMonth;
    if Star in f.day { return None; }
    var c := CivilOf(wall);
    ModernYear(wall);
    var days := LastDayOfMonth(c.y, c.mo);
    if Last in f.day && days == c.d { return None; }
    var diff := NextNearestDiff(c.d, f.day, days);
    DayOfMonthSkipped(f, wall, diff);
    if diff == 0 { return None; }
    DaysSkipped(f, s, wall, diff);
    next := Some(WallOf(c.y, c.mo, c.d, 0, 0) + diff * DAY_MS);
  }

  lemma DaysSkipped(f: Fields, s: Schedule, wall: int, diff: int)
    requires s.nearest == {} && OnMinute(wall) && diff > 0
    requires forall n :: wall / DAY_MS <= n < wall / DAY_MS + diff ==> !DayNumberOk(f, n)
    ensures var c := CivilOf(wall); var next := WallOf(c.y, c.mo, c.d, 0, 0) + diff * DAY_MS;
            Forward(wall, next) && forall v :: wall <= v < next ==> !DayOk(f, s, v)
  {
    hide WallOf, DateOfDay, DaysInMonth;
    WallAtDay(wall);
    UnitsForward(wall, diff);
    forall v | wall <= v < DAY_MS * (wall / DAY_MS + diff) ensures !DayOk(f, s, v) {
      DaySpan(wall, v, diff);
      assert !DayNumberOk(f, v / DAY_MS);
    }
  }

  lemma DowSkipped(f: Fields, wall: int, diff: int)
    requires FieldOk(f.dow, 0, 6) && Star !in f.dow && Last !in f.dow && OnMinute(wall)
    requires IsNearestDiff(CivilOf(wall).dow, f.dow, 7, diff)
    ensures diff >= 0 && (diff == 0 <==> Listed(f.dow, CivilOf(wall).dow))
    ensures var c := CivilOf(wall); var next := WallOf(c.y, c.mo, c.d, 0, 0) + diff * DAY_MS;
            diff > 0 ==> Forward(wall, next) && forall v :: wall <= v < next ==> !Listed(f.dow, CivilOf(v).dow)
  {
    hide FieldOk, CivilOf, WallOf, Residue, IsNearestDiff;
    CivilDow(wall);
    CyclicJump(wall / DAY_MS + 4, 7, 0, f.dow, diff);
    WallAtDay(wall);
    if diff > 0 { UnitsForward(wall, diff); }
    var next := DAY_MS * (wall / DAY_MS + diff);
    forall v | wall <= v < next ensures diff > 0 ==> !Listed(f.dow, CivilOf(v).dow) {
      DaySpan(wall, v, diff);
      CivilDow(v);
    }
  }

  method DayOfWeekJump(f: Fields, s: Schedule, wall: int) returns (next: Option<int>)
    requires FieldsOk(f) && s.nth == map[] && OnMinute(wall)
    ensures next == None <==> DowOk(f, s, wall)
    ensures next.Some? ==> Forward(wall, next.value) && forall v :: wall <= v < next.value ==> !DowOk(f, s, v)
  {
    hide CivilOf, WallOf, IsNearestDiff;
    if Star in f.dow { return None; }
    var c := CivilOf(wall);
    var diff := NextNearestDiff(c.dow, f.dow, 7);
    DowSkipped(f, wall, diff);
    if diff == 0 { return None; }
    next := Some(WallOf(c.y, c.mo, c.d, 0, 0) + diff * DAY_MS);
  }

  // ----- jumps to a candidate day of the month -----

  function MinOf(candidates: set<int>): (m: int)
    requires candidates != {}
    ensures m in candidates && forall x :: x in candidates ==> m <= x
  {
    HasMin(candidates);
    var m :| IsMin(candidates, m);
    m
  }

  lemma {:induction false} HasMin(candidates: set<int>)
    requires candidates != {}
    ensures exists m :: IsMin(candidates, m)
  {
    assert (forall x :: x !in candidates) ==> candidates == {};
    var some :| some in candidates;
    var others := candidates - {some};
    if others == {} {
      assert IsMin(candidates, some) by { OneElse(candidates, some); }
    } else {
      HasMin(others);
      var least :| IsMin(others, least);
      MinWith(candidates, some, least);
    }
  }

  predicate IsMin(candidates: set<int>, m: int) {
    m in candidates && forall x :: x in candidates ==> m <= x
  }

  lemma OneElse(candidates: set<int>, some: int)
    requires some in candidates && candidates - {some} == {}
    ensures candidates == {some}
  {
    forall x | x in candidates ensures x == some {
      assert x == some || x in candidates - {some};
    }
  }

  lemma MinWith(candidates: set<int>, some: int, least: int)
    requires some in candidates && IsMin(candidates - {some}, least)
    ensures IsMin(candidates, if some < least then some else least)
  {
    forall x | x in candidates ensures x == some || least <= x {
      if x != some { assert x in candidates - {some}; }
    }
  }

  /** The nearest candidate day of the month, or the next month when there is none. */
  function ToCandidate(c: Civil, candidates: set<int>): Option<int>
    requires 1 <= c.mo <= 12
  {
    if candidates == {} then Some(WallOf(c.y, c.mo, c.d, 0, 0) + (LastDayOfMonth(c.y, c.mo) - c.d + 1) * DAY_MS)
    else
      var diff := MinOf(candidates) - c.d;
      if diff == 0 then None else Some(WallOf(c.y, c.mo, c.d, 0, 0) + diff * DAY_MS)
  }

  lemma CandidatesSkipped(wall: int, candidates: set<int>)
    requires OnMinute(wall)
    requires var c := CivilOf(wall); forall d :: d in candidates ==> c.d <= d <= DaysInMonth(c.y, c.mo)
    ensures var c := CivilOf(wall); ToCandidate(c, candidates) == None <==> c.d in candidates
    ensures var c := CivilOf(wall); var next := ToCandidate(c, candidates);
            next.Some? ==>
              Forward(wall, next.value) && forall v :: wall <= v < next.value ==> SameMonthMiss(c, v, candidates)
  {
    hide WallOf, DateOfDay, DaysInMonth;
    var c := CivilOf(wall);
    ModernYear(wall);
    WallAtDay(wall);
    var len := DaysInMonth(c.y, c.mo);
    var diff := if candidates == {} then len - c.d + 1 else MinOf(candidates) - c.d;
    if c.d !in candidates {
      UnitsForward(wall, diff);
      forall v | wall <= v < DAY_MS * (wall / DAY_MS + diff) ensures SameMonthMiss(c, v, candidates) {
        DaySpan(wall, v, diff);
        SameMonth(wall / DAY_MS, v / DAY_MS);
      }
    }
  }

  /** Wall `v` is in the month of `c`, not before its day, and on no candidate. */
  predicate SameMonthMiss(c: Civil, v: int, candidates: set<int>)
    requires 1 <= c.mo <= 12
  {
    var cv := CivilOf(v);
    cv.y == c.y && cv.mo == c.mo && c.d <= cv.d <= DaysInMonth(c.y, c.mo) && cv.d !in candidates
  }

  method NearestDayJump(f: Fields, s: Schedule, wall: int) returns (next: Option<int>)
    requires s.nearest != {} && OnMinute(wall) && forall t :: t in s.nearest ==> t >= 1
    ensures next == None <==> DayOk(f, s, wall)
    ensures next.Some? ==> Forward(wall, next.value) && forall v :: wall <= v < next.value ==> !DayOk(f, s, v)
  {
    hide DateOfDay, WallOf, NearestWeekday, DaysInMonth, ToCandidate;
    var c := CivilOf(wall);
    ModernYear(wall);
    var candidates := set t | t in s.nearest && c.d <= NearestWeekday(c.y, c.mo, t) :: NearestWeekday(c.y, c.mo, t);
    NearestInMonth(s, c.y, c.mo);
    next := ToCandidate(c, candidates);
    CandidatesSkipped(wall, candidates);
    if next.Some? {
      forall v | wall <= v < next.value ensures !DayOk(f, s, v) {
        assert SameMonthMiss(c, v, candidates);
      }
    }
  }

  lemma NearestInMonth(s: Schedule, y: int, mo: int)
    requires y >= 100 && 1 <= mo <= 12 && forall t :: t in s.nearest ==> t >= 1
    ensures forall t :: t in s.nearest ==> 1 <= NearestWeekday(y, mo, t) <= DaysInMonth(y, mo)
  {
    hide NearestWeekday;
    forall t | t in s.nearest ensures 1 <= NearestWeekday(y, mo, t) <= DaysInMonth(y, mo) {
      NearestWeekdayIsNearest(y, mo, t);
    }
  }

  /** The candidate of one position, if the month has it, added to the set. */
  method NthCandidate(y: int, mo: int, d: int, weekday: int, spec: NthSpec, days: seq<int>, before: set<int>)
    returns (after: set<int>)
    requires 1 <= mo <= 12 && 1 <= d && SpecOk(spec)
    requires |days| > 0 && days[|days| - 1] + 7 > DaysInMonth(y, mo)
    requires forall i, j :: 0 <= i < j < |days| ==> days[i] < days[j]
    requires forall x :: x in days <==> 1 <= x <= DaysInMonth(y, mo) && DowIn(y, mo, x) == weekday
    requires forall i :: 0 <= i < |days| ==> (days[i] - 1) / 7 == i
    ensures forall x :: x in after <==> x in before || (d <= x <= DaysInMonth(y, mo) && IsNth(y, mo, x, weekday, spec))
  {
    hide DowIn, DaysInMonth;
    after := before;
    if spec.LastOne? {
      assert days[|days| - 1] in days;
      if d <= days[|days| - 1] { after := after + {days[|days| - 1]}; }
      forall x | 1 <= x <= DaysInMonth(y, mo) && IsNth(y, mo, x, weekday, spec) ensures x == days[|days| - 1] {
        assert x in days;
        var i :| 0 <= i < |days| && days[i] == x;
        assert (days[|days| - 1] - 1) / 7 == |days| - 1;
        LastStep(y, mo, x, days[|days| - 1]);
      }
    } else if spec.k <= |days| {
      assert days[spec.k - 1] in days;
      if d <= days[spec.k - 1] { after := after + {days[spec.k - 1]}; }
      assert forall x :: x in days && (x - 1) / 7 + 1 == spec.k ==> x == days[spec.k - 1];
    } else {
      assert forall x :: x in days ==> (x - 1) / 7 + 1 != spec.k;
    }
  }

  /** Two equal weekdays of a month less than a week apart are the same day. */
  lemma LastStep(y: int, mo: int, x: int, last: int)
    requires 1 <= mo <= 12 && x <= last <= DaysInMonth(y, mo) < x + 7
    requires DowIn(y, mo, x) == DowIn(y, mo, last)
    ensures x == last
  {
    hide MonthStart, DowOfDay, DaysInMonth;
    DowShift(MonthStart(y, mo) + x - 1, last - x);
    DowShift(MonthStart(y, mo) + x - 1, 0);
  }

  method NthCandidates(s: Schedule, y: int, mo: int, d: int) returns (candidates: set<int>)
    requires WellFormed(s) && y >= 100 && 1 <= mo <= 12 && 1 <= d
    ensures forall x :: x in candidates <==> d <= x <= DaysInMonth(y, mo) && NthDay(s, y, mo, x)
  {
    hide DowIn, DaysInMonth, IsNth, FieldsOk, SpecOk;
    candidates := {};
    var weekdays := s.nth.Keys;
    ghost var seen := {};
    while weekdays != {}
      invariant weekdays + seen == s.nth.Keys && weekdays !! seen
      invariant forall x :: x in candidates <==>
        (d <= x <= DaysInMonth(y, mo) && exists w, spec :: w in seen && spec in s.nth[w] && IsNth(y, mo, x, w, spec))
      decreases weekdays
    {
      var weekday :| weekday in weekdays;
      var days := WeekdaysOfMonth(y, mo, weekday);
      var specs := s.nth[weekday];
      ghost var before, done := candidates, {};
      while specs != {}
        invariant specs + done == s.nth[weekday] && specs !! done
        invariant forall x :: x in candidates <==>
          x in before || (d <= x <= DaysInMonth(y, mo) && exists spec :: spec in done && IsNth(y, mo, x, weekday, spec))
        decreases specs
      {
        var spec :| spec in specs;
        candidates := NthCandidate(y, mo, d, weekday, spec, days, candidates);
        specs, done := specs - {spec}, done + {spec};
      }
      weekdays, seen := weekdays - {weekday}, seen + {weekday};
    }
  }

  method NthDayOfWeekJump(f: Fields, s: Schedule, wall: int) returns (next: Option<int>)
    requires WellFormed(s) && s.nth != map[] && OnMinute(wall)
    ensures next == None <==> DowOk(f, s, wall)
    ensures next.Some? ==> Forward(wall, next.value) && forall v :: wall <= v < next.value ==> !DowOk(f, s, v)
  {
    hide DateOfDay, WallOf, NthDay, DaysInMonth, ToCandidate;
    var c := CivilOf(wall);
    ModernYear(wall);
    var candidates := NthCandidates(s, c.y, c.mo, c.d);
    next := ToCandidate(c, candidates);
    CandidatesSkipped(wall, candidates);
    if next.Some? {
      forall v | wall <= v < next.value ensures !DowOk(f, s, v) {
        assert SameMonthMiss(c, v, candidates);
      }
    }
  }

  // ----- the search -----

  /** The first whole minute strictly after `start`. */
  function NextMinute(start: int): (wall: int)
    ensures wall % MINUTE_MS == 0 && start < wall <= start + MINUTE_MS
  {
    (start + MINUTE_MS) / MINUTE_MS * MINUTE_MS
  }

  function YearOf(wall: int): int {
    YearOfDay(wall / DAY_MS)
  }

  /** Up to the end of the year 50 years after the one the search starts in. */
  predicate InHorizon(start: int, wall: int) {
    YearOf(wall) <= YearOf(NextMinute(start)) + MAX_YEARS_BETWEEN_MATCHES
  }

  /** The whole meaning of the search: the least minute after `start` that matches, or
      none when no minute matches up to the horizon. */
  ghost predicate IsNext(start: int, f: Fields, s: Schedule, r: Option<int>) {
    match r
    case Some(w) =>
      start < w && InHorizon(start, w) && Matches(f, s, w) && forall v :: start < v < w ==> !Matches(f, s, v)
    case None => forall v :: start < v && InHorizon(start, v) ==> !Matches(f, s, v)
  }

  /** The first of the five jumps that moves, in the source's order. */
  method FirstJump(f: Fields, s: Schedule, wall: int) returns (next: Option<int>)
    requires FieldsOk(f) && WellFormed(s) && OnMinute(wall)
    ensures next == None <==> Matches(f, s, wall)
    ensures next.Some? ==> Forward(wall, next.value) && forall v :: wall <= v < next.value ==> !Matches(f, s, v)
  {
    hide MonthOk, DayOk, DowOk, HourOk, MinuteOk;
    next := MonthJump(f, wall);
    if next.Some? { return; }
    if s.nearest != {} { next := NearestDayJump(f, s, wall); } else { next := DayOfMonthJump(f, s, wall); }
    if next.Some? { return; }
    if s.nth != map[] { next := NthDayOfWeekJump(f, s, wall); } else { next := DayOfWeekJump(f, s, wall); }
    if next.Some? { return; }
    next := HourJump(f, wall);
    if next.Some? { return; }
    next := MinuteJump(f, wall);
  }

  lemma NoMinuteBefore(start: int, f: Fields, s: Schedule)
    ensures forall v :: start < v < NextMinute(start) ==> !Matches(f, s, v)
  {
    hide MonthOk, DayOk, DowOk, HourOk, MinuteOk;
    forall v | start < v < NextMinute(start) ensures v % MINUTE_MS != 0 {}
  }

  function Abs(x: int): int { if x < 0 then -x else x }

  method SearchWall(start: int, f: Fields, s: Schedule) returns (r: Option<int>)
    requires FieldsOk(f) && WellFormed(s) && Modern(start)
    ensures IsNext(start, f, s, r)
  {
    hide FieldsOk, WellFormed, Matches, YearOf;
    var wall := NextMinute(start);
    NoMinuteBefore(start, f, s);
    var currentYear := YearOf(wall);
    var year := currentYear;
    while Abs(year - currentYear) <= MAX_YEARS_BETWEEN_MATCHES
      invariant OnMinute(wall) && start < wall && year == YearOf(wall)
      invariant NextMinute(start) <= wall
      invariant forall v :: start < v < wall ==> !Matches(f, s, v)
      decreases DAY_MS * YearStart(currentYear + MAX_YEARS_BETWEEN_MATCHES + 1) - wall
    {
      YearsMonotone(NextMinute(start), wall);
      var next := FirstJump(f, s, wall);
      if next == None { return Some(wall); }
      BeforeHorizonEnd(wall, currentYear + MAX_YEARS_BETWEEN_MATCHES);
      wall := next.value;
      year := YearOf(wall);
    }
    YearsMonotone(NextMinute(start), wall);
    forall v | start < v && InHorizon(start, v) ensures !Matches(f, s, v) {
      if wall <= v { YearsMonotone(wall, v); }
    }
    r := None;
  }

  lemma YearsMonotone(wall: int, v: int)
    requires wall <= v
    ensures YearOf(wall) <= YearOf(v)
  {
    var m, n := wall / DAY_MS, v / DAY_MS;
    if YearOfDay(n) < YearOfDay(m) { YearsGrow(YearOfDay(n) + 1, YearOfDay(m)); }
  }

  lemma BeforeHorizonEnd(wall: int, year: int)
    requires YearOf(wall) <= year
    ensures wall < DAY_MS * YearStart(year + 1)
  {
    YearsGrow(YearOf(wall) + 1, year + 1);
  }
}
