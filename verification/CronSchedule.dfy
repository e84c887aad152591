/** What an expanded cron expression is, and which walls it matches. The matching
    predicates are the specification: they say nothing about how to search. */
module CronSchedule {
  import opened Calendar

  /** An allowed value of a field: a number, `l` (last day of the month) or `*`. */
  datatype Value = Num(n: int) | Last | Star

  /** The position in `2#3` (third) and in `l5` (last). */
  datatype NthSpec = Nth(k: int) | LastOne

  datatype Fields = Fields(minute: seq<Value>, hour: seq<Value>, day: seq<Value>, month: seq<Value>, dow: seq<Value>)

  datatype Schedule = Schedule(fields: Fields, nth: map<int, set<NthSpec>>, nearest: set<int>)

  // ----- which walls match -----

  predicate Listed(values: seq<Value>, x: int) {
    Star in values || Num(x) in values
  }

  predicate DayListed(values: seq<Value>, d: int, len: int) {
    Listed(values, d) || (Last in values && d == len)
  }

  predicate NearestDay(s: Schedule, y: int, mo: int, d: int)
    requires y >= 100 && 1 <= mo <= 12
  {
    exists t :: t in s.nearest && t >= 1 && NearestWeekday(y, mo, t) == d
  }

  predicate IsNth(y: int, mo: int, d: int, weekday: int, spec: NthSpec)
    requires 1 <= mo <= 12
  {
    && DowIn(y, mo, d) == weekday
    && match spec
       case Nth(k) => (d - 1) / 7 + 1 == k
       case LastOne => d + 7 > DaysInMonth(y, mo)
  }

  predicate NthDay(s: Schedule, y: int, mo: int, d: int)
    requires 1 <= mo <= 12
  {
    exists weekday, spec :: weekday in s.nth && spec in s.nth[weekday] && IsNth(y, mo, d, weekday, spec)
  }

  predicate MonthOk(f: Fields, wall: int) {
    Listed(f.month, CivilOf(wall).mo)
  }

  /** The `W` days, when there are any, take the place of the day-of-month list. */
  predicate DayOk(f: Fields, s: Schedule, wall: int) {
    var c := CivilOf(wall);
    if s.nearest != {} then c.y >= 100 && NearestDay(s, c.y, c.mo, c.d)
    else DayListed(f.day, c.d, DaysInMonth(c.y, c.mo))
  }

  /** The `#` and `l` positions, when there are any, take the place of the weekday list. */
  predicate DowOk(f: Fields, s: Schedule, wall: int) {
    var c := CivilOf(wall);
    if s.nth != map[] then NthDay(s, c.y, c.mo, c.d)
    else Listed(f.dow, c.dow)
  }

  predicate HourOk(f: Fields, wall: int) {
    Listed(f.hour, CivilOf(wall).h)
  }

  predicate MinuteOk(f: Fields, wall: int) {
    Listed(f.minute, CivilOf(wall).mi)
  }

  predicate Matches(f: Fields, s: Schedule, wall: int) {
    && wall % MINUTE_MS == 0
    && MonthOk(f, wall) && DayOk(f, s, wall) && DowOk(f, s, wall) && HourOk(f, wall) && MinuteOk(f, wall)
  }

  // ----- what an expanded expression looks like -----

  /** `sortKey` as a number: `*` sorts before the digits, `l` after them. */
  function SortKey(v: Value): int {
    match v
    case Star => -1
    case Num(n) => n
    case Last => 100
  }

  predicate Sorted(values: seq<Value>) {
    forall i, j :: 0 <= i < j < |values| ==> SortKey(values[i]) < SortKey(values[j])
  }

  predicate InBounds(values: seq<Value>, lo: int, hi: int) {
    forall v :: v in values && v.Num? ==> lo <= v.n <= hi
  }

  /** Non-empty, strictly sorted (so free of duplicates) and within bounds. */
  predicate FieldOk(values: seq<Value>, lo: int, hi: int) {
    values != [] && Sorted(values) && InBounds(values, lo, hi)
  }

  predicate FieldsOk(f: Fields) {
    && FieldOk(f.minute, 0, 59) && Last !in f.minute
    && FieldOk(f.hour, 0, 23) && Last !in f.hour
    && FieldOk(f.day, 1, 31)
    && FieldOk(f.month, 1, 12) && Last !in f.month
    && FieldOk(f.dow, 0, 6) && Last !in f.dow
  }

  predicate SpecOk(spec: NthSpec) {
    spec.Nth? ==> 1 <= spec.k <= 5
  }

  /** What `expandSchedule` guarantees and the search relies on. */
  predicate WellFormed(s: Schedule) {
    && FieldsOk(s.fields)
    && (forall t :: t in s.nearest ==> 1 <= t <= 31)
    && (forall w :: w in s.nth ==> 0 <= w <= 6 && s.nth[w] != {} && forall spec :: spec in s.nth[w] ==> SpecOk(spec))
  }
}
