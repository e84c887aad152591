/** `calcAware`, `nextFireAfter` and `nextCronExecutions`: the search put through a zone. */
module CronFire {
  import opened Basics
  import opened Calendar
  import opened CronSchedule
  import opened CronSearch
  import opened CronZone
  import CronExpand

  /** The last instant a `Date` can hold; past it no zone has rules. */
  const DATE_MAX := 8_640_000_000_000_000

  ghost predicate Settles(z: Zone) {
    forall t :: t >= DATE_MAX ==> z(t) == z(DATE_MAX)
  }

  /** Every wall searched from a clock at this instant is one `Date.UTC` reads as written. */
  predicate Recent(instant: int) {
    Modern(instant - 3 * DAY_MS)
  }

  ghost predicate IsClock(z: Zone, now: Moment) {
    Recent(now.instant) && now.offset == z(now.instant) && now.wall == now.instant + now.offset
  }

  // ----- the search as a function -----

  /** The answer of `SearchWall`, which its contract determines. */
  ghost function Search(start: int, f: Fields, s: Schedule): (r: Option<int>)
    ensures IsNext(start, f, s, r)
  {
    SearchHasAnswer(start, f, s);
    var r :| IsNext(start, f, s, r);
    r
  }

  lemma SearchHasAnswer(start: int, f: Fields, s: Schedule)
    ensures exists r :: IsNext(start, f, s, r)
  {
    hide Matches, InHorizon;
    if w :| start < w && InHorizon(start, w) && Matches(f, s, w) {
      var least := LeastMatch(start, f, s, w);
      assert IsNext(start, f, s, Some(least));
    } else {
      assert IsNext(start, f, s, None);
    }
  }

  lemma {:induction false} LeastMatch(start: int, f: Fields, s: Schedule, w: int) returns (least: int)
    requires start < w && InHorizon(start, w) && Matches(f, s, w)
    ensures IsNext(start, f, s, Some(least))
    decreases w - start
  {
    hide Matches, YearOf;
    if v :| start < v < w && Matches(f, s, v) {
      YearsMonotone(v, w);
      least := LeastMatch(start, f, s, v);
    } else {
      least := w;
    }
  }

  lemma SearchUnique(start: int, f: Fields, s: Schedule, r: Option<int>, q: Option<int>)
    requires IsNext(start, f, s, r) && IsNext(start, f, s, q)
    ensures r == q
  {
    hide Matches, InHorizon;
    if r.Some? && q.Some? { assert r.value == q.value; }
  }

  // ----- calcAware -----

  lemma MissingBeforeEnd(z: Zone, wall: int)
    requires RealZone(z) && Settles(z) && !Exists(z, wall)
    ensures wall < DATE_MAX + DAY_MS
  {
    var t := GapOf(z, wall);
    if t > DATE_MAX { assert false; }
  }

  /** Searching on from a missing wall time to the next match that exists. */
  ghost predicate IsSkip(z: Zone, wall: int, now: Moment, f: Fields, s: Schedule, r: Option<Moment>)
    requires RealZone(z) && Settles(z) && !Exists(z, wall)
    decreases DATE_MAX + DAY_MS - wall
  {
    MissingBeforeEnd(z, wall);
    match Search(wall, f, s)
    case None => r == None
    case Some(next) =>
      if Exists(z, next) then r.Some? && IsZoned(z, next, now, r.value, true)
      else IsSkip(z, next, now, f, s, r)
  }

  /** Before the other offset is tried. */
  ghost predicate IsFirstMoment(z: Zone, now: Moment, f: Fields, s: Schedule, r: Option<Moment>)
    requires RealZone(z) && Settles(z)
  {
    match Search(now.wall, f, s)
    case None => r == None
    case Some(wall) =>
      exists m, there :: IsDelivered(z, wall, now, f, s, m, there, r)
  }

  /** A missing wall time is moved forward, or skipped when the hours are unrestricted. */
  ghost predicate IsDelivered(z: Zone, wall: int, now: Moment, f: Fields, s: Schedule, m: Moment, there: bool,
                              r: Option<Moment>)
    requires RealZone(z) && Settles(z)
  {
    IsZoned(z, wall, now, m, there) &&
      if !there && (!(m.instant > now.instant) || Star in f.hour) then IsSkip(z, wall, now, f, s, r) else r == Some(m)
  }

  ghost predicate IsAware(z: Zone, now: Moment, f: Fields, s: Schedule, r: Option<Moment>)
    requires RealZone(z) && Settles(z)
  {
    exists first :: IsFirstMoment(z, now, f, s, first) && IsBetter(z, now, f, s, first, r)
  }

  /** With a change of offset on the way, the match under the other offset wins when it
      comes sooner and still after the clock. */
  ghost predicate IsBetter(z: Zone, now: Moment, f: Fields, s: Schedule, first: Option<Moment>, r: Option<Moment>)
    requires RealZone(z) && Settles(z)
  {
    if first == None || first.value.offset == now.offset then r == first
    else match Search(now.wall + first.value.offset - now.offset, f, s)
      case None => r == None
      case Some(wall) =>
        exists alternative, there ::
          IsZoned(z, wall, now, alternative, there) && r == Some(Earlier(now, alternative, first.value))
  }

  function Earlier(now: Moment, alternative: Moment, first: Moment): Moment {
    if now.instant < alternative.instant < first.instant then alternative else first
  }

  lemma ClockIsModern(z: Zone, now: Moment, offset: int)
    requires RealZone(z) && IsClock(z, now) && -DAY_MS < offset
    ensures Modern(now.wall + offset - now.offset)
  {}

  lemma BoundedClock(z: Zone, now: Moment)
    requires RealZone(z) && IsClock(z, now)
    ensures -DAY_MS < now.offset < DAY_MS
  {}

  /** A match within the horizon of a search. */
  ghost predicate HasMatch(f: Fields, s: Schedule, start: int) {
    exists v :: start < v && InHorizon(start, v) && Matches(f, s, v)
  }

  lemma SearchFinds(start: int, f: Fields, s: Schedule)
    ensures Search(start, f, s).Some? <==> HasMatch(f, s, start)
  {
    hide Matches, InHorizon;
  }

  lemma NextIsLater(start: int, f: Fields, s: Schedule)
    ensures var found := Search(start, f, s); found.Some? ==> start < found.value && Matches(f, s, found.value)
  {
    hide Matches;
  }

  lemma ZonedFacts(z: Zone, wall: int, now: Moment, m: Moment, there: bool)
    requires IsZoned(z, wall, now, m, there)
    ensures there == Exists(z, wall) && m.offset == z(m.instant)
  {}

  method SkipMissing(z: Zone, start: int, now: Moment, f: Fields, s: Schedule) returns (r: Option<Moment>)
    requires RealZone(z) && Settles(z) && FieldsOk(f) && WellFormed(s)
    requires !Exists(z, start) && Modern(start)
    ensures IsSkip(z, start, now, f, s, r)
  {
    hide FieldsOk, WellFormed, IsNext, RealZone, Settles, IsZoned, Exists;
    var wall, there, moment := start, false, now;
    while !there
      invariant Modern(wall) && there == Exists(z, wall)
      invariant there ==> IsSkip(z, start, now, f, s, Some(moment))
      invariant !there ==> forall q :: IsSkip(z, wall, now, f, s, q) ==> IsSkip(z, start, now, f, s, q)
      decreases if there then 0 else 1, DATE_MAX + DAY_MS - wall
    {
      MissingBeforeEnd(z, wall);
      var found := SearchWall(wall, f, s);
      SearchUnique(wall, f, s, found, Search(wall, f, s));
      NextIsLater(wall, f, s);
      if found == None {
        assert IsSkip(z, wall, now, f, s, None);
        return None;
      }
      ghost var before := wall;
      wall := found.value;
      moment, there := AddTimezone(z, wall, now);
      ZonedFacts(z, wall, now, moment, there);
      if there {
        assert IsSkip(z, before, now, f, s, Some(moment));
      } else {
        assert forall q :: IsSkip(z, wall, now, f, s, q) ==> IsSkip(z, before, now, f, s, q);
        MissingBeforeEnd(z, wall);
      }
    }
    r := Some(moment);
  }

  method FirstMoment(z: Zone, now: Moment, f: Fields, s: Schedule) returns (first: Option<Moment>)
    requires RealZone(z) && Settles(z) && IsClock(z, now) && FieldsOk(f) && WellFormed(s)
    ensures IsFirstMoment(z, now, f, s, first)
  {
    hide FieldsOk, WellFormed, IsNext, RealZone, Settles, IsZoned, Exists, IsSkip, Matches;
    BoundedClock(z, now);
    ClockIsModern(z, now, now.offset);
    var found := SearchWall(now.wall, f, s);
    SearchUnique(now.wall, f, s, found, Search(now.wall, f, s));
    NextIsLater(now.wall, f, s);
    if found == None { return None; }
    var moment, there := AddTimezone(z, found.value, now);
    ZonedFacts(z, found.value, now, moment, there);
    first := Some(moment);
    if !there && (!(moment.instant > now.instant) || Star in f.hour) {
      first := SkipMissing(z, found.value, now, f, s);
    }
    assert IsDelivered(z, found.value, now, f, s, moment, there, first);
  }

  method CalcAware(z: Zone, now: Moment, f: Fields, s: Schedule) returns (r: Option<Moment>)
    requires RealZone(z) && Settles(z) && IsClock(z, now) && FieldsOk(f) && WellFormed(s)
    ensures IsAware(z, now, f, s, r)
  {
    hide FieldsOk, WellFormed, IsNext, RealZone, Settles, IsZoned, IsFirstMoment;
    var first := FirstMoment(z, now, f, s);
    if first == None || first.value.offset - now.offset == 0 {
      assert IsBetter(z, now, f, s, first, first);
      return first;
    }
    var moment, offsetDelta := first.value, first.value.offset - now.offset;
    FirstMomentOffset(z, now, f, s, first);
    ClockIsModern(z, now, moment.offset);
    var alternativeWall := SearchWall(now.wall + offsetDelta, f, s);
    SearchUnique(now.wall + offsetDelta, f, s, alternativeWall, Search(now.wall + offsetDelta, f, s));
    if alternativeWall == None {
      assert IsBetter(z, now, f, s, first, None);
      return None;
    }
    var alternative, _ := AddTimezone(z, alternativeWall.value, now);
    r := if !(alternative.instant > now.instant) then first
         else if moment.instant > alternative.instant then Some(alternative)
         else first;
    assert IsBetter(z, now, f, s, first, r);
  }

  lemma {:induction false} SkipOffset(z: Zone, wall: int, now: Moment, f: Fields, s: Schedule, r: Option<Moment>)
    requires RealZone(z) && Settles(z) && !Exists(z, wall) && IsSkip(z, wall, now, f, s, r)
    ensures r.Some? ==> r.value.offset == z(r.value.instant)
    decreases DATE_MAX + DAY_MS - wall
  {
    hide RealZone, Settles, Exists, IsNext;
    MissingBeforeEnd(z, wall);
    NextIsLater(wall, f, s);
    var found := Search(wall, f, s);
    if found.Some? && !Exists(z, found.value) {
      MissingBeforeEnd(z, found.value);
      SkipOffset(z, found.value, now, f, s, r);
    }
  }

  lemma FirstMomentOffset(z: Zone, now: Moment, f: Fields, s: Schedule, r: Option<Moment>)
    requires RealZone(z) && Settles(z) && IsFirstMoment(z, now, f, s, r)
    ensures r.Some? ==> r.value.offset == z(r.value.instant) && -DAY_MS < r.value.offset < DAY_MS
  {
    hide IsSkip, Settles, Exists, IsNext;
    var found := Search(now.wall, f, s);
    if found.Some? {
      var m, there :| IsDelivered(z, found.value, now, f, s, m, there, r);
      if !there && (!(m.instant > now.instant) || Star in f.hour) { SkipOffset(z, found.value, now, f, s, r); }
    }
  }

  // ----- when there is no answer -----

  /** The matches from a missing one on are missing too, up to one without a successor within
      fifty years. */
  ghost predicate OnlyMissing(z: Zone, f: Fields, s: Schedule, wall: int) {
    exists y :: wall <= y && LastMissing(z, f, s, wall, y)
  }

  ghost predicate LastMissing(z: Zone, f: Fields, s: Schedule, wall: int, y: int) {
    (forall m :: wall <= m <= y && Matches(f, s, m) ==> !Exists(z, m)) && !HasMatch(f, s, y)
  }

  lemma {:induction false} SkipFails(z: Zone, wall: int, now: Moment, f: Fields, s: Schedule, r: Option<Moment>)
    requires RealZone(z) && Settles(z) && !Exists(z, wall) && IsSkip(z, wall, now, f, s, r)
    ensures r == None <==> OnlyMissing(z, f, s, wall)
    decreases DATE_MAX + DAY_MS - wall
  {
    hide RealZone, Settles, IsZoned, Exists, Matches, InHorizon;
    MissingBeforeEnd(z, wall);
    var found := Search(wall, f, s);
    SearchFinds(wall, f, s);
    if found == None {
      assert LastMissing(z, f, s, wall, wall);
    } else if Exists(z, found.value) {
      forall y | wall <= y ensures !LastMissing(z, f, s, wall, y) {
        if y < found.value { SearchFindsFrom(z, f, s, wall, y, found.value); }
      }
    } else {
      MissingBeforeEnd(z, found.value);
      SkipFails(z, found.value, now, f, s, r);
      MissingOnwards(z, f, s, wall, found.value);
    }
  }

  lemma SearchFindsFrom(z: Zone, f: Fields, s: Schedule, wall: int, y: int, next: int)
    requires wall <= y < next && InHorizon(wall, next) && Matches(f, s, next)
    ensures HasMatch(f, s, y)
  {
    hide Matches, InHorizon;
    LaterHorizon(wall, y, next);
  }

  lemma LaterHorizon(y: int, later: int, w: int)
    requires y <= later && InHorizon(y, w)
    ensures InHorizon(later, w)
  {
    hide YearOf, NextMinute;
    MinutesMonotone(y, later);
    YearsMonotone(NextMinute(y), NextMinute(later));
  }

  lemma MinutesMonotone(y: int, later: int)
    requires y <= later
    ensures NextMinute(y) <= NextMinute(later)
  {}

  lemma MissingOnwards(z: Zone, f: Fields, s: Schedule, wall: int, next: int)
    requires !Exists(z, wall) && !Exists(z, next) && IsNext(wall, f, s, Some(next))
    ensures OnlyMissing(z, f, s, wall) <==> OnlyMissing(z, f, s, next)
  {
    hide Matches, InHorizon, Exists;
    if OnlyMissing(z, f, s, wall) {
      var y :| wall <= y && LastMissing(z, f, s, wall, y);
      if y < next { SearchFindsFrom(z, f, s, wall, y, next); }
      assert LastMissing(z, f, s, next, y);
    }
    if OnlyMissing(z, f, s, next) {
      var y :| next <= y && LastMissing(z, f, s, next, y);
      assert LastMissing(z, f, s, wall, y);
    }
  }

  /** Before the other offset is tried, there is no answer exactly when nothing matches up to
      the horizon, or every hour is allowed and the clock skips the first match and all that
      follow it. */
  ghost predicate FirstFails(z: Zone, now: Moment, f: Fields, s: Schedule) {
    !HasMatch(f, s, now.wall)
    || (Star in f.hour && exists w :: IsNext(now.wall, f, s, Some(w)) && !Exists(z, w) && OnlyMissing(z, f, s, w))
  }

  lemma FirstMomentFails(z: Zone, now: Moment, f: Fields, s: Schedule, first: Option<Moment>)
    requires RealZone(z) && Settles(z) && IsClock(z, now) && IsFirstMoment(z, now, f, s, first)
    ensures first == None <==> FirstFails(z, now, f, s)
  {
    hide RealZone, Settles, IsZoned, Exists, IsSkip, OnlyMissing, Matches, InHorizon, HasMatch, IsNext;
    var found := Search(now.wall, f, s);
    SearchFinds(now.wall, f, s);
    if found.Some? {
      var m, there :| IsDelivered(z, found.value, now, f, s, m, there, first);
      ZonedFacts(z, found.value, now, m, there);
      NextIsLater(now.wall, f, s);
      ZonedIsLater(z, found.value, now, m, there);
      if !there && Star in f.hour { SkipFails(z, found.value, now, f, s, first); }
      forall w | IsNext(now.wall, f, s, Some(w)) ensures w == found.value {
        SearchUnique(now.wall, f, s, found, Some(w));
      }
    }
  }

  /** There is no first answer, or it lies at another offset and nothing matches up to the
      horizon of the search from there. */
  ghost predicate Fails(z: Zone, now: Moment, f: Fields, s: Schedule)
    requires RealZone(z) && Settles(z)
  {
    FirstFails(z, now, f, s)
    || exists m ::
         IsFirstMoment(z, now, f, s, Some(m)) && m.offset != now.offset && !HasMatch(f, s, now.instant + m.offset)
  }

  /** In every real zone, exactly when `calcAware` fails. */
  lemma AwareFails(z: Zone, now: Moment, f: Fields, s: Schedule, r: Option<Moment>)
    requires RealZone(z) && Settles(z) && IsClock(z, now) && IsAware(z, now, f, s, r)
    ensures r == None <==> Fails(z, now, f, s)
  {
    hide RealZone, Settles, IsZoned, IsFirstMoment, HasMatch, FirstFails, Matches, IsNext;
    var first :| IsFirstMoment(z, now, f, s, first) && IsBetter(z, now, f, s, first, r);
    FirstMomentFails(z, now, f, s, first);
    if first.Some? { SearchFinds(now.wall + first.value.offset - now.offset, f, s); }
    forall m | IsFirstMoment(z, now, f, s, Some(m)) ensures first == Some(m) {
      FirstMomentUnique(z, now, f, s, first, Some(m));
    }
  }

  // ----- what a firing is -----

  /** At a firing the clock shows a match, or for the first time the first existing minute
      after a match that the zone skips. */
  ghost predicate FiresAt(z: Zone, f: Fields, s: Schedule, i: int) {
    || Matches(f, s, i + z(i))
    || (IsFirst(z, i, i + z(i)) && exists w :: Matches(f, s, w) && !Exists(z, w) && IsMoved(z, w, i + z(i)))
  }

  /** After the clock, with its own offset, on a wall time the fields ask for. */
  ghost predicate IsFiring(z: Zone, now: Moment, f: Fields, s: Schedule, m: Moment) {
    m.instant > now.instant && m.offset == z(m.instant) && m.wall == m.instant + m.offset && FiresAt(z, f, s, m.instant)
  }

  lemma ZonedFires(z: Zone, wall: int, now: Moment, f: Fields, s: Schedule, m: Moment, there: bool)
    requires IsZoned(z, wall, now, m, there) && Matches(f, s, wall)
    ensures m.offset == z(m.instant) && m.wall == m.instant + m.offset && FiresAt(z, f, s, m.instant)
  {
    hide Matches;
  }

  lemma {:induction false} SkipFires(z: Zone, wall: int, now: Moment, f: Fields, s: Schedule, r: Option<Moment>)
    requires RealZone(z) && Settles(z) && IsClock(z, now) && !Exists(z, wall) && now.wall < wall
    requires IsSkip(z, wall, now, f, s, r)
    ensures r.Some? ==> IsFiring(z, now, f, s, r.value)
    decreases DATE_MAX + DAY_MS - wall
  {
    hide RealZone, Settles, Exists, Matches, IsZoned, FiresAt;
    MissingBeforeEnd(z, wall);
    var found := Search(wall, f, s);
    if found.Some? {
      if Exists(z, found.value) {
        ZonedFires(z, found.value, now, f, s, r.value, true);
        ZonedIsLater(z, found.value, now, r.value, true);
      } else {
        MissingBeforeEnd(z, found.value);
        SkipFires(z, found.value, now, f, s, r);
      }
    }
  }

  lemma FirstMomentFires(z: Zone, now: Moment, f: Fields, s: Schedule, r: Option<Moment>)
    requires RealZone(z) && Settles(z) && IsClock(z, now) && IsFirstMoment(z, now, f, s, r)
    ensures r.Some? ==> IsFiring(z, now, f, s, r.value)
  {
    hide RealZone, Settles, Exists, Matches, IsZoned, FiresAt, IsSkip;
    var found := Search(now.wall, f, s);
    if found.Some? {
      var m, there :| IsDelivered(z, found.value, now, f, s, m, there, r);
      ZonedFacts(z, found.value, now, m, there);
      ZonedFires(z, found.value, now, f, s, m, there);
      ZonedIsLater(z, found.value, now, m, there);
      if !there && Star in f.hour { SkipFires(z, found.value, now, f, s, r); }
    }
  }

  /** Whatever `calcAware` returns is a firing after the clock: through gaps, overlaps and
      the search under the other offset. */
  lemma AwareFires(z: Zone, now: Moment, f: Fields, s: Schedule, r: Option<Moment>)
    requires RealZone(z) && Settles(z) && IsClock(z, now) && IsAware(z, now, f, s, r)
    ensures r.Some? ==> IsFiring(z, now, f, s, r.value)
  {
    hide RealZone, Settles, Exists, Matches, IsZoned, FiresAt, IsFirstMoment, IsClock, IsNext;
    var first :| IsFirstMoment(z, now, f, s, first) && IsBetter(z, now, f, s, first, r);
    FirstMomentFires(z, now, f, s, first);
    if first.Some? && first.value.offset != now.offset {
      var found := Search(now.wall + first.value.offset - now.offset, f, s);
      NextIsLater(now.wall + first.value.offset - now.offset, f, s);
      if found.Some? {
        var alternative, there :| IsZoned(z, found.value, now, alternative, there)
          && r == Some(Earlier(now, alternative, first.value));
        ZonedFires(z, found.value, now, f, s, alternative, there);
      }
    }
  }

  // ----- nextFireAfter -----

  predicate BothDaysRestricted(f: Fields) {
    Star !in f.day && Star !in f.dow
  }

  function ByDay(f: Fields): Fields {
    f.(dow := [Star])
  }

  function ByWeekday(f: Fields): Fields {
    f.(day := [Star])
  }

  function ClockAt(z: Zone, instant: int): Moment {
    Moment(instant + z(instant), instant, z(instant))
  }

  ghost predicate IsNextFire(z: Zone, s: Schedule, instant: int, r: Option<int>)
    requires RealZone(z) && Settles(z)
  {
    var now := ClockAt(z, instant);
    if BothDaysRestricted(s.fields) then
      exists d :: IsAware(z, now, ByDay(s.fields), s, d) &&
        if d == None then r == None
        else exists w :: IsAware(z, now, ByWeekday(s.fields), s, w) && r == Sooner(d, w)
    else
      exists m :: IsAware(z, now, s.fields, s, m) && r == InstantOf(m)
  }

  function InstantOf(m: Option<Moment>): Option<int> {
    if m.Some? then Some(m.value.instant) else None
  }

  /** Both branches must have an occurrence; they are compared as wall times. */
  function Sooner(d: Option<Moment>, w: Option<Moment>): Option<int> {
    if d == None || w == None then None
    else Some(if d.value.wall < w.value.wall then d.value.instant else w.value.instant)
  }

  lemma BranchesOk(f: Fields)
    requires FieldsOk(f)
    ensures FieldsOk(ByDay(f)) && FieldsOk(ByWeekday(f))
  {}

  method NextFireAfter(s: Schedule, z: Zone, instant: int) returns (r: Option<int>)
    requires RealZone(z) && Settles(z) && WellFormed(s) && Recent(instant)
    ensures IsNextFire(z, s, instant, r)
  {
    hide RealZone, Settles, IsAware, FieldsOk;
    var now := ClockAt(z, instant);
    if BothDaysRestricted(s.fields) {
      BranchesOk(s.fields);
      var byDay := CalcAware(z, now, ByDay(s.fields), s);
      if byDay == None { return None; }
      var byWeekday := CalcAware(z, now, ByWeekday(s.fields), s);
      return Sooner(byDay, byWeekday);
    }
    var aware := CalcAware(z, now, s.fields, s);
    r := InstantOf(aware);
  }

  /** A firing of one of the searched branches. */
  ghost predicate Due(z: Zone, s: Schedule, i: int) {
    if BothDaysRestricted(s.fields) then FiresAt(z, ByDay(s.fields), s, i) || FiresAt(z, ByWeekday(s.fields), s, i)
    else FiresAt(z, s.fields, s, i)
  }

  /** In every zone, whatever `nextFireAfter` returns comes strictly later and is due. */
  lemma NextFireIsLater(z: Zone, s: Schedule, instant: int, r: Option<int>)
    requires RealZone(z) && Settles(z) && Recent(instant) && IsNextFire(z, s, instant, r)
    ensures r.Some? ==> r.value > instant && Due(z, s, r.value)
  {
    hide RealZone, Settles, IsAware, FiresAt;
    var now := ClockAt(z, instant);
    if BothDaysRestricted(s.fields) {
      var d :| IsAware(z, now, ByDay(s.fields), s, d) &&
        if d == None then r == None
        else exists w :: IsAware(z, now, ByWeekday(s.fields), s, w) && r == Sooner(d, w);
      AwareFires(z, now, ByDay(s.fields), s, d);
      if d.Some? {
        var w :| IsAware(z, now, ByWeekday(s.fields), s, w) && r == Sooner(d, w);
        AwareFires(z, now, ByWeekday(s.fields), s, w);
      }
    } else {
      var m :| IsAware(z, now, s.fields, s, m) && r == InstantOf(m);
      AwareFires(z, now, s.fields, s, m);
    }
  }

  /** In every real zone, exactly when `nextFireAfter` fails: with both day fields restricted
      one failing branch is enough. */
  lemma NextFireFails(z: Zone, s: Schedule, instant: int, r: Option<int>)
    requires RealZone(z) && Settles(z) && Recent(instant) && IsNextFire(z, s, instant, r)
    ensures var now := ClockAt(z, instant);
            r == None <==> if BothDaysRestricted(s.fields)
                           then Fails(z, now, ByDay(s.fields), s) || Fails(z, now, ByWeekday(s.fields), s)
                           else Fails(z, now, s.fields, s)
  {
    hide RealZone, Settles, IsAware, Fails;
    var now := ClockAt(z, instant);
    if BothDaysRestricted(s.fields) {
      var d :| IsAware(z, now, ByDay(s.fields), s, d) &&
        if d == None then r == None
        else exists w :: IsAware(z, now, ByWeekday(s.fields), s, w) && r == Sooner(d, w);
      AwareFails(z, now, ByDay(s.fields), s, d);
      if d.Some? {
        var w :| IsAware(z, now, ByWeekday(s.fields), s, w) && r == Sooner(d, w);
        AwareFails(z, now, ByWeekday(s.fields), s, w);
      }
    } else {
      var m :| IsAware(z, now, s.fields, s, m) && r == InstantOf(m);
      AwareFails(z, now, s.fields, s, m);
    }
  }

  // ----- the contract determines the answer -----

  lemma ZonedUnique(z: Zone, wall: int, now: Moment, m: Moment, there: bool, m': Moment, there': bool)
    requires IsZoned(z, wall, now, m, there) && IsZoned(z, wall, now, m', there')
    ensures m == m' && there == there'
  {
    hide Exists;
    if !there { assert m.wall == m'.wall; }
  }

  lemma {:induction false} SkipUnique(z: Zone, wall: int, now: Moment, f: Fields, s: Schedule, r: Option<Moment>,
                                      r': Option<Moment>)
    requires RealZone(z) && Settles(z) && !Exists(z, wall)
    requires IsSkip(z, wall, now, f, s, r) && IsSkip(z, wall, now, f, s, r')
    ensures r == r'
    decreases DATE_MAX + DAY_MS - wall
  {
    hide RealZone, Settles, IsZoned, Exists, IsNext;
    MissingBeforeEnd(z, wall);
    var found := Search(wall, f, s);
    if found.Some? {
      NextIsLater(wall, f, s);
      if Exists(z, found.value) {
        ZonedUnique(z, found.value, now, r.value, true, r'.value, true);
      } else {
        MissingBeforeEnd(z, found.value);
        SkipUnique(z, found.value, now, f, s, r, r');
      }
    }
  }

  lemma AwareUnique(z: Zone, now: Moment, f: Fields, s: Schedule, r: Option<Moment>, r': Option<Moment>)
    requires RealZone(z) && Settles(z) && IsAware(z, now, f, s, r) && IsAware(z, now, f, s, r')
    ensures r == r'
  {
    hide RealZone, Settles, IsFirstMoment, IsBetter;
    var first :| IsFirstMoment(z, now, f, s, first) && IsBetter(z, now, f, s, first, r);
    var first' :| IsFirstMoment(z, now, f, s, first') && IsBetter(z, now, f, s, first', r');
    FirstMomentUnique(z, now, f, s, first, first');
    BetterUnique(z, now, f, s, first, r, r');
  }

  lemma FirstMomentUnique(z: Zone, now: Moment, f: Fields, s: Schedule, r: Option<Moment>, r': Option<Moment>)
    requires RealZone(z) && Settles(z) && IsFirstMoment(z, now, f, s, r) && IsFirstMoment(z, now, f, s, r')
    ensures r == r'
  {
    hide RealZone, Settles, IsZoned, Exists, IsSkip, IsNext;
    var found := Search(now.wall, f, s);
    if found.Some? {
      var m, there :| IsDelivered(z, found.value, now, f, s, m, there, r);
      var m', there' :| IsDelivered(z, found.value, now, f, s, m', there', r');
      ZonedUnique(z, found.value, now, m, there, m', there');
      ZonedFacts(z, found.value, now, m, there);
      if !there && (!(m.instant > now.instant) || Star in f.hour) {
        SkipUnique(z, found.value, now, f, s, r, r');
      }
    }
  }

  lemma BetterUnique(z: Zone, now: Moment, f: Fields, s: Schedule, first: Option<Moment>, r: Option<Moment>,
                     r': Option<Moment>)
    requires RealZone(z) && Settles(z) && IsBetter(z, now, f, s, first, r) && IsBetter(z, now, f, s, first, r')
    ensures r == r'
  {
    hide RealZone, Settles, IsZoned, IsNext;
    if first.Some? && first.value.offset != now.offset {
      var found := Search(now.wall + first.value.offset - now.offset, f, s);
      if found.Some? {
        var m, there :| IsZoned(z, found.value, now, m, there) && r == Some(Earlier(now, m, first.value));
        var m', there' :| IsZoned(z, found.value, now, m', there') && r' == Some(Earlier(now, m', first.value));
        ZonedUnique(z, found.value, now, m, there, m', there');
      }
    }
  }

  /** The answer depends on the schedule, the zone and the instant alone. */
  lemma NextFireIsUnique(z: Zone, s: Schedule, instant: int, r: Option<int>, r': Option<int>)
    requires RealZone(z) && Settles(z) && IsNextFire(z, s, instant, r) && IsNextFire(z, s, instant, r')
    ensures r == r'
  {
    hide RealZone, Settles, IsAware;
    var now := ClockAt(z, instant);
    if BothDaysRestricted(s.fields) {
      var d :| IsAware(z, now, ByDay(s.fields), s, d) &&
        if d == None then r == None
        else exists w :: IsAware(z, now, ByWeekday(s.fields), s, w) && r == Sooner(d, w);
      var d' :| IsAware(z, now, ByDay(s.fields), s, d') &&
        if d' == None then r' == None
        else exists w :: IsAware(z, now, ByWeekday(s.fields), s, w) && r' == Sooner(d', w);
      AwareUnique(z, now, ByDay(s.fields), s, d, d');
      if d.Some? {
        var w :| IsAware(z, now, ByWeekday(s.fields), s, w) && r == Sooner(d, w);
        var w' :| IsAware(z, now, ByWeekday(s.fields), s, w') && r' == Sooner(d', w');
        AwareUnique(z, now, ByWeekday(s.fields), s, w, w');
      }
    } else {
      var m :| IsAware(z, now, s.fields, s, m) && r == InstantOf(m);
      var m' :| IsAware(z, now, s.fields, s, m') && r' == InstantOf(m');
      AwareUnique(z, now, s.fields, s, m, m');
    }
  }

  // ----- and there always is one -----

  lemma {:induction false} SkipExists(z: Zone, wall: int, now: Moment, f: Fields, s: Schedule)
    returns (r: Option<Moment>)
    requires RealZone(z) && Settles(z) && !Exists(z, wall)
    ensures IsSkip(z, wall, now, f, s, r)
    decreases DATE_MAX + DAY_MS - wall
  {
    hide RealZone, Settles, IsZoned, Exists, IsNext, Matches;
    MissingBeforeEnd(z, wall);
    var found := Search(wall, f, s);
    if found == None {
      r := None;
    } else if Exists(z, found.value) {
      var m := ZonedExists(z, found.value, now);
      r := Some(m);
    } else {
      NextIsLater(wall, f, s);
      MissingBeforeEnd(z, found.value);
      r := SkipExists(z, found.value, now, f, s);
    }
  }

  lemma AwareExists(z: Zone, now: Moment, f: Fields, s: Schedule) returns (r: Option<Moment>)
    requires RealZone(z) && Settles(z)
    ensures IsAware(z, now, f, s, r)
  {
    hide RealZone, Settles, IsZoned, IsFirstMoment, IsNext;
    var first := FirstMomentExists(z, now, f, s);
    if first == None || first.value.offset == now.offset {
      r := first;
    } else {
      var found := Search(now.wall + first.value.offset - now.offset, f, s);
      if found == None {
        r := None;
      } else {
        var m := ZonedExists(z, found.value, now);
        r := Some(Earlier(now, m, first.value));
        assert IsZoned(z, found.value, now, m, Exists(z, found.value));
      }
    }
    assert IsBetter(z, now, f, s, first, r);
  }

  lemma FirstMomentExists(z: Zone, now: Moment, f: Fields, s: Schedule) returns (first: Option<Moment>)
    requires RealZone(z) && Settles(z)
    ensures IsFirstMoment(z, now, f, s, first)
  {
    hide RealZone, Settles, IsZoned, IsSkip, IsNext, Exists;
    var found := Search(now.wall, f, s);
    if found == None {
      first := None;
    } else {
      var m := ZonedExists(z, found.value, now);
      var there := Exists(z, found.value);
      if !there && (!(m.instant > now.instant) || Star in f.hour) {
        first := SkipExists(z, found.value, now, f, s);
      } else {
        first := Some(m);
      }
      assert IsDelivered(z, found.value, now, f, s, m, there, first);
    }
  }

  lemma NextFireExists(z: Zone, s: Schedule, instant: int)
    requires RealZone(z) && Settles(z)
    ensures exists r :: IsNextFire(z, s, instant, r)
  {
    hide RealZone, Settles, IsAware;
    var now := ClockAt(z, instant);
    if BothDaysRestricted(s.fields) {
      var d := AwareExists(z, now, ByDay(s.fields), s);
      var w := AwareExists(z, now, ByWeekday(s.fields), s);
      assert IsNextFire(z, s, instant, if d == None then None else Sooner(d, w));
    } else {
      var m := AwareExists(z, now, s.fields, s);
      assert IsNextFire(z, s, instant, InstantOf(m));
    }
  }

  /** `nextFireAfter` as a function, which its contract determines. */
  ghost function NextFire(z: Zone, s: Schedule, instant: int): (r: Option<int>)
    requires RealZone(z) && Settles(z)
    ensures IsNextFire(z, s, instant, r)
    ensures forall q :: IsNextFire(z, s, instant, q) ==> q == r
  {
    NextFireExists(z, s, instant);
    var r :| IsNextFire(z, s, instant, r);
    assert forall q :: IsNextFire(z, s, instant, q) ==> q == r by {
      forall q | IsNextFire(z, s, instant, q) ensures q == r { NextFireIsUnique(z, s, instant, r, q); }
    }
    r
  }

  function Previous(from: int, dates: seq<int>, i: int): int
    requires 0 <= i < |dates|
  {
    if i == 0 then from else dates[i - 1]
  }

  /** A chain of firings, each the answer for the one before. */
  ghost predicate IsChain(z: Zone, s: Schedule, from: int, dates: seq<int>)
    requires RealZone(z) && Settles(z)
  {
    forall i :: 0 <= i < |dates| ==> IsNextFire(z, s, Previous(from, dates, i), Some(dates[i]))
  }

  predicate StrictlyAfter(from: int, dates: seq<int>) {
    forall i :: 0 <= i < |dates| ==> Previous(from, dates, i) < dates[i]
  }

  function CursorOf(from: int, dates: seq<int>): int {
    if dates == [] then from else dates[|dates| - 1]
  }

  method Executions(s: Schedule, z: Zone, now: int, count: nat) returns (dates: seq<int>)
    requires RealZone(z) && Settles(z) && Recent(now) && WellFormed(s)
    ensures |dates| <= count && StrictlyAfter(now, dates) && IsChain(z, s, now, dates)
    ensures |dates| < count ==> IsNextFire(z, s, CursorOf(now, dates), None)
  {
    hide RealZone, Settles, IsNextFire, WellFormed, Due;
    dates := [];
    var cursor := now;
    while |dates| < count
      invariant |dates| <= count && cursor == CursorOf(now, dates) && now <= cursor
      invariant StrictlyAfter(now, dates) && IsChain(z, s, now, dates)
    {
      var next := NextFireAfter(s, z, cursor);
      NextFireIsLater(z, s, cursor, next);
      if next == None { return; }
      ChainGrows(z, s, now, dates, next.value);
      cursor := next.value;
      dates := dates + [cursor];
    }
  }

  lemma ChainGrows(z: Zone, s: Schedule, from: int, dates: seq<int>, next: int)
    requires RealZone(z) && Settles(z) && StrictlyAfter(from, dates) && IsChain(z, s, from, dates)
    requires CursorOf(from, dates) < next && IsNextFire(z, s, CursorOf(from, dates), Some(next))
    ensures StrictlyAfter(from, dates + [next]) && IsChain(z, s, from, dates + [next])
  {
    hide RealZone, Settles, IsNextFire;
    var longer := dates + [next];
    forall i | 0 <= i < |longer|
      ensures Previous(from, longer, i) < longer[i] && IsNextFire(z, s, Previous(from, longer, i), Some(longer[i]))
    {
      if i < |dates| { assert Previous(from, longer, i) == Previous(from, dates, i); }
    }
  }

  /** Up to `count` firings, strictly increasing from `now`; fewer only for an expression
      that is refused or when the last firing found has no successor. */
  method NextCronExecutions(raw: CronExpand.RawCron, z: Zone, now: int, count: nat)
    returns (dates: seq<int>, ghost s: Option<Schedule>)
    requires RealZone(z) && Settles(z) && Recent(now)
    requires CronExpand.ElementsOf(raw.minute) != [] && CronExpand.ElementsOf(raw.hour) != []
    requires CronExpand.ElementsOf(raw.day) != []
    requires CronExpand.ElementsOf(raw.month) != [] && CronExpand.ElementsOf(raw.dow) != []
    ensures |dates| <= count && StrictlyAfter(now, dates)
    ensures s == None ==> dates == []
    ensures s.Some? ==> IsChain(z, s.value, now, dates)
    ensures s.Some? && |dates| < count ==> IsNextFire(z, s.value, CursorOf(now, dates), None)
    ensures !CronExpand.AllReadable(raw) ==> s == None
    ensures s.Some? ==> exists xs ::
      CronExpand.AreExpansions(raw, xs) && !CronExpand.Mixed(xs.dow) && s.value == CronExpand.ScheduleOf(xs)
  {
    hide RealZone, Settles, IsNextFire, WellFormed, IsChain, StrictlyAfter, CronExpand.AllReadable;
    hide CronExpand.AreExpansions, CronExpand.Mixed;
    dates, s := [], None;
    var expanded, xs := CronExpand.ExpandSchedule(raw);
    if expanded.SyntaxError? {
      assert StrictlyAfter(now, []) by { NothingAfter(now); }
      return;
    }
    s := Some(expanded.value);
    dates := Executions(expanded.value, z, now, count);
  }

  lemma NothingAfter(from: int)
    ensures StrictlyAfter(from, [])
  {}

  // ----- away from changes: exactness -----

  /** The offset does not change from one instant to another. */
  ghost predicate Calm(z: Zone, from: int, to: int) {
    forall t :: from <= t <= to ==> z(t) == z(from)
  }

  /** A wall time ahead that the clock reaches without a change of offset. */
  lemma CalmZoned(z: Zone, wall: int, now: Moment, m: Moment, there: bool)
    requires RealZone(z) && now.offset == z(now.instant) && At(z, now.instant, now.wall) && now.wall < wall
    requires Calm(z, now.instant, wall - now.offset) && IsZoned(z, wall, now, m, there)
    ensures there && m == Moment(wall, wall - now.offset, now.offset)
  {
    var i := wall - now.offset;
    assert At(z, i, wall);
    if m.instant != i {
      assert IsLast(z, m.instant, wall) && i < m.instant;
      var first :| IsFirst(z, first, wall) && first <= now.instant;
      Sparse(z, first, i, m.instant);
      assert false;
    }
  }

  function AtOffset(found: Option<int>, offset: int): Option<Moment> {
    if found.Some? then Some(Moment(found.value, found.value - offset, offset)) else None
  }

  /** Nor up to the first match ahead. */
  ghost predicate CalmTo(z: Zone, instant: int, f: Fields, s: Schedule) {
    forall w :: IsNext(instant + z(instant), f, s, Some(w)) ==> Calm(z, instant, w - z(instant))
  }

  lemma CalmDelivered(z: Zone, wall: int, now: Moment, f: Fields, s: Schedule, m: Moment, there: bool,
                      r: Option<Moment>)
    requires RealZone(z) && Settles(z) && now.offset == z(now.instant) && At(z, now.instant, now.wall)
    requires now.wall < wall
    requires Calm(z, now.instant, wall - now.offset) && IsDelivered(z, wall, now, f, s, m, there, r)
    ensures r == Some(Moment(wall, wall - now.offset, now.offset))
  {
    hide RealZone, Settles, IsZoned, IsSkip, Calm, At;
    CalmZoned(z, wall, now, m, there);
  }

  lemma CalmFirst(z: Zone, now: Moment, f: Fields, s: Schedule, first: Option<Moment>)
    requires RealZone(z) && Settles(z) && now.offset == z(now.instant) && At(z, now.instant, now.wall)
    requires IsFirstMoment(z, now, f, s, first)
    requires CalmTo(z, now.instant, f, s)
    ensures first == AtOffset(Search(now.wall, f, s), now.offset)
  {
    hide RealZone, Settles, IsDelivered, IsNext, Matches, Calm;
    var found := Search(now.wall, f, s);
    if found.Some? {
      NextIsLater(now.wall, f, s);
      assert IsNext(now.instant + z(now.instant), f, s, found);
      var m, there :| IsDelivered(z, found.value, now, f, s, m, there, first);
      CalmDelivered(z, found.value, now, f, s, m, there, first);
    }
  }

  lemma CalmAware(z: Zone, now: Moment, f: Fields, s: Schedule, r: Option<Moment>)
    requires RealZone(z) && Settles(z) && now.offset == z(now.instant) && At(z, now.instant, now.wall)
    requires IsAware(z, now, f, s, r) && CalmTo(z, now.instant, f, s)
    ensures r == AtOffset(Search(now.wall, f, s), now.offset)
  {
    hide RealZone, Settles, IsFirstMoment, IsNext, CalmTo, At;
    var first :| IsFirstMoment(z, now, f, s, first) && IsBetter(z, now, f, s, first, r);
    CalmFirst(z, now, f, s, first);
  }

  /** The wall times the expression asks for: with both day fields restricted, those of
      either branch. */
  predicate Wanted(s: Schedule, wall: int) {
    if BothDaysRestricted(s.fields) then Matches(ByDay(s.fields), s, wall) || Matches(ByWeekday(s.fields), s, wall)
    else Matches(s.fields, s, wall)
  }

  /** The least wanted wall time after `start`, or none up to the horizon. */
  ghost predicate IsNextWanted(s: Schedule, start: int, r: Option<int>) {
    match r
    case Some(w) => start < w && InHorizon(start, w) && Wanted(s, w) && forall v :: start < v < w ==> !Wanted(s, v)
    case None => forall v :: start < v && InHorizon(start, v) ==> !Wanted(s, v)
  }

  /** `nextFireAfter` in a zone without changes, in terms of the search. */
  ghost function FixedAnswer(s: Schedule, start: int): (found: Option<int>)
  {
    if BothDaysRestricted(s.fields) then
      var d, w := Search(start, ByDay(s.fields), s), Search(start, ByWeekday(s.fields), s);
      if d == None || w == None then None else if d.value < w.value then d else w
    else Search(start, s.fields, s)
  }

  function Shifted(found: Option<int>, offset: int): Option<int> {
    if found.Some? then Some(found.value - offset) else None
  }

  /** No change of offset lies between the instant and the first matches ahead. */
  ghost predicate CalmAhead(z: Zone, s: Schedule, instant: int) {
    if BothDaysRestricted(s.fields)
    then CalmTo(z, instant, ByDay(s.fields), s) && CalmTo(z, instant, ByWeekday(s.fields), s)
    else CalmTo(z, instant, s.fields, s)
  }

  lemma ClockIsAt(z: Zone, instant: int)
    ensures At(z, instant, ClockAt(z, instant).wall)
  {}

  lemma CalmNextFire(z: Zone, s: Schedule, instant: int, r: Option<int>)
    requires RealZone(z) && Settles(z) && IsNextFire(z, s, instant, r) && CalmAhead(z, s, instant)
    ensures r == Shifted(FixedAnswer(s, instant + z(instant)), z(instant))
  {
    hide RealZone, Settles, IsAware, IsNext, Calm, At;
    var now := ClockAt(z, instant);
    ClockIsAt(z, instant);
    if BothDaysRestricted(s.fields) {
      var d :| IsAware(z, now, ByDay(s.fields), s, d) &&
        if d == None then r == None
        else exists w :: IsAware(z, now, ByWeekday(s.fields), s, w) && r == Sooner(d, w);
      CalmAware(z, now, ByDay(s.fields), s, d);
      if d.Some? {
        var w :| IsAware(z, now, ByWeekday(s.fields), s, w) && r == Sooner(d, w);
        CalmAware(z, now, ByWeekday(s.fields), s, w);
      }
    } else {
      var m :| IsAware(z, now, s.fields, s, m) && r == InstantOf(m);
      CalmAware(z, now, s.fields, s, m);
    }
  }

  /** In every real zone, when the offset does not change on the way, the answer is the first
      instant after the reference at which the clock shows a wanted minute. */
  lemma CalmIsLeast(z: Zone, s: Schedule, instant: int, r: Option<int>)
    requires RealZone(z) && Settles(z) && IsNextFire(z, s, instant, r) && CalmAhead(z, s, instant)
    ensures r.Some? ==>
      instant < r.value && Wanted(s, r.value + z(r.value)) && forall t :: instant < t < r.value ==> !Wanted(s, t + z(t))
  {
    hide RealZone, Settles, Matches, InHorizon, IsNextFire;
    CalmNextFire(z, s, instant, r);
  }

  // ----- zones without changes -----

  ghost predicate FixedOffset(z: Zone, offset: int) {
    -DAY_MS < offset < DAY_MS && forall t :: z(t) == offset
  }

  lemma FixedIsReal(z: Zone, offset: int)
    requires FixedOffset(z, offset)
    ensures RealZone(z) && Settles(z)
  {}

  lemma FixedNextFire(z: Zone, offset: int, s: Schedule, instant: int, r: Option<int>)
    requires FixedOffset(z, offset) && RealZone(z) && Settles(z) && IsNextFire(z, s, instant, r)
    ensures r == Shifted(FixedAnswer(s, instant + offset), offset)
  {
    hide RealZone, Settles, IsNextFire, IsNext;
    CalmNextFire(z, s, instant, r);
  }

  /** In a zone without changes the answer is the least wanted minute exactly when there is
      none at all, or the days are not both restricted, or each of the two branches has an
      occurrence up to the horizon; otherwise the call fails. */
  lemma FixedIsExact(z: Zone, offset: int, s: Schedule, instant: int, r: Option<int>, best: Option<int>)
    requires FixedOffset(z, offset) && RealZone(z) && Settles(z) && IsNextFire(z, s, instant, r)
    requires IsNextWanted(s, instant + offset, best)
    ensures var start := instant + offset;
            (r == Shifted(best, offset)) <==>
              (best == None || !BothDaysRestricted(s.fields)
               || (HasMatch(ByDay(s.fields), s, start) && HasMatch(ByWeekday(s.fields), s, start)))
    ensures r == Shifted(best, offset) || r == None
  {
    hide RealZone, Settles, FixedOffset, Matches, InHorizon, IsNextFire;
    FixedNextFire(z, offset, s, instant, r);
    var start := instant + offset;
    SearchFinds(start, ByDay(s.fields), s);
    SearchFinds(start, ByWeekday(s.fields), s);
    var answer := FixedAnswer(s, start);
    if answer.Some? { assert Wanted(s, answer.value); }
  }

  /** Without `#`, `l` and `W` the two branches together are crontab's rule: day of month
      OR day of week. */
  lemma WantedIsEitherDay(s: Schedule, wall: int)
    requires Star !in s.fields.day && Star !in s.fields.dow && s.nth == map[] && s.nearest == {}
    ensures Wanted(s, wall) <==>
              (wall % MINUTE_MS == 0 && MonthOk(s.fields, wall) && HourOk(s.fields, wall) && MinuteOk(s.fields, wall)
               && (DayOk(s.fields, s, wall) || DowOk(s.fields, s, wall)))
  {
    hide CivilOf;
  }

  /** Positions and nearest weekdays stay active in both branches: with positions alone the
      day-of-month list no longer widens the rule, with both the two must agree. */
  lemma WantedWithSpecials(s: Schedule, wall: int)
    requires Star !in s.fields.day && Star !in s.fields.dow && (s.nth != map[] || s.nearest != {})
    ensures Wanted(s, wall) <==>
              (wall % MINUTE_MS == 0 && MonthOk(s.fields, wall) && HourOk(s.fields, wall) && MinuteOk(s.fields, wall)
               && (s.nth != map[] ==> DowOk(s.fields, s, wall)) && (s.nearest != {} ==> DayOk(s.fields, s, wall)))
  {
    hide CivilOf, NthDay, NearestDay;
  }

  /** With a star in either day field the two must agree. */
  lemma WantedWithStar(s: Schedule, wall: int)
    requires Star in s.fields.day || Star in s.fields.dow
    ensures Wanted(s, wall) <==>
              (wall % MINUTE_MS == 0 && MonthOk(s.fields, wall) && HourOk(s.fields, wall) && MinuteOk(s.fields, wall)
               && DayOk(s.fields, s, wall) && DowOk(s.fields, s, wall))
  {
    hide CivilOf, NthDay, NearestDay;
  }

  lemma FixedIsLeastWanted(z: Zone, offset: int, s: Schedule, instant: int, r: Option<int>)
    requires FixedOffset(z, offset) && RealZone(z) && Settles(z) && IsNextFire(z, s, instant, r)
    ensures r.Some? ==>
      && instant < r.value && Wanted(s, r.value + offset)
      && forall v :: instant + offset < v < r.value + offset ==> !Wanted(s, v)
  {
    hide RealZone, Settles, FixedOffset, Matches, InHorizon, IsNextFire;
    FixedNextFire(z, offset, s, instant, r);
  }

  /** In a zone without changes the list holds consecutive wanted minutes, none skipped. */
  lemma FixedChainIsComplete(z: Zone, offset: int, s: Schedule, now: int, dates: seq<int>)
    requires FixedOffset(z, offset) && RealZone(z) && Settles(z) && IsChain(z, s, now, dates)
    ensures forall d :: d in dates ==> Wanted(s, d + offset)
    ensures forall v :: now + offset < v <= CursorOf(now, dates) + offset && Wanted(s, v) ==> v - offset in dates
    decreases |dates|
  {
    hide RealZone, Settles, IsNextFire, Wanted, FixedOffset;
    if dates != [] {
      var rest := dates[..|dates| - 1];
      forall i | 0 <= i < |rest| ensures IsNextFire(z, s, Previous(now, rest, i), Some(rest[i])) {
        assert IsNextFire(z, s, Previous(now, dates, i), Some(dates[i]));
      }
      FixedChainIsComplete(z, offset, s, now, rest);
      assert Previous(now, dates, |rest|) == CursorOf(now, rest);
      FixedIsLeastWanted(z, offset, s, CursorOf(now, rest), Some(dates[|rest|]));
      assert forall d :: d in dates <==> d in rest || d == dates[|rest|];
    }
  }
}
