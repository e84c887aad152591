/** When a later reference has an earlier firing. */
module CronMonotone {
  import opened Basics
  import opened Calendar
  import opened CronSchedule
  import opened CronSearch
  import opened CronZone
  import opened CronFire
  import opened CronChanges

  /** No reference from `a` on is answered with something sooner than `a` itself. */
  ghost predicate NeverOvertaken(z: Zone, s: Schedule, a: int)
    requires RealZone(z) && Settles(z)
  {
    forall b :: a <= b ==> NotSooner(NextFire(z, s, a), NextFire(z, s, b))
  }

  predicate NotSooner(r: Option<int>, q: Option<int>) {
    r.Some? && q.Some? ==> r.value <= q.value
  }

  /** Nothing is due between the reference and its answer. */
  ghost predicate Punctual(z: Zone, s: Schedule, a: int)
    requires RealZone(z) && Settles(z)
  {
    NextFire(z, s, a).Some? ==> forall v :: a < v < NextFire(z, s, a).value ==> !Due(z, s, v)
  }

  /** In every real zone an answer that misses nothing is never overtaken. */
  lemma PunctualIsNeverOvertaken(z: Zone, s: Schedule, a: int)
    requires RealZone(z) && Settles(z) && Recent(a) && Punctual(z, s, a)
    ensures NeverOvertaken(z, s, a)
  {
    hide RealZone, Settles, Due, IsNextFire;
    forall b | a <= b ensures NotSooner(NextFire(z, s, a), NextFire(z, s, b)) {
      NextFireIsLater(z, s, b, NextFire(z, s, b));
    }
  }

  // ----- away from changes -----

  /** In every real zone, for every schedule: with no change of offset shortly before the
      reference or on the way to the first matches ahead, the answer misses nothing. */
  lemma CalmIsPunctual(z: Zone, s: Schedule, a: int)
    requires RealZone(z) && Settles(z) && QuietMinute(z, a) && CalmAhead(z, s, a)
    ensures Punctual(z, s, a)
  {
    hide RealZone, Settles, QuietMinute, IsNextFire, FiresAt, IsFirstMatch, CalmTo, Matches;
    CalmNextFire(z, s, a, NextFire(z, s, a));
    forall v | NextFire(z, s, a).Some? && a < v < NextFire(z, s, a).value ensures !Due(z, s, v) {
      if BothDaysRestricted(s.fields) {
        CalmSearch(z, ByDay(s.fields), s, a, v);
        CalmSearch(z, ByWeekday(s.fields), s, a, v);
      } else {
        CalmSearch(z, s.fields, s, a, v);
      }
    }
  }

  lemma CalmSearch(z: Zone, f: Fields, s: Schedule, a: int, v: int)
    requires RealZone(z) && QuietMinute(z, a) && CalmTo(z, a, f, s)
    requires Search(a + z(a), f, s).Some? && a < v < Search(a + z(a), f, s).value - z(a)
    ensures !FiresAt(z, f, s, v)
  {
    hide RealZone, QuietMinute, FiresAt, IsNext;
    var w := Search(a + z(a), f, s).value;
    assert IsFirstMatch(f, s, a + z(a), w);
    CalmFiresNothing(z, f, s, a, w, v);
  }

  /** Before the first match ahead and the first change nothing fires. */
  lemma CalmFiresNothing(z: Zone, f: Fields, s: Schedule, a: int, w: int, v: int)
    requires RealZone(z) && QuietMinute(z, a) && IsFirstMatch(f, s, a + z(a), w) && Calm(z, a, v)
    requires a < v && v + z(a) < w
    ensures !FiresAt(z, f, s, v)
  {
    hide RealZone, QuietMinute, Matches, IsMoved, Exists, IsFirst, IsFirstMatch;
    FirstMatchFacts(f, s, a + z(a), w);
    assert z(v) == z(a);
    if FiresAt(z, f, s, v) {
      var y :| Matches(f, s, y) && !Exists(z, y) && IsMoved(z, y, v + z(v));
      WholeMinute(f, s, y);
      MovedWhole(z, y, v + z(v));
      OldGap(z, a, y, v);
      assert false;
    }
  }

  /** Where the clock never changes, no answer misses anything. */
  lemma FixedIsPunctual(z: Zone, offset: int, s: Schedule, a: int)
    requires FixedOffset(z, offset) && RealZone(z) && Settles(z)
    ensures Punctual(z, s, a)
  {
    hide RealZone, Settles, Punctual, IsNext;
    CalmIsPunctual(z, s, a);
  }

  // ----- with unrestricted days -----

  lemma UnrestrictedAware(z: Zone, s: Schedule, a: int) returns (m: Option<Moment>)
    requires RealZone(z) && Settles(z) && !BothDaysRestricted(s.fields)
    ensures IsAware(z, ClockAt(z, a), s.fields, s, m) && NextFire(z, s, a) == InstantOf(m)
  {
    hide RealZone, Settles, IsAware;
    assert IsNextFire(z, s, a, NextFire(z, s, a));
    m :| IsAware(z, ClockAt(z, a), s.fields, s, m) && NextFire(z, s, a) == InstantOf(m);
  }

  /** From just before it, every match the clock shows is found, unless the offset changes at
      that very instant. */
  lemma MissedIsFound(z: Zone, s: Schedule, u: int)
    requires RealZone(z) && Settles(z) && !BothDaysRestricted(s.fields)
    requires Matches(s.fields, s, u + z(u)) && z(u - 1) == z(u)
    ensures NextFire(z, s, u - 1) == Some(u)
  {
    hide RealZone, Settles, IsNextFire, IsNext, Matches;
    var f, start := s.fields, u - 1 + z(u);
    NextIsHere(f, s, start);
    SearchUnique(start, f, s, Search(start, f, s), Some(start + 1));
    forall w | IsNext(start, f, s, Some(w)) ensures w == start + 1 {
      SearchUnique(start, f, s, Some(w), Some(start + 1));
    }
    assert Calm(z, u - 1, u);
    CalmNextFire(z, s, u - 1, NextFire(z, s, u - 1));
  }

  lemma NextIsHere(f: Fields, s: Schedule, start: int)
    requires Matches(f, s, start + 1)
    ensures IsNext(start, f, s, Some(start + 1))
  {
    hide Matches, YearOf;
    WholeMinute(f, s, start + 1);
    assert NextMinute(start) == start + 1;
  }

  lemma HereIsFirst(f: Fields, s: Schedule, start: int)
    requires Matches(f, s, start + 1)
    ensures IsFirstMatch(f, s, start, start + 1)
  {
    hide Matches;
    NextIsHere(f, s, start);
  }

  /** A match missed away from changes is found from a later reference. */
  lemma MissedOvertakes(z: Zone, s: Schedule, a: int, u: int)
    requires RealZone(z) && Settles(z) && !BothDaysRestricted(s.fields)
    requires NextFire(z, s, a).Some? && a < u < NextFire(z, s, a).value
    requires Matches(s.fields, s, u + z(u)) && z(u - 1) == z(u)
    ensures !NeverOvertaken(z, s, a)
  {
    hide RealZone, Settles, IsNextFire, Matches;
    MissedIsFound(z, s, u);
    assert !NotSooner(NextFire(z, s, a), NextFire(z, s, u - 1));
  }

  lemma Overtaken(z: Zone, s: Schedule, a: int, b: int)
    requires RealZone(z) && Settles(z) && a <= b && !NotSooner(NextFire(z, s, a), NextFire(z, s, b))
    ensures !NeverOvertaken(z, s, a)
  {}

  lemma ByAll(z: Zone, s: Schedule, a: int)
    requires RealZone(z) && Settles(z) && forall b :: a <= b ==> NotSooner(NextFire(z, s, a), NextFire(z, s, b))
    ensures NeverOvertaken(z, s, a)
  {}

  /** A first match stays the first from later on, before it. */
  lemma FirstMatchLater(f: Fields, s: Schedule, start: int, later: int, w: int)
    requires IsFirstMatch(f, s, start, w) && start <= later < w
    ensures IsFirstMatch(f, s, later, w)
  {
    hide Matches, InHorizon;
    LaterHorizon(start, later, w);
  }

  lemma TurnsLater(z: Zone, a: int, t: int, b: int)
    requires Turns(z, a, t) && a <= b < t
    ensures Turns(z, b, t) && z(b) == z(a)
  {}

  /** Before the change the hypotheses hold on. */
  lemma AcrossLater(z: Zone, f: Fields, s: Schedule, a: int, t: int, w: int, e: int, i: int, b: int)
    requires Across(z, f, s, a, t, w, e, i) && a <= b < t <= i && z(t) < z(a)
    ensures Across(z, f, s, b, t, w, e, i) && z(b) == z(a)
  {
    hide IsFirstMatch, Turns, Lands, Exists;
    TurnsLater(z, a, t, b);
    FirstMatchLater(f, s, a + z(a), b + z(b), w);
  }

  // ----- across a change: the first match exists, or is moved to the end of its gap -----

  /** `nextFireAfter` across a fall: exactly when it answers with the earliest match the clock
      shows. */
  lemma NextFireAcrossFall(z: Zone, s: Schedule, a: int, t: int, w: int, i: int, x: int)
    requires RealZone(z) && Settles(z) && !BothDaysRestricted(s.fields) && Falls(z, a, t)
    requires IsFirstMatch(s.fields, s, a + z(a), w) && t + z(a) <= w && IsFirst(z, i, w) && a < i
    requires SearchesAgain(z, s.fields, s, a, z(i), x)
    ensures NextFire(z, s, a).Some?
    ensures IsEarliest(z, s.fields, s, a, NextFire(z, s, a).value)
        <==> (Repeats(z, s.fields, s, a, t) ==> SecondSearchFits(z, s.fields, s, a, t, z(i)))
  {
    hide RealZone, Settles, Matches, InHorizon, IsAware, Falls, Quiet, IsEarliest, IsFirst, IsFirstMatch, IsNextFire;
    hide Repeats, SecondSearchFits;
    var m := UnrestrictedAware(z, s, a);
    EarliestAcrossFall(z, s.fields, s, a, t, w, i, x, m);
  }

  /** Across any change: exactly when it misses nothing. */
  lemma PunctualAcrossChange(z: Zone, s: Schedule, a: int, t: int, w: int, e: int, i: int, x: int)
    requires RealZone(z) && Settles(z) && !BothDaysRestricted(s.fields) && QuietMinute(z, a)
    requires Across(z, s.fields, s, a, t, w, e, i) && SearchesAgain(z, s.fields, s, a, z(i), x)
    ensures NextFire(z, s, a).Some? && a < NextFire(z, s, a).value <= i
    ensures Punctual(z, s, a) <==> (Repeats(z, s.fields, s, a, t) ==> SecondSearchFits(z, s.fields, s, a, t, z(i)))
  {
    hide RealZone, Settles, IsAware, QuietMinute, Across, SearchesAgain, IsNextFire, Repeats, SecondSearchFits, FiresAt;
    hide Punctual, IsEarliestFiring, NoneBefore;
    var m := UnrestrictedAware(z, s, a);
    EarliestAcrossChange(z, s.fields, s, a, t, w, e, i, x, m);
    NothingMissedAcross(z, s.fields, s, a, t, w, e, i, x, m);
    PunctualIsEarliest(z, s, a);
  }

  lemma PunctualIsEarliest(z: Zone, s: Schedule, a: int)
    requires RealZone(z) && Settles(z) && !BothDaysRestricted(s.fields) && NextFire(z, s, a).Some?
    requires a < NextFire(z, s, a).value && FiresAt(z, s.fields, s, NextFire(z, s, a).value)
    ensures Punctual(z, s, a) <==> IsEarliestFiring(z, s.fields, s, a, NextFire(z, s, a).value)
  {
    hide RealZone, Settles, IsNextFire, FiresAt;
    forall v ensures Due(z, s, v) <==> FiresAt(z, s.fields, s, v) {}
  }

  /** A match missed after a fall lies in the second passage. */
  lemma MissedAfterFall(z: Zone, f: Fields, s: Schedule, a: int, t: int, w: int, e: int, i: int, u: int)
    returns (v: int)
    requires RealZone(z) && Ahead(z, f, s, a, t, w, e, i) && u <= i && !NoneBefore(z, f, s, a, u)
    ensures a < v < u && Matches(f, s, v + z(v)) && t <= v && v + z(t) <= a + z(a) && z(v) == z(t)
    ensures v == t || z(v - 1) == z(v)
  {
    hide RealZone, Matches, InHorizon, IsFirst, Unseen, Turns, IsFirstMatch, Ahead;
    v :| a < v < u && Matches(f, s, v + z(v));
    DueBefore(z, f, s, a, t, w, e, i, v);
    if v > t {
      OffsetsApart(z, a, t);
      AheadTurns(z, f, s, a, t, w, e, i);
      TurnsBefore(z, a, t);
      OffsetAfter(z, a, t, v - 1);
    }
  }

  /** Just before the change, its own instant is found when it shows a match and the second
      search is made from the offset after it. */
  lemma FallItselfIsFound(z: Zone, s: Schedule, a: int, t: int, w: int, e: int, i: int)
    requires RealZone(z) && Settles(z) && !BothDaysRestricted(s.fields) && t + z(t) <= a + z(a)
    requires Across(z, s.fields, s, a, t, w, e, i) && a < t <= i && z(i) == z(t) && z(t) < z(a) && Quiet(z, a, z(t))
    requires Matches(s.fields, s, t + z(t))
    ensures NextFire(z, s, t - 1) == Some(t)
  {
    hide RealZone, Settles, Matches, InHorizon, IsNextFire, IsAware, IsFirst, IsFirstMatch, Across;
    var b := t - 1;
    AcrossLater(z, s.fields, s, a, t, w, e, i, b);
    AcrossTurns(z, s.fields, s, a, t, w, e, i);
    HereIsFirst(s.fields, s, b + z(t));
    var m := UnrestrictedAware(z, s, b);
    AcrossAnswer(z, s.fields, s, b, t, w, e, i, t + z(t), m);
  }

  lemma AcrossTurns(z: Zone, f: Fields, s: Schedule, a: int, t: int, w: int, e: int, i: int)
    requires Across(z, f, s, a, t, w, e, i)
    ensures Turns(z, a, t) && IsFirstMatch(f, s, a + z(a), w) && a < t && a < i
    ensures forall v :: a <= v < t ==> z(v) == z(a)
  {}

  /** The first match ahead lands after a change back. */
  lemma LandsAfterFall(z: Zone, f: Fields, s: Schedule, a: int, t: int, w: int, e: int, i: int)
    requires RealZone(z) && Across(z, f, s, a, t, w, e, i) && z(t) < z(a)
    ensures a < t <= i
  {
    hide RealZone, Exists, IsMoved;
    AcrossIsAhead(z, f, s, a, t, w, e, i);
    if i < t { OnceOffset(z, e, i); }
  }

  /** With the first match ahead at the offset after the fall, a reference is never overtaken
      exactly when its answer misses nothing: no match is repeated, or none lies between the
      start of the second search and the first repeated wall. */
  lemma FallAndStayMonotone(z: Zone, s: Schedule, a: int, t: int, w: int, e: int, i: int, x: int)
    requires RealZone(z) && Settles(z) && Recent(a) && !BothDaysRestricted(s.fields) && QuietMinute(z, a)
    requires Across(z, s.fields, s, a, t, w, e, i) && z(i) == z(t) && z(t) < z(a) && Quiet(z, a, z(t))
    requires IsFirstMatch(s.fields, s, a + z(t), x)
    ensures NeverOvertaken(z, s, a)
        <==> (Repeats(z, s.fields, s, a, t) ==> forall y :: a + z(t) < y < t + z(t) ==> !Matches(s.fields, s, y))
  {
    hide RealZone, Settles, Matches, InHorizon, IsAware, Turns, Quiet, QuietMinute, IsFirstMatch, IsNextFire, Ahead;
    hide NeverOvertaken, Punctual, Repeats, SecondSearchFits, Across, NoneBefore;
    var f := s.fields;
    var m := UnrestrictedAware(z, s, a);
    LandsAfterFall(z, f, s, a, t, w, e, i);
    PunctualAcrossChange(z, s, a, t, w, e, i, x);
    FitsAfterChange(z, f, s, a, t);
    if Punctual(z, s, a) {
      PunctualIsNeverOvertaken(z, s, a);
    } else {
      NothingMissedAcross(z, f, s, a, t, w, e, i, x, m);
      AcrossIsAhead(z, f, s, a, t, w, e, i);
      var v := MissedAfterFall(z, f, s, a, t, w, e, i, m.value.instant);
      if v == t {
        FallItselfIsFound(z, s, a, t, w, e, i);
        Overtaken(z, s, a, t - 1);
      } else {
        MissedOvertakes(z, s, a, v);
      }
    }
  }

  /** With the first match ahead at the offset of now again, there is no second search, and a
      reference is never overtaken exactly when no match is repeated after the change itself. */
  lemma FallAndReturnMonotone(z: Zone, s: Schedule, a: int, t: int, w: int, e: int, i: int)
    requires RealZone(z) && Settles(z) && Recent(a) && !BothDaysRestricted(s.fields) && QuietMinute(z, a)
    requires Across(z, s.fields, s, a, t, w, e, i) && z(i) == z(a) && z(t) < z(a)
    ensures NeverOvertaken(z, s, a) <==> forall m :: t + z(t) < m <= a + z(a) ==> !Matches(s.fields, s, m)
  {
    hide RealZone, Settles, Matches, InHorizon, Turns, QuietMinute, IsFirstMatch, IsNextFire, NeverOvertaken, Across;
    hide Ahead;
    ReturnAnswer(z, s, a, t, w, e, i);
    if m :| t + z(t) < m <= a + z(a) && Matches(s.fields, s, m) {
      AcrossIsAhead(z, s.fields, s, a, t, w, e, i);
      RepeatOvertakes(z, s, a, t, w, e, i, m);
    } else {
      forall b | a <= b ensures NotSooner(NextFire(z, s, a), NextFire(z, s, b)) {
        ReturnNotOvertaken(z, s, a, t, w, e, i, b);
      }
      ByAll(z, s, a);
    }
  }

  /** A match repeated after the change itself overtakes an answer past all of them. */
  lemma RepeatOvertakes(z: Zone, s: Schedule, a: int, t: int, w: int, e: int, i: int, m: int)
    requires RealZone(z) && Settles(z) && !BothDaysRestricted(s.fields) && Ahead(z, s.fields, s, a, t, w, e, i)
    requires NextFire(z, s, a) == Some(i) && t + z(t) < m <= a + z(a) && Matches(s.fields, s, m)
    ensures !NeverOvertaken(z, s, a)
  {
    hide RealZone, Settles, Matches, Turns, IsFirstMatch, IsNextFire, NeverOvertaken, Ahead;
    RepeatIsDue(z, s.fields, s, a, t, w, e, i, m);
    AheadTurns(z, s.fields, s, a, t, w, e, i);
    TurnsBefore(z, a, t);
    OffsetsApart(z, a, t);
    OffsetAfter(z, a, t, m - z(t) - 1);
    MissedOvertakes(z, s, a, m - z(t));
  }

  lemma ReturnAnswer(z: Zone, s: Schedule, a: int, t: int, w: int, e: int, i: int)
    requires RealZone(z) && Settles(z) && !BothDaysRestricted(s.fields)
    requires Across(z, s.fields, s, a, t, w, e, i) && z(i) == z(a)
    ensures NextFire(z, s, a) == Some(i)
  {
    hide RealZone, Settles, IsAware, IsNextFire, Across;
    var m := UnrestrictedAware(z, s, a);
    AcrossAnswer(z, s.fields, s, a, t, w, e, i, w, m);
  }

  lemma ReturnNotOvertaken(z: Zone, s: Schedule, a: int, t: int, w: int, e: int, i: int, b: int)
    requires RealZone(z) && Settles(z) && Recent(a) && !BothDaysRestricted(s.fields) && QuietMinute(z, a)
    requires Across(z, s.fields, s, a, t, w, e, i) && z(i) == z(a) && z(t) < z(a)
    requires forall m :: t + z(t) < m <= a + z(a) ==> !Matches(s.fields, s, m)
    requires a <= b
    ensures NotSooner(NextFire(z, s, a), NextFire(z, s, b))
  {
    hide RealZone, Settles, Matches, InHorizon, Turns, QuietMinute, IsFirstMatch, IsNextFire, FiresAt, Across, Ahead;
    var f, q := s.fields, NextFire(z, s, b);
    ReturnAnswer(z, s, a, t, w, e, i);
    NextFireIsLater(z, s, b, q);
    if q.Some? && q.value < i {
      AcrossIsAhead(z, f, s, a, t, w, e, i);
      AcrossTurns(z, f, s, a, t, w, e, i);
      OnlyMatchesFire(z, f, s, a, w, i, q.value);
      DueBefore(z, f, s, a, t, w, e, i, q.value);
      LandsAfterFall(z, f, s, a, t, w, e, i);
      AcrossLater(z, f, s, a, t, w, e, i, b);
      ReturnAnswer(z, s, b, t, w, e, i);
      assert false;
    }
  }

  /** Across a rise no later reference fires sooner, whether the first match ahead exists or is
      moved to the end of its gap. */
  lemma RiseMonotone(z: Zone, s: Schedule, a: int, t: int, w: int, e: int, i: int, x: int)
    requires RealZone(z) && Settles(z) && Recent(a) && !BothDaysRestricted(s.fields) && QuietMinute(z, a)
    requires Across(z, s.fields, s, a, t, w, e, i) && z(t) > z(a) && SearchesAgain(z, s.fields, s, a, z(i), x)
    ensures Punctual(z, s, a) && NeverOvertaken(z, s, a)
  {
    hide RealZone, Settles, QuietMinute, Across, SearchesAgain, IsNextFire, Repeats, SecondSearchFits;
    hide Punctual, NeverOvertaken;
    PunctualAcrossChange(z, s, a, t, w, e, i, x);
    assert a < t by { AcrossTurns(z, s.fields, s, a, t, w, e, i); }
    RiseRepeatsNothing(z, s.fields, s, a, t);
    PunctualIsNeverOvertaken(z, s, a);
  }

  // ----- both day fields restricted -----

  /** When each branch is answered with its earliest match, the sooner wall time is the earliest of
      the two exactly when it is not the later instant. */
  lemma EitherIsEarliest(z: Zone, s: Schedule, a: int, d: Moment, w: Moment)
    requires IsEarliest(z, ByDay(s.fields), s, a, d.instant) && IsEarliest(z, ByWeekday(s.fields), s, a, w.instant)
    ensures var u := Sooner(Some(d), Some(w)).value;
            NoneBefore(z, ByDay(s.fields), s, a, u) && NoneBefore(z, ByWeekday(s.fields), s, a, u)
            <==> (if d.wall < w.wall then d.instant <= w.instant else w.instant <= d.instant)
  {
    hide Matches;
  }

  lemma BothAware(z: Zone, s: Schedule, a: int) returns (d: Option<Moment>, w: Option<Moment>)
    requires RealZone(z) && Settles(z) && BothDaysRestricted(s.fields)
    ensures IsAware(z, ClockAt(z, a), ByDay(s.fields), s, d)
    ensures IsAware(z, ClockAt(z, a), ByWeekday(s.fields), s, w) && NextFire(z, s, a) == Sooner(d, w)
  {
    hide RealZone, Settles, IsAware;
    assert IsNextFire(z, s, a, NextFire(z, s, a));
    d :| IsAware(z, ClockAt(z, a), ByDay(s.fields), s, d) &&
      if d == None then NextFire(z, s, a) == None
      else exists w :: IsAware(z, ClockAt(z, a), ByWeekday(s.fields), s, w) && NextFire(z, s, a) == Sooner(d, w);
    if d == None {
      w := AwareExists(z, ClockAt(z, a), ByWeekday(s.fields), s);
    } else {
      w :| IsAware(z, ClockAt(z, a), ByWeekday(s.fields), s, w) && NextFire(z, s, a) == Sooner(d, w);
    }
  }

  /** Across the same change the answer with the sooner wall time comes at the sooner instant. */
  lemma AnswersInOrder(z: Zone, s: Schedule, a: int, t: int,
                       f: Fields, w: int, e: int, i: int, x: int, r: Option<Moment>,
                       f': Fields, w': int, e': int, i': int, x': int, r': Option<Moment>)
    requires RealZone(z) && Ahead(z, f, s, a, t, w, e, i) && Ahead(z, f', s, a, t, w', e', i')
    requires IsAnswer(z, a, t, e, i, x, r) && IsAnswer(z, a, t, e', i', x', r')
    ensures r.Some? && r'.Some? && (r.value.wall <= r'.value.wall ==> r.value.instant <= r'.value.instant)
  {
    hide RealZone, Turns, Unseen, IsFirst, Matches, InHorizon;
    if Finds(z, a, t, z(i), x) && !Finds(z, a, t, z(i'), x') {
      RepeatIsDue(z, f', s, a, t, w', e', i', x);
    }
    if i' < i { EarlierBefore(z, e, i, i'); }
    OnceOffset(z, e', i');
  }

  /** Up to an answer no later than the first one, exactly the repeated matches can be missed. */
  lemma MissedRepeats(z: Zone, f: Fields, s: Schedule, a: int, t: int, w: int, e: int, i: int, u: int)
    requires RealZone(z) && Ahead(z, f, s, a, t, w, e, i) && u <= i
    ensures NoneBefore(z, f, s, a, u)
        <==> forall m :: t + z(t) <= m <= a + z(a) && Matches(f, s, m) ==> u <= m - z(t)
  {
    hide RealZone, Matches, Ahead;
    if NoneBefore(z, f, s, a, u) {
      forall m | t + z(t) <= m <= a + z(a) && Matches(f, s, m) ensures u <= m - z(t) {
        RepeatIsDue(z, f, s, a, t, w, e, i, m);
        assert Matches(f, s, (m - z(t)) + z(m - z(t)));
      }
    } else {
      var v :| a < v < u && Matches(f, s, v + z(v));
      DueBefore(z, f, s, a, t, w, e, i, v);
    }
  }

  /** A second search finds a repeated match, and none later than `m`. */
  predicate FindsBy(z: Zone, a: int, t: int, offset: int, x: int, m: int) {
    Finds(z, a, t, offset, x) && x <= m
  }

  /** A repeated match comes no sooner than the answer exactly when the second search finds it or
      an earlier one. */
  lemma FoundBefore(z: Zone, f: Fields, s: Schedule, a: int, t: int, w: int, e: int, i: int, x: int, r: Option<Moment>,
                    m: int)
    requires RealZone(z) && Ahead(z, f, s, a, t, w, e, i) && IsAnswer(z, a, t, e, i, x, r)
    requires t + z(t) <= m <= a + z(a)
    ensures r.Some? && (r.value.instant <= m - z(t) <==> FindsBy(z, a, t, z(i), x, m))
  {
    hide RealZone, Ahead;
    RepeatIsDue(z, f, s, a, t, w, e, i, m);
  }

  lemma BothAnswers(z: Zone, s: Schedule, a: int, t: int,
                    f: Fields, w: int, e: int, i: int, x: int, r: Option<Moment>,
                    f': Fields, w': int, e': int, i': int, x': int, r': Option<Moment>, u: Option<int>)
    requires RealZone(z) && Ahead(z, f, s, a, t, w, e, i) && Ahead(z, f', s, a, t, w', e', i')
    requires IsAnswer(z, a, t, e, i, x, r) && IsAnswer(z, a, t, e', i', x', r') && u == Sooner(r, r')
    ensures u.Some? && r.Some? && r'.Some? && u.value <= r.value.instant && u.value <= r'.value.instant
    ensures forall m :: t + z(t) <= m <= a + z(a) ==>
      (u.value <= m - z(t) <==> FindsBy(z, a, t, z(i), x, m) || FindsBy(z, a, t, z(i'), x', m))
  {
    hide RealZone, Ahead, FindsBy, IsAnswer;
    AnswersInOrder(z, s, a, t, f, w, e, i, x, r, f', w', e', i', x', r');
    AnswersInOrder(z, s, a, t, f', w', e', i', x', r', f, w, e, i, x, r);
    forall m | t + z(t) <= m <= a + z(a)
      ensures u.value <= m - z(t) <==> FindsBy(z, a, t, z(i), x, m) || FindsBy(z, a, t, z(i'), x', m)
    {
      FoundBefore(z, f, s, a, t, w, e, i, x, r, m);
      FoundBefore(z, f', s, a, t, w', e', i', x', r', m);
    }
  }

  /** With both day fields restricted and both first matches past the same change, an answer
      misses nothing exactly when every match of either kind that is repeated comes no earlier
      than a repeated one that a second search finds. */
  lemma BothDaysAcrossChange(z: Zone, s: Schedule, a: int, t: int,
                             wd: int, ed: int, id: int, xd: int, ww: int, ew: int, iw: int, xw: int)
    requires RealZone(z) && Settles(z) && BothDaysRestricted(s.fields) && QuietMinute(z, a)
    requires Across(z, ByDay(s.fields), s, a, t, wd, ed, id) && SearchesAgain(z, ByDay(s.fields), s, a, z(id), xd)
    requires Across(z, ByWeekday(s.fields), s, a, t, ww, ew, iw)
    requires SearchesAgain(z, ByWeekday(s.fields), s, a, z(iw), xw)
    ensures NextFire(z, s, a).Some?
    ensures Punctual(z, s, a)
        <==> forall m :: t + z(t) <= m <= a + z(a) && Wanted(s, m) ==>
               FindsBy(z, a, t, z(id), xd, m) || FindsBy(z, a, t, z(iw), xw, m)
  {
    hide RealZone, Settles, QuietMinute, Across, SearchesAgain, IsNextFire, IsAware, Ahead, FiresAt, Matches, Hidden;
    hide FindsBy, IsAnswer, Punctual, NoneBefore, Turns, IsFirstMatch;
    var f, g := ByDay(s.fields), ByWeekday(s.fields);
    var d, w := BothAware(z, s, a);
    AcrossAnswer(z, f, s, a, t, wd, ed, id, xd, d);
    AcrossAnswer(z, g, s, a, t, ww, ew, iw, xw, w);
    AcrossIsAhead(z, f, s, a, t, wd, ed, id);
    AcrossIsAhead(z, g, s, a, t, ww, ew, iw);
    BothAnswers(z, s, a, t, f, wd, ed, id, xd, d, g, ww, ew, iw, xw, w, NextFire(z, s, a));
    NothingMissedAcross(z, f, s, a, t, wd, ed, id, xd, d);
    NothingMissedAcross(z, g, s, a, t, ww, ew, iw, xw, w);
    BothMissed(z, s, a, t, wd, ed, id, ww, ew, iw, NextFire(z, s, a).value);
  }

  lemma BothMissed(z: Zone, s: Schedule, a: int, t: int,
                   wd: int, ed: int, id: int, ww: int, ew: int, iw: int, u: int)
    requires RealZone(z) && Settles(z) && BothDaysRestricted(s.fields) && QuietMinute(z, a)
    requires Ahead(z, ByDay(s.fields), s, a, t, wd, ed, id) && Hidden(z, wd, id)
    requires Ahead(z, ByWeekday(s.fields), s, a, t, ww, ew, iw) && Hidden(z, ww, iw)
    requires NextFire(z, s, a) == Some(u) && u <= id && u <= iw
    ensures Punctual(z, s, a) <==> forall m :: t + z(t) <= m <= a + z(a) && Wanted(s, m) ==> u <= m - z(t)
  {
    hide RealZone, Settles, QuietMinute, IsNextFire, Ahead, Matches, Hidden, Punctual, NoneBefore, Turns, IsFirstMatch;
    var f, g := ByDay(s.fields), ByWeekday(s.fields);
    AheadTurns(z, f, s, a, t, wd, ed, id);
    AheadTurns(z, g, s, a, t, ww, ew, iw);
    BothPunctual(z, s, a, wd, id, ww, iw, u);
    MissedRepeats(z, f, s, a, t, wd, ed, id, u);
    MissedRepeats(z, g, s, a, t, ww, ew, iw, u);
    assert forall m :: Wanted(s, m) <==> Matches(f, s, m) || Matches(g, s, m);
  }

  lemma BothPunctual(z: Zone, s: Schedule, a: int, wd: int, id: int, ww: int, iw: int, u: int)
    requires RealZone(z) && Settles(z) && BothDaysRestricted(s.fields) && QuietMinute(z, a)
    requires IsFirstMatch(ByDay(s.fields), s, a + z(a), wd) && Hidden(z, wd, id)
    requires IsFirstMatch(ByWeekday(s.fields), s, a + z(a), ww) && Hidden(z, ww, iw)
    requires NextFire(z, s, a) == Some(u) && u <= id && u <= iw
    ensures Punctual(z, s, a)
        <==> NoneBefore(z, ByDay(s.fields), s, a, u) && NoneBefore(z, ByWeekday(s.fields), s, a, u)
  {
    hide RealZone, Settles, QuietMinute, IsNextFire, IsFirstMatch, Hidden, Matches, FiresAt;
    var f, g := ByDay(s.fields), ByWeekday(s.fields);
    forall v | a < v < u
      ensures Due(z, s, v) <==> Matches(f, s, v + z(v)) || Matches(g, s, v + z(v))
    {
      MatchFires(z, f, s, v);
      MatchFires(z, g, s, v);
      if FiresAt(z, f, s, v) { OnlyMatchesFire(z, f, s, a, wd, id, v); }
      if FiresAt(z, g, s, v) { OnlyMatchesFire(z, g, s, a, ww, iw, v); }
    }
  }

  lemma MatchFires(z: Zone, f: Fields, s: Schedule, v: int)
    ensures Matches(f, s, v + z(v)) ==> FiresAt(z, f, s, v)
  {
    hide Matches;
  }

  /** With only one of the first matches past the change, the other one is answered, and nothing
      missed, exactly when no repeated match is found: that one would be preferred for its wall
      time although it comes later. */
  lemma OneDayAcrossChange(z: Zone, s: Schedule, f: Fields, g: Fields, a: int, t: int, v: int,
                           w: int, e: int, i: int, x: int)
    requires RealZone(z) && Settles(z) && BothDaysRestricted(s.fields) && QuietMinute(z, a)
    requires (f, g) == (ByDay(s.fields), ByWeekday(s.fields)) || (g, f) == (ByDay(s.fields), ByWeekday(s.fields))
    requires IsFirstMatch(f, s, a + z(a), v) && v < t + z(a) <= w
    requires Across(z, g, s, a, t, w, e, i) && SearchesAgain(z, g, s, a, z(i), x)
    ensures NextFire(z, s, a) == Some(if Finds(z, a, t, z(i), x) then x - z(t) else v - z(a))
    ensures Punctual(z, s, a) <==> !Finds(z, a, t, z(i), x)
  {
    hide RealZone, Settles, QuietMinute, Across, SearchesAgain, IsNextFire, IsAware, FiresAt, Matches, IsFirstMatch;
    hide NoneBefore, Turns, Ahead;
    var day, weekday := BothAware(z, s, a);
    var p, q := if f == ByDay(s.fields) then day else weekday, if f == ByDay(s.fields) then weekday else day;
    AcrossTurns(z, g, s, a, t, w, e, i);
    FirstMatchFacts(f, s, a + z(a), v);
    EarliestBeforeChange(z, f, s, a, t, v, p);
    AcrossAnswer(z, g, s, a, t, w, e, i, x, q);
    if Finds(z, a, t, z(i), x) {
      SecondPassage(z, a, t, x);
      MatchFires(z, f, s, v - z(a));
      assert Due(z, s, v - z(a));
    } else {
      AcrossIsAhead(z, g, s, a, t, w, e, i);
      assert w <= e by { AheadTurns(z, g, s, a, t, w, e, i); }
      forall u | a < u < v - z(a) ensures !Due(z, s, u) {
        CalmFiresNothing(z, f, s, a, v, u);
        CalmFiresNothing(z, g, s, a, w, u);
      }
    }
  }

  // ----- the first match ahead lies in a gap, and every hour is allowed -----

  /** Before the first match after the gap nothing fires but matches and the end of the gap. */
  lemma FiresPastGap(z: Zone, f: Fields, s: Schedule, a: int, t: int, g: int, e: int, y: int, w: int, v: int)
    requires RealZone(z) && Turns(z, a, t) && t <= g && QuietMinute(z, a) && PastGap(z, f, s, g, e, y, w)
    requires IsFirstMatch(f, s, a + z(a), y) && a < v < w - z(g) && FiresAt(z, f, s, v)
    ensures Matches(f, s, v + z(v)) || v == e - z(g)
  {
    hide RealZone, Matches, InHorizon, Turns, IsFirstMatch, IsFirst, IsGapEnd, QuietMinute, IsMoved, Exists;
    if !Matches(f, s, v + z(v)) {
      var skipped :| Matches(f, s, skipped) && !Exists(z, skipped) && IsMoved(z, skipped, v + z(v));
      WholeMinute(f, s, skipped);
      MovedWhole(z, skipped, v + z(v));
      EarlierBefore(z, w, w - z(g), v);
      FirstMatchFacts(f, s, a + z(a), y);
      PastGapFacts(z, f, s, g, e, y, w);
      if skipped <= a + z(a) {
        OldGap(z, a, skipped, v);
      } else {
        MovedToGapEnd(z, g, e, skipped, v + z(v));
        GapEndOnce(z, g, e, v);
      }
    }
  }

  lemma GapEndOnce(z: Zone, g: int, e: int, v: int)
    requires RealZone(z) && Skips(z, g) && IsGapEnd(z, g, e) && IsFirst(z, v, v + z(v)) && v + z(v) == e
    ensures v == e - z(g)
  {
    hide RealZone;
    AfterRise(z, g, e);
  }

  /** When the next change skips the first match ahead, no later reference fires sooner. */
  lemma GapEveryHourMonotone(z: Zone, s: Schedule, a: int, t: int, e: int, y: int, w: int, x: int)
    requires RealZone(z) && Settles(z) && Recent(a) && !BothDaysRestricted(s.fields) && QuietMinute(z, a)
    requires Rises(z, a, t) && PastGap(z, s.fields, s, t, e, y, w) && IsFirstMatch(s.fields, s, a + z(a), y)
    requires Star in s.fields.hour && IsFirstMatch(s.fields, s, a + z(t), x)
    ensures NeverOvertaken(z, s, a)
  {
    hide RealZone, Settles, PastGap, Turns, IsFirstMatch, IsNextFire, QuietMinute, NotSooner;
    forall b | a <= b ensures NotSooner(NextFire(z, s, a), NextFire(z, s, b)) {
      GapNotOvertaken(z, s, a, t, e, y, w, x, b);
    }
  }

  lemma GapNotOvertaken(z: Zone, s: Schedule, a: int, t: int, e: int, y: int, w: int, x: int, b: int)
    requires RealZone(z) && Settles(z) && Recent(a) && !BothDaysRestricted(s.fields) && QuietMinute(z, a)
    requires Rises(z, a, t) && PastGap(z, s.fields, s, t, e, y, w) && IsFirstMatch(s.fields, s, a + z(a), y)
    requires Star in s.fields.hour && IsFirstMatch(s.fields, s, a + z(t), x) && a <= b
    ensures NotSooner(NextFire(z, s, a), NextFire(z, s, b))
  {
    hide RealZone, Settles, Matches, InHorizon, IsAware, Turns, IsFirstMatch, IsNextFire, FiresAt, QuietMinute, PastGap;
    hide Ahead, Repeats;
    var f, q := s.fields, NextFire(z, s, b);
    var m := UnrestrictedAware(z, s, a);
    RiseSkips(z, a, t);
    GapAnswer(z, f, s, a, t, t, e, y, w, x, m);
    PastGapFacts(z, f, s, t, e, y, w);
    NextFireIsLater(z, s, b, q);
    if q.Some? && q.value < m.value.instant {
      FiresPastGap(z, f, s, a, t, t, e, y, w, q.value);
      if q.value == e - z(t) {
        LaterPastGap(z, s, a, t, e, y, w, x, b);
      } else {
        UnseenPastGap(z, f, s, a, t, t, e, y, w);
        DueBefore(z, f, s, a, t, y, w, w - z(t), q.value);
      }
      assert false;
    }
  }

  /** From a later reference the gap's end is not answered either. */
  lemma LaterPastGap(z: Zone, s: Schedule, a: int, t: int, e: int, y: int, w: int, x: int, b: int)
    requires RealZone(z) && Settles(z) && !BothDaysRestricted(s.fields)
    requires Rises(z, a, t) && PastGap(z, s.fields, s, t, e, y, w) && IsFirstMatch(s.fields, s, a + z(a), y)
    requires Star in s.fields.hour && IsFirstMatch(s.fields, s, a + z(t), x) && !Skipped(z, t, x)
    requires a <= b < e - z(t)
    ensures NextFire(z, s, b) == Some(w - z(t))
  {
    hide RealZone, Settles, Matches, InHorizon, IsAware, Turns, IsFirstMatch, IsNextFire, PastGap;
    var f, p := s.fields, z(t);
    var m := UnrestrictedAware(z, s, b);
    RiseSkips(z, a, t);
    TurnsBefore(z, a, t);
    PastGapFacts(z, f, s, t, e, y, w);
    PastGapSkips(z, f, s, t, e, y, w);
    SecondMatch(f, s, a + z(a), a + p, y, x);
    FirstMatchFacts(f, s, a + p, x);
    FirstMatchFacts(f, s, a + z(a), y);
    assert x == w;
    if b < t {
      TurnsLater(z, a, t, b);
      FirstMatchLater(f, s, a + z(a), b + z(b), y);
      FirstMatchLater(f, s, a + p, b + p, w);
      GapAnswer(z, f, s, b, t, t, e, y, w, w, m);
    } else {
      OffsetAfter(z, a, t, b);
      PastGapFirst(z, f, s, t, e, y, w);
      FirstMatchLater(f, s, t + p - 1, b + p, w);
      SameOffsetAnswer(z, f, s, b, w, w - p, m);
    }
  }

  lemma PastGapFirst(z: Zone, f: Fields, s: Schedule, g: int, e: int, y: int, w: int)
    requires PastGap(z, f, s, g, e, y, w)
    ensures IsFirstMatch(f, s, g + z(g) - 1, w) && IsFirst(z, w - z(g), w)
    ensures e < g + z(g) + MINUTE_MS
  {}

  /** A first answer at the offset of now is the answer. */
  lemma SameOffsetAnswer(z: Zone, f: Fields, s: Schedule, b: int, w: int, i: int, m: Option<Moment>)
    requires RealZone(z) && Settles(z) && IsAware(z, ClockAt(z, b), f, s, m)
    requires IsFirstMatch(f, s, b + z(b), w) && IsFirst(z, i, w) && b < i && w - i == z(b)
    ensures m == Some(Moment(w, i, w - i))
  {
    hide RealZone, Settles, IsFirstMoment, IsFirstMatch, IsFirst, Exists, Lands;
    var first :| IsFirstMoment(z, ClockAt(z, b), f, s, first) && IsBetter(z, ClockAt(z, b), f, s, first, m);
    ShownLands(z, w, i);
    FirstLands(z, ClockAt(z, b), f, s, first, w, w, i);
  }

  /** When a later change skips it and brings back the offset of now, the end of the gap is
      passed over now and answered later on: a reference is never overtaken exactly when no
      match is repeated after the change itself and the end of the gap matches. */
  lemma LaterGapEveryHourMonotone(z: Zone, s: Schedule, a: int, t: int, g: int, e: int, y: int, w: int)
    requires RealZone(z) && Settles(z) && Recent(a) && !BothDaysRestricted(s.fields) && QuietMinute(z, a)
    requires Turns(z, a, t) && t < g && PastGap(z, s.fields, s, g, e, y, w) && IsFirstMatch(s.fields, s, a + z(a), y)
    requires Star in s.fields.hour && z(g) == z(a) && z(g) - z(g - 1) <= DAY_MS
    ensures NeverOvertaken(z, s, a)
        <==> ((forall m :: t + z(t) < m <= a + z(a) ==> !Matches(s.fields, s, m)) && Matches(s.fields, s, e))
  {
    hide RealZone, Settles, Matches, InHorizon, Turns, QuietMinute, IsFirstMatch, IsNextFire, NeverOvertaken, Ahead;
    hide PastGap;
    var f := s.fields;
    LaterGapAnswer(z, s, a, t, g, e, y, w);
    PastGapFacts(z, f, s, g, e, y, w);
    if m :| t + z(t) < m <= a + z(a) && Matches(f, s, m) {
      UnseenPastGap(z, f, s, a, t, g, e, y, w);
      RepeatOvertakes(z, s, a, t, y, w, w - z(g), m);
    } else if !Matches(f, s, e) {
      var b := GapEndAnswered(z, s, a, t, g, e, y, w);
      Overtaken(z, s, a, b);
    } else {
      forall b | a <= b ensures NotSooner(NextFire(z, s, a), NextFire(z, s, b)) {
        LaterGapNotOvertaken(z, s, a, t, g, e, y, w, b);
      }
      ByAll(z, s, a);
    }
  }

  lemma LaterGapAnswer(z: Zone, s: Schedule, a: int, t: int, g: int, e: int, y: int, w: int)
    requires RealZone(z) && Settles(z) && !BothDaysRestricted(s.fields)
    requires Turns(z, a, t) && t < g && PastGap(z, s.fields, s, g, e, y, w) && IsFirstMatch(s.fields, s, a + z(a), y)
    requires Star in s.fields.hour && z(g) == z(a)
    ensures NextFire(z, s, a) == Some(w - z(g))
  {
    hide RealZone, Settles, IsAware, IsNextFire, Turns, PastGap, IsFirstMatch;
    var m := UnrestrictedAware(z, s, a);
    GapAnswer(z, s.fields, s, a, t, g, e, y, w, y, m);
  }

  /** Shortly before the gap the second search starts just before the missing match. */
  lemma GapEndAnswered(z: Zone, s: Schedule, a: int, t: int, g: int, e: int, y: int, w: int) returns (b: int)
    requires RealZone(z) && Settles(z) && !BothDaysRestricted(s.fields)
    requires Turns(z, a, t) && t < g && PastGap(z, s.fields, s, g, e, y, w) && IsFirstMatch(s.fields, s, a + z(a), y)
    requires Star in s.fields.hour && z(g) == z(a) && z(g) - z(g - 1) <= DAY_MS
    ensures a <= b && NextFire(z, s, b) == Some(e - z(g))
  {
    hide RealZone, Settles, IsAware, IsNextFire, PastGap, IsFirstMatch, Matches, InHorizon, Turns;
    var f := s.fields;
    b := y - z(g) - 1;
    PastGapSkips(z, f, s, g, e, y, w);
    ChangesApart(z, a, t, g);
    TurnsShortlyBefore(z, g, b);
    FirstMatchLater(f, s, a + z(a), b + z(b), y);
    FirstMatchFacts(f, s, a + z(a), y);
    HereIsFirst(f, s, b + z(g));
    var m := UnrestrictedAware(z, s, b);
    GapAnswer(z, f, s, b, g, g, e, y, w, y, m);
  }

  lemma ChangesApart(z: Zone, a: int, t: int, g: int)
    requires RealZone(z) && Turns(z, a, t) && t < g && Skips(z, g)
    ensures a + 2 * DAY_MS < g
  {
    assert Transition(z, t) && Transition(z, g);
  }

  lemma TurnsShortlyBefore(z: Zone, g: int, b: int)
    requires RealZone(z) && Skips(z, g) && g - 2 * DAY_MS <= b < g
    ensures Turns(z, b, g) && z(b) == z(g - 1)
  {
    forall v | b <= v < g ensures z(v) == z(g - 1) { Sparse(z, v, g - 1, g); }
  }

  lemma LaterGapNotOvertaken(z: Zone, s: Schedule, a: int, t: int, g: int, e: int, y: int, w: int, b: int)
    requires RealZone(z) && Settles(z) && Recent(a) && !BothDaysRestricted(s.fields) && QuietMinute(z, a)
    requires Turns(z, a, t) && t < g && PastGap(z, s.fields, s, g, e, y, w) && IsFirstMatch(s.fields, s, a + z(a), y)
    requires Star in s.fields.hour && z(g) == z(a) && Matches(s.fields, s, e) && a <= b
    requires forall m :: t + z(t) < m <= a + z(a) ==> !Matches(s.fields, s, m)
    ensures NotSooner(NextFire(z, s, a), NextFire(z, s, b))
  {
    hide RealZone, Settles, Matches, InHorizon, Turns, QuietMinute, IsFirstMatch, IsNextFire, FiresAt, Ahead, PastGap;
    var f, q := s.fields, NextFire(z, s, b);
    LaterGapAnswer(z, s, a, t, g, e, y, w);
    PastGapFacts(z, f, s, g, e, y, w);
    NextFireIsLater(z, s, b, q);
    if q.Some? && q.value < w - z(g) {
      FiresPastGap(z, f, s, a, t, g, e, y, w, q.value);
      UnseenPastGap(z, f, s, a, t, g, e, y, w);
      DueBefore(z, f, s, a, t, y, w, w - z(g), q.value);
      TurnsLater(z, a, t, b);
      PastGapSkips(z, f, s, g, e, y, w);
      GapIsFar(z, b, t, g, b + z(b));
      FirstMatchLater(f, s, a + z(a), b + z(b), y);
      LaterGapAnswer(z, s, b, t, g, e, y, w);
      assert false;
    }
  }
}
