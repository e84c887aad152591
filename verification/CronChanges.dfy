/** `calcAware` across a change of offset: exactly when the answer is the earliest firing. */
module CronChanges {
  import opened Basics
  import opened Calendar
  import opened CronSchedule
  import opened CronSearch
  import opened CronZone
  import opened CronFire

  /** Between `a` and `u` the clock shows no match. */
  ghost predicate NoneBefore(z: Zone, f: Fields, s: Schedule, a: int, u: int) {
    forall v :: a < v < u ==> !Matches(f, s, v + z(v))
  }

  /** The first instant after `a` at which the clock shows a match. */
  ghost predicate IsEarliest(z: Zone, f: Fields, s: Schedule, a: int, u: int) {
    a < u && Matches(f, s, u + z(u)) && NoneBefore(z, f, s, a, u)
  }

  /** The earliest firing, a missing match counting for the minute it is moved to. */
  ghost predicate IsEarliestFiring(z: Zone, f: Fields, s: Schedule, a: int, u: int) {
    a < u && FiresAt(z, f, s, u) && forall v :: a < v < u ==> !FiresAt(z, f, s, v)
  }

  /** The first change of offset after `a` is at `t`. */
  ghost predicate Turns(z: Zone, a: int, t: int) {
    a < t && z(t) != z(a) && forall v :: a <= v < t ==> z(v) == z(a)
  }

  /** It puts the clock back. */
  ghost predicate Falls(z: Zone, a: int, t: int) {
    Turns(z, a, t) && z(t) < z(a)
  }

  /** It puts the clock on. */
  ghost predicate Rises(z: Zone, a: int, t: int) {
    Turns(z, a, t) && z(t) > z(a)
  }

  /** At `g` the clock is put on, so wall times are skipped. */
  predicate Skips(z: Zone, g: int) {
    z(g - 1) < z(g)
  }

  lemma RiseSkips(z: Zone, a: int, t: int)
    requires Rises(z, a, t)
    ensures Turns(z, a, t) && Skips(z, t) && z(t - 1) == z(a)
  {}

  /** The least match after `start`, within the horizon of a search from there. */
  ghost predicate IsFirstMatch(f: Fields, s: Schedule, start: int, w: int) {
    IsNext(start, f, s, Some(w))
  }

  lemma FirstMatchFacts(f: Fields, s: Schedule, start: int, w: int)
    requires IsFirstMatch(f, s, start, w)
    ensures start < w && Matches(f, s, w) && w % MINUTE_MS == 0
    ensures forall v :: start < v < w ==> !Matches(f, s, v)
  {
    hide MonthOk, DayOk, DowOk, HourOk, MinuteOk, InHorizon;
  }

  // ----- what the clock shows around a change -----

  /** After `a` the clock shows the present time again only in the second passage. */
  lemma PastIsSecondPassage(z: Zone, a: int, t: int, u: int)
    requires RealZone(z) && Turns(z, a, t) && a < u && u + z(u) <= a + z(a)
    ensures t <= u && z(u) == z(t) && z(t) < z(a)
  {
    Sparse(z, t - 1, t, u);
  }

  lemma SecondPassage(z: Zone, a: int, t: int, wall: int)
    requires RealZone(z) && Turns(z, a, t) && t + z(t) <= wall <= a + z(a)
    ensures At(z, wall - z(t), wall) && t <= wall - z(t) && z(t) < z(a)
  {
    Sparse(z, t - 1, t, wall - z(t));
  }

  /** Before a wall time is first shown, only earlier ones are. */
  lemma EarlierBefore(z: Zone, wall: int, i: int, v: int)
    requires RealZone(z) && IsFirst(z, i, wall) && v < i
    ensures v + z(v) < wall
  {
    if v + z(v) >= wall {
      var j := wall - z(v);
      Sparse(z, j, v, i);
      assert At(z, j, wall);
      assert false;
    }
  }

  lemma ExistsAt(z: Zone, i: int, wall: int)
    requires At(z, i, wall)
    ensures Exists(z, wall)
  {}

  lemma FirstExists(z: Zone, i: int, wall: int)
    requires IsFirst(z, i, wall)
    ensures Exists(z, wall)
  {
    ExistsAt(z, i, wall);
  }

  lemma OnceOffset(z: Zone, w: int, i: int)
    requires IsFirst(z, i, w)
    ensures z(i) == w - i
  {}

  lemma WholeMinute(f: Fields, s: Schedule, w: int)
    requires Matches(f, s, w)
    ensures w % MINUTE_MS == 0
  {
    hide MonthOk, DayOk, DowOk, HourOk, MinuteOk;
  }

  lemma MovedWhole(z: Zone, y: int, moved: int)
    requires IsMoved(z, y, moved) && y % MINUTE_MS == 0
    ensures moved % MINUTE_MS == 0 && y < moved
  {
    hide Exists;
  }

  // ----- where a wall time is delivered -----

  /** A wall time is first shown at `i`, as `e`: itself, or the minute a missing one is moved to. */
  ghost predicate Lands(z: Zone, wall: int, e: int, i: int) {
    IsFirst(z, i, e) && if Exists(z, wall) then e == wall else IsMoved(z, wall, e)
  }

  /** Before `i` the clock shows no whole minute from `w` on. */
  ghost predicate Hidden(z: Zone, w: int, i: int) {
    forall v :: v < i && (v + z(v)) % MINUTE_MS == 0 ==> v + z(v) < w
  }

  /** Before `i` the clock shows no match from `w` on. */
  ghost predicate Unseen(z: Zone, f: Fields, s: Schedule, w: int, i: int) {
    forall v :: v < i && Matches(f, s, v + z(v)) ==> v + z(v) < w
  }

  lemma HiddenIsUnseen(z: Zone, f: Fields, s: Schedule, w: int, i: int)
    requires Hidden(z, w, i)
    ensures Unseen(z, f, s, w, i)
  {
    hide Matches;
    forall v | v < i && Matches(f, s, v + z(v)) ensures v + z(v) < w { WholeMinute(f, s, v + z(v)); }
  }

  lemma LandsHidden(z: Zone, w: int, e: int, i: int)
    requires RealZone(z) && Lands(z, w, e, i) && w % MINUTE_MS == 0
    ensures w <= e && Hidden(z, w, i)
  {
    hide RealZone, Exists;
    forall v | v < i && (v + z(v)) % MINUTE_MS == 0 ensures v + z(v) < w {
      EarlierBefore(z, e, i, v);
      ExistsAt(z, v, v + z(v));
    }
  }

  lemma ShownLands(z: Zone, w: int, i: int)
    requires IsFirst(z, i, w)
    ensures Exists(z, w) && Lands(z, w, w, i)
  {
    FirstExists(z, i, w);
  }

  lemma LandsZoned(z: Zone, w: int, e: int, i: int, now: Moment, m: Moment, there: bool)
    requires Lands(z, w, e, i) && now.instant < i && IsZoned(z, w, now, m, there)
    ensures there == Exists(z, w) && m == Moment(e, i, e - i)
  {
    hide Exists;
    if !there { assert m.wall == e; }
  }

  lemma ZonedAt(z: Zone, wall: int, now: Moment, m: Moment, there: bool)
    requires IsZoned(z, wall, now, m, there)
    ensures At(z, m.instant, m.wall) && m.offset == z(m.instant)
    ensures there == Exists(z, wall) && (there ==> m.wall == wall)
    ensures m.wall >= wall && (wall % MINUTE_MS == 0 ==> m.wall % MINUTE_MS == 0)
  {
    hide Exists;
    if !there && wall % MINUTE_MS == 0 { MovedWhole(z, wall, m.wall); }
  }

  // ----- the two searches -----

  lemma FirstMatchIsSearch(f: Fields, s: Schedule, start: int, w: int)
    requires IsFirstMatch(f, s, start, w)
    ensures Search(start, f, s) == Some(w)
  {
    SearchUnique(start, f, s, Search(start, f, s), Some(w));
  }

  /** The first answer: a match the clock shows, or one that is moved to the end of its gap. */
  lemma FirstLands(z: Zone, now: Moment, f: Fields, s: Schedule, first: Option<Moment>, w: int, e: int, i: int)
    requires RealZone(z) && Settles(z) && IsFirstMoment(z, now, f, s, first) && IsFirstMatch(f, s, now.wall, w)
    requires Lands(z, w, e, i) && now.instant < i && (Exists(z, w) || Star !in f.hour)
    ensures first == Some(Moment(e, i, e - i))
  {
    hide RealZone, Settles, Lands, IsFirstMatch, IsZoned, IsSkip, Matches, Exists;
    FirstMatchIsSearch(f, s, now.wall, w);
    var m, there :| IsDelivered(z, w, now, f, s, m, there, first);
    LandsZoned(z, w, e, i, now, m, there);
  }

  /** The second search: its answer wins when it comes sooner and after the clock. */
  lemma SecondSearch(z: Zone, now: Moment, f: Fields, s: Schedule, first: Moment, r: Option<Moment>, x: int)
    returns (alternative: Moment, there: bool)
    requires RealZone(z) && Settles(z) && IsBetter(z, now, f, s, Some(first), r) && first.offset != now.offset
    requires IsFirstMatch(f, s, now.instant + first.offset, x) && now.wall == now.instant + now.offset
    ensures IsZoned(z, x, now, alternative, there) && r == Some(Earlier(now, alternative, first))
  {
    hide RealZone, Settles, IsZoned, IsFirstMatch, IsNext, Matches;
    FirstMatchIsSearch(f, s, now.instant + first.offset, x);
    alternative, there :| IsZoned(z, x, now, alternative, there) && r == Some(Earlier(now, alternative, first));
  }

  /** A first match ahead that the clock reaches before the first change. */
  lemma EarliestBeforeChange(z: Zone, f: Fields, s: Schedule, a: int, t: int, w: int, r: Option<Moment>)
    requires RealZone(z) && Settles(z) && a < t && (forall v :: a <= v < t ==> z(v) == z(a))
    requires IsAware(z, ClockAt(z, a), f, s, r) && IsFirstMatch(f, s, a + z(a), w) && w < t + z(a)
    ensures r == Some(Moment(w, w - z(a), z(a))) && IsEarliest(z, f, s, a, w - z(a))
  {
    hide RealZone, Settles, InHorizon, Matches, IsAware;
    var now := ClockAt(z, a);
    FirstMatchIsSearch(f, s, a + z(a), w);
    forall v | IsNext(a + z(a), f, s, Some(v)) ensures v == w {
      SearchUnique(a + z(a), f, s, Some(v), Some(w));
    }
    CalmAware(z, now, f, s, r);
  }

  // ----- what is due before the first match ahead -----

  /** A match the clock shows again after the present. */
  ghost predicate Repeats(z: Zone, f: Fields, s: Schedule, a: int, t: int) {
    exists m :: t + z(t) <= m <= a + z(a) && Matches(f, s, m)
  }

  lemma RiseRepeatsNothing(z: Zone, f: Fields, s: Schedule, a: int, t: int)
    requires a < t && z(t) > z(a)
    ensures !Repeats(z, f, s, a, t)
  {}

  /** The matches the second search would have to find but passes over, and those it finds
      instead although they are over. `offset` is that of the first answer. */
  ghost predicate SecondSearchFits(z: Zone, f: Fields, s: Schedule, a: int, t: int, offset: int) {
    forall y :: y <= a + z(a) && (a + offset < y < t + z(t) || t + z(t) <= y <= a + offset) ==> !Matches(f, s, y)
  }

  /** The first change after `a` is at `t`, the first match ahead is `w`, past a change back,
      and the first answer `e` is first shown at `i`, no match from `w` on before it. */
  ghost predicate Ahead(z: Zone, f: Fields, s: Schedule, a: int, t: int, w: int, e: int, i: int) {
    && Turns(z, a, t) && IsFirstMatch(f, s, a + z(a), w) && (z(t) < z(a) ==> t + z(a) <= w)
    && IsFirst(z, i, e) && w <= e && a < i && Unseen(z, f, s, w, i)
  }

  /** Up to the first answer, exactly the repeated matches are due. */
  lemma DueBefore(z: Zone, f: Fields, s: Schedule, a: int, t: int, w: int, e: int, i: int, u: int)
    requires RealZone(z) && Ahead(z, f, s, a, t, w, e, i) && a < u < i && Matches(f, s, u + z(u))
    ensures t + z(t) <= u + z(u) <= a + z(a) && z(u) == z(t) && t <= u
  {
    hide RealZone, Matches, InHorizon, IsFirst, Turns;
    PastIsSecondPassage(z, a, t, u);
  }

  lemma RepeatIsDue(z: Zone, f: Fields, s: Schedule, a: int, t: int, w: int, e: int, i: int, m: int)
    requires RealZone(z) && Ahead(z, f, s, a, t, w, e, i) && t + z(t) <= m <= a + z(a)
    ensures a < m - z(t) < i && At(z, m - z(t), m)
  {
    hide RealZone, Matches, InHorizon, Unseen;
    SecondPassage(z, a, t, m);
    OffsetsApart(z, a, t);
    if t <= i <= m - z(t) {
      OffsetAfter(z, a, t, i);
      assert false;
    }
  }

  lemma OffsetsApart(z: Zone, a: int, t: int)
    requires RealZone(z)
    ensures z(a) - z(t) < 2 * DAY_MS
  {}

  lemma OffsetAfter(z: Zone, a: int, t: int, v: int)
    requires RealZone(z) && Turns(z, a, t) && t <= v < t + 2 * DAY_MS
    ensures z(v) == z(t)
  {
    Sparse(z, t - 1, t, v);
  }

  /** Nothing is due before the first answer exactly when no match is repeated. */
  lemma RepeatMissed(z: Zone, f: Fields, s: Schedule, a: int, t: int, w: int, e: int, i: int)
    requires RealZone(z) && Ahead(z, f, s, a, t, w, e, i)
    ensures NoneBefore(z, f, s, a, i) <==> !Repeats(z, f, s, a, t)
  {
    hide RealZone, Matches, Ahead;
    if Repeats(z, f, s, a, t) {
      var m :| t + z(t) <= m <= a + z(a) && Matches(f, s, m);
      RepeatIsDue(z, f, s, a, t, w, e, i, m);
      assert Matches(f, s, (m - z(t)) + z(m - z(t)));
    } else {
      forall u | a < u < i ensures !Matches(f, s, u + z(u)) {
        if Matches(f, s, u + z(u)) { DueBefore(z, f, s, a, t, w, e, i, u); }
      }
    }
  }

  /** Nor before the repeated match the second search finds, exactly when it starts before all
      of them. */
  lemma RepeatFound(z: Zone, f: Fields, s: Schedule, a: int, t: int, w: int, e: int, i: int, x: int)
    requires RealZone(z) && Ahead(z, f, s, a, t, w, e, i) && z(i) < z(a)
    requires IsFirstMatch(f, s, a + z(i), x) && t + z(t) <= x <= a + z(a)
    ensures NoneBefore(z, f, s, a, x - z(t)) <==> SecondSearchFits(z, f, s, a, t, z(i))
    ensures Repeats(z, f, s, a, t) && At(z, x - z(t), x) && a < x - z(t) < i && Matches(f, s, x)
  {
    hide RealZone, Matches, InHorizon, Ahead;
    RepeatIsDue(z, f, s, a, t, w, e, i, x);
    if SecondSearchFits(z, f, s, a, t, z(i)) {
      forall u | a < u < x - z(t) ensures !Matches(f, s, u + z(u)) {
        if Matches(f, s, u + z(u)) { DueBefore(z, f, s, a, t, w, e, i, u); }
      }
    } else {
      var y :| y <= a + z(a) && (a + z(i) < y < t + z(t) || t + z(t) <= y <= a + z(i)) && Matches(f, s, y);
      assert t + z(t) <= y <= a + z(i) && y < x;
      RepeatIsDue(z, f, s, a, t, w, e, i, y);
      assert Matches(f, s, (y - z(t)) + z(y - z(t)));
    }
  }

  // ----- the second search across a change -----

  /** No change of offset shortly before `a`: as far back as the answer's offset is behind. */
  ghost predicate Quiet(z: Zone, a: int, offset: int) {
    forall v :: a + offset - z(a) <= v <= a ==> z(v) == z(a)
  }

  /** With a change of at most a day and the first passage under way, that is so of itself. */
  lemma QuietInFirstPassage(z: Zone, a: int, t: int)
    requires RealZone(z) && Falls(z, a, t) && t + z(t) <= a + z(a) && z(a) - z(t) <= DAY_MS
    ensures Quiet(z, a, z(t))
  {
    forall v | a + z(t) - z(a) <= v <= a ensures z(v) == z(a) {
      Sparse(z, v, t - 1, t);
    }
  }

  /** Where a second search is made: its first match, and no change shortly before. */
  ghost predicate SearchesAgain(z: Zone, f: Fields, s: Schedule, a: int, offset: int, x: int) {
    (offset != z(a) ==> IsFirstMatch(f, s, a + offset, x)) && (offset < z(a) ==> Quiet(z, a, offset))
  }

  /** It finds a time already past, or the first match ahead; from later on, no earlier one. */
  lemma SecondMatch(f: Fields, s: Schedule, start: int, other: int, w: int, x: int)
    requires IsFirstMatch(f, s, start, w) && IsFirstMatch(f, s, other, x)
    ensures x > start ==> w <= x
    ensures other < start ==> x <= w && (x > start ==> x == w)
    ensures x % MINUTE_MS == 0
  {
    hide Matches, InHorizon;
    FirstMatchFacts(f, s, other, x);
  }

  /** Of the times past, only a repeated one is of use. */
  lemma PastAlternative(z: Zone, f: Fields, s: Schedule, a: int, t: int, w: int, e: int, i: int, x: int,
                        m: Moment, there: bool)
    requires RealZone(z) && Ahead(z, f, s, a, t, w, e, i) && z(i) < z(a) && Quiet(z, a, z(i))
    requires a + z(i) < x <= a + z(a) && IsZoned(z, x, ClockAt(z, a), m, there)
    ensures Earlier(ClockAt(z, a), m, Moment(e, i, e - i))
         == if t + z(t) <= x then Moment(x, x - z(t), z(t)) else Moment(e, i, e - i)
  {
    hide RealZone, Ahead, IsZoned, Exists, Turns;
    assert At(z, x - z(a), x);
    ExistsAt(z, x - z(a), x);
    ZonedAt(z, x, ClockAt(z, a), m, there);
    AheadTurns(z, f, s, a, t, w, e, i);
    if m.instant > a { PastIsSecondPassage(z, a, t, m.instant); }
    if t + z(t) <= x {
      RepeatIsDue(z, f, s, a, t, w, e, i, x);
      RepeatChosen(z, a, t, x, m, there);
    }
  }

  lemma AheadTurns(z: Zone, f: Fields, s: Schedule, a: int, t: int, w: int, e: int, i: int)
    requires Ahead(z, f, s, a, t, w, e, i)
    ensures Turns(z, a, t) && IsFirstMatch(f, s, a + z(a), w) && a < i && z(i) == e - i && w <= e
  {}

  lemma RepeatChosen(z: Zone, a: int, t: int, x: int, m: Moment, there: bool)
    requires RealZone(z) && Turns(z, a, t) && t + z(t) <= x <= a + z(a) && IsZoned(z, x, ClockAt(z, a), m, there)
    requires At(z, x - z(t), x) && a < x - z(t)
    ensures there && m == Moment(x, x - z(t), z(t))
  {
    hide Turns;
    ExistsAt(z, x - z(t), x);
    assert m.instant > a;
    PastIsSecondPassage(z, a, t, m.instant);
  }

  /** Of the times ahead, none is shown before the first answer. */
  lemma LaterAlternative(z: Zone, a: int, w: int, e: int, i: int, x: int, m: Moment, there: bool)
    requires Hidden(z, w, i) && w <= x && x % MINUTE_MS == 0 && IsZoned(z, x, ClockAt(z, a), m, there)
    ensures Earlier(ClockAt(z, a), m, Moment(e, i, e - i)) == Moment(e, i, e - i)
  {
    hide IsZoned, Exists;
    ZonedAt(z, x, ClockAt(z, a), m, there);
  }

  /** A second search from an earlier offset finds a repeated match. */
  predicate Finds(z: Zone, a: int, t: int, offset: int, x: int) {
    offset < z(a) && t + z(t) <= x <= a + z(a)
  }

  /** The answer: the repeated match the second search finds, or the first answer. */
  ghost predicate IsAnswer(z: Zone, a: int, t: int, e: int, i: int, x: int, r: Option<Moment>) {
    if Finds(z, a, t, z(i), x) then r == Some(Moment(x, x - z(t), z(t)))
    else r == Some(Moment(e, i, e - i))
  }

  lemma SameOffset(z: Zone, now: Moment, f: Fields, s: Schedule, first: Option<Moment>, r: Option<Moment>)
    requires RealZone(z) && Settles(z) && IsBetter(z, now, f, s, first, r)
    requires first.Some? && first.value.offset == now.offset
    ensures r == first
  {}

  lemma AnswerAcross(z: Zone, f: Fields, s: Schedule, a: int, t: int, w: int, e: int, i: int, x: int, r: Option<Moment>)
    requires RealZone(z) && Settles(z) && Ahead(z, f, s, a, t, w, e, i) && Hidden(z, w, i)
    requires IsBetter(z, ClockAt(z, a), f, s, Some(Moment(e, i, e - i)), r) && SearchesAgain(z, f, s, a, z(i), x)
    ensures IsAnswer(z, a, t, e, i, x, r)
  {
    hide RealZone, Settles, IsZoned, IsFirstMatch, Ahead, Hidden, Quiet, IsBetter, Turns, Matches;
    AheadTurns(z, f, s, a, t, w, e, i);
    if z(i) == z(a) {
      SameOffset(z, ClockAt(z, a), f, s, Some(Moment(e, i, e - i)), r);
    } else {
      var m, there := SecondSearch(z, ClockAt(z, a), f, s, Moment(e, i, e - i), r, x);
      SecondMatch(f, s, a + z(a), a + z(i), w, x);
      FirstMatchFacts(f, s, a + z(i), x);
      if x <= a + z(a) {
        PastAlternative(z, f, s, a, t, w, e, i, x, m, there);
      } else {
        LaterAlternative(z, a, w, e, i, x, m, there);
      }
    }
  }

  /** No match is due before the answer exactly when none is repeated, or the walls between
      the change and the start of the second search hold no match. */
  lemma NoneBeforeAnswer(z: Zone, f: Fields, s: Schedule, a: int, t: int, w: int, e: int, i: int, x: int, u: int)
    requires RealZone(z) && Ahead(z, f, s, a, t, w, e, i) && SearchesAgain(z, f, s, a, z(i), x)
    requires u == if Finds(z, a, t, z(i), x) then x - z(t) else i
    ensures NoneBefore(z, f, s, a, u) <==> (Repeats(z, f, s, a, t) ==> SecondSearchFits(z, f, s, a, t, z(i)))
  {
    hide RealZone, IsFirstMatch, Ahead, Quiet, Repeats, SecondSearchFits, NoneBefore;
    AheadTurns(z, f, s, a, t, w, e, i);
    if Finds(z, a, t, z(i), x) {
      RepeatFound(z, f, s, a, t, w, e, i, x);
    } else {
      RepeatMissed(z, f, s, a, t, w, e, i);
      if z(i) < z(a) {
        NoFit(z, f, s, a, t, w, z(i), x);
      } else {
        NoneFits(z, f, s, a, t, z(i));
      }
    }
  }

  /** A second search that finds no repeated match is of no help with them. */
  lemma NoFit(z: Zone, f: Fields, s: Schedule, a: int, t: int, w: int, offset: int, x: int)
    requires IsFirstMatch(f, s, a + z(a), w) && IsFirstMatch(f, s, a + offset, x) && offset < z(a)
    requires !(t + z(t) <= x <= a + z(a))
    ensures Repeats(z, f, s, a, t) ==> !SecondSearchFits(z, f, s, a, t, offset)
  {
    hide Matches, InHorizon;
    if Repeats(z, f, s, a, t) {
      var m :| t + z(t) <= m <= a + z(a) && Matches(f, s, m);
      var y := if x < t + z(t) then x else m;
      assert Matches(f, s, y) && y <= a + z(a);
    }
  }

  lemma NoneFits(z: Zone, f: Fields, s: Schedule, a: int, t: int, offset: int)
    requires offset >= z(a)
    ensures Repeats(z, f, s, a, t) ==> !SecondSearchFits(z, f, s, a, t, offset)
  {
    hide Matches;
  }

  // ----- the first answer is delivered where its match lands -----

  /** The hypotheses of what follows, on schedule, zone and reference alone: the first change
      after `a` is at `t`, the first match ahead is `w`, past a change back, and lands at `i`;
      it exists, or the hours are restricted. */
  ghost predicate Across(z: Zone, f: Fields, s: Schedule, a: int, t: int, w: int, e: int, i: int) {
    && Turns(z, a, t) && IsFirstMatch(f, s, a + z(a), w) && (z(t) < z(a) ==> t + z(a) <= w)
    && Lands(z, w, e, i) && a < i && (Exists(z, w) || Star !in f.hour)
  }

  lemma AcrossIsAhead(z: Zone, f: Fields, s: Schedule, a: int, t: int, w: int, e: int, i: int)
    requires RealZone(z) && Across(z, f, s, a, t, w, e, i)
    ensures Ahead(z, f, s, a, t, w, e, i) && Hidden(z, w, i)
  {
    hide RealZone, IsFirstMatch, Hidden, Unseen, Turns, Exists, IsMoved, IsFirst;
    FirstMatchFacts(f, s, a + z(a), w);
    LandsHidden(z, w, e, i);
    HiddenIsUnseen(z, f, s, w, i);
  }

  /** What `calcAware` answers. */
  lemma AcrossAnswer(z: Zone, f: Fields, s: Schedule, a: int, t: int, w: int, e: int, i: int, x: int, r: Option<Moment>)
    requires RealZone(z) && Settles(z) && Across(z, f, s, a, t, w, e, i) && IsAware(z, ClockAt(z, a), f, s, r)
    requires SearchesAgain(z, f, s, a, z(i), x)
    ensures IsAnswer(z, a, t, e, i, x, r)
  {
    hide RealZone, Settles, IsFirstMoment, IsBetter, SearchesAgain, IsFirstMatch, Lands, Exists, Turns;
    var first :| IsFirstMoment(z, ClockAt(z, a), f, s, first) && IsBetter(z, ClockAt(z, a), f, s, first, r);
    FirstLands(z, ClockAt(z, a), f, s, first, w, e, i);
    AcrossIsAhead(z, f, s, a, t, w, e, i);
    AnswerAcross(z, f, s, a, t, w, e, i, x, r);
  }

  /** Across any change, and whether the first match exists or is moved to the end of a gap, now
      or after many changes: nothing the clock shows before the answer matches exactly when no
      match is repeated, or the second search finds the first repeated one. */
  lemma NothingMissedAcross(z: Zone, f: Fields, s: Schedule, a: int, t: int, w: int, e: int, i: int, x: int,
                            r: Option<Moment>)
    requires RealZone(z) && Settles(z) && Across(z, f, s, a, t, w, e, i) && IsAware(z, ClockAt(z, a), f, s, r)
    requires SearchesAgain(z, f, s, a, z(i), x)
    ensures r.Some? && a < r.value.instant <= i && FiresAt(z, f, s, r.value.instant)
    ensures NoneBefore(z, f, s, a, r.value.instant)
        <==> (Repeats(z, f, s, a, t) ==> SecondSearchFits(z, f, s, a, t, z(i)))
  {
    hide RealZone, Settles, IsAware, IsFirstMatch, NoneBefore, Repeats, SecondSearchFits, FiresAt, Quiet, Across, Ahead;
    AcrossAnswer(z, f, s, a, t, w, e, i, x, r);
    AcrossIsAhead(z, f, s, a, t, w, e, i);
    NoneBeforeAnswer(z, f, s, a, t, w, e, i, x, r.value.instant);
    AheadTurns(z, f, s, a, t, w, e, i);
    AnswerFires(z, f, s, a, t, w, e, i, x, r);
  }

  lemma AnswerFires(z: Zone, f: Fields, s: Schedule, a: int, t: int, w: int, e: int, i: int, x: int, r: Option<Moment>)
    requires RealZone(z) && Across(z, f, s, a, t, w, e, i) && Ahead(z, f, s, a, t, w, e, i)
    requires SearchesAgain(z, f, s, a, z(i), x) && IsAnswer(z, a, t, e, i, x, r)
    ensures r.Some? && a < r.value.instant <= i && FiresAt(z, f, s, r.value.instant)
    ensures Exists(z, w) || r.value.instant < i ==> Matches(f, s, r.value.instant + z(r.value.instant))
  {
    hide RealZone, Matches, InHorizon, Turns, Unseen, Quiet, IsMoved, Exists;
    if Finds(z, a, t, z(i), x) {
      RepeatFound(z, f, s, a, t, w, e, i, x);
    }
  }

  // ----- only matches fire on the way -----

  /** No change of offset within the minute before `a`. */
  ghost predicate QuietMinute(z: Zone, a: int) {
    forall v :: a - MINUTE_MS <= v <= a ==> z(v) == z(a)
  }

  /** Up to the first answer nothing fires but matches. */
  lemma OnlyMatchesFire(z: Zone, f: Fields, s: Schedule, a: int, w: int, i: int, v: int)
    requires RealZone(z) && QuietMinute(z, a) && IsFirstMatch(f, s, a + z(a), w) && Hidden(z, w, i) && a < v < i
    requires FiresAt(z, f, s, v)
    ensures Matches(f, s, v + z(v))
  {
    hide RealZone, QuietMinute, Matches, IsMoved, Exists, IsFirstMatch, IsFirst;
    if !Matches(f, s, v + z(v)) {
      var y :| Matches(f, s, y) && !Exists(z, y) && IsMoved(z, y, v + z(v));
      WholeMinute(f, s, y);
      MovedWhole(z, y, v + z(v));
      FirstMatchFacts(f, s, a + z(a), w);
      OldGap(z, a, y, v);
      assert false;
    }
  }

  /** A wall time of the past is not first shown, moved, in the future. */
  lemma OldGap(z: Zone, a: int, y: int, v: int)
    requires RealZone(z) && QuietMinute(z, a) && a < v && y <= a + z(a) && !Exists(z, y)
    ensures !(IsMoved(z, y, v + z(v)) && IsFirst(z, v, v + z(v)))
  {
    hide IsMoved, Exists;
    if IsMoved(z, y, v + z(v)) && IsFirst(z, v, v + z(v)) {
      var g := GapOf(z, y);
      GapEndsSoon(z, g, y, v + z(v));
      MovedPastGap(z, g, y, v + z(v));
      if g <= a {
        AfterGap(z, g, v + z(v));
      } else if z(g - 1) != z(a) {
        var h := FindTransition(z, a, g - 1);
      }
      assert false;
    }
  }

  /** A missing wall time is moved by less than a minute past the end of its gap. */
  lemma GapEndsSoon(z: Zone, g: int, y: int, moved: int)
    requires RealZone(z) && Transition(z, g) && g + z(g - 1) <= y < g + z(g) && IsMoved(z, y, moved)
    ensures moved < g + z(g) + MINUTE_MS
  {
    if moved >= g + z(g) + MINUTE_MS {
      var k := GridPastGap(z, g, y);
      ExistsAt(z, k - z(g), k);
      assert false;
    }
  }

  lemma MovedPastGap(z: Zone, g: int, y: int, moved: int)
    requires RealZone(z) && Transition(z, g) && g + z(g - 1) <= y < g + z(g) && IsMoved(z, y, moved)
    ensures g + z(g) <= moved
  {
    if moved < g + z(g) {
      var i :| At(z, i, moved);
      if i < g { Sparse(z, i, g - 1, g); } else { Sparse(z, g - 1, g, i); }
      assert false;
    }
  }

  /** The answer is the earliest firing exactly when no match is repeated, or the second search
      finds the first repeated one. */
  lemma EarliestAcrossChange(z: Zone, f: Fields, s: Schedule, a: int, t: int, w: int, e: int, i: int, x: int,
                             r: Option<Moment>)
    requires RealZone(z) && Settles(z) && Across(z, f, s, a, t, w, e, i) && IsAware(z, ClockAt(z, a), f, s, r)
    requires SearchesAgain(z, f, s, a, z(i), x) && QuietMinute(z, a)
    ensures r.Some? && r.value.instant <= i
    ensures IsEarliestFiring(z, f, s, a, r.value.instant)
        <==> (Repeats(z, f, s, a, t) ==> SecondSearchFits(z, f, s, a, t, z(i)))
  {
    hide RealZone, Settles, IsAware, Ahead, Repeats, SecondSearchFits, FiresAt, SearchesAgain, QuietMinute, Turns;
    hide Matches;
    NothingMissedAcross(z, f, s, a, t, w, e, i, x, r);
    AcrossIsAhead(z, f, s, a, t, w, e, i);
    MatchesAreFirings(z, f, s, a, w, i, r.value.instant);
  }

  lemma MatchesAreFirings(z: Zone, f: Fields, s: Schedule, a: int, w: int, i: int, u: int)
    requires RealZone(z) && QuietMinute(z, a) && IsFirstMatch(f, s, a + z(a), w) && Hidden(z, w, i)
    requires a < u <= i && FiresAt(z, f, s, u)
    ensures IsEarliestFiring(z, f, s, a, u) <==> NoneBefore(z, f, s, a, u)
  {
    hide RealZone, QuietMinute, Matches, IsFirstMatch, Hidden, IsMoved, Exists, IsFirst;
    if NoneBefore(z, f, s, a, u) {
      forall v | a < v < u ensures !FiresAt(z, f, s, v) {
        if FiresAt(z, f, s, v) { OnlyMatchesFire(z, f, s, a, w, i, v); }
      }
    } else {
      var v :| a < v < u && Matches(f, s, v + z(v));
      assert FiresAt(z, f, s, v);
    }
  }

  // ----- the first match ahead exists -----

  lemma ShownAcross(z: Zone, f: Fields, s: Schedule, a: int, t: int, w: int, i: int)
    requires Turns(z, a, t) && IsFirstMatch(f, s, a + z(a), w) && (z(t) < z(a) ==> t + z(a) <= w)
    requires IsFirst(z, i, w) && a < i
    ensures Across(z, f, s, a, t, w, w, i)
  {
    hide IsFirstMatch, Turns, IsFirst, Exists;
    ShownLands(z, w, i);
  }

  /** The clock is put back after `a` and the first match ahead comes after the change. Then
      the answer is the earliest match the clock shows exactly when no match is repeated, or the
      walls between the change and the start of the second search hold no match. */
  lemma EarliestAcrossFall(z: Zone, f: Fields, s: Schedule, a: int, t: int, w: int, i: int, x: int, r: Option<Moment>)
    requires RealZone(z) && Settles(z) && Falls(z, a, t) && IsAware(z, ClockAt(z, a), f, s, r)
    requires IsFirstMatch(f, s, a + z(a), w) && t + z(a) <= w && IsFirst(z, i, w) && a < i
    requires SearchesAgain(z, f, s, a, z(i), x)
    ensures r.Some?
    ensures IsEarliest(z, f, s, a, r.value.instant)
        <==> (Repeats(z, f, s, a, t) ==> SecondSearchFits(z, f, s, a, t, z(i)))
  {
    hide RealZone, Settles, IsAware, Ahead, Across, Repeats, SecondSearchFits, FiresAt, SearchesAgain, Turns, Matches;
    hide IsFirstMatch, IsFirst, NoneBefore, Exists;
    ShownAcross(z, f, s, a, t, w, i);
    ShownLands(z, w, i);
    ShownEarliest(z, f, s, a, t, w, i, x, r);
  }

  lemma ShownEarliest(z: Zone, f: Fields, s: Schedule, a: int, t: int, w: int, i: int, x: int, r: Option<Moment>)
    requires RealZone(z) && Settles(z) && Across(z, f, s, a, t, w, w, i) && Exists(z, w)
    requires IsAware(z, ClockAt(z, a), f, s, r) && SearchesAgain(z, f, s, a, z(i), x)
    ensures r.Some? && IsAnswer(z, a, t, w, i, x, r)
    ensures IsEarliest(z, f, s, a, r.value.instant)
        <==> (Repeats(z, f, s, a, t) ==> SecondSearchFits(z, f, s, a, t, z(i)))
  {
    hide RealZone, Settles, IsAware, Ahead, Across, Repeats, SecondSearchFits, FiresAt, SearchesAgain, NoneBefore;
    hide Matches;
    NothingMissedAcross(z, f, s, a, t, w, w, i, x, r);
    AcrossAnswer(z, f, s, a, t, w, w, i, x, r);
    AcrossIsAhead(z, f, s, a, t, w, w, i);
    AnswerFires(z, f, s, a, t, w, w, i, x, r);
  }

  lemma FallDrops(z: Zone, a: int, t: int)
    requires Falls(z, a, t)
    ensures a < t && z(t) < z(a) && Turns(z, a, t)
  {}

  /** The first answer lies at the offset after the change: earliest exactly when no match is
      repeated, or none lies between the second search's start and the first repeated wall. */
  lemma FallAndStay(z: Zone, f: Fields, s: Schedule, a: int, t: int, w: int, x: int, r: Option<Moment>)
    requires RealZone(z) && Settles(z) && Falls(z, a, t) && IsAware(z, ClockAt(z, a), f, s, r)
    requires IsFirstMatch(f, s, a + z(a), w) && t + z(a) <= w && IsFirst(z, w - z(t), w) && Quiet(z, a, z(t))
    requires IsFirstMatch(f, s, a + z(t), x)
    ensures r.Some?
    ensures IsEarliest(z, f, s, a, r.value.instant)
        <==> (Repeats(z, f, s, a, t) ==> forall y :: a + z(t) < y < t + z(t) ==> !Matches(f, s, y))
  {
    hide RealZone, Settles, Matches, InHorizon, IsAware, Falls, Quiet, IsFirst, IsEarliest;
    OnceOffset(z, w, w - z(t));
    FallDrops(z, a, t);
    EarliestAcrossFall(z, f, s, a, t, w, w - z(t), x, r);
    FitsAfterChange(z, f, s, a, t);
  }

  lemma FitsAfterChange(z: Zone, f: Fields, s: Schedule, a: int, t: int)
    requires a < t && z(t) < z(a)
    ensures Repeats(z, f, s, a, t) ==>
      (SecondSearchFits(z, f, s, a, t, z(t)) <==> forall y :: a + z(t) < y < t + z(t) ==> !Matches(f, s, y))
  {
    hide Matches;
  }

  /** The first answer lies at the offset of now again: there is no second search, and the
      answer is the earliest exactly when no match is repeated. */
  lemma FallAndReturn(z: Zone, f: Fields, s: Schedule, a: int, t: int, w: int, r: Option<Moment>)
    requires RealZone(z) && Settles(z) && Falls(z, a, t) && IsAware(z, ClockAt(z, a), f, s, r)
    requires IsFirstMatch(f, s, a + z(a), w) && t + z(a) <= w && IsFirst(z, w - z(a), w)
    ensures r.Some? && r.value.instant == w - z(a)
    ensures IsEarliest(z, f, s, a, r.value.instant) <==> !Repeats(z, f, s, a, t)
  {
    hide RealZone, Settles, Matches, InHorizon, IsAware, IsFirst, IsEarliest, Turns, Repeats, SecondSearchFits;
    OnceOffset(z, w, w - z(a));
    FallDrops(z, a, t);
    ShownAcross(z, f, s, a, t, w, w - z(a));
    ShownLands(z, w, w - z(a));
    ShownEarliest(z, f, s, a, t, w, w - z(a), w, r);
    NoneFits(z, f, s, a, t, z(a));
  }

  /** The clock is put on and the first match ahead exists: it is the answer, and the earliest
      firing. */
  lemma EarliestAcrossRise(z: Zone, f: Fields, s: Schedule, a: int, t: int, w: int, i: int, x: int, r: Option<Moment>)
    requires RealZone(z) && Settles(z) && Rises(z, a, t) && IsAware(z, ClockAt(z, a), f, s, r)
    requires IsFirstMatch(f, s, a + z(a), w) && IsFirst(z, i, w) && a < i
    requires SearchesAgain(z, f, s, a, z(i), x)
    ensures r == Some(Moment(w, i, w - i)) && IsEarliest(z, f, s, a, i)
  {
    hide RealZone, Settles, Matches, InHorizon, IsAware, IsFirst, IsEarliest, Turns, Repeats, SecondSearchFits;
    hide SearchesAgain;
    RiseSkips(z, a, t);
    ShownAcross(z, f, s, a, t, w, i);
    ShownLands(z, w, i);
    ShownEarliest(z, f, s, a, t, w, i, x, r);
    RiseRepeatsNothing(z, f, s, a, t);
  }

  // ----- the first match ahead lies in a gap -----

  /** The first whole minute the clock shows after the change. */
  predicate IsGapEnd(z: Zone, g: int, e: int) {
    e % MINUTE_MS == 0 && g + z(g) <= e < g + z(g) + MINUTE_MS
  }

  /** A wall time that the change at `g` skips. */
  predicate Skipped(z: Zone, g: int, wall: int) {
    g + z(g - 1) <= wall < g + z(g)
  }

  lemma GapIsMissing(z: Zone, g: int, wall: int)
    requires RealZone(z) && Skips(z, g) && Skipped(z, g, wall)
    ensures !Exists(z, wall)
  {
    forall i ensures !At(z, i, wall) {
      if At(z, i, wall) {
        if i < g { Sparse(z, i, g - 1, g); } else { Sparse(z, g - 1, g, i); }
      }
    }
  }

  /** The walls of the minute after the gap are first shown there. */
  lemma AfterRise(z: Zone, g: int, wall: int)
    requires RealZone(z) && Skips(z, g) && g + z(g) <= wall <= g + z(g) + MINUTE_MS
    ensures IsFirst(z, wall - z(g), wall) && g <= wall - z(g)
  {
    var i := wall - z(g);
    Sparse(z, g - 1, g, i);
    forall j | At(z, j, wall) ensures i <= j {
      if j < g { Sparse(z, j, g - 1, g); } else if j < i { Sparse(z, g - 1, g, j); }
    }
  }

  /** A missing whole minute is moved to the end of the gap. */
  lemma MovedToGapEnd(z: Zone, g: int, e: int, wall: int, moved: int)
    requires RealZone(z) && Skips(z, g) && IsGapEnd(z, g, e) && Skipped(z, g, wall) && wall % MINUTE_MS == 0
    ensures IsMoved(z, wall, moved) <==> moved == e
  {
    AfterRise(z, g, e);
    ExistsAt(z, e - z(g), e);
    forall v | wall < v < e && (v - wall) % MINUTE_MS == 0 ensures !Exists(z, v) {
      assert v <= e - MINUTE_MS;
      GapIsMissing(z, g, v);
    }
    assert IsMoved(z, wall, e);
  }

  lemma GapLands(z: Zone, g: int, e: int, wall: int)
    requires RealZone(z) && Skips(z, g) && IsGapEnd(z, g, e) && Skipped(z, g, wall) && wall % MINUTE_MS == 0
    ensures !Exists(z, wall) && Lands(z, wall, e, e - z(g)) && z(e - z(g)) == z(g) && g <= e - z(g)
  {
    hide RealZone, IsMoved, Exists, IsFirst;
    GapIsMissing(z, g, wall);
    MovedToGapEnd(z, g, e, wall, e);
    AfterRise(z, g, e);
    OnceOffset(z, e, e - z(g));
  }

  /** A gap at a later change lies past a change back. */
  lemma GapIsAhead(z: Zone, a: int, t: int, g: int, wall: int)
    requires RealZone(z) && Turns(z, a, t) && t <= g && Skips(z, g) && Skipped(z, g, wall)
    ensures z(t) < z(a) ==> t + z(a) <= wall
  {
    if t < g { assert Transition(z, t) && Transition(z, g); }
  }

  lemma GapAcross(z: Zone, f: Fields, s: Schedule, a: int, t: int, g: int, e: int, w: int)
    requires RealZone(z) && Turns(z, a, t) && t <= g && Skips(z, g) && IsGapEnd(z, g, e)
    requires IsFirstMatch(f, s, a + z(a), w) && Skipped(z, g, w) && Star !in f.hour
    ensures Across(z, f, s, a, t, w, e, e - z(g)) && z(e - z(g)) == z(g)
  {
    hide RealZone, IsFirstMatch, Lands, Exists, IsGapEnd, Skipped, Skips;
    FirstMatchFacts(f, s, a + z(a), w);
    GapLands(z, g, e, w);
    GapIsAhead(z, a, t, g, w);
  }

  /** With restricted hours a first match that a change skips, the next one or a later one,
      fires at the end of its gap. The answer is the earliest firing exactly when no match is
      repeated, or the second search finds the first repeated one. */
  lemma EarliestInGap(z: Zone, f: Fields, s: Schedule, a: int, t: int, g: int, e: int, w: int, x: int,
                      r: Option<Moment>)
    requires RealZone(z) && Settles(z) && Turns(z, a, t) && t <= g && QuietMinute(z, a)
    requires Skips(z, g) && IsGapEnd(z, g, e) && IsAware(z, ClockAt(z, a), f, s, r)
    requires IsFirstMatch(f, s, a + z(a), w) && Skipped(z, g, w) && Star !in f.hour
    requires SearchesAgain(z, f, s, a, z(g), x)
    ensures IsAnswer(z, a, t, e, e - z(g), x, r)
    ensures IsEarliestFiring(z, f, s, a, r.value.instant)
        <==> (Repeats(z, f, s, a, t) ==> SecondSearchFits(z, f, s, a, t, z(g)))
  {
    hide RealZone, Settles, IsAware, IsFirstMatch, Across, Turns, IsGapEnd, Skipped, Skips, QuietMinute;
    hide IsEarliestFiring, Repeats, SecondSearchFits, SearchesAgain;
    GapAcross(z, f, s, a, t, g, e, w);
    AcrossAnswer(z, f, s, a, t, w, e, e - z(g), x, r);
    EarliestAcrossChange(z, f, s, a, t, w, e, e - z(g), x, r);
  }

  /** When the very next change skips it, the end of the gap is the answer and the earliest
      firing. */
  lemma EarliestAtGapEnd(z: Zone, f: Fields, s: Schedule, a: int, t: int, e: int, w: int, x: int, r: Option<Moment>)
    requires RealZone(z) && Settles(z) && Rises(z, a, t) && IsGapEnd(z, t, e) && IsAware(z, ClockAt(z, a), f, s, r)
    requires IsFirstMatch(f, s, a + z(a), w) && t + z(a) <= w < t + z(t) && Star !in f.hour
    requires IsFirstMatch(f, s, a + z(t), x) && QuietMinute(z, a)
    ensures r == Some(Moment(e, e - z(t), z(t))) && IsEarliestFiring(z, f, s, a, e - z(t))
  {
    hide RealZone, Settles, IsAware, IsFirstMatch, Turns, IsGapEnd, QuietMinute, IsEarliestFiring, Repeats;
    hide SecondSearchFits;
    RiseSkips(z, a, t);
    EarliestInGap(z, f, s, a, t, t, e, w, x, r);
    GapEndOffset(z, t, e);
    RiseRepeatsNothing(z, f, s, a, t);
  }

  lemma GapEndOffset(z: Zone, g: int, e: int)
    requires RealZone(z) && Skips(z, g) && IsGapEnd(z, g, e)
    ensures z(e - z(g)) == z(g) && IsFirst(z, e - z(g), e)
  {
    hide RealZone;
    AfterRise(z, g, e);
  }

  // ----- a missing time when every hour is allowed -----

  /** A match that the change at `g` skips, the whole minute at the end of the gap, and the first
      match after it. */
  ghost predicate PastGap(z: Zone, f: Fields, s: Schedule, g: int, e: int, y: int, w: int) {
    && Skips(z, g) && IsGapEnd(z, g, e) && Skipped(z, g, y)
    && IsFirstMatch(f, s, g + z(g) - 1, w) && IsFirst(z, w - z(g), w) && InHorizon(y, w)
  }

  lemma PastGapFacts(z: Zone, f: Fields, s: Schedule, g: int, e: int, y: int, w: int)
    requires RealZone(z) && PastGap(z, f, s, g, e, y, w)
    ensures e <= w && g + z(g) <= w && z(w - z(g)) == z(g) && z(e - z(g)) == z(g) && g <= e - z(g)
    ensures Matches(f, s, w) && w % MINUTE_MS == 0 && forall v :: g + z(g) - 1 < v < w ==> !Matches(f, s, v)
    ensures Matches(f, s, e) <==> e == w
  {
    hide RealZone, IsFirstMatch, InHorizon, Matches;
    FirstMatchFacts(f, s, g + z(g) - 1, w);
    AfterRise(z, g, e);
  }

  /** Skipping on from a missing match ends with the first match after the gap. */
  lemma {:induction false} SkipToAfterGap(z: Zone, now: Moment, f: Fields, s: Schedule, g: int, e: int, y: int, w: int,
                                          r: Option<Moment>)
    requires RealZone(z) && Settles(z) && PastGap(z, f, s, g, e, y, w) && !Exists(z, y) && now.instant < w - z(g)
    requires IsSkip(z, y, now, f, s, r)
    ensures r == Some(Moment(w, w - z(g), z(g)))
    decreases g + z(g) - y
  {
    hide RealZone, Settles, Matches, InHorizon, IsZoned, Exists, IsFirst, IsFirstMatch, IsGapEnd, Lands;
    PastGapFacts(z, f, s, g, e, y, w);
    var found := Search(y, f, s);
    SearchReaches(f, s, y, w);
    if found.value < g + z(g) {
      GapIsMissing(z, g, found.value);
      LaterHorizon(y, found.value, w);
      SkipToAfterGap(z, now, f, s, g, e, found.value, w, r);
    } else {
      ShownLands(z, w, w - z(g));
      LandsZoned(z, w, w, w - z(g), now, r.value, true);
    }
  }

  /** A search that has a match ahead within its horizon finds one no later. */
  lemma SearchReaches(f: Fields, s: Schedule, y: int, w: int)
    requires y < w && Matches(f, s, w) && InHorizon(y, w)
    ensures Search(y, f, s).Some? && y < Search(y, f, s).value <= w && Matches(f, s, Search(y, f, s).value)
  {
    hide Matches, InHorizon;
  }

  lemma GapFirst(z: Zone, now: Moment, f: Fields, s: Schedule, g: int, e: int, y: int, w: int, first: Option<Moment>)
    requires RealZone(z) && Settles(z) && PastGap(z, f, s, g, e, y, w) && now.instant < e - z(g)
    requires IsFirstMoment(z, now, f, s, first) && IsFirstMatch(f, s, now.wall, y) && Star in f.hour
    ensures first == Some(Moment(w, w - z(g), z(g)))
  {
    hide RealZone, Settles, InHorizon, IsZoned, IsSkip, Exists, IsFirstMatch, Matches, IsFirst, IsGapEnd;
    FirstMatchIsSearch(f, s, now.wall, y);
    GapIsMissing(z, g, y);
    PastGapFacts(z, f, s, g, e, y, w);
    var m, there :| IsDelivered(z, y, now, f, s, m, there, first);
    ZonedFacts(z, y, now, m, there);
    SkipToAfterGap(z, now, f, s, g, e, y, w, first);
  }

  /** Before the first match after the gap, or its end, the clock shows no match from the
      missing one on. */
  lemma UnseenPastGap(z: Zone, f: Fields, s: Schedule, a: int, t: int, g: int, e: int, y: int, w: int)
    requires RealZone(z) && Turns(z, a, t) && t <= g && PastGap(z, f, s, g, e, y, w)
    requires IsFirstMatch(f, s, a + z(a), y)
    ensures Ahead(z, f, s, a, t, y, w, w - z(g)) && Ahead(z, f, s, a, t, y, e, e - z(g))
  {
    hide RealZone, IsFirstMatch, InHorizon, Matches, Turns, IsFirst, IsGapEnd;
    PastGapFacts(z, f, s, g, e, y, w);
    FirstMatchFacts(f, s, a + z(a), y);
    GapIsAhead(z, a, t, g, y);
    GapEndOffset(z, g, e);
    forall v | v < w - z(g) && Matches(f, s, v + z(v)) ensures v + z(v) < y {
      EarlierBefore(z, w, w - z(g), v);
      if y <= v + z(v) {
        GapIsMissing(z, g, v + z(v));
        ExistsAt(z, v, v + z(v));
      }
    }
    TurnsBefore(z, a, t);
  }

  lemma TurnsBefore(z: Zone, a: int, t: int)
    requires Turns(z, a, t)
    ensures a < t
  {}

  /** The answer past a gap: a repeated match the second search finds, the end of the gap when
      it meets a missing one, else the first match after the gap. */
  ghost predicate IsGapAnswer(z: Zone, a: int, t: int, g: int, e: int, w: int, x: int, r: Option<Moment>) {
    if Finds(z, a, t, z(g), x) then r == Some(Moment(x, x - z(t), z(t)))
    else if z(g) != z(a) && Skipped(z, g, x) then r == Some(Moment(e, e - z(g), z(g)))
    else r == Some(Moment(w, w - z(g), z(g)))
  }

  lemma GapAnswer(z: Zone, f: Fields, s: Schedule, a: int, t: int, g: int, e: int, y: int, w: int, x: int,
                  r: Option<Moment>)
    requires RealZone(z) && Settles(z) && Turns(z, a, t) && t <= g && PastGap(z, f, s, g, e, y, w)
    requires IsFirstMatch(f, s, a + z(a), y) && Star in f.hour
    requires IsAware(z, ClockAt(z, a), f, s, r) && SearchesAgain(z, f, s, a, z(g), x)
    ensures IsGapAnswer(z, a, t, g, e, w, x, r)
  {
    hide RealZone, Settles, InHorizon, IsFirstMoment, IsFirstMatch, Matches, IsFirst, IsGapEnd, Turns, IsBetter, Quiet;
    var first :| IsFirstMoment(z, ClockAt(z, a), f, s, first) && IsBetter(z, ClockAt(z, a), f, s, first, r);
    PastGapFacts(z, f, s, g, e, y, w);
    TurnsBefore(z, a, t);
    GapFirst(z, ClockAt(z, a), f, s, g, e, y, w, first);
    if z(g) == z(a) {
      SameOffset(z, ClockAt(z, a), f, s, first, r);
    } else {
      var m, there := SecondSearch(z, ClockAt(z, a), f, s, first.value, r, x);
      GapAlternative(z, f, s, a, t, g, e, y, w, x, m, there);
    }
  }

  lemma GapAlternative(z: Zone, f: Fields, s: Schedule, a: int, t: int, g: int, e: int, y: int, w: int, x: int,
                       m: Moment, there: bool)
    requires RealZone(z) && Turns(z, a, t) && t <= g && PastGap(z, f, s, g, e, y, w) && z(g) != z(a)
    requires IsFirstMatch(f, s, a + z(a), y) && SearchesAgain(z, f, s, a, z(g), x)
    requires IsZoned(z, x, ClockAt(z, a), m, there)
    ensures IsGapAnswer(z, a, t, g, e, w, x, Some(Earlier(ClockAt(z, a), m, Moment(w, w - z(g), z(g)))))
  {
    hide RealZone, IsZoned, IsFirstMatch, Matches, InHorizon, IsFirst, IsGapEnd, Turns, Ahead, Quiet, Lands, Exists;
    PastGapFacts(z, f, s, g, e, y, w);
    TurnsBefore(z, a, t);
    SecondMatch(f, s, a + z(a), a + z(g), y, x);
    FirstMatchFacts(f, s, a + z(g), x);
    if x <= a + z(a) {
      UnseenPastGap(z, f, s, a, t, g, e, y, w);
      PastAlternative(z, f, s, a, t, y, w, w - z(g), x, m, there);
      FirstMatchFacts(f, s, a + z(a), y);
      GapIsFar(z, a, t, g, x);
    } else if x < g + z(g) {
      GapLands(z, g, e, x);
      LandsZoned(z, x, e, e - z(g), ClockAt(z, a), m, there);
    } else {
      ShownLands(z, w, w - z(g));
      LandsZoned(z, w, w, w - z(g), ClockAt(z, a), m, there);
    }
  }

  /** The present time is before the gap. */
  lemma GapIsFar(z: Zone, a: int, t: int, g: int, x: int)
    requires RealZone(z) && Turns(z, a, t) && t <= g && Skips(z, g) && x <= a + z(a)
    ensures x < g + z(g - 1)
  {
    if t < g { assert Transition(z, t) && Transition(z, g); }
  }

  /** When every hour is allowed, missing matches are skipped, whichever change skips them. The
      answer is the earliest match the clock shows exactly when no match is repeated, or the
      second search finds the first repeated one; and when it meets a missing match, only if the
      end of the gap matches itself. */
  lemma EarliestPastAnyGap(z: Zone, f: Fields, s: Schedule, a: int, t: int, g: int, e: int, y: int, w: int, x: int,
                           r: Option<Moment>)
    requires RealZone(z) && Settles(z) && Turns(z, a, t) && t <= g && PastGap(z, f, s, g, e, y, w)
    requires IsFirstMatch(f, s, a + z(a), y) && Star in f.hour
    requires IsAware(z, ClockAt(z, a), f, s, r) && SearchesAgain(z, f, s, a, z(g), x)
    ensures r.Some?
    ensures IsEarliest(z, f, s, a, r.value.instant)
        <==> ((Repeats(z, f, s, a, t) ==> SecondSearchFits(z, f, s, a, t, z(g)))
              && (z(g) != z(a) && Skipped(z, g, x) ==> Matches(f, s, e)))
  {
    hide RealZone, Settles, InHorizon, IsAware, IsFirstMatch, Matches, IsFirst, IsGapEnd, Turns, Ahead, Quiet;
    hide Repeats, SecondSearchFits, NoneBefore;
    GapAnswer(z, f, s, a, t, g, e, y, w, x, r);
    PastGapFacts(z, f, s, g, e, y, w);
    UnseenPastGap(z, f, s, a, t, g, e, y, w);
    AheadTurns(z, f, s, a, t, y, w, w - z(g));
    AheadTurns(z, f, s, a, t, y, e, e - z(g));
    NoneBeforeAnswer(z, f, s, a, t, y, w, w - z(g), x, GapAnswerAt(z, a, t, g, w, x));
    NoneBeforeAnswer(z, f, s, a, t, y, e, e - z(g), x, GapAnswerAt(z, a, t, g, e, x));
    if Finds(z, a, t, z(g), x) {
      RepeatFound(z, f, s, a, t, y, w, w - z(g), x);
      GapIsFar(z, a, t, g, x);
    }
  }

  function GapAnswerAt(z: Zone, a: int, t: int, g: int, wall: int, x: int): int {
    if Finds(z, a, t, z(g), x) then x - z(t) else wall - z(g)
  }

  /** When the very next change skips it: exactly when the second search starts after the missing
      matches, or the minute at the end of the gap matches itself. */
  lemma EarliestPastGap(z: Zone, f: Fields, s: Schedule, a: int, t: int, e: int, y: int, w: int, x: int,
                        r: Option<Moment>)
    requires RealZone(z) && Settles(z) && Rises(z, a, t) && PastGap(z, f, s, t, e, y, w)
    requires IsFirstMatch(f, s, a + z(a), y) && Star in f.hour
    requires IsAware(z, ClockAt(z, a), f, s, r) && IsFirstMatch(f, s, a + z(t), x)
    ensures r.Some?
    ensures IsEarliest(z, f, s, a, r.value.instant)
        <==> ((forall v :: a + z(t) < v < t + z(t) ==> !Matches(f, s, v)) || Matches(f, s, e))
  {
    hide RealZone, Settles, InHorizon, IsAware, IsFirstMatch, Matches, IsFirst, IsGapEnd, Turns, IsEarliest;
    hide Repeats, SecondSearchFits, PastGap;
    RiseSkips(z, a, t);
    EarliestPastAnyGap(z, f, s, a, t, t, e, y, w, x, r);
    RiseRepeatsNothing(z, f, s, a, t);
    FirstMatchFacts(f, s, a + z(a), y);
    FirstMatchFacts(f, s, a + z(t), x);
    SecondMatch(f, s, a + z(a), a + z(t), y, x);
    TurnsBefore(z, a, t);
    assert Skipped(z, t, y) by { PastGapSkips(z, f, s, t, e, y, w); }
  }

  lemma PastGapSkips(z: Zone, f: Fields, s: Schedule, g: int, e: int, y: int, w: int)
    requires PastGap(z, f, s, g, e, y, w)
    ensures Skips(z, g) && IsGapEnd(z, g, e) && Skipped(z, g, y)
  {}
}
