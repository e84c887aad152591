/** Time zones: from a wall time to the instants that show it, `addTimezone`, and the
    assumptions a zone has to meet. */
module CronZone {
  import opened Basics
  import opened Calendar

  /** The offset in force at each instant, in milliseconds. */
  type Zone = int -> int

  /** A clock reading: wall time, instant and offset. */
  datatype Moment = Moment(wall: int, instant: int, offset: int)

  /** The offset changes at instant `t`. */
  predicate Transition(z: Zone, t: int) {
    z(t - 1) != z(t)
  }

  ghost predicate Bounded(z: Zone) {
    forall t :: -DAY_MS < z(t) < DAY_MS
  }

  /** Offsets below a day, changes more than two days apart. */
  ghost predicate RealZone(z: Zone) {
    Bounded(z) && forall s, t :: s < t && Transition(z, s) && Transition(z, t) ==> t - s > 2 * DAY_MS
  }

  /** Instant `i` shows wall time `wall`. */
  predicate At(z: Zone, i: int, wall: int) {
    i + z(i) == wall
  }

  ghost predicate Exists(z: Zone, wall: int) {
    exists i :: At(z, i, wall)
  }

  // ----- offsets around a transition -----

  lemma {:induction false} FindTransition(z: Zone, a: int, b: int) returns (t: int)
    requires a <= b && z(a) != z(b)
    ensures a < t <= b && Transition(z, t)
    decreases b - a
  {
    if z(b - 1) != z(b) { t := b; } else { t := FindTransition(z, a, b - 1); }
  }

  /** Within two days there is at most one change of offset. */
  lemma Sparse(z: Zone, a: int, b: int, c: int)
    requires RealZone(z) && a <= b <= c <= a + 2 * DAY_MS
    ensures z(b) == z(a) || z(b) == z(c)
  {
    if z(a) != z(b) && z(b) != z(c) {
      var s := FindTransition(z, a, b);
      var t := FindTransition(z, b, c);
      assert false;
    }
  }

  /** A missing wall time lies in a gap: the offset jumps up at some `t` a day off at most. */
  lemma GapOf(z: Zone, wall: int) returns (t: int)
    requires RealZone(z) && !Exists(z, wall)
    ensures wall - DAY_MS < t <= wall + DAY_MS && Transition(z, t)
    ensures t + z(t - 1) <= wall < t + z(t)
  {
    var a, c := wall - DAY_MS, wall + DAY_MS;
    assert !At(z, wall - z(a), wall) && !At(z, wall - z(c), wall);
    Sparse(z, a, wall - z(a), c);
    t := FindTransition(z, a, c);
    OneChange(z, a, t, c, wall - z(a));
    OneChange(z, a, t, c, wall - z(c));
    OneChange(z, a, t, c, t);
    OneChange(z, a, t, c, t - 1);
  }

  lemma OneChange(z: Zone, a: int, t: int, c: int, i: int)
    requires RealZone(z) && a < t <= c <= a + 2 * DAY_MS && Transition(z, t) && a <= i <= c
    ensures z(i) == if i < t then z(a) else z(c)
  {
    if i < t && z(a) != z(i) { var s := FindTransition(z, a, i); assert false; }
    if t <= i && z(i) != z(c) { var s := FindTransition(z, i, c); assert false; }
  }

  /** Just after the gap the wall times exist again. */
  lemma AfterGap(z: Zone, t: int, wall: int)
    requires RealZone(z) && Transition(z, t) && t + z(t) <= wall <= t + z(t) + MINUTE_MS
    ensures At(z, wall - z(t), wall)
  {
    OneChange(z, t - 1, t, t + DAY_MS, t);
    OneChange(z, t - 1, t, t + DAY_MS, wall - z(t));
  }

  // ----- instantsOf -----

  function Insert(s: seq<int>, x: int): (r: seq<int>)
    requires Ascending(s)
    ensures Ascending(r) && forall y :: y in r <==> y in s || y == x
  {
    if s == [] || x < s[0] then [x] + s
    else if x == s[0] then s
    else
      var rest := Insert(s[1..], x);
      assert forall i :: 0 <= i < |rest| ==> rest[i] in rest && (rest[i] in s[1..] || rest[i] == x);
      [s[0]] + rest
  }

  /** At most one change of offset within a day of the wall time. */
  ghost predicate CalmAround(z: Zone, wall: int) {
    forall s, t :: wall - DAY_MS < s < t <= wall + DAY_MS ==> !(Transition(z, s) && Transition(z, t))
  }

  /** The instants that show a wall time, in order: all of them when offsets stay below a
      day and at most one transition is near. */
  method InstantsOf(z: Zone, wall: int) returns (instants: seq<int>)
    ensures Ascending(instants) && forall i :: i in instants ==> At(z, i, wall)
    ensures Bounded(z) && CalmAround(z, wall) ==> forall i :: At(z, i, wall) ==> i in instants
  {
    var offsets := [z(wall - DAY_MS), z(wall), z(wall + DAY_MS)];
    instants := [];
    for k := 0 to |offsets|
      invariant Ascending(instants)
      invariant forall i :: i in instants <==> At(z, i, wall) && z(i) in offsets[..k]
    {
      var instant := wall - offsets[k];
      if z(instant) == offsets[k] { instants := Insert(instants, instant); }
      assert forall i :: At(z, i, wall) && z(i) == offsets[k] ==> i == instant;
    }
    if Bounded(z) && CalmAround(z, wall) {
      forall i | At(z, i, wall) ensures i in instants {
        CalmOffset(z, wall, i);
        assert offsets[0] in offsets && offsets[2] in offsets;
      }
    }
  }

  lemma CalmOffset(z: Zone, wall: int, i: int)
    requires CalmAround(z, wall) && wall - DAY_MS <= i <= wall + DAY_MS
    ensures z(i) == z(wall - DAY_MS) || z(i) == z(wall + DAY_MS)
  {
    if z(i) != z(wall - DAY_MS) && z(i) != z(wall + DAY_MS) {
      var s := FindTransition(z, wall - DAY_MS, i);
      var t := FindTransition(z, i, wall + DAY_MS);
      assert false;
    }
  }

  lemma RealZoneIsCalm(z: Zone, wall: int)
    requires RealZone(z)
    ensures Bounded(z) && CalmAround(z, wall)
  {}

  // ----- addTimezone -----

  ghost predicate IsFirst(z: Zone, i: int, wall: int) {
    At(z, i, wall) && forall j :: At(z, j, wall) ==> i <= j
  }

  ghost predicate IsLast(z: Zone, i: int, wall: int) {
    At(z, i, wall) && forall j :: At(z, j, wall) ==> j <= i
  }

  /** The first passage of an existing wall time if it is after `now`, else the last one. */
  ghost predicate IsPassage(z: Zone, wall: int, now: int, i: int) {
    (IsFirst(z, i, wall) && now < i) || (IsLast(z, i, wall) && exists first :: IsFirst(z, first, wall) && first <= now)
  }

  /** The least existing minute after a missing wall time. */
  ghost predicate IsMoved(z: Zone, wall: int, moved: int) {
    && wall < moved && (moved - wall) % MINUTE_MS == 0 && Exists(z, moved)
    && forall w :: wall < w < moved && (w - wall) % MINUTE_MS == 0 ==> !Exists(z, w)
  }

  /** What `addTimezone` answers. */
  ghost predicate IsZoned(z: Zone, wall: int, now: Moment, m: Moment, exists': bool) {
    && m.offset == z(m.instant) && At(z, m.instant, m.wall)
    && exists' == Exists(z, wall)
    && if exists' then m.wall == wall && IsPassage(z, wall, now.instant, m.instant)
       else IsMoved(z, wall, m.wall) && IsFirst(z, m.instant, m.wall)
  }

  method AddTimezone(z: Zone, wall: int, now: Moment) returns (m: Moment, exists': bool)
    requires RealZone(z)
    ensures IsZoned(z, wall, now, m, exists')
  {
    RealZoneIsCalm(z, wall);
    var instants := InstantsOf(z, wall);
    if |instants| == 0 {
      var t := GapOf(z, wall);
      var moved := wall + MINUTE_MS;
      RealZoneIsCalm(z, moved);
      instants := InstantsOf(z, moved);
      while |instants| == 0
        invariant wall < moved && (moved - wall) % MINUTE_MS == 0
        invariant Ascending(instants) && forall i :: i in instants <==> At(z, i, moved)
        invariant moved < t + z(t) + MINUTE_MS
        invariant forall w :: wall < w < moved && (w - wall) % MINUTE_MS == 0 ==> !Exists(z, w)
        decreases t + z(t) + MINUTE_MS - moved
      {
        if t + z(t) <= moved { AfterGap(z, t, moved); }
        NextOnGrid(z, wall, moved);
        moved := moved + MINUTE_MS;
        RealZoneIsCalm(z, moved);
        instants := InstantsOf(z, moved);
      }
      assert instants[0] in instants;
      return Moment(moved, instants[0], moved - instants[0]), false;
    }
    assert instants[0] in instants && instants[|instants| - 1] in instants;
    var instant := instants[0];
    assert IsFirst(z, instant, wall) && IsLast(z, instants[|instants| - 1], wall);
    if |instants| > 1 && !(instant > now.instant) { instant := instants[|instants| - 1]; }
    return Moment(wall, instant, wall - instant), true;
  }

  lemma NextOnGrid(z: Zone, wall: int, moved: int)
    requires (moved - wall) % MINUTE_MS == 0 && !Exists(z, moved)
    requires forall w :: wall < w < moved && (w - wall) % MINUTE_MS == 0 ==> !Exists(z, w)
    ensures forall w :: wall < w < moved + MINUTE_MS && (w - wall) % MINUTE_MS == 0 ==> !Exists(z, w)
  {
    forall w | wall < w < moved + MINUTE_MS && (w - wall) % MINUTE_MS == 0 ensures !Exists(z, w) {
      assert w <= moved;
    }
  }

  // ----- never back in time -----

  /** An instant chosen for a wall time later than the clock is itself later. */
  lemma ZonedIsLater(z: Zone, wall: int, now: Moment, m: Moment, exists': bool)
    requires RealZone(z) && now.offset == z(now.instant) && At(z, now.instant, now.wall)
    requires now.wall < wall && IsZoned(z, wall, now, m, exists')
    ensures m.instant > now.instant
  {
    if m.instant <= now.instant {
      var i, n := m.instant, now.instant;
      var j := m.wall - z(n);
      assert z(i) != z(n) && n < j <= i + 2 * DAY_MS;
      Sparse(z, i, n, j);
      assert At(z, j, m.wall);
      if !exists' {
        var k := wall - z(n);
        Sparse(z, n, k, j);
        Missing(z, k, wall);
        assert false;
      }
    }
  }

  lemma Missing(z: Zone, i: int, wall: int)
    requires !Exists(z, wall)
    ensures i + z(i) != wall
  {
    assert !At(z, i, wall);
  }

  // ----- every wall time is placed somewhere -----

  lemma {:induction false} FirstPassage(z: Zone, wall: int, i: int) returns (first: int)
    requires Bounded(z) && At(z, i, wall)
    ensures IsFirst(z, first, wall)
    decreases i - wall + DAY_MS
  {
    hide Bounded;
    if j :| j < i && At(z, j, wall) {
      NearWall(z, j, wall);
      first := FirstPassage(z, wall, j);
    } else {
      first := i;
    }
  }

  lemma {:induction false} LastPassage(z: Zone, wall: int, i: int) returns (last: int)
    requires Bounded(z) && At(z, i, wall)
    ensures IsLast(z, last, wall)
    decreases wall + DAY_MS - i
  {
    hide Bounded;
    if j :| i < j && At(z, j, wall) {
      NearWall(z, j, wall);
      last := LastPassage(z, wall, j);
    } else {
      last := i;
    }
  }

  lemma NearWall(z: Zone, i: int, wall: int)
    requires Bounded(z) && At(z, i, wall)
    ensures wall - DAY_MS < i < wall + DAY_MS
  {}

  lemma {:induction false} LeastMoved(z: Zone, wall: int, later: int) returns (moved: int)
    requires wall < later && (later - wall) % MINUTE_MS == 0 && Exists(z, later)
    ensures IsMoved(z, wall, moved)
    decreases later - wall
  {
    hide Exists;
    if w :| wall < w < later && (w - wall) % MINUTE_MS == 0 && Exists(z, w) {
      moved := LeastMoved(z, wall, w);
    } else {
      moved := later;
    }
  }

  /** A minute on the grid of a missing wall time, just past the end of its gap. */
  lemma GridPastGap(z: Zone, g: int, wall: int) returns (k: int)
    requires RealZone(z) && Transition(z, g) && g + z(g - 1) <= wall < g + z(g)
    ensures wall < k < g + z(g) + MINUTE_MS && (k - wall) % MINUTE_MS == 0 && At(z, k - z(g), k)
  {
    k := wall + (g + z(g) - wall + MINUTE_MS - 1) / MINUTE_MS * MINUTE_MS;
    assert (k - wall) % MINUTE_MS == 0;
    AfterGap(z, g, k);
  }

  lemma ZonedExists(z: Zone, wall: int, now: Moment) returns (m: Moment)
    requires RealZone(z)
    ensures IsZoned(z, wall, now, m, Exists(z, wall))
  {
    hide IsMoved, IsFirst, IsLast;
    if Exists(z, wall) {
      var i :| At(z, i, wall);
      m := PassageExists(z, wall, now, i);
    } else {
      var g := GapOf(z, wall);
      var k := GridPastGap(z, g, wall);
      assert Exists(z, k);
      var moved := LeastMoved(z, wall, k);
      m := MovedZoned(z, wall, moved);
    }
  }

  lemma PassageExists(z: Zone, wall: int, now: Moment, i: int) returns (m: Moment)
    requires RealZone(z) && At(z, i, wall)
    ensures m == Moment(wall, m.instant, z(m.instant)) && At(z, m.instant, wall)
    ensures IsPassage(z, wall, now.instant, m.instant)
  {
    hide RealZone;
    RealZoneIsCalm(z, wall);
    var first := FirstPassage(z, wall, i);
    if now.instant < first {
      m := Moment(wall, first, z(first));
    } else {
      var last := LastPassage(z, wall, i);
      m := Moment(wall, last, z(last));
    }
  }

  lemma MovedZoned(z: Zone, wall: int, moved: int) returns (m: Moment)
    requires RealZone(z) && IsMoved(z, wall, moved)
    ensures m == Moment(moved, m.instant, z(m.instant)) && At(z, m.instant, moved) && IsFirst(z, m.instant, moved)
  {
    hide RealZone;
    RealZoneIsCalm(z, moved);
    var i :| At(z, i, moved);
    var first := FirstPassage(z, moved, i);
    m := Moment(moved, first, z(first));
  }
}
