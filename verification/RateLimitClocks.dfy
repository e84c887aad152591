/** The limiter when its clocks do not keep pace: exactly when the bound fails, and what a
    lagging API clock still finds in the set. */
module RateLimitClocks {
  import opened RateLimit

  // ----- Redis drops the key too early -----

  /** The next request takes its own window over the limit exactly when the window is full
      and Redis has dropped a hit it still covers. */
  lemma BoundFailsExactly(start: World, rs: seq<Request>, r: Request, window: int)
    requires window >= 1 && GoodRun(start, rs, window) && InOrder(Served(start, rs, window), r) && r.limit > 0
    requires forall i :: 0 <= i < |rs| ==> rs[i].limit <= r.limit
    ensures var w, from := Served(start, rs, window), r.sent - window * SECOND;
            (Count(Serve(w, r, window).log, from, r.sent) > r.limit)
            <==> (!InPace(w, r, window) && Count(w.log, from, r.sent) == r.limit)
  {
    hide Served, Pruned, Faithful, InPace, Count;
    var w, from := Served(start, rs, window), r.sent - window * SECOND;
    RunFaithful(start, rs, window);
    WindowBound(start, rs, window, r.limit, r.sent);
    CountIsExact(w, r, window);
    OneMore(w.log, r.sent, from);
    if !InPace(w, r, window) { DroppedIsEmpty(w, r, window); }
  }

  lemma OneMore(log: seq<int>, x: int, from: int)
    requires from < x
    ensures Count(log + [x], from, x) == Count(log, from, x) + 1
  {
    assert (log + [x])[..|log|] == log;
  }

  lemma DroppedIsEmpty(w: World, r: Request, window: int)
    requires !InPace(w, r, window)
    ensures Live(w.key, r.at) == [] && Pruned(Live(w.key, r.at), r.sent - window * SECOND) == []
  {}

  /** Requests that Redis serves at the very time they are sent, in order. */
  predicate OneClock(start: World, rs: seq<Request>) {
    && (forall i :: 0 <= i < |rs| ==> rs[i].sent == rs[i].at && start.sent <= rs[i].sent && start.at <= rs[i].at)
    && forall i, j :: 0 <= i < j < |rs| ==> rs[i].sent <= rs[j].sent
  }

  /** On one clock Redis always keeps pace, so the bound holds in every run. */
  lemma {:induction false} OneClockKeepsPace(start: World, rs: seq<Request>, window: int)
    requires window >= 1 && Fresh(start) && OneClock(start, rs)
    ensures GoodRun(start, rs, window)
    ensures var w := Served(start, rs, window);
            && (w.log != [] ==> w.key.expiresAt == w.log[|w.log| - 1] + window * SECOND)
            && (rs == [] ==> w == start) && (rs != [] ==> w.sent == w.at == rs[|rs| - 1].sent)
  {
    hide Pruned, Add;
    if rs == [] {
    } else {
      OneClockKeepsPace(start, rs[..|rs| - 1], window);
    }
  }

  lemma OneClockBound(start: World, rs: seq<Request>, window: int, limit: nat, t: int)
    requires window >= 1 && Fresh(start) && OneClock(start, rs)
    requires forall i :: 0 <= i < |rs| ==> rs[i].limit <= limit
    ensures Count(Served(start, rs, window).log, t - window * SECOND, t) <= limit
  {
    OneClockKeepsPace(start, rs, window);
    WindowBound(start, rs, window, limit, t);
  }

  /** Expiry counts from Redis' clock: a request that reaches Redis late finds the key gone
      while its own window still covers the last hit. */
  lemma LateRequestSlipsIn()
    ensures var start, rs := World(Key([], 0), [], 0, 0), [Request(0, 0, 1), Request(59_999, 60_000, 1)];
            !GoodRun(start, rs, 60) && Count(Served(start, rs, 60).log, -1, 59_999) == 2
  {
    var start, rs := World(Key([], 0), [], 0, 0), [Request(0, 0, 1), Request(59_999, 60_000, 1)];
    var one := rs[..1];
    assert one[..0] == [] && rs[..|rs| - 1] == one;
    assert Served(start, one, 60) == Serve(start, rs[0], 60);
    assert Served(start, one, 60) == World(Key([0], 60_000), [0], 0, 0);
    assert Served(start, rs, 60).log == [0, 59_999];
    assert [0, 59_999][..1] == [0];
    assert Count([0], -1, 59_999) == 1;
  }

  // ----- an API clock that lags -----

  /** A hit and the latest send time of the limited requests served from it on. */
  datatype Mark = Mark(score: int, latest: int)

  function Touch(marks: seq<Mark>, sent: int): seq<Mark> {
    seq(|marks|, i requires 0 <= i < |marks| =>
      marks[i].(latest := if marks[i].latest > sent then marks[i].latest else sent))
  }

  /** The hits of a run, whatever its send times. */
  function Marks(start: World, rs: seq<Request>, window: int): seq<Mark> {
    if rs == [] then []
    else
      var r, before := rs[|rs| - 1], Marks(start, rs[..|rs| - 1], window);
      if r.limit <= 0 then before
      else if Step(Served(start, rs[..|rs| - 1], window).key, r, window).1.allowed then
        Touch(before, r.sent) + [Mark(r.sent, r.sent)]
      else Touch(before, r.sent)
  }

  /** The marks are the log of the run, with the latest send times added. */
  lemma {:induction false} MarksAreTheLog(start: World, rs: seq<Request>, window: int)
    requires start.log == []
    ensures var marks, log := Marks(start, rs, window), Served(start, rs, window).log;
            |marks| == |log| && forall i :: 0 <= i < |log| ==> marks[i].score == log[i] <= marks[i].latest
  {
    if rs == [] {
    } else {
      MarksAreTheLog(start, rs[..|rs| - 1], window);
    }
  }

  /** No limited request finds that Redis has dropped hits. */
  predicate KeyLives(start: World, rs: seq<Request>, window: int) {
    if rs == [] then start.key.hits == [] && start.log == []
    else
      var key, r := Served(start, rs[..|rs| - 1], window).key, rs[|rs| - 1];
      KeyLives(start, rs[..|rs| - 1], window) && (r.limit > 0 ==> r.at < key.expiresAt || key.hits == [])
  }

  /** How many hits lie after `from`. */
  function Above(s: seq<int>, from: int): nat {
    if s == [] then 0 else Above(s[1..], from) + if s[0] > from then 1 else 0
  }

  /** How many marked hits lie after `from` and were never out of a served window. */
  function AboveKept(marks: seq<Mark>, window: int, from: int): nat {
    if marks == [] then 0
    else
      var m := marks[|marks| - 1];
      AboveKept(marks[..|marks| - 1], window, from)
      + if m.score > from && m.score > m.latest - window * SECOND then 1 else 0
  }

  function AboveAll(marks: seq<Mark>, from: int): nat {
    if marks == [] then 0 else AboveAll(marks[..|marks| - 1], from) + if marks[|marks| - 1].score > from then 1 else 0
  }

  lemma {:induction false} AboveAdd(hits: seq<int>, x: int, from: int)
    ensures Above(Add(hits, x), from) == Above(hits, from) + if x > from then 1 else 0
  {
    if hits == [] || x < hits[0] {
      assert ([x] + hits)[1..] == hits;
    } else {
      AboveAdd(hits[1..], x, from);
      assert ([hits[0]] + Add(hits[1..], x))[1..] == Add(hits[1..], x);
    }
  }

  lemma {:induction false} AbovePruned(hits: seq<int>, cut: int, from: int)
    requires Sorted(hits)
    ensures Above(Pruned(hits, cut), from) == Above(hits, if cut > from then cut else from)
    ensures |Pruned(hits, cut)| == Above(hits, cut)
  {
    if hits == [] {
    } else if hits[0] <= cut {
      AbovePruned(hits[1..], cut, from);
    } else {
      AllAbove(hits, cut, from);
    }
  }

  lemma {:induction false} AllAbove(hits: seq<int>, cut: int, from: int)
    requires forall i :: 0 <= i < |hits| ==> hits[i] > cut
    ensures Above(hits, cut) == |hits|
    ensures Above(hits, from) == Above(hits, if cut > from then cut else from)
  {
    if hits == [] {
    } else {
      AllAbove(hits[1..], cut, from);
    }
  }

  lemma {:induction false} KeptTouched(marks: seq<Mark>, sent: int, window: int, from: int)
    ensures AboveKept(Touch(marks, sent), window, from)
         == AboveKept(marks, window, if sent - window * SECOND > from then sent - window * SECOND else from)
  {
    if marks == [] {
    } else {
      var front := marks[..|marks| - 1];
      KeptTouched(front, sent, window, from);
      assert Touch(marks, sent)[..|marks| - 1] == Touch(front, sent);
    }
  }

  /** The set holds just the marked hits that no served window has left behind. */
  ghost predicate SetIsKept(hits: seq<int>, marks: seq<Mark>, window: int) {
    Sorted(hits) && forall from :: Above(hits, from) == AboveKept(marks, window, from)
  }

  lemma {:induction false} RunKeeps(start: World, rs: seq<Request>, window: int)
    requires window >= 1 && KeyLives(start, rs, window)
    ensures SetIsKept(Served(start, rs, window).key.hits, Marks(start, rs, window), window)
  {
    hide Served, Step, Pruned, Touch;
    if rs == [] {
      assert Served(start, rs, window) == start by { EmptyRun(start, window); }
    } else {
      var front, r := rs[..|rs| - 1], rs[|rs| - 1];
      RunKeeps(start, front, window);
      assert Served(start, rs, window) == Serve(Served(start, front, window), r, window) by {
        LastServed(start, rs, window);
      }
      StepKeeps(Served(start, front, window).key, r, Marks(start, front, window), window);
    }
  }

  lemma EmptyRun(start: World, window: int)
    ensures Served(start, [], window) == start
  {}

  lemma LastServed(start: World, rs: seq<Request>, window: int)
    requires rs != []
    ensures Served(start, rs, window) == Serve(Served(start, rs[..|rs| - 1], window), rs[|rs| - 1], window)
  {}

  lemma StepKeeps(key: Key, r: Request, marks: seq<Mark>, window: int)
    requires window >= 1 && SetIsKept(key.hits, marks, window)
    requires r.limit > 0 ==> r.at < key.expiresAt || key.hits == []
    ensures var (key', result) := Step(key, r, window);
            SetIsKept(key'.hits,
                      if r.limit <= 0 then marks
                      else if result.allowed then Touch(marks, r.sent) + [Mark(r.sent, r.sent)]
                      else Touch(marks, r.sent), window)
  {
    hide Pruned, Touch, Above, Add, Sorted;
    if r.limit > 0 {
      var cut := r.sent - window * SECOND;
      var hits := Pruned(key.hits, cut);
      SuffixSorted(key.hits, cut);
      AddKeepsOrder(hits, r.sent);
      var touched := Touch(marks, r.sent);
      assert (touched + [Mark(r.sent, r.sent)])[..|touched|] == touched;
      forall from
        ensures Above(hits, from) == AboveKept(touched, window, from)
        ensures Above(Add(hits, r.sent), from) == AboveKept(touched + [Mark(r.sent, r.sent)], window, from)
      {
        AbovePruned(key.hits, cut, from);
        KeptTouched(marks, r.sent, window, from);
        AboveAdd(hits, r.sent, from);
      }
    }
  }

  lemma {:induction false} KeptIsAll(marks: seq<Mark>, window: int, from: int)
    ensures AboveKept(marks, window, from) <= AboveAll(marks, from)
    ensures AboveKept(marks, window, from) == AboveAll(marks, from)
      <==> forall i :: 0 <= i < |marks| && marks[i].score > from ==> marks[i].latest - window * SECOND < marks[i].score
  {
    if marks == [] {
    } else {
      var front := marks[..|marks| - 1];
      KeptIsAll(front, window, from);
      assert forall i :: 0 <= i < |front| ==> front[i] == marks[i];
      if forall i :: 0 <= i < |front| && front[i].score > from ==> front[i].latest - window * SECOND < front[i].score {
      } else {
        var i :| 0 <= i < |front| && front[i].score > from && front[i].latest - window * SECOND >= front[i].score;
        assert marks[i] == front[i];
      }
    }
  }

  /** For requests sent in any order, the script counts every hit its window covers exactly
      when no limited request served since such a hit was sent a whole window after it. */
  lemma LaggingCountIsExact(start: World, rs: seq<Request>, r: Request, window: int)
    requires window >= 1 && KeyLives(start, rs + [r], window) && r.limit > 0
    ensures var from, marks := r.sent - window * SECOND, Marks(start, rs, window);
            (|Pruned(Live(Served(start, rs, window).key, r.at), from)| == AboveAll(marks, from))
            <==> forall i :: 0 <= i < |marks| && marks[i].score > from ==>
                   marks[i].latest - window * SECOND < marks[i].score
  {
    hide Served, Pruned, Above, AboveKept, AboveAll, Marks;
    assert (rs + [r])[..|rs|] == rs;
    RunKeeps(start, rs, window);
    var from, hits, marks := r.sent - window * SECOND, Served(start, rs, window).key.hits, Marks(start, rs, window);
    AbovePruned(hits, from, from);
    KeptIsAll(marks, window, from);
  }

  /** For requests sent in any order, the next one takes its own window over the limit exactly when
      that window is over it already, or is full while fewer hits than the limit are left that no
      served window has left behind. */
  lemma LaggingBoundFailsExactly(start: World, rs: seq<Request>, r: Request, window: int)
    requires window >= 1 && KeyLives(start, rs + [r], window) && r.limit > 0
    ensures var w, from := Served(start, rs, window), r.sent - window * SECOND;
            Count(Serve(w, r, window).log, from, r.sent) > r.limit
            <==> (|| Count(w.log, from, r.sent) > r.limit
                  || (Count(w.log, from, r.sent) == r.limit
                      && AboveKept(Marks(start, rs, window), window, from) < r.limit))
  {
    hide Served, Pruned, Above, AboveKept, Marks, Count;
    assert (rs + [r])[..|rs|] == rs;
    RunKeeps(start, rs, window);
    var w, from := Served(start, rs, window), r.sent - window * SECOND;
    AbovePruned(w.key.hits, from, from);
    OneMore(w.log, r.sent, from);
  }

  /** A clock that lags behind another: the hits its window covers are already pruned. */
  lemma ClockBehindSlipsIn()
    ensures var start := World(Key([], 0), [], 0, 0);
            var rs := [Request(0, 0, 2), Request(1, 1, 2), Request(60_001, 60_001, 2), Request(59_999, 60_001, 2)];
            Count(Served(start, rs, 60).log, -1, 59_999) == 3
  {
    var start := World(Key([], 0), [], 0, 0);
    var rs := [Request(0, 0, 2), Request(1, 1, 2), Request(60_001, 60_001, 2), Request(59_999, 60_001, 2)];
    var w1, w2 := World(Key([0], 60_000), [0], 0, 0), World(Key([0, 1], 60_001), [0, 1], 1, 1);
    var w3 := World(Key([60_001], 120_001), [0, 1, 60_001], 60_001, 60_001);
    assert Serve(start, rs[0], 60) == w1;
    assert Serve(w1, rs[1], 60) == w2;
    assert Serve(w2, rs[2], 60) == w3;
    assert Serve(w3, rs[3], 60).log == [0, 1, 60_001, 59_999];
    assert rs[..3][..2] == rs[..2] && rs[..2][..1] == rs[..1] && rs[..1][..0] == [];
    assert Served(start, rs[..1], 60) == w1;
    assert Served(start, rs[..2], 60) == w2;
    assert Served(start, rs[..3], 60) == w3;
    assert [0, 1, 60_001, 59_999][..3] == [0, 1, 60_001] && [0, 1, 60_001][..2] == [0, 1] && [0, 1][..1] == [0];
    assert Count([0], -1, 59_999) == 1;
    assert Count([0, 1], -1, 59_999) == 2;
    assert Count([0, 1, 60_001], -1, 59_999) == 2;
  }
}
