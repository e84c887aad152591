/** The sliding-window rate limiter: a sorted set of hits, pruned in place and expiring.
    Times are in milliseconds, the window is given in seconds. */
module RateLimit {

  const SECOND := 1000

  /** The sorted set and the time Redis drops it. */
  datatype Key = Key(hits: seq<int>, expiresAt: int)

  /** `sent` is the API's clock when the call starts, `at` Redis' clock when the script runs. */
  datatype Request = Request(sent: int, at: int, limit: int)

  datatype Result = Result(allowed: bool, remaining: int, retryAfter: int)

  predicate Sorted(s: seq<int>) {
    forall i, j :: 0 <= i < j < |s| ==> s[i] <= s[j]
  }

  predicate UpTo(s: seq<int>, x: int) {
    forall i :: 0 <= i < |s| ==> s[i] <= x
  }

  /** `ZREMRANGEBYSCORE -inf start`, which is inclusive. */
  function Pruned(hits: seq<int>, start: int): seq<int> {
    if hits == [] || hits[0] > start then hits else Pruned(hits[1..], start)
  }

  /** `ZADD` with a member of its own. */
  function Add(hits: seq<int>, score: int): seq<int> {
    if hits == [] || score < hits[0] then [score] + hits else [hits[0]] + Add(hits[1..], score)
  }

  function CeilSeconds(ms: int): (n: int)
    ensures ms <= n * SECOND < ms + SECOND
  {
    (ms + SECOND - 1) / SECOND
  }

  function Live(key: Key, at: int): seq<int> {
    if at < key.expiresAt then key.hits else []
  }

  function RetryAfter(oldest: int, sent: int, window: int): int {
    var n := CeilSeconds(oldest + window * SECOND - sent);
    if n < 1 then 1 else n
  }

  function Step(key: Key, r: Request, window: int): (Key, Result) {
    if r.limit <= 0 then (key, Result(true, -1, 0))
    else
      var hits := Pruned(Live(key, r.at), r.sent - window * SECOND);
      if |hits| >= r.limit then (Key(hits, key.expiresAt), Result(false, 0, RetryAfter(hits[0], r.sent, window)))
      else (Key(Add(hits, r.sent), r.at + window * SECOND), Result(true, r.limit - |hits| - 1, 0))
  }

  class SlidingWindow {
    var hits: seq<int>
    var expiresAt: int

    constructor (at: int)
      ensures Contents() == Key([], at)
    {
      hits, expiresAt := [], at;
    }

    function Contents(): Key
      reads this
    {
      Key(hits, expiresAt)
    }

    /** `sliding_window_hit` with its script, which Redis runs as one command. */
    method Hit(sent: int, at: int, limit: int, window: int) returns (r: Result)
      modifies this
      ensures (Contents(), r) == Step(old(Contents()), Request(sent, at, limit), window)
    {
      if limit <= 0 { return Result(true, -1, 0); }
      if expiresAt <= at { hits := []; }
      ghost var live := hits;
      while hits != [] && hits[0] <= sent - window * SECOND
        invariant expiresAt == old(expiresAt)
        invariant Pruned(hits, sent - window * SECOND) == Pruned(live, sent - window * SECOND)
        decreases |hits|
      {
        hits := hits[1..];
      }
      var count := |hits|;
      if count >= limit {
        var retryAfter := window;
        if hits != [] {
          retryAfter := CeilSeconds(hits[0] + window * SECOND - sent);
          if retryAfter < 1 { retryAfter := 1; }
        }
        return Result(false, 0, retryAfter);
      }
      hits := Add(hits, sent);
      expiresAt := at + window * SECOND;
      return Result(true, limit - count - 1, 0);
    }
  }

  // ----- runs, beside a log that forgets nothing -----

  /** `log` holds the send times of all hits admitted under a limit, `sent` and `at` the last
      clocks; none of them is read by the limiter. */
  datatype World = World(key: Key, log: seq<int>, sent: int, at: int)

  function Serve(w: World, r: Request, window: int): World {
    var (key, result) := Step(w.key, r, window);
    World(key, if r.limit > 0 && result.allowed then w.log + [r.sent] else w.log, r.sent, r.at)
  }

  function Served(start: World, rs: seq<Request>, window: int): World {
    if rs == [] then start else Serve(Served(start, rs[..|rs| - 1], window), rs[|rs| - 1], window)
  }

  predicate Fresh(w: World) {
    w.key.hits == [] && w.log == [] && w.sent <= w.at
  }

  /** Both clocks go on, and a call is sent before it is served. */
  predicate InOrder(w: World, r: Request) {
    w.sent <= r.sent && w.at <= r.at && r.sent <= r.at
  }

  /** Redis has not dropped a hit that the window of the request still covers. */
  predicate InPace(w: World, r: Request, window: int) {
    w.log != [] && r.at >= w.key.expiresAt ==> w.log[|w.log| - 1] <= r.sent - window * SECOND
  }

  predicate GoodRun(start: World, rs: seq<Request>, window: int) {
    if rs == [] then Fresh(start)
    else
      var before := Served(start, rs[..|rs| - 1], window);
      && GoodRun(start, rs[..|rs| - 1], window)
      && InOrder(before, rs[|rs| - 1])
      && (rs[|rs| - 1].limit > 0 ==> InPace(before, rs[|rs| - 1], window))
  }

  /** Hits after `from` and up to `to`. */
  function Count(log: seq<int>, from: int, to: int): nat {
    if log == [] then 0
    else Count(log[..|log| - 1], from, to) + if from < log[|log| - 1] <= to then 1 else 0
  }

  /** The decision the full log calls for. */
  ghost predicate Decides(log: seq<int>, r: Request, window: int, result: Result) {
    var n := Count(log, r.sent - window * SECOND, r.sent);
    if r.limit <= 0 then result == Result(true, -1, 0)
    else if n < r.limit then result == Result(true, r.limit - n - 1, 0)
    else
      && !result.allowed && result.remaining == 0
      && exists i ::
           && 0 <= i < |log| && IsOldest(log, i, r.sent - window * SECOND)
           && result.retryAfter == CeilSeconds(log[i] + window * SECOND - r.sent)
  }

  predicate IsOldest(log: seq<int>, i: int, start: int)
    requires 0 <= i < |log|
  {
    start < log[i] && forall j :: 0 <= j < |log| && start < log[j] ==> log[i] <= log[j]
  }

  // ----- the key holds the part of the log that still matters -----

  ghost predicate Faithful(w: World, window: int) {
    && Sorted(w.log) && w.sent <= w.at
    && UpTo(w.log, w.sent)
    && (exists cut :: cut <= w.sent - window * SECOND && w.key.hits == Pruned(w.log, cut))
  }

  /** What is left is the end of the set, from the first hit inside the window on. */
  lemma {:induction false} PrunedIsSuffix(s: seq<int>, start: int)
    ensures var r := Pruned(s, start);
            |r| <= |s| && r == s[|s| - |r|..] && UpTo(s[..|s| - |r|], start) && (r != [] ==> r[0] > start)
  {
    if s == [] || s[0] > start {
    } else {
      PrunedIsSuffix(s[1..], start);
      var r := Pruned(s, start);
      assert s[..|s| - |r|] == [s[0]] + s[1..][..|s[1..]| - |r|];
    }
  }

  /** The set gains just the new hit. */
  lemma {:induction false} AddGains(hits: seq<int>, score: int)
    ensures multiset(Add(hits, score)) == multiset(hits) + multiset{score}
  {
    if hits == [] || score < hits[0] {
    } else {
      AddGains(hits[1..], score);
      assert hits == [hits[0]] + hits[1..];
    }
  }

  lemma {:induction false} AddKeepsOrder(hits: seq<int>, score: int)
    requires Sorted(hits)
    ensures Sorted(Add(hits, score))
    ensures hits != [] ==> Add(hits, score)[0] == if score < hits[0] then score else hits[0]
  {
    if hits == [] || score < hits[0] {
    } else {
      var rest := hits[1..];
      AddKeepsOrder(rest, score);
      Consed(hits[0], Add(rest, score));
    }
  }

  lemma Consed(x: int, s: seq<int>)
    requires Sorted(s) && (s != [] ==> x <= s[0])
    ensures Sorted([x] + s)
  {
    forall i, j | 0 <= i < j < |[x] + s| ensures ([x] + s)[i] <= ([x] + s)[j] {
      if i == 0 { assert s[0] <= s[j - 1]; }
    }
  }

  lemma {:induction false} AddAtEnd(hits: seq<int>, score: int)
    requires UpTo(hits, score)
    ensures Add(hits, score) == hits + [score]
  {
    if hits == [] {
    } else {
      AddAtEnd(hits[1..], score);
    }
  }

  lemma {:induction false} PrunedTwice(log: seq<int>, cut: int, start: int)
    requires cut <= start
    ensures Pruned(Pruned(log, cut), start) == Pruned(log, start)
  {
    if log == [] || log[0] > cut {
    } else {
      PrunedTwice(log[1..], cut, start);
    }
  }

  lemma {:induction false} PrunedMore(log: seq<int>, start: int, x: int)
    requires start < x
    ensures Pruned(log + [x], start) == Pruned(log, start) + [x]
  {
    if log == [] || log[0] > start {
    } else {
      assert (log + [x])[1..] == log[1..] + [x];
      PrunedMore(log[1..], start, x);
    }
  }

  lemma {:induction false} PrunedAll(log: seq<int>, start: int)
    requires Sorted(log)
    ensures Pruned(log, start) == [] <==> log == [] || log[|log| - 1] <= start
  {
    if log == [] {
    } else {
      var r := Pruned(log, start);
      PrunedIsSuffix(log, start);
      if r != [] { assert r[|r| - 1] == log[|log| - 1] && r[0] <= r[|r| - 1]; }
    }
  }

  lemma {:induction false} PrunedCounts(log: seq<int>, start: int, to: int)
    requires Sorted(log) && UpTo(log, to)
    ensures |Pruned(log, start)| == Count(log, start, to)
  {
    if log != [] {
      var front, last := log[..|log| - 1], log[|log| - 1];
      assert log == front + [last];
      PrunedCounts(front, start, to);
      if start < last {
        PrunedMore(front, start, last);
      } else {
        PrunedAll(log, start);
        PrunedAll(front, start);
      }
    }
  }

  /** What the script counts is what the log says, exactly when Redis kept pace. */
  lemma CountIsExact(w: World, r: Request, window: int)
    requires Faithful(w, window) && InOrder(w, r)
    ensures var start := r.sent - window * SECOND;
            |Pruned(Live(w.key, r.at), start)| == Count(w.log, start, r.sent) <==> InPace(w, r, window)
    ensures InPace(w, r, window) ==>
      Pruned(Live(w.key, r.at), r.sent - window * SECOND) == Pruned(w.log, r.sent - window * SECOND)
  {
    var start := r.sent - window * SECOND;
    var cut :| cut <= w.sent - window * SECOND && w.key.hits == Pruned(w.log, cut);
    PrunedTwice(w.log, cut, start);
    PrunedCounts(w.log, start, r.sent);
    PrunedAll(w.log, start);
  }

  lemma ServeFaithful(w: World, r: Request, window: int)
    requires window >= 1 && Faithful(w, window) && InOrder(w, r) && (r.limit > 0 ==> InPace(w, r, window))
    ensures Faithful(Serve(w, r, window), window)
  {
    hide Pruned, Add, InPace, Sorted, Count;
    var start := r.sent - window * SECOND;
    var cut :| cut <= w.sent - window * SECOND && w.key.hits == Pruned(w.log, cut);
    if r.limit > 0 {
      CountIsExact(w, r, window);
      PrunedMore(w.log, start, r.sent);
      PrunedIsSuffix(w.log, start);
      AddAtEnd(Pruned(w.log, start), r.sent);
      SortedMore(w.log, r.sent);
    } else {
      assert cut <= r.sent - window * SECOND;
    }
  }

  lemma SortedMore(s: seq<int>, x: int)
    requires Sorted(s) && UpTo(s, x)
    ensures Sorted(s + [x])
  {}

  lemma {:induction false} RunFaithful(start: World, rs: seq<Request>, window: int)
    requires window >= 1 && GoodRun(start, rs, window)
    ensures Faithful(Served(start, rs, window), window)
  {
    if rs == [] {
      assert start.key.hits == Pruned(start.log, start.sent - window * SECOND);
    } else {
      RunFaithful(start, rs[..|rs| - 1], window);
      ServeFaithful(Served(start, rs[..|rs| - 1], window), rs[|rs| - 1], window);
    }
  }

  lemma FirstIsOldest(log: seq<int>, start: int)
    requires Sorted(log) && Pruned(log, start) != []
    ensures var i := |log| - |Pruned(log, start)|;
            0 <= i < |log| && IsOldest(log, i, start) && log[i] == Pruned(log, start)[0]
  {
    PrunedIsSuffix(log, start);
  }

  lemma DecisionIsExact(w: World, r: Request, window: int)
    requires Faithful(w, window) && InOrder(w, r)
    ensures Decides(w.log, r, window, Step(w.key, r, window).1) <==> r.limit <= 0 || InPace(w, r, window)
  {
    hide Pruned, Faithful, Add, Count, Sorted;
    if r.limit > 0 {
      var from := r.sent - window * SECOND;
      CountIsExact(w, r, window);
      FaithfulParts(w, window);
      if InPace(w, r, window) {
        var hits := Pruned(w.log, from);
        if |hits| >= r.limit {
          FirstIsOldest(w.log, from);
          OldestIsInside(hits[0], r.sent, window);
        }
      } else {
        NothingPruned(from);
      }
    }
  }

  lemma NothingPruned(start: int)
    ensures Pruned([], start) == []
  {}

  lemma FaithfulParts(w: World, window: int)
    requires Faithful(w, window)
    ensures Sorted(w.log) && UpTo(w.log, w.sent) && w.sent <= w.at
  {}

  lemma OldestIsInside(oldest: int, sent: int, window: int)
    requires sent - window * SECOND < oldest
    ensures RetryAfter(oldest, sent, window) == CeilSeconds(oldest + window * SECOND - sent) >= 1
  {}

  /** Pruning and expiry show only when Redis does not keep pace: after any run, the next
      decision is that of the full log exactly when the key still holds what the window
      covers, or there is no limit. */
  lemma DecidesLikeLog(start: World, rs: seq<Request>, r: Request, window: int)
    requires window >= 1 && GoodRun(start, rs, window) && InOrder(Served(start, rs, window), r)
    ensures var w := Served(start, rs, window);
            Decides(w.log, r, window, Step(w.key, r, window).1) <==> r.limit <= 0 || InPace(w, r, window)
  {
    hide Served, Decides, Step, InPace;
    RunFaithful(start, rs, window);
    DecisionIsExact(Served(start, rs, window), r, window);
  }

  /** A refused request leaves no trace: every later decision is as if it had not come. */
  lemma RefusalsDoNotCount(start: World, rs: seq<Request>, refused: Request, r: Request, window: int)
    requires window >= 1 && GoodRun(start, rs + [refused] + [r], window)
    requires !Step(Served(start, rs, window).key, refused, window).1.allowed
    ensures Step(Served(start, rs + [refused], window).key, r, window).1
         == Step(Served(start, rs, window).key, r, window).1
  {
    assert (rs + [refused] + [r])[..|rs| + 1] == rs + [refused];
    assert (rs + [refused])[..|rs|] == rs;
    var w, w' := Served(start, rs, window), Served(start, rs + [refused], window);
    RunFaithful(start, rs, window);
    RunFaithful(start, rs + [refused], window);
    assert w' == Serve(w, refused, window);
    CountIsExact(w', r, window);
    CountIsExact(w, r, window);
  }

  // ----- never too many -----

  lemma {:induction false} CountShrinks(log: seq<int>, from: int, to: int, from': int, to': int)
    requires from' <= from && UpTo(log, to')
    ensures Count(log, from, to) <= Count(log, from', to')
  {
    if log == [] {
    } else {
      CountShrinks(log[..|log| - 1], from, to, from', to');
    }
  }

  /** In every window at most `limit` hits are admitted. */
  lemma {:induction false} WindowBound(start: World, rs: seq<Request>, window: int, limit: nat, t: int)
    requires window >= 1 && GoodRun(start, rs, window)
    requires forall i :: 0 <= i < |rs| ==> rs[i].limit <= limit
    ensures Count(Served(start, rs, window).log, t - window * SECOND, t) <= limit
  {
    if rs == [] {
    } else {
      var front, r := rs[..|rs| - 1], rs[|rs| - 1];
      WindowBound(start, front, window, limit, t);
      RunFaithful(start, front, window);
      var w := Served(start, front, window);
      if r.limit > 0 && Step(w.key, r, window).1.allowed {
        CountIsExact(w, r, window);
        var log := w.log + [r.sent];
        assert log[..|log| - 1] == w.log;
        if t - window * SECOND < r.sent <= t {
          CountShrinks(w.log, t - window * SECOND, t, r.sent - window * SECOND, r.sent);
        }
      }
    }
  }

  // ----- when to come back -----

  /** The same request `n` seconds later. */
  function Later(r: Request, n: int): Request {
    Request(r.sent + n * SECOND, r.at + n * SECOND, r.limit)
  }

  lemma PrunedLength(s: seq<int>, start: int, k: nat)
    requires Sorted(s) && 1 <= k <= |s|
    ensures |Pruned(s, start)| < k <==> s[|s| - k] <= start
  {
    var r := Pruned(s, start);
    PrunedIsSuffix(s, start);
    if |r| < k {
      assert s[..|s| - |r|][|s| - k] <= start;
    } else {
      assert r[|r| - k] == s[|s| - k] && r[0] <= r[|r| - k];
    }
  }

  lemma SuffixSorted(s: seq<int>, start: int)
    requires Sorted(s)
    ensures Sorted(Pruned(s, start))
  {
    var r := Pruned(s, start);
    PrunedIsSuffix(s, start);
    forall i, j | 0 <= i < j < |r| ensures r[i] <= r[j] {
      assert r[i] == s[|s| - |r| + i] && r[j] == s[|s| - |r| + j];
    }
  }

  /** A refused request is admitted later as soon as enough of the counted hits are out of
      its window, `limit` from the end whatever lies before, or Redis has dropped the key. */
  lemma AdmittedLater(w: World, r: Request, window: int, n: nat)
    requires Faithful(w, window) && InOrder(w, r) && !Step(w.key, r, window).1.allowed
    ensures var key := Step(w.key, r, window).0;
            |key.hits| >= r.limit >= 1
            && (Step(key, Later(r, n), window).1.allowed <==>
                 || key.hits[|key.hits| - r.limit] <= r.sent + n * SECOND - window * SECOND
                 || r.at + n * SECOND >= w.key.expiresAt)
  {
    hide Pruned, Faithful, Add, Count, Sorted;
    var start, q := r.sent - window * SECOND, Later(r, n);
    var key := Step(w.key, r, window).0;
    NothingPruned(start);
    NothingPruned(q.sent - window * SECOND);
    RefusedIsInPace(w, r, window);
    FaithfulParts(w, window);
    CountIsExact(w, r, window);
    SuffixSorted(w.log, start);
    PrunedLength(key.hits, q.sent - window * SECOND, r.limit);
  }

  /** Only a living key refuses. */
  lemma RefusedIsInPace(w: World, r: Request, window: int)
    requires !Step(w.key, r, window).1.allowed
    ensures r.at < w.key.expiresAt && InPace(w, r, window)
  {}

  lemma RefusedAtLimit(w: World, r: Request, window: int, n: nat)
    requires Faithful(w, window) && InOrder(w, r) && !Step(w.key, r, window).1.allowed
    requires Count(w.log, r.sent - window * SECOND, r.sent) <= r.limit
    ensures var (key, refusal) := Step(w.key, r, window);
            && 1 <= refusal.retryAfter <= window
            && (Step(key, Later(r, n), window).1.allowed
                <==> n >= refusal.retryAfter || r.at + n * SECOND >= w.key.expiresAt)
  {
    hide Pruned, Faithful, Add, Count, Sorted;
    AdmittedLater(w, r, window, n);
    RefusedIsInPace(w, r, window);
    CountIsExact(w, r, window);
    FaithfulParts(w, window);
    var from := r.sent - window * SECOND;
    PrunedIsSuffix(w.log, from);
    var oldest := Pruned(w.log, from)[0];
    assert oldest in w.log;
    OldestIsInside(oldest, r.sent, window);
    LeastSeconds(oldest + window * SECOND - r.sent, n, window);
  }

  /** Under a fixed limit `retry_after` lies between one second and the window, and after `n`
      whole seconds the request gets through exactly when `n` is no less or Redis has dropped
      the key by then. */
  lemma RetryAfterIsLeast(start: World, rs: seq<Request>, r: Request, window: int, n: nat)
    requires window >= 1 && GoodRun(start, rs, window) && InOrder(Served(start, rs, window), r)
    requires forall i :: 0 <= i < |rs| ==> rs[i].limit <= r.limit
    requires !Step(Served(start, rs, window).key, r, window).1.allowed
    ensures var w := Served(start, rs, window);
            var (key, refusal) := Step(w.key, r, window);
            && 1 <= refusal.retryAfter <= window
            && (Step(key, Later(r, n), window).1.allowed
                <==> n >= refusal.retryAfter || r.at + n * SECOND >= w.key.expiresAt)
  {
    hide Served, Count, Faithful;
    RunFaithful(start, rs, window);
    RefusedIsInPace(Served(start, rs, window), r, window);
    WindowBound(start, rs, window, r.limit, r.sent);
    RefusedAtLimit(Served(start, rs, window), r, window, n);
  }

  /** Served no later after it was sent than the last hit admitted. */
  predicate Prompt(w: World, r: Request, window: int) {
    w.log != [] ==> r.at + w.log[|w.log| - 1] + window * SECOND <= w.key.expiresAt + r.sent
  }

  /** For such a request `retry_after` is the least number of seconds without more ado: the
      key is not dropped before. */
  lemma PromptRetryIsLeast(start: World, rs: seq<Request>, r: Request, window: int, n: nat)
    requires window >= 1 && GoodRun(start, rs, window) && InOrder(Served(start, rs, window), r)
    requires Prompt(Served(start, rs, window), r, window) && forall i :: 0 <= i < |rs| ==> rs[i].limit <= r.limit
    requires !Step(Served(start, rs, window).key, r, window).1.allowed
    ensures var (key, refusal) := Step(Served(start, rs, window).key, r, window);
            Step(key, Later(r, n), window).1.allowed <==> n >= refusal.retryAfter
  {
    hide Served, Count, Faithful, Pruned;
    RetryAfterIsLeast(start, rs, r, window, n);
    RunFaithful(start, rs, window);
    RetryBeforeExpiry(Served(start, rs, window), r, window, n);
  }

  lemma RetryBeforeExpiry(w: World, r: Request, window: int, n: nat)
    requires Faithful(w, window) && InOrder(w, r) && Prompt(w, r, window) && !Step(w.key, r, window).1.allowed
    ensures r.at + n * SECOND >= w.key.expiresAt ==> n >= Step(w.key, r, window).1.retryAfter
  {
    hide Pruned, Faithful, Add, Count;
    var from := r.sent - window * SECOND;
    RefusedIsInPace(w, r, window);
    FaithfulParts(w, window);
    CountIsExact(w, r, window);
    PrunedIsSuffix(w.log, from);
    var oldest := Pruned(w.log, from)[0];
    OldestIsInside(oldest, r.sent, window);
    LeastSeconds(oldest + window * SECOND - r.sent, n, window);
  }

  lemma LeastSeconds(ms: int, n: nat, window: int)
    requires 1 <= ms <= window * SECOND
    ensures 1 <= CeilSeconds(ms) <= window && (n >= CeilSeconds(ms) <==> ms <= n * SECOND)
  {}
}
