/** Request idempotency on one Redis key: the commands, the polling loop of `reserve`, and
    the order of effects in the ingest endpoint. Times are in milliseconds. */
module Idempotency {
  import opened Basics

  const WINDOW := 300_000
  const WAIT := 5_000
  const POLL := 50
  const PROCESSING_PREFIX := "__processing__:"

  /** A value and the time it runs out. */
  datatype Entry = Entry(value: string, expiresAt: int)

  /** What a command finds in the key; a value that has run out is gone. */
  function Get(entry: Option<Entry>, now: int): Option<string> {
    if entry.Some? && now < entry.value.expiresAt then Some(entry.value.value) else None
  }

  function SetNx(entry: Option<Entry>, now: int, value: string): (Option<Entry>, bool) {
    if Get(entry, now) == None then (Some(Entry(value, now + WINDOW)), true) else (entry, false)
  }

  function CompareAndStore(entry: Option<Entry>, now: int, expected: string, value: string): Option<Entry> {
    if Get(entry, now) == Some(expected) then Some(Entry(value, now + WINDOW)) else entry
  }

  function CompareAndDelete(entry: Option<Entry>, now: int, expected: string): Option<Entry> {
    if Get(entry, now) == Some(expected) then None else entry
  }

  function Sentinel(token: string): string {
    PROCESSING_PREFIX + token
  }

  predicate IsSentinel(value: string) {
    PROCESSING_PREFIX <= value
  }

  /** `json.dumps` of a dictionary opens with a brace. */
  predicate IsJsonObject(body: string) {
    body != [] && body[0] == '{'
  }

  /** A stored body is never taken for a request in progress. */
  lemma BodyIsNoSentinel(body: string)
    requires IsJsonObject(body)
    ensures !IsSentinel(body)
    ensures forall token :: Sentinel(token) != body
  {
    assert PROCESSING_PREFIX[0] == '_';
    forall token ensures Sentinel(token) != body {
      assert Sentinel(token)[0] == '_';
    }
  }

  lemma SentinelsDiffer(token: string, other: string)
    requires Sentinel(token) == Sentinel(other)
    ensures token == other
  {
    assert Sentinel(token)[|PROCESSING_PREFIX|..] == token;
    assert Sentinel(other)[|PROCESSING_PREFIX|..] == other;
  }

  // ----- the key as an object -----

  datatype Persisted = Committed(body: string) | Raised

  datatype Answer = Created(body: string) | Replayed(body: string) | InProgress | Error

  class Key {
    var entry: Option<Entry>

    constructor ()
      ensures entry == None
    {
      entry := None;
    }

    method Reserve(now: int, token: string) returns (wasSet: bool)
      modifies this
      ensures (entry, wasSet) == SetNx(old(entry), now, Sentinel(token))
    {
      if entry.Some? && now < entry.value.expiresAt { return false; }
      entry := Some(Entry(Sentinel(token), now + WINDOW));
      return true;
    }

    method StoreResponse(now: int, token: string, body: string)
      modifies this
      ensures entry == CompareAndStore(old(entry), now, Sentinel(token), body)
    {
      if entry.Some? && now < entry.value.expiresAt && entry.value.value == Sentinel(token) {
        entry := Some(Entry(body, now + WINDOW));
      }
    }

    method Release(now: int, token: string)
      modifies this
      ensures entry == CompareAndDelete(old(entry), now, Sentinel(token))
    {
      if entry.Some? && now < entry.value.expiresAt && entry.value.value == Sentinel(token) {
        entry := None;
      }
    }

    /** One ingest request that finds the key free and is not interfered with: a failure
        leaves the key free again, a commit leaves the body in it for a whole window. Past
        the window the request no longer touches the key. */
    method Ingest(reservedAt: int, token: string, persist: Persisted, doneAt: int) returns (answer: Answer)
      requires reservedAt <= doneAt && Get(entry, reservedAt) == None
      modifies this
      ensures answer == match persist case Committed(body) => Created(body) case Raised => Error
      ensures persist.Raised? ==> Get(entry, doneAt) == None
      ensures persist.Committed? && doneAt < reservedAt + WINDOW ==> entry == Some(Entry(persist.body, doneAt + WINDOW))
      ensures doneAt >= reservedAt + WINDOW ==> Get(entry, doneAt) == None
    {
      var wasSet := Reserve(reservedAt, token);
      if persist.Raised? {
        Release(doneAt, token);
        return Error;
      }
      StoreResponse(doneAt, token, persist.body);
      return Created(persist.body);
    }
  }

  // ----- the polling loop -----

  /** What one round of the loop meets: the GET, the SET NX it may try, the clock after. */
  datatype Round = Round(stored: Option<string>, wins: bool, clock: int)

  datatype Reservation = Owned | Replay(body: string) | StillInProgress

  /** The key was empty but another request was faster, or it names a request in progress. */
  predicate Undecided(round: Round) {
    if round.stored == None then !round.wins else PROCESSING_PREFIX <= round.stored.value
  }

  /** The loop answers with the first round that decides, or the first past the deadline, after 101
      rounds at most: each sleep takes at least 50 ms of the 5 s. */
  method Poll(start: int, rounds: nat -> Round) returns (r: Reservation, n: nat)
    requires start <= rounds(0).clock && forall i: nat :: rounds(i).clock + POLL <= rounds(i + 1).clock
    ensures r == Owned <==> rounds(n).stored == None && rounds(n).wins
    ensures forall b :: r == Replay(b) <==> rounds(n).stored == Some(b) && !(PROCESSING_PREFIX <= b)
    ensures r == StillInProgress ==> Undecided(rounds(n)) && start + WAIT <= rounds(n).clock
    ensures forall i: nat :: i < n ==> Undecided(rounds(i)) && rounds(i).clock < start + WAIT
    ensures n <= WAIT / POLL
  {
    var deadline := start + WAIT;
    n := 0;
    while true
      invariant start + POLL * n <= rounds(n).clock && n <= WAIT / POLL
      invariant forall i: nat :: i < n ==> Undecided(rounds(i)) && rounds(i).clock < deadline
      decreases deadline - rounds(n).clock
    {
      var round := rounds(n);
      if round.stored == None {
        if round.wins { return Owned, n; }
      } else if !(PROCESSING_PREFIX <= round.stored.value) {
        return Replay(round.stored.value), n;
      }
      if round.clock >= deadline { return StillInProgress, n; }
      n := n + 1;
    }
  }
}
