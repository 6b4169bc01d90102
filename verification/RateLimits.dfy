/** The sliding window that limits connection attempts by address and by user. */
module RateLimits {
  const WINDOW: real := 60.0

  type Key = string

  /** How many of the times lie between two times, both included. */
  function CountIn(times: seq<real>, lo: real, hi: real): nat {
    if times == [] then 0
    else CountIn(times[..|times| - 1], lo, hi) + if lo <= times[|times| - 1] <= hi then 1 else 0
  }

  /** An attempt is accepted unless the window before it is full. An empty window is never full, whatever the limit. */
  predicate Accepts(limit: nat, accepted: seq<real>, now: real) {
    var recent := CountIn(accepted, now - WINDOW, now);
    recent == 0 || recent < limit
  }

  ghost predicate Ascending(times: seq<real>) {
    forall i, j | 0 <= i < j < |times| :: times[i] <= times[j]
  }

  /** Each of the times was accepted in its turn. */
  ghost predicate Paced(limit: nat, times: seq<real>) {
    forall i | 0 <= i < |times| :: Accepts(limit, times[..i], times[i])
  }

  lemma {:induction false} CountNarrower(times: seq<real>, lo: real, hi: real, lo': real, hi': real)
    requires forall i | 0 <= i < |times| && lo <= times[i] <= hi :: lo' <= times[i] <= hi'
    ensures CountIn(times, lo, hi) <= CountIn(times, lo', hi')
  {
    if times != [] {
      CountNarrower(times[..|times| - 1], lo, hi, lo', hi');
    }
  }

  /** However accepted attempts are spread, no closed interval of a window's length holds more than the limit. */
  lemma {:induction false} WindowBound(limit: nat, times: seq<real>, start: real)
    requires limit >= 1 && Ascending(times) && Paced(limit, times)
    ensures CountIn(times, start, start + WINDOW) <= limit
  {
    if times != [] {
      var init, last := times[..|times| - 1], times[|times| - 1];
      assert forall i | 0 <= i < |init| :: init[..i] == times[..i] && init[i] == times[i];
      WindowBound(limit, init, start);
      assert Accepts(limit, init, last);
      if start <= last <= start + WINDOW {
        RoomForLast(limit, init, last, start);
      }
    }
  }

  lemma RoomForLast(limit: nat, times: seq<real>, last: real, start: real)
    requires limit >= 1 && Accepts(limit, times, last) && start <= last <= start + WINDOW
    requires forall i | 0 <= i < |times| :: times[i] <= last
    ensures CountIn(times, start, start + WINDOW) < limit
  {
    CountNarrower(times, start, start + WINDOW, last - WINDOW, last);
  }

  /** A limit of zero lets one attempt through in every window. */
  lemma ZeroLimitAccepts(now: real)
    ensures Accepts(0, [], now) && CountIn([now], now, now + WINDOW) > 0
  {
  }

  // ----- runs -----

  datatype Event = Attempt(key: Key, now: real) | Cleanup(now: real)

  /** The times at which a key's attempts are accepted in a run; cleaning up plays no part. */
  function Accepted(limit: nat, events: seq<Event>, key: Key): seq<real> {
    if events == [] then []
    else
      var before, last := Accepted(limit, events[..|events| - 1], key), events[|events| - 1];
      if last.Attempt? && last.key == key && Accepts(limit, before, last.now) then before + [last.now] else before
  }

  ghost predicate Monotone(events: seq<Event>) {
    forall i, j | 0 <= i < j < |events| :: events[i].now <= events[j].now
  }

  ghost predicate UpTo(times: seq<real>, now: real) {
    forall i | 0 <= i < |times| :: times[i] <= now
  }

  ghost predicate EventsUpTo(events: seq<Event>, now: real) {
    forall i | 0 <= i < |events| :: events[i].now <= now
  }

  lemma EventAdds(limit: nat, events: seq<Event>, e: Event, key: Key)
    ensures Accepted(limit, events + [e], key) ==
            if e.Attempt? && e.key == key && Accepts(limit, Accepted(limit, events, key), e.now)
              then Accepted(limit, events, key) + [e.now] else Accepted(limit, events, key)
  {
    assert (events + [e])[..|events + [e]| - 1] == events;
  }

  lemma {:induction false} AcceptedUpTo(limit: nat, events: seq<Event>, key: Key, now: real)
    requires EventsUpTo(events, now)
    ensures UpTo(Accepted(limit, events, key), now)
  {
    if events != [] {
      AcceptedUpTo(limit, events[..|events| - 1], key, now);
    }
  }

  lemma PacedGrows(limit: nat, times: seq<real>, now: real)
    requires Ascending(times) && Paced(limit, times) && UpTo(times, now) && Accepts(limit, times, now)
    ensures Ascending(times + [now]) && Paced(limit, times + [now])
  {
    var longer := times + [now];
    forall i | 0 <= i < |longer|
      ensures Accepts(limit, longer[..i], longer[i])
    {
      assert longer[..i] == times[..i];
      assert times[..|times|] == times;
    }
  }

  lemma {:induction false} AcceptedArePaced(limit: nat, events: seq<Event>, key: Key)
    requires Monotone(events)
    ensures Ascending(Accepted(limit, events, key)) && Paced(limit, Accepted(limit, events, key))
  {
    if events != [] {
      var init, last := events[..|events| - 1], events[|events| - 1];
      AcceptedArePaced(limit, init, key);
      AcceptedUpTo(limit, init, key, last.now);
      if Accepts(limit, Accepted(limit, init, key), last.now) {
        PacedGrows(limit, Accepted(limit, init, key), last.now);
      }
    }
  }

  /** In every run whose clock does not go back, a key has at most as many accepted attempts as the limit in any
      closed interval of sixty seconds. */
  lemma RunBound(limit: nat, events: seq<Event>, key: Key, start: real)
    requires limit >= 1 && Monotone(events)
    ensures CountIn(Accepted(limit, events, key), start, start + 60.0) <= limit
  {
    AcceptedArePaced(limit, events, key);
    WindowBound(limit, Accepted(limit, events, key), start);
  }

  function WithoutCleanups(events: seq<Event>): seq<Event> {
    if events == [] then []
    else WithoutCleanups(events[..|events| - 1]) + if events[|events| - 1].Attempt? then [events[|events| - 1]] else []
  }

  lemma {:induction false} AcceptedForgetsCleanups(limit: nat, events: seq<Event>, key: Key)
    ensures Accepted(limit, WithoutCleanups(events), key) == Accepted(limit, events, key)
  {
    if events != [] {
      var init, last := events[..|events| - 1], events[|events| - 1];
      AcceptedForgetsCleanups(limit, init, key);
      EventAdds(limit, WithoutCleanups(init), last, key);
      if last.Cleanup? {
        assert WithoutCleanups(events) == WithoutCleanups(init);
      }
    }
  }

  // ----- the buckets -----

  /** A window keeps the latest of the accepted times; those it has dropped are out of reach of the clock. */
  ghost predicate Keeps(window: seq<real>, accepted: seq<real>, clock: real) {
    && |window| <= |accepted| && window == accepted[|accepted| - |window|..]
    && forall i | 0 <= i < |accepted| - |window| :: clock - accepted[i] > WINDOW
  }

  predicate Recent(t: real, now: real) {
    now - WINDOW <= t <= now
  }

  lemma {:induction false} CountRecent(times: seq<real>, n: nat, now: real)
    requires n <= |times|
    requires forall i | 0 <= i < |times| :: Recent(times[i], now) <==> n <= i
    ensures CountIn(times, now - WINDOW, now) == |times| - n
  {
    if n < |times| {
      CountRecent(times[..|times| - 1], n, now);
      assert Recent(times[|times| - 1], now);
    } else if times != [] {
      CountRecent(times[..|times| - 1], n - 1, now);
      assert !Recent(times[|times| - 1], now);
    }
  }

  /** Once its old times are gone, the length of a window is the number of recent attempts. */
  lemma WindowCounts(window: seq<real>, accepted: seq<real>, now: real)
    requires Keeps(window, accepted, now) && Ascending(accepted) && UpTo(accepted, now)
    requires window != [] ==> now - window[0] <= WINDOW
    ensures CountIn(accepted, now - WINDOW, now) == |window|
  {
    var n := |accepted| - |window|;
    assert window != [] ==> window[0] == accepted[n];
    CountRecent(accepted, n, now);
  }

  lemma KeepsLater(window: seq<real>, accepted: seq<real>, clock: real, now: real)
    requires Keeps(window, accepted, clock) && clock <= now
    ensures Keeps(window, accepted, now)
  {
  }

  lemma KeepsMore(window: seq<real>, accepted: seq<real>, now: real)
    requires Keeps(window, accepted, now)
    ensures Keeps(window + [now], accepted + [now], now)
  {
  }

  /** A window whose last time is too old may as well be empty. */
  lemma StaleIsEmpty(window: seq<real>, accepted: seq<real>, now: real)
    requires Keeps(window, accepted, now) && Ascending(accepted)
    requires window == [] || now - window[|window| - 1] > WINDOW
    ensures Keeps([], accepted, now)
  {
    if window != [] {
      assert window[|window| - 1] == accepted[|accepted| - 1];
    }
  }

  type Buckets = map<Key, seq<real>>

  function Window(buckets: Buckets, key: Key): seq<real> {
    if key in buckets then buckets[key] else []
  }

  ghost predicate AllKeep(buckets: Buckets, limit: nat, events: seq<Event>, clock: real) {
    forall key :: Keeps(Window(buckets, key), Accepted(limit, events, key), clock)
  }

  /** The clock has not been behind any event, and the windows are right for them. */
  ghost predicate InStep(buckets: Buckets, limit: nat, events: seq<Event>, clock: real) {
    Monotone(events) && EventsUpTo(events, clock) && AllKeep(buckets, limit, events, clock)
  }

  lemma BeforeAttempt(buckets: Buckets, limit: nat, events: seq<Event>, clock: real, key: Key, now: real)
    requires InStep(buckets, limit, events, clock) && clock <= now
    ensures var accepted := Accepted(limit, events, key);
      Keeps(Window(buckets, key), accepted, now) && Ascending(accepted) && UpTo(accepted, now)
  {
    AcceptedUpTo(limit, events, key, now);
    AcceptedArePaced(limit, events, key);
    KeepsLater(Window(buckets, key), Accepted(limit, events, key), clock, now);
  }

  /** Only the window of the key has changed, along with what was accepted for it. */
  lemma AfterAttempt(buckets: Buckets, limit: nat, events: seq<Event>, clock: real, e: Event, updated: seq<real>)
    requires InStep(buckets, limit, events, clock) && clock <= e.now && e.Attempt?
    requires var accepted := Accepted(limit, events, e.key);
      Keeps(updated, if Accepts(limit, accepted, e.now) then accepted + [e.now] else accepted, e.now)
    ensures InStep(buckets[e.key := updated], limit, events + [e], e.now)
  {
    var buckets' := buckets[e.key := updated];
    forall key
      ensures Keeps(Window(buckets', key), Accepted(limit, events + [e], key), e.now)
    {
      EventAdds(limit, events, e, key);
      if key != e.key {
        KeepsLater(Window(buckets, key), Accepted(limit, events, key), clock, e.now);
      }
    }
  }

  predicate Stale(window: seq<real>, now: real) {
    window == [] || now - window[|window| - 1] > WINDOW
  }

  lemma StaleForgotten(buckets: Buckets, limit: nat, events: seq<Event>, clock: real, now: real, buckets': Buckets)
    requires AllKeep(buckets, limit, events, clock) && clock <= now && Monotone(events)
    requires forall key ::
      Window(buckets', key) == if Stale(Window(buckets, key), now) then [] else Window(buckets, key)
    ensures AllKeep(buckets', limit, events + [Cleanup(now)], now)
  {
    forall key
      ensures Keeps(Window(buckets', key), Accepted(limit, events + [Cleanup(now)], key), now)
    {
      var accepted := Accepted(limit, events, key);
      EventAdds(limit, events, Cleanup(now), key);
      AcceptedArePaced(limit, events, key);
      KeepsLater(Window(buckets, key), accepted, clock, now);
      if Stale(Window(buckets, key), now) {
        StaleIsEmpty(Window(buckets, key), accepted, now);
      }
    }
  }

  // ----- decisions -----

  /** A window without the times at its front that are too old. */
  function Fresh(window: seq<real>, now: real): seq<real> {
    if window != [] && now - window[0] > WINDOW then Fresh(window[1..], now) else window
  }

  /** What the limiter makes of an attempt, by its window alone. */
  predicate Admits(limit: nat, window: seq<real>, now: real) {
    var recent := Fresh(window, now);
    recent == [] || |recent| < limit
  }

  lemma {:induction false} FreshKeeps(window: seq<real>, accepted: seq<real>, now: real)
    requires Keeps(window, accepted, now)
    ensures Keeps(Fresh(window, now), accepted, now)
    ensures Fresh(window, now) != [] ==> now - Fresh(window, now)[0] <= WINDOW
    decreases |window|
  {
    if window != [] && now - window[0] > WINDOW {
      assert window[0] == accepted[|accepted| - |window|];
      FreshKeeps(window[1..], accepted, now);
    }
  }

  /** A window that keeps what it should decides by what was accepted in the sixty seconds before. */
  lemma AdmitsWhatIsAccepted(limit: nat, window: seq<real>, accepted: seq<real>, now: real)
    requires Keeps(window, accepted, now) && Ascending(accepted) && UpTo(accepted, now)
    ensures Admits(limit, window, now) <==> Accepts(limit, accepted, now)
  {
    FreshKeeps(window, accepted, now);
    WindowCounts(Fresh(window, now), accepted, now);
  }

  /** The window of a key after an attempt. */
  function Updated(limit: nat, window: seq<real>, now: real): seq<real> {
    Fresh(window, now) + if Admits(limit, window, now) then [now] else []
  }

  lemma AttemptKeepsStep(buckets: Buckets, limit: nat, events: seq<Event>, clock: real, key: Key, now: real)
    requires InStep(buckets, limit, events, clock) && clock <= now
    ensures Admits(limit, Window(buckets, key), now) <==> Accepts(limit, Accepted(limit, events, key), now)
    ensures InStep(buckets[key := Updated(limit, Window(buckets, key), now)], limit, events + [Attempt(key, now)], now)
  {
    var window, accepted := Window(buckets, key), Accepted(limit, events, key);
    BeforeAttempt(buckets, limit, events, clock, key, now);
    AdmitsWhatIsAccepted(limit, window, accepted, now);
    FreshKeeps(window, accepted, now);
    KeepsMore(Fresh(window, now), accepted, now);
    assert Fresh(window, now) + [] == Fresh(window, now);
    AfterAttempt(buckets, limit, events, clock, Attempt(key, now), Updated(limit, window, now));
  }

  /** Whatever cleanups came between the same attempts, and whatever they took out of the buckets, the next attempt of
      any key is decided alike. */
  lemma CleanupsPlayNoPart(limit: nat, b: Buckets, events: seq<Event>, clock: real,
                           b': Buckets, events': seq<Event>, clock': real, key: Key, now: real)
    requires InStep(b, limit, events, clock) && InStep(b', limit, events', clock')
    requires WithoutCleanups(events) == WithoutCleanups(events')
    requires clock <= now && clock' <= now
    ensures Admits(limit, Window(b, key), now) <==> Admits(limit, Window(b', key), now)
  {
    AcceptedForgetsCleanups(limit, events, key);
    AcceptedForgetsCleanups(limit, events', key);
    BeforeAttempt(b, limit, events, clock, key, now);
    BeforeAttempt(b', limit, events', clock', key, now);
    AdmitsWhatIsAccepted(limit, Window(b, key), Accepted(limit, events, key), now);
    AdmitsWhatIsAccepted(limit, Window(b', key), Accepted(limit, events', key), now);
  }

  /** Drops the times at the front of a window that are too old. */
  method DropOld(window: seq<real>, now: real) returns (rest: seq<real>)
    ensures rest == Fresh(window, now)
  {
    rest := window;
    while rest != [] && now - rest[0] > WINDOW
      invariant Fresh(rest, now) == Fresh(window, now)
    {
      rest := rest[1..];
    }
  }

  /** Decides on an attempt given the window of its key, and brings the window up to date. */
  method Admit(limit: nat, window: seq<real>, now: real) returns (ok: bool, updated: seq<real>)
    ensures ok <==> Admits(limit, window, now)
    ensures updated == Updated(limit, window, now)
  {
    updated := DropOld(window, now);
    if updated != [] && |updated| >= limit {
      return false, updated;
    }
    return true, updated + [now];
  }

  class Limiter {
    const limit: nat
    var buckets: Buckets
    ghost var events: seq<Event>
    ghost var clock: real

    ghost predicate Valid()
      reads this
    {
      InStep(buckets, limit, events, clock)
    }

    constructor (limit: nat, start: real)
      ensures Valid() && events == [] && clock == start && this.limit == limit
    {
      this.limit := limit;
      buckets, events, clock := map[], [], start;
    }

    /** Decides on an attempt by what was accepted in the window before it, and by nothing else. */
    method Check(key: Key, now: real) returns (ok: bool)
      requires Valid() && clock <= now
      modifies this
      ensures Valid() && clock == now
      ensures events == old(events) + [Attempt(key, now)]
      ensures ok <==>
              var recent := CountIn(Accepted(limit, old(events), key), now - 60.0, now); recent == 0 || recent < limit
      ensures ok <==> Admits(limit, Window(old(buckets), key), now)
    {
      AttemptKeepsStep(buckets, limit, events, clock, key, now);
      var updated;
      ok, updated := Admit(limit, Window(buckets, key), now);
      buckets := buckets[key := updated];
      events, clock := events + [Attempt(key, now)], now;
    }

    /** Forgets the windows that have nothing recent in them; no decision depends on it. */
    method CleanUp(now: real)
      requires Valid() && clock <= now
      modifies this
      ensures Valid() && clock == now && events == old(events) + [Cleanup(now)]
      ensures buckets == map key | key in old(buckets) && !Stale(old(buckets)[key], now) :: old(buckets)[key]
    {
      var stale := set key | key in buckets && Stale(buckets[key], now);
      ghost var before := buckets;
      if |stale| == |buckets.Keys| {
        SubsetOfSameSize(stale, buckets.Keys);
        buckets := map[];
      } else {
        buckets := buckets - stale;
      }
      StaleForgotten(before, limit, events, clock, now, buckets);
      events, clock := events + [Cleanup(now)], now;
    }
  }

  lemma SubsetOfSameSize<T>(a: set<T>, b: set<T>)
    requires a <= b && |a| == |b|
    ensures a == b
  {
    assert b == a + (b - a);
  }
}
