/** The pubsub listener: payloads are handled as they arrive, and the cursor of the last one is saved at
    keepalives, so that a later connection can ask for what came after it. */
module PubSub {
  import opened Wrappers

  /** Payloads are numbered in the order of the server's stream, and a cursor is the number of its payload.
      A connection that asks for a cursor gets everything after it; one that does not gets what is new. */
  datatype State = State(
    file: Option<nat>, cursor: Option<nat>, staged: Option<nat>,
    start: Option<nat>, next: nat, head: nat, handled: set<nat>, delay: nat)

  datatype Event =
    | Publish
    | Connect
    | Deliver(raises: bool, hasCursor: bool)
    | KeepAlive(saves: bool)
    | Drop
    | Restart

  predicate Enabled(s: State, e: Event) {
    match e
    case Publish => true
    case Connect => s.start.None?
    case Deliver(_, _) => s.start.Some? && s.next < s.head
    case KeepAlive(_) => s.start.Some?
    case Drop => s.start.Some?
    case Restart => true
  }

  /** Doubling steps from nothing to half a minute. */
  function Backoff(delay: nat): nat {
    if (delay + 1) * 2 < 30 then (delay + 1) * 2 else 30
  }

  function Step(s: State, e: Event): State
    requires Enabled(s, e)
  {
    match e
    case Publish => s.(head := s.head + 1)
    case Connect =>
      var first := if s.cursor.Some? then s.cursor.value + 1 else s.head;
      s.(start := Some(first), next := first)
    case Deliver(raises, hasCursor) =>
      s.(handled := s.handled + {s.next}, next := s.next + 1, delay := 0,
         staged := if !raises && hasCursor then Some(s.next) else s.staged)
    case KeepAlive(saves) =>
      if s.staged.None? || s.staged == s.cursor || !saves then s.(delay := 0)
      else s.(file := s.staged, cursor := s.staged, delay := 0)
    case Drop => s.(start := None, delay := Backoff(s.delay))
    case Restart => s.(start := None, cursor := s.file, staged := None, delay := 0)
  }

  predicate Runs(s: State, events: seq<Event>)
    decreases |events|
  {
    events == [] || (Enabled(s, events[0]) && Runs(Step(s, events[0]), events[1..]))
  }

  function After(s: State, events: seq<Event>): State
    requires Runs(s, events)
    decreases |events|
  {
    if events == [] then s else After(Step(s, events[0]), events[1..])
  }

  const BEGINNING := State(None, None, None, None, 0, 0, {}, 0)

  // ----- what holds all along -----

  ghost predicate Covers(handled: set<nat>, lo: nat, hi: nat) {
    forall p | lo <= p < hi :: p in handled
  }

  /** What the memory, the file and the connection have to do with each other. */
  ghost predicate Sane(s: State) {
    && s.cursor == s.file
    && (s.staged.Some? ==> s.staged.value in s.handled)
    && (s.file.Some? ==> s.file.value in s.handled)
    && (forall p | p in s.handled :: p < s.head)
    && (s.start.Some? ==> s.start.value <= s.next <= s.head && Covers(s.handled, s.start.value, s.next))
    && s.delay in {0, 2, 6, 14, 30}
  }

  lemma StepIsSane(s: State, e: Event)
    requires Sane(s) && Enabled(s, e)
    ensures Sane(Step(s, e))
  {
  }

  /** In every run the delay before a connection is 0, 2, 6, 14 or 30 seconds, and memory and file agree. */
  lemma {:induction false} RunIsSane(s: State, events: seq<Event>)
    requires Sane(s) && Runs(s, events)
    ensures Sane(After(s, events))
    decreases |events|
  {
    if events != [] {
      StepIsSane(s, events[0]);
      RunIsSane(Step(s, events[0]), events[1..]);
    }
  }

  // ----- at least once -----

  /** Everything after the origin up to the durable cursor has been handled. */
  ghost predicate Safe(s: State, origin: nat) {
    s.file.Some? ==> forall p | origin < p <= s.file.value :: p in s.handled
  }

  /** Nothing after the origin is missing before the staged cursor, the durable one or the connection. */
  ghost predicate NoGap(s: State, origin: nat) {
    && Sane(s) && s.file.Some?
    && Covers(s.handled, origin + 1, s.file.value)
    && (s.staged.Some? ==> Covers(s.handled, origin + 1, s.staged.value))
    && (s.start.Some? ==> Covers(s.handled, origin + 1, s.next))
  }

  lemma StepKeepsNoGap(s: State, e: Event, origin: nat)
    requires NoGap(s, origin) && Enabled(s, e)
    ensures NoGap(Step(s, e), origin)
  {
    StepIsSane(s, e);
  }

  /** Once nothing is missing, nothing ever will be, although the durable cursor may move back. */
  lemma {:induction false} NoGapIsSafe(s: State, events: seq<Event>, origin: nat)
    requires NoGap(s, origin) && Runs(s, events)
    ensures Safe(After(s, events), origin)
    decreases |events|
  {
    if events != [] {
      StepKeepsNoGap(s, events[0], origin);
      NoGapIsSafe(Step(s, events[0]), events[1..], origin);
    }
  }

  /** The first cursor becomes durable. */
  ghost predicate FirstSave(s: State) {
    Sane(s) && s.file.None? && s.staged.Some? && s.start.Some?
  }

  /** The promise holds in every run that goes on from the first save exactly when no payload between the cursor
      saved and the connection's position is missing. */
  lemma AtLeastOnceExactly(s: State)
    requires FirstSave(s)
    ensures (forall events | Runs(Step(s, KeepAlive(true)), events) ::
      Safe(After(Step(s, KeepAlive(true)), events), s.staged.value))
            <==> Covers(s.handled, s.staged.value + 1, s.next)
  {
    var origin, saved := s.staged.value, Step(s, KeepAlive(true));
    StepIsSane(s, KeepAlive(true));
    if Covers(s.handled, origin + 1, s.next) {
      forall events | Runs(saved, events)
        ensures Safe(After(saved, events), origin)
      {
        NoGapIsSafe(saved, events, origin);
      }
    } else {
      var p :| origin + 1 <= p < s.next && p !in s.handled;
      var events := GapShows(saved, origin, p);
      assert !Safe(After(saved, events), origin);
    }
  }

  /** A missing payload shows as soon as the next one is handled and its cursor saved. */
  lemma GapShows(s: State, origin: nat, p: nat) returns (events: seq<Event>)
    requires Sane(s) && s.start.Some? && s.file.Some?
    requires origin < p < s.next && p !in s.handled
    ensures Runs(s, events) && !Safe(After(s, events), origin)
  {
    events := [Publish, Deliver(false, true), KeepAlive(true)];
    var s1 := Step(s, Publish);
    var s2 := Step(s1, Deliver(false, true));
    var s3 := Step(s2, KeepAlive(true));
    assert events[1..] == [Deliver(false, true), KeepAlive(true)];
    assert events[1..][1..] == [KeepAlive(true)];
    assert events[1..][1..][1..] == [];
    assert Runs(s2, [KeepAlive(true)]) && After(s2, [KeepAlive(true)]) == s3;
    assert Runs(s1, events[1..]) && After(s1, events[1..]) == s3;
    assert s3.file == Some(s.next) && p !in s3.handled;
  }

  /** Before anything is saved, connections are live: what is handled lies before the position reached. */
  ghost predicate Unsaved(s: State) {
    Sane(s) && s.file.None? && s.next <= s.head && forall p | p in s.handled :: p < s.next
  }

  /** Every run from the beginning is in such a state until the first cursor is saved. */
  lemma {:induction false} UnsavedUntilSaved(s: State, events: seq<Event>)
    requires (Unsaved(s) || s.file.Some?) && Runs(s, events)
    ensures Unsaved(After(s, events)) || After(s, events).file.Some?
    decreases |events|
  {
    if events != [] {
      if s.file.None? {
        StepIsSane(s, events[0]);
      }
      UnsavedUntilSaved(Step(s, events[0]), events[1..]);
    }
  }

  /** Events after which the staged cursor is the same and still unsaved. */
  predicate KeepsStaged(e: Event) {
    match e
    case Deliver(raises, hasCursor) => raises || !hasCursor
    case KeepAlive(saves) => !saves
    case Restart => false
    case _ => true
  }

  /** Every connection is opened where the one before it had stopped: nothing was published in between. */
  predicate Seamless(s: State, events: seq<Event>)
    requires Runs(s, events)
    decreases |events|
  {
    events == [] || ((events[0].Connect? ==> s.head == s.next) && Seamless(Step(s, events[0]), events[1..]))
  }

  lemma {:induction false} KeepsUnsaved(s: State, events: seq<Event>)
    requires Unsaved(s) && s.staged.Some? && Runs(s, events) && forall k | 0 <= k < |events| :: KeepsStaged(events[k])
    ensures Unsaved(After(s, events)) && After(s, events).staged == s.staged && s.next <= After(s, events).next
    ensures s.handled <= After(s, events).handled
    ensures forall p | p in After(s, events).handled :: p in s.handled || s.next <= p
    decreases |events|
  {
    if events != [] {
      assert KeepsStaged(events[0]);
      StepIsSane(s, events[0]);
      KeepsUnsaved(Step(s, events[0]), events[1..]);
    }
  }

  /** What was staged and then not saved for a while is followed without a gap exactly when every connection since was
      opened where the one before it had stopped. */
  lemma {:induction false} SeamlessExactly(s: State, events: seq<Event>)
    requires Unsaved(s) && s.staged.Some? && Covers(s.handled, s.staged.value + 1, s.next) && s.staged.value < s.next
    requires Runs(s, events) && forall k | 0 <= k < |events| :: KeepsStaged(events[k])
    ensures Covers(After(s, events).handled, s.staged.value + 1, After(s, events).next) <==> Seamless(s, events)
    decreases |events|
  {
    if events != [] {
      var e, t := events[0], Step(s, events[0]);
      assert KeepsStaged(e);
      StepIsSane(s, e);
      KeepsUnsaved(t, events[1..]);
      if e.Connect? && s.head != s.next {
        assert s.next !in After(t, events[1..]).handled;
      } else {
        SeamlessExactly(t, events[1..]);
      }
    }
  }

  /** The promise on the events: a cursor is staged by a delivery, some more happens, and then it is the first to be
      saved. The promise holds in every run that goes on from there exactly when, since that delivery, every
      connection was opened where the one before it had stopped. */
  lemma AtLeastOnceOnEvents(s: State, events: seq<Event>)
    requires Unsaved(s) && Enabled(s, Deliver(false, true))
    requires var staged := Step(s, Deliver(false, true));
      && Runs(staged, events) && (forall k | 0 <= k < |events| :: KeepsStaged(events[k]))
      && After(staged, events).start.Some?
    ensures var staged := Step(s, Deliver(false, true));
      var saved := Step(After(staged, events), KeepAlive(true));
      (forall later | Runs(saved, later) :: Safe(After(saved, later), s.next)) <==> Seamless(staged, events)
  {
    var staged := Step(s, Deliver(false, true));
    StepIsSane(s, Deliver(false, true));
    KeepsUnsaved(staged, events);
    SeamlessExactly(staged, events);
    AtLeastOnceExactly(After(staged, events));
  }

  /** Nothing is missing when the cursor was staged on the connection on which it is saved. */
  lemma StagedOnThisConnection(s: State)
    requires FirstSave(s) && s.start.value <= s.staged.value
    ensures Covers(s.handled, s.staged.value + 1, s.next)
  {
  }

  /** A run that goes one event further. */
  lemma {:induction false} Then(s: State, events: seq<Event>, e: Event) returns (longer: seq<Event>)
    requires Runs(s, events) && Enabled(After(s, events), e)
    ensures Runs(s, longer) && After(s, longer) == Step(After(s, events), e)
    decreases |events|
  {
    if events == [] {
      longer := [e];
      assert longer[1..] == [];
    } else {
      var rest := Then(Step(s, events[0]), events[1..], e);
      longer := [events[0]] + rest;
      assert longer[1..] == rest;
    }
  }

  /** A payload is lost when the first cursor is staged, the connection drops, a payload passes in between, and the
      cursor is saved on the next connection: the payload is never handled though a later cursor becomes durable. */
  lemma PayloadLost() returns (before: seq<Event>, later: seq<Event>)
    ensures Runs(BEGINNING, before) && FirstSave(After(BEGINNING, before)) && After(BEGINNING, before).staged == Some(0)
    ensures var saved := Step(After(BEGINNING, before), KeepAlive(true));
      Runs(saved, later) && After(saved, later).file == Some(2) && 1 !in After(saved, later).handled
  {
    before := Then(BEGINNING, [], Connect);
    before := Then(BEGINNING, before, Publish);
    before := Then(BEGINNING, before, Deliver(false, true));
    before := Then(BEGINNING, before, Drop);
    before := Then(BEGINNING, before, Publish);
    before := Then(BEGINNING, before, Connect);
    var saved := Step(After(BEGINNING, before), KeepAlive(true));
    later := Then(saved, [], Publish);
    later := Then(saved, later, Deliver(false, true));
    later := Then(saved, later, KeepAlive(true));
  }

  /** The durable cursor moves back when a replay starts again from an older one: here from the third payload to the
      second, all of them handled by then. */
  lemma CursorMovesBack() returns (events: seq<Event>)
    ensures Runs(BEGINNING, events) && Enabled(After(BEGINNING, events), KeepAlive(true))
    ensures var s := After(BEGINNING, events);
      s.handled == {0, 1, 2} && s.file == Some(2) && Step(s, KeepAlive(true)).file == Some(1)
  {
    events := ThreeHandledOneSaved();
    events := Then(BEGINNING, events, Drop);
    events := Then(BEGINNING, events, Connect);
    events := Then(BEGINNING, events, KeepAlive(true));
    events := Then(BEGINNING, events, Deliver(false, true));
  }

  lemma ThreeHandledOneSaved() returns (events: seq<Event>)
    ensures Runs(BEGINNING, events)
    ensures After(BEGINNING, events) == State(Some(0), Some(0), Some(2), Some(0), 3, 3, {0, 1, 2}, 0)
  {
    events := Then(BEGINNING, [], Connect);
    events := Then(BEGINNING, events, Publish);
    events := Then(BEGINNING, events, Deliver(false, true));
    events := Then(BEGINNING, events, KeepAlive(true));
    events := Then(BEGINNING, events, Publish);
    events := Then(BEGINNING, events, Deliver(false, true));
    events := Then(BEGINNING, events, Publish);
    events := Then(BEGINNING, events, Deliver(false, true));
  }

  // ----- the listener -----

  class Listener {
    var file: Option<nat>
    var cursor: Option<nat>
    var staged: Option<nat>
    var start: Option<nat>
    var next: nat
    var head: nat
    var delay: nat
    ghost var handled: set<nat>

    ghost function Abs(): State
      reads this
    {
      State(file, cursor, staged, start, next, head, handled, delay)
    }

    constructor ()
      ensures Abs() == BEGINNING
    {
      file, cursor, staged, start, next, head, delay, handled := None, None, None, None, 0, 0, 0, {};
    }

    /** Opens a connection, asking for what came after the cursor if there is one. */
    method OpenConnection()
      requires Enabled(Abs(), Connect)
      modifies this`start, this`next
      ensures Abs() == Step(old(Abs()), Connect)
    {
      next := if cursor.Some? then cursor.value + 1 else head;
      start := Some(next);
    }

    /** A failed connection waits for the delay, which then grows. */
    method LoseConnection() returns (waited: nat)
      requires Sane(Abs()) && Enabled(Abs(), Drop)
      modifies this`start, this`delay
      ensures Abs() == Step(old(Abs()), Drop)
      ensures waited <= 30
    {
      start := None;
      waited := delay;
      delay := if (delay + 1) * 2 <= 30 then (delay + 1) * 2 else 30;
    }

    /** A payload is handled whatever comes of it; its cursor is staged if the handler returned. */
    method ProcessPayload(raises: bool, hasCursor: bool)
      requires Enabled(Abs(), Deliver(raises, hasCursor))
      modifies this`handled, this`next, this`staged, this`delay
      ensures Abs() == Step(old(Abs()), Deliver(raises, hasCursor))
    {
      delay := 0;
      var position := next;
      next := next + 1;
      handled := handled + {position};
      if raises {
        return;
      }
      if hasCursor {
        staged := Some(position);
      }
    }

    /** Saves the staged cursor; when that fails the old one is kept and the next keepalive tries again. */
    method Checkpoint(saves: bool)
      requires Enabled(Abs(), KeepAlive(saves))
      modifies this`file, this`cursor, this`delay
      ensures Abs() == Step(old(Abs()), KeepAlive(saves))
    {
      delay := 0;
      var latest := staged;
      if latest.None? || latest == cursor {
        return;
      }
      if !saves {
        return;
      }
      file := latest;
      cursor := latest;
    }

    /** A new process knows what the file knows. */
    method Start()
      modifies this`cursor, this`staged, this`start, this`delay
      ensures Abs() == Step(old(Abs()), Restart)
    {
      cursor, staged, start, delay := file, None, None, 0;
    }
  }
}
