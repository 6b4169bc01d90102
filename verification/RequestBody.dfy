/** The body of a request, spooled to a file while it is received: what was appended comes out in order. */
module RequestBody {
  import opened Wrappers
  import opened Packets

  const READ_CHUNK_SIZE: nat := 65536
  const SPOOL_MAX_SIZE: nat := 1048576

  datatype Error = TooLarge | NoSpace | WriteFailed | Disconnected

  /** What a body is to its users: the bytes still to be read, and whether readers may go ahead. */
  datatype Queue = Queue(pending: Bytes, hasData: bool, complete: bool, error: Option<Error>)

  datatype Event = Appended(data: Bytes) | Took | Cleared | Completed | Failed(error: Error)

  function Chunk(pending: Bytes): Bytes {
    if |pending| <= READ_CHUNK_SIZE then pending else pending[..READ_CHUNK_SIZE]
  }

  /** A read takes what is there, or its first 65536 bytes if there are more. */
  lemma ChunkIsNext(pending: Bytes)
    ensures |Chunk(pending)| == (if |pending| < 65536 then |pending| else 65536)
    ensures Chunk(pending) == pending[..|Chunk(pending)|]
  {
  }

  function After(q: Queue, e: Event): Queue {
    match e
    case Appended(data) => q.(pending := q.pending + data, hasData := true)
    case Took =>
      var rest := q.pending[|Chunk(q.pending)|..];
      q.(pending := rest, hasData := q.hasData && rest != [])
    case Cleared => q.(pending := [], hasData := false)
    case Completed => q.(hasData := true, complete := true)
    case Failed(error) => q.(hasData := true, complete := true, error := Some(error))
  }

  function AfterAll(q: Queue, events: seq<Event>): Queue {
    if events == [] then q else After(AfterAll(q, events[..|events| - 1]), events[|events| - 1])
  }

  /** Until a body is complete, readers are let through exactly when there is something to read. */
  predicate Honest(q: Queue) {
    !q.complete ==> q.error.None? && (q.hasData <==> q.pending != [])
  }

  // ----- when a read finds nothing -----

  /** How many bytes the events append. */
  function Arrived(events: seq<Event>): nat {
    if events == [] then 0
    else
      var last := events[|events| - 1];
      Arrived(events[..|events| - 1]) + if last.Appended? then |last.data| else 0
  }

  /** How many reads there are among the events. */
  function Reads(events: seq<Event>): nat {
    if events == [] then 0 else Reads(events[..|events| - 1]) + if events[|events| - 1].Took? then 1 else 0
  }

  /** The reads of a schedule can take all but so many of the bytes that are there and that arrive. */
  predicate ReadsTakeAllBut(level: nat, events: seq<Event>, left: nat) {
    level + Arrived(events) <= READ_CHUNK_SIZE * Reads(events) + left
  }

  /** The schedule leaves no more than so many bytes: its reads suffice for what is there at the start and all that
      arrives, and from every point on they suffice for what arrives after that point. */
  predicate LeavesAtMost(level: nat, events: seq<Event>, left: nat) {
    && ReadsTakeAllBut(level, events, left)
    && forall j | 0 <= j <= |events| :: ReadsTakeAllBut(0, events[j..], left)
  }

  predicate NoClear(events: seq<Event>) {
    forall k | 0 <= k < |events| :: !events[k].Cleared?
  }

  lemma OneMoreEvent(events: seq<Event>, e: Event)
    ensures Arrived(events + [e]) == Arrived(events) + if e.Appended? then |e.data| else 0
    ensures Reads(events + [e]) == Reads(events) + if e.Took? then 1 else 0
  {
    assert (events + [e])[..|events + [e]| - 1] == events;
  }

  lemma OneMoreLeaves(level: nat, events: seq<Event>, e: Event, left: nat)
    ensures LeavesAtMost(level, events + [e], left) <==>
            match e
            case Appended(data) => |data| <= left && LeavesAtMost(level, events, left - |data|)
            case Took => LeavesAtMost(level, events, left + READ_CHUNK_SIZE)
            case _ => LeavesAtMost(level, events, left)
  {
    var longer := events + [e];
    OneMoreEvent(events, e);
    forall j | 0 <= j <= |events|
      ensures longer[j..] == events[j..] + [e]
      ensures Arrived(longer[j..]) == Arrived(events[j..]) + if e.Appended? then |e.data| else 0
      ensures Reads(longer[j..]) == Reads(events[j..]) + if e.Took? then 1 else 0
    {
      assert longer[j..] == events[j..] + [e];
      OneMoreEvent(events[j..], e);
    }
    assert longer[|longer|..] == [] && events[|events|..] == [];
    assert ReadsTakeAllBut(0, events[|events|..], left);
  }

  /** How much is left to be read after a schedule without clears, by what arrives and how often it is read. */
  lemma {:induction false} PendingAtMost(q: Queue, events: seq<Event>, left: nat)
    requires NoClear(events)
    ensures |AfterAll(q, events).pending| <= left <==> LeavesAtMost(|q.pending|, events, left)
  {
    if events == [] {
      assert events[0..] == [];
    } else {
      var init, last := events[..|events| - 1], events[|events| - 1];
      assert events == init + [last];
      OneMoreLeaves(|q.pending|, init, last, left);
      var rest := match last case Appended(data) => left - |data| case Took => left + READ_CHUNK_SIZE case _ => left;
      if rest >= 0 {
        PendingAtMost(q, init, rest);
      }
    }
  }

  /** The events after the last clear. */
  function SinceClear(events: seq<Event>): (rest: seq<Event>)
    ensures NoClear(rest)
  {
    if events == [] || events[|events| - 1].Cleared? then []
    else SinceClear(events[..|events| - 1]) + [events[|events| - 1]]
  }

  lemma ClearedEmpties(q: Queue)
    ensures After(q, Cleared).pending == []
  {
  }

  lemma PendingOnly(q: Queue, other: Queue, e: Event)
    requires q.pending == other.pending
    ensures After(q, e).pending == After(other, e).pending
  {
  }

  lemma {:induction false} OnlySinceClear(q: Queue, events: seq<Event>)
    ensures NoClear(events) ==> SinceClear(events) == events
    ensures !NoClear(events) ==> AfterAll(q, events).pending == AfterAll(q.(pending := []), SinceClear(events)).pending
  {
    hide After;
    if events != [] {
      var init, last := events[..|events| - 1], events[|events| - 1];
      assert events == init + [last];
      OnlySinceClear(q, init);
      if last.Cleared? {
        ClearedEmpties(AfterAll(q, init));
      } else {
        if !NoClear(init) {
          PendingOnly(AfterAll(q, init), AfterAll(q.(pending := []), SinceClear(init)), last);
        }
        assert SinceClear(events)[..|SinceClear(events)| - 1] == SinceClear(init);
      }
    }
  }

  /** A schedule drains a body: since the last clear, or the start if there is none, its reads were enough. */
  predicate Drains(level: nat, events: seq<Event>) {
    LeavesAtMost(if NoClear(events) then level else 0, SinceClear(events), 0)
  }

  /** After a schedule of appends, reads and clears a body is empty exactly when the schedule drains it. */
  lemma EmptyExactlyWhenDrained(q: Queue, events: seq<Event>)
    ensures AfterAll(q, events).pending == [] <==> Drains(|q.pending|, events)
  {
    OnlySinceClear(q, events);
    if NoClear(events) {
      PendingAtMost(q, events, 0);
    } else {
      PendingAtMost(q.(pending := []), SinceClear(events), 0);
    }
  }

  predicate Ending(e: Event) {
    e.Completed? || e.Failed?
  }

  lemma {:induction false} CompleteExactlyWhenEnded(q: Queue, events: seq<Event>)
    ensures AfterAll(q, events).complete <==> q.complete || exists k | 0 <= k < |events| :: Ending(events[k])
  {
    if events != [] {
      var init, last := events[..|events| - 1], events[|events| - 1];
      CompleteExactlyWhenEnded(q, init);
      assert Ending(last) ==> Ending(events[|events| - 1]);
      assert forall k | 0 <= k < |init| :: init[k] == events[k];
    }
  }

  /** A reader that was woken, and goes on after others had their turn, gets nothing before the body is complete
      exactly when nothing ended the body and what was appended and taken in between drained it. */
  lemma NothingBeforeComplete(q: Queue, events: seq<Event>)
    ensures Chunk(AfterAll(q, events).pending) == [] && !AfterAll(q, events).complete <==>
            !q.complete && (forall k | 0 <= k < |events| :: !Ending(events[k])) && Drains(|q.pending|, events)
  {
    EmptyExactlyWhenDrained(q, events);
    CompleteExactlyWhenEnded(q, events);
  }

  lemma {:induction false} StaysHonest(q: Queue, events: seq<Event>)
    requires Honest(q) && forall e | e in events :: e.Appended? ==> e.data != []
    ensures Honest(AfterAll(q, events))
  {
    if events != [] {
      assert events[|events| - 1] in events;
      assert forall e | e in events[..|events| - 1] :: e in events;
      StaysHonest(q, events[..|events| - 1]);
    }
  }

  /** Nobody but the reader that was woken takes from the body or clears it. */
  predicate Undisturbed(events: seq<Event>) {
    forall k | 0 <= k < |events| :: !events[k].Took? && !events[k].Cleared?
  }

  lemma {:induction false} UndisturbedReadsNothing(events: seq<Event>)
    requires Undisturbed(events)
    ensures Reads(events) == 0
  {
    if events != [] {
      UndisturbedReadsNothing(events[..|events| - 1]);
    }
  }

  /** A reader that nobody disturbs gets data, or the body is complete. */
  lemma UndisturbedGetsData(q: Queue, events: seq<Event>)
    requires Honest(q) && q.hasData && Undisturbed(events)
    ensures Chunk(AfterAll(q, events).pending) != [] || AfterAll(q, events).complete
  {
    NothingBeforeComplete(q, events);
    OnlySinceClear(q, events);
    UndisturbedReadsNothing(events);
  }

  /** Two readers waiting for the same byte: the second one to go on gets nothing, though nothing was completed. */
  lemma SecondReaderGetsNothing(b: Octet) returns (q: Queue, events: seq<Event>)
    ensures Honest(q) && q.hasData && !q.complete
    ensures AfterAll(q, events) == Queue([], false, false, None) && events == [Took]
  {
    q, events := Queue([b], true, false, None), [Took];
    assert AfterAll(q, []) == q;
  }

  // ----- the body -----

  /** Writing at an offset of a file; a gap before the offset is filled with zeros. */
  function WriteAt(file: Bytes, offset: nat, data: Bytes): Bytes {
    var padded := if |file| < offset then file + seq(offset - |file|, _ => 0) else file;
    padded[..offset] + data + if |padded| <= offset + |data| then [] else padded[offset + |data|..]
  }

  datatype GetStart = Raise(error: Error) | Wait | Go

  class Body {
    const maxLength: Option<nat>
    var spool: Bytes
    var readOffset: nat
    var writeOffset: nat
    var received: nat
    var hasData: bool
    var complete: bool
    var error: Option<Error>
    var closed: bool
    ghost var accepted: Bytes
    ghost var delivered: Bytes
    ghost var total: nat

    ghost predicate Valid()
      reads this
    {
      && readOffset <= writeOffset && |spool| <= writeOffset
      && (readOffset < writeOffset ==> |spool| == writeOffset)
      && Honest(Abs()) && (error.Some? ==> complete)
      && accepted == delivered + Pending()
      && (error.None? ==> total == received)
      && (maxLength.Some? ==> total <= maxLength.value)
    }

    function Pending(): Bytes
      reads this
    {
      Rest(spool, readOffset)
    }

    function Abs(): Queue
      reads this
    {
      Queue(Pending(), hasData, complete, error)
    }

    constructor (maxLength: Option<nat>)
      ensures Valid() && Abs() == Queue([], false, false, None) && !closed
      ensures accepted == [] && delivered == [] && this.maxLength == maxLength
    {
      this.maxLength := maxLength;
      spool, readOffset, writeOffset, received := [], 0, 0, 0;
      hasData, complete, error, closed := false, false, None, false;
      accepted, delivered, total := [], [], 0;
    }

    method SetComplete()
      requires Valid()
      modifies this`complete, this`hasData
      ensures Valid() && Abs() == After(old(Abs()), Completed)
    {
      complete, hasData := true, true;
    }

    method Fail(e: Error)
      requires Valid() && !complete
      modifies this`error, this`complete, this`hasData
      ensures Valid() && Abs() == After(old(Abs()), Failed(e))
    {
      error, complete, hasData := Some(e), true, true;
    }

    /** Puts data after what was received before. */
    method Write(data: Bytes)
      requires Valid() && !complete && data != []
      requires maxLength.Some? ==> total + |data| <= maxLength.value
      modifies this`spool, this`writeOffset, this`received, this`hasData, this`accepted, this`total
      ensures Valid() && Abs() == After(old(Abs()), Appended(data)) && accepted == old(accepted) + data
    {
      WrittenAtEnd(spool, readOffset, writeOffset, data);
      spool := WriteAt(spool, writeOffset, data);
      writeOffset := writeOffset + |data|;
      hasData := true;
      received, accepted, total := received + |data|, accepted + data, total + |data|;
    }

    /** There is no room on disk for what would go to the file there: all of it, the first time. */
    predicate NoRoom(size: nat, free: nat, floor: nat)
      reads this
    {
      var newOffset := writeOffset + size;
      newOffset > 1048576 && free <= floor + if writeOffset <= 1048576 then newOffset else size
    }

    method Append(data: Bytes, free: nat, floor: nat, writeFails: bool)
      requires Valid()
      modifies this`spool, this`writeOffset, this`received, this`hasData, this`complete, this`error, this`accepted,
          this`total
      ensures Valid()
      ensures var ignored := data == [] || closed || old(complete);
              var tooLarge := maxLength.Some? && old(received) + |data| > maxLength.value;
              if ignored then Abs() == old(Abs()) && accepted == old(accepted)
              else if tooLarge then Abs() == After(old(Abs()), Failed(TooLarge)) && accepted == old(accepted)
              else if old(NoRoom(|data|, free, floor))
                then Abs() == After(old(Abs()), Failed(NoSpace)) && accepted == old(accepted)
              else if writeFails then Abs() == After(old(Abs()), Failed(WriteFailed)) && accepted == old(accepted)
              else Abs() == After(old(Abs()), Appended(data)) && accepted == old(accepted) + data
    {
      if data == [] || closed || complete || error.Some? {
        return;
      }
      if maxLength.Some? && received + |data| > maxLength.value {
        Fail(TooLarge);
        received := received + |data|;
        return;
      }
      var newOffset := writeOffset + |data|;
      if newOffset > SPOOL_MAX_SIZE {
        var diskGrowth := if writeOffset <= SPOOL_MAX_SIZE then newOffset else |data|;
        if free <= floor + diskGrowth {
          Fail(NoSpace);
          received := received + |data|;
          return;
        }
      }
      if writeFails {
        Fail(WriteFailed);
        received := received + |data|;
        return;
      }
      Write(data);
    }

    method SetResult(data: Bytes, free: nat, floor: nat, writeFails: bool)
      requires Valid()
      modifies this
      ensures Valid() && complete && delivered == old(delivered)
      ensures accepted == old(accepted) || accepted == old(accepted) + data
    {
      Append(data, free, floor, writeFails);
      SetComplete();
    }

    method Clear()
      requires Valid()
      modifies this`spool, this`readOffset, this`writeOffset, this`hasData, this`accepted, this`delivered
      ensures Valid()
      ensures if closed then Abs() == old(Abs()) && accepted == old(accepted) && delivered == old(delivered)
              else Abs() == After(old(Abs()), Cleared) && accepted == [] && delivered == []
    {
      if closed {
        return;
      }
      readOffset, writeOffset, spool, hasData := 0, 0, [], false;
      accepted, delivered := [], [];
    }

    method Disconnect()
      requires Valid()
      modifies this`error, this`complete, this`hasData
      ensures Valid()
      ensures Abs() == if old(complete) then old(Abs()) else After(old(Abs()), Failed(Disconnected))
    {
      if complete {
        return;
      }
      Fail(Disconnected);
    }

    /** The start of a read: an error, a wait for data, or leave to go on. */
    method StartGet() returns (r: GetStart)
      requires Valid()
      ensures r == if error.Some? then Raise(error.value) else if !complete && !hasData then Wait else Go
      ensures r.Go? ==> Pending() != [] || complete
    {
      if error.Some? {
        return Raise(error.value);
      }
      return if !complete && !hasData then Wait else Go;
    }

    /** The end of a read, right after its start or when it was woken. */
    method FinishGet() returns (r: Result<Bytes, Error>)
      requires Valid() && !closed
      modifies this`readOffset, this`hasData, this`delivered
      ensures Valid()
      ensures if error.Some? then r == Err(error.value) && Abs() == old(Abs()) && delivered == old(delivered)
              else r == Ok(Chunk(old(Pending()))) && Abs() == After(old(Abs()), Took)
                   && delivered == old(delivered) + r.value
    {
      if error.Some? {
        return Err(error.value);
      }
      var data := Chunk(Pending());
      ReadOn(spool, readOffset);
      readOffset := readOffset + |data|;
      if readOffset == writeOffset {
        hasData := false;
      }
      delivered := delivered + data;
      return Ok(data);
    }

    /** The end of a read by iteration: at the end of the body the spool is given up. */
    method FinishNext() returns (r: Result<Option<Bytes>, Error>)
      requires Valid() && !closed
      modifies this`readOffset, this`hasData, this`delivered, this`spool
      ensures Valid()
      ensures if error.Some? then r == Err(error.value) && Abs() == old(Abs())
              else r == Ok(if old(Pending()) == [] then None else Some(Chunk(old(Pending()))))
                   && Abs() == After(old(Abs()), Took) && delivered == old(delivered) + Chunk(old(Pending()))
    {
      var data := FinishGet();
      if data.Err? {
        return Err(data.error);
      }
      if data.value != [] {
        return Ok(Some(data.value));
      }
      spool := [];
      return Ok(None);
    }

    /** Waiting for the whole body gives all that was accepted and not read before. */
    method AwaitAll() returns (r: Result<Bytes, Error>)
      requires Valid() && complete && !closed
      ensures if error.Some? then r == Err(error.value) else r.Ok? && accepted == delivered + r.value
    {
      if error.Some? {
        return Err(error.value);
      }
      return Ok(Pending());
    }

    method Close()
      requires Valid()
      modifies this`closed
      ensures Valid() && closed
    {
      closed := true;
    }
  }

  function Rest(spool: Bytes, readOffset: nat): Bytes {
    if readOffset <= |spool| then spool[readOffset..] else []
  }

  lemma ReadOn(spool: Bytes, readOffset: nat)
    ensures var data := Chunk(Rest(spool, readOffset));
      Rest(spool, readOffset) == data + Rest(spool, readOffset + |data|)
      && Rest(spool, readOffset + |data|) == Rest(spool, readOffset)[|data|..]
  {
  }

  /** Appending leaves what is still to be read in place and puts the new bytes after it. */
  lemma WrittenAtEnd(spool: Bytes, readOffset: nat, writeOffset: nat, data: Bytes)
    requires readOffset <= writeOffset && |spool| <= writeOffset
      && (readOffset < writeOffset ==> |spool| == writeOffset)
    ensures |WriteAt(spool, writeOffset, data)| == writeOffset + |data|
    ensures WriteAt(spool, writeOffset, data)[readOffset..] == Rest(spool, readOffset) + data
  {
  }
}
