/** The daily logs and their seals together, as the daily job keeps them. */
module AuditTrail {
  import opened Wrappers
  import opened Packets
  import opened DailyLogs
  import Sealing

  /** A day is closed, and these are the bytes of its file. */
  ghost predicate DayOnDisk(render: DayFile -> Bytes, files: Files, closed: Option<int>, day: int, data: Bytes) {
    UpTo(closed, day) && day in files && data == render(files[day])
  }

  /** The days handed over for sealing are closed ones, from the oldest that has a file on. */
  ghost predicate OnDisk(render: DayFile -> Bytes, files: Files, closed: Option<int>, first: int, days: seq<Bytes>) {
    && (days != [] ==> IsOldest(files.Keys, first))
    && (forall k | 0 <= k < |days| :: DayOnDisk(render, files, closed, first + k, days[k]))
  }

  /** What leaves closed days alone leaves the days handed over alone. */
  lemma StaysOnDisk(render: DayFile -> Bytes, files: Files, closed: Option<int>, history: seq<Entry>,
                    files': Files, closed': Option<int>, history': seq<Entry>, first: int, days: seq<Bytes>)
    requires OnDisk(render, files, closed, first, days) && SameClosed(closed, files, history, files', history')
    requires closed.Some? ==> closed'.Some? && closed.value <= closed'.value
    ensures OnDisk(render, files', closed', first, days)
  {
    forall k | 0 <= k < |days|
      ensures DayOnDisk(render, files', closed', first + k, days[k])
    {
      assert DayOnDisk(render, files, closed, first + k, days[k]);
    }
    if days != [] {
      assert DayOnDisk(render, files, closed, first + 0, days[0]);
      forall d | d in files'
        ensures first <= d
      {
        if UpTo(closed, d) {
          assert d in files;
        }
      }
    }
  }

  /** What the files of so many days hold, from the first one on. */
  function DayBytes(render: DayFile -> Bytes, files: Files, first: int, n: nat): (days: seq<Bytes>)
    requires forall day | first <= day < first + n :: day in files
  {
    seq(n, k requires 0 <= k < n => render(files[first + k]))
  }

  lemma ReadFromDisk(render: DayFile -> Bytes, files: Files, closed: Option<int>, first: int, days: seq<Bytes>, n: nat)
    requires OnDisk(render, files, closed, first, days) && n <= |days|
    ensures forall day | first <= day < first + n :: day in files
    ensures DayBytes(render, files, first, n) == days[..n]
  {
    forall day | first <= day < first + n
      ensures day in files
    {
      assert DayOnDisk(render, files, closed, first + (day - first), days[day - first]);
    }
    forall k | 0 <= k < n
      ensures DayBytes(render, files, first, n)[k] == days[..n][k]
    {
      assert DayOnDisk(render, files, closed, first + k, days[k]);
    }
  }

  /** The days with a file up to the given one are so many, one after the other, from the first one on. */
  ghost predicate AreDue(files: Files, through: int, first: int, n: nat) {
    forall d :: first <= d < first + n <==> d in files && d <= through
  }

  lemma {:induction false} SealedPrefix(h: Bytes -> Bytes, root: Sealing.PublicKey, days: seq<Bytes>,
                                        seals: seq<Sealing.Record>)
    requires |seals| <= |days|
    ensures Sealing.VerifyAll(h, root, days[..|seals|], seals) == Sealing.VerifyAll(h, root, days, seals)
    decreases |seals|
  {
    if seals != [] {
      assert days[..|seals|][1..] == days[1..][..|seals| - 1];
      SealedPrefix(h, seals[0].message.next, days[1..], seals[1..]);
    }
  }

  /** A round of sealing goes through: so many days are sealed and so many due. */
  predicate SealsOn(sealed: nat, due: nat, ready: bool, fault: Sealing.Fault) {
    ready && sealed <= due && (fault == Sealing.Never || sealed == due)
  }

  /** How many days are sealed after it; a fault after the publication leaves the seal there. */
  function SealsAfter(sealed: nat, due: nat, ready: bool, fault: Sealing.Fault): nat {
    if ready && sealed < due && fault in {Sealing.Never, Sealing.Replacing} then sealed + 1 else sealed
  }

  class Trail {
    const log: AuditLog
    const service: Sealing.Service
    const render: DayFile -> Bytes
    var first: int

    ghost predicate Valid()
      reads this, log, service
    {
      log.Valid() && service.Valid() && OnDisk(render, log.files, log.closed, first, service.days)
    }

    /** In every state that is reached, the files of the sealed days, read from disk as they are now, verify from the
        root of the chain to its last key: no append, close or seal since has done them any harm. */
    lemma SealedDaysVerify()
      requires Valid() && service.root.Some?
      ensures forall day | first <= day < first + |service.seals| :: day in log.files
      ensures var days := DayBytes(render, log.files, first, |service.seals|);
              Sealing.VerifyAll(service.h, service.root.value, days, service.seals) == service.Expected()
    {
      ReadFromDisk(render, log.files, log.closed, first, service.days, |service.seals|);
      SealedPrefix(service.h, service.root.value, service.days, service.seals);
    }

    constructor (h: Bytes -> Bytes, render: DayFile -> Bytes)
      ensures Valid() && fresh(log) && fresh(service) && service.seals == []
    {
      this.render := render;
      this.first := 0;
      log := new AuditLog();
      service := new Sealing.Service(h);
    }

    method Append(today: int, time: string, logger: string, level: string, event: Bytes, cut: bool) returns (ok: bool)
      requires Valid()
      modifies log
      ensures Valid()
      ensures ok <==> !old(log.IsClosed(today)) && !old(log.FileOf(today)).torn && !cut
      ensures log.history == old(log.history) + if ok then [Entry(today, time, logger, level, event)] else []
    {
      ghost var files, closed, history := log.files, log.closed, log.history;
      ok := log.Append(today, time, logger, level, event, cut);
      StaysOnDisk(render, files, closed, history, log.files, log.closed, log.history, first, service.days);
    }

    /** Hands over the closed days up to the given one, one after the other. A missing file would be an error, but
        no file is ever missing. */
    method HandOverFrom(through: int) returns (ok: bool)
      requires Valid() && (first + |service.days| <= through ==> log.IsClosed(through))
      requires IsOldest(log.files.Keys, first) && first <= through
      modifies service`days
      ensures Valid() && old(service.days) <= service.days && service.days != []
      ensures ok && through < first + |service.days|
    {
      hide Consistent, Sealing.Sound;
      while first + |service.days| <= through
        invariant Valid() && old(service.days) <= service.days
        invariant first + |service.days| <= through ==> log.IsClosed(through)
        decreases through - first - |service.days|
      {
        if first + |service.days| !in log.files {
          assert false;
          return false;
        }
        service.AddDay(render(log.files[first + |service.days|]));
      }
      return true;
    }

    /** The first day handed over is the oldest that has a file. */
    method HandOver(through: int) returns (ok: bool)
      requires Valid() && NothingOpen(through)
      modifies this`first, service`days
      ensures Valid() && old(service.days) <= service.days
      ensures old(service.days) != [] ==> first == old(first)
      ensures ok
      ensures AreDue(log.files, through, first, DueDays(through))
    {
      hide Consistent, Sealing.Sound;
      if service.days == [] {
        if log.files == map[] {
          return true;
        }
        var oldest := log.OldestFile();
        assert forall d | d in log.files :: oldest <= d;
        if through < oldest {
          return true;
        }
        first := oldest;
      } else {
        DayHandedOver(first);
        assert forall d | d in log.files :: first <= d;
        if through < first {
          return true;
        }
      }
      ok := HandOverFrom(through);
    }

    lemma DayHandedOver(day: int)
      requires Valid() && first <= day < first + |service.days|
      ensures day in log.files && log.IsClosed(day)
    {
      assert DayOnDisk(render, log.files, log.closed, first + (day - first), service.days[day - first]);
    }

    /** How many of the days handed over are not after the given one. */
    function DueDays(through: int): (n: nat)
      reads this, service
    {
      if through < first then 0 else if |service.days| <= through - first then |service.days| else through - first + 1
    }

    /** Whether the service goes on to seal: it rests, or makes the first key. */
    predicate Ready(firstFault: Sealing.Fault)
      reads this, service
    {
      service.Resting() || (service.root.None? && !service.hasKeys && firstFault == Sealing.Never)
    }

    /** Every day up to the given one is closed, as far as there are any. */
    predicate NothingOpen(through: int)
      reads log
    {
      log.IsClosed(through) || forall d | d in log.files :: through < d
    }

    /** The first half of the daily job: the log is closed up to the given day. */
    method CloseLog(through: int, today: int, crash: Option<int>) returns (outcome: Outcome)
      requires Valid()
      modifies log
      ensures Valid()
      ensures outcome == CloseOutcome(old(log.files), old(log.closed), through, today, crash)
      ensures log.closed == if outcome.Closed? then Some(through) else old(log.closed)
      ensures !outcome.Failed? ==> NothingOpen(through)
    {
      hide Consistent, Sealing.Sound, SameClosed, OnDisk;
      ghost var files, closed, history := log.files, log.closed, log.history;
      outcome := log.Close(through, today, crash);
      StaysOnDisk(render, files, closed, history, log.files, log.closed, log.history, first, service.days);
    }

    /** The second half: the closed days are handed over, and one more is sealed. */
    method SealDue(through: int, datetime: string, firstKey: Sealing.Key, firstFault: Sealing.Fault,
                   key: Sealing.Key, fault: Sealing.Fault)
      returns (ok: bool)
      requires Valid() && NothingOpen(through)
      requires firstKey !in service.minted && key !in service.minted && firstKey != key
      modifies this`first, log`seals, service
      ensures Valid()
      ensures old(service.seals) <= service.seals
      ensures AreDue(log.files, through, first, DueDays(through))
      ensures ok <==> SealsOn(old(|service.seals|), DueDays(through), old(Ready(firstFault)), fault)
      ensures |service.seals| == SealsAfter(old(|service.seals|), DueDays(through), old(Ready(firstFault)), fault)
      ensures ok ==> service.Resting()
    {
      hide Consistent, Unbroken, Sealing.Sound, OnDisk, AreDue;
      ok := HandOver(through);
      if !ok {
        return;
      }
      var sealed := |service.seals|;
      ok := service.SealNext(DueDays(through), datetime, firstKey, firstFault, key, fault);
      if sealed < |service.seals| {
        DayHandedOver(first + sealed);
        log.AddSeal(first + sealed);
      }
    }

    /** The daily job: closes the days up to the given one, checks that none is missing, and seals one more. It goes
        through exactly when closing does, there are no more seals than days due, the service is ready, and the round,
        if a day is due, is not cut short. */
    method SealDay(through: int, today: int, crash: Option<int>, datetime: string, firstKey: Sealing.Key,
                   firstFault: Sealing.Fault, key: Sealing.Key, fault: Sealing.Fault)
      returns (ok: bool)
      requires Valid() && firstKey !in service.minted && key !in service.minted && firstKey != key
      modifies this`first, log, service
      ensures Valid()
      ensures old(service.seals) <= service.seals
      ensures
        var closing := CloseOutcome(old(log.files), old(log.closed), through, today, crash);
        var n, due, ready := old(|service.seals|), DueDays(through), old(Ready(firstFault));
        && log.closed == (if closing.Closed? then Some(through) else old(log.closed))
        && (ok <==> !closing.Failed? && SealsOn(n, due, ready, fault))
        && (closing.Failed? ==> service.seals == old(service.seals))
        && (!closing.Failed? ==>
              && AreDue(log.files, through, first, due)
              && |service.seals| == SealsAfter(n, due, ready, fault))
      ensures ok ==> service.Resting()
    {
      hide Valid, AreDue, CloseOutcome, SealsOn, SealsAfter;
      var outcome := CloseLog(through, today, crash);
      if outcome.Failed? {
        return false;
      }
      ok := SealDue(through, datetime, firstKey, firstFault, key, fault);
    }
  }
}
