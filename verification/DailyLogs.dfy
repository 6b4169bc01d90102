/** The daily audit logs: records are appended to the file of the day, and closing a day rewrites its file in
    canonical order before the day is marked as closed. */
module DailyLogs {
  import opened Wrappers
  import opened Sorting
  import opened Packets

  /** A record as its line holds it: the date and the rest of its timestamp, and the event in canonical form. */
  datatype Entry = Entry(day: int, time: string, logger: string, level: string, event: Bytes)

  function SortKey(e: Entry): seq<seq<int>> {
    [[e.day], Codes(e.time), Codes(e.logger), Codes(e.level), e.event]
  }

  predicate TupleLe(a: seq<seq<int>>, b: seq<seq<int>>) {
    a == [] || (b != [] && if a[0] == b[0] then TupleLe(a[1..], b[1..]) else LexLe(a[0], b[0]))
  }

  function EntryOrder(): (Entry, Entry) -> bool {
    (a: Entry, b: Entry) => TupleLe(SortKey(a), SortKey(b))
  }

  lemma {:induction false} TupleTotal(a: seq<seq<int>>, b: seq<seq<int>>)
    ensures TupleLe(a, b) || TupleLe(b, a)
    ensures TupleLe(a, b) && TupleLe(b, a) ==> a == b
  {
    if a != [] && b != [] {
      LexTotal(a[0], b[0]);
      TupleTotal(a[1..], b[1..]);
      if a[0] == b[0] && a[1..] == b[1..] {
        assert a == [a[0]] + a[1..] && b == [b[0]] + b[1..];
      }
    }
  }

  lemma {:induction false} TupleTransitive(a: seq<seq<int>>, b: seq<seq<int>>, c: seq<seq<int>>)
    requires TupleLe(a, b) && TupleLe(b, c)
    ensures TupleLe(a, c)
  {
    if a != [] {
      if a[0] == b[0] && b[0] == c[0] {
        TupleTransitive(a[1..], b[1..], c[1..]);
      } else if a[0] != b[0] && b[0] != c[0] {
        LexTransitive(a[0], b[0], c[0]);
        LexTotal(a[0], b[0]);
      }
    }
  }

  lemma OrderIsTotal()
    ensures Preorder(EntryOrder())
    ensures forall s: set<Entry> :: Separates(EntryOrder(), s)
  {
    forall a: Entry, b: Entry
      ensures EntryOrder()(a, b) || EntryOrder()(b, a)
      ensures EntryOrder()(a, b) && EntryOrder()(b, a) ==> a == b
    {
      TupleTotal(SortKey(a), SortKey(b));
      if SortKey(a) == SortKey(b) {
        KeyInjective(a, b);
      }
    }
    forall a: Entry, b: Entry, c: Entry | EntryOrder()(a, b) && EntryOrder()(b, c)
      ensures EntryOrder()(a, c)
    {
      TupleTransitive(SortKey(a), SortKey(b), SortKey(c));
    }
  }

  lemma KeyInjective(a: Entry, b: Entry)
    requires SortKey(a) == SortKey(b)
    ensures a == b
  {
    var k, l := SortKey(a), SortKey(b);
    assert k[0] == l[0] && k[1] == l[1] && k[2] == l[2] && k[3] == l[3] && k[4] == l[4];
    CodesInjective(a.time, b.time);
    CodesInjective(a.logger, b.logger);
    CodesInjective(a.level, b.level);
  }

  // ----- the order, in its own terms -----

  /** The earlier time comes first; at one time the smaller logger, with one logger the smaller level, and with one
      level the smaller event. */
  ghost predicate InOrder(a: Entry, b: Entry) {
    if a.day != b.day then a.day < b.day
    else if a.time != b.time then TextBefore(a.time, b.time)
    else if a.logger != b.logger then TextBefore(a.logger, b.logger)
    else if a.level != b.level then TextBefore(a.level, b.level)
    else a.event == b.event || LexBefore(a.event, b.event)
  }

  ghost predicate AllInOrder(entries: seq<Entry>) {
    forall i, j | 0 <= i < j < |entries| :: InOrder(entries[i], entries[j])
  }

  /** The entries of a list that have the day, as often as the list has them. */
  ghost predicate HoldsDay(entries: seq<Entry>, records: seq<Entry>, day: int) {
    forall e :: multiset(entries)[e] == if e.day == day then multiset(records)[e] else 0
  }

  lemma TextLe(s: string, t: string)
    ensures LexLe(Codes(s), Codes(t)) <==> s == t || TextBefore(s, t)
    ensures Codes(s) == Codes(t) <==> s == t
  {
    LexLeByPosition(Codes(s), Codes(t));
    TextByCodes(s, t);
    if Codes(s) == Codes(t) {
      CodesInjective(s, t);
    }
  }

  lemma DaysCompare(a: int, b: int)
    ensures LexLe([a], [b]) <==> a <= b
  {
  }

  lemma OrderByTime(a: Entry, b: Entry)
    ensures EntryOrder()(a, b) <==> InOrder(a, b)
  {
    hide LexLe, TextBefore, LexBefore, Codes;
    DaysCompare(a.day, b.day);
    TextLe(a.time, b.time);
    TextLe(a.logger, b.logger);
    TextLe(a.level, b.level);
    LexLeByPosition(a.event, b.event);
    KeysCompare([a.day], Codes(a.time), Codes(a.logger), Codes(a.level), a.event,
                [b.day], Codes(b.time), Codes(b.logger), Codes(b.level), b.event);
    if a.day != b.day {
      assert [a.day][0] != [b.day][0];
    }
  }

  lemma KeysCompare(a0: seq<int>, a1: seq<int>, a2: seq<int>, a3: seq<int>, a4: seq<int>,
                    b0: seq<int>, b1: seq<int>, b2: seq<int>, b3: seq<int>, b4: seq<int>)
    ensures TupleLe([a0, a1, a2, a3, a4], [b0, b1, b2, b3, b4]) <==>
            if a0 != b0 then LexLe(a0, b0) else if a1 != b1 then LexLe(a1, b1) else if a2 != b2 then LexLe(a2, b2)
            else if a3 != b3 then LexLe(a3, b3) else a4 == b4 || LexLe(a4, b4)
  {
    hide LexLe, TupleLe;
    assert [a0, a1, a2, a3, a4] == [a0] + ([a1] + ([a2] + ([a3] + ([a4] + []))));
    assert [b0, b1, b2, b3, b4] == [b0] + ([b1] + ([b2] + ([b3] + ([b4] + []))));
    KeyStep(a0, [a1] + ([a2] + ([a3] + ([a4] + []))), b0, [b1] + ([b2] + ([b3] + ([b4] + []))));
    KeyStep(a1, [a2] + ([a3] + ([a4] + [])), b1, [b2] + ([b3] + ([b4] + [])));
    KeyStep(a2, [a3] + ([a4] + []), b2, [b3] + ([b4] + []));
    KeyStep(a3, [a4] + [], b3, [b4] + []);
    KeyStep(a4, [], b4, []);
  }

  lemma KeyStep(x: seq<int>, xs: seq<seq<int>>, y: seq<int>, ys: seq<seq<int>>)
    ensures TupleLe([x] + xs, [y] + ys) <==> if x == y then TupleLe(xs, ys) else LexLe(x, y)
    ensures TupleLe([], [])
  {
    assert ([x] + xs)[1..] == xs && ([y] + ys)[1..] == ys;
  }

  // ----- building days -----

  function OfDay(entries: seq<Entry>, day: int): seq<Entry> {
    if entries == [] then []
    else (if entries[0].day == day then [entries[0]] else []) + OfDay(entries[1..], day)
  }

  lemma {:induction false} OfDayAppend(entries: seq<Entry>, e: Entry, day: int)
    ensures OfDay(entries + [e], day) == OfDay(entries, day) + if e.day == day then [e] else []
  {
    if entries != [] {
      assert (entries + [e])[1..] == entries[1..] + [e];
      OfDayAppend(entries[1..], e, day);
    }
  }

  lemma {:induction false} OfDayCounts(entries: seq<Entry>, day: int, e: Entry)
    ensures multiset(OfDay(entries, day))[e] == if e.day == day then multiset(entries)[e] else 0
  {
    if entries != [] {
      assert entries == [entries[0]] + entries[1..];
      OfDayCounts(entries[1..], day, e);
    }
  }

  lemma {:induction false} OfDaySorted(entries: seq<Entry>, day: int)
    requires Sorted(entries, EntryOrder())
    ensures Sorted(OfDay(entries, day), EntryOrder())
    ensures forall e | e in OfDay(entries, day) :: e in entries
  {
    if entries != [] {
      OfDaySorted(entries[1..], day);
      assert forall e | e in entries[1..] :: EntryOrder()(entries[0], e);
    }
  }

  /** Sorting everything and then taking a day is the same as taking the day and then sorting it. */
  lemma SortThenPick(records: seq<Entry>, day: int)
    ensures OfDay(Sort(records, EntryOrder()), day) == Sort(OfDay(records, day), EntryOrder())
  {
    OrderIsTotal();
    var all, picked := Sort(records, EntryOrder()), OfDay(records, day);
    SortKeeps(records, EntryOrder());
    SortSorted(records, EntryOrder());
    OfDaySorted(all, day);
    SortKeeps(picked, EntryOrder());
    SortSorted(picked, EntryOrder());
    forall e
      ensures multiset(OfDay(all, day))[e] == multiset(picked)[e]
    {
      OfDayCounts(all, day, e);
      OfDayCounts(records, day, e);
    }
    assert multiset(OfDay(all, day)) == multiset(Sort(picked, EntryOrder()));
    SortedUnique(OfDay(all, day), Sort(picked, EntryOrder()), EntryOrder());
  }

  lemma OfDayPrefix(entries: seq<Entry>, i: nat, day: int)
    requires i < |entries|
    ensures OfDay(entries[..i + 1], day) == OfDay(entries[..i], day)
      + if entries[i].day == day then [entries[i]] else []
  {
    assert entries[..i + 1] == entries[..i] + [entries[i]];
    OfDayAppend(entries[..i], entries[i], day);
  }

  predicate InDays(day: int, first: int, last: int) {
    first <= day <= last
  }

  method EmptyDays(first: int, last: int) returns (days: map<int, seq<Entry>>)
    requires first <= last
    ensures forall day :: day in days <==> InDays(day, first, last)
    ensures forall day | day in days :: days[day] == []
  {
    days := map[];
    for day := first to last + 1
      invariant forall d :: d in days <==> InDays(d, first, day - 1)
      invariant forall d | d in days :: days[d] == []
    {
      days := days[day := []];
    }
  }

  method SplitDays(entries: seq<Entry>, first: int, last: int) returns (r: Option<map<int, seq<Entry>>>)
    requires first <= last
    ensures r.Some? <==> forall e | e in entries :: InDays(e.day, first, last)
    ensures r.Some? ==> forall day :: day in r.value <==> InDays(day, first, last)
    ensures r.Some? ==> forall day | day in r.value :: r.value[day] == OfDay(entries, day)
  {
    var days := EmptyDays(first, last);
    for i := 0 to |entries|
      invariant forall day :: day in days <==> InDays(day, first, last)
      invariant forall day | day in days :: days[day] == OfDay(entries[..i], day)
      invariant forall k | 0 <= k < i :: InDays(entries[k].day, first, last)
    {
      var e := entries[i];
      if e.day !in days {
        return None;
      }
      forall day
        ensures OfDay(entries[..i + 1], day) == OfDay(entries[..i], day) + if e.day == day then [e] else []
      {
        OfDayPrefix(entries, i, day);
      }
      days := days[e.day := days[e.day] + [e]];
    }
    assert entries[..|entries|] == entries;
    return Some(days);
  }

  /** Splits records into the days of a range; each day is sorted on its own account. */
  method Build(records: seq<Entry>, first: int, last: int) returns (r: Option<map<int, seq<Entry>>>)
    ensures r.Some? <==> first <= last && forall e | e in records :: InDays(e.day, first, last)
    ensures r.Some? ==> forall day :: day in r.value <==> InDays(day, first, last)
    ensures r.Some? ==> forall day | day in r.value :: r.value[day] == Sort(OfDay(records, day), EntryOrder())
    ensures r.Some? ==> forall day | day in r.value :: AllInOrder(r.value[day]) && HoldsDay(r.value[day], records, day)
  {
    if first > last {
      return None;
    }
    SortKeeps(records, EntryOrder());
    SameElements(Sort(records, EntryOrder()), records);
    r := SplitDays(Sort(records, EntryOrder()), first, last);
    forall day
      ensures OfDay(Sort(records, EntryOrder()), day) == Sort(OfDay(records, day), EntryOrder())
    {
      SortThenPick(records, day);
    }
    forall day
      ensures AllInOrder(Sort(OfDay(records, day), EntryOrder()))
      ensures HoldsDay(Sort(OfDay(records, day), EntryOrder()), records, day)
    {
      DaySorted(records, day);
    }
  }

  lemma DaySorted(records: seq<Entry>, day: int)
    ensures AllInOrder(Sort(OfDay(records, day), EntryOrder()))
    ensures HoldsDay(Sort(OfDay(records, day), EntryOrder()), records, day)
  {
    hide InOrder, EntryOrder, OfDay;
    var sorted := Sort(OfDay(records, day), EntryOrder());
    OrderIsTotal();
    SortSorted(OfDay(records, day), EntryOrder());
    SortKeeps(OfDay(records, day), EntryOrder());
    forall i, j | 0 <= i < j < |sorted|
      ensures InOrder(sorted[i], sorted[j])
    {
      OrderByTime(sorted[i], sorted[j]);
    }
    forall e
      ensures multiset(sorted)[e] == if e.day == day then multiset(records)[e] else 0
    {
      OfDayCounts(records, day, e);
    }
  }

  lemma {:induction false} DaysOfDay(entries: seq<Entry>, day: int)
    ensures forall e | e in OfDay(entries, day) :: e.day == day && e in entries
  {
    if entries != [] {
      DaysOfDay(entries[1..], day);
    }
  }

  lemma {:induction false} OfOneDay(entries: seq<Entry>, day: int)
    requires forall e | e in entries :: e.day == day
    ensures OfDay(entries, day) == entries
  {
    if entries != [] {
      OfOneDay(entries[1..], day);
    }
  }

  // ----- the directory of daily files -----

  /** A day's file: its lines, and whether a write that was cut short left half a line at the end. */
  datatype DayFile = DayFile(entries: seq<Entry>, torn: bool)

  type Files = map<int, DayFile>

  /** The file of a day, or an empty one. */
  function FileIn(files: Files, day: int): DayFile {
    if day in files then files[day] else DayFile([], false)
  }

  /** What the file of a day is to be in the end: the day's records, sorted. */
  function ClosedFile(history: seq<Entry>, day: int): DayFile {
    DayFile(Sort(OfDay(history, day), EntryOrder()), false)
  }

  /** The file of a day holds the records appended for it, in whatever order. */
  ghost predicate Holds(files: Files, history: seq<Entry>, day: int) {
    if day in files then multiset(files[day].entries) == multiset(OfDay(history, day)) else OfDay(history, day) == []
  }

  /** A closed file does not depend on the order in which its records were appended. */
  lemma ClosedFileForgetsOrder(history: seq<Entry>, other: seq<Entry>, day: int)
    requires multiset(OfDay(history, day)) == multiset(OfDay(other, day))
    ensures ClosedFile(history, day) == ClosedFile(other, day)
    ensures multiset(ClosedFile(history, day).entries) == multiset(OfDay(history, day))
    ensures Sorted(ClosedFile(history, day).entries, EntryOrder())
  {
    OrderIsTotal();
    SortForgetsOrder(OfDay(history, day), OfDay(other, day), EntryOrder());
    SortKeeps(OfDay(history, day), EntryOrder());
    SortSorted(OfDay(history, day), EntryOrder());
  }

  /** Reading a day's file and building it anew gives the closed file. */
  lemma RebuiltIsClosed(records: seq<Entry>, history: seq<Entry>, day: int)
    requires multiset(records) == multiset(OfDay(history, day))
    ensures forall e | e in records :: e.day == day
    ensures DayFile(Sort(OfDay(records, day), EntryOrder()), false) == ClosedFile(history, day)
  {
    DaysOfDay(history, day);
    SameElements(records, OfDay(history, day));
    OfOneDay(records, day);
    ClosedFileForgetsOrder(records, history, day);
  }

  predicate IsOldest(days: set<int>, day: int) {
    day in days && forall d | d in days :: day <= d
  }

  lemma {:induction false} OldestExists(days: set<int>, some: int) returns (oldest: int)
    requires some in days
    ensures IsOldest(days, oldest)
    decreases days
  {
    oldest := some;
    if d :| d in days && d < some {
      var rest := days - {some};
      assert d in rest;
      oldest := OldestExists(rest, d);
      assert forall x | x in days :: x == some || x in rest;
    }
  }

  lemma AnyElement<T>(s: set<T>) returns (x: T)
    requires s != {}
    ensures x in s
  {
    x :| x in s;
  }

  predicate UpTo(closed: Option<int>, day: int) {
    closed.Some? && day <= closed.value
  }

  /** Every file holds its day's records, and a closed one holds them in order. */
  ghost predicate Consistent(files: Files, history: seq<Entry>, closed: Option<int>) {
    && (forall d :: Holds(files, history, d))
    && (forall d | d in files && UpTo(closed, d) :: files[d] == ClosedFile(history, d))
  }

  /** No day is missing between the oldest file and the last closed day. */
  ghost predicate Unbroken(files: Files, closed: Option<int>) {
    forall o, d | o in files && o <= d && UpTo(closed, d) :: d in files
  }

  /** The files and the records of the closed days are the same. */
  ghost predicate SameClosed(closed: Option<int>, files: Files, history: seq<Entry>, files': Files,
                             history': seq<Entry>)
  {
    && (forall d | UpTo(closed, d) :: (d in files' <==> d in files) && (d in files ==> files'[d] == files[d]))
    && (forall d | UpTo(closed, d) :: OfDay(history', d) == OfDay(history, d))
  }

  /** Writing the file of a day that is not closed. */
  lemma OpenDayWritten(files: Files, history: seq<Entry>, history': seq<Entry>, closed: Option<int>, day: int,
                       f: DayFile)
    requires Consistent(files, history, closed) && !UpTo(closed, day)
    requires multiset(f.entries) == multiset(OfDay(history', day))
    requires forall d | d != day :: OfDay(history', d) == OfDay(history, d)
    ensures Consistent(files[day := f], history', closed)
    ensures SameClosed(closed, files, history, files[day := f], history')
  {
    var files' := files[day := f];
    forall d
      ensures Holds(files', history', d)
    {
      assert Holds(files, history, d);
      assert d != day ==> (d in files' <==> d in files) && OfDay(history', d) == OfDay(history, d);
    }
    forall d | d in files' && UpTo(closed, d)
      ensures files'[d] == ClosedFile(history', d)
    {
      assert d != day && OfDay(history', d) == OfDay(history, d);
    }
  }

  /** Closing a day is not stopped by a crash or an unfinished line. */
  predicate Closes(files: Files, crash: Option<int>, day: int) {
    crash != Some(day) && !FileIn(files, day).torn
  }

  /** The files of the days from one up to another are closed, and the other files are as they were. */
  ghost predicate Rewritten(files: Files, files': Files, history: seq<Entry>, first: int, stop: int) {
    forall d :: if first <= d < stop then d in files' && files'[d] == ClosedFile(history, d)
                else (d in files' <==> d in files) && (d in files ==> files'[d] == files[d])
  }

  lemma RewriteNext(files: Files, files': Files, history: seq<Entry>, first: int, stop: int)
    requires Rewritten(files, files', history, first, stop) && first <= stop
    ensures FileIn(files', stop) == FileIn(files, stop)
    ensures Rewritten(files, files'[stop := ClosedFile(history, stop)], history, first, stop + 1)
  {
  }

  lemma RewrittenKeepsClosed(files: Files, files': Files, history: seq<Entry>, closed: Option<int>, first: int,
                             stop: int)
    requires Rewritten(files, files', history, first, stop) && !UpTo(closed, first)
    ensures SameClosed(closed, files, history, files', history)
  {
  }

  /** Closing up to a day concerns the days that are not closed yet, from the oldest that has a file on. */
  ghost predicate Due(files: Files, closed: Option<int>, through: int, day: int) {
    !UpTo(closed, day) && day <= through && (closed.Some? || exists o | o in files :: o <= day)
  }

  /** The file of a day that is due ends in the middle of a line. */
  ghost predicate TornDue(files: Files, closed: Option<int>, through: int) {
    exists d | d in files :: !UpTo(closed, d) && d <= through && files[d].torn
  }

  function FileAt(files: Files, day: int): Option<DayFile> {
    if day in files then Some(files[day]) else None
  }

  predicate SameDay(files: Files, files': Files, day: int) {
    FileAt(files', day) == FileAt(files, day)
  }

  /** Every day that is due is closed, with an empty file if it had none, and the others are as they were. */
  ghost predicate AllClosed(files: Files, closed: Option<int>, files': Files, history: seq<Entry>, through: int) {
    forall d ::
      if Due(files, closed, through, d) then FileAt(files', d) == Some(ClosedFile(history, d))
        else SameDay(files, files', d)
  }

  /** Some of the days that are due are closed, and the others are as they were. */
  ghost predicate SomeClosed(files: Files, closed: Option<int>, files': Files, history: seq<Entry>, through: int) {
    forall d ::
      || SameDay(files, files', d)
      || (Due(files, closed, through, d) && FileAt(files', d) == Some(ClosedFile(history, d)))
  }

  ghost predicate IsFirstOpen(files: Files, closed: Option<int>, first: int) {
    if closed.Some? then first == closed.value + 1 else IsOldest(files.Keys, first)
  }

  lemma DueFromFirst(files: Files, closed: Option<int>, through: int, first: int)
    requires IsFirstOpen(files, closed, first)
    ensures forall d :: Due(files, closed, through, d) <==> first <= d <= through
  {
  }

  /** What rewriting the due days from the first one on comes to, all the way or in part. */
  lemma RewrittenDue(files: Files, files': Files, history: seq<Entry>, closed: Option<int>, through: int, first: int,
                     stop: int)
    requires IsFirstOpen(files, closed, first) && first <= stop <= through + 1
    requires Rewritten(files, files', history, first, stop)
    ensures SomeClosed(files, closed, files', history, through)
    ensures stop == through + 1 ==> AllClosed(files, closed, files', history, through)
  {
    DueFromFirst(files, closed, through, first);
  }

  lemma StoppedExactly(files: Files, closed: Option<int>, crash: Option<int>, through: int, first: int, stop: int)
    requires IsFirstOpen(files, closed, first) && first <= stop <= through + 1
    requires stop <= through ==> !Closes(files, crash, stop)
    requires forall d | first <= d < stop :: Closes(files, crash, d)
    ensures stop <= through || crash.Some? <==> crash.Some? || TornDue(files, closed, through)
  {
    DueFromFirst(files, closed, through, first);
    if stop <= through && crash.None? {
      assert stop in files && files[stop].torn;
    }
    if TornDue(files, closed, through) {
      var d :| d in files && !UpTo(closed, d) && d <= through && files[d].torn;
      assert !Closes(files, crash, d);
    }
  }

  /** The closed days stay without a gap, and the newly closed ones are as they should be. */
  lemma MarkerMoves(files: Files, files': Files, history: seq<Entry>, closed: Option<int>, through: int)
    requires Unbroken(files, closed) && !UpTo(closed, through) && Consistent(files', history, closed)
    requires AllClosed(files, closed, files', history, through)
    ensures Unbroken(files', Some(through)) && Consistent(files', history, Some(through))
  {
    forall d | d in files' && UpTo(Some(through), d)
      ensures files'[d] == ClosedFile(history, d)
    {
      assert !UpTo(closed, d) && !Due(files, closed, through, d) ==> SameDay(files, files', d);
      assert !UpTo(closed, d) ==> FileAt(files', d) == Some(ClosedFile(history, d));
    }
    forall o, d | o in files' && o <= d && UpTo(Some(through), d)
      ensures d in files'
    {
      assert Due(files, closed, through, o) ==> FileAt(files', o).Some?;
      assert !Due(files, closed, through, d) ==> SameDay(files, files', d);
      assert !Due(files, closed, through, o) ==> SameDay(files, files', o);
    }
  }

  lemma FilledIsConsistent(files: Files, records: seq<Entry>)
    requires forall d | d in files :: files[d] == ClosedFile(records, d)
    requires forall e | e in records :: e.day in files
    ensures Consistent(files, records, None) && Unbroken(files, None)
  {
    forall d
      ensures Holds(files, records, d)
    {
      ClosedFileForgetsOrder(records, records, d);
      DaysOfDay(records, d);
      assert OfDay(records, d) == [] || OfDay(records, d)[0] in OfDay(records, d);
    }
  }

  /** A file of an open day leaves the closed ones without a gap. */
  lemma StaysUnbroken(files: Files, closed: Option<int>, day: int, f: DayFile)
    requires Unbroken(files, closed) && !UpTo(closed, day)
    ensures Unbroken(files[day := f], closed)
  {
  }

  lemma OneMoreRecord(files: Files, history: seq<Entry>, closed: Option<int>, entry: Entry)
    requires Consistent(files, history, closed)
    ensures multiset(FileIn(files, entry.day).entries + [entry]) == multiset(OfDay(history + [entry], entry.day))
    ensures forall d | d != entry.day :: OfDay(history + [entry], d) == OfDay(history, d)
  {
    assert Holds(files, history, entry.day);
    forall d
      ensures OfDay(history + [entry], d) == if d == entry.day then OfDay(history, d) + [entry] else OfDay(history, d)
    {
      OfDayAppend(history, entry, d);
    }
  }

  datatype Outcome = Closed | NothingToClose | Failed

  /** How closing ends: it is an error to close a day that is not over, a crash, and an unfinished line in the file of a
      day that is due. */
  ghost function CloseOutcome(files: Files, closed: Option<int>, through: int, today: int, crash: Option<int>): Outcome
  {
    if today <= through then Failed
    else if !Due(files, closed, through, through) then NothingToClose
    else if crash.Some? || TornDue(files, closed, through) then Failed
    else Outcome.Closed
  }

  class AuditLog {
    var files: Files
    var closed: Option<int>
    var seals: set<int>
    ghost var history: seq<Entry>

    ghost predicate Valid()
      reads this
    {
      Consistent(files, history, closed) && Unbroken(files, closed) && forall d | d in seals :: IsClosed(d)
    }

    /** The files of the closed days end in whole lines, and hold exactly the records of their days, in order of
        time. */
    lemma ClosedFilesInOrder(day: int)
      requires Valid() && day in files && IsClosed(day)
      ensures !files[day].torn && AllInOrder(files[day].entries) && HoldsDay(files[day].entries, history, day)
    {
      DaySorted(history, day);
    }

    predicate IsClosed(day: int)
      reads this
    {
      UpTo(closed, day)
    }

    /** Closed days stay closed, and their files and records stay as they are. */
    twostate predicate KeepsClosed()
      reads this
    {
      && (old(closed).Some? ==> closed.Some? && old(closed).value <= closed.value)
      && SameClosed(old(closed), old(files), old(history), files, history)
    }

    constructor ()
      ensures Valid() && files == map[] && closed.None? && history == []
    {
      files, closed, seals, history := map[], None, {}, [];
    }

    /** Makes the directory out of the records of the older logs, in one step, unless it has files already. */
    method Initialise(records: seq<Entry>, first: int, today: int) returns (ok: bool)
      requires Valid() && closed.None?
      requires records == [] ==> first == today
      requires records != [] ==> exists e | e in records :: e.day == first
      requires forall e | e in records :: first <= e.day
      modifies this`files, this`history
      ensures Valid()
      ensures ok <==> old(files) != map[] || forall e | e in records :: e.day <= today
      ensures if ok && old(files) == map[]
                then history == records && (forall d :: d in files <==> InDays(d, first, today))
                     && forall d | d in files :: files[d] == ClosedFile(records, d)
                else files == old(files) && history == old(history)
    {
      hide AllInOrder, HoldsDay, Consistent, Unbroken;
      if files != map[] {
        return true;
      }
      var days := Build(records, first, today);
      if days.None? {
        return false;
      }
      history := records;
      files := map d | d in days.value :: DayFile(days.value[d], false);
      FilledIsConsistent(files, records);
      return true;
    }

    function FileOf(day: int): DayFile
      reads this
    {
      FileIn(files, day)
    }

    method WriteLine(entry: Entry)
      requires Valid() && !IsClosed(entry.day)
      modifies this`files, this`history
      ensures Valid() && KeepsClosed()
      ensures history == old(history) + [entry]
    {
      var f := DayFile(FileOf(entry.day).entries + [entry], false);
      OneMoreRecord(files, history, closed, entry);
      StaysUnbroken(files, closed, entry.day, f);
      hide Consistent, SameClosed, Unbroken;
      OpenDayWritten(files, history, history + [entry], closed, entry.day, f);
      files := files[entry.day := f];
      history := history + [entry];
    }

    method WriteHalfALine(day: int)
      requires Valid() && !IsClosed(day)
      modifies this`files
      ensures Valid() && KeepsClosed()
    {
      var f := DayFile(FileOf(day).entries, true);
      assert Holds(files, history, day);
      OpenDayWritten(files, history, history, closed, day, f);
      files := files[day := f];
    }

    /** Appends a record under the date of the clock; the write may be cut short. */
    method Append(today: int, time: string, logger: string, level: string, event: Bytes, cut: bool) returns (ok: bool)
      requires Valid()
      modifies this`files, this`history
      ensures Valid() && KeepsClosed()
      ensures ok <==> !old(IsClosed(today)) && !old(FileOf(today)).torn && !cut
      ensures history == old(history) + if ok then [Entry(today, time, logger, level, event)] else []
      ensures old(IsClosed(today)) ==> files == old(files)
    {
      if (closed.Some? && today <= closed.value) || today in seals {
        return false;
      }
      if FileOf(today).torn {
        return false;
      }
      if cut {
        WriteHalfALine(today);
        return false;
      }
      WriteLine(Entry(today, time, logger, level, event));
      return true;
    }

    /** Reads the file of a day and builds it anew; an unfinished line is an error. */
    method Rebuild(day: int) returns (f: Option<DayFile>)
      requires Holds(files, history, day)
      ensures f == if FileOf(day).torn then None else Some(ClosedFile(history, day))
    {
      if FileOf(day).torn {
        return None;
      }
      var records := FileOf(day).entries;
      assert multiset(records) == multiset(OfDay(history, day));
      RebuiltIsClosed(records, history, day);
      var days := Build(records, day, day);
      assert InDays(day, day, day);
      return Some(DayFile(days.value[day], false));
    }

    /** Rewrites the file of one day in canonical order. */
    method CloseDay(day: int) returns (ok: bool)
      requires Valid() && !IsClosed(day)
      modifies this`files
      ensures Valid()
      ensures ok <==> !old(FileOf(day)).torn
      ensures files == if ok then old(files)[day := ClosedFile(history, day)] else old(files)
    {
      if day in seals {
        return false;
      }
      var f := Rebuild(day);
      if f.None? {
        return false;
      }
      ClosedFileForgetsOrder(history, history, day);
      OpenDayWritten(files, history, history, closed, day, f.value);
      files := files[day := f.value];
      return true;
    }

    method OldestFile() returns (day: int)
      requires files != map[]
      ensures IsOldest(files.Keys, day)
    {
      ghost var some := AnyElement(files.Keys);
      ghost var oldest := OldestExists(files.Keys, some);
      day :| day in files.Keys && IsOldest(files.Keys, day);
    }

    /** The first day that is not closed yet: the one after the closed ones, or the oldest that has a file. */
    method FirstOpen() returns (first: Option<int>)
      ensures if closed.Some? then first == Some(closed.value + 1)
              else if files == map[] then first == None
              else first.Some? && IsOldest(files.Keys, first.value)
    {
      if closed.Some? {
        return Some(closed.value + 1);
      }
      if files == map[] {
        return None;
      }
      var day := OldestFile();
      return Some(day);
    }

    /** One turn of the loop below: a crash or an unfinished line stops it. */
    method CloseNext(ghost before: Files, first: int, day: int, crash: Option<int>) returns (ok: bool)
      requires Valid() && !IsClosed(day) && first <= day && Rewritten(before, files, history, first, day)
      modifies this`files
      ensures Valid() && Rewritten(before, files, history, first, if ok then day + 1 else day)
      ensures ok <==> Closes(before, crash, day)
    {
      RewriteNext(before, files, history, first, day);
      if crash == Some(day) {
        return false;
      }
      ok := CloseDay(day);
    }

    /** Closes the files of a range of days, one after the other, and says at which day it stopped. */
    method CloseDays(first: int, through: int, crash: Option<int>) returns (stop: int)
      requires Valid() && first <= through && (closed.Some? ==> closed.value < first)
      modifies this`files
      ensures Valid() && KeepsClosed() && first <= stop <= through + 1
      ensures Rewritten(old(files), files, history, first, stop)
      ensures stop <= through ==> !Closes(old(files), crash, stop)
      ensures forall d | first <= d < stop :: Closes(old(files), crash, d)
    {
      hide Consistent;
      stop := first;
      var ok := true;
      while ok && stop <= through
        invariant Valid() && first <= stop <= through + 1
        invariant Rewritten(old(files), files, history, first, stop)
        invariant !ok ==> stop <= through && !Closes(old(files), crash, stop)
        invariant forall d | first <= d < stop :: Closes(old(files), crash, d)
        decreases through - stop, ok
      {
        ok := CloseNext(old(files), first, stop, crash);
        if ok {
          stop := stop + 1;
        }
      }
      RewrittenKeepsClosed(old(files), files, history, closed, first, stop);
    }

    /** Closes every day up to the given one: the files first, day by day, then the marker. A crash before any of
        these steps, and an unfinished line in any of the files, leave the marker as it was. */
    method Close(through: int, today: int, crash: Option<int>) returns (outcome: Outcome)
      requires Valid()
      modifies this`files, this`closed
      ensures Valid() && KeepsClosed()
      ensures outcome == CloseOutcome(old(files), old(closed), through, today, crash)
      ensures closed == if outcome.Closed? then Some(through) else old(closed)
      ensures outcome.Closed? ==> AllClosed(old(files), old(closed), files, history, through)
      ensures outcome.NothingToClose? || today <= through ==> files == old(files)
      ensures SomeClosed(old(files), old(closed), files, history, through)
    {
      hide Consistent, Unbroken, AllClosed;
      if today <= through {
        return Failed;
      }
      if IsClosed(through) {
        return NothingToClose;
      }
      var first := FirstOpen();
      if first.None? || through < first.value {
        return NothingToClose;
      }
      DueFromFirst(files, closed, through, first.value);
      var stop := CloseDays(first.value, through, crash);
      StoppedExactly(old(files), closed, crash, through, first.value, stop);
      RewrittenDue(old(files), files, history, closed, through, first.value, stop);
      if stop <= through || crash.Some? {
        return Failed;
      }
      MarkerMoves(old(files), files, history, closed, through);
      closed := Some(through);
      return Outcome.Closed;
    }

    /** Seals are only made of closed days. */
    method AddSeal(day: int)
      requires Valid() && day in files && IsClosed(day)
      modifies this`seals
      ensures Valid() && seals == old(seals) + {day}
    {
      seals := seals + {day};
    }
  }
}
