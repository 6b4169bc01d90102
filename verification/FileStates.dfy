/** The table of file states against the attestables it follows. */
module FileStates {
  import opened Wrappers
  import opened Sorting

  type Path = string

  datatype PathEntry = PathEntry(hash: string, classification: string, provenance: Option<string>,
                                 source: Option<string>)

  datatype Attestable = V1(paths: map<Path, string>) | V2(entries: map<Path, PathEntry>)

  /** The part of a path's entry that the table follows. */
  datatype State = State(hash: string, classification: string, provenance: Option<string>)

  /** One row of the table: the state of a path since a revision, or its absence. */
  datatype Row = Row(path: Path, since: nat, state: Option<State>)

  function Get<K, V>(m: map<K, V>, k: K): Option<V> {
    if k in m then Some(m[k]) else None
  }

  function PathHashes(a: Attestable): map<Path, string> {
    match a
    case V1(paths) => paths
    case V2(entries) => map p | p in entries :: entries[p].hash
  }

  function EntryState(e: PathEntry): State {
    State(e.hash, e.classification, e.provenance)
  }

  function StatesOf(entries: map<Path, PathEntry>): map<Path, State> {
    map p | p in entries :: EntryState(entries[p])
  }

  // ----- writing rows -----

  predicate CanWriteRows(previous: Option<Attestable>, hasParent: bool) {
    (previous.None? && !hasParent) || (previous.Some? && previous.value.V2?)
  }

  function FormerHashes(previous: Option<Attestable>): map<Path, string> {
    if previous.None? then map[] else PathHashes(previous.value)
  }

  function FormerState(previous: Option<Attestable>, path: Path): Option<State> {
    if previous.Some? && previous.value.V2? then Get(StatesOf(previous.value.entries), path) else None
  }

  /** A path changes when its state is not the one recorded before, or when it was there before and is not now. */
  predicate Changes(previous: Option<Attestable>, now: map<Path, State>, path: Path) {
    if path in now then FormerState(previous, path) != Some(now[path]) else path in FormerHashes(previous)
  }

  /** One row for each path that changes, and none for the others. */
  ghost predicate Records(rows: seq<Row>, since: nat, previous: Option<Attestable>, now: map<Path, State>) {
    && (forall row | row in rows :: row == Row(row.path, since, Get(now, row.path)) && Changes(previous, now, row.path))
    && (forall path | Changes(previous, now, path) :: Row(path, since, Get(now, path)) in rows)
    && (forall i, j | 0 <= i < j < |rows| :: rows[i].path != rows[j].path)
  }

  function CurrentStates(hashes: map<Path, string>, classifications: map<Path, string>,
                         provenance: map<Path, string>): map<Path, State>
    requires hashes.Keys <= classifications.Keys
  {
    map p | p in hashes :: State(hashes[p], classifications[p], Get(provenance, p))
  }

  /** The rows for the paths that are there, in the order in which they are listed. */
  method RowsForPresent(since: nat, now: map<Path, State>, previous: Option<Attestable>, paths: seq<Path>)
    returns (rows: seq<Row>)
    requires Enumerates(paths, now.Keys)
    ensures forall row ::
      row in rows <==>
        row.path in now && Changes(previous, now, row.path) && row == Row(row.path, since, Some(now[row.path]))
    ensures forall i, j | 0 <= i < j < |rows| :: rows[i].path != rows[j].path
  {
    var formerHashes := FormerHashes(previous);
    var formerClassifications: map<Path, string> := map[];
    var formerProvenance: map<Path, Option<string>> := map[];
    if previous.Some? && previous.value.V2? {
      var entries := previous.value.entries;
      formerClassifications := map p | p in entries :: entries[p].classification;
      formerProvenance := map p | p in entries :: entries[p].provenance;
    }
    rows := [];
    for i := 0 to |paths|
      invariant forall row :: row in rows <==>
          row.path in paths[..i] && row.path in now && Changes(previous, now, row.path)
            && row == Row(row.path, since, Some(now[row.path]))
      invariant forall k, l | 0 <= k < l < |rows| :: rows[k].path != rows[l].path
    {
      var path := paths[i];
      assert path in now.Keys;
      var state := now[path];
      var same :=
        && Get(formerHashes, path) == Some(state.hash)
        && Get(formerClassifications, path) == Some(state.classification)
        && Get(formerProvenance, path).GetOr(None) == state.provenance;
      assert same <==> !Changes(previous, now, path);
      if !same {
        rows := rows + [Row(path, since, Some(state))];
      }
    }
    assert paths[..|paths|] == paths;
  }

  /** The rows for the paths that were there before and are gone. */
  method RowsForGone(since: nat, hashes: map<Path, string>, formerHashes: map<Path, string>, formerPaths: seq<Path>)
    returns (rows: seq<Row>)
    requires Enumerates(formerPaths, formerHashes.Keys)
    ensures forall row ::
      row in rows <==> row.path in formerHashes && row.path !in hashes && row == Row(row.path, since, None)
    ensures forall i, j | 0 <= i < j < |rows| :: rows[i].path != rows[j].path
  {
    rows := [];
    for i := 0 to |formerPaths|
      invariant forall row ::
        row in rows <==> row.path in formerPaths[..i] && row.path !in hashes && row == Row(row.path, since, None)
      invariant forall k, l | 0 <= k < l < |rows| :: rows[k].path != rows[l].path
    {
      if formerPaths[i] !in hashes {
        rows := rows + [Row(formerPaths[i], since, None)];
      }
    }
    assert formerPaths[..|formerPaths|] == formerPaths;
  }

  /** Compares the revision's paths with those recorded before. */
  method ComputeFileStateRows(since: nat, hashes: map<Path, string>, classifications: map<Path, string>,
                              provenance: map<Path, string>, previous: Option<Attestable>,
                              paths: seq<Path>, formerPaths: seq<Path>)
    returns (rows: seq<Row>)
    requires hashes.Keys <= classifications.Keys
    requires Enumerates(paths, hashes.Keys) && Enumerates(formerPaths, FormerHashes(previous).Keys)
    ensures Records(rows, since, previous, CurrentStates(hashes, classifications, provenance))
  {
    var present := RowsForPresent(since, CurrentStates(hashes, classifications, provenance), previous, paths);
    var gone := RowsForGone(since, hashes, FormerHashes(previous), formerPaths);
    rows := present + gone;
  }

  lemma NoChangesNoRows(rows: seq<Row>, since: nat, previous: Option<Attestable>, now: map<Path, State>)
    requires Records(rows, since, previous, now) && forall path :: !Changes(previous, now, path)
    ensures rows == []
  {
    FirstRowChanges(rows, since, previous, now);
  }

  lemma FirstRowChanges(rows: seq<Row>, since: nat, previous: Option<Attestable>, now: map<Path, State>)
    requires Records(rows, since, previous, now)
    ensures rows == [] || exists path :: Changes(previous, now, path)
  {
    if rows != [] {
      assert rows[0] in rows;
    }
  }

  // ----- values carried over from the revision before -----

  function Carried<T>(given: map<Path, T>, hashes: map<Path, string>, previous: Option<Attestable>,
                      recorded: PathEntry -> Option<T>, path: Path): Option<T>
  {
    if path !in hashes then None
    else if path in given then Some(given[path])
    else if previous.None? || previous.value.V1? || path !in previous.value.entries
            || previous.value.entries[path].hash != hashes[path]
      then None
    else recorded(previous.value.entries[path])
  }

  method EffectivePathValues<T>(given: map<Path, T>, hashes: map<Path, string>, previous: Option<Attestable>,
                                recorded: PathEntry -> Option<T>)
    returns (values: map<Path, T>)
    ensures forall path :: Get(values, path) == Carried(given, hashes, previous, recorded, path)
  {
    values := map[];
    var todo := hashes.Keys;
    while todo != {}
      invariant todo <= hashes.Keys
      invariant forall path ::
        Get(values, path) == if path in todo then None else Carried(given, hashes, previous, recorded, path)
    {
      var path :| path in todo;
      todo := todo - {path};
      if path in given {
        values := values[path := given[path]];
      } else if previous.Some? && previous.value.V2? && path in previous.value.entries {
        var entry := previous.value.entries[path];
        if entry.hash == hashes[path] && recorded(entry).Some? {
          values := values[path := recorded(entry).value];
        }
      }
    }
  }

  /** What was recorded before is carried over for the same content at the same path only, and gives way to a value that
      is given; a path that is gone has none. */
  lemma CarriedExactly<T>(given: map<Path, T>, hashes: map<Path, string>, previous: Option<Attestable>,
                          recorded: PathEntry -> Option<T>, path: Path, value: T)
    ensures Carried(given, hashes, previous, recorded, path) == Some(value) <==>
            && path in hashes
            && if path in given then given[path] == value
               else previous.Some? && previous.value.V2? && path in previous.value.entries
                    && previous.value.entries[path].hash == hashes[path]
                    && recorded(previous.value.entries[path]) == Some(value)
  {
  }

  function ProvenanceOf(): PathEntry -> Option<string> {
    (e: PathEntry) => e.provenance
  }

  /** Committing the files of the revision before once more, with nothing new said about them, writes no rows. */
  lemma UnchangedWritesNothing(entries: map<Path, PathEntry>, provenance: map<Path, string>, now: map<Path, State>,
                               rows: seq<Row>, since: nat)
    requires forall path ::
      Get(provenance, path) == Carried(map[], PathHashes(V2(entries)), Some(V2(entries)), ProvenanceOf(), path)
    requires now
      == CurrentStates(PathHashes(V2(entries)), map p | p in entries :: entries[p].classification, provenance)
    requires Records(rows, since, Some(V2(entries)), now)
    ensures now == StatesOf(entries) && rows == []
  {
    forall path
      ensures Get(now, path) == Get(StatesOf(entries), path)
    {
      assert Get(provenance, path) == if path in entries then entries[path].provenance else None;
    }
    assert now.Keys == StatesOf(entries).Keys;
    assert now == StatesOf(entries);
    NoChangesNoRows(rows, since, Some(V2(entries)), now);
  }

  // ----- reading the table -----

  /** The latest row for a path among those since a revision or earlier. */
  function Latest(table: seq<Row>, at: nat, path: Path): Option<Row> {
    if table == [] then None
    else
      var before, row := Latest(table[..|table| - 1], at, path), table[|table| - 1];
      if row.path == path && row.since <= at && (before.Some? ==> before.value.since <= row.since)
        then Some(row)
      else before
  }

  function StateAt(table: seq<Row>, at: nat, path: Path): Option<State> {
    var row := Latest(table, at, path);
    if row.None? then None else row.value.state
  }

  function HashAt(table: seq<Row>, at: nat, path: Path): Option<string> {
    var state := StateAt(table, at, path);
    if state.None? then None else Some(state.value.hash)
  }

  predicate Eligible(row: Row, at: nat, path: Path) {
    row.path == path && row.since <= at
  }

  lemma {:induction false} LatestIsLatest(table: seq<Row>, at: nat, path: Path)
    ensures Latest(table, at, path).None? ==> forall row | row in table :: !Eligible(row, at, path)
    ensures Latest(table, at, path).Some? ==>
      && Latest(table, at, path).value in table && Eligible(Latest(table, at, path).value, at, path)
      && forall row | row in table && Eligible(row, at, path) :: row.since <= Latest(table, at, path).value.since
  {
    if table != [] {
      LatestIsLatest(table[..|table| - 1], at, path);
      assert table == table[..|table| - 1] + [table[|table| - 1]];
    }
  }

  /** The answer to the query that reads the table: the rows up to a revision, a path's latest first. */
  ghost predicate Answers(result: seq<Row>, table: seq<Row>, at: nat) {
    && (forall row :: row in result <==> row in table && row.since <= at)
    && (forall i, j | 0 <= i < j < |result| && result[i].path == result[j].path :: result[j].since <= result[i].since)
  }

  ghost predicate OneRowPerRevision(table: seq<Row>) {
    forall r, s | r in table && s in table && r.path == s.path && r.since == s.since :: r == s
  }

  method ReleaseFileHashesAt(answer: seq<Row>, ghost table: seq<Row>, ghost at: nat) returns (hashes: map<Path, string>)
    requires Answers(answer, table, at) && OneRowPerRevision(table)
    ensures forall path :: Get(hashes, path) == HashAt(table, at, path)
  {
    hashes := map[];
    var seen: set<Path> := {};
    for i := 0 to |answer|
      invariant seen == set k | 0 <= k < i :: answer[k].path
      invariant forall path :: Get(hashes, path) == if path in seen then HashAt(table, at, path) else None
    {
      var row := answer[i];
      if row.path !in seen {
        FirstIsLatest(answer, table, at, i);
        seen := seen + {row.path};
        if row.state.Some? {
          hashes := hashes[row.path := row.state.value.hash];
        }
      }
    }
    forall path | path !in seen
      ensures StateAt(table, at, path).None?
    {
      LatestIsLatest(table, at, path);
    }
  }

  lemma FirstIsLatest(result: seq<Row>, table: seq<Row>, at: nat, i: nat)
    requires Answers(result, table, at) && OneRowPerRevision(table)
    requires i < |result| && forall k | 0 <= k < i :: result[k].path != result[i].path
    ensures StateAt(table, at, result[i].path) == result[i].state
  {
    LatestIsLatest(table, at, result[i].path);
    assert result[i] in table && Eligible(result[i], at, result[i].path);
    var latest := Latest(table, at, result[i].path).value;
    assert latest in result;
    var j :| 0 <= j < |result| && result[j] == latest;
    assert i <= j;
  }

  // ----- runs of revisions -----

  /** A revision as it is committed: the attestable it is compared with, its state, and the rows it writes. */
  datatype Commit = Commit(number: nat, previous: Option<Attestable>, states: map<Path, State>, rows: seq<Row>)

  predicate Writes(cs: seq<Commit>, i: nat)
    requires i < |cs|
  {
    CanWriteRows(cs[i].previous, i > 0)
  }

  /** Revisions are numbered in order, and all but the first have a parent. What each is compared with is open. */
  ghost predicate Run(cs: seq<Commit>) {
    && (forall i, j | 0 <= i < j < |cs| :: cs[i].number < cs[j].number)
    && (forall i | 0 <= i < |cs| ::
          if Writes(cs, i) then Records(cs[i].rows, cs[i].number, cs[i].previous, cs[i].states) else cs[i].rows == [])
  }

  /** Each revision is compared with the one right before it. */
  ghost predicate Chained(cs: seq<Commit>) {
    && (cs != [] ==> cs[0].previous.None?)
    && (forall i | 0 < i < |cs| ::
          cs[i].previous.Some? && cs[i].previous.value.V2?
            && StatesOf(cs[i].previous.value.entries) == cs[i - 1].states)
  }

  function Table(cs: seq<Commit>): seq<Row> {
    if cs == [] then [] else Table(cs[..|cs| - 1]) + cs[|cs| - 1].rows
  }

  /** Replaying the table up to a revision gives that revision's state. */
  ghost predicate Agrees(cs: seq<Commit>, i: nat)
    requires i < |cs|
  {
    forall path :: StateAt(Table(cs), cs[i].number, path) == Get(cs[i].states, path)
  }

  lemma {:induction false} LatestAppend(table: seq<Row>, rows: seq<Row>, at: nat, number: nat, path: Path)
    requires forall row | row in table :: row.since < number
    requires forall row | row in rows :: row.since == number
    requires forall i, j | 0 <= i < j < |rows| :: rows[i].path != rows[j].path
    ensures at < number || (forall row | row in rows :: row.path != path)
      ==> Latest(table + rows, at, path) == Latest(table, at, path)
    ensures number <= at ==> forall row | row in rows && row.path == path :: Latest(table + rows, at, path) == Some(row)
  {
    if rows == [] {
      assert table + rows == table;
    } else {
      var init, last := rows[..|rows| - 1], rows[|rows| - 1];
      assert (table + rows)[..|table + rows| - 1] == table + init;
      assert rows == init + [last];
      LatestAppend(table, init, at, number, path);
      LatestIsLatest(table + init, at, path);
    }
  }

  lemma {:induction false} TableBelow(cs: seq<Commit>, number: nat)
    requires Run(cs) && forall i | 0 <= i < |cs| :: cs[i].number < number
    ensures forall row | row in Table(cs) :: row.since < number
  {
    if cs != [] {
      var init, last := cs[..|cs| - 1], cs[|cs| - 1];
      RunPrefix(cs, |cs| - 1);
      TableBelow(init, number);
      assert Writes(cs, |cs| - 1) || last.rows == [];
    }
  }

  lemma RunPrefix(cs: seq<Commit>, n: nat)
    requires Run(cs) && n <= |cs|
    ensures Run(cs[..n])
  {
    forall i | 0 <= i < n
      ensures if Writes(cs[..n], i) then Records(cs[i].rows, cs[i].number, cs[i].previous, cs[i].states)
        else cs[i].rows == []
    {
      assert Writes(cs[..n], i) == Writes(cs, i);
    }
  }

  /** What a revision adds to the replay at its own number and at those before. */
  lemma TableStep(cs: seq<Commit>, at: nat, path: Path)
    requires Run(cs) && cs != []
    ensures var last, init := cs[|cs| - 1], cs[..|cs| - 1];
      StateAt(Table(cs), at, path) ==
        if last.number <= at && Writes(cs, |cs| - 1) && Changes(last.previous, last.states, path)
          then Get(last.states, path)
        else StateAt(Table(init), at, path)
  {
    var last, init := cs[|cs| - 1], cs[..|cs| - 1];
    RunPrefix(cs, |cs| - 1);
    TableBelow(init, last.number);
    assert Writes(cs, |cs| - 1) || last.rows == [];
    LatestAppend(Table(init), last.rows, at, last.number, path);
    if Writes(cs, |cs| - 1) && Changes(last.previous, last.states, path) {
      assert Row(path, last.number, Get(last.states, path)) in last.rows;
    }
  }

  /** Later revisions do not change what a replay up to an earlier one gives. */
  lemma {:induction false} LaterRowsIgnored(cs: seq<Commit>, n: nat, at: nat, path: Path)
    requires Run(cs) && n <= |cs|
    requires forall i | n <= i < |cs| :: at < cs[i].number
    ensures StateAt(Table(cs), at, path) == StateAt(Table(cs[..n]), at, path)
    decreases |cs|
  {
    hide StateAt, Table;
    if n == |cs| {
      assert cs[..n] == cs;
    } else {
      TableStep(cs, at, path);
      RunPrefix(cs, |cs| - 1);
      LaterRowsIgnored(cs[..|cs| - 1], n, at, path);
      assert cs[..|cs| - 1][..n] == cs[..n];
    }
  }

  /** Numbers between two revisions read as the earlier one. */
  lemma {:induction false} GapReadsBack(cs: seq<Commit>, at: nat, path: Path)
    requires Run(cs) && cs != [] && cs[|cs| - 1].number <= at
    ensures StateAt(Table(cs), at, path) == StateAt(Table(cs), cs[|cs| - 1].number, path)
    decreases |cs|
  {
    TableStep(cs, at, path);
    TableStep(cs, cs[|cs| - 1].number, path);
    if |cs| > 1 {
      var init := cs[..|cs| - 1];
      RunPrefix(cs, |cs| - 1);
      GapReadsBack(init, at, path);
      GapReadsBack(init, cs[|cs| - 1].number, path);
    }
  }

  lemma StepOfPrefix(cs: seq<Commit>, i: nat, path: Path)
    requires Run(cs) && i < |cs|
    ensures StateAt(Table(cs[..i + 1]), cs[i].number, path) ==
      if Writes(cs, i) && Changes(cs[i].previous, cs[i].states, path) then Get(cs[i].states, path)
      else StateAt(Table(cs[..i]), cs[i].number, path)
  {
    var upTo := cs[..i + 1];
    RunPrefix(cs, i + 1);
    TableStep(upTo, cs[i].number, path);
    assert Writes(upTo, i) == Writes(cs, i);
    assert upTo[..i] == cs[..i];
  }

  /** Just before a revision the table reads as it did at the revision before. */
  lemma BeforeRevision(cs: seq<Commit>, i: nat, path: Path)
    requires Run(cs) && 0 < i < |cs|
    ensures StateAt(Table(cs[..i]), cs[i].number, path) == StateAt(Table(cs), cs[i - 1].number, path)
  {
    RunPrefix(cs, i);
    GapReadsBack(cs[..i], cs[i].number, path);
    LaterRowsIgnored(cs, i, cs[i - 1].number, path);
  }

  /** The replay at a revision: the state of the paths whose rows it wrote, and the earlier replay for the rest. */
  lemma ReplayStep(cs: seq<Commit>, i: nat, path: Path)
    requires Run(cs) && i < |cs|
    ensures StateAt(Table(cs), cs[i].number, path) ==
      if Writes(cs, i) && Changes(cs[i].previous, cs[i].states, path) then Get(cs[i].states, path)
      else if i == 0 then None
      else StateAt(Table(cs), cs[i - 1].number, path)
  {
    LaterRowsIgnored(cs, i + 1, cs[i].number, path);
    StepOfPrefix(cs, i, path);
    if i > 0 {
      BeforeRevision(cs, i, path);
    }
  }

  /** The table agrees with a revision exactly when every path that the revision wrote no row for is as the
      latest revision had it, if the table agreed with that one. */
  lemma AgreementStep(cs: seq<Commit>, i: nat)
    requires Run(cs) && 0 < i < |cs| && Agrees(cs, i - 1)
    ensures Agrees(cs, i) <==>
      forall path | !(Writes(cs, i) && Changes(cs[i].previous, cs[i].states, path)) ::
        Get(cs[i].states, path) == Get(cs[i - 1].states, path)
  {
    forall path
      ensures StateAt(Table(cs), cs[i].number, path) == Get(cs[i].states, path) <==>
        (Writes(cs, i) && Changes(cs[i].previous, cs[i].states, path))
          || Get(cs[i].states, path) == Get(cs[i - 1].states, path)
    {
      ReplayStep(cs, i, path);
      assert StateAt(Table(cs), cs[i - 1].number, path) == Get(cs[i - 1].states, path);
    }
  }

  /** A revision says about a path what replaying needs: it writes a row, or leaves the path as it was before. */
  predicate StepHolds(cs: seq<Commit>, i: nat, path: Path)
    requires i < |cs|
  {
    || (Writes(cs, i) && Changes(cs[i].previous, cs[i].states, path))
    || Get(cs[i].states, path) == if i == 0 then None else Get(cs[i - 1].states, path)
  }

  /** The table agrees with every revision of a run exactly when, in every revision, every path without a row is as
      the revision before had it, or missing in the first one. */
  lemma {:induction false} AgreementThroughout(cs: seq<Commit>, n: nat)
    requires Run(cs) && n <= |cs|
    ensures (forall i | 0 <= i < n :: Agrees(cs, i)) <==> (forall i, path | 0 <= i < n :: StepHolds(cs, i, path))
  {
    if n > 0 {
      AgreementThroughout(cs, n - 1);
      if forall i | 0 <= i < n - 1 :: Agrees(cs, i) {
        LastStepHolds(cs, n - 1);
      }
    }
  }

  lemma LastStepHolds(cs: seq<Commit>, i: nat)
    requires Run(cs) && i < |cs| && (i > 0 ==> Agrees(cs, i - 1))
    ensures Agrees(cs, i) <==> forall path :: StepHolds(cs, i, path)
  {
    forall path
      ensures StateAt(Table(cs), cs[i].number, path) == Get(cs[i].states, path) <==> StepHolds(cs, i, path)
    {
      ReplayStep(cs, i, path);
      assert i > 0 ==> StateAt(Table(cs), cs[i - 1].number, path) == Get(cs[i - 1].states, path);
    }
  }

  /** The state that the last row for a path up to a revision gives it. */
  function LastWritten(cs: seq<Commit>, i: nat, path: Path): Option<State>
    requires i < |cs|
  {
    if Writes(cs, i) && Changes(cs[i].previous, cs[i].states, path) then Get(cs[i].states, path)
    else if i == 0 then None
    else LastWritten(cs, i - 1, path)
  }

  /** In every run, whatever its revisions are compared with, the replay gives a path what the last revision that
      wrote a row for it said. */
  lemma {:induction false} ReplayIsLastWritten(cs: seq<Commit>, i: nat, path: Path)
    requires Run(cs) && i < |cs|
    ensures StateAt(Table(cs), cs[i].number, path) == LastWritten(cs, i, path)
  {
    ReplayStep(cs, i, path);
    if i > 0 {
      ReplayIsLastWritten(cs, i - 1, path);
    }
  }

  /** A run writes no two rows for one path in one revision, so its table can be read. */
  lemma {:induction false} RunIsKeyed(cs: seq<Commit>)
    requires Run(cs)
    ensures OneRowPerRevision(Table(cs))
  {
    if cs != [] {
      var init, last := cs[..|cs| - 1], cs[|cs| - 1];
      RunPrefix(cs, |cs| - 1);
      RunIsKeyed(init);
      TableBelow(init, last.number);
      assert Writes(cs, |cs| - 1) || last.rows == [];
      RowsAreKeyed(last.rows, last.number);
    }
  }

  lemma RowsAreKeyed(rows: seq<Row>, number: nat)
    requires forall i, j | 0 <= i < j < |rows| :: rows[i].path != rows[j].path
    ensures OneRowPerRevision(rows)
  {
  }

  /** When every revision is compared with the one right before it, replaying the table up to any revision gives
      that revision's state. */
  lemma {:induction false} ReplayIsSnapshot(cs: seq<Commit>, i: nat)
    requires Run(cs) && Chained(cs) && i < |cs|
    ensures Agrees(cs, i)
  {
    if i == 0 {
      forall path
        ensures StateAt(Table(cs), cs[0].number, path) == Get(cs[0].states, path)
      {
        ReplayStep(cs, 0, path);
        assert cs[0].previous.None? && Writes(cs, 0);
        assert FormerState(cs[0].previous, path) == None && path !in FormerHashes(cs[0].previous);
      }
    } else {
      ReplayIsSnapshot(cs, i - 1);
      AgreementStep(cs, i);
      forall path | !(Writes(cs, i) && Changes(cs[i].previous, cs[i].states, path))
        ensures Get(cs[i].states, path) == Get(cs[i - 1].states, path)
      {
        assert FormerState(cs[i].previous, path) == Get(cs[i - 1].states, path);
      }
    }
  }

  /** Restoring an earlier revision compares the new revision with the restored one, so when nothing is changed
      on the way no row is written, and the table is right only if the latest revision was the same. */
  lemma RestoreWritesNothing(cs: seq<Commit>, i: nat)
    requires Run(cs) && 0 < i < |cs| && Agrees(cs, i - 1)
    requires cs[i].previous.Some? && cs[i].previous.value.V2? && StatesOf(cs[i].previous.value.entries) == cs[i].states
    ensures cs[i].rows == []
    ensures Agrees(cs, i) <==> cs[i].states == cs[i - 1].states
  {
    assert Writes(cs, i);
    assert forall path :: !Changes(cs[i].previous, cs[i].states, path);
    NoChangesNoRows(cs[i].rows, cs[i].number, cs[i].previous, cs[i].states);
    AgreementStep(cs, i);
    SameStates(cs[i].states, cs[i - 1].states);
  }

  /** A revision whose predecessor's attestable cannot be loaded writes no row either. */
  lemma LostAttestableWritesNothing(cs: seq<Commit>, i: nat)
    requires Run(cs) && 0 < i < |cs| && Agrees(cs, i - 1)
    requires cs[i].previous.None?
    ensures cs[i].rows == []
    ensures Agrees(cs, i) <==> cs[i].states == cs[i - 1].states
  {
    assert !Writes(cs, i);
    AgreementStep(cs, i);
    SameStates(cs[i].states, cs[i - 1].states);
  }

  lemma SameStates(a: map<Path, State>, b: map<Path, State>)
    ensures a == b <==> forall path :: Get(a, path) == Get(b, path)
  {
    if forall path :: Get(a, path) == Get(b, path) {
      forall path
        ensures path in a <==> path in b
        ensures path in a && path in b ==> a[path] == b[path]
      {
        assert Get(a, path) == Get(b, path);
      }
      assert a.Keys == b.Keys;
    }
  }

  /** A revision is an earlier one restored: it is compared with that one, and is the same. */
  ghost predicate Restores(cs: seq<Commit>, i: nat, j: nat)
    requires j < i < |cs|
  {
    && cs[i].previous.Some? && cs[i].previous.value.V2?
    && StatesOf(cs[i].previous.value.entries) == cs[j].states == cs[i].states
  }

  /** A run in which a file is changed in the second revision and the first one is restored in the third. */
  lemma RestoredRun() returns (cs: seq<Commit>, first: map<Path, PathEntry>)
    ensures Run(cs) && |cs| == 3 && Chained(cs[..2])
    ensures first == map["a" := PathEntry("h1", "source", None, None)] && cs[2].previous == Some(V2(first))
      && cs[2].states == StatesOf(first)
    ensures cs[1].states == map["a" := State("h2", "source", None)] && cs[0].states == cs[2].states
  {
    var e1, e2 := PathEntry("h1", "source", None, None), PathEntry("h2", "source", None, None);
    first := map["a" := e1];
    var second: map<Path, PathEntry> := map["a" := e2];
    var s1, s2 := EntryState(e1), EntryState(e2);
    cs := [
      Commit(1, None, StatesOf(first), [Row("a", 1, Some(s1))]),
      Commit(2, Some(V2(first)), StatesOf(second), [Row("a", 2, Some(s2))]),
      Commit(3, Some(V2(first)), StatesOf(first), [])
    ];
    hide Records;
    OneRow("a", 1, None, StatesOf(first));
    OneRow("a", 2, Some(V2(first)), StatesOf(second));
    NoRow(3, Some(V2(first)), StatesOf(first));
  }

  lemma OneRow(path: Path, since: nat, previous: Option<Attestable>, now: map<Path, State>)
    requires forall p :: Changes(previous, now, p) <==> p == path
    ensures Records([Row(path, since, Get(now, path))], since, previous, now)
  {
  }

  lemma NoRow(since: nat, previous: Option<Attestable>, now: map<Path, State>)
    requires forall p :: !Changes(previous, now, p)
    ensures Records([], since, previous, now)
  {
  }

  /** After such a run the table disagrees with the restored revision: it still gives the hash of the second one. */
  lemma RestoreDiverges() returns (cs: seq<Commit>)
    ensures Run(cs) && |cs| == 3 && Agrees(cs, 0) && Agrees(cs, 1) && !Agrees(cs, 2)
    ensures "a" in cs[2].states && cs[2].states["a"].hash == "h1" && HashAt(Table(cs), cs[2].number, "a") == Some("h2")
    ensures "a" in cs[1].states && cs[1].states["a"].hash == "h2" && Restores(cs, 2, 0)
  {
    var first;
    cs, first := RestoredRun();
    RunPrefix(cs, 2);
    forall i | 0 <= i < 2
      ensures Agrees(cs, i)
    {
      ReplayIsSnapshot(cs[..2], i);
      forall path
        ensures StateAt(Table(cs), cs[i].number, path) == Get(cs[i].states, path)
      {
        LaterRowsIgnored(cs, 2, cs[i].number, path);
      }
    }
    RestoreWritesNothing(cs, 2);
    assert cs[1].states["a"] != cs[2].states["a"];
    ReplayStep(cs, 2, "a");
    assert StateAt(Table(cs), cs[1].number, "a") == Get(cs[1].states, "a");
  }
}
