/** Who uploaded which content under which names, and when the record of it grows. */
module Attribution {
  import opened Wrappers
  import opened Sorting
  import opened Text

  /** An uploader, and the revision with which they uploaded. */
  datatype Upload = Upload(uid: string, revision: string)

  datatype HashEntry = HashEntry(size: nat, uploaders: seq<Upload>, basenames: seq<string>)

  type Record = map<string, HashEntry>

  /** The part of a path after its last slash. */
  function Basename(path: string): string {
    var parts := Split(path, '/');
    parts[|parts| - 1]
  }

  /** It is the end of the path, without slashes and behind a slash, unless it is all of it. */
  lemma BasenameIs(path: string) returns (k: nat)
    ensures k <= |path| && path[k..] == Basename(path) && (k == 0 || path[k - 1] == '/')
    ensures '/' !in Basename(path)
  {
    SplitParts(path, '/');
    k := LastPart(path, '/');
  }

  lemma {:induction false} LastPart(s: string, sep: char) returns (k: nat)
    ensures k <= |s| && s[k..] == Split(s, sep)[|Split(s, sep)| - 1]
    ensures if |Split(s, sep)| == 1 then k == 0 else k > 0 && s[k - 1] == sep
  {
    k := 0;
    if s != "" {
      k := LastPart(s[1..], sep);
      var all := s[0] != sep && k == 0;
      assert s[k + 1..] == s[1..][k..];
      k := if all then 0 else k + 1;
    }
  }

  function Basenames(paths: set<string>): set<string> {
    set p | p in paths :: Basename(p)
  }

  // ----- appending what is new -----

  function AppendNew<T(==)>(xs: seq<T>, ys: seq<T>): seq<T>
    decreases |ys|
  {
    if ys == [] then xs
    else AppendNew(if ys[0] in xs then xs else xs + [ys[0]], ys[1..])
  }

  /** What was there stays in front and in order, everything is in, and nothing is in twice that was not before. */
  lemma {:induction false} AppendNewGrows<T>(xs: seq<T>, ys: seq<T>)
    ensures xs <= AppendNew(xs, ys)
    ensures forall x :: x in AppendNew(xs, ys) <==> x in xs || x in ys
    ensures NoDuplicates(xs) ==> NoDuplicates(AppendNew(xs, ys))
    decreases |ys|
  {
    if ys != [] {
      assert ys == [ys[0]] + ys[1..];
      var longer := if ys[0] in xs then xs else xs + [ys[0]];
      AppendNewGrows(longer, ys[1..]);
      assert xs <= longer <= AppendNew(longer, ys[1..]);
    }
  }

  /** Appends the names that an entry does not have yet, one after the other. */
  method AddBasenames(entry: HashEntry, names: seq<string>) returns (r: HashEntry)
    ensures r == entry.(basenames := AppendNew(entry.basenames, names))
  {
    r := entry;
    for i := 0 to |names|
      invariant r.size == entry.size && r.uploaders == entry.uploaders
      invariant AppendNew(r.basenames, names[i..]) == AppendNew(entry.basenames, names)
    {
      assert names[i..][0] == names[i] && names[i..][1..] == names[i + 1..];
      if names[i] !in r.basenames {
        r := r.(basenames := r.basenames + [names[i]]);
      }
    }
  }

  // ----- one revision -----

  /** How a revision changes the entry of a content it holds: a new content is put down to its uploader; an old one
      gets the names it did not have, and the uploader too if it is now at more paths than before. */
  function Attributed(former: Option<HashEntry>, size: nat, names: seq<string>, grew: bool, upload: Upload): HashEntry {
    match former
    case None => HashEntry(size, [upload], names)
    case Some(e) =>
      HashEntry(e.size, if grew then AppendNew(e.uploaders, [upload]) else e.uploaders, AppendNew(e.basenames, names))
  }

  /** The change of one entry, in place. */
  method Attribute(former: Option<HashEntry>, size: nat, names: seq<string>, grew: bool, upload: Upload)
    returns (entry: HashEntry)
    ensures entry == Attributed(former, size, names, grew, upload)
  {
    if former.None? {
      return HashEntry(size, [upload], names);
    }
    entry := AddBasenames(former.value, names);
    if grew && upload !in entry.uploaders {
      entry := entry.(uploaders := entry.uploaders + [upload]);
    }
    assert AppendNew(former.value.uploaders, [upload]) ==
      if upload in former.value.uploaders then former.value.uploaders else former.value.uploaders + [upload];
  }

  /** No entry is lost, none loses an uploader or a name, and none changes its size. */
  ghost predicate Extends(after: Record, before: Record) {
    forall h | h in before ::
      && h in after && after[h].size == before[h].size
      && before[h].uploaders <= after[h].uploaders && before[h].basenames <= after[h].basenames
  }

  ghost predicate Distinct(record: Record) {
    forall h | h in record :: NoDuplicates(record[h].uploaders) && NoDuplicates(record[h].basenames)
  }

  function Former(record: Record, h: string): Option<HashEntry> {
    if h in record then Some(record[h]) else None
  }

  /** A revision: its contents with their paths, sizes and listed names, the paths of each content before it, and who
      uploads it. */
  datatype Revision = Revision(current: map<string, set<string>>, sizes: map<string, nat>,
                               names: map<string, seq<string>>,
                               formerPaths: map<string, set<string>>, upload: Upload)
  {
    ghost predicate Valid() {
      && current.Keys <= sizes.Keys && current.Keys <= names.Keys
      && forall h | h in current :: Enumerates(names[h], Basenames(current[h]))
    }

    /** More paths hold the content than did before. */
    predicate Grew(h: string)
      requires h in current
    {
      |current[h]| > |if h in formerPaths then formerPaths[h] else {}|
    }

    function EntryAfter(former: Record, h: string): HashEntry
      requires h in former || h in current
      requires current.Keys <= sizes.Keys && current.Keys <= names.Keys
    {
      if h in current then Attributed(Former(former, h), sizes[h], names[h], Grew(h), upload) else former[h]
    }
  }

  function RecordAfter(r: Revision, former: Record): Record
    requires r.current.Keys <= r.sizes.Keys && r.current.Keys <= r.names.Keys
  {
    map h | h in former.Keys + r.current.Keys :: r.EntryAfter(former, h)
  }

  /** Walks through the contents of a revision in any order. */
  method ComputeAttribution(r: Revision, former: Record) returns (record: Record)
    requires r.Valid()
    ensures record == RecordAfter(r, former)
  {
    hide Attributed, SoFar;
    record := former;
    var todo := r.current.Keys;
    AllToDo(r, former);
    while todo != {}
      invariant todo <= r.current.Keys && SoFar(r, former, record, todo)
    {
      var h :| h in todo;
      OneDone(r, former, record, todo, h);
      var entry := Attribute(Former(record, h), r.sizes[h], r.names[h], r.Grew(h), r.upload);
      record := record[h := entry];
      todo := todo - {h};
    }
    AllDone(r, former, record);
  }

  /** The entries of all contents but those still to do are as they are to be; the others are as they were. */
  ghost predicate SoFar(r: Revision, former: Record, record: Record, todo: set<string>)
    requires r.Valid()
  {
    && record.Keys == former.Keys + (r.current.Keys - todo)
    && forall h | h in record :: record[h] == if h in todo then former[h] else r.EntryAfter(former, h)
  }

  lemma AllToDo(r: Revision, former: Record)
    requires r.Valid()
    ensures SoFar(r, former, former, r.current.Keys)
  {
  }

  lemma OneDone(r: Revision, former: Record, record: Record, todo: set<string>, h: string)
    requires r.Valid() && SoFar(r, former, record, todo) && h in todo && h in r.current
    ensures Former(record, h) == Former(former, h)
    ensures SoFar(r, former, record[h := r.EntryAfter(former, h)], todo - {h})
  {
  }

  lemma AllDone(r: Revision, former: Record, record: Record)
    requires r.Valid() && SoFar(r, former, record, {})
    ensures record == RecordAfter(r, former)
  {
  }

  /** A revision loses nothing: entries, uploaders and names only grow, none is entered twice, every path's name is
      in, and the uploader is noted for a content that is new or at more paths. */
  lemma RevisionExtends(r: Revision, former: Record)
    requires r.Valid()
    ensures Extends(RecordAfter(r, former), former)
    ensures Distinct(former) ==> Distinct(RecordAfter(r, former))
    ensures forall h, p | h in r.current && p in r.current[h] :: Basename(p) in RecordAfter(r, former)[h].basenames
    ensures forall h | h in r.current && (h !in former || r.Grew(h)) :: r.upload in RecordAfter(r, former)[h].uploaders
    ensures forall h | h in former && !(h in r.current && r.Grew(h)) ::
      RecordAfter(r, former)[h].uploaders == former[h].uploaders
  {
    var after := RecordAfter(r, former);
    forall h | h in r.current
      ensures AttributedWell(Former(former, h), after[h], r.names[h], r.Grew(h), r.upload)
    {
      AttributionGrows(Former(former, h), r.sizes[h], r.names[h], r.Grew(h), r.upload);
    }
    forall h, p | h in r.current && p in r.current[h]
      ensures Basename(p) in after[h].basenames
    {
      assert Basename(p) in Elements(r.names[h]);
      assert AttributedWell(Former(former, h), after[h], r.names[h], r.Grew(h), r.upload);
    }
  }

  ghost predicate AttributedWell(former: Option<HashEntry>, after: HashEntry, names: seq<string>, grew: bool,
                                 upload: Upload)
  {
    && (forall n | n in names :: n in after.basenames)
    && (former.None? || grew ==> upload in after.uploaders)
    && match former
       case None => NoDuplicates(names) ==> NoDuplicates(after.basenames) && NoDuplicates(after.uploaders)
       case Some(e) =>
         && after.size == e.size && e.uploaders <= after.uploaders && e.basenames <= after.basenames
         && (NoDuplicates(e.uploaders) && NoDuplicates(e.basenames)
           ==> NoDuplicates(after.uploaders) && NoDuplicates(after.basenames))
         && (!grew ==> after.uploaders == e.uploaders)
  }

  lemma AttributionGrows(former: Option<HashEntry>, size: nat, names: seq<string>, grew: bool, upload: Upload)
    ensures AttributedWell(former, Attributed(former, size, names, grew, upload), names, grew, upload)
  {
    if former.Some? {
      AppendNewGrows(former.value.basenames, names);
      AppendNewGrows(former.value.uploaders, [upload]);
    }
  }

  // ----- runs of revisions -----

  /** What the attestable of a revision says of its contents: their paths, and the record so far. */
  datatype Attested = Attested(paths: map<string, set<string>>, record: Record)

  /** A revision with the attestable that it starts from: the one right before it, a restored one, or none. */
  datatype Commit = Commit(previous: Option<Attested>, revision: Revision)
  {
    function FormerRecord(): Record {
      if previous.None? then map[] else previous.value.record
    }

    ghost predicate Valid() {
      && revision.Valid()
      && revision.formerPaths == if previous.None? then map[] else previous.value.paths
    }

    function Result(): Attested
      requires revision.current.Keys <= revision.sizes.Keys && revision.current.Keys <= revision.names.Keys
    {
      Attested(revision.current, RecordAfter(revision, FormerRecord()))
    }
  }

  /** What each revision starts from is open. */
  ghost predicate Run(cs: seq<Commit>) {
    forall i | 0 <= i < |cs| :: cs[i].Valid()
  }

  ghost predicate StartsFromTheOneBefore(cs: seq<Commit>, i: nat)
    requires Run(cs) && 0 < i < |cs|
  {
    cs[i].previous == Some(cs[i - 1].Result())
  }

  lemma ExtendsTransitive(a: Record, b: Record, c: Record)
    requires Extends(b, a) && Extends(c, b)
    ensures Extends(c, a)
  {
  }

  lemma CommitExtends(before: Commit, c: Commit)
    requires before.Valid() && c.Valid() && c.previous == Some(before.Result())
    ensures Extends(c.Result().record, before.Result().record)
  {
    RevisionExtends(c.revision, c.FormerRecord());
  }

  lemma {:induction false} ExtendsAlong(records: seq<Record>, i: nat, j: nat)
    requires i <= j < |records|
    requires forall k | i < k <= j :: Extends(records[k], records[k - 1])
    ensures Extends(records[j], records[i])
  {
    if i < j {
      ExtendsAlong(records, i, j - 1);
      ExtendsTransitive(records[i], records[j - 1], records[j]);
    }
  }

  /** As long as every revision starts from the one right before it, the record extends every earlier one. */
  lemma HistoryExtends(cs: seq<Commit>, i: nat, j: nat)
    requires Run(cs) && i <= j < |cs|
    requires forall k | i < k <= j :: StartsFromTheOneBefore(cs, k)
    ensures Extends(cs[j].Result().record, cs[i].Result().record)
  {
    var records := seq(|cs|, k requires 0 <= k < |cs| && cs[k].Valid() => cs[k].Result().record);
    forall k | i < k <= j
      ensures Extends(records[k], records[k - 1])
    {
      assert StartsFromTheOneBefore(cs, k);
      CommitExtends(cs[k - 1], cs[k]);
    }
    ExtendsAlong(records, i, j);
  }

  /** Nothing is appended when all of it is there. */
  lemma {:induction false} AppendNothingNew<T>(xs: seq<T>, ys: seq<T>)
    requires forall y | y in ys :: y in xs
    ensures AppendNew(xs, ys) == xs
    decreases |ys|
  {
    if ys != [] {
      AppendNothingNew(xs, ys[1..]);
    }
  }

  /** Restoring a revision, with nothing changed on the way, leaves the record of the restored revision, whatever
      came in between: it extends the record right before it exactly when the restored record does. */
  lemma RestoredRecord(cs: seq<Commit>, j: nat, i: nat)
    requires Run(cs) && j < i < |cs|
    requires cs[i].previous == Some(cs[j].Result()) && cs[i].revision.current == cs[j].revision.current
    ensures cs[i].Result() == cs[j].Result()
    ensures Extends(cs[i].Result().record, cs[i - 1].Result().record) <==>
            Extends(cs[j].Result().record, cs[i - 1].Result().record)
  {
    UnchangedRecord(cs[j], cs[i]);
  }

  lemma UnchangedRecord(c: Commit, again: Commit)
    requires c.Valid() && again.Valid()
    requires again.previous == Some(c.Result()) && again.revision.current == c.revision.current
    ensures again.Result() == c.Result()
  {
    var r, former := again.revision, c.Result().record;
    forall h | h in r.current
      ensures r.EntryAfter(former, h) == former[h]
    {
      NamesAreThere(c, r, h);
      AppendNothingNew(former[h].basenames, r.names[h]);
    }
    assert RecordAfter(r, former) == former;
  }

  lemma NamesAreThere(c: Commit, r: Revision, h: string)
    requires c.Valid() && r.Valid() && r.current == c.revision.current && h in r.current
    ensures forall n | n in r.names[h] :: n in c.Result().record[h].basenames
  {
    RevisionExtends(c.revision, c.FormerRecord());
    forall n | n in r.names[h]
      ensures n in c.Result().record[h].basenames
    {
      assert n in Elements(r.names[h]);
      var p :| p in r.current[h] && n == Basename(p);
    }
  }

  /** A revision whose predecessor's attestable cannot be loaded starts the record anew: it extends the record right
      before it exactly when that one speaks of this revision's contents only, and of no other uploader or name. */
  lemma LostRecord(cs: seq<Commit>, i: nat)
    requires Run(cs) && 0 < i < |cs| && cs[i].previous.None?
    ensures var r, latest := cs[i].revision, cs[i - 1].Result().record;
      Extends(cs[i].Result().record, latest) <==>
      forall h | h in latest ::
        && h in r.current && latest[h].size == r.sizes[h]
        && latest[h].uploaders <= [r.upload] && latest[h].basenames <= r.names[h]
  {
  }

  /** Such a run exists: a content is added in the second revision, and the first one is restored in the third. */
  lemma RestoreShrinksRecord() returns (cs: seq<Commit>)
    ensures Run(cs) && |cs| == 3 && StartsFromTheOneBefore(cs, 1)
    ensures cs[2].previous == Some(cs[0].Result()) && cs[2].revision.current == cs[0].revision.current
    ensures !Extends(cs[2].Result().record, cs[1].Result().record)
  {
    var one, two := map["h1" := {"a"}], map["h1" := {"a"}, "h2" := {"b"}];
    var sizes, names := map["h1" := 1, "h2" := 1], map["h1" := ["a"], "h2" := ["b"]];
    BasenamesOfPlain("a");
    BasenamesOfPlain("b");
    var c0 := Commit(None, Revision(one, sizes, names, map[], Upload("u", "1")));
    var c1 := Commit(Some(c0.Result()), Revision(two, sizes, names, one, Upload("u", "2")));
    var c2 := Commit(Some(c0.Result()), Revision(one, sizes, names, one, Upload("u", "3")));
    cs := [c0, c1, c2];
    assert cs[1].previous == Some(cs[0].Result()) && cs[2].previous == Some(cs[0].Result());
    assert "h2" in c1.Result().record && "h2" !in c2.Result().record;
  }

  lemma BasenamesOfPlain(name: string)
    requires '/' !in name
    ensures Enumerates([name], Basenames({name}))
  {
    SplitPrefix(name, "", '/');
    assert Basenames({name}) == {name};
  }
}
