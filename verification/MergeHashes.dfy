/** The hashes that a merge reads about the prior revision come from the table of file states. This module says
    when they are the right ones. */
module MergeHashes {
  import opened Wrappers
  import opened Text
  import opened FileStates
  import Packets
  import RevisionMerge

  /** A path as the table writes it. */
  function PathText(path: RevisionMerge.Path): string
    requires path != []
  {
    Join(path, '/')
  }

  /** What the table says about the hashes of a revision's files. */
  function Recorded(table: seq<Row>, at: nat, tree: RevisionMerge.Tree): map<RevisionMerge.Path, string> {
    map p | p in tree && p != [] && HashAt(table, at, PathText(p)).Some? :: HashAt(table, at, PathText(p)).value
  }

  /** The states of a revision tell the true hashes of its files. */
  ghost predicate TellsTree(states: map<string, State>, tree: RevisionMerge.Tree, w: RevisionMerge.Inputs) {
    forall p | p in tree :: p != [] && PathText(p) in states && states[PathText(p)].hash == w.HashOf(tree[p])
  }

  ghost predicate TellsHashes(states: map<string, State>, w: RevisionMerge.Inputs) {
    TellsTree(states, w.prior, w)
  }

  ghost predicate RecordedRight(w: RevisionMerge.Inputs) {
    forall p | p in w.prior :: p in w.recorded && w.recorded[p] == w.HashOf(w.prior[p])
  }

  /** When every revision was compared with the one right before it, a merge reads the right hash for every file of
      the prior revision, and computes none itself. */
  lemma MergeReadsRightHashes(cs: seq<Commit>, i: nat, w: RevisionMerge.Inputs)
    requires Run(cs) && Chained(cs) && i < |cs|
    requires TellsHashes(cs[i].states, w) && w.recorded == Recorded(Table(cs), cs[i].number, w.prior)
    ensures RecordedRight(w)
  {
    ReplayIsSnapshot(cs, i);
    forall p | p in w.prior
      ensures p in w.recorded && w.recorded[p] == w.HashOf(w.prior[p])
    {
      assert StateAt(Table(cs), cs[i].number, PathText(p)) == Get(cs[i].states, PathText(p));
    }
  }

  /** In every run, a merge reads the right hash for every file of the prior revision exactly when the last revision
      that wrote a row for each of them said it was there with the hash that it still has. */
  lemma MergeReadsRightHashesExactly(cs: seq<Commit>, i: nat, w: RevisionMerge.Inputs)
    requires Run(cs) && i < |cs|
    requires TellsHashes(cs[i].states, w) && w.recorded == Recorded(Table(cs), cs[i].number, w.prior)
    ensures RecordedRight(w)
      <==> forall p | p in w.prior :: LastSaid(cs, i, PathText(p)) == Some(cs[i].states[PathText(p)].hash)
  {
    hide Run, Table, Recorded, LastSaid, PathText;
    forall p | p in w.prior
      ensures p in w.recorded && w.recorded[p] == w.HashOf(w.prior[p])
        <==> LastSaid(cs, i, PathText(p)) == Some(cs[i].states[PathText(p)].hash)
    {
      RecordedIsLastSaid(cs, i, w.prior, p);
    }
  }

  lemma RecordedIsLastSaid(cs: seq<Commit>, i: nat, tree: RevisionMerge.Tree, p: RevisionMerge.Path)
    requires Run(cs) && i < |cs| && p in tree && p != []
    ensures var recorded, said := Recorded(Table(cs), cs[i].number, tree), LastSaid(cs, i, PathText(p));
            if p in recorded then said == Some(recorded[p]) else said == None
  {
    hide Run, Table, LastWritten, PathText;
    ReplayIsLastWritten(cs, i, PathText(p));
  }

  /** The hash that the last row for a path up to a revision gives. */
  function LastSaid(cs: seq<Commit>, i: nat, path: string): Option<string>
    requires i < |cs|
  {
    var state := LastWritten(cs, i, path);
    if state.None? then None else Some(state.value.hash)
  }

  /** If the table was right for the revision before, it is right for a merge exactly when every file of the prior
      revision either got a row in it or was in the revision before with the same hash. */
  lemma MergeReadsRightHashesNext(cs: seq<Commit>, i: nat, w: RevisionMerge.Inputs)
    requires Run(cs) && 0 < i < |cs| && Agrees(cs, i - 1)
    requires TellsHashes(cs[i].states, w) && w.recorded == Recorded(Table(cs), cs[i].number, w.prior)
    ensures RecordedRight(w) <==> forall p | p in w.prior ::
      var path := PathText(p);
      || (Writes(cs, i) && Changes(cs[i].previous, cs[i].states, path))
      || (path in cs[i - 1].states && cs[i - 1].states[path].hash == cs[i].states[path].hash)
  {
    hide Run, Writes, Changes, Table;
    forall p | p in w.prior
      ensures var path := PathText(p);
        p in w.recorded && w.recorded[p] == w.HashOf(w.prior[p]) <==>
          || (Writes(cs, i) && Changes(cs[i].previous, cs[i].states, path))
          || (path in cs[i - 1].states && cs[i - 1].states[path].hash == cs[i].states[path].hash)
    {
      ReplayStep(cs, i, PathText(p));
      assert StateAt(Table(cs), cs[i - 1].number, PathText(p)) == Get(cs[i - 1].states, PathText(p));
    }
  }

  /** When every revision was compared with the one right before it, and the base hashes are right, a merge follows
      its rule everywhere and notes no wrong hash. */
  lemma ChainedMergeIsRight(cs: seq<Commit>, i: nat, w: RevisionMerge.Inputs)
    requires Run(cs) && Chained(cs) && i < |cs| && w.BaseHashesRight()
    requires TellsHashes(cs[i].states, w) && w.recorded == Recorded(Table(cs), cs[i].number, w.prior)
    ensures w.NoneMisled() && w.ToldRight()
  {
    MergeReadsRightHashes(cs, i, w);
    w.RightHashesSuffice();
  }

  /** In every run, a merge knows a file of the prior revision by the hash that the last row for it gave, or computes
      its hash where that row says the file is gone, or there is none. */
  lemma ToldIsLastSaid(cs: seq<Commit>, i: nat, w: RevisionMerge.Inputs, p: RevisionMerge.Path)
    requires Run(cs) && i < |cs| && p in w.prior && p != []
    requires w.recorded == Recorded(Table(cs), cs[i].number, w.prior)
    ensures w.Told(p) == match LastSaid(cs, i, PathText(p)) case Some(hash) => hash case None => w.HashOf(w.prior[p])
  {
    hide Run, Table, Recorded, LastSaid, PathText;
    RecordedIsLastSaid(cs, i, w.prior, p);
  }

  // ----- merging onto a restored revision -----

  function Content(inode: RevisionMerge.Inode): Packets.Bytes {
    if inode == 1 then [1] else [2]
  }

  function HashOfContent(content: Packets.Bytes): string {
    if content == [1] then "h1" else "h2"
  }

  /** Merges in which inode 1 has the content of the first revision's file, and all others that of the second's. */
  function OntoFirst(base: RevisionMerge.Tree, edited: RevisionMerge.Tree, cs: seq<Commit>): RevisionMerge.Inputs
    requires |cs| == 3
  {
    var prior := map[["a"] := 1];
    RevisionMerge.Inputs(base, prior, edited, {}, map[["a"] := "h2"], Recorded(Table(cs), cs[2].number, prior),
                         Content, HashOfContent)
  }

  lemma OntoFirstReads(base: RevisionMerge.Tree, edited: RevisionMerge.Tree, cs: seq<Commit>)
    requires |cs| == 3 && "a" in cs[2].states && cs[2].states["a"].hash == "h1"
    requires "a" in cs[1].states && cs[1].states["a"].hash == "h2" && base == map[["a"] := 2]
    requires HashAt(Table(cs), cs[2].number, "a") == Some("h2")
    ensures var w := OntoFirst(base, edited, cs);
            TellsTree(cs[1].states, base, w) && TellsHashes(cs[2].states, w) && w.Told(["a"]) == "h2"
  {
    assert PathText(["a"]) == "a";
  }

  /** A merge with the second of three revisions as its base, onto the third one, which restored the first. */
  ghost predicate SecondOntoThird(cs: seq<Commit>, w: RevisionMerge.Inputs) {
    && Run(cs) && |cs| == 3 && Restores(cs, 2, 0) && w.Valid()
    && TellsTree(cs[1].states, w.base, w) && w.BaseHashesRight()
    && TellsHashes(cs[2].states, w) && w.recorded == Recorded(Table(cs), cs[2].number, w.prior)
  }

  /** The wrong hash can be noted: base and new revision share the file of the second revision, so the restored file is
      taken, and the merged revision is recorded with the second one's hash for it. */
  lemma RestoreMisleadsMerge() returns (cs: seq<Commit>, w: RevisionMerge.Inputs)
    ensures SecondOntoThird(cs, w) && w.edited == w.base
    ensures w.Takes(["a"]) && w.Told(["a"]) != w.HashOf(w.prior[["a"]]) && w.Told(["a"]) == "h2" && !w.ToldRight()
    ensures w == OntoFirst(w.base, w.edited, cs)
    ensures forall path :: !w.NeedsBaseHash(path)
  {
    hide Run, Restores, Table, Recorded, TellsTree;
    cs := RestoreDiverges();
    var tree: RevisionMerge.Tree := map[["a"] := 2];
    OntoFirstReads(tree, tree, cs);
    w := OntoFirst(tree, tree, cs);
    assert RevisionMerge.Ancestors(["a"]) == {};
  }

  /** The restore can be undone: the new revision holds the second one's content under a new inode, which the rule
      counts as unchanged, but the restored file passes for unchanged too, and stays out. */
  lemma RestoreUndone() returns (cs: seq<Commit>, w: RevisionMerge.Inputs)
    ensures SecondOntoThird(cs, w)
    ensures forall path :: w.NeedsBaseHash(path) ==> path in w.baseHashes
    ensures w.Rule(["a"]) == Some("h1") && w.Misled(["a"]) && w.Final(["a"]) == RevisionMerge.At(w.edited, ["a"])
  {
    hide Run, Restores, Table, Recorded, TellsTree;
    cs := RestoreDiverges();
    var base: RevisionMerge.Tree, edited: RevisionMerge.Tree := map[["a"] := 2], map[["a"] := 3];
    OntoFirstReads(base, edited, cs);
    w := OntoFirst(base, edited, cs);
    assert RevisionMerge.Ancestors(["a"]) == {};
  }

  /** A wrong hash that was noted can mislead the next merge: with the merged revision of `RestoreMisleadsMerge` and its
      hashes as the base, an edit is taken for no change, and is lost when the prior revision deleted the file. */
  lemma EditLost() returns (cs: seq<Commit>, w: RevisionMerge.Inputs, next: RevisionMerge.Inputs)
    ensures SecondOntoThird(cs, w) && w.Takes(["a"])
    ensures next.Valid() && next.content == w.content && next.hash == w.hash
    ensures next.base == map[["a"] := w.prior[["a"]]] && next.baseHashes == map[["a"] := w.Told(["a"])]
    ensures forall path :: next.NeedsBaseHash(path) ==> path in next.baseHashes
    ensures next.HashAt(next.base, ["a"]) == Some("h1") && next.HashAt(next.edited, ["a"]) == Some("h2")
    ensures next.Rule(["a"]) == Some("h2") && next.Misled(["a"]) && next.Final(["a"]) == None
  {
    hide SecondOntoThird, Run, Table, Recorded;
    cs, w := RestoreMisleadsMerge();
    assert w.Told(["a"]) == "h2";
    next := RevisionMerge.Inputs(map[["a"] := w.prior[["a"]]], map[], map[["a"] := 3], {}, map[["a"] := w.Told(["a"])],
                                 map[], w.content, w.hash);
    assert RevisionMerge.Ancestors(["a"]) == {};
  }
}
