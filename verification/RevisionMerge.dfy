/** The three-way merge that a revision goes through when another one was committed after its base. */
module RevisionMerge {
  import opened Wrappers
  import opened Packets

  type Path = seq<string>
  type Inode = nat
  type Hash = string
  type Tree = map<Path, Inode>

  function Ancestors(path: Path): set<Path> {
    set i | 0 < i < |path| :: path[..i]
  }

  /** No file lies below another file. */
  predicate PrefixFree(files: set<Path>) {
    forall p, q | p in files && q in files :: p !in Ancestors(q)
  }

  function At(tree: Tree, path: Path): Option<Inode> {
    if path in tree then Some(tree[path]) else None
  }

  /** What a merge starts from. Files that share an inode share their content, so content is a function of
      the inode. The hashes recorded for the base and the prior revision are whatever was recorded: they may be
      missing, wholly or for some paths, and they may be wrong. */
  datatype Inputs = Inputs(
    base: Tree, prior: Tree, edited: Tree, editedDirs: set<Path>,
    baseHashes: map<Path, Hash>, recorded: map<Path, Hash>,
    content: Inode -> Bytes, hash: Bytes -> Hash)
  {
    function HashOf(inode: Inode): Hash {
      hash(content(inode))
    }

    function HashAt(tree: Tree, path: Path): Option<Hash> {
      if path in tree then Some(HashOf(tree[path])) else None
    }

    function ContentAt(tree: Tree, path: Path): Option<Bytes> {
      if path in tree then Some(content(tree[path])) else None
    }

    /** The new revision's directory is a file tree, and the prior one's files come from one. */
    ghost predicate Valid() {
      IsTree(edited, editedDirs) && PrefixFree(prior.Keys)
    }

    /** The hash by which the merge knows a file of the prior revision: the recorded one if there is one. */
    function Told(path: Path): Hash
      requires path in prior
    {
      if path in recorded then recorded[path] else HashOf(prior[path])
    }

    ghost predicate BaseHashesRight() {
      forall p | p in baseHashes && p in base :: baseHashes[p] == HashOf(base[p])
    }

    ghost predicate PriorHashesRight() {
      forall p | p in recorded && p in prior :: recorded[p] == HashOf(prior[p])
    }

    /** A path that only the prior revision has cannot be placed where the new revision had a directory, or
        below one of the new revision's files. */
    predicate Conflicts(path: Path) {
      && path in prior && path !in base && path !in edited
      && (path in editedDirs || exists a | a in Ancestors(path) :: a in edited)
    }

    /** The directories that the new revision's files lie in. */
    function ImpliedDirs(): set<Path> {
      set p, a | p in edited && a in Ancestors(p) :: a
    }

    predicate HasTypeConflict(path: Path) {
      path in ImpliedDirs() || exists a | a in Ancestors(path) :: a in edited
    }

    lemma ConflictIsType(path: Path)
      requires Valid()
      requires path in prior && path !in base && path !in edited
      ensures Conflicts(path) <==> HasTypeConflict(path) || path in editedDirs
    {
      assert ImpliedDirs() <= editedDirs;
    }

    /** The merge in one line: the prior revision decides where the new one did not depart from the base. */
    function Rule(path: Path): Option<Hash> {
      if HashAt(base, path) != HashAt(edited, path) then HashAt(edited, path)
      else if Conflicts(path) then None
      else HashAt(prior, path)
    }

    /** The paths for which the merge looks up the base revision's hash. */
    predicate NeedsBaseHash(path: Path) {
      && path in base && path in edited
      && (path in prior ==> prior[path] != edited[path] && base[path] != prior[path] && base[path] != edited[path])
    }

    // ----- what the merge does, given the hashes it is told -----

    /** The new revision's file passes for that of the base. */
    predicate PassesForBase(path: Path)
      requires path in base && path in edited
    {
      base[path] == edited[path] || (path in baseHashes && baseHashes[path] == HashOf(edited[path]))
    }

    /** The prior revision's file comes in where the new revision had not got it. */
    predicate Takes(path: Path) {
      && path in prior
      && if path !in edited then path !in base && !Conflicts(path)
         else
           && path in base && prior[path] != edited[path] && prior[path] != base[path] && PassesForBase(path)
           && (base[path] == edited[path] || Told(path) != HashOf(edited[path]))
    }

    predicate Drops(path: Path) {
      path in base && path in edited && path !in prior && PassesForBase(path)
    }

    /** The file that the merge leaves at a path. */
    function Final(path: Path): Option<Inode> {
      if Takes(path) then Some(prior[path]) else if Drops(path) then None else At(edited, path)
    }

    /** The hashes that the merge is told make it depart from the rule: it takes the file for changed or unchanged
        since the base, or for the prior revision's, when it is not, and that matters. */
    predicate Misled(path: Path) {
      && NeedsBaseHash(path) && path in baseHashes && base[path] != edited[path]
      && var e := HashOf(edited[path]);
         if path in prior
           then HashOf(prior[path]) != e && (HashOf(base[path]) == e) != (baseHashes[path] == e && Told(path) != e)
         else (HashOf(base[path]) == e) != (baseHashes[path] == e)
    }

    /** Path by path, the rule is followed exactly where the hashes do not mislead. */
    lemma RuleUnlessMisled(files: Tree, path: Path)
      requires At(files, path) == Final(path) && (NeedsBaseHash(path) ==> path in baseHashes)
      ensures HashAt(files, path) == Rule(path) <==> !Misled(path)
    {
    }

    /** When the hashes of the base are right, only a recorded hash of the prior revision can mislead, and it does
        where it hides a change from a file that was put back unchanged under a new inode. */
    lemma MisledByRecorded(path: Path)
      requires BaseHashesRight()
      ensures Misled(path) <==>
              && path in base && path in edited && path in prior && path in baseHashes
              && base[path] != edited[path] && prior[path] != edited[path] && base[path] != prior[path]
              && HashOf(base[path]) == HashOf(edited[path]) == Told(path) != HashOf(prior[path])
    {
    }

    /** Right hashes mislead nowhere, and are noted nowhere wrongly. */
    lemma RightHashesSuffice()
      requires BaseHashesRight() && PriorHashesRight()
      ensures NoneMisled() && ToldRight()
    {
    }

    ghost predicate FollowsRule(files: Tree) {
      forall path :: HashAt(files, path) == Rule(path)
    }

    ghost predicate NoneMisled() {
      forall path :: !Misled(path)
    }

    ghost predicate HashesRight(files: Tree, hashes: map<Path, Hash>) {
      forall p | p in files :: p in hashes && hashes[p] == HashOf(files[p])
    }

    /** The recorded hash is right for every file that the merge takes from the prior revision. */
    ghost predicate ToldRight() {
      forall p | Takes(p) :: Told(p) == HashOf(prior[p])
    }

    /** The whole directory follows the rule exactly when the hashes mislead nowhere, and the hashes kept beside it
        are right exactly when the recorded ones are for the files taken. */
    lemma RightExactly(files: Tree, hashes: map<Path, Hash>, sizes: map<Path, nat>)
      requires forall path :: Settled(files, path)
      requires Describes(files, hashes, sizes)
      ensures FollowsRule(files) <==> NoneMisled()
      ensures HashesRight(files, hashes) <==> ToldRight()
    {
      forall path
        ensures HashAt(files, path) == Rule(path) <==> !Misled(path)
        ensures TakenAt(files, path) <==> Takes(path)
      {
        assert Settled(files, path);
        RuleUnlessMisled(files, path);
      }
      if HashesRight(files, hashes) {
        forall p | Takes(p)
          ensures Told(p) == HashOf(prior[p])
        {
          assert TakenAt(files, p);
        }
      }
    }

    /** The path is as the merge leaves it, and its base hash was there if it was looked up. */
    predicate Settled(files: Tree, path: Path) {
      At(files, path) == Final(path) && (NeedsBaseHash(path) ==> path in baseHashes)
    }

    /** The path is still as the new revision had it. */
    predicate Untouched(files: Tree, path: Path) {
      if path in edited then path in files && files[path] == edited[path] else path !in files
    }

    /** Every file is the new revision's or the prior one's. */
    predicate Sourced(files: Tree) {
      forall p | p in files ::
        (p in edited && files[p] == edited[p]) || (p in prior && files[p] == prior[p])
    }

    predicate ChangedAt(before: Tree, after: Tree, path: Path) {
      after == before || after == before - {path} || (path in prior && after == before[path := prior[path]])
    }

    ghost predicate Progress(files: Tree, todo: set<Path>) {
      && Sourced(files)
      && (forall p | p in todo :: Untouched(files, p))
      && (forall p | p !in todo :: Settled(files, p))
    }

    lemma OneMore(before: Tree, after: Tree, todo: set<Path>, path: Path)
      requires Progress(before, todo) && path in todo
      requires ChangedAt(before, after, path) && Settled(after, path)
      ensures Progress(after, todo - {path})
    {
      forall p | p !in todo
        ensures Settled(after, p)
      {
        assert At(after, p) == At(before, p);
      }
    }

    /** The file is the prior revision's, and the new revision had not got it. */
    predicate TakenAt(files: Tree, path: Path) {
      path in prior && At(files, path) == Some(prior[path]) != At(edited, path)
    }

    /** The sizes are those of the files, and so are the hashes, but for the files taken from the prior revision,
        whose hashes are those recorded for it. Nothing else has a hash or a size. */
    ghost predicate Describes(files: Tree, hashes: map<Path, Hash>, sizes: map<Path, nat>) {
      && hashes.Keys == files.Keys && sizes.Keys == files.Keys
      && forall p | p in files ::
           hashes[p] == (if TakenAt(files, p) then Told(p) else HashOf(files[p])) && sizes[p] == |content(files[p])|
    }

    lemma DescribesOneMore(files: Tree, hashes: map<Path, Hash>, sizes: map<Path, nat>, path: Path)
      requires Describes(files, hashes, sizes)
      requires path in prior && At(edited, path) != Some(prior[path])
      ensures var inode := prior[path];
              Describes(files[path := inode], hashes[path := Told(path)], sizes[path := |content(inode)|])
    {
      var after := files[path := prior[path]];
      assert forall p | p in after && p != path :: At(after, p) == At(files, p);
    }

    lemma DescribesOneLess(files: Tree, hashes: map<Path, Hash>, sizes: map<Path, nat>, path: Path)
      requires Describes(files, hashes, sizes)
      ensures Describes(files - {path}, hashes - {path}, sizes - {path})
    {
      assert forall p | p in files && p != path :: At(files - {path}, p) == At(files, p);
    }

    ghost predicate HashSeparates() {
      forall p, s, t | s in {base, prior, edited} && t in {base, prior, edited} && p in s && p in t ::
        HashOf(s[p]) == HashOf(t[p]) ==> content(s[p]) == content(t[p])
    }
  }

  /** Directories are not files, and the directories of files and of directories exist. */
  predicate IsTree(files: Tree, dirs: set<Path>) {
    && (forall p | p in files :: p !in dirs && Ancestors(p) <= dirs)
    && (forall d | d in dirs :: Ancestors(d) <= dirs)
  }

  lemma TreeIsPrefixFree(files: Tree, dirs: set<Path>)
    requires IsTree(files, dirs)
    ensures PrefixFree(files.Keys)
  {
  }

  lemma SamePlace(files: Tree, dirs: set<Path>, path: Path, inode: Inode)
    requires IsTree(files, dirs) && path in files
    ensures IsTree(files[path := inode], dirs) && path !in dirs && Ancestors(path) <= dirs
  {
  }

  lemma OnePlaceLess(files: Tree, dirs: set<Path>, path: Path)
    requires IsTree(files, dirs)
    ensures IsTree(files - {path}, dirs)
  {
  }

  lemma AncestorsNest(path: Path, a: Path)
    requires a in Ancestors(path)
    ensures Ancestors(a) <= Ancestors(path)
  {
    forall b | b in Ancestors(a)
      ensures b in Ancestors(path)
    {
      var i :| 0 < i < |a| && b == a[..i];
      assert b == path[..i];
    }
  }

  lemma NotOwnAncestor(path: Path)
    ensures path !in Ancestors(path)
  {
  }

  lemma OnePlaceMore(files: Tree, dirs: set<Path>, path: Path, inode: Inode)
    requires IsTree(files, dirs) && path !in dirs && Ancestors(path) !! files.Keys
    ensures IsTree(files[path := inode], dirs + Ancestors(path)) && path !in dirs + Ancestors(path)
  {
    NotOwnAncestor(path);
    forall d | d in Ancestors(path)
      ensures Ancestors(d) <= dirs + Ancestors(path)
    {
      AncestorsNest(path, d);
    }
  }

  /** The directory of the new revision while it is merged, with the hashes and sizes kept beside it. */
  class Workspace {
    const inputs: Inputs
    var files: Tree
    var dirs: set<Path>
    var hashes: map<Path, Hash>
    var sizes: map<Path, nat>
    var priorHashes: Option<map<Path, Hash>>

    ghost predicate Valid()
      reads this
    {
      && inputs.Valid()
      && IsTree(files, dirs)
      && Described()
      && (priorHashes.Some? ==> Tells(priorHashes.value))
    }

    ghost predicate Described()
      reads this
    {
      inputs.Describes(files, hashes, sizes)
    }

    /** Looking a path up, and computing the hash if it is not there, gives the hash that the merge goes by. */
    ghost predicate Tells(m: map<Path, Hash>)
      reads this
    {
      forall p | p in inputs.prior :: inputs.Told(p) == if p in m then m[p] else inputs.HashOf(inputs.prior[p])
    }

    /** One path has been given the prior revision's file; directories may have been added above it. */
    twostate predicate TookPrior(path: Path)
      requires path in inputs.prior
      reads this
    {
      && files == old(files)[path := inputs.prior[path]]
      && old(dirs) <= dirs <= old(dirs) + Ancestors(path)
    }

    constructor (inputs: Inputs)
      requires inputs.Valid()
      ensures Valid() && this.inputs == inputs
      ensures files == inputs.edited && dirs == inputs.editedDirs && priorHashes.None?
    {
      this.inputs := inputs;
      files, dirs := inputs.edited, inputs.editedDirs;
      hashes := map p | p in inputs.edited :: inputs.HashOf(inputs.edited[p]);
      sizes := map p | p in inputs.edited :: |inputs.content(inputs.edited[p])|;
      priorHashes := None;
    }

    method Remove(path: Path)
      requires path in files
      modifies this`files
      ensures files == old(files) - {path}
    {
      files := files - {path};
    }

    method Link(path: Path, inode: Inode)
      requires path !in files && path !in dirs && Ancestors(path) <= dirs
      modifies this`files
      ensures files == old(files)[path := inode]
    {
      files := files[path := inode];
    }

    method MakeDirectories(path: Path)
      requires Ancestors(path) !! files.Keys
      modifies this`dirs
      ensures dirs == old(dirs) + Ancestors(path)
    {
      dirs := dirs + Ancestors(path);
    }

    method LoadPriorHashes()
      requires priorHashes.Some? ==> Tells(priorHashes.value)
      modifies this`priorHashes
      ensures priorHashes.Some? && Tells(priorHashes.value)
    {
      if priorHashes.None? {
        priorHashes := Some(
          if inputs.recorded != map[] then inputs.recorded
          else map p | p in inputs.prior :: inputs.HashOf(inputs.prior[p]));
      }
    }

    /** Notes the recorded hash and the size of a file that was just linked from the prior revision. */
    method Describe(path: Path)
      requires path in files && path in inputs.prior && files[path] == inputs.prior[path]
      requires priorHashes.Some? ==> Tells(priorHashes.value)
      modifies this`hashes, this`sizes, this`priorHashes
      ensures hashes == old(hashes)[path := inputs.Told(path)]
      ensures sizes == old(sizes)[path := |inputs.content(files[path])|]
      ensures priorHashes.Some? && Tells(priorHashes.value)
    {
      LoadPriorHashes();
      if path in priorHashes.value {
        hashes := hashes[path := priorHashes.value[path]];
      } else {
        hashes := hashes[path := inputs.HashOf(files[path])];
      }
      sizes := sizes[path := |inputs.content(files[path])|];
    }

    method AddFromPrior(path: Path)
      requires Valid()
      requires path in inputs.prior && path !in inputs.edited
      requires path !in files && path !in dirs && Ancestors(path) !! files.Keys
      modifies this`files, this`dirs, this`hashes, this`sizes, this`priorHashes
      ensures Valid() && TookPrior(path)
    {
      hide IsTree, Inputs.Describes, Inputs.Valid;
      OnePlaceMore(files, dirs, path, inputs.prior[path]);
      inputs.DescribesOneMore(files, hashes, sizes, path);
      MakeDirectories(path);
      Link(path, inputs.prior[path]);
      Describe(path);
    }

    method ReplaceWithPrior(path: Path)
      requires Valid()
      requires path in inputs.prior && path in files && At(inputs.edited, path) != Some(inputs.prior[path])
      modifies this`files, this`hashes, this`sizes, this`priorHashes
      ensures Valid() && TookPrior(path)
    {
      hide IsTree, Inputs.Describes;
      SamePlace(files, dirs, path, inputs.prior[path]);
      inputs.DescribesOneMore(files, hashes, sizes, path);
      Remove(path);
      Link(path, inputs.prior[path]);
      assert files == old(files)[path := inputs.prior[path]];
      Describe(path);
    }

    /** Inodes first, hashes only where all three inodes differ. */
    method MergeAllPresent(path: Path) returns (ok: bool)
      requires Valid()
      requires path in inputs.base && path in inputs.prior && path in inputs.edited
      requires path in files && files[path] == inputs.edited[path]
      modifies this`files, this`hashes, this`sizes, this`priorHashes
      ensures Valid()
      ensures ok <==> inputs.NeedsBaseHash(path) ==> path in inputs.baseHashes
      ensures ok ==> files == old(files) || TookPrior(path)
      ensures ok ==> At(files, path) == inputs.Final(path)
      ensures !ok ==> files == old(files)
    {
      var b, p, n := inputs.base[path], inputs.prior[path], inputs.edited[path];
      if p == n || b == p {
        return true;
      }
      if b == n {
        ReplaceWithPrior(path);
        return true;
      }
      if path !in inputs.baseHashes {
        return false;
      }
      if inputs.baseHashes[path] == hashes[path] {
        LoadPriorHashes();
        var priorHash := if path in priorHashes.value then priorHashes.value[path] else inputs.HashOf(p);
        if priorHash != inputs.baseHashes[path] {
          ReplaceWithPrior(path);
        }
      }
      return true;
    }

    /** Merges every path of the three revisions, in any order. The merge goes through exactly when the base
        hashes it looks up are there. Then the tree is still a tree, every path is as the rule says exactly when the
        hashes it was told mislead nowhere, and its hashes are right exactly when the recorded ones are for the
        files taken. */
    method Merge() returns (ok: bool)
      requires Valid() && files == inputs.edited && dirs == inputs.editedDirs
      modifies this
      ensures Valid()
      ensures ok <==> forall path :: inputs.NeedsBaseHash(path) ==> path in inputs.baseHashes
      ensures ok ==> forall path :: At(files, path) == inputs.Final(path)
      ensures ok ==> (inputs.FollowsRule(files) <==> inputs.NoneMisled())
      ensures ok ==> (inputs.HashesRight(files, hashes) <==> inputs.ToldRight())
      ensures ok ==> inputs.Sourced(files) && inputs.editedDirs <= dirs
      ensures PrefixFree(files.Keys)
    {
      var todo := inputs.base.Keys + inputs.prior.Keys + inputs.edited.Keys;
      while todo != {}
        invariant Valid() && inputs.Progress(files, todo)
        invariant inputs.editedDirs <= dirs && dirs * inputs.prior.Keys <= inputs.editedDirs
      {
        var path :| path in todo;
        ghost var before := files;
        ok := Step(path);
        if !ok {
          TreeIsPrefixFree(files, dirs);
          return;
        }
        inputs.OneMore(before, files, todo, path);
        todo := todo - {path};
      }
      TreeIsPrefixFree(files, dirs);
      forall path
        ensures At(files, path) == inputs.Final(path)
        ensures inputs.NeedsBaseHash(path) ==> path in inputs.baseHashes
      {
        assert inputs.Settled(files, path);
      }
      inputs.RightExactly(files, hashes, sizes);
      return true;
    }

    /** Only the prior revision has the path. */
    method MergePriorOnly(path: Path)
      requires Valid() && inputs.Untouched(files, path) && inputs.Sourced(files)
      requires inputs.editedDirs <= dirs && dirs * inputs.prior.Keys <= inputs.editedDirs
      requires path !in inputs.base && path in inputs.prior && path !in inputs.edited
      modifies this`files, this`dirs, this`hashes, this`sizes, this`priorHashes
      ensures Valid()
      ensures if inputs.Conflicts(path) then files == old(files) && dirs == old(dirs) else TookPrior(path)
    {
      inputs.ConflictIsType(path);
      if inputs.HasTypeConflict(path) || path in dirs {
        return;
      }
      AddFromPrior(path);
    }

    /** The prior revision has not got a path that the base and the new revision have. */
    method MergePriorDeleted(path: Path) returns (ok: bool)
      requires Valid() && inputs.Untouched(files, path)
      requires path in inputs.base && path !in inputs.prior && path in inputs.edited
      modifies this`files, this`hashes, this`sizes
      ensures Valid()
      ensures ok <==> path in inputs.baseHashes
      ensures files == if ok && inputs.PassesForBase(path) then old(files) - {path} else old(files)
    {
      hide IsTree;
      if path !in inputs.baseHashes {
        return false;
      }
      if inputs.base[path] == inputs.edited[path] || inputs.baseHashes[path] == hashes[path] {
        inputs.DescribesOneLess(files, hashes, sizes, path);
        OnePlaceLess(files, dirs, path);
        Remove(path);
        hashes := hashes - {path};
        sizes := sizes - {path};
      }
      return true;
    }

    /** One turn of the loop, over a path that no earlier turn has changed. */
    method Step(path: Path) returns (ok: bool)
      requires Valid() && inputs.Untouched(files, path) && inputs.Sourced(files)
      requires inputs.editedDirs <= dirs && dirs * inputs.prior.Keys <= inputs.editedDirs
      modifies this`files, this`dirs, this`hashes, this`sizes, this`priorHashes
      ensures Valid()
      ensures ok ==> inputs.Settled(files, path)
      ensures !ok ==> inputs.NeedsBaseHash(path) && path !in inputs.baseHashes
      ensures inputs.ChangedAt(old(files), files, path)
      ensures old(dirs) <= dirs && dirs * inputs.prior.Keys <= inputs.editedDirs
    {
      hide IsTree, Inputs.Describes;
      var inBase, inPrior, inEdited := path in inputs.base, path in inputs.prior, path in inputs.edited;
      ok := true;
      if !inBase && inPrior && !inEdited {
        MergePriorOnly(path);
        assert Ancestors(path) !! inputs.prior.Keys;
      } else if inBase && !inPrior && inEdited {
        ok := MergePriorDeleted(path);
      } else if inBase && inPrior && inEdited {
        ok := MergeAllPresent(path);
      }
    }
  }

  // ----- what the rule means -----

  /** When hashes tell contents apart, the merged directory holds, at every path, what the prior revision has
      where base and new revision hold the same, and what the new revision has elsewhere. */
  lemma MergedContent(w: Inputs, files: Tree, path: Path)
    requires w.HashSeparates() && w.Sourced(files)
    requires w.HashAt(files, path) == w.Rule(path)
    ensures w.ContentAt(files, path) ==
      if w.ContentAt(w.base, path) != w.ContentAt(w.edited, path) then w.ContentAt(w.edited, path)
      else if w.Conflicts(path) then None
      else w.ContentAt(w.prior, path)
  {
    assert w.base in {w.base, w.prior, w.edited} && w.prior in {w.base, w.prior, w.edited}
      && w.edited in {w.base, w.prior, w.edited};
  }

  /** A merge onto an unchanged prior revision keeps the new revision's files, whatever hashes it is told. */
  lemma NothingIntervened(w: Inputs, path: Path)
    requires w.prior == w.base
    ensures w.Final(path) == At(w.edited, path) && w.Rule(path) == w.HashAt(w.edited, path)
  {
    assert !w.Conflicts(path);
  }

  /** A new revision that changes nothing ends up with the prior revision's files, whatever hashes it is told, exactly
      when no path is in conflict. */
  lemma NothingEdited(w: Inputs)
    requires w.edited == w.base
    ensures (forall path :: w.Final(path) == At(w.prior, path)) <==> (forall path :: !w.Conflicts(path))
    ensures (forall path :: w.Rule(path) == w.HashAt(w.prior, path)) <==> (forall path :: !w.Conflicts(path))
  {
    forall path
      ensures w.Final(path) == At(w.prior, path) <==> !w.Conflicts(path)
      ensures w.Rule(path) == w.HashAt(w.prior, path) <==> !w.Conflicts(path)
    {
    }
  }

  /** A file that became a directory between base and prior is lost: the file goes, since the prior revision
      deleted it, and what the prior revision put in its place is skipped because the file was there. */
  lemma FileTurnedDirectory(w: Inputs, file: Path, below: Path)
    requires w.Valid()
    requires file in Ancestors(below) && file in w.base && below in w.prior && below !in w.base
    requires w.edited == w.base
    ensures w.Conflicts(below) && below in w.prior && w.Rule(below) == None && w.Final(below) == None
    ensures file in w.edited && w.Rule(file) == None && w.Final(file) == None
  {
    assert file !in w.prior;
  }

  /** Such a merge exists: one file in base and new revision, replaced by a directory in the prior one. */
  lemma FileTurnedDirectoryHappens() returns (w: Inputs)
    ensures w.Valid() && w.BaseHashesRight() && w.edited == w.base && ["a", "b"] in w.prior
    ensures forall path :: w.Final(path) == None && (w.NeedsBaseHash(path) ==> path in w.baseHashes)
  {
    var tree: Tree := map[["a"] := 1];
    w := Inputs(tree, map[["a", "b"] := 2], tree, {}, map[["a"] := "1"], map[],
                (i: Inode) => if i == 1 then [1] else [2], (b: Bytes) => if b == [1] then "1" else "2");
    assert ["a", "b"][..1] == ["a"];
    assert ["a"] in Ancestors(["a", "b"]);
    assert Ancestors(["a"]) == {};
    assert Ancestors(["a", "b"]) == {["a"]};
    FileTurnedDirectory(w, ["a"], ["a", "b"]);
  }

  /** A merge that fails exists: the base revision has no recorded hashes, a file of it is still there in the new
      revision, and the prior one has deleted it. */
  lemma MissingBaseHashHappens() returns (w: Inputs)
    ensures w.Valid() && w.base == w.edited && w.baseHashes == map[]
    ensures w.NeedsBaseHash(["a"]) && ["a"] !in w.baseHashes
  {
    var tree: Tree := map[["a"] := 1];
    w := Inputs(tree, map[], tree, {}, map[], map[], (i: Inode) => [1], (b: Bytes) => "1");
    assert Ancestors(["a"]) == {};
  }
}
