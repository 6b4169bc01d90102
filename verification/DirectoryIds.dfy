/** The Git digest of a directory tree, as section 5 of ISO/IEC 18670 identifies directories by.
    The hash is a parameter: any function from byte strings to twenty octets. */
module DirectoryIds {
  import opened Wrappers
  import opened Sorting
  import opened Packets

  type Digest = d: Bytes | |d| == 20 witness [0, 0, 0, 0, 0, 0, 0, 0, 0, 0, 0, 0, 0, 0, 0, 0, 0, 0, 0, 0]

  type Hash = Bytes -> Digest

  datatype Node =
    | File(permissions: nat, content: Bytes)
    | Link(target: Bytes)
    | Directory(entries: seq<Entry>)
    | Special

  datatype Entry = Entry(name: Bytes, node: Node)

  const SLASH: Octet := 47
  const SPACE: Octet := 32
  const NUL: Octet := 0

  const BLOB: Bytes := [98, 108, 111, 98]
  const TREE: Bytes := [116, 114, 101, 101]

  const MODE_DIR: Bytes := [52, 48, 48, 48, 48]
  const MODE_EXEC: Bytes := [49, 48, 48, 55, 53, 53]
  const MODE_FILE: Bytes := [49, 48, 48, 54, 52, 52]
  const MODE_LINK: Bytes := [49, 50, 48, 48, 48, 48]

  /** Any of the three execute bits. */
  predicate IsExecutable(permissions: nat) {
    permissions % 2 == 1 || permissions / 8 % 2 == 1 || permissions / 64 % 2 == 1
  }

  function Decimal(n: nat): Bytes {
    if n < 10 then [48 + n] else Decimal(n / 10) + [48 + n % 10]
  }

  function ObjectBytes(kind: Bytes, payload: Bytes): Bytes {
    kind + [SPACE] + Decimal(|payload|) + [NUL] + payload
  }

  // ----- the digest -----

  datatype Line = Line(name: Bytes, mode: Bytes, digest: Digest)

  function SortKey(l: Line): Bytes {
    if l.mode == MODE_DIR then l.name + [SLASH] else l.name
  }

  function LineOrder(): (Line, Line) -> bool {
    (a, b) => LexLe(SortKey(a), SortKey(b))
  }

  function LineBytes(l: Line): Bytes {
    l.mode + [SPACE] + l.name + [NUL] + l.digest
  }

  function Manifest(lines: seq<Line>): Bytes {
    if lines == [] then [] else LineBytes(lines[0]) + Manifest(lines[1..])
  }

  datatype Stamp = Stamp(mode: Bytes, digest: Digest)

  /** How an entry appears in the manifest of its directory, if it does. */
  function StampOf(h: Hash, node: Node): Option<Stamp>
    decreases node, 1
  {
    match node
    case File(permissions, content) =>
      Some(Stamp(if IsExecutable(permissions) then MODE_EXEC else MODE_FILE, h(ObjectBytes(BLOB, content))))
    case Link(target) => Some(Stamp(MODE_LINK, h(ObjectBytes(BLOB, target))))
    case Special => None
    case Directory(entries) =>
      var digest := TreeDigest(h, entries);
      if digest.None? then None else Some(Stamp(MODE_DIR, digest.value))
  }

  function Lines(h: Hash, entries: seq<Entry>): seq<Line>
    decreases entries, 0
  {
    if entries == [] then []
    else EntryLines(h, entries[0]) + Lines(h, entries[1..])
  }

  function EntryLines(h: Hash, e: Entry): seq<Line>
    decreases e, 2
  {
    var stamp := StampOf(h, e.node);
    if stamp.None? then [] else [Line(e.name, stamp.value.mode, stamp.value.digest)]
  }

  function TreeObject(lines: seq<Line>): Bytes {
    ObjectBytes(TREE, Manifest(Sort(lines, LineOrder())))
  }

  function TreeDigest(h: Hash, entries: seq<Entry>): Option<Digest>
    decreases entries, 1
  {
    var lines := Lines(h, entries);
    if lines == [] then None else Some(h(TreeObject(lines)))
  }

  function DirectoryDigest(h: Hash, entries: seq<Entry>): Digest {
    TreeDigest(h, entries).GetOr(h(ObjectBytes(TREE, [])))
  }

  method ComputeStamp(h: Hash, node: Node) returns (r: Option<Stamp>)
    ensures r == StampOf(h, node)
    decreases node, 1
  {
    match node {
      case Link(target) => return Some(Stamp(MODE_LINK, h(ObjectBytes(BLOB, target))));
      case Directory(children) =>
        var child := ComputeTreeDigest(h, children);
        return if child.None? then None else Some(Stamp(MODE_DIR, child.value));
      case File(permissions, content) =>
        var mode := if IsExecutable(permissions) then MODE_EXEC else MODE_FILE;
        return Some(Stamp(mode, h(ObjectBytes(BLOB, content))));
      case Special => return None;
    }
  }

  /** Scans a directory in the order given, digesting its subdirectories on the way. */
  method ScanDirectory(h: Hash, entries: seq<Entry>) returns (lines: seq<Line>)
    ensures lines == Lines(h, entries)
    decreases entries, 0
  {
    lines := [];
    for i := 0 to |entries|
      invariant lines + Lines(h, entries[i..]) == Lines(h, entries)
    {
      LinesStep(h, entries, i);
      var stamp := ComputeStamp(h, entries[i].node);
      lines := lines + if stamp.None? then [] else [Line(entries[i].name, stamp.value.mode, stamp.value.digest)];
    }
  }

  lemma LinesStep(h: Hash, entries: seq<Entry>, i: nat)
    requires i < |entries|
    ensures Lines(h, entries[i..]) == EntryLines(h, entries[i]) + Lines(h, entries[i + 1..])
    ensures entries[i] in entries
  {
    assert entries[i..][0] == entries[i] && entries[i..][1..] == entries[i + 1..];
  }

  method ComputeTreeDigest(h: Hash, entries: seq<Entry>) returns (r: Option<Digest>)
    ensures r == TreeDigest(h, entries)
    decreases entries, 1
  {
    var lines := ScanDirectory(h, entries);
    r := if lines == [] then None else Some(h(TreeObject(lines)));
  }

  method ComputeDirectoryDigest(h: Hash, entries: seq<Entry>) returns (r: Digest)
    ensures r == DirectoryDigest(h, entries)
  {
    var digest := ComputeTreeDigest(h, entries);
    r := if digest.Some? then digest.value else h(ObjectBytes(TREE, []));
  }

  // ----- what the digest is meant to see -----

  /** A tree without empty directories and special files, with a file's mode reduced to one bit,
      and with no order among the entries of a directory. */
  datatype Canon = CanonFile(executable: bool, content: Bytes) | CanonLink(target: Bytes)
                 | CanonDirectory(entries: map<Bytes, Canon>)

  function CanonOf(node: Node): Option<Canon>
    decreases node, 1
  {
    match node
    case File(permissions, content) => Some(CanonFile(IsExecutable(permissions), content))
    case Link(target) => Some(CanonLink(target))
    case Special => None
    case Directory(entries) =>
      var m := CanonEntries(entries);
      if m == map[] then None else Some(CanonDirectory(m))
  }

  function CanonEntries(entries: seq<Entry>): map<Bytes, Canon>
    decreases entries, 0
  {
    if entries == [] then map[]
    else
      var rest, c := CanonEntries(entries[1..]), CanonOf(entries[0].node);
      if c.None? then rest else rest[entries[0].name := c.value]
  }

  /** Names as a file system gives them: not empty, without slash or NUL, and unique in a directory. */
  predicate WellFormed(entries: seq<Entry>)
    decreases entries, 0
  {
    entries == []
    || (entries[0].name != [] && SLASH !in entries[0].name && NUL !in entries[0].name
        && (forall e | e in entries[1..] :: e.name != entries[0].name)
        && WellFormedNode(entries[0].node) && WellFormed(entries[1..]))
  }

  predicate WellFormedNode(node: Node)
    decreases node, 1
  {
    node.Directory? ==> WellFormed(node.entries)
  }

  // ----- everything that gets hashed -----

  function NodeObjects(h: Hash, node: Node): set<Bytes>
    decreases node, 1
  {
    match node
    case File(_, content) => {ObjectBytes(BLOB, content)}
    case Link(target) => {ObjectBytes(BLOB, target)}
    case Special => {}
    case Directory(entries) => Objects(h, entries)
  }

  function Objects(h: Hash, entries: seq<Entry>): set<Bytes>
    decreases entries, 1
  {
    {TreeObject(Lines(h, entries))} + EntryObjects(h, entries)
  }

  function EntryObjects(h: Hash, entries: seq<Entry>): set<Bytes>
    decreases entries, 0
  {
    if entries == [] then {} else NodeObjects(h, entries[0].node) + EntryObjects(h, entries[1..])
  }

  predicate NoCollision(h: Hash, objects: set<Bytes>) {
    forall x, y | x in objects && y in objects :: h(x) == h(y) ==> x == y
  }

  // ----- objects and manifests decode uniquely -----

  /** What stands before the first separator, and what stands after it, can be read back. */
  lemma SplitAtFirst(a: Bytes, b: Bytes, sep: Octet, x: Bytes, y: Bytes)
    requires sep !in a && sep !in b && a + [sep] + x == b + [sep] + y
    ensures a == b && x == y
  {
    var s, t := a + [sep] + x, b + [sep] + y;
    assert s[|a|] == sep && t[|b|] == sep;
    assert forall i | 0 <= i < |a| :: s[i] == a[i];
    assert forall i | 0 <= i < |b| :: t[i] == b[i];
    assert |a| == |b|;
    assert s[..|a|] == a && t[..|b|] == b;
    assert s[|a| + 1..] == x && t[|b| + 1..] == y;
  }

  lemma {:induction false} DecimalDigits(n: nat)
    ensures forall d | d in Decimal(n) :: 48 <= d < 58
  {
    if n >= 10 {
      DecimalDigits(n / 10);
    }
  }

  lemma ObjectDecodes(kind: Bytes, p: Bytes, q: Bytes)
    requires kind == BLOB || kind == TREE
    requires ObjectBytes(kind, p) == ObjectBytes(kind, q)
    ensures p == q
  {
    DecimalDigits(|p|);
    DecimalDigits(|q|);
    SplitAtFirst(kind + [SPACE] + Decimal(|p|), kind + [SPACE] + Decimal(|q|), NUL, p, q);
  }

  predicate IsMode(mode: Bytes) {
    mode == MODE_DIR || mode == MODE_EXEC || mode == MODE_FILE || mode == MODE_LINK
  }

  predicate IsManifestLine(l: Line) {
    IsMode(l.mode) && NUL !in l.name && SLASH !in l.name
  }

  lemma LineDecodes(a: Line, b: Line, x: Bytes, y: Bytes)
    requires IsManifestLine(a) && IsManifestLine(b) && LineBytes(a) + x == LineBytes(b) + y
    ensures a == b && x == y
  {
    LineRegroup(a, x);
    LineRegroup(b, y);
    SplitAtFirst(a.mode, b.mode, SPACE, a.name + [NUL] + (a.digest + x), b.name + [NUL] + (b.digest + y));
    SplitAtFirst(a.name, b.name, NUL, a.digest + x, b.digest + y);
    assert (a.digest + x)[..20] == a.digest && (b.digest + y)[..20] == b.digest;
    assert (a.digest + x)[20..] == x && (b.digest + y)[20..] == y;
  }

  lemma LineRegroup(l: Line, x: Bytes)
    ensures LineBytes(l) + x == l.mode + [SPACE] + (l.name + [NUL] + (l.digest + x))
  {
  }

  /** A manifest lists its lines in one way only. */
  lemma {:induction false} ManifestDecodes(a: seq<Line>, b: seq<Line>)
    requires forall l | l in a :: IsManifestLine(l)
    requires forall l | l in b :: IsManifestLine(l)
    requires Manifest(a) == Manifest(b)
    ensures a == b
  {
    if a != [] && b != [] {
      LineDecodes(a[0], b[0], Manifest(a[1..]), Manifest(b[1..]));
      ManifestDecodes(a[1..], b[1..]);
      assert a == [a[0]] + a[1..] && b == [b[0]] + b[1..];
    }
  }

  // ----- lines of a directory -----

  function Lookup(entries: seq<Entry>, name: Bytes): Option<Node> {
    if entries == [] then None
    else if entries[0].name == name then Some(entries[0].node)
    else Lookup(entries[1..], name)
  }

  function StampAt(h: Hash, entries: seq<Entry>, name: Bytes): Option<Stamp> {
    var node := Lookup(entries, name);
    if node.None? then None else StampOf(h, node.value)
  }

  function CanonAt(entries: seq<Entry>, name: Bytes): Option<Canon> {
    var node := Lookup(entries, name);
    if node.None? then None else CanonOf(node.value)
  }

  lemma {:induction false} LookupNone(entries: seq<Entry>, name: Bytes)
    requires forall e | e in entries :: e.name != name
    ensures Lookup(entries, name).None?
  {
    if entries != [] {
      LookupNone(entries[1..], name);
    }
  }

  lemma StampMode(h: Hash, node: Node)
    ensures StampOf(h, node).Some? ==> IsMode(StampOf(h, node).value.mode)
  {
  }

  lemma {:induction false} LookupMember(entries: seq<Entry>, name: Bytes)
    ensures Lookup(entries, name).Some?
      ==> exists e :: e in entries && e.name == name && e.node == Lookup(entries, name).value
    ensures Lookup(entries, name).None? ==> forall e | e in entries :: e.name != name
  {
    if entries != [] {
      LookupMember(entries[1..], name);
      assert entries[0] in entries;
    }
  }

  /** The lines of a directory are the stamps of its names, each once. */
  lemma {:induction false} LinesAreStamps(h: Hash, entries: seq<Entry>)
    requires WellFormed(entries)
    ensures forall l :: l in Lines(h, entries) <==> StampAt(h, entries, l.name) == Some(Stamp(l.mode, l.digest))
    ensures NoDuplicates(Lines(h, entries))
    ensures forall l | l in Lines(h, entries) :: IsManifestLine(l)
  {
    if entries != [] {
      var first, rest := entries[0], entries[1..];
      LinesAreStamps(h, rest);
      LookupNone(rest, first.name);
      StampMode(h, first.node);
      assert forall l | l in Lines(h, rest) :: l.name != first.name;
    }
  }

  lemma LineOrderSeparates(h: Hash, entries: seq<Entry>)
    requires WellFormed(entries)
    ensures Preorder(LineOrder()) && Separates(LineOrder(), Elements(Lines(h, entries)))
  {
    LinesAreStamps(h, entries);
    forall x: Line, y: Line {
      LexTotal(SortKey(x), SortKey(y));
    }
    forall x: Line, y: Line, z: Line | LexLe(SortKey(x), SortKey(y)) && LexLe(SortKey(y), SortKey(z)) {
      LexTransitive(SortKey(x), SortKey(y), SortKey(z));
    }
    forall x, y | x in Elements(Lines(h, entries)) && y in Elements(Lines(h, entries)) && SortKey(x) == SortKey(y)
      ensures x == y
    {
      SameKeySameName(x, y);
    }
  }

  /** A trailing slash cannot make two names look alike. */
  lemma SameKeySameName(x: Line, y: Line)
    requires IsManifestLine(x) && IsManifestLine(y) && SortKey(x) == SortKey(y)
    ensures x.name == y.name
  {
    var dx, dy := x.name + [SLASH], y.name + [SLASH];
    assert dx[|x.name|] == SLASH && dy[|y.name|] == SLASH;
    assert dx[..|x.name|] == x.name && dy[..|y.name|] == y.name;
  }

  /** Directories that stamp every name alike have the same digest, whatever order they are scanned in. */
  lemma SameStampsSameDigest(h: Hash, a: seq<Entry>, b: seq<Entry>)
    requires WellFormed(a) && WellFormed(b)
    requires forall name :: StampAt(h, a, name) == StampAt(h, b, name)
    ensures TreeDigest(h, a) == TreeDigest(h, b)
  {
    LinesAreStamps(h, a);
    LinesAreStamps(h, b);
    var la, lb := Lines(h, a), Lines(h, b);
    forall l
      ensures l in Elements(la) <==> l in Elements(lb)
    {
    }
    LineOrderSeparates(h, a);
    EnumerationsMatch(la, lb);
    SameElements(la, lb);
    EnumerationsSortAlike(la, lb, LineOrder());
  }

  /** Two directories have the same digest exactly when they stamp every name alike. */
  lemma DigestsAgree(h: Hash, a: seq<Entry>, b: seq<Entry>)
    requires WellFormed(a) && WellFormed(b)
    requires NoCollision(h, {TreeObject(Lines(h, a)), TreeObject(Lines(h, b))})
    ensures TreeDigest(h, a) == TreeDigest(h, b) <==> forall name :: StampAt(h, a, name) == StampAt(h, b, name)
  {
    LinesAreStamps(h, a);
    LinesAreStamps(h, b);
    var la, lb := Lines(h, a), Lines(h, b);
    if forall name :: StampAt(h, a, name) == StampAt(h, b, name) {
      SameStampsSameDigest(h, a, b);
    }
    if TreeDigest(h, a) == TreeDigest(h, b) {
      SameLines(h, la, lb);
      forall name
        ensures StampAt(h, a, name) == StampAt(h, b, name)
      {
        StampFromLines(h, a, b, name);
        StampFromLines(h, b, a, name);
      }
    }
  }

  lemma StampFromLines(h: Hash, a: seq<Entry>, b: seq<Entry>, name: Bytes)
    requires forall l :: l in Lines(h, a) <==> StampAt(h, a, l.name) == Some(Stamp(l.mode, l.digest))
    requires forall l :: l in Lines(h, b) <==> StampAt(h, b, l.name) == Some(Stamp(l.mode, l.digest))
    requires forall l :: l in Lines(h, a) <==> l in Lines(h, b)
    ensures StampAt(h, a, name).Some? ==> StampAt(h, b, name) == StampAt(h, a, name)
  {
    var s := StampAt(h, a, name);
    if s.Some? {
      assert Line(name, s.value.mode, s.value.digest) in Lines(h, a);
    }
  }

  lemma SameLines(h: Hash, la: seq<Line>, lb: seq<Line>)
    requires NoCollision(h, {TreeObject(la), TreeObject(lb)})
    requires forall l | l in la :: IsManifestLine(l)
    requires forall l | l in lb :: IsManifestLine(l)
    requires la == [] <==> lb == []
    requires la != [] ==> h(TreeObject(la)) == h(TreeObject(lb))
    ensures forall l :: l in la <==> l in lb
  {
    if la != [] {
      var sa, sb := Sort(la, LineOrder()), Sort(lb, LineOrder());
      ObjectDecodes(TREE, Manifest(sa), Manifest(sb));
      SortKeeps(la, LineOrder());
      SortKeeps(lb, LineOrder());
      SameElements(sa, la);
      SameElements(sb, lb);
      ManifestDecodes(sa, sb);
    }
  }

  // ----- the digest sees exactly the canonical tree -----

  lemma {:induction false} CanonIsLookup(entries: seq<Entry>, name: Bytes)
    requires WellFormed(entries)
    ensures CanonAt(entries, name) == if name in CanonEntries(entries) then Some(CanonEntries(entries)[name]) else None
  {
    if entries != [] {
      CanonIsLookup(entries[1..], name);
      LookupNone(entries[1..], entries[0].name);
    }
  }

  lemma CanonAgree(a: seq<Entry>, b: seq<Entry>)
    requires WellFormed(a) && WellFormed(b)
    ensures CanonEntries(a) == CanonEntries(b) <==> forall name :: CanonAt(a, name) == CanonAt(b, name)
  {
    if CanonEntries(a) == CanonEntries(b) {
      forall name
        ensures CanonAt(a, name) == CanonAt(b, name)
      {
        CanonIsLookup(a, name);
        CanonIsLookup(b, name);
      }
    }
    if forall name :: CanonAt(a, name) == CanonAt(b, name) {
      var m, n := CanonEntries(a), CanonEntries(b);
      forall name
        ensures name in m <==> name in n
        ensures name in m && name in n ==> m[name] == n[name]
      {
        CanonIsLookup(a, name);
        CanonIsLookup(b, name);
        assert CanonAt(a, name) == CanonAt(b, name);
      }
      assert m == n;
    }
  }

  lemma {:induction false} MemberParts(h: Hash, entries: seq<Entry>, e: Entry)
    requires WellFormed(entries) && e in entries
    ensures WellFormedNode(e.node) && NodeObjects(h, e.node) <= EntryObjects(h, entries)
  {
    if e != entries[0] {
      MemberParts(h, entries[1..], e);
    }
  }

  lemma {:induction false} StampNoneCanonNone(h: Hash, node: Node)
    requires WellFormedNode(node)
    ensures StampOf(h, node).None? <==> CanonOf(node).None?
    decreases node
  {
    if node.Directory? {
      NoLinesNoCanon(h, node.entries);
    }
  }

  lemma {:induction false} NoLinesNoCanon(h: Hash, entries: seq<Entry>)
    requires WellFormed(entries)
    ensures Lines(h, entries) == [] <==> CanonEntries(entries) == map[]
    decreases entries
  {
    if entries != [] {
      StampNoneCanonNone(h, entries[0].node);
      NoLinesNoCanon(h, entries[1..]);
      if CanonOf(entries[0].node).Some? {
        assert entries[0].name in CanonEntries(entries);
      }
    }
  }

  lemma {:induction false} NodesAgree(h: Hash, x: Node, y: Node)
    requires WellFormedNode(x) && WellFormedNode(y)
    requires NoCollision(h, NodeObjects(h, x) + NodeObjects(h, y))
    ensures StampOf(h, x) == StampOf(h, y) <==> CanonOf(x) == CanonOf(y)
    decreases x
  {
    StampNoneCanonNone(h, x);
    StampNoneCanonNone(h, y);
    if x.Directory? && y.Directory? {
      EntriesAgree(h, x.entries, y.entries);
    } else if !x.Directory? && !y.Directory? {
      LeavesAgree(h, x, y);
    }
  }

  lemma LeavesAgree(h: Hash, x: Node, y: Node)
    requires !x.Directory? && !y.Directory?
    requires NoCollision(h, NodeObjects(h, x) + NodeObjects(h, y))
    ensures StampOf(h, x) == StampOf(h, y) <==> CanonOf(x) == CanonOf(y)
  {
    if StampOf(h, x) == StampOf(h, y) && x.File? && y.File? {
      ObjectDecodes(BLOB, x.content, y.content);
    } else if StampOf(h, x) == StampOf(h, y) && x.Link? && y.Link? {
      ObjectDecodes(BLOB, x.target, y.target);
    }
  }

  lemma {:induction false} EntriesAgree(h: Hash, a: seq<Entry>, b: seq<Entry>)
    requires WellFormed(a) && WellFormed(b)
    requires NoCollision(h, Objects(h, a) + Objects(h, b))
    ensures TreeDigest(h, a) == TreeDigest(h, b) <==> CanonEntries(a) == CanonEntries(b)
    decreases a
  {
    forall name
      ensures StampAt(h, a, name) == StampAt(h, b, name) <==> CanonAt(a, name) == CanonAt(b, name)
    {
      LookupMember(a, name);
      LookupMember(b, name);
      var x, y := Lookup(a, name), Lookup(b, name);
      if x.Some? {
        var e :| e in a && e.name == name && e.node == x.value;
        MemberParts(h, a, e);
        StampNoneCanonNone(h, x.value);
      }
      if y.Some? {
        var f :| f in b && f.name == name && f.node == y.value;
        MemberParts(h, b, f);
        StampNoneCanonNone(h, y.value);
      }
      if x.Some? && y.Some? {
        NodesAgree(h, x.value, y.value);
      }
    }
    DigestsAgree(h, a, b);
    CanonAgree(a, b);
  }

  /** Two trees have the same identifier exactly when they are the same canonical tree, unless the hash
      collides on two of the objects that make up the trees. */
  lemma DirectoryIdentity(h: Hash, a: seq<Entry>, b: seq<Entry>)
    requires WellFormed(a) && WellFormed(b)
    requires NoCollision(h, Objects(h, a) + Objects(h, b) + {ObjectBytes(TREE, [])})
    ensures DirectoryDigest(h, a) == DirectoryDigest(h, b) <==> CanonEntries(a) == CanonEntries(b)
  {
    EntriesAgree(h, a, b);
    NoLinesNoCanon(h, a);
    NoLinesNoCanon(h, b);
    NonemptyManifest(Lines(h, a));
    NonemptyManifest(Lines(h, b));
  }

  /** The digest of a directory with anything in it is not that of the empty one. */
  lemma NonemptyManifest(lines: seq<Line>)
    ensures lines != [] ==> TreeObject(lines) != ObjectBytes(TREE, [])
  {
    if lines != [] && TreeObject(lines) == ObjectBytes(TREE, []) {
      var sorted := Sort(lines, LineOrder());
      ObjectDecodes(TREE, Manifest(sorted), []);
      SortKeeps(lines, LineOrder());
      SameElements(sorted, lines);
    }
  }

  lemma {:induction false} LookupOf(entries: seq<Entry>, e: Entry)
    requires WellFormed(entries) && e in entries
    ensures Lookup(entries, e.name) == Some(e.node)
  {
    if e != entries[0] {
      LookupOf(entries[1..], e);
    }
  }

  /** The order in which a directory is scanned does not matter. */
  lemma ScanOrderIrrelevant(h: Hash, a: seq<Entry>, b: seq<Entry>)
    requires WellFormed(a) && WellFormed(b) && Elements(a) == Elements(b)
    ensures DirectoryDigest(h, a) == DirectoryDigest(h, b)
  {
    forall name
      ensures Lookup(a, name) == Lookup(b, name)
    {
      LookupInBoth(a, b, name);
      LookupInBoth(b, a, name);
    }
    assert forall name :: StampAt(h, a, name) == StampAt(h, b, name);
    SameStampsSameDigest(h, a, b);
  }

  lemma LookupInBoth(a: seq<Entry>, b: seq<Entry>, name: Bytes)
    requires WellFormed(b) && Elements(a) == Elements(b)
    ensures Lookup(a, name).Some? ==> Lookup(b, name) == Lookup(a, name)
  {
    LookupMember(a, name);
    if Lookup(a, name).Some? {
      var e :| e in a && e.name == name && e.node == Lookup(a, name).value;
      assert e in Elements(b);
      LookupOf(b, e);
    }
  }
}
