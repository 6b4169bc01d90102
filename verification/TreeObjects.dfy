/** The bytes that a directory's digest is taken of, in Git's own terms: what the manifest lists, in which order, and
    how it is written out. */
module TreeObjects {
  import opened Wrappers
  import opened Sorting
  import opened Packets
  import opened DirectoryIds

  function Code(c: char): Octet {
    if c as int < 128 then c as int else 63
  }

  /** A text of ASCII characters as octets. */
  function Ascii(s: string): Bytes {
    seq(|s|, i requires 0 <= i < |s| => Code(s[i]))
  }

  /** The number that decimal digits spell. */
  function Spelled(digits: Bytes): int {
    if digits == [] then 0 else Spelled(digits[..|digits| - 1]) * 10 + digits[|digits| - 1] as int - 48
  }

  /** The decimal digits of a number, without leading zeros. */
  predicate IsDecimal(digits: Bytes, n: nat) {
    && digits != [] && (forall d | d in digits :: 48 <= d < 58)
    && Spelled(digits) == n && (digits[0] == 48 ==> |digits| == 1)
  }

  lemma {:induction false} DecimalSpells(n: nat)
    ensures IsDecimal(Decimal(n), n) && (n > 0 ==> Decimal(n)[0] != 48)
  {
    if n >= 10 {
      DecimalSpells(n / 10);
      assert Decimal(n)[..|Decimal(n)| - 1] == Decimal(n / 10);
      assert Decimal(n)[0] == Decimal(n / 10)[0];
    }
  }

  /** A Git object: its kind, a space, the length of its payload in decimal, a zero octet, and the payload. */
  ghost predicate IsObject(octets: Bytes, kind: string, payload: Bytes) {
    exists digits: Bytes :: IsDecimal(digits, |payload|) && octets == Ascii(kind) + [32] + digits + [0] + payload
  }

  /** The entry has a place in a Git tree: files and links do, and directories that are not empty of such. */
  predicate IsKept(node: Node)
    decreases node, 0
  {
    match node
    case File(_, _) => true
    case Link(_) => true
    case Special => false
    case Directory(entries) => exists e :: e in entries && IsKept(e.node)
  }

  function Mode(node: Node): string
    requires !node.Special?
  {
    match node
    case File(permissions, _) =>
      if permissions / 64 % 2 == 1 || permissions / 8 % 2 == 1 || permissions % 2 == 1 then "100755" else "100644"
    case Link(_) => "120000"
    case Directory(_) => "40000"
  }

  /** The digest of what an entry holds: of a blob of the file's content or the link's target, or the subdirectory's. */
  ghost predicate IsDigest(h: Hash, node: Node, digest: Digest) {
    match node
    case File(_, content) => exists octets :: IsObject(octets, "blob", content) && digest == h(octets)
    case Link(target) => exists octets :: IsObject(octets, "blob", target) && digest == h(octets)
    case Directory(entries) => TreeDigest(h, entries) == Some(digest)
    case Special => false
  }

  /** Git sorts a directory as if its name ended in a slash. */
  function GitName(e: Entry): Bytes {
    if e.node.Directory? then e.name + [47] else e.name
  }

  /** The lines of a tree: for each entry its mode, a space, its name, a zero octet and its digest. */
  function GitLines(entries: seq<Entry>, digests: seq<Digest>): Bytes
    requires |entries| == |digests| && forall e | e in entries :: !e.node.Special?
  {
    if entries == [] then []
    else
      Ascii(Mode(entries[0].node)) + [32] + entries[0].name + [0] + digests[0] + GitLines(entries[1..], digests[1..])
  }

  /** The entries that are listed, their digests, and the payload made of them. */
  ghost predicate IsListing(h: Hash, entries: seq<Entry>, kept: seq<Entry>, digests: seq<Digest>, payload: Bytes) {
    && (forall e :: e in kept <==> e in entries && IsKept(e.node))
    && (forall i, j | 0 <= i < j < |kept| :: LexBefore(GitName(kept[i]), GitName(kept[j])))
    && (forall e | e in kept :: !e.node.Special?)
    && |digests| == |kept| && (forall i | 0 <= i < |kept| :: IsDigest(h, kept[i].node, digests[i]))
    && payload == GitLines(kept, digests)
  }

  // ----- the digest is taken of just these bytes -----

  lemma ObjectIsGits(kind: string, payload: Bytes)
    requires kind == "blob" || kind == "tree"
    ensures IsObject(ObjectBytes(if kind == "blob" then BLOB else TREE, payload), kind, payload)
  {
    DecimalSpells(|payload|);
    assert Ascii("blob") == BLOB && Ascii("tree") == TREE;
  }

  lemma {:induction false} StampKept(h: Hash, node: Node)
    requires WellFormedNode(node)
    ensures StampOf(h, node).Some? <==> IsKept(node)
    decreases node
  {
    if node.Directory? {
      LinesKept(h, node.entries);
    }
  }

  lemma {:induction false} LinesKept(h: Hash, entries: seq<Entry>)
    requires WellFormed(entries)
    ensures Lines(h, entries) == [] <==> forall e | e in entries :: !IsKept(e.node)
    decreases entries
  {
    if entries != [] {
      StampKept(h, entries[0].node);
      LinesKept(h, entries[1..]);
      assert forall e :: e in entries <==> e == entries[0] || e in entries[1..];
    }
  }

  /** The entry that a line of the manifest stands for. */
  function EntryAt(entries: seq<Entry>, l: Line): Entry {
    Entry(l.name, Lookup(entries, l.name).GetOr(Special))
  }

  lemma LineIsEntry(h: Hash, entries: seq<Entry>, l: Line)
    requires WellFormed(entries) && l in Lines(h, entries)
    ensures var e := EntryAt(entries, l);
            e in entries && IsKept(e.node) && IsDigest(h, e.node, l.digest)
            && l.mode == Ascii(Mode(e.node)) && SortKey(l) == GitName(e)
  {
    var e := EntryAt(entries, l);
    LinesAreStamps(h, entries);
    LookupMember(entries, l.name);
    MemberParts(h, entries, e);
    StampKept(h, e.node);
    ModesSpelled(h, e.node);
    match e.node {
      case File(_, content) => ObjectIsGits("blob", content);
      case Link(target) => ObjectIsGits("blob", target);
      case Directory(_) =>
    }
  }

  lemma ModesSpelled(h: Hash, node: Node)
    requires StampOf(h, node).Some?
    ensures StampOf(h, node).value.mode == Ascii(Mode(node))
    ensures StampOf(h, node).value.mode == MODE_DIR <==> node.Directory?
  {
    assert Ascii("100755") == MODE_EXEC && Ascii("100644") == MODE_FILE;
    assert Ascii("120000") == MODE_LINK && Ascii("40000") == MODE_DIR;
    assert |MODE_EXEC| == |MODE_FILE| == |MODE_LINK| == 6 && |MODE_DIR| == 5;
  }

  lemma EntryIsLine(h: Hash, entries: seq<Entry>, e: Entry) returns (l: Line)
    requires WellFormed(entries) && e in entries && IsKept(e.node)
    ensures l in Lines(h, entries) && EntryAt(entries, l) == e
  {
    MemberParts(h, entries, e);
    StampKept(h, e.node);
    var stamp := StampOf(h, e.node).value;
    l := Line(e.name, stamp.mode, stamp.digest);
    LookupOf(entries, e);
    LinesAreStamps(h, entries);
  }

  function EntriesAt(entries: seq<Entry>, lines: seq<Line>): (kept: seq<Entry>)
    ensures |kept| == |lines| && forall i | 0 <= i < |lines| :: kept[i] == EntryAt(entries, lines[i])
  {
    seq(|lines|, i requires 0 <= i < |lines| => EntryAt(entries, lines[i]))
  }

  function DigestsOf(lines: seq<Line>): (digests: seq<Digest>)
    ensures |digests| == |lines| && forall i | 0 <= i < |lines| :: digests[i] == lines[i].digest
  {
    seq(|lines|, i requires 0 <= i < |lines| => lines[i].digest)
  }

  lemma {:induction false} LinesSpelled(entries: seq<Entry>, lines: seq<Line>)
    requires forall l | l in lines ::
      !EntryAt(entries, l).node.Special? && l.mode == Ascii(Mode(EntryAt(entries, l).node))
    ensures forall e | e in EntriesAt(entries, lines) :: !e.node.Special?
    ensures Manifest(lines) == GitLines(EntriesAt(entries, lines), DigestsOf(lines))
  {
    if lines != [] {
      LinesSpelled(entries, lines[1..]);
      assert EntriesAt(entries, lines)[1..] == EntriesAt(entries, lines[1..]);
      assert DigestsOf(lines)[1..] == DigestsOf(lines[1..]);
      assert lines[0] in lines;
    }
  }

  lemma KeptInOrder(h: Hash, entries: seq<Entry>, sorted: seq<Line>)
    requires WellFormed(entries) && sorted == Sort(Lines(h, entries), LineOrder())
    ensures forall i, j | 0 <= i < j < |sorted| ::
              LexBefore(GitName(EntryAt(entries, sorted[i])), GitName(EntryAt(entries, sorted[j])))
  {
    var lines := Lines(h, entries);
    LinesAreStamps(h, entries);
    LineOrderSeparates(h, entries);
    SortSorted(lines, LineOrder());
    SortKeeps(lines, LineOrder());
    SameElements(sorted, lines);
    SortDistinct(lines, LineOrder());
    forall i, j | 0 <= i < j < |sorted|
      ensures LexBefore(GitName(EntryAt(entries, sorted[i])), GitName(EntryAt(entries, sorted[j])))
    {
      var a, b := sorted[i], sorted[j];
      LineIsEntry(h, entries, a);
      LineIsEntry(h, entries, b);
      KeysDiffer(lines, a, b);
      assert LineOrder()(a, b);
      LexLeByPosition(SortKey(a), SortKey(b));
    }
  }

  lemma KeysDiffer(lines: seq<Line>, a: Line, b: Line)
    requires Separates(LineOrder(), Elements(lines)) && a in lines && b in lines && a != b
    ensures SortKey(a) != SortKey(b)
  {
    LexTotal(SortKey(a), SortKey(b));
    assert a in Elements(lines) && b in Elements(lines) && !(LineOrder()(a, b) && LineOrder()(b, a));
  }

  /** A directory has a digest unless nothing in it has a place in a Git tree, and it is the digest of the Git tree that
      lists exactly the entries that have one, in Git's order. */
  lemma TreeIsGits(h: Hash, entries: seq<Entry>)
    returns (kept: seq<Entry>, digests: seq<Digest>, payload: Bytes, octets: Bytes)
    requires WellFormed(entries)
    ensures TreeDigest(h, entries).Some? <==> exists e :: e in entries && IsKept(e.node)
    ensures TreeDigest(h, entries).Some? ==> TreeDigest(h, entries) == Some(h(octets))
    ensures IsListing(h, entries, kept, digests, payload) && IsObject(octets, "tree", payload)
  {
    var lines := Lines(h, entries);
    var sorted := Sort(lines, LineOrder());
    LinesKept(h, entries);
    SortKeeps(lines, LineOrder());
    SameElements(sorted, lines);
    kept, digests := EntriesAt(entries, sorted), DigestsOf(sorted);
    payload, octets := Manifest(sorted), TreeObject(lines);
    ObjectIsGits("tree", payload);
    SortedIsListing(h, entries, sorted);
  }

  lemma SortedIsListing(h: Hash, entries: seq<Entry>, sorted: seq<Line>)
    requires WellFormed(entries) && sorted == Sort(Lines(h, entries), LineOrder())
    requires forall l :: l in sorted <==> l in Lines(h, entries)
    ensures IsListing(h, entries, EntriesAt(entries, sorted), DigestsOf(sorted), Manifest(sorted))
  {
    hide Lines, IsDigest, IsKept, Mode, GitName, Sort, Manifest, GitLines;
    var kept := EntriesAt(entries, sorted);
    KeptInOrder(h, entries, sorted);
    forall l | l in sorted
      ensures var e := EntryAt(entries, l);
              e in entries && IsKept(e.node) && !e.node.Special? && IsDigest(h, e.node, l.digest)
              && l.mode == Ascii(Mode(e.node))
    {
      LineIsEntry(h, entries, l);
      KeptNotSpecial(EntryAt(entries, l).node);
    }
    LinesSpelled(entries, sorted);
    forall e | e in entries && IsKept(e.node)
      ensures e in kept
    {
      var l := EntryIsLine(h, entries, e);
      var i :| 0 <= i < |sorted| && sorted[i] == l;
      assert kept[i] == e;
    }
    forall e | e in kept
      ensures e in entries && IsKept(e.node)
    {
      var i :| 0 <= i < |kept| && kept[i] == e;
      assert sorted[i] in sorted;
    }
    forall i | 0 <= i < |kept|
      ensures IsDigest(h, kept[i].node, DigestsOf(sorted)[i])
    {
      assert sorted[i] in sorted;
    }
  }

  lemma KeptNotSpecial(node: Node)
    ensures IsKept(node) ==> !node.Special?
  {
  }

  /** The digest of a directory is that tree's, and the one of the empty tree if there is nothing to list. */
  lemma DirectoryIsGits(h: Hash, entries: seq<Entry>)
    returns (kept: seq<Entry>, digests: seq<Digest>, payload: Bytes, octets: Bytes)
    requires WellFormed(entries)
    ensures IsListing(h, entries, kept, digests, payload) && IsObject(octets, "tree", payload)
    ensures DirectoryDigest(h, entries) == h(octets)
  {
    kept, digests, payload, octets := TreeIsGits(h, entries);
    assert kept != [] ==> kept[0] in kept;
    if TreeDigest(h, entries).None? {
      octets := ObjectBytes(TREE, []);
      ObjectIsGits("tree", []);
    }
  }
}
