/** Merging copies of one certificate: the union of what they hold, without local certifications. */
module CertificateMerge {
  import opened Wrappers
  import opened Sorting
  import opened Packets
  import opened CertificateOrder
  import opened Certificates

  datatype Group = Group(head: Frame, attached: seq<Frame>)

  predicate IsLocalCertification(lib: Library, f: Frame) {
    f.tag == SIGNATURE_TAG
    && var s := lib.parseSignature(f.body);
       s.Some? && (IsCertification(s.value.typ) || s.value.typ == Some("cert-revocation"))
         && s.value.exportable == Some(false)
  }

  function NotSkippable(): Frame -> bool {
    (f: Frame) => !IsSkippable(f.tag)
  }

  // ----- what a block contributes -----

  function ReadBlock(data: Bytes): (r: Result<seq<Frame>, CertificateError>)
    ensures r.Ok? ==> r.value != [] && r.value[0].tag == PRIMARY_KEY_TAG
  {
    match Frames(data)
    case Err(e) => Err(BadPacket(e))
    case Ok(frames) =>
      if frames == [] || frames[0].tag != PRIMARY_KEY_TAG then Err(NoPrimary)
      else if exists f :: f in frames[1..] && f.tag == PRIMARY_KEY_TAG then Err(ExtraPrimary)
      else Ok(frames)
  }

  /** All placements of a block, passing over the packets that certificates skip. */
  function BlockPlacements(frames: seq<Frame>): set<Placement>
    requires frames != []
  {
    {Placement(frames[0], None)} + PlacementsFrom(frames[0], Filter(frames[1..], NotSkippable()))
  }

  predicate IsExportable(lib: Library, p: Placement) {
    p.frame.Some? ==> !IsLocalCertification(lib, p.frame.value)
  }

  function Exportable(lib: Library, placements: set<Placement>): set<Placement> {
    set p | p in placements && IsExportable(lib, p)
  }

  /** The placements of several blocks together, without local certifications. */
  function Union(lib: Library, blocks: seq<Bytes>): set<Placement> {
    if blocks == [] then {}
    else
      var n := |blocks| - 1;
      var last := ReadBlock(blocks[n]);
      Union(lib, blocks[..n]) + if last.Ok? then Exportable(lib, BlockPlacements(last.value)) else {}
  }

  /** The complaint about the first block that is refused. */
  function RefusedBlock(blocks: seq<Bytes>): Option<CertificateError> {
    if blocks == [] then None
    else
      var n := |blocks| - 1;
      var earlier := RefusedBlock(blocks[..n]);
      if earlier.Some? then earlier
      else
        var last := ReadBlock(blocks[n]);
        if last.Err? then Some(last.error) else None
  }

  function PrimaryBody(block: Bytes): Option<Bytes> {
    var r := ReadBlock(block);
    if r.Ok? then Some(r.value[0].body) else None
  }

  predicate SamePrimaries(blocks: seq<Bytes>) {
    forall a, b | a in blocks && b in blocks :: PrimaryBody(a) == PrimaryBody(b)
  }

  ghost function Finished(lib: Library, placements: set<Placement>, primary: Frame): Result<Bytes, CertificateError> {
    var ids := lib.parsePrimary(primary.body);
    if ids.None? then Err(NotAPublicKey)
    else
      var t := Gathered(Listing(placements));
      Checked(lib, FramedAll(Emitted(lib, t.heads, t.sections, primary, ids.value, true)), primary)
  }

  function Checked(lib: Library, data: Bytes, primary: Frame): Result<Bytes, CertificateError> {
    if !lib.acceptsCertificate(data) then Err(Refused)
    else if primary.body == [] then Err(EmptyPrimary)
    else Ok(data)
  }

  ghost function MergeOf(lib: Library, blocks: seq<Bytes>): Result<Bytes, CertificateError> {
    if blocks == [] then Err(NoBlocks)
    else
      var refused := RefusedBlock(blocks);
      if refused.Some? then Err(refused.value)
      else if !SamePrimaries(blocks) then Err(DifferentPrimaries)
      else
        NothingRefused(blocks);
        Finished(lib, Union(lib, blocks), ReadBlock(blocks[0]).value[0])
  }

  lemma {:induction false} NothingRefused(blocks: seq<Bytes>)
    ensures RefusedBlock(blocks).None? <==> forall b | b in blocks :: ReadBlock(b).Ok?
  {
    hide ReadBlock;
    if blocks != [] {
      NothingRefused(blocks[..|blocks| - 1]);
      assert blocks == blocks[..|blocks| - 1] + [blocks[|blocks| - 1]];
    }
  }

  // ----- the program's groups and tables -----

  function GroupPlacements(g: Group): set<Placement> {
    {Placement(g.head, None)} + set f | f in g.attached :: Placement(g.head, Some(f))
  }

  function GroupedPlacements(groups: seq<Group>): set<Placement> {
    if groups == [] then {}
    else GroupedPlacements(groups[..|groups| - 1]) + GroupPlacements(groups[|groups| - 1])
  }

  /** Groups built so far, with what the rest of the packets will still attach, make up the whole block. */
  predicate GroupsSoFar(groups: seq<Group>, rest: seq<Frame>, primary: Frame, all: set<Placement>) {
    groups != [] && groups[0].head == primary
    && GroupedPlacements(groups) + PlacementsFrom(groups[|groups| - 1].head, Filter(rest, NotSkippable())) == all
  }

  function NextGroups(groups: seq<Group>, f: Frame): seq<Group>
    requires groups != []
  {
    if IsComponent(f.tag) then groups + [Group(f, [])]
    else if !IsSkippable(f.tag) then
      var last := groups[|groups| - 1];
      groups[|groups| - 1 := Group(last.head, last.attached + [f])]
    else groups
  }

  lemma GroupsAdvance(groups: seq<Group>, rest: seq<Frame>, primary: Frame, all: set<Placement>)
    requires rest != [] && GroupsSoFar(groups, rest, primary, all)
    ensures GroupsSoFar(NextGroups(groups, rest[0]), rest[1..], primary, all)
  {
    var f, later, last := rest[0], Filter(rest[1..], NotSkippable()), groups[|groups| - 1].head;
    if IsSkippable(f.tag) {
      assert Filter(rest, NotSkippable()) == later;
    } else {
      assert Filter(rest, NotSkippable()) == [f] + later && ([f] + later)[1..] == later;
      if IsComponent(f.tag) {
        NewGroup(groups, f);
        assert PlacementsFrom(last, [f] + later) == {Placement(f, None)} + PlacementsFrom(f, later);
      } else {
        ExtendedGroup(groups, f);
        assert PlacementsFrom(last, [f] + later) == {Placement(last, Some(f))} + PlacementsFrom(last, later);
      }
    }
  }

  method CertificateGroups(data: Bytes) returns (r: Result<seq<Group>, CertificateError>)
    ensures r.Ok? <==> ReadBlock(data).Ok?
    ensures r.Err? ==> ReadBlock(data) == Err(r.error)
    ensures r.Ok? ==> GroupsOf(r.value, data)
  {
    var read := Frames(data);
    if read.Err? {
      return Err(BadPacket(read.error));
    }
    var frames := read.value;
    if frames == [] || frames[0].tag != PRIMARY_KEY_TAG {
      return Err(NoPrimary);
    }
    var groups := GroupTail(frames[0], frames[1..]);
    if groups.None? {
      return Err(ExtraPrimary);
    }
    return Ok(groups.value);
  }

  /** Groups the packets after the primary key, or refuses a second primary key. */
  method GroupTail(primary: Frame, tail: seq<Frame>) returns (r: Option<seq<Group>>)
    ensures r.None? <==> exists f :: f in tail && f.tag == PRIMARY_KEY_TAG
    ensures r.Some? ==> GroupsSoFar(r.value, [], primary, {Placement(primary, None)}
                                                          + PlacementsFrom(primary, Filter(tail, NotSkippable())))
  {
    ghost var all := {Placement(primary, None)} + PlacementsFrom(primary, Filter(tail, NotSkippable()));
    var groups: seq<Group> := [Group(primary, [])];
    assert GroupedPlacements(groups) == {Placement(primary, None)} by {
      NewGroup([], primary);
      assert [] + [Group(primary, [])] == groups;
    }
    assert tail[0..] == tail;
    for i := 0 to |tail|
      invariant forall k | 0 <= k < i :: tail[k].tag != PRIMARY_KEY_TAG
      invariant GroupsSoFar(groups, tail[i..], primary, all)
    {
      var f := tail[i];
      assert tail[i..][1..] == tail[i + 1..];
      if f.tag == PRIMARY_KEY_TAG {
        return None;
      }
      GroupsAdvance(groups, tail[i..], primary, all);
      if IsComponent(f.tag) {
        groups := groups + [Group(f, [])];
      } else if !IsSkippable(f.tag) {
        var last := groups[|groups| - 1];
        groups := groups[|groups| - 1 := Group(last.head, last.attached + [f])];
      }
    }
    assert tail[|tail|..] == [];
    return Some(groups);
  }

  lemma NewGroup(groups: seq<Group>, f: Frame)
    ensures GroupedPlacements(groups + [Group(f, [])]) == GroupedPlacements(groups) + {Placement(f, None)}
  {
    assert (groups + [Group(f, [])])[..|groups|] == groups;
  }

  lemma ExtendedGroup(groups: seq<Group>, f: Frame)
    requires groups != []
    ensures var n := |groups| - 1; var last := groups[n];
            GroupedPlacements(groups[n := Group(last.head, last.attached + [f])])
            == GroupedPlacements(groups) + {Placement(last.head, Some(f))}
  {
    var n := |groups| - 1;
    var last := groups[n];
    assert groups[n := Group(last.head, last.attached + [f])][..n] == groups[..n];
  }

  /** Notes a placement in a table, once. */
  function Noted(t: Table, p: Placement): Table {
    if p.head in t.sections && (p.frame.Some? ==> p.frame.value in t.sections[p.head]) then t else Added(t, p)
  }

  lemma NotedTabulates(t: Table, placements: set<Placement>, p: Placement)
    requires Tabulates(t, placements)
    ensures Tabulates(Noted(t, p), placements + {p})
  {
    if p.head in t.sections && (p.frame.Some? ==> p.frame.value in t.sections[p.head]) {
      forall h | h in t.sections
        ensures exists q :: q in placements + {p} && q.head == h
      {
        var q :| q in placements && q.head == h;
        assert q in placements + {p};
      }
    } else {
      AddedTabulates(t, placements, p);
    }
  }

  lemma GroupStep(lib: Library, head: Frame, attached: seq<Frame>, f: Frame)
    ensures Exportable(lib, GroupPlacements(Group(head, attached + [f])))
            == Exportable(lib, GroupPlacements(Group(head, attached)))
              + if IsLocalCertification(lib, f) then {} else {Placement(head, Some(f))}
    ensures Exportable(lib, GroupPlacements(Group(head, []))) == {Placement(head, None)}
  {
  }

  lemma NoteStep(lib: Library, t: Table, placements: set<Placement>, head: Frame, attached: seq<Frame>, f: Frame)
    requires Tabulates(t, placements + Exportable(lib, GroupPlacements(Group(head, attached))))
    ensures Tabulates(if IsLocalCertification(lib, f) then t else Noted(t, Placement(head, Some(f))),
                      placements + Exportable(lib, GroupPlacements(Group(head, attached + [f]))))
  {
    GroupStep(lib, head, attached, f);
    var before, p := Exportable(lib, GroupPlacements(Group(head, attached))), Placement(head, Some(f));
    if IsLocalCertification(lib, f) {
      assert placements + (before + {}) == placements + before;
    } else {
      NotedTabulates(t, placements + before, p);
      assert placements + before + {p} == placements + (before + {p});
    }
  }

  method NoteAttached(lib: Library, before: Table, head: Frame, f: Frame, ghost placements: set<Placement>,
                      ghost attached: seq<Frame>)
    returns (t: Table)
    requires Tabulates(before, placements + Exportable(lib, GroupPlacements(Group(head, attached))))
    ensures Tabulates(t, placements + Exportable(lib, GroupPlacements(Group(head, attached + [f]))))
  {
    NoteStep(lib, before, placements, head, attached, f);
    t := if IsLocalCertification(lib, f) then before else Noted(before, Placement(head, Some(f)));
  }

  method NoteGroup(lib: Library, before: Table, g: Group, ghost placements: set<Placement>) returns (t: Table)
    requires Tabulates(before, placements)
    ensures Tabulates(t, placements + Exportable(lib, GroupPlacements(g)))
  {
    hide Tabulates, Noted, Exportable, GroupPlacements;
    t := Noted(before, Placement(g.head, None));
    NotedTabulates(before, placements, Placement(g.head, None));
    GroupStep(lib, g.head, [], g.head);
    for i := 0 to |g.attached|
      invariant Tabulates(t, placements + Exportable(lib, GroupPlacements(Group(g.head, g.attached[..i]))))
    {
      assert g.attached[..i + 1] == g.attached[..i] + [g.attached[i]];
      t := NoteAttached(lib, t, g.head, g.attached[i], placements, g.attached[..i]);
    }
    assert g.attached[..|g.attached|] == g.attached;
    assert g == Group(g.head, g.attached);
  }

  lemma GroupsStep(lib: Library, groups: seq<Group>, i: nat)
    requires i < |groups|
    ensures Exportable(lib, GroupedPlacements(groups[..i + 1]))
            == Exportable(lib, GroupedPlacements(groups[..i])) + Exportable(lib, GroupPlacements(groups[i]))
  {
    assert groups[..i + 1][..i] == groups[..i];
  }

  lemma UnionAssociates<T>(a: set<T>, b: set<T>, c: set<T>)
    ensures a + b + c == a + (b + c)
  {
  }

  method NoteGroups(lib: Library, before: Table, groups: seq<Group>, ghost placements: set<Placement>)
    returns (t: Table)
    requires Tabulates(before, placements)
    ensures Tabulates(t, placements + Exportable(lib, GroupedPlacements(groups)))
  {
    t := before;
    ghost var noted: set<Placement> := {};
    assert placements + noted == placements;
    for i := 0 to |groups|
      invariant Tabulates(t, placements + noted)
      invariant noted == Exportable(lib, GroupedPlacements(groups[..i]))
    {
      t := NoteGroup(lib, t, groups[i], placements + noted);
      GroupsStep(lib, groups, i);
      ghost var more := Exportable(lib, GroupPlacements(groups[i]));
      UnionAssociates(placements, noted, more);
      noted := noted + more;
    }
    assert groups[..|groups|] == groups;
  }

  method MergeCertificateBlocks(lib: Library, blocks: seq<Bytes>) returns (r: Result<Bytes, CertificateError>)
    ensures r == MergeOf(lib, blocks)
  {
    if blocks == [] {
      return Err(NoBlocks);
    }
    var grouped: seq<seq<Group>>, refused := GroupBlocks(blocks);
    if refused.Some? {
      return Err(refused.value);
    }
    NothingRefused(blocks);
    var primary := grouped[0][0].head;
    var differing := exists i :: 0 <= i < |grouped| && grouped[i][0].head.body != primary.body;
    PrimariesAgree(blocks, grouped, differing);
    if differing {
      return Err(DifferentPrimaries);
    }
    var t := MergedTable(lib, blocks, grouped);
    r := Finish(lib, t, primary, Union(lib, blocks));
  }

  method Finish(lib: Library, t: Table, primary: Frame, ghost placements: set<Placement>)
    returns (r: Result<Bytes, CertificateError>)
    requires Tabulates(t, placements)
    ensures r == Finished(lib, placements, primary)
  {
    var ids := lib.parsePrimary(primary.body);
    if ids.None? {
      return Err(NotAPublicKey);
    }
    ghost var u := Gathered(Listing(placements));
    GatheredTabulates(Listing(placements));
    TablesAgree(t, u, placements);
    EmittedForgetsOrder(lib, t.heads, t.sections, u.heads, u.sections, primary, ids.value, true);
    return Checked(lib, FramedAll(Emitted(lib, t.heads, t.sections, primary, ids.value, true)), primary);
  }

  predicate GroupsOf(groups: seq<Group>, block: Bytes) {
    ReadBlock(block).Ok? && groups != [] && groups[0].head == ReadBlock(block).value[0]
    && GroupedPlacements(groups) == BlockPlacements(ReadBlock(block).value)
  }

  predicate Grouping(grouped: seq<seq<Group>>, blocks: seq<Bytes>) {
    |grouped| == |blocks| && forall i {:trigger grouped[i]} | 0 <= i < |blocks| :: GroupsOf(grouped[i], blocks[i])
  }

  method GroupBlocks(blocks: seq<Bytes>) returns (grouped: seq<seq<Group>>, refused: Option<CertificateError>)
    ensures refused == RefusedBlock(blocks)
    ensures refused.None? ==> Grouping(grouped, blocks)
  {
    hide ReadBlock, GroupsOf;
    grouped := [];
    for i := 0 to |blocks|
      invariant RefusedBlock(blocks[..i]).None?
      invariant Grouping(grouped, blocks[..i])
    {
      var groups := CertificateGroups(blocks[i]);
      RefusedStep(blocks, i);
      if groups.Err? {
        RefusalStands(blocks, i + 1);
        return grouped, Some(groups.error);
      }
      grouped := grouped + [groups.value];
    }
    assert blocks[..|blocks|] == blocks;
    refused := None;
  }

  lemma RefusedStep(blocks: seq<Bytes>, i: nat)
    requires i < |blocks| && RefusedBlock(blocks[..i]).None?
    ensures RefusedBlock(blocks[..i + 1])
      == if ReadBlock(blocks[i]).Err? then Some(ReadBlock(blocks[i]).error) else None
  {
    assert blocks[..i + 1][..i] == blocks[..i];
  }

  lemma {:induction false} RefusalStands(blocks: seq<Bytes>, n: nat)
    requires n <= |blocks| && RefusedBlock(blocks[..n]).Some?
    ensures RefusedBlock(blocks) == RefusedBlock(blocks[..n])
    decreases |blocks|
  {
    if n < |blocks| {
      var front := blocks[..|blocks| - 1];
      assert front[..n] == blocks[..n];
      RefusalStands(front, n);
    } else {
      assert blocks[..n] == blocks;
    }
  }

  lemma PrimariesAgree(blocks: seq<Bytes>, grouped: seq<seq<Group>>, differing: bool)
    requires Grouping(grouped, blocks)
    requires grouped != []
    requires differing == exists i :: 0 <= i < |grouped| && grouped[i][0].head.body != grouped[0][0].head.body
    ensures SamePrimaries(blocks) == !differing
  {
    if differing {
      var i :| 0 <= i < |grouped| && grouped[i][0].head.body != grouped[0][0].head.body;
      assert PrimaryBody(blocks[i]) != PrimaryBody(blocks[0]);
    } else {
      forall b | b in blocks
        ensures PrimaryBody(b) == Some(grouped[0][0].head.body)
      {
        var i :| 0 <= i < |blocks| && blocks[i] == b;
        assert GroupsOf(grouped[i], blocks[i]);
      }
    }
  }

  method MergedTable(lib: Library, blocks: seq<Bytes>, grouped: seq<seq<Group>>) returns (t: Table)
    requires Grouping(grouped, blocks)
    ensures Tabulates(t, Union(lib, blocks))
  {
    t := Table([], map[]);
    for i := 0 to |blocks|
      invariant Tabulates(t, Union(lib, blocks[..i]))
    {
      assert blocks[..i + 1][..i] == blocks[..i];
      t := NoteGroups(lib, t, grouped[i], Union(lib, blocks[..i]));
    }
    assert blocks[..|blocks|] == blocks;
  }

  // ----- merging is a join -----

  /** Blocks that read as certificates of one primary key. */
  predicate Mergeable(blocks: seq<Bytes>) {
    blocks != [] && (forall b | b in blocks :: ReadBlock(b).Ok?) && SamePrimaries(blocks)
  }

  function CommonPrimary(blocks: seq<Bytes>): Frame
    requires Mergeable(blocks)
  {
    ReadBlock(blocks[0]).value[0]
  }

  lemma MergeOfMergeable(lib: Library, blocks: seq<Bytes>)
    ensures MergeOf(lib, blocks).Ok? ==> Mergeable(blocks)
    ensures Mergeable(blocks) ==> MergeOf(lib, blocks) == Finished(lib, Union(lib, blocks), CommonPrimary(blocks))
  {
    NothingRefused(blocks);
  }

  lemma PrimaryOfBlock(blocks: seq<Bytes>, b: Bytes)
    requires Mergeable(blocks) && b in blocks
    ensures ReadBlock(b).value[0] == CommonPrimary(blocks)
  {
    assert PrimaryBody(b) == PrimaryBody(blocks[0]);
  }

  predicate Contributes(lib: Library, b: Bytes, p: Placement) {
    ReadBlock(b).Ok? && p in BlockPlacements(ReadBlock(b).value) && IsExportable(lib, p)
  }

  lemma {:induction false} UnionMembers(lib: Library, blocks: seq<Bytes>, p: Placement)
    ensures p in Union(lib, blocks) <==> exists b :: b in blocks && Contributes(lib, b, p)
  {
    if blocks != [] {
      var n := |blocks| - 1;
      UnionMembers(lib, blocks[..n], p);
      assert forall b :: b in blocks <==> b in blocks[..n] || b == blocks[n] by {
        assert blocks == blocks[..n] + [blocks[n]];
      }
      assert p in Union(lib, blocks) <==> p in Union(lib, blocks[..n]) || Contributes(lib, blocks[n], p);
      if b :| b in blocks[..n] && Contributes(lib, b, p) {
        assert b in blocks;
      }
    }
  }

  lemma {:induction false} PlacementsShape(head: Frame, frames: seq<Frame>)
    requires forall f | f in frames :: f.tag != PRIMARY_KEY_TAG && !IsSkippable(f.tag)
    ensures forall p | p in PlacementsFrom(head, frames) ::
              (p.head == head || (IsComponent(p.head.tag) && Placement(p.head, None) in PlacementsFrom(head, frames)))
              && (p.frame.Some? ==> IsAttachment(p.frame.value))
    decreases frames
  {
    if frames != [] {
      PlacementsShape(if IsComponent(frames[0].tag) then frames[0] else head, frames[1..]);
    }
  }

  lemma BlockIsFragment(block: Bytes)
    requires ReadBlock(block).Ok?
    ensures var frames := ReadBlock(block).value; var all := BlockPlacements(frames);
            IsFragment(all, frames[0]) && Grounded(all, frames[0]) && Placement(frames[0], None) in all
  {
    var frames := ReadBlock(block).value;
    PlacementsShape(frames[0], Filter(frames[1..], NotSkippable()));
  }

  /** What several blocks hold together is a well-formed certificate. */
  lemma UnionIsCertificate(lib: Library, blocks: seq<Bytes>)
    requires Mergeable(blocks) && lib.parsePrimary(CommonPrimary(blocks).body).Some?
    ensures IsCertificate(lib, Union(lib, blocks), CommonPrimary(blocks))
  {
    var primary, u := CommonPrimary(blocks), Union(lib, blocks);
    forall p | p in u
      ensures (p.head == primary || (IsComponent(p.head.tag) && Placement(p.head, None) in u))
        && (p.frame.Some? ==> IsAttachment(p.frame.value))
    {
      UnionMembers(lib, blocks, p);
      var b :| b in blocks && Contributes(lib, b, p);
      PrimaryOfBlock(blocks, b);
      BlockIsFragment(b);
      if p.head != primary {
        assert Contributes(lib, b, Placement(p.head, None));
        UnionMembers(lib, blocks, Placement(p.head, None));
      }
    }
    BlockIsFragment(blocks[0]);
    assert Contributes(lib, blocks[0], Placement(primary, None));
    UnionMembers(lib, blocks, Placement(primary, None));
  }

  lemma FinishedIsFragment(lib: Library, placements: set<Placement>, primary: Frame)
    requires IsCertificate(lib, placements, primary)
    ensures FragmentOf(lib, placements, None).Ok?
    ensures Finished(lib, placements, primary) == Checked(lib, FragmentOf(lib, placements, None).value, primary)
  {
    var t := Gathered(Listing(placements));
    GatheredTabulates(Listing(placements));
    ChosenUnder(t, placements, primary);
    SinglePrimary(t, placements, primary);
  }

  /** The merged certificate holds exactly the union of the blocks' placements, without the packets
      that certificates skip and without local certifications. */
  lemma MergeIsUnion(lib: Library, blocks: seq<Bytes>)
    requires MergeOf(lib, blocks).Ok?
    ensures ParsedFragment(MergeOf(lib, blocks).value, None) == Ok(Union(lib, blocks))
  {
    MergeOfMergeable(lib, blocks);
    UnionIsCertificate(lib, blocks);
    FinishedIsFragment(lib, Union(lib, blocks), CommonPrimary(blocks));
    CertificateRoundTrip(lib, Union(lib, blocks), CommonPrimary(blocks));
  }

  lemma {:induction false} FilterAll<T(!new)>(xs: seq<T>, p: T -> bool)
    requires forall x | x in xs :: p(x)
    ensures Filter(xs, p) == xs
  {
    if xs != [] {
      FilterAll(xs[1..], p);
    }
  }

  lemma ParsedBlock(data: Bytes, placements: set<Placement>)
    requires ParsedFragment(data, None) == Ok(placements)
    ensures ReadBlock(data).Ok? && BlockPlacements(ReadBlock(data).value) == placements
  {
    var frames := Frames(data).value;
    FilterAll(frames[1..], NotSkippable());
  }

  /** A merged certificate, read as a block, contributes what it was merged from. */
  lemma MergedContributes(lib: Library, blocks: seq<Bytes>)
    requires MergeOf(lib, blocks).Ok?
    ensures Mergeable(blocks)
    ensures var d := MergeOf(lib, blocks).value;
            ReadBlock(d).Ok? && ReadBlock(d).value[0] == CommonPrimary(blocks)
            && forall p :: Contributes(lib, d, p) <==> p in Union(lib, blocks)
  {
    hide MergeOf, Union;
    MergeOfMergeable(lib, blocks);
    UnionIsCertificate(lib, blocks);
    MergeIsUnion(lib, blocks);
    var d, u := MergeOf(lib, blocks).value, Union(lib, blocks);
    ParsedBlock(d, u);
    BlockIsFragment(d);
    forall p | p in u
      ensures IsExportable(lib, p)
    {
      UnionMembers(lib, blocks, p);
    }
  }

  /** Blocks of one primary key with the same union merge alike. */
  lemma MergeByUnion(lib: Library, xs: seq<Bytes>, ys: seq<Bytes>)
    requires Mergeable(xs) && Mergeable(ys) && CommonPrimary(xs) == CommonPrimary(ys)
    requires forall p :: p in Union(lib, xs) <==> p in Union(lib, ys)
    ensures MergeOf(lib, xs) == MergeOf(lib, ys)
  {
    assert Union(lib, xs) == Union(lib, ys);
    MergeOfMergeable(lib, xs);
    MergeOfMergeable(lib, ys);
  }

  /** Reordering or repeating the blocks gives identical bytes. */
  lemma MergeForgetsOrder(lib: Library, xs: seq<Bytes>, ys: seq<Bytes>)
    requires Elements(xs) == Elements(ys) && MergeOf(lib, xs).Ok?
    ensures MergeOf(lib, ys) == MergeOf(lib, xs)
  {
    MergeOfMergeable(lib, xs);
    forall b
      ensures b in xs <==> b in ys
    {
      assert b in Elements(xs) <==> b in Elements(ys);
    }
    assert xs[0] in ys;
    assert Mergeable(ys);
    PrimaryOfBlock(xs, ys[0]);
    forall p
      ensures p in Union(lib, xs) <==> p in Union(lib, ys)
    {
      UnionMembers(lib, xs, p);
      UnionMembers(lib, ys, p);
    }
    MergeByUnion(lib, xs, ys);
  }

  lemma MergeOfOthers(lib: Library, blocks: seq<Bytes>)
    requires blocks != [] && !Mergeable(blocks)
    ensures MergeOf(lib, blocks)
      == Err(if RefusedBlock(blocks).Some? then RefusedBlock(blocks).value else DifferentPrimaries)
  {
    NothingRefused(blocks);
  }

  /** After blocks that are not refused, the first that is refused is the first of the rest. */
  lemma {:induction false} RefusedAfter(blocks: seq<Bytes>, ys: seq<Bytes>)
    requires RefusedBlock(blocks).None?
    ensures RefusedBlock(blocks + ys) == RefusedBlock(ys)
    decreases |ys|
  {
    if ys == [] {
      assert blocks + ys == blocks;
    } else {
      assert (blocks + ys)[..|blocks + ys| - 1] == blocks + ys[..|ys| - 1];
      RefusedAfter(blocks, ys[..|ys| - 1]);
    }
  }

  lemma RefusedTogether(xs: seq<Bytes>, d: Bytes, ys: seq<Bytes>)
    requires Mergeable(xs) && ReadBlock(d).Ok?
    ensures RefusedBlock([d] + ys) == RefusedBlock(xs + ys)
  {
    NothingRefused(xs);
    NothingRefused([d]);
    RefusedAfter(xs, ys);
    RefusedAfter([d], ys);
  }

  /** Merging in two steps is merging at once, and fails as merging at once does. */
  lemma MergeAssociates(lib: Library, xs: seq<Bytes>, ys: seq<Bytes>)
    requires MergeOf(lib, xs).Ok?
    ensures MergeOf(lib, [MergeOf(lib, xs).value] + ys) == MergeOf(lib, xs + ys)
  {
    hide MergeOf, Mergeable, Contributes, Union, RefusedBlock, ReadBlock;
    var d := MergeOf(lib, xs).value;
    var merged := [d] + ys;
    MergedContributes(lib, xs);
    MergeableTogether(lib, xs, d, ys);
    if Mergeable(merged) {
      forall p
        ensures p in Union(lib, merged) <==> p in Union(lib, xs + ys)
      {
        UnionWithMerged(lib, xs, d, ys, p);
      }
      MergeByUnion(lib, merged, xs + ys);
    } else {
      RefusedTogether(xs, d, ys);
      NotEmpty(xs);
      MergeOfOthers(lib, merged);
      MergeOfOthers(lib, xs + ys);
    }
  }

  lemma NotEmpty(blocks: seq<Bytes>)
    requires Mergeable(blocks)
    ensures blocks != []
  {
  }

  lemma UnionWithMerged(lib: Library, xs: seq<Bytes>, d: Bytes, ys: seq<Bytes>, p: Placement)
    requires Contributes(lib, d, p) <==> p in Union(lib, xs)
    ensures p in Union(lib, [d] + ys) <==> p in Union(lib, xs + ys)
  {
    hide Contributes, Union;
    UnionMembers(lib, xs, p);
    UnionMembers(lib, [d] + ys, p);
    UnionMembers(lib, xs + ys, p);
    assert forall b :: b in [d] + ys <==> b == d || b in ys;
    assert forall b :: b in xs + ys <==> b in xs || b in ys;
  }

  lemma MergeableTogether(lib: Library, xs: seq<Bytes>, d: Bytes, ys: seq<Bytes>)
    requires Mergeable(xs) && ReadBlock(d).Ok? && ReadBlock(d).value[0] == CommonPrimary(xs)
    ensures Mergeable([d] + ys) <==> Mergeable(xs + ys)
    ensures Mergeable([d] + ys) ==> CommonPrimary([d] + ys) == CommonPrimary(xs + ys)
  {
    assert PrimaryBody(d) == PrimaryBody(xs[0]);
    assert forall b :: b in [d] + ys <==> b == d || b in ys;
    assert forall b :: b in xs + ys <==> b in xs || b in ys;
    assert xs[0] in xs;
    assert (xs + ys)[0] == xs[0];
  }

  /** Merging a merged certificate again changes nothing. */
  lemma MergeIsIdempotent(lib: Library, xs: seq<Bytes>)
    requires MergeOf(lib, xs).Ok?
    ensures MergeOf(lib, [MergeOf(lib, xs).value]) == MergeOf(lib, xs)
  {
    MergeAssociates(lib, xs, []);
    assert xs + [] == xs;
    assert [MergeOf(lib, xs).value] + [] == [MergeOf(lib, xs).value];
  }
}
