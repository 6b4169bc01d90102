/** Certificates as sets of placements: a head packet, alone or with one packet attached to it.
    Section 10.1 of RFC 9580 gives the structure that printing and parsing follow. */
module Certificates {
  import opened Wrappers
  import opened Sorting
  import opened Packets
  import PacketStreams
  import opened CertificateOrder

  datatype Placement = Placement(head: Frame, frame: Option<Frame>)

  datatype CertificateError =
    | BadPacket(error: PacketError) | SkippablePacket | NoPrimary | ExtraPrimary
    | NotOnePrimary | AnotherPrimary | NotAPublicKey
    | NoSharedPrimary
    | NoBlocks | DifferentPrimaries | EmptyPrimary | Refused

  predicate IsComponent(tag: nat) {
    tag == USER_ID_TAG || tag == USER_ATTRIBUTE_TAG || tag == PUBLIC_SUBKEY_TAG
  }

  predicate IsSkippable(tag: nat) {
    tag == 10 || tag == 12 || tag == 21
  }

  /** A packet that attaches to the head before it. */
  predicate IsAttachment(f: Frame) {
    !IsComponent(f.tag) && !IsSkippable(f.tag) && f.tag != PRIMARY_KEY_TAG
  }

  // ----- parsing -----

  function PlacementsFrom(head: Frame, frames: seq<Frame>): set<Placement>
    decreases frames
  {
    if frames == [] then {}
    else if IsComponent(frames[0].tag) then {Placement(frames[0], None)} + PlacementsFrom(frames[0], frames[1..])
    else {Placement(head, Some(frames[0]))} + PlacementsFrom(head, frames[1..])
  }

  function ParsedFrames(frames: seq<Frame>, primary: Option<Frame>): Result<set<Placement>, CertificateError> {
    if exists f :: f in frames && IsSkippable(f.tag) then Err(SkippablePacket)
    else if primary.None? && (frames == [] || frames[0].tag != PRIMARY_KEY_TAG) then Err(NoPrimary)
    else
      var head := if primary.None? then frames[0] else primary.value;
      var rest := if primary.None? then frames[1..] else frames;
      if exists f :: f in rest && f.tag == PRIMARY_KEY_TAG then Err(ExtraPrimary)
      else Ok((if primary.None? then {Placement(head, None)} else {}) + PlacementsFrom(head, rest))
  }

  function ParsedFragment(data: Bytes, primary: Option<Frame>): Result<set<Placement>, CertificateError> {
    match Frames(data)
    case Err(e) => Err(BadPacket(e))
    case Ok(frames) => ParsedFrames(frames, primary)
  }

  /** Attaches each packet to the last head before it. */
  method CollectPlacements(primary: Frame, frames: seq<Frame>) returns (placements: set<Placement>)
    ensures placements == PlacementsFrom(primary, frames)
  {
    placements := {};
    var head := primary;
    for i := 0 to |frames|
      invariant placements + PlacementsFrom(head, frames[i..]) == PlacementsFrom(primary, frames)
    {
      assert frames[i..][1..] == frames[i + 1..];
      if IsComponent(frames[i].tag) {
        head := frames[i];
        placements := placements + {Placement(head, None)};
      } else {
        placements := placements + {Placement(head, Some(frames[i]))};
      }
    }
  }

  method FragmentPlacements(data: Bytes, primary: Option<Frame>) returns (r: Result<set<Placement>, CertificateError>)
    ensures r == ParsedFragment(data, primary)
  {
    var read := Frames(data);
    if read.Err? {
      return Err(BadPacket(read.error));
    }
    var frames := read.value;
    if exists f :: f in frames && IsSkippable(f.tag) {
      return Err(SkippablePacket);
    }
    if primary.None? && (frames == [] || frames[0].tag != PRIMARY_KEY_TAG) {
      return Err(NoPrimary);
    }
    var head: Frame := if primary.None? then frames[0] else primary.value;
    var rest: seq<Frame> := if primary.None? then frames[1..] else frames;
    if exists f :: f in rest && f.tag == PRIMARY_KEY_TAG {
      return Err(ExtraPrimary);
    }
    var placements := CollectPlacements(head, rest);
    return Ok((if primary.None? then {Placement(head, None)} else {}) + placements);
  }

  // ----- printing -----

  /** The sections gathered from placements, with the heads in the order they were first met. */
  datatype Table = Table(heads: seq<Frame>, sections: Sections)

  function Added(t: Table, p: Placement): Table {
    var u := if p.head in t.sections then t else Table(t.heads + [p.head], t.sections[p.head := []]);
    if p.frame.None? then u else Table(u.heads, u.sections[p.head := Attached(u.sections, p.head) + [p.frame.value]])
  }

  function Gathered(placements: seq<Placement>): Table {
    if placements == [] then Table([], map[])
    else Added(Gathered(placements[..|placements| - 1]), placements[|placements| - 1])
  }

  function ChosenPrimary(heads: seq<Frame>, primary: Option<Frame>): Result<Frame, CertificateError> {
    var primaries := Filter(heads, Tagged(PRIMARY_KEY_TAG));
    if primary.None? && |primaries| != 1 then Err(NotOnePrimary)
    else
      var chosen := if primary.None? then primaries[0] else primary.value;
      if exists h :: h in primaries && h != chosen then Err(AnotherPrimary) else Ok(chosen)
  }

  function Written(lib: Library, t: Table, placements: set<Placement>, primary: Option<Frame>): Result<Bytes,
                                                                                                       CertificateError>
  {
    match ChosenPrimary(t.heads, primary)
    case Err(e) => Err(e)
    case Ok(chosen) =>
      match if chosen.tag == PRIMARY_KEY_TAG then lib.parsePrimary(chosen.body) else None
      case None => Err(NotAPublicKey)
      case Some(ids) => Ok(FramedAll(Emitted(lib, t.heads, t.sections, chosen, ids,
                                             Placement(chosen, None) in placements)))
  }

  /** The bytes of a set of placements, whatever order the set is listed in. */
  ghost function FragmentOf(lib: Library, placements: set<Placement>, primary: Option<Frame>): Result<Bytes,
                                                                                                      CertificateError>
  {
    Written(lib, Gathered(Listing(placements)), placements, primary)
  }

  /** Prints a set that is met in an arbitrary order. */
  method FragmentBytes(lib: Library, order: seq<Placement>, primary: Option<Frame>)
    returns (r: Result<Bytes, CertificateError>)
    requires NoDuplicates(order)
    ensures r == FragmentOf(lib, Elements(order), primary)
  {
    var heads: seq<Frame> := [];
    var sections: Sections := map[];
    for i := 0 to |order|
      invariant Table(heads, sections) == Gathered(order[..i])
    {
      assert order[..i + 1][..i] == order[..i];
      var head := order[i].head;
      if head !in sections {
        heads := heads + [head];
        sections := sections[head := []];
      }
      if order[i].frame.Some? {
        sections := sections[head := sections[head] + [order[i].frame.value]];
      }
    }
    assert order[..|order|] == order;
    r := Written(lib, Table(heads, sections), Elements(order), primary);
    WrittenForgetsOrder(lib, order, Listing(Elements(order)), primary);
  }

  /** The primary keys that a set of placements is under. */
  ghost function PrimaryHeads(placements: set<Placement>): set<Frame> {
    set p | p in placements && p.head.tag == 6 :: p.head
  }

  /** Printing fails exactly when the primary key to print under is not clear, or is not a key that can be read. */
  lemma PrintingFails(lib: Library, placements: set<Placement>, primary: Option<Frame>)
    ensures var r, primaries := FragmentOf(lib, placements, primary), PrimaryHeads(placements);
            if primary.None? && |primaries| != 1 then r == Err(NotOnePrimary)
            else if primary.Some? && exists h :: h in primaries && h != primary.value then r == Err(AnotherPrimary)
            else forall h | primary == Some(h) || (primary.None? && h in primaries) ::
                   if h.tag != 6 || lib.parsePrimary(h.body).None? then r == Err(NotAPublicKey) else r.Ok?
  {
    hide Emitted, FramedAll, Gathered, ChosenPrimary, PrimaryHeads;
    var t := Gathered(Listing(placements));
    GatheredTabulates(Listing(placements));
    ChoosingFails(t, placements, primary);
    var r, primaries := FragmentOf(lib, placements, primary), PrimaryHeads(placements);
    if ChosenPrimary(t.heads, primary).Ok? {
      forall h | primary == Some(h) || (primary.None? && h in primaries)
        ensures if h.tag != 6 || lib.parsePrimary(h.body).None? then r == Err(NotAPublicKey) else r.Ok?
      {
        assert ChosenPrimary(t.heads, primary) == Ok(h);
      }
    }
  }

  lemma ChoosingFails(t: Table, placements: set<Placement>, primary: Option<Frame>)
    requires Tabulates(t, placements)
    ensures var r, primaries := ChosenPrimary(t.heads, primary), PrimaryHeads(placements);
            if primary.None? && |primaries| != 1 then r == Err(NotOnePrimary)
            else if primary.Some? && exists h :: h in primaries && h != primary.value then r == Err(AnotherPrimary)
            else r.Ok? && forall h | primary == Some(h) || (primary.None? && h in primaries) :: r == Ok(h)
  {
    hide PrimaryHeads, Tabulates, Filter;
    var heads, primaries := Filter(t.heads, Tagged(PRIMARY_KEY_TAG)), PrimaryHeads(placements);
    HeadsArePrimaries(t, placements);
    if |primaries| == 1 {
      assert heads[0] in heads;
      OnlyElement(primaries, heads[0]);
    }
  }

  lemma HeadsArePrimaries(t: Table, placements: set<Placement>)
    requires Tabulates(t, placements)
    ensures var heads, primaries := Filter(t.heads, Tagged(PRIMARY_KEY_TAG)), PrimaryHeads(placements);
            |heads| == |primaries| && forall h :: h in heads <==> h in primaries
  {
    var heads, primaries := Filter(t.heads, Tagged(PRIMARY_KEY_TAG)), PrimaryHeads(placements);
    FilterNoDuplicates(t.heads, Tagged(PRIMARY_KEY_TAG));
    forall h
      ensures h in heads <==> h in primaries
    {
      if h in heads {
        var p :| p in placements && p.head == h;
      }
    }
    assert Elements(heads) == primaries;
    DistinctCount(heads);
  }

  lemma {:induction false} DistinctCount<T>(xs: seq<T>)
    requires NoDuplicates(xs)
    ensures |Elements(xs)| == |xs|
  {
    if xs != [] {
      var n := |xs| - 1;
      DistinctCount(xs[..n]);
      ElementsOfLast(xs);
    }
  }

  lemma OnlyElement<T>(s: set<T>, x: T)
    requires |s| == 1 && x in s
    ensures s == {x}
  {
    assert |s - {x}| == 0;
  }

  // ----- the table of a set -----

  /** The table lists the heads of the set, and for each head what is attached to it. */
  ghost predicate Tabulates(t: Table, placements: set<Placement>) {
    NoDuplicates(t.heads) && (forall h :: h in t.heads <==> h in t.sections)
    && (forall p | p in placements :: p.head in t.sections && (p.frame.Some? ==> p.frame.value in t.sections[p.head]))
    && (forall h | h in t.sections :: NoDuplicates(t.sections[h]) && (exists p :: p in placements && p.head == h)
                                      && forall f | f in t.sections[h] :: Placement(h, Some(f)) in placements)
  }

  lemma AddedTabulates(t: Table, placements: set<Placement>, p: Placement)
    requires Tabulates(t, placements) && p !in placements
    ensures Tabulates(Added(t, p), placements + {p})
  {
    var u := if p.head in t.sections then t else Table(t.heads + [p.head], t.sections[p.head := []]);
    var v := Added(t, p);
    assert NoDuplicates(u.heads);
    assert forall h :: h in v.heads <==> h in v.sections;
    forall h | h in v.sections
      ensures NoDuplicates(v.sections[h]) && (exists q :: q in placements + {p} && q.head == h)
      ensures forall f | f in v.sections[h] :: Placement(h, Some(f)) in placements + {p}
    {
      if h != p.head {
        assert h in t.sections && v.sections[h] == t.sections[h];
        var q :| q in placements && q.head == h;
        assert q in placements + {p};
      } else {
        assert p in placements + {p};
        if p.frame.Some? {
          assert p.frame.value !in Attached(u.sections, h);
        }
      }
    }
  }

  lemma ElementsOfLast<T>(xs: seq<T>)
    requires xs != []
    ensures Elements(xs) == Elements(xs[..|xs| - 1]) + {xs[|xs| - 1]}
  {
    assert xs == xs[..|xs| - 1] + [xs[|xs| - 1]];
  }

  lemma {:induction false} GatheredTabulates(order: seq<Placement>)
    requires NoDuplicates(order)
    ensures Tabulates(Gathered(order), Elements(order))
  {
    if order != [] {
      var n := |order| - 1;
      GatheredTabulates(order[..n]);
      ElementsOfLast(order);
      AddedTabulates(Gathered(order[..n]), Elements(order[..n]), order[n]);
    }
  }

  lemma TablesAgree(t: Table, u: Table, placements: set<Placement>)
    requires Tabulates(t, placements) && Tabulates(u, placements)
    ensures SameTables(t.heads, t.sections, u.heads, u.sections)
  {
    forall h
      ensures h in t.heads <==> h in u.heads
    {
    }
    forall h | h in t.sections
      ensures Elements(t.sections[h]) == Elements(u.sections[h])
    {
      forall f
        ensures f in t.sections[h] <==> f in u.sections[h]
      {
      }
    }
  }

  lemma PrimariesForgetOrder(t: seq<Frame>, u: seq<Frame>)
    requires NoDuplicates(t) && NoDuplicates(u) && Elements(t) == Elements(u)
    ensures var a, b := Filter(t, Tagged(PRIMARY_KEY_TAG)), Filter(u, Tagged(PRIMARY_KEY_TAG));
            |a| == |b| && forall h :: h in a <==> h in b
  {
    var a, b := Filter(t, Tagged(PRIMARY_KEY_TAG)), Filter(u, Tagged(PRIMARY_KEY_TAG));
    FilterNoDuplicates(t, Tagged(PRIMARY_KEY_TAG));
    FilterNoDuplicates(u, Tagged(PRIMARY_KEY_TAG));
    forall h
      ensures h in a <==> h in b
    {
      assert h in t <==> h in Elements(t);
      assert h in u <==> h in Elements(u);
    }
    assert Elements(a) == Elements(b);
    EnumerationsMatch(a, b);
    SameElements(a, b);
  }

  lemma ChosenForgetsOrder(t: seq<Frame>, u: seq<Frame>, primary: Option<Frame>)
    requires NoDuplicates(t) && NoDuplicates(u) && Elements(t) == Elements(u)
    ensures ChosenPrimary(t, primary) == ChosenPrimary(u, primary)
  {
    PrimariesForgetOrder(t, u);
    var a, b := Filter(t, Tagged(PRIMARY_KEY_TAG)), Filter(u, Tagged(PRIMARY_KEY_TAG));
    if |a| == 1 {
      assert a[0] in b;
    }
  }

  /** Printing depends only on the set of placements: two ways of listing it print the same bytes. */
  lemma WrittenForgetsOrder(lib: Library, a: seq<Placement>, b: seq<Placement>, primary: Option<Frame>)
    requires NoDuplicates(a) && NoDuplicates(b) && Elements(a) == Elements(b)
    ensures Written(lib, Gathered(a), Elements(a), primary) == Written(lib, Gathered(b), Elements(b), primary)
  {
    GatheredTabulates(a);
    GatheredTabulates(b);
    TablesWriteAlike(lib, Gathered(a), Gathered(b), Elements(a), primary);
  }

  lemma TablesWriteAlike(lib: Library, t: Table, u: Table, placements: set<Placement>, primary: Option<Frame>)
    requires Tabulates(t, placements) && Tabulates(u, placements)
    ensures Written(lib, t, placements, primary) == Written(lib, u, placements, primary)
  {
    hide Emitted, FramedAll, ChosenPrimary, Tabulates;
    TablesAgree(t, u, placements);
    ChosenForgetsOrder(t.heads, u.heads, primary);
    var chosen := ChosenPrimary(t.heads, primary);
    if chosen.Ok? {
      var ids := lib.parsePrimary(chosen.value.body);
      if ids.Some? {
        EmittedForgetsOrder(lib, t.heads, t.sections, u.heads, u.sections, chosen.value, ids.value,
                            Placement(chosen.value, None) in placements);
      }
    }
  }

  // ----- printing, then parsing -----

  /** A fragment under a primary key: every head is that primary or a component, every packet
      attached is one that attaches. */
  predicate IsFragment(placements: set<Placement>, primary: Frame) {
    primary.tag == PRIMARY_KEY_TAG
    && forall p | p in placements ::
      (p.head == primary || IsComponent(p.head.tag)) && (p.frame.Some? ==> IsAttachment(p.frame.value))
  }

  /** Every component of the fragment stands in it by itself too. */
  predicate Grounded(placements: set<Placement>, primary: Frame) {
    forall p | p in placements && p.head != primary :: Placement(p.head, None) in placements
  }

  /** The fragment with every component standing by itself. */
  function Closure(placements: set<Placement>, primary: Frame): set<Placement> {
    placements + set p | p in placements && p.head != primary :: Placement(p.head, None)
  }

  lemma GroundedClosure(placements: set<Placement>, primary: Frame)
    ensures Grounded(placements, primary) <==> Closure(placements, primary) == placements
  {
    if Closure(placements, primary) == placements {
      forall p | p in placements && p.head != primary
        ensures Placement(p.head, None) in placements
      {
        assert Placement(p.head, None) in Closure(placements, primary);
      }
    }
  }

  lemma {:induction false} AttachedRun(head: Frame, attached: seq<Frame>, rest: seq<Frame>)
    requires forall f | f in attached :: !IsComponent(f.tag)
    ensures forall p :: p in PlacementsFrom(head, attached + rest)
                        <==> (p.head == head && p.frame.Some? && p.frame.value in attached)
                             || p in PlacementsFrom(head, rest)
  {
    if attached == [] {
      assert attached + rest == rest;
    } else {
      AttachedRun(head, attached[1..], rest);
      assert (attached + rest)[1..] == attached[1..] + rest;
      assert attached == [attached[0]] + attached[1..];
    }
  }

  /** What the written sections parse to: each head, and each head with each of its attachments. */
  lemma {:induction false} SectionsParse(lib: Library, before: Frame, heads: seq<Frame>, sections: Sections)
    requires forall h | h in heads :: IsComponent(h.tag)
    requires forall h, f | h in sections && f in sections[h] :: !IsComponent(f.tag)
    ensures forall p :: p in PlacementsFrom(before, SectionFrames(lib, heads, sections))
                        <==> p.head in heads && (p.frame.Some? ==> p.frame.value in Attached(sections, p.head))
    decreases heads
  {
    if heads != [] {
      var h, rest := heads[0], SectionFrames(lib, heads[1..], sections);
      OrderedElements(lib, h, Attached(sections, h));
      SectionsParse(lib, h, heads[1..], sections);
      HeadedRun(before, h, Ordered(lib, h, Attached(sections, h)), rest);
      assert heads == [h] + heads[1..];
    }
  }

  lemma HeadedRun(before: Frame, head: Frame, attached: seq<Frame>, rest: seq<Frame>)
    requires IsComponent(head.tag) && forall f | f in attached :: !IsComponent(f.tag)
    ensures forall p :: p in PlacementsFrom(before, [head] + attached + rest)
                        <==> (p.head == head && (p.frame.Some? ==> p.frame.value in attached))
                             || p in PlacementsFrom(head, rest)
  {
    AttachedRun(head, attached, rest);
    assert ([head] + attached + rest)[1..] == attached + rest;
  }

  lemma SectionHeadsElements(lib: Library, heads: seq<Frame>, sections: Sections, ids: Ids)
    ensures forall h :: h in AllSectionHeads(lib, heads, sections, ids) <==> h in heads && IsComponent(h.tag)
  {
    var le := SectionOrder(lib, sections, ids);
    SortElements(Filter(heads, Tagged(USER_ID_TAG)), le);
    SortElements(Filter(heads, Tagged(USER_ATTRIBUTE_TAG)), le);
    SortElements(Filter(heads, Tagged(PUBLIC_SUBKEY_TAG)), le);
  }

  /** The packets written after the bare primary, if any. */
  function Remainder(lib: Library, t: Table, primary: Frame, ids: Ids): seq<Frame> {
    Ordered(lib, primary, Attached(t.sections, primary))
      + SectionFrames(lib, AllSectionHeads(lib, t.heads, t.sections, ids), t.sections)
  }

  lemma {:induction false} SectionFramesTags(lib: Library, heads: seq<Frame>, sections: Sections)
    requires forall h | h in heads :: IsComponent(h.tag)
    requires forall h, f | h in sections && f in sections[h] :: IsAttachment(f)
    ensures forall f | f in SectionFrames(lib, heads, sections) :: IsComponent(f.tag) || IsAttachment(f)
  {
    if heads != [] {
      OrderedElements(lib, heads[0], Attached(sections, heads[0]));
      SectionFramesTags(lib, heads[1..], sections);
    }
  }

  lemma RemainderTags(lib: Library, t: Table, placements: set<Placement>, primary: Frame, ids: Ids)
    requires Tabulates(t, placements) && IsFragment(placements, primary)
    ensures Clean(Remainder(lib, t, primary, ids))
  {
    SectionHeadsElements(lib, t.heads, t.sections, ids);
    TableAttachments(t, placements, primary);
    SectionFramesTags(lib, AllSectionHeads(lib, t.heads, t.sections, ids), t.sections);
    OrderedElements(lib, primary, Attached(t.sections, primary));
  }

  lemma TableAttachments(t: Table, placements: set<Placement>, primary: Frame)
    requires Tabulates(t, placements) && IsFragment(placements, primary)
    ensures forall h, f | h in t.sections && f in t.sections[h] :: IsAttachment(f)
  {
    forall h, f | h in t.sections && f in t.sections[h]
      ensures IsAttachment(f)
    {
      assert Placement(h, Some(f)) in placements;
    }
  }

  /** A placement the remainder spells out. */
  predicate IsWritten(t: Table, primary: Frame, p: Placement) {
    (p.head == primary && p.frame.Some? && p.frame.value in Attached(t.sections, primary))
    || (p.head in t.heads && IsComponent(p.head.tag)
      && (p.frame.Some? ==> p.frame.value in Attached(t.sections, p.head)))
  }

  lemma RemainderSpells(lib: Library, t: Table, placements: set<Placement>, primary: Frame, ids: Ids, p: Placement)
    requires Tabulates(t, placements) && IsFragment(placements, primary)
    ensures p in PlacementsFrom(primary, Remainder(lib, t, primary, ids)) <==> IsWritten(t, primary, p)
  {
    var heads := AllSectionHeads(lib, t.heads, t.sections, ids);
    SectionHeadsElements(lib, t.heads, t.sections, ids);
    TableAttachments(t, placements, primary);
    SectionsParse(lib, primary, heads, t.sections);
    var attached := Ordered(lib, primary, Attached(t.sections, primary));
    OrderedElements(lib, primary, Attached(t.sections, primary));
    AttachedRun(primary, attached, SectionFrames(lib, heads, t.sections));
  }

  lemma InClosure(t: Table, placements: set<Placement>, primary: Frame, p: Placement)
    requires Tabulates(t, placements) && IsFragment(placements, primary)
    ensures p in Closure(placements, primary) && p != Placement(primary, None) <==> IsWritten(t, primary, p)
  {
    if p.head in t.heads && IsComponent(p.head.tag) {
      var q :| q in placements && q.head == p.head;
      assert Placement(q.head, None) in Closure(placements, primary);
    }
    if p in Closure(placements, primary) && p !in placements {
      var q :| q in placements && q.head != primary && p == Placement(q.head, None);
      assert q.head in t.sections;
    }
  }

  lemma RemainderParses(lib: Library, t: Table, placements: set<Placement>, primary: Frame, ids: Ids)
    requires Tabulates(t, placements) && IsFragment(placements, primary)
    ensures PlacementsFrom(primary, Remainder(lib, t, primary, ids))
      == Closure(placements, primary) - {Placement(primary, None)}
  {
    forall p
      ensures p in PlacementsFrom(primary, Remainder(lib, t, primary, ids))
        <==> p in Closure(placements, primary) - {Placement(primary, None)}
    {
      RemainderSpells(lib, t, placements, primary, ids, p);
      InClosure(t, placements, primary, p);
    }
    SameMembers(PlacementsFrom(primary, Remainder(lib, t, primary, ids)),
                Closure(placements, primary) - {Placement(primary, None)});
  }

  lemma SameMembers<T(!new)>(a: set<T>, b: set<T>)
    requires forall x :: x in a <==> x in b
    ensures a == b
  {
  }

  lemma ChosenUnder(t: Table, placements: set<Placement>, primary: Frame)
    requires Tabulates(t, placements) && IsFragment(placements, primary)
    ensures ChosenPrimary(t.heads, Some(primary)) == Ok(primary)
  {
    forall h | h in Filter(t.heads, Tagged(PRIMARY_KEY_TAG))
      ensures h == primary
    {
      var p :| p in placements && p.head == h;
    }
  }

  lemma EmittedRemainder(lib: Library, t: Table, primary: Frame, ids: Ids, bare: bool)
    ensures Emitted(lib, t.heads, t.sections, primary, ids, bare)
      == (if bare then [primary] else []) + Remainder(lib, t, primary, ids)
  {
    RegroupFrames(if bare then [primary] else [], Ordered(lib, primary, Attached(t.sections, primary)),
                  SectionFrames(lib, AllSectionHeads(lib, t.heads, t.sections, ids), t.sections));
  }

  lemma RegroupFrames(a: seq<Frame>, b: seq<Frame>, c: seq<Frame>)
    ensures a + b + c == a + (b + c)
  {
  }

  /** Printing a fragment with its primary given always succeeds when the library reads the key. What is
      written after the bare primary, if that is in the fragment, parses to everything else in the closure. */
  lemma PrintsUnder(lib: Library, placements: set<Placement>, primary: Frame) returns (frames: seq<Frame>)
    requires IsFragment(placements, primary) && lib.parsePrimary(primary.body).Some?
    ensures Clean(frames)
    ensures PlacementsFrom(primary, frames) == Closure(placements, primary) - {Placement(primary, None)}
    ensures FragmentOf(lib, placements, Some(primary))
            == Ok(FramedAll((if Placement(primary, None) in placements then [primary] else []) + frames))
    ensures Placement(primary, None) in placements
      ==> FragmentOf(lib, placements, None) == FragmentOf(lib, placements, Some(primary))
  {
    var t, ids := Gathered(Listing(placements)), lib.parsePrimary(primary.body).value;
    GatheredTabulates(Listing(placements));
    frames := Remainder(lib, t, primary, ids);
    RemainderTags(lib, t, placements, primary, ids);
    RemainderParses(lib, t, placements, primary, ids);
    WrittenUnder(lib, t, placements, primary);
  }

  lemma WrittenUnder(lib: Library, t: Table, placements: set<Placement>, primary: Frame)
    requires Tabulates(t, placements) && IsFragment(placements, primary) && lib.parsePrimary(primary.body).Some?
    ensures var ids, bare := lib.parsePrimary(primary.body).value, Placement(primary, None) in placements;
            Written(lib, t, placements, Some(primary))
              == Ok(FramedAll((if bare then [primary] else []) + Remainder(lib, t, primary, ids)))
            && (bare ==> Written(lib, t, placements, None) == Written(lib, t, placements, Some(primary)))
  {
    ChosenUnder(t, placements, primary);
    EmittedRemainder(lib, t, primary, lib.parsePrimary(primary.body).value, Placement(primary, None) in placements);
    if Placement(primary, None) in placements {
      SinglePrimary(t, placements, primary);
    }
  }

  predicate Clean(frames: seq<Frame>) {
    forall f | f in frames :: IsComponent(f.tag) || IsAttachment(f)
  }

  lemma ParsedUnder(frames: seq<Frame>, primary: Frame)
    requires Clean(frames)
    ensures ParsedFragment(FramedAll(frames), Some(primary)) == Ok(PlacementsFrom(primary, frames))
  {
    hide FramedAll, PlacementsFrom;
    PacketStreams.FramesOfFramed(frames);
    assert {} + PlacementsFrom(primary, frames) == PlacementsFrom(primary, frames);
  }

  lemma ParsedWhole(frames: seq<Frame>, primary: Frame)
    requires Clean(frames) && primary.tag == PRIMARY_KEY_TAG
    ensures ParsedFragment(FramedAll([primary] + frames), None)
      == Ok({Placement(primary, None)} + PlacementsFrom(primary, frames))
  {
    hide FramedAll, PlacementsFrom;
    PacketStreams.FramesOfFramed([primary] + frames);
    assert ([primary] + frames)[1..] == frames;
  }

  /** A fragment without its bare primary, printed and parsed under that primary, comes back with every
      component standing by itself. */
  lemma FragmentRoundTrip(lib: Library, placements: set<Placement>, primary: Frame)
    requires IsFragment(placements, primary) && lib.parsePrimary(primary.body).Some?
    requires Placement(primary, None) !in placements
    ensures FragmentOf(lib, placements, Some(primary)).Ok?
    ensures ParsedFragment(FragmentOf(lib, placements, Some(primary)).value, Some(primary))
      == Ok(Closure(placements, primary))
  {
    hide FragmentOf, ParsedFragment, FramedAll, PlacementsFrom, Clean;
    var frames := PrintsUnder(lib, placements, primary);
    var closed := Closure(placements, primary);
    assert closed - {Placement(primary, None)} == closed;
    assert [] + frames == frames;
    ParsedUnder(frames, primary);
  }

  /** A whole certificate, primary included, printed and parsed, comes back the same way. */
  lemma WholeRoundTrip(lib: Library, placements: set<Placement>, primary: Frame)
    requires IsFragment(placements, primary) && lib.parsePrimary(primary.body).Some?
    requires Placement(primary, None) in placements
    ensures FragmentOf(lib, placements, None) == FragmentOf(lib, placements, Some(primary))
    ensures FragmentOf(lib, placements, None).Ok?
    ensures ParsedFragment(FragmentOf(lib, placements, None).value, None) == Ok(Closure(placements, primary))
  {
    hide FragmentOf, ParsedFragment, FramedAll, PlacementsFrom, Clean;
    var frames := PrintsUnder(lib, placements, primary);
    var closed := Closure(placements, primary);
    assert {Placement(primary, None)} + (closed - {Placement(primary, None)}) == closed;
    ParsedWhole(frames, primary);
  }

  lemma SinglePrimary(t: Table, placements: set<Placement>, primary: Frame)
    requires Tabulates(t, placements) && IsFragment(placements, primary) && Placement(primary, None) in placements
    ensures Filter(t.heads, Tagged(PRIMARY_KEY_TAG)) == [primary]
    ensures ChosenPrimary(t.heads, None) == Ok(primary)
  {
    var primaries := Filter(t.heads, Tagged(PRIMARY_KEY_TAG));
    FilterNoDuplicates(t.heads, Tagged(PRIMARY_KEY_TAG));
    forall h | h in primaries
      ensures h == primary
    {
      var p :| p in placements && p.head == h;
    }
    assert primary in primaries;
    assert Elements(primaries) == Elements([primary]);
    EnumerationsMatch(primaries, [primary]);
    SameElements(primaries, [primary]);
  }

  /** A certificate state: one primary key, its components standing by themselves, attachments under them. */
  predicate IsCertificate(lib: Library, state: set<Placement>, primary: Frame) {
    IsFragment(state, primary) && Grounded(state, primary) && Placement(primary, None) in state
      && lib.parsePrimary(primary.body).Some?
  }

  /** Printing and parsing give back every well-formed certificate. */
  lemma CertificateRoundTrip(lib: Library, state: set<Placement>, primary: Frame)
    requires IsCertificate(lib, state, primary)
    ensures FragmentOf(lib, state, None).Ok?
    ensures ParsedFragment(FragmentOf(lib, state, None).value, None) == Ok(state)
  {
    WholeRoundTrip(lib, state, primary);
    GroundedClosure(state, primary);
  }
}
