/** The order in which a certificate's packets are written, said about the positions at which they are read back. */
module WrittenOrder {
  import opened Wrappers
  import opened Sorting
  import opened Packets
  import PacketStreams
  import opened CertificateOrder
  import opened Certificates
  import opened CertificateMerge
  import opened CertificateLayout

  // ----- the order -----

  /** The primary key's section comes first, then user IDs, user attributes and subkeys. */
  function Rank(head: Frame): nat {
    if head.tag == 6 then 0 else if head.tag == 13 then 1 else if head.tag == 17 then 2 else 3
  }

  /** A certification of a user ID or user attribute by the key itself. */
  predicate CertifiesSelf(lib: Library, f: Frame, ids: Ids) {
    f.tag == 2
    && var s := lib.parseSignature(f.body);
       && s.Some? && (ids.fingerprint in s.value.fingerprints || ids.keyId in s.value.keyIds)
       && (s.value.typ == Some("cert-generic") || s.value.typ == Some("cert-persona")
           || s.value.typ == Some("cert-casual") || s.value.typ == Some("cert-positive"))
  }

  /** When a readable signature was made; 0 if it does not say. */
  function Created(lib: Library, f: Frame): nat {
    var s := lib.parseSignature(f.body);
    if s.Some? && s.value.created.Some? then s.value.created.value else 0
  }

  function TypeName(lib: Library, f: Frame): string {
    var s := lib.parseSignature(f.body);
    if s.Some? && s.value.typ.Some? then s.value.typ.value else ""
  }

  /** The times by whose earliest a section is placed: when a subkey was created, if that can be read, and when a user
      ID or user attribute was certified by the key itself. */
  function Times(lib: Library, placements: set<Placement>, head: Frame, ids: Ids): set<nat> {
    if head.tag == 14 then
      var created := lib.subkeyCreated(head.body);
      if created.Some? then {created.value} else {}
    else
      set p | p in placements && p.head == head && p.frame.Some? && CertifiesSelf(lib, p.frame.value, ids) ::
        Created(lib, p.frame.value)
  }

  /** The one has an earlier time than any of the other's. */
  predicate EarlierTimes(a: set<nat>, b: set<nat>) {
    exists t :: t in a && forall u | u in b :: t < u
  }

  ghost predicate SectionBefore(lib: Library, placements: set<Placement>, ids: Ids, a: Frame, b: Frame) {
    var s, t := Times(lib, placements, a, ids), Times(lib, placements, b, ids);
    if a.tag != b.tag then Rank(a) < Rank(b)
    else EarlierTimes(s, t) || (!EarlierTimes(t, s) && LexBefore(a.body, b.body))
  }

  /** Under a primary key its revocations come first; then readable signatures, and then everything else. */
  function PlaceUnder(lib: Library, head: Frame, f: Frame): nat {
    if f.tag != 2 || lib.parseSignature(f.body).None? then 2
    else if head.tag == 6 && lib.parseSignature(f.body).value.typ == Some("key-revocation") then 0
    else 1
  }

  ghost predicate AttachedBefore(lib: Library, head: Frame, f: Frame, g: Frame) {
    var m, n := PlaceUnder(lib, head, f), PlaceUnder(lib, head, g);
    if m != n then m < n
    else if m == 2 then f.tag < g.tag || (f.tag == g.tag && LexBefore(f.body, g.body))
    else if Created(lib, f) != Created(lib, g) then Created(lib, f) < Created(lib, g)
    else if TypeName(lib, f) != TypeName(lib, g) then TextBefore(TypeName(lib, f), TypeName(lib, g))
    else LexBefore(f.body, g.body)
  }

  /** A head comes before what is attached to it. */
  ghost predicate PlacedBefore(lib: Library, placements: set<Placement>, ids: Ids, p: Placement, q: Placement) {
    if p.head != q.head then SectionBefore(lib, placements, ids, p.head, q.head)
    else q.frame.Some? && (p.frame.Some? ==> AttachedBefore(lib, p.head, p.frame.value, q.frame.value))
  }

  ghost predicate Ascends(lib: Library, placements: set<Placement>, ids: Ids, ps: seq<Placement>) {
    forall i, j | 0 <= i < j < |ps| :: PlacedBefore(lib, placements, ids, ps[i], ps[j])
  }

  /** What stands at each position. */
  function PlacedAll(primary: Frame, frames: seq<Frame>): (ps: seq<Placement>)
    ensures |ps| == |frames| && forall k | 0 <= k < |frames| :: ps[k] == PlacedAt(primary, frames, k)
  {
    seq(|frames|, k requires 0 <= k < |frames| => PlacedAt(primary, frames, k))
  }

  // ----- attachments -----

  lemma SignatureBefore(lib: Library, head: Frame, f: Frame, g: Frame)
    requires IsReadSignature(lib, f) && IsReadSignature(lib, g) && f != g
    requires PlaceUnder(lib, head, f) == PlaceUnder(lib, head, g) && SignatureOrder(lib)(f, g)
    ensures AttachedBefore(lib, head, f, g)
  {
    hide LexLe, LexBefore, TextBefore;
    var s, t := TypeName(lib, f), TypeName(lib, g);
    LexLeByPosition(Codes(s), Codes(t));
    LexLeByPosition(f.body, g.body);
    TextByCodes(s, t);
    if Codes(s) == Codes(t) {
      CodesInjective(s, t);
    }
  }

  lemma OpaqueBefore(lib: Library, head: Frame, f: Frame, g: Frame)
    requires !IsReadSignature(lib, f) && !IsReadSignature(lib, g) && f != g && OpaqueOrder()(f, g)
    ensures AttachedBefore(lib, head, f, g)
  {
    LexLeByPosition(f.body, g.body);
  }

  /** The attachments of a head, pairwise in order. */
  ghost predicate AttachedInOrder(lib: Library, head: Frame, fs: seq<Frame>) {
    forall i, j | 0 <= i < j < |fs| :: AttachedBefore(lib, head, fs[i], fs[j])
  }

  lemma PartInOrder(lib: Library, head: Frame, xs: seq<Frame>, p: Frame -> bool, le: (Frame, Frame) -> bool, place: nat)
    requires NoDuplicates(xs)
    requires (le == SignatureOrder(lib) && place < 2) || (le == OpaqueOrder() && place == 2)
    requires forall f | p(f) :: PlaceUnder(lib, head, f) == place
    ensures AttachedInOrder(lib, head, Sort(Filter(xs, p), le))
    ensures forall f | f in Sort(Filter(xs, p), le) :: PlaceUnder(lib, head, f) == place
  {
    var part := Filter(xs, p);
    var sorted := Sort(part, le);
    FilterNoDuplicates(xs, p);
    SortDistinct(part, le);
    SortElements(part, le);
    if place < 2 {
      KeyedPreorder(f => SignatureKey(lib, f), le);
    } else {
      KeyedPreorder(f => OpaqueKey(f), le);
    }
    SortSorted(part, le);
    forall i, j | 0 <= i < j < |sorted|
      ensures AttachedBefore(lib, head, sorted[i], sorted[j])
    {
      assert sorted[i] in sorted && sorted[j] in sorted;
      if place < 2 {
        SignatureBefore(lib, head, sorted[i], sorted[j]);
      } else {
        OpaqueBefore(lib, head, sorted[i], sorted[j]);
      }
    }
  }

  lemma PartsInOrder(lib: Library, head: Frame, a: seq<Frame>, b: seq<Frame>, m: nat)
    requires AttachedInOrder(lib, head, a) && AttachedInOrder(lib, head, b)
    requires forall f | f in a :: PlaceUnder(lib, head, f) <= m
    requires forall f | f in b :: PlaceUnder(lib, head, f) > m
    ensures AttachedInOrder(lib, head, a + b)
  {
    forall i, j | 0 <= i < j < |a + b|
      ensures AttachedBefore(lib, head, (a + b)[i], (a + b)[j])
    {
      if i < |a| <= j {
        assert a[i] in a && b[j - |a|] in b;
      }
    }
  }

  lemma OrderedInOrder(lib: Library, head: Frame, xs: seq<Frame>)
    requires NoDuplicates(xs)
    ensures AttachedInOrder(lib, head, Ordered(lib, head, xs))
  {
    hide AttachedInOrder;
    var le := SignatureOrder(lib);
    var opaques := Sort(Filter(xs, Opaque(lib)), OpaqueOrder());
    PartInOrder(lib, head, xs, Opaque(lib), OpaqueOrder(), 2);
    if head.tag == PRIMARY_KEY_TAG {
      var a, b := Sort(Filter(xs, KeyRevocation(lib)), le), Sort(Filter(xs, OtherSignature(lib)), le);
      PartInOrder(lib, head, xs, KeyRevocation(lib), le, 0);
      PartInOrder(lib, head, xs, OtherSignature(lib), le, 1);
      PartsInOrder(lib, head, a, b, 0);
      PartsInOrder(lib, head, a + b, opaques, 1);
    } else {
      PartInOrder(lib, head, xs, ReadSignature(lib), le, 1);
      PartsInOrder(lib, head, Sort(Filter(xs, ReadSignature(lib)), le), opaques, 1);
    }
  }

  // ----- sections -----

  /** A moment is the earliest of some times, or there are none. */
  ghost predicate IsEarliest(e: Moment, times: set<nat>) {
    match e
    case At(t) => t in times && forall u | u in times :: t <= u
    case Never => times == {}
  }

  lemma EarlierByTimes(d: Moment, e: Moment, s: set<nat>, t: set<nat>)
    requires IsEarliest(d, s) && IsEarliest(e, t)
    ensures Earlier(d, e) <==> EarlierTimes(s, t)
    ensures d == e <==> !EarlierTimes(s, t) && !EarlierTimes(t, s)
  {
  }

  lemma SelfCertifiedIs(lib: Library, f: Frame, ids: Ids)
    ensures SelfCertified(lib, f, ids) == if CertifiesSelf(lib, f, ids) then At(Created(lib, f)) else Never
  {
  }

  lemma SectionEarliest(lib: Library, t: Table, placements: set<Placement>, head: Frame, ids: Ids)
    requires Tabulates(t, placements)
    ensures IsEarliest(SectionKey(lib, head, Attached(t.sections, head), ids).time, Times(lib, placements, head, ids))
  {
    var attached, times := Attached(t.sections, head), Times(lib, placements, head, ids);
    if head.tag != 14 {
      var e := EarliestSelfCertification(lib, attached, ids);
      EarliestIsLeast(lib, attached, ids);
      forall f
        ensures f in attached <==> Placement(head, Some(f)) in placements
      {
      }
      forall u | u in times
        ensures e.At? && e.t <= u
      {
        var p :| p in placements && p.head == head && p.frame.Some? && CertifiesSelf(lib, p.frame.value, ids)
                 && Created(lib, p.frame.value) == u;
        assert p == Placement(head, Some(p.frame.value));
        SelfCertifiedIs(lib, p.frame.value, ids);
        assert !Earlier(SelfCertified(lib, p.frame.value, ids), e);
      }
      if e.At? {
        var f :| f in attached && SelfCertified(lib, f, ids) == e;
        SelfCertifiedIs(lib, f, ids);
        assert Placement(head, Some(f)) in placements;
      }
    }
  }

  lemma HeadsBefore(lib: Library, t: Table, placements: set<Placement>, ids: Ids, a: Frame, b: Frame)
    requires Tabulates(t, placements) && a.tag == b.tag && a != b && SectionOrder(lib, t.sections, ids)(a, b)
    ensures SectionBefore(lib, placements, ids, a, b)
  {
    hide Tabulates, Times, EarlierTimes, IsEarliest, LexLe, LexBefore;
    SectionEarliest(lib, t, placements, a, ids);
    SectionEarliest(lib, t, placements, b, ids);
    var k, l := SectionKey(lib, a, Attached(t.sections, a), ids), SectionKey(lib, b, Attached(t.sections, b), ids);
    EarlierByTimes(k.time, l.time, Times(lib, placements, a, ids), Times(lib, placements, b, ids));
    LexLeByPosition(a.body, b.body);
  }

  ghost predicate HeadsInOrder(lib: Library, placements: set<Placement>, ids: Ids, heads: seq<Frame>) {
    forall i, j | 0 <= i < j < |heads| ::
      heads[i] != heads[j] && SectionBefore(lib, placements, ids, heads[i], heads[j])
  }

  lemma TagInOrder(lib: Library, t: Table, placements: set<Placement>, ids: Ids, tag: nat)
    requires Tabulates(t, placements)
    ensures HeadsInOrder(lib, placements, ids, SectionHeads(lib, t.heads, t.sections, tag, ids))
    ensures forall h | h in SectionHeads(lib, t.heads, t.sections, tag, ids) :: h.tag == tag && h in t.heads
  {
    hide SectionBefore;
    var part, le := Filter(t.heads, Tagged(tag)), SectionOrder(lib, t.sections, ids);
    var sorted := SectionHeads(lib, t.heads, t.sections, tag, ids);
    FilterNoDuplicates(t.heads, Tagged(tag));
    SortDistinct(part, le);
    SortElements(part, le);
    SectionOrderSeparates(lib, t.sections, ids, {}, tag);
    SortSorted(part, le);
    forall i, j | 0 <= i < j < |sorted|
      ensures sorted[i] != sorted[j] && SectionBefore(lib, placements, ids, sorted[i], sorted[j])
    {
      assert sorted[i] in sorted && sorted[j] in sorted;
      HeadsBefore(lib, t, placements, ids, sorted[i], sorted[j]);
    }
  }

  lemma TagsInOrder(lib: Library, placements: set<Placement>, ids: Ids, a: seq<Frame>, b: seq<Frame>, m: nat)
    requires HeadsInOrder(lib, placements, ids, a) && HeadsInOrder(lib, placements, ids, b)
    requires forall h | h in a :: Rank(h) <= m
    requires forall h | h in b :: Rank(h) > m
    ensures HeadsInOrder(lib, placements, ids, a + b)
  {
    forall i, j | 0 <= i < j < |a + b|
      ensures (a + b)[i] != (a + b)[j] && SectionBefore(lib, placements, ids, (a + b)[i], (a + b)[j])
    {
      if i < |a| <= j {
        assert a[i] in a && b[j - |a|] in b;
      }
    }
  }

  lemma AllHeadsInOrder(lib: Library, t: Table, placements: set<Placement>, ids: Ids)
    requires Tabulates(t, placements)
    ensures HeadsInOrder(lib, placements, ids, AllSectionHeads(lib, t.heads, t.sections, ids))
  {
    hide HeadsInOrder, SectionHeads, Tabulates;
    var a := SectionHeads(lib, t.heads, t.sections, USER_ID_TAG, ids);
    var b := SectionHeads(lib, t.heads, t.sections, USER_ATTRIBUTE_TAG, ids);
    var c := SectionHeads(lib, t.heads, t.sections, PUBLIC_SUBKEY_TAG, ids);
    TagInOrder(lib, t, placements, ids, USER_ID_TAG);
    TagInOrder(lib, t, placements, ids, USER_ATTRIBUTE_TAG);
    TagInOrder(lib, t, placements, ids, PUBLIC_SUBKEY_TAG);
    TagsInOrder(lib, placements, ids, a, b, 1);
    TagsInOrder(lib, placements, ids, a + b, c, 2);
  }

  // ----- positions of what is written -----

  function Under(head: Frame, fs: seq<Frame>): (ps: seq<Placement>)
    ensures |ps| == |fs| && forall i | 0 <= i < |fs| :: ps[i] == Placement(head, Some(fs[i]))
  {
    seq(|fs|, i requires 0 <= i < |fs| => Placement(head, Some(fs[i])))
  }

  lemma PlacedFirst(primary: Frame, first: Frame, rest: seq<Frame>)
    ensures PlacedAll(primary, [first] + rest)
            == [PlacedAt(primary, [first], 0)] + PlacedAll(if BeginsSection(first) then first else primary, rest)
  {
    var frames, head := [first] + rest, if BeginsSection(first) then first else primary;
    assert frames[0] == first;
    forall k: nat | k < |rest|
      ensures PlacedAt(primary, frames, k + 1) == PlacedAt(head, rest, k)
    {
      HeadShift(primary, first, rest, k);
      assert frames[k + 1] == rest[k];
    }
  }

  lemma {:induction false} UnderPlaced(head: Frame, fs: seq<Frame>, rest: seq<Frame>)
    requires forall f | f in fs :: !BeginsSection(f)
    ensures PlacedAll(head, fs + rest) == Under(head, fs) + PlacedAll(head, rest)
  {
    if fs == [] {
      assert fs + rest == rest;
      assert Under(head, fs) == [];
    } else {
      UnderPlaced(head, fs[1..], rest);
      PlacedFirst(head, fs[0], fs[1..] + rest);
      assert fs + rest == [fs[0]] + (fs[1..] + rest);
      assert Under(head, fs) == [Placement(head, Some(fs[0]))] + Under(head, fs[1..]);
    }
  }

  function SectionPlacements(lib: Library, heads: seq<Frame>, sections: Sections): seq<Placement> {
    if heads == [] then []
    else
      [Placement(heads[0], None)] + Under(heads[0], Ordered(lib, heads[0], Attached(sections, heads[0])))
      + SectionPlacements(lib, heads[1..], sections)
  }

  /** The sections of a fragment: nothing attached begins one of its own. */
  predicate AreSections(heads: seq<Frame>, sections: Sections) {
    && (forall h | h in heads :: IsComponent(h.tag))
    && (forall h, f | h in sections && f in sections[h] :: !BeginsSection(f))
  }

  lemma {:induction false} SectionsPlaced(lib: Library, before: Frame, heads: seq<Frame>, sections: Sections)
    requires AreSections(heads, sections)
    ensures PlacedAll(before, SectionFrames(lib, heads, sections)) == SectionPlacements(lib, heads, sections)
    decreases heads
  {
    hide PlacedAll, PlacedAt, HeadAt, Ordered;
    if heads == [] {
      assert |PlacedAll(before, [])| == 0;
    } else {
      var h, rest := heads[0], SectionFrames(lib, heads[1..], sections);
      var fs := Ordered(lib, h, Attached(sections, h));
      SectionsPlaced(lib, h, heads[1..], sections);
      OrderedElements(lib, h, Attached(sections, h));
      HeadPlaced(before, h, fs, rest);
      assert SectionFrames(lib, heads, sections) == [h] + (fs + rest);
    }
  }

  lemma HeadPlaced(before: Frame, h: Frame, fs: seq<Frame>, rest: seq<Frame>)
    requires BeginsSection(h) && forall f | f in fs :: !BeginsSection(f)
    ensures PlacedAll(before, [h] + (fs + rest)) == [Placement(h, None)] + Under(h, fs) + PlacedAll(h, rest)
  {
    PlacedFirst(before, h, fs + rest);
    UnderPlaced(h, fs, rest);
  }

  lemma {:induction false} SectionMembers(lib: Library, heads: seq<Frame>, sections: Sections)
    ensures forall p | p in SectionPlacements(lib, heads, sections) :: p.head in heads
  {
    if heads != [] {
      SectionMembers(lib, heads[1..], sections);
    }
  }

  lemma AscendsOver(lib: Library, placements: set<Placement>, ids: Ids, a: seq<Placement>, b: seq<Placement>)
    requires Ascends(lib, placements, ids, a) && Ascends(lib, placements, ids, b)
    requires forall p, q | p in a && q in b :: PlacedBefore(lib, placements, ids, p, q)
    ensures Ascends(lib, placements, ids, a + b)
  {
    hide PlacedBefore;
    forall i, j | 0 <= i < j < |a + b|
      ensures PlacedBefore(lib, placements, ids, (a + b)[i], (a + b)[j])
    {
      if i < |a| <= j {
        assert a[i] in a && b[j - |a|] in b;
      }
    }
  }

  /** A head, if it is there, and what is attached to it. */
  lemma SectionAscends(lib: Library, placements: set<Placement>, ids: Ids, head: Frame, bare: bool, fs: seq<Frame>)
    requires AttachedInOrder(lib, head, fs)
    ensures Ascends(lib, placements, ids, (if bare then [Placement(head, None)] else []) + Under(head, fs))
  {
    hide AttachedBefore;
  }

  lemma {:induction false} SectionsAscend(lib: Library, t: Table, placements: set<Placement>, ids: Ids,
                                          heads: seq<Frame>)
    requires Tabulates(t, placements) && HeadsInOrder(lib, placements, ids, heads)
    ensures Ascends(lib, placements, ids, SectionPlacements(lib, heads, t.sections))
  {
    hide SectionBefore, AttachedInOrder, Ascends, PlacedBefore, Ordered, Tabulates;
    if heads == [] {
      EmptyAscends(lib, placements, ids);
    } else {
      var h, fs := heads[0], Ordered(lib, heads[0], Attached(t.sections, heads[0]));
      var first, rest := [Placement(h, None)] + Under(h, fs), SectionPlacements(lib, heads[1..], t.sections);
      SectionsAscend(lib, t, placements, ids, heads[1..]);
      SectionMembers(lib, heads[1..], t.sections);
      TableDistinct(t, placements, h);
      OrderedInOrder(lib, h, Attached(t.sections, h));
      SectionAscends(lib, placements, ids, h, true, fs);
      FirstSectionFirst(lib, placements, ids, heads, first, rest);
      AscendsOver(lib, placements, ids, first, rest);
    }
  }

  lemma FirstSectionFirst(lib: Library, placements: set<Placement>, ids: Ids, heads: seq<Frame>,
                          first: seq<Placement>, rest: seq<Placement>)
    requires heads != [] && HeadsInOrder(lib, placements, ids, heads)
    requires forall p | p in first :: p.head == heads[0]
    requires forall q | q in rest :: q.head in heads[1..]
    ensures forall p, q | p in first && q in rest :: PlacedBefore(lib, placements, ids, p, q)
  {
    hide SectionBefore;
    forall q | q in rest
      ensures heads[0] != q.head && SectionBefore(lib, placements, ids, heads[0], q.head)
    {
      var j :| 0 <= j < |heads[1..]| && heads[1..][j] == q.head;
      assert heads[j + 1] == q.head;
    }
  }

  lemma EmptyAscends(lib: Library, placements: set<Placement>, ids: Ids)
    ensures Ascends(lib, placements, ids, [])
  {
  }

  /** What is written of a fragment, position by position. */
  lemma EmittedInOrder(lib: Library, t: Table, placements: set<Placement>, primary: Frame, ids: Ids, bare: bool)
    requires Tabulates(t, placements) && IsFragment(placements, primary)
    ensures Ascends(lib, placements, ids,
                    PlacedAll(primary, (if bare then [primary] else []) + Remainder(lib, t, primary, ids)))
  {
    hide SectionBefore, AttachedInOrder, Ascends, HeadsInOrder, Tabulates, AllSectionHeads, SectionPlacements, Ordered;
    var heads := AllSectionHeads(lib, t.heads, t.sections, ids);
    var fs := Ordered(lib, primary, Attached(t.sections, primary));
    var first, later := (if bare then [Placement(primary, None)] else []) + Under(primary, fs),
                        SectionPlacements(lib, heads, t.sections);
    EmittedPlaced(lib, t, placements, primary, ids, bare);
    SectionHeadsElements(lib, t.heads, t.sections, ids);
    TableDistinct(t, placements, primary);
    OrderedInOrder(lib, primary, Attached(t.sections, primary));
    AllHeadsInOrder(lib, t, placements, ids);
    SectionAscends(lib, placements, ids, primary, bare, fs);
    SectionsAscend(lib, t, placements, ids, heads);
    SectionMembers(lib, heads, t.sections);
    forall p, q | p in first && q in later
      ensures PlacedBefore(lib, placements, ids, p, q)
    {
      PrimaryFirst(lib, placements, ids, p.head, q.head);
    }
    AscendsOver(lib, placements, ids, first, later);
  }

  lemma SectionsOfTable(t: Table, placements: set<Placement>, primary: Frame, heads: seq<Frame>)
    requires Tabulates(t, placements) && IsFragment(placements, primary)
    requires forall h | h in heads :: IsComponent(h.tag)
    ensures AreSections(heads, t.sections)
    ensures forall f | f in Attached(t.sections, primary) :: !BeginsSection(f)
  {
    TableAttachments(t, placements, primary);
    forall h, f | h in t.sections && f in t.sections[h]
      ensures !BeginsSection(f)
    {
      assert IsAttachment(f);
    }
  }

  lemma EmittedPlaced(lib: Library, t: Table, placements: set<Placement>, primary: Frame, ids: Ids, bare: bool)
    requires Tabulates(t, placements) && IsFragment(placements, primary)
    ensures PlacedAll(primary, (if bare then [primary] else []) + Remainder(lib, t, primary, ids))
            == (if bare then [Placement(primary, None)] else [])
               + Under(primary, Ordered(lib, primary, Attached(t.sections, primary)))
               + SectionPlacements(lib, AllSectionHeads(lib, t.heads, t.sections, ids), t.sections)
  {
    hide PlacedAll, PlacedAt, HeadAt, Ordered, AllSectionHeads, SectionPlacements, SectionFrames, Tabulates;
    var heads := AllSectionHeads(lib, t.heads, t.sections, ids);
    var fs, rest := Ordered(lib, primary, Attached(t.sections, primary)), SectionFrames(lib, heads, t.sections);
    SectionHeadsElements(lib, t.heads, t.sections, ids);
    SectionsOfTable(t, placements, primary, heads);
    OrderedElements(lib, primary, Attached(t.sections, primary));
    SectionsPlaced(lib, primary, heads, t.sections);
    if bare {
      HeadPlaced(primary, primary, fs, rest);
    } else {
      UnderPlaced(primary, fs, rest);
      assert [] + (fs + rest) == fs + rest;
      assert [] + Under(primary, fs) == Under(primary, fs);
    }
  }

  lemma PrimaryFirst(lib: Library, placements: set<Placement>, ids: Ids, primary: Frame, head: Frame)
    requires primary.tag == 6 && IsComponent(head.tag)
    ensures SectionBefore(lib, placements, ids, primary, head)
  {
  }

  lemma TableDistinct(t: Table, placements: set<Placement>, head: Frame)
    requires Tabulates(t, placements)
    ensures NoDuplicates(Attached(t.sections, head))
  {
  }

  /** The packets of a written fragment are read back in order: at every position stands what comes before all that
      stands later. They are the fragment's, with every head that has something attached, each at one position. */
  lemma WrittenInOrder(lib: Library, placements: set<Placement>, primary: Frame)
    requires IsFragment(placements, primary) && lib.parsePrimary(primary.body).Some?
    ensures var r, ids := FragmentOf(lib, placements, Some(primary)), lib.parsePrimary(primary.body).value;
            && r.Ok? && Frames(r.value).Ok?
            && (Placement(primary, None) in placements ==> FragmentOf(lib, placements, None) == r)
            && Ascends(lib, placements, ids, PlacedAll(primary, Frames(r.value).value))
            && forall p :: IsPlaced(primary, Frames(r.value).value, Any(), p) <==> p in Closure(placements, primary)
  {
    var t, ids := Gathered(Listing(placements)), lib.parsePrimary(primary.body).value;
    var bare := Placement(primary, None) in placements;
    var frames := (if bare then [primary] else []) + Remainder(lib, t, primary, ids);
    GatheredTabulates(Listing(placements));
    WrittenUnder(lib, t, placements, primary);
    PacketStreams.FramesOfFramed(frames);
    EmittedInOrder(lib, t, placements, primary, ids, bare);
    forall p
      ensures IsPlaced(primary, frames, Any(), p) <==> p in Closure(placements, primary)
    {
      WrittenByPosition(lib, t, placements, primary, ids, p);
    }
  }

  lemma WrittenByPosition(lib: Library, t: Table, placements: set<Placement>, primary: Frame, ids: Ids, p: Placement)
    requires Tabulates(t, placements) && IsFragment(placements, primary)
    ensures var bare := Placement(primary, None) in placements;
            IsPlaced(primary, (if bare then [primary] else []) + Remainder(lib, t, primary, ids), Any(), p)
            <==> p in Closure(placements, primary)
  {
    hide IsPlaced, Closure, Remainder;
    var rest := Remainder(lib, t, primary, ids);
    RemainderTags(lib, t, placements, primary, ids);
    RemainderParses(lib, t, placements, primary, ids);
    CleanByPosition(primary, rest, p);
    PlacedShift(primary, primary, rest, Any(), p);
    assert [] + rest == rest;
    BareInClosure(placements, primary);
  }

  lemma BareInClosure(placements: set<Placement>, primary: Frame)
    ensures Placement(primary, None) in Closure(placements, primary) <==> Placement(primary, None) in placements
  {
  }

  lemma CleanByPosition(primary: Frame, frames: seq<Frame>, p: Placement)
    requires Clean(frames)
    ensures p in PlacementsFrom(primary, frames) <==> IsPlaced(primary, frames, Any(), p)
  {
    FilterAll(frames, NotSkippable());
    ReadByPosition(primary, frames, p);
    assert forall k: nat | k < |frames| :: frames[k] in frames;
    assert forall k: nat | k < |frames| :: Listed()(frames[k]) && Any()(frames[k]);
  }

  /** The packets of a merged certificate are read back in that order too, which depends on them alone. */
  lemma MergedInOrder(lib: Library, blocks: seq<Bytes>, held: set<Placement>)
    requires MergeOf(lib, blocks).Ok? && Frames(MergeOf(lib, blocks).value).Ok?
    requires var frames := Frames(MergeOf(lib, blocks).value).value;
             IsBlock(frames) && forall p :: p in held <==> IsPlaced(frames[0], frames, Any(), p)
    ensures var primary := Frames(MergeOf(lib, blocks).value).value[0];
            && lib.parsePrimary(primary.body).Some?
            && Ascends(lib, held, lib.parsePrimary(primary.body).value,
                       PlacedAll(primary, Frames(MergeOf(lib, blocks).value).value))
  {
    hide MergeOf, Union, ParsedFragment, IsPlaced, Ascends, FragmentOf;
    var data, u := MergeOf(lib, blocks).value, Union(lib, blocks);
    var primary := CommonPrimaryOf(lib, blocks);
    MergeIsUnion(lib, blocks);
    ParsesByPosition(data);
    assert u == held;
    WholeRoundTrip(lib, u, primary);
    WrittenInOrder(lib, u, primary);
  }

  /** What a merge writes is the fragment of a certificate under its first packet. */
  lemma CommonPrimaryOf(lib: Library, blocks: seq<Bytes>) returns (primary: Frame)
    requires MergeOf(lib, blocks).Ok?
    ensures Frames(MergeOf(lib, blocks).value).Ok? && Frames(MergeOf(lib, blocks).value).value != []
    ensures primary == Frames(MergeOf(lib, blocks).value).value[0]
    ensures IsCertificate(lib, Union(lib, blocks), primary)
    ensures FragmentOf(lib, Union(lib, blocks), None) == MergeOf(lib, blocks)
  {
    hide Union, IsCertificate;
    MergeOfMergeable(lib, blocks);
    MergedContributes(lib, blocks);
    BlocksRead(MergeOf(lib, blocks).value);
    primary := CommonPrimary(blocks);
    FinishedReads(lib, Union(lib, blocks), primary);
    UnionIsCertificate(lib, blocks);
    FinishedIsFragment(lib, Union(lib, blocks), primary);
  }

  lemma FinishedReads(lib: Library, placements: set<Placement>, primary: Frame)
    requires Finished(lib, placements, primary).Ok?
    ensures lib.parsePrimary(primary.body).Some?
  {
  }
}
