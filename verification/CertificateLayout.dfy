/** Where the packets of a certificate stand, and which of them a merge keeps. */
module CertificateLayout {
  import opened Wrappers
  import opened Packets
  import opened CertificateOrder
  import opened Certificates
  import opened CertificateMerge

  // ----- positions -----
  // Packets are told by the numbers of section 5 of RFC 9580: 2 is a signature, 6 a primary key, 13 a user ID, 14 a
  // subkey, 17 a user attribute.

  /** Keys, user IDs and user attributes begin a section; everything else belongs to the section it stands in. */
  predicate BeginsSection(f: Frame) {
    f.tag == 6 || f.tag == 13 || f.tag == 14 || f.tag == 17
  }

  /** The head of the section that a position is in; before any head it is the primary key given. */
  function HeadAt(primary: Frame, frames: seq<Frame>, k: nat): Frame
    requires k < |frames|
  {
    if BeginsSection(frames[k]) then frames[k]
    else if k == 0 then primary
    else HeadAt(primary, frames, k - 1)
  }

  function PlacedAt(primary: Frame, frames: seq<Frame>, k: nat): Placement
    requires k < |frames|
  {
    Placement(HeadAt(primary, frames, k), if BeginsSection(frames[k]) then None else Some(frames[k]))
  }

  /** A placement is read at some position, and at one whose packet meets the condition. */
  ghost predicate IsPlaced(primary: Frame, frames: seq<Frame>, keeps: Frame -> bool, p: Placement) {
    exists k: nat :: k < |frames| && keeps(frames[k]) && PlacedAt(primary, frames, k) == p
  }

  function Any(): Frame -> bool {
    (f: Frame) => true
  }

  function Listed(): Frame -> bool {
    (f: Frame) => f.tag != 10 && f.tag != 12 && f.tag != 21
  }

  lemma {:induction false} HeadShift(primary: Frame, first: Frame, rest: seq<Frame>, k: nat)
    requires k < |rest|
    ensures HeadAt(primary, [first] + rest, k + 1) == HeadAt(if BeginsSection(first) then first else primary, rest, k)
  {
    assert ([first] + rest)[k + 1] == rest[k];
    if !BeginsSection(rest[k]) {
      if k == 0 {
        assert ([first] + rest)[0] == first;
      } else {
        HeadShift(primary, first, rest, k - 1);
      }
    }
  }

  lemma PlacedAtShift(primary: Frame, first: Frame, rest: seq<Frame>)
    ensures var frames, head := [first] + rest, if BeginsSection(first) then first else primary;
            && frames[0] == first && PlacedAt(primary, frames, 0) == PlacedAt(primary, [first], 0)
            && forall k: nat | k < |rest| ::
                 frames[k + 1] == rest[k] && PlacedAt(primary, frames, k + 1) == PlacedAt(head, rest, k)
  {
    var frames, head := [first] + rest, if BeginsSection(first) then first else primary;
    forall k: nat | k < |rest|
      ensures frames[k + 1] == rest[k] && PlacedAt(primary, frames, k + 1) == PlacedAt(head, rest, k)
    {
      HeadShift(primary, first, rest, k);
    }
  }

  lemma PlacedShift(primary: Frame, first: Frame, rest: seq<Frame>, keeps: Frame -> bool, p: Placement)
    ensures IsPlaced(primary, [first] + rest, keeps, p) <==>
            || (keeps(first) && p == PlacedAt(primary, [first], 0))
            || IsPlaced(if BeginsSection(first) then first else primary, rest, keeps, p)
  {
    hide PlacedAt, BeginsSection;
    var frames, head := [first] + rest, if BeginsSection(first) then first else primary;
    PlacedAtShift(primary, first, rest);
    if k: nat :| k < |frames| && keeps(frames[k]) && PlacedAt(primary, frames, k) == p {
      if k > 0 {
        assert keeps(rest[k - 1]) && PlacedAt(head, rest, k - 1) == p;
      }
    }
    if k: nat :| k < |rest| && keeps(rest[k]) && PlacedAt(head, rest, k) == p {
      assert keeps(frames[k + 1]) && PlacedAt(primary, frames, k + 1) == p;
    }
  }

  /** Reading packet after packet finds just what stands at each position, packets that are passed over excepted. */
  lemma {:induction false} ReadByPosition(head: Frame, frames: seq<Frame>, p: Placement)
    requires forall f | f in frames :: f.tag != 6
    ensures p in PlacementsFrom(head, Filter(frames, NotSkippable())) <==> IsPlaced(head, frames, Listed(), p)
    decreases frames
  {
    if frames != [] {
      var first, rest := frames[0], frames[1..];
      assert frames == [first] + rest;
      PlacedShift(head, first, rest, Listed(), p);
      ReadByPosition(if BeginsSection(first) then first else head, rest, p);
      if !IsSkippable(first.tag) {
        assert Filter(frames, NotSkippable()) == [first] + Filter(rest, NotSkippable());
        assert ([first] + Filter(rest, NotSkippable()))[1..] == Filter(rest, NotSkippable());
      } else {
        assert Filter(frames, NotSkippable()) == Filter(rest, NotSkippable());
      }
    }
  }

  /** Certificates under their own primary key, which stands first and alone. */
  predicate IsBlock(frames: seq<Frame>) {
    frames != [] && frames[0].tag == 6 && forall k | 0 < k < |frames| :: frames[k].tag != 6
  }

  lemma BlockByPosition(frames: seq<Frame>, p: Placement)
    requires IsBlock(frames)
    ensures p in BlockPlacements(frames) <==> IsPlaced(frames[0], frames, Listed(), p)
  {
    var primary, rest := frames[0], frames[1..];
    assert frames == [primary] + rest;
    assert forall f | f in rest :: f.tag != 6;
    ReadByPosition(primary, rest, p);
    PlacedShift(primary, primary, rest, Listed(), p);
  }

  // ----- what parsing finds -----

  lemma BlocksRead(data: Bytes)
    ensures ReadBlock(data).Ok? <==> Frames(data).Ok? && IsBlock(Frames(data).value)
    ensures ReadBlock(data).Ok? ==> ReadBlock(data).value == Frames(data).value
  {
    if Frames(data).Ok? {
      var frames := Frames(data).value;
      if frames != [] && forall k | 0 < k < |frames| :: frames[k].tag != 6 {
        assert forall f | f in frames[1..] :: f.tag != 6;
      }
      if ReadBlock(data).Ok? {
        assert forall k | 0 < k < |frames| :: frames[k] == frames[1..][k - 1] && frames[k] in frames[1..];
      }
    }
  }

  /** A certificate parses exactly when its packets are a block with none that certificates skip, and then to what
      stands at each position. */
  lemma ParsesByPosition(data: Bytes)
    ensures ParsedFragment(data, None).Ok? <==>
            && Frames(data).Ok? && IsBlock(Frames(data).value)
            && forall f | f in Frames(data).value :: f.tag != 10 && f.tag != 12 && f.tag != 21
    ensures ParsedFragment(data, None).Ok? ==>
      forall p :: p in ParsedFragment(data, None).value
        <==> IsPlaced(Frames(data).value[0], Frames(data).value, Any(), p)
  {
    BlocksRead(data);
    if Frames(data).Ok? {
      var frames := Frames(data).value;
      assert frames != [] ==> frames[0] in frames && frames == [frames[0]] + frames[1..];
      if ParsedFragment(data, None).Ok? {
        FilterAll(frames[1..], NotSkippable());
        forall p
          ensures p in ParsedFragment(data, None).value <==> IsPlaced(frames[0], frames, Any(), p)
        {
          BlockByPosition(frames, p);
          assert forall k: nat | k < |frames| :: Listed()(frames[k]) by {
            assert forall k: nat | k < |frames| :: frames[k] in frames;
          }
        }
      }
    }
  }

  /** The same for what is read under a primary key that is given. */
  lemma ParsesUnderByPosition(data: Bytes, primary: Frame)
    ensures ParsedFragment(data, Some(primary)).Ok? <==>
            && Frames(data).Ok?
            && forall f | f in Frames(data).value :: f.tag != 6 && f.tag != 10 && f.tag != 12 && f.tag != 21
    ensures ParsedFragment(data, Some(primary)).Ok? ==>
      forall p :: p in ParsedFragment(data, Some(primary)).value <==> IsPlaced(primary, Frames(data).value, Any(), p)
  {
    if ParsedFragment(data, Some(primary)).Ok? {
      var frames := Frames(data).value;
      FilterAll(frames, NotSkippable());
      assert forall k: nat | k < |frames| :: frames[k] in frames;
      forall p
        ensures p in ParsedFragment(data, Some(primary)).value <==> IsPlaced(primary, frames, Any(), p)
      {
        ReadByPosition(primary, frames, p);
        assert forall k: nat | k < |frames| :: Listed()(frames[k]);
      }
    }
  }

  // ----- what a merge keeps -----

  /** All but markers, trust packets and padding, and certifications, or their revocations, that say that they are not
      exportable. */
  predicate Survives(lib: Library, f: Frame) {
    && f.tag != 10 && f.tag != 12 && f.tag != 21
    && !(f.tag == 2
         && var s := lib.parseSignature(f.body);
            && s.Some? && s.value.exportable == Some(false)
            && (s.value.typ == Some("cert-generic") || s.value.typ == Some("cert-persona")
                || s.value.typ == Some("cert-casual") || s.value.typ == Some("cert-positive")
                || s.value.typ == Some("cert-revocation")))
  }

  function Surviving(lib: Library): Frame -> bool {
    (f: Frame) => Survives(lib, f)
  }

  /** A block has the placement, and its packet survives. */
  ghost predicate KeptFrom(lib: Library, b: Bytes, p: Placement) {
    && Frames(b).Ok? && IsBlock(Frames(b).value)
    && IsPlaced(Frames(b).value[0], Frames(b).value, Surviving(lib), p)
  }

  lemma ContributesByPosition(lib: Library, b: Bytes, p: Placement)
    ensures Contributes(lib, b, p) <==> KeptFrom(lib, b, p)
  {
    BlocksRead(b);
    if ReadBlock(b).Ok? {
      var frames := ReadBlock(b).value;
      BlockByPosition(frames, p);
      forall k: nat | k < |frames|
        ensures Surviving(lib)(frames[k]) <==> Listed()(frames[k]) && IsExportable(lib, PlacedAt(frames[0], frames, k))
      {
      }
      if k: nat :| k < |frames| && Listed()(frames[k]) && PlacedAt(frames[0], frames, k) == p {
        assert IsExportable(lib, p) ==> Surviving(lib)(frames[k]);
      }
    }
  }

  /** A merged certificate holds, at its positions, every packet of every block that survives, under the head it had
      there, and nothing else. */
  lemma MergeKeepsExactly(lib: Library, blocks: seq<Bytes>, p: Placement)
    requires MergeOf(lib, blocks).Ok?
    ensures var read := Frames(MergeOf(lib, blocks).value);
            && read.Ok? && IsBlock(read.value)
            && (IsPlaced(read.value[0], read.value, Any(), p) <==> exists b :: b in blocks && KeptFrom(lib, b, p))
  {
    hide MergeOf, ParsedFragment, IsPlaced, KeptFrom;
    MergeIsUnion(lib, blocks);
    ParsesByPosition(MergeOf(lib, blocks).value);
    UnionMembers(lib, blocks, p);
    forall b
      ensures Contributes(lib, b, p) <==> KeptFrom(lib, b, p)
    {
      ContributesByPosition(lib, b, p);
    }
  }

  // ----- when a merge succeeds -----

  /** What is wrong with a block that is not a certificate. */
  function Complaint(b: Bytes): CertificateError {
    match Frames(b)
    case Err(e) => BadPacket(e)
    case Ok(frames) => if frames == [] || frames[0].tag != 6 then NoPrimary else ExtraPrimary
  }

  predicate IsRead(b: Bytes) {
    Frames(b).Ok? && IsBlock(Frames(b).value)
  }

  function PrimaryIn(b: Bytes): Frame
    requires IsRead(b)
  {
    Frames(b).value[0]
  }

  predicate AllRead(blocks: seq<Bytes>) {
    forall i | 0 <= i < |blocks| :: IsRead(blocks[i])
  }

  lemma ReadsAlike(b: Bytes)
    ensures ReadBlock(b).Ok? <==> IsRead(b)
    ensures IsRead(b) ==> ReadBlock(b).value[0] == PrimaryIn(b) && PrimaryBody(b) == Some(PrimaryIn(b).body)
    ensures ReadBlock(b).Err? ==> ReadBlock(b).error == Complaint(b)
  {
    BlocksRead(b);
  }

  lemma {:induction false} FirstRefused(blocks: seq<Bytes>, i: nat)
    requires i < |blocks| && !IsRead(blocks[i]) && AllRead(blocks[..i])
    ensures RefusedBlock(blocks) == Some(Complaint(blocks[i]))
  {
    hide IsRead, ReadBlock, Complaint;
    var n := |blocks| - 1;
    ReadsAlike(blocks[i]);
    if i < n {
      assert blocks[..n][..i] == blocks[..i];
      FirstRefused(blocks[..n], i);
    } else {
      AllReadAlike(blocks[..i]);
    }
  }

  lemma AllReadAlike(blocks: seq<Bytes>)
    requires AllRead(blocks)
    ensures RefusedBlock(blocks).None? && forall b | b in blocks :: ReadBlock(b).Ok?
  {
    hide IsRead, ReadBlock;
    forall b | b in blocks
      ensures ReadBlock(b).Ok?
    {
      var i :| 0 <= i < |blocks| && blocks[i] == b;
      ReadsAlike(blocks[i]);
    }
    NothingRefused(blocks);
  }

  /** A merge succeeds exactly for blocks that are certificates of one primary key that is not empty and that the
      library reads, when it accepts the certificate that holds what survives of them; and each error says which of
      this fails first. */
  lemma MergesExactly(lib: Library, blocks: seq<Bytes>, held: set<Placement>)
    requires forall p :: p in held <==> exists b :: b in blocks && KeptFrom(lib, b, p)
    ensures blocks == [] ==> MergeOf(lib, blocks) == Err(NoBlocks)
    ensures forall i: nat | i < |blocks| && !IsRead(blocks[i]) && AllRead(blocks[..i]) ::
              MergeOf(lib, blocks) == Err(Complaint(blocks[i]))
    ensures blocks != [] && AllRead(blocks) ==>
              var primary := PrimaryIn(blocks[0]);
              if exists i :: 0 <= i < |blocks| && PrimaryIn(blocks[i]).body != primary.body
                then MergeOf(lib, blocks) == Err(DifferentPrimaries)
              else if lib.parsePrimary(primary.body).None? then MergeOf(lib, blocks) == Err(NotAPublicKey)
              else
                var written := FragmentOf(lib, held, None);
                && written.Ok?
                && MergeOf(lib, blocks) == if !lib.acceptsCertificate(written.value) then Err(Refused)
                                           else if primary.body == [] then Err(EmptyPrimary) else written
  {
    hide IsRead, KeptFrom, ReadBlock, FragmentOf, Union, IsCertificate, PrimaryIn, SamePrimaries, Complaint;
    forall i: nat | i < |blocks| && !IsRead(blocks[i]) && AllRead(blocks[..i])
      ensures MergeOf(lib, blocks) == Err(Complaint(blocks[i]))
    {
      FirstRefused(blocks, i);
    }
    if blocks != [] && AllRead(blocks) {
      AllReadAlike(blocks);
      OnePrimary(blocks);
      ReadsAlike(blocks[0]);
      HeldIsUnion(lib, blocks, held);
      if SamePrimaries(blocks) && lib.parsePrimary(PrimaryIn(blocks[0]).body).Some? {
        UnionIsCertificate(lib, blocks);
        FinishedIsFragment(lib, held, PrimaryIn(blocks[0]));
      }
    }
  }

  lemma OnePrimary(blocks: seq<Bytes>)
    requires blocks != [] && AllRead(blocks)
    ensures SamePrimaries(blocks) <==>
            forall i | 0 <= i < |blocks| :: PrimaryIn(blocks[i]).body == PrimaryIn(blocks[0]).body
  {
    hide IsRead, PrimaryBody, PrimaryIn;
    forall i | 0 <= i < |blocks|
      ensures PrimaryBody(blocks[i]) == Some(PrimaryIn(blocks[i]).body) && blocks[i] in blocks
    {
      ReadsAlike(blocks[i]);
    }
  }

  lemma HeldIsUnion(lib: Library, blocks: seq<Bytes>, held: set<Placement>)
    requires forall p :: p in held <==> exists b :: b in blocks && KeptFrom(lib, b, p)
    ensures held == Union(lib, blocks)
  {
    hide KeptFrom, Contributes, Union;
    forall p
      ensures p in held <==> p in Union(lib, blocks)
    {
      UnionMembers(lib, blocks, p);
      forall b
        ensures Contributes(lib, b, p) <==> KeptFrom(lib, b, p)
      {
        ContributesByPosition(lib, b, p);
      }
    }
  }
}
