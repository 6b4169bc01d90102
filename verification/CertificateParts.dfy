/** Splitting one block of packets into its certificates, each beginning with a primary key packet. */
module CertificateParts {
  import opened Wrappers
  import opened Packets
  import PacketStreams

  datatype Part = Part(block: Bytes, span: Bytes)

  datatype PartsError = Packet(error: PacketError) | TooManyCertificates | EmptyPrimary

  /** The indices of the primary key packets. */
  function Starts(spans: seq<Span>): (starts: seq<nat>)
    ensures forall i | 0 <= i < |starts| :: starts[i] < |spans| && spans[starts[i]].tag == PRIMARY_KEY_TAG
    ensures forall i, j | 0 <= i < j < |starts| :: starts[i] < starts[j]
    ensures forall k: nat | k < |spans| && spans[k].tag == PRIMARY_KEY_TAG :: k in starts
  {
    if spans == [] then []
    else
      var n := |spans| - 1;
      var before := Starts(spans[..n]);
      if spans[n].tag == PRIMARY_KEY_TAG then before + [n] else before
  }

  function Bound(spans: seq<Span>, i: nat): (b: nat)
    ensures b <= |spans|
  {
    var starts := Starts(spans);
    if i < |starts| then starts[i] else |spans|
  }

  /** The packets of the i-th certificate. */
  function Segment(spans: seq<Span>, i: nat): (s: seq<Span>)
    requires i < |Starts(spans)|
    ensures s != [] && s[0].tag == PRIMARY_KEY_TAG
  {
    spans[Bound(spans, i)..Bound(spans, i + 1)]
  }

  /** Where the k-th packet starts, or where the last one ends. */
  function OffsetAt(spans: seq<Span>, k: nat, to: nat): nat
    requires k <= |spans|
  {
    if k < |spans| then spans[k].start else to
  }

  /** The raw slices of the upload, from each primary key packet to the next. */
  function CertificateSpans(data: Bytes): Result<seq<Bytes>, PacketError> {
    match Offsets(data, 0, None, 0)
    case Err(e) => Err(e)
    case Ok(spans) =>
      OffsetsRead(data, 0, None, 0);
      Ok(AllSpans(data, spans))
  }

  function AllSpans(data: Bytes, spans: seq<Span>): (r: seq<Bytes>)
    requires Reads(data, spans, 0, |data|)
    ensures |r| == |Starts(spans)|
    ensures forall i: nat | i < |r| :: r[i] == SpanAt(data, spans, i)
  {
    seq(|Starts(spans)|, i requires 0 <= i < |Starts(spans)| => SpanAt(data, spans, i))
  }

  /** The raw slices of the parts. */
  function SpansOf(parts: seq<Part>): (r: seq<Bytes>)
    ensures |r| == |parts|
    ensures forall i: nat | i < |r| :: r[i] == parts[i].span
  {
    seq(|parts|, i requires 0 <= i < |parts| => parts[i].span)
  }

  function SpanAt(data: Bytes, spans: seq<Span>, i: nat): Bytes
    requires Reads(data, spans, 0, |data|)
  {
    ReadsBetween(data, spans, 0, |data|, Bound(spans, i), Bound(spans, i + 1));
    data[OffsetAt(spans, Bound(spans, i), |data|)..OffsetAt(spans, Bound(spans, i + 1), |data|)]
  }

  // ----- packets read in sequence -----

  predicate IsSpanOf(data: Bytes, s: Span) {
    s.start < |data| && ReadSpan(data, s.start) == Ok(s) && Readable(data, s)
  }

  /** The spans are what reading the data yields, one after the other, between two offsets. */
  predicate Reads(data: Bytes, spans: seq<Span>, from: nat, to: nat) {
    Tiles(spans, from, to) && forall s | s in spans :: IsSpanOf(data, s)
  }

  lemma {:induction false} OffsetsRead(data: Bytes, offset: nat, limit: Option<nat>, count: nat)
    requires offset <= |data| && Offsets(data, offset, limit, count).Ok?
    ensures Reads(data, Offsets(data, offset, limit, count).value, offset, |data|)
    decreases |data| - offset
  {
    if offset < |data| {
      var span := ReadSpan(data, offset).value;
      ReadLengthBound(data[offset..]);
      OffsetsRead(data, span.end, limit, count + 1);
      var rest := Offsets(data, span.end, limit, count + 1).value;
      assert ([span] + rest)[1..] == rest;
    }
  }

  lemma {:induction false} TilesBetween(spans: seq<Span>, from: nat, to: nat, i: nat, j: nat)
    requires Tiles(spans, from, to) && i <= j <= |spans|
    ensures Tiles(spans[i..j], OffsetAt(spans, i, to), OffsetAt(spans, j, to))
    ensures from <= OffsetAt(spans, i, to) <= OffsetAt(spans, j, to) <= to
    decreases |spans|
  {
    if spans != [] {
      StartsAt(spans[1..], spans[0].end, to);
      if i > 0 {
        TilesBetween(spans[1..], spans[0].end, to, i - 1, j - 1);
        assert spans[i..j] == spans[1..][i - 1..j - 1];
      } else if j > 0 {
        TilesBetween(spans[1..], spans[0].end, to, 0, j - 1);
        assert spans[0..j][1..] == spans[1..][0..j - 1];
      } else {
        TilesBetween(spans[1..], spans[0].end, to, 0, 0);
      }
    }
  }

  lemma StartsAt(spans: seq<Span>, from: nat, to: nat)
    requires Tiles(spans, from, to)
    ensures from == if spans == [] then to else spans[0].start
  {
  }

  lemma ReadsBetween(data: Bytes, spans: seq<Span>, from: nat, to: nat, i: nat, j: nat)
    requires Reads(data, spans, from, to) && i <= j <= |spans|
    ensures Reads(data, spans[i..j], OffsetAt(spans, i, to), OffsetAt(spans, j, to))
    ensures from <= OffsetAt(spans, i, to) <= OffsetAt(spans, j, to) <= to
    ensures forall s | s in spans[i..j] :: s in spans && Readable(data, s)
  {
    TilesBetween(spans, from, to, i, j);
  }

  /** A header is decided by its own octets. */
  lemma HeaderFromPrefix(data: Bytes, n: nat)
    requires data != [] && ReadHeader(data).Ok? && ReadHeader(data).value.size <= n <= |data|
    ensures ReadHeader(data[..n]) == ReadHeader(data)
  {
    if data[0] / 64 % 2 == 1 {
      if |data| >= 6 && n >= 6 {
        assert data[..n][2..6] == data[2..6];
      }
    } else {
      var kind := data[0] % 4;
      var sizes := if kind == 0 then 1 else if kind == 1 then 2 else 4;
      assert data[..n][1..1 + sizes] == data[1..1 + sizes];
    }
  }

  function Shifted(s: Span, a: nat): Span
    requires a <= s.start && a <= s.body && a <= s.end
  {
    Span(s.tag, s.start - a, s.body - a, s.end - a)
  }

  lemma SliceOfSlice(data: Bytes, a: nat, b: nat, i: nat, j: nat)
    requires a <= i <= j <= b <= |data|
    ensures data[a..b][i - a..j - a] == data[i..j]
  {
    var s, t := data[a..b][i - a..j - a], data[i..j];
    forall k | 0 <= k < j - i
      ensures s[k] == t[k]
    {
    }
    assert |s| == |t|;
  }

  lemma ReadInSlice(data: Bytes, a: nat, b: nat, offset: nat)
    requires a <= offset < |data| && b <= |data| && ReadSpan(data, offset).Ok? && ReadSpan(data, offset).value.end <= b
    ensures ReadSpan(data[a..b], offset - a) == Ok(Shifted(ReadSpan(data, offset).value, a))
  {
    assert data[a..b][offset - a..] == data[offset..][..b - offset];
    HeaderFromPrefix(data[offset..], b - offset);
  }

  function ShiftAll(spans: seq<Span>, a: nat): (r: seq<Span>)
    requires forall s | s in spans :: a <= s.start && a <= s.body && a <= s.end
    ensures |r| == |spans|
  {
    if spans == [] then [] else [Shifted(spans[0], a)] + ShiftAll(spans[1..], a)
  }

  lemma {:induction false} TilesShift(spans: seq<Span>, from: nat, to: nat, a: nat)
    requires Tiles(spans, from, to) && a <= from
    ensures forall s | s in spans :: from <= s.start && from <= s.body && from <= s.end <= to
    ensures from <= to && Tiles(ShiftAll(spans, a), from - a, to - a)
    ensures forall t | t in ShiftAll(spans, a) :: exists s ::
      s in spans && a <= s.start && a <= s.body && a <= s.end && t == Shifted(s, a)
  {
    if spans != [] {
      TilesShift(spans[1..], spans[0].end, to, a);
    }
  }

  /** Reading a slice of the data gives the same packets, moved to the start of the slice. */
  lemma ReadsInSlice(data: Bytes, spans: seq<Span>, a: nat, b: nat)
    requires a <= b <= |data| && Reads(data, spans, a, b)
    ensures forall s | s in spans :: a <= s.start && a <= s.body && a <= s.end <= b
    ensures Reads(data[a..b], ShiftAll(spans, a), 0, b - a)
  {
    TilesShift(spans, a, b, a);
    forall t | t in ShiftAll(spans, a)
      ensures IsSpanOf(data[a..b], t)
    {
      var s :| s in spans && a <= s.start && a <= s.body && a <= s.end && t == Shifted(s, a);
      SpanInSlice(data, s, a, b);
    }
  }

  lemma SpanInSlice(data: Bytes, s: Span, a: nat, b: nat)
    requires b <= |data| && IsSpanOf(data, s) && a <= s.start && a <= s.body && a <= s.end <= b
    ensures IsSpanOf(data[a..b], Shifted(s, a))
  {
    ReadInSlice(data, a, b, s.start);
  }

  lemma {:induction false} ReadsAreOffsets(data: Bytes, spans: seq<Span>, from: nat, count: nat)
    requires Reads(data, spans, from, |data|)
    ensures from <= |data| && Offsets(data, from, None, count) == Ok(spans)
    decreases |spans|
  {
    if spans != [] {
      assert IsSpanOf(data, spans[0]);
      ReadsAreOffsets(data, spans[1..], spans[0].end, count + 1);
      assert spans == [spans[0]] + spans[1..];
    }
  }

  lemma {:induction false} BodiesInSlice(data: Bytes, spans: seq<Span>, a: nat, b: nat)
    requires a <= b <= |data|
    requires forall s | s in spans :: Readable(data, s) && a <= s.start && a <= s.body && a <= s.end <= b
    ensures forall s | s in ShiftAll(spans, a) :: Readable(data[a..b], s)
    ensures Bodies(data[a..b], ShiftAll(spans, a)) == Bodies(data, spans)
  {
    if spans != [] {
      var s := spans[0];
      SliceOfSlice(data, a, b, s.body, s.end);
      BodiesInSlice(data, spans[1..], a, b);
    }
  }

  /** The packets of a slice that begins and ends at packet boundaries. */
  lemma FramesOfSlice(data: Bytes, spans: seq<Span>, a: nat, b: nat)
    requires a <= b <= |data| && Reads(data, spans, a, b) && forall s | s in spans :: Readable(data, s)
    ensures Frames(data[a..b]) == Ok(Bodies(data, spans))
  {
    ReadsInSlice(data, spans, a, b);
    BodiesInSlice(data, spans, a, b);
    ReadsGiveFrames(data[a..b], ShiftAll(spans, a));
  }

  lemma ReadsGiveFrames(data: Bytes, spans: seq<Span>)
    requires Reads(data, spans, 0, |data|) && forall s | s in spans :: Readable(data, s)
    ensures Frames(data) == Ok(Bodies(data, spans))
  {
    ReadsAreOffsets(data, spans, 0, 0);
  }

  // ----- the split -----

  /** What the i-th part holds: the raw slice of the upload, and the same packets framed afresh. */
  predicate IsPart(data: Bytes, spans: seq<Span>, i: nat, part: Part)
    requires Reads(data, spans, 0, |data|) && i < |Starts(spans)|
  {
    var segment := Segment(spans, i);
    (forall s | s in segment :: Readable(data, s))
    && Frames(part.span) == Ok(Bodies(data, segment))
    && Frames(part.block) == Ok(Bodies(data, segment))
    && part.block == FramedAll(Bodies(data, segment))
    && part.span == SpanAt(data, spans, i)
  }

  predicate AllParts(data: Bytes, spans: seq<Span>, parts: seq<Part>)
    requires Reads(data, spans, 0, |data|) && |parts| <= |Starts(spans)|
  {
    forall i: nat | i < |parts| :: IsPart(data, spans, i, parts[i])
  }

  lemma OneMorePart(data: Bytes, spans: seq<Span>, parts: seq<Part>, part: Part)
    requires Reads(data, spans, 0, |data|) && |parts| < |Starts(spans)|
    requires AllParts(data, spans, parts) && IsPart(data, spans, |parts|, part)
    ensures AllParts(data, spans, parts + [part])
  {
    var all := parts + [part];
    forall i: nat | i < |all|
      ensures IsPart(data, spans, i, all[i])
    {
      if i < |parts| {
        assert IsPart(data, spans, i, parts[i]);
      }
    }
  }

  lemma PartSpans(data: Bytes, spans: seq<Span>, parts: seq<Part>)
    requires Offsets(data, 0, None, 0) == Ok(spans) && Reads(data, spans, 0, |data|)
    requires |parts| == |Starts(spans)| && AllParts(data, spans, parts)
    ensures CertificateSpans(data) == Ok(SpansOf(parts))
  {
    forall i: nat | i < |parts|
      ensures parts[i].span == SpanAt(data, spans, i)
    {
      assert IsPart(data, spans, i, parts[i]);
    }
    assert AllSpans(data, spans) == SpansOf(parts);
    SpansAre(data, spans);
  }

  lemma SpansAre(data: Bytes, spans: seq<Span>)
    requires Offsets(data, 0, None, 0) == Ok(spans) && Reads(data, spans, 0, |data|)
    ensures CertificateSpans(data) == Ok(AllSpans(data, spans))
  {
  }

  predicate WithinLimit(n: nat, limit: Option<nat>) {
    limit.Some? ==> n <= limit.value
  }

  lemma PartIsPart(data: Bytes, spans: seq<Span>, i: nat, part: Part)
    requires Reads(data, spans, 0, |data|) && i < |Starts(spans)|
    requires forall s | s in Segment(spans, i) :: Readable(data, s)
    requires part == Part(FramedAll(Bodies(data, Segment(spans, i))), SpanAt(data, spans, i))
    ensures IsPart(data, spans, i, part)
  {
    SegmentReads(data, spans, i);
    PacketStreams.FramesOfFramed(Bodies(data, Segment(spans, i)));
  }

  /** The primary key packet of the i-th certificate has a body. */
  predicate Filled(spans: seq<Span>, i: nat)
    requires i < |Starts(spans)|
  {
    Segment(spans, i)[0].body != Segment(spans, i)[0].end
  }

  /** No primary key packet is empty. */
  predicate PrimariesFilled(spans: seq<Span>) {
    forall s | s in spans && s.tag == PRIMARY_KEY_TAG :: s.body != s.end
  }

  lemma SegmentStarts(spans: seq<Span>, k: nat)
    requires k < |Starts(spans)|
    ensures Segment(spans, k)[0] == spans[Starts(spans)[k]]
  {
  }

  lemma SomeSegment(spans: seq<Span>, s: Span) returns (k: nat)
    requires s in spans && s.tag == PRIMARY_KEY_TAG
    ensures k < |Starts(spans)| && Segment(spans, k)[0] == s
  {
    var n: nat :| n < |spans| && spans[n] == s;
    assert n in Starts(spans);
    k :| k < |Starts(spans)| && Starts(spans)[k] == n;
    SegmentStarts(spans, k);
  }

  lemma FilledFromStarts(spans: seq<Span>)
    ensures PrimariesFilled(spans) <==> forall k: nat | k < |Starts(spans)| :: Filled(spans, k)
  {
    if forall k: nat | k < |Starts(spans)| :: Filled(spans, k) {
      forall s | s in spans && s.tag == PRIMARY_KEY_TAG
        ensures s.body != s.end
      {
        var k := SomeSegment(spans, s);
        assert Filled(spans, k);
      }
    }
    forall k: nat | k < |Starts(spans)| && PrimariesFilled(spans)
      ensures Filled(spans, k)
    {
      SegmentStarts(spans, k);
    }
  }

  /** Frames the packets of one certificate afresh, beside the raw slice of them. */
  method MakePart(data: Bytes, spans: seq<Span>, i: nat) returns (part: Option<Part>)
    requires Reads(data, spans, 0, |data|) && i < |Starts(spans)|
    ensures part.Some? <==> Filled(spans, i)
    ensures part.Some? ==> IsPart(data, spans, i, part.value)
  {
    var segment := Segment(spans, i);
    SegmentReads(data, spans, i);
    if segment[0].body == segment[0].end {
      return None;
    }
    part := Some(Part(FramedAll(Bodies(data, segment)), data[segment[0].start..segment[|segment| - 1].end]));
    PartIsPart(data, spans, i, part.value);
  }

  method MakeParts(data: Bytes, spans: seq<Span>) returns (parts: seq<Part>, filled: bool)
    requires Reads(data, spans, 0, |data|)
    ensures filled <==> PrimariesFilled(spans)
    ensures filled ==> |parts| == |Starts(spans)| && AllParts(data, spans, parts)
  {
    hide Reads, IsPart, Filled, PrimariesFilled;
    FilledFromStarts(spans);
    parts := [];
    for i := 0 to |Starts(spans)|
      invariant |parts| == i && AllParts(data, spans, parts)
      invariant forall k: nat | k < i :: Filled(spans, k)
    {
      var part := MakePart(data, spans, i);
      if part.None? {
        return parts, false;
      }
      OneMorePart(data, spans, parts, part.value);
      parts := parts + [part.value];
    }
    filled := true;
  }

  /** Splits a block. Both limits only refuse, and so does an empty primary key packet; the raw slices are those of
      `CertificateSpans`; and the fresh framing of each part holds exactly the packets of its slice. */
  method Split(data: Bytes, packetLimit: Option<nat>, certificateLimit: Option<nat>)
    returns (r: Result<(seq<Part>, nat), PartsError>)
    ensures r.Ok? ==>
              var free, (parts, count) := Offsets(data, 0, None, 0), r.value;
              free.Ok? && Reads(data, free.value, 0, |data|)
              && count == |free.value| && WithinLimit(count, packetLimit)
              && |parts| == |Starts(free.value)| && WithinLimit(|parts|, certificateLimit)
              && PrimariesFilled(free.value) && AllParts(data, free.value, parts)
              && CertificateSpans(data) == Ok(SpansOf(parts))
    ensures r.Err? ==>
              var free := Offsets(data, 0, None, 0);
              match r.error
              case Packet(e) => Offsets(data, 0, packetLimit, 0) == Err(e)
              case TooManyCertificates => free.Ok? && !WithinLimit(|Starts(free.value)|, certificateLimit)
              case EmptyPrimary => free.Ok? && !PrimariesFilled(free.value)
  {
    var read := FrameOffsets(data, packetLimit);
    if read.Err? {
      return Err(Packet(read.error));
    }
    var spans := read.value;
    LimitIsTransparent(data, packetLimit);
    OffsetsRead(data, 0, None, 0);
    if certificateLimit.Some? && |Starts(spans)| > certificateLimit.value {
      return Err(TooManyCertificates);
    }
    var parts, filled := MakeParts(data, spans);
    if !filled {
      return Err(EmptyPrimary);
    }
    PartSpans(data, spans, parts);
    return Ok((parts, |spans|));
  }

  lemma LimitIsTransparent(data: Bytes, limit: Option<nat>)
    requires Offsets(data, 0, limit, 0).Ok?
    ensures Offsets(data, 0, limit, 0) == Offsets(data, 0, None, 0)
    ensures WithinLimit(|Offsets(data, 0, limit, 0).value|, limit)
  {
    if limit.Some? {
      LimitOnlyRefuses(data, 0, limit.value, 0);
    }
  }

  /** A certificate runs from its primary key packet to the next one, or to the end. */
  lemma SegmentReads(data: Bytes, spans: seq<Span>, i: nat)
    requires Reads(data, spans, 0, |data|) && i < |Starts(spans)|
    ensures var segment := Segment(spans, i);
            var a, b := OffsetAt(spans, Bound(spans, i), |data|), OffsetAt(spans, Bound(spans, i + 1), |data|);
            segment[0].start == a && segment[|segment| - 1].end == b && a <= b <= |data|
            && (forall s | s in segment :: Readable(data, s)) && Frames(data[a..b]) == Ok(Bodies(data, segment))
  {
    hide Frames, Bodies, Readable, Tiles;
    var begin, end := Bound(spans, i), Bound(spans, i + 1);
    ReadsBetween(data, spans, 0, |data|, begin, end);
    LastEnd(spans, 0, |data|, end);
    FramesOfSlice(data, Segment(spans, i), OffsetAt(spans, begin, |data|), OffsetAt(spans, end, |data|));
  }

  lemma LastEnd(spans: seq<Span>, from: nat, to: nat, k: nat)
    requires Tiles(spans, from, to) && 0 < k <= |spans|
    ensures spans[k - 1].end == OffsetAt(spans, k, to)
  {
    TilesBetween(spans, from, to, k - 1, k);
    assert spans[k - 1..k] == [spans[k - 1]] && [spans[k - 1]][1..] == [];
  }
}
