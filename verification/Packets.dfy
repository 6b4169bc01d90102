/** OpenPGP packet framing, by sections 4.2.1 and 4.2.2 of RFC 9580. */
module Packets {
  import opened Wrappers

  const PRIMARY_KEY_TAG := 6

  type Octet = n: int | 0 <= n < 256
  type Bytes = seq<Octet>

  datatype RawFrame = RawFrame(tag: nat, body: Bytes)

  /** A packet that can be framed: six bits of tag, four octets of length. */
  type Frame = f: RawFrame | f.tag < 64 && |f.body| < 0x1_0000_0000 witness RawFrame(0, [])

  datatype PacketError = LimitExceeded | InvalidMarker | TruncatedHeader | PartialLength | IndeterminateLength
                       | TruncatedPacket

  datatype Header = Header(tag: nat, size: nat, length: nat)

  /** One packet of a stream: its tag, where it starts, where its body starts, where it ends. */
  datatype Span = Span(tag: nat, start: nat, body: nat, end: nat)

  function BigEndian(octets: Bytes): (n: nat) {
    if octets == [] then 0 else BigEndian(octets[..|octets| - 1]) * 256 + octets[|octets| - 1] as int
  }

  /** The header at the front of the data, in the new format or the old one. */
  function ReadHeader(data: Bytes): (r: Result<Header, PacketError>)
    requires data != []
    ensures r.Ok? ==> r.value.tag < 64 && 2 <= r.value.size <= 6
  {
    var ctb := data[0];
    if ctb < 128 then Err(InvalidMarker)
    else if ctb / 64 % 2 == 1 then NewHeader(ctb % 64, data)
    else
      var kind := ctb % 4;
      if kind == 3 then Err(IndeterminateLength)
      else
        var sizes := if kind == 0 then 1 else if kind == 1 then 2 else 4;
        if |data| < 1 + sizes then Err(TruncatedHeader)
        else Ok(Header(ctb / 4 % 16, 1 + sizes, BigEndian(data[1..1 + sizes])))
  }

  function NewHeader(tag: nat, data: Bytes): (r: Result<Header, PacketError>)
    requires data != [] && tag < 64
    ensures r.Ok? ==> r.value.tag == tag && 2 <= r.value.size <= 6
  {
    if |data| < 2 then Err(TruncatedHeader)
    else
      var first := data[1];
      if first < 192 then Ok(Header(tag, 2, first))
      else if first < 224 then
        if |data| < 3 then Err(TruncatedHeader)
        else Ok(Header(tag, 3, (first as int - 192) * 256 + data[2] as int + 192))
      else if first == 255 then
        if |data| < 6 then Err(TruncatedHeader)
        else Ok(Header(tag, 6, BigEndian(data[2..6])))
      else Err(PartialLength)
  }

  function ReadSpan(data: Bytes, offset: nat): (r: Result<Span, PacketError>)
    requires offset < |data|
    ensures r.Ok? ==> offset + 2 <= r.value.body <= r.value.end <= |data| && r.value.start == offset && r.value.tag < 64
  {
    match ReadHeader(data[offset..])
    case Err(e) => Err(e)
    case Ok(h) =>
      var end := offset + h.size + h.length;
      if end > |data| then Err(TruncatedPacket) else Ok(Span(h.tag, offset, offset + h.size, end))
  }

  /** The packets from an offset on, when `count` have been read before. */
  function Offsets(data: Bytes, offset: nat, limit: Option<nat>, count: nat): Result<seq<Span>, PacketError>
    requires offset <= |data|
    decreases |data| - offset
  {
    if offset == |data| then Ok([])
    else if limit == Some(count) then Err(LimitExceeded)
    else
      match ReadSpan(data, offset)
      case Err(e) => Err(e)
      case Ok(span) =>
        match Offsets(data, span.end, limit, count + 1)
        case Err(e) => Err(e)
        case Ok(rest) => Ok([span] + rest)
  }

  function Prepend(done: seq<Span>, rest: Result<seq<Span>, PacketError>): Result<seq<Span>, PacketError> {
    if rest.Ok? then Ok(done + rest.value) else rest
  }

  method FrameOffsets(data: Bytes, limit: Option<nat>) returns (r: Result<seq<Span>, PacketError>)
    ensures r == Offsets(data, 0, limit, 0)
  {
    hide ReadSpan;
    var offsets: seq<Span> := [];
    var offset := 0;
    ghost var all := Offsets(data, 0, limit, 0);
    assert all.Ok? ==> [] + all.value == all.value;
    while offset < |data|
      invariant offset <= |data|
      invariant Prepend(offsets, Offsets(data, offset, limit, |offsets|)) == Offsets(data, 0, limit, 0)
    {
      if limit == Some(|offsets|) {
        return Err(LimitExceeded);
      }
      var span := ReadSpan(data, offset);
      if span.Err? {
        return Err(span.error);
      }
      ghost var rest := Offsets(data, span.value.end, limit, |offsets| + 1);
      assert rest.Ok? ==> offsets + ([span.value] + rest.value) == offsets + [span.value] + rest.value;
      offsets := offsets + [span.value];
      offset := span.value.end;
    }
    assert Offsets(data, offset, limit, |offsets|) == Ok([]);
    assert offsets + [] == offsets;
    return Ok(offsets);
  }

  // ----- the spans tile the data -----

  /** Spans that follow one another from one offset to another, with no gap and no overlap. */
  predicate Tiles(spans: seq<Span>, from: nat, to: nat) {
    if spans == [] then from == to
    else spans[0].start == from && from + 2 <= spans[0].body <= spans[0].end && Tiles(spans[1..], spans[0].end, to)
  }

  lemma {:induction false} OffsetsTile(data: Bytes, offset: nat, limit: Option<nat>, count: nat)
    requires offset <= |data| && Offsets(data, offset, limit, count).Ok?
    ensures var spans := Offsets(data, offset, limit, count).value;
            Tiles(spans, offset, |data|)
              && (forall s | s in spans :: offset <= s.start && s.body <= s.end <= |data| && s.tag < 64)
    decreases |data| - offset
  {
    if offset < |data| {
      var span := ReadSpan(data, offset).value;
      OffsetsTile(data, span.end, limit, count + 1);
      var rest := Offsets(data, span.end, limit, count + 1).value;
      assert ([span] + rest)[1..] == rest;
    }
  }

  /** A limit changes nothing but whether the data is accepted, and then it bounds the packets. */
  lemma {:induction false} LimitOnlyRefuses(data: Bytes, offset: nat, limit: nat, count: nat)
    requires offset <= |data| && count <= limit
    ensures var r, free := Offsets(data, offset, Some(limit), count), Offsets(data, offset, None, count);
            r.Ok? <==> free.Ok? && |free.value| <= limit - count
    ensures Offsets(data, offset, Some(limit), count).Ok?
      ==> Offsets(data, offset, Some(limit), count) == Offsets(data, offset, None, count)
    decreases |data| - offset
  {
    if offset < |data| && count < limit {
      var r := ReadSpan(data, offset);
      if r.Ok? {
        LimitOnlyRefuses(data, r.value.end, limit, count + 1);
        CountIrrelevant(data, r.value.end, count + 1, count);
      }
    }
  }

  lemma {:induction false} CountIrrelevant(data: Bytes, offset: nat, m: nat, n: nat)
    requires offset <= |data|
    ensures Offsets(data, offset, None, m) == Offsets(data, offset, None, n)
    decreases |data| - offset
  {
    if offset < |data| {
      var r := ReadSpan(data, offset);
      if r.Ok? {
        CountIrrelevant(data, r.value.end, m + 1, n + 1);
      }
    }
  }

  // ----- writing frames and reading them back -----

  function LengthOctets(n: nat): (octets: Bytes)
    requires n < 0x1_0000_0000
    ensures |octets| == 4
  {
    [n / 0x100_0000, n / 0x1_0000 % 256, n / 256 % 256, n % 256]
  }

  function Framed(f: Frame): Bytes {
    var length := |f.body|;
    (if length < 192 then [192 + f.tag, length]
     else if length < 8384 then [192 + f.tag, (length - 192) / 256 + 192, (length - 192) % 256]
     else [192 + f.tag, 255] + LengthOctets(length))
    + f.body
  }

  function FramedAll(frames: seq<Frame>): Bytes {
    if frames == [] then [] else Framed(frames[0]) + FramedAll(frames[1..])
  }

  lemma BigEndianFour(a: Octet, b: Octet, c: Octet, d: Octet)
    ensures BigEndian([a, b, c, d]) == ((a as int * 256 + b) * 256 + c) * 256 + d
  {
    BigEndianLast([], a);
    BigEndianLast([a], b);
    BigEndianLast([a, b], c);
    BigEndianLast([a, b, c], d);
    assert [] + [a] == [a] && [a] + [b] == [a, b] && [a, b] + [c] == [a, b, c] && [a, b, c] + [d] == [a, b, c, d];
  }

  lemma BigEndianLast(octets: Bytes, d: Octet)
    ensures BigEndian(octets + [d]) == BigEndian(octets) * 256 + d
  {
    assert (octets + [d])[..|octets + [d]| - 1] == octets;
  }

  lemma FourDigits(n: nat)
    ensures ((n / 0x100_0000 * 256 + n / 0x1_0000 % 256) * 256 + n / 256 % 256) * 256 + n % 256 == n
  {
    assert n / 0x100_0000 == n / 0x1_0000 / 256;
    assert n / 0x1_0000 == n / 256 / 256;
  }

  lemma BigEndianOfLength(n: nat)
    requires n < 0x1_0000_0000
    ensures BigEndian(LengthOctets(n)) == n
  {
    FourDigits(n);
    BigEndianFour(n / 0x100_0000, n / 0x1_0000 % 256, n / 256 % 256, n % 256);
  }

  lemma {:induction false} BigEndianBound(octets: Bytes)
    requires |octets| <= 4
    ensures BigEndian(octets) < [1, 0x100, 0x1_0000, 0x100_0000, 0x1_0000_0000][|octets|]
  {
    if octets != [] {
      BigEndianBound(octets[..|octets| - 1]);
    }
  }

  /** A body read from a stream is short enough to be framed again. */
  lemma ReadLengthBound(data: Bytes)
    requires data != [] && ReadHeader(data).Ok?
    ensures ReadHeader(data).value.length < 0x1_0000_0000
  {
    if data[0] / 64 % 2 == 1 {
      if |data| >= 6 {
        BigEndianBound(data[2..6]);
      }
    } else {
      var kind := data[0] % 4;
      var sizes := if kind == 0 then 1 else if kind == 1 then 2 else 4;
      BigEndianBound(data[1..1 + sizes]);
    }
  }

  lemma BodySlice(a: Bytes, b: Bytes, c: Bytes, n: nat)
    requires n <= |b|
    ensures (a + b + c)[|a| + |b| - n..|a| + |b|] == b[|b| - n..]
  {
  }

  predicate Readable(data: Bytes, s: Span) {
    s.tag < 64 && s.body <= s.end <= |data| && s.end - s.body < 0x1_0000_0000
  }

  function BodyOf(data: Bytes, s: Span): Frame
    requires Readable(data, s)
  {
    RawFrame(s.tag, data[s.body..s.end])
  }

  lemma {:induction false} OffsetsReadable(data: Bytes, offset: nat, limit: Option<nat>, count: nat)
    requires offset <= |data| && Offsets(data, offset, limit, count).Ok?
    ensures forall s | s in Offsets(data, offset, limit, count).value :: Readable(data, s)
    decreases |data| - offset
  {
    if offset < |data| {
      ReadLengthBound(data[offset..]);
      OffsetsReadable(data, ReadSpan(data, offset).value.end, limit, count + 1);
    }
  }

  function Bodies(data: Bytes, spans: seq<Span>): (frames: seq<Frame>)
    requires forall s | s in spans :: Readable(data, s)
    ensures |frames| == |spans|
  {
    if spans == [] then [] else [BodyOf(data, spans[0])] + Bodies(data, spans[1..])
  }

  function Frames(data: Bytes): Result<seq<Frame>, PacketError> {
    match Offsets(data, 0, None, 0)
    case Err(e) => Err(e)
    case Ok(spans) =>
      OffsetsReadable(data, 0, None, 0);
      Ok(Bodies(data, spans))
  }

  /** Reading the data from an offset to its end gives these frames. */
  predicate Yields(data: Bytes, offset: nat, limit: Option<nat>, count: nat, frames: seq<Frame>) {
    offset <= |data| &&
    var r := Offsets(data, offset, limit, count);
    r.Ok? && (forall s | s in r.value :: Readable(data, s)) && Bodies(data, r.value) == frames
  }

  lemma OffsetsStep(data: Bytes, offset: nat, span: Span, limit: Option<nat>, count: nat, rest: seq<Frame>)
    requires offset < |data| && limit != Some(count) && ReadSpan(data, offset) == Ok(span) && Readable(data, span)
    requires Yields(data, span.end, limit, count + 1, rest)
    ensures Yields(data, offset, limit, count, [BodyOf(data, span)] + rest)
  {
    var spans := Offsets(data, span.end, limit, count + 1).value;
    assert ([span] + spans)[1..] == spans;
  }

  lemma Regroup(a: Bytes, b: Bytes, c: Bytes)
    ensures a + (b + c) == (a + b) + c
  {
  }

  lemma {:induction false} FramedAllConcat(a: seq<Frame>, b: seq<Frame>)
    ensures FramedAll(a + b) == FramedAll(a) + FramedAll(b)
  {
    if a == [] {
      assert a + b == b;
    } else {
      FramedAllConcat(a[1..], b);
      assert (a + b)[1..] == a[1..] + b;
      Regroup(Framed(a[0]), FramedAll(a[1..]), FramedAll(b));
    }
  }
}
