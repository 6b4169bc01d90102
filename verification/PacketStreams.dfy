/** Which data reads as packets, and as which, by section 4.2 of RFC 9580. */
module PacketStreams {
  import opened Wrappers
  import opened Packets

  /** The headers of section 4.2 of RFC 9580, by format and octets of length; partial and indeterminate lengths
      are not among them. */
  datatype Encoding = OldOne | OldTwo | OldFour | NewOne | NewTwo | NewFive

  datatype Coded = Coded(frame: Frame, encoding: Encoding)

  predicate Fits(c: Coded) {
    match c.encoding
    case OldOne => c.frame.tag < 16 && |c.frame.body| < 256
    case OldTwo => c.frame.tag < 16 && |c.frame.body| < 0x1_0000
    case OldFour => c.frame.tag < 16
    case NewOne => |c.frame.body| < 192
    case NewTwo => 192 <= |c.frame.body| < 8384
    case NewFive => true
  }

  function HeaderOctets(c: Coded): (octets: Bytes)
    requires Fits(c)
    ensures 2 <= |octets| <= 6
  {
    var tag, n := c.frame.tag, |c.frame.body|;
    match c.encoding
    case OldOne => [128 + 4 * tag, n]
    case OldTwo => [129 + 4 * tag, n / 256, n % 256]
    case OldFour => [130 + 4 * tag, n / 0x100_0000, n / 0x1_0000 % 256, n / 256 % 256, n % 256]
    case NewOne => [192 + tag, n]
    case NewTwo => [192 + tag, 192 + (n - 192) / 256, (n - 192) % 256]
    case NewFive => [192 + tag, 255, n / 0x100_0000, n / 0x1_0000 % 256, n / 256 % 256, n % 256]
  }

  function Packet(c: Coded): Bytes
    requires Fits(c)
  {
    HeaderOctets(c) + c.frame.body
  }

  predicate AllFit(cs: seq<Coded>) {
    forall c | c in cs :: Fits(c)
  }

  /** Packets one after the other, each in its own format. */
  function Stream(cs: seq<Coded>): Bytes
    requires AllFit(cs)
  {
    if cs == [] then [] else Packet(cs[0]) + Stream(cs[1..])
  }

  function FramesIn(cs: seq<Coded>): (frames: seq<Frame>)
    ensures |frames| == |cs| && forall i | 0 <= i < |cs| :: frames[i] == cs[i].frame
  {
    if cs == [] then [] else [cs[0].frame] + FramesIn(cs[1..])
  }

  lemma BigEndianTwo(a: Octet, b: Octet)
    ensures BigEndian([a, b]) == a as int * 256 + b as int
  {
    BigEndianLast([], a);
    BigEndianLast([a], b);
    assert [] + [a] == [a] && [a] + [b] == [a, b];
  }

  lemma BigEndianOne(a: Octet)
    ensures BigEndian([a]) == a as int
  {
    BigEndianLast([], a);
    assert [] + [a] == [a];
  }

  /** Every header is read as what it says, whatever follows. */
  lemma HeaderIsRead(c: Coded, rest: Bytes)
    requires Fits(c)
    ensures ReadHeader(HeaderOctets(c) + rest) == Ok(Header(c.frame.tag, |HeaderOctets(c)|, |c.frame.body|))
  {
    hide BigEndian;
    var octets, n := HeaderOctets(c), |c.frame.body|;
    var data := octets + rest;
    assert data[0] == octets[0] && data[1] == octets[1];
    match c.encoding {
      case OldOne =>
        BigEndianOne(n);
        assert data[1..2] == [octets[1]];
      case OldTwo =>
        BigEndianTwo(n / 256, n % 256);
        assert data[1..3] == octets[1..3] == [octets[1], octets[2]];
      case OldFour =>
        BigEndianOfLength(n);
        assert data[1..5] == octets[1..5] == LengthOctets(n);
      case NewOne =>
      case NewTwo =>
        assert data[2] == octets[2];
      case NewFive =>
        BigEndianOfLength(n);
        assert data[2..6] == octets[2..6] == LengthOctets(n);
    }
  }

  lemma DigitsOfTwo(a: Octet, b: Octet)
    ensures var n := a as int * 256 + b as int; n / 256 == a && n % 256 == b
  {
  }

  lemma DigitsOfFour(a: Octet, b: Octet, c: Octet, d: Octet)
    ensures var n := ((a as int * 256 + b as int) * 256 + c as int) * 256 + d as int;
            n / 0x100_0000 == a && n / 0x1_0000 % 256 == b && n / 256 % 256 == c && n % 256 == d
  {
    var n := ((a as int * 256 + b as int) * 256 + c as int) * 256 + d as int;
    assert n / 256 == (a as int * 256 + b as int) * 256 + c as int;
    assert n / 0x1_0000 == n / 256 / 256 == a as int * 256 + b as int;
    assert n / 0x100_0000 == n / 0x1_0000 / 256 == a;
  }

  lemma OldIsHeader(data: Bytes, f: Frame) returns (c: Coded)
    requires data != [] && data[0] < 192 && ReadHeader(data).Ok?
    requires |f.body| == ReadHeader(data).value.length && f.tag == ReadHeader(data).value.tag
    ensures Fits(c) && c.frame == f && HeaderOctets(c) == data[..ReadHeader(data).value.size]
  {
    hide BigEndian;
    var kind := data[0] % 4;
    c := Coded(f, if kind == 0 then OldOne else if kind == 1 then OldTwo else OldFour);
    if kind == 0 {
      BigEndianOne(data[1]);
      assert data[1..2] == [data[1]];
    } else if kind == 1 {
      DigitsOfTwo(data[1], data[2]);
      BigEndianTwo(data[1], data[2]);
      assert data[1..3] == [data[1], data[2]];
    } else {
      DigitsOfFour(data[1], data[2], data[3], data[4]);
      BigEndianFour(data[1], data[2], data[3], data[4]);
      assert data[1..1 + 4] == [data[1], data[2], data[3], data[4]];
    }
  }

  lemma NewIsHeader(data: Bytes, f: Frame) returns (c: Coded)
    requires data != [] && data[0] >= 192 && ReadHeader(data).Ok?
    requires |f.body| == ReadHeader(data).value.length && f.tag == ReadHeader(data).value.tag
    ensures Fits(c) && c.frame == f && HeaderOctets(c) == data[..ReadHeader(data).value.size]
  {
    hide BigEndian;
    var first := data[1];
    c := Coded(f, if first < 192 then NewOne else if first < 224 then NewTwo else NewFive);
    if first == 255 {
      DigitsOfFour(data[2], data[3], data[4], data[5]);
      BigEndianFour(data[2], data[3], data[4], data[5]);
      assert data[2..6] == [data[2], data[3], data[4], data[5]];
    }
  }

  /** Whatever is read as a header is one of these. */
  lemma ReadIsHeader(data: Bytes, body: Bytes) returns (c: Coded)
    requires data != [] && ReadHeader(data).Ok? && |body| == ReadHeader(data).value.length
    ensures Fits(c) && c.frame.body == body && c.frame.tag == ReadHeader(data).value.tag
    ensures ReadHeader(data).value.size <= |data| && HeaderOctets(c) == data[..ReadHeader(data).value.size]
  {
    ReadLengthBound(data);
    HeaderInside(data);
    var f: Frame := RawFrame(ReadHeader(data).value.tag, body);
    hide ReadHeader;
    if data[0] >= 192 {
      c := NewIsHeader(data, f);
    } else {
      c := OldIsHeader(data, f);
    }
  }

  lemma HeaderInside(data: Bytes)
    requires data != [] && ReadHeader(data).Ok?
    ensures ReadHeader(data).value.size <= |data|
  {
  }

  lemma PacketIsRead(before: Bytes, c: Coded, rest: Bytes)
    requires Fits(c)
    ensures var data, n, m := before + Packet(c) + rest, |before|, |before| + |Packet(c)|;
            n < m <= |data| && m == |before + Packet(c)|
            && ReadSpan(data, n) == Ok(Span(c.frame.tag, n, m - |c.frame.body|, m))
            && data[m - |c.frame.body|..m] == c.frame.body
  {
    var data := before + Packet(c) + rest;
    assert data[|before|..] == HeaderOctets(c) + (c.frame.body + rest);
    HeaderIsRead(c, c.frame.body + rest);
    BodySlice(before, Packet(c), rest, |c.frame.body|);
    assert Packet(c)[|HeaderOctets(c)|..] == c.frame.body;
  }

  lemma YieldsOne(before: Bytes, c: Coded, tail: Bytes, limit: Option<nat>, count: nat, rest: seq<Frame>)
    requires Fits(c) && limit != Some(count)
    requires Yields(before + Packet(c) + tail, |before + Packet(c)|, limit, count + 1, rest)
    ensures Yields(before + Packet(c) + tail, |before|, limit, count, [c.frame] + rest)
  {
    hide Offsets;
    PacketIsRead(before, c, tail);
    var data := before + Packet(c) + tail;
    OffsetsStep(data, |before|, ReadSpan(data, |before|).value, limit, count, rest);
  }

  /** Reading a stream of packets gives exactly their tags and bodies, whatever format each of them is in. */
  lemma {:induction false} StreamYields(before: Bytes, cs: seq<Coded>, limit: Option<nat>, count: nat)
    requires AllFit(cs) && (limit.Some? ==> count + |cs| <= limit.value)
    ensures Yields(before + Stream(cs), |before|, limit, count, FramesIn(cs))
    decreases |cs|
  {
    if cs != [] {
      var c, rest := cs[0], cs[1..];
      Regroup(before, Packet(c), Stream(rest));
      StreamYields(before + Packet(c), rest, limit, count + 1);
      YieldsOne(before, c, Stream(rest), limit, count, FramesIn(rest));
    }
  }

  /** What is left of the data, when it is not the beginning of a packet, or not all of one, makes an error; the first
      octets say which. */
  ghost predicate Fails(tail: Bytes, e: PacketError)
    requires tail != []
  {
    var first, kind := tail[0], tail[0] % 4;
    match e
    case InvalidMarker => first < 128
    case IndeterminateLength => 128 <= first < 192 && kind == 3
    case PartialLength => first >= 192 && |tail| >= 2 && 224 <= tail[1] < 255
    case TruncatedHeader =>
      if first >= 192
        then |tail| < 2 || (192 <= tail[1] < 224 && |tail| < 3) || (tail[1] == 255 && |tail| < 6)
      else first >= 128 && |tail| < if kind == 0 then 2 else if kind == 1 then 3 else if kind == 2 then 5 else 0
    case TruncatedPacket =>
      exists c: Coded :: Fits(c) && |HeaderOctets(c)| <= |tail| < |Packet(c)| && tail == Packet(c)[..|tail|]
    case LimitExceeded => false
  }

  lemma FailureIsReported(before: Bytes, tail: Bytes, e: PacketError)
    requires tail != [] && Fails(tail, e)
    ensures ReadSpan(before + tail, |before|) == Err(e)
  {
    assert (before + tail)[|before|..] == tail;
    if e.TruncatedPacket? {
      var c: Coded :| Fits(c) && |HeaderOctets(c)| <= |tail| < |Packet(c)| && tail == Packet(c)[..|tail|];
      var rest := tail[|HeaderOctets(c)|..];
      assert tail == HeaderOctets(c) + rest;
      HeaderIsRead(c, rest);
    }
  }

  lemma ReportedFailure(data: Bytes, offset: nat, e: PacketError)
    requires offset < |data| && ReadSpan(data, offset) == Err(e)
    ensures Fails(data[offset..], e)
  {
    var tail := data[offset..];
    if ReadHeader(tail).Ok? {
      var h := ReadHeader(tail).value;
      var missing := h.size + h.length - |tail|;
      var c := ReadIsHeader(tail, tail[h.size..] + seq(missing, _ => 0));
      assert tail == Packet(c)[..|tail|];
    }
  }

  /** After packets that are all there, the first one that is not decides the error. */
  lemma {:induction false} StreamFails(before: Bytes, cs: seq<Coded>, tail: Bytes, limit: Option<nat>, count: nat,
                                       e: PacketError)
    requires AllFit(cs) && tail != []
    requires limit.Some? ==> count + |cs| <= limit.value
    requires if limit == Some(count + |cs|) then e == LimitExceeded else Fails(tail, e)
    ensures Offsets(before + Stream(cs) + tail, |before|, limit, count) == Err(e)
    decreases |cs|
  {
    hide ReadSpan, Packet, Fails;
    if cs == [] {
      assert before + Stream(cs) + tail == before + tail;
      if limit != Some(count) {
        FailureIsReported(before, tail, e);
      }
    } else {
      var c, rest := cs[0], cs[1..];
      StreamFails(before + Packet(c), rest, tail, limit, count + 1, e);
      PacketIsRead(before, c, Stream(rest) + tail);
      assert before + Stream(cs) + tail == before + Packet(c) + (Stream(rest) + tail);
      assert before + Packet(c) + Stream(rest) + tail == before + Packet(c) + (Stream(rest) + tail);
    }
  }

  /** Any data is a stream of packets, as many as the limit allows, and what is left: nothing, or what makes the
      error. */
  lemma {:induction false} DataIsStream(data: Bytes, offset: nat, limit: Option<nat>, count: nat)
    returns (cs: seq<Coded>, tail: Bytes)
    requires offset <= |data| && (limit.Some? ==> count <= limit.value)
    ensures AllFit(cs) && data[offset..] == Stream(cs) + tail && (limit.Some? ==> count + |cs| <= limit.value)
    ensures var r := Offsets(data, offset, limit, count);
            if r.Ok? then tail == []
            else tail != [] && if limit == Some(count + |cs|) then r.error == LimitExceeded else Fails(tail, r.error)
    decreases |data| - offset
  {
    hide ReadSpan, Packet, Fails;
    cs, tail := [], data[offset..];
    if offset < |data| && limit != Some(count) {
      var r := ReadSpan(data, offset);
      if r.Err? {
        ReportedFailure(data, offset, r.error);
      } else {
        var end := r.value.end;
        var c := SpanIsPacket(data, offset, r.value);
        var later;
        later, tail := DataIsStream(data, end, limit, count + 1);
        cs := [c] + later;
        assert cs[1..] == later;
        assert data[offset..] == data[offset..end] + data[end..];
      }
    }
  }

  lemma SpanIsPacket(data: Bytes, offset: nat, span: Span) returns (c: Coded)
    requires offset < |data| && ReadSpan(data, offset) == Ok(span)
    ensures Fits(c) && data[offset..span.end] == Packet(c)
  {
    hide ReadHeader;
    c := ReadIsHeader(data[offset..], data[span.body..span.end]);
    assert data[offset..][..span.body - offset] == data[offset..span.body];
    assert data[offset..span.end] == data[offset..span.body] + data[span.body..span.end];
  }

  /** Reading gives a list of tags and bodies exactly when the data is those packets one after the other, each in
      any of the formats that it fits. */
  lemma ReadsExactly(data: Bytes, frames: seq<Frame>)
    ensures Frames(data) == Ok(frames) <==>
            exists cs: seq<Coded> :: AllFit(cs) && FramesIn(cs) == frames && Stream(cs) == data
  {
    if Frames(data) == Ok(frames) {
      var cs, tail := DataIsStream(data, 0, None, 0);
      assert Stream(cs) == data;
      StreamYields([], cs, None, 0);
      assert [] + Stream(cs) == data;
    }
    if cs: seq<Coded> :| AllFit(cs) && FramesIn(cs) == frames && Stream(cs) == data {
      StreamYields([], cs, None, 0);
      assert [] + Stream(cs) == data;
    }
  }

  /** Reading fails, with or without a limit on the number of packets, exactly for packets followed by what makes the
      error: one more than the limit, or the beginning of no packet. */
  lemma FailsExactly(data: Bytes, limit: Option<nat>, e: PacketError)
    ensures Offsets(data, 0, limit, 0) == Err(e) <==>
            exists cs: seq<Coded>, tail: Bytes :: IsFailure(data, limit, e, cs, tail)
  {
    hide Offsets, Stream, Fails, AllFit;
    if Offsets(data, 0, limit, 0) == Err(e) {
      var cs, tail := DataIsStream(data, 0, limit, 0);
      assert data[0..] == data;
      assert IsFailure(data, limit, e, cs, tail);
    }
    if cs: seq<Coded>, tail: Bytes :| IsFailure(data, limit, e, cs, tail) {
      StreamFails([], cs, tail, limit, 0, e);
      assert [] + Stream(cs) + tail == data;
    }
  }

  ghost predicate IsFailure(data: Bytes, limit: Option<nat>, e: PacketError, cs: seq<Coded>, tail: Bytes) {
    && AllFit(cs) && tail != [] && data == Stream(cs) + tail
    && (limit.Some? ==> |cs| <= limit.value)
    && if limit == Some(|cs|) then e == LimitExceeded else Fails(tail, e)
  }

  // ----- reading back what is written -----

  /** Packets are written in the new format, with the shortest length. */
  lemma FramedIsNew(f: Frame)
    ensures var n := |f.body|; var c := Coded(f, if n < 192 then NewOne else if n < 8384 then NewTwo else NewFive);
            Fits(c) && Framed(f) == Packet(c)
  {
  }

  function Shortest(frames: seq<Frame>): (cs: seq<Coded>)
    ensures AllFit(cs) && Stream(cs) == FramedAll(frames) && FramesIn(cs) == frames
  {
    if frames == [] then []
    else
      var f := frames[0];
      var n := |f.body|;
      FramedIsNew(f);
      var c, rest := Coded(f, if n < 192 then NewOne else if n < 8384 then NewTwo else NewFive), Shortest(frames[1..]);
      assert ([c] + rest)[1..] == rest;
      [c] + rest
  }

  /** Whatever frames are written, reading the stream gives them back. */
  lemma FramesOfFramed(frames: seq<Frame>)
    ensures Frames(FramedAll(frames)) == Ok(frames)
  {
    StreamYields([], Shortest(frames), None, 0);
    assert [] + FramedAll(frames) == FramedAll(frames);
  }
}
