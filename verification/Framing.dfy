/** Message frames on a byte stream: header writing, and decoding from a buffer that grows. */
module Framing {
  import opened Common
  import opened Binary
  import opened ByteIO

  datatype RawMessage = RawMessage(messageId: nat, instanceId: nat, payload: Bytes)

  datatype Header = Header(messageId: nat, instanceId: nat, payloadSize: nat)

  const MIN_HEADER_SIZE := 6

  function TypeLength(length: nat): nat {
    if length > 65535 then 3 else if length > 255 then 2 else if length > 0 then 1 else 0
  }

  /** The length field keeps only as many bytes of the length as its type length says. */
  function LengthField(length: nat): Bytes {
    match TypeLength(length)
    case 0 => []
    case 1 => [length % 256]
    case 2 => BigEndian(length, 2)
    case _ => [length / 0x1_0000 % 256] + BigEndian(length, 2)
  }

  /** The identifier is shifted inside 16 bits; the two low bits are then free for the type length. */
  function Tag(messageId: nat, length: nat): nat {
    messageId * 4 % 0x1_0000 + TypeLength(length)
  }

  function HeaderBytes(messageId: nat, instanceId: nat, length: nat): Bytes {
    BigEndian(Tag(messageId, length), 2) + BigEndian(instanceId, 4) + LengthField(length)
  }

  /** A frame from client to server. */
  function Frame(m: RawMessage): Bytes {
    HeaderBytes(m.messageId, m.instanceId, |m.payload|) + m.payload
  }

  /** A frame from server to client has no instance id. */
  function ServerFrame(m: RawMessage): Bytes {
    BigEndian(Tag(m.messageId, |m.payload|), 2) + LengthField(|m.payload|) + m.payload
  }

  function ReadPayloadLength(s: Bytes, typeLength: nat): Result<Parsed<nat>> {
    match typeLength
    case 0 => Ok(Parsed(0, s))
    case 1 => Binary.ReadUnsigned(s, 1)
    case 2 => Binary.ReadUnsigned(s, 2)
    case 3 =>
      var high :- Binary.ReadUnsigned(s, 1);
      var low :- Binary.ReadUnsigned(high.rest, 2);
      Ok(Parsed(high.value * 0x1_0000 + low.value, low.rest))
    case _ => Err
  }

  function ReadHeader(s: Bytes): Result<Parsed<Header>> {
    var tag :- Binary.ReadUnsigned(s, 2);
    var instance :- Binary.ReadUnsigned(tag.rest, 4);
    var size :- ReadPayloadLength(instance.rest, tag.value % 4);
    Ok(Parsed(Header(tag.value / 4, instance.value, size.value), size.rest))
  }

  datatype Step = NeedMore | Decoded(message: RawMessage, rest: Bytes) | Malformed

  /** One call of the decoder on the buffered bytes. */
  function Decode(s: Bytes): Step {
    if |s| < MIN_HEADER_SIZE then NeedMore
    else match ReadHeader(s)
      case Err => Malformed
      case Ok(h) =>
        if |h.rest| < h.value.payloadSize then NeedMore
        else Decoded(RawMessage(h.value.messageId, h.value.instanceId, h.rest[..h.value.payloadSize]),
                     h.rest[h.value.payloadSize..])
  }

  // ---- The imperative code ----

  method ReadPayloadLengthFrom(reader: BigEndianReader, typeLength: nat) returns (r: Result<nat>)
    requires reader.Valid()
    modifies reader
    ensures reader.Agrees(ReadPayloadLength(old(reader.Remaining()), typeLength), r)
  {
    match typeLength
    case 0 => return Ok(0);
    case 1 => r := reader.ReadUIntN(1);
    case 2 => r := reader.ReadUIntN(2);
    case 3 =>
      var high := reader.ReadUnsigned(1);
      if high.Err? {
        return Err;
      }
      var low := reader.ReadUnsigned(2);
      if low.Err? {
        return Err;
      }
      return Ok(high.value * 0x1_0000 + low.value);
    case _ => return Err;
  }

  method ReadHeaderFrom(reader: BigEndianReader) returns (r: Result<Header>)
    requires reader.Valid()
    modifies reader
    ensures reader.Agrees(ReadHeader(old(reader.Remaining())), r)
  {
    hide ReadPayloadLength, Binary.ReadUnsigned;
    var header := reader.ReadUnsigned(2);
    if header.Err? {
      return Err;
    }
    var messageId, typeLength := header.value / 4, header.value % 4;
    var instanceId := reader.ReadUnsigned(4);
    if instanceId.Err? {
      return Err;
    }
    var payloadSize := ReadPayloadLengthFrom(reader, typeLength);
    if payloadSize.Err? {
      return Err;
    }
    return Ok(Header(messageId, instanceId.value, payloadSize.value));
  }

  method WriteHeader(writer: BigEndianWriter, messageId: nat, instanceId: nat, length: nat)
    modifies writer
    ensures writer.buffer == old(writer.buffer) + HeaderBytes(messageId, instanceId, length)
  {
    hide BigEndian, LengthField, TypeLength;
    var typeLen := TypeLength(length);
    writer.WriteUShort(messageId * 4 % 0x1_0000 + typeLen);
    writer.WriteUInt(instanceId);
    WriteLength(writer, length);
    ghost var tag, instance := BigEndian(Tag(messageId, length), 2), BigEndian(instanceId, 4);
    assert writer.buffer == old(writer.buffer) + (tag + instance + LengthField(length));
  }

  method WriteServerHeader(writer: BigEndianWriter, messageId: nat, length: nat)
    modifies writer
    ensures writer.buffer == old(writer.buffer) + BigEndian(Tag(messageId, length), 2) + LengthField(length)
  {
    writer.WriteUShort(messageId * 4 % 0x1_0000 + TypeLength(length));
    WriteLength(writer, length);
  }

  method WriteLength(writer: BigEndianWriter, length: nat)
    modifies writer
    ensures writer.buffer == old(writer.buffer) + LengthField(length)
  {
    match TypeLength(length)
    case 0 =>
    case 1 => writer.WriteByte(length % 256);
    case 2 => writer.WriteUShort(length);
    case _ =>
      writer.WriteByte(length / 0x1_0000 % 256);
      writer.WriteUShort(length);
  }

  /** The receive buffer of a connection. */
  class BytesMut {
    var bytes: Bytes

    constructor (bytes: Bytes)
      ensures this.bytes == bytes
    {
      this.bytes := bytes;
    }

    method SplitTo(n: nat) returns (head: Bytes)
      requires n <= |bytes|
      modifies this
      ensures head == old(bytes)[..n] && bytes == old(bytes)[n..]
    {
      head := bytes[..n];
      bytes := bytes[n..];
    }
  }

  /** Parses a buffer that holds exactly one frame. */
  method ReadFrame(frame: Bytes) returns (m: RawMessage)
    requires ReadHeader(frame).Ok? && |ReadHeader(frame).value.rest| == ReadHeader(frame).value.value.payloadSize
    ensures var h := ReadHeader(frame).value;
            m == RawMessage(h.value.messageId, h.value.instanceId, h.rest)
  {
    hide ReadHeader, Binary.ReadUnsigned;
    var reader := new BigEndianReader(frame);
    var header := ReadHeaderFrom(reader);
    ghost var rest := ReadHeader(frame).value.rest;
    assert reader.Remaining() == rest && rest[..|rest|] == rest;
    var payload: Bytes := [];
    if header.value.payloadSize > 0 {
      var bytes := reader.ReadBytes(header.value.payloadSize);
      payload := bytes.value;
    }
    return RawMessage(header.value.messageId, header.value.instanceId, payload);
  }

  /** The header at the front of s, and how many bytes it takes. */
  method PeekHeader(s: Bytes) returns (r: Result<Header>, size: nat)
    ensures match ReadHeader(s)
            case Err => r.Err?
            case Ok(h) => r == Ok(h.value) && size <= |s| && h.rest == s[size..]
  {
    hide ReadHeader;
    var peek := new BigEndianReader(s);
    r := ReadHeaderFrom(peek);
    size := peek.pos;
  }

  method DecodeFrom(src: BytesMut) returns (r: Result<Option<RawMessage>>)
    modifies src
    ensures match Decode(old(src.bytes))
            case NeedMore => r == Ok(None) && src.bytes == old(src.bytes)
            case Decoded(m, rest) => r == Ok(Some(m)) && src.bytes == rest
            case Malformed => r == Err && src.bytes == old(src.bytes)
  {
    hide ReadHeader;
    var s := src.bytes;
    if |s| < MIN_HEADER_SIZE {
      return Ok(None);
    }
    var header, headerSize := PeekHeader(s);
    if header.Err? {
      return Err;
    }
    var totalSize := headerSize + header.value.payloadSize;
    if |s| < totalSize {
      return Ok(None);
    }
    var frame := src.SplitTo(totalSize);
    HeaderOfPrefix(s, headerSize);
    HeaderMore(s[..headerSize], s[headerSize..totalSize]);
    assert frame == s[..headerSize] + s[headerSize..totalSize];
    assert s[headerSize..][header.value.payloadSize..] == s[totalSize..];
    assert s[headerSize..][..header.value.payloadSize] == s[headerSize..totalSize];
    var m := ReadFrame(frame);
    assert ReadHeader(frame).value.rest == s[headerSize..totalSize] by {
      assert [] + s[headerSize..totalSize] == s[headerSize..totalSize];
    }
    return Ok(Some(m));
  }

  /** Appends a message for the client. */
  method EncodeTo(m: RawMessage, dst: BytesMut)
    modifies dst
    ensures dst.bytes == old(dst.bytes) + ServerFrame(m)
  {
    var writer := new BigEndianWriter();
    WriteServerHeader(writer, m.messageId, |m.payload|);
    writer.WriteBytes(m.payload);
    dst.bytes := dst.bytes + writer.buffer;
  }

  // ---- Reading looks only at the bytes it consumes ----

  lemma UnsignedMore(s: Bytes, t: Bytes, width: nat)
    requires Binary.ReadUnsigned(s, width).Ok?
    ensures Binary.ReadUnsigned(s + t, width) ==
            Ok(Parsed(Binary.ReadUnsigned(s, width).value.value, Binary.ReadUnsigned(s, width).value.rest + t))
  {
    assert (s + t)[..width] == s[..width] && (s + t)[width..] == s[width..] + t;
  }

  lemma PayloadLengthMore(s: Bytes, t: Bytes, typeLength: nat)
    requires ReadPayloadLength(s, typeLength).Ok?
    ensures ReadPayloadLength(s + t, typeLength) ==
            Ok(Parsed(ReadPayloadLength(s, typeLength).value.value, ReadPayloadLength(s, typeLength).value.rest + t))
  {
    hide Binary.ReadUnsigned;
    if typeLength == 1 || typeLength == 2 {
      UnsignedMore(s, t, typeLength);
    } else if typeLength == 3 {
      UnsignedMore(s, t, 1);
      UnsignedMore(Binary.ReadUnsigned(s, 1).value.rest, t, 2);
    }
  }

  lemma HeaderMore(s: Bytes, t: Bytes)
    requires ReadHeader(s).Ok?
    ensures ReadHeader(s + t) == Ok(Parsed(ReadHeader(s).value.value, ReadHeader(s).value.rest + t))
  {
    hide Binary.ReadUnsigned, ReadPayloadLength;
    UnsignedMore(s, t, 2);
    var tag := Binary.ReadUnsigned(s, 2).value;
    UnsignedMore(tag.rest, t, 4);
    var instance := Binary.ReadUnsigned(tag.rest, 4).value;
    PayloadLengthMore(instance.rest, t, tag.value % 4);
  }

  /** The bytes a header takes are by themselves that header. */
  lemma HeaderOfPrefix(s: Bytes, k: nat)
    requires ReadHeader(s).Ok? && k <= |s| && ReadHeader(s).value.rest == s[k..]
    ensures ReadHeader(s[..k]) == Ok(Parsed(ReadHeader(s).value.value, []))
  {
    hide FromBigEndian;
    var t := s[..k];
    assert t[..2] == s[..2] && t[2..][..4] == s[2..][..4];
    var u, v := t[2..][4..], s[2..][4..];
    if |u| >= 1 { assert u[..1] == v[..1]; }
    if |u| >= 2 { assert u[..2] == v[..2]; }
    if |u| >= 3 { assert u[1..][..2] == v[1..][..2]; }
    var typeLength := FromBigEndian(s[..2]) % 4;
    assert |u| == typeLength;
    assert u[typeLength..] == [];
    if typeLength == 3 { assert u[1..][2..] == []; }
  }

  // ---- Whole frames ----

  /** What the frame format can carry. */
  predicate Fits(m: RawMessage) {
    m.messageId < 0x4000 && m.instanceId < 0x1_0000_0000 && |m.payload| < 0x100_0000
  }

  lemma LengthFieldBack(length: nat, rest: Bytes)
    requires length < 0x100_0000
    ensures |LengthField(length)| == TypeLength(length)
    ensures ReadPayloadLength(LengthField(length) + rest, TypeLength(length)) == Ok(Parsed(length, rest))
  {
    hide FromBigEndian;
    Pow2Values();
    match TypeLength(length)
    case 0 =>
      assert [] + rest == rest;
    case 1 =>
      assert BigEndian(length, 1) == [length % 256] by { OneByte(length); }
      ReadUnsignedBack(length, 1, rest);
    case 2 =>
      ReadUnsignedBack(length, 2, rest);
    case _ =>
      LongLength(length, rest);
  }

  lemma OneByte(n: nat)
    ensures BigEndian(n, 1) == [n % 256]
  {
  }

  lemma LongLength(length: nat, rest: Bytes)
    requires 65535 < length < 0x100_0000
    ensures ReadPayloadLength(LengthField(length) + rest, 3) == Ok(Parsed(length, rest))
  {
    hide FromBigEndian, BigEndian, Binary.ReadUnsigned;
    Pow2Values();
    var high := length / 0x1_0000;
    OneByte(high);
    var low := BigEndian(length, 2) + rest;
    assert LengthField(length) + rest == BigEndian(high, 1) + low;
    ReadUnsignedBack(high, 1, low);
    LowHalf(length, rest);
  }

  lemma LowHalf(length: nat, rest: Bytes)
    ensures Binary.ReadUnsigned(BigEndian(length, 2) + rest, 2) == Ok(Parsed(length % 0x1_0000, rest))
  {
    Pow2Values();
    BigEndianRoundTrip(length, 2);
    var s := BigEndian(length, 2) + rest;
    assert s[..2] == BigEndian(length, 2) && s[2..] == rest;
  }

  lemma HeaderBack(m: RawMessage, rest: Bytes)
    requires Fits(m)
    ensures var n := |m.payload|;
            ReadHeader(HeaderBytes(m.messageId, m.instanceId, n) + rest) ==
            Ok(Parsed(Header(m.messageId, m.instanceId, n), rest))
  {
    hide BigEndian, FromBigEndian, LengthField, Binary.ReadUnsigned, ReadPayloadLength;
    Pow2Values();
    var n := |m.payload|;
    var tail := LengthField(n) + rest;
    var middle := BigEndian(m.instanceId, 4) + tail;
    assert HeaderBytes(m.messageId, m.instanceId, n) + rest == BigEndian(Tag(m.messageId, n), 2) + middle;
    assert Tag(m.messageId, n) / 4 == m.messageId && Tag(m.messageId, n) % 4 == TypeLength(n);
    ReadUnsignedBack(Tag(m.messageId, n), 2, middle);
    ReadUnsignedBack(m.instanceId, 4, tail);
    LengthFieldBack(n, rest);
  }

  lemma FrameSize(m: RawMessage)
    requires Fits(m)
    ensures |Frame(m)| == MIN_HEADER_SIZE + TypeLength(|m.payload|) + |m.payload|
    ensures |HeaderBytes(m.messageId, m.instanceId, |m.payload|)| == MIN_HEADER_SIZE + TypeLength(|m.payload|)
  {
    hide BigEndian;
    LengthFieldBack(|m.payload|, []);
  }

  /** A frame at the front of the buffer is decoded, and exactly its bytes are taken. */
  lemma FrameDecodes(m: RawMessage, rest: Bytes)
    requires Fits(m)
    ensures Decode(Frame(m) + rest) == Decoded(m, rest)
  {
    hide HeaderBytes, ReadHeader;
    FrameSize(m);
    HeaderBack(m, m.payload + rest);
    assert Frame(m) + rest == HeaderBytes(m.messageId, m.instanceId, |m.payload|) + (m.payload + rest);
    assert (m.payload + rest)[..|m.payload|] == m.payload && (m.payload + rest)[|m.payload|..] == rest;
  }

  // ---- What the server sends ----

  /** A server frame, byte by byte: the low 14 bits of the id above the two bits that count the length bytes, those
      bytes, the payload. */
  lemma ServerFrameBytes(m: RawMessage)
    ensures var n := |m.payload|;
            var tag := 4 * (m.messageId % 0x4000) +
                       (if n == 0 then 0 else if n < 0x100 then 1 else if n < 0x1_0000 then 2 else 3);
            var length := if n == 0 then [] else if n < 0x100 then [n] else if n < 0x1_0000 then [n / 256, n % 256]
                          else [n / 0x1_0000 % 256, n / 256 % 256, n % 256];
            ServerFrame(m) == [tag / 256, tag % 256] + length + m.payload
  {
    hide BigEndian;
    TwoBytes(Tag(m.messageId, |m.payload|));
    TwoBytes(|m.payload|);
    ShiftedId(m.messageId);
  }

  lemma ShiftedId(id: nat)
    ensures id * 4 % 0x1_0000 == 4 * (id % 0x4000)
  {
    assert id * 4 == id / 0x4000 * 0x1_0000 + 4 * (id % 0x4000);
  }

  lemma TwoBytes(n: nat)
    ensures BigEndian(n, 2) == [n / 256 % 256, n % 256]
  {
    OneByte(n / 256);
  }

  /** With an instance id put behind the tag a server frame is decoded as the message with that id. */
  lemma ServerFrameDecodes(m: RawMessage, instanceId: nat, rest: Bytes)
    requires Fits(m) && instanceId < 0x1_0000_0000
    ensures |ServerFrame(m)| >= 2
    ensures Decode(ServerFrame(m)[..2] + BigEndian(instanceId, 4) + ServerFrame(m)[2..] + rest) ==
            Decoded(RawMessage(m.messageId, instanceId, m.payload), rest)
  {
    hide BigEndian, LengthField, Decode;
    var n := |m.payload|;
    var tag, length := BigEndian(Tag(m.messageId, n), 2), LengthField(n);
    var sent := RawMessage(m.messageId, instanceId, m.payload);
    assert ServerFrame(m)[..2] == tag && ServerFrame(m)[2..] == length + m.payload;
    assert Frame(sent) == tag + BigEndian(instanceId, 4) + (length + m.payload);
    FrameDecodes(sent, rest);
  }

  /** The cut leaves the fixed part of the header complete but the length field incomplete. */
  predicate CutsLengthField(m: RawMessage, k: nat) {
    MIN_HEADER_SIZE <= k < MIN_HEADER_SIZE + TypeLength(|m.payload|)
  }

  /** A partial frame waits for more bytes, except exactly when the cut falls into the length field: that is an
      error. */
  lemma PartialFrame(m: RawMessage, k: nat)
    requires Fits(m) && k < |Frame(m)|
    ensures Decode(Frame(m)[..k]) == if CutsLengthField(m, k) then Malformed else NeedMore
  {
    hide HeaderBytes, ReadHeader;
    FrameSize(m);
    var n := |m.payload|;
    var header := HeaderBytes(m.messageId, m.instanceId, n);
    if k >= |header| {
      var part := m.payload[..k - |header|];
      HeaderBack(m, part);
      assert Frame(m)[..k] == header + part;
    } else if k >= MIN_HEADER_SIZE {
      ShortHeader(m, k);
      assert Frame(m)[..k] == header[..k];
    }
  }

  lemma ShortHeader(m: RawMessage, k: nat)
    requires Fits(m) && CutsLengthField(m, k)
    ensures k <= |HeaderBytes(m.messageId, m.instanceId, |m.payload|)|
    ensures ReadHeader(HeaderBytes(m.messageId, m.instanceId, |m.payload|)[..k]).Err?
  {
    hide BigEndian, FromBigEndian, LengthField, Binary.ReadUnsigned;
    Pow2Values();
    FrameSize(m);
    var n := |m.payload|;
    var tail := LengthField(n)[..k - MIN_HEADER_SIZE];
    LengthFieldBack(n, []);
    var middle := BigEndian(m.instanceId, 4) + tail;
    assert HeaderBytes(m.messageId, m.instanceId, n)[..k] == BigEndian(Tag(m.messageId, n), 2) + middle;
    ReadUnsignedBack(Tag(m.messageId, n), 2, middle);
    ReadUnsignedBack(m.instanceId, 4, tail);
    assert Tag(m.messageId, n) % 4 == TypeLength(n);
    ShortLength(tail, TypeLength(n));
  }

  lemma ShortLength(s: Bytes, typeLength: nat)
    requires |s| < typeLength <= 3
    ensures ReadPayloadLength(s, typeLength).Err?
  {
  }

  // ---- Repeated decoding ----

  /** What the receive loop gets out of a buffer: the messages, what stays buffered, and whether it hit an error. */
  datatype Drained = Drained(messages: seq<RawMessage>, left: Bytes, failed: bool)

  lemma DecodeShrinks(s: Bytes)
    ensures Decode(s).Decoded? ==> |Decode(s).rest| < |s|
  {
    hide FromBigEndian;
  }

  function DecodeAll(s: Bytes): Drained
    decreases |s|
  {
    DecodeShrinks(s);
    match Decode(s)
    case NeedMore => Drained([], s, false)
    case Malformed => Drained([], s, true)
    case Decoded(m, rest) =>
      var d := DecodeAll(rest);
      d.(messages := [m] + d.messages)
  }

  function Stream(messages: seq<RawMessage>): Bytes {
    if messages == [] then [] else Frame(messages[0]) + Stream(messages[1..])
  }

  /** Decoding a stream of frames gives back exactly the messages and empties the buffer. */
  lemma {:induction false} StreamDecodes(messages: seq<RawMessage>)
    requires forall i :: 0 <= i < |messages| ==> Fits(messages[i])
    ensures DecodeAll(Stream(messages)) == Drained(messages, [], false)
  {
    hide Frame, Decode;
    if messages == [] {
      EmptyDecodes();
    } else {
      FrameDecodes(messages[0], Stream(messages[1..]));
      StreamDecodes(messages[1..]);
    }
  }

  lemma EmptyDecodes()
    ensures Decode([]) == NeedMore
  {
  }

  lemma DecodeMore(s: Bytes, t: Bytes)
    requires Decode(s).Decoded?
    ensures Decode(s + t) == Decoded(Decode(s).message, Decode(s).rest + t)
  {
    hide ReadHeader;
    HeaderMore(s, t);
    var h := ReadHeader(s).value;
    assert (h.rest + t)[..h.value.payloadSize] == h.rest[..h.value.payloadSize];
    assert (h.rest + t)[h.value.payloadSize..] == h.rest[h.value.payloadSize..] + t;
  }

  /** Any bytes: draining the buffer before more data arrives does not change what is decoded. */
  lemma {:induction false} DrainEarly(s: Bytes, t: Bytes)
    requires !DecodeAll(s).failed
    ensures DecodeAll(s + t) ==
            var later := DecodeAll(DecodeAll(s).left + t);
            later.(messages := DecodeAll(s).messages + later.messages)
    decreases |s|
  {
    hide Decode, DecodeAll;
    DecodeShrinks(s);
    DrainStep(s);
    match Decode(s)
    case NeedMore =>
      var d := DecodeAll(s + t);
      assert [] + d.messages == d.messages;
    case Malformed =>
    case Decoded(m, rest) =>
      DecodeMore(s, t);
      DrainStep(s + t);
      DrainEarly(rest, t);
      var later := DecodeAll(DecodeAll(rest).left + t);
      assert [m] + (DecodeAll(rest).messages + later.messages) == [m] + DecodeAll(rest).messages + later.messages;
  }

  lemma DrainStep(s: Bytes)
    ensures match Decode(s)
            case NeedMore => DecodeAll(s) == Drained([], s, false)
            case Malformed => DecodeAll(s) == Drained([], s, true)
            case Decoded(m, rest) =>
              |rest| < |s| && DecodeAll(s) == DecodeAll(rest).(messages := [m] + DecodeAll(rest).messages)
  {
    hide Decode;
    DecodeShrinks(s);
  }

  /** A connection: chunks arrive one by one and the buffer is drained after each. */
  function Receive(left: Bytes, chunks: seq<Bytes>): Drained
    decreases |chunks|
  {
    if chunks == [] then Drained([], left, false)
    else
      var d := DecodeAll(left + chunks[0]);
      if d.failed then d
      else
        var later := Receive(d.left, chunks[1..]);
        later.(messages := d.messages + later.messages)
  }

  function Concat(chunks: seq<Bytes>): Bytes {
    if chunks == [] then [] else chunks[0] + Concat(chunks[1..])
  }

  /** A buffer that was just drained yields nothing more. */
  lemma {:induction false} DrainedIsStuck(s: Bytes)
    requires !DecodeAll(s).failed
    ensures DecodeAll(DecodeAll(s).left) == Drained([], DecodeAll(s).left, false)
    decreases |s|
  {
    hide Decode;
    DecodeShrinks(s);
    match Decode(s)
    case NeedMore =>
    case Malformed =>
    case Decoded(m, rest) =>
      DrainedIsStuck(rest);
  }

  /** However the bytes are cut into chunks, a connection without a decoding error gets the messages of the whole. */
  lemma {:induction false} ChunksDoNotMatter(left: Bytes, chunks: seq<Bytes>)
    requires DecodeAll(left) == Drained([], left, false)
    requires !Receive(left, chunks).failed
    ensures Receive(left, chunks) == DecodeAll(left + Concat(chunks))
    decreases |chunks|
  {
    hide Decode, DecodeAll;
    if chunks == [] {
      assert left + [] == left;
    } else {
      var s := left + chunks[0];
      var d := DecodeAll(s);
      DrainedIsStuck(s);
      ChunksDoNotMatter(d.left, chunks[1..]);
      DrainEarly(s, Concat(chunks[1..]));
      assert left + Concat(chunks) == s + Concat(chunks[1..]);
    }
  }

  /** A stream of frames cut once: the receiver fails exactly when the cut falls into a length field. */
  ghost predicate CutInside(messages: seq<RawMessage>, k: nat) {
    messages != [] &&
    if k < |Frame(messages[0])| then CutsLengthField(messages[0], k)
    else CutInside(messages[1..], k - |Frame(messages[0])|)
  }

  lemma {:induction false} CutStream(messages: seq<RawMessage>, k: nat)
    requires forall i :: 0 <= i < |messages| ==> Fits(messages[i])
    requires k <= |Stream(messages)|
    ensures DecodeAll(Stream(messages)[..k]).failed <==> CutInside(messages, k)
    decreases |messages|
  {
    hide Frame, Decode, CutsLengthField;
    if messages == [] {
      EmptyDecodes();
    } else {
      var f := Frame(messages[0]);
      if k < |f| {
        PartialFrame(messages[0], k);
        assert Stream(messages)[..k] == f[..k];
      } else {
        var rest := Stream(messages[1..])[..k - |f|];
        assert Stream(messages)[..k] == f + rest;
        FrameDecodes(messages[0], rest);
        CutStream(messages[1..], k - |f|);
      }
    }
  }

  // ---- Which chunkings fail ----

  /** Had the first i chunks arrived at once, decoding them would have failed. */
  ghost predicate FailsAt(left: Bytes, chunks: seq<Bytes>, i: nat)
    requires i <= |chunks|
  {
    DecodeAll(left + Concat(chunks[..i])).failed
  }

  /** On any bytes a connection fails exactly when some of its prefixes of chunks, taken as one piece, fails. */
  lemma {:induction false} ReceiveFails(left: Bytes, chunks: seq<Bytes>)
    requires DecodeAll(left) == Drained([], left, false)
    ensures Receive(left, chunks).failed <==> exists i :: 0 <= i <= |chunks| && FailsAt(left, chunks, i)
    decreases |chunks|
  {
    hide DecodeAll, FailsAt;
    NothingArrived(left, chunks);
    if chunks != [] {
      var d := DecodeAll(left + chunks[0]);
      OneChunk(left, chunks);
      if !d.failed {
        DrainedIsStuck(left + chunks[0]);
        ReceiveFails(d.left, chunks[1..]);
        forall j | 0 <= j < |chunks| ensures FailsAt(left, chunks, j + 1) <==> FailsAt(d.left, chunks[1..], j) {
          LaterChunks(left, chunks, j);
        }
        if i :| 0 <= i <= |chunks| && FailsAt(left, chunks, i) {
          assert FailsAt(left, chunks, (i - 1) + 1);
          assert FailsAt(d.left, chunks[1..], i - 1);
        }
      }
    }
  }

  lemma NothingArrived(left: Bytes, chunks: seq<Bytes>)
    requires DecodeAll(left) == Drained([], left, false)
    ensures !FailsAt(left, chunks, 0)
  {
    hide DecodeAll;
    assert left + Concat(chunks[..0]) == left;
  }

  lemma OneChunk(left: Bytes, chunks: seq<Bytes>)
    requires chunks != []
    ensures FailsAt(left, chunks, 1) <==> DecodeAll(left + chunks[0]).failed
  {
    hide DecodeAll;
    assert chunks[..1][1..] == [];
    assert left + Concat(chunks[..1]) == left + chunks[0];
  }

  lemma LaterChunks(left: Bytes, chunks: seq<Bytes>, j: nat)
    requires j < |chunks| && !DecodeAll(left + chunks[0]).failed
    ensures FailsAt(left, chunks, j + 1) <==> FailsAt(DecodeAll(left + chunks[0]).left, chunks[1..], j)
  {
    hide DecodeAll;
    var t := Concat(chunks[1..][..j]);
    DrainEarly(left + chunks[0], t);
    assert chunks[..j + 1][1..] == chunks[1..][..j];
    assert left + Concat(chunks[..j + 1]) == left + chunks[0] + t;
  }

  lemma {:induction false} ConcatPrefix(chunks: seq<Bytes>, i: nat)
    requires i <= |chunks|
    ensures Concat(chunks) == Concat(chunks[..i]) + Concat(chunks[i..])
  {
    if i == 0 {
      assert chunks[0..] == chunks;
    } else {
      ConcatPrefix(chunks[1..], i - 1);
      assert chunks[..i][1..] == chunks[1..][..i - 1] && chunks[1..][i - 1..] == chunks[i..];
      assert Concat(chunks) == chunks[0] + (Concat(chunks[..i][1..]) + Concat(chunks[i..]));
    }
  }

  /** Main result: a stream of frames, cut anyhow, fails exactly when a cut falls into a length field; else all
      messages arrive. */
  lemma ChunkedStream(messages: seq<RawMessage>, chunks: seq<Bytes>)
    requires forall i :: 0 <= i < |messages| ==> Fits(messages[i])
    requires Concat(chunks) == Stream(messages)
    ensures Receive([], chunks).failed <==>
            exists i :: 0 <= i <= |chunks| && CutInside(messages, |Concat(chunks[..i])|)
    ensures !Receive([], chunks).failed ==> Receive([], chunks) == Drained(messages, [], false)
  {
    hide Decode, DecodeAll, Frame, Stream, CutInside, Fits;
    DrainStep([]);
    EmptyDecodes();
    ReceiveFails([], chunks);
    forall i | 0 <= i <= |chunks| ensures FailsAt([], chunks, i) <==> CutInside(messages, |Concat(chunks[..i])|) {
      ConcatPrefix(chunks, i);
      var k := |Concat(chunks[..i])|;
      assert [] + Concat(chunks[..i]) == Stream(messages)[..k];
      CutStream(messages, k);
    }
    if !Receive([], chunks).failed {
      ChunksDoNotMatter([], chunks);
      StreamDecodes(messages);
      assert [] + Concat(chunks) == Stream(messages);
    }
  }
}
