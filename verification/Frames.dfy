/** The frame format shared by packets/writer.go and packets/reader.go, as functions and
    relations on byte sequences. PacketIO.dfy holds the reader and the writer themselves. */
module Frames {
  import opened Wire

  const MAX_PACKET_SIZE: int := 128 * 1024
  const MAX_PACKET_ID: int := 256

  // ---- zlib as an abstract streaming codec -----------------------------------------------

  /** What a decompressor delivers: `plain`, followed by a clean end or by an error. */
  datatype Inflated = BadHeader | Stream(plain: seq<byte>, clean: bool)

  /** A compressor is known by the bytes it emits for the next chunk after the chunks before
      it, and by the bytes Close emits. `lastWithEnd` tells of a decompressor that returns the
      last byte of a stream together with its end; io.Reader leaves it the choice. */
  datatype Zlib = Zlib(
    emit: (seq<seq<byte>>, seq<byte>) -> seq<byte>,
    finish: seq<seq<byte>> -> seq<byte>,
    inflate: seq<byte> -> Inflated,
    lastWithEnd: bool
  ) {
    /** The bytes emitted while `chunks` are written, before Close. */
    function Emitted(chunks: seq<seq<byte>>): seq<byte> {
      if chunks == [] then []
      else
        var before := chunks[..|chunks| - 1];
        Emitted(before) + emit(before, chunks[|chunks| - 1])
    }

    function Deflate(chunks: seq<seq<byte>>): seq<byte> {
      Emitted(chunks) + finish(chunks)
    }

    /** The one law assumed of zlib: inflating undoes deflating, however the input was cut. */
    ghost predicate Lawful() {
      forall chunks :: inflate(Deflate(chunks)) == Stream(Concat(chunks), true)
    }
  }

  function Concat(parts: seq<seq<byte>>): seq<byte> {
    if parts == [] then [] else Concat(parts[..|parts| - 1]) + parts[|parts| - 1]
  }

  /** The law can be met: the codec that stores its input meets it. */
  function StoredCodec(lastWithEnd: bool): Zlib {
    Zlib((before: seq<seq<byte>>, chunk: seq<byte>) => chunk,
         (chunks: seq<seq<byte>>) => [],
         (s: seq<byte>) => Stream(s, true),
         lastWithEnd)
  }

  lemma {:induction false} StoredEmits(chunks: seq<seq<byte>>, lastWithEnd: bool)
    ensures StoredCodec(lastWithEnd).Emitted(chunks) == Concat(chunks)
  {
    if chunks != [] {
      StoredEmits(chunks[..|chunks| - 1], lastWithEnd);
    }
  }

  lemma StoredCodecIsLawful(lastWithEnd: bool)
    ensures StoredCodec(lastWithEnd).Lawful()
  {
    var z := StoredCodec(lastWithEnd);
    forall chunks: seq<seq<byte>> ensures z.inflate(z.Deflate(chunks)) == Stream(Concat(chunks), true) {
      StoredEmits(chunks, lastWithEnd);
    }
  }

  // ---- what may be written ---------------------------------------------------------------

  /** A packet offered to the writer. A typed packet either serializes to `body` or fails in
      Serialize; a raw packet is sent as it stands. */
  datatype Packet =
    | Raw(payload: seq<byte>)
    | Typed(id: int32, body: seq<byte>, serializes: bool)

  function Prefixed(content: seq<byte>): seq<byte> {
    WriteVarInt(ToSigned(|content|)) + content
  }

  function Plain(p: Packet): seq<byte>
    requires p.Typed?
  {
    WriteVarInt(p.id) + p.body
  }

  /** The data-length header of a compressed packet: PutUvarint(uint64(uint32(n))). */
  function DataLengthHeader(n: nat): seq<byte> {
    PutUvarint(n % 0x1_0000_0000)
  }

  /** `content` is what stands after the length prefix in a frame for p. A compressed packet
      has as many frames as there are ways to cut its plain bytes into chunks. */
  ghost predicate IsContent(z: Zlib, threshold: int, p: Packet, content: seq<byte>) {
    match p
    case Raw(payload) => content == payload
    case Typed(_, _, serializes) =>
      && serializes
      && var plain := Plain(p);
         if threshold < 1 then content == plain
         else if |plain| < threshold then content == [0] + plain
         else exists chunks ::
           && Concat(chunks) == plain
           && content == DataLengthHeader(|plain|) + z.Deflate(chunks)
  }

  /** The bytes of a stream that carries these contents, one frame after another. */
  function Wired(contents: seq<seq<byte>>): seq<byte> {
    if contents == [] then [] else Prefixed(contents[0]) + Wired(contents[1..])
  }

  lemma {:induction false} StreamAppend(contents: seq<seq<byte>>, content: seq<byte>)
    ensures Wired(contents + [content]) == Wired(contents) + Prefixed(content)
  {
    if contents == [] {
      assert (contents + [content])[1..] == [];
    } else {
      assert (contents + [content])[1..] == contents[1..] + [content];
      StreamAppend(contents[1..], content);
    }
  }

  // ---- what is read back -----------------------------------------------------------------

  datatype Error =
    | EndOfStream       // io.EOF: a read that found nothing at all
    | Truncated         // io.ErrUnexpectedEOF, or an over-long length
    | TooBig
    | NegativeLength    // the source panics in the buffer pool
    | BadDataLength
    | BelowThreshold
    | BadZlibHeader
    | BadPacketId
    | BadZlibStream

  /** RawPacket: the payload includes the data-length header. */
  datatype RawPacket = RawPacket(id: int32, dataLength: int32, payload: seq<byte>)

  /** Where the rest of the packet is read from: the payload itself or a decompressor. */
  datatype Payload = Plainly(bytes: seq<byte>) | Inflating(bytes: seq<byte>, clean: bool)

  datatype FrameRead =
    | Frame(raw: RawPacket, payload: Payload, rest: seq<byte>)
    | Broken(error: Error, rest: seq<byte>)

  datatype ContentRead = Content(raw: RawPacket, payload: Payload) | BadContent(error: Error)

  /** Whether reading up to where `rest` is left ran into the end of a decompressor: then
      dummyByteReader passes the end on as the error of the last byte. */
  predicate RanIntoEnd(z: Zlib, payload: Payload, rest: seq<byte>) {
    payload.Inflating? && z.lastWithEnd && rest == []
  }

  /** The error of the first byte read is passed on as it is, later ones are not an end. */
  function IdError(z: Zlib, payload: Payload): Error {
    if payload.bytes == [] || (payload.Inflating? && z.lastWithEnd && |payload.bytes| == 1) then
      if payload.Inflating? && !payload.clean then BadZlibStream else EndOfStream
    else BadPacketId
  }

  /** The packet ID at the head of the (decompressed) payload. */
  function ParseId(z: Zlib, payload: Payload, content: seq<byte>, dataLength: int32): ContentRead {
    var id := ReadVarInt(payload.bytes);
    if !id.ok || RanIntoEnd(z, payload, id.rest) then BadContent(IdError(z, payload))
    else if id.value > MAX_PACKET_ID || id.value < 0 then BadContent(BadPacketId)
    else Content(RawPacket(id.value, dataLength, content), payload.(bytes := id.rest))
  }

  /** Everything ReadPacket does after it has the bytes of one frame. */
  function ParseContent(z: Zlib, threshold: int, content: seq<byte>): ContentRead {
    if threshold <= 0 then ParseId(z, Plainly(content), content, 0)
    else
      var header := ReadVarInt(content);
      if !header.ok then BadContent(if content == [] then EndOfStream else BadDataLength)
      else if 0 < header.value < threshold then BadContent(BelowThreshold)
      else if header.value > 0 then
        match z.inflate(header.rest) {
          case BadHeader => BadContent(BadZlibHeader)
          case Stream(plain, clean) => ParseId(z, Inflating(plain, clean), content, header.value)
        }
      else ParseId(z, Plainly(header.rest), content, header.value)
  }

  function ParseFrame(z: Zlib, threshold: int, s: seq<byte>): (r: FrameRead)
    ensures r.Frame? ==> |r.rest| < |s|
  {
    var length := ReadVarInt(s);
    if !length.ok then Broken(if s == [] then EndOfStream else Truncated, length.rest)
    else if length.value > MAX_PACKET_SIZE then Broken(TooBig, length.rest)
    else if length.value < 0 then Broken(NegativeLength, length.rest)
    else
      var content := ReadFull(length.rest, length.value);
      if !content.ok then Broken(if length.rest == [] then EndOfStream else Truncated, content.rest)
      else
        match ParseContent(z, threshold, content.value)
        case BadContent(error) => Broken(error, content.rest)
        case Content(raw, payload) => Frame(raw, payload, content.rest)
  }

  /** What one packet amounts to for the caller of ReadPacket and Payload. */
  datatype Received = Received(id: int32, body: seq<byte>)

  datatype Outcome = Outcome(packets: seq<Received>, error: Error)

  /** Call ReadPacket and Payload until one of them fails. */
  function ReadAll(z: Zlib, threshold: int, s: seq<byte>): Outcome
    decreases |s|
  {
    match ParseFrame(z, threshold, s)
    case Broken(error, _) => Outcome([], error)
    case Frame(raw, payload, rest) =>
      if payload.Inflating? && !payload.clean then Outcome([], BadZlibStream)
      else
        var tail := ReadAll(z, threshold, rest);
        Outcome([Received(raw.id, payload.bytes)] + tail.packets, tail.error)
  }

  lemma ReadAllUnfolds(z: Zlib, threshold: int, s: seq<byte>)
    ensures ReadAll(z, threshold, s) ==
      match ParseFrame(z, threshold, s)
      case Broken(error, _) => Outcome([], error)
      case Frame(raw, payload, rest) =>
        if payload.Inflating? && !payload.clean then Outcome([], BadZlibStream)
        else
          var tail := ReadAll(z, threshold, rest);
          Outcome([Received(raw.id, payload.bytes)] + tail.packets, tail.error)
  {
    hide ParseFrame;
  }

  // ---- round trip ------------------------------------------------------------------------

  /** The packet is compressed and nothing follows its ID. */
  predicate IdIsLast(threshold: int, p: Packet)
    requires p.Typed?
  {
    1 <= threshold <= |Plain(p)| && p.body == []
  }

  /** What the reader understands: a typed packet with an ID in its range that is not the last
      byte of a decompressor that reports the end with it, or a raw payload that is itself the
      content of a frame. */
  predicate Readable(z: Zlib, threshold: int, p: Packet) {
    match p
    case Raw(payload) =>
      var c := ParseContent(z, threshold, payload);
      c.Content? && (c.payload.Inflating? ==> c.payload.clean)
    case Typed(id, body, serializes) =>
      && serializes && 0 <= id <= MAX_PACKET_ID && |Plain(p)| < 0x8000_0000
      && !(z.lastWithEnd && IdIsLast(threshold, p))
  }

  /** What reading it back must give. */
  function Meaning(z: Zlib, threshold: int, p: Packet): Received
    requires Readable(z, threshold, p)
  {
    match p
    case Raw(payload) =>
      var c := ParseContent(z, threshold, payload);
      Received(c.raw.id, c.payload.bytes)
    case Typed(id, body, _) => Received(id, body)
  }

  lemma IdRoundTrip(z: Zlib, p: Packet, payload: Payload, content: seq<byte>, dataLength: int32)
    requires p.Typed? && payload.bytes == Plain(p)
    ensures ParseId(z, payload, content, dataLength) ==
      if payload.Inflating? && z.lastWithEnd && p.body == [] then BadContent(IdError(z, payload))
      else if 0 <= p.id <= MAX_PACKET_ID
      then Content(RawPacket(p.id, dataLength, content), payload.(bytes := p.body))
      else BadContent(BadPacketId)
  {
    VarIntRoundTrip(p.id, p.body);
  }

  /** The content is understood as p, with nothing left to fail. */
  predicate UnderstoodAs(c: ContentRead, received: Received) {
    && c.Content?
    && (c.payload.Inflating? ==> c.payload.clean)
    && Received(c.raw.id, c.payload.bytes) == received
  }

  lemma TypedContent(z: Zlib, threshold: int, p: Packet, content: seq<byte>)
    requires z.Lawful() && p.Typed? && IsContent(z, threshold, p, content) && |Plain(p)| < 0x8000_0000
    ensures var c := ParseContent(z, threshold, content);
      if !Readable(z, threshold, p) then
        c == BadContent(if z.lastWithEnd && IdIsLast(threshold, p) && |Plain(p)| == 1 then EndOfStream else BadPacketId)
      else
        && UnderstoodAs(c, Received(p.id, p.body))
        && c.raw.payload == content
        && c.raw.dataLength == if 1 <= threshold <= |Plain(p)| then |Plain(p)| else 0
  {
    var plain := Plain(p);
    if threshold < 1 {
      IdRoundTrip(z, p, Plainly(plain), content, 0);
    } else if |plain| < threshold {
      assert [0] == WriteVarInt(0);
      VarIntRoundTrip(0, plain);
      IdRoundTrip(z, p, Plainly(plain), content, 0);
    } else {
      var chunks :| Concat(chunks) == plain && content == DataLengthHeader(|plain|) + z.Deflate(chunks);
      assert DataLengthHeader(|plain|) == WriteVarInt(|plain|);
      VarIntRoundTrip(|plain|, z.Deflate(chunks));
      IdRoundTrip(z, p, Inflating(plain, true), content, |plain|);
    }
  }

  lemma ContentRoundTrip(z: Zlib, threshold: int, p: Packet, content: seq<byte>)
    requires z.Lawful() && Readable(z, threshold, p) && IsContent(z, threshold, p, content)
    ensures var c := ParseContent(z, threshold, content);
      && c.Content?
      && (c.payload.Inflating? ==> c.payload.clean)
      && Received(c.raw.id, c.payload.bytes) == Meaning(z, threshold, p)
      && c.raw.payload == content
      && (p.Typed? ==> c.raw.dataLength == (if 1 <= threshold <= |Plain(p)| then |Plain(p)| else 0))
  {
    if p.Typed? {
      TypedContent(z, threshold, p, content);
    }
  }

  lemma PlainOfOne(p: Packet)
    requires p.Typed?
    ensures |Plain(p)| >= 1
    ensures |Plain(p)| == 1 ==> p.body == []
  {
  }

  /** Exactly which typed packets are understood: those with an ID the reader accepts, unless
      the packet is compressed, its body is empty, and the decompressor reports the end
      together with the last byte. */
  lemma TypedUnderstoodExactly(z: Zlib, threshold: int, p: Packet, content: seq<byte>)
    requires z.Lawful() && p.Typed? && IsContent(z, threshold, p, content) && |Plain(p)| < 0x8000_0000
    ensures UnderstoodAs(ParseContent(z, threshold, content), Received(p.id, p.body)) <==>
      0 <= p.id <= MAX_PACKET_ID && !(z.lastWithEnd && 1 <= threshold <= |Plain(p)| && p.body == [])
    // one of a single byte is taken for the end of the stream
    ensures ParseContent(z, threshold, content) == BadContent(EndOfStream) <==>
      z.lastWithEnd && threshold == |Plain(p)| == 1
  {
    PlainOfOne(p);
    hide ParseContent, Plain;
    TypedContent(z, threshold, p, content);
  }

  /** The same for any content, whatever data length it declares: a stream that holds an ID and
      nothing else is refused exactly by such a decompressor. */
  lemma IdOnlyStreamExactly(z: Zlib, threshold: int, content: seq<byte>, id: int32, clean: bool)
    requires threshold > 0 && ReadVarInt(content).ok && ReadVarInt(content).value >= threshold
    requires z.inflate(ReadVarInt(content).rest) == Stream(WriteVarInt(id), clean) && 0 <= id <= MAX_PACKET_ID
    ensures ParseContent(z, threshold, content).BadContent? <==> z.lastWithEnd
  {
    VarIntRoundTrip(id, []);
    assert WriteVarInt(id) + [] == WriteVarInt(id);
  }

  lemma PrefixedRoundTrip(z: Zlib, threshold: int, content: seq<byte>, rest: seq<byte>)
    requires |content| <= MAX_PACKET_SIZE
    ensures var c := ParseContent(z, threshold, content);
      ParseFrame(z, threshold, Prefixed(content) + rest) ==
        if c.Content? then Frame(c.raw, c.payload, rest) else Broken(c.error, rest)
  {
    assert Prefixed(content) + rest == WriteVarInt(|content|) + (content + rest);
    VarIntRoundTrip(|content|, content + rest);
    ReadFullExact(content, rest);
  }

  /** One content for each packet. */
  ghost predicate ContentsOf(z: Zlib, threshold: int, packets: seq<Packet>, contents: seq<seq<byte>>) {
    && |packets| == |contents|
    && forall i :: 0 <= i < |packets| ==> IsContent(z, threshold, packets[i], contents[i])
  }

  /** The reader can take all of them: no frame is longer than it accepts. */
  predicate Deliverable(z: Zlib, threshold: int, packets: seq<Packet>, contents: seq<seq<byte>>) {
    && (forall p <- packets :: Readable(z, threshold, p))
    && (forall c <- contents :: |c| <= MAX_PACKET_SIZE)
  }

  function Meanings(z: Zlib, threshold: int, packets: seq<Packet>): (r: seq<Received>)
    requires forall i :: 0 <= i < |packets| ==> Readable(z, threshold, packets[i])
    ensures |r| == |packets|
  {
    if packets == [] then [] else [Meaning(z, threshold, packets[0])] + Meanings(z, threshold, packets[1..])
  }

  lemma FrameRoundTrip(z: Zlib, threshold: int, p: Packet, content: seq<byte>, rest: seq<byte>)
    requires z.Lawful() && Readable(z, threshold, p)
    requires IsContent(z, threshold, p, content) && |content| <= MAX_PACKET_SIZE
    ensures var r := ParseFrame(z, threshold, Prefixed(content) + rest);
      && r.Frame? && r.rest == rest
      && (r.payload.Inflating? ==> r.payload.clean)
      && Received(r.raw.id, r.payload.bytes) == Meaning(z, threshold, p)
      && r.raw.payload == content
      && (p.Typed? ==> r.raw.dataLength == (if 1 <= threshold <= |Plain(p)| then |Plain(p)| else 0))
  {
    PrefixedRoundTrip(z, threshold, content, rest);
    ContentRoundTrip(z, threshold, p, content);
  }

  lemma PayloadIsContent(z: Zlib, threshold: int, content: seq<byte>)
    ensures var c := ParseContent(z, threshold, content); c.Content? ==> c.raw.payload == content
  {
    hide ReadVarInt;
  }

  /** The writer does not look at the size of a frame, the reader does: the frame is taken off
      the stream as it was written exactly if its content is at most MAX_PACKET_SIZE long. */
  lemma FrameReadBackExactly(z: Zlib, threshold: int, p: Packet, content: seq<byte>, rest: seq<byte>)
    requires z.Lawful() && Readable(z, threshold, p) && IsContent(z, threshold, p, content)
    ensures var c := ParseContent(z, threshold, content);
      && c.Content?
      && (ParseFrame(z, threshold, Prefixed(content) + rest) == Frame(c.raw, c.payload, rest)
          <==> |content| <= 131072)
  {
    ContentRoundTrip(z, threshold, p, content);
    hide ParseContent, ReadVarInt, WriteVarInt;
    if |content| <= MAX_PACKET_SIZE {
      PrefixedRoundTrip(z, threshold, content, rest);
    } else {
      var length := ToSigned(|content|);
      assert Prefixed(content) + rest == WriteVarInt(length) + (content + rest);
      VarIntRoundTrip(length, content + rest);
      if 0 <= length <= MAX_PACKET_SIZE {
        PayloadIsContent(z, threshold, (content + rest)[..length]);
      }
    }
  }

  /** One frame at the head of the input is one packet at the head of the result. */
  lemma ReadAllStep(z: Zlib, threshold: int, p: Packet, content: seq<byte>, rest: seq<byte>)
    requires z.Lawful() && Readable(z, threshold, p)
    requires IsContent(z, threshold, p, content) && |content| <= MAX_PACKET_SIZE
    ensures var tail := ReadAll(z, threshold, rest);
      ReadAll(z, threshold, Prefixed(content) + rest) ==
        Outcome([Meaning(z, threshold, p)] + tail.packets, tail.error)
  {
    FrameRoundTrip(z, threshold, p, content, rest);
  }

  /** The bytes of small frames: a raw payload behind its length; without compression the length, the
      ID and the body; below the threshold a zero between length and ID. */
  lemma FrameLayout(z: Zlib, threshold: int, p: Packet, content: seq<byte>)
    requires IsContent(z, threshold, p, content) && |content| < 0x80
    ensures p.Raw? ==> Prefixed(content) == [|p.payload|] + p.payload
    ensures p.Typed? && 0 <= p.id < 0x80 && threshold < 1 ==>
      Prefixed(content) == [|p.body| + 1, p.id] + p.body
    ensures p.Typed? && 0 <= p.id < 0x80 && 1 <= threshold && |p.body| + 1 < threshold ==>
      Prefixed(content) == [|p.body| + 2, 0, p.id] + p.body
    ensures p.Typed? && 0 <= p.id < 0x80 && 1 <= threshold <= |p.body| + 1 ==>
      exists header, chunks :: IsLeb128(header) && Leb128(header) == (|p.body| + 1) % 0x1_0000_0000
        && Concat(chunks) == [p.id] + p.body
        && Prefixed(content) == [|content|] + header + z.Deflate(chunks)
  {
    hide WriteVarInt, DataLengthHeader, IsLeb128, Leb128, Concat, PutUvarint;
    ShortVarInt(|content|);
    if p.Typed? && 0 <= p.id < 0x80 {
      ShortVarInt(p.id);
      if 1 <= threshold <= |p.body| + 1 {
        var chunks :| Concat(chunks) == Plain(p) && content == DataLengthHeader(|Plain(p)|) + z.Deflate(chunks);
        HeaderLayout(|p.body| + 1);
        CompressedBytes(content, DataLengthHeader(|p.body| + 1), z.Deflate(chunks));
      } else if threshold < 1 {
        UncompressedBytes(content, [], p.id, p.body);
      } else {
        UncompressedBytes(content, [0], p.id, p.body);
      }
    }
  }

  /** What the declared data length decides: none or a negative one means plain bytes, one below the
      threshold is refused, any other means a compressed stream. */
  lemma DataLengthCases(z: Zlib, threshold: int, declared: int32, tail: seq<byte>)
    requires threshold > 0
    ensures var content := WriteVarInt(declared) + tail;
      var c := ParseContent(z, threshold, content);
      && (c == BadContent(BelowThreshold) <==> 0 < declared < threshold)
      && (declared <= 0 ==> c == ParseId(z, Plainly(tail), content, declared))
      && (declared >= threshold ==>
            match z.inflate(tail)
            case BadHeader => c == BadContent(BadZlibHeader)
            case Stream(plain, clean) => c == ParseId(z, Inflating(plain, clean), content, declared))
  {
    VarIntRoundTrip(declared, tail);
  }

  lemma HeaderLayout(n: nat)
    ensures IsLeb128(DataLengthHeader(n)) && Leb128(DataLengthHeader(n)) == n % 0x1_0000_0000
  {
    UvarintLayout(n % 0x1_0000_0000);
  }

  lemma CompressedBytes(content: seq<byte>, header: seq<byte>, deflated: seq<byte>)
    requires |content| < 0x80 && content == header + deflated && WriteVarInt(|content|) == [|content|]
    ensures Prefixed(content) == [|content|] + header + deflated
  {
    hide WriteVarInt;
  }

  lemma UncompressedBytes(content: seq<byte>, zero: seq<byte>, id: byte, body: seq<byte>)
    requires |content| < 0x80 && content == zero + ([id] + body) && WriteVarInt(|content|) == [|content|]
    requires zero == [] || zero == [0]
    ensures Prefixed(content) == if zero == [] then [|body| + 1, id] + body else [|body| + 2, 0, id] + body
  {
    hide WriteVarInt;
  }

  lemma DeliverableHead(z: Zlib, threshold: int, packets: seq<Packet>, contents: seq<seq<byte>>)
    requires ContentsOf(z, threshold, packets, contents) && Deliverable(z, threshold, packets, contents)
    requires packets != []
    ensures |packets| == |contents| && forall i :: 0 <= i < |packets| ==> Readable(z, threshold, packets[i])
    ensures IsContent(z, threshold, packets[0], contents[0]) && |contents[0]| <= MAX_PACKET_SIZE
    ensures Wired(contents) == Prefixed(contents[0]) + Wired(contents[1..])
    ensures Meanings(z, threshold, packets) ==
            [Meaning(z, threshold, packets[0])] + Meanings(z, threshold, packets[1..])
  {
    hide Readable, IsContent, Prefixed, Meaning;
  }

  lemma DeliverableTail(z: Zlib, threshold: int, packets: seq<Packet>, contents: seq<seq<byte>>)
    requires ContentsOf(z, threshold, packets, contents) && Deliverable(z, threshold, packets, contents)
    requires packets != []
    ensures ContentsOf(z, threshold, packets[1..], contents[1..])
    ensures Deliverable(z, threshold, packets[1..], contents[1..])
  {
    assert forall p :: p in packets[1..] ==> p in packets;
    assert forall c :: c in contents[1..] ==> c in contents;
  }

  /** Whatever was written to one stream is read back in order, and the reader then stands
      exactly at the end of the stream. */
  lemma {:induction false} StreamRoundTrip(
    z: Zlib, threshold: int, packets: seq<Packet>, contents: seq<seq<byte>>)
    requires z.Lawful() && ContentsOf(z, threshold, packets, contents)
    requires Deliverable(z, threshold, packets, contents)
    ensures ReadAll(z, threshold, Wired(contents)) ==
            Outcome(Meanings(z, threshold, packets), EndOfStream)
    decreases |packets|
  {
    if packets != [] {
      ReadAllStep(z, threshold, packets[0], contents[0], Wired(contents[1..]));
      DeliverableTail(z, threshold, packets, contents);
      StreamRoundTrip(z, threshold, packets[1..], contents[1..]);
    }
  }

  // ---- streams cut short -----------------------------------------------------------------

  lemma FrameTruncated(z: Zlib, threshold: int, content: seq<byte>, n: nat)
    requires |content| <= MAX_PACKET_SIZE && n < |Prefixed(content)|
    ensures var r := ParseFrame(z, threshold, Prefixed(content)[..n]);
      r.Broken? && (r.error == EndOfStream <==> n == 0 || n == |Prefixed(content)| - |content|)
  {
    hide ParseContent, ReadVarInt, WriteVarInt;
    var f, prefix := Prefixed(content), WriteVarInt(|content|);
    if n < |prefix| {
      assert f[..n] == prefix[..n];
      VarIntTruncated(|content|, n);
    } else {
      assert f[..n] == prefix + content[..n - |prefix|];
      VarIntRoundTrip(|content|, content[..n - |prefix|]);
    }
  }

  lemma ConsPrefix<T>(x: T, a: seq<T>, b: seq<T>)
    requires a <= b
    ensures [x] + a <= [x] + b
  {
  }

  lemma CutAfterFrame(f: seq<byte>, tail: seq<byte>, n: nat)
    requires |f| <= n <= |f + tail|
    ensures (f + tail)[..n] == f + tail[..n - |f|]
  {
  }

  /** A stream cut at any byte yields a prefix of the packets and nothing made up. */
  lemma {:induction false} CutStreamYieldsPrefix(
    z: Zlib, threshold: int, packets: seq<Packet>, contents: seq<seq<byte>>, n: nat)
    requires z.Lawful() && ContentsOf(z, threshold, packets, contents)
    requires Deliverable(z, threshold, packets, contents)
    requires n <= |Wired(contents)|
    ensures ReadAll(z, threshold, Wired(contents)[..n]).packets <= Meanings(z, threshold, packets)
    decreases |packets|, 1
  {
    if packets != [] {
      var f := Prefixed(contents[0]);
      if n < |f| {
        assert Wired(contents)[..n] == f[..n];
        FrameTruncated(z, threshold, contents[0], n);
      } else {
        CutInsideTail(z, threshold, packets, contents, n);
      }
    }
  }

  lemma {:induction false} CutInsideTail(
    z: Zlib, threshold: int, packets: seq<Packet>, contents: seq<seq<byte>>, n: nat)
    requires z.Lawful() && ContentsOf(z, threshold, packets, contents)
    requires Deliverable(z, threshold, packets, contents) && packets != []
    requires |Prefixed(contents[0])| <= n <= |Wired(contents)|
    ensures ReadAll(z, threshold, Wired(contents)[..n]).packets <= Meanings(z, threshold, packets)
    decreases |packets|, 0
  {
    DeliverableHead(z, threshold, packets, contents);
    hide ReadAll, ParseFrame, Wired, Meanings, Meaning, Prefixed, IsContent, Readable, Deliverable, ContentsOf;
    var f, tail := Prefixed(contents[0]), Wired(contents[1..]);
    var rest := tail[..n - |f|];
    CutAfterFrame(f, tail, n);
    ReadAllStep(z, threshold, packets[0], contents[0], rest);
    DeliverableTail(z, threshold, packets, contents);
    CutStreamYieldsPrefix(z, threshold, packets[1..], contents[1..], n - |f|);
    ConsPrefix(Meaning(z, threshold, packets[0]), ReadAll(z, threshold, rest).packets,
               Meanings(z, threshold, packets[1..]));
  }

  /** The cuts that look like a clean end: between frames, and right after a length prefix, where
      io.ReadFull finds nothing. */
  predicate LooksClean(contents: seq<seq<byte>>, n: nat) {
    if contents == [] then n == 0
    else
      var frame := |Prefixed(contents[0])|;
      n == 0 || n == frame - |contents[0]| || (n >= frame && LooksClean(contents[1..], n - frame))
  }

  lemma LooksCleanInHead(contents: seq<seq<byte>>, n: nat)
    requires contents != [] && n < |Prefixed(contents[0])|
    ensures LooksClean(contents, n) <==> n == 0 || n == |Prefixed(contents[0])| - |contents[0]|
  {
  }

  lemma LooksCleanInTail(contents: seq<seq<byte>>, n: nat)
    requires contents != [] && contents[0] != [] && n >= |Prefixed(contents[0])|
    ensures LooksClean(contents, n) <==> LooksClean(contents[1..], n - |Prefixed(contents[0])|)
  {
  }

  /** A cut stream is a part of its first frame, or that frame and a cut of the rest. */
  lemma CutStream(contents: seq<seq<byte>>, n: nat)
    requires contents != [] && n <= |Wired(contents)|
    ensures var f, tail := Prefixed(contents[0]), Wired(contents[1..]);
      && |Wired(contents)| == |f| + |tail|
      && Wired(contents)[..n] == if n < |f| then f[..n] else f + tail[..n - |f|]
  {
    hide Prefixed;
  }

  lemma ErrorInHead(z: Zlib, threshold: int, content: seq<byte>, n: nat)
    requires |content| <= MAX_PACKET_SIZE && n < |Prefixed(content)|
    ensures ReadAll(z, threshold, Prefixed(content)[..n]).error == EndOfStream
            <==> n == 0 || n == |Prefixed(content)| - |content|
  {
    hide ParseFrame, Prefixed, ReadAll;
    FrameTruncated(z, threshold, content, n);
    ReadAllUnfolds(z, threshold, Prefixed(content)[..n]);
  }

  lemma ErrorInTail(z: Zlib, threshold: int, p: Packet, content: seq<byte>, rest: seq<byte>)
    requires z.Lawful() && Readable(z, threshold, p)
    requires IsContent(z, threshold, p, content) && |content| <= MAX_PACKET_SIZE
    ensures ReadAll(z, threshold, Prefixed(content) + rest).error == ReadAll(z, threshold, rest).error
  {
    hide ReadAll, Prefixed, Readable, IsContent, Meaning;
    ReadAllStep(z, threshold, p, content, rest);
  }

  /** A cut stream ends with the error of a clean end exactly at those cuts. */
  lemma {:induction false} CleanEndExactly(
    z: Zlib, threshold: int, packets: seq<Packet>, contents: seq<seq<byte>>, n: nat)
    requires z.Lawful() && ContentsOf(z, threshold, packets, contents)
    requires Deliverable(z, threshold, packets, contents)
    requires n <= |Wired(contents)|
    ensures ReadAll(z, threshold, Wired(contents)[..n]).error == EndOfStream <==> LooksClean(contents, n)
    decreases |packets|
  {
    if packets == [] {
      NothingWired(z, threshold);
    } else {
      DeliverableHead(z, threshold, packets, contents);
      DeliverableTail(z, threshold, packets, contents);
      hide ReadAll, ParseFrame, Wired, Meanings, Meaning, Prefixed, IsContent, Readable, Deliverable, ContentsOf;
      hide LooksClean;
      var f := |Prefixed(contents[0])|;
      CutStream(contents, n);
      if n < f {
        ErrorInHead(z, threshold, contents[0], n);
        LooksCleanInHead(contents, n);
      } else {
        ErrorInTail(z, threshold, packets[0], contents[0], Wired(contents[1..])[..n - f]);
        ContentNotEmpty(z, threshold, packets[0], contents[0]);
        LooksCleanInTail(contents, n);
        CleanEndExactly(z, threshold, packets[1..], contents[1..], n - f);
      }
    }
  }

  lemma NothingWired(z: Zlib, threshold: int)
    ensures Wired([]) == [] && ReadAll(z, threshold, []).error == EndOfStream && LooksClean([], 0)
  {
  }

  /** A frame of a readable packet holds at least an ID. */
  lemma ContentNotEmpty(z: Zlib, threshold: int, p: Packet, content: seq<byte>)
    requires z.Lawful() && Readable(z, threshold, p) && IsContent(z, threshold, p, content)
    ensures content != []
  {
    ContentRoundTrip(z, threshold, p, content);
    NothingToParse(z, threshold);
  }

  lemma NothingToParse(z: Zlib, threshold: int)
    ensures ParseContent(z, threshold, []) == BadContent(EndOfStream)
  {
  }

  /** Forwarding: a frame taken in with any encoding of its length, however long, and sent
      on as a raw packet is read again with the same ID, data length, payload and body. */
  lemma RawForwardKeepsPacket(z: Zlib, threshold: int, s: seq<byte>, rest: seq<byte>)
    requires ParseFrame(z, threshold, s).Frame?
    ensures var r := ParseFrame(z, threshold, s);
      && IsContent(z, threshold, Raw(r.raw.payload), r.raw.payload)
      && ParseFrame(z, threshold, Prefixed(r.raw.payload) + rest) == Frame(r.raw, r.payload, rest)
  {
    var r := ParseFrame(z, threshold, s);
    FrameHasContent(z, threshold, s);
    hide ParseFrame, ParseContent;
    PrefixedRoundTrip(z, threshold, r.raw.payload, rest);
  }

  lemma FrameHasContent(z: Zlib, threshold: int, s: seq<byte>)
    requires ParseFrame(z, threshold, s).Frame?
    ensures var r := ParseFrame(z, threshold, s);
      |r.raw.payload| <= MAX_PACKET_SIZE && ParseContent(z, threshold, r.raw.payload) == Content(r.raw, r.payload)
  {
    hide ParseContent, ReadVarInt;
    var length := ReadVarInt(s);
    var content := ReadFull(length.rest, length.value);
    PayloadIsContent(z, threshold, content.value);
  }
}
