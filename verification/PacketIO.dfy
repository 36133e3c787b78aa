/** packetWriter and packetReader: the objects that put frames on a stream and take them off.
    Their contracts refer to the frame format of Frames.dfy. */
module PacketIO {
  import opened Common
  import opened Wire
  import opened Frames

  datatype WriteError = SinkFailed | FlushFailed | SerializeFailed

  /** An io.Writer that may take any part of what it is given before it fails; `faults` counts
      the calls that failed. */
  class Sink {
    var data: seq<byte>
    ghost var faults: nat

    constructor ()
      ensures data == [] && faults == 0
    {
      data, faults := [], 0;
    }

    method Write(p: seq<byte>) returns (ok: bool)
      modifies this
      ensures old(data) <= data <= old(data) + p
      ensures ok ==> data == old(data) + p
      ensures faults == old(faults) + if ok then 0 else 1
    {
      if * {
        data := data + p;
        ok := true;
      } else {
        var n :| 0 <= n <= |p|;
        data := data + p[..n];
        faults := faults + 1;
        ok := false;
      }
    }

    method Flush() returns (ok: bool)
      modifies `faults
      ensures faults == old(faults) + if ok then 0 else 1
    {
      if * {
        ok := true;
      } else {
        faults := faults + 1;
        ok := false;
      }
    }
  }

  class PacketWriter {
    const zlib: Zlib
    const threshold: int
    const out: Sink
    var err: Option<WriteError>
    var buf: seq<byte>           // bytes.Buffer: read at the front, written at the end
    var zliber: seq<seq<byte>>   // chunks the compressor has taken since its last Reset

    ghost var base: seq<byte>           // what the sink held at first
    ghost var accepted: seq<Packet>     // packets offered while there was no error
    ghost var contents: seq<seq<byte>>  // the frame contents made for them

    /** The sink holds the frames of the accepted packets, or a prefix of them once a write
        has failed. */
    ghost predicate Valid()
      reads this, out
    {
      && ContentsOf(zlib, threshold, accepted, contents)
      && base <= out.data <= base + Wired(contents)
      && (err.None? ==> out.data == base + Wired(contents))
    }

    constructor (out: Sink, threshold: int, zlib: Zlib)
      ensures Valid() && err.None? && accepted == []
      ensures this.out == out && this.threshold == threshold && this.zlib == zlib
      ensures base == out.data
    {
      this.out, this.threshold, this.zlib := out, threshold, zlib;
      err, buf, zliber := None, [], [];
      base, accepted, contents := out.data, [], [];
    }

    /** `_, w.err = w.out.Write(p)` */
    method Emit(p: seq<byte>)
      requires err.None?
      modifies `err, out
      ensures old(out.data) <= out.data <= old(out.data) + p
      ensures err.None? ==> out.data == old(out.data) + p
      ensures out.faults >= old(out.faults)
      ensures err.None? <==> out.faults == old(out.faults)
    {
      var ok := out.Write(p);
      if !ok {
        err := Some(SinkFailed);
      }
    }

    /** One frame: its length, the data-length header if there is one, and the data, given up
        at the first error. */
    method EmitFrame(header: seq<byte>, data: seq<byte>)
      requires err.None?
      modifies `err, out
      ensures old(out.data) <= out.data <= old(out.data) + Prefixed(header + data)
      ensures err.None? ==> out.data == old(out.data) + Prefixed(header + data)
      ensures out.faults >= old(out.faults)
      ensures err.None? <==> out.faults == old(out.faults)
    {
      ghost var start, length := out.data, WriteVarInt(ToSigned(|header| + |data|));
      assert Prefixed(header + data) == length + header + data;
      Emit(WriteVarInt(ToSigned(|header| + |data|)));
      if err.Some? {
        return;
      }
      if header != [] {
        Emit(header);
        if err.Some? {
          return;
        }
      }
      assert out.data == start + length + header;
      Emit(data);
      assert start + length + header + data == start + (length + header + data);
    }

    /** Compress the datalen bytes at the front of buf into the end of buf. Whatever pieces
        they are copied in, buf ends up as the whole compressed stream and nothing else. */
    method CompressInPlace(datalen: nat)
      requires |buf| == datalen
      modifies `buf, `zliber
      ensures Concat(zliber) == old(buf) && buf == zlib.Deflate(zliber)
    {
      ghost var plain := buf;
      zliber := [];
      var left := datalen;
      while left > 0
        invariant 0 <= left <= datalen
        invariant buf == plain[datalen - left..] + zlib.Emitted(zliber)
        invariant Concat(zliber) == plain[..datalen - left]
      {
        var n :| 1 <= n <= left;
        var chunk := buf[..n];
        ChunkStep(zlib, zliber, plain, datalen - left, n);
        buf := buf[n..] + zlib.emit(zliber, chunk);
        zliber := zliber + [chunk];
        left := left - n;
      }
      buf := buf + zlib.finish(zliber);
    }

    /** Taking n plain bytes off the front and putting what they compress to at the end. */
    static lemma ChunkStep(z: Zlib, chunks: seq<seq<byte>>, plain: seq<byte>, done: nat, n: nat)
      requires done + n <= |plain| && Concat(chunks) == plain[..done]
      ensures var fifo := plain[done..] + z.Emitted(chunks);
        && n <= |fifo|
        && var chunk := fifo[..n];
           && fifo[n..] + z.emit(chunks, chunk) == plain[done + n..] + z.Emitted(chunks + [chunk])
           && Concat(chunks + [chunk]) == plain[..done + n]
    {
      var chunk := plain[done..done + n];
      var fifo := plain[done..] + z.Emitted(chunks);
      assert fifo[..n] == chunk && fifo[n..] == plain[done + n..] + z.Emitted(chunks);
      assert (chunks + [chunk])[..|chunks|] == chunks;
      assert plain[..done] + chunk == plain[..done + n];
    }

    method WritePacket(packet: Packet, flush: bool) returns (e: Option<WriteError>)
      requires Valid()
      modifies this, out
      ensures Valid() && base == old(base) && e == err
      // an error sticks, and nothing is written after it
      ensures old(err).Some? ==> err == old(err) && out.data == old(out.data) && accepted == old(accepted)
      // a packet that does not serialize contributes no byte
      ensures old(err).None? && packet.Typed? && !packet.serializes ==>
        err == Some(SerializeFailed) && out.data == old(out.data) && accepted == old(accepted)
      // any other packet contributes one frame, or part of it
      ensures old(err).None? && (packet.Typed? ==> packet.serializes) ==>
        && accepted == old(accepted) + [packet]
        && |contents| == |accepted| && contents[..|contents| - 1] == old(contents)
        && old(out.data) <= out.data <= old(out.data) + Prefixed(contents[|contents| - 1])
        && (err.None? <==> out.faults == old(out.faults))
      ensures out.faults >= old(out.faults)
    {
      if err.Some? {
        return err;
      }
      if packet.Raw? {
        WriteContent(packet, [], packet.payload);
        if flush {
          e := Flush();
          return;
        }
        return err;
      }

      buf := WriteVarInt(packet.id);
      buf := buf + packet.body;
      if !packet.serializes {
        err := Some(SerializeFailed);
        return err;
      }

      if threshold < 1 {
        WriteContent(packet, [], buf);
        if flush {
          e := Flush();
          return;
        }
        return err;
      }

      var datalen := 0;
      if |buf| >= threshold {
        datalen := |buf|;
        CompressInPlace(datalen);
      }
      WriteContent(packet, DataLengthHeader(datalen), buf);
      if flush {
        e := Flush();
        return;
      }
      return err;
    }

    /** Write one frame for the packet and enter it into the books. */
    method WriteContent(packet: Packet, header: seq<byte>, data: seq<byte>)
      requires Valid() && err.None?
      requires IsContent(zlib, threshold, packet, header + data)
      modifies `err, `accepted, `contents, out
      ensures Valid()
      ensures accepted == old(accepted) + [packet] && contents == old(contents) + [header + data]
      ensures old(out.data) <= out.data <= old(out.data) + Prefixed(header + data)
      ensures out.faults >= old(out.faults)
      ensures err.None? <==> out.faults == old(out.faults)
    {
      StreamAppend(contents, header + data);
      ghost var wired := Wired(contents);
      EmitFrame(header, data);
      assert base + wired + Prefixed(header + data) == base + (wired + Prefixed(header + data));
      accepted := accepted + [packet];
      contents := contents + [header + data];
    }

    method Flush() returns (e: Option<WriteError>)
      modifies `err, out`faults
      ensures e == err
      ensures old(err).Some? ==> err == old(err)
      ensures out.faults >= old(out.faults)
      ensures old(err).None? ==> (err.None? <==> out.faults == old(out.faults))
    {
      if err.Some? {
        return err;
      }
      var ok := out.Flush();
      if !ok {
        err := Some(FlushFailed);
      }
      return err;
    }

    /** injectPacketCommand.Execute: the error of each write is ignored, the one of the final
        flush is not. It still reports success only if every packet was taken. */
    method InjectAll(payload: seq<Packet>) returns (e: Option<WriteError>)
      requires Valid()
      modifies this, out
      ensures Valid() && base == old(base) && e == err
      ensures old(out.data) <= out.data
      ensures exists k :: 0 <= k <= |payload| && accepted == old(accepted) + payload[..k]
      ensures e.None? ==> accepted == old(accepted) + payload
      ensures e.None? <==>
        old(err).None? && out.faults == old(out.faults) && forall p <- payload :: p.Typed? ==> p.serializes
    {
      var i := 0;
      ghost var k := 0;
      while i < |payload|
        invariant 0 <= k <= i <= |payload|
        invariant Valid() && base == old(base) && old(out.data) <= out.data
        invariant accepted == old(accepted) + payload[..k]
        invariant err.None? ==> k == i
        invariant out.faults >= old(out.faults)
        invariant err.None? <==>
          old(err).None? && out.faults == old(out.faults) && forall p <- payload[..i] :: p.Typed? ==> p.serializes
      {
        assert payload[..i + 1] == payload[..i] + [payload[i]];
        var failed := err.Some?;
        var _ := WritePacket(payload[i], false);
        if !failed && (payload[i].Typed? ==> payload[i].serializes) {
          k := i + 1;
        }
        i := i + 1;
      }
      assert payload[..|payload|] == payload;
      e := Flush();
    }
  }

  predicate FirstAt(wanted: seq<int32>, id: int32, i: nat) {
    i < |wanted| && wanted[i] == id && id !in wanted[..i]
  }

  class PacketReader {
    const zlib: Zlib
    const threshold: int
    var input: seq<byte>   // what the connection still delivers
    var err: Option<Error>
    var slicer: seq<byte>
    var payload: Payload

    constructor (input: seq<byte>, threshold: int, zlib: Zlib)
      ensures this.input == input && this.threshold == threshold && this.zlib == zlib && err.None?
    {
      this.input, this.threshold, this.zlib := input, threshold, zlib;
      err, slicer, payload := None, [], Plainly([]);
    }

    method ReadPacket() returns (raw: RawPacket, e: Option<Error>)
      modifies this
      ensures e == err
      ensures old(err).Some? ==> err == old(err) && input == old(input)
      ensures old(err).None? ==>
        match ParseFrame(zlib, threshold, old(input))
        case Frame(r, p, rest) => err.None? && raw == r && payload == p && input == rest
        case Broken(x, rest) => err == Some(x) && input == rest
    {
      raw := RawPacket(0, 0, []);
      if err.Some? {
        return raw, err;
      }
      slicer := [];

      var length := ReadVarInt(input);
      if !length.ok {
        err := Some(if input == [] then EndOfStream else Truncated);
        input := length.rest;
        return raw, err;
      }
      input := length.rest;
      if length.value > MAX_PACKET_SIZE {
        err := Some(TooBig);
        return raw, err;
      }
      if length.value < 0 {
        err := Some(NegativeLength);
        return raw, err;
      }

      var full := ReadFull(input, length.value);
      input := full.rest;
      if !full.ok {
        err := Some(if length.rest == [] then EndOfStream else Truncated);
        return raw, err;
      }
      slicer := full.value;

      var dataLength: int32 := 0;
      if threshold > 0 {
        var header := ReadVarInt(slicer);
        slicer := header.rest;
        if !header.ok {
          err := Some(if full.value == [] then EndOfStream else BadDataLength);
          return raw, err;
        }
        dataLength := header.value;
        if 0 < dataLength < threshold {
          err := Some(BelowThreshold);
          return raw, err;
        }
      }

      if dataLength > 0 {
        match zlib.inflate(slicer) {
          case BadHeader =>
            err := Some(BadZlibHeader);
            return raw, err;
          case Stream(plain, clean) =>
            payload := Inflating(plain, clean);
        }
      } else {
        payload := Plainly(slicer);
      }

      var id := ReadVarInt(payload.bytes);
      if !id.ok || RanIntoEnd(zlib, payload, id.rest) {
        err := Some(IdError(zlib, payload));
        return raw, err;
      }
      payload := payload.(bytes := id.rest);
      if id.value > MAX_PACKET_ID || id.value < 0 {
        err := Some(BadPacketId);
        return raw, err;
      }
      raw := RawPacket(id.value, dataLength, full.value);
      return raw, None;
    }

    /** The rest of the packet; a compressed one is inflated only now. */
    method Payload() returns (bytes: seq<byte>, e: Option<Error>)
      requires err.None?
      modifies `err, `payload
      ensures e == err
      ensures old(payload).Inflating? && !old(payload).clean ==> err == Some(BadZlibStream)
      ensures old(payload).Inflating? ==> old(payload).clean ==>
        err.None? && bytes == old(payload).bytes && payload == Plainly(bytes)
      ensures old(payload).Plainly? ==> err.None? && bytes == old(payload).bytes && payload == old(payload)
    {
      if payload.Inflating? {
        if !payload.clean {
          err := Some(BadZlibStream);
          return [], err;
        }
        payload := Plainly(payload.bytes);
      }
      return payload.bytes, None;
    }

    /** ParsePackets: one packet, handed to the first wanted packet type with its ID; without
        one the packet is unexpected, and its payload is not asked for. */
    method ParsePackets(wanted: seq<int32>)
      returns (found: Option<nat>, raw: RawPacket, bytes: seq<byte>, e: Option<Error>)
      modifies this
      ensures old(err).Some? ==> e == old(err) && found.None? && input == old(input)
      ensures old(err).None? ==>
        match ParseFrame(zlib, threshold, old(input))
        case Broken(x, rest) => e == Some(x) && found.None? && input == rest
        case Frame(r, p, rest) =>
          && raw == r && input == rest
          && if r.id !in wanted then e.None? && found.None?
             else if p.Inflating? && !p.clean then e == Some(BadZlibStream) && found.None?
             else e.None? && bytes == p.bytes && found.Some? && FirstAt(wanted, r.id, found.value)
    {
      hide ParseFrame;
      found, bytes := None, [];
      raw, e := ReadPacket();
      if e.Some? {
        return;
      }
      for i := 0 to |wanted|
        invariant raw.id !in wanted[..i]
      {
        if raw.id != wanted[i] {
          assert wanted[..i + 1] == wanted[..i] + [wanted[i]];
          continue;
        }
        bytes, e := Payload();
        if e.None? {
          found := Some(i);
        }
        return;
      }
      assert wanted[..|wanted|] == wanted;
    }

    /** The receiving loop of the proxy with every packet asked for its payload. */
    method ReceiveAll() returns (packets: seq<Received>, error: Error)
      requires err.None?
      modifies this
      ensures Outcome(packets, error) == ReadAll(zlib, threshold, old(input))
      ensures err == Some(error)
    {
      hide ParseFrame, ReadAll;
      packets := [];
      ghost var whole := ReadAll(zlib, threshold, input);
      while true
        invariant err.None?
        invariant whole.packets == packets + ReadAll(zlib, threshold, input).packets
        invariant whole.error == ReadAll(zlib, threshold, input).error
        decreases |input|
      {
        ReadAllUnfolds(zlib, threshold, input);
        var raw, e := ReadPacket();
        if e.Some? {
          return packets, e.value;
        }
        var bytes, e' := Payload();
        if e'.Some? {
          return packets, e'.value;
        }
        packets := packets + [Received(raw.id, bytes)];
      }
    }
  }

  /** Whatever failed and wherever: what the other side reads from the sink is a prefix of
      the packets accepted, and all of them, with a clean end, while nothing has failed. */
  lemma SinkIsReadBack(w: PacketWriter)
    requires w.Valid() && w.base == [] && w.zlib.Lawful()
    requires Deliverable(w.zlib, w.threshold, w.accepted, w.contents)
    ensures ReadAll(w.zlib, w.threshold, w.out.data).packets <= Meanings(w.zlib, w.threshold, w.accepted)
    ensures w.err.None? ==>
      ReadAll(w.zlib, w.threshold, w.out.data)
      == Outcome(Meanings(w.zlib, w.threshold, w.accepted), EndOfStream)
  {
    hide ReadAll, ParseFrame, Wired, Meanings;
    var n := |w.out.data|;
    assert w.base + Wired(w.contents) == Wired(w.contents);
    assert w.out.data == Wired(w.contents)[..n];
    CutStreamYieldsPrefix(w.zlib, w.threshold, w.accepted, w.contents, n);
    StreamRoundTrip(w.zlib, w.threshold, w.accepted, w.contents);
  }
}
