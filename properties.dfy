/** Properties of the frame codec: what the decoder accepts and rejects, that
    it inverts the response encoding, and the worked examples of the protocol. */
module Properties {
  import opened Wire
  import opened Transport
  import opened Byond

  /** The first read of a response cannot deliver more than the 5 bytes asked
      for; when it delivers fewer, the decoder fails with a count mismatch. */
  lemma ShortHeaderFails(chunks: seq<Chunk>)
    requires |ReadStep(chunks, ResponseHeaderSize).data| != ResponseHeaderSize
    ensures |ReadStep(chunks, ResponseHeaderSize).data| < ResponseHeaderSize
    ensures Recv(chunks).outcome
            == Err(CountMismatch(ResponseHeaderSize, |ReadStep(chunks, ResponseHeaderSize).data|))
  {
  }

  /** A stream that ends within the header fails the header read, however the
      transport splits the bytes. */
  lemma TruncatedHeaderFails(chunks: seq<Chunk>)
    requires |Stream(chunks)| < ResponseHeaderSize
    ensures Recv(chunks).outcome.Err? && Recv(chunks).outcome.error.CountMismatch?
    ensures Recv(chunks).outcome.error.expected == ResponseHeaderSize
  {
    var h := ReadStep(chunks, ResponseHeaderSize);
    assert |Stream(chunks)| == |h.data| + |Stream(h.rest)|;
  }

  /** Five header bytes that arrive together with a transport error: the
      error is returned. */
  lemma HeaderErrorReturned(chunks: seq<Chunk>, e: NetError)
    requires ReadStep(chunks, ResponseHeaderSize).err == Some(e)
    requires |ReadStep(chunks, ResponseHeaderSize).data| == ResponseHeaderSize
    ensures Recv(chunks).outcome == Err(Net(e))
  {
  }

  /** A complete header with a wrong byte 0, 1 or 4 is rejected as a bad
      response, whatever follows it. */
  lemma BadMarkersRejected(chunks: seq<Chunk>)
    requires var h := ReadStep(chunks, ResponseHeaderSize);
             |h.data| == ResponseHeaderSize && h.err.None?
             && (h.data[0] != 0x00 || h.data[1] != PacketType || h.data[4] != ResponseMarker)
    ensures Recv(chunks).outcome == Err(BadResponse)
  {
  }

  /** A length field of 0 makes the body size -1: the allocation panics. */
  lemma ZeroLengthPanics(chunks: seq<Chunk>)
    requires var h := ReadStep(chunks, ResponseHeaderSize);
             |h.data| == ResponseHeaderSize && h.err.None? && WellFormedHeader(h.data)
             && BigEndianUint16(h.data[2], h.data[3]) == 0
    ensures Recv(chunks).outcome == Panicked(NegativeMakeLength)
  {
    var h := ReadStep(chunks, ResponseHeaderSize);
    assert BodyLength(h.data) == -1;
  }

  /** A length field of 1 makes the body empty: the zero-byte read succeeds and
      dropping the last byte panics. */
  lemma OneLengthPanics(chunks: seq<Chunk>)
    requires var h := ReadStep(chunks, ResponseHeaderSize);
             |h.data| == ResponseHeaderSize && h.err.None? && WellFormedHeader(h.data)
             && BigEndianUint16(h.data[2], h.data[3]) == 1
    ensures Recv(chunks) == Received(Panicked(SliceOutOfRange), ReadStep(chunks, ResponseHeaderSize).rest)
  {
    var h := ReadStep(chunks, ResponseHeaderSize);
    assert BodyLength(h.data) == 0;
    assert ReadStep(h.rest, 0) == ReadResult([], None, h.rest);
  }

  /** After a well-formed header announcing L >= 2, the body read must deliver
      exactly L - 1 bytes; then the payload is the body without its last byte,
      unless the read also reported an error, which is returned. */
  lemma BodyDecoding(chunks: seq<Chunk>)
    requires var h := ReadStep(chunks, ResponseHeaderSize);
             |h.data| == ResponseHeaderSize && h.err.None? && WellFormedHeader(h.data)
             && BigEndianUint16(h.data[2], h.data[3]) >= 2
    ensures var h := ReadStep(chunks, ResponseHeaderSize);
            var length := BigEndianUint16(h.data[2], h.data[3]) - 1;
            var body := ReadStep(h.rest, length);
            var o := Recv(chunks).outcome;
            (|body.data| != length ==> o == Err(CountMismatch(length, |body.data|)))
            && (|body.data| == length && body.err.Some? ==> o == Err(Net(body.err.value)))
            && (|body.data| == length && body.err.None? ==>
                  o == Ok(body.data[..length - 1]) && |o.value| == length - 1
                  && body.data == o.value + [body.data[length - 1]])
  {
    var h := ReadStep(chunks, ResponseHeaderSize);
    var length := BigEndianUint16(h.data[2], h.data[3]) - 1;
    var body := ReadStep(h.rest, length);
    if |body.data| == length {
      assert body.data == body.data[..length - 1] + [body.data[length - 1]];
    }
  }

  /** Soundness of the decoder: a successful decode consumed exactly one
      well-formed response frame that carries the returned payload. */
  lemma DecodedFrameSound(chunks: seq<Chunk>) returns (trailer: byte)
    requires Recv(chunks).outcome.Ok?
    ensures var r := Recv(chunks);
            |r.outcome.value| + 2 < 0x1_0000
            && Stream(chunks) == ResponseFrame(r.outcome.value, trailer) + Stream(r.rest)
  {
    var r := Recv(chunks);
    var p := r.outcome.value;
    var h := ReadStep(chunks, ResponseHeaderSize);
    var length := BodyLength(h.data);
    var b := ReadStep(h.rest, length);
    trailer := b.data[length - 1];
    assert b.data == p + [trailer];
    PutOfBigEndianUint16(h.data[2], h.data[3]);
    assert h.data == [0x00, PacketType] + PutBigEndianUint16(|p| + 2) + [ResponseMarker];
    calc {
      Stream(chunks);
      h.data + Stream(h.rest);
      h.data + (b.data + Stream(b.rest));
      ResponseFrame(p, trailer) + Stream(r.rest);
    }
  }

  /** Round trip, header and body in two reads: decoding a response frame
      built from payload and any trailing byte gives back payload and leaves
      the later chunks unread. */
  lemma RoundTripTwoReads(payload: seq<byte>, trailer: byte, later: seq<Chunk>)
    requires |payload| + 2 < 0x1_0000
    ensures var f := ResponseFrame(payload, trailer);
            Recv([Chunk(f[..ResponseHeaderSize], None), Chunk(f[ResponseHeaderSize..], None)] + later)
            == Received(Ok(payload), later)
  {
    var f := ResponseFrame(payload, trailer);
    ResponseHeaderOf(payload, trailer);
    var body := Chunk(f[ResponseHeaderSize..], None);
    var chunks := [Chunk(f[..ResponseHeaderSize], None), body] + later;
    assert chunks == [chunks[0]] + ([body] + later);
    ReadWithinChunk(chunks[0], [body] + later, ResponseHeaderSize);
    ReadWithinChunk(body, later, |payload| + 1);
    assert (payload + [trailer])[..|payload|] == payload;
  }

  /** Round trip, whole frame in one chunk: the header read leaves the body
      queued, and the body read takes it; the result is payload unless the
      frame is the end of the chunk and an error was reported after it. */
  lemma RoundTripOneChunk(payload: seq<byte>, trailer: byte, extra: seq<byte>,
                          e: Option<NetError>, later: seq<Chunk>)
    requires |payload| + 2 < 0x1_0000
    ensures var f := ResponseFrame(payload, trailer);
            var o := Recv([Chunk(f + extra, e)] + later).outcome;
            (extra != [] || e.None? ==> o == Ok(payload))
            && (extra == [] && e.Some? ==> o == Err(Net(e.value)))
  {
    var f := ResponseFrame(payload, trailer);
    ResponseHeaderOf(payload, trailer);
    var c := Chunk(f + extra, e);
    ReadWithinChunk(c, later, ResponseHeaderSize);
    assert (f + extra)[..ResponseHeaderSize] == f[..ResponseHeaderSize];
    var left := Chunk((f + extra)[ResponseHeaderSize..], e);
    assert left.data == (payload + [trailer]) + extra;
    ReadWithinChunk(left, later, |payload| + 1);
    assert left.data[..|payload| + 1] == payload + [trailer];
    assert (payload + [trailer])[..|payload|] == payload;
  }

  /** Bytes 2-3 of the request for a 7-byte query hold 0x000E and the frame
      is 18 bytes long. */
  lemma SevenByteQueryLength(query: seq<byte>)
    requires |query| == 7
    ensures |RequestFrame(query)| == 18
    ensures RequestFrame(query)[2] == 0x00 && RequestFrame(query)[3] == 0x0E
  {
    RequestFrameAt(query, 2);
    RequestFrameAt(query, 3);
  }

  /** The request for the query "?status", byte for byte. */
  lemma StatusQueryFrame()
    ensures RequestFrame([0x3F, 0x73, 0x74, 0x61, 0x74, 0x75, 0x73])
         == [0x00, 0x83, 0x00, 0x0E, 0x00, 0x00, 0x00, 0x00, 0x00, 0x3F,
             0x3F, 0x73, 0x74, 0x61, 0x74, 0x75, 0x73, 0x00]
  {
  }

  /** A reply announcing L = 5 with the body 41 42 43 00 decodes to 41 42 43. */
  lemma FiveLengthReply()
    ensures Recv([Chunk([0x00, 0x83, 0x00, 0x05, 0x06], None), Chunk([0x41, 0x42, 0x43, 0x00], None)])
         == Received(Ok([0x41, 0x42, 0x43]), [])
  {
    var c0 := Chunk([0x00, 0x83, 0x00, 0x05, 0x06], None);
    var c1 := Chunk([0x41, 0x42, 0x43, 0x00], None);
    assert [c0, c1] == [c0] + [c1] && [c1] == [c1] + [];
    ReadWithinChunk(c0, [c1], ResponseHeaderSize);
    var h := ReadStep([c0, c1], ResponseHeaderSize);
    assert h == ReadResult(c0.data, None, [c1]);
    assert WellFormedHeader(h.data) && BodyLength(h.data) == 4;
    ReadWithinChunk(c1, [], 4);
    assert ReadStep([c1], 4) == ReadResult(c1.data, None, []);
    assert c1.data[..3] == [0x41, 0x42, 0x43];
  }
}
