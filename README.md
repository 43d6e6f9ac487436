# byond-go query client: a verified model of its message framing

The Go package `byond` is a client for the query ("topic") protocol of a BYOND
game-world server. A `QueryClient` stores a host. Each `Query` call does four
things in order:

1. It dials a new TCP connection.
2. It writes one request frame built from an opaque query.
3. If the caller asked for a reply, it reads one response frame.
4. It returns the response payload.

This project models that code in Dafny and proves what its byte layouts promise.

- `wire.dfy` (module `Wire`) holds the value-level layer. It has Go's `uint16`
  truncation and `binary.BigEndian` 16-bit get and put. It also has the request
  frame and the response frame as specification functions, with lemmas on their
  layout.
- `transport.dfy` (module `Transport`) is an abstract connection, a class
  `Conn`. The inbound side is a sequence of chunks. Each chunk holds bytes that
  arrive together, plus the error reported after them, if any. `ReadStep` gives
  the semantics of one `Read`. It delivers at most the buffer's size from the
  next chunk and leaves the rest of that chunk queued. It reads nothing, and
  reports no error, for a zero-length buffer, and it reports `Eof` once the
  stream is exhausted. The outbound side is a log that each successful `Write`
  appends the whole buffer to.
- `byond.dfy` (module `Byond`) holds the source's own code:
  - `EncodeRequest` fills a zero-initialised `array<byte>` at fixed offsets,
    then copies the query in with a loop. It is proved equal to `RequestFrame`.
  - `SendMsg` encodes the query and writes it.
  - `RecvMsg` makes two single reads into fresh buffers and is proved equal to
    the function `Recv`.
  - `QueryClient.Query` is the dial–send–optional-receive control flow. Its
    input is the outcome of the dial.
- `properties.dfy` (module `Properties`) proves what the decoder accepts and
  rejects. It proves that decoding inverts the response encoding in two ways:
  a successful decode consumed exactly one frame, and every frame decodes back
  to its payload. It also proves the protocol's two worked examples.

Go's runtime panics are kept apart from returned errors. `Outcome` is
`Ok | Err | Panicked`. A length field of 0 reaches `make([]byte, -1)`, which is
`Panicked(NegativeMakeLength)`. A length field of 1 reaches `buf[:-1]`, which is
`Panicked(SliceOutOfRange)`. Errors are tags only: `Net(e)` passes a transport
error on unchanged, `CountMismatch(expected, got)` is a read of the wrong size,
and `BadResponse` is a wrong marker byte.

Points where the code's behaviour is easy to misread, and which the model follows literally:

- The code allocates `11 + len(query)` bytes but writes only the first
  `10 + len(query)`. Every request frame therefore ends with one zero byte. The
  length field `len(query) + 7` counts all bytes after the first four, that
  final zero included. The 18-byte frame for `"?status"` ends in `00`.
- There is no loop that keeps reading until the expected count arrives. The
  code makes exactly one `Read` for the header and one for the body. Any other byte count is an error, even when more bytes would have
  followed. The model keeps the single read.
- The model keeps the code's check order: the byte count first, then the
  transport error. Five header bytes that arrive with an error return that
  error. A short read that comes with an error returns the count mismatch
  instead.

## Model

| member | source | states |
|---|---|---|
| Wire.ToUint16 | byond.go:42 | Go's `uint16(x)`: equals x when x fits, and otherwise differs from x by a multiple of 65536 (wrap-around) |
| Wire.BigEndianUint16Bytes | byond.go:65 | `BigEndianUint16`, the model of `binary.BigEndian.Uint16(buf[2:4])`: the value read from bytes hi, lo has hi as its high byte and lo as its low byte |
| Wire.RequestLengthFieldValue | byond.go:42 | `RequestLengthField`, the model of `uint16(len(query)+7)`, is len(query) + 7 modulo 65536, and exactly len(query) + 7 when that fits in 16 bits |
| Wire.PutBigEndianUint16 | byond.go:42 | the two bytes written for v read back as v |
| Wire.PutOfBigEndianUint16 | byond.go:42 | re-encoding a value read from two bytes gives back those bytes, so each 16-bit value has only one encoding |
| Wire.RequestFrame | byond.go:39-47 | the request is 11 + \|query\| bytes; byte 0 is 0x00, byte 1 is 0x83, bytes 4-8 are zero and byte 9 is '?'; bytes 2-3 decode to (\|query\| + 7) mod 65536; the query is at offset 10; the final byte is zero |
| Wire.RequestFrameAt | byond.go:39-47 | every byte of the frame equals the position-by-position description; bytes other than the written ones are the zero of `make` |
| Wire.RequestLengthCountsTail | byond.go:42 | without wrap-around, the length field equals the number of frame bytes after the first four |
| Wire.RequestLengthWraps | byond.go:42 | a 65529-byte query gives a length field of 0x0000, the wrap-around of `uint16(len(query)+7)` |
| Wire.ResponseFrame | byond.go:61-74 | the response carrying p and a trailing byte has markers 0x00, 0x83 and 0x06, a length field of \|p\| + 2, then p, then the trailing byte |
| Wire.BodyLength | byond.go:65 | the body size derived from a header is from -1 to 65534 |
| Wire.ResponseHeaderOf | byond.go:61-65 | a frame's header passes the marker checks and announces a body of \|p\| + 1 bytes, which is p followed by the trailing byte |
| Transport.ReadStep | byond.go:55 | one `Read` delivers at most the buffer's size; what it delivers is the next part of the inbound stream, and the rest of the stream stays unread; a zero-size read consumes nothing; an exhausted stream reports Eof |
| Transport.ReadWithinChunk | byond.go:68 | a read no larger than the next chunk takes exactly that many bytes of it, and reports the chunk's error only when it takes all of the chunk |
| Transport.Conn.Read | byond.go:55 | `conn.Read(buf)` fills the first n bytes of buf with what ReadStep delivers, leaves the rest of buf unchanged, and advances the inbound chunks |
| Transport.Conn.Write | byond.go:49 | `conn.Write(buf)` appends all of buf to the outbound log and reports no error, or appends nothing and reports the connection's write error |
| Byond.Recv | byond.go:53-75 | a decoded payload is shorter than the inbound stream by at least the 5 header bytes and one trailing byte; decoding only consumes bytes |
| Byond.EncodeRequest | byond.go:39-47 | the buffer built by zero-initialising, indexed writes and the copy loop is exactly RequestFrame(query) |
| Byond.SendMsg | byond.go:38-51 | on success exactly RequestFrame(query) is appended to the outbound bytes; on failure the write error is returned and nothing is logged |
| Byond.RecvMsg | byond.go:53-75 | the outcome, and the chunks left unread, are those of Recv on the connection's inbound chunks |
| Byond.QueryClient.constructor | byond.go:77-81 | NewQueryClient stores the host and does nothing else |
| Byond.QueryClient.Query | byond.go:15-36 | a dial or send error is returned as it is, and nothing is read; after a send, fetchResp = false gives (nil, nil) without reading; fetchResp = true passes Recv's payload on as Ok(Some(p)) and its error or panic on unchanged, leaving Recv's unread chunks; the request frame is written exactly once |
| Properties.ShortHeaderFails | byond.go:55-56 | the header read never delivers more than 5 bytes; fewer gives CountMismatch(5, n) |
| Properties.TruncatedHeaderFails | byond.go:55-56 | a stream with fewer than 5 bytes always fails with a count mismatch, however it is chunked |
| Properties.HeaderErrorReturned | byond.go:57-58 | five header bytes that arrive with a transport error return that error |
| Properties.BadMarkersRejected | byond.go:61-62 | the marker test (`WellFormedHeader`): a complete header with a wrong byte 0, 1 or 4 gives BadResponse and no payload |
| Properties.ZeroLengthPanics | byond.go:65-67 | a length field of 0 reaches `make` with -1, which panics |
| Properties.OneLengthPanics | byond.go:65-74 | a length field of 1 reads zero bytes and then panics on `buf[:-1]` |
| Properties.BodyDecoding | byond.go:65-74 | with L >= 2: a body read of any size other than L-1 is a count mismatch; an exact read with an error returns the error; otherwise the payload is the body without its last byte |
| Properties.DecodedFrameSound | byond.go:53-75 | a successful decode consumed exactly ResponseFrame(payload, t) for some trailing byte t from the front of the inbound stream |
| Properties.RoundTripTwoReads | byond.go:61-74 | the header and the body of ResponseFrame(p, t), delivered in two reads, decode to exactly p, and later chunks stay unread |
| Properties.RoundTripOneChunk | byond.go:61-74 | a whole frame arriving as one chunk decodes to p, unless the frame ends the chunk and an error follows it, in which case that error is returned |
| Properties.SevenByteQueryLength | byond.go:39-42 | a 7-byte query gives an 18-byte frame whose length field is 0x000E |
| Properties.StatusQueryFrame | byond.go:39-47 | the request for "?status" is 00 83 00 0E 00 00 00 00 00 3F 3F 73 74 61 74 75 73 00 |
| Properties.FiveLengthReply | byond.go:61-74 | the reply 00 83 00 05 06 with the body 41 42 43 00 decodes to 41 42 43 |

## Left out

- Dialing: `net.Dialer.DialContext`, the context's cancellation and deadline, and the host string passed to the dial. `Query` takes the dial's outcome as a parameter, either a connection or an error, so `host` is stored but unused.
- The source never closes the connection (no `Close`, no `defer`) and sets no read or write deadline, so the model has neither. Real TCP segmentation is not modelled: the chunk sequence is an arbitrary, externally given script of what the reads deliver.
- Transport.Conn.Write: does not model a partial write followed by an error. A failed write logs nothing. The source ignores the count Write returns in every case.
- The text of the `fmt.Errorf` and `errors.New` messages. The model keeps a tag and its counts only.
- Concurrency. Each call has its own connection and buffers, and the source shares no state between calls.
- Go's nil versus empty slice, except for Query's `(nil, nil)`, which is `Ok(None)`. A payload of length zero, from a length field of 2, is `Ok(Some([]))`.
