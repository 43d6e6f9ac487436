/** Byte layout of the two frames of the query protocol: the request frame the
    client sends and the response frame it expects back.  Nothing here performs
    I/O; these are the specification functions the encoder and the decoder in
    module Byond are proved against. */
module Wire {

  /** Go's byte (uint8). */
  type byte = x: int | 0 <= x < 0x100

  /** Go's uint16. */
  type uint16 = x: int | 0 <= x < 0x1_0000

  /** Byte 1 of both frames. */
  const PacketType: byte := 0x83
  /** Byte 9 of a request frame, the character '?'. */
  const QueryMarker: byte := 0x3F
  /** Byte 4 of a response frame. */
  const ResponseMarker: byte := 0x06

  /** Size of the buffer the request is built in, beyond the query itself. */
  const RequestOverhead: nat := 11
  /** Offset of the first query byte in a request frame. */
  const QueryOffset: nat := 10
  /** Size of the fixed header of a response frame. */
  const ResponseHeaderSize: nat := 5

  /** Go's conversion uint16(x): keeps the low 16 bits of x.  Dafny's Euclidean
      remainder agrees with two's-complement truncation, negative x included. */
  function ToUint16(x: int): (r: uint16)
    ensures 0 <= x < 0x1_0000 ==> r == x
    ensures (x - r) % 0x1_0000 == 0
  {
    x % 0x1_0000
  }

  /** binary.BigEndian.Uint16 on the two bytes hi, lo. */
  function BigEndianUint16(hi: byte, lo: byte): (v: uint16) {
    hi * 256 + lo
  }

  /** The value read from hi, lo has hi as its high byte and lo as its low byte. */
  lemma BigEndianUint16Bytes(hi: byte, lo: byte)
    ensures BigEndianUint16(hi, lo) / 256 == hi && BigEndianUint16(hi, lo) % 256 == lo
  {
  }

  /** The two bytes binary.BigEndian.PutUint16 stores for v; reading them back
      gives v. */
  function PutBigEndianUint16(v: uint16): (b: seq<byte>)
    ensures |b| == 2 && BigEndianUint16(b[0], b[1]) == v
  {
    [v / 256, v % 256]
  }

  /** Writing back what was read reproduces the two bytes: the encoding of a
      16-bit value is unique. */
  lemma PutOfBigEndianUint16(hi: byte, lo: byte)
    ensures PutBigEndianUint16(BigEndianUint16(hi, lo)) == [hi, lo]
  {
    BigEndianUint16Bytes(hi, lo);
  }

  /** The value sendMsg stores in bytes 2-3 of a request for a query of n bytes. */
  function RequestLengthField(n: nat): (field: uint16) {
    ToUint16(n + 7)
  }

  /** The length field is len(query) + 7 reduced modulo 65536, and exactly
      len(query) + 7 while that fits in 16 bits. */
  lemma RequestLengthFieldValue(n: nat)
    ensures RequestLengthField(n) == (n + 7) % 0x1_0000
    ensures n + 7 < 0x1_0000 ==> RequestLengthField(n) == n + 7
    ensures n + 7 >= 0x1_0000 ==> RequestLengthField(n) < n + 7
  {
  }

  /** The request frame for a query: zero byte, packet type, length field, five
      zero bytes, '?', the query, and the one zero byte that the buffer holds
      beyond the query because it was allocated one byte longer. */
  function RequestFrame(query: seq<byte>): (f: seq<byte>)
    ensures |f| == RequestOverhead + |query|
    ensures f[0] == 0x00 && f[1] == PacketType && f[QueryOffset - 1] == QueryMarker
    ensures f[4..9] == [0, 0, 0, 0, 0]
    ensures BigEndianUint16(f[2], f[3]) == ToUint16(|query| + 7)
    ensures f[QueryOffset..QueryOffset + |query|] == query
    ensures f[|f| - 1] == 0x00
  {
    [0x00, PacketType] + PutBigEndianUint16(RequestLengthField(|query|))
    + [0, 0, 0, 0, 0, QueryMarker] + query + [0x00]
  }

  /** Every byte of a request frame, position by position. */
  function RequestByte(query: seq<byte>, i: nat): (b: byte)
    requires i < RequestOverhead + |query|
  {
    if i == 1 then PacketType
    else if i == 2 then RequestLengthField(|query|) / 256
    else if i == 3 then RequestLengthField(|query|) % 256
    else if i == 9 then QueryMarker
    else if QueryOffset <= i < QueryOffset + |query| then query[i - QueryOffset]
    else 0x00
  }

  /** The frame agrees with the position-by-position description: every byte
      that is not the packet type, a length byte, '?' or a query byte is zero. */
  lemma RequestFrameAt(query: seq<byte>, i: nat)
    requires i < RequestOverhead + |query|
    ensures RequestFrame(query)[i] == RequestByte(query, i)
  {
    var f := RequestFrame(query);
    if QueryOffset <= i < QueryOffset + |query| {
      assert f[QueryOffset..QueryOffset + |query|][i - QueryOffset] == f[i];
    } else if 4 <= i < 9 {
      assert f[4..9][i - 4] == f[i];
    } else if i == 2 || i == 3 {
      assert f[2..4] == PutBigEndianUint16(RequestLengthField(|query|));
      assert f[i] == f[2..4][i - 2];
    }
  }

  /** When no wrap-around happens the length field counts the bytes after the
      first four of the frame. */
  lemma RequestLengthCountsTail(query: seq<byte>)
    requires |query| + 7 < 0x1_0000
    ensures BigEndianUint16(RequestFrame(query)[2], RequestFrame(query)[3])
            == |RequestFrame(query)| - 4
  {
  }

  /** A query of 65529 bytes makes the 16-bit length field wrap to zero, so the
      frame announces no bytes at all. */
  lemma RequestLengthWraps(query: seq<byte>)
    requires |query| == 0x1_0000 - 7
    ensures RequestFrame(query)[2] == 0 && RequestFrame(query)[3] == 0
  {
    assert RequestLengthField(|query|) == 0;
    RequestFrameAt(query, 2);
    RequestFrameAt(query, 3);
  }

  /** A response frame carrying payload, with the trailing byte the decoder
      drops.  The length field announces the payload, the trailing byte and
      the marker byte 4. */
  function ResponseFrame(payload: seq<byte>, trailer: byte): (f: seq<byte>)
    requires |payload| + 2 < 0x1_0000
    ensures |f| == ResponseHeaderSize + |payload| + 1
    ensures f[0] == 0x00 && f[1] == PacketType && f[4] == ResponseMarker
    ensures BigEndianUint16(f[2], f[3]) == |payload| + 2
    ensures f[ResponseHeaderSize..|f| - 1] == payload && f[|f| - 1] == trailer
  {
    [0x00, PacketType] + PutBigEndianUint16(|payload| + 2) + [ResponseMarker]
    + payload + [trailer]
  }

  /** The marker checks recvMsg applies to a 5-byte header. */
  predicate WellFormedHeader(h: seq<byte>)
    requires |h| == ResponseHeaderSize
  {
    h[0] == 0x00 && h[1] == PacketType && h[4] == ResponseMarker
  }

  /** The body size recvMsg computes from a header: the length field minus one,
      which is -1 when the field is zero. */
  function BodyLength(h: seq<byte>): (n: int)
    requires |h| == ResponseHeaderSize
    ensures -1 <= n < 0x1_0000 - 1
  {
    BigEndianUint16(h[2], h[3]) - 1
  }

  /** The header of a response frame passes the marker checks and announces a
      body of the payload plus the trailing byte. */
  lemma ResponseHeaderOf(payload: seq<byte>, trailer: byte)
    requires |payload| + 2 < 0x1_0000
    ensures var f := ResponseFrame(payload, trailer);
            WellFormedHeader(f[..ResponseHeaderSize])
            && BodyLength(f[..ResponseHeaderSize]) == |payload| + 1
            && f[ResponseHeaderSize..] == payload + [trailer]
  {
    var f := ResponseFrame(payload, trailer);
    assert f[ResponseHeaderSize..] == f[ResponseHeaderSize..|f| - 1] + [f[|f| - 1]];
  }
}
