/** The query client: encoding and sending one request frame, receiving and
    decoding one response frame, and the control flow of one Query call. */
module Byond {
  import opened Wire
  import opened Transport

  /** The errors a call returns. */
  datatype Error =
    | Net(e: NetError)                            // a dial, write or read error, passed on as it is
    | CountMismatch(expected: int, got: nat)      // a read delivered another number of bytes than asked for
    | BadResponse                                 // a marker byte of the response header is wrong

  /** Go runtime panics the decoder can reach; they are not returned errors. */
  datatype Panic =
    | NegativeMakeLength   // make([]byte, -1) when the length field is 0
    | SliceOutOfRange      // buf[:-1] when the length field is 1

  datatype Outcome<T> = Ok(value: T) | Err(error: Error) | Panicked(panic: Panic)

  /** What receiving a response does: its outcome, and the chunks left unread. */
  datatype Received = Received(outcome: Outcome<seq<byte>>, rest: seq<Chunk>)

  /** recvMsg over the inbound chunks of a connection: one read for the 5-byte
      header, the marker checks, one read for the body, and the body without
      its last byte. */
  function Recv(chunks: seq<Chunk>): (r: Received)
    ensures r.outcome.Ok? ==> |r.outcome.value| + ResponseHeaderSize + 1 <= |Stream(chunks)|
    ensures |Stream(r.rest)| <= |Stream(chunks)|
  {
    var header := ReadStep(chunks, ResponseHeaderSize);
    if |header.data| != ResponseHeaderSize then
      Received(Err(CountMismatch(ResponseHeaderSize, |header.data|)), header.rest)
    else if header.err.Some? then
      Received(Err(Net(header.err.value)), header.rest)
    else if !WellFormedHeader(header.data) then
      Received(Err(BadResponse), header.rest)
    else
      var length := BodyLength(header.data);
      if length < 0 then
        Received(Panicked(NegativeMakeLength), header.rest)
      else
        var body := ReadStep(header.rest, length);
        if |body.data| != length then
          Received(Err(CountMismatch(length, |body.data|)), body.rest)
        else if body.err.Some? then
          Received(Err(Net(body.err.value)), body.rest)
        else if length - 1 < 0 then
          Received(Panicked(SliceOutOfRange), body.rest)
        else
          Received(Ok(body.data[..length - 1]), body.rest)
  }

  /** The buffer sendMsg builds: zero-initialised, then the packet type, the
      length field and '?' written at their offsets and the query copied in. */
  method EncodeRequest(query: seq<byte>) returns (buf: array<byte>)
    ensures buf[..] == RequestFrame(query)
  {
    buf := new byte[RequestOverhead + |query|](_ => 0);
    buf[1] := PacketType;
    var field := PutBigEndianUint16(ToUint16(|query| + 7));
    buf[2], buf[3] := field[0], field[1];
    buf[9] := QueryMarker;
    var i := 0;
    while i < |query|
      invariant 0 <= i <= |query|
      invariant buf.Length == RequestOverhead + |query|
      invariant buf[..QueryOffset] == RequestFrame(query)[..QueryOffset]
      invariant buf[QueryOffset..QueryOffset + i] == query[..i]
      invariant forall k :: QueryOffset + i <= k < buf.Length ==> buf[k] == 0
    {
      buf[i + QueryOffset] := query[i];
      i := i + 1;
    }
    ghost var f := RequestFrame(query);
    assert buf[..] == buf[..QueryOffset] + buf[QueryOffset..QueryOffset + |query|] + buf[QueryOffset + |query|..];
    assert f == f[..QueryOffset] + f[QueryOffset..QueryOffset + |query|] + f[QueryOffset + |query|..];
    assert buf[QueryOffset + |query|..] == [0];
    assert f[QueryOffset + |query|..] == [0];
  }

  /** sendMsg: encode the query and write the frame in one Write. */
  method SendMsg(conn: Conn, query: seq<byte>) returns (err: Option<NetError>)
    modifies conn`outbound
    ensures err == conn.writeErr
    ensures conn.outbound == if err.None? then old(conn.outbound) + RequestFrame(query)
                             else old(conn.outbound)
  {
    var buf := EncodeRequest(query);
    var _, e := conn.Write(buf);
    err := e;
  }

  /** recvMsg: two single reads into freshly allocated buffers, each of which
      must deliver exactly the size asked for. */
  method RecvMsg(conn: Conn) returns (r: Outcome<seq<byte>>)
    modifies conn`chunks
    ensures Received(r, conn.chunks) == Recv(old(conn.chunks))
  {
    var buf := new byte[ResponseHeaderSize](_ => 0);
    var n, err := conn.Read(buf);
    if n != ResponseHeaderSize {
      return Err(CountMismatch(ResponseHeaderSize, n));
    } else if err.Some? {
      return Err(Net(err.value));
    }
    assert buf[..] == buf[..n];
    if buf[0] != 0x00 || buf[1] != PacketType || buf[4] != ResponseMarker {
      return Err(BadResponse);
    }
    var length := BigEndianUint16(buf[2], buf[3]) - 1;
    if length < 0 {
      return Panicked(NegativeMakeLength);
    }
    buf := new byte[length](_ => 0);
    n, err := conn.Read(buf);
    if n != length {
      return Err(CountMismatch(length, n));
    } else if err.Some? {
      return Err(Net(err.value));
    }
    if length - 1 < 0 {
      return Panicked(SliceOutOfRange);
    }
    assert buf[..length - 1] == buf[..n][..length - 1];
    return Ok(buf[..length - 1]);
  }

  /** What dialing the endpoint produced: a new connection, or the error. */
  datatype Dialed = Connected(conn: Conn) | DialFailed(err: NetError)

  /** A Query outcome: Ok(None) is Go's (nil, nil), Ok(Some(p)) a decoded payload. */
  function FromRecv(o: Outcome<seq<byte>>): (r: Outcome<Option<seq<byte>>>) {
    match o
    case Ok(p) => Ok(Some(p))
    case Err(e) => Err(e)
    case Panicked(p) => Panicked(p)
  }

  class QueryClient {
    /** The endpoint, stored as given and used as the dial target. */
    var host: string

    /** NewQueryClient: stores the host and does nothing else. */
    constructor (host: string)
      ensures this.host == host
    {
      this.host := host;
    }

    /** Query: dial, send, and either stop or receive one response.  The dial
        of host is the given outcome. */
    method Query(dialed: Dialed, query: seq<byte>, fetchResp: bool)
      returns (r: Outcome<Option<seq<byte>>>)
      modifies if dialed.Connected? then {dialed.conn} else {}
      ensures dialed.DialFailed? ==> r == Err(Net(dialed.err))
      ensures dialed.Connected? && old(dialed.conn.writeErr).Some? ==>
                r == Err(Net(old(dialed.conn.writeErr).value))
                && dialed.conn.outbound == old(dialed.conn.outbound)
                && dialed.conn.chunks == old(dialed.conn.chunks)
      ensures dialed.Connected? && old(dialed.conn.writeErr).None? ==>
                dialed.conn.outbound == old(dialed.conn.outbound) + RequestFrame(query)
      ensures dialed.Connected? && old(dialed.conn.writeErr).None? && !fetchResp ==>
                r == Ok(None) && dialed.conn.chunks == old(dialed.conn.chunks)
      ensures dialed.Connected? && old(dialed.conn.writeErr).None? && fetchResp ==>
                var rcv := Recv(old(dialed.conn.chunks));
                dialed.conn.chunks == rcv.rest
                && (rcv.outcome.Ok? ==> r == Ok(Some(rcv.outcome.value)))
                && (rcv.outcome.Err? ==> r == Err(rcv.outcome.error))
                && (rcv.outcome.Panicked? ==> r == Panicked(rcv.outcome.panic))
      ensures dialed.Connected? ==> dialed.conn.writeErr == old(dialed.conn.writeErr)
    {
      if dialed.DialFailed? {
        return Err(Net(dialed.err));
      }
      var conn := dialed.conn;
      var err := SendMsg(conn, query);
      if err.Some? {
        return Err(Net(err.value));
      }
      if !fetchResp {
        return Ok(None);
      }
      var resp := RecvMsg(conn);
      return FromRecv(resp);
    }
  }
}
