/** An abstract stream connection standing in for the TCP connection the
    client dials.  What the peer sends, and how the transport splits it into
    the pieces single reads return, is given up front as a sequence of chunks;
    what the client writes is appended to an outbound log. */
module Transport {
  import opened Wire

  datatype Option<T> = None | Some(value: T)

  /** Transport-level errors, as tags only. */
  datatype NetError = Eof | Closed | Timeout | Refused | Reset

  /** Bytes the transport delivers together, followed by the error (if any)
      that is reported once they have all been read. */
  datatype Chunk = Chunk(data: seq<byte>, err: Option<NetError>)

  /** What one Read call hands over, and the chunks left for later reads. */
  datatype ReadResult = ReadResult(data: seq<byte>, err: Option<NetError>, rest: seq<Chunk>)

  /** All inbound bytes, in order, regardless of how they are chunked. */
  function Stream(chunks: seq<Chunk>): seq<byte> {
    if chunks == [] then [] else chunks[0].data + Stream(chunks[1..])
  }

  /** One Read into a buffer of the given size, with the semantics of Go's
      io.Reader: an empty buffer gets nothing and no error; otherwise at most
      size bytes of the next chunk are delivered, bytes beyond them stay queued
      together with the chunk's error, and an exhausted stream reports Eof. */
  function ReadStep(chunks: seq<Chunk>, size: nat): (r: ReadResult)
    ensures |r.data| <= size
    ensures Stream(chunks) == r.data + Stream(r.rest)
    ensures size == 0 ==> r == ReadResult([], None, chunks)
    ensures size > 0 && Stream(chunks) == [] ==> r.data == []
    ensures size > 0 && chunks == [] ==> r.err == Some(Eof)
  {
    if size == 0 then ReadResult([], None, chunks)
    else if chunks == [] then ReadResult([], Some(Eof), [])
    else
      var c := chunks[0];
      if |c.data| <= size then ReadResult(c.data, c.err, chunks[1..])
      else
        var rest := [Chunk(c.data[size..], c.err)] + chunks[1..];
        assert rest[1..] == chunks[1..];
        assert c.data == c.data[..size] + c.data[size..];
        ReadResult(c.data[..size], None, rest)
  }

  /** A read of a buffer no larger than the next chunk fills the buffer from
      that chunk, without error unless the chunk ends exactly there. */
  lemma ReadWithinChunk(c: Chunk, tail: seq<Chunk>, size: nat)
    requires 0 < size <= |c.data|
    ensures var r := ReadStep([c] + tail, size);
            r.data == c.data[..size]
            && r.err == (if size == |c.data| then c.err else None)
            && r.rest == (if size == |c.data| then tail else [Chunk(c.data[size..], c.err)] + tail)
  {
    assert ([c] + tail)[0] == c && ([c] + tail)[1..] == tail;
  }

  /** The client's end of one connection. */
  class Conn {
    /** Inbound chunks not yet read. */
    var chunks: seq<Chunk>
    /** Every byte written so far. */
    var outbound: seq<byte>
    /** What a write on this connection reports; None when it goes through. */
    var writeErr: Option<NetError>

    constructor (inbound: seq<Chunk>, writeErr: Option<NetError>)
      ensures chunks == inbound && outbound == [] && this.writeErr == writeErr
    {
      chunks := inbound;
      outbound := [];
      this.writeErr := writeErr;
    }

    /** net.Conn.Read: fills a prefix of buf with the next bytes of the
        stream and reports how many. */
    method Read(buf: array<byte>) returns (n: nat, err: Option<NetError>)
      modifies this`chunks, buf
      ensures var r := ReadStep(old(chunks), buf.Length);
              n == |r.data| && buf[..n] == r.data && err == r.err && chunks == r.rest
      ensures n <= buf.Length && buf[n..] == old(buf[n..])
    {
      var r := ReadStep(chunks, buf.Length);
      n := |r.data|;
      forall i | 0 <= i < n {
        buf[i] := r.data[i];
      }
      err := r.err;
      chunks := r.rest;
    }

    /** net.Conn.Write: on success the whole buffer joins the outbound log;
        on failure nothing does and the error is reported. */
    method Write(buf: array<byte>) returns (n: nat, err: Option<NetError>)
      modifies this`outbound
      ensures err == writeErr
      ensures outbound == if err.None? then old(outbound) + buf[..] else old(outbound)
      ensures n == if err.None? then buf.Length else 0
    {
      err := writeErr;
      if err.None? {
        outbound := outbound + buf[..];
        n := buf.Length;
      } else {
        n := 0;
      }
    }
  }
}
