// The client side of the sccache server protocol: one request/response
// exchange over a connection, and connection establishment with a bounded
// number of attempts (src/client.rs).
module Client {
  import opened Io
  import opened Protobuf
  import opened Net

  /** The request and response messages; their schema is not part of this model. */
  type ClientRequest
  type ServerResponse

  /** The message codec: serialisation of requests (`Message::write_to`) and
      parsing of responses (`parse_from_bytes`). Both are opaque here. */
  datatype Codec = Codec(
    encode: ClientRequest -> Bytes32,
    decode: seq<byte> -> Result<ServerResponse, ProtobufError>)

  /** Where the operating system can fail during one request: duplicating the
      handle for writing, the write itself, and duplicating it for reading. */
  datatype Faults = Faults(writerClone: Option<IoError>, write: WriteOutcome, readerClone: Option<IoError>)

  /** The request reached the wire in full and the reading phase began. */
  predicate Sent(faults: Faults) {
    faults.writerClone.None? && faults.write.Complete?
  }

  /** The response a reader gets from the stream that delivers `s` and then
      ends as `end`: the decoded payload of the first frame, or the error
      that stopped the read. The codec is consulted exactly when the frame
      was read in full, and its verdict is returned unchanged. */
  function ResponseOf(codec: Codec, s: seq<byte>, end: StreamEnd): (r: Result<ServerResponse, ProtobufError>)
    ensures ReadFrame(s, end).Frame? ==> r == codec.decode(ReadFrame(s, end).payload)
    ensures ReadFrame(s, end).FrameError? ==> r.Err? && (r.error.IoError? || r.error.WireError?)
  {
    match ReadFrame(s, end)
    case Frame(payload, _) => codec.decode(payload)
    case FrameError(e, _) => Err(e)
  }

  /** A connection to the cache server. */
  class ServerConnection {
    /** The socket connected to the server. */
    const stream: Connection

    constructor (stream: Connection)
      ensures this.stream == stream
    {
      this.stream := stream;
    }

    /** `ServerConnection::request`: writes the request as one length-delimited
        frame on a fresh handle, then reads one length-delimited response on
        another and decodes it. */
    method Request(codec: Codec, request: ClientRequest, faults: Faults) returns (r: Result<ServerResponse, ProtobufError>)
      requires stream.endpoint.Valid()
      modifies stream.endpoint
      ensures stream.endpoint.Valid() && stream.endpoint.incoming == old(stream.endpoint.incoming)
      ensures stream.endpoint.ending == old(stream.endpoint.ending)
      // A failed writer clone: nothing written, nothing read.
      ensures faults.writerClone.Some? ==>
        && r == Err(ProtobufError.IoError(faults.writerClone.value))
        && stream.endpoint.sent == old(stream.endpoint.sent)
        && stream.endpoint.consumed == old(stream.endpoint.consumed)
      // Otherwise the bytes written are the frame, or the part the transport took.
      ensures faults.writerClone.None? ==>
        stream.endpoint.sent == old(stream.endpoint.sent) + Accepted(LengthDelimited(codec.encode(request)), faults.write)
      // A failed write: an I/O error, nothing read.
      ensures faults.writerClone.None? && faults.write.Broken? ==>
        && r == Err(ProtobufError.IoError(faults.write.error))
        && stream.endpoint.consumed == old(stream.endpoint.consumed)
      // A failed reader clone: an I/O error, nothing read.
      ensures Sent(faults) && faults.readerClone.Some? ==>
        && r == Err(ProtobufError.IoError(faults.readerClone.value))
        && stream.endpoint.consumed == old(stream.endpoint.consumed)
      // Otherwise the response is read from where the stream stood, and exactly
      // the bytes the frame reader consumes are consumed.
      ensures Sent(faults) && faults.readerClone.None? ==>
        var input := old(stream.endpoint.incoming[stream.endpoint.consumed..]);
        && r == ResponseOf(codec, input, stream.endpoint.ending)
        && stream.endpoint.consumed == old(stream.endpoint.consumed) + ReadFrame(input, stream.endpoint.ending).consumed
    {
      var writer := stream.TryClone(faults.writerClone);
      if writer.Err? {
        return Err(ProtobufError.IoError(writer.error));
      }
      var written := writer.value.endpoint.Write(LengthDelimited(codec.encode(request)), faults.write);
      if written.Err? {
        return Err(ProtobufError.IoError(written.error));
      }
      var reader := stream.TryClone(faults.readerClone);
      if reader.Err? {
        return Err(ProtobufError.IoError(reader.error));
      }
      var payload := ReceiveFrame(reader.value.endpoint);
      match payload
      case Err(e) => r := Err(e);
      case Ok(p) => r := codec.decode(p);
    }
  }

  /** The inline response read of `ServerConnection::request`: the varint
      length prefix through `read_raw_varint32`, then a buffer of exactly that
      many bytes filled in place by `read_exact`. The stream advances by what
      the frame reader consumes, on success and failure. */
  method ReceiveFrame(input: Endpoint) returns (r: Result<seq<byte>, ProtobufError>)
    requires input.Valid()
    modifies input`consumed
    ensures input.Valid()
    ensures var f := ReadFrame(old(input.incoming[input.consumed..]), input.ending);
      && input.consumed == old(input.consumed) + f.consumed
      && (f.Frame? ==> r == Ok(f.payload))
      && (f.FrameError? ==> r == Err(f.error))
  {
    ghost var start := input.consumed;
    var len, next := ReadRawVarint32(input.incoming, input.consumed, input.ending);
    input.consumed := next;
    if len.Err? {
      ReadFrameAtBadPrefix(input.incoming, start, input.ending);
      return Err(len.error);
    }
    ReadFrameAtPayload(input.incoming, start, input.ending, len.value, next);
    var buf := new byte[len.value](_ => 0);
    var filled := input.ReadExact(buf);
    if filled.Err? {
      return Err(ProtobufError.IoError(filled.error));
    }
    r := Ok(buf[..]);
  }

  /** Framing round trip on the response side: a frame the server writes is
      decoded from exactly its payload, whatever follows it and however the
      stream ends. */
  lemma ResponseRoundTrip(codec: Codec, payload: Bytes32, rest: seq<byte>, end: StreamEnd)
    ensures ResponseOf(codec, LengthDelimited(payload) + rest, end) == codec.decode(payload)
  {
    FrameRoundTrip(payload, rest, end);
  }

  /** The bytes a request puts on the wire read back, with the same framing,
      as exactly the encoded request. */
  lemma RequestReadsBack(codec: Codec, request: ClientRequest, rest: seq<byte>, end: StreamEnd)
    ensures ReadFrame(LengthDelimited(codec.encode(request)) + rest, end).Frame?
    ensures ReadFrame(LengthDelimited(codec.encode(request)) + rest, end).payload == codec.encode(request)
  {
    FrameRoundTrip(codec.encode(request), rest, end);
  }

  /** A response cut short inside its payload is an I/O error, never a decode
      error, whatever the codec: `UnexpectedEof` at a clean end of stream,
      the operating system's error otherwise. */
  lemma ResponseTruncated(codec: Codec, len: u32, partial: seq<byte>, end: StreamEnd)
    requires |partial| < len
    ensures ResponseOf(codec, EncodeVarint(len) + partial, end) == Err(ShortRead(end))
    ensures ShortRead(end).IoError?
    ensures end.Closed? ==> ShortRead(end).io.kind == ErrorKind.UnexpectedEof
    ensures end.Failed? ==> ShortRead(end).io == end.error
  {
    TruncatedPayload(len, partial, end);
  }

  /** A malformed or truncated length prefix fails the call before any
      payload is read, and the codec is never consulted. The failure is a
      wire error, unless the stream failed inside the prefix, which is that
      I/O error. */
  lemma ResponseMalformedPrefix(codec: Codec, other: Codec, s: seq<byte>, end: StreamEnd)
    requires !ParseVarint(s, MAX_VARINT_LEN).Value?
    ensures ResponseOf(codec, s, end).Err?
    ensures ResponseOf(codec, s, end) == ResponseOf(other, s, end)
    ensures ResponseOf(codec, s, end).error.WireError? <==> end.Closed? || ParseVarint(s, MAX_VARINT_LEN).Overlong?
    ensures end.Failed? && ParseVarint(s, MAX_VARINT_LEN).Eof? ==>
      ResponseOf(codec, s, end).error == ProtobufError.IoError(end.error)
  {
    MalformedPrefix(s, end);
  }

  /** Only the frame decides the response: what the server sends after it
      makes no difference. */
  lemma ResponseIgnoresWhatFollows(codec: Codec, s: seq<byte>, end: StreamEnd, t: seq<byte>, end': StreamEnd)
    requires ReadFrame(s, end).Frame?
    ensures ResponseOf(codec, s[..ReadFrame(s, end).consumed] + t, end') == ResponseOf(codec, s, end)
  {
    FrameIgnoresWhatFollows(s, end, t, end');
  }

  /** The loopback address `127.0.0.1`. */
  const LOCALHOST: Octets := [127, 0, 0, 1]

  function ServerAddr(port: u16): NetAddr {
    V4(LOCALHOST, port)
  }

  const MAX_ATTEMPTS: nat := 10

  const TIMED_OUT: IoError := Io.IoError(ErrorKind.TimedOut, "Connection to server timed out")

  /** The operating system's TCP connect: the outcome of the attempt with a
      given number to a given address. */
  type Dialer = (nat, NetAddr) -> Result<Connection, IoError>

  /** `connect_to_server`: a TCP connect to the server's loopback port,
      wrapped as a server connection when it succeeds. */
  method ConnectToServer(port: u16, dial: Dialer, attempt: nat) returns (r: Result<ServerConnection, IoError>)
    ensures r.Ok? <==> dial(attempt, ServerAddr(port)).Ok?
    ensures r.Err? ==> r.error == dial(attempt, ServerAddr(port)).error
    ensures r.Ok? ==> r.value.stream == dial(attempt, ServerAddr(port)).value
  {
    match dial(attempt, ServerAddr(port))
    case Err(e) => r := Err(e);
    case Ok(stream) =>
      var conn := new ServerConnection(stream);
      r := Ok(conn);
  }

  /** `connect_with_retry`: up to ten attempts, stopping at the first that
      connects; if none does, one fixed timed-out error. `attempts` counts
      the attempts made. */
  method ConnectWithRetry(port: u16, dial: Dialer) returns (r: Result<ServerConnection, IoError>, attempts: nat)
    ensures 1 <= attempts <= MAX_ATTEMPTS
    ensures forall i :: 0 <= i < attempts - 1 ==> dial(i, ServerAddr(port)).Err?
    ensures r.Ok? <==> exists i :: 0 <= i < MAX_ATTEMPTS && dial(i, ServerAddr(port)).Ok?
    ensures r.Ok? ==> dial(attempts - 1, ServerAddr(port)).Ok?
    ensures r.Ok? ==> r.value.stream == dial(attempts - 1, ServerAddr(port)).value
    ensures r.Err? ==> attempts == MAX_ATTEMPTS && r.error == TIMED_OUT
  {
    // The retry loop reports the attempt whose result met the condition, if any.
    var met: Option<Result<ServerConnection, IoError>> := None;
    attempts := 0;
    while attempts < MAX_ATTEMPTS && met.None?
      invariant attempts <= MAX_ATTEMPTS
      invariant met.None? ==> forall i :: 0 <= i < attempts ==> dial(i, ServerAddr(port)).Err?
      invariant met.Some? ==> 1 <= attempts && forall i :: 0 <= i < attempts - 1 ==> dial(i, ServerAddr(port)).Err?
      invariant met.Some? ==> met.value.Ok? && dial(attempts - 1, ServerAddr(port)).Ok?
      invariant met.Some? ==> met.value.value.stream == dial(attempts - 1, ServerAddr(port)).value
    {
      var res := ConnectToServer(port, dial, attempts);
      attempts := attempts + 1;
      if res.Ok? {
        met := Some(res);
      }
    }
    match met
    case Some(Ok(conn)) => r := Ok(conn);
    case _ => r := Err(TIMED_OUT);
  }
}
