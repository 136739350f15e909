# sccache client transport: addresses, request framing and connection retry

This project models three small pieces of sequential logic in the transport
layer of the sccache client and server, and proves properties of them in Dafny.

- **Endpoint addresses** (`src/net.rs`). `SocketAddr` has three variants:
  - a network address (`Net`);
  - a domain-socket path (`Unix`);
  - an abstract-namespace name of arbitrary bytes (`UnixAbstract`).

  The model covers its textual form (`SocketAddr::parse` and `Display`), the dispatch from an address to the connect it calls for, the address a listener reports (`local_addr`), and the clonable connection handle. `Parse` has no precondition, so it is defined for every string (module `Net`). It is also proved equal to a first-match decision over an ordered table of three rules.
- **Length-delimited framing** of `ServerConnection::request` (`src/client.rs`). A request goes out as a base-128 varint length followed by the encoded message. The response is read the same way:
  - a varint32 length prefix;
  - then exactly that many bytes, read in place into a buffer;
  - then the decoded message.

  The varint and frame reading sit in module `Protobuf`; the request exchange sits in module `Client`.
- **Connection with retry** (`connect_to_server`, `connect_with_retry`). It makes at most ten connect attempts, stops at the first success, and maps total failure to one fixed timed-out error (module `Client`).

Module layout:

| module | contents |
|---|---|
| `Io` | machine integers, `Option`, `Result`, I/O errors |
| `Text` | UTF-8 bytes of a string, ASCII escaping |
| `Protobuf` | varints, length-delimited frames, the frame reader |
| `Net` | `SocketAddr` and its parse/format, connect dispatch, listener addresses, endpoints and handles |
| `Client` | `ServerConnection.Request`, `ConnectToServer`, `ConnectWithRetry` |

The model uses two stateful classes:
- `Net.Endpoint` is the operating-system stream that all handles of one connection share. It holds the bytes sent, the bytes the peer sends, and a read cursor.
- `Net.Connection` is one handle on an endpoint.

Failures of the operating system are parameters of the operations:
- `Client.Faults` covers the two `try_clone` calls and the write;
- an `Endpoint` delivers its `incoming` bytes and then ends as its `ending` says: a clean end of stream, or an operating-system read error;
- a `Dialer` function gives the outcome of each numbered connect attempt.

Library code whose source is not available enters as function-valued fields:
- `Net.Host` holds the standard network-address parser and printer and the crate's ASCII unescaping;
- `Client.Codec` holds the message encoder and decoder.

## Model

| member | source | states |
|---|---|---|
| `Net.Format` | src/net.rs:14-23 | a network address prints as the library's display of it; a path prints as its text; an abstract name prints as printable characters only, between one and four per byte, so its form never starts with NUL |
| `Net.Parse` | src/net.rs:29-47 | defined for every string; the result is abstract exactly when the text starts with NUL; it is a network address exactly when there is no leading NUL, the text has a colon and the network parser accepts it; a path keeps the text unchanged |
| `Net.FirstMatch` | src/net.rs:29-47 | trying rules in order always yields an address once the path rule is among them |
| `Net.ParseIsFirstMatch` | src/net.rs:29-47 | `Parse` equals the first applicable rule of the order abstract, network, path |
| `Net.ParseAbstract` | src/net.rs:31-36 | text with a leading NUL gives `UnixAbstract(unescape(bytes of the text))` whatever follows; the bytes handed to unescape start with a zero byte |
| `Net.ParseNoColon` | src/net.rs:39-46 | text with no leading NUL and no colon is always a path, never a network address |
| `Net.ParseNetwork` | src/net.rs:39-42 | text with a colon that the network parser accepts is that network address |
| `Net.ParseColonFallback` | src/net.rs:39-46 | text with a colon that the network parser rejects falls back to a path with the same text |
| `Net.NetRoundTrip` | src/net.rs:16-42 | `Net(a)` round-trips through format and parse when the printed form has a colon, no leading NUL, and reads back as `a` |
| `Net.UnixRoundTrip` | src/net.rs:16-46 | `Unix(p)` round-trips if and only if its text neither starts with NUL nor reads as a network address |
| `Net.AbstractDoesNotRoundTrip` | src/net.rs:16-36 | the printed form of an abstract name never starts with NUL, so it never parses back as an abstract name |
| `Net.ConnectTarget` | src/net.rs:83-93 | each variant goes to its own connect: network to TCP, path to a path connect, abstract name to an abstract connect (each an if and only if) |
| `Net.ConnectPreservesAddress` | src/net.rs:83-93 | the connect reaches exactly the given address, and distinct addresses never share a connect |
| `Net.TcpLocalAddr` | src/net.rs:66-68 | fails exactly when the native call fails, with its error; otherwise gives `Net` of the native address |
| `Net.UnixLocalAddr` | src/net.rs:113-123 | fails exactly when the native call fails, with its error; never gives a network address |
| `Net.UnixLocalAddrPreference` | src/net.rs:115-122 | prefers the pathname, then the abstract name, then the empty path |
| `Net.LocalAddrConnectsBack` | src/net.rs:66-123 | connecting to a reported listener address uses the connect for the listener's own kind of name |
| `Net.Accepted` | src/client.rs:47 | the transport takes a prefix of the data, and all of it when the write completes |
| `Net.Endpoint.Write` | src/client.rs:47 | the bytes sent grow by what the transport accepted; a broken write reports its error |
| `Io.ReadExactFailure` | src/client.rs:58 | a read that runs out of bytes fails with `UnexpectedEof` at a clean end of stream, and with the operating system's own error otherwise |
| `Net.Endpoint.ReadExact` | src/client.rs:57-58 | fills the buffer in place with the next bytes of the stream and advances the cursor by its length. If the bytes run out first, it consumes the rest and fails with `ReadExactFailure` of how the stream ended |
| `Net.Connection.TryClone` | src/net.rs:75-81 | a fresh handle on the same endpoint, or the operating system's error |
| `Text.EncodeChar` | src/net.rs:34 | the UTF-8 form of one character: one byte exactly for ASCII and equal to its code; otherwise a lead byte of at least 0xC0 and continuation bytes in 0x80..0xBF |
| `Text.AsBytes` | src/net.rs:34 | between one and four bytes per character; the first byte is zero exactly when the first character is NUL |
| `Text.AsBytesOfAscii` | src/net.rs:34 | the bytes of ASCII text are its character codes |
| `Text.EscapeByte` | src/net.rs:20 | the escape of a byte is printable; it is one character exactly for printable bytes other than backslash and the quotes, and then it is the byte itself |
| `Text.EscapeAscii` | src/net.rs:20 | between one and four printable characters per byte |
| `Protobuf.EncodeVarint` | src/client.rs:47 | at least one byte; every byte but the last has its top bit set |
| `Protobuf.EncodeVarintLength` | src/client.rs:47 | a value below 128^k encodes in at most k bytes |
| `Protobuf.EncodeVarint32Length` | src/client.rs:47 | a 32-bit length prefix takes at most five bytes |
| `Protobuf.ParseVarint` | src/client.rs:52-55 | a successful read takes at least one byte, no more than are present and no more than the budget |
| `Protobuf.ParseVarintShape` | src/client.rs:52-55 | characterises the three outcomes (value, end of input, overlong) by the top bits of the bytes read |
| `Protobuf.ParseEncodeVarint` | src/client.rs:47-55 | reading back an encoding gives the value and its length, whatever follows |
| `Protobuf.ParseVarintPrefix` | src/client.rs:52-55 | a successful read depends only on the bytes of the varint |
| `Protobuf.VarintEndError` | src/client.rs:52-55 | running out inside a varint is a wire error exactly at a clean end of stream; a failing stream gives its I/O error unchanged |
| `Protobuf.ScanVarint` | src/client.rs:52-55 | the byte-by-byte loop equals `ParseVarint` with the ten-byte budget |
| `Protobuf.ReadRawVarint32` | src/client.rs:52-55 | equals the specification: the value mod 2^32 and the position after it; `VarintEndError` when the bytes run out; `IncorrectVarint` after ten continuation bytes |
| `Protobuf.LengthDelimited` | src/client.rs:47 | a frame is the varint of the payload length followed by the payload, at most five bytes longer than it |
| `Protobuf.ShortRead` | src/client.rs:58 | a payload read that runs out of bytes is always an I/O error: `UnexpectedEof` at a clean end of stream, the stream's own error otherwise |
| `Protobuf.ReadFrame` | src/client.rs:52-58 | never consumes more than the stream holds; a frame's payload is the bytes just before the cursor; every failure is an I/O or wire error, never a message error |
| `Protobuf.ReadFrameAtBadPrefix` | src/client.rs:52-55 | over a cursor, a failed prefix read fails the frame with the same error, consuming what the prefix read did |
| `Protobuf.ReadFrameAtPayload` | src/client.rs:52-58 | over a cursor, a prefix `L` ending at `next` gives the `L` bytes from `next` when they are there, and the short-read error after consuming everything when they are not |
| `Protobuf.FrameRoundTrip` | src/client.rs:47-58 | reading a written frame gives its payload and consumes exactly the frame, whatever follows and however the stream ends |
| `Protobuf.TruncatedPayload` | src/client.rs:57-58 | a valid prefix followed by too few bytes is the short-read I/O error, after consuming everything |
| `Protobuf.MalformedPrefix` | src/client.rs:52-55 | a bad prefix fails before any payload byte, consuming at most ten bytes. An overlong prefix is `IncorrectVarint`; a truncated one is `VarintEndError`. It is a wire error exactly when the prefix is overlong or the stream closed cleanly |
| `Protobuf.ReadFailureSurfaces` | src/client.rs:52-58 | on a stream that fails with error `e`, a frame read either succeeds, meets an overlong prefix, or fails with `e` as an I/O error |
| `Protobuf.FrameIgnoresWhatFollows` | src/client.rs:57-60 | only the bytes of the frame decide the result, not what follows or how the stream ends |
| `Client.ResponseOf` | src/client.rs:52-60 | the codec decides the response exactly when the frame was read in full, and its verdict is returned unchanged; otherwise the response is the read's I/O or wire error |
| `Client.ServerConnection.Request` | src/client.rs:43-61 | a writer-clone failure is an I/O error with nothing written or read. Otherwise the bytes sent are the request frame, or what the transport took of it. A write failure or a reader-clone failure is an I/O error with nothing read. Otherwise the result is the response of the stream from the cursor, and the cursor advances by exactly the frame |
| `Client.ReceiveFrame` | src/client.rs:50-58 | reading the length prefix and then the payload in place agrees with `ReadFrame` on the result and on the bytes consumed |
| `Client.ResponseRoundTrip` | src/client.rs:47-60 | a response frame decodes from exactly its payload, whatever follows |
| `Client.RequestReadsBack` | src/client.rs:47 | the bytes a request writes read back, with the same framing, as exactly the encoded request |
| `Client.ResponseTruncated` | src/client.rs:57-58 | a payload cut short is an `IoError`, not a decode error, whatever the codec: of kind `UnexpectedEof` at a clean end of stream, the stream's error otherwise |
| `Client.ResponseMalformedPrefix` | src/client.rs:52-55 | a malformed or truncated prefix fails the call and the codec is never consulted; the failure is a wire error exactly when the prefix is overlong or the stream closed cleanly, and a read failure inside the prefix is that I/O error |
| `Client.ResponseIgnoresWhatFollows` | src/client.rs:57-60 | bytes after the frame do not change the response |
| `Client.ConnectToServer` | src/client.rs:65-68 | succeeds exactly when the connect to 127.0.0.1 on the port succeeds, wrapping that stream; otherwise returns its error |
| `Client.ConnectWithRetry` | src/client.rs:73-84 | makes between one and ten attempts, and every attempt before the last failed. It succeeds if and only if one of the first ten attempts would succeed, and then returns that attempt's stream. Otherwise it makes all ten attempts and fails with `TimedOut` "Connection to server timed out" |

## Left out

- Socket I/O is not performed. The TCP and domain-socket connects, `try_clone` and the kernel's delivery of bytes are parameters: `Faults`, `Dialer` and the `incoming` bytes of an `Endpoint`.
- The async `Acceptor::accept` futures and the tokio runtime are not modelled. They only suspend and drop the peer address.
- The grammar of the standard network-address parser and printer is not modelled. `Host.parseNet` and `Host.displayNet` are uninterpreted, and `NetRoundTrip` takes the display properties as preconditions.
- `crate::util::ascii_unescape_default` is not part of this model. It is the uninterpreted `Host.unescape`, and no inverse relation with `escape_ascii` is claimed.
- The message schema, `Message::write_to` and `parse_from_bytes` are not modelled. They are the opaque `Codec.encode` and `Codec.decode`, and the message-initialisation checks inside them are not modelled either.
- `ReadRawVarint32`: the protobuf library's reader is not part of this model. The model follows the wire format: it reads at most ten bytes, gives `IncorrectVarint` once ten bytes in a row carry the continuation bit (without reading an eleventh), and truncates the value to 32 bits.
- `Net.Endpoint.Write`: the request is written through a temporary `BufWriter` that is dropped at the end of the statement, and a drop flushes and discards any error. Whether a write failure reaches the caller therefore depends on whether the protobuf library's `write_length_delimited_to_writer` flushes the writer itself, which is not part of this model. The model assumes every write failure surfaces. A failure met only by the drop-time flush, where the source reports success with part of the frame sent, is not modelled.
- A stream's read failure is modelled as one error after some prefix of delivered bytes (`StreamEnd.Failed`). The retry of `read_exact` on `Interrupted` is not modelled.
- `ConnectWithRetry`: the one-millisecond sleep between attempts is not modelled, only the counting of attempts.
- `trace!` logging and `cfg` platform gating are not modelled. One build with all three address variants is modelled.
- `BufReader` may read ahead more bytes than the frame needs and drops them with the reader. The model consumes exactly the frame, so leftover read-ahead is not modelled.
- Paths are Unicode text. Non-UTF-8 operating-system paths and the lossy `Path::display` are not modelled.
- `LengthDelimited`: requests of 4 GiB or more, whose length does not fit the 32-bit prefix, are excluded by the `Bytes32` type.
- No guard on the response length exists in the code, and none is modelled. The buffer is allocated at whatever length the prefix announces.
- The comment on `SocketAddr::parse` says the text should follow the format of `to_string()`. The code does not give that for abstract names, and the model follows the code: `AbstractDoesNotRoundTrip` proves the printed form never parses back as an abstract name.
