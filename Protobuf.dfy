// The part of the Protocol Buffers wire format the transport layer uses:
// base-128 varints ("Base 128 Varints" in the Protocol Buffers Encoding
// guide), the length-delimited framing built on them, and the reading of a
// frame from a byte stream with an advancing cursor.
module Protobuf {
  import opened Io

  /** A varint is at most ten bytes long; a reader gives up on an eleventh. */
  const MAX_VARINT_LEN: nat := 10

  /** The failures of the wire layer that are not operating-system I/O errors. */
  datatype WireError = UnexpectedEof | IncorrectVarint | Other(message: string)

  /** The error type of every protobuf operation: I/O, wire format, or the message layer. */
  datatype ProtobufError =
    | IoError(io: Io.IoError)
    | WireError(wire: WireError)
    | MessageNotInitialized(message: string)

  /** Bytes whose length fits the 32-bit length prefix. */
  type Bytes32 = s: seq<byte> | |s| < 0x1_0000_0000

  function Pow128(k: nat): (r: nat)
    ensures r >= 1
  {
    if k == 0 then 1 else 128 * Pow128(k - 1)
  }

  /** Base-128 encoding: seven bits per byte, least significant group first,
      the top bit set on every byte but the last. */
  function EncodeVarint(n: nat): (r: seq<byte>)
    ensures 1 <= |r|
    ensures r[|r| - 1] < 0x80
    ensures forall i :: 0 <= i < |r| - 1 ==> r[i] >= 0x80
    decreases n
  {
    if n < 0x80 then [n] else [n % 0x80 + 0x80] + EncodeVarint(n / 0x80)
  }

  /** A value below 128^k takes at most k bytes. */
  lemma {:induction false} EncodeVarintLength(n: nat, k: nat)
    requires 1 <= k && n < Pow128(k)
    ensures |EncodeVarint(n)| <= k
    decreases n
  {
    if n >= 0x80 {
      assert k > 1;
      EncodeVarintLength(n / 0x80, k - 1);
    }
  }

  /** A 32-bit value takes at most five bytes, within the reader's ten. */
  lemma EncodeVarint32Length(n: u32)
    ensures |EncodeVarint(n)| <= 5
  {
    assert Pow128(5) == 0x8_0000_0000;
    EncodeVarintLength(n, 5);
  }

  /** What reading a varint from the front of some bytes gives. */
  datatype VarintRead = Value(value: nat, size: nat) | Eof | Overlong

  /** Reads a varint from the front of `s`, reading at most `budget` bytes:
      the value and the number of bytes it took, `Eof` when the bytes end
      inside the varint, `Overlong` when the budget is spent first. */
  function ParseVarint(s: seq<byte>, budget: nat): (r: VarintRead)
    ensures r.Value? ==> 1 <= r.size <= |s| && r.size <= budget
    decreases budget
  {
    if budget == 0 then Overlong
    else if |s| == 0 then Eof
    else if s[0] < 0x80 then Value(s[0], 1)
    else match ParseVarint(s[1..], budget - 1)
      case Value(v, k) => Value(s[0] - 0x80 + 0x80 * v, k + 1)
      case other => other
  }

  /** The three outcomes of a varint read, told apart by the top bits of the
      bytes read: a value ends at the first byte below 0x80 within the budget;
      `Eof` and `Overlong` see only continuation bytes. */
  lemma {:induction false} ParseVarintShape(s: seq<byte>, budget: nat)
    ensures var r := ParseVarint(s, budget);
      && (r.Value? ==> 1 <= r.size <= |s| && r.size <= budget && s[r.size - 1] < 0x80)
      && (r.Value? ==> forall i :: 0 <= i < r.size - 1 ==> s[i] >= 0x80)
      && (r.Eof? ==> |s| < budget && forall i :: 0 <= i < |s| ==> s[i] >= 0x80)
      && (r.Overlong? ==> budget <= |s| && forall i :: 0 <= i < budget ==> s[i] >= 0x80)
    decreases budget
  {
    if budget > 0 && |s| > 0 && s[0] >= 0x80 {
      ParseVarintShape(s[1..], budget - 1);
    }
  }

  /** Varint round trip: reading back an encoding gives the value and its
      exact length, whatever follows it. */
  lemma {:induction false} ParseEncodeVarint(n: nat, rest: seq<byte>, budget: nat)
    requires |EncodeVarint(n)| <= budget
    ensures ParseVarint(EncodeVarint(n) + rest, budget) == Value(n, |EncodeVarint(n)|)
    decreases n
  {
    var s := EncodeVarint(n) + rest;
    if n >= 0x80 {
      assert s[1..] == EncodeVarint(n / 0x80) + rest;
      ParseEncodeVarint(n / 0x80, rest, budget - 1);
    }
  }

  /** A successful read depends on the bytes of the varint only. */
  lemma {:induction false} ParseVarintPrefix(s: seq<byte>, t: seq<byte>, budget: nat)
    requires ParseVarint(s, budget).Value?
    ensures ParseVarint(s[..ParseVarint(s, budget).size] + t, budget) == ParseVarint(s, budget)
    decreases budget
  {
    var k := ParseVarint(s, budget).size;
    var u := s[..k] + t;
    if s[0] >= 0x80 {
      var k' := ParseVarint(s[1..], budget - 1).size;
      assert u[1..] == s[1..][..k'] + t;
      ParseVarintPrefix(s[1..], t, budget - 1);
    }
  }

  /** How a varint read from position `start` relates to one from `start + i`,
      after `i` bytes have contributed `acc`. */
  function Shift(acc: nat, i: nat, rest: VarintRead): VarintRead {
    match rest
    case Value(v, k) => Value(acc + Pow128(i) * v, k + i)
    case other => other
  }

  /** The contribution of byte `b` at position `i`: its low seven bits
      shifted left by seven times `i`. */
  function Group(b: byte, i: nat): nat {
    if i == 0 then b % 0x80 else 0x80 * Group(b, i - 1)
  }

  lemma {:induction false} GroupIsProduct(b: byte, i: nat)
    ensures Group(b, i) == (b % 0x80) * Pow128(i)
  {
    if i > 0 {
      GroupIsProduct(b, i - 1);
    }
  }

  /** One byte of a varint read: it either ends the varint or adds its low
      seven bits at the current position. */
  lemma ShiftStep(s: seq<byte>, budget: nat, acc: nat, i: nat)
    requires budget > 0 && |s| > 0
    ensures Shift(acc, i, ParseVarint(s, budget))
         == if s[0] < 0x80 then Value(acc + Group(s[0], i), i + 1)
            else Shift(acc + Group(s[0], i), i + 1, ParseVarint(s[1..], budget - 1))
  {
    var tail := ParseVarint(s[1..], budget - 1);
    GroupIsProduct(s[0], i);
    if s[0] >= 0x80 && tail.Value? {
      Distribute(Pow128(i), s[0] - 0x80, tail.value);
    }
  }

  lemma Distribute(p: nat, a: nat, v: nat)
    ensures p * (a + 0x80 * v) == a * p + (0x80 * p) * v
  {
  }

  /** The reader's own view of a varint read: continue at index `at` of `s`
      with `i` bytes read so far and `acc` accumulated from them. */
  function ReadVarintFrom(s: seq<byte>, at: nat, i: nat, acc: nat): VarintRead
    decreases MAX_VARINT_LEN - i
  {
    if i >= MAX_VARINT_LEN then Overlong
    else if at >= |s| then Eof
    else if s[at] < 0x80 then Value(acc + Group(s[at], i), i + 1)
    else ReadVarintFrom(s, at + 1, i + 1, acc + Group(s[at], i))
  }

  /** The accumulating read agrees with `ParseVarint` on the rest of the bytes. */
  lemma {:induction false} ReadVarintFromIsParse(s: seq<byte>, at: nat, i: nat, acc: nat)
    requires at <= |s| && i <= MAX_VARINT_LEN
    ensures ReadVarintFrom(s, at, i, acc) == Shift(acc, i, ParseVarint(s[at..], MAX_VARINT_LEN - i))
    decreases MAX_VARINT_LEN - i
  {
    if i < MAX_VARINT_LEN && at < |s| {
      ShiftStep(s[at..], MAX_VARINT_LEN - i, acc, i);
      if s[at] >= 0x80 {
        assert s[at..][1..] == s[at + 1..];
        ReadVarintFromIsParse(s, at + 1, i + 1, acc + Group(s[at], i));
      }
    }
  }

  lemma ReadVarintStart(s: seq<byte>, at: nat)
    requires at <= |s|
    ensures ReadVarintFrom(s, at, 0, 0) == ParseVarint(s[at..], MAX_VARINT_LEN)
  {
    ReadVarintFromIsParse(s, at, 0, 0);
    var p := ParseVarint(s[at..], MAX_VARINT_LEN);
    if p.Value? {
      assert Pow128(0) * p.value == p.value;
    }
  }

  /** The error a varint read reports when the stream runs out inside the
      varint: a wire error at a clean end of stream, the operating system's
      error otherwise. */
  function VarintEndError(end: StreamEnd): (e: ProtobufError)
    ensures e.WireError? <==> end.Closed?
    ensures end.Failed? ==> e == ProtobufError.IoError(end.error)
  {
    match end
    case Closed => WireError(WireError.UnexpectedEof)
    case Failed(e) => ProtobufError.IoError(e)
  }

  /** What `read_raw_varint32` returns for the bytes of `input` from `pos`
      on, followed by `end`, and where it leaves the cursor: the low 32 bits
      of the value, the error of a stream that runs out inside the varint,
      or a wire error for a varint longer than ten bytes. */
  function Varint32At(input: seq<byte>, pos: nat, end: StreamEnd): (Result<u32, ProtobufError>, nat)
    requires pos <= |input|
  {
    match ParseVarint(input[pos..], MAX_VARINT_LEN)
    case Value(v, k) => (Ok(v % U32_MODULUS), pos + k)
    case Eof => (Err(VarintEndError(end)), |input|)
    case Overlong => (Err(WireError(IncorrectVarint)), pos + MAX_VARINT_LEN)
  }

  /** The byte loop of the varint reader: reads one byte at a time from
      `pos`, accumulating seven bits per byte, and stops at the first byte
      below 0x80, at the end of the input, or after ten continuation bytes.
      The value is not yet truncated. */
  method ScanVarint(input: seq<byte>, pos: nat) returns (r: VarintRead)
    requires pos <= |input|
    ensures r == ParseVarint(input[pos..], MAX_VARINT_LEN)
  {
    ReadVarintStart(input, pos);
    var acc: nat := 0;
    var i: nat := 0;
    while true
      invariant i <= MAX_VARINT_LEN && pos + i <= |input|
      invariant ReadVarintFrom(input, pos, 0, 0) == ReadVarintFrom(input, pos + i, i, acc)
      decreases MAX_VARINT_LEN - i
    {
      if i == MAX_VARINT_LEN {
        return Overlong;
      }
      if pos + i == |input| {
        return Eof;
      }
      var b := input[pos + i];
      acc := acc + Group(b, i);
      i := i + 1;
      if b < 0x80 {
        return Value(acc, i);
      }
    }
  }

  /** `CodedInputStream::read_raw_varint32`: scans a varint at `pos` and keeps
      its low 32 bits; `next` is where the cursor stops. */
  method ReadRawVarint32(input: seq<byte>, pos: nat, end: StreamEnd) returns (r: Result<u32, ProtobufError>, next: nat)
    requires pos <= |input|
    ensures pos <= next <= |input|
    ensures (r, next) == Varint32At(input, pos, end)
  {
    var scan := ScanVarint(input, pos);
    ghost var spec := Varint32At(input, pos, end);
    match scan
    case Value(v, k) =>
      r, next := Ok(v % U32_MODULUS), pos + k;
      assert spec == (r, next);
    case Eof =>
      r, next := Err(VarintEndError(end)), |input|;
      assert spec == (r, next);
    case Overlong =>
      ParseVarintShape(input[pos..], MAX_VARINT_LEN);
      r, next := Err(WireError(IncorrectVarint)), pos + MAX_VARINT_LEN;
      assert spec == (r, next);
  }

  /** `Message::write_length_delimited_to_writer`: the length of the
      serialised message as a varint, then the message. */
  function LengthDelimited(payload: Bytes32): (r: seq<byte>)
    ensures |r| == |EncodeVarint(|payload|)| + |payload| <= |payload| + 5
    ensures r[|r| - |payload|..] == payload
  {
    EncodeVarint32Length(|payload|);
    EncodeVarint(|payload|) + payload
  }

  /** The error of a payload read that runs out of bytes: always an I/O
      error, `UnexpectedEof` at a clean end of stream. */
  function ShortRead(end: StreamEnd): (e: ProtobufError)
    ensures e.IoError?
    ensures end.Closed? ==> e.io.kind == ErrorKind.UnexpectedEof
    ensures end.Failed? ==> e.io == end.error
  {
    ProtobufError.IoError(ReadExactFailure(end))
  }

  /** What reading one length-delimited frame from the front of a stream gives,
      with the number of bytes the reader consumed. */
  datatype FrameRead = Frame(payload: seq<byte>, consumed: nat) | FrameError(error: ProtobufError, consumed: nat)

  /** Reads a varint length `L` and then exactly `L` bytes from the stream
      that delivers `s` and then ends as `end`. An overlong prefix is a wire
      error; running out inside the prefix is the varint reader's error for
      `end`; running out inside the payload is an I/O error. Every failure
      is an I/O error or a wire error, never a message error. */
  function ReadFrame(s: seq<byte>, end: StreamEnd): (f: FrameRead)
    ensures f.consumed <= |s|
    ensures f.Frame? ==> |f.payload| <= f.consumed && s[f.consumed - |f.payload|..f.consumed] == f.payload
    ensures f.FrameError? ==> f.error.IoError? || f.error.WireError?
  {
    match ParseVarint(s, MAX_VARINT_LEN)
    case Eof => FrameError(VarintEndError(end), |s|)
    case Overlong => FrameError(WireError(IncorrectVarint), MAX_VARINT_LEN)
    case Value(v, k) =>
      var len := v % U32_MODULUS;
      if |s| - k < len then FrameError(ShortRead(end), |s|) else Frame(s[k..k + len], k + len)
  }

  /** The frame reader over a cursor, when the length prefix fails: the frame
      read fails with the prefix's error, consuming what the prefix read did. */
  lemma ReadFrameAtBadPrefix(input: seq<byte>, pos: nat, end: StreamEnd)
    requires pos <= |input| && Varint32At(input, pos, end).0.Err?
    ensures pos <= Varint32At(input, pos, end).1 <= |input|
    ensures ReadFrame(input[pos..], end)
         == FrameError(Varint32At(input, pos, end).0.error, Varint32At(input, pos, end).1 - pos)
  {
    var p := ParseVarint(input[pos..], MAX_VARINT_LEN);
    if p.Overlong? {
      ParseVarintShape(input[pos..], MAX_VARINT_LEN);
    }
  }

  /** The frame reader over a cursor, when the length prefix `len` ends at
      `next`: the frame is the `len` bytes from `next` if the input holds them,
      and otherwise the short-read error after consuming everything. */
  lemma ReadFrameAtPayload(input: seq<byte>, pos: nat, end: StreamEnd, len: u32, next: nat)
    requires pos <= |input| && Varint32At(input, pos, end) == (Ok(len), next)
    ensures pos <= next <= |input|
    ensures next + len <= |input| ==>
      && input[pos..][next - pos..next - pos + len] == input[next..next + len]
      && ReadFrame(input[pos..], end) == Frame(input[next..next + len], next - pos + len)
    ensures |input| < next + len ==> ReadFrame(input[pos..], end) == FrameError(ShortRead(end), |input| - pos)
  {
    var s := input[pos..];
    var p := ParseVarint(s, MAX_VARINT_LEN);
    assert p.Value? && next == pos + p.size && len == p.value % U32_MODULUS;
    var k := next - pos;
    if next + len <= |input| {
      assert s[k..k + len] == input[next..next + len];
      assert ReadFrame(s, end) == Frame(s[k..k + len], k + len);
    } else {
      assert |s| - k < len;
    }
  }

  /** Framing round trip: a frame written by `LengthDelimited` reads back as
      its payload, consuming exactly the frame, whatever follows it and
      however the stream ends. */
  lemma FrameRoundTrip(payload: Bytes32, rest: seq<byte>, end: StreamEnd)
    ensures ReadFrame(LengthDelimited(payload) + rest, end) == Frame(payload, |LengthDelimited(payload)|)
  {
    var n := |payload|;
    var e := EncodeVarint(n);
    var s := LengthDelimited(payload) + rest;
    EncodeVarint32Length(n);
    assert s == e + (payload + rest);
    ParseEncodeVarint(n, payload + rest, MAX_VARINT_LEN);
    assert ParseVarint(s, MAX_VARINT_LEN) == Value(n, |e|);
    assert n % U32_MODULUS == n;
    assert s[|e|..|e| + n] == payload;
  }

  /** A valid prefix announcing more bytes than the stream holds is a short
      read, reported as an I/O error and not as a wire or decode error. */
  lemma TruncatedPayload(len: u32, partial: seq<byte>, end: StreamEnd)
    requires |partial| < len
    ensures ReadFrame(EncodeVarint(len) + partial, end) == FrameError(ShortRead(end), |EncodeVarint(len)| + |partial|)
  {
    var s := EncodeVarint(len) + partial;
    EncodeVarint32Length(len);
    ParseEncodeVarint(len, partial, MAX_VARINT_LEN);
    assert ParseVarint(s, MAX_VARINT_LEN) == Value(len, |EncodeVarint(len)|);
    assert len % U32_MODULUS == len;
  }

  /** A truncated or overlong prefix fails before any payload byte, having
      consumed no more than the at most ten prefix bytes: an overlong prefix
      with `IncorrectVarint`, a truncated one with the varint reader's error
      for how the stream ended. It is a wire error unless a read failed. */
  lemma MalformedPrefix(s: seq<byte>, end: StreamEnd)
    requires !ParseVarint(s, MAX_VARINT_LEN).Value?
    ensures ReadFrame(s, end).FrameError? && ReadFrame(s, end).consumed <= MAX_VARINT_LEN
    ensures ParseVarint(s, MAX_VARINT_LEN).Overlong? ==> ReadFrame(s, end).error == WireError(IncorrectVarint)
    ensures ParseVarint(s, MAX_VARINT_LEN).Eof? ==> ReadFrame(s, end).error == VarintEndError(end)
    ensures ReadFrame(s, end).error.WireError? <==> end.Closed? || ParseVarint(s, MAX_VARINT_LEN).Overlong?
  {
    ParseVarintShape(s, MAX_VARINT_LEN);
  }

  /** A read failure of the operating system surfaces unchanged as an I/O
      error: a frame read from a failing stream either succeeds, meets an
      overlong prefix, or fails with exactly that error. */
  lemma ReadFailureSurfaces(s: seq<byte>, e: IoError)
    ensures var f := ReadFrame(s, Failed(e));
      f.Frame? || f.error == WireError(IncorrectVarint) || f.error == ProtobufError.IoError(e)
  {
  }

  /** Only the bytes of the frame decide what is read: a stream cut after the
      frame and continued with anything, ending in any way, reads the same. */
  lemma FrameIgnoresWhatFollows(s: seq<byte>, end: StreamEnd, t: seq<byte>, end': StreamEnd)
    requires ReadFrame(s, end).Frame?
    ensures ReadFrame(s[..ReadFrame(s, end).consumed] + t, end') == ReadFrame(s, end)
  {
    var f := ReadFrame(s, end);
    var k := ParseVarint(s, MAX_VARINT_LEN).size;
    var u := s[..f.consumed] + t;
    assert u == s[..k] + (s[k..f.consumed] + t);
    ParseVarintPrefix(s, s[k..f.consumed] + t, MAX_VARINT_LEN);
    assert u[k..f.consumed] == s[k..f.consumed];
  }
}
