// Transport endpoints: the address type with its textual form, the dispatch
// from an address to the kind of socket connect it calls for, the address a
// listener reports, and the clonable duplex connection (src/net.rs).
module Net {
  import opened Io
  import opened Text

  /** The four octets of an IPv4 address. */
  type Octets = s: seq<byte> | |s| == 4 witness [0, 0, 0, 0]

  /** The eight 16-bit segments of an IPv6 address. */
  type Segments = s: seq<u16> | |s| == 8 witness [0, 0, 0, 0, 0, 0, 0, 0]

  /** A network socket address: an IP address and a port. */
  datatype NetAddr =
    | V4(octets: Octets, port: u16)
    | V6(segments: Segments, port: u16, flowInfo: u32, scopeId: u32)

  /** A filesystem path naming a domain socket. */
  datatype Path = Path(text: string)

  /** A transport endpoint: a network address, a domain-socket path, or an
      abstract-namespace name (arbitrary bytes). */
  datatype SocketAddr =
    | Net(addr: NetAddr)
    | Unix(path: Path)
    | UnixAbstract(name: seq<byte>)

  /** The library functions the address text relies on whose code is not part
      of this model: the standard network-address parser and printer, and the
      crate's ASCII unescaping. */
  datatype Host = Host(
    parseNet: string -> Option<NetAddr>,
    displayNet: NetAddr -> string,
    unescape: seq<byte> -> seq<byte>)

  predicate StartsWithNul(s: string) {
    |s| > 0 && s[0] == '\0'
  }

  /** `Display for SocketAddr`: the library's form of a network address, the
      text of a path, and the ASCII escape of an abstract name, which is
      printable throughout and so never starts with NUL. */
  function Format(host: Host, a: SocketAddr): (r: string)
    ensures a.Net? ==> r == host.displayNet(a.addr)
    ensures a.Unix? ==> r == a.path.text
    ensures a.UnixAbstract? ==> !StartsWithNul(r) && forall i :: 0 <= i < |r| ==> Printable(r[i])
    ensures a.UnixAbstract? ==> |a.name| <= |r| <= 4 * |a.name|
  {
    match a
    case Net(addr) => host.displayNet(addr)
    case Unix(p) => p.text
    case UnixAbstract(name) =>
      var text := EscapeAscii(name);
      assert |text| > 0 ==> Printable(text[0]);
      text
  }

  /** `SocketAddr::parse`: a leading NUL selects the abstract namespace; else
      text with a colon that the network parser accepts is a network address;
      anything else is a path. Defined for every string. */
  function Parse(host: Host, s: string): (r: SocketAddr)
    ensures r.UnixAbstract? <==> StartsWithNul(s)
    ensures r.Net? <==> !StartsWithNul(s) && ':' in s && host.parseNet(s).Some?
    ensures r.Unix? ==> r.path.text == s
  {
    if StartsWithNul(s) then
      UnixAbstract(host.unescape(AsBytes(s)))
    else if ':' in s && host.parseNet(s).Some? then
      Net(host.parseNet(s).value)
    else
      Unix(Path(s))
  }

  // The disambiguation order, as an independent table of rules tried in turn.

  datatype Rule = AbstractRule | NetworkRule | PathRule

  const PARSE_ORDER: seq<Rule> := [AbstractRule, NetworkRule, PathRule]

  /** What one rule makes of the text, if the rule applies. */
  function Apply(host: Host, rule: Rule, s: string): Option<SocketAddr> {
    match rule
    case AbstractRule =>
      if |s| > 0 && s[0] == '\0' then Some(UnixAbstract(host.unescape(AsBytes(s)))) else None
    case NetworkRule =>
      if ':' in s then
        match host.parseNet(s)
        case Some(a) => Some(Net(a))
        case None => None
      else None
    case PathRule => Some(Unix(Path(s)))
  }

  /** The result of the first rule that applies. */
  function FirstMatch(host: Host, rules: seq<Rule>, s: string): (r: Option<SocketAddr>)
    ensures PathRule in rules ==> r.Some?
  {
    if rules == [] then None
    else match Apply(host, rules[0], s)
      case Some(a) => Some(a)
      case None => FirstMatch(host, rules[1..], s)
  }

  /** `Parse` is the first-match decision over the three rules in order. */
  lemma ParseIsFirstMatch(host: Host, s: string)
    ensures FirstMatch(host, PARSE_ORDER, s) == Some(Parse(host, s))
  {
    var rest := PARSE_ORDER[1..];
    assert rest == [NetworkRule, PathRule] && rest[1..] == [PathRule];
    if !StartsWithNul(s) {
      assert FirstMatch(host, PARSE_ORDER, s) == FirstMatch(host, rest, s);
      if !(':' in s && host.parseNet(s).Some?) {
        assert FirstMatch(host, rest, s) == FirstMatch(host, rest[1..], s);
      }
    }
  }

  /** A leading NUL means the abstract namespace, whatever else the text holds. */
  lemma ParseAbstract(host: Host, s: string)
    requires StartsWithNul(s)
    ensures Parse(host, s) == UnixAbstract(host.unescape(AsBytes(s)))
    ensures AsBytes(s)[0] == 0
  {
  }

  /** Text without a NUL in front and without a colon is always a path. */
  lemma ParseNoColon(host: Host, s: string)
    requires !StartsWithNul(s) && ':' !in s
    ensures Parse(host, s) == Unix(Path(s))
  {
  }

  /** Text with a colon that the network parser accepts is that network address. */
  lemma ParseNetwork(host: Host, s: string, addr: NetAddr)
    requires !StartsWithNul(s) && ':' in s && host.parseNet(s) == Some(addr)
    ensures Parse(host, s) == Net(addr)
  {
  }

  /** Text with a colon that the network parser rejects falls back to a path
      with the same text. */
  lemma ParseColonFallback(host: Host, s: string)
    requires !StartsWithNul(s) && ':' in s && host.parseNet(s) == None
    ensures Parse(host, s) == Unix(Path(s))
  {
  }

  /** A network address round-trips when its printed form has a colon, no NUL
      in front, and reads back as itself. */
  lemma NetRoundTrip(host: Host, addr: NetAddr)
    requires ':' in host.displayNet(addr) && !StartsWithNul(host.displayNet(addr))
    requires host.parseNet(host.displayNet(addr)) == Some(addr)
    ensures Parse(host, Format(host, Net(addr))) == Net(addr)
  {
  }

  /** A path round-trips exactly when its text neither starts with NUL nor
      reads as a network address. */
  lemma UnixRoundTrip(host: Host, p: Path)
    ensures Parse(host, Format(host, Unix(p))) == Unix(p)
        <==> !StartsWithNul(p.text) && !(':' in p.text && host.parseNet(p.text).Some?)
  {
  }

  /** The printed form of an abstract name is escaped, so it never starts with
      NUL and never reads back as an abstract name. */
  lemma AbstractDoesNotRoundTrip(host: Host, name: seq<byte>)
    ensures !StartsWithNul(Format(host, UnixAbstract(name)))
    ensures !Parse(host, Format(host, UnixAbstract(name))).UnixAbstract?
  {
    var text := EscapeAscii(name);
    if |text| > 0 {
      assert Printable(text[0]);
    }
  }

  /** The native connect each address kind calls for: a TCP connect, a
      domain-socket connect to a path, or one to an abstract name. */
  datatype ConnectCall =
    | TcpConnect(addr: NetAddr)
    | UnixConnect(path: Path)
    | UnixConnectAbstract(name: seq<byte>)

  /** `connect`: dispatch on the variant, passing its contents unchanged. */
  function ConnectTarget(a: SocketAddr): (c: ConnectCall)
    ensures a.Net? <==> c.TcpConnect?
    ensures a.Unix? <==> c.UnixConnect?
    ensures a.UnixAbstract? <==> c.UnixConnectAbstract?
  {
    match a
    case Net(addr) => TcpConnect(addr)
    case Unix(p) => UnixConnect(p)
    case UnixAbstract(name) => UnixConnectAbstract(name)
  }

  /** The address a native connect reaches. */
  function Reached(c: ConnectCall): SocketAddr {
    match c
    case TcpConnect(addr) => Net(addr)
    case UnixConnect(p) => Unix(p)
    case UnixConnectAbstract(name) => UnixAbstract(name)
  }

  /** The dispatch loses nothing: every address is reached by its own connect,
      and two addresses never share one. */
  lemma ConnectPreservesAddress(a: SocketAddr, b: SocketAddr)
    ensures Reached(ConnectTarget(a)) == a
    ensures ConnectTarget(a) == ConnectTarget(b) ==> a == b
  {
  }

  /** The native address of a domain socket, through its two accessors
      `as_pathname` and `as_abstract_name`. */
  datatype NativeUnixAddr = NativeUnixAddr(pathname: Option<Path>, abstractName: Option<seq<byte>>)

  /** `Acceptor::local_addr` for a TCP listener. */
  function TcpLocalAddr(native: Result<NetAddr, IoError>): (r: Result<SocketAddr, IoError>)
    ensures r.Err? <==> native.Err?
    ensures r.Err? ==> r.error == native.error
    ensures r.Ok? ==> r.value == Net(native.value)
  {
    match native
    case Err(e) => Err(e)
    case Ok(addr) => Ok(Net(addr))
  }

  /** `Acceptor::local_addr` for a domain-socket listener: the pathname if
      there is one, else the abstract name, else the empty path. */
  function UnixLocalAddr(native: Result<NativeUnixAddr, IoError>): (r: Result<SocketAddr, IoError>)
    ensures r.Err? <==> native.Err?
    ensures r.Err? ==> r.error == native.error
    ensures r.Ok? ==> !r.value.Net?
  {
    match native
    case Err(e) => Err(e)
    case Ok(addr) =>
      match addr.pathname
      case Some(p) => Ok(Unix(p))
      case None =>
        match addr.abstractName
        case Some(name) => Ok(UnixAbstract(name))
        case None => Ok(Unix(Path("")))
  }

  /** The preference order of `UnixLocalAddr`: pathname, then abstract name,
      then the empty path. */
  lemma UnixLocalAddrPreference(addr: NativeUnixAddr)
    ensures addr.pathname.Some? ==> UnixLocalAddr(Ok(addr)) == Ok(Unix(addr.pathname.value))
    ensures addr.pathname.None? && addr.abstractName.Some?
        ==> UnixLocalAddr(Ok(addr)) == Ok(UnixAbstract(addr.abstractName.value))
    ensures addr.pathname.None? && addr.abstractName.None? ==> UnixLocalAddr(Ok(addr)) == Ok(Unix(Path("")))
  {
  }

  /** Connecting to the address a listener reports uses the native connect
      for the listener's own kind of name. */
  lemma LocalAddrConnectsBack(tcp: NetAddr, unix: NativeUnixAddr)
    ensures ConnectTarget(TcpLocalAddr(Ok(tcp)).value) == TcpConnect(tcp)
    ensures unix.pathname.Some? ==> ConnectTarget(UnixLocalAddr(Ok(unix)).value) == UnixConnect(unix.pathname.value)
    ensures unix.pathname.None? && unix.abstractName.Some?
        ==> ConnectTarget(UnixLocalAddr(Ok(unix)).value) == UnixConnectAbstract(unix.abstractName.value)
  {
  }

  /** How a write to the operating system ends: every byte accepted, or the
      transport failing after it accepted some of them. */
  datatype WriteOutcome = Complete | Broken(accepted: nat, error: IoError)

  function Accepted(data: seq<byte>, outcome: WriteOutcome): (r: seq<byte>)
    ensures r <= data
    ensures outcome.Complete? ==> r == data
  {
    match outcome
    case Complete => data
    case Broken(k, _) => if k < |data| then data[..k] else data
  }

  /** The operating-system stream that all handles of one connection share:
      the bytes sent to the peer, the bytes delivered from the peer, how the
      stream behaves once those run out, and how many have been consumed. */
  class Endpoint {
    var sent: seq<byte>
    var incoming: seq<byte>
    var ending: StreamEnd
    var consumed: nat

    ghost predicate Valid()
      reads this
    {
      consumed <= |incoming|
    }

    constructor (incoming: seq<byte>, ending: StreamEnd)
      ensures Valid()
      ensures this.sent == [] && this.incoming == incoming && this.ending == ending && this.consumed == 0
    {
      this.sent := [];
      this.incoming := incoming;
      this.ending := ending;
      this.consumed := 0;
    }

    /** Writing a whole byte string to the stream: the transport takes all of
        it, or fails after taking a prefix. */
    method Write(data: seq<byte>, outcome: WriteOutcome) returns (r: Result<(), IoError>)
      modifies this`sent
      ensures sent == old(sent) + Accepted(data, outcome)
      ensures outcome.Complete? ==> r == Ok(())
      ensures outcome.Broken? ==> r == Err(outcome.error)
    {
      sent := sent + Accepted(data, outcome);
      match outcome
      case Complete => r := Ok(());
      case Broken(_, e) => r := Err(e);
    }

    /** `Read::read_exact`: fills `buf` from the stream in place; if the bytes
      run out first, fails with `UnexpectedEof` at a clean end of stream and
      with the operating system's error otherwise. */
    method ReadExact(buf: array<byte>) returns (r: Result<(), IoError>)
      requires Valid()
      modifies this`consumed, buf
      ensures Valid()
      ensures old(consumed) + buf.Length <= |incoming| ==>
        r == Ok(()) && consumed == old(consumed) + buf.Length && buf[..] == incoming[old(consumed)..consumed]
      ensures |incoming| < old(consumed) + buf.Length ==>
        r == Err(ReadExactFailure(ending)) && consumed == |incoming|
    {
      var i := 0;
      while i < buf.Length
        invariant 0 <= i <= buf.Length
        invariant consumed == old(consumed) + i <= |incoming|
        invariant buf[..i] == incoming[old(consumed)..consumed]
      {
        if consumed == |incoming| {
          return Err(ReadExactFailure(ending));
        }
        buf[i] := incoming[consumed];
        consumed := consumed + 1;
        i := i + 1;
      }
      r := Ok(());
    }
  }

  /** `Connection`: one handle on an endpoint. */
  class Connection {
    const endpoint: Endpoint

    constructor (endpoint: Endpoint)
      ensures this.endpoint == endpoint
    {
      this.endpoint := endpoint;
    }

    /** `Connection::try_clone`: a new handle on the same endpoint, or the
      operating system's failure to duplicate it. */
    method TryClone(failure: Option<IoError>) returns (r: Result<Connection, IoError>)
      ensures failure.Some? ==> r == Err(failure.value)
      ensures failure.None? ==> r.Ok? && fresh(r.value) && r.value.endpoint == endpoint
    {
      match failure
      case Some(e) => r := Err(e);
      case None =>
        var c := new Connection(endpoint);
        r := Ok(c);
    }
  }
}
