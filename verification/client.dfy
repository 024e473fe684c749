/** The connection object of railway/client/__init__.py: `Client` with its `_connected`
    and `_closed` flags and the `ClientProtocol` whose stream reader receives the data.
    The event loop, sockets and streams are abstract: a connection attempt or a
    transport-level read is an input that says what happened. */
module Client {
  import opened Wrappers
  import Base64

  /** What was passed as `ssl_context`: nothing, an `ssl.SSLContext`, or another object. */
  datatype SslContext = NoContext | SslContextObject | OtherObject

  /** `ClientProtocol`: `reader` and `writer` are created together by `connection_made`;
      the reader is modelled by the bytes fed to it so far. */
  datatype Protocol = Protocol(reader: Option<seq<Base64.byte>>, hasWriter: bool)

  datatype ClientState = ClientState(
    host: Option<string>,
    port: Option<int>,
    hasSock: bool,
    ssl: SslContext,
    protocol: Option<Protocol>,
    connected: bool,
    closed: bool,
    sent: seq<Base64.byte>)

  datatype ClientError =
    | SockWithAddress   // ValueError('Both host and port must be None if sock is specified')
    | NotConnected      // RuntimeError('Client not connected')
    | ClientClosed      // RuntimeError('Client is closed')
    | ConnectFailed     // whatever loop.create_connection raised
    | MissingStream     // AttributeError: the protocol has no writer / reader yet

  // ---------------------------------------------------------------------------
  // ClientProtocol
  // ---------------------------------------------------------------------------

  /** `ClientProtocol(loop)`: no reader, no writer yet. */
  const FreshProtocol: Protocol := Protocol(None, false)

  /** `connection_made`: a fresh, empty reader and a writer. */
  function ConnectionMade(p: Protocol): (r: Protocol)
    ensures r.reader == Some([]) && r.hasWriter
  {
    Protocol(Some([]), true)
  }

  /** `data_received`: data arriving before `connection_made` is dropped; afterwards it is
      appended to what the reader holds. The writer is never touched. */
  function DataReceived(p: Protocol, data: seq<Base64.byte>): (r: Protocol)
    ensures p.reader.None? ==> r == p
    ensures p.reader.Some? ==> r.reader == Some(p.reader.value + data)
    ensures r.hasWriter == p.hasWriter
  {
    match p.reader
    case None => p
    case Some(buffered) => p.(reader := Some(buffered + data))
  }

  // ---------------------------------------------------------------------------
  // Client
  // ---------------------------------------------------------------------------

  /** Python truthiness of the optional host and port. */
  predicate Truthy(host: Option<string>, port: Option<int>) {
    (host.Some? && host.value != "") || (port.Some? && port.value != 0)
  }

  /** `Client(host, port, sock=..., ssl_context=...)`. */
  function New(host: Option<string>, port: Option<int>, hasSock: bool, ssl: SslContext): (r: Result<ClientState, ClientError>)
    ensures r.Err? <==> hasSock && Truthy(host, port)
    ensures r.Err? ==> r.error == SockWithAddress
    ensures r.Ok? ==> !IsConnected(r.value) && !IsClosed(r.value) && r.value.protocol.None?
    ensures r.Ok? ==> r.value.host == host && r.value.port == port && r.value.ssl == ssl
  {
    if hasSock && Truthy(host, port) then Err(SockWithAddress)
    else Ok(ClientState(host, port, hasSock, ssl, None, false, false, []))
  }

  /** `is_connected()` */
  predicate IsConnected(c: ClientState) {
    c.connected && c.protocol.Some?
  }

  /** `is_closed()` */
  predicate IsClosed(c: ClientState) {
    c.closed
  }

  /** `is_ssl()` */
  predicate IsSsl(c: ClientState) {
    c.ssl == SslContextObject
  }

  /** `_ensure_connection()`: "not connected" is checked before "closed". */
  function EnsureConnection(c: ClientState): (r: Option<ClientError>)
    ensures r.None? <==> IsConnected(c) && !IsClosed(c)
    ensures !IsConnected(c) ==> r == Some(NotConnected)
    ensures IsConnected(c) && IsClosed(c) ==> r == Some(ClientClosed)
  {
    if !IsConnected(c) then Some(NotConnected)
    else if IsClosed(c) then Some(ClientClosed)
    else None
  }

  /** `connect()`: installs a fresh protocol first; only a successful connection attempt
      (`succeeds`) runs `connection_made` and sets the connected flag. Nothing is checked
      beforehand, not even the closed flag. */
  function Connect(c: ClientState, succeeds: bool): (r: (ClientState, Option<ClientError>))
    ensures r.0.protocol.Some? && r.0.closed == c.closed && r.0.sent == c.sent
    ensures succeeds ==> r.1.None? && IsConnected(r.0) && r.0.protocol.value.reader == Some([])
    ensures !succeeds ==> r.1 == Some(ConnectFailed) && r.0.connected == c.connected
                          && r.0.protocol == Some(FreshProtocol)
  {
    var installed := c.(protocol := Some(FreshProtocol));
    if succeeds then (installed.(protocol := Some(ConnectionMade(FreshProtocol)), connected := true), None)
    else (installed, Some(ConnectFailed))
  }

  /** The installed protocol has its streams: false only after a failed reconnect, which
      leaves the connected flag set but installs a protocol `connection_made` never ran on. */
  predicate HasStreams(c: ClientState) {
    c.protocol.Some? && c.protocol.value.hasWriter && c.protocol.value.reader.Some?
  }

  /** The error a guarded call raises, if any: the guard's error, else the attribute error
      of a protocol without streams. */
  function CallError(c: ClientState): (r: Option<ClientError>)
    ensures r.None? <==> IsConnected(c) && !IsClosed(c) && HasStreams(c)
    ensures EnsureConnection(c).Some? ==> r == EnsureConnection(c)
    ensures EnsureConnection(c).None? && !HasStreams(c) ==> r == Some(MissingStream)
  {
    match EnsureConnection(c)
    case Some(e) => Some(e)
    case None => if HasStreams(c) then None else Some(MissingStream)
  }

  /** `write(data)`: passes the guard, then the data goes out after what was sent before. */
  function Write(c: ClientState, data: seq<Base64.byte>): (r: Result<ClientState, ClientError>)
    ensures r.Ok? <==> IsConnected(c) && !IsClosed(c) && HasStreams(c)
    ensures r.Err? ==> Some(r.error) == CallError(c)
    ensures r.Ok? ==> r.value == c.(sent := c.sent + data)
  {
    match CallError(c)
    case Some(e) => Err(e)
    case None => Ok(c.(sent := c.sent + data))
  }

  /** The chunks one after another. */
  function Concat(chunks: seq<seq<Base64.byte>>): (r: seq<Base64.byte>)
    ensures |chunks| == 1 ==> r == chunks[0]
    decreases |chunks|
  {
    if |chunks| == 0 then [] else Concat(chunks[..|chunks| - 1]) + chunks[|chunks| - 1]
  }

  /** Writing the chunks in one `writelines` call sends what `write` calls one by one
      would have sent. */
  lemma {:induction false} WriteLinesIsWrites(c: ClientState, chunks: seq<seq<Base64.byte>>)
    requires CallError(c).None?
    ensures WriteLines(c, chunks) == Ok(WriteEach(c, chunks))
    decreases |chunks|
  {
    if |chunks| > 0 {
      var front := chunks[..|chunks| - 1];
      var last := chunks[|chunks| - 1];
      WriteLinesIsWrites(c, front);
      var before := WriteEach(c, front);
      assert before == c.(sent := c.sent + Concat(front));
      assert WriteEach(c, chunks) == before.(sent := before.sent + last);
      assert c.sent + Concat(chunks) == (c.sent + Concat(front)) + last;
    } else {
      assert c.sent + Concat(chunks) == c.sent;
    }
  }

  /** `write` applied to each chunk in turn, on a client every call succeeds on. */
  function WriteEach(c: ClientState, chunks: seq<seq<Base64.byte>>): (r: ClientState)
    requires CallError(c).None?
    ensures CallError(r).None? && r.(sent := c.sent) == c
    decreases |chunks|
  {
    if |chunks| == 0 then c
    else
      var before := WriteEach(c, chunks[..|chunks| - 1]);
      Write(before, chunks[|chunks| - 1]).value
  }

  /** `writelines(data)`: the same guard, then every chunk in order. */
  function WriteLines(c: ClientState, chunks: seq<seq<Base64.byte>>): (r: Result<ClientState, ClientError>)
    ensures r.Ok? <==> IsConnected(c) && !IsClosed(c) && HasStreams(c)
    ensures r.Err? ==> Some(r.error) == CallError(c)
    ensures r.Ok? ==> r.value == c.(sent := c.sent + Concat(chunks))
  {
    match CallError(c)
    case Some(e) => Err(e)
    case None => Ok(c.(sent := c.sent + Concat(chunks)))
  }

  /** `receive()`: the same guard; `delivered` is what the stream reader hands back. */
  function Receive(c: ClientState, delivered: seq<Base64.byte>): (r: Result<seq<Base64.byte>, ClientError>)
    ensures r.Ok? <==> IsConnected(c) && !IsClosed(c) && HasStreams(c)
    ensures r.Err? ==> Some(r.error) == CallError(c)
    ensures r.Ok? ==> r.value == delivered
  {
    match CallError(c)
    case Some(e) => Err(e)
    case None => Ok(delivered)
  }

  /** `close()`: the same guard, then the closed flag is set; the connected flag stays set. */
  function Close(c: ClientState): (r: Result<ClientState, ClientError>)
    ensures r.Ok? <==> IsConnected(c) && !IsClosed(c) && HasStreams(c)
    ensures r.Err? ==> Some(r.error) == CallError(c)
    ensures r.Ok? ==> IsClosed(r.value) && IsConnected(r.value) && r.value == c.(closed := true)
  {
    match CallError(c)
    case Some(e) => Err(e)
    case None => Ok(c.(closed := true))
  }

  /** `close` is not idempotent: once a close has succeeded, closing again raises
      "Client is closed", and so does every write, writelines and receive. */
  lemma CloseNotIdempotent(c: ClientState, data: seq<Base64.byte>, chunks: seq<seq<Base64.byte>>, delivered: seq<Base64.byte>)
    requires Close(c).Ok?
    ensures Close(Close(c).value) == Err(ClientClosed)
    ensures Write(Close(c).value, data) == Err(ClientClosed)
    ensures WriteLines(Close(c).value, chunks) == Err(ClientClosed)
    ensures Receive(Close(c).value, delivered) == Err(ClientClosed)
  {
  }

  // ---------------------------------------------------------------------------
  // What every reachable client satisfies
  // ---------------------------------------------------------------------------

  /** A connected client has a protocol, and a closed client was connected when it was
      closed and stays flagged connected (the opposite of "closed implies not connected"). */
  predicate Inv(c: ClientState) {
    (c.connected ==> c.protocol.Some?) && (c.closed ==> c.connected)
  }

  datatype Step =
    | ConnectStep(succeeds: bool)
    | WriteStep(data: seq<Base64.byte>)
    | WriteLinesStep(chunks: seq<seq<Base64.byte>>)
    | ReceiveStep(delivered: seq<Base64.byte>)
    | CloseStep
    | DataStep(data: seq<Base64.byte>)

  /** The client after one call (a call that raises leaves it as it was, except that a
      failed `connect` has already installed its protocol). */
  function Apply(c: ClientState, s: Step): ClientState {
    match s
    case ConnectStep(ok) => Connect(c, ok).0
    case WriteStep(data) => (match Write(c, data) case Ok(c') => c' case Err(_) => c)
    case WriteLinesStep(chunks) => (match WriteLines(c, chunks) case Ok(c') => c' case Err(_) => c)
    case ReceiveStep(_) => c
    case CloseStep => (match Close(c) case Ok(c') => c' case Err(_) => c)
    case DataStep(data) =>
      (match c.protocol case Some(p) => c.(protocol := Some(DataReceived(p, data))) case None => c)
  }

  function Run(c: ClientState, steps: seq<Step>): ClientState
    decreases |steps|
  {
    if |steps| == 0 then c else Run(Apply(c, steps[0]), steps[1..])
  }

  /** Every call keeps the invariant. */
  lemma ApplyKeepsInv(c: ClientState, s: Step)
    requires Inv(c)
    ensures Inv(Apply(c, s))
  {
  }

  /** Starting from a freshly constructed client, any sequence of calls keeps the
      invariant, and the closed flag never goes back to false. */
  lemma {:induction false} RunKeepsInv(c: ClientState, steps: seq<Step>)
    requires Inv(c)
    ensures Inv(Run(c, steps))
    ensures c.closed ==> Run(c, steps).closed
    decreases |steps|
  {
    if |steps| > 0 {
      ApplyKeepsInv(c, steps[0]);
      RunKeepsInv(Apply(c, steps[0]), steps[1..]);
    }
  }

  /** A failed reconnect of a connected client leaves it flagged connected but without
      streams: every guarded call then raises the attribute error. */
  lemma FailedReconnect(c: ClientState, data: seq<Base64.byte>)
    requires IsConnected(c) && !IsClosed(c)
    ensures IsConnected(Connect(c, false).0)
    ensures Write(Connect(c, false).0, data) == Err(MissingStream)
    ensures Close(Connect(c, false).0) == Err(MissingStream)
  {
  }

  /** `create_connection(host, port, ssl_context=...)`: a client without a socket, which
      therefore never raises. */
  function CreateConnection(host: string, port: int, ssl: SslContext): (r: ClientState)
    ensures New(Some(host), Some(port), false, ssl) == Ok(r)
    ensures !IsConnected(r) && !IsClosed(r)
  {
    ClientState(Some(host), Some(port), false, ssl, None, false, false, [])
  }

  /** A freshly constructed client satisfies the invariant. */
  lemma NewSatisfiesInv(host: Option<string>, port: Option<int>, hasSock: bool, ssl: SslContext)
    requires New(host, port, hasSock, ssl).Ok?
    ensures Inv(New(host, port, hasSock, ssl).value)
  {
  }
}
