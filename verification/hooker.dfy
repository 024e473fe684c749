/** The client side of railway/http/hooker.py: `TCPHooker` (host:port parsing, the
    connected/closed flags, reading and closing) and `WebsocketHooker` (the opening
    handshake of section 4.1 of RFC 6455 and the decision on the server's reply).
    The session, request building and response parsing are abstract: the request is
    sent as whatever bytes `encode` gives, the reply is whatever `parse` makes of the
    received bytes. */
module Hooker {
  import opened Wrappers
  import Strings
  import Dicts
  import Base64
  import Client
  import Http

  type Headers = Http.Headers
  type Response = Http.Response

  /** What `os.urandom(16)` returns. */
  type Nonce = b: seq<Base64.byte> | |b| == 16 witness seq(16, _ => 0)

  /** `WebSocketCloseCode.NORMAL`, the normal-closure status code of section 7.4.1 of RFC 6455. */
  const NormalClosure := 1000

  const PlainPort := 80
  const TlsPort := 443

  /** The `ClientWebsocket` a successful handshake produces; it is modelled by the close
      calls made on it, each a (payload, code) pair. */
  datatype Websocket = Websocket(closeCalls: seq<(seq<Base64.byte>, int)>)

  datatype HookerState = HookerState(
    connected: bool,
    closed: bool,
    client: Option<Client.ClientState>,
    websocket: Option<Websocket>)

  /** Why `verify_handshake` rejected a reply; each carries what was found instead. */
  datatype HandshakeFailure =
    | WrongStatus(status: int)
    | WrongConnection(connection: Option<string>)
    | WrongUpgrade(upgrade: Option<string>)

  datatype HookerError =
    | NotEnsured                          // whatever `Hooker.ensure()` raises
    | BadPort(text: string)               // ValueError from int(port)
    | ClientError(error: Client.ClientError)
    | NoClient                            // AttributeError: `_client` was never set
    | HandshakeError(failure: HandshakeFailure)

  /** A hooker before any connection was made. */
  const Fresh := HookerState(false, false, None, None)

  // ---------------------------------------------------------------------------
  // host[:port]
  // ---------------------------------------------------------------------------

  function DefaultPort(tls: bool): int {
    if tls then TlsPort else PlainPort
  }

  /** The `host, port = host.split(':')` step of `_create_connection` and
      `_create_ssl_connection`: exactly two pieces give the name and the parsed port; any
      other number of pieces makes the unpacking fail, which keeps the whole text as the
      host and the scheme's default port. */
  function SplitHostPort(host: string, tls: bool): (r: Result<(string, int), HookerError>)
    ensures var parts := Strings.Split(host, ":");
      && (|parts| != 2 ==> r == Ok((host, DefaultPort(tls))))
      && (|parts| == 2 && Strings.ParseInt(parts[1]).None? ==> r == Err(BadPort(parts[1])))
      && (|parts| == 2 && Strings.ParseInt(parts[1]).Some? ==> r == Ok((parts[0], Strings.ParseInt(parts[1]).value)))
  {
    var parts := Strings.Split(host, ":");
    if |parts| == 2 then
      match Strings.ParseInt(parts[1])
      case None => Err(BadPort(parts[1]))
      case Some(port) => Ok((parts[0], port))
    else Ok((host, DefaultPort(tls)))
  }

  /** `name:port` with a colon-free name splits back into the name and the port, and a
      colon-free host gets the default port. */
  lemma SplitHostPortRoundTrip(name: string, port: nat, tls: bool)
    requires ':' !in name
    ensures SplitHostPort(name + ":" + Strings.NatToDecimal(port), tls) == Ok((name, port))
    ensures SplitHostPort(name, tls) == Ok((name, DefaultPort(tls)))
  {
    var digits := Strings.NatToDecimal(port);
    forall i | 0 <= i < |digits|
      ensures digits[i] != ':'
    {
      assert Strings.IsDigit(digits[i]);
    }
    assert Strings.Join([name, digits], ":") == name + ":" + digits;
    Strings.SplitJoin([name, digits], ":");
    Strings.ParseIntOfDecimal(port);
    Strings.NoFirstCharNoOccurrence(name, ":");
  }

  /** `_create_connection(host)` (`tls` false) and `_create_ssl_connection(host)` (`tls`
      true). `ensured` is whether `self.ensure()` passes; `succeeds` is whether the
      connection attempt does. The client is assigned before it connects, so a failed
      attempt leaves it in place with the flags as they were. */
  function CreateConnection(h: HookerState, host: string, tls: bool, ensured: bool, succeeds: bool): (r: (HookerState, Option<HookerError>))
    ensures !ensured ==> r == (h, Some(NotEnsured))
    ensures ensured && SplitHostPort(host, tls).Err? ==> r == (h, Some(SplitHostPort(host, tls).error))
    ensures ensured && SplitHostPort(host, tls).Ok? ==>
      var (name, port) := SplitHostPort(host, tls).value;
      && r.0.client.Some? && r.0.client.value.host == Some(name) && r.0.client.value.port == Some(port)
      && (Client.IsSsl(r.0.client.value) <==> tls)
      && r.0.closed == h.closed && r.0.websocket == h.websocket
      && (succeeds <==> r.1.None?)
      && (succeeds ==> r.0.connected && Client.IsConnected(r.0.client.value))
      && (!succeeds ==> r.0.connected == h.connected && r.1 == Some(ClientError(Client.ConnectFailed)))
  {
    if !ensured then (h, Some(NotEnsured))
    else match SplitHostPort(host, tls)
      case Err(e) => (h, Some(e))
      case Ok((name, port)) =>
        var client := Client.CreateConnection(name, port, if tls then Client.SslContextObject else Client.NoContext);
        var (client', err) := Client.Connect(client, succeeds);
        var h' := h.(client := Some(client'));
        if err.Some? then (h', Some(ClientError(err.value)))
        else (h'.(connected := true), None)
  }

  /** `write(request)`: the encoded request goes through the client. */
  function Write(h: HookerState, data: seq<Base64.byte>): (r: Result<HookerState, HookerError>)
    ensures h.client.None? ==> r == Err(NoClient)
    ensures h.client.Some? ==>
      match Client.Write(h.client.value, data)
      case Ok(c) => r == Ok(h.(client := Some(c)))
      case Err(e) => r == Err(ClientError(e))
  {
    match h.client
    case None => Err(NoClient)
    case Some(c) =>
      match Client.Write(c, data)
      case Ok(c') => Ok(h.(client := Some(c')))
      case Err(e) => Err(ClientError(e))
  }

  /** `read()`: nothing to read without a client; otherwise whatever the client receives. */
  function Read(h: HookerState, delivered: seq<Base64.byte>): (r: Result<seq<Base64.byte>, HookerError>)
    ensures h.client.None? ==> r == Ok([])
    ensures h.client.Some? && Client.CallError(h.client.value).None? ==> r == Ok(delivered)
    ensures h.client.Some? && Client.CallError(h.client.value).Some? ==>
      r == Err(ClientError(Client.CallError(h.client.value).value))
  {
    match h.client
    case None => Ok([])
    case Some(c) =>
      match Client.Receive(c, delivered)
      case Ok(data) => Ok(data)
      case Err(e) => Err(ClientError(e))
  }

  /** `TCPHooker.close()`: closes the client, then drops the connected flag and raises the
      closed flag. A client that refuses to close leaves the hooker as it was. */
  function TcpClose(h: HookerState): (r: Result<HookerState, HookerError>)
    ensures h.client.None? ==> r == Err(NoClient)
    ensures r.Ok? <==> h.client.Some? && Client.Close(h.client.value).Ok?
    ensures r.Ok? ==> !r.value.connected && r.value.closed && r.value.websocket == h.websocket
                      && r.value.client == Some(Client.Close(h.client.value).value)
  {
    match h.client
    case None => Err(NoClient)
    case Some(c) =>
      match Client.Close(c)
      case Ok(c') => Ok(h.(client := Some(c'), connected := false, closed := true))
      case Err(e) => Err(ClientError(e))
  }

  /** `TCPHooker.close` is not idempotent: the second call fails in the client's guard. */
  lemma TcpCloseNotIdempotent(h: HookerState)
    requires TcpClose(h).Ok?
    ensures TcpClose(TcpClose(h).value) == Err(ClientError(Client.ClientClosed))
  {
    Client.CloseNotIdempotent(h.client.value, [], [], []);
  }

  // ---------------------------------------------------------------------------
  // WebsocketHooker
  // ---------------------------------------------------------------------------

  /** `generate_websocket_key()`: the base64 text of the 16 random bytes, which is 24
      characters ending in two pad characters and decodes back to those bytes. */
  function GenerateKey(random: Nonce): (key: string)
    ensures |key| == 24 && key[22..] == "=="
    ensures forall i :: 0 <= i < 22 ==> Base64.IsDigit(key[i])
    ensures Base64.Decode(key) == Some(random)
  {
    var key := Base64.Encode(random);
    Base64.EncodeShape(random);
    Base64.DecodeEncode(random);
    KeyShape(key);
    key
  }

  /** A 24-character encoding of 16 bytes ends in its two pad characters. */
  lemma KeyShape(key: string)
    requires |key| == 24 && Base64.DigitsThenPads(key, Base64.Padding(16))
    ensures key[22..] == "=="
    ensures forall i :: 0 <= i < 22 ==> Base64.IsDigit(key[i])
  {
    assert Base64.Padding(16) == 2;
    assert key[22] == Base64.Pad && key[23] == Base64.Pad;
  }

  /** The headers of the upgrade request, in the order `handshake` writes them. The version
      is the integer 13 in the code and goes out as the text "13". */
  function UpgradeHeaders(key: string): (hs: Headers)
    ensures Dicts.Valid(hs)
    ensures Dicts.Keys(hs) == ["Upgrade", "Connection", "Sec-WebSocket-Key", "Sec-WebSocket-Version"]
    ensures Dicts.Get(hs, "Upgrade") == Some("websocket")
    ensures Dicts.Get(hs, "Connection") == Some("Upgrade")
    ensures Dicts.Get(hs, "Sec-WebSocket-Key") == Some(key)
    ensures Dicts.Get(hs, "Sec-WebSocket-Version") == Some("13")
  {
    assert "Upgrade" != "Connection" && "Upgrade" != "Sec-WebSocket-Key" && "Upgrade" != "Sec-WebSocket-Version";
    assert "Connection" != "Sec-WebSocket-Key" && "Connection" != "Sec-WebSocket-Version";
    assert "Sec-WebSocket-Key" != "Sec-WebSocket-Version";
    FourEntries("Upgrade", "websocket", "Connection", "Upgrade", "Sec-WebSocket-Key", key, "Sec-WebSocket-Version", "13");
    Dicts.Dict([("Upgrade", "websocket"), ("Connection", "Upgrade"),
                ("Sec-WebSocket-Key", key), ("Sec-WebSocket-Version", "13")])
  }

  /** A literal dict of four distinct keys finds each key's value. */
  lemma FourEntries(a: string, av: string, b: string, bv: string, c: string, cv: string, d: string, dv: string)
    requires a != b && a != c && a != d && b != c && b != d && c != d
    ensures var hs := Dicts.Dict([(a, av), (b, bv), (c, cv), (d, dv)]);
      && Dicts.Valid(hs)
      && Dicts.Keys(hs) == [a, b, c, d]
      && Dicts.Get(hs, a) == Some(av) && Dicts.Get(hs, b) == Some(bv)
      && Dicts.Get(hs, c) == Some(cv) && Dicts.Get(hs, d) == Some(dv)
  {
    FourKeys(a, av, b, bv, c, cv, d, dv);
    var hs := Dicts.Dict([(a, av), (b, bv), (c, cv), (d, dv)]);
    Dicts.GetEntry(hs, 0);
    Dicts.GetEntry(hs, 1);
    Dicts.GetEntry(hs, 2);
    Dicts.GetEntry(hs, 3);
  }

  lemma FourKeys(a: string, av: string, b: string, bv: string, c: string, cv: string, d: string, dv: string)
    requires a != b && a != c && a != d && b != c && b != d && c != d
    ensures var hs := Dicts.Dict([(a, av), (b, bv), (c, cv), (d, dv)]);
      Dicts.Valid(hs) && Dicts.Keys(hs) == [a, b, c, d]
  {
    var ks := Dicts.Keys(Dicts.Dict([(a, av), (b, bv), (c, cv), (d, dv)]));
    assert ks[0] == a && ks[1] == b && ks[2] == c && ks[3] == d;
  }

  /** `create_websocket()`: a websocket over the client's streams, or none when the
      protocol has not got both of them yet. */
  function CreateWebsocket(h: HookerState): (r: Result<Option<Websocket>, HookerError>)
    ensures h.client.None? ==> r == Err(NoClient)
    ensures h.client.Some? && h.client.value.protocol.None? ==> r == Err(NoClient)
    ensures r.Ok? ==> (r.value.Some? <==> Client.HasStreams(h.client.value))
    ensures r.Ok? && r.value.Some? ==> r.value.value.closeCalls == []
  {
    match h.client
    case None => Err(NoClient)
    case Some(c) =>
      match c.protocol
      case None => Err(NoClient)
      case Some(p) =>
        if p.reader.Some? && p.hasWriter then Ok(Some(Websocket([]))) else Ok(None)
  }

  /** A header value equals `expected` ignoring ASCII case; a missing header never does. */
  predicate HeaderIs(headers: Headers, name: string, expected: string) {
    var v := Dicts.Get(headers, name);
    v.Some? && Strings.Lower(v.value) == expected
  }

  /** The decision of `verify_handshake`: the status first, then `Connection`, then
      `Upgrade`; the first check that fails names the failure. The accept token is not
      looked at. */
  function CheckReply(resp: Response): (r: Option<HandshakeFailure>)
    ensures r.None? <==>
      resp.status == Http.SwitchingProtocols && HeaderIs(resp.headers, "Connection", "upgrade") && HeaderIs(resp.headers, "Upgrade", "websocket")
    ensures resp.status != Http.SwitchingProtocols ==> r == Some(WrongStatus(resp.status))
    ensures resp.status == Http.SwitchingProtocols && !HeaderIs(resp.headers, "Connection", "upgrade") ==>
      r == Some(WrongConnection(Dicts.Get(resp.headers, "Connection")))
    ensures resp.status == Http.SwitchingProtocols && HeaderIs(resp.headers, "Connection", "upgrade") && !HeaderIs(resp.headers, "Upgrade", "websocket") ==>
      r == Some(WrongUpgrade(Dicts.Get(resp.headers, "Upgrade")))
  {
    if resp.status != Http.SwitchingProtocols then Some(WrongStatus(resp.status))
    else if !HeaderIs(resp.headers, "Connection", "upgrade") then Some(WrongConnection(Dicts.Get(resp.headers, "Connection")))
    else if !HeaderIs(resp.headers, "Upgrade", "websocket") then Some(WrongUpgrade(Dicts.Get(resp.headers, "Upgrade")))
    else None
  }

  /** The lower-case forms the decision compares against; stated once so that proofs
      about whole replies need not unfold `Lower` on literals themselves. */
  lemma LowerLiterals()
    ensures Strings.Lower("Upgrade") == "upgrade" && Strings.Lower("upgrade") == "upgrade"
    ensures Strings.Lower("WebSocket") == "websocket" && Strings.Lower("websocket") == "websocket"
  {
  }

  /** The decision ignores the case of the two header values. */
  lemma CheckReplyIgnoresCase(resp: Response, conn: string, upgrade: string)
    requires Dicts.Get(resp.headers, "Connection") == Some(conn)
    requires Dicts.Get(resp.headers, "Upgrade") == Some(upgrade)
    ensures CheckReply(resp).None? <==>
      resp.status == Http.SwitchingProtocols && Strings.Lower(conn) == Strings.Lower("Upgrade") && Strings.Lower(upgrade) == Strings.Lower("WebSocket")
  {
  }

  /** `WebsocketHooker.close(data=..., code=...)`: nothing happens without a websocket;
      otherwise the websocket is closed with a falsy code replaced by NORMAL and falsy data
      by empty bytes. The TCP flags are not touched. */
  function WsClose(h: HookerState, data: Option<seq<Base64.byte>>, code: Option<int>): (r: HookerState)
    ensures h.websocket.None? ==> r == h
    ensures r.connected == h.connected && r.closed == h.closed && r.client == h.client
    ensures h.websocket.Some? ==>
      var payload := if data.None? || data.value == [] then [] else data.value;
      var status := if code.None? || code.value == 0 then NormalClosure else code.value;
      r.websocket == Some(Websocket(h.websocket.value.closeCalls + [(payload, status)]))
  {
    match h.websocket
    case None => h
    case Some(ws) =>
      var status := if code.None? || code.value == 0 then NormalClosure else code.value;
      var payload := data.GetOr([]);
      h.(websocket := Some(Websocket(ws.closeCalls + [(payload, status)])))
  }

  /** `verify_handshake(response)` with `_close`: an accepted reply changes nothing; a
      rejected one first closes the websocket with the defaults and then raises. */
  function VerifyHandshake(h: HookerState, resp: Response): (r: (HookerState, Option<HookerError>))
    ensures r.1.None? <==> CheckReply(resp).None?
    ensures r.1.None? ==> r.0 == h
    ensures r.1.Some? ==> r.1 == Some(HandshakeError(CheckReply(resp).value)) && r.0 == WsClose(h, None, None)
  {
    match CheckReply(resp)
    case None => (h, None)
    case Some(f) => (WsClose(h, None, None), Some(HandshakeError(f)))
  }

  /** `handshake(path, host)`: sends the upgrade request with a fresh key, receives the
      reply, creates the websocket and verifies the reply. `encode` stands for
      `build_request(...).encode()`, `parse` for `build_response`. A write that succeeds
      leaves a client whose guard passes and whose streams exist, so the receive cannot
      fail and a fresh websocket is always created: the outcome is then decided by the
      reply alone. */
  function Handshake(h: HookerState, path: string, host: string, random: Nonce, delivered: seq<Base64.byte>,
                     encode: (string, string, string, Headers) -> seq<Base64.byte>,
                     parse: seq<Base64.byte> -> Response): (r: (HookerState, Result<Option<Websocket>, HookerError>))
    ensures var sent := Write(h, encode("GET", host, path, UpgradeHeaders(GenerateKey(random))));
      && (sent.Err? ==> r == (h, Err(sent.error)))
      && (sent.Ok? ==>
            var h1 := sent.value.(websocket := Some(Websocket([])));
            var reply := parse(delivered);
            && (CheckReply(reply).None? ==> r == (h1, Ok(Some(Websocket([])))))
            && (CheckReply(reply).Some? ==>
                  r == (WsClose(h1, None, None), Err(HandshakeError(CheckReply(reply).value)))))
  {
    var key := GenerateKey(random);
    match Write(h, encode("GET", host, path, UpgradeHeaders(key)))
    case Err(e) => (h, Err(e))
    case Ok(h1) =>
      match Client.Receive(h1.client.value, delivered)
      case Err(e) => (h1, Err(ClientError(e)))
      case Ok(reply) =>
        match CreateWebsocket(h1)
        case Err(e) => (h1, Err(e))
        case Ok(ws) =>
          var h2 := h1.(websocket := ws);
          var (h3, err) := VerifyHandshake(h2, parse(reply));
          if err.Some? then (h3, Err(err.value)) else (h3, Ok(h3.websocket))
  }

  // ---------------------------------------------------------------------------
  // The flags over a run of calls
  // ---------------------------------------------------------------------------

  /** A hooker flagged connected, or holding a websocket, has a client. */
  predicate Inv(h: HookerState) {
    (h.connected ==> h.client.Some?) && (h.websocket.Some? ==> h.client.Some?)
  }

  /** The calls a hooker's user can make. */
  datatype Step =
    | ConnectStep(host: string, tls: bool, ensured: bool, succeeds: bool)
    | WriteStep(data: seq<Base64.byte>)
    | CloseStep
    | WsCloseStep(payload: Option<seq<Base64.byte>>, code: Option<int>)
    | VerifyStep(resp: Response)
    | HandshakeStep(path: string, target: string, random: Nonce, delivered: seq<Base64.byte>,
                    encode: (string, string, string, Headers) -> seq<Base64.byte>,
                    parse: seq<Base64.byte> -> Response)

  /** The hooker after one call. A call that raises keeps what it changed before raising:
      a failed connection has already replaced the client, a rejected handshake has
      already closed the websocket. */
  function Apply(h: HookerState, s: Step): HookerState {
    match s
    case ConnectStep(host, tls, ensured, succeeds) => CreateConnection(h, host, tls, ensured, succeeds).0
    case WriteStep(data) => (match Write(h, data) case Ok(h') => h' case Err(_) => h)
    case CloseStep => (match TcpClose(h) case Ok(h') => h' case Err(_) => h)
    case WsCloseStep(data, code) => WsClose(h, data, code)
    case VerifyStep(resp) => VerifyHandshake(h, resp).0
    case HandshakeStep(path, host, random, delivered, encode, parse) =>
      Handshake(h, path, host, random, delivered, encode, parse).0
  }

  function Run(h: HookerState, steps: seq<Step>): HookerState
    decreases |steps|
  {
    if |steps| == 0 then h else Run(Apply(h, steps[0]), steps[1..])
  }

  /** Every call keeps the invariant, and none clears the closed flag. */
  lemma ApplyKeepsInv(h: HookerState, s: Step)
    requires Inv(h)
    ensures Inv(Apply(h, s))
    ensures h.closed ==> Apply(h, s).closed
  {
    match s
    case ConnectStep(host, tls, ensured, succeeds) =>
    case WriteStep(data) =>
    case CloseStep =>
    case WsCloseStep(payload, code) =>
    case VerifyStep(resp) =>
    case HandshakeStep(path, target, random, delivered, encode, parse) =>
      HandshakeKeepsInv(h, path, target, random, delivered, encode, parse);
  }

  /** The handshake only replaces the client through a write and sets the websocket after
      one, so it keeps the invariant and the closed flag. */
  lemma HandshakeKeepsInv(h: HookerState, path: string, host: string, random: Nonce, delivered: seq<Base64.byte>,
                          encode: (string, string, string, Headers) -> seq<Base64.byte>,
                          parse: seq<Base64.byte> -> Response)
    requires Inv(h)
    ensures var h' := Handshake(h, path, host, random, delivered, encode, parse).0;
      Inv(h') && h'.closed == h.closed && h'.connected == h.connected
  {
    var sent := Write(h, encode("GET", host, path, UpgradeHeaders(GenerateKey(random))));
    if sent.Ok? {
      assert sent.value.client.Some? && sent.value.closed == h.closed && sent.value.connected == h.connected;
    }
  }

  /** From a fresh hooker, any sequence of calls keeps the invariant, and once closed a
      hooker stays flagged closed: no call resets `closed`. */
  lemma {:induction false} RunKeepsInv(h: HookerState, steps: seq<Step>)
    requires Inv(h)
    ensures Inv(Run(h, steps))
    ensures h.closed ==> Run(h, steps).closed
    decreases |steps|
  {
    if |steps| > 0 {
      ApplyKeepsInv(h, steps[0]);
      RunKeepsInv(Apply(h, steps[0]), steps[1..]);
    }
  }

  /** A successful connection can be closed once: afterwards the hooker is flagged closed
      and not connected, and a write or a second close fails in the client's guard. */
  lemma ConnectThenClose(h: HookerState, host: string, tls: bool, data: seq<Base64.byte>)
    requires SplitHostPort(host, tls).Ok?
    ensures var h1 := CreateConnection(h, host, tls, true, true).0;
      && h1.connected && TcpClose(h1).Ok?
      && !TcpClose(h1).value.connected && TcpClose(h1).value.closed
      && Write(TcpClose(h1).value, data) == Err(ClientError(Client.ClientClosed))
      && TcpClose(TcpClose(h1).value) == Err(ClientError(Client.ClientClosed))
  {
  }

  /** A failed reconnect of a connected hooker keeps its `connected` flag although the new
      client it installed is not connected: a later write fails in that client's guard. */
  lemma FailedReconnectKeepsFlag(h: HookerState, host: string, tls: bool, data: seq<Base64.byte>)
    requires h.connected && SplitHostPort(host, tls).Ok?
    ensures var h1 := CreateConnection(h, host, tls, true, false).0;
      && h1.connected && !Client.IsConnected(h1.client.value)
      && Write(h1, data) == Err(ClientError(Client.NotConnected))
  {
  }

  /** Spelling the close defaults out changes nothing: no data is empty bytes, and no code
      (or the falsy code 0) is the normal-closure code. */
  lemma WsCloseDefaults(h: HookerState)
    ensures WsClose(h, None, None) == WsClose(h, Some([]), Some(0))
    ensures WsClose(h, None, None) == WsClose(h, None, Some(NormalClosure))
  {
  }
}
