/** The server side of railway/request.py: recognising an opening handshake
    (section 4.2.1 of RFC 6455), computing the accept token and building the 101 reply
    (section 4.2.2), the status checks of `abort` and `redirect`, and the `encoding`
    property. SHA-1 is a parameter; the response tables of railway/responses.py are
    parameters too. */
module Request {
  import opened Wrappers
  import Strings
  import Dicts
  import Base64
  import Http

  type Headers = Http.Headers

  /** What SHA-1 returns. */
  type Digest = d: seq<Base64.byte> | |d| == 20 witness seq(20, _ => 0)

  /** The key-suffix GUID of section 1.3 of RFC 6455. */
  const Guid := "258EAFA5-E914-47DA-95CA-C5AB0DC85B11"

  /** The headers an opening handshake must carry, in the order they are checked. */
  const Required: seq<string> := ["Host", "Upgrade", "Connection", "Sec-WebSocket-Version", "Sec-WebSocket-Key"]

  /** The part of a request this model looks at; `verb` is the request method. `charset` is what `headers.charset`
      reports (derived from Content-Type by the `Headers` class). */
  datatype Request = Request(
    verb: string,
    version: string,
    headers: Headers,
    charset: Option<string>,
    storedEncoding: string)

  datatype RequestError =
    | KeyNotBase64          // binascii.Error from base64.b64decode
    | NotWebsocket          // RuntimeError('Not a websocket request')

  /** The extra keyword arguments `abort` and `redirect` pass on to the response class. */
  type Kwargs = Dicts.Dict<string, string>

  /** What `abort` and `redirect` raise: they never return. A raised response carries the
      class, the status it was chosen for, and the location, body and keyword arguments it
      was constructed with. */
  datatype Raised =
    | InvalidStatus(status: int)              // ValueError
    | NotAResponseClass                       // TypeError: None is not callable
    | DuplicateKeyword                        // TypeError: a keyword argument given twice
    | ResponseRaised(cls: string, status: int, location: Option<string>, body: Option<string>, kwargs: Kwargs)

  /** A request as the constructor leaves it: the stored encoding starts as "utf-8". */
  function New(verb: string, version: string, headers: Headers, charset: Option<string>): (r: Request)
    ensures r.verb == verb && r.version == version && r.headers == headers && r.charset == charset
    ensures Encoding(r) == if charset.Some? && charset.value != "" then charset.value else "utf-8"
  {
    Request(verb, version, headers, charset, "utf-8")
  }

  // ---------------------------------------------------------------------------
  // is_websocket
  // ---------------------------------------------------------------------------

  predicate HasAll(headers: Headers) {
    forall i :: 0 <= i < |Required| ==> Dicts.HasKey(headers, Required[i])
  }

  /** `headers[name]`; only read where `HasAll` holds, so the empty fallback is never used. */
  function Header(headers: Headers, name: string): string {
    Dicts.Get(headers, name).GetOr("")
  }

  /** The request line and every header an opening handshake needs, with an acceptable
      `Upgrade` and `Sec-WebSocket-Version` (the key's decoding is judged separately). */
  predicate WellFormedUpgrade(req: Request) {
    && req.verb == "GET"
    && req.version == "HTTP/1.1"
    && HasAll(req.headers)
    && Strings.Lower(Header(req.headers, "Upgrade")) == "websocket"
    && Header(req.headers, "Sec-WebSocket-Version") == "13"
  }

  /** `is_websocket()`: checks the method, the version, that every required header is
      present, and then the headers in order. `Host` and `Connection` are only required to
      be present. A key that is not base64 makes the decoding raise rather than answer
      false. */
  function IsWebsocket(req: Request): (r: Result<bool, RequestError>)
    ensures req.verb != "GET" ==> r == Ok(false)
    ensures req.version != "HTTP/1.1" ==> r == Ok(false)
    ensures !HasAll(req.headers) ==> r == Ok(false)
    ensures r.Err? <==> WellFormedUpgrade(req) && Base64.Decode(Header(req.headers, "Sec-WebSocket-Key")).None?
    ensures r.Err? ==> r.error == KeyNotBase64
    ensures r == Ok(true) <==>
      && WellFormedUpgrade(req)
      && var key := Base64.Decode(Header(req.headers, "Sec-WebSocket-Key"));
         key.Some? && |key.value| == 16
  {
    if req.verb != "GET" then Ok(false)
    else if req.version != "HTTP/1.1" then Ok(false)
    else if !HasAll(req.headers) then Ok(false)
    // the loop over `Required`: Host and Connection pass, the others are checked in turn
    else if Strings.Lower(Header(req.headers, "Upgrade")) != "websocket" then Ok(false)
    else if Header(req.headers, "Sec-WebSocket-Version") != "13" then Ok(false)
    else match Base64.Decode(Header(req.headers, "Sec-WebSocket-Key"))
      case None => Err(KeyNotBase64)
      case Some(key) => Ok(|key| == 16)
  }

  // ---------------------------------------------------------------------------
  // parse_websocket_key
  // ---------------------------------------------------------------------------

  /** `parse_websocket_key()`: raises unless the request is an opening handshake (the
      decoding error of `is_websocket` passes through), and otherwise returns the base64
      text of SHA-1 of the key followed by the GUID: 28 characters, one pad at the end,
      decoding back to the digest. */
  function ParseWebsocketKey(req: Request, sha1: string -> Digest): (r: Result<string, RequestError>)
    ensures IsWebsocket(req).Err? ==> r == Err(KeyNotBase64)
    ensures IsWebsocket(req) == Ok(false) ==> r == Err(NotWebsocket)
    ensures r.Ok? <==> IsWebsocket(req) == Ok(true)
    ensures r.Ok? ==>
      && |r.value| == 28 && r.value[27] == Base64.Pad
      && (forall i :: 0 <= i < 27 ==> Base64.IsDigit(r.value[i]))
      && Base64.Decode(r.value) == Some(sha1(Header(req.headers, "Sec-WebSocket-Key") + Guid))
  {
    match IsWebsocket(req)
    case Err(e) => Err(e)
    case Ok(false) => Err(NotWebsocket)
    case Ok(true) =>
      var digest := sha1(Header(req.headers, "Sec-WebSocket-Key") + Guid);
      AcceptTokenShape(digest);
      Ok(Base64.Encode(digest))
  }

  /** The base64 text of a digest is 28 characters with a single pad at the end. */
  lemma AcceptTokenShape(digest: seq<Base64.byte>)
    requires |digest| == 20
    ensures var t := Base64.Encode(digest);
      && |t| == 28 && t[27] == Base64.Pad
      && (forall i :: 0 <= i < 27 ==> Base64.IsDigit(t[i]))
      && Base64.Decode(t) == Some(digest)
  {
    Base64.EncodeShape(digest);
    Base64.DecodeEncode(digest);
    TokenShape(Base64.Encode(digest));
  }

  lemma TokenShape(t: string)
    requires |t| == 28 && Base64.DigitsThenPads(t, Base64.Padding(20))
    ensures t[27] == Base64.Pad && forall i :: 0 <= i < 27 ==> Base64.IsDigit(t[i])
  {
    assert Base64.Padding(20) == 1;
  }

  // ---------------------------------------------------------------------------
  // handshake
  // ---------------------------------------------------------------------------

  /** `", ".join(values)` */
  function JoinList(values: seq<string>): string {
    Strings.Join(values, ", ")
  }

  /** `response.add_header(key=..., value=...)` */
  function AddHeader(hs: Headers, name: string, value: string): Headers {
    Dicts.Set(hs, name, value)
  }

  /** The 101 reply's headers after the three fixed ones. */
  function FixedReplyHeaders(accept: string): Headers {
    AddHeader(AddHeader(AddHeader(Dicts.Empty(), "Upgrade", "websocket"), "Connection", "Upgrade"),
              "Sec-WebSocket-Accept", accept)
  }

  /** A header added only when there is a value for it. */
  function AddOptional(hs: Headers, name: string, value: Option<string>): Headers {
    if value.Some? then AddHeader(hs, name, value.value) else hs
  }

  /** The ", "-joined list, when there is one. */
  function JoinOptional(values: Option<seq<string>>): (r: Option<string>)
    ensures r.Some? <==> values.Some?
  {
    if values.Some? then Some(JoinList(values.value)) else None
  }

  /** The headers of the 101 reply, in the order `handshake` adds them. */
  function ReplyHeaders(accept: string, extensions: Option<seq<string>>, subprotocols: Option<seq<string>>): Headers {
    AddOptional(AddOptional(FixedReplyHeaders(accept), "Sec-WebSocket-Extensions", JoinOptional(extensions)),
                "Sec-WebSocket-Protocol", JoinOptional(subprotocols))
  }

  /** Adding an optional header that is not there yet appends it exactly when it has a
      value and leaves every other header alone. */
  lemma AddOptionalSpec(hs: Headers, name: string, value: Option<string>)
    requires Dicts.Valid(hs) && Dicts.Get(hs, name).None?
    ensures var r := AddOptional(hs, name, value);
      && Dicts.Valid(r)
      && Dicts.Keys(r) == Dicts.Keys(hs) + (if value.Some? then [name] else [])
      && Dicts.Get(r, name) == value
      && (forall k :: k != name ==> Dicts.Get(r, k) == Dicts.Get(hs, k))
  {
    if value.Some? {
      Dicts.SetSpec(hs, name, value.value);
      Dicts.SetKeepsOrder(hs, name, value.value);
    }
  }

  lemma FixedReplyHeadersSpec(accept: string)
    ensures var hs := FixedReplyHeaders(accept);
      && Dicts.Valid(hs)
      && Dicts.Keys(hs) == ["Upgrade", "Connection", "Sec-WebSocket-Accept"]
      && Dicts.Get(hs, "Upgrade") == Some("websocket")
      && Dicts.Get(hs, "Connection") == Some("Upgrade")
      && Dicts.Get(hs, "Sec-WebSocket-Accept") == Some(accept)
      && Dicts.Get(hs, "Sec-WebSocket-Extensions").None?
      && Dicts.Get(hs, "Sec-WebSocket-Protocol").None?
  {
    FixedReplyHeadersPresent(accept);
    var hs := FixedReplyHeaders(accept);
    Absent(Dicts.Keys(hs), "Sec-WebSocket-Extensions");
    Absent(Dicts.Keys(hs), "Sec-WebSocket-Protocol");
    Dicts.InKeys(hs, "Sec-WebSocket-Extensions");
    Dicts.InKeys(hs, "Sec-WebSocket-Protocol");
  }

  /** The optional reply headers are not among the fixed ones: each differs from the
      first two in its first letter and from `Sec-WebSocket-Accept` in its fifteenth. */
  lemma Absent(names: seq<string>, x: string)
    requires names == ["Upgrade", "Connection", "Sec-WebSocket-Accept"]
    requires x == "Sec-WebSocket-Extensions" || x == "Sec-WebSocket-Protocol"
    ensures x !in names
  {
    assert x[0] == 'S' && x[14] != 'A';
    assert names[0][0] == 'U' && names[1][0] == 'C' && names[2][14] == 'A';
  }

  lemma FixedReplyHeadersPresent(accept: string)
    ensures var hs := FixedReplyHeaders(accept);
      && Dicts.Valid(hs)
      && Dicts.Keys(hs) == ["Upgrade", "Connection", "Sec-WebSocket-Accept"]
      && Dicts.Get(hs, "Upgrade") == Some("websocket")
      && Dicts.Get(hs, "Connection") == Some("Upgrade")
      && Dicts.Get(hs, "Sec-WebSocket-Accept") == Some(accept)
  {
    assert "Upgrade" != "Connection" && "Upgrade" != "Sec-WebSocket-Accept" && "Connection" != "Sec-WebSocket-Accept";
    ThreeNew("Upgrade", "websocket", "Connection", "Upgrade", "Sec-WebSocket-Accept", accept);
  }

  /** Three distinct headers added to an empty set of headers, in order. */
  lemma ThreeNew(a: string, av: string, b: string, bv: string, c: string, cv: string)
    requires a != b && a != c && b != c
    ensures var hs := AddHeader(AddHeader(AddHeader(Dicts.Empty(), a, av), b, bv), c, cv);
      && Dicts.Valid(hs)
      && Dicts.Keys(hs) == [a, b, c]
      && Dicts.Get(hs, a) == Some(av) && Dicts.Get(hs, b) == Some(bv) && Dicts.Get(hs, c) == Some(cv)
      && forall k :: k !in [a, b, c] ==> Dicts.Get(hs, k).None?
  {
    ThreeEntries(a, av, b, bv, c, cv);
    ThreeKeys(a, av, b, bv, c, cv);
    var hs := Dicts.Dict([(a, av), (b, bv), (c, cv)]);
    Dicts.GetEntry(hs, 0);
    Dicts.GetEntry(hs, 1);
    Dicts.GetEntry(hs, 2);
    forall k | k !in [a, b, c]
      ensures Dicts.Get(hs, k).None?
    {
      Dicts.InKeys(hs, k);
    }
  }

  lemma ThreeKeys(a: string, av: string, b: string, bv: string, c: string, cv: string)
    requires a != b && a != c && b != c
    ensures var hs := Dicts.Dict([(a, av), (b, bv), (c, cv)]);
      Dicts.Valid(hs) && Dicts.Keys(hs) == [a, b, c]
  {
    var ks := Dicts.Keys(Dicts.Dict([(a, av), (b, bv), (c, cv)]));
    assert ks[0] == a && ks[1] == b && ks[2] == c;
  }

  lemma ThreeEntries(a: string, av: string, b: string, bv: string, c: string, cv: string)
    requires a != b && a != c && b != c
    ensures AddHeader(AddHeader(AddHeader(Dicts.Empty(), a, av), b, bv), c, cv)
         == Dicts.Dict([(a, av), (b, bv), (c, cv)])
  {
    var h0: Headers := Dicts.Empty();
    Dicts.SetNew(h0, a, av);
    var h1 := Dicts.Dict([(a, av)]);
    Dicts.SetNew(h1, b, bv);
    var h2 := Dicts.Dict([(a, av), (b, bv)]);
    assert h1.entries + [(b, bv)] == h2.entries;
    assert !Dicts.HasKey(h2, c) by {
      assert forall i :: 0 <= i < 2 ==> h2.entries[i].0 != c;
    }
    Dicts.SetNew(h2, c, cv);
    assert h2.entries + [(c, cv)] == [(a, av), (b, bv), (c, cv)];
  }

  /** What each header of the 101 reply holds: the fixed upgrade headers, the accept token,
      and each optional header exactly when its argument was given, joined with ", ";
      the fixed headers come first, in that order, and nothing else is present. */
  lemma ReplyHeadersSpec(accept: string, extensions: Option<seq<string>>, subprotocols: Option<seq<string>>)
    ensures var hs := ReplyHeaders(accept, extensions, subprotocols);
      && Dicts.Valid(hs)
      && Dicts.Keys(hs) == ["Upgrade", "Connection", "Sec-WebSocket-Accept"]
                           + (if extensions.Some? then ["Sec-WebSocket-Extensions"] else [])
                           + (if subprotocols.Some? then ["Sec-WebSocket-Protocol"] else [])
      && Dicts.Get(hs, "Upgrade") == Some("websocket")
      && Dicts.Get(hs, "Connection") == Some("Upgrade")
      && Dicts.Get(hs, "Sec-WebSocket-Accept") == Some(accept)
      && Dicts.Get(hs, "Sec-WebSocket-Extensions") == JoinOptional(extensions)
      && Dicts.Get(hs, "Sec-WebSocket-Protocol") == JoinOptional(subprotocols)
  {
    FixedReplyHeadersSpec(accept);
    AddTwoOptional(FixedReplyHeaders(accept), "Sec-WebSocket-Extensions", JoinOptional(extensions),
                   "Sec-WebSocket-Protocol", JoinOptional(subprotocols));
  }

  /** Two optional headers, neither present yet, added one after the other. */
  lemma AddTwoOptional(hs: Headers, a: string, av: Option<string>, b: string, bv: Option<string>)
    requires Dicts.Valid(hs) && Dicts.Get(hs, a).None? && Dicts.Get(hs, b).None? && a != b
    ensures var r := AddOptional(AddOptional(hs, a, av), b, bv);
      && Dicts.Valid(r)
      && Dicts.Keys(r) == Dicts.Keys(hs) + (if av.Some? then [a] else []) + (if bv.Some? then [b] else [])
      && Dicts.Get(r, a) == av
      && Dicts.Get(r, b) == bv
      && (forall k :: k != a && k != b ==> Dicts.Get(r, k) == Dicts.Get(hs, k))
  {
    AddOptionalSpec(hs, a, av);
    AddOptionalSpec(AddOptional(hs, a, av), b, bv);
  }

  /** `handshake(extensions=..., subprotocols=...)`: the 101 reply carrying the accept token;
      the optional headers appear exactly when their argument is given. Writing the reply
      out is not modelled. */
  function Handshake(req: Request, sha1: string -> Digest, extensions: Option<seq<string>>, subprotocols: Option<seq<string>>)
    : (r: Result<Http.Response, RequestError>)
    ensures r.Err? <==> ParseWebsocketKey(req, sha1).Err?
    ensures r.Err? ==> r.error == ParseWebsocketKey(req, sha1).error
    ensures r.Ok? ==>
      && r.value.status == Http.SwitchingProtocols
      && r.value.headers == ReplyHeaders(ParseWebsocketKey(req, sha1).value, extensions, subprotocols)
  {
    var accept :- ParseWebsocketKey(req, sha1);
    Ok(Http.Response(Http.SwitchingProtocols, ReplyHeaders(accept, extensions, subprotocols)))
  }

  /** The joined extension list splits back into the extensions when none of them
      contains a comma. */
  lemma ExtensionsRoundTrip(values: seq<string>)
    requires |values| > 0
    requires forall k :: 0 <= k < |values| ==> ',' !in values[k]
    ensures Strings.Split(JoinList(values), ", ") == values
  {
    Strings.SplitJoin(values, ", ");
  }

  // ---------------------------------------------------------------------------
  // abort / redirect
  // ---------------------------------------------------------------------------

  /** `abort(status, message=..., **kwargs)`: a status below 400 is a ValueError. Then the
      class is called as `cls(reason=message, **kwargs)`: a `reason` among the keyword
      arguments is a TypeError while the arguments are built, a status without a response
      class makes the call of `None` a TypeError, and otherwise the class is raised with
      the message as its body and the keyword arguments. */
  function Abort(status: int, message: Option<string>, kwargs: Kwargs, responses: Dicts.Dict<int, string>): (r: Raised)
    ensures status < 400 <==> r == InvalidStatus(status)
    ensures status >= 400 && Dicts.HasKey(kwargs, "reason") ==> r == DuplicateKeyword
    ensures status >= 400 && !Dicts.HasKey(kwargs, "reason") && !Dicts.HasKey(responses, status) ==>
      r == NotAResponseClass
    ensures status >= 400 && !Dicts.HasKey(kwargs, "reason") && Dicts.HasKey(responses, status) ==>
      r == ResponseRaised(Dicts.Get(responses, status).value, status, None, message, kwargs)
  {
    if status < 400 then InvalidStatus(status)
    else if Dicts.HasKey(kwargs, "reason") then DuplicateKeyword
    else match Dicts.Get(responses, status)
      case None => NotAResponseClass
      case Some(cls) => ResponseRaised(cls, status, None, message, kwargs)
  }

  /** `abort` raises a response exactly for a status of at least 400 that the table lists,
      when no `reason` keyword is given; the class raised is the one listed for it. */
  lemma AbortRaisesListedClass(status: int, message: Option<string>, kwargs: Kwargs, responses: Dicts.Dict<int, string>)
    ensures Abort(status, message, kwargs, responses).ResponseRaised? <==>
      400 <= status && status in Dicts.Keys(responses) && "reason" !in Dicts.Keys(kwargs)
    ensures Abort(status, message, kwargs, responses).ResponseRaised? ==>
      (status, Abort(status, message, kwargs, responses).cls) in responses.entries
  {
    Dicts.InKeys(responses, status);
    Dicts.InKeys(kwargs, "reason");
  }

  /** The keyword arguments `redirect` passes itself. */
  predicate RedirectClash(kwargs: Kwargs) {
    Dicts.HasKey(kwargs, "location") || Dicts.HasKey(kwargs, "body")
  }

  /** `redirect(to, status=..., body=..., **kwargs)`: a missing or zero status means 302; a
      status without a redirection class is a ValueError; a `location` or `body` among the
      keyword arguments is a TypeError; otherwise the class is raised with the location,
      the body and the keyword arguments. */
  function Redirect(to: string, status: Option<int>, body: Option<string>, kwargs: Kwargs,
                    redirects: Dicts.Dict<int, string>): (r: Raised)
    ensures var code := if status.None? || status.value == 0 then 302 else status.value;
      && (r.ResponseRaised? <==> Dicts.HasKey(redirects, code) && !RedirectClash(kwargs))
      && (!Dicts.HasKey(redirects, code) ==> r == InvalidStatus(code))
      && (Dicts.HasKey(redirects, code) && RedirectClash(kwargs) ==> r == DuplicateKeyword)
      && (r.ResponseRaised? ==> r == ResponseRaised(Dicts.Get(redirects, code).value, code, Some(to), body, kwargs))
  {
    var code := if status.None? || status.value == 0 then 302 else status.value;
    match Dicts.Get(redirects, code)
    case None => InvalidStatus(code)
    case Some(cls) =>
      if RedirectClash(kwargs) then DuplicateKeyword
      else ResponseRaised(cls, code, Some(to), body, kwargs)
  }

  /** Leaving the status out, passing the falsy 0, and passing 302 all redirect alike. */
  lemma RedirectDefaultIs302(to: string, body: Option<string>, kwargs: Kwargs, redirects: Dicts.Dict<int, string>)
    ensures Redirect(to, None, body, kwargs, redirects) == Redirect(to, Some(302), body, kwargs, redirects)
    ensures Redirect(to, Some(0), body, kwargs, redirects) == Redirect(to, Some(302), body, kwargs, redirects)
  {
  }

  // ---------------------------------------------------------------------------
  // encoding
  // ---------------------------------------------------------------------------

  /** The `encoding` property: a non-empty charset from the headers wins over the stored
      value. */
  function Encoding(req: Request): (e: string)
    ensures req.charset.Some? && req.charset.value != "" ==> e == req.charset.value
    ensures req.charset.None? || req.charset.value == "" ==> e == req.storedEncoding
  {
    match req.charset
    case Some(cs) => if cs != "" then cs else req.storedEncoding
    case None => req.storedEncoding
  }

  /** The `encoding` setter: only the stored value changes. */
  function SetEncoding(req: Request, value: string): (r: Request)
    ensures r.storedEncoding == value
    ensures r.(storedEncoding := req.storedEncoding) == req
  {
    req.(storedEncoding := value)
  }

  /** Reading after setting gives the value set, unless the headers name a non-empty charset. */
  lemma EncodingAfterSet(req: Request, value: string)
    ensures req.charset.None? || req.charset.value == "" ==> Encoding(SetEncoding(req, value)) == value
    ensures req.charset.Some? && req.charset.value != "" ==> Encoding(SetEncoding(req, value)) == Encoding(req)
  {
  }
}
