# railway / atom core in Dafny

This project models the small, pure pieces of logic inside the `railway` HTTP/WebSocket
stack and the `atom` web framework built on it, and proves properties about them.

- **The WebSocket opening handshake (RFC 6455), from both sides.**
  - The client side is `WebsocketHooker`/`TCPHooker` (module `Hooker`). It covers:
    - the `host[:port]` split with its per-scheme default ports;
    - the upgrade request headers, built around a fresh base64 key;
    - the accept/reject decision on the server's reply: status 101, then `Connection`, then `Upgrade`;
    - the close-call defaults.
  - The server side is `Request` (module `Request`). It covers:
    - the upgrade-request validator `is_websocket`;
    - the accept token, which is base64 of SHA-1 of the key followed by the GUID;
    - the headers of the 101 reply;
    - `abort`/`redirect` status validation;
    - the `encoding` property.
  - Module `Handshake` joins the two sides. The client's request passes the server's check, and the server's reply passes the client's check.
- **The `Client` connection state machine** (module `Client`): the constructor's argument check, the `_ensure_connection` guard and its fixed check order, and the `connect`/`write`/`writelines`/`receive`/`close` transitions.
- **Multipart form data** (module `FormData`): `_get`, `Disposition`, `add_file`/iteration, and `from_request`'s boundary derivation and part splitting.
- **The HTTP exception registry** (module `Errors`): the `status` decorator, `HTTPException` and `abort`.
- **Settings** (module `Settings`): upper-casing lookups, `from_env_vars` and the OAuth `Authentication` store.
- **`Application` pieces** (module `App`): argument conversion, route registration and the shard registry.

Shared building blocks:

- `Strings` models Python's `str.split`, `str.join`, `str.strip` with a character set, ASCII `lower`/`upper`, and `int()`.
- `Dicts` is an insertion-ordered dictionary with distinct keys, mirroring Python's `dict`.
- `Base64` is the canonical RFC 4648 section 4 alphabet with padding. It has both round trips proved.
- `Http` holds the response record.
- `Wrappers` holds `Option` and `Result`.

How the source is modelled:

- An operation that raises becomes a `Result`, or a `(state, Option<error>)` pair when state changes before the raise.
- SHA-1 is a function parameter.
- `os.urandom(16)` is an input of 16 bytes.
- Socket I/O becomes parameters: whether a connection attempt succeeds, and which bytes a read delivers.

## Model

| member | source | states |
|---|---|---|
| Hooker.SplitHostPort | railway/http/hooker.py:34-37 | A host that splits on `:` into exactly two pieces gives (name, int(port)), and a non-numeric port is a conversion error. Any other piece count keeps the whole text as the host with port 80, or 443 for TLS. |
| Hooker.SplitHostPortRoundTrip | railway/http/hooker.py:49-52 | `name:port` with a colon-free name splits back into that name and port. A colon-free host gets the scheme's default port. |
| Hooker.CreateConnection | railway/http/hooker.py:31-58 | A failed `ensure()` or a bad port leaves the hooker unchanged. Otherwise the client is built for the split host and port, with an SSL context exactly for TLS. `connected` is set only when the connection succeeds. |
| Hooker.Write | railway/http/hooker.py:68-69 | Without a client this is an attribute error. Otherwise the client's own guard decides, and the data is appended to what was sent. |
| Hooker.Read | railway/http/hooker.py:71-76 | Without a client the result is empty bytes. Otherwise it is the client's `receive`: the delivered bytes, or the guard's error. |
| Hooker.TcpClose | railway/http/hooker.py:84-88 | It succeeds exactly when the client's `close` does. Afterwards `connected` is false and `closed` is true, and the websocket is untouched. |
| Hooker.TcpCloseNotIdempotent | railway/http/hooker.py:84-88 | A second TCP close raises the client's "closed" error. |
| Hooker.ConnectThenClose | railway/http/hooker.py:31-88 | After a successful connection the hooker is connected. A TCP close then succeeds and leaves it not connected and closed. After that, a write and a second close both raise the client's "closed" error. |
| Hooker.FailedReconnectKeepsFlag | railway/http/hooker.py:39-42 | When a connected hooker reconnects and the connection fails, the hooker stays flagged connected while its new client is not connected, so a write raises "not connected". |
| Hooker.RunKeepsInv | railway/http/hooker.py:31-186 | Over any sequence of hooker calls, being connected or having a websocket implies that a client exists. Once `closed` is set, no later call clears it. |
| Hooker.GenerateKey | railway/http/hooker.py:108-109 | The key for 16 random bytes is 24 characters: 22 alphabet digits then `==`. It decodes back to those bytes. |
| Hooker.UpgradeHeaders | railway/http/hooker.py:121-127 | The request carries exactly Upgrade: websocket, Connection: Upgrade, the key and version 13, in that order. |
| Hooker.CreateWebsocket | railway/http/hooker.py:111-118 | A websocket exists exactly when the protocol has both a reader and a writer. Without a client or protocol it is an attribute error. |
| Hooker.CheckReply | railway/http/hooker.py:140-170 | A reply is accepted iff the status is 101, the lower-cased `Connection` is "upgrade" and the lower-cased `Upgrade` is "websocket". Checks run in that order, the first failure is reported, and a missing header fails. |
| Hooker.CheckReplyIgnoresCase | railway/http/hooker.py:152-163 | With both headers present, acceptance depends only on the lower-cased header values. |
| Hooker.WsCloseDefaults | railway/http/hooker.py:180-184 | Closing with no data and no code is the same call as closing with empty data and code 0, and as closing with code NORMAL. |
| Hooker.WsClose | railway/http/hooker.py:176-186 | Without a websocket nothing changes. Otherwise one close call is made, with a falsy code replaced by NORMAL and falsy data by empty bytes. The TCP flags and the client are unchanged. |
| Hooker.VerifyHandshake | railway/http/hooker.py:140-174 | An accepted reply leaves the hooker unchanged. A rejected one first closes the websocket with the defaults, then raises the failure the check found. |
| Hooker.Handshake | railway/http/hooker.py:120-138 | The upgrade request is sent with a fresh key, and a failed write raises its error and changes nothing. After a successful write the outcome depends only on the parsed reply. An accepted reply leaves the created websocket as the result. A rejected reply closes the websocket and raises a handshake error naming the check that failed. |
| Handshake.ClientGetsWebsocket | railway/http/hooker.py:120-138 | When the write succeeds and the server answers with its 101 reply, the handshake yields the fresh websocket, whatever extensions or subprotocols the reply lists. |
| Request.New | railway/request.py:151-176 | The request keeps its method, version and headers. Its encoding starts as "utf-8" unless the headers carry a charset. |
| Request.IsWebsocket | railway/request.py:255-291 | The result is false unless the method is exactly GET, the version exactly HTTP/1.1 and all five headers are present. It is true iff, in addition, the lower-cased Upgrade is "websocket", the version is "13" and the key decodes to exactly 16 bytes. A key that is not base64 raises. |
| Request.ParseWebsocketKey | railway/request.py:385-395 | It raises unless the request is a WebSocket request. Otherwise the result is 28 characters ending in one pad, and it decodes to SHA-1 of key + GUID. |
| Request.AcceptTokenShape | railway/request.py:394-395 | The base64 text of any 20-byte digest is 27 alphabet digits and one `=`. |
| Request.ReplyHeadersSpec | railway/request.py:236-244 | The reply headers are Upgrade, Connection and Sec-WebSocket-Accept, with their values. Extensions/Protocol headers follow iff their argument is given, and each is its list joined with ", ". |
| Request.Handshake | railway/request.py:233-244 | It fails exactly when `parse_websocket_key` does, with the same error. Otherwise the response is a 101 carrying those reply headers. |
| Request.ExtensionsRoundTrip | railway/request.py:241 | A non-empty list of comma-free extensions joined with ", " splits back into the list. |
| Request.Abort | railway/request.py:478-484 | A status below 400 is a ValueError. Otherwise a `reason` keyword clashes with the message and raises a TypeError. Without a class for the status the call fails, and with one the class is raised with the message as its reason and the keyword arguments passed through. |
| Request.AbortRaisesListedClass | railway/request.py:478-484 | A response is raised exactly when the status is at least 400, has a registered class and no `reason` keyword is given. The raised class is the one registered for the status. |
| Request.Redirect | railway/request.py:443-453 | A missing or zero status means 302. A status without a redirection class is a ValueError. A `location` or `body` keyword clashes and raises a TypeError. Otherwise the class is raised with the location, the body and the keyword arguments passed through. |
| Request.RedirectDefaultIs302 | railway/request.py:443-446 | Redirecting with no status, or with status 0, is the same as redirecting with 302. |
| Request.Encoding | railway/request.py:296-305 | A non-empty header charset wins, otherwise the stored value is used. |
| Request.SetEncoding | railway/request.py:307-309 | The setter changes the stored value and nothing else. |
| Request.EncodingAfterSet | railway/request.py:296-309 | Without a charset, or with an empty one, reading after setting gives the set value. With a non-empty charset the setter has no visible effect. |
| Handshake.ClientRequestHeaders | railway/request.py:265-273 | The client's request, with the Host the request builder adds, has all five headers the server requires. It carries the client's key and version "13". |
| Handshake.ClientKeyAccepted | railway/request.py:285-289 | Whatever the random bytes, the server accepts the client's upgrade request. In particular the generated key decodes to exactly 16 bytes. |
| Handshake.ServerReplyAccepted | railway/http/hooker.py:140-170 | The client accepts the server's 101 reply whatever extensions or subprotocols it lists. The reply's accept token decodes to SHA-1 of the client's key + GUID. |
| Handshake.AcceptTokenIgnored | railway/http/hooker.py:140-170 | The client's decision does not depend on the Sec-WebSocket-Accept header. |
| Client.ConnectionMade | railway/client/__init__.py:36-40 | After `connection_made` the protocol has an empty reader and a writer. |
| Client.DataReceived | railway/client/__init__.py:42-46 | Data arriving before a reader exists is dropped. Otherwise it is appended to the reader. |
| Client.New | railway/client/__init__.py:92-114 | A socket together with a truthy host or port is a ValueError, and only that combination fails. A new client keeps its arguments, is neither connected nor closed, and has no protocol. |
| Client.NewSatisfiesInv | railway/client/__init__.py:111-114 | A freshly constructed client satisfies the state invariant. |
| Client.EnsureConnection | railway/client/__init__.py:138-143 | The guard passes iff the client is connected and not closed. "Not connected" is reported before "closed". |
| Client.Connect | railway/client/__init__.py:166-179 | A protocol is always installed first. A success sets the connected flag. A failure leaves the flag as it was. |
| Client.CallError | railway/client/__init__.py:192-193 | A guarded call raises the guard's error first, then the attribute error of a protocol without streams. |
| Client.Write | railway/client/__init__.py:181-193 | It succeeds iff the guard passes and the streams exist, and the data is appended to what was sent. Otherwise it raises the call error. |
| Client.WriteLines | railway/client/__init__.py:195-207 | Same guard as `write`. The chunks go out concatenated. |
| Client.WriteLinesIsWrites | railway/client/__init__.py:195-207 | `writelines` of chunks equals a `write` of each chunk in turn. |
| Client.Receive | railway/client/__init__.py:209-224 | Same guard as `write`. It returns the bytes the transport delivers. |
| Client.Close | railway/client/__init__.py:226-235 | Same guard as `write`. Afterwards the client is closed but still flagged connected, with nothing else changed. |
| Client.CloseNotIdempotent | railway/client/__init__.py:226-235 | After a close, a second close, a write, a writelines or a receive raises "closed". |
| Client.RunKeepsInv | railway/client/__init__.py:138-235 | Under any sequence of calls, a connected client has a protocol, a closed client is flagged connected, and closed stays closed. |
| Client.FailedReconnect | railway/client/__init__.py:173-178 | A failed reconnect of a live client leaves it flagged connected but without streams. Every guarded call then raises the attribute error. |
| Client.CreateConnection | railway/client/__init__.py:237-254 | `create_connection` is the constructor without a socket, so it never raises and starts neither connected nor closed. |
| FormData.GetItem | atom/formdata.py:18-22 | Python indexing: an index in range, counting negative indexes from the end, gives that element. Any other index gives None. |
| FormData.GetItemBothEnds | atom/formdata.py:18-22 | An element is reached both by its index and by its negative index. |
| FormData.ContentTypeIsPrefix | atom/formdata.py:24-31 | The content type is the header's prefix up to the first "; ". With no separator it is the whole header, and there is no name. |
| FormData.DispositionRoundTrip | atom/formdata.py:24-39 | For semicolon-free parts, the header "ct; name; filename" gives back ct, name and filename unchanged. |
| FormData.AddFile | atom/formdata.py:48-49 | `add_file` appends exactly one (file, disposition) pair and keeps the earlier ones. |
| FormData.IterationOrder | atom/formdata.py:45-49 | Iterating after any sequence of `add_file` calls yields the pairs in insertion order. |
| FormData.Delimiter | atom/formdata.py:60-61 | The delimiter is "--" followed by the parameter with its leading and trailing characters from "boundary=" removed. |
| FormData.DelimiterOfPlainBoundary | atom/formdata.py:61 | For a boundary that neither starts nor ends with one of those characters, the delimiter is "--" plus the boundary. |
| FormData.DelimiterEatsBoundaryLetters | atom/formdata.py:61 | A boundary made only of those characters is stripped away completely, so the delimiter is just "--". |
| FormData.PartEntries | atom/formdata.py:66-85 | An empty part or one `find_headers` rejects contributes no file. Otherwise it contributes exactly one file carrying the part's body. |
| FormData.CollectAppend | atom/formdata.py:66-85 | The files of two runs of parts are the files of the first run followed by those of the second. |
| FormData.CollectBound | atom/formdata.py:66-85 | There are never more files than non-empty parts. |
| FormData.CollectParts | atom/formdata.py:66-85 | The loop over the parts collects exactly each part's contribution, in order. |
| FormData.FromRequest | atom/formdata.py:51-87 | A missing or empty Content-Type gives an empty form. A Content-Type that does not split on "; " into two pieces is an error. Otherwise the form holds the files of the body's parts, in order. |
| Strings.Strip | atom/formdata.py:63 | The result is the text between the maximal leading and trailing runs of characters from the set. It neither starts nor ends with one of them. |
| Strings.StripIdempotent | atom/formdata.py:61-63 | Stripping twice with the same set is stripping once. |
| Strings.JoinSplit | atom/formdata.py:64 | Joining the pieces of a split with the separator rebuilds the text. |
| Strings.SplitJoin | atom/formdata.py:27 | Pieces free of the separator's first character, once joined, split back into themselves. |
| Strings.SplitOnce | atom/settings.py:70 | `split(sep, maxsplit=1)` gives two pieces around the first occurrence iff the separator occurs, and the whole text otherwise. |
| Strings.ParseIntOfDecimal | railway/http/hooker.py:39 | `int()` of a natural number's decimal text is that number. |
| Base64.DecodeEncode | railway/http/hooker.py:109 | Decoding the base64 text of any bytes gives those bytes back. |
| Base64.EncodeDecode | railway/request.py:286 | Text that decodes is exactly the encoding of what it decodes to, so decoding is canonical. |
| Base64.DecodeIffEncode | railway/request.py:286 | Text decodes to given bytes iff it is their encoding. |
| Errors.Decorated | atom/errors.py:24-29 | `status(code)` sets the class's code only when it has no truthy code, own or inherited, and keeps the rest of the class. |
| Errors.Status | atom/errors.py:23-34 | The decorated class is registered under its effective code, overwriting any earlier entry for that code. Every other entry is unchanged. |
| Errors.LoadAppends | atom/errors.py:23-34 | Decorating classes without codes of their own under distinct new codes appends them to the registry in order. |
| Errors.ModuleRegistryContents | atom/errors.py:65-89 | After the module loads, the registry is exactly 404 NotFound, 400 BadRequest, 403 Forbidden, 401 Unauthorized and 302 Found. |
| Errors.ModuleRegistryLookup | atom/errors.py:65-89 | Those five codes find their classes and every other code finds nothing. |
| Errors.Instantiate | atom/errors.py:50-62 | An exception's body is its reason and its status is its class's code. The content type defaults to "text/plain". |
| Errors.Abort | atom/errors.py:99-107 | Without a truthy message the code must be an HTTP status, and its description becomes the message. The registered class is chosen, falling back to HTTPException. A class that needs a location fails. The exception is returned, not raised. |
| Errors.AbortOnModuleRegistry | atom/errors.py:85-107 | With the loaded registry and a message, `abort(302)` always fails for want of a location. The four other registered codes give their classes with that status, and any other code gives a plain HTTPException. |
| Settings.SetCredentialsFor | atom/settings.py:23-35 | The returned record holds the three arguments and is stored under the service. Other services are unchanged, and a new service is appended to the iteration order. |
| Settings.GetCredentialsFor | atom/settings.py:37-38 | The result is the stored record, or None exactly for an unknown service. |
| Settings.GetAfterSet | atom/settings.py:23-38 | Reading back after a set gives the new record for that service and the old answer for every other. |
| Settings.ItemsAreLookups | atom/settings.py:40-41 | Iteration yields each service once, paired with what the lookup returns, and every known service is iterated. |
| Settings.New | atom/settings.py:44-49 | Falsy defaults give an empty mapping and other defaults are stored as given. The credentials store starts empty. |
| Settings.GetItem | atom/settings.py:51-52 | A lookup finds the value stored under the upper-cased key, and otherwise raises KeyError naming that key. |
| Settings.GetItemIgnoresCase | atom/settings.py:51-52 | Keys that upper-case alike, such as 'host' and 'HOST', give the same answer. |
| Settings.UpperCaseKeyFound | atom/settings.py:51-52 | A stored upper-case key is found both by itself and by its lower-case spelling. |
| Settings.LowerCaseKeyUnreachable | atom/settings.py:51-52 | A setting stored under a key with a lower-case letter can never be read. |
| Settings.ScanEnv | atom/settings.py:68-70 | The scan fails only for an empty prefix over a non-empty environment, where the split separator is empty. |
| Settings.FromEnvVars | atom/settings.py:63-72 | The result is a fresh, empty Settings, unless an empty prefix meets a non-empty environment. |
| Settings.FromEnvVarsIgnoresEnvironment | atom/settings.py:63-72 | The environment's contents never reach the settings. |
| App.Convert | atom/app.py:124-139 | Conversion succeeds iff every parameter's converter accepts its same-named argument. On failure, the error names the first parameter that fails, and all earlier parameters convert. |
| App.ConvertValues | atom/app.py:124-139 | On success there is one value per parameter whose name is an argument key, in signature order. Each is the parameter's converter applied to that argument. |
| App.ScanIsLookup | atom/app.py:129-137 | The inner loop over the arguments acts like a lookup of the parameter's name in a dict with distinct keys. |
| App.ConvertArgs | atom/app.py:124-139 | The nested loops compute exactly `Convert`. |
| App.AddRoute | atom/app.py:320-343 | Checks run in order: non-Route without `websocket`, non-coroutine handler, route already present, then non-WebsocketRoute with `websocket`. The first failure wins. On success exactly one router entry is appended and the route is returned. |
| App.AddRouteTwice | atom/app.py:331-332 | Adding a route that was just added is rejected as already present. |
| App.AddRouteKeepsUnique | atom/app.py:320-343 | Registration never puts two equal routes in the router. |
| App.RegisterShard | atom/app.py:584-588 | The shard is stored under its name, replacing any shard of that name, and returned. Other names are unchanged. |
| App.GetShard | atom/app.py:626-632 | The result is the shard stored under the name, or None exactly for an unknown name. |
| App.ShardCount | atom/app.py:200-202 | The count is the number of distinct registered names. |
| App.RegisterThenGet | atom/app.py:584-632 | After registering, lookups give the new shard under its name and the old answer elsewhere. The count grows by one exactly when the name was new. |
| Dicts.SetSpec | atom/settings.py:34 | Assigning a key keeps the keys distinct and makes the key map to the value. Other keys are unchanged, and the length grows only for a new key. |
| Dicts.SetKeepsOrder | atom/app.py:586 | Reassigning a key keeps the iteration order, and a new key goes to the end. |
| Dicts.LenIsKeyCount | atom/app.py:202 | The length of a dict with distinct keys is its number of keys. |

## Left out

- Sockets, TLS, `StreamReader`/`StreamWriter`, event loops, timeouts, flow control (`pause_writing`/`resume_writing`), `connection_lost` and `wait_for_close` are I/O. A connection attempt is a success/failure input, and a read returns bytes given as input.
- SHA-1 internals and `os.urandom` are not modelled. SHA-1 is a function parameter returning 20 bytes, and the random bytes are an input.
- Base64.Decode: models canonical RFC 4648 section 4 decoding only. Python's lenient `b64decode`, which discards non-alphabet characters, is left out, and any non-canonical text counts as a decoding error.
- Strings.Lower and Strings.Upper: map ASCII letters only. Python's full Unicode case mapping is left out.
- Strings.ParseInt: accepts an optional sign and ASCII digits only. `int()`'s whitespace, underscores and Unicode digits are left out.
- The `Headers` class is not part of this model. It is taken to be an exact-key, insertion-ordered map, and its `charset` is an optional input of a request.
- `find_headers`, `build_request`, `build_response`, `HTTPStatus` descriptions and the `responses`/`redirects` tables are collaborators outside this model. They are function or map parameters.
- The `Response` class is not part of this model. `Request.Handshake` takes `SwitchingProtocols()` to start with no headers and builds the headers it adds.
- Request.Abort and Request.Redirect: the raised response records the class name, status, location, body or message, and the keyword arguments passed through. The response classes' constructors are not part of this model, so a keyword a constructor rejects is not modelled. The only keyword error modelled is the duplicate `reason`, `location` or `body`.
- App.Convert: models a converter that raises `ValueError` as returning None. Any other exception raised by the annotation call leaves `_convert` and is not modelled. An example is the `TypeError` raised when `inspect.Parameter.empty` is called for an unannotated parameter.
- `TCPHooker.ensure()` is not part of this model. Its outcome is a boolean input.
- `Sec-WebSocket-Version` is sent as the integer 13. The model writes it as the header text "13", because the request builder that turns it into text is not part of this model.
- The client never compares `Sec-WebSocket-Accept` with the expected token, so the model does not either.
- The WebSocket GUID follows section 1.3 of RFC 6455, because railway/utils.py is not part of this model. NORMAL is close code 1000 from section 7.4.1, because the websockets module is not part of this model.
- Frame encoding in `Websocket.close` is not modelled. Each close call is recorded as (data, code).
- Streaming request bodies (`stream`, `read`, `text`, `json`, `send`) are I/O. `FormData.FromRequest` takes the text of `request.text()` as input.
- `File` wraps the body in `io.BytesIO`. The model keeps the body bytes.
- `isinstance` checks for `Route`, `WebsocketRoute`, `ssl.SSLContext` and `inspect.iscoroutinefunction` are flags on the modelled objects.
- Route equality in `route in self.router.routes` is taken to be equality of (path, method, handler). The `Router` class is not part of this model.
- App.ConvertArgs: requires distinct argument names, which every Python dict has.
- `Shard._inject` only wires the shard to the application and is left out.
- `Settings.from_file` imports a module by name, which is outside a pure model.
- `ImmutableMapping` is taken to store the keys it is given as they are.
- `SETTING_ENV_PREFIX` is a parameter, and the environment is the list of its variable names.
- The application's constructor discards the result of `Settings.from_env_vars()`, and that is not modelled beyond `FromEnvVars` itself.
- The async orchestration of `Application` (`start`, `run`, `close`, `dispatch`, `wait_for`, `_handler`, reloading), JWT helpers, atom/utils.py and railway/compat.py are concurrency or foreign libraries.

Behaviour of the code that the model keeps, though RFC 6455 or the method names suggest otherwise:

- `Client.close` is not idempotent: a second call fails the guard.
- `Client.close` leaves the client flagged connected.
- The client does no accept-token check, although section 4.1 of RFC 6455 requires a client to fail the connection when `Sec-WebSocket-Accept` does not match.
- `WebsocketHooker.close`, which `_close` calls on a failed handshake, does not touch the TCP flags.
- Both strips in `from_request` strip a character set, not a prefix or suffix.
