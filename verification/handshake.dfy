/** The two halves of the opening handshake put together: the client of
    railway/http/hooker.py talking to the server of railway/request.py. The request line
    and the `Host` header, which `build_request` adds, are taken as given. */
module Handshake {
  import opened Wrappers
  import Strings
  import Dicts
  import Base64
  import Http
  import Hooker
  import Request

  /** The upgrade request as the server receives it: the client's upgrade headers plus
      `Host`. */
  function ClientRequest(host: string, random: Hooker.Nonce, charset: Option<string>): (req: Request.Request)
    ensures req.verb == "GET" && req.version == "HTTP/1.1"
  {
    var hs := Dicts.Set(Hooker.UpgradeHeaders(Hooker.GenerateKey(random)), "Host", host);
    Request.New("GET", "HTTP/1.1", hs, charset)
  }

  /** The server finds the header where the client put it, and `Host` where the request
      builder put it. */
  lemma ClientRequestHeaders(host: string, random: Hooker.Nonce, charset: Option<string>)
    ensures var hs := ClientRequest(host, random, charset).headers;
      && Request.HasAll(hs)
      && Dicts.Get(hs, "Upgrade") == Some("websocket")
      && Dicts.Get(hs, "Sec-WebSocket-Version") == Some("13")
      && Dicts.Get(hs, "Sec-WebSocket-Key") == Some(Hooker.GenerateKey(random))
  {
    var key := Hooker.GenerateKey(random);
    var up := Hooker.UpgradeHeaders(key);
    assert "Host" !in Dicts.Keys(up);
    Dicts.InKeys(up, "Host");
    Dicts.SetLookups(up, "Host", host);
    var hs := Dicts.Set(up, "Host", host);
    assert Dicts.Get(hs, "Upgrade") == Some("websocket");
    assert Dicts.Get(hs, "Connection") == Some("Upgrade");
    assert Dicts.Get(hs, "Sec-WebSocket-Version") == Some("13");
    assert Dicts.Get(hs, "Sec-WebSocket-Key") == Some(key);
    assert Request.HasAll(hs) by {
      forall i | 0 <= i < |Request.Required|
        ensures Dicts.HasKey(hs, Request.Required[i])
      {
        assert Request.Required[i] in ["Host", "Upgrade", "Connection", "Sec-WebSocket-Version", "Sec-WebSocket-Key"];
      }
    }
  }

  /** Section 4.1 against section 4.2.1 of RFC 6455: whatever the random bytes, the
      client's upgrade request is an opening handshake to the server; in particular its
      key decodes to exactly 16 bytes. */
  lemma ClientKeyAccepted(host: string, random: Hooker.Nonce, charset: Option<string>)
    ensures Request.IsWebsocket(ClientRequest(host, random, charset)) == Ok(true)
  {
    ClientRequestHeaders(host, random, charset);
    Hooker.LowerLiterals();
  }

  /** The server's 101 reply to that request, as the client receives it. */
  function ServerReply(host: string, random: Hooker.Nonce, sha1: string -> Request.Digest,
                       extensions: Option<seq<string>>, subprotocols: Option<seq<string>>): (resp: Http.Response)
    ensures resp.status == Http.SwitchingProtocols
  {
    ClientKeyAccepted(host, random, None);
    Request.Handshake(ClientRequest(host, random, None), sha1, extensions, subprotocols).value
  }

  /** Section 4.2.2 against section 4.1 of RFC 6455: the client accepts the server's 101
      reply, whatever extensions or subprotocols it lists. The reply carries the accept
      token computed from the client's key, although the client never compares it. */
  lemma ServerReplyAccepted(host: string, random: Hooker.Nonce, sha1: string -> Request.Digest,
                            extensions: Option<seq<string>>, subprotocols: Option<seq<string>>)
    ensures Hooker.CheckReply(ServerReply(host, random, sha1, extensions, subprotocols)).None?
    ensures var accept := Dicts.Get(ServerReply(host, random, sha1, extensions, subprotocols).headers, "Sec-WebSocket-Accept");
      && accept.Some?
      && Base64.Decode(accept.value) == Some(sha1(Hooker.GenerateKey(random) + Request.Guid))
  {
    var req := ClientRequest(host, random, None);
    ClientKeyAccepted(host, random, None);
    ClientRequestHeaders(host, random, None);
    var accept := Request.ParseWebsocketKey(req, sha1).value;
    Request.ReplyHeadersSpec(accept, extensions, subprotocols);
    Hooker.LowerLiterals();
  }

  /** A reply the client accepts may still carry a wrong accept token: the decision does
      not depend on `Sec-WebSocket-Accept` at all. */
  lemma AcceptTokenIgnored(resp: Http.Response, token: string)
    ensures Hooker.CheckReply(resp) ==
            Hooker.CheckReply(resp.(headers := Dicts.Set(resp.headers, "Sec-WebSocket-Accept", token)))
  {
    Dicts.GetSetOther(resp.headers, "Sec-WebSocket-Accept", token, "Connection");
    Dicts.GetSetOther(resp.headers, "Sec-WebSocket-Accept", token, "Upgrade");
  }

  /** The whole exchange from the client's side: once the upgrade request is written, a
      reply that is the server's answer to that very request gives the hooker a fresh
      websocket, whatever extensions or subprotocols the server lists. */
  lemma ClientGetsWebsocket(h: Hooker.HookerState, path: string, host: string, random: Hooker.Nonce,
                            delivered: seq<Base64.byte>,
                            encode: (string, string, string, Http.Headers) -> seq<Base64.byte>,
                            parse: seq<Base64.byte> -> Http.Response,
                            sha1: string -> Request.Digest,
                            extensions: Option<seq<string>>, subprotocols: Option<seq<string>>)
    requires Hooker.Write(h, encode("GET", host, path, Hooker.UpgradeHeaders(Hooker.GenerateKey(random)))).Ok?
    requires parse(delivered) == ServerReply(host, random, sha1, extensions, subprotocols)
    ensures Hooker.Handshake(h, path, host, random, delivered, encode, parse).1 == Ok(Some(Hooker.Websocket([])))
  {
    ServerReplyAccepted(host, random, sha1, extensions, subprotocols);
  }
}
