/**
 * The opening handshake of src/websocket.c (ws_compute_handshake and
 * ws_handshake_reply): header checks, the accept value of section 4.2.2 of
 * RFC 6455, and the exact bytes of the 101 reply. SHA-1 and base64 are
 * parameters: the model does not look inside them.
 */
module Handshake {
  import opened Wrappers
  import opened Bytes

  /** The GUID appended to the client's key (`magic`). */
  const Guid := "258EAFA5-E914-47DA-95CA-C5AB0DC85B11"

  /** The reply templates of ws_handshake_reply. */
  const TemplateStart := "HTTP/1.1 101 Switching Protocols\r\nUpgrade: websocket\r\nConnection: Upgrade"
  const TemplateAccept := "\r\nSec-WebSocket-Accept: "
  const TemplateSecOrigin := "\r\nSec-WebSocket-Origin: "
  const TemplateLoc := "\r\nSec-WebSocket-Location: ws://"
  const TemplateEnd := "\r\n\r\n"

  /** The request headers, by exact name, as client_get_header finds them. */
  type Headers = map<string, seq<byte>>

  function GetHeader(hs: Headers, name: string): Option<seq<byte>>
  {
    if name in hs then Some(hs[name]) else None
  }

  /** The two foreign routines: SHA-1 over a byte buffer, base64 over a byte buffer. */
  datatype Crypto = Crypto(sha1: seq<byte> -> seq<byte>, base64: seq<byte> -> seq<byte>)

  /** The accept value's length "without \n": one trailing newline is dropped. */
  function DropNewline(out: seq<byte>): (r: seq<byte>)
    ensures |out| > 0 && out[|out| - 1] == 0x0a ==> r + [0x0a] == out
    ensures !(|out| > 0 && out[|out| - 1] == 0x0a) ==> r == out
  {
    if |out| > 0 && out[|out| - 1] == 0x0a then out[..|out| - 1] else out
  }

  /** One trailing newline is removed, and only one: `s + "\n"` gives `s` back, whatever `s` ends with. */
  lemma DropNewlineStripsOne(s: seq<byte>)
    ensures DropNewline(s + [0x0a]) == s
    ensures |DropNewline(s + [0x0a] + [0x0a])| == |s| + 1
  {
    assert (s + [0x0a])[..|s|] == s;
  }

  /**
   * ws_compute_handshake (src/websocket.c:43-90): `Sec-WebSocket-Key` must be
   * present with 16 to 32 characters; the result is base64(SHA-1(key ++ GUID))
   * with a trailing newline removed.
   */
  function ComputeHandshake(hs: Headers, crypto: Crypto): Option<seq<byte>>
  {
    match GetHeader(hs, "Sec-WebSocket-Key")
    case None => None
    case Some(key) =>
      if |key| < 16 || |key| > 32 then None
      else Some(DropNewline(crypto.base64(crypto.sha1(key + Ascii(Guid)))))
  }

  /** `Origin` if the request has it (even empty), else `Sec-WebSocket-Origin`, else none. */
  function OriginHeader(hs: Headers): Option<seq<byte>>
  {
    if "Origin" in hs then Some(hs["Origin"]) else GetHeader(hs, "Sec-WebSocket-Origin")
  }

  /** `origin && origin_sz`: the optional header line is sent only for a non-empty origin. */
  predicate SendsOrigin(origin: Option<seq<byte>>)
  {
    origin.Some? && |origin.value| > 0
  }

  /** The bytes memcpy'd into the reply buffer, in order (src/websocket.c:148-175). */
  function Reply(accept: seq<byte>, origin: Option<seq<byte>>, host: seq<byte>, path: seq<byte>): seq<byte>
  {
    Ascii(TemplateStart)
    + Ascii(TemplateAccept) + accept
    + (if SendsOrigin(origin) then Ascii(TemplateSecOrigin) + origin.value else [])
    + Ascii(TemplateLoc) + host + path
    + Ascii(TemplateEnd)
  }

  /**
   * `sz` as src/websocket.c:133-137 precomputes it before malloc, each
   * `sizeof(template)-1` written out: 73, 24, 24, 31 and 4.
   */
  function PrecomputedSize(acceptSz: nat, origin: Option<seq<byte>>, hostSz: nat, pathSz: nat): nat
  {
    73
    + 24 + acceptSz
    + (if SendsOrigin(origin) then 24 + |origin.value| else 0)
    + 31 + hostSz + pathSz
    + 4
  }

  /**
   * ws_handshake_reply's result (src/websocket.c:111-176): None when `Host` is
   * missing or empty, the path is empty, or ws_compute_handshake fails;
   * otherwise the reply bytes.
   */
  function HandshakeResponse(hs: Headers, path: seq<byte>, crypto: Crypto): Option<seq<byte>>
  {
    var host := GetHeader(hs, "Host");
    if host.None? || |host.value| == 0 || |path| == 0 then None
    else
      match ComputeHandshake(hs, crypto)
      case None => None
      case Some(accept) => Some(Reply(accept, OriginHeader(hs), host.value, path))
  }

  // ---------------------------------------------------------------------
  // Properties of the handshake
  // ---------------------------------------------------------------------

  /** The bytes copied are exactly the bytes allocated: the reply never overruns `sz`. */
  lemma ReplyFillsPrecomputedSize(accept: seq<byte>, origin: Option<seq<byte>>, host: seq<byte>, path: seq<byte>)
    ensures |Reply(accept, origin, host, path)| == PrecomputedSize(|accept|, origin, |host|, |path|)
  {
  }

  /**
   * The upgrade is refused exactly when `Host` is absent or empty, the path
   * is empty, or `Sec-WebSocket-Key` is absent or outside 16..32 characters.
   */
  lemma HandshakeRefused(hs: Headers, path: seq<byte>, crypto: Crypto)
    ensures HandshakeResponse(hs, path, crypto).None? <==>
      || "Host" !in hs || |hs["Host"]| == 0
      || |path| == 0
      || "Sec-WebSocket-Key" !in hs
      || |hs["Sec-WebSocket-Key"]| < 16 || |hs["Sec-WebSocket-Key"]| > 32
  {
  }

  /** Where each of five concatenated pieces sits in the whole. */
  lemma Pieces(a: seq<byte>, b: seq<byte>, c: seq<byte>, d: seq<byte>, e: seq<byte>)
    ensures var r := a + b + c + d + e;
      && |r| == |a| + |b| + |c| + |d| + |e|
      && r[..|a|] == a
      && r[|a|..|a| + |b|] == b
      && r[|a| + |b|..|a| + |b| + |c|] == c
      && r[|a| + |b| + |c|..|a| + |b| + |c| + |d|] == d
      && r[|r| - |e|..] == e
  {
    var r := a + b + c + d + e;
    var ab := a + b;
    var abc := ab + c;
    var abcd := abc + d;
    assert r == abcd + e;
    assert r[..|abcd|] == abcd;
    assert abcd[..|abc|] == abc;
    assert abc[..|ab|] == ab;
    assert ab[..|a|] == a;
    assert r[..|a|] == a;
    assert r[|a|..|a| + |b|] == ab[|a|..];
    assert r[|ab|..|abc|] == abc[|ab|..];
    assert r[|abc|..|abcd|] == abcd[|abc|..];
  }

  /** Where each part sits in the reply buffer. */
  lemma ReplyLayout(accept: seq<byte>, origin: Option<seq<byte>>, host: seq<byte>, path: seq<byte>)
    ensures
      var r := Reply(accept, origin, host, path);
      var lines := if SendsOrigin(origin) then Ascii(TemplateSecOrigin) + origin.value else [];
      var tail := Ascii(TemplateLoc) + host + path + Ascii(TemplateEnd);
      && |r| == 73 + 24 + |accept| + |lines| + |tail|
      && r[..73] == Ascii(TemplateStart)
      && r[73..97] == Ascii(TemplateAccept)
      && r[97..97 + |accept|] == accept
      && r[97 + |accept|..97 + |accept| + |lines|] == lines
      && r[|r| - |tail|..] == tail
  {
    var start, acc := Ascii(TemplateStart), Ascii(TemplateAccept);
    var lines := if SendsOrigin(origin) then Ascii(TemplateSecOrigin) + origin.value else [];
    var tail := Ascii(TemplateLoc) + host + path + Ascii(TemplateEnd);
    assert Reply(accept, origin, host, path) == start + acc + accept + lines + tail;
    assert |start| == 73 && |acc| == 24;
    Pieces(start, acc, accept, lines, tail);
  }

  /**
   * An accepted upgrade: the reply is the 101 status block, then the accept
   * line carrying base64(SHA-1(key ++ GUID)) without its trailing newline,
   * then the origin line iff the chosen origin is non-empty (`Origin` taking
   * precedence over `Sec-WebSocket-Origin`), then
   * `Sec-WebSocket-Location: ws://` host path and the empty line.
   */
  lemma HandshakeAccepted(hs: Headers, path: seq<byte>, crypto: Crypto)
    requires HandshakeResponse(hs, path, crypto).Some?
    ensures
      var key := hs["Sec-WebSocket-Key"];
      var origin := if "Origin" in hs then Some(hs["Origin"])
                    else if "Sec-WebSocket-Origin" in hs then Some(hs["Sec-WebSocket-Origin"]) else None;
      && 16 <= |key| <= 32
      && "Host" in hs && |hs["Host"]| > 0 && |path| > 0
      && HandshakeResponse(hs, path, crypto).value ==
           Reply(DropNewline(crypto.base64(crypto.sha1(key + Ascii(Guid)))), origin, hs["Host"], path)
  {
  }
}
