# webdis WebSocket core, modelled in Dafny

This project models the server side of the WebSocket protocol in webdis's
`src/websocket.c`, and proves properties of that model. The code covers two
parts of RFC 6455:

- the base framing of section 5, with the client masking of section 5.3;
- the opening handshake of section 4.2.

The model follows the C code as it is written, including the places where it
departs from the RFC (see "Divergences").

Modules, one file each:

- `Wrappers`: `Option`, which stands in for a pointer that may be NULL.
- `Bytes`: bytes as the values 0..255, and the conversions between integers
  and bytes:
  - `ntohs`/`htons`;
  - the repository's own `webdis_ntohl64`/`webdis_htonl64` macros;
  - `& 0x80`, `& 0x7f` and `^` on bytes.
- `Decoder`: `ws_parse_data`, `ws_msg_new` and `ws_msg_add`.
  - `ws_msg_new` is the constant `NewMsg`: an empty payload and a zero total.
  - `ws_msg_free` is setting the accumulator to `None`, in `Connection.Continue`
    and in `Client.AddData`. Freeing the payload memory is not modelled.
  - `Parse` is the function the code computes.
  - `ParseData` and `MsgAdd` are the methods that compute it. `MsgAdd` copies
    the new bytes into an array, and `ApplyMask` runs the in-place XOR loop
    over it.
  - `ClientFrame` is a reference encoder for masked client frames, used to
    state what the decoder accepts. It follows webdis's own byte-reversed
    convention for the 64-bit length, not network order. A client frame with
    the length in network order is treated apart
    (`Decoder.NetworkOrderClientFrameWaits`).
- `Encoder`: the frame bytes that `ws_frame_and_send_response` builds.
- `Handshake`: `ws_compute_handshake` and the reply of `ws_handshake_reply`.
  SHA-1 and base64 are parameters.
- `Dispatch`: the path routing of `ws_execute` and the sticky backend session
  (`self_cmd`).
- `Connection`: the per-connection state as a class `Client`.
  - Its fields: `buffer`, `frame`, `selfCmd`, the commands sent, `wbuf` and
    `scheduledWrite`.
  - Its methods are `ws_add_data`, `ws_execute`, `ws_handshake_reply`,
    `ws_frame_and_send_response`, `ws_schedule_write` and `ws_can_write`.
  - `AddData` is proved against the recursive specification `Drain`.

## Model

| member | source | states |
|---|---|---|
| Bytes.Ntohl64 | src/websocket.c:31-35 | webdis_ntohl64: byte k of the eight is weighted by 256^k, so the first byte is the least significant. |
| Bytes.Htonl64 | src/websocket.c:37-41 | webdis_htonl64: byte k of the eight is `(n >> 8k) & 0xff`, least significant first. |
| Bytes.Xor | src/websocket.c:261 | The C `^` on two bytes, bit by bit over the 8 bits. |
| Bytes.HighBit | src/websocket.c:289 | `b & 0x80` is non-zero: the test for MASK on byte 1 here and for FIN on byte 0 at line 320. |
| Bytes.Ntohs | src/websocket.c:297-299 | The two length bytes read with ntohs, high byte first, always give a value below 2^16. |
| Bytes.Htons | src/websocket.c:378-380 | htons of a 16-bit length gives two bytes, high byte first. |
| Bytes.NtohsHtons | src/websocket.c:378-380 | Reading back the two bytes htons wrote gives the original 16-bit value. |
| Bytes.Low7 | src/websocket.c:292 | `b & 0x7f` is below 128. It is `b - 128` when bit 0x80 is set and `b` otherwise. |
| Bytes.XorTwice | src/websocket.c:259-261 | XOR-ing a byte twice with the same key byte gives the byte back. |
| Bytes.Ntohl64Bound | src/websocket.c:31-35 | webdis_ntohl64 of eight unsigned bytes fits in a uint64_t: the sum cannot wrap. |
| Bytes.Ntohl64Htonl64 | src/websocket.c:31-41 | webdis_ntohl64 undoes webdis_htonl64 on every 64-bit value. |
| Bytes.Htonl64IsNotNetworkOrder | src/websocket.c:37-41 | webdis_htonl64(1) is the bytes 1,0,0,0,0,0,0,0. Read in RFC 6455 network order, that is 2^56. The repository's own reader gives 1. |
| Bytes.NetworkBytes64Roundtrip | src/websocket.c:31-41 | The reference RFC 6455 bytes of a 64-bit length, most significant first, read back in network order give the length. |
| Bytes.Htonl64MisreadBelow2To32 | src/websocket.c:31-41 | For every length from 1 to 2^32 - 1, an RFC 6455 reader reads what webdis_htonl64 writes as 2^32 or more. webdis_ntohl64 likewise reads the network-order bytes as 2^32 or more. |
| Decoder.Unmask | src/websocket.c:259-261 | Unmasking keeps the length of the payload. |
| Decoder.UnmaskTwice | src/websocket.c:259-261 | Masking is an involution: unmasking twice with the same key returns the payload. |
| Decoder.LengthField | src/websocket.c:292 | The 7-bit length field is below 128. |
| Decoder.Parse | src/websocket.c:277-325 | ws_parse_data as a function of the buffer and the accumulator: the header outcome, then waiting, or appending the unmasked payload and growing the total by length plus header. Its properties are the lemmas below. |
| Decoder.DecodeHeader | src/websocket.c:285-308 | A decoded header comes from a buffer of at least 8 bytes and never extends past its end. |
| Decoder.ApplyMask | src/websocket.c:258-261 | The in-place loop over the array leaves the old payload followed by the new bytes unmasked, key byte i % 4 for byte i. Without a key it changes nothing. |
| Decoder.MsgAdd | src/websocket.c:252-266 | The new payload is the old payload followed by the new bytes, unmasked with the key restarting at key byte 0. The total is unchanged. |
| Decoder.ParseData | src/websocket.c:277-325 | The state returned and the new accumulator are exactly those of `Parse` on the buffer and the old accumulator. |
| Decoder.HeaderFollowsLengthField | src/websocket.c:289-308 | The header size and length come from the 7-bit field, with 4 more bytes when MASK is set: 2 bytes for a field up to 125; 4 bytes for 126, reading the next two bytes big-endian; 10 bytes for 127, reading the next eight least significant first. The key sits in the last 4 header bytes. The WS_ERROR branch is unreachable. The header runs past the buffer exactly in the 127 class when the buffer is shorter than it. |
| Decoder.ParseNeverErrors | src/websocket.c:306-308 | ws_parse_data never returns WS_ERROR. |
| Decoder.ParseWaitsForData | src/websocket.c:285-313 | With fewer than 8 bytes, or with a complete header followed by fewer bytes than the declared length, the result is WS_READING and the accumulator is untouched. |
| Decoder.FreshAccumulator | src/websocket.c:246-249 | With no accumulator, the one created (ws_msg_new, calloc'd at 315-316) ends up holding exactly the frame's unmasked payload, with a total of exactly the frame's size: it starts empty and at zero. |
| Decoder.ParseAccepts | src/websocket.c:315-324 | On an accepted frame the accumulator exists afterwards (created only if it was NULL). Its old payload is a prefix of the new one, which grew by exactly `len` bytes. `total_sz` grew by `len` plus the header size. The result is WS_MSG_COMPLETE iff FIN is set, otherwise WS_READING. |
| Decoder.ParseUnmasks | src/websocket.c:252-266 | On an accepted frame, new byte i of the accumulator is `p[i] ^ mask[i % 4]`, with the key index restarting at every frame, or `p[i]` when the frame is unmasked. |
| Decoder.ParseIgnoresLaterBytes | src/websocket.c:277-325 | Once the first frame is complete, bytes appended behind it change neither its header nor the parse result. |
| Decoder.OpcodeIgnored | src/websocket.c:320-324 | The opcode and RSV bits of byte 0 are never read: any first byte with the same FIN bit parses the same. |
| Decoder.StalledStaysStalled | src/websocket.c:336-352 | A complete non-final first frame stays complete and non-final whatever is appended. |
| Decoder.ParseLeavesStalled | src/websocket.c:315-324 | A complete message requires no prior accumulator, and its total lies between 2 and the buffer size. An accumulator is left behind only by a complete, non-final first frame. |
| Decoder.FragmentIsReappended | src/websocket.c:336-352 | Parsing a non-final first frame again appends its payload a second time and doubles the total: fragmentation never advances. |
| Decoder.ClientHeader | src/websocket.c:289-308 | The reference client header has the size of its class plus the 4-byte key: 6, 8 or 14 bytes. |
| Decoder.ParseClientFrame | src/websocket.c:277-325 | A masked client frame of at least 2 payload bytes decodes to its own payload and consumes the whole frame. It completes iff FIN is set. The frame's 64-bit length follows webdis's byte-reversed convention. |
| Decoder.NetworkOrderClientFrameWaits | src/websocket.c:302-313 | A masked client frame of 2^16 to 2^32 - 1 payload bytes with its length in RFC 6455 network order is read with a length of 2^32 or more. Parsed on its own, ws_parse_data returns WS_READING and the frame waits; it is never decoded as sent. |
| Decoder.ShortClientFrameWaits | src/websocket.c:285-287 | A masked client frame of 0 or 1 payload bytes is under 8 bytes and is never decoded on its own. |
| Encoder.Frame | src/websocket.c:372-389 | The frame starts with 0x81 and ends with the payload verbatim. Byte 1 is the payload length up to 125, 126 up to 65536 (inclusive) and 127 above. The size is the payload plus 2, 4 or 10 bytes in those three classes. |
| Encoder.FrameAllocation | src/websocket.c:360 | The frame buffer is malloc'd with the payload size plus 8 bytes. |
| Encoder.FrameHeader | src/websocket.c:372-389 | The decoder reads back FIN and no mask from an encoded frame of at least 8 bytes. It reads the header size as the frame size minus the payload. It reads the length as the payload size, modulo 2^16 in the 16-bit class. |
| Encoder.ParseFrame | src/websocket.c:357-389 | Round trip: for frames of at least 8 bytes with a payload other than 65536 bytes, decoding gives WS_MSG_COMPLETE, the same payload and `total_sz == frame_sz`. |
| Encoder.Frame65536DecodesEmpty | src/websocket.c:376-381 | A 65536-byte payload is sent with the 16-bit length 0, and decodes as an empty 4-byte message. |
| Encoder.FrameFitsAllocation | src/websocket.c:360-382 | Frames of payloads up to 65536 bytes fit the `sz + 8` bytes malloc'd. |
| Encoder.FrameOverrunsAllocation | src/websocket.c:383-389 | Frames of payloads over 65536 bytes are 2 bytes larger than the allocation. |
| Encoder.ShortFrameNotDecoded | src/websocket.c:372-375 | Server frames of fewer than 6 payload bytes are below the decoder's 8-byte minimum. |
| Handshake.DropNewline | src/websocket.c:83-85 | A trailing newline is dropped. Output that does not end in a newline is left as it is. |
| Handshake.DropNewlineStripsOne | src/websocket.c:83-85 | Exactly one newline is dropped: `s` plus a newline gives `s` back, and two trailing newlines lose only one. |
| Handshake.ComputeHandshake | src/websocket.c:43-90 | No accept value without a `Sec-WebSocket-Key` of 16 to 32 bytes. Otherwise base64(SHA-1(key ++ GUID)) with one trailing newline removed. |
| Handshake.OriginHeader | src/websocket.c:111-115 | `Origin` if present, even empty, else `Sec-WebSocket-Origin`, else none. |
| Handshake.SendsOrigin | src/websocket.c:135 | `origin && origin_sz`: the origin line is counted in `sz` here and copied at line 158 only for a present, non-empty origin. |
| Handshake.PrecomputedSize | src/websocket.c:133-137 | The `sz` of the reply buffer: 73, 24, 31 and 4 template bytes, the accept value, host and path, and 24 plus the origin when it is sent. |
| Handshake.Reply | src/websocket.c:148-175 | The reply bytes in memcpy order: status block, accept line, optional origin line, location line with host and path, empty line. |
| Handshake.HandshakeResponse | src/websocket.c:111-176 | No reply when `Host` is missing or empty, the path is empty, or the accept value cannot be computed. Otherwise the reply bytes. |
| Handshake.ReplyFillsPrecomputedSize | src/websocket.c:133-175 | The bytes copied into the reply equal the `sz` precomputed for malloc: no overrun and no gap. |
| Handshake.HandshakeRefused | src/websocket.c:121-131 | The upgrade is refused exactly when `Host` is absent or empty, the path is empty, or `Sec-WebSocket-Key` is absent or outside 16..32 bytes. |
| Handshake.ReplyLayout | src/websocket.c:148-175 | The position of each part in the reply: status block at 0..73, accept line at 73..97, accept value, optional origin line, then the location line and the empty line at the end. |
| Handshake.HandshakeAccepted | src/websocket.c:43-176 | An accepted upgrade has a key of 16..32 bytes and a non-empty host and path. The reply is the status block, then the accept line with base64(SHA-1(key ++ GUID)) minus one trailing newline. Next comes the origin line iff the chosen origin is non-empty, with `Origin` beating `Sec-WebSocket-Origin`. Then come the location line with host and path, and the empty line. |
| Dispatch.Route | src/websocket.c:204-211 | The adapter for a path: JSON for `/` or a `/.json` prefix, raw for a `/.raw` prefix, none otherwise. |
| Dispatch.CmdFor | src/websocket.c:219-234 | The command built for a message: flagged WebSocket, with `self_cmd`'s handle if there is one, else a new pool handle and the pub/sub mark. |
| Dispatch.RouteSelects | src/websocket.c:204-211 | Path `/` and any path starting `/.json` select JSON. Any path starting `/.raw` selects raw. |
| Dispatch.RouteRejects | src/websocket.c:204-211 | Any other path has no adapter. |
| Dispatch.CmdForKeepsSticky | src/websocket.c:219-234 | The first command gets a new pool handle and becomes `self_cmd`. Later ones copy `self_cmd`'s handle and leave it set. The sticky-session invariant is kept. |
| Dispatch.ExecutionsKeepSticky | src/websocket.c:219-234 | However many messages are dispatched, every command uses the handle of the first, which stays `self_cmd`. |
| Connection.Drain | src/websocket.c:331-355 | ws_add_data never ends with WS_MSG_COMPLETE. It leaves an accumulator only behind a stalled first frame. It dispatches only payloads that dispatch successfully. |
| Connection.Continue | src/websocket.c:338-353 | The loop body, from a parse result: the same three guarantees as Drain. The trimmed message's accumulator is freed (ws_msg_free, 268-274) by continuing with `None`. |
| Connection.DrainPipelined | src/websocket.c:331-355 | Complete final frames read together are all dispatched, in order, each once. The trims add up to the whole buffer, and the loop ends in WS_READING with no accumulator. |
| Connection.DrainTwoFrames | src/websocket.c:331-355 | Two concatenated complete final frames are both dispatched and the buffer is used up. |
| Connection.DrainStopsOnRejected | src/websocket.c:339-351 | A message whose dispatch fails is still trimmed and its accumulator dropped, and ws_add_data returns WS_ERROR. |
| Connection.DrainStallsOnFragment | src/websocket.c:336-354 | Behind a non-final first frame, whatever arrives, ws_add_data returns WS_READING. It dispatches nothing, keeps the buffer, and appends the first frame's payload to the accumulator again. |
| Connection.DrainWaits | src/websocket.c:336-354 | When the first parse does not complete a message, its result is returned and nothing is dispatched. |
| Connection.Client.Receive | src/websocket.c:336 | The HTTP layer's append of newly read bytes to `c->buffer`, which the parse at line 336 reads; the append itself is outside this file. The connection invariant is kept. |
| Connection.Client.Execute | src/websocket.c:198-244 | Returns 0 iff the path routes and the adapter extracts a command. On success it sends exactly one command, bound to the sticky session. On failure nothing changes. |
| Connection.Client.AddData | src/websocket.c:331-355 | The new buffer, accumulator and result are those of Drain. The commands sent are one per dispatched payload, in order, on the sticky session. The connection invariant is kept. |
| Connection.Client.HandshakeReply | src/websocket.c:111-195 | Returns 0 iff the handshake is accepted and nothing fails. Then `wbuf` is exactly the reply and a write is scheduled. A refusal or allocation failure changes nothing. A failed evbuffer_add leaves the new empty output buffer. |
| Connection.Client.FrameAndSendResponse | src/websocket.c:357-403 | On success the frame is appended to `wbuf` and a write is scheduled. If the frame cannot be allocated or queued, it returns -1 and schedules nothing. |
| Connection.Client.ScheduleWrite | src/websocket.c:424-438 | Does nothing when a write is registered. Otherwise it sets the flag exactly when event_add returns 0. |
| Connection.Client.CanWrite | src/websocket.c:405-422 | Clears the flag first and closes the socket on a negative write. Otherwise it drops the bytes written. It reschedules only after a write of more than 0 bytes with bytes still queued: a zero-byte write leaves the connection idle. |

## Divergences

These are behaviours of the code as written that differ from RFC 6455. The
model reproduces them, and a lemma shows each one.

- **The 64-bit length is least significant byte first.** `webdis_ntohl64` and
  `webdis_htonl64` are inverse to each other (`Bytes.Ntohl64Htonl64`), but they
  are not network order (`Bytes.Htonl64IsNotNetworkOrder`). The two
  conventions disagree on every length from 1 to 2^32 - 1: each reads the
  other's length as 2^32 or more (`Bytes.Htonl64MisreadBelow2To32`). So a
  standard peer misreads every 64-bit length webdis sends from 65537 (the
  first length webdis puts in the 64-bit class) to 2^32 - 1, and webdis
  misreads every 64-bit length a peer sends from 65536 to 2^32 - 1. Such a
  client frame, parsed on its own, waits for more data; it is never decoded
  as sent (`Decoder.NetworkOrderClientFrameWaits`). If enough bytes follow
  it in the buffer, it is decoded with the misread length, and its payload
  is mixed with the bytes behind it. Some larger lengths read the same
  both ways, for instance 2^32 + 2^24.
- **65536 in the 16-bit class.** The encoder takes the 16-bit branch up to
  and including 65536, and `htons` keeps only 16 bits. A 65536-byte payload
  is therefore announced as length 0 (`Encoder.Frame65536DecodesEmpty`).
- **The encoder overruns its allocation.** It mallocs `sz + 8` bytes but
  writes `sz + 10` in the 64-bit class (`Encoder.FrameOverrunsAllocation`).
- **The decoder guard underflows.** The only length check is `sz >= 8`. In
  the 127 class the header is 10 or 14 bytes, so for `8 <= sz < header` the
  unsigned `sz - (p - frame)` wraps and the code reads past the buffer.
  - The model gives this case its own outcome, `OutOfBounds`.
  - `Decoder.HeaderFollowsLengthField` shows that this is the only way to
    reach it.
  - Safety is proved only when the buffer holds the header.
- **Fragmentation never advances.** Parsing always starts at offset 0, and a
  non-final frame is never trimmed. The next call appends the same first
  fragment again, and continuation frames are never reached
  (`Decoder.FragmentIsReappended`, `Connection.DrainStallsOnFragment`).
- **The opcode is ignored.** Close, ping and pong frames are handled as data
  (`Decoder.OpcodeIgnored`).

In `ws_add_data`, the buffer is trimmed and the accumulator freed before the
dispatch result is tested. A failed message is therefore consumed too, as
`Connection.DrainStopsOnRejected` states.

## Left out

- SHA-1 and base64 are the parameter `Crypto`, so the model does not look
  inside them. The same goes for the word-order fixup of the digest at
  src/websocket.c:72-74. As a consequence, no known-answer test of the accept
  value can be stated.
- libevent is not modelled: `evbuffer_new`, `evbuffer_add`, `evbuffer_write`,
  `event_set`, `event_base_set`, `event_add` and `close`. Their results are
  method parameters: `allocFails`, `addFails`, `eventAddRet` and `written`. The
  closed socket is the flag `fdClosed`. The event loop and callback timing are
  not modelled.
- The format adapters and the backend are not modelled: `json_ws_extract`,
  `raw_ws_extract`, `json_reply`, `raw_reply`, `cmd_setup`, `cmd_send` and
  `pool_connect`. Extraction and `pool_connect` are function parameters. A
  command handed to `cmd_send` is appended to the field `sent`.
- `client_get_header` is a lookup in a map of headers by exact name.
  `http_client_remove_data` drops a prefix of `buffer`. Appending newly read
  bytes is `Client.Receive`. These helpers live outside `src/websocket.c`.
- `slog` logging is left out.
- Allocation failures are only partly modelled.
  - `calloc`/`malloc`/`evbuffer_new` failing in the handshake is one flag.
  - The model does not capture that a failed `evbuffer_new` leaves
    `c->ws_wbuf` NULL.
  - `realloc` in `ws_msg_add` is unchecked in the code and assumed to succeed.
  - `malloc` failing in `ws_frame_and_send_response` is folded into
    `addFails`.
  - Memory leaks are not modelled: the frame is not freed on success, nor is
    the handshake buffer.
- Connection.Drain: `total_sz` and the payload length are unbounded
  integers. The wrap of `uint64_t`/`size_t` arithmetic on huge declared
  lengths is not modelled: a frame is accepted only when its payload is
  really in the buffer.
- Bytes.Ntohl64: bytes are unsigned. On a platform where `char` is signed,
  `webdis_ntohl64` sign-extends bytes of 0x80 and above; the model assumes
  unsigned `char`.
- Dispatch.Route: the path is a byte sequence without NUL bytes, so `strncmp`
  is prefix comparison. A path with an embedded NUL is not modelled.
- Handshake.DropNewline: an empty base64 output is left as it is. The code
  would read `out[-1]`, but base64 of a 20-byte digest is never empty.
- Handshake.ComputeHandshake: the 40-byte `sha1_handshake` buffer is not
  modelled. The accept value is whatever base64 returns.
