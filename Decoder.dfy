/**
 * The frame decoder of src/websocket.c: ws_parse_data reads the base-framing
 * header of section 5.2 of RFC 6455 from the front of the connection's input
 * buffer, checks that the whole payload is there, and appends the payload,
 * with the client mask of section 5.3 removed, to the connection's message
 * accumulator (ws_msg_new / ws_msg_add).
 */
module Decoder {
  import opened Wrappers
  import opened Bytes

  /**
   * The result of one call of ws_parse_data. The first three are the C enum
   * ws_state; `OutOfBounds` marks the inputs on which the C code reads past
   * the end of the buffer (undefined behaviour, see DecodeHeader).
   */
  datatype WsState = Reading | MsgComplete | Error | OutOfBounds

  /** struct ws_msg: the unmasked payload gathered so far and the raw bytes it came from. */
  datatype Msg = Msg(payload: seq<byte>, totalSz: nat)

  /** ws_msg_new: calloc'd, so an empty payload and a zero total. */
  const NewMsg: Msg := Msg([], 0)

  /** The 4-byte masking key of section 5.3 of RFC 6455. */
  type Mask = m: seq<byte> | |m| == 4 witness [0, 0, 0, 0]

  /** Removing (or applying: XOR is its own inverse) a mask; `None` leaves the bytes as they are. */
  function Unmask(p: seq<byte>, mask: Option<Mask>): (r: seq<byte>)
    ensures |r| == |p|
  {
    match mask
    case None => p
    case Some(k) => seq(|p|, i requires 0 <= i < |p| => Xor(p[i], k[i % 4]))
  }

  /** Bit 0x80 of byte 0: FIN. */
  predicate Fin(frame: seq<byte>)
    requires |frame| >= 1
  {
    HighBit(frame[0])
  }

  /** Bit 0x80 of byte 1: MASK. */
  predicate Masked(frame: seq<byte>)
    requires |frame| >= 2
  {
    HighBit(frame[1])
  }

  /** The low seven bits of byte 1: the 7-bit payload length field. */
  function LengthField(frame: seq<byte>): (n: nat)
    requires |frame| >= 2
    ensures n < 128
  {
    Low7(frame[1])
  }

  /** A decoded header: FIN, the masking key if any, the payload length and `p - frame`. */
  datatype Header = Header(fin: bool, mask: Option<Mask>, len: nat, size: nat)

  /**
   * What the header-reading part of ws_parse_data makes of a buffer:
   * fewer than 8 bytes, a length field it does not know (its WS_ERROR branch),
   * a header that runs past the end of the buffer, or a decoded header.
   */
  datatype HeaderResult = TooShort | Undefined | Overrun | Decoded(header: Header)

  /** The key at offset `at` when the frame is masked (memcpy(&mask, frame + at, 4)). */
  function MaskAt(frame: seq<byte>, at: nat): Option<Mask>
    requires |frame| >= 2
    requires Masked(frame) ==> at + 4 <= |frame|
  {
    if Masked(frame) then Some(frame[at..at + 4]) else None
  }

  /**
   * The header section of ws_parse_data (src/websocket.c:285-308). The code
   * checks only that 8 bytes are present; in the 127 class the header is 10
   * or 14 bytes, so with 8 <= sz < header it reads past the buffer, which is
   * `Overrun` here. The 126 class reads its two bytes with ntohs; the 127
   * class reads eight bytes with webdis_ntohl64, least significant first.
   */
  function DecodeHeader(frame: seq<byte>): (r: HeaderResult)
    ensures r.Decoded? ==> 8 <= |frame| && r.header.size <= |frame|
  {
    if |frame| < 8 then TooShort
    else
      var m := if Masked(frame) then 4 else 0;
      var len7 := LengthField(frame);
      if len7 <= 125 then
        Decoded(Header(Fin(frame), MaskAt(frame, 2), len7, 2 + m))
      else if len7 == 126 then
        Decoded(Header(Fin(frame), MaskAt(frame, 4), Ntohs(frame[2], frame[3]), 4 + m))
      else if len7 == 127 then
        if |frame| < 10 + m then Overrun
        else Decoded(Header(Fin(frame), MaskAt(frame, 10), Ntohl64(frame[2..10]), 10 + m))
      else
        Undefined
  }

  /** The outcome of ws_parse_data: its return value and the new `*msg`. */
  datatype Parsed = Parsed(state: WsState, msg: Option<Msg>)

  /**
   * ws_parse_data (src/websocket.c:277-325) as a function of the buffer and
   * the accumulator. A header that is complete but whose payload is not yet
   * all there gives `Reading` and leaves the accumulator alone; otherwise the
   * accumulator (created if absent) gets the unmasked payload, and its total
   * grows by the payload length plus the header size.
   */
  function Parse(frame: seq<byte>, msg: Option<Msg>): Parsed
  {
    match DecodeHeader(frame)
    case TooShort => Parsed(Reading, msg)
    case Undefined => Parsed(Error, msg)
    case Overrun => Parsed(OutOfBounds, msg)
    case Decoded(h) =>
      if h.len > |frame| - h.size then Parsed(Reading, msg)
      else
        var base := msg.GetOr(NewMsg);
        var added := Unmask(frame[h.size..h.size + h.len], h.mask);
        Parsed(if h.fin then MsgComplete else Reading,
               Some(Msg(base.payload + added, base.totalSz + h.len + h.size)))
  }

  /**
   * A buffer whose first frame is complete but not final: the only state in
   * which ws_parse_data leaves an accumulator behind (see ParseLeavesStalled).
   */
  ghost predicate Stalled(buf: seq<byte>)
  {
    && DecodeHeader(buf).Decoded?
    && DecodeHeader(buf).header.len <= |buf| - DecodeHeader(buf).header.size
    && !DecodeHeader(buf).header.fin
  }

  /** One step of the in-place XOR loop: byte n + i of the buffer turns from p[i] into its unmasked value. */
  lemma UnmaskStep(pre: seq<byte>, p: seq<byte>, mask: Option<Mask>, i: nat)
    requires mask.Some? && i < |p|
    ensures var u := Unmask(p, mask);
      (pre + u[..i] + p[i..])[|pre| + i := Xor(p[i], mask.value[i % 4])] == pre + u[..i + 1] + p[i + 1..]
  {
    var u := Unmask(p, mask);
    assert u[i] == Xor(p[i], mask.value[i % 4]);
    var s := pre + u[..i] + p[i..];
    var t := pre + u[..i + 1] + p[i + 1..];
    assert |s[|pre| + i := u[i]]| == |t|;
    forall k | 0 <= k < |t|
      ensures s[|pre| + i := u[i]][k] == t[k]
    {
    }
  }

  /** Before the XOR loop runs, the buffer is the old payload followed by the copied bytes. */
  lemma UnmaskStart(pre: seq<byte>, p: seq<byte>, mask: Option<Mask>)
    ensures pre + Unmask(p, mask)[..0] + p[0..] == pre + p
  {
    assert Unmask(p, mask)[..0] == [] && p[0..] == p;
  }

  /** When the XOR loop stops, the buffer holds the unmasked bytes: the loop ran to the end or there is no key. */
  lemma UnmaskDone(p: seq<byte>, mask: Option<Mask>, i: nat)
    requires i == |p| || (mask.None? && i == 0)
    ensures Unmask(p, mask)[..i] + p[i..] == Unmask(p, mask)
  {
  }

  /**
   * The mask loop of ws_msg_add (src/websocket.c:258-261): the last |p| bytes
   * of the buffer are XOR-ed in place with the key, key byte i % 4 for byte i.
   */
  method ApplyMask(a: array<byte>, ghost pre: seq<byte>, p: seq<byte>, mask: Option<Mask>)
    requires a[..] == pre + p
    modifies a
    ensures a[..] == pre + Unmask(p, mask)
  {
    var n := a.Length - |p|;
    ghost var u := Unmask(p, mask);
    UnmaskStart(pre, p, mask);
    var i := 0;
    while i < |p| && mask.Some?
      invariant 0 <= i <= |p|
      invariant mask.None? ==> i == 0
      invariant a[..] == pre + u[..i] + p[i..]
    {
      UnmaskStep(pre, p, mask, i);
      a[n + i] := Xor(p[i], mask.value[i % 4]);
      i := i + 1;
    }
    UnmaskDone(p, mask, i);
  }

  /**
   * ws_msg_add (src/websocket.c:252-266): grow the payload (realloc), copy the
   * new bytes behind the old ones (memcpy), then XOR them in place with the
   * key, restarting at key byte 0 for every frame.
   */
  method MsgAdd(m: Msg, p: seq<byte>, mask: Option<Mask>) returns (r: Msg)
    ensures r.payload == m.payload + Unmask(p, mask)
    ensures r.totalSz == m.totalSz
  {
    var copied := m.payload + p;
    var a := new byte[|copied|](k requires 0 <= k < |copied| => copied[k]);
    assert a[..] == m.payload + p;
    ApplyMask(a, m.payload, p, mask);
    r := Msg(a[..], m.totalSz);
  }

  /** ws_parse_data as the C code runs it, the payload appended by MsgAdd. */
  method ParseData(frame: seq<byte>, msg: Option<Msg>) returns (state: WsState, msg': Option<Msg>)
    ensures Parsed(state, msg') == Parse(frame, msg)
  {
    msg' := msg;
    match DecodeHeader(frame)
    case TooShort => state := Reading;
    case Undefined => state := Error;
    case Overrun => state := OutOfBounds;
    case Decoded(h) =>
      if h.len > |frame| - h.size {
        state := Reading;
      } else {
        var base := msg.GetOr(NewMsg);
        var body := frame[h.size..h.size + h.len];
        var m := MsgAdd(base, body, h.mask);
        msg' := Some(Msg(m.payload, m.totalSz + h.len + h.size));
        state := if Fin(frame) then MsgComplete else Reading;
        ParseDecoded(frame, msg, h);
      }
  }

  // ---------------------------------------------------------------------
  // Properties of the decoder
  // ---------------------------------------------------------------------

  /** Masking twice with the same key gives the original bytes back. */
  lemma UnmaskTwice(p: seq<byte>, mask: Option<Mask>)
    ensures Unmask(Unmask(p, mask), mask) == p
  {
    var u := Unmask(Unmask(p, mask), mask);
    forall i | 0 <= i < |p|
      ensures u[i] == p[i]
    {
      if mask.Some? {
        var b := p[i];
        var k := mask.value[i % 4];
        XorTwice(b, k);
      }
    }
  }

  /**
   * The header size and payload length follow the 7-bit field: up to 125
   * gives 2 bytes, 126 gives 4 (the next two bytes, big-endian), 127 gives 10
   * (the next eight, least significant first), 4 more with MASK set. The
   * WS_ERROR branch is never taken, and the header is read past the buffer
   * exactly in the 127 class when the buffer is shorter than the header.
   */
  lemma HeaderFollowsLengthField(frame: seq<byte>)
    requires |frame| >= 8
    ensures DecodeHeader(frame) != Undefined && DecodeHeader(frame) != TooShort
    ensures DecodeHeader(frame).Overrun? <==>
      LengthField(frame) == 127 && |frame| < 10 + (if Masked(frame) then 4 else 0)
    ensures DecodeHeader(frame).Decoded? ==>
      var h := DecodeHeader(frame).header;
      var m := if Masked(frame) then 4 else 0;
      && h.fin == Fin(frame)
      && (h.mask.Some? <==> Masked(frame))
      && (h.mask.Some? ==> h.mask.value == frame[h.size - 4..h.size])
      && (LengthField(frame) <= 125 ==> h.size == 2 + m && h.len == LengthField(frame))
      && (LengthField(frame) == 126 ==> h.size == 4 + m && h.len == frame[2] as nat * 256 + frame[3] as nat)
      && (LengthField(frame) == 127 ==> h.size == 10 + m && h.len == Ntohl64(frame[2..10]))
  {
  }

  /** ws_parse_data never returns WS_ERROR: a 7-bit field is always one of the three classes. */
  lemma ParseNeverErrors(frame: seq<byte>, msg: Option<Msg>)
    ensures Parse(frame, msg).state != Error
  {
  }

  /**
   * With fewer than 8 bytes, or a complete header followed by fewer bytes than
   * the declared payload length, ws_parse_data returns WS_READING and leaves
   * `*msg` untouched, however large the declared length.
   */
  lemma ParseWaitsForData(frame: seq<byte>, msg: Option<Msg>)
    requires |frame| < 8 ||
      (DecodeHeader(frame).Decoded? &&
       DecodeHeader(frame).header.len > |frame| - DecodeHeader(frame).header.size)
    ensures Parse(frame, msg) == Parsed(Reading, msg)
  {
  }

  /** How Parse treats a frame whose header is `h` and whose payload is all there. */
  lemma ParseDecoded(frame: seq<byte>, msg: Option<Msg>, h: Header)
    requires DecodeHeader(frame) == Decoded(h)
    requires h.len <= |frame| - h.size
    ensures h.fin == Fin(frame)
    ensures Parse(frame, msg) ==
      Parsed(if h.fin then MsgComplete else Reading,
             Some(Msg(msg.GetOr(NewMsg).payload + Unmask(frame[h.size..h.size + h.len], h.mask),
                      msg.GetOr(NewMsg).totalSz + h.len + h.size)))
  {
  }

  /** A buffer holding exactly one frame, whose payload unmasks to `p`, decoded with no accumulator. */
  lemma ParseWhole(frame: seq<byte>, h: Header, p: seq<byte>)
    requires DecodeHeader(frame) == Decoded(h)
    requires |frame| == h.size + h.len
    requires Unmask(frame[h.size..], h.mask) == p
    ensures Parse(frame, None) == Parsed(if Fin(frame) then MsgComplete else Reading, Some(Msg(p, |frame|)))
  {
    assert frame[h.size..h.size + h.len] == frame[h.size..];
    assert Unmask(frame[h.size..h.size + h.len], h.mask) == p;
    assert NewMsg.payload + p == p && NewMsg.totalSz + h.len + h.size == |frame|;
    ParseDecoded(frame, None, h);
  }

  /**
   * ws_msg_new hands out a calloc'd accumulator: absent one, the message the
   * first accepted frame leaves holds exactly that frame's unmasked payload,
   * and its total is exactly that frame's size.
   */
  lemma FreshAccumulator(frame: seq<byte>, h: Header)
    requires DecodeHeader(frame) == Decoded(h)
    requires h.len <= |frame| - h.size
    ensures Parse(frame, None).msg == Some(Msg(Unmask(frame[h.size..h.size + h.len], h.mask), h.size + h.len))
  {
    var body := Unmask(frame[h.size..h.size + h.len], h.mask);
    assert NewMsg.payload + body == body && NewMsg.totalSz + h.len + h.size == h.size + h.len;
    ParseDecoded(frame, None, h);
  }

  /** A buffer whose first frame carries no payload, decoded with no accumulator. */
  lemma ParseEmpty(frame: seq<byte>, h: Header)
    requires DecodeHeader(frame) == Decoded(h)
    requires h.len == 0 && h.size <= |frame|
    ensures Parse(frame, None) == Parsed(if Fin(frame) then MsgComplete else Reading, Some(Msg([], h.size)))
  {
    assert Unmask(frame[h.size..h.size], h.mask) == [];
    assert NewMsg.payload + [] == [] && NewMsg.totalSz + h.len + h.size == h.size;
    ParseDecoded(frame, None, h);
  }

  /**
   * An accepted frame: the accumulator exists afterwards, its old payload is
   * a prefix of the new one, the payload grew by exactly `len` bytes, the
   * total grew by `len` plus the header size, and the result is MsgComplete
   * exactly when FIN is set (ParseUnmasks says what the new bytes are).
   */
  lemma ParseAccepts(frame: seq<byte>, msg: Option<Msg>, h: Header)
    requires DecodeHeader(frame) == Decoded(h)
    requires h.len <= |frame| - h.size
    ensures
      var before := msg.GetOr(Msg([], 0));
      var r := Parse(frame, msg);
      && r.msg.Some?
      && |r.msg.value.payload| == |before.payload| + h.len
      && r.msg.value.payload[..|before.payload|] == before.payload
      && r.msg.value.totalSz == before.totalSz + h.len + h.size
      && (r.state == MsgComplete <==> Fin(frame))
      && (r.state != MsgComplete ==> r.state == Reading)
  {
    var before := msg.GetOr(Msg([], 0));
    var body := frame[h.size..h.size + h.len];
    ParseDecoded(frame, msg, h);
    AppendedUnmasked(before.payload, body, h.mask);
  }

  /**
   * The bytes an accepted frame appends: new byte i is payload byte i of the
   * frame XOR key byte i % 4 (the key index restarts with every frame), or
   * the byte itself when the frame is not masked.
   */
  lemma ParseUnmasks(frame: seq<byte>, msg: Option<Msg>, h: Header)
    requires DecodeHeader(frame) == Decoded(h)
    requires h.len <= |frame| - h.size
    ensures
      var n := |msg.GetOr(NewMsg).payload|;
      var body := frame[h.size..h.size + h.len];
      var r := Parse(frame, msg);
      && r.msg.Some? && |r.msg.value.payload| == n + h.len
      && forall i :: 0 <= i < h.len ==>
           r.msg.value.payload[n + i] == if h.mask.Some? then Xor(body[i], h.mask.value[i % 4]) else body[i]
  {
    var before := msg.GetOr(NewMsg);
    var body := frame[h.size..h.size + h.len];
    var r := Parse(frame, msg);
    assert r.msg.Some? && r.msg.value.payload == before.payload + Unmask(body, h.mask) by {
      ParseDecoded(frame, msg, h);
    }
    ParsedUnmasked(r, before.payload, body, h.mask);
    assert |body| == h.len;
  }

  /** A parse result whose payload is `prefix` followed by the unmasked `body`, spelled out byte by byte. */
  lemma ParsedUnmasked(r: Parsed, prefix: seq<byte>, body: seq<byte>, mask: Option<Mask>)
    requires r.msg.Some? && r.msg.value.payload == prefix + Unmask(body, mask)
    ensures |r.msg.value.payload| == |prefix| + |body|
    ensures forall i :: 0 <= i < |body| ==>
      r.msg.value.payload[|prefix| + i] == if mask.Some? then Xor(body[i], mask.value[i % 4]) else body[i]
  {
    AppendedUnmasked(prefix, body, mask);
  }

  /** The layout of `prefix` followed by the unmasked `body`: each new byte is its byte XOR key byte i % 4. */
  lemma AppendedUnmasked(prefix: seq<byte>, body: seq<byte>, mask: Option<Mask>)
    ensures
      var r := prefix + Unmask(body, mask);
      && |r| == |prefix| + |body|
      && r[..|prefix|] == prefix
      && forall i :: 0 <= i < |body| ==>
           r[|prefix| + i] == if mask.Some? then Xor(body[i], mask.value[i % 4]) else body[i]
  {
    var r := prefix + Unmask(body, mask);
    assert r[..|prefix|] == prefix;
  }

  /**
   * Parsing starts again at offset 0 with no header state, so once the first
   * frame is accepted the bytes behind it change nothing: the decoder may be
   * called again as more data trickles in.
   */
  lemma ParseIgnoresLaterBytes(frame: seq<byte>, more: seq<byte>, msg: Option<Msg>)
    requires DecodeHeader(frame).Decoded?
    requires DecodeHeader(frame).header.len <= |frame| - DecodeHeader(frame).header.size
    ensures DecodeHeader(frame + more) == DecodeHeader(frame)
    ensures Parse(frame + more, msg) == Parse(frame, msg)
  {
    var f := frame + more;
    var h := DecodeHeader(frame).header;
    HeaderIgnoresLaterBytes(frame, more);
    assert f[h.size..h.size + h.len] == frame[h.size..h.size + h.len];
    ParseDecoded(frame, msg, h);
    ParseDecoded(f, msg, h);
  }

  /** The header part of ParseIgnoresLaterBytes. */
  lemma HeaderIgnoresLaterBytes(frame: seq<byte>, more: seq<byte>)
    requires DecodeHeader(frame).Decoded?
    ensures DecodeHeader(frame + more) == DecodeHeader(frame)
  {
    var f := frame + more;
    assert f[0] == frame[0] && f[1] == frame[1] && f[2] == frame[2] && f[3] == frame[3];
    assert Fin(f) == Fin(frame) && Masked(f) == Masked(frame) && LengthField(f) == LengthField(frame);
    var m := if Masked(frame) then 4 else 0;
    if LengthField(frame) <= 125 {
      assert MaskAt(f, 2) == MaskAt(frame, 2) by {
        if Masked(frame) { assert f[2..6] == frame[2..6]; }
      }
    } else if LengthField(frame) == 126 {
      assert MaskAt(f, 4) == MaskAt(frame, 4) by {
        if Masked(frame) { assert f[4..8] == frame[4..8]; }
      }
    } else {
      assert f[2..10] == frame[2..10];
      assert MaskAt(f, 10) == MaskAt(frame, 10) by {
        if Masked(frame) { assert f[10..14] == frame[10..14]; }
      }
    }
  }

  /**
   * The opcode and the RSV bits are never looked at: any first byte with the
   * same FIN bit parses the same, so a close, ping or pong frame is handled
   * as a data frame and its payload dispatched as a message.
   */
  lemma OpcodeIgnored(frame: seq<byte>, b0: byte, msg: Option<Msg>)
    requires |frame| >= 1 && HighBit(b0) == HighBit(frame[0])
    ensures Parse([b0] + frame[1..], msg) == Parse(frame, msg)
  {
    var f := [b0] + frame[1..];
    assert f[1..] == frame[1..];
    if |frame| >= 8 {
      SameHeader(f, frame);
      var d := DecodeHeader(frame);
      if d.Decoded? && d.header.len <= |frame| - d.header.size {
        SameTail(f, frame, d.header.size, d.header.size + d.header.len);
      }
      ParseByHeader(f, frame, msg);
    }
  }

  /** Parse looks at a buffer only through its header and the payload bytes that header names. */
  lemma ParseByHeader(f: seq<byte>, g: seq<byte>, msg: Option<Msg>)
    requires |f| == |g| && DecodeHeader(f) == DecodeHeader(g)
    requires DecodeHeader(g).Decoded? && DecodeHeader(g).header.len <= |g| - DecodeHeader(g).header.size ==>
      var h := DecodeHeader(g).header;
      f[h.size..h.size + h.len] == g[h.size..h.size + h.len]
    ensures Parse(f, msg) == Parse(g, msg)
  {
    match DecodeHeader(g)
    case Decoded(h) =>
      if h.len <= |g| - h.size {
        ParseDecoded(f, msg, h);
        ParseDecoded(g, msg, h);
      }
    case _ =>
  }

  /** Two buffers that agree after their first byte agree on every slice that starts after it. */
  lemma SameTail(f: seq<byte>, g: seq<byte>, lo: nat, hi: nat)
    requires 1 <= lo <= hi <= |f| == |g| && f[1..] == g[1..]
    ensures f[lo..hi] == g[lo..hi]
  {
    forall i | 0 <= i < hi - lo
      ensures f[lo..hi][i] == g[lo..hi][i]
    {
      assert f[lo + i] == f[1..][lo + i - 1];
      assert g[lo + i] == g[1..][lo + i - 1];
    }
  }

  /** The header is a function of the FIN bit and of the bytes after the first. */
  lemma SameHeader(f: seq<byte>, g: seq<byte>)
    requires |f| == |g| >= 8 && Fin(f) == Fin(g) && f[1..] == g[1..]
    ensures DecodeHeader(f) == DecodeHeader(g)
    ensures DecodeHeader(f).Decoded? ==> DecodeHeader(f).header.size >= 2
  {
    assert f[1] == f[1..][0] == g[1];
    assert Masked(f) == Masked(g) && LengthField(f) == LengthField(g);
    SameTail(f, g, 2, 6);
    SameTail(f, g, 4, 8);
    assert f[2] == f[1..][1] == g[2] && f[3] == f[1..][2] == g[3];
    if |f| >= 10 {
      SameTail(f, g, 2, 10);
    }
    if |f| >= 14 {
      SameTail(f, g, 10, 14);
    }
  }

  /** Bytes arriving behind a stalled first frame leave it stalled. */
  lemma StalledStaysStalled(buf: seq<byte>, more: seq<byte>)
    requires Stalled(buf)
    ensures Stalled(buf + more)
  {
    HeaderIgnoresLaterBytes(buf, more);
  }

  /** A frame that completes a message on its own has a header and all of its payload. */
  lemma CompleteFrameIsDecoded(frame: seq<byte>, p: seq<byte>)
    requires Parse(frame, None) == Parsed(MsgComplete, Some(Msg(p, |frame|)))
    ensures DecodeHeader(frame).Decoded?
    ensures DecodeHeader(frame).header.len <= |frame| - DecodeHeader(frame).header.size
  {
  }

  /** Only a complete, non-final first frame leaves an accumulator behind. */
  lemma ParseLeavesStalled(frame: seq<byte>, msg: Option<Msg>)
    requires msg.Some? ==> Stalled(frame)
    ensures var r := Parse(frame, msg);
      && (r.state == MsgComplete ==>
            msg.None? && r.msg.Some? && 2 <= r.msg.value.totalSz <= |frame|)
      && (r.state != MsgComplete && r.msg.Some? ==> Stalled(frame))
  {
  }

  /**
   * Fragmentation does not advance: with a non-final first frame the next
   * call parses the same frame again and appends its payload a second time,
   * so continuation frames behind it are never reached.
   */
  lemma FragmentIsReappended(frame: seq<byte>)
    requires Stalled(frame)
    ensures
      var once := Parse(frame, None);
      var twice := Parse(frame, once.msg);
      && once.state == Reading && twice.state == Reading
      && once.msg.Some? && twice.msg.Some?
      && twice.msg.value.payload == once.msg.value.payload + once.msg.value.payload
      && twice.msg.value.totalSz == 2 * once.msg.value.totalSz
  {
  }

  // ---------------------------------------------------------------------
  // Client frames: what a client that follows the decoder's conventions sends
  // ---------------------------------------------------------------------

  /**
   * Reference encoder for a masked client frame: FIN (or not) with opcode 1,
   * MASK set, the length in the class the decoder reads it from (the 127
   * class least significant first, as webdis_ntohl64 expects), the key, and
   * the payload masked with it.
   */
  function ClientFrame(fin: bool, p: seq<byte>, key: Mask): (f: seq<byte>)
    requires |p| < TWO_TO_THE_64
  {
    ClientHeader(fin, |p|, key) + Unmask(p, Some(key))
  }

  /** The header ClientFrame puts in front of the masked payload. */
  function ClientHeader(fin: bool, sz: nat, key: Mask): (hdr: seq<byte>)
    requires sz < TWO_TO_THE_64
    ensures |hdr| == ClientHeaderSize(sz)
  {
    var b0: byte := if fin then 0x81 else 0x01;
    if sz <= 125 then [b0, (sz + 0x80) as byte] + key
    else if sz < TWO_TO_THE_16 then [b0, 0xfe] + Htons(sz) + key
    else [b0, 0xff] + Htonl64(sz) + key
  }

  /** The header size of ClientFrame: the length bytes of its class plus the key. */
  function ClientHeaderSize(sz: nat): nat
  {
    if sz <= 125 then 6 else if sz < TWO_TO_THE_16 then 8 else 14
  }

  /** A client header of the 7-bit class, followed by anything, reaching 8 bytes. */
  lemma ShortClientHeader(fin: bool, sz: nat, key: Mask, body: seq<byte>)
    requires sz <= 125
    requires 6 + |body| >= 8
    ensures DecodeHeader(ClientHeader(fin, sz, key) + body) == Decoded(Header(fin, Some(key), sz, 6))
  {
    var f := ClientHeader(fin, sz, key) + body;
    assert f[0] == if fin then 0x81 else 0x01;
    assert f[1] == (sz + 0x80) as byte;
    assert f[2..6] == key;
  }

  /** A client header of the 16-bit class, followed by anything. */
  lemma MediumClientHeader(fin: bool, sz: nat, key: Mask, body: seq<byte>)
    requires 125 < sz < TWO_TO_THE_16
    ensures DecodeHeader(ClientHeader(fin, sz, key) + body) == Decoded(Header(fin, Some(key), sz, 8))
  {
    var f := ClientHeader(fin, sz, key) + body;
    assert f[0] == if fin then 0x81 else 0x01;
    assert f[1] == 0xfe;
    assert f[2] == Htons(sz)[0] && f[3] == Htons(sz)[1];
    NtohsHtons(sz);
    assert f[4..8] == key;
  }

  /** A client header of the 64-bit class, followed by anything. */
  lemma LongClientHeader(fin: bool, sz: nat, key: Mask, body: seq<byte>)
    requires TWO_TO_THE_16 <= sz < TWO_TO_THE_64
    ensures DecodeHeader(ClientHeader(fin, sz, key) + body) == Decoded(Header(fin, Some(key), sz, 14))
  {
    var f := ClientHeader(fin, sz, key) + body;
    assert f[0] == if fin then 0x81 else 0x01;
    assert f[1] == 0xff;
    assert f[2..10] == Htonl64(sz);
    Ntohl64Htonl64(sz);
    assert f[10..14] == key;
  }

  /**
   * Decoding a masked client frame of at least 2 payload bytes gives back the
   * unmasked payload, consumes exactly the frame, and completes iff FIN is set.
   */
  lemma ParseClientFrame(fin: bool, p: seq<byte>, key: Mask)
    requires 2 <= |p| < TWO_TO_THE_64
    ensures Parse(ClientFrame(fin, p, key), None) ==
      Parsed(if fin then MsgComplete else Reading, Some(Msg(p, |ClientFrame(fin, p, key)|)))
  {
    var body := Unmask(p, Some(key));
    var f := ClientFrame(fin, p, key);
    var h := Header(fin, Some(key), |p|, ClientHeaderSize(|p|));
    assert DecodeHeader(f) == Decoded(h) by {
      if |p| <= 125 {
        ShortClientHeader(fin, |p|, key, body);
      } else if |p| < TWO_TO_THE_16 {
        MediumClientHeader(fin, |p|, key, body);
      } else {
        LongClientHeader(fin, |p|, key, body);
      }
    }
    assert f[h.size..] == body;
    UnmaskTwice(p, Some(key));
    ParseWhole(f, h, p);
    HeaderFollowsLengthField(f);
  }

  /** A masked header of the 127 class with the eight length bytes `len8`, followed by anything. */
  lemma MaskedLongHeader(b0: byte, len8: seq<byte>, key: Mask, body: seq<byte>)
    requires |len8| == 8
    ensures DecodeHeader([b0, 0xff] + len8 + key + body) ==
      Decoded(Header(HighBit(b0), Some(key), Ntohl64(len8), 14))
  {
    var f := [b0, 0xff] + len8 + key + body;
    assert f[0] == b0 && f[1] == 0xff;
    assert f[2..10] == len8;
    assert f[10..14] == key;
  }

  /**
   * A client that follows RFC 6455 sends the 64-bit length in network order.
   * For a payload of 2^16 up to 2^32 - 1 bytes, webdis_ntohl64 reads that
   * length as 2^32 or more, so the decoder keeps waiting for data it will
   * never get: the frame is not decoded.
   */
  lemma NetworkOrderClientFrameWaits(fin: bool, p: seq<byte>, key: Mask)
    requires TWO_TO_THE_16 <= |p| < 0x1_0000_0000
    ensures
      var b0: byte := if fin then 0x81 else 0x01;
      var f := [b0, 0xff] + NetworkBytes64(|p|) + key + Unmask(p, Some(key));
      && DecodeHeader(f).Decoded?
      && DecodeHeader(f).header.len >= 0x1_0000_0000
      && Parse(f, None) == Parsed(Reading, None)
  {
    var b0: byte := if fin then 0x81 else 0x01;
    var len8 := NetworkBytes64(|p|);
    var f := [b0, 0xff] + len8 + key + Unmask(p, Some(key));
    MaskedLongHeader(b0, len8, key, Unmask(p, Some(key)));
    Htonl64MisreadBelow2To32(|p|);
    ParseWaitsForData(f, None);
  }

  /**
   * A masked frame carrying 0 or 1 payload bytes is only 6 or 7 bytes long,
   * below the 8-byte minimum: on its own it is never decoded.
   */
  lemma ShortClientFrameWaits(fin: bool, p: seq<byte>, key: Mask)
    requires |p| < 2
    ensures |ClientFrame(fin, p, key)| < 8
    ensures Parse(ClientFrame(fin, p, key), None) == Parsed(Reading, None)
  {
  }
}
