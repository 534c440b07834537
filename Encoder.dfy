/**
 * The frame encoder of src/websocket.c (ws_frame_and_send_response): a single
 * unmasked, final frame `0x81`, a length field, the payload verbatim.
 */
module Encoder {
  import opened Wrappers
  import opened Bytes
  import opened Decoder

  /**
   * The frame bytes built at src/websocket.c:372-389. The 16-bit class is
   * taken up to and including 65536, and `htons` of a `size_t` keeps only its
   * low 16 bits, so 65536 is sent as length 0. The 64-bit class uses
   * webdis_htonl64 (least significant byte first).
   */
  function Frame(p: seq<byte>): (f: seq<byte>)
    requires |p| < TWO_TO_THE_64
    ensures |f| == |p| + (if |p| <= 125 then 2 else if |p| <= 65536 then 4 else 10)
    ensures f[0] == 0x81
    ensures |p| <= 125 ==> f[1] == |p| as byte
    ensures 125 < |p| <= 65536 ==> f[1] == 126
    ensures 65536 < |p| ==> f[1] == 127
    ensures f[|f| - |p|..] == p
  {
    var sz := |p|;
    if sz <= 125 then [0x81, sz as byte] + p
    else if sz <= 65536 then [0x81, 126] + Htons(sz % TWO_TO_THE_16) + p
    else [0x81, 127] + Htonl64(sz) + p
  }

  /** The number of bytes malloc'd for the frame (src/websocket.c:360). */
  function FrameAllocation(sz: nat): nat
  {
    sz + 8
  }

  /** The header of an encoded frame, as the decoder reads it back. */
  lemma FrameHeader(p: seq<byte>)
    requires |p| < TWO_TO_THE_64
    requires |Frame(p)| >= 8
    ensures DecodeHeader(Frame(p)) == Decoded(Header(true, None,
      if |p| <= 65536 then |p| % TWO_TO_THE_16 else |p|,
      |Frame(p)| - |p|))
  {
    var f := Frame(p);
    var sz := |p|;
    assert f[0] == 0x81;
    if sz <= 125 {
      assert f[1] == sz as byte;
    } else if sz <= 65536 {
      assert f[1] == 126;
      assert f[2] == Htons(sz % TWO_TO_THE_16)[0] && f[3] == Htons(sz % TWO_TO_THE_16)[1];
      NtohsHtons(sz % TWO_TO_THE_16);
    } else {
      assert f[1] == 127;
      assert f[2..10] == Htonl64(sz);
      Ntohl64Htonl64(sz);
    }
  }

  /** Away from 65536, the header the decoder reads back carries the payload's true length. */
  lemma FrameHeaderExact(p: seq<byte>)
    requires |p| < TWO_TO_THE_64
    requires |Frame(p)| >= 8 && |p| != 65536
    ensures DecodeHeader(Frame(p)) == Decoded(Header(true, None, |p|, |Frame(p)| - |p|))
  {
    assert (if |p| <= 65536 then |p| % TWO_TO_THE_16 else |p|) == |p|;
    FrameHeader(p);
  }

  /**
   * Encoding then decoding: for every payload whose frame reaches the
   * decoder's 8-byte minimum and whose length is not 65536, ws_parse_data
   * completes the message with the same payload and consumes the whole frame.
   */
  lemma ParseFrame(p: seq<byte>)
    requires |p| < TWO_TO_THE_64
    requires |Frame(p)| >= 8 && |p| != 65536
    ensures Parse(Frame(p), None) == Parsed(MsgComplete, Some(Msg(p, |Frame(p)|)))
  {
    var f := Frame(p);
    var h := Header(true, None, |p|, |f| - |p|);
    FrameHeaderExact(p);
    ParseWhole(f, h, p);
  }

  /**
   * A 65536-byte payload is sent with the 16-bit length 0: the peer reads an
   * empty message from the first 4 bytes and takes the payload for the next frame.
   */
  lemma Frame65536DecodesEmpty(p: seq<byte>)
    requires |p| == 65536
    ensures Frame(p)[1] == 126 && Frame(p)[2] == 0 && Frame(p)[3] == 0
    ensures Parse(Frame(p), None) == Parsed(MsgComplete, Some(Msg([], 4)))
  {
    var f := Frame(p);
    var h := Header(true, None, 0, 4);
    FrameHeader(p);
    assert Fin(f) && DecodeHeader(f) == Decoded(h);
    ParseEmpty(f, h);
  }

  /** Frames up to 65536 payload bytes fit the malloc'd buffer. */
  lemma FrameFitsAllocation(p: seq<byte>)
    requires |p| <= 65536
    ensures |Frame(p)| <= FrameAllocation(|p|)
  {
  }

  /** Payloads above 65536 bytes get a frame 2 bytes larger than its allocation: a heap overrun. */
  lemma FrameOverrunsAllocation(p: seq<byte>)
    requires 65536 < |p| < TWO_TO_THE_64
    ensures |Frame(p)| == FrameAllocation(|p|) + 2
  {
  }

  /** Server frames of fewer than 6 payload bytes are below the decoder's own 8-byte minimum. */
  lemma ShortFrameNotDecoded(p: seq<byte>)
    requires |p| < 6
    ensures Parse(Frame(p), None) == Parsed(Reading, None)
  {
  }
}
