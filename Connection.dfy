/**
 * The per-connection state of src/websocket.c and the operations that change
 * it: ws_add_data (decode and dispatch loop), ws_execute (sticky backend
 * session), ws_handshake_reply, ws_frame_and_send_response and the
 * write-scheduling pair ws_schedule_write / ws_can_write.
 */
module Connection {
  import opened Wrappers
  import opened Bytes
  import opened Decoder
  import opened Encoder
  import opened Handshake
  import opened Dispatch

  /** What a run of ws_add_data leaves: its result, the input buffer, the accumulator, the payloads it dispatched. */
  datatype Drained = Drained(state: WsState, buffer: seq<byte>, frame: Option<Msg>, executed: seq<seq<byte>>)

  /** `executed` of `d`, with `done` dispatched before it. */
  function Prepend(done: seq<seq<byte>>, d: Drained): Drained
  {
    d.(executed := done + d.executed)
  }

  /** The buffer and accumulator a parse result may be followed by in ws_add_data. */
  ghost predicate Fits(buf: seq<byte>, r: Parsed)
  {
    && (r.state == MsgComplete ==> r.msg.Some? && 0 < r.msg.value.totalSz <= |buf|)
    && (r.state != MsgComplete && r.msg.Some? ==> Stalled(buf))
  }

  /**
   * ws_add_data (src/websocket.c:331-355): parse from the front of the
   * buffer; for each complete message dispatch its payload, trim `total_sz`
   * bytes, drop the accumulator, stop with Error if dispatch failed, parse again.
   */
  function Drain(buf: seq<byte>, frame: Option<Msg>, path: seq<byte>, extract: Extractor): (d: Drained)
    requires frame.Some? ==> Stalled(buf)
    ensures d.state != MsgComplete
    ensures d.frame.Some? ==> Stalled(d.buffer)
    ensures forall i :: 0 <= i < |d.executed| ==> Dispatchable(path, extract, d.executed[i])
    decreases |buf|, 1
  {
    ParseLeavesStalled(buf, frame);
    Continue(buf, Parse(buf, frame), path, extract)
  }

  /** The loop of ws_add_data, from the result of its latest ws_parse_data call. */
  function Continue(buf: seq<byte>, r: Parsed, path: seq<byte>, extract: Extractor): (d: Drained)
    requires Fits(buf, r)
    ensures d.state != MsgComplete
    ensures d.frame.Some? ==> Stalled(d.buffer)
    ensures forall i :: 0 <= i < |d.executed| ==> Dispatchable(path, extract, d.executed[i])
    decreases |buf|, 0
  {
    if r.state != MsgComplete then Drained(r.state, buf, r.msg, [])
    else
      var m := r.msg.value;
      var rest := buf[m.totalSz..];
      if !Dispatchable(path, extract, m.payload) then Drained(Error, rest, None, [])
      else
        var d := Drain(rest, None, path, extract);
        Prepend([m.payload], d)
  }

  /** One turn of ws_add_data's loop: Drain is Continue after one more ws_parse_data. */
  lemma DrainUnfolds(buf: seq<byte>, frame: Option<Msg>, path: seq<byte>, extract: Extractor)
    requires frame.Some? ==> Stalled(buf)
    ensures Fits(buf, Parse(buf, frame))
    ensures Drain(buf, frame, path, extract) == Continue(buf, Parse(buf, frame), path, extract)
  {
    ParseLeavesStalled(buf, frame);
  }

  /** A loop exit without a complete message: Continue adds nothing to what was dispatched. */
  lemma ContinueStops(done: seq<seq<byte>>, buf: seq<byte>, r: Parsed, path: seq<byte>, extract: Extractor)
    requires Fits(buf, r) && r.state != MsgComplete
    ensures Prepend(done, Continue(buf, r, path, extract)) == Drained(r.state, buf, r.msg, done)
  {
    assert done + [] == done;
  }

  /** A rejected message ends the loop with Error, trimmed and without accumulator. */
  lemma ContinueRejects(done: seq<seq<byte>>, buf: seq<byte>, m: Msg, path: seq<byte>, extract: Extractor)
    requires Fits(buf, Parsed(MsgComplete, Some(m))) && !Dispatchable(path, extract, m.payload)
    ensures Prepend(done, Continue(buf, Parsed(MsgComplete, Some(m)), path, extract)) == Drained(Error, buf[m.totalSz..], None, done)
  {
    assert done + [] == done;
  }

  /** An accepted message is dispatched and the loop goes on with what is behind it. */
  lemma ContinueAccepts(done: seq<seq<byte>>, buf: seq<byte>, m: Msg, path: seq<byte>, extract: Extractor)
    requires Fits(buf, Parsed(MsgComplete, Some(m))) && Dispatchable(path, extract, m.payload)
    ensures Prepend(done, Continue(buf, Parsed(MsgComplete, Some(m)), path, extract))
         == Prepend(done + [m.payload], Drain(buf[m.totalSz..], None, path, extract))
  {
    var rest := Drain(buf[m.totalSz..], None, path, extract);
    assert done + ([m.payload] + rest.executed) == (done + [m.payload]) + rest.executed;
  }

  /**
   * The bookkeeping of one accepted message in ws_add_data's loop: what was
   * dispatched, what Drain still has to do and the commands sent so far all
   * move on by that message.
   */
  lemma AcceptStep(d0: Drained, done: seq<seq<byte>>, buf: seq<byte>, m: Msg, path: seq<byte>,
                   extract: Extractor, connect: nat -> Ctx, self0: Option<Cmd>, sent0: seq<Cmd>,
                   selfB: Option<Cmd>, sentB: seq<Cmd>, self1: Option<Cmd>, sent1: seq<Cmd>)
    requires Fits(buf, Parsed(MsgComplete, Some(m))) && Dispatchable(path, extract, m.payload)
    requires forall i :: 0 <= i < |done| ==> Dispatchable(path, extract, done[i])
    requires d0 == Prepend(done, Continue(buf, Parsed(MsgComplete, Some(m)), path, extract))
    requires sentB == sent0 + Executions(self0, path, extract, connect, done)
    requires selfB == SessionAfter(self0, Executions(self0, path, extract, connect, done))
    requires
      var fmt := Route(path).value;
      var c := CmdFor(selfB, fmt, extract(fmt, m.payload).value, connect);
      sent1 == sentB + [c] && self1 == SessionAfter(selfB, [c])
    ensures forall i :: 0 <= i < |done + [m.payload]| ==> Dispatchable(path, extract, (done + [m.payload])[i])
    ensures d0 == Prepend(done + [m.payload], Drain(buf[m.totalSz..], None, path, extract))
    ensures sent1 == sent0 + Executions(self0, path, extract, connect, done + [m.payload])
    ensures self1 == SessionAfter(self0, Executions(self0, path, extract, connect, done + [m.payload]))
  {
    ContinueAccepts(done, buf, m, path, extract);
    ExecutionsExtend(self0, sent0, path, extract, connect, done, m.payload, sentB, selfB);
  }

  /** The concatenation of some frames, as they arrive in one read. */
  function Concat(frames: seq<seq<byte>>): seq<byte>
  {
    if frames == [] then [] else frames[0] + Concat(frames[1..])
  }

  /** `f` is one complete final frame carrying `p`. */
  predicate CompleteFrame(f: seq<byte>, p: seq<byte>)
  {
    Parse(f, None) == Parsed(MsgComplete, Some(Msg(p, |f|)))
  }

  // ---------------------------------------------------------------------
  // Properties of the decode/dispatch loop
  // ---------------------------------------------------------------------

  /**
   * Pipelining: complete final frames read together are all dispatched, in
   * order, each once; the trims add up to the whole buffer, and the loop
   * ends reading with no accumulator.
   */
  lemma {:induction false} DrainPipelined(frames: seq<seq<byte>>, payloads: seq<seq<byte>>, path: seq<byte>, extract: Extractor)
    requires |frames| == |payloads|
    requires forall i :: 0 <= i < |frames| ==> CompleteFrame(frames[i], payloads[i])
    requires forall i :: 0 <= i < |payloads| ==> Dispatchable(path, extract, payloads[i])
    ensures Drain(Concat(frames), None, path, extract) == Drained(Reading, [], None, payloads)
    decreases |frames|
  {
    if frames == [] {
      assert Parse([], None) == Parsed(Reading, None);
    } else {
      var f, rest := frames[0], Concat(frames[1..]);
      assert CompleteFrame(f, payloads[0]) && Dispatchable(path, extract, payloads[0]);
      CompleteFrameIsDecoded(f, payloads[0]);
      ParseIgnoresLaterBytes(f, rest, None);
      assert (f + rest)[|f|..] == rest;
      DrainPipelined(frames[1..], payloads[1..], path, extract);
      assert [payloads[0]] + payloads[1..] == payloads;
    }
  }

  /** Two complete final frames in one buffer: both are dispatched and the buffer is used up. */
  lemma DrainTwoFrames(f1: seq<byte>, p1: seq<byte>, f2: seq<byte>, p2: seq<byte>, path: seq<byte>, extract: Extractor)
    requires CompleteFrame(f1, p1) && CompleteFrame(f2, p2)
    requires Dispatchable(path, extract, p1) && Dispatchable(path, extract, p2)
    ensures Drain(f1 + f2, None, path, extract) == Drained(Reading, [], None, [p1, p2])
  {
    assert Concat([f1, f2]) == f1 + f2 by {
      assert Concat([f2]) == f2 + Concat([]);
      assert [f1, f2][1..] == [f2];
    }
    DrainPipelined([f1, f2], [p1, p2], path, extract);
  }

  /**
   * A message whose dispatch fails is still trimmed from the buffer and its
   * accumulator dropped; ws_add_data then returns Error without parsing on.
   */
  lemma DrainStopsOnRejected(f: seq<byte>, p: seq<byte>, more: seq<byte>, path: seq<byte>, extract: Extractor)
    requires CompleteFrame(f, p) && !Dispatchable(path, extract, p)
    ensures Drain(f + more, None, path, extract) == Drained(Error, more, None, [])
  {
    CompleteFrameIsDecoded(f, p);
    ParseIgnoresLaterBytes(f, more, None);
    assert (f + more)[|f|..] == more;
  }

  /**
   * A non-final first frame is never trimmed: whatever arrives behind it,
   * ws_add_data keeps returning Reading, dispatches nothing, leaves the buffer
   * as it is, and appends the first frame's payload to the accumulator again.
   */
  lemma DrainStallsOnFragment(buf: seq<byte>, more: seq<byte>, frame: Option<Msg>, path: seq<byte>, extract: Extractor)
    requires Stalled(buf)
    ensures
      var h := DecodeHeader(buf).header;
      var base := frame.GetOr(NewMsg);
      var d := Drain(buf + more, frame, path, extract);
      && d.state == Reading && d.buffer == buf + more && d.executed == []
      && d.frame == Some(Msg(base.payload + Unmask(buf[h.size..h.size + h.len], h.mask), base.totalSz + h.len + h.size))
  {
    StalledStaysStalled(buf, more);
    ParseIgnoresLaterBytes(buf, more, frame);
    ParseDecoded(buf, frame, DecodeHeader(buf).header);
    DrainWaits(buf + more, frame, path, extract);
  }

  /** When the first parse does not complete a message, ws_add_data returns its result and dispatches nothing. */
  lemma DrainWaits(buf: seq<byte>, frame: Option<Msg>, path: seq<byte>, extract: Extractor)
    requires frame.Some? ==> Stalled(buf)
    requires Parse(buf, frame).state != MsgComplete
    ensures Drain(buf, frame, path, extract) == Drained(Parse(buf, frame).state, buf, Parse(buf, frame).msg, [])
  {
    ParseLeavesStalled(buf, frame);
  }

  // ---------------------------------------------------------------------
  // The connection
  // ---------------------------------------------------------------------

  /** The WebSocket part of struct http_client. */
  class Client {
    /** The request path and headers, fixed when the connection was upgraded. */
    const path: seq<byte>
    const headers: Headers
    /** `c->buffer`/`c->sz`: the bytes read from the socket and not yet consumed. */
    var buffer: seq<byte>
    /** `c->frame`: the message accumulator, NULL between messages. */
    var frame: Option<Msg>
    /** `c->self_cmd`: the first command, whose backend handle later commands reuse. */
    var selfCmd: Option<Cmd>
    /** The commands handed to cmd_send, in order. */
    var sent: seq<Cmd>
    /** `c->ws_wbuf`: bytes queued for the socket. */
    var wbuf: seq<byte>
    /** `c->ws_scheduled_write`: a write event is registered. */
    var scheduledWrite: bool
    /** The socket was closed by ws_can_write. */
    var fdClosed: bool

    /**
     * An accumulator exists only behind a complete non-final first frame,
     * and the backend session is sticky.
     */
    ghost predicate Valid()
      reads this
    {
      && (frame.Some? ==> Stalled(buffer))
      && Sticky(selfCmd, sent)
    }

    constructor (path: seq<byte>, headers: Headers)
      ensures Valid()
      ensures this.path == path && this.headers == headers
      ensures buffer == [] && frame == None && selfCmd == None && sent == []
      ensures wbuf == [] && !scheduledWrite && !fdClosed
    {
      this.path := path;
      this.headers := headers;
      buffer, frame, selfCmd, sent := [], None, None, [];
      wbuf, scheduledWrite, fdClosed := [], false, false;
    }

    /** The HTTP layer appends newly read bytes to the input buffer. */
    method Receive(data: seq<byte>)
      requires Valid()
      modifies this`buffer
      ensures Valid()
      ensures buffer == old(buffer) + data
    {
      if frame.Some? {
        StalledStaysStalled(buffer, data);
      }
      buffer := buffer + data;
    }

    /**
     * ws_handshake_reply: on success a new output buffer holds exactly the
     * reply and a write is scheduled; a refused handshake or an allocation
     * failure changes nothing; a failed evbuffer_add leaves the new, empty
     * output buffer. `allocFails` stands for calloc, malloc or evbuffer_new
     * returning NULL, `addFails` for evbuffer_add failing, `eventAddRet` for
     * what event_add returns.
     */
    method HandshakeReply(crypto: Crypto, allocFails: bool, addFails: bool, eventAddRet: int) returns (ret: int)
      modifies this`wbuf, this`scheduledWrite
      ensures var r := HandshakeResponse(headers, path, crypto);
        && (ret == 0 || ret == -1)
        && (ret == 0 <==> r.Some? && !allocFails && !addFails)
        && (r.None? || allocFails ==> wbuf == old(wbuf) && scheduledWrite == old(scheduledWrite))
        && (r.Some? && !allocFails && addFails ==> wbuf == [] && scheduledWrite == old(scheduledWrite))
        && (ret == 0 ==> wbuf == r.value && scheduledWrite == (old(scheduledWrite) || eventAddRet == 0))
    {
      var reply := HandshakeResponse(headers, path, crypto);
      if reply.None? || allocFails {
        return -1;
      }
      wbuf := [];
      if addFails {
        return -1;
      }
      wbuf := wbuf + reply.value;
      ScheduleWrite(eventAddRet);
      return 0;
    }

    /**
     * ws_execute: route by path, extract a command, bind it to the sticky
     * backend session and send it. `extract` is the adapter's extraction
     * function, `connect` what pool_connect returns for a database.
     */
    method Execute(payload: seq<byte>, extract: Extractor, connect: nat -> Ctx) returns (ret: int)
      requires Sticky(selfCmd, sent)
      modifies this`selfCmd, this`sent
      ensures Sticky(selfCmd, sent)
      ensures ret == 0 <==> Dispatchable(path, extract, payload)
      ensures ret != 0 ==> ret == -1 && selfCmd == old(selfCmd) && sent == old(sent)
      ensures ret == 0 ==>
        var fmt := Route(path).value;
        var c := CmdFor(old(selfCmd), fmt, extract(fmt, payload).value, connect);
        && sent == old(sent) + [c]
        && selfCmd == SessionAfter(old(selfCmd), [c])
        && c.ac == (if old(selfCmd).Some? then old(selfCmd).value.ac else connect(c.request.database))
    {
      var fmt := Route(path);
      if fmt.Some? {
        var cmd := extract(fmt.value, payload);
        if cmd.Some? {
          var c := CmdFor(selfCmd, fmt.value, cmd.value, connect);
          if selfCmd.None? {
            selfCmd := Some(c);
          }
          CmdForKeepsSticky(old(selfCmd), sent, fmt.value, cmd.value, connect);
          sent := sent + [c];
          return 0;
        }
      }
      return -1;
    }

    /**
     * ws_add_data: the new buffer, accumulator and result are those of
     * Drain, and the commands sent are one per dispatched payload, all on
     * the sticky session.
     */
    method AddData(extract: Extractor, connect: nat -> Ctx) returns (state: WsState)
      requires Valid()
      modifies this`buffer, this`frame, this`selfCmd, this`sent
      ensures Valid()
      ensures var d := Drain(old(buffer), old(frame), path, extract);
        && state == d.state && buffer == d.buffer && frame == d.frame
        && sent == old(sent) + Executions(old(selfCmd), path, extract, connect, d.executed)
        && selfCmd == SessionAfter(old(selfCmd), Executions(old(selfCmd), path, extract, connect, d.executed))
    {
      ghost var d0 := Drain(buffer, frame, path, extract);
      ghost var done: seq<seq<byte>> := [];
      ghost var self0, sent0 := selfCmd, sent;
      var buf, msg := buffer, frame;
      DrainUnfolds(buf, msg, path, extract);
      state, msg := ParseData(buf, msg);
      while state == MsgComplete
        invariant Fits(buf, Parsed(state, msg))
        invariant forall i :: 0 <= i < |done| ==> Dispatchable(path, extract, done[i])
        invariant d0 == Prepend(done, Continue(buf, Parsed(state, msg), path, extract))
        invariant sent == sent0 + Executions(self0, path, extract, connect, done)
        invariant selfCmd == SessionAfter(self0, Executions(self0, path, extract, connect, done))
        invariant Sticky(selfCmd, sent)
        decreases |buf|
      {
        var m := msg.value;
        ghost var sentBefore, selfBefore := sent, selfCmd;
        var ret := Execute(m.payload, extract, connect);
        if ret != 0 {
          ContinueRejects(done, buf, m, path, extract);
          buffer, frame := buf[m.totalSz..], None;
          return Error;
        }
        AcceptStep(d0, done, buf, m, path, extract, connect, self0, sent0,
                   selfBefore, sentBefore, selfCmd, sent);
        buf, msg := buf[m.totalSz..], None;
        done := done + [m.payload];
        DrainUnfolds(buf, msg, path, extract);
        state, msg := ParseData(buf, msg);
      }
      ContinueStops(done, buf, Parsed(state, msg), path, extract);
      buffer, frame := buf, msg;
    }

    /**
     * ws_frame_and_send_response: on success the frame is appended to the
     * output queue and a write scheduled; if the frame cannot be allocated or
     * queued (`addFails`) it returns -1 and schedules nothing.
     */
    method FrameAndSendResponse(p: seq<byte>, addFails: bool, eventAddRet: int) returns (ret: int)
      requires |p| < TWO_TO_THE_64
      modifies this`wbuf, this`scheduledWrite
      ensures addFails ==> ret == -1 && wbuf == old(wbuf) && scheduledWrite == old(scheduledWrite)
      ensures !addFails ==>
        ret == 0 && wbuf == old(wbuf) + Frame(p) && scheduledWrite == (old(scheduledWrite) || eventAddRet == 0)
    {
      var f := Frame(p);
      if addFails {
        return -1;
      }
      wbuf := wbuf + f;
      ScheduleWrite(eventAddRet);
      return 0;
    }

    /**
     * ws_schedule_write: nothing when a write is already registered;
     * otherwise the flag is set exactly when event_add returns 0.
     */
    method ScheduleWrite(eventAddRet: int)
      modifies this`scheduledWrite
      ensures old(scheduledWrite) ==> scheduledWrite
      ensures !old(scheduledWrite) ==> (scheduledWrite <==> eventAddRet == 0)
    {
      if scheduledWrite {
        return;
      }
      if eventAddRet == 0 {
        scheduledWrite := true;
      }
    }

    /**
     * ws_can_write: clears the flag, writes; on a negative result closes the
     * socket; removes the bytes written; registers again only when the write
     * made progress and bytes are still queued. `written` is what
     * evbuffer_write returns, never more than is queued.
     */
    method CanWrite(written: int, eventAddRet: int)
      requires written <= |wbuf|
      modifies this`scheduledWrite, this`wbuf, this`fdClosed
      ensures written < 0 ==> fdClosed && wbuf == old(wbuf)
      ensures written >= 0 ==> wbuf == old(wbuf)[written..] && fdClosed == old(fdClosed)
      ensures scheduledWrite <==> written > 0 && |wbuf| > 0 && eventAddRet == 0
    {
      scheduledWrite := false;
      if written < 0 {
        fdClosed := true;
      } else {
        wbuf := wbuf[written..];
        if written > 0 && |wbuf| > 0 {
          ScheduleWrite(eventAddRet);
        }
      }
    }
  }
}
