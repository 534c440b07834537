/**
 * Message dispatch of src/websocket.c (ws_execute): the request path picks a
 * format adapter, the adapter turns the payload into a command, and the
 * command is bound to the client's one backend connection.
 */
module Dispatch {
  import opened Wrappers
  import opened Bytes

  /** The two format adapters: json_ws_extract/json_reply and raw_ws_extract/raw_reply. */
  datatype Format = Json | Raw

  /**
   * `strncmp(path, lit, n) == 0` for a path without NUL bytes: the path has at
   * least n bytes and they spell `lit` (a shorter path differs at its NUL).
   */
  predicate StrnEq(path: seq<byte>, lit: string, n: nat)
    requires n == |lit|
  {
    |path| >= n && path[..n] == Ascii(lit)
  }

  /** The adapter selection at src/websocket.c:204-211. */
  function Route(path: seq<byte>): Option<Format>
  {
    if (|path| == 1 && StrnEq(path, "/", 1)) || StrnEq(path, "/.json", 6) then Some(Json)
    else if StrnEq(path, "/.raw", 5) then Some(Raw)
    else None
  }

  /** A backend connection handle, as pool_connect hands it out (opaque). */
  type Ctx = nat

  /** What an adapter's extraction function produces (opaque): an identity and a database. */
  datatype Request = Request(id: nat, database: nat)

  /** The adapter's extraction function: a command, or NULL. */
  type Extractor = (Format, seq<byte>) -> Option<Request>

  /** A command handed to cmd_send: its request, reply formatter, backend handle and flags. */
  datatype Cmd = Cmd(request: Request, reply: Format, ac: Ctx, isWebsocket: bool, pubSubClient: bool)

  /** ws_execute returns 0 exactly when the path routes and the adapter extracts a command. */
  predicate Dispatchable(path: seq<byte>, extract: Extractor, payload: seq<byte>)
  {
    Route(path).Some? && extract(Route(path).value, payload).Some?
  }

  /**
   * The command ws_execute builds (src/websocket.c:219-234): flagged as a
   * WebSocket command; it reuses the handle of `self_cmd` when there is one,
   * otherwise it gets a new handle from the pool and becomes `self_cmd`,
   * marked as the client's pub/sub command.
   */
  function CmdFor(self: Option<Cmd>, fmt: Format, req: Request, connect: nat -> Ctx): Cmd
  {
    match self
    case Some(first) => Cmd(req, fmt, first.ac, true, false)
    case None => Cmd(req, fmt, connect(req.database), true, true)
  }

  /** `self_cmd` after some commands were sent: set once, by the first. */
  function SessionAfter(self: Option<Cmd>, cmds: seq<Cmd>): Option<Cmd>
  {
    if self.Some? || cmds == [] then self else Some(cmds[0])
  }

  /** The commands ws_execute sends for a run of dispatchable payloads, starting from `self`. */
  function Executions(self: Option<Cmd>, path: seq<byte>, extract: Extractor, connect: nat -> Ctx,
                      payloads: seq<seq<byte>>): (cmds: seq<Cmd>)
    requires forall i :: 0 <= i < |payloads| ==> Dispatchable(path, extract, payloads[i])
    ensures |cmds| == |payloads|
    decreases |payloads|
  {
    if payloads == [] then []
    else
      var n := |payloads| - 1;
      assert Dispatchable(path, extract, payloads[n]);
      var prev := Executions(self, path, extract, connect, payloads[..n]);
      var fmt := Route(path).value;
      prev + [CmdFor(SessionAfter(self, prev), fmt, extract(fmt, payloads[n]).value, connect)]
  }

  /**
   * One more dispatched payload: the command ws_execute sends for it, bound
   * to the session reached so far, extends the commands sent and the session.
   */
  lemma ExecutionsExtend(self: Option<Cmd>, sent0: seq<Cmd>, path: seq<byte>, extract: Extractor,
                         connect: nat -> Ctx, payloads: seq<seq<byte>>, p: seq<byte>,
                         sent: seq<Cmd>, session: Option<Cmd>)
    requires forall i :: 0 <= i < |payloads| ==> Dispatchable(path, extract, payloads[i])
    requires Dispatchable(path, extract, p)
    requires sent == sent0 + Executions(self, path, extract, connect, payloads)
    requires session == SessionAfter(self, Executions(self, path, extract, connect, payloads))
    ensures forall i :: 0 <= i < |payloads + [p]| ==> Dispatchable(path, extract, (payloads + [p])[i])
    ensures
      var fmt := Route(path).value;
      var c := CmdFor(session, fmt, extract(fmt, p).value, connect);
      && sent + [c] == sent0 + Executions(self, path, extract, connect, payloads + [p])
      && SessionAfter(session, [c]) == SessionAfter(self, Executions(self, path, extract, connect, payloads + [p]))
  {
    assert (payloads + [p])[..|payloads|] == payloads;
    var prev := Executions(self, path, extract, connect, payloads);
    var fmt := Route(path).value;
    var c := CmdFor(session, fmt, extract(fmt, p).value, connect);
    assert Executions(self, path, extract, connect, payloads + [p]) == prev + [c];
    assert sent + [c] == sent0 + (prev + [c]);
  }

  /**
   * The sticky-session invariant: `self_cmd` is set iff a command was sent,
   * it is the first command sent, and every command sent uses its handle.
   */
  predicate Sticky(self: Option<Cmd>, sent: seq<Cmd>)
  {
    && (self.None? <==> sent == [])
    && (self.Some? ==> self.value == sent[0] && self.value.pubSubClient)
    && (forall i :: 0 <= i < |sent| ==> sent[i].isWebsocket && self.Some? && sent[i].ac == self.value.ac)
  }

  // ---------------------------------------------------------------------
  // Properties of dispatch
  // ---------------------------------------------------------------------

  /** `/` and any path starting `/.json` select JSON; a path starting `/.raw` selects raw. */
  lemma RouteSelects(suffix: seq<byte>)
    ensures Route(Ascii("/")) == Some(Json)
    ensures Route(Ascii("/.json") + suffix) == Some(Json)
    ensures Route(Ascii("/.raw") + suffix) == Some(Raw)
  {
    assert (Ascii("/.json") + suffix)[..6] == Ascii("/.json");
    var r := Ascii("/.raw") + suffix;
    assert r[..5] == Ascii("/.raw");
    assert !StrnEq(r, "/.json", 6) by {
      if |r| >= 6 {
        assert r[..6][2] == Ascii("/.raw")[2] != Ascii("/.json")[2];
      }
    }
  }

  /** Every other path (including `/x`, a bare `/.`, `/raw`) has no adapter: ws_execute returns -1. */
  lemma RouteRejects(path: seq<byte>)
    requires path != Ascii("/")
    requires !(|path| >= 6 && path[..6] == Ascii("/.json"))
    requires !(|path| >= 5 && path[..5] == Ascii("/.raw"))
    ensures Route(path).None?
  {
  }

  /** One more command keeps the session sticky, to the handle of the first. */
  lemma CmdForKeepsSticky(self: Option<Cmd>, sent: seq<Cmd>, fmt: Format, req: Request, connect: nat -> Ctx)
    requires Sticky(self, sent)
    ensures var c := CmdFor(self, fmt, req, connect);
      && Sticky(SessionAfter(self, [c]), sent + [c])
      && (self.Some? ==> c.ac == self.value.ac)
      && (self.None? ==> c.ac == connect(req.database))
  {
  }

  /**
   * However many messages are dispatched, the session stays sticky: the
   * first command's handle is the one every later command uses.
   */
  lemma {:induction false} ExecutionsKeepSticky(self: Option<Cmd>, sent: seq<Cmd>, path: seq<byte>,
                               extract: Extractor, connect: nat -> Ctx, payloads: seq<seq<byte>>)
    requires Sticky(self, sent)
    requires forall i :: 0 <= i < |payloads| ==> Dispatchable(path, extract, payloads[i])
    ensures var cmds := Executions(self, path, extract, connect, payloads);
      Sticky(SessionAfter(self, cmds), sent + cmds)
    decreases |payloads|
  {
    if payloads != [] {
      var n := |payloads| - 1;
      var prev := Executions(self, path, extract, connect, payloads[..n]);
      ExecutionsKeepSticky(self, sent, path, extract, connect, payloads[..n]);
      assert Dispatchable(path, extract, payloads[n]);
      var s := SessionAfter(self, prev);
      var fmt := Route(path).value;
      var c := CmdFor(s, fmt, extract(fmt, payloads[n]).value, connect);
      CmdForKeepsSticky(s, sent + prev, fmt, extract(fmt, payloads[n]).value, connect);
      var cmds := prev + [c];
      assert SessionAfter(s, [c]) == SessionAfter(self, cmds);
      assert sent + prev + [c] == sent + cmds;
    }
  }
}
