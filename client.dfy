/** The client connection: the header decode that turns received bytes
    into messages, the object-id counter, the two-level listener table and
    the loop that dispatches each received message to its listener, and the
    choice of the compositor's socket address from the environment. */
module Connection {
  import opened Wire
  import opened Messages

  // ---------------------------------------------------------------------
  // Reading a message off the connection.

  /** The three fields of the 8-byte message header. */
  datatype Header = Header(objectId: uint32, opCode: uint16, size: uint16)

  /** The header fields, each little-endian: object id in bytes 0-3, opcode
      in bytes 4-5, total size in bytes 6-7. Every 8 bytes decode to exactly
      one header, and the fields re-encode to those same bytes. */
  function DecodeHeader(h: seq<uint8>): (r: Header)
    requires |h| == 8
    ensures LE32(r.objectId) == h[..4]
    ensures LE16(r.opCode) == h[4..6]
    ensures LE16(r.size) == h[6..8]
  {
    FromLE32RoundTrip(h[..4]);
    FromLE16RoundTrip(h[4..6]);
    FromLE16RoundTrip(h[6..8]);
    Header(FromLE32(h[..4]), FromLE16(h[4..6]), FromLE16(h[6..8]))
  }

  /** The number of body bytes read after a header: `size-8` in uint16
      arithmetic, so a size below 8 wraps to a length near 65536. */
  function BodyLength(size: uint16): (len: uint16)
    ensures size >= 8 ==> len + 8 == size
    ensures size < 8 ==> len >= MaxBody
    ensures size < 8 ==> len == size + MaxBody
  {
    (size as int - 8) % 0x1_0000
  }

  /** A message as Read builds it. */
  datatype Frame = Frame(objectId: uint32, opCode: uint16, size: uint16, body: seq<uint8>)

  /** Read on a connection that will deliver `stream`: the next message and
      what is left, or None when the stream ends inside the header or the
      body. */
  function ReadFrame(stream: seq<uint8>): (r: Option<(Frame, seq<uint8>)>)
    ensures r.Some? <==> |stream| >= 8 && |stream| >= 8 + BodyLength(DecodeHeader(stream[..8]).size)
    ensures r.Some? ==>
      var (f, rest) := r.value;
      && DecodeHeader(stream[..8]) == Header(f.objectId, f.opCode, f.size)
      && |f.body| == BodyLength(f.size)
      && stream == stream[..8] + f.body + rest
  {
    if |stream| < 8 then None
    else
      var h := DecodeHeader(stream[..8]);
      var len := BodyLength(h.size);
      if |stream| < 8 + len then None
      else
        var f := Frame(h.objectId, h.opCode, h.size, stream[8..8 + len]);
        assert stream == stream[..8] + stream[8..8 + len] + stream[8 + len..];
        Some((f, stream[8 + len..]))
  }

  /** Decoding the header of a serialized message gives back its object id,
      its opcode and the size Bytes wrote. */
  lemma HeaderOfBytes(frame: seq<uint8>, objectId: uint32, opCode: uint16, body: seq<uint8>)
    requires IsFrameOf(frame, objectId, opCode, body)
    ensures DecodeHeader(frame[..8]) == Header(objectId, opCode, (8 + |body|) % 0x1_0000)
  {
    var h := frame[..8];
    assert h[..4] == frame[..4] && h[4..6] == frame[4..6] && h[6..8] == frame[6..8];
    LE32RoundTrip(objectId);
    LE16RoundTrip(opCode);
    LE16RoundTrip(|frame| % 0x1_0000);
  }

  /** Round trip through the connection: the bytes Bytes produces for a body
      under MaxBody, followed by anything, are read back as exactly that
      message, with its size `8 + |body|`, and the rest is left unread. */
  lemma ReadFrameOfBytes(frame: seq<uint8>, objectId: uint32, opCode: uint16, body: seq<uint8>,
                         rest: seq<uint8>)
    requires IsFrameOf(frame, objectId, opCode, body) && |body| < MaxBody
    ensures ReadFrame(frame + rest) == Some((Frame(objectId, opCode, 8 + |body|, body), rest))
  {
    var stream := frame + rest;
    assert stream[..8] == frame[..8];
    HeaderOfBytes(frame, objectId, opCode, body);
    assert stream[8..8 + |body|] == frame[8..] == body;
    assert stream[8 + |body|..] == rest;
  }

  // ---------------------------------------------------------------------
  // Listeners.

  /** A registered listener. Listeners are Go closures; here each is an
      opaque token, and invoking one is recorded rather than executed. */
  datatype Handler = Handler(token: nat)

  /** The listener table: object id, then opcode, to listener. */
  type Table = map<uint32, map<uint16, Handler>>

  /** The listener a message for (`objectId`, `opCode`) reaches, if any. */
  function Dispatch(table: Table, objectId: uint32, opCode: uint16): (h: Option<Handler>)
    ensures h.Some? <==> objectId in table && opCode in table[objectId]
    ensures h.Some? ==> h.value == table[objectId][opCode]
  {
    if objectId in table && opCode in table[objectId] then Some(table[objectId][opCode]) else None
  }

  /** The table after On(objectId, opCode, h): the pair reaches `h`, whether
      or not something was registered there before, the inner map for
      `objectId` exists, and every other pair reaches what it reached. */
  function Register(table: Table, objectId: uint32, opCode: uint16, h: Handler): (t: Table)
    ensures Dispatch(t, objectId, opCode) == Some(h)
    ensures forall id, op :: (id != objectId || op != opCode) ==>
      Dispatch(t, id, op) == Dispatch(table, id, op)
    ensures t.Keys == table.Keys + {objectId}
  {
    var inner := if objectId in table then table[objectId] else map[];
    table[objectId := inner[opCode := h]]
  }

  /** Registering twice for one pair keeps only the second listener. */
  lemma RegisterReplaces(table: Table, objectId: uint32, opCode: uint16, h1: Handler, h2: Handler)
    ensures Register(Register(table, objectId, opCode, h1), objectId, opCode, h2)
         == Register(table, objectId, opCode, h2)
  {
    var t1 := Register(table, objectId, opCode, h1);
    var inner := if objectId in table then table[objectId] else map[];
    assert t1[objectId] == inner[opCode := h1];
    assert inner[opCode := h1][opCode := h2] == inner[opCode := h2];
  }

  /** Registrations for different pairs do not interfere: their order does
      not matter. */
  lemma RegisterCommutes(table: Table, id1: uint32, op1: uint16, h1: Handler,
                         id2: uint32, op2: uint16, h2: Handler)
    requires id1 != id2 || op1 != op2
    ensures Register(Register(table, id1, op1, h1), id2, op2, h2)
         == Register(Register(table, id2, op2, h2), id1, op1, h1)
  {
    var a := Register(Register(table, id1, op1, h1), id2, op2, h2);
    var b := Register(Register(table, id2, op2, h2), id1, op1, h1);
    assert a.Keys == b.Keys;
    forall id | id in a
      ensures a[id] == b[id]
    {
      assert a[id].Keys == b[id].Keys by {
        forall op ensures op in a[id] <==> op in b[id] {
          assert Dispatch(a, id, op) == Dispatch(b, id, op);
        }
      }
      forall op | op in a[id]
        ensures a[id][op] == b[id][op]
      {
        assert Dispatch(a, id, op) == Dispatch(b, id, op);
      }
    }
  }

  /** What Listen does with the messages `stream` delivers: for each message
      read, in order, the listener invoked and the message it is given;
      messages nobody listens for are skipped. Listening stops when a read
      fails. */
  function Deliveries(table: Table, stream: seq<uint8>): seq<(Handler, Frame)>
    decreases |stream|
  {
    match ReadFrame(stream)
    case None => []
    case Some((f, rest)) =>
      var here := Dispatch(table, f.objectId, f.opCode);
      (if here.Some? then [(here.value, f)] else []) + Deliveries(table, rest)
  }

  /** With no listener registered, nothing is delivered, whatever arrives. */
  lemma {:induction false} NothingRegistered(stream: seq<uint8>)
    ensures Deliveries(map[], stream) == []
    decreases |stream|
  {
    match ReadFrame(stream)
    case None =>
    case Some((f, rest)) =>
      NothingRegistered(rest);
  }

  /** Each message takes at least its eight header bytes, so a stream of
      `n` bytes delivers at most `n / 8` messages. */
  lemma {:induction false} DeliveriesBound(table: Table, stream: seq<uint8>)
    ensures |Deliveries(table, stream)| <= |stream| / 8
    decreases |stream|
  {
    match ReadFrame(stream)
    case None =>
    case Some((f, rest)) =>
      DeliveriesBound(table, rest);
  }

  /** Every invocation goes to exactly the listener registered for the
      message's object id and opcode. */
  lemma {:induction false} DeliveriesDispatch(table: Table, stream: seq<uint8>)
    ensures forall i :: 0 <= i < |Deliveries(table, stream)| ==>
      var (h, f) := Deliveries(table, stream)[i];
      Dispatch(table, f.objectId, f.opCode) == Some(h)
    decreases |stream|
  {
    match ReadFrame(stream)
    case None =>
    case Some((f, rest)) =>
      DeliveriesDispatch(table, rest);
  }

  /** A serialized message that reaches a listener is delivered to it, and
      listening goes on with the bytes after it. */
  lemma DeliversRegistered(table: Table, frame: seq<uint8>, objectId: uint32, opCode: uint16,
                           body: seq<uint8>, rest: seq<uint8>)
    requires IsFrameOf(frame, objectId, opCode, body) && |body| < MaxBody
    requires Dispatch(table, objectId, opCode).Some?
    ensures Deliveries(table, frame + rest)
         == [(Dispatch(table, objectId, opCode).value, Frame(objectId, opCode, 8 + |body|, body))]
            + Deliveries(table, rest)
  {
    ReadFrameOfBytes(frame, objectId, opCode, body, rest);
  }

  /** A serialized message that no listener is registered for is dropped:
      listening goes on as if it had never been sent. */
  lemma DropsUnregistered(table: Table, frame: seq<uint8>, objectId: uint32, opCode: uint16,
                          body: seq<uint8>, rest: seq<uint8>)
    requires IsFrameOf(frame, objectId, opCode, body) && |body| < MaxBody
    requires Dispatch(table, objectId, opCode).None?
    ensures Deliveries(table, frame + rest) == Deliveries(table, rest)
  {
    ReadFrameOfBytes(frame, objectId, opCode, body, rest);
    assert [] + Deliveries(table, rest) == Deliveries(table, rest);
  }

  // ---------------------------------------------------------------------
  // The client.

  class Client {
    /** Where the connection was dialled. */
    var address: string
    /** The bytes the compositor has yet to deliver on the connection. */
    var pending: seq<uint8>
    /** The last object id handed out. */
    var objectId: uint32
    var listeners: Table

    /** A client with no ids handed out and no listeners. */
    constructor (address: string, incoming: seq<uint8>)
      ensures this.address == address && pending == incoming
      ensures objectId == 0 && listeners == map[]
    {
      this.address := address;
      pending := incoming;
      objectId := 0;
      listeners := map[];
    }

    /** Increments the counter, wrapping at 2^32, and returns the new value. */
    method NewObjectId() returns (id: uint32)
      modifies this`objectId
      ensures objectId == (old(objectId) + 1) % 0x1_0000_0000
      ensures id == objectId
    {
      objectId := (objectId + 1) % 0x1_0000_0000;
      id := objectId;
    }

    /** Registers `h` for (`objectId`, `opCode`), replacing any earlier one. */
    method On(objectId: uint32, opCode: uint16, h: Handler)
      modifies this`listeners
      ensures listeners == Register(old(listeners), objectId, opCode, h)
    {
      var inner: map<uint16, Handler>;
      if objectId in listeners {
        inner := listeners[objectId];
      } else {
        listeners := listeners[objectId := map[]];
        inner := listeners[objectId];
      }
      listeners := listeners[objectId := inner[opCode := h]];
    }

    /** Reads the next message. When the connection ends first, the read
        consumes what was left and gives null. */
    method Read() returns (m: Message?)
      modifies this`pending
      ensures ReadFrame(old(pending)).None? ==> m == null && pending == []
      ensures ReadFrame(old(pending)).Some? ==>
        var (f, rest) := ReadFrame(old(pending)).value;
        && m != null && fresh(m)
        && m.objectId == f.objectId && m.opCode == f.opCode
        && m.size == f.size && m.body == f.body
        && m.n == 0 && m.fds == [] && m.nextFd == 0
        && pending == rest
    {
      if |pending| < 8 {
        pending := [];
        return null;
      }
      var header := pending[..8];
      var size := FromLE16(header[6..8]);
      var len := (size as int - 8) % 0x1_0000;
      if |pending| < 8 + len {
        pending := [];
        return null;
      }
      var body := pending[8..8 + len];
      pending := pending[8 + len..];
      m := new Message(FromLE32(header[..4]), FromLE16(header[4..6]), size, body);
    }

    /** Reads messages until the connection ends, handing each to the
        listener registered for its object id and opcode; returns the
        invocations made, in order. */
    method Listen() returns (invoked: seq<(Handler, Frame)>)
      modifies this`pending
      ensures invoked == Deliveries(listeners, old(pending))
      ensures pending == []
    {
      invoked := [];
      while true
        invariant Deliveries(listeners, old(pending)) == invoked + Deliveries(listeners, pending)
        decreases |pending|
      {
        ghost var before := pending;
        var msg := Read();
        if msg == null {
          return;
        }
        var f := Frame(msg.objectId, msg.opCode, msg.size, msg.body);
        var h := Dispatch(listeners, msg.objectId, msg.opCode);
        if h.Some? {
          invoked := invoked + [(h.value, f)];
        }
        assert Deliveries(listeners, before)
            == (if h.Some? then [(h.value, f)] else []) + Deliveries(listeners, pending);
      }
    }
  }

  /** The first id a new client hands out is 1, the id the generated
      bindings give wl_display. */
  method FirstIdIsDisplay(address: string, incoming: seq<uint8>) returns (id: uint32)
    ensures id == 1
  {
    var c := new Client(address, incoming);
    id := c.NewObjectId();
  }

  /** Two successive ids differ by one, up to the wrap at 2^32. */
  method SuccessiveIds(address: string, incoming: seq<uint8>, start: uint32) returns (a: uint32, b: uint32)
    ensures a == (start + 1) % 0x1_0000_0000
    ensures b == (a + 1) % 0x1_0000_0000
    ensures a < 0xFFFF_FFFF ==> b == a + 1
  {
    var c := new Client(address, incoming);
    c.objectId := start;
    a := c.NewObjectId();
    b := c.NewObjectId();
  }

  // ---------------------------------------------------------------------
  // Choosing the compositor's socket.

  /** os.Getenv over a snapshot of the environment: "" when unset. */
  function Getenv(env: map<string, string>, key: string): (v: string)
    ensures key in env ==> v == env[key]
    ensures v != "" ==> key in env
  {
    if key in env then env[key] else ""
  }

  /** filepath.Join of a non-empty directory and a file name. */
  function Join(dir: string, name: string): (path: string)
    ensures |path| == |dir| + 1 + |name| && path[|dir|] == '/'
    ensures path[..|dir|] == dir && path[|dir| + 1..] == name
  {
    dir + "/" + name
  }

  const NoCompositor := "no Wayland compositor detected"

  /** The address NewClient dials. */
  function ResolveAddress(env: map<string, string>): (r: Result<string>)
    ensures var socket, display, runtime :=
        Getenv(env, "WAYLAND_SOCKET"), Getenv(env, "WAYLAND_DISPLAY"), Getenv(env, "XDG_RUNTIME_DIR");
      && (r.Ok? <==> socket != "" || runtime != "")
      && (socket != "" ==> r == Ok(socket))
      && (socket == "" && runtime != "" && display != "" ==> r == Ok(Join(runtime, display)))
      && (socket == "" && runtime != "" && display == "" ==> r == Ok(Join(runtime, "wayland-0")))
      && (r.Err? ==> r.msg == NoCompositor)
  {
    var address := Getenv(env, "WAYLAND_SOCKET");
    if address != "" then Ok(address)
    else
      var waylandDisplay := Getenv(env, "WAYLAND_DISPLAY");
      var xdgRuntimeDir := Getenv(env, "XDG_RUNTIME_DIR");
      if waylandDisplay != "" && xdgRuntimeDir != "" then Ok(Join(xdgRuntimeDir, waylandDisplay))
      else if xdgRuntimeDir != "" then Ok(Join(xdgRuntimeDir, "wayland-0"))
      else Err(NoCompositor)
  }

  /** A display name alone is not enough: without XDG_RUNTIME_DIR (and
      without WAYLAND_SOCKET) there is no address, whatever the name. */
  lemma DisplayNeedsRuntimeDir(env: map<string, string>)
    requires Getenv(env, "WAYLAND_SOCKET") == "" && Getenv(env, "XDG_RUNTIME_DIR") == ""
    ensures ResolveAddress(env) == Err(NoCompositor)
  {
  }

  /** A resolved address is never empty, and unless WAYLAND_SOCKET gave it
      outright it is XDG_RUNTIME_DIR joined with a non-empty name: the
      display name, or `wayland-0`. */
  lemma ResolvedAddress(env: map<string, string>)
    requires ResolveAddress(env).Ok?
    ensures ResolveAddress(env).value != ""
    ensures Getenv(env, "WAYLAND_SOCKET") == "" ==>
      var runtime := Getenv(env, "XDG_RUNTIME_DIR");
      exists name :: name != "" && name in {Getenv(env, "WAYLAND_DISPLAY"), "wayland-0"}
        && ResolveAddress(env).value == Join(runtime, name)
  {
    if Getenv(env, "WAYLAND_SOCKET") == "" {
      var display := Getenv(env, "WAYLAND_DISPLAY");
      var name := if display != "" then display else "wayland-0";
      assert name in {display, "wayland-0"};
    }
  }

  /** NewClient: resolves the address and dials it. `dial` is what dialling
      that address gives: the bytes the compositor will send, or an error. */
  method NewClient(env: map<string, string>, dial: Result<seq<uint8>>) returns (c: Client?, err: Option<string>)
    ensures ResolveAddress(env).Err? ==> c == null && err == Some(NoCompositor)
    ensures ResolveAddress(env).Ok? && dial.Err? ==> c == null && err == Some(dial.msg)
    ensures ResolveAddress(env).Ok? && dial.Ok? ==>
      && c != null && fresh(c) && err == None
      && c.address == ResolveAddress(env).value && c.pending == dial.value
      && c.objectId == 0 && c.listeners == map[]
  {
    var address := ResolveAddress(env);
    if address.Err? {
      return null, Some(address.msg);
    }
    if dial.Err? {
      return null, Some(dial.msg);
    }
    c := new Client(address.value, dial.value);
    err := None;
  }
}
