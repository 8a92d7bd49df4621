/** The connection of protocol/connection.c as a function from a received frame, and what
    callbacks and transport answer, to the next state, the callbacks made and the frames sent. */
module Protocol {
  import opened Mem
  import opened Bytes
  import opened Frame
  import opened Streams

  const HELLO: U32 := 0x0001
  const HELLO_ACK: U32 := 0x0002
  const HELLO_NACK: U32 := 0x0003
  const PING: U32 := 0x0004
  const PONG: U32 := 0x0005
  const ERROR: U32 := 0x0006
  const CLOSE: U32 := 0x0007
  const TOKEN: U32 := 0x0203
  const COMPLETE: U32 := 0x0204
  const STREAM_DATA: U32 := 0x0301
  const STREAM_CLOSE: U32 := 0x0302

  const NACK_VERSION: U32 := 1
  const NACK_CAPS: U32 := 2
  const CLOSE_NORMAL: U32 := 0
  const CLOSE_PROTOCOL: U32 := 1
  const CLOSE_PEER_GONE: U32 := 3
  const CAP_KNOWN: bv32 := 0x7F

  datatype Role = Client | Server
  datatype State = New | Negotiating | Open | Closed

  /** The callbacks a connection makes, in order. `Token` and `Data` are both on_stream_data. */
  datatype Event =
    | OnHello(remote: bv32)
    | OnMessage(frame: Frame)
    | OnBegin(request: U64, session: U64)
    | OnData(request: U64, session: U64, kind: nat, seq_: U32, data: seq<bv8>)
    | OnToken(request: U64, session: U64, ordinal: U32, data: seq<bv8>)
    | OnEnd(request: U64, session: U64)
    | OnClose(reason: U32)

  datatype Conn = Conn(role: Role, localCaps: bv32, remoteCaps: bv32, negotiated: bv32, state: State,
                       nackReason: U32, nextRequest: U64, table: Table, trace: seq<Event>, sent: seq<Frame>)

  /** What the outside answers while one frame is handled: the result of on_hello if there
      is such a callback, the ERROR payload if on_message fails, and whether the transport
      accepts what is sent. */
  datatype Reply = Reply(hello: Option<bv32>, error: Option<seq<bv8>>, delivered: bool)

  predicate Shaped(c: Conn) {
    |c.table.ids| == |c.table.seqs| == MAX_STREAMS
  }

  function Init(role: Role, caps: bv32): Conn {
    Conn(role, caps & CAP_KNOWN, 0, 0, New, 0, 1, Table(seq(MAX_STREAMS, _ => 0), seq(MAX_STREAMS, _ => 0)), [], [])
  }

  /* ---- payloads ---- */

  /** HELLO, HELLO_ACK, HELLO_NACK, CLOSE: a 32-bit value and a reserved one. */
  function PairPayload(v: U32): seq<bv8> {
    ToLe(v, 4) + ToLe(0, 4)
  }

  function DecodePair(p: seq<bv8>): Option<U32> {
    if |p| < 8 then None
    else
      Widths();
      LeBound(p[..4]);
      Some(Le(p[..4]))
  }

  function DecodeToken(p: seq<bv8>): Option<seq<bv8>> {
    if |p| < 2 || Le(p[..2]) > |p| - 2 then None else Some(p[2..2 + Le(p[..2])])
  }

  datatype StreamChunk = StreamChunk(kind: nat, seq_: U32, data: seq<bv8>)

  function DecodeStreamData(p: seq<bv8>): Option<StreamChunk> {
    if |p| < 12 || Le(p[8..12]) > |p| - 12 then None
    else
      Widths();
      LeBound(p[4..8]);
      Some(StreamChunk(Val(p[0]), Le(p[4..8]), p[12..12 + Le(p[8..12])]))
  }

  function CapsOf(v: U32): bv32 {
    v as bv32
  }

  /** A capability mask survives its payload. */
  lemma PairRoundTrip(c: bv32)
    ensures DecodePair(PairPayload(Val32(c))) == Some(Val32(c)) && CapsOf(Val32(c)) == c
  {
    hide ToLe, Le, Pow256;
    Widths();
    LeToLe(Val32(c), 4);
    assert PairPayload(Val32(c))[..4] == ToLe(Val32(c), 4);
    assert (c as int) as bv32 == c;
  }

  /* ---- sending and closing ---- */

  function Emit(c: Conn, e: Event): Conn {
    c.(trace := c.trace + [e])
  }

  /** `conn_send_unchecked`. */
  function SendUnchecked(c: Conn, f: Frame, delivered: bool): (Status, Conn) {
    if !Sendable(f) then (InvalidArg, c)
    else if !delivered then (Io, c)
    else (Ok, c.(sent := c.sent + [f]))
  }

  /** `pai_proto_conn_send`. */
  function Send(c: Conn, f: Frame, delivered: bool): (Status, Conn) {
    if c.state != Open then (InvalidArg, c) else SendUnchecked(c, f, delivered)
  }

  /** `conn_set_closed`. */
  function Close(c: Conn, reason: U32): Conn {
    if c.state == Closed then c else Emit(c.(state := Closed), OnClose(reason))
  }

  function ReplyFrame(msgType: U32, request: U64, session: U64, payload: seq<bv8>): Frame {
    Frame(VERSION, FLAG_REPLY, msgType, request, session, payload)
  }

  /** on_message, with the automatic ERROR reply that is best effort. */
  function Deliver(c: Conn, f: Frame, r: Reply, replies: bool): Conn {
    var c1 := Emit(c, OnMessage(f));
    if r.error.Some? && replies then
      SendUnchecked(c1, ReplyFrame(ERROR, f.requestId, f.sessionId, r.error.value), r.delivered).1
    else c1
  }

  /* ---- negotiation ---- */

  /** `pai_proto_conn_start`. */
  function Start(c: Conn, delivered: bool): (Status, Conn) {
    if c.role != Client || c.state != New then (InvalidArg, c)
    else
      var hello := Frame(VERSION, 0, HELLO, c.nextRequest, 0, PairPayload(Val32(c.localCaps)));
      var (st, c1) := SendUnchecked(c.(nextRequest := if c.nextRequest == U64_MAX then 0 else c.nextRequest + 1),
                                    hello, delivered);
      (st, if st == Ok then c1.(state := Negotiating) else c1)
  }

  /** `conn_send_negotiation`. */
  function SendNegotiation(c: Conn, msgType: U32, value: U32, request: U64, delivered: bool): (Status, Conn) {
    SendUnchecked(c, ReplyFrame(msgType, request, 0, PairPayload(value)), delivered)
  }

  /** A refusal: HELLO_NACK, then the connection closes. */
  function Refuse(c: Conn, f: Frame, why: U32, reason: U32, delivered: bool): (c2: Conn)
    ensures c2.table == c.table
  {
    Close(SendNegotiation(c, HELLO_NACK, why, f.requestId, delivered).1, reason)
  }

  /** An agreement: the common capabilities, announced by HELLO_ACK. */
  function Agree(c: Conn, f: Frame, caps: bv32, remote: bv32, delivered: bool): (out: (Status, Conn))
    ensures out.1.table == c.table
  {
    var negotiated := caps & remote & CAP_KNOWN;
    SendNegotiation(c.(localCaps := caps & CAP_KNOWN, remoteCaps := remote & CAP_KNOWN, negotiated := negotiated,
                       state := Open),
                    HELLO_ACK, Val32(negotiated), f.requestId, delivered)
  }

  /** `conn_handle_hello_server`. */
  function HandleHello(c: Conn, f: Frame, r: Reply): (out: (Status, Conn))
    ensures out.1.table == c.table
  {
    match DecodePair(f.payload)
    case None => (Protocol, c)
    case Some(offer) =>
      if f.version / 256 != 0 then (Ok, Refuse(c, f, NACK_VERSION, CLOSE_PROTOCOL, r.delivered))
      else
        var remote := CapsOf(offer);
        var c1 := if r.hello.Some? then Emit(c, OnHello(remote)) else c;
        var caps := if r.hello.Some? then r.hello.value else c.localCaps;
        if caps == 0 then (Ok, Refuse(c1, f, NACK_CAPS, CLOSE_NORMAL, r.delivered))
        else Agree(c1, f, caps, remote, r.delivered)
  }

  /** `conn_handle_ack_client`. */
  function HandleAck(c: Conn, f: Frame): (out: (Status, Conn))
    ensures out.1.table == c.table
  {
    if f.version / 256 != 0 then (Protocol, c)
    else match DecodePair(f.payload)
      case None => (Protocol, c)
      case Some(v) => (Ok, c.(remoteCaps := CapsOf(v), negotiated := CapsOf(v) & CAP_KNOWN, state := Open))
  }

  /** `conn_handle_nack_client`. */
  function HandleNack(c: Conn, f: Frame): (out: (Status, Conn))
    ensures out.1.table == c.table
  {
    var reason := if DecodePair(f.payload).Some? then DecodePair(f.payload).value else 0;
    (Ok, Close(c.(nackReason := reason), CLOSE_NORMAL))
  }

  /** `conn_handle_preopen`. */
  function HandlePreopen(c: Conn, f: Frame, r: Reply): (out: (Status, Conn))
    ensures out.1.table == c.table
  {
    if c.role == Server then
      if f.msgType != HELLO then (Protocol, c) else HandleHello(c, f, r)
    else if f.msgType == HELLO_ACK then HandleAck(c, f)
    else if f.msgType == HELLO_NACK then HandleNack(c, f)
    else (Protocol, c)
  }

  /* ---- streams ---- */

  /** `flags & PAI_PROTO_FLAG_STREAM_START`, `... STREAM_END`. */
  predicate HasStart(f: Frame) { f.flags / 2 % 2 == 1 }

  predicate HasEnd(f: Frame) { f.flags / 4 % 2 == 1 }

  predicate IsStreamFrame(f: Frame) {
    f.msgType == STREAM_DATA || f.msgType == TOKEN || f.msgType == STREAM_CLOSE
  }

  /** The opening part of `conn_handle_stream`. */
  function OpenStream(c: Conn, f: Frame): (out: (Status, Conn))
    requires Shaped(c)
    ensures Shaped(out.1)
  {
    if !HasStart(f) then (Ok, c)
    else if f.requestId == 0 then (Protocol, c)
    else
      var (st, t) := Begin(c.table, f.requestId);
      if st != Ok then (st, c) else (Ok, Emit(c.(table := t), OnBegin(f.requestId, f.sessionId)))
  }

  /** The content of a stream frame whose stream is in slot i. */
  function StreamContent(c: Conn, f: Frame, r: Reply, i: nat): (out: (Status, Conn))
    requires Shaped(c) && i < MAX_STREAMS
    ensures Shaped(out.1)
  {
    if f.msgType == STREAM_DATA then
      match DecodeStreamData(f.payload)
      case None => (Protocol, c)
      case Some(d) => (Ok, Emit(c, OnData(f.requestId, f.sessionId, d.kind, d.seq_, d.data)))
    else if f.msgType == TOKEN then
      match DecodeToken(f.payload)
      case None => (Protocol, c)
      case Some(text) =>
        (Ok, Deliver(Emit(c, OnToken(f.requestId, f.sessionId, c.table.seqs[i], text)), f, r, true))
    else (Ok, Deliver(c, f, r, true))
  }

  /** Closing the stream, or counting the token. */
  function StreamTail(c: Conn, f: Frame, i: nat): (c2: Conn)
    requires Shaped(c) && i < MAX_STREAMS
    ensures Shaped(c2)
  {
    if HasEnd(f) || f.msgType == STREAM_CLOSE then
      Emit(c.(table := End(c.table, f.requestId)), OnEnd(f.requestId, f.sessionId))
    else if f.msgType == TOKEN then c.(table := Bump(c.table, i))
    else c
  }

  /** `conn_handle_stream`. */
  function HandleStream(c: Conn, f: Frame, r: Reply): (out: (Status, Conn))
    requires Shaped(c)
    ensures Shaped(out.1)
  {
    var (st, c1) := OpenStream(c, f);
    if st != Ok then (st, c1)
    else
      var i := Find(c1.table.ids, f.requestId);
      if i < 0 then (Protocol, c1)
      else
        var (st2, c2) := StreamContent(c1, f, r, i);
        if st2 != Ok then (st2, c2) else (Ok, StreamTail(c2, f, i))
  }

  /* ---- dispatch ---- */

  /** `conn_handle_open`. */
  function HandleOpen(c: Conn, f: Frame, r: Reply): (out: (Status, Conn))
    requires Shaped(c)
    ensures Shaped(out.1)
  {
    if f.version / 256 != 0 then (Protocol, c)
    else if f.msgType == HELLO || f.msgType == HELLO_ACK || f.msgType == HELLO_NACK then (Protocol, c)
    else if f.msgType == PING then
      SendUnchecked(c, ReplyFrame(PONG, f.requestId, f.sessionId, []), r.delivered)
    else if f.msgType == CLOSE then
      (Ok, Close(c, if DecodePair(f.payload).Some? then DecodePair(f.payload).value else CLOSE_NORMAL))
    else if IsStreamFrame(f) then HandleStream(c, f, r)
    else
      var c1 := if f.msgType == COMPLETE then c.(table := End(c.table, f.requestId)) else c;
      (Ok, Deliver(c1, f, r, f.requestId != 0 && f.msgType != ERROR && f.msgType != PONG))
  }

  /** The dispatch of one complete frame in `pai_proto_conn_poll`. */
  function Handle(c: Conn, f: Frame, r: Reply): (out: (Status, Conn))
    requires Shaped(c)
    ensures Shaped(out.1)
  {
    if c.state == Open then HandleOpen(c, f, r) else HandlePreopen(c, f, r)
  }

  function Dispatch(c: Conn, f: Frame, r: Reply): (c2: Conn)
    requires Shaped(c)
    ensures Shaped(c2)
  {
    var (st, c1) := Handle(c, f, r);
    if st == Ok then c1 else Close(c1, CLOSE_PROTOCOL)
  }

  /** Any sequence of received frames; a closed connection reads no more. */
  function Run(c: Conn, frames: seq<Frame>, replies: seq<Reply>): (c2: Conn)
    requires Shaped(c) && |frames| == |replies|
    ensures Shaped(c2)
    decreases |frames|
  {
    if frames == [] || c.state == Closed then c else Run(Dispatch(c, frames[0], replies[0]), frames[1..], replies[1..])
  }
}
