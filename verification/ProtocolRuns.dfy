/** Properties of one connection over every run: the state only moves forward, stream
    callbacks are bracketed, token ordinals count up, and the stream table says which
    streams are open. */
module ProtocolRuns {
  import opened Mem
  import opened Frame
  import opened Streams
  import opened Protocol

  /* ---- the state only moves forward ---- */

  function Rank(s: State): nat {
    match s
    case New => 0
    case Negotiating => 1
    case Open => 2
    case Closed => 3
  }

  /** One frame never moves the state backwards, keeps the role, extends the trace and the
      sent frames; what was negotiated stays once the connection is open. */
  predicate Forward(c: Conn, d: Conn) {
    && Rank(c.state) <= Rank(d.state) && c.role == d.role
    && c.sent <= d.sent && c.trace <= d.trace
    && (c.state == Open || c.state == Closed ==> SameTerms(c, d))
  }

  predicate SameTerms(c: Conn, d: Conn) {
    c.localCaps == d.localCaps && c.negotiated == d.negotiated && c.remoteCaps == d.remoteCaps
  }

  lemma SendForward(c: Conn, f: Frame, delivered: bool)
    ensures Forward(c, SendUnchecked(c, f, delivered).1) && SameTerms(c, SendUnchecked(c, f, delivered).1)
    ensures SendUnchecked(c, f, delivered).1.trace == c.trace
  {
  }

  lemma DeliverForward(c: Conn, f: Frame, r: Reply, replies: bool)
    ensures Forward(c, Deliver(c, f, r, replies)) && SameTerms(c, Deliver(c, f, r, replies))
    ensures Deliver(c, f, r, replies).state == c.state
  {
  }

  lemma ContentForward(c: Conn, f: Frame, r: Reply, i: nat)
    requires Shaped(c) && i < MAX_STREAMS
    ensures Forward(c, StreamContent(c, f, r, i).1) && SameTerms(c, StreamContent(c, f, r, i).1)
  {
    hide Deliver, DecodeStreamData, DecodeToken, SameTerms;
    DeliverForward(c, f, r, true);
    if f.msgType == TOKEN {
      match DecodeToken(f.payload)
      case None =>
        SameSelf(c);
      case Some(text) =>
        var c1 := Emit(c, OnToken(f.requestId, f.sessionId, c.table.seqs[i], text));
        DeliverForward(c1, f, r, true);
        TermsThrough(c, c1, Deliver(c1, f, r, true));
    } else if f.msgType == STREAM_DATA {
      match DecodeStreamData(f.payload)
      case None =>
        SameSelf(c);
      case Some(d) =>
        TermsThrough(c, Emit(c, OnData(f.requestId, f.sessionId, d.kind, d.seq_, d.data)), c);
    }
  }

  lemma SameSelf(c: Conn)
    ensures SameTerms(c, c)
  {
  }

  lemma TermsThrough(c: Conn, d: Conn, e: Conn)
    requires c.(trace := d.trace, table := d.table) == d
    ensures SameTerms(c, d) && (SameTerms(d, e) ==> SameTerms(c, e))
  {
  }

  lemma OpenStreamForward(c: Conn, f: Frame)
    requires Shaped(c)
    ensures Forward(c, OpenStream(c, f).1) && SameTerms(c, OpenStream(c, f).1)
  {
    hide Begin;
  }

  lemma TailForward(c: Conn, f: Frame, i: nat)
    requires Shaped(c) && i < MAX_STREAMS
    ensures Forward(c, StreamTail(c, f, i)) && SameTerms(c, StreamTail(c, f, i))
  {
    hide End, Bump;
  }

  lemma StreamForward(c: Conn, f: Frame, r: Reply)
    requires Shaped(c)
    ensures Forward(c, HandleStream(c, f, r).1) && SameTerms(c, HandleStream(c, f, r).1)
  {
    hide OpenStream, StreamContent, StreamTail, Forward;
    OpenStreamForward(c, f);
    var (st, c1) := OpenStream(c, f);
    var i := Find(c1.table.ids, f.requestId);
    if st == Ok && i >= 0 {
      ContentForward(c1, f, r, i);
      var (st2, c2) := StreamContent(c1, f, r, i);
      ForwardThrough(c, c1, c2);
      if st2 == Ok {
        TailForward(c2, f, i);
        ForwardThrough(c, c2, StreamTail(c2, f, i));
      }
    }
  }

  lemma CloseForward(c: Conn, reason: U32)
    ensures Forward(c, Close(c, reason))
  {
  }

  lemma ForwardThrough(c: Conn, d: Conn, e: Conn)
    requires Forward(c, d) && Forward(d, e)
    ensures Forward(c, e)
  {
    assert c.sent <= d.sent <= e.sent;
    assert c.trace <= d.trace <= e.trace;
  }

  lemma RefuseForward(c: Conn, f: Frame, why: U32, reason: U32, delivered: bool)
    ensures Forward(c, Refuse(c, f, why, reason, delivered))
  {
    hide Forward, Close, SendUnchecked;
    SendForward(c, ReplyFrame(HELLO_NACK, f.requestId, 0, PairPayload(why)), delivered);
    var c1 := SendNegotiation(c, HELLO_NACK, why, f.requestId, delivered).1;
    CloseForward(c1, reason);
    ForwardThrough(c, c1, Close(c1, reason));
  }

  lemma AgreeForward(c: Conn, f: Frame, caps: bv32, remote: bv32, delivered: bool)
    requires c.state == New || c.state == Negotiating
    ensures Forward(c, Agree(c, f, caps, remote, delivered).1)
  {
    hide SendUnchecked, PairPayload;
    var both := caps & remote & CAP_KNOWN;
    var c1 := c.(localCaps := caps & CAP_KNOWN, remoteCaps := remote & CAP_KNOWN, negotiated := both, state := Open);
    assert Forward(c, c1);
    SendForward(c1, ReplyFrame(HELLO_ACK, f.requestId, 0, PairPayload(Bytes.Val32(both))), delivered);
    ForwardThrough(c, c1, Agree(c, f, caps, remote, delivered).1);
  }

  lemma PreopenForward(c: Conn, f: Frame, r: Reply)
    requires c.state == New || c.state == Negotiating
    ensures Forward(c, HandlePreopen(c, f, r).1)
  {
    hide Refuse, Agree, DecodePair, CapsOf, Close;
    RefuseForward(c, f, NACK_VERSION, CLOSE_PROTOCOL, r.delivered);
    match DecodePair(f.payload)
    case None =>
      CloseForward(c.(nackReason := 0), CLOSE_NORMAL);
    case Some(v) =>
      CloseForward(c.(nackReason := v), CLOSE_NORMAL);
      var c1 := if r.hello.Some? then Emit(c, OnHello(CapsOf(v))) else c;
      var caps := if r.hello.Some? then r.hello.value else c.localCaps;
      assert Forward(c, c1);
      RefuseForward(c1, f, NACK_CAPS, CLOSE_NORMAL, r.delivered);
      AgreeForward(c1, f, caps, CapsOf(v), r.delivered);
      ForwardThrough(c, c1, Refuse(c1, f, NACK_CAPS, CLOSE_NORMAL, r.delivered));
      ForwardThrough(c, c1, Agree(c1, f, caps, CapsOf(v), r.delivered).1);
  }

  lemma OpenForward(c: Conn, f: Frame, r: Reply)
    requires Shaped(c)
    ensures Forward(c, HandleOpen(c, f, r).1) && SameTerms(c, HandleOpen(c, f, r).1)
  {
    hide HandleStream, Deliver, End, SendUnchecked, DecodePair;
    if IsStreamFrame(f) {
      StreamForward(c, f, r);
    } else if f.msgType == PING {
      SendForward(c, ReplyFrame(PONG, f.requestId, f.sessionId, []), r.delivered);
    } else {
      var c1 := if f.msgType == COMPLETE then c.(table := End(c.table, f.requestId)) else c;
      DeliverForward(c1, f, r, f.requestId != 0 && f.msgType != ERROR && f.msgType != PONG);
    }
  }

  lemma DispatchForward(c: Conn, f: Frame, r: Reply)
    requires Shaped(c) && c.state != Closed
    ensures Forward(c, Dispatch(c, f, r))
  {
    hide HandleOpen, HandlePreopen;
    if c.state == Open {
      OpenForward(c, f, r);
    } else {
      PreopenForward(c, f, r);
    }
  }

  /** Over any run the state goes New, Negotiating, Open, Closed without stepping back, and
      nothing that was called back or sent is taken back. */
  lemma {:induction false} RunForward(c: Conn, frames: seq<Frame>, replies: seq<Reply>)
    requires Shaped(c) && |frames| == |replies|
    ensures Forward(c, Run(c, frames, replies))
    decreases |frames|
  {
    hide Dispatch;
    if frames != [] && c.state != Closed {
      DispatchForward(c, frames[0], replies[0]);
      RunForward(Dispatch(c, frames[0], replies[0]), frames[1..], replies[1..]);
    }
  }

  /* ---- bracketing ---- */

  /** What a client of stream r may rely on: shut, or begun with so many tokens since. */
  datatype Mode = Shut | Live(tokens: nat) | Broken

  function Advance(mode: Mode, e: Event, r: U64): Mode {
    match e
    case OnBegin(id, _) => if id != r then mode else if mode.Shut? then Live(0) else Broken
    case OnData(id, _, _, _, _) => if id != r || mode.Live? then mode else Broken
    case OnToken(id, _, ordinal, _) =>
      if id != r then mode
      else if mode.Live? && ordinal == mode.tokens % 0x1_0000_0000 then Live(mode.tokens + 1)
      else Broken
    case OnEnd(id, _) => if id != r then mode else if mode.Live? then Shut else Broken
    case OnMessage(f) => if f.requestId == r && f.msgType == COMPLETE && mode.Live? then Shut else mode
    case _ => mode
  }

  /** Stream r after a sequence of callbacks. Broken means a callback came out of bracket:
      data or an end without a beginning, a second beginning, or a wrong ordinal. */
  function ModeAfter(trace: seq<Event>, r: U64): Mode
    decreases |trace|
  {
    if trace == [] then Shut else Advance(ModeAfter(trace[..|trace| - 1], r), trace[|trace| - 1], r)
  }

  lemma ModeEmit(c: Conn, e: Event, r: U64)
    ensures ModeAfter(Emit(c, e).trace, r) == Advance(ModeAfter(c.trace, r), e, r)
  {
    assert (c.trace + [e])[..|c.trace|] == c.trace;
  }

  /** The stream table knows exactly which streams are open and how many tokens they had. */
  ghost predicate InStep(c: Conn, r: U64) {
    && TableOk(c.table)
    && var mode := ModeAfter(c.trace, r);
       if IsOpen(c.table, r) then mode.Live? && Ordinal(c.table, r) == mode.tokens % 0x1_0000_0000
       else mode == Shut
  }

  /** As InStep after a token was reported but not yet counted. */
  ghost predicate Behind(c: Conn, r: U64) {
    && TableOk(c.table) && IsOpen(c.table, r)
    && var mode := ModeAfter(c.trace, r);
       mode.Live? && Inc32(Ordinal(c.table, r)) == mode.tokens % 0x1_0000_0000
  }

  lemma WrapStep(k: nat)
    ensures Inc32(k % 0x1_0000_0000) == (k + 1) % 0x1_0000_0000
  {
    var q, x := k / 0x1_0000_0000, k % 0x1_0000_0000;
    if x == 0xFFFF_FFFF {
      DivModUnique(k + 1, 0x1_0000_0000, q + 1, 0);
    } else {
      DivModUnique(k + 1, 0x1_0000_0000, q, x + 1);
    }
  }

  /** Sending changes neither callbacks nor streams; other messages concern no stream. */
  lemma DeliverMode(c: Conn, f: Frame, r: Reply, replies: bool, id: U64)
    ensures Deliver(c, f, r, replies).table == c.table
    ensures ModeAfter(Deliver(c, f, r, replies).trace, id) == Advance(ModeAfter(c.trace, id), OnMessage(f), id)
  {
    hide ModeAfter, Advance;
    ModeEmit(c, OnMessage(f), id);
  }

  lemma OpenStreamInStep(c: Conn, f: Frame, r: U64)
    requires Shaped(c) && InStep(c, r) && r != 0
    ensures InStep(OpenStream(c, f).1, r)
  {
    hide Begin, ModeAfter, Ordinal, IsOpen;
    if HasStart(f) && f.requestId != 0 {
      BeginTable(c.table, f.requestId, r);
      var t := Begin(c.table, f.requestId).1;
      ModeEmit(c.(table := t), OnBegin(f.requestId, f.sessionId), r);
    }
  }

  /** After the content of a stream frame: in step, or one token ahead on its own stream. */
  lemma ContentInStep(c: Conn, f: Frame, reply: Reply, r: U64)
    requires Shaped(c) && InStep(c, r) && r != 0 && Find(c.table.ids, f.requestId) >= 0 && IsStreamFrame(f)
    ensures var (st, c2) := StreamContent(c, f, reply, Find(c.table.ids, f.requestId));
            && c2.table == c.table
            && (st == Ok && f.msgType == TOKEN && f.requestId == r ==> Behind(c2, r))
            && (st != Ok || f.msgType != TOKEN || f.requestId != r ==> InStep(c2, r))
  {
    hide ModeAfter, Deliver, DecodeToken, DecodeStreamData;
    var i := Find(c.table.ids, f.requestId);
    if f.msgType == STREAM_DATA {
      match DecodeStreamData(f.payload)
      case None =>
      case Some(d) => ModeEmit(c, OnData(f.requestId, f.sessionId, d.kind, d.seq_, d.data), r);
    } else if f.msgType == TOKEN {
      match DecodeToken(f.payload)
      case None =>
      case Some(text) =>
        var e := OnToken(f.requestId, f.sessionId, c.table.seqs[i], text);
        ModeEmit(c, e, r);
        DeliverMode(Emit(c, e), f, reply, true, r);
        var mode := ModeAfter(c.trace, r);
        if mode.Live? {
          WrapStep(mode.tokens);
        }
    } else {
      DeliverMode(c, f, reply, true, r);
    }
  }

  lemma TailInStep(c: Conn, f: Frame, r: U64)
    requires Shaped(c) && r != 0 && Find(c.table.ids, f.requestId) >= 0
    requires if f.msgType == TOKEN && f.requestId == r then Behind(c, r) else InStep(c, r)
    ensures InStep(StreamTail(c, f, Find(c.table.ids, f.requestId)), r)
  {
    hide ModeAfter, End, Bump, Ordinal;
    if HasEnd(f) || f.msgType == STREAM_CLOSE {
      EndTable(c.table, f.requestId, r);
      ModeEmit(c.(table := End(c.table, f.requestId)), OnEnd(f.requestId, f.sessionId), r);
    } else if f.msgType == TOKEN {
      BumpTable(c.table, f.requestId, r);
    }
  }

  lemma StreamInStep(c: Conn, f: Frame, reply: Reply, r: U64)
    requires Shaped(c) && InStep(c, r) && r != 0 && IsStreamFrame(f)
    ensures InStep(HandleStream(c, f, reply).1, r)
  {
    hide OpenStream, StreamContent, StreamTail, InStep, Behind;
    OpenStreamInStep(c, f, r);
    var (st, c1) := OpenStream(c, f);
    if st == Ok && Find(c1.table.ids, f.requestId) >= 0 {
      ContentInStep(c1, f, reply, r);
      var (st2, c2) := StreamContent(c1, f, reply, Find(c1.table.ids, f.requestId));
      if st2 == Ok {
        TailInStep(c2, f, r);
      }
    }
  }

  /** Callbacks that concern no stream. */
  lemma QuietInStep(c: Conn, d: Conn, r: U64)
    requires InStep(c, r) && d.table == c.table && ModeAfter(d.trace, r) == ModeAfter(c.trace, r)
    ensures InStep(d, r)
  {
  }

  lemma CloseInStep(c: Conn, reason: U32, r: U64)
    requires InStep(c, r)
    ensures InStep(Close(c, reason), r)
  {
    hide ModeAfter;
    ModeEmit(c, OnClose(reason), r);
    ModeEmit(c.(state := Closed), OnClose(reason), r);
  }

  lemma PreopenInStep(c: Conn, f: Frame, reply: Reply, r: U64)
    requires InStep(c, r)
    ensures InStep(HandlePreopen(c, f, reply).1, r)
  {
    hide ModeAfter, DecodePair, InStep, Close, SendUnchecked, PairPayload;
    if c.role == Server && f.msgType == HELLO {
      HelloInStep(c, f, reply, r);
    } else if c.role == Client && f.msgType == HELLO_ACK {
      QuietInStep(c, HandleAck(c, f).1, r);
    } else if c.role == Client && f.msgType == HELLO_NACK {
      var reason := if DecodePair(f.payload).Some? then DecodePair(f.payload).value else 0;
      QuietInStep(c, c.(nackReason := reason), r);
      CloseInStep(c.(nackReason := reason), CLOSE_NORMAL, r);
    }
  }

  lemma NegotiationInStep(c: Conn, msgType: U32, value: U32, request: U64, delivered: bool, r: U64)
    requires InStep(c, r)
    ensures InStep(SendNegotiation(c, msgType, value, request, delivered).1, r)
  {
    hide ModeAfter, PairPayload, InStep;
    QuietInStep(c, SendNegotiation(c, msgType, value, request, delivered).1, r);
  }

  lemma RefuseInStep(c: Conn, f: Frame, why: U32, reason: U32, delivered: bool, r: U64)
    requires InStep(c, r)
    ensures InStep(Refuse(c, f, why, reason, delivered), r)
  {
    hide InStep, Close, SendNegotiation;
    NegotiationInStep(c, HELLO_NACK, why, f.requestId, delivered, r);
    CloseInStep(SendNegotiation(c, HELLO_NACK, why, f.requestId, delivered).1, reason, r);
  }

  lemma AgreeInStep(c: Conn, f: Frame, caps: bv32, remote: bv32, delivered: bool, r: U64)
    requires InStep(c, r)
    ensures InStep(Agree(c, f, caps, remote, delivered).1, r)
  {
    hide InStep, SendNegotiation;
    var both := caps & remote & CAP_KNOWN;
    var c1 := c.(localCaps := caps & CAP_KNOWN, remoteCaps := remote & CAP_KNOWN, negotiated := both, state := Open);
    QuietInStep(c, c1, r);
    NegotiationInStep(c1, HELLO_ACK, Bytes.Val32(both), f.requestId, delivered, r);
  }

  lemma HelloInStep(c: Conn, f: Frame, reply: Reply, r: U64)
    requires InStep(c, r)
    ensures InStep(HandleHello(c, f, reply).1, r)
  {
    hide ModeAfter, DecodePair, CapsOf, InStep, Refuse, Agree;
    match DecodePair(f.payload)
    case None =>
    case Some(offer) =>
      RefuseInStep(c, f, NACK_VERSION, CLOSE_PROTOCOL, reply.delivered, r);
      var remote := CapsOf(offer);
      var c1 := if reply.hello.Some? then Emit(c, OnHello(remote)) else c;
      ModeEmit(c, OnHello(remote), r);
      QuietInStep(c, c1, r);
      RefuseInStep(c1, f, NACK_CAPS, CLOSE_NORMAL, reply.delivered, r);
      AgreeInStep(c1, f, if reply.hello.Some? then reply.hello.value else c.localCaps, remote, reply.delivered, r);
  }

  lemma OpenInStep(c: Conn, f: Frame, reply: Reply, r: U64)
    requires Shaped(c) && InStep(c, r) && r != 0
    ensures InStep(HandleOpen(c, f, reply).1, r)
  {
    hide ModeAfter, HandleStream, Deliver, End, Close, Ordinal;
    if IsStreamFrame(f) {
      StreamInStep(c, f, reply, r);
    } else if f.msgType == CLOSE {
      CloseInStep(c, if DecodePair(f.payload).Some? then DecodePair(f.payload).value else CLOSE_NORMAL, r);
    } else {
      var c1 := if f.msgType == COMPLETE then c.(table := End(c.table, f.requestId)) else c;
      EndTable(c.table, f.requestId, r);
      DeliverMode(c1, f, reply, f.requestId != 0 && f.msgType != ERROR && f.msgType != PONG, r);
    }
  }

  lemma DispatchInStep(c: Conn, f: Frame, reply: Reply, r: U64)
    requires Shaped(c) && InStep(c, r) && r != 0
    ensures InStep(Dispatch(c, f, reply), r)
  {
    hide InStep, HandleOpen, HandlePreopen, Close;
    if c.state == Open {
      OpenInStep(c, f, reply, r);
    } else {
      PreopenInStep(c, f, reply, r);
    }
    CloseInStep(Handle(c, f, reply).1, CLOSE_PROTOCOL, r);
  }

  lemma {:induction false} RunInStep(c: Conn, frames: seq<Frame>, replies: seq<Reply>, r: U64)
    requires Shaped(c) && |frames| == |replies| && InStep(c, r) && r != 0
    ensures InStep(Run(c, frames, replies), r)
    decreases |frames|
  {
    hide InStep, Dispatch;
    if frames != [] && c.state != Closed {
      DispatchInStep(c, frames[0], replies[0], r);
      RunInStep(Dispatch(c, frames[0], replies[0]), frames[1..], replies[1..], r);
    }
  }

  /** For every run of every connection and every nonzero request id: data comes only after
      a beginning, no second beginning while open, nothing after the end or COMPLETE until a
      new beginning, and the tokens of a stream are numbered 0, 1, 2, ... modulo 2^32. The
      table of open streams holds distinct ids. */
  lemma Bracketed(role: Role, caps: bv32, frames: seq<Frame>, replies: seq<Reply>, r: U64)
    requires |frames| == |replies| && r != 0
    ensures var c := Run(Init(role, caps), frames, replies);
            !ModeAfter(c.trace, r).Broken? && DistinctIds(c.table.ids)
            && (IsOpen(c.table, r) <==> ModeAfter(c.trace, r).Live?)
  {
    hide Run, ModeAfter;
    var c := Init(role, caps);
    assert ModeAfter([], r) == Shut by { ModeNothing(r); }
    assert InStep(c, r);
    RunInStep(c, frames, replies, r);
  }

  lemma ModeNothing(r: U64)
    ensures ModeAfter([], r) == Shut
  {
  }

  /* ---- request id 0 ---- */

  /** A stream frame with request id 0 that an open connection takes although no stream 0 can
      begin: a free slot of the stream table looks like an open stream 0. */
  predicate TakesZero(c: Conn, f: Frame) {
    && c.state == Open && f.version / 256 == 0 && IsStreamFrame(f) && f.requestId == 0 && !HasStart(f)
    && 0 in c.table.ids
    && (f.msgType == STREAM_DATA ==> DecodeStreamData(f.payload).Some?)
    && (f.msgType == TOKEN ==> DecodeToken(f.payload).Some?)
  }

  lemma CloseMode(c: Conn, reason: U32, r: U64)
    ensures ModeAfter(Close(c, reason).trace, r) == ModeAfter(c.trace, r)
  {
    hide ModeAfter;
    ModeEmit(c.(state := Closed), OnClose(reason), r);
  }

  lemma NegotiationMode(c: Conn, msgType: U32, value: U32, request: U64, delivered: bool)
    ensures SendNegotiation(c, msgType, value, request, delivered).1.trace == c.trace
    ensures SendNegotiation(c, msgType, value, request, delivered).1.state == c.state
  {
    hide PairPayload;
  }

  lemma RefuseMode(c: Conn, f: Frame, why: U32, reason: U32, delivered: bool, r: U64)
    ensures ModeAfter(Refuse(c, f, why, reason, delivered).trace, r) == ModeAfter(c.trace, r)
  {
    hide ModeAfter, Close, SendNegotiation;
    NegotiationMode(c, HELLO_NACK, why, f.requestId, delivered);
    CloseMode(SendNegotiation(c, HELLO_NACK, why, f.requestId, delivered).1, reason, r);
  }

  lemma AgreeOpens(c: Conn, f: Frame, caps: bv32, remote: bv32, delivered: bool)
    ensures Agree(c, f, caps, remote, delivered).1.trace == c.trace
    ensures Agree(c, f, caps, remote, delivered).1.state == Open
    ensures delivered ==> Agree(c, f, caps, remote, delivered).0 == Ok
  {
    hide PairPayload;
    PairSize(Bytes.Val32(caps & remote & CAP_KNOWN));
  }

  lemma PairSize(v: U32)
    ensures |PairPayload(v)| == 8
  {
  }

  lemma HelloMode(c: Conn, f: Frame, reply: Reply, r: U64)
    ensures ModeAfter(HandleHello(c, f, reply).1.trace, r) == ModeAfter(c.trace, r)
  {
    hide ModeAfter, DecodePair, CapsOf, Refuse, Agree;
    match DecodePair(f.payload)
    case None =>
    case Some(offer) =>
      var remote := CapsOf(offer);
      var c1 := if reply.hello.Some? then Emit(c, OnHello(remote)) else c;
      ModeEmit(c, OnHello(remote), r);
      RefuseMode(c, f, NACK_VERSION, CLOSE_PROTOCOL, reply.delivered, r);
      RefuseMode(c1, f, NACK_CAPS, CLOSE_NORMAL, reply.delivered, r);
      AgreeOpens(c1, f, if reply.hello.Some? then reply.hello.value else c.localCaps, remote, reply.delivered);
  }

  /** Negotiation concerns no stream. */
  lemma PreopenMode(c: Conn, f: Frame, reply: Reply, r: U64)
    ensures ModeAfter(HandlePreopen(c, f, reply).1.trace, r) == ModeAfter(c.trace, r)
  {
    hide ModeAfter, DecodePair, Close, HandleHello, CapsOf;
    HelloMode(c, f, reply, r);
    var reason := if DecodePair(f.payload).Some? then DecodePair(f.payload).value else 0;
    CloseMode(c.(nackReason := reason), CLOSE_NORMAL, r);
  }

  /** Broken stays broken. */
  predicate ZeroMode(mode: Mode, was: Mode, taken: bool) {
    mode == if taken then Broken else was
  }

  lemma ZeroContent(c: Conn, f: Frame, reply: Reply, i: nat)
    requires Shaped(c) && i < MAX_STREAMS && IsStreamFrame(f) && !ModeAfter(c.trace, 0).Live?
    ensures var (st, c2) := StreamContent(c, f, reply, i);
            && c2.table == c.table && c2.state == c.state
            && (st == Ok <==> (f.msgType == STREAM_DATA ==> DecodeStreamData(f.payload).Some?)
                              && (f.msgType == TOKEN ==> DecodeToken(f.payload).Some?))
            && ZeroMode(ModeAfter(c2.trace, 0), ModeAfter(c.trace, 0),
                        st == Ok && f.requestId == 0 && f.msgType != STREAM_CLOSE)
  {
    hide ModeAfter, Deliver, DecodeToken, DecodeStreamData;
    DeliverForward(c, f, reply, true);
    DeliverMode(c, f, reply, true, 0);
    if f.msgType == STREAM_DATA {
      match DecodeStreamData(f.payload)
      case None =>
      case Some(d) => ModeEmit(c, OnData(f.requestId, f.sessionId, d.kind, d.seq_, d.data), 0);
    } else if f.msgType == TOKEN {
      match DecodeToken(f.payload)
      case None =>
      case Some(text) =>
        var e := OnToken(f.requestId, f.sessionId, c.table.seqs[i], text);
        ModeEmit(c, e, 0);
        DeliverForward(Emit(c, e), f, reply, true);
        DeliverMode(Emit(c, e), f, reply, true, 0);
    }
  }

  lemma ZeroTail(c: Conn, f: Frame, i: nat)
    requires Shaped(c) && i < MAX_STREAMS && !ModeAfter(c.trace, 0).Live?
    ensures ZeroMode(ModeAfter(StreamTail(c, f, i).trace, 0), ModeAfter(c.trace, 0),
                     f.requestId == 0 && (HasEnd(f) || f.msgType == STREAM_CLOSE))
  {
    hide ModeAfter, End, Bump;
    ModeEmit(c.(table := End(c.table, f.requestId)), OnEnd(f.requestId, f.sessionId), 0);
  }

  lemma ZeroStream(c: Conn, f: Frame, reply: Reply)
    requires Shaped(c) && IsStreamFrame(f) && !ModeAfter(c.trace, 0).Live?
    requires c.state == Open && f.version / 256 == 0
    ensures ZeroMode(ModeAfter(HandleStream(c, f, reply).1.trace, 0), ModeAfter(c.trace, 0), TakesZero(c, f))
  {
    hide ModeAfter, StreamContent, StreamTail, Begin, DecodeToken, DecodeStreamData;
    var (st, c1) := OpenStream(c, f);
    if HasStart(f) && f.requestId != 0 {
      ModeEmit(c.(table := Begin(c.table, f.requestId).1), OnBegin(f.requestId, f.sessionId), 0);
    }
    var i := Find(c1.table.ids, f.requestId);
    if st == Ok && i >= 0 {
      ZeroContent(c1, f, reply, i);
      var (st2, c2) := StreamContent(c1, f, reply, i);
      if st2 == Ok {
        ZeroTail(c2, f, i);
      }
    }
  }

  /** One frame breaks the bracket of id 0 exactly if it is such a frame. */
  lemma ZeroDispatch(c: Conn, f: Frame, reply: Reply)
    requires Shaped(c) && c.state != Closed && !ModeAfter(c.trace, 0).Live?
    ensures ZeroMode(ModeAfter(Dispatch(c, f, reply).trace, 0), ModeAfter(c.trace, 0), TakesZero(c, f))
  {
    hide ModeAfter, HandleStream, HandlePreopen, Deliver, End, Close, DecodePair, SendUnchecked;
    if c.state != Open {
      PreopenMode(c, f, reply, 0);
    } else if f.version / 256 == 0 && IsStreamFrame(f) {
      ZeroStream(c, f, reply);
    } else {
      SendForward(c, ReplyFrame(PONG, f.requestId, f.sessionId, []), reply.delivered);
      var c1 := if f.msgType == COMPLETE then c.(table := End(c.table, f.requestId)) else c;
      DeliverMode(c1, f, reply, f.requestId != 0 && f.msgType != ERROR && f.msgType != PONG, 0);
      CloseMode(c, if DecodePair(f.payload).Some? then DecodePair(f.payload).value else CLOSE_NORMAL, 0);
    }
    CloseMode(Handle(c, f, reply).1, CLOSE_PROTOCOL, 0);
  }

  /** Some frame of a run is taken although it names stream 0. */
  predicate RunTakesZero(c: Conn, frames: seq<Frame>, replies: seq<Reply>)
    requires Shaped(c) && |frames| == |replies|
    decreases |frames|
  {
    frames != [] && c.state != Closed
    && (TakesZero(c, frames[0]) || RunTakesZero(Dispatch(c, frames[0], replies[0]), frames[1..], replies[1..]))
  }

  lemma {:induction false} RunZero(c: Conn, frames: seq<Frame>, replies: seq<Reply>)
    requires Shaped(c) && |frames| == |replies| && !ModeAfter(c.trace, 0).Live?
    ensures ZeroMode(ModeAfter(Run(c, frames, replies).trace, 0), ModeAfter(c.trace, 0),
                     RunTakesZero(c, frames, replies))
    decreases |frames|
  {
    hide ModeAfter, Dispatch, TakesZero;
    if frames != [] && c.state != Closed {
      ZeroDispatch(c, frames[0], replies[0]);
      RunZero(Dispatch(c, frames[0], replies[0]), frames[1..], replies[1..]);
    }
  }

  /** For request id 0 the callbacks of a run are bracketed, which then means that there are
      none, exactly if no stream frame without START names id 0 while the connection is open
      and a slot of the stream table is free. */
  lemma ZeroBracketedExactly(role: Role, caps: bv32, frames: seq<Frame>, replies: seq<Reply>)
    requires |frames| == |replies|
    ensures var c := Run(Init(role, caps), frames, replies);
            ModeAfter(c.trace, 0).Broken? <==> RunTakesZero(Init(role, caps), frames, replies)
    ensures !ModeAfter(Run(Init(role, caps), frames, replies).trace, 0).Live?
  {
    hide Run, RunTakesZero, ModeAfter;
    ModeNothing(0);
    RunZero(Init(role, caps), frames, replies);
  }

  /** It happens: a HELLO that is accepted, then a TOKEN for stream 0. */
  lemma StreamZeroUnbracketed(caps: bv32)
    requires caps & CAP_KNOWN != 0
    ensures var hello := Frame(VERSION, 0, HELLO, 1, 0, PairPayload(Bytes.Val32(caps)));
            var token := Frame(VERSION, 0, TOKEN, 0, 0, Bytes.ToLe(0, 2));
            var r := Reply(None, None, true);
            ModeAfter(Run(Init(Server, caps), [hello, token], [r, r]).trace, 0) == Broken
  {
    hide ModeAfter, Run, DecodePair, DecodeToken, PairPayload;
    var hello := Frame(VERSION, 0, HELLO, 1, 0, PairPayload(Bytes.Val32(caps)));
    var token := Frame(VERSION, 0, TOKEN, 0, 0, Bytes.ToLe(0, 2));
    var r := Reply(None, None, true);
    var c := Init(Server, caps);
    PairRoundTrip(caps);
    EmptyToken(Bytes.ToLe(0, 2));
    var d := Dispatch(c, hello, r);
    HelloOpens(c, hello, r);
    assert TakesZero(d, token) by { assert d.table.ids[0] == 0; }
    ZeroTwo(c, hello, token, r);
    ZeroBracketedExactly(Server, caps, [hello, token], [r, r]);
  }

  /** An accepted HELLO opens a server and leaves its stream table alone. */
  lemma HelloOpens(c: Conn, f: Frame, r: Reply)
    requires Shaped(c) && c.role == Server && c.state == New && c.localCaps != 0
    requires f.msgType == HELLO && f.version == VERSION && DecodePair(f.payload).Some? && r == Reply(None, None, true)
    ensures Dispatch(c, f, r).state == Open && Dispatch(c, f, r).table == c.table
  {
    hide DecodePair, CapsOf, Agree, Refuse;
    AgreeOpens(c, f, c.localCaps, CapsOf(DecodePair(f.payload).value), true);
  }

  lemma ZeroTwo(c: Conn, f: Frame, g: Frame, r: Reply)
    requires Shaped(c) && c.state != Closed && Dispatch(c, f, r).state != Closed && TakesZero(Dispatch(c, f, r), g)
    ensures RunTakesZero(c, [f, g], [r, r])
  {
    hide Dispatch, TakesZero;
    assert [f, g][1..] == [g] && [r, r][1..] == [r];
    assert RunTakesZero(Dispatch(c, f, r), [g], [r]);
  }

  lemma EmptyToken(p: seq<bv8>)
    requires p == Bytes.ToLe(0, 2)
    ensures DecodeToken(p) == Some([])
  {
    Bytes.Widths();
    Bytes.LeToLe(0, 2);
    assert p[..2] == p;
  }
}
