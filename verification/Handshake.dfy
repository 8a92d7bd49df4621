/** A client and a server on two FIFO channels, in every interleaving: if the client is
    open, both agreed on the same capabilities, and both had offered them. */
module Handshake {
  import opened Mem
  import opened Bytes
  import opened Frame
  import opened Streams
  import opened Protocol
  import opened ProtocolRuns

  /** Both ends and the frames in flight, as the receiver will see them. */
  datatype Sys = Sys(client: Conn, server: Conn, up: seq<Frame>, down: seq<Frame>)

  datatype Step =
    | ClientStart(delivered: bool)
    | ClientReceive(reply: Reply)
    | ServerReceive(reply: Reply)
    | ClientSend(frame: Frame, delivered: bool)
    | ServerSend(frame: Frame, delivered: bool)
    | ClientGone(reason: U32)
    | ServerGone(reason: U32)

  /** What conn d sent beyond conn c, in wire form. */
  function Fresh(c: Conn, d: Conn): seq<Frame> {
    if |c.sent| <= |d.sent| then Wire(d.sent[|c.sent|..]) else []
  }

  function ClientTo(s: Sys, c: Conn): Sys {
    s.(client := c, up := s.up + Fresh(s.client, c))
  }

  function ServerTo(s: Sys, c: Conn): Sys {
    s.(server := c, down := s.down + Fresh(s.server, c))
  }

  predicate BothShaped(s: Sys) {
    Shaped(s.client) && Shaped(s.server)
  }

  function Next(s: Sys, step: Step): (s2: Sys)
    requires BothShaped(s)
    ensures BothShaped(s2)
  {
    match step
    case ClientStart(delivered) => ClientTo(s, Protocol.Start(s.client, delivered).1)
    case ClientReceive(reply) =>
      if s.down == [] || s.client.state == Closed then s
      else ClientTo(s.(down := s.down[1..]), Dispatch(s.client, s.down[0], reply))
    case ServerReceive(reply) =>
      if s.up == [] || s.server.state == Closed then s
      else ServerTo(s.(up := s.up[1..]), Dispatch(s.server, s.up[0], reply))
    case ClientSend(frame, delivered) => ClientTo(s, Send(s.client, frame, delivered).1)
    case ServerSend(frame, delivered) => ServerTo(s, Send(s.server, frame, delivered).1)
    case ClientGone(reason) => s.(client := Close(s.client, reason))
    case ServerGone(reason) => s.(server := Close(s.server, reason))
  }

  function Begin(clientCaps: bv32, serverCaps: bv32): Sys {
    Sys(Init(Client, clientCaps), Init(Server, serverCaps), [], [])
  }

  function Steps(s: Sys, steps: seq<Step>): (s2: Sys)
    requires BothShaped(s)
    ensures BothShaped(s2)
    decreases |steps|
  {
    if steps == [] then s else Steps(Next(s, steps[0]), steps[1..])
  }

  /* ---- what negotiation frames say ---- */

  predicate IsOffer(f: Frame, caps: bv32) {
    f.msgType == HELLO && f.version == VERSION && DecodePair(f.payload) == Some(Val32(caps))
  }

  predicate IsAck(f: Frame, caps: bv32) {
    f.msgType == HELLO_ACK && f.version == VERSION && DecodePair(f.payload) == Some(Val32(caps))
  }

  predicate IsNack(f: Frame) {
    f.msgType == HELLO_NACK
  }

  /** Capabilities that both sides know and offered. */
  predicate Common(n: bv32, client: bv32, server: bv32) {
    n & client == n && n & server == n && n & CAP_KNOWN == n
  }

  /** The server's side: nothing said yet, refused and closed, or agreed. */
  ghost predicate ServerOk(server: Conn, offer: bv32) {
    && Shaped(server) && server.role == Server && server.state != Negotiating
    && (server.state == New ==> server.sent == [])
    && (server.state == Open ==> server.sent != [] && !IsNack(server.sent[0]))
    && (server.sent != [] ==>
          if IsNack(server.sent[0]) then server.state == Closed
          else IsAck(server.sent[0], server.negotiated) && Common(server.negotiated, offer, server.localCaps))
  }

  /** Every reachable state; `offer` is what the client offers. */
  ghost predicate Inv(s: Sys, offer: bv32) {
    && BothShaped(s) && ServerOk(s.server, offer)
    && s.client.role == Client && s.client.localCaps == offer
    && (s.client.state == New ==> s.up == [] && s.client.sent == [] && s.server.sent == [] && s.server.state != Open)
    && (s.server.state == New ==> s.up == [] || (|s.up| == 1 && IsOffer(s.up[0], offer)))
    && (s.client.state == New || s.client.state == Negotiating ==> s.down == Wire(s.server.sent))
    && (s.client.state == Open ==>
          s.server.sent != [] && !IsNack(s.server.sent[0]) && s.client.negotiated == s.server.negotiated)
  }

  lemma FreshNone(c: Conn, d: Conn)
    requires d.sent == c.sent
    ensures Fresh(c, d) == []
  {
  }

  lemma WireFresh(c: Conn, d: Conn)
    requires c.sent <= d.sent
    ensures Wire(d.sent) == Wire(c.sent) + Fresh(c, d)
  {
    hide Received;
    assert d.sent == c.sent + d.sent[|c.sent|..];
    WireAppend(c.sent, d.sent[|c.sent|..]);
  }

  lemma Masks(caps: bv32, remote: bv32)
    ensures Common(caps & remote & CAP_KNOWN, remote, caps & CAP_KNOWN)
  {
  }

  /** The server answers the offer: it refuses and closes, fails to answer and closes, or agrees. */
  lemma ServerAnswers(c: Conn, f: Frame, r: Reply, offer: bv32)
    requires ServerOk(c, offer) && c.state == New && IsOffer(f, offer)
    ensures ServerOk(Dispatch(c, f, r), offer) && Dispatch(c, f, r).state != New
  {
    hide DecodePair, PairPayload, Refuse, Agree;
    PairRoundTrip(offer);
    var c1 := if r.hello.Some? then Emit(c, OnHello(offer)) else c;
    var caps := if r.hello.Some? then r.hello.value else c.localCaps;
    Refused(c1, f, NACK_CAPS, CLOSE_NORMAL, r.delivered);
    Agreed(c1, f, caps, offer, r.delivered);
  }

  lemma Refused(c: Conn, f: Frame, why: U32, reason: U32, delivered: bool)
    requires c.sent == []
    ensures var d := Refuse(c, f, why, reason, delivered);
            d.role == c.role && d.state == Closed && (d.sent == [] || IsNack(d.sent[0]))
  {
    hide PairPayload, SendUnchecked;
    FirstSent(c, ReplyFrame(HELLO_NACK, f.requestId, 0, PairPayload(why)), delivered);
  }

  lemma FirstSent(c: Conn, f: Frame, delivered: bool)
    requires c.sent == []
    ensures var d := SendUnchecked(c, f, delivered).1;
            d.role == c.role && d.state == c.state && (d.sent == [] || d.sent == [f])
  {
    hide Sendable;
    assert c.sent + [f] == [f];
  }

  lemma Agreed(c: Conn, f: Frame, caps: bv32, remote: bv32, delivered: bool)
    requires c.sent == []
    ensures var (st, d) := Agree(c, f, caps, remote, delivered);
            && d.role == c.role && d.state == Open && Common(d.negotiated, remote, d.localCaps)
            && (st == Ok ==> d.sent != [] && IsAck(d.sent[0], d.negotiated))
            && (st != Ok ==> d.sent == [])
  {
    hide DecodePair, PairPayload, Common;
    var n := caps & remote & CAP_KNOWN;
    Masks(caps, remote);
    PairRoundTrip(n);
    assert |PairPayload(Val32(n))| == 8 by { PairLength(Val32(n)); }
  }

  lemma PairLength(v: U32)
    ensures |PairPayload(v)| == 8
  {
  }

  /** An open server, whatever it receives. */
  lemma ServerGoesOn(c: Conn, d: Conn, offer: bv32)
    requires ServerOk(c, offer) && c.state == Open && Forward(c, d) && Shaped(d)
    ensures ServerOk(d, offer)
  {
    assert d.sent[0] == c.sent[0];
  }

  lemma ClosedOk(c: Conn, reason: U32, offer: bv32)
    requires ServerOk(c, offer)
    ensures ServerOk(Close(c, reason), offer) && Close(c, reason).sent == c.sent
  {
  }

  /** The client reads the server's answer. */
  lemma ClientHears(c: Conn, f: Frame, r: Reply, n: bv32)
    requires Shaped(c) && c.role == Client && c.state == Negotiating && IsAck(f, n) && n & CAP_KNOWN == n
    ensures var d := Dispatch(c, f, r);
            d.state == Open && d.negotiated == n && d.sent == c.sent && d.localCaps == c.localCaps && d.role == Client
  {
    hide DecodePair, PairPayload;
    PairRoundTrip(n);
  }

  lemma ClientRefused(c: Conn, f: Frame, r: Reply)
    requires Shaped(c) && c.role == Client && c.state == Negotiating && IsNack(f)
    ensures var d := Dispatch(c, f, r);
            d.state == Closed && d.sent == c.sent && d.localCaps == c.localCaps && d.role == Client
  {
    hide DecodePair;
  }

  lemma Offer(c: Conn, delivered: bool, offer: bv32)
    requires Shaped(c) && c.role == Client && c.state == New && c.localCaps == offer && c.sent == []
    ensures var (st, d) := Protocol.Start(c, delivered);
            && Shaped(d) && d.role == Client && d.localCaps == offer
            && (st == Ok ==> d.state == Negotiating && |Fresh(c, d)| == 1 && IsOffer(Fresh(c, d)[0], offer))
            && (st != Ok ==> d.state == New && d.sent == [] && Fresh(c, d) == [])
  {
    hide DecodePair, PairPayload;
    PairRoundTrip(offer);
    PairLength(Val32(offer));
    var (st, d) := Protocol.Start(c, delivered);
    if st == Ok {
      assert d.sent[0..] == d.sent;
      assert d.sent[1..] == [];
    }
  }

  /* ---- the invariant, step by step ---- */

  lemma ServerMoves(s: Sys, up: seq<Frame>, d: Conn, offer: bv32)
    requires Inv(s, offer) && ServerOk(d, offer) && d.state != New && s.server.sent <= d.sent
    requires s.server.sent != [] ==> d.negotiated == s.server.negotiated
    requires s.client.state == New ==> up == [] && d.sent == [] && d.state != Open
    ensures Inv(ServerTo(s.(up := up), d), offer)
  {
    hide Received, IsAck, Common;
    WireFresh(s.server, d);
    assert s.server.sent != [] ==> d.sent[0] == s.server.sent[0];
  }

  lemma ServerStep(s: Sys, r: Reply, offer: bv32)
    requires Inv(s, offer)
    ensures Inv(Next(s, ServerReceive(r)), offer)
  {
    hide Dispatch, Received, IsAck, Common, ServerTo;
    if s.up != [] && s.server.state != Closed {
      var d := Dispatch(s.server, s.up[0], r);
      DispatchForward(s.server, s.up[0], r);
      if s.server.state == New {
        ServerAnswers(s.server, s.up[0], r, offer);
      } else {
        ServerGoesOn(s.server, d, offer);
      }
      ServerMoves(s, s.up[1..], d, offer);
    }
  }

  lemma ServerSends(s: Sys, f: Frame, delivered: bool, offer: bv32)
    requires Inv(s, offer)
    ensures Inv(Next(s, ServerSend(f, delivered)), offer)
  {
    hide Received, IsAck, Common, ServerTo, SendUnchecked;
    var d := Send(s.server, f, delivered).1;
    SendForward(s.server, f, delivered);
    if s.server.state == Open {
      SendShaped(s.server, f, delivered);
      ServerGoesOn(s.server, d, offer);
      ServerMoves(s, s.up, d, offer);
    } else {
      FreshNone(s.server, d);
      assert ServerTo(s, d) == s by { Unmoved(s); }
    }
  }

  lemma SendShaped(c: Conn, f: Frame, delivered: bool)
    ensures SendUnchecked(c, f, delivered).1.table == c.table && SendUnchecked(c, f, delivered).1.state == c.state
  {
  }

  lemma Unmoved(s: Sys)
    ensures ServerTo(s, s.server) == s && ClientTo(s, s.client) == s
  {
    FreshNone(s.server, s.server);
    FreshNone(s.client, s.client);
  }

  /** An open client, whatever it receives or sends. */
  lemma ClientMoves(s: Sys, down: seq<Frame>, d: Conn, offer: bv32)
    requires Inv(s, offer) && s.client.state == Open && Forward(s.client, d) && Shaped(d)
    ensures Inv(ClientTo(s.(down := down), d), offer)
  {
    hide Received, ServerOk;
    assert s.server.state != New by { Spoke(s.server, offer); }
  }

  lemma Spoke(c: Conn, offer: bv32)
    requires ServerOk(c, offer) && c.sent != []
    ensures c.state != New
    ensures !IsNack(c.sent[0]) ==> IsAck(c.sent[0], c.negotiated) && Common(c.negotiated, offer, c.localCaps)
  {
  }

  lemma ClientStep(s: Sys, r: Reply, offer: bv32)
    requires Inv(s, offer)
    ensures Inv(Next(s, ClientReceive(r)), offer)
  {
    hide Dispatch, Received, IsAck, Common, ServerOk, Wire;
    if s.down != [] && s.client.state != Closed {
      var d := Dispatch(s.client, s.down[0], r);
      if s.client.state == Open {
        DispatchForward(s.client, s.down[0], r);
        ClientMoves(s, s.down[1..], d, offer);
      } else {
        FirstAnswer(s, offer);
        if IsNack(s.server.sent[0]) {
          ClientRefused(s.client, s.down[0], r);
        } else {
          ClientHears(s.client, s.down[0], r, s.server.negotiated);
        }
        FreshNone(s.client, d);
      }
    }
  }

  /** What a negotiating client finds on its channel is the server's answer. */
  lemma FirstAnswer(s: Sys, offer: bv32)
    requires Inv(s, offer) && s.down != [] && (s.client.state == New || s.client.state == Negotiating)
    ensures s.client.state == Negotiating && s.server.sent != [] && s.server.state != New
    ensures if IsNack(s.server.sent[0]) then IsNack(s.down[0])
            else IsAck(s.down[0], s.server.negotiated) && s.server.negotiated & CAP_KNOWN == s.server.negotiated
  {
    assert s.down[0] == Received(s.server.sent[0]);
  }

  lemma StepKeeps(s: Sys, step: Step, offer: bv32)
    requires Inv(s, offer)
    ensures Inv(Next(s, step), offer)
  {
    hide Dispatch, Received, IsAck, Common, ServerOk, SendUnchecked, Close, Wire;
    match step
    case ClientStart(delivered) =>
      if s.client.state == New {
        Offer(s.client, delivered, offer);
      } else {
        Unmoved(s);
      }
    case ClientReceive(reply) => ClientStep(s, reply, offer);
    case ServerReceive(reply) => ServerStep(s, reply, offer);
    case ClientSend(frame, delivered) =>
      if s.client.state == Open {
        SendForward(s.client, frame, delivered);
        SendShaped(s.client, frame, delivered);
        ClientMoves(s, s.down, Send(s.client, frame, delivered).1, offer);
      } else {
        Unmoved(s);
      }
    case ServerSend(frame, delivered) => ServerSends(s, frame, delivered, offer);
    case ClientGone(reason) => ClientLeaves(s, reason, offer);
    case ServerGone(reason) => ServerLeaves(s, reason, offer);
  }

  lemma ClientLeaves(s: Sys, reason: U32, offer: bv32)
    requires Inv(s, offer)
    ensures Inv(s.(client := Close(s.client, reason)), offer)
  {
    hide ServerOk, IsAck, Wire;
  }

  lemma ServerLeaves(s: Sys, reason: U32, offer: bv32)
    requires Inv(s, offer)
    ensures Inv(s.(server := Close(s.server, reason)), offer)
  {
    hide IsAck, Common, Wire;
    ClosedOk(s.server, reason, offer);
  }

  lemma {:induction false} StepsKeep(s: Sys, steps: seq<Step>, offer: bv32)
    requires Inv(s, offer)
    ensures Inv(Steps(s, steps), offer)
    decreases |steps|
  {
    hide ServerOk, Wire, Next;
    if steps != [] {
      StepKeeps(s, steps[0], offer);
      StepsKeep(Next(s, steps[0]), steps[1..], offer);
    }
  }

  /** In every interleaving: an open client and its server agreed on the same capabilities,
      which both sides offered; in particular both ends OPEN means equal negotiated_caps. */
  lemma Agreement(clientCaps: bv32, serverCaps: bv32, steps: seq<Step>)
    ensures var s := Steps(Begin(clientCaps, serverCaps), steps);
            s.client.state == Open ==>
              && s.client.negotiated == s.server.negotiated
              && Common(s.client.negotiated, s.client.localCaps, s.server.localCaps)
              && s.client.localCaps == clientCaps & CAP_KNOWN
  {
    hide Steps, Common, IsAck, Wire;
    var s0 := Begin(clientCaps, serverCaps);
    assert Inv(s0, s0.client.localCaps) by { NothingSent(); }
    StepsKeep(s0, steps, s0.client.localCaps);
  }

  /** Once the server has refused, no continuation opens the client. */
  lemma NeverAfterNack(clientCaps: bv32, serverCaps: bv32, steps: seq<Step>, more: seq<Step>)
    ensures var s := Steps(Begin(clientCaps, serverCaps), steps);
            s.server.sent != [] && IsNack(s.server.sent[0]) ==> Steps(s, more).client.state != Open
  {
    hide Steps, Inv;
    var s0 := Begin(clientCaps, serverCaps);
    var offer := s0.client.localCaps;
    assert Inv(s0, offer) by { FirstState(clientCaps, serverCaps); }
    StepsKeep(s0, steps, offer);
    var s := Steps(s0, steps);
    if s.server.sent != [] && IsNack(s.server.sent[0]) {
      RefusedStays(s, more, offer);
    }
  }

  lemma FirstState(clientCaps: bv32, serverCaps: bv32)
    ensures Inv(Begin(clientCaps, serverCaps), clientCaps & CAP_KNOWN)
  {
    NothingSent();
  }

  lemma {:induction false} RefusedStays(s: Sys, more: seq<Step>, offer: bv32)
    requires Inv(s, offer) && s.server.sent != [] && IsNack(s.server.sent[0])
    ensures Steps(s, more).client.state != Open
    decreases |more|
  {
    hide Next;
    if more != [] {
      StepKeeps(s, more[0], offer);
      RefusedServer(s, more[0], offer);
      RefusedStays(Next(s, more[0]), more[1..], offer);
    }
  }

  lemma RefusedServer(s: Sys, step: Step, offer: bv32)
    requires Inv(s, offer) && s.server.sent != [] && IsNack(s.server.sent[0])
    ensures Next(s, step).server.sent == s.server.sent
  {
    hide Dispatch, Wire, SendUnchecked;
  }

  /** Neither end ever steps back along NEW, NEGOTIATING, OPEN, CLOSED. */
  lemma {:induction false} Monotone(s: Sys, steps: seq<Step>)
    requires BothShaped(s)
    ensures var s2 := Steps(s, steps);
            Rank(s.client.state) <= Rank(s2.client.state) && Rank(s.server.state) <= Rank(s2.server.state)
    decreases |steps|
  {
    hide Next;
    if steps != [] {
      MonotoneStep(s, steps[0]);
      Monotone(Next(s, steps[0]), steps[1..]);
    }
  }

  lemma MonotoneStep(s: Sys, step: Step)
    requires BothShaped(s)
    ensures var s2 := Next(s, step);
            Rank(s.client.state) <= Rank(s2.client.state) && Rank(s.server.state) <= Rank(s2.server.state)
  {
    hide Dispatch, Wire;
    match step
    case ClientReceive(reply) =>
      if s.down != [] && s.client.state != Closed {
        DispatchForward(s.client, s.down[0], reply);
      }
    case ServerReceive(reply) =>
      if s.up != [] && s.server.state != Closed {
        DispatchForward(s.server, s.up[0], reply);
      }
    case _ =>
  }
}
