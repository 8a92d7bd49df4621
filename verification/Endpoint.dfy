/** The frame handlers of protocol/connection.c as methods on the connection's fields,
    each proved against its specification in module Protocol. */
module Endpoint {
  import opened Mem
  import opened Bytes
  import opened Frame
  import opened Streams
  import opened Protocol
  import Reassembly
  import Crc32

  class Endpoint {
    const role: Role
    const streams: StreamTable
    const crc: Crc32.Table
    var localCaps: bv32
    var remoteCaps: bv32
    var negotiated: bv32
    var state: State
    var nackReason: U32
    var nextRequest: U64
    /** The callbacks made so far. */
    var trace: seq<Event>
    /** The bytes the transport has accepted, and the frames they are. */
    var wire: seq<bv8>
    ghost var sent: seq<Frame>

    ghost predicate Valid()
      reads this, crc, crc.entries, streams
    {
      streams.Valid() && crc.Valid() && wire == Reassembly.Stream(sent)
    }

    ghost function View(): Conn
      reads this, streams, streams.ids, streams.seqs
    {
      Conn(role, localCaps, remoteCaps, negotiated, state, nackReason, nextRequest, streams.View(), trace, sent)
    }

    /** `pai_proto_conn_init`. */
    constructor (r: Role, caps: bv32, table: Crc32.Table)
      requires table.Valid()
      ensures Valid() && View() == Init(r, caps) && crc == table
      ensures fresh(streams) && fresh(streams.ids) && fresh(streams.seqs)
    {
      role, crc := r, table;
      localCaps, remoteCaps, negotiated := caps & CAP_KNOWN, 0, 0;
      state, nackReason, nextRequest := New, 0, 1;
      trace, wire, sent := [], [], [];
      streams := new StreamTable();
    }

    method Call(e: Event)
      modifies this`trace
      ensures trace == old(trace) + [e]
    {
      hide Reassembly.Stream, Crc32.IsTable;
      trace := trace + [e];
    }

    /** `conn_send_unchecked`: header and payload go to the transport, or nothing does. */
    method SendUnchecked(f: Frame, delivered: bool) returns (st: Status)
      requires Valid()
      modifies this`wire, this`sent, crc, crc.entries
      ensures Valid()
      ensures (st, View()) == Protocol.SendUnchecked(old(View()), f, delivered)
    {
      hide Reassembly.Stream, Crc32.IsTable;
      hide Encoded, Lead;
      if |f.payload| > MAX_PAYLOAD {
        return InvalidArg;
      }
      if Compressed(f.flags) {
        return InvalidArg;
      }
      var header := BuildHeader(f);
      if !delivered {
        return Io;
      }
      wire := wire + header;
      if |f.payload| > 0 {
        wire := wire + f.payload;
      }
      WholeFrame(f, header);
      Reassembly.StreamAppend(sent, f);
      assert wire == old(wire) + (header + f.payload);
      sent := sent + [f];
      st := Ok;
    }

    method BuildHeader(f: Frame) returns (header: seq<bv8>)
      requires crc.Valid() && |f.payload| <= MAX_PAYLOAD
      modifies crc, crc.entries
      ensures crc.Valid()
      ensures header == Encoded(f)[..HEADER_SIZE]
    {
      hide Reassembly.Stream, Crc32.IsTable;
      hide Encoded, Lead, ToLe;
      hide Crc32.Crc;
      var buf := new bv8[HEADER_SIZE];
      PutLead(f, buf);
      ghost var o := buf[..];
      var c := Checksum(crc, buf[..CRC_BYTES], f.payload);
      PutLe(buf, 32, Val32(c), 4);
      header := buf[..];
      TailKept(o, header, HEADER_SIZE);
      HeaderIs(f, header);
    }

    /** `pai_proto_conn_send`. */
    method Send(f: Frame, delivered: bool) returns (st: Status)
      requires Valid()
      modifies this`wire, this`sent, crc, crc.entries
      ensures Valid()
      ensures (st, View()) == Protocol.Send(old(View()), f, delivered)
    {
      hide Reassembly.Stream, Crc32.IsTable;
      if state != Open {
        return InvalidArg;
      }
      st := SendUnchecked(f, delivered);
    }

    /** `conn_set_closed`. */
    method SetClosed(reason: U32)
      requires Valid()
      modifies this`state, this`trace
      ensures Valid() && View() == Close(old(View()), reason)
    {
      hide Reassembly.Stream, Crc32.IsTable;
      if state == Closed {
        return;
      }
      state := Closed;
      Call(OnClose(reason));
    }

    /** on_message, with the automatic ERROR reply. */
    method OnMessageCall(f: Frame, r: Reply, replies: bool)
      requires Valid()
      modifies this`wire, this`sent, this`trace, crc, crc.entries
      ensures Valid() && View() == Deliver(old(View()), f, r, replies)
    {
      hide Reassembly.Stream, Crc32.IsTable;
      Call(OnMessage(f));
      if r.error.Some? && replies {
        var _ := SendUnchecked(ReplyFrame(ERROR, f.requestId, f.sessionId, r.error.value), r.delivered);
      }
    }

    /** `pai_proto_conn_start`. */
    method StartNegotiation(delivered: bool) returns (st: Status)
      requires Valid()
      modifies this`state, this`nextRequest, this`wire, this`sent, crc, crc.entries
      ensures Valid()
      ensures (st, View()) == Start(old(View()), delivered)
    {
      hide Reassembly.Stream, Crc32.IsTable;
      hide PairPayload;
      if role != Client || state != New {
        return InvalidArg;
      }
      var id := nextRequest;
      nextRequest := if nextRequest == U64_MAX then 0 else nextRequest + 1;
      st := SendUnchecked(Frame(VERSION, 0, HELLO, id, 0, PairPayload(Val32(localCaps))), delivered);
      if st == Ok {
        state := Negotiating;
      }
    }

    /** `conn_send_negotiation`. */
    method Negotiate(msgType: U32, value: U32, request: U64, delivered: bool) returns (st: Status)
      requires Valid()
      modifies this`wire, this`sent, crc, crc.entries
      ensures Valid()
      ensures (st, View()) == SendNegotiation(old(View()), msgType, value, request, delivered)
    {
      hide Reassembly.Stream, Crc32.IsTable;
      hide PairPayload;
      st := SendUnchecked(ReplyFrame(msgType, request, 0, PairPayload(value)), delivered);
    }

    /** A refusal: HELLO_NACK, whether or not it can be delivered, then the connection closes. */
    method RefuseHello(f: Frame, why: U32, reason: U32, delivered: bool)
      requires Valid()
      modifies this`state, this`trace, this`wire, this`sent, crc, crc.entries
      ensures Valid() && View() == Refuse(old(View()), f, why, reason, delivered)
    {
      hide Reassembly.Stream, Crc32.IsTable;
      hide SendNegotiation, Close;
      var _ := Negotiate(HELLO_NACK, why, f.requestId, delivered);
      SetClosed(reason);
    }

    /** An agreement: the common capabilities, announced by HELLO_ACK. */
    method AgreeHello(f: Frame, caps: bv32, remote: bv32, delivered: bool) returns (st: Status)
      requires Valid()
      modifies this, crc, crc.entries
      ensures Valid()
      ensures (st, View()) == Agree(old(View()), f, caps, remote, delivered)
    {
      hide Reassembly.Stream, Crc32.IsTable;
      hide SendNegotiation;
      var both := caps & remote & CAP_KNOWN;
      localCaps := caps & CAP_KNOWN;
      remoteCaps := remote & CAP_KNOWN;
      negotiated := both;
      state := Open;
      st := Negotiate(HELLO_ACK, Val32(both), f.requestId, delivered);
    }

    /** `conn_handle_hello_server`. */
    method HelloServer(f: Frame, r: Reply) returns (st: Status)
      requires Valid()
      modifies this, crc, crc.entries
      ensures Valid()
      ensures (st, View()) == HandleHello(old(View()), f, r)
    {
      hide Reassembly.Stream, Crc32.IsTable;
      hide DecodePair, CapsOf, Refuse, Agree;
      var offer := DecodePair(f.payload);
      if offer.None? {
        return Status.Protocol;
      }
      if f.version / 256 != 0 {
        RefuseHello(f, NACK_VERSION, CLOSE_PROTOCOL, r.delivered);
        return Ok;
      }
      var remote := CapsOf(offer.value);
      var caps := localCaps;
      if r.hello.Some? {
        Call(OnHello(remote));
        caps := r.hello.value;
      }
      if caps == 0 {
        RefuseHello(f, NACK_CAPS, CLOSE_NORMAL, r.delivered);
        return Ok;
      }
      st := AgreeHello(f, caps, remote, r.delivered);
    }

    /** `conn_handle_ack_client`. */
    method AckClient(f: Frame) returns (st: Status)
      requires Valid()
      modifies this`remoteCaps, this`negotiated, this`state
      ensures Valid()
      ensures (st, View()) == HandleAck(old(View()), f)
    {
      hide Reassembly.Stream, Crc32.IsTable;
      hide DecodePair;
      if f.version / 256 != 0 {
        return Status.Protocol;
      }
      var v := DecodePair(f.payload);
      if v.None? {
        return Status.Protocol;
      }
      remoteCaps := CapsOf(v.value);
      negotiated := CapsOf(v.value) & CAP_KNOWN;
      state := Open;
      st := Ok;
    }

    /** `conn_handle_nack_client`. */
    method NackClient(f: Frame) returns (st: Status)
      requires Valid()
      modifies this`nackReason, this`state, this`trace
      ensures Valid()
      ensures (st, View()) == HandleNack(old(View()), f)
    {
      hide Reassembly.Stream, Crc32.IsTable;
      hide DecodePair;
      var reason := DecodePair(f.payload);
      nackReason := if reason.Some? then reason.value else 0;
      SetClosed(CLOSE_NORMAL);
      st := Ok;
    }

    /** `conn_handle_preopen`. */
    method PreOpen(f: Frame, r: Reply) returns (st: Status)
      requires Valid()
      modifies this, crc, crc.entries
      ensures Valid()
      ensures (st, View()) == HandlePreopen(old(View()), f, r)
    {
      hide Reassembly.Stream, Crc32.IsTable;
      hide HandleHello, HandleAck, HandleNack;
      if role == Server {
        if f.msgType != HELLO {
          return Status.Protocol;
        }
        st := HelloServer(f, r);
        return;
      }
      if f.msgType == HELLO_ACK {
        st := AckClient(f);
      } else if f.msgType == HELLO_NACK {
        st := NackClient(f);
      } else {
        st := Status.Protocol;
      }
    }

    /** The opening part of `conn_handle_stream`. */
    method StreamStart(f: Frame) returns (st: Status)
      requires Valid()
      modifies this`trace, streams.ids, streams.seqs
      ensures Valid()
      ensures (st, View()) == OpenStream(old(View()), f)
    {
      hide Reassembly.Stream, Crc32.IsTable;
      hide Begin;
      if HasStart(f) && f.requestId == 0 {
        return Status.Protocol;
      }
      st := Ok;
      if HasStart(f) {
        st := streams.BeginStream(f.requestId);
        if st == Ok {
          Call(OnBegin(f.requestId, f.sessionId));
        } else {
          BeginFails(old(streams.View()), f.requestId);
        }
      }
    }

    /** The content callbacks of a stream frame whose stream is in slot i. */
    method Content(f: Frame, r: Reply, i: nat) returns (st: Status)
      requires Valid() && i < MAX_STREAMS && IsStreamFrame(f)
      modifies this`trace, this`wire, this`sent, crc, crc.entries
      ensures Valid()
      ensures (st, View()) == StreamContent(old(View()), f, r, i)
    {
      hide Reassembly.Stream, Crc32.IsTable;
      hide Deliver, DecodeStreamData, DecodeToken;
      if f.msgType == STREAM_DATA {
        var d := DecodeStreamData(f.payload);
        if d.None? {
          return Status.Protocol;
        }
        Call(OnData(f.requestId, f.sessionId, d.value.kind, d.value.seq_, d.value.data));
      } else if f.msgType == TOKEN {
        var text := DecodeToken(f.payload);
        if text.None? {
          return Status.Protocol;
        }
        Call(OnToken(f.requestId, f.sessionId, streams.seqs[i], text.value));
        OnMessageCall(f, r, true);
      } else {
        OnMessageCall(f, r, true);
      }
      st := Ok;
    }

    /** `conn_handle_stream`. */
    method Stream(f: Frame, r: Reply) returns (st: Status)
      requires Valid() && IsStreamFrame(f)
      modifies this`trace, this`wire, this`sent, crc, crc.entries, streams.ids, streams.seqs
      ensures Valid()
      ensures (st, View()) == HandleStream(old(View()), f, r)
    {
      hide Reassembly.Stream, Crc32.IsTable;
      hide OpenStream, StreamContent, End, Bump;
      var terminal := HasEnd(f);
      st := StreamStart(f);
      if st != Ok {
        return;
      }
      var i := streams.Index(f.requestId);
      if i < 0 {
        return Status.Protocol;
      }
      st := Content(f, r, i);
      if st != Ok {
        return;
      }
      if f.msgType == STREAM_CLOSE {
        terminal := true;
      }
      if terminal {
        streams.EndStream(f.requestId);
        Call(OnEnd(f.requestId, f.sessionId));
      } else if f.msgType == TOKEN {
        streams.Count(i);
      }
    }

    /** `conn_handle_open`. */
    method Opened(f: Frame, r: Reply) returns (st: Status)
      requires Valid()
      modifies this, crc, crc.entries, streams.ids, streams.seqs
      ensures Valid()
      ensures (st, View()) == HandleOpen(old(View()), f, r)
    {
      hide Reassembly.Stream, Crc32.IsTable;
      hide HandleStream, Deliver, End, Close, DecodePair;
      hide Protocol.SendUnchecked;
      if f.version / 256 != 0 {
        return Status.Protocol;
      }
      if f.msgType == HELLO || f.msgType == HELLO_ACK || f.msgType == HELLO_NACK {
        return Status.Protocol;
      }
      if f.msgType == PING {
        st := SendUnchecked(ReplyFrame(PONG, f.requestId, f.sessionId, []), r.delivered);
        return;
      }
      if f.msgType == CLOSE {
        var reason := CLOSE_NORMAL;
        if |f.payload| > 0 {
          var v := DecodePair(f.payload);
          if v.Some? {
            reason := v.value;
          }
        } else {
          NoPair(f.payload);
        }
        SetClosed(reason);
        return Ok;
      }
      if IsStreamFrame(f) {
        st := Stream(f, r);
        return;
      }
      if f.msgType == COMPLETE {
        streams.EndStream(f.requestId);
      }
      OnMessageCall(f, r, f.requestId != 0 && f.msgType != ERROR && f.msgType != PONG);
      st := Ok;
    }

    /** The dispatch of one frame in `pai_proto_conn_poll`: a rejected frame closes the connection. */
    method Receive(f: Frame, r: Reply) returns (st: Status)
      requires Valid()
      modifies this, crc, crc.entries, streams.ids, streams.seqs
      ensures Valid()
      ensures View() == Dispatch(old(View()), f, r)
      ensures st == Handle(old(View()), f, r).0
    {
      hide Reassembly.Stream, Crc32.IsTable;
      hide HandleOpen, HandlePreopen, Close;
      if state == Open {
        st := Opened(f, r);
      } else {
        st := PreOpen(f, r);
      }
      if st != Ok {
        SetClosed(CLOSE_PROTOCOL);
      }
    }
  }

  lemma NoPair(p: seq<bv8>)
    requires |p| == 0
    ensures DecodePair(p) == None
  {
  }

  lemma BeginFails(t: Table, id: U64)
    requires |t.ids| == |t.seqs|
    ensures Begin(t, id).0 != Ok ==> Begin(t, id).1 == t
  {
  }

  lemma WholeFrame(f: Frame, header: seq<bv8>)
    requires header == Encoded(f)[..HEADER_SIZE]
    ensures header + f.payload == Encoded(f)
  {
    EncodedFields(f);
    assert Encoded(f) == Encoded(f)[..HEADER_SIZE] + Encoded(f)[HEADER_SIZE..];
  }

  lemma HeaderIs(f: Frame, h: seq<bv8>)
    requires |h| == HEADER_SIZE && h[..CRC_BYTES] == Lead(f) && h[36..40] == ToLe(0, 4)
    requires h[32..36] == ToLe(Val32(Crc32.Crc(Lead(f) + f.payload)), 4)
    ensures h == Encoded(f)[..HEADER_SIZE]
  {
    hide ToLe;
    hide Crc32.Crc;
    assert h == h[..32] + h[32..36] + h[36..40];
  }
}
