/** The receive pump `pai_proto_conn_poll` of protocol/connection.c over a byte channel
    that delivers in arbitrary pieces. */
module Connection {
  import opened Mem
  import opened Bytes
  import opened Frame
  import opened Streams
  import opened Protocol
  import opened Reassembly
  import Crc32
  import E = Endpoint

  const POLL_BATCH: nat := 64

  /** The receiving end of the transport. `queue` is what the peer has sent and nobody has
      read yet; `ended` says that no more will come. */
  class Channel {
    var queue: seq<bv8>
    var ended: bool

    /** Any nonempty part of what is there, at most n bytes; or a failure. */
    method Recv(n: nat) returns (st: Status, data: seq<bv8>)
      requires n > 0
      modifies this`queue
      ensures old(queue) == data + queue && |data| <= n
      ensures st == Ok && old(queue) != [] ==> data != []
      ensures st != Ok ==> data == []
    {
      var broken: bool := *;
      if broken {
        st, data := *, [];
        if st == Ok {
          st := Mismatch;
        }
      } else if queue == [] {
        st, data := if ended then Io else Ok, [];
      } else {
        var got: nat :| 1 <= got <= n && got <= |queue|;
        st, data := Ok, queue[..got];
        queue := queue[got..];
      }
    }
  }

  /** Header being filled, and the payload bytes so far. */
  function Held(buf: seq<bv8>, filled: nat, payload: seq<bv8>): seq<bv8>
    requires filled <= |buf|
  {
    buf[..filled] + payload
  }

  /** The buffers hold the beginning of a frame, or a whole one. */
  predicate Buffered(buf: seq<bv8>, filled: nat, payload: seq<bv8>, pending: Option<Header>) {
    && |buf| == HEADER_SIZE && filled <= HEADER_SIZE
    && (filled < HEADER_SIZE ==> payload == [] && pending == None)
    && (filled == HEADER_SIZE ==>
          pending.Some? && Decode(buf) == Value(pending.value) && |payload| <= pending.value.payloadLen)
  }

  predicate WholeFrame(filled: nat, payload: seq<bv8>, pending: Option<Header>) {
    filled == HEADER_SIZE && pending.Some? && |payload| == pending.value.payloadLen
  }

  lemma HeldPartial(buf: seq<bv8>, filled: nat, payload: seq<bv8>, pending: Option<Header>)
    requires Buffered(buf, filled, payload, pending) && !WholeFrame(filled, payload, pending)
    ensures Partial(Held(buf, filled, payload))
  {
    hide Decode;
    if filled == HEADER_SIZE {
      assert Held(buf, filled, payload)[..HEADER_SIZE] == buf;
    }
  }

  lemma HeldWhole(buf: seq<bv8>, filled: nat, payload: seq<bv8>, pending: Option<Header>)
    requires Buffered(buf, filled, payload, pending) && WholeFrame(filled, payload, pending)
    ensures var s := Held(buf, filled, payload);
            && !Partial(s) && |s| >= HEADER_SIZE && Decode(s[..HEADER_SIZE]).Value? && SizeOf(s) == |s|
            && (Complete(s) <==> Intact(buf, payload))
            && (Complete(s) ==> First(s) == Join(pending.value, payload))
  {
    hide Decode, CrcMatches;
    var s := Held(buf, filled, payload);
    assert s[..HEADER_SIZE] == buf && s[HEADER_SIZE..] == payload;
    assert s[HEADER_SIZE..|s|] == payload;
  }

  lemma HeaderBad(buf: seq<bv8>)
    requires |buf| == HEADER_SIZE && Decode(buf).Fail?
    ensures Bad(Held(buf, HEADER_SIZE, []))
  {
    hide Decode;
    assert Held(buf, HEADER_SIZE, [])[..HEADER_SIZE] == buf;
  }

  /** The answers to frames number from up to to. */
  function Answers(app: nat -> Reply, from: nat, to: nat): (r: seq<Reply>)
    requires from <= to
    ensures |r| == to - from
  {
    seq(to - from, i requires 0 <= i => app(from + i))
  }

  lemma AnswersNext(app: nat -> Reply, from: nat, to: nat)
    requires from <= to
    ensures Answers(app, from, to + 1) == Answers(app, from, to) + [app(to)]
  {
  }

  /** One more frame at the end of a run. */
  lemma {:induction false} RunNext(c: Conn, fs: seq<Frame>, rs: seq<Reply>, f: Frame, r: Reply)
    requires Shaped(c) && |fs| == |rs|
    ensures Run(c, fs + [f], rs + [r]) ==
            var d := Run(c, fs, rs); if d.state == Closed then d else Dispatch(d, f, r)
    decreases |fs|
  {
    hide Dispatch;
    if fs == [] {
      assert fs + [f] == [f] && rs + [r] == [r];
      assert [f][1..] == [] && [r][1..] == [];
    } else if c.state != Closed {
      assert (fs + [f])[1..] == fs[1..] + [f] && (rs + [r])[1..] == rs[1..] + [r];
      RunNext(Dispatch(c, fs[0], rs[0]), fs[1..], rs[1..], f, r);
    }
  }

  /** Why a connection is closed: a handler or a rejected frame, bytes that are no frame, or
      the transport. */
  datatype Cause = NotClosed | ByFrame | Corrupt | Lost(reason: U32)

  function Ended(c: Conn, why: Cause): Conn {
    match why
    case Lost(reason) => Close(c, reason)
    case Corrupt => Close(c, CLOSE_PROTOCOL)
    case _ => c
  }

  /** A run over a sequence in two parts. */
  lemma {:induction false} RunAppend(c: Conn, fs: seq<Frame>, rs: seq<Reply>, gs: seq<Frame>, qs: seq<Reply>)
    requires Shaped(c) && |fs| == |rs| && |gs| == |qs|
    ensures Run(c, fs + gs, rs + qs) == Run(Run(c, fs, rs), gs, qs)
    decreases |fs|
  {
    hide Dispatch;
    if fs == [] {
      assert fs + gs == gs && rs + qs == qs;
    } else if c.state != Closed {
      assert (fs + gs)[1..] == fs[1..] + gs && (rs + qs)[1..] == rs[1..] + qs;
      RunAppend(Dispatch(c, fs[0], rs[0]), fs[1..], rs[1..], gs, qs);
    }
  }

  lemma AnswersAppend(app: nat -> Reply, a: nat, b: nat, c: nat)
    requires a <= b <= c
    ensures Answers(app, a, c) == Answers(app, a, b) + Answers(app, b, c)
  {
  }

  /** The runs of two polls are one run, if the connection is open between them. */
  lemma PollTwice(c: Conn, log1: seq<Frame>, log2: seq<Frame>, app: nat -> Reply, n: nat, d: Conn, why: Cause)
    requires Shaped(c) && n <= |log1| <= |log2| && log2[..|log1|] == log1
    requires d.state != Closed && d == Ended(Run(c, log1[n..], Answers(app, n, |log1|)), why)
    ensures Run(d, log2[|log1|..], Answers(app, |log1|, |log2|)) == Run(c, log2[n..], Answers(app, n, |log2|))
  {
    hide Run, Answers;
    RunAppend(c, log1[n..], Answers(app, n, |log1|), log2[|log1|..], Answers(app, |log1|, |log2|));
    AnswersAppend(app, n, |log1|, |log2|);
    assert log2[n..] == log2[..|log1|][n..] + log2[|log1|..];
  }

  lemma RunNothing(c: Conn, app: nat -> Reply, n: nat)
    requires Shaped(c)
    ensures Run(c, [], Answers(app, n, n)) == c
  {
  }

  datatype Progress = Wait | Go | Stop(result: Status)

  class Connection {
    const end: E.Endpoint
    const rx: Channel
    const app: nat -> Reply
    const headerBuf: array<bv8>
    var headerFilled: nat
    var payload: seq<bv8>
    var pending: Option<Header>
    /** All bytes read so far, the frames dispatched so far, and the bytes behind them. */
    ghost var taken: seq<bv8>
    ghost var log: seq<Frame>
    /** How many frames were dispatched. */
    var count: nat
    ghost var rest: seq<bv8>

    ghost predicate Consistent()
      reads this, headerBuf, end, end.crc, end.crc.entries, end.streams
    {
      && end.Valid() && headerBuf.Length == HEADER_SIZE
      && Parses(taken, log, rest) && count == |log|
      && (end.state != Closed ==>
            && Buffered(headerBuf[..], headerFilled, payload, pending)
            && rest == Held(headerBuf[..], headerFilled, payload))
    }

    /** Between two calls of poll an unclosed connection holds less than a frame. */
    ghost predicate Valid()
      reads this, headerBuf, end, end.crc, end.crc.entries, end.streams
    {
      Consistent() && (end.state != Closed ==> !WholeFrame(headerFilled, payload, pending))
    }

    constructor (e: E.Endpoint, channel: Channel, answers: nat -> Reply)
      requires e.Valid()
      ensures Valid() && end == e && rx == channel && app == answers
      ensures taken == [] && log == [] && rest == [] && fresh(headerBuf)
    {
      end, rx, app := e, channel, answers;
      headerBuf := new bv8[HEADER_SIZE](_ => 0);
      headerFilled, payload, pending := 0, [], None;
      taken, log, rest, count := [], [], [], 0;
    }

    /** `conn_reset_phase`. */
    method ResetPhase()
      modifies this`headerFilled, this`payload, this`pending
      ensures headerFilled == 0 && payload == [] && pending == None
    {
      headerFilled, payload, pending := 0, [], None;
    }

    /** Reads at most n bytes; they are the next ones of the stream. */
    method Pull(n: nat) returns (st: Status, data: seq<bv8>)
      requires Parses(taken, log, rest) && n > 0
      modifies this`taken, this`rest, rx
      ensures Parses(taken, log, rest) && rest == old(rest) + data
      ensures old(taken) + old(rx.queue) == taken + rx.queue
      ensures |data| <= n && |rx.queue| + |data| == |old(rx.queue)|
      ensures st == Ok && old(rx.queue) != [] ==> data != []
      ensures st != Ok ==> data == []
    {
      hide Parses;
      st, data := rx.Recv(n);
      ParsesMore(taken, log, rest, data);
      assert taken + (data + rx.queue) == (taken + data) + rx.queue;
      taken, rest := taken + data, rest + data;
    }

    method CopyHeader(data: seq<bv8>)
      requires headerBuf.Length == HEADER_SIZE && headerFilled + |data| <= HEADER_SIZE
      modifies this`headerFilled, headerBuf
      ensures headerFilled == old(headerFilled) + |data|
      ensures headerBuf[..headerFilled] == old(headerBuf[..headerFilled]) + data
    {
      forall i | 0 <= i < |data| {
        headerBuf[headerFilled + i] := data[i];
      }
      headerFilled := headerFilled + |data|;
    }

    /** Phase 1: complete the header. */
    method FillHeader() returns (p: Progress, ghost reason: U32)
      requires Consistent() && end.state != Closed && headerFilled < HEADER_SIZE
      modifies this`headerFilled, this`pending, this`taken, this`rest, headerBuf, rx, end`state, end`trace
      ensures Consistent()
      ensures old(taken) + old(rx.queue) == taken + rx.queue
      ensures !p.Stop? ==> end.state != Closed && end.View() == old(end.View())
      ensures p.Stop? ==> end.state == Closed && end.View() == Close(old(end.View()), reason)
      ensures p.Go? <==> !p.Stop? && headerFilled == HEADER_SIZE
      ensures !p.Stop? && old(rx.queue) != [] ==> |rx.queue| < |old(rx.queue)|
      ensures |rx.queue| <= |old(rx.queue)|
      ensures reason == CLOSE_PROTOCOL && p.Stop? ==> Bad(rest)
    {
      hide Decode, Parses, Bad;
      hide Reassembly.Stream, Crc32.IsTable;
      reason := CLOSE_PEER_GONE;
      var st, data := Pull(HEADER_SIZE - headerFilled);
      if st == Io && |data| == 0 {
        end.SetClosed(CLOSE_PEER_GONE);
        return Stop(Ok), reason;
      }
      if st != Ok {
        end.SetClosed(CLOSE_PEER_GONE);
        return Stop(st), reason;
      }
      CopyHeader(data);
      assert rest == Held(headerBuf[..], headerFilled, []);
      if headerFilled < HEADER_SIZE {
        return Wait, reason;
      }
      var header := Decode(headerBuf[..]);
      if header.Fail? {
        HeaderBad(headerBuf[..]);
        end.SetClosed(CLOSE_PROTOCOL);
        return Stop(Status.Protocol), CLOSE_PROTOCOL;
      }
      pending := Some(header.value);
      p := Go;
    }

    /** Phase 2: complete the payload. */
    method FillPayload() returns (p: Progress, ghost reason: U32)
      requires Consistent() && end.state != Closed && headerFilled == HEADER_SIZE
      modifies this`payload, this`taken, this`rest, rx, end`state, end`trace
      ensures Consistent()
      ensures old(taken) + old(rx.queue) == taken + rx.queue
      ensures !p.Stop? ==> end.state != Closed && end.View() == old(end.View())
      ensures p.Stop? ==> end.state == Closed && end.View() == Close(old(end.View()), reason)
      ensures p.Go? <==> !p.Stop? && WholeFrame(headerFilled, payload, pending)
      ensures !p.Stop? && old(rx.queue) != [] && !old(WholeFrame(headerFilled, payload, pending)) ==>
                |rx.queue| < |old(rx.queue)|
      ensures |rx.queue| <= |old(rx.queue)|
      ensures p.Stop? && reason == CLOSE_PROTOCOL ==> Partial(rest)
    {
      hide Decode, Parses, Partial;
      hide Reassembly.Stream, Crc32.IsTable;
      reason := CLOSE_PEER_GONE;
      p := Go;
      if pending.value.payloadLen > |payload| {
        HeldPartial(headerBuf[..], headerFilled, payload, pending);
        var st, data := Pull(pending.value.payloadLen - |payload|);
        if st == Io {
          assert rest == old(rest);
          end.SetClosed(CLOSE_PROTOCOL);
          return Stop(Status.Protocol), CLOSE_PROTOCOL;
        }
        if st != Ok {
          end.SetClosed(CLOSE_PEER_GONE);
          return Stop(st), reason;
        }
        assert Held(headerBuf[..], headerFilled, payload + data) == Held(headerBuf[..], headerFilled, payload) + data;
        payload := payload + data;
        if |payload| < pending.value.payloadLen {
          p := Wait;
        }
      }
    }

    /** Phase 3: integrity check and dispatch of the whole frame in the buffers. */
    method Deliver() returns (p: Progress, ghost intact: bool)
      requires Consistent() && end.state != Closed && WholeFrame(headerFilled, payload, pending)
      modifies this`headerFilled, this`payload, this`pending, this`log, this`rest, this`count
      modifies end, end.crc, end.crc.entries, end.streams.ids, end.streams.seqs
      ensures Valid() && (p.Go? || p == Stop(Status.Protocol)) && (p.Stop? ==> end.state == Closed)
      ensures Shaped(old(end.View()))
      ensures intact ==> Complete(old(rest)) && log == old(log) + [First(old(rest))] && rest == []
                         && end.View() == Dispatch(old(end.View()), First(old(rest)), app(|old(log)|))
      ensures !intact ==> p.Stop? && log == old(log) && rest == old(rest) && Bad(rest)
                          && end.View() == Close(old(end.View()), CLOSE_PROTOCOL)
    {
      hide Decode, Parses, CrcMatches, Dispatch, Handle;
      hide Reassembly.Stream, Crc32.IsTable;
      HeldWhole(headerBuf[..], headerFilled, payload, pending);
      var st := Validate(end.crc, headerBuf[..], payload);
      intact := st == Ok;
      if st != Ok {
        end.SetClosed(CLOSE_PROTOCOL);
        return Stop(Status.Protocol), intact;
      }
      var f := Join(pending.value, payload);
      ParsesNext(taken, log, rest);
      var reply := app(count);
      log, rest, count := log + [f], [], count + 1;
      st := end.Receive(f, reply);
      if st != Ok {
        NotOkCloses(old(end.View()), f, reply);
        return Stop(Status.Protocol), intact;
      }
      ResetPhase();
      p := Go;
    }

    /** One round of the loop in `pai_proto_conn_poll`. */
    method Round() returns (p: Progress, ghost why: Cause)
      requires Valid() && end.state != Closed
      modifies this`headerFilled, this`payload, this`pending, this`taken, this`log, this`rest, this`count, headerBuf, rx
      modifies end, end.crc, end.crc.entries, end.streams.ids, end.streams.seqs
      ensures Valid() && Shaped(old(end.View()))
      ensures old(taken) + old(rx.queue) == taken + rx.queue
      ensures p.Stop? ==> end.state == Closed
      ensures p.Wait? ==> end.state != Closed && why == NotClosed
      ensures !p.Stop? ==> |rx.queue| <= |old(rx.queue)|
      ensures !p.Stop? && old(rx.queue) != [] ==> |rx.queue| < |old(rx.queue)|
      ensures p.Go? ==> why == ByFrame
      ensures why == ByFrame ==> |log| == |old(log)| + 1 && log[..|old(log)|] == old(log)
                                 && end.View() == Dispatch(old(end.View()), log[|old(log)|], app(|old(log)|))
      ensures why != ByFrame ==> log == old(log)
                                 && (p.Wait? ==> why == NotClosed && end.View() == old(end.View()))
                                 && (p.Stop? ==> why.Lost? || why == Corrupt)
                                 && (why.Lost? ==> end.View() == Close(old(end.View()), why.reason))
                                 && (why == Corrupt ==> Bad(rest) && end.View() == Close(old(end.View()), CLOSE_PROTOCOL))
    {
      hide Decode, Parses, CrcMatches, Dispatch, Bad, Partial, Complete, Close, First, Held, Intact;
      hide Reassembly.Stream, Crc32.IsTable;
      ghost var reason;
      if headerFilled < HEADER_SIZE {
        p, reason := FillHeader();
        if !p.Go? {
          why := if p.Wait? then NotClosed else if reason == CLOSE_PROTOCOL then Corrupt else Lost(reason);
          return;
        }
      }
      p, reason := FillPayload();
      if !p.Go? {
        why := if p.Wait? then NotClosed else Lost(reason);
        return;
      }
      ghost var intact;
      p, intact := Deliver();
      why := if intact then ByFrame else Corrupt;
    }

    /** `pai_proto_conn_poll`: at most 64 frames per call. What it dispatches is what a run
        over the frames just recovered does, and it reads on as long as bytes are there. */
    method Poll() returns (result: Status, frames: nat, ghost why: Cause)
      requires Valid()
      modifies this`headerFilled, this`payload, this`pending, this`taken, this`log, this`rest, this`count, headerBuf, rx
      modifies end, end.crc, end.crc.entries, end.streams.ids, end.streams.seqs
      ensures Valid() && Shaped(old(end.View()))
      ensures old(taken) + old(rx.queue) == taken + rx.queue
      ensures frames <= POLL_BATCH && |old(log)| + frames <= |log| <= |old(log)| + frames + 1
      ensures log[..|old(log)|] == old(log)
      ensures end.View() == Ended(Run(old(end.View()), log[|old(log)|..], Answers(app, |old(log)|, |log|)), why)
      ensures why == Corrupt ==> Bad(rest)
      ensures end.state != Closed ==> result == Ok
      ensures end.state != Closed ==> |log| == |old(log)| + frames
      ensures end.state != Closed && old(rx.queue) != [] ==> |rx.queue| < |old(rx.queue)|
      ensures |rx.queue| <= |old(rx.queue)| || end.state == Closed
    {
      hide Decode, Parses, CrcMatches, Dispatch, Bad, Partial, Complete, Close, First, Held, Run, Answers;
      hide Reassembly.Stream, Crc32.IsTable;
      result, frames, why := Ok, 0, NotClosed;
      ghost var c0, n0 := end.View(), |log|;
      RunNothing(c0, app, n0);
      assert log[n0..] == [];
      while end.state != Closed
        invariant Valid() && Shaped(c0) && 0 <= frames < POLL_BATCH && result == Ok
        invariant |log| == n0 + frames && log[..n0] == old(log)
        invariant end.View() == Run(c0, log[n0..], Answers(app, n0, |log|))
        invariant old(taken) + old(rx.queue) == taken + rx.queue
        invariant frames == 0 ==> rx.queue == old(rx.queue)
        invariant end.state != Closed ==> |rx.queue| <= |old(rx.queue)|
        invariant frames > 0 && old(rx.queue) != [] ==> |rx.queue| < |old(rx.queue)|
        invariant why == NotClosed || why == ByFrame
        decreases POLL_BATCH - frames
      {
        ghost var l, c := log, end.View();
        var p;
        p, why := Round();
        if why == ByFrame {
          RunNext(c0, l[n0..], Answers(app, n0, |l|), log[|l|], app(|l|));
          AnswersNext(app, n0, |l|);
          assert log[n0..] == l[n0..] + [log[|l|]];
        }
        if p.Stop? {
          result := p.result;
          break;
        }
        if p.Wait? {
          break;
        }
        frames := frames + 1;
        if frames >= POLL_BATCH {
          break;
        }
      }
    }

    /** Repeated polling until the connection closes or nothing is left to read. Every poll
        makes progress, so this ends; what it dispatches is one run over the frames. */
    method PollUntilIdle() returns (ghost why: Cause)
      requires Valid()
      modifies this`headerFilled, this`payload, this`pending, this`taken, this`log, this`rest, this`count, headerBuf, rx
      modifies end, end.crc, end.crc.entries, end.streams.ids, end.streams.seqs
      ensures Valid()
      ensures old(taken) + old(rx.queue) == taken + rx.queue
      ensures |old(log)| <= |log| && log[..|old(log)|] == old(log) && Shaped(old(end.View()))
      ensures end.View() == Ended(Run(old(end.View()), log[|old(log)|..], Answers(app, |old(log)|, |log|)), why)
      ensures why == Corrupt ==> Bad(rest)
      ensures end.state != Closed ==> rx.queue == []
    {
      hide Decode, Parses, CrcMatches, Dispatch, Bad, Partial, Complete, First, Held, Run, Answers;
      hide Reassembly.Stream, Crc32.IsTable;
      why := NotClosed;
      ghost var c0, n0 := end.View(), |log|;
      ViewShaped();
      RunNothing(c0, app, n0);
      assert log[n0..] == [];
      while end.state != Closed && rx.queue != []
        invariant Valid() && Shaped(c0)
        invariant old(taken) + old(rx.queue) == taken + rx.queue
        invariant n0 <= |log| && log[..n0] == old(log)
        invariant end.View() == Ended(Run(c0, log[n0..], Answers(app, n0, |log|)), why)
        invariant why == Corrupt ==> Bad(rest)
        decreases end.state != Closed, |rx.queue|
      {
        ghost var l, d, was := log, end.View(), why;
        var result, frames;
        result, frames, why := Poll();
        assert log[..n0] == log[..|l|][..n0];
        PollTwice(c0, l, log, app, n0, d, was);
      }
    }

    lemma ViewShaped()
      requires Valid()
      ensures Shaped(end.View())
    {
    }
  }

  lemma NotOkCloses(c: Conn, f: Frame, r: Reply)
    requires Shaped(c) && Handle(c, f, r).0 != Ok
    ensures Dispatch(c, f, r).state == Closed
  {
    hide Handle;
  }

  /** Whatever pieces the bytes arrive in and however often poll is called: if what was read
      is part of the stream of the frames the peer sent, the frames dispatched are a prefix
      of those, field by field, and nothing read looks malformed. */
  lemma DispatchedIsPrefix(c: Connection, fs: seq<Frame>)
    requires c.Valid() && AllSendable(fs) && c.taken <= Reassembly.Stream(fs)
    ensures |c.log| <= |fs| && c.log == Wire(fs)[..|c.log|] && !Bad(c.rest)
  {
    hide Bad, Partial, Complete, Received, Encoded;
    PrefixOfSent(c.taken, c.log, c.rest, fs);
  }

  /** Once the whole stream has been read by a connection that is not closed, every frame
      the peer sent has been dispatched; the batch bound loses nothing. */
  lemma DispatchedIsAll(c: Connection, fs: seq<Frame>)
    requires c.Valid() && c.end.state != Closed && AllSendable(fs) && c.taken == Reassembly.Stream(fs)
    ensures c.log == Wire(fs)
  {
    hide Partial, Complete, Received, Encoded, Decode;
    HeldPartial(c.headerBuf[..], c.headerFilled, c.payload, c.pending);
    AllArrived(c.taken, c.log, c.rest, fs);
  }

  lemma RunStopped(c: Conn, fs: seq<Frame>, rs: seq<Reply>)
    requires Shaped(c) && c.state == Closed && |fs| == |rs|
    ensures Run(c, fs, rs) == c
  {
    hide Dispatch;
  }

  /** A closed connection dispatches nothing more. */
  lemma RunClosed(c: Conn, fs: seq<Frame>, app: nat -> Reply, k: nat)
    requires Shaped(c) && k <= |fs| && Run(c, fs[..k], Answers(app, 0, k)).state == Closed
    ensures Run(c, fs, Answers(app, 0, |fs|)) == Run(c, fs[..k], Answers(app, 0, k))
  {
    hide Answers, Run;
    AnswersAppend(app, 0, k, |fs|);
    RunStopped(Run(c, fs[..k], Answers(app, 0, k)), fs[k..], Answers(app, k, |fs|));
    RunAppend(c, fs[..k], Answers(app, 0, k), fs[k..], Answers(app, k, |fs|));
    assert fs[..k] + fs[k..] == fs;
  }

  /** A new connection whose peer has sent `fs` polls until idle. Unless the transport is
      lost, what it does is one run over all of `fs`, whatever the pieces; if it is lost, a
      run over a prefix. It never closes for corruption. */
  method ReceiveAll(end: E.Endpoint, rx: Channel, app: nat -> Reply, ghost fs: seq<Frame>)
    returns (c: Connection, ghost why: Cause)
    requires end.Valid() && AllSendable(fs) && rx.queue == Reassembly.Stream(fs)
    modifies rx, end, end.crc, end.crc.entries, end.streams.ids, end.streams.seqs
    ensures c.Valid() && c.end == end && Shaped(old(end.View()))
    ensures |c.log| <= |fs| && c.log == Wire(fs)[..|c.log|]
    ensures end.View() == Ended(Run(old(end.View()), Wire(fs)[..|c.log|], Answers(app, 0, |c.log|)), why)
    ensures !why.Lost? ==> end.View() == Run(old(end.View()), Wire(fs), Answers(app, 0, |fs|))
    ensures end.state != Closed ==> c.log == Wire(fs)
    ensures why != Corrupt
  {
    hide Decode, Parses, CrcMatches, Bad, Partial, Complete, Held, Received, Encoded, AllSendable, Run, Answers;
    hide Reassembly.Stream, Crc32.IsTable;
    c := new Connection(end, rx, app);
    ghost var all, c0 := rx.queue, end.View();
    why := c.PollUntilIdle();
    assert all == c.taken + rx.queue;
    assert c.log[0..] == c.log;
    DispatchedIsPrefix(c, fs);
    ghost var k := |c.log|;
    if end.state != Closed {
      assert c.taken == all;
      DispatchedIsAll(c, fs);
      assert Wire(fs)[..k] == Wire(fs);
    } else if !why.Lost? {
      RunClosed(c0, Wire(fs), app, k);
    }
  }
}
