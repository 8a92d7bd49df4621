/** The command interpreter `kk_runs` of compression/kraken_decode.c with plain literals
    (mode 1): the specification works on a growing byte string with LZ77 matches, the code
    on one buffer with block copies. */
module LzRuns {
  import opened Mem
  import opened LzCopy

  /** The side streams of one chunk, each with what is still unread of it behind the cursor. */
  datatype Streams = Streams(cmd: seq<Byte>, lit: seq<Byte>, len: seq<Byte>, off16: seq<Byte>, off32: seq<nat>)

  datatype Cursors = Cursors(cmd: nat, lit: nat, len: nat, off16: nat, off32: nat, recent: int)

  /** `exact` records that every match so far was one the block copy gets right. */
  datatype State = State(at: Cursors, out: seq<Byte>, exact: bool)

  /** A step ends in a new state, in the error return, or never. */
  datatype Outcome = Went(state: State) | Failed | Hangs

  /** A length from the length stream; `next` is the cursor behind it. */
  datatype Length = Length(value: nat, next: nat) | NoLength

  predicate InStreams(s: Streams, at: Cursors) {
    at.cmd <= |s.cmd| && at.lit <= |s.lit| && at.len <= |s.len| && at.off16 <= |s.off16| && at.off32 <= |s.off32|
  }

  function ReadLength(s: Streams, at: nat, extra: nat): Length
    requires at <= |s.len|
  {
    if at == |s.len| then NoLength
    else if s.len[at] <= 251 then Length((s.len[at] as nat) + extra, at + 1)
    else if |s.len| - at < 3 then NoLength
    else Length((s.len[at] as nat) + 4 * ((s.len[at + 1] as nat) + 256 * (s.len[at + 2] as nat)) + extra, at + 3)
  }

  /** The 16-bit distance at the cursor. */
  function Offset16(s: Streams, at: nat): nat
    requires at + 2 <= |s.off16|
  {
    (s.off16[at] as nat) + 256 * (s.off16[at + 1] as nat)
  }

  /** n literal bytes, if both the stream and the output have room for them. */
  function Literals(s: Streams, st: State, end: nat, n: nat): Outcome
    requires InStreams(s, st.at)
  {
    if end < |st.out| + n || |s.lit| - st.at.lit < n then Failed
    else Went(st.(out := st.out + s.lit[st.at.lit..st.at.lit + n], at := st.at.(lit := st.at.lit + n)))
  }

  /** A match of n bytes at the given distance, if its copy ends. */
  ghost function Match(st: State, dist: nat, n: nat): Outcome
    requires dist <= |st.out|
  {
    CopyEndsExactly(dist, n);
    if !CopyEnds(dist, n) then Hangs
    else if n == 0 then Went(st)
    else Went(st.(out := Expand(st.out, dist, n), exact := st.exact && Faithful(dist, n)))
  }

  /** A match never ends exactly at distance 0 and a positive length. */
  lemma HangsExactly(st: State, dist: nat, n: nat)
    requires dist <= |st.out|
    ensures Match(st, dist, n) == Hangs <==> dist == 0 && n > 0
  {
    hide CopyEnds;
    CopyEndsExactly(dist, n);
  }

  ghost function Short(s: Streams, st: State, end: nat, c: nat): Outcome
    requires InStreams(s, st.at) && st.at.recent <= 0
  {
    var litlen, matchlen := c % 8, c / 8 % 16;
    if c >= 128 && |s.off16| - st.at.off16 < 2 then Failed
    else
      var recent: int := if c >= 128 then 0 - (Offset16(s, st.at.off16) as int) else st.at.recent;
      var at := st.at.(recent := recent, off16 := if c >= 128 then st.at.off16 + 2 else st.at.off16);
      if end < |st.out| + litlen + matchlen || |s.lit| - at.lit < litlen || |st.out| + recent < 0 then Failed
      else
        var out := st.out + s.lit[at.lit..at.lit + litlen];
        Match(State(at.(lit := at.lit + litlen), out, st.exact), -recent, matchlen)
  }

  /** A match addressed from the start of the chunk; the code refuses every other offset. */
  ghost function Far(s: Streams, st: State, end: nat, chunk: nat, n: nat): Outcome
    requires InStreams(s, st.at) && chunk <= |st.out|
  {
    if st.at.off32 == |s.off32| then Failed
    else if s.off32[st.at.off32] > 0 || end < |st.out| + n then Failed
    else
      Match(st.(at := st.at.(off32 := st.at.off32 + 1, recent := chunk - |st.out|)), |st.out| - chunk, n)
  }

  function LongLiterals(s: Streams, st: State, end: nat): Outcome
    requires InStreams(s, st.at)
  {
    match ReadLength(s, st.at.len, 64)
    case NoLength => Failed
    case Length(n, next) => Literals(s, st.(at := st.at.(len := next)), end, n)
  }

  ghost function LongNear(s: Streams, st: State, end: nat): Outcome
    requires InStreams(s, st.at)
  {
    match ReadLength(s, st.at.len, 91)
    case NoLength => Failed
    case Length(n, next) =>
      if |s.off16| - st.at.off16 < 2 then Failed
      else
        var dist := Offset16(s, st.at.off16);
        if |st.out| < dist || end < |st.out| + n then Failed
        else Match(st.(at := st.at.(len := next, off16 := st.at.off16 + 2, recent := 0 - (dist as int))), dist, n)
  }

  lemma FarOnlyToChunk(s: Streams, st: State, end: nat, chunk: nat, n: nat)
    requires InStreams(s, st.at) && chunk <= |st.out| && st.at.off32 < |s.off32|
    ensures s.off32[st.at.off32] > 0 ==> Far(s, st, end, chunk, n) == Failed
    ensures Far(s, st, end, chunk, n).Went? && n > 0 ==>
              chunk < |st.out| && Far(s, st, end, chunk, n).state.at.recent == chunk - |st.out|
  {
    hide Expand, Faithful, CopyEnds;
    CopyEndsExactly(|st.out| - chunk, n);
  }

  ghost function LongFar(s: Streams, st: State, end: nat, chunk: nat): Outcome
    requires InStreams(s, st.at) && chunk <= |st.out|
  {
    match ReadLength(s, st.at.len, 29)
    case NoLength => Failed
    case Length(n, next) => Far(s, st.(at := st.at.(len := next)), end, chunk, n)
  }

  /** One command. */
  ghost function Step(s: Streams, st: State, end: nat, chunk: nat): Outcome
    requires InStreams(s, st.at) && st.at.cmd < |s.cmd| && st.at.recent <= 0 && chunk <= |st.out|
  {
    var c := s.cmd[st.at.cmd];
    var next := st.(at := st.at.(cmd := st.at.cmd + 1));
    if c >= 24 then Short(s, next, end, c)
    else if c > 2 then Far(s, next, end, chunk, c + 5)
    else if c == 0 then LongLiterals(s, next, end)
    else if c == 1 then LongNear(s, next, end)
    else LongFar(s, next, end, chunk)
  }

  /** Every step keeps the cursors in their streams and the output within the half, and
      only appends to it. */
  predicate Kept(s: Streams, st: State, end: nat, o: Outcome) {
    o.Went? ==>
      && InStreams(s, o.state.at) && o.state.at.recent <= 0 && o.state.at.cmd == st.at.cmd
      && st.out <= o.state.out && |o.state.out| <= end && (o.state.exact ==> st.exact)
  }

  lemma {:induction false} ExpandPrefix(s: seq<Byte>, dist: nat, n: nat)
    requires 1 <= dist <= |s|
    ensures s <= Expand(s, dist, n)
    decreases n
  {
    if n > 0 {
      ExpandPrefix(s + [s[|s| - dist]], dist, n - 1);
    }
  }

  lemma MatchKept(s: Streams, st: State, end: nat, dist: nat, n: nat)
    requires InStreams(s, st.at) && st.at.recent <= 0 && dist <= |st.out| && |st.out| + n <= end
    ensures Kept(s, st, end, Match(st, dist, n))
  {
    hide Expand, Faithful, CopyEnds;
    CopyEndsExactly(dist, n);
    if n > 0 && dist > 0 {
      ExpandPrefix(st.out, dist, n);
    }
  }

  lemma ShortKept(s: Streams, st: State, end: nat, c: nat)
    requires InStreams(s, st.at) && st.at.recent <= 0 && |st.out| <= end
    ensures Kept(s, st, end, Short(s, st, end, c))
  {
    hide Match, Offset16;
    var litlen, matchlen := c % 8, c / 8 % 16;
    if c < 128 || |s.off16| - st.at.off16 >= 2 {
      var recent: int := if c >= 128 then 0 - (Offset16(s, st.at.off16) as int) else st.at.recent;
      var at := st.at.(recent := recent, off16 := if c >= 128 then st.at.off16 + 2 else st.at.off16);
      if !(end < |st.out| + litlen + matchlen || |s.lit| - at.lit < litlen || |st.out| + recent < 0) {
        var out := st.out + s.lit[at.lit..at.lit + litlen];
        MatchKept(s, State(at.(lit := at.lit + litlen), out, st.exact), end, -recent, matchlen);
      }
    }
  }

  lemma FarKept(s: Streams, st: State, end: nat, chunk: nat, n: nat)
    requires InStreams(s, st.at) && st.at.recent <= 0 && chunk <= |st.out| <= end
    ensures Kept(s, st, end, Far(s, st, end, chunk, n))
  {
    hide Match;
    if st.at.off32 < |s.off32| && s.off32[st.at.off32] == 0 && |st.out| + n <= end {
      MatchKept(s, st.(at := st.at.(off32 := st.at.off32 + 1, recent := chunk - |st.out|)), end, |st.out| - chunk, n);
    }
  }

  lemma StepKept(s: Streams, st: State, end: nat, chunk: nat)
    requires InStreams(s, st.at) && st.at.cmd < |s.cmd| && st.at.recent <= 0 && chunk <= |st.out| <= end
    ensures Kept(s, st.(at := st.at.(cmd := st.at.cmd + 1)), end, Step(s, st, end, chunk))
  {
    hide Short, Far, Match;
    var c := s.cmd[st.at.cmd];
    var next := st.(at := st.at.(cmd := st.at.cmd + 1));
    if c >= 24 {
      ShortKept(s, next, end, c);
    } else if c > 2 {
      FarKept(s, next, end, chunk, c + 5);
    } else if c == 1 {
      NearKept(s, next, end);
    } else if c == 2 {
      match ReadLength(s, next.at.len, 29)
      case NoLength =>
      case Length(n, after) => FarKept(s, next.(at := next.at.(len := after)), end, chunk, n);
    }
  }

  lemma NearKept(s: Streams, st: State, end: nat)
    requires InStreams(s, st.at) && st.at.recent <= 0 && |st.out| <= end
    ensures Kept(s, st, end, LongNear(s, st, end))
  {
    hide Match, Offset16;
    match ReadLength(s, st.at.len, 91)
    case NoLength =>
    case Length(n, next) =>
      if |s.off16| - st.at.off16 >= 2 {
        var dist := Offset16(s, st.at.off16);
        if dist <= |st.out| && |st.out| + n <= end {
          MatchKept(s, st.(at := st.at.(len := next, off16 := st.at.off16 + 2, recent := 0 - (dist as int))), end, dist, n);
        }
      }
  }

  /** All commands, then the rest of the half from the literal stream. */
  ghost function Decode(s: Streams, st: State, end: nat, chunk: nat): Outcome
    requires InStreams(s, st.at) && st.at.recent <= 0 && chunk <= |st.out| <= end
    decreases |s.cmd| - st.at.cmd
  {
    if st.at.cmd == |s.cmd| then Literals(s, st, end, end - |st.out|)
    else
      StepKept(s, st, end, chunk);
      var o := Step(s, st, end, chunk);
      if o.Went? then Decode(s, o.state, end, chunk) else o
  }

  /** A successful run fills the half exactly, keeps what was there before, and ends with
      every command used. */
  lemma {:induction false} DecodeFills(s: Streams, st: State, end: nat, chunk: nat)
    requires InStreams(s, st.at) && st.at.recent <= 0 && chunk <= |st.out| <= end
    ensures var o := Decode(s, st, end, chunk);
            o.Went? ==> |o.state.out| == end && st.out <= o.state.out && o.state.at.cmd == |s.cmd|
                        && (o.state.exact ==> st.exact)
    decreases |s.cmd| - st.at.cmd
  {
    hide Step;
    if st.at.cmd < |s.cmd| {
      StepKept(s, st, end, chunk);
      var o := Step(s, st, end, chunk);
      if o.Went? {
        DecodeFills(s, o.state, end, chunk);
      }
    }
  }

  /* ---- the code ---- */

  /** The interpreter's local cursors and the output buffer. */
  class Runs {
    const s: Streams
    const buf: array<Byte>
    const end: nat
    const chunk: nat
    var at: Cursors
    var cur: nat

    /** Buffer and cursors are those of specification state st. While every match was one the
        block copy gets right, the buffer holds the output of st. */
    ghost predicate Is(st: State, tail: seq<Byte>)
      reads this, buf
    {
      && end <= buf.Length && chunk <= cur <= end && buf[end..] == tail
      && at == st.at && cur == |st.out| && InStreams(s, at) && at.recent <= 0
      && (st.exact ==> buf[..cur] == st.out)
    }

    constructor (streams: Streams, buffer: array<Byte>, start: nat, last: nat, chunkStart: nat, recent: int)
      requires chunkStart <= start <= last <= buffer.Length && recent <= 0
      ensures s == streams && buf == buffer && end == last && chunk == chunkStart
      ensures Is(State(Cursors(0, 0, 0, 0, 0, recent), buffer[..start], true), buffer[last..])
    {
      s, buf, end, chunk := streams, buffer, last, chunkStart;
      at, cur := Cursors(0, 0, 0, 0, 0, recent), start;
    }

    /** `memcpy` of n literals to the output. */
    method CopyLiterals(n: nat, ghost st: State, ghost tail: seq<Byte>)
      requires Is(st, tail) && cur + n <= end && at.lit + n <= |s.lit|
      modifies this, buf
      ensures Is(st.(out := st.out + s.lit[st.at.lit..st.at.lit + n], at := st.at.(lit := st.at.lit + n)), tail)
    {
      forall i | 0 <= i < n {
        buf[cur + i] := s.lit[at.lit + i];
      }
      assert buf[..cur] == old(buf[..cur]);
      assert buf[cur..cur + n] == s.lit[at.lit..at.lit + n];
      assert buf[..cur + n] == buf[..cur] + buf[cur..cur + n];
      assert buf[end..] == old(buf[end..]);
      cur := cur + n;
      at := at.(lit := at.lit + n);
    }

    /** A match, unless its copy never ends. */
    method CopyOne(dist: nat, n: nat, ghost st: State, ghost tail: seq<Byte>) returns (hangs: bool)
      requires Is(st, tail) && dist <= cur && cur + n <= end
      modifies this`cur, buf
      ensures hangs <==> Match(st, dist, n) == Hangs
      ensures !hangs ==> Match(st, dist, n).Went? && Is(Match(st, dist, n).state, tail)
    {
      hide Expand, Written, Faithful, CopyEnds;
      CopyEndsExactly(dist, n);
      ghost var before, was := buf[..cur], buf[..];
      var ends := CopyMatch(buf, cur, dist, n);
      if !ends {
        return true;
      }
      if dist == 0 {
        return false;
      }
      if Faithful(dist, n) {
        FaithfulIsExpand(before, dist, n);
      }
      if n == 0 {
        NoMatch(before, dist);
      }
      TailSame(was, buf[..], cur + n, end);
      cur := cur + n;
      hangs := false;
    }

    /** Reads a length from the length stream. */
    method TakeLength(extra: nat) returns (n: nat, ok: bool)
      requires at.len <= |s.len|
      modifies this`at
      ensures ok <==> ReadLength(s, old(at.len), extra).Length?
      ensures ok ==> ReadLength(s, old(at.len), extra) == Length(n, at.len) && at == old(at).(len := at.len)
    {
      n, ok := 0, false;
      if at.len == |s.len| {
        return;
      }
      var first := s.len[at.len];
      at := at.(len := at.len + 1);
      n := first;
      if first > 251 {
        if |s.len| - at.len < 2 {
          return;
        }
        n := n + 4 * ((s.len[at.len] as nat) + 256 * (s.len[at.len + 1] as nat));
        at := at.(len := at.len + 2);
      }
      n := n + extra;
      ok := true;
    }

    /** Commands from 24 on. */
    method ShortCommand(c: nat, ghost st: State, ghost tail: seq<Byte>) returns (r: Result)
      requires Is(st, tail) && c < 256
      modifies this, buf
      ensures Agrees(r, Short(s, st, end, c)) && (r == Fine ==> Is(Short(s, st, end, c).state, tail))
    {
      hide Match, Offset16;
      var litlen, matchlen := c % 8, c / 8 % 16;
      if c >= 128 {
        if |s.off16| - at.off16 < 2 {
          return Error;
        }
        at := at.(recent := 0 - (Offset16(s, at.off16) as int), off16 := at.off16 + 2);
      }
      if end - cur < litlen + matchlen || |s.lit| - at.lit < litlen || cur + at.recent < 0 {
        return Error;
      }
      ghost var st1 := st.(at := at);
      CopyLiterals(litlen, st1, tail);
      ghost var st2 := st1.(out := st1.out + s.lit[st1.at.lit..st1.at.lit + litlen], at := at);
      var hangs := CopyOne(0 - at.recent, matchlen, st2, tail);
      r := if hangs then Endless else Fine;
    }

    /** Commands 3 to 23, and the match part of command 2. */
    method FarCommand(n: nat, ghost st: State, ghost tail: seq<Byte>) returns (r: Result)
      requires Is(st, tail)
      modifies this, buf
      ensures Agrees(r, Far(s, st, end, chunk, n)) && (r == Fine ==> Is(Far(s, st, end, chunk, n).state, tail))
    {
      hide Match;
      if at.off32 == |s.off32| {
        return Error;
      }
      var off := s.off32[at.off32];
      at := at.(off32 := at.off32 + 1, recent := chunk - off - cur);
      if off > 0 || end - cur < n {
        return Error;
      }
      var hangs := CopyOne(cur - chunk, n, st.(at := at), tail);
      r := if hangs then Endless else Fine;
    }

    /** Command 0. */
    method LiteralCommand(ghost st: State, ghost tail: seq<Byte>) returns (r: Result)
      requires Is(st, tail)
      modifies this, buf
      ensures Agrees(r, LongLiterals(s, st, end)) && (r == Fine ==> Is(LongLiterals(s, st, end).state, tail))
    {
      var n, ok := TakeLength(64);
      if !ok {
        return Error;
      }
      if end - cur < n || |s.lit| - at.lit < n {
        return Error;
      }
      CopyLiterals(n, st.(at := at), tail);
      r := Fine;
    }

    /** Command 1. */
    method NearCommand(ghost st: State, ghost tail: seq<Byte>) returns (r: Result)
      requires Is(st, tail)
      modifies this, buf
      ensures Agrees(r, LongNear(s, st, end)) && (r == Fine ==> Is(LongNear(s, st, end).state, tail))
    {
      hide Match, Offset16;
      var n, ok := TakeLength(91);
      if !ok {
        return Error;
      }
      if |s.off16| - at.off16 < 2 {
        return Error;
      }
      var dist := Offset16(s, at.off16);
      at := at.(recent := 0 - (dist as int), off16 := at.off16 + 2);
      if cur < dist || end - cur < n {
        return Error;
      }
      var hangs := CopyOne(dist, n, st.(at := at), tail);
      r := if hangs then Endless else Fine;
    }

    /** One command. */
    method Command(ghost st: State, ghost tail: seq<Byte>) returns (r: Result)
      requires Is(st, tail) && at.cmd < |s.cmd|
      modifies this, buf
      ensures Agrees(r, Step(s, st, end, chunk)) && (r == Fine ==> Is(Step(s, st, end, chunk).state, tail))
    {
      hide Short, Far, LongLiterals, LongNear;
      var c := s.cmd[at.cmd];
      at := at.(cmd := at.cmd + 1);
      ghost var next := st.(at := at);
      if c >= 24 {
        r := ShortCommand(c, next, tail);
      } else if c > 2 {
        r := FarCommand(c + 5, next, tail);
      } else if c == 0 {
        r := LiteralCommand(next, tail);
      } else if c == 1 {
        r := NearCommand(next, tail);
      } else {
        var n, ok := TakeLength(29);
        if !ok {
          return Error;
        }
        r := FarCommand(n, next.(at := at), tail);
      }
    }
  }

  /** The interpreter's return: 0, -1, or none because a match of distance 0 never ends. */
  datatype Result = Fine | Error | Endless

  predicate Agrees(r: Result, o: Outcome) {
    (r == Fine <==> o.Went?) && (r == Error <==> o == Failed)
  }

  /** `kk_runs` with plain literals on the half buf[start..end] of a buffer whose bytes before
      start are the history. It succeeds, fails or loops exactly as the specification, and
      unless some match was short, longer than its distance and no multiple of it, what it
      leaves in the buffer is the LZ77 expansion. */
  method KkRuns(s: Streams, buf: array<Byte>, start: nat, end: nat, chunk: nat, recent: int)
    returns (r: Result, at: Cursors)
    requires chunk <= start <= end <= buf.Length && recent <= 0
    modifies buf
    ensures Shape(s, start, end, chunk, recent, old(buf[..start]))
    ensures var o := Decode(s, State(Cursors(0, 0, 0, 0, 0, recent), old(buf[..start]), true), end, chunk);
            && Agrees(r, o)
            && (r == Fine ==> at == o.state.at && |o.state.out| == end && old(buf[..start]) <= o.state.out)
            && (r == Fine && o.state.exact ==> buf[..end] == o.state.out)
    ensures r == Fine ==> buf[end..] == old(buf[end..])
  {
    hide Step, Decode, Literals;
    ghost var tail := buf[end..];
    ghost var st := State(Cursors(0, 0, 0, 0, 0, recent), buf[..start], true);
    ghost var first := st;
    var runs := new Runs(s, buf, start, end, chunk, recent);
    at := runs.at;
    DecodeFills(s, first, end, chunk);
    while runs.at.cmd < |s.cmd|
      invariant runs.s == s && runs.buf == buf && runs.end == end && runs.chunk == chunk
      invariant runs.Is(st, tail)
      invariant Decode(s, st, end, chunk) == Decode(s, first, end, chunk)
      modifies runs, buf
      decreases |s.cmd| - runs.at.cmd
    {
      DecodeStep(s, st, end, chunk);
      StepKept(s, st, end, chunk);
      ghost var o := Step(s, st, end, chunk);
      r := runs.Command(st, tail);
      if r != Fine {
        return;
      }
      st := o.state;
    }
    DecodeTail(s, st, end, chunk);
    var n := end - runs.cur;
    if |s.lit| - runs.at.lit < n {
      return Error, at;
    }
    runs.CopyLiterals(n, st, tail);
    r, at := Fine, runs.at;
  }

  /** The specification is defined for these arguments. */
  predicate Shape(s: Streams, start: nat, end: nat, chunk: nat, recent: int, history: seq<Byte>) {
    InStreams(s, Cursors(0, 0, 0, 0, 0, recent)) && recent <= 0 && chunk <= |history| == start && start <= end
  }

  lemma DecodeStep(s: Streams, st: State, end: nat, chunk: nat)
    requires InStreams(s, st.at) && st.at.recent <= 0 && chunk <= |st.out| <= end && st.at.cmd < |s.cmd|
    ensures var o := Step(s, st, end, chunk);
            && Kept(s, st.(at := st.at.(cmd := st.at.cmd + 1)), end, o)
            && Decode(s, st, end, chunk) == if o.Went? then Decode(s, o.state, end, chunk) else o
  {
    hide Step;
    StepKept(s, st, end, chunk);
  }

  lemma DecodeTail(s: Streams, st: State, end: nat, chunk: nat)
    requires InStreams(s, st.at) && st.at.recent <= 0 && chunk <= |st.out| <= end && st.at.cmd == |s.cmd|
    ensures Decode(s, st, end, chunk) ==
            var n := end - |st.out|;
            if |s.lit| - st.at.lit < n then Failed
            else Went(st.(out := st.out + s.lit[st.at.lit..st.at.lit + n], at := st.at.(lit := st.at.lit + n)))
  {
  }

  lemma NoMatch(s: seq<Byte>, dist: nat)
    requires 1 <= dist <= |s|
    ensures Written(s, dist, 0) == s
  {
  }

  lemma TailSame(a: seq<Byte>, b: seq<Byte>, i: nat, j: nat)
    requires |a| == |b| && i <= j <= |a| && a[i..] == b[i..]
    ensures a[j..] == b[j..]
  {
    assert a[j..] == a[i..][j - i..];
    assert b[j..] == b[i..][j - i..];
  }
}
