/** Frames in a byte stream: how a receiver that sees the stream in arbitrary pieces
    recovers exactly the frames that were sent (protocol/connection.c, receive pump). */
module Reassembly {
  import opened Bytes
  import opened Frame

  /** The bytes of a list of frames. */
  function Stream(fs: seq<Frame>): seq<bv8> {
    if fs == [] then [] else Encoded(fs[0]) + Stream(fs[1..])
  }

  predicate AllSendable(fs: seq<Frame>) {
    forall f :: f in fs ==> Sendable(f)
  }

  lemma {:induction false} StreamAppend(a: seq<Frame>, f: Frame)
    ensures Stream(a + [f]) == Stream(a) + Encoded(f)
  {
    hide Encoded;
    if a == [] {
      assert [f][1..] == [];
      assert a + [f] == [f];
    } else {
      assert (a + [f])[1..] == a[1..] + [f];
      StreamAppend(a[1..], f);
    }
  }

  /** Length of the frame whose header starts s. */
  function SizeOf(s: seq<bv8>): nat
    requires |s| >= HEADER_SIZE && Decode(s[..HEADER_SIZE]).Value?
  {
    HEADER_SIZE + Decode(s[..HEADER_SIZE]).value.payloadLen
  }

  /** s starts with one whole, intact frame. */
  predicate Complete(s: seq<bv8>) {
    && |s| >= HEADER_SIZE && Decode(s[..HEADER_SIZE]).Value? && |s| >= SizeOf(s)
    && Intact(s[..HEADER_SIZE], s[HEADER_SIZE..SizeOf(s)])
  }

  function First(s: seq<bv8>): Frame
    requires Complete(s)
  {
    Join(Decode(s[..HEADER_SIZE]).value, s[HEADER_SIZE..SizeOf(s)])
  }

  /** The beginning of a frame, more of which is to come. */
  predicate Partial(s: seq<bv8>) {
    |s| < HEADER_SIZE || (Decode(s[..HEADER_SIZE]).Value? && |s| < SizeOf(s))
  }

  /** s starts with something that no frame can be. */
  predicate Bad(s: seq<bv8>) {
    !Partial(s) && !Complete(s)
  }

  /** s consists of the frames in log and then rest. */
  predicate Parses(s: seq<bv8>, log: seq<Frame>, rest: seq<bv8>)
    decreases |log|
  {
    if log == [] then s == rest
    else Complete(s) && log[0] == First(s) && Parses(s[SizeOf(s)..], log[1..], rest)
  }

  lemma Prefixes(s: seq<bv8>, c: seq<bv8>)
    requires Complete(s)
    ensures Complete(s + c) && SizeOf(s + c) == SizeOf(s) && First(s + c) == First(s)
    ensures (s + c)[SizeOf(s)..] == s[SizeOf(s)..] + c
  {
    hide Decode, Intact;
    assert (s + c)[..HEADER_SIZE] == s[..HEADER_SIZE];
    assert (s + c)[HEADER_SIZE..SizeOf(s)] == s[HEADER_SIZE..SizeOf(s)];
  }

  /** More bytes arrive. */
  lemma {:induction false} ParsesMore(s: seq<bv8>, log: seq<Frame>, rest: seq<bv8>, c: seq<bv8>)
    requires Parses(s, log, rest)
    ensures Parses(s + c, log, rest + c)
    decreases |log|
  {
    hide Complete, First, SizeOf;
    if log != [] {
      Wholly(s);
      Prefixes(s, c);
      ParsesMore(s[SizeOf(s)..], log[1..], rest, c);
    }
  }

  /** The rest has become one whole frame. */
  lemma {:induction false} ParsesNext(s: seq<bv8>, log: seq<Frame>, rest: seq<bv8>)
    requires Parses(s, log, rest) && Complete(rest) && SizeOf(rest) == |rest|
    ensures Parses(s, log + [First(rest)], [])
    decreases |log|
  {
    hide Complete, First, SizeOf;
    var f := First(rest);
    if log == [] {
      assert ([f] + [])[1..] == [];
      assert log + [f] == [f];
      assert rest[|rest|..] == [];
    } else {
      Wholly(s);
      ParsesNext(s[SizeOf(s)..], log[1..], rest);
      assert (log + [f])[1..] == log[1..] + [f];
    }
  }

  /* ---- against the frames that were sent ---- */

  /** The stream of a nonempty list starts with its first frame. */
  lemma Head(fs: seq<Frame>, s: seq<bv8>)
    requires fs != [] && Sendable(fs[0]) && s <= Stream(fs) && |s| >= HEADER_SIZE
    ensures Decode(s[..HEADER_SIZE]).Value? && SizeOf(s) == |Encoded(fs[0])|
    ensures |s| >= SizeOf(s) ==> && Complete(s) && First(s) == Received(fs[0])
                                 && s[SizeOf(s)..] <= Stream(fs[1..])
  {
    hide Encoded, Decode, CrcMatches, Received;
    var e := Encoded(fs[0]);
    var whole := Stream(fs);
    assert whole == e + Stream(fs[1..]);
    assert s == whole[..|s|];
    assert s[..HEADER_SIZE] == e[..HEADER_SIZE];
    RoundTrip(fs[0]);
    PayloadAt(fs[0]);
    if |s| >= |e| {
      assert s[HEADER_SIZE..|e|] == e[HEADER_SIZE..];
      assert s[|e|..] == Stream(fs[1..])[..|s| - |e|];
    }
  }

  lemma PayloadAt(f: Frame)
    ensures |Encoded(f)| == HEADER_SIZE + |f.payload| && Encoded(f)[HEADER_SIZE..] == f.payload
  {
    EncodedFields(f);
  }

  /** What has been recovered from any part of the stream is a prefix of what was sent,
      field by field, and nothing in the stream looks malformed. */
  lemma {:induction false} PrefixOfSent(s: seq<bv8>, log: seq<Frame>, rest: seq<bv8>, fs: seq<Frame>)
    requires AllSendable(fs) && Parses(s, log, rest) && s <= Stream(fs)
    ensures |log| <= |fs| && log == Wire(fs)[..|log|]
    ensures rest <= Stream(fs[|log|..]) && !Bad(rest)
    decreases |log|
  {
    hide Encoded, Complete, First, SizeOf, Received;
    if log == [] {
      assert fs[0..] == fs;
      NotBad(rest, fs);
    } else {
      Wholly(s);
      assert fs != [];
      Head(fs, s);
      PrefixOfSent(s[SizeOf(s)..], log[1..], rest, fs[1..]);
      assert fs[1..][|log| - 1..] == fs[|log|..];
      assert Wire(fs)[..|log|] == [Received(fs[0])] + Wire(fs[1..])[..|log| - 1];
    }
  }

  lemma Wholly(s: seq<bv8>)
    requires Complete(s)
    ensures |s| >= HEADER_SIZE && Decode(s[..HEADER_SIZE]).Value? && |s| >= SizeOf(s)
  {
  }

  lemma NotBad(rest: seq<bv8>, fs: seq<Frame>)
    requires AllSendable(fs) && rest <= Stream(fs)
    ensures !Bad(rest)
  {
    hide Encoded, Decode, Intact;
    if |rest| >= HEADER_SIZE {
      assert fs != [];
      Head(fs, rest);
    }
  }

  /** Once the whole stream has been read and no whole frame is pending, every frame that
      was sent has been recovered, and no byte is left over. */
  lemma AllArrived(s: seq<bv8>, log: seq<Frame>, rest: seq<bv8>, fs: seq<Frame>)
    requires AllSendable(fs) && Parses(s, log, rest) && s == Stream(fs) && Partial(rest)
    ensures log == Wire(fs) && rest == []
  {
    hide Encoded, Complete, First, Received, Decode;
    PrefixOfSent(s, log, rest, fs);
    var left := fs[|log|..];
    Remainder(s, log, rest, fs);
    if left != [] {
      assert Stream(left) == Encoded(left[0]) + Stream(left[1..]);
      assert left[0] in fs;
      Head(left, rest);
    }
    assert |log| == |fs|;
  }

  /** The unread part of the stream belongs to the frames not yet recovered. */
  lemma {:induction false} Remainder(s: seq<bv8>, log: seq<Frame>, rest: seq<bv8>, fs: seq<Frame>)
    requires AllSendable(fs) && Parses(s, log, rest) && s == Stream(fs)
    ensures |log| <= |fs| && rest == Stream(fs[|log|..])
    decreases |log|
  {
    hide Encoded, Complete, First, SizeOf, Received;
    if log == [] {
      assert fs[0..] == fs;
    } else {
      Wholly(s);
      assert fs != [];
      Head(fs, s);
      assert s == Encoded(fs[0]) + Stream(fs[1..]);
      assert s[SizeOf(s)..] == Stream(fs[1..]);
      Remainder(s[SizeOf(s)..], log[1..], rest, fs[1..]);
      assert fs[1..][|log| - 1..] == fs[|log|..];
    }
  }
}
