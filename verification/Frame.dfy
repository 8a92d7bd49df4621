/** The frame codec of protocol/frame.c: a 40-byte little-endian header, a payload and
    a CRC over the first 32 header bytes and the payload. */
module Frame {
  import opened Mem
  import opened Bytes
  import Crc32

  const MAGIC: nat := 0x50494150
  const HEADER_SIZE: nat := 40
  const CRC_BYTES: nat := 32
  const MAX_PAYLOAD: nat := 0x10_0000
  const VERSION: nat := 1

  const FLAG_REPLY: nat := 1

  /** What the wire carries. `flags` is a 32-bit field of which the wire has 16 bits. */
  datatype Frame = Frame(version: nat, flags: U32, msgType: U32, requestId: U64, sessionId: U64, payload: seq<bv8>)

  /** A parsed header, before its payload has arrived. */
  datatype Header = Header(version: nat, flags: U32, msgType: U32, payloadLen: nat, requestId: U64, sessionId: U64)

  datatype Result<T> = Value(value: T) | Fail(error: Status)

  /** `flags & PAI_PROTO_FLAG_COMPRESSED`. */
  predicate Compressed(flags: nat) {
    flags / 8 % 2 == 1
  }

  /* ---- the wire image ---- */

  /** What `pai_proto_frame_encode` and the send path accept. */
  predicate Sendable(f: Frame) {
    |f.payload| <= MAX_PAYLOAD && !Compressed(f.flags)
  }

  /** The bytes the CRC covers. */
  function Lead(f: Frame): (b: seq<bv8>)
    ensures |b| == CRC_BYTES
  {
    ToLe(MAGIC, 4) + [ByteOf(0), ByteOf(1)] + ToLe(f.flags % 0x1_0000, 2) + ToLe(f.msgType, 4) + ToLe(|f.payload|, 4)
    + ToLe(f.requestId, 8) + ToLe(f.sessionId, 8)
  }

  function Encoded(f: Frame): (b: seq<bv8>)
    ensures |b| == HEADER_SIZE + |f.payload|
  {
    Lead(f) + ToLe(Val32(Crc32.Crc(Lead(f) + f.payload)), 4) + ToLe(0, 4) + f.payload
  }

  /** `pai_proto_frame_decode` on exactly one header. */
  function Decode(h: seq<bv8>): Result<Header>
    requires |h| == HEADER_SIZE
  {
    if Le(h[0..4]) != MAGIC then Fail(Protocol)
    else if Le(h[36..40]) != 0 then Fail(Protocol)
    else if Compressed(Le(h[6..8])) then Fail(Protocol)
    else if Le(h[12..16]) > MAX_PAYLOAD then Fail(Protocol)
    else
      Fits(h);
      Value(Header(Val(h[4]) * 256 + Val(h[5]), Le(h[6..8]), Le(h[8..12]), Le(h[12..16]), Le(h[16..24]), Le(h[24..32])))
  }

  lemma Fits(h: seq<bv8>)
    requires |h| == HEADER_SIZE
    ensures Le(h[6..8]) < 0x1_0000 && Le(h[8..12]) < 0x1_0000_0000
    ensures Le(h[16..24]) < U64_SIZE && Le(h[24..32]) < U64_SIZE
  {
    Widths();
    LeBound(h[6..8]);
    LeBound(h[8..12]);
    LeBound(h[16..24]);
    LeBound(h[24..32]);
  }

  /** The frame a receiver sees. */
  function Received(f: Frame): Frame {
    f.(version := VERSION, flags := f.flags % 0x1_0000)
  }

  /** Frames as their receiver sees them. */
  function Wire(fs: seq<Frame>): (r: seq<Frame>)
    ensures |r| == |fs|
  {
    if fs == [] then [] else [Received(fs[0])] + Wire(fs[1..])
  }

  lemma {:induction false} WireAppend(a: seq<Frame>, b: seq<Frame>)
    ensures Wire(a + b) == Wire(a) + Wire(b)
    decreases |a|
  {
    hide Received;
    if a == [] {
      assert a + b == b;
    } else {
      assert (a + b)[1..] == a[1..] + b;
      WireAppend(a[1..], b);
    }
  }

  lemma NothingSent()
    ensures Wire([]) == []
  {
  }

  function Join(h: Header, payload: seq<bv8>): Frame {
    Frame(h.version, h.flags, h.msgType, h.requestId, h.sessionId, payload)
  }

  /** The stored checksum is that of header and payload. */
  predicate CrcMatches(h: seq<bv8>, payload: seq<bv8>)
    requires |h| == HEADER_SIZE
  {
    Le(h[32..36]) == Val32(Crc32.Crc(h[..CRC_BYTES] + payload))
  }

  /** What `pai_proto_frame_validate` accepts. */
  predicate Intact(h: seq<bv8>, payload: seq<bv8>)
    requires |h| == HEADER_SIZE
  {
    Decode(h).Value? && |payload| == Decode(h).value.payloadLen && CrcMatches(h, payload)
  }

  /** The fields of an encoded header, where the decoder looks for them. */
  lemma EncodedFields(f: Frame)
    ensures var h := Encoded(f)[..HEADER_SIZE];
            && h[0..4] == ToLe(MAGIC, 4) && h[4] == ByteOf(0) && h[5] == ByteOf(1)
            && h[6..8] == ToLe(f.flags % 0x1_0000, 2) && h[8..12] == ToLe(f.msgType, 4)
            && h[12..16] == ToLe(|f.payload|, 4) && h[16..24] == ToLe(f.requestId, 8)
            && h[24..32] == ToLe(f.sessionId, 8)
            && h[32..36] == ToLe(Val32(Crc32.Crc(Lead(f) + f.payload)), 4)
            && h[36..40] == ToLe(0, 4) && h[..CRC_BYTES] == Lead(f)
            && Encoded(f)[HEADER_SIZE..] == f.payload
  {
    hide ToLe;
    hide Crc32.Crc;
  }

  /** Encode, then decode and validate: every field comes back, the flags modulo 2^16. */
  lemma RoundTrip(f: Frame)
    requires Sendable(f)
    ensures var h := Encoded(f)[..HEADER_SIZE];
            && Intact(h, f.payload) && Join(Decode(h).value, f.payload) == Received(f)
            && Decode(h).value.payloadLen == |f.payload|
  {
    hide ToLe, Le, Pow256, Encoded, Lead;
    hide Crc32.Crc;
    EncodedFields(f);
    Widths();
    var crc := Val32(Crc32.Crc(Lead(f) + f.payload));
    LeToLe(MAGIC, 4);
    LeToLe(f.flags % 0x1_0000, 2);
    LeToLe(f.msgType, 4);
    LeToLe(|f.payload|, 4);
    LeToLe(f.requestId, 8);
    LeToLe(f.sessionId, 8);
    LeToLe(crc, 4);
    LeToLe(0, 4);
    CompressedLow(f.flags);
  }

  /** The compression bit is among the 16 flag bits on the wire. */
  lemma CompressedLow(flags: nat)
    ensures Compressed(flags % 0x1_0000) == Compressed(flags)
  {
    var q, r := flags / 0x1_0000, flags % 0x1_0000;
    DivModUnique(flags, 8, q * 0x2000 + r / 8, r % 8);
    var h := r / 8;
    DivModUnique(q * 0x2000 + h, 2, q * 0x1000 + h / 2, h % 2);
  }

  /* ---- corruption ---- */

  /** A window of at most four bytes inside one region of the frame: the header before
      the length field, the rest of the hashed header, the checksum, the reserved
      field, or the payload. */
  predicate Window(p: nat, k: nat, n: nat) {
    && k <= 4
    && (p + k <= 12 || (16 <= p && p + k <= 32) || (32 <= p && p + k <= 36) || (36 <= p && p + k <= 40)
        || (40 <= p && p + k <= n))
  }

  /** The bytes the CRC covers, taken from a whole frame. */
  function Hashed(w: seq<bv8>): seq<bv8>
    requires |w| >= HEADER_SIZE
  {
    w[..CRC_BYTES] + w[HEADER_SIZE..]
  }

  /** Bytes outside the window agree. */
  lemma Outside(w: seq<bv8>, v: seq<bv8>, p: nat, k: nat, lo: nat, hi: nat)
    requires |w| == |v| && p + k <= |w| && w[..p] == v[..p] && w[p + k..] == v[p + k..]
    requires lo <= hi <= |w| && (hi <= p || p + k <= lo)
    ensures w[lo..hi] == v[lo..hi]
  {
    forall i | lo <= i < hi
      ensures w[i] == v[i]
    {
      if hi <= p {
        assert w[i] == w[..p][i] && v[i] == v[..p][i];
      } else {
        assert w[i] == w[p + k..][i - p - k] && v[i] == v[p + k..][i - p - k];
      }
    }
  }

  lemma WindowDiffers(w: seq<bv8>, v: seq<bv8>, p: nat, k: nat)
    requires |w| == |v| && p + k <= |w| && w != v && w[..p] == v[..p] && w[p + k..] == v[p + k..]
    ensures w[p..p + k] != v[p..p + k]
  {
    assert w == w[..p] + w[p..p + k] + w[p + k..];
    assert v == v[..p] + v[p..p + k] + v[p + k..];
  }

  lemma Pieces(w: seq<bv8>, p: nat, k: nat)
    requires p + k <= 32 && |w| >= HEADER_SIZE
    ensures Hashed(w) == w[..p] + w[p..p + k] + (w[p + k..32] + w[40..|w|])
  {
  }

  lemma PiecesBehind(w: seq<bv8>, p: nat, k: nat)
    requires 40 <= p && p + k <= |w|
    ensures Hashed(w) == (w[0..32] + w[40..p]) + w[p..p + k] + w[p + k..|w|]
  {
  }

  /** Intact in terms of the whole frame. */
  lemma IntactWhole(w: seq<bv8>)
    requires |w| >= HEADER_SIZE && Intact(w[..HEADER_SIZE], w[HEADER_SIZE..])
    ensures Le(w[32..36]) == Val32(Crc32.Crc(Hashed(w))) && Le(w[36..40]) == 0
  {
    hide Le;
    hide Crc32.Crc;
    var h := w[..HEADER_SIZE];
    assert h[32..36] == w[32..36] && h[36..40] == w[36..40] && h[..CRC_BYTES] == w[..CRC_BYTES];
  }

  lemma HashDiffers(w: seq<bv8>, v: seq<bv8>, before: seq<bv8>, was: seq<bv8>, now: seq<bv8>, behind: seq<bv8>)
    requires |w| == |v| >= HEADER_SIZE && Intact(w[..HEADER_SIZE], w[HEADER_SIZE..]) && w[32..36] == v[32..36]
    requires |was| == |now| <= 4 && was != now
    requires Hashed(w) == before + was + behind && Hashed(v) == before + now + behind
    ensures !Intact(v[..HEADER_SIZE], v[HEADER_SIZE..])
  {
    hide Le, Intact;
    hide Crc32.Crc;
    IntactWhole(w);
    Crc32.CorruptionDetected(before, was, now, behind);
    if Intact(v[..HEADER_SIZE], v[HEADER_SIZE..]) {
      IntactWhole(v);
      Val32Injective(Crc32.Crc(Hashed(w)), Crc32.Crc(Hashed(v)));
    }
  }

  /** Corruption confined to such a window is always rejected. */
  lemma CorruptionRejected(w: seq<bv8>, v: seq<bv8>, p: nat, k: nat)
    requires |w| == |v| >= HEADER_SIZE && Intact(w[..HEADER_SIZE], w[HEADER_SIZE..])
    requires p + k <= |w| && Window(p, k, |w|) && w != v
    requires w[..p] == v[..p] && w[p + k..] == v[p + k..]
    ensures !Intact(v[..HEADER_SIZE], v[HEADER_SIZE..])
  {
    hide Le, Intact, Hashed;
    hide Crc32.Crc;
    WindowDiffers(w, v, p, k);
    if p + k <= 32 {
      Outside(w, v, p, k, 32, 36);
      Outside(w, v, p, k, p + k, 32);
      Outside(w, v, p, k, 40, |w|);
      Pieces(w, p, k);
      Pieces(v, p, k);
      HashDiffers(w, v, w[..p], w[p..p + k], v[p..p + k], w[p + k..32] + w[40..|w|]);
    } else if p >= 40 {
      Outside(w, v, p, k, 32, 36);
      Outside(w, v, p, k, 0, 32);
      Outside(w, v, p, k, 40, p);
      PiecesBehind(w, p, k);
      PiecesBehind(v, p, k);
      HashDiffers(w, v, w[0..32] + w[40..p], w[p..p + k], v[p..p + k], w[p + k..|w|]);
    } else {
      FieldDiffers(w, v, p, k);
    }
  }

  /** Corruption of the stored checksum or of the reserved field. */
  lemma FieldDiffers(w: seq<bv8>, v: seq<bv8>, p: nat, k: nat)
    requires |w| == |v| >= HEADER_SIZE && Intact(w[..HEADER_SIZE], w[HEADER_SIZE..])
    requires (32 <= p && p + k <= 36) || (36 <= p && p + k <= 40)
    requires w[..p] == v[..p] && w[p + k..] == v[p + k..] && w[p..p + k] != v[p..p + k]
    ensures !Intact(v[..HEADER_SIZE], v[HEADER_SIZE..])
  {
    hide Le, Intact, Hashed;
    hide Crc32.Crc;
    IntactWhole(w);
    if Intact(v[..HEADER_SIZE], v[HEADER_SIZE..]) {
      IntactWhole(v);
      var lo := if p + k <= 36 then 32 else 36;
      FieldWindow(w, p, k, lo);
      FieldWindow(v, p, k, lo);
      Outside(w, v, p, k, 0, 32);
      Outside(w, v, p, k, 40, |w|);
      HashedParts(w);
      HashedParts(v);
      LeInjective(w[lo..lo + 4], v[lo..lo + 4]);
    }
  }

  lemma FieldWindow(w: seq<bv8>, p: nat, k: nat, lo: nat)
    requires lo <= p && p + k <= lo + 4 <= |w|
    ensures w[lo..lo + 4][p - lo..p - lo + k] == w[p..p + k]
  {
    var s := w[lo..lo + 4][p - lo..p - lo + k];
    forall i | 0 <= i < k
      ensures s[i] == w[p..p + k][i]
    {
      assert s[i] == w[lo..lo + 4][p - lo + i];
    }
  }

  lemma HashedParts(w: seq<bv8>)
    requires |w| >= HEADER_SIZE
    ensures Hashed(w) == w[0..32] + w[40..|w|]
  {
  }

  /* ---- the code ---- */

  /** `put_le16`, `put_le32`, `put_le64`: n bytes at position p. */
  method PutLe(out: array<bv8>, p: nat, v: nat, n: nat)
    requires p + n <= out.Length
    modifies out
    ensures out[..p] == old(out[..p]) && out[p..p + n] == ToLe(v, n) && out[p + n..] == old(out[p + n..])
  {
    hide ByteOf, ToLe;
    var i, x: nat := 0, v;
    ghost var done: seq<bv8> := [];
    while i < n
      invariant 0 <= i <= n && |done| == i
      invariant out[..p] == old(out[..p]) && out[p + n..] == old(out[p + n..])
      invariant out[p..p + i] == done && ToLe(v, n) == done + ToLe(x, n - i)
    {
      ToLeStep(x, n - i);
      AppendStep(done, ByteOf(x % 256), ToLe(x / 256, n - i - 1));
      done := done + [ByteOf(x % 256)];
      out[p + i] := ByteOf(x % 256);
      x := x / 256;
      i := i + 1;
    }
    ToLeNone(x);
  }

  lemma ToLeStep(x: nat, n: nat)
    requires n > 0
    ensures ToLe(x, n) == [ByteOf(x % 256)] + ToLe(x / 256, n - 1)
  {
  }

  lemma ToLeNone(x: nat)
    ensures ToLe(x, 0) == []
  {
  }

  lemma AppendStep(a: seq<bv8>, x: bv8, b: seq<bv8>)
    ensures a + ([x] + b) == (a + [x]) + b
  {
  }

  /** The next field behind what is written so far. */
  method PutField(out: array<bv8>, p: nat, v: nat, n: nat, ghost prefix: seq<bv8>, ghost blank: seq<bv8>)
    requires p + n <= out.Length == |blank| && out[..p] == prefix && out[p..] == blank[p..]
    modifies out
    ensures out[..p + n] == prefix + ToLe(v, n) && out[p + n..] == blank[p + n..]
  {
    hide ToLe;
    PutLe(out, p, v, n);
    assert out[..p + n] == out[..p] + out[p..p + n];
    assert blank[p + n..] == blank[p..][n..];
  }

  /** `memset` of the header. */
  method ClearHeader(out: array<bv8>)
    requires out.Length >= HEADER_SIZE
    modifies out
    ensures out[36..40] == ToLe(0, 4) && out[HEADER_SIZE..] == old(out[HEADER_SIZE..])
  {
    forall i | 0 <= i < HEADER_SIZE {
      out[i] := ByteOf(0);
    }
    assert ToLe(0, 1) == [ByteOf(0)];
    assert ToLe(0, 2) == [ByteOf(0)] + ToLe(0, 1);
    assert ToLe(0, 4) == [ByteOf(0), ByteOf(0)] + ToLe(0, 2);
  }

  method PutPayload(out: array<bv8>, payload: seq<bv8>)
    requires HEADER_SIZE + |payload| <= out.Length
    modifies out
    ensures out[..HEADER_SIZE] == old(out[..HEADER_SIZE])
    ensures out[HEADER_SIZE..HEADER_SIZE + |payload|] == payload
    ensures out[HEADER_SIZE + |payload|..] == old(out[HEADER_SIZE + |payload|..])
  {
    forall i | 0 <= i < |payload| {
      out[HEADER_SIZE + i] := payload[i];
    }
  }

  /** The hashed part of the header. */
  method PutLead(frame: Frame, out: array<bv8>)
    requires out.Length >= HEADER_SIZE && |frame.payload| <= MAX_PAYLOAD
    modifies out
    ensures out[..CRC_BYTES] == Lead(frame) && out[36..40] == ToLe(0, 4)
    ensures out[HEADER_SIZE..] == old(out[HEADER_SIZE..])
  {
    hide ToLe;
    ClearHeader(out);
    ghost var z := out[..];
    assert out[..0] == [];
    PutField(out, 0, MAGIC, 4, [], z);
    ghost var magic := out[..4];
    out[4], out[5] := ByteOf(0), ByteOf(1);
    assert out[..6] == magic + [ByteOf(0), ByteOf(1)] && out[6..] == z[6..];
    ghost var flags := out[..6];
    PutField(out, 6, frame.flags % 0x1_0000, 2, flags, z);
    ghost var kind := out[..8];
    PutField(out, 8, frame.msgType, 4, kind, z);
    ghost var len := out[..12];
    PutField(out, 12, |frame.payload|, 4, len, z);
    ghost var request := out[..16];
    PutField(out, 16, frame.requestId, 8, request, z);
    ghost var session := out[..24];
    PutField(out, 24, frame.sessionId, 8, session, z);
    assert out[36..40] == out[32..][4..8] == z[32..][4..8] == z[36..40];
    assert out[HEADER_SIZE..] == out[32..][8..] == z[32..][8..] == z[HEADER_SIZE..];
  }

  lemma Assemble(b: seq<bv8>, f: Frame, n: nat)
    requires n == HEADER_SIZE + |f.payload| <= |b|
    requires b[..CRC_BYTES] == Lead(f) && b[32..36] == ToLe(Val32(Crc32.Crc(Lead(f) + f.payload)), 4)
    requires b[36..40] == ToLe(0, 4) && b[HEADER_SIZE..n] == f.payload
    ensures b[..n] == Encoded(f)
  {
    hide ToLe, Lead;
    hide Crc32.Crc;
    assert b[..n] == b[..32] + b[32..36] + b[36..40] + b[40..n];
  }

  /** `pai_proto_frame_encode`: on success the first bytes of `out` are the wire image,
      otherwise nothing is written. */
  method Encode(frame: Frame, table: Crc32.Table, out: array<bv8>, cap: nat) returns (st: Status, n: nat)
    requires table.Valid() && cap <= out.Length
    modifies out, table, table.entries
    ensures table.Valid()
    ensures st == Ok <==> Sendable(frame) && HEADER_SIZE + |frame.payload| <= cap
    ensures st == Ok ==> n == HEADER_SIZE + |frame.payload| && out[..n] == Encoded(frame) && out[n..] == old(out[n..])
    ensures st != Ok ==> st == InvalidArg && out[..] == old(out[..])
  {
    hide ToLe, Lead, Encoded;
    hide Crc32.Crc, Crc32.CrcBits, Crc32.Bits, Crc32.IsTable;
    n := 0;
    if |frame.payload| > MAX_PAYLOAD {
      return InvalidArg, n;
    }
    if Compressed(frame.flags) {
      return InvalidArg, n;
    }
    var total := HEADER_SIZE + |frame.payload|;
    if cap < total {
      return InvalidArg, n;
    }
    ghost var o0 := out[..];
    PutLead(frame, out);
    ghost var o1 := out[..];
    DropMore(o0, o1, HEADER_SIZE, total);
    PutPayload(out, frame.payload);
    ghost var o2 := out[..];
    HeaderKept(o1, o2);
    var crc := Checksum(table, out[..CRC_BYTES], out[HEADER_SIZE..total]);
    PutLe(out, 32, Val32(crc), 4);
    TailKept(o2, out[..], total);
    Assemble(out[..], frame, total);
    st, n := Ok, total;
  }

  lemma DropMore(a: seq<bv8>, b: seq<bv8>, i: nat, j: nat)
    requires |a| == |b| && i <= j <= |a| && a[i..] == b[i..]
    ensures a[j..] == b[j..]
  {
    assert a[j..] == a[i..][j - i..];
    assert b[j..] == b[i..][j - i..];
  }

  lemma HeaderKept(a: seq<bv8>, b: seq<bv8>)
    requires |a| == |b| >= HEADER_SIZE && a[..HEADER_SIZE] == b[..HEADER_SIZE]
    ensures a[..CRC_BYTES] == b[..CRC_BYTES] && a[36..40] == b[36..40]
  {
    assert a[36..40] == a[..HEADER_SIZE][36..40];
    assert b[36..40] == b[..HEADER_SIZE][36..40];
    assert a[..CRC_BYTES] == a[..HEADER_SIZE][..CRC_BYTES];
    assert b[..CRC_BYTES] == b[..HEADER_SIZE][..CRC_BYTES];
  }

  lemma TailKept(a: seq<bv8>, b: seq<bv8>, n: nat)
    requires |a| == |b| && HEADER_SIZE <= n <= |a| && a[36..] == b[36..]
    ensures a[36..40] == b[36..40] && a[40..n] == b[40..n] && a[n..] == b[n..]
  {
    assert a[36..40] == a[36..][..4] && b[36..40] == b[36..][..4];
    assert a[40..n] == a[36..][4..n - 36] && b[40..n] == b[36..][4..n - 36];
    assert a[n..] == a[36..][n - 36..] && b[n..] == b[36..][n - 36..];
  }

  /** The running CRC over header, then payload. */
  method Checksum(table: Crc32.Table, lead: seq<bv8>, payload: seq<bv8>) returns (crc: bv32)
    requires table.Valid()
    modifies table, table.entries
    ensures table.Valid() && crc == Crc32.Crc(lead + payload)
  {
    hide Crc32.CrcBits, Crc32.Bits;
    crc := table.Upd(Crc32.INIT, lead);
    crc := table.Upd(crc, payload);
    Crc32.BitsAppend(lead, payload);
    Crc32.CrcBitsAppend(Crc32.INIT, Crc32.Bits(lead), Crc32.Bits(payload));
    crc := Crc32.Finish(crc);
  }

  /** `pai_proto_frame_validate`; `payload` is null or at least as long as the header says. */
  method Validate(table: Crc32.Table, header: seq<bv8>, payload: seq<bv8>) returns (st: Status)
    requires table.Valid() && |header| == HEADER_SIZE
    requires Decode(header).Value? ==> payload == [] || |payload| == Decode(header).value.payloadLen
    modifies table, table.entries
    ensures table.Valid()
    ensures st == Ok <==> Intact(header, payload)
    ensures st == InvalidArg <==> Decode(header).Value? && Decode(header).value.payloadLen > 0 && payload == []
    ensures st == Ok || st == InvalidArg || st == Protocol
  {
    hide Le;
    hide Crc32.Crc;
    match Decode(header)
    case Fail(_) =>
      return Protocol;
    case Value(h) =>
      if h.payloadLen > 0 && payload == [] {
        return InvalidArg;
      }
      var crc := Checksum(table, header[..CRC_BYTES], payload);
      if Le(header[32..36]) != Val32(crc) {
        return Protocol;
      }
      st := Ok;
  }
}
