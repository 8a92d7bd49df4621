/** The byte-level tokenizer of models/tokenizer.c as functions on its vocabulary: greedy
    longest match with byte fallback, ranked merges, and decoding. */
module Tokenizer {
  import opened Mem

  const U32_SIZE: nat := 0x1_0000_0000
  const MAX_TOKENS: nat := 65536
  const MAX_MERGES: nat := 8192
  const MAX_TOKEN_LEN: nat := 255
  const MAX_INPUT: nat := 65536

  datatype Token = Token(id: U32, text: seq<Byte>)
  datatype Merge = Merge(left: U32, right: U32, result: U32)
  datatype Vocab = Vocab(tokens: seq<Token>, merges: seq<Merge>, maxId: U32, base: U32)

  datatype Result<T> = Value(value: T) | Error(status: Status)

  function Wrap32(x: nat): U32 {
    x % U32_SIZE
  }

  /* ---- the vocabulary ---- */

  /** A C string of 1 to 255 bytes. */
  predicate TextOk(t: seq<Byte>) {
    1 <= |t| <= MAX_TOKEN_LEN && 0 !in t
  }

  /** First token with this id, from i on, or -1. */
  function FindFrom(ts: seq<Token>, id: U32, i: nat): (r: int)
    requires i <= |ts|
    ensures -1 <= r < |ts|
    ensures r >= 0 ==> i <= r && ts[r].id == id && forall j :: i <= j < r ==> ts[j].id != id
    ensures r < 0 ==> forall j :: i <= j < |ts| ==> ts[j].id != id
    decreases |ts| - i
  {
    if i == |ts| then -1 else if ts[i].id == id then i else FindFrom(ts, id, i + 1)
  }

  predicate Known(v: Vocab, id: U32) {
    FindFrom(v.tokens, id, 0) >= 0
  }

  function TextOf(v: Vocab, id: U32): seq<Byte>
    requires Known(v, id)
  {
    v.tokens[FindFrom(v.tokens, id, 0)].text
  }

  /** What add_token and add_merge keep. */
  ghost predicate VocabOk(v: Vocab) {
    && |v.tokens| <= MAX_TOKENS && |v.merges| <= MAX_MERGES
    && (forall i :: 0 <= i < |v.tokens| ==> TextOk(v.tokens[i].text) && v.tokens[i].id <= v.maxId)
    && (forall i, j :: 0 <= i < j < |v.tokens| ==> v.tokens[i].id != v.tokens[j].id)
    && (forall i :: 0 <= i < |v.merges| ==>
          Known(v, v.merges[i].left) && Known(v, v.merges[i].right) && v.merges[i].result <= v.maxId)
  }

  /** `pai_tok_finalize`: one above the highest id, but at least 256; in 32 bits. */
  predicate Finalized(v: Vocab) {
    v.base == if v.maxId >= 256 then Wrap32(v.maxId + 1) else 256
  }

  /** The merge result is a token that spells its left text followed by its right text. */
  predicate MergeSpelled(v: Vocab, m: Merge) {
    && Known(v, m.left) && Known(v, m.right) && Known(v, m.result)
    && TextOf(v, m.result) == TextOf(v, m.left) + TextOf(v, m.right)
  }

  /* ---- encoding ---- */

  predicate IsPrefix(t: seq<Byte>, text: seq<Byte>) {
    |t| <= |text| && text[..|t|] == t
  }

  /** `match_prefix`: the scan from token i on, with the best index so far, or -1. */
  function BestFrom(ts: seq<Token>, text: seq<Byte>, i: nat, best: int): (r: int)
    requires i <= |ts| && -1 <= best < i
    ensures -1 <= r < |ts|
    decreases |ts| - i
  {
    if i == |ts| then best
    else
      var len := if best < 0 then 0 else |ts[best].text|;
      BestFrom(ts, text, i + 1, if |ts[i].text| > len && IsPrefix(ts[i].text, text) then i else best)
  }

  function Best(ts: seq<Token>, text: seq<Byte>): (r: int)
    ensures -1 <= r < |ts|
  {
    BestFrom(ts, text, 0, -1)
  }

  /** The result of the scan is a prefix token of maximal length, the first such. */
  ghost predicate IsBest(ts: seq<Token>, text: seq<Byte>, i: nat, best: int)
    requires i <= |ts| && -1 <= best < i
  {
    && (best >= 0 ==> IsPrefix(ts[best].text, text) && |ts[best].text| > 0)
    && forall j :: 0 <= j < i && IsPrefix(ts[j].text, text) && |ts[j].text| > 0 ==>
         best >= 0 && |ts[j].text| <= |ts[best].text| && (|ts[j].text| == |ts[best].text| ==> best <= j)
  }

  lemma {:induction false} BestFromIsBest(ts: seq<Token>, text: seq<Byte>, i: nat, best: int)
    requires i <= |ts| && -1 <= best < i && IsBest(ts, text, i, best)
    ensures IsBest(ts, text, |ts|, BestFrom(ts, text, i, best))
    decreases |ts| - i
  {
    if i < |ts| {
      var len := if best < 0 then 0 else |ts[best].text|;
      BestFromIsBest(ts, text, i + 1, if |ts[i].text| > len && IsPrefix(ts[i].text, text) then i else best);
    }
  }

  /** The longest token that starts the text, and the first of those; -1 if there is none. */
  lemma BestIsBest(ts: seq<Token>, text: seq<Byte>)
    ensures IsBest(ts, text, |ts|, Best(ts, text))
  {
    BestFromIsBest(ts, text, 0, -1);
  }

  /** Greedy matching with byte fallback. */
  function Greedy(v: Vocab, text: seq<Byte>): (ids: seq<U32>)
    ensures |ids| <= |text|
    decreases |text|
  {
    if text == [] then []
    else
      BestIsBest(v.tokens, text);
      var b := Best(v.tokens, text);
      if b >= 0 then [v.tokens[b].id] + Greedy(v, text[|v.tokens[b].text|..])
      else [Wrap32(v.base + text[0])] + Greedy(v, text[1..])
  }

  /** The first step of greedy matching: how many bytes it takes and the id it yields. */
  function HeadLen(v: Vocab, text: seq<Byte>): (n: nat)
    requires text != []
    ensures 1 <= n <= |text|
  {
    BestIsBest(v.tokens, text);
    var b := Best(v.tokens, text);
    if b >= 0 then |v.tokens[b].text| else 1
  }

  function HeadId(v: Vocab, text: seq<Byte>): U32
    requires text != []
  {
    var b := Best(v.tokens, text);
    if b >= 0 then v.tokens[b].id else Wrap32(v.base + text[0])
  }

  lemma GreedyUnfold(v: Vocab, text: seq<Byte>)
    requires text != []
    ensures Greedy(v, text) == [HeadId(v, text)] + Greedy(v, text[HeadLen(v, text)..])
  {
    hide Best, Wrap32;
    BestIsBest(v.tokens, text);
  }

  lemma BestUnique(ts: seq<Token>, text: seq<Byte>, a: int, b: int)
    requires -1 <= a < |ts| && -1 <= b < |ts| && IsBest(ts, text, |ts|, a) && IsBest(ts, text, |ts|, b)
    ensures a == b
  {
  }

  /** A match does not depend on what follows it. */
  lemma BestLocal(ts: seq<Token>, text: seq<Byte>, n: nat)
    requires n <= |text| && (Best(ts, text) >= 0 ==> |ts[Best(ts, text)].text| <= n)
    ensures Best(ts, text[..n]) == Best(ts, text)
  {
    hide Best;
    var b, part := Best(ts, text), text[..n];
    BestIsBest(ts, text);
    BestIsBest(ts, part);
    forall j | 0 <= j < |ts| && IsPrefix(ts[j].text, part)
      ensures IsPrefix(ts[j].text, text)
    {
      assert part[..|ts[j].text|] == text[..|ts[j].text|];
    }
    assert b >= 0 ==> part[..|ts[b].text|] == text[..|ts[b].text|];
    BestUnique(ts, part, b, Best(ts, part));
  }

  lemma HeadLocal(v: Vocab, text: seq<Byte>, n: nat)
    requires text != [] && HeadLen(v, text) <= n <= |text|
    ensures text[..n] != [] && HeadLen(v, text[..n]) == HeadLen(v, text) && HeadId(v, text[..n]) == HeadId(v, text)
  {
    hide Best;
    BestLocal(v.tokens, text, n);
  }

  /** Two adjacent ids of a greedy output are the greedy output of their own text. */
  lemma PairLocal(v: Vocab, text: seq<Byte>)
    requires |Greedy(v, text)| >= 2
    ensures text != [] && var k := HeadLen(v, text);
            text[k..] != [] && var j := HeadLen(v, text[k..]);
            && Greedy(v, text)[0] == HeadId(v, text) && Greedy(v, text)[1] == HeadId(v, text[k..])
            && Greedy(v, text[..k] + text[k..][..j]) == [HeadId(v, text), HeadId(v, text[k..])]
  {
    hide Greedy, HeadLen, HeadId;
    GreedyNothing(v);
    GreedyUnfold(v, text);
    var k := HeadLen(v, text);
    var rest := text[k..];
    GreedyUnfold(v, rest);
    var j := HeadLen(v, rest);
    var both := text[..k] + rest[..j];
    assert both == text[..k + j];
    HeadLocal(v, text, k + j);
    GreedyUnfold(v, both);
    assert both[k..] == rest[..j];
    HeadLocal(v, rest, j);
    GreedyUnfold(v, rest[..j]);
    assert rest[..j][j..] == [];
  }

  lemma GreedyNothing(v: Vocab)
    ensures Greedy(v, []) == []
  {
  }

  /** First position of the pair (l, r) from i on, or -1. */
  function PairFrom(ids: seq<U32>, l: U32, r: U32, i: nat): (p: int)
    requires i <= |ids|
    ensures -1 <= p && (p >= 0 ==> i <= p && p + 1 < |ids| && ids[p] == l && ids[p + 1] == r)
    ensures p < 0 ==> forall j :: i <= j && j + 1 < |ids| ==> !(ids[j] == l && ids[j + 1] == r)
    decreases |ids| - i
  {
    if i + 1 >= |ids| then -1 else if ids[i] == l && ids[i + 1] == r then i else PairFrom(ids, l, r, i + 1)
  }

  function MergeAt(ids: seq<U32>, p: nat, result: U32): (r: seq<U32>)
    requires p + 1 < |ids|
    ensures |r| == |ids| - 1
  {
    ids[..p] + [result] + ids[p + 2..]
  }

  /** One rank: the leftmost pair is merged until none is left. The length falls each time. */
  function ApplyRank(ids: seq<U32>, m: Merge): (r: seq<U32>)
    ensures |r| <= |ids|
    decreases |ids|
  {
    var p := PairFrom(ids, m.left, m.right, 0);
    if p < 0 then ids else ApplyRank(MergeAt(ids, p, m.result), m)
  }

  function ApplyRanks(ids: seq<U32>, ms: seq<Merge>): (r: seq<U32>)
    ensures |r| <= |ids|
    decreases |ms|
  {
    if ms == [] then ids else ApplyRanks(ApplyRank(ids, ms[0]), ms[1..])
  }

  /** `pai_tok_encode`. */
  function Encoded(v: Vocab, text: seq<Byte>): (ids: seq<U32>)
    ensures |ids| <= |text|
  {
    ApplyRanks(Greedy(v, text), v.merges)
  }

  /** After the loop of a rank no pair of that rank remains. */
  lemma {:induction false} NoPairRemains(ids: seq<U32>, m: Merge)
    ensures forall j :: 0 <= j && j + 1 < |ApplyRank(ids, m)| ==>
              !(ApplyRank(ids, m)[j] == m.left && ApplyRank(ids, m)[j + 1] == m.right)
    decreases |ids|
  {
    var p := PairFrom(ids, m.left, m.right, 0);
    if p >= 0 {
      NoPairRemains(MergeAt(ids, p, m.result), m);
    }
  }

  /* ---- decoding ---- */

  /** The test `id >= base && id < base + 256` in 32 bits. */
  predicate IsFallback(v: Vocab, id: U32) {
    v.base <= id < Wrap32(v.base + 256)
  }

  /** What one id stands for. */
  function Meaning(v: Vocab, id: U32): Option<seq<Byte>> {
    if IsFallback(v, id) && id - v.base < 256 then Some([id - v.base])
    else if Known(v, id) then Some(TextOf(v, id))
    else None
  }

  /** `pai_tok_decode` into a buffer of cap bytes, `out` of which are written. */
  function Decoded(v: Vocab, ids: seq<U32>, out: seq<Byte>, cap: nat): Result<seq<Byte>>
    decreases |ids|
  {
    if ids == [] then Value(out)
    else match Meaning(v, ids[0])
      case None => Error(Mismatch)
      case Some(t) => if |out| + |t| >= cap then Error(NoMem) else Decoded(v, ids[1..], out + t, cap)
  }

  /** The ids spell the text. */
  predicate Spells(v: Vocab, ids: seq<U32>, text: seq<Byte>)
    decreases |ids|
  {
    if ids == [] then text == []
    else match Meaning(v, ids[0])
      case None => false
      case Some(t) => IsPrefix(t, text) && Spells(v, ids[1..], text[|t|..])
  }

  lemma {:induction false} SpellsDecoded(v: Vocab, ids: seq<U32>, text: seq<Byte>, out: seq<Byte>, cap: nat)
    requires Spells(v, ids, text) && |out| + |text| < cap
    ensures Decoded(v, ids, out, cap) == Value(out + text)
    decreases |ids|
  {
    hide Meaning;
    if ids == [] {
      assert out + text == out;
    } else {
      match Meaning(v, ids[0])
      case Some(t) =>
        SpellsDecoded(v, ids[1..], text[|t|..], out + t, cap);
        assert out + t + text[|t|..] == out + text;
    }
  }

  lemma {:induction false} SpellsAppend(v: Vocab, a: seq<U32>, s: seq<Byte>, b: seq<U32>, t: seq<Byte>)
    requires Spells(v, a, s) && Spells(v, b, t)
    ensures Spells(v, a + b, s + t)
    decreases |a|
  {
    hide Meaning;
    if a == [] {
      assert a + b == b && s + t == t;
    } else {
      var m := Meaning(v, a[0]).value;
      SpellsAppend(v, a[1..], s[|m|..], b, t);
      assert (a + b)[1..] == a[1..] + b;
      assert (s + t)[|m|..] == s[|m|..] + t;
      assert (s + t)[..|m|] == m;
    }
  }

  /** Cutting the ids cuts the text. */
  lemma {:induction false} SpellsSplit(v: Vocab, a: seq<U32>, b: seq<U32>, text: seq<Byte>) returns (k: nat)
    requires Spells(v, a + b, text)
    ensures k <= |text| && Spells(v, a, text[..k]) && Spells(v, b, text[k..])
    decreases |a|
  {
    hide Meaning;
    if a == [] {
      assert a + b == b;
      k := 0;
      assert text[0..] == text;
    } else {
      assert (a + b)[1..] == a[1..] + b;
      var m := Meaning(v, a[0]).value;
      var j := SpellsSplit(v, a[1..], b, text[|m|..]);
      k := |m| + j;
      assert text[..k][|m|..] == text[|m|..][..j];
      assert text[|m|..][j..] == text[k..];
      assert text[..k][..|m|] == text[..|m|];
    }
  }

  lemma SpellsOne(v: Vocab, id: U32, t: seq<Byte>)
    ensures Spells(v, [id], t) <==> Meaning(v, id) == Some(t)
  {
    hide Meaning;
    assert [id][1..] == [];
    assert t[|t|..] == [] && t[..|t|] == t;
    if Spells(v, [id], t) {
      var m := Meaning(v, id).value;
      assert Spells(v, [], t[|m|..]);
      assert t == m + t[|m|..];
    }
  }

  /* ---- decode after encode ---- */

  /** The fallback ids fit in 32 bits. */
  predicate FallbackFits(v: Vocab) {
    v.maxId + 257 < U32_SIZE
  }

  /** Ids are distinct, so looking one up finds its own token. */
  lemma FindDistinct(ts: seq<Token>, i: nat)
    requires i < |ts| && forall a, b :: 0 <= a < b < |ts| ==> ts[a].id != ts[b].id
    ensures FindFrom(ts, ts[i].id, 0) == i
  {
    forall k | 0 <= k < i
      ensures ts[k].id != ts[i].id
    {
    }
  }

  lemma TokenMeaning(v: Vocab, i: nat)
    requires VocabOk(v) && Finalized(v) && FallbackFits(v) && i < |v.tokens|
    ensures Meaning(v, v.tokens[i].id) == Some(v.tokens[i].text)
  {
    FindDistinct(v.tokens, i);
    assert Wrap32(v.maxId + 1) == v.maxId + 1;
  }

  lemma KnownMeaning(v: Vocab, id: U32)
    requires VocabOk(v) && Finalized(v) && FallbackFits(v) && Known(v, id)
    ensures Meaning(v, id) == Some(TextOf(v, id))
  {
    TokenMeaning(v, FindFrom(v.tokens, id, 0));
  }

  lemma FallbackMeaning(v: Vocab, b: Byte)
    requires Finalized(v) && FallbackFits(v)
    ensures Meaning(v, Wrap32(v.base + b)) == Some([b])
  {
    assert v.base + 256 < U32_SIZE;
    assert Wrap32(v.base + b) == v.base + b;
    assert Wrap32(v.base + 256) == v.base + 256;
  }

  /** The token that greedy matching uses for its text. */
  predicate IsFirst(ts: seq<Token>, i: nat)
    requires i < |ts|
  {
    forall j :: 0 <= j < i ==> ts[j].text != ts[i].text
  }

  /** With the highest id of all the fallback range wraps to 0..255. Tokens there are read as
      their byte, so they must be that byte, unless an earlier token with their text hides them. */
  predicate LowTokensAreBytes(v: Vocab) {
    forall i :: 0 <= i < |v.tokens| && v.tokens[i].id < 256 && IsFirst(v.tokens, i) ==>
      v.tokens[i].text == [v.tokens[i].id]
  }

  /** Every id of a greedy output is read back as what it was made from. */
  predicate Readable(v: Vocab) {
    FallbackFits(v) || (v.maxId == U32_SIZE - 1 && LowTokensAreBytes(v))
  }

  lemma TopMeaning(v: Vocab, i: nat)
    requires VocabOk(v) && Finalized(v) && v.maxId == U32_SIZE - 1 && i < |v.tokens|
    ensures v.base == 0
    ensures var id := v.tokens[i].id;
            Meaning(v, id) == if id < 256 then Some([id]) else Some(v.tokens[i].text)
  {
    FindDistinct(v.tokens, i);
    TopBase();
  }

  lemma TopBase()
    ensures Wrap32(U32_SIZE) == 0 && Wrap32(256) == 256
  {
  }

  lemma HeadMeans(v: Vocab, text: seq<Byte>)
    requires VocabOk(v) && Finalized(v) && Readable(v) && text != []
    ensures Meaning(v, HeadId(v, text)) == Some(text[..HeadLen(v, text)])
  {
    hide VocabOk, Finalized, Meaning, Best, Wrap32, FallbackFits;
    BestIsBest(v.tokens, text);
    var b := Best(v.tokens, text);
    if FallbackFits(v) {
      if b >= 0 {
        TokenMeaning(v, b);
      } else {
        FallbackMeaning(v, text[0]);
        assert text[..1] == [text[0]];
      }
    } else if b >= 0 {
      TopMeaning(v, b);
      assert IsFirst(v.tokens, b);
    } else {
      TopFallback(v, text[0]);
      assert text[..1] == [text[0]];
    }
  }

  lemma TopFallback(v: Vocab, b: Byte)
    requires Finalized(v) && v.maxId == U32_SIZE - 1
    ensures Meaning(v, Wrap32(v.base + b)) == Some([b])
  {
    TopBase();
    assert Wrap32(b) == b;
  }

  /** Greedy matching loses nothing. */
  lemma {:induction false} GreedySpells(v: Vocab, text: seq<Byte>)
    requires VocabOk(v) && Finalized(v) && Readable(v)
    ensures Spells(v, Greedy(v, text), text)
    decreases |text|
  {
    hide VocabOk, Finalized, Readable, Meaning, HeadLen, HeadId, Greedy;
    if text == [] {
      GreedyNothing(v);
    } else {
      GreedyUnfold(v, text);
      HeadMeans(v, text);
      GreedySpells(v, text[HeadLen(v, text)..]);
    }
  }

  /** Merging a pair into a token that spells both changes no text. */
  lemma MergeSpells(v: Vocab, ids: seq<U32>, p: nat, m: Merge, text: seq<Byte>)
    requires VocabOk(v) && Finalized(v) && FallbackFits(v) && MergeSpelled(v, m)
    requires p + 1 < |ids| && ids[p] == m.left && ids[p + 1] == m.right && Spells(v, ids, text)
    ensures Spells(v, MergeAt(ids, p, m.result), text)
  {
    hide VocabOk, Finalized, Meaning, Spells, FallbackFits, TextOf, Known;
    var a, b := ids[..p], ids[p + 2..];
    KnownMeaning(v, m.left);
    KnownMeaning(v, m.right);
    KnownMeaning(v, m.result);
    assert ids == a + ([m.left] + ([m.right] + b));
    var k := SpellsSplit(v, a, [m.left] + ([m.right] + b), text);
    var rest := text[k..];
    var i := SpellsSplit(v, [m.left], [m.right] + b, rest);
    var j := SpellsSplit(v, [m.right], b, rest[i..]);
    SpellsOne(v, m.left, rest[..i]);
    SpellsOne(v, m.right, rest[i..][..j]);
    var both := TextOf(v, m.result);
    SpellsOne(v, m.result, both);
    SpellsAppend(v, a, text[..k], [m.result], both);
    SpellsAppend(v, a + [m.result], text[..k] + both, b, rest[i..][j..]);
    Reassemble(text, k, i, j);
  }

  lemma Reassemble(text: seq<Byte>, k: nat, i: nat, j: nat)
    requires k <= |text| && i <= |text[k..]| && j <= |text[k..][i..]|
    ensures text == text[..k] + (text[k..][..i] + text[k..][i..][..j]) + text[k..][i..][j..]
  {
  }

  /** Greedy matching of the text of two ids never yields just these two: their pair does
      not occur in any greedy output. */
  predicate PairIdle(v: Vocab, m: Merge) {
    Meaning(v, m.left).Some? && Meaning(v, m.right).Some? ==>
      Greedy(v, Meaning(v, m.left).value + Meaning(v, m.right).value) != [m.left, m.right]
  }

  /** Where the fallback ids fit, that is a question about the texts of the two sides. */
  lemma IdleByText(v: Vocab, m: Merge)
    requires VocabOk(v) && Finalized(v) && FallbackFits(v) && Known(v, m.left) && Known(v, m.right)
    ensures PairIdle(v, m) <==> Greedy(v, TextOf(v, m.left) + TextOf(v, m.right)) != [m.left, m.right]
  {
    hide VocabOk, Finalized, FallbackFits, Meaning, Greedy, TextOf, Known;
    KnownMeaning(v, m.left);
    KnownMeaning(v, m.right);
  }

  predicate MergesIdle(v: Vocab) {
    forall m :: m in v.merges ==> PairIdle(v, m)
  }

  lemma {:induction false} GreedyHasNoPair(v: Vocab, text: seq<Byte>, m: Merge, i: nat)
    requires VocabOk(v) && Finalized(v) && Readable(v) && PairIdle(v, m)
    requires i + 1 < |Greedy(v, text)|
    ensures !(Greedy(v, text)[i] == m.left && Greedy(v, text)[i + 1] == m.right)
    decreases i
  {
    hide VocabOk, Finalized, Readable, Meaning, HeadLen, HeadId, Greedy;
    GreedyNothing(v);
    GreedyUnfold(v, text);
    var rest := text[HeadLen(v, text)..];
    if i == 0 {
      PairLocal(v, text);
      HeadMeans(v, text);
      HeadMeans(v, rest);
    } else {
      GreedyHasNoPair(v, rest, m, i - 1);
    }
  }

  /** Idle merges change no greedy output. */
  lemma {:induction false} RanksIdle(v: Vocab, text: seq<Byte>, ms: seq<Merge>)
    requires VocabOk(v) && Finalized(v) && Readable(v) && forall m :: m in ms ==> PairIdle(v, m)
    ensures ApplyRanks(Greedy(v, text), ms) == Greedy(v, text)
    decreases |ms|
  {
    hide VocabOk, Finalized, Readable, PairIdle, Greedy;
    if ms != [] {
      var ids, m := Greedy(v, text), ms[0];
      var p := PairFrom(ids, m.left, m.right, 0);
      if p >= 0 {
        GreedyHasNoPair(v, text, m, p);
      }
      RanksIdle(v, text, ms[1..]);
    }
  }

  /** decode(encode(s)) == s for every byte string. */
  lemma RoundTrip(v: Vocab, text: seq<Byte>, cap: nat)
    requires VocabOk(v) && Finalized(v) && Readable(v) && MergesIdle(v) && |text| < cap
    ensures Encoded(v, text) == Greedy(v, text)
    ensures Decoded(v, Encoded(v, text), [], cap) == Value(text)
  {
    hide VocabOk, Finalized, PairIdle, Readable, Spells, Greedy, ApplyRanks, Decoded;
    GreedySpells(v, text);
    RanksIdle(v, text, v.merges);
    SpellsDecoded(v, Encoded(v, text), text, [], cap);
    assert [] + text == text;
  }

  /* ---- when it does not ---- */

  /** A token that starts its own text is that text's greedy output, up to an earlier equal one. */
  lemma WholeToken(v: Vocab, i: nat)
    requires VocabOk(v) && i < |v.tokens|
    ensures |Greedy(v, v.tokens[i].text)| == 1
    ensures IsFirst(v.tokens, i) ==> Greedy(v, v.tokens[i].text) == [v.tokens[i].id]
  {
    hide Best, Greedy;
    var text := v.tokens[i].text;
    BestIsBest(v.tokens, text);
    assert IsPrefix(text, text);
    var b := Best(v.tokens, text);
    assert v.tokens[b].text == text[..|text|] == text;
    GreedyUnfold(v, text);
    GreedyNothing(v);
    assert text[|text|..] == [];
  }

  /** On a lone pair the first merge of that pair fires. */
  lemma {:induction false} LonePair(l: U32, r: U32, ms: seq<Merge>) returns (m: Merge)
    requires exists k :: k in ms && k.left == l && k.right == r
    ensures m in ms && ApplyRanks([l, r], ms) == [m.result]
    decreases |ms|
  {
    var ids := [l, r];
    if ms[0].left == l && ms[0].right == r {
      m := ms[0];
      assert MergeAt(ids, 0, m.result) == [m.result];
      SingleRank(m.result, m);
      SingleStays(m.result, ms[1..]);
    } else {
      assert PairFrom(ids, ms[0].left, ms[0].right, 1) == -1;
      assert exists k :: k in ms[1..] && k.left == l && k.right == r;
      m := LonePair(l, r, ms[1..]);
    }
  }

  lemma SingleRank(id: U32, m: Merge)
    ensures ApplyRank([id], m) == [id]
  {
  }

  lemma DecodeOne(v: Vocab, id: U32, text: seq<Byte>, cap: nat)
    requires Meaning(v, id) != Some(text)
    ensures Decoded(v, [id], [], cap) != Value(text)
  {
    hide Meaning;
    assert [id][1..] == [];
    if Meaning(v, id).Some? {
      assert [] + Meaning(v, id).value == Meaning(v, id).value;
    }
  }

  /** No single id that merging can produce stands for the text of two. */
  lemma ResultIsNotPair(v: Vocab, id: U32, text: seq<Byte>)
    requires VocabOk(v) && Finalized(v) && Readable(v) && id <= v.maxId
    requires |text| >= 2 && |Greedy(v, text)| == 2
    ensures Meaning(v, id) != Some(text)
  {
    hide Greedy, LowTokensAreBytes;
    if FallbackFits(v) {
      assert Wrap32(v.maxId + 1) == v.maxId + 1;
    } else {
      TopBase();
    }
    if Known(v, id) {
      WholeToken(v, FindFrom(v.tokens, id, 0));
    }
  }

  lemma SideLen(v: Vocab, id: U32)
    requires VocabOk(v) && Meaning(v, id).Some?
    ensures 1 <= |Meaning(v, id).value| <= MAX_TOKEN_LEN
  {
  }

  /** A merge that fires at all loses its own text. */
  lemma FiringFails(v: Vocab, m: Merge) returns (text: seq<Byte>)
    requires VocabOk(v) && Finalized(v) && Readable(v) && m in v.merges && !PairIdle(v, m)
    ensures |text| <= MAX_INPUT && Decoded(v, Encoded(v, text), [], |text| + 1) != Value(text)
  {
    hide Finalized, Readable, Meaning, Greedy, Decoded, ApplyRanks;
    text := Meaning(v, m.left).value + Meaning(v, m.right).value;
    SideLen(v, m.left);
    SideLen(v, m.right);
    var fired := LonePair(m.left, m.right, v.merges);
    ResultIsNotPair(v, fired.result, text);
    DecodeOne(v, fired.result, text, |text| + 1);
  }

  /** With ids so high that the fallback range wraps, the byte 0 encodes to an id that
      decode does not know. */
  lemma WrappedFallbackFails(v: Vocab)
    requires VocabOk(v) && Finalized(v) && !FallbackFits(v) && v.maxId + 1 < U32_SIZE
    ensures Decoded(v, Encoded(v, [0]), [], 2) == Error(Mismatch)
  {
    var text: seq<Byte> := [0];
    BestIsBest(v.tokens, text);
    forall i | 0 <= i < |v.tokens|
      ensures !IsPrefix(v.tokens[i].text, text)
    {
      NotNul(v.tokens[i].text);
    }
    assert text[1..] == [];
    assert Wrap32(v.maxId + 1) == v.maxId + 1 == v.base;
    assert Wrap32(v.base + 0) == v.base;
    assert Greedy(v, text) == [v.base] + [] == [v.base];
    SingleStays(v.base, v.merges);
    assert Encoded(v, text) == [v.base];
    WrapsBelow(v.base);
    assert Meaning(v, v.base) == None;
  }

  /** No token starts with the byte 0. */
  lemma NotNul(t: seq<Byte>)
    requires TextOk(t)
    ensures !IsPrefix(t, [0])
  {
    assert t[0] in t;
  }

  lemma WrapsBelow(base: U32)
    requires base + 256 >= U32_SIZE
    ensures Wrap32(base + 256) == base + 256 - U32_SIZE
  {
    DivModUnique(base + 256, U32_SIZE, 1, base + 256 - U32_SIZE);
  }

  /** A single id is never merged. */
  lemma {:induction false} SingleStays(id: U32, ms: seq<Merge>)
    ensures ApplyRanks([id], ms) == [id]
    decreases |ms|
  {
    if ms != [] {
      assert ApplyRank([id], ms[0]) == [id];
      SingleStays(id, ms[1..]);
    }
  }

  /** With the highest id of all, a token that is read as a byte loses its own text. */
  lemma LowTokenFails(v: Vocab, i: nat)
    requires VocabOk(v) && Finalized(v) && v.maxId == U32_SIZE - 1
    requires i < |v.tokens| && v.tokens[i].id < 256 && IsFirst(v.tokens, i) && v.tokens[i].text != [v.tokens[i].id]
    ensures var text := v.tokens[i].text; Decoded(v, Encoded(v, text), [], |text| + 1) != Value(text)
  {
    hide Finalized, Meaning, Greedy, Decoded;
    WholeToken(v, i);
    SingleStays(v.tokens[i].id, v.merges);
    TopMeaning(v, i);
    DecodeOne(v, v.tokens[i].id, v.tokens[i].text, |v.tokens[i].text| + 1);
  }

  /** Every text within the input limit comes back. */
  ghost predicate Lossless(v: Vocab) {
    forall text: seq<Byte> :: |text| <= MAX_INPUT ==> Decoded(v, Encoded(v, text), [], |text| + 1) == Value(text)
  }

  /** Encoding loses nothing exactly when the fallback ids behind the highest id fit in 32 bits
      (or wrap to 0..255 and agree with the tokens there) and no merge ever fires. */
  lemma RoundTripExactly(v: Vocab)
    requires VocabOk(v) && Finalized(v)
    ensures Lossless(v) <==> Readable(v) && MergesIdle(v)
  {
    hide VocabOk, Finalized, FallbackFits, PairIdle, IsFirst, Encoded, Decoded;
    if !Readable(v) {
      if v.maxId + 1 < U32_SIZE {
        WrappedFallbackFails(v);
        var text: seq<Byte> := [0];
        assert Decoded(v, Encoded(v, text), [], |text| + 1) != Value(text);
      } else {
        var i :| 0 <= i < |v.tokens| && v.tokens[i].id < 256 && IsFirst(v.tokens, i)
                 && v.tokens[i].text != [v.tokens[i].id];
        LowTokenFails(v, i);
        TokenLength(v, i);
      }
    } else if !MergesIdle(v) {
      var m :| m in v.merges && !PairIdle(v, m);
      var text := FiringFails(v, m);
    } else {
      forall text: seq<Byte> | |text| <= MAX_INPUT
        ensures Decoded(v, Encoded(v, text), [], |text| + 1) == Value(text)
      {
        RoundTrip(v, text, |text| + 1);
      }
    }
  }

  lemma TokenLength(v: Vocab, i: nat)
    requires VocabOk(v) && i < |v.tokens|
    ensures |v.tokens[i].text| <= MAX_INPUT
  {
  }

  /** A merge into the token that spells its pair never fires: greedy matching has already
      taken that token. */
  lemma SpelledMergeIdle(v: Vocab, m: Merge)
    requires VocabOk(v) && Finalized(v) && FallbackFits(v) && MergeSpelled(v, m)
    ensures PairIdle(v, m)
  {
    hide Finalized, FallbackFits, Meaning, Greedy;
    KnownMeaning(v, m.left);
    KnownMeaning(v, m.right);
    WholeToken(v, FindFrom(v.tokens, m.result, 0));
  }

  const TwoTokens := Vocab([Token(1, [97]), Token(2, [98])], [Merge(1, 2, 3)], 3, 256)

  lemma TwoTokensOk()
    ensures VocabOk(TwoTokens) && Finalized(TwoTokens) && FallbackFits(TwoTokens)
    ensures Meaning(TwoTokens, 1) == Some([97]) && Meaning(TwoTokens, 2) == Some([98]) && Meaning(TwoTokens, 3) == None
  {
    var v := TwoTokens;
    FindDistinct(v.tokens, 0);
    FindDistinct(v.tokens, 1);
    TokenMeaning(v, 0);
    TokenMeaning(v, 1);
  }

  lemma TwoTokensGreedy()
    ensures Greedy(TwoTokens, [97, 98]) == [1, 2]
  {
    hide Greedy, Best;
    var v := TwoTokens;
    var text: seq<Byte> := [97, 98];
    TwoTokensOk();
    assert text[..1] == [97] && text[1..] == [98];
    BestIsBest(v.tokens, text);
    assert IsPrefix([97], text) && !IsPrefix([98], text);
    assert Best(v.tokens, text) == 0;
    GreedyUnfold(v, text);
    WholeToken(v, 1);
  }

  /** `pai_tok_add_merge` does not look at the result: two byte tokens and a merge of them
      into an id without a token. */
  lemma UnknownResultFails()
    ensures var v := TwoTokens;
            VocabOk(v) && Finalized(v) && FallbackFits(v) && !MergesIdle(v)
            && Decoded(v, Encoded(v, [97, 98]), [], 3) == Error(Mismatch)
  {
    hide VocabOk, Finalized, Greedy, Meaning, ApplyRanks;
    TwoTokensOk();
    TwoTokensGreedy();
    assert [97] + [98] == [97, 98];
    assert TwoTokens.merges[0] == Merge(1, 2, 3);
    assert !PairIdle(TwoTokens, TwoTokens.merges[0]);
    var m := LonePair(1, 2, TwoTokens.merges);
  }

  /** A vocabulary with the highest id whose low token is read as another byte. */
  lemma HighestIdFails()
    ensures var v := Vocab([Token(0xFFFF_FFFF, [98]), Token(5, [97])], [], 0xFFFF_FFFF, 0);
            VocabOk(v) && Finalized(v) && MergesIdle(v) && Decoded(v, Encoded(v, [97]), [], 2) == Value([5])
  {
    var v := Vocab([Token(0xFFFF_FFFF, [98]), Token(5, [97])], [], 0xFFFF_FFFF, 0);
    WholeToken(v, 1);
    TopMeaning(v, 1);
    assert Greedy(v, [97]) == [5];
    assert [5][1..] == [];
    assert [] + [5] == [5];
  }
}
