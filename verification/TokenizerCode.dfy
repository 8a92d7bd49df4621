/** The methods of models/tokenizer.c on the tokenizer object and its buffers. */
module TokenizerCode {
  import opened Mem
  import opened Tokenizer

  class Tok {
    var tokens: seq<Token>
    var merges: seq<Merge>
    var maxId: U32
    var base: U32

    ghost function View(): Vocab
      reads this
    {
      Vocab(tokens, merges, maxId, base)
    }

    ghost predicate Valid()
      reads this
    {
      VocabOk(View())
    }

    /** `pai_tok_init`. */
    constructor ()
      ensures Valid() && View() == Vocab([], [], 0, 256)
    {
      tokens, merges, maxId, base := [], [], 0, 256;
    }

    /** `pai_tok_add_token`; `text` is what strlen sees of the argument. */
    method AddToken(id: U32, text: seq<Byte>) returns (st: Status)
      requires Valid() && 0 !in text
      modifies this
      ensures Valid()
      ensures st == Ok <==> TextOk(text) && !old(Known(View(), id)) && |old(tokens)| < MAX_TOKENS
      ensures st == Ok ==> View() == old(View()).(tokens := old(tokens) + [Token(id, text)],
                                                  maxId := if id > old(maxId) then id else old(maxId))
      ensures st != Ok ==> View() == old(View())
    {
      if |text| == 0 || |text| > MAX_TOKEN_LEN {
        return InvalidArg;
      }
      var at := IndexOf(id);
      if at >= 0 {
        return InvalidArg;
      }
      if |tokens| >= MAX_TOKENS {
        return NoMem;
      }
      ghost var v := View();
      tokens := tokens + [Token(id, text)];
      if id > maxId {
        maxId := id;
      }
      KnownGrows(v, View());
      st := Ok;
    }

    /** The scan for an id. */
    method IndexOf(id: U32) returns (r: int)
      ensures r == FindFrom(tokens, id, 0)
    {
      var i := 0;
      while i < |tokens|
        invariant 0 <= i <= |tokens| && FindFrom(tokens, id, 0) == FindFrom(tokens, id, i)
      {
        if tokens[i].id == id {
          return i;
        }
        i := i + 1;
      }
      return -1;
    }

    /** `pai_tok_add_merge`. */
    method AddMerge(left: U32, right: U32, result: U32) returns (st: Status)
      requires Valid()
      modifies this
      ensures Valid()
      ensures st == Ok <==> old(Known(View(), left)) && old(Known(View(), right)) && |old(merges)| < MAX_MERGES
      ensures st == Ok ==> View() == old(View()).(merges := old(merges) + [Merge(left, right, result)],
                                                  maxId := if result > old(maxId) then result else old(maxId))
      ensures st != Ok ==> View() == old(View())
    {
      var haveLeft, haveRight := false, false;
      var i := 0;
      while i < |tokens|
        invariant 0 <= i <= |tokens|
        invariant haveLeft <==> exists j :: 0 <= j < i && tokens[j].id == left
        invariant haveRight <==> exists j :: 0 <= j < i && tokens[j].id == right
      {
        if tokens[i].id == left {
          haveLeft := true;
        }
        if tokens[i].id == right {
          haveRight := true;
        }
        i := i + 1;
      }
      if !haveLeft || !haveRight {
        return InvalidArg;
      }
      if |merges| >= MAX_MERGES {
        return NoMem;
      }
      merges := merges + [Merge(left, right, result)];
      if result > maxId {
        maxId := result;
      }
      st := Ok;
    }

    /** `pai_tok_finalize`. */
    method Finalize()
      requires Valid()
      modifies this`base
      ensures Valid() && Finalized(View())
    {
      base := 256;
      if maxId >= 256 {
        base := Wrap32(maxId + 1);
      }
    }

    /** `match_prefix`. */
    method MatchPrefix(text: seq<Byte>) returns (best: int)
      ensures best == Best(tokens, text)
    {
      best := -1;
      var bestLen := 0;
      var i := 0;
      while i < |tokens|
        invariant 0 <= i <= |tokens| && -1 <= best < i
        invariant bestLen == if best < 0 then 0 else |tokens[best].text|
        invariant Best(tokens, text) == BestFrom(tokens, text, i, best)
      {
        var t := tokens[i].text;
        if |t| <= |text| && |t| > bestLen && text[..|t|] == t {
          best, bestLen := i, |t|;
        }
        i := i + 1;
      }
    }

    /** The greedy loop of `pai_tok_encode`. */
    method GreedyLoop(text: seq<Byte>, ids: array<U32>) returns (n: nat)
      requires |text| <= ids.Length
      modifies ids
      ensures n <= |text| && ids[..n] == Greedy(View(), text)
    {
      hide Best, Greedy;
      n := 0;
      var pos := 0;
      assert text[0..] == text && ids[..0] == [];
      while pos < |text|
        invariant 0 <= n <= pos <= |text|
        invariant ids[..n] + Greedy(View(), text[pos..]) == Greedy(View(), text)
        decreases |text| - pos
      {
        ghost var done, rest := ids[..n], text[pos..];
        var best := MatchPrefix(text[pos..]);
        BestIsBest(tokens, text[pos..]);
        GreedyStep(View(), rest);
        var id, len := Wrap32(base + text[pos]), 1;
        if best >= 0 {
          id, len := tokens[best].id, |tokens[best].text|;
        }
        assert text[pos..][len..] == text[pos + len..];
        ids[n] := id;
        assert ids[..n + 1] == done + [id];
        n, pos := n + 1, pos + len;
      }
      GreedyNone(View(), text[pos..]);
    }

    /** `memmove` of the ids behind a merged pair. */
    method MergePair(ids: array<U32>, n: nat, i: nat, result: U32)
      requires i + 1 < n <= ids.Length
      modifies ids
      ensures ids[..n - 1] == MergeAt(old(ids[..n]), i, result)
    {
      ids[i] := result;
      forall k | i + 1 <= k < n - 1 {
        ids[k] := ids[k + 1];
      }
    }

    /** The loops of one rank: restart from the left after every merge. */
    method RankLoop(m: Merge, ids: array<U32>, length: nat) returns (n: nat)
      requires length <= ids.Length
      modifies ids
      ensures n <= length && ids[..n] == ApplyRank(old(ids[..length]), m)
    {
      hide MergeAt;
      n := length;
      var applied := true;
      while applied
        invariant n <= length && ApplyRank(ids[..n], m) == ApplyRank(old(ids[..length]), m)
        invariant !applied ==> PairFrom(ids[..n], m.left, m.right, 0) < 0
        decreases n, applied
      {
        applied := false;
        ghost var s := ids[..n];
        var i := 0;
        while i + 1 < n && !(ids[i] == m.left && ids[i + 1] == m.right)
          invariant 0 <= i && (i + 1 < n || i <= n)
          invariant PairFrom(s, m.left, m.right, 0) == PairFrom(s, m.left, m.right, i)
          modifies {}
          decreases n - i
        {
          i := i + 1;
        }
        if i + 1 < n {
          assert PairFrom(s, m.left, m.right, i) == i;
          MergePair(ids, n, i, m.result);
          n := n - 1;
          applied := true;
        }
      }
    }

    /** `pai_tok_encode`. */
    method Encode(text: seq<Byte>, out: array<U32>, cap: nat) returns (st: Status, n: nat)
      requires cap <= out.Length
      modifies out
      ensures st == InvalidArg <==> |text| > MAX_INPUT
      ensures st == Ok <==> |text| <= MAX_INPUT && |Encoded(View(), text)| <= cap
      ensures st == Ok ==> n <= cap && out[..n] == Encoded(View(), text) && out[n..] == old(out[n..])
      ensures st != Ok ==> out[..] == old(out[..])
    {
      hide Greedy, ApplyRank;
      n := 0;
      if |text| > MAX_INPUT {
        return InvalidArg, n;
      }
      var ids := new U32[if |text| > 0 then |text| else 1](_ => 0);
      n := GreedyLoop(text, ids);
      var rank := 0;
      assert merges[0..] == merges;
      while rank < |merges|
        invariant 0 <= rank <= |merges| && n <= |text|
        invariant ApplyRanks(ids[..n], merges[rank..]) == Encoded(View(), text)
        modifies ids
      {
        ghost var before := ids[..n];
        n := RankLoop(merges[rank], ids, n);
        assert merges[rank..][1..] == merges[rank + 1..];
        rank := rank + 1;
      }
      assert ids[..n] == Encoded(View(), text);
      if n > cap {
        return NoMem, n;
      }
      forall i | 0 <= i < n {
        out[i] := ids[i];
      }
      st := Ok;
    }

    /** `pai_tok_decode`: the text and a closing NUL, or the first reason why not. */
    method Decode(ids: seq<U32>, out: array<Byte>, cap: nat) returns (st: Status, n: nat)
      requires cap <= out.Length
      modifies out
      ensures cap == 0 ==> st == InvalidArg
      ensures cap > 0 ==> match Decoded(View(), ids, [], cap)
                          case Value(text) => st == Ok && n == |text| < cap && out[..n] == text && out[n] == 0
                          case Error(e) => st == e
    {
      hide Meaning;
      n := 0;
      if cap == 0 {
        return InvalidArg, n;
      }
      var i := 0;
      assert ids[0..] == ids && out[..0] == [];
      while i < |ids|
        invariant 0 <= i <= |ids| && n < cap
        invariant Decoded(View(), ids[i..], out[..n], cap) == Decoded(View(), ids, [], cap)
      {
        assert ids[i..][1..] == ids[i + 1..];
        var text := Lookup(ids[i]);
        if text.None? {
          return Mismatch, n;
        }
        var t := text.value;
        if n + |t| >= cap {
          return NoMem, n;
        }
        ghost var done := out[..n];
        forall k | 0 <= k < |t| {
          out[n + k] := t[k];
        }
        assert out[..n + |t|] == done + t;
        n := n + |t|;
        i := i + 1;
      }
      ghost var text := out[..n];
      out[n] := 0;
      assert out[..n] == text;
      st := Ok;
    }

    /** The fallback test and the scan of `pai_tok_decode` for one id. */
    method Lookup(id: U32) returns (t: Option<seq<Byte>>)
      ensures t == Meaning(View(), id)
    {
      if base <= id < Wrap32(base + 256) {
        FallbackByte(base, id);
        return Some([id - base]);
      }
      var at := IndexOf(id);
      if at < 0 {
        return None;
      }
      t := Some(tokens[at].text);
    }
  }

  lemma FallbackByte(base: U32, id: U32)
    requires base <= id < Wrap32(base + 256)
    ensures id - base < 256
  {
  }

  lemma GreedyNone(v: Vocab, text: seq<Byte>)
    requires text == []
    ensures Greedy(v, text) == []
  {
  }

  lemma GreedyStep(v: Vocab, text: seq<Byte>)
    requires text != []
    ensures var b := Best(v.tokens, text);
            Greedy(v, text) ==
            if b >= 0 && |v.tokens[b].text| <= |text| then [v.tokens[b].id] + Greedy(v, text[|v.tokens[b].text|..])
            else [Wrap32(v.base + text[0])] + Greedy(v, text[1..])
  {
    BestIsBest(v.tokens, text);
  }

  /** A new token keeps the old ones known. */
  lemma KnownGrows(v: Vocab, w: Vocab)
    requires VocabOk(v) && v.tokens <= w.tokens && w.merges == v.merges && v.maxId <= w.maxId
    ensures forall i :: 0 <= i < |w.merges| ==>
              Known(w, w.merges[i].left) && Known(w, w.merges[i].right) && w.merges[i].result <= w.maxId
  {
    forall id: U32 | Known(v, id)
      ensures Known(w, id)
    {
      var i := FindFrom(v.tokens, id, 0);
      assert w.tokens[i].id == id;
    }
  }

  /** Encoding into any buffer that is large enough and decoding again gives back the text,
      byte for byte, for every text within the input limit: exactly for the vocabularies
      whose ids are readable and whose merges are idle. */
  method EncodeDecode(t: Tok, text: seq<Byte>, ids: array<U32>, out: array<Byte>) returns (st: Status, n: nat)
    requires t.Valid() && Finalized(t.View())
    requires |text| <= MAX_INPUT && |text| <= ids.Length && |text| < out.Length
    modifies ids, out
    ensures match Decoded(t.View(), Encoded(t.View(), text), [], out.Length)
            case Value(s) => st == Ok && n == |s| < out.Length && out[..n] == s && out[n] == 0
            case Error(e) => st == e
    ensures Readable(t.View()) && MergesIdle(t.View()) ==> st == Ok && n == |text| && out[..n] == text && out[n] == 0
    ensures Lossless(t.View()) <==> Readable(t.View()) && MergesIdle(t.View())
  {
    hide VocabOk, Finalized, Readable, MergesIdle, Encoded, Decoded, Lossless;
    var k;
    st, k := t.Encode(text, ids, ids.Length);
    RoundTripExactly(t.View());
    if Readable(t.View()) && MergesIdle(t.View()) {
      RoundTrip(t.View(), text, out.Length);
    }
    st, n := t.Decode(ids[..k], out, out.Length);
  }
}
