/** `pai_json_parse` and `pai_json_serialize` as a pair, and the writer between them. */
module JsonWriter {
  import opened Mem
  import opened Json
  import opened JsonDoc
  import opened JsonRoundTrip
  import opened JsonTrim
  import opened JsonParser

  /** `pai_json_parse`: the document's nodes are the tree of the text, rooted at node 0. */
  method ParseDocument(t: seq<Byte>) returns (st: Status, doc: Doc)
    ensures fresh(doc)
    ensures match Parse(t)
            case Bad(e) => st == e && doc.root == -1
            case Good(v, _, k) => st == Ok && doc.root == 0 && |doc.nodes| == k && Rep(doc.nodes, doc.strs, 0, v)
  {
    hide ParseValue, Rep;
    doc := new Doc();
    var next, node;
    st, next, node := doc.ValueAt(t, 0, 0);
    if st != Ok {
      return;
    }
    var end := SkipSpace(t, next);
    if end != |t| {
      return Protocol, doc;
    }
    doc.root := node;
  }

  /** `strlen` in the arena. */
  method Length(strs: seq<Byte>, idx: int, ghost s: seq<Byte>) returns (n: nat)
    requires TextAt(strs, idx, s)
    ensures n == |Cut(s)| && 0 <= idx && idx + n <= |strs| && strs[idx..idx + n] == Cut(s)
  {
    hide Cut;
    n := 0;
    CutAt(strs, idx, s);
    while strs[idx + n] != 0
      invariant 0 <= n <= |Cut(s)|
      decreases |Cut(s)| - n
    {
      n := n + 1;
    }
  }

  /** The arena holds the bytes before the first NUL of s, and then a NUL. */
  lemma CutAt(strs: seq<Byte>, idx: int, s: seq<Byte>)
    requires TextAt(strs, idx, s)
    ensures var c := Cut(s);
            && 0 <= idx && idx + |c| < |strs| && strs[idx..idx + |c|] == c && strs[idx + |c|] == 0
            && forall p :: idx <= p < idx + |c| ==> strs[p] != 0
  {
    hide Cut;
    var c := Cut(s);
    var at := strs[idx..idx + |s|];
    assert strs[idx..idx + |c|] == at[..|c|];
    assert |c| < |s| ==> strs[idx + |c|] == at[|c|];
    forall p | idx <= p < idx + |c|
      ensures strs[p] != 0
    {
      assert strs[p] == at[p - idx] == c[p - idx];
      assert c[p - idx] in c;
    }
  }

  class Writer {
    var buf: seq<Byte>

    constructor ()
      ensures buf == []
    {
      buf := [];
    }

    method Put(w: seq<Byte>)
      modifies this
      ensures buf == old(buf) + w
    {
      buf := buf + w;
    }

    /** `pai_json_quote`. */
    method Quote(s: seq<Byte>)
      modifies this
      ensures buf == old(buf) + Quoted(s)
    {
      hide Escape;
      Put([QUOTE]);
      ghost var start := buf;
      assert s[0..] == s;
      var i := 0;
      while i < |s|
        invariant 0 <= i <= |s| && buf + Escaped(s[i..]) == start + Escaped(s)
      {
        assert s[i..][1..] == s[i + 1..];
        ghost var b := buf;
        Put(Escape(s[i]));
        assert b + (Escape(s[i]) + Escaped(s[i + 1..])) == buf + Escaped(s[i + 1..]);
        i := i + 1;
      }
      assert Escaped(s[i..]) == [];
      assert buf == start + Escaped(s);
      Put([QUOTE]);
      assert buf == old(buf) + ([QUOTE] + Escaped(s) + [QUOTE]);
    }

    /** `pai_json_serialize` of the node that holds tree v. */
    method Serialize(nodes: seq<Node>, strs: seq<Byte>, node: nat, ghost v: Value)
      requires Rep(nodes, strs, node, v) && Printable(v)
      modifies this
      ensures buf == old(buf) + Written(v)
      decreases v, 0
    {
      hide ItemsText, MembersText, Quoted, NumText, Links, ItemsRep, MembersRep, TextAt, Cut, TrimItems, TrimMembers;
      match nodes[node].kind
      case KNull =>
        Put(NullText());
      case KBool =>
        Put(if nodes[node].boolean then TrueText() else FalseText());
      case KNumber =>
        Put(NumText(nodes[node].num));
      case KString =>
        var idx := nodes[node].str;
        var n := Length(strs, idx, v.s);
        Quote(strs[idx..idx + n]);
      case KArray =>
        Put([OPEN_ARR]);
        ghost var b := buf;
        Items(nodes, strs, nodes[node].first, v.items);
        Put([CLOSE_ARR]);
        assert buf == old(buf) + ([OPEN_ARR] + WrittenItems(v.items) + [CLOSE_ARR]);
      case KObject =>
        Put([OPEN_OBJ]);
        Members(nodes, strs, nodes[node].first, v.members);
        Put([CLOSE_OBJ]);
        assert buf == old(buf) + ([OPEN_OBJ] + WrittenMembers(v.members) + [CLOSE_OBJ]);
    }

    /** The loop over the items of an array. */
    method Items(nodes: seq<Node>, strs: seq<Byte>, first: int, ghost items: seq<Value>)
      requires ItemsLeft(nodes, strs, first, items)
      requires forall i :: 0 <= i < |items| ==> Printable(items[i])
      modifies this
      ensures buf == old(buf) + WrittenItems(items)
      decreases items, 1
    {
      hide ItemsLeft, Rep, Written, WrittenItems, Remaining, Printable;
      var child := first;
      var n: nat := 0;
      ghost var rest := items;
      StartItems(items);
      while child >= 0
        invariant ItemsLeft(nodes, strs, child, rest) && forall i :: 0 <= i < |rest| ==> Printable(rest[i])
        invariant |rest| <= |items| && rest == items[|items| - |rest|..]
        invariant old(buf) + WrittenItems(items) == buf + Remaining(n, rest)
        decreases |rest|
      {
        ghost var b := buf;
        NextItem(nodes, strs, child, rest);
        if n != 0 {
          Put([COMMA]);
        }
        n := n + 1;
        ghost var c := buf;
        assert rest[0] == items[|items| - |rest|];
        Serialize(nodes, strs, child, rest[0]);
        ItemWritten(n, rest, b, c, buf);
        child := nodes[child].next;
        rest := rest[1..];
      }
      ItemsDone(nodes, strs, child, n, rest);
      assert buf + [] == buf;
    }

    /** Key, colon, value. */
    method OneMember(nodes: seq<Node>, strs: seq<Byte>, node: nat, ghost m: Member)
      requires node < |nodes| && Rep(nodes, strs, node, m.value) && TextAt(strs, nodes[node].key, m.key)
      requires Printable(m.value)
      modifies this
      ensures buf == old(buf) + WrittenMember(m)
      decreases m, 1
    {
      hide Rep, Text, Trim, Printable, Quoted, TextAt, Cut;
      RepRoom(nodes, strs, node, m.value);
      var idx := nodes[node].key;
      var len := Length(strs, idx, m.key);
      Quote(strs[idx..idx + len]);
      Put([COLON]);
      Serialize(nodes, strs, node, m.value);
      assert buf == old(buf) + (Quoted(Cut(m.key)) + [COLON] + Written(m.value));
    }

    /** The loop over the members of an object. */
    method Members(nodes: seq<Node>, strs: seq<Byte>, first: int, ghost members: seq<Member>)
      requires MembersLeft(nodes, strs, first, members)
      requires forall i :: 0 <= i < |members| ==> Printable(members[i].value)
      modifies this
      ensures buf == old(buf) + WrittenMembers(members)
      decreases members, 1
    {
      hide MembersLeft, Rep, WrittenMember, WrittenMembers, RemainingMembers, Printable, TextAt;
      var child := first;
      var n: nat := 0;
      ghost var rest := members;
      StartMembers(members);
      while child >= 0
        invariant MembersLeft(nodes, strs, child, rest) && forall i :: 0 <= i < |rest| ==> Printable(rest[i].value)
        invariant |rest| <= |members| && rest == members[|members| - |rest|..]
        invariant old(buf) + WrittenMembers(members) == buf + RemainingMembers(n, rest)
        decreases |rest|
      {
        ghost var b := buf;
        NextMember(nodes, strs, child, rest);
        if n != 0 {
          Put([COMMA]);
        }
        n := n + 1;
        ghost var c := buf;
        assert rest[0] == members[|members| - |rest|];
        OneMember(nodes, strs, child, rest[0]);
        MemberIsWritten(n, rest, b, c, buf);
        child := nodes[child].next;
        rest := rest[1..];
      }
      MembersDone(nodes, strs, child, n, rest);
      assert buf + [] == buf;
    }
  }

  /* ---- the loop over siblings ---- */

  /** The siblings from child on are these items. */
  predicate ItemsLeft(nodes: seq<Node>, strs: seq<Byte>, child: int, items: seq<Value>) {
    && (items == [] <==> child < 0)
    && (child >= 0 ==> Links(nodes, child, Sizes(items)) && ItemsRep(nodes, strs, child, items))
  }

  /** What is still to be written behind n items. */
  function Remaining(n: nat, items: seq<Value>): seq<Byte>
    requires forall i :: 0 <= i < |items| ==> Printable(items[i])
  {
    if items == [] then [] else (if n == 0 then [] else [COMMA]) + WrittenItems(items)
  }

  lemma StartItems(items: seq<Value>)
    requires forall i :: 0 <= i < |items| ==> Printable(items[i])
    ensures WrittenItems(items) == Remaining(0, items)
  {
    hide WrittenItems, Printable;
    WrittenStep(items);
  }

  lemma NextItem(nodes: seq<Node>, strs: seq<Byte>, at: nat, items: seq<Value>)
    requires ItemsLeft(nodes, strs, at, items)
    ensures items != [] && at < |nodes| && Rep(nodes, strs, at, items[0])
    ensures ItemsLeft(nodes, strs, nodes[at].next, items[1..])
  {
    hide Rep, Printable;
    assert Sizes(items)[1..] == Sizes(items[1..]);
  }

  lemma Regroup(b: seq<Byte>, sep: seq<Byte>, w: seq<Byte>, x: seq<Byte>)
    ensures b + (sep + (w + [COMMA] + x)) == b + sep + w + ([COMMA] + x)
    ensures b + (sep + w) == b + sep + w + []
    ensures sep == [] ==> b + sep == b
  {
  }

  lemma ItemWritten(n: nat, items: seq<Value>, b: seq<Byte>, c: seq<Byte>, d: seq<Byte>)
    requires n > 0 && items != [] && forall i :: 0 <= i < |items| ==> Printable(items[i])
    requires c == (if n == 1 then b else b + [COMMA]) && d == c + Written(items[0])
    ensures b + Remaining(n - 1, items) == d + Remaining(n, items[1..])
  {
    hide Written, WrittenItems, Printable;
    WrittenStep(items);
    Regroup(b, if n == 1 then [] else [COMMA], Written(items[0]),
            if |items| == 1 then [] else WrittenItems(items[1..]));
  }

  lemma ItemsDone(nodes: seq<Node>, strs: seq<Byte>, child: int, n: nat, items: seq<Value>)
    requires ItemsLeft(nodes, strs, child, items) && child < 0
    ensures items == [] && Remaining(n, []) == []
  {
  }

  /** The siblings from child on are these members. */
  predicate MembersLeft(nodes: seq<Node>, strs: seq<Byte>, child: int, members: seq<Member>) {
    && (members == [] <==> child < 0)
    && (child >= 0 ==> Links(nodes, child, MemberSizes(members)) && MembersRep(nodes, strs, child, members))
  }

  /** What is still to be written behind n members. */
  function RemainingMembers(n: nat, members: seq<Member>): seq<Byte>
    requires forall i :: 0 <= i < |members| ==> Printable(members[i].value)
  {
    if members == [] then [] else (if n == 0 then [] else [COMMA]) + WrittenMembers(members)
  }

  lemma StartMembers(members: seq<Member>)
    requires forall i :: 0 <= i < |members| ==> Printable(members[i].value)
    ensures WrittenMembers(members) == RemainingMembers(0, members)
  {
    hide WrittenMembers, Printable;
    WrittenMembersStep(members);
  }

  lemma NextMember(nodes: seq<Node>, strs: seq<Byte>, at: nat, members: seq<Member>)
    requires MembersLeft(nodes, strs, at, members)
    ensures members != [] && at < |nodes| && Rep(nodes, strs, at, members[0].value)
            && TextAt(strs, nodes[at].key, members[0].key)
    ensures MembersLeft(nodes, strs, nodes[at].next, members[1..])
  {
    hide Rep, Printable, TextAt;
    assert MemberSizes(members)[1..] == MemberSizes(members[1..]);
  }

  lemma MemberIsWritten(n: nat, members: seq<Member>, b: seq<Byte>, c: seq<Byte>, d: seq<Byte>)
    requires n > 0 && members != [] && forall i :: 0 <= i < |members| ==> Printable(members[i].value)
    requires c == (if n == 1 then b else b + [COMMA]) && d == c + WrittenMember(members[0])
    ensures b + RemainingMembers(n - 1, members) == d + RemainingMembers(n, members[1..])
  {
    hide WrittenMember, WrittenMembers, Printable;
    WrittenMembersStep(members);
    Regroup(b, if n == 1 then [] else [COMMA], WrittenMember(members[0]),
            if |members| == 1 then [] else WrittenMembers(members[1..]));
  }

  lemma MembersDone(nodes: seq<Node>, strs: seq<Byte>, child: int, n: nat, members: seq<Member>)
    requires MembersLeft(nodes, strs, child, members) && child < 0
    ensures members == [] && RemainingMembers(n, []) == []
  {
  }

  /** Writing out a document and parsing the text gives a document of the same tree, node
      for node, with every string cut at its first NUL; the very same tree exactly if no
      string holds a NUL. For every tree within the limits, so for every parsed one. */
  method WriteAndParse(doc: Doc, ghost v: Value) returns (st: Status, again: Doc)
    requires doc.root == 0 && Rep(doc.nodes, doc.strs, 0, v)
    requires Printable(v) && Within(v)
    ensures st == Ok && again.root == 0 && |again.nodes| == Size(v) && Rep(again.nodes, again.strs, 0, Trim(v))
    ensures Trim(v) == v <==> NulFree(v)
  {
    hide Rep, Printable, Short, Shallow, Size, Parse, Text, Trim;
    var w := new Writer();
    w.Serialize(doc.nodes, doc.strs, doc.root, v);
    TrimWithin(v, 0);
    TrimSize(v);
    TrimSame(v);
    RoundTrip(Trim(v));
    assert w.buf == Written(v);
    st, again := ParseDocument(w.buf);
  }
}
