/** The parser and the writer of gateway/json.c on a document's node pool and string arena. */
module JsonParser {
  import opened Mem
  import opened Json
  import opened JsonDoc
  import opened JsonRoundTrip

  /** Appending more items to what is already parsed. */
  function Before<T>(done: seq<T>, r: Parsed<seq<T>>): Parsed<seq<T>> {
    match r
    case Bad(st) => Bad(st)
    case Good(more, pos, k) => Good(done + more, pos, k)
  }

  lemma BeforeNothing<T>(r: Parsed<seq<T>>)
    ensures Before([], r) == r
  {
    match r
    case Bad(_) =>
    case Good(more, _, _) => assert [] + more == more;
  }

  lemma PrependNothing(r: Json.Bytes)
    ensures Prepend([], r) == r
  {
    match r
    case NoString =>
    case Run(b, _) => assert [] + b == b;
  }

  lemma PrependTwice(a: seq<Byte>, b: seq<Byte>, r: Json.Bytes)
    ensures Prepend(a, Prepend(b, r)) == Prepend(a + b, r)
  {
    match r
    case NoString =>
    case Run(c, _) => assert a + (b + c) == a + b + c;
  }

  /** `skip_ws`. */
  method SkipSpace(t: seq<Byte>, pos: nat) returns (p: nat)
    requires pos <= |t|
    ensures p == SkipWs(t, pos)
  {
    p := pos;
    while p < |t| && IsWs(t[p])
      invariant pos <= p <= |t| && SkipWs(t, p) == SkipWs(t, pos)
    {
      p := p + 1;
    }
  }

  /** The loop of `parse_string`: decoded bytes collected until the closing quote. */
  method StringLoop(t: seq<Byte>, start: nat) returns (ok: bool, bytes: seq<Byte>, pos: nat)
    ensures ok <==> Literal(t, start).Run?
    ensures ok ==> Literal(t, start) == Run(bytes, pos)
  {
    hide Hex4, CodePoint, Unescape, Utf8, Prepend;
    bytes, pos := [], start;
    PrependNothing(Literal(t, start));
    while pos < |t| && t[pos] != QUOTE
      invariant start <= pos
      invariant Literal(t, start) == Prepend(bytes, Literal(t, pos))
      decreases |t| - pos
    {
      if t[pos] == BACKSLASH {
        if pos + 1 >= |t| {
          NoneStays(bytes);
          return false, bytes, pos;
        }
        if t[pos + 1] == 117 {
          if Hex4(t, pos + 2) < 0 {
            NoneStays(bytes);
            return false, bytes, pos;
          }
          var r := CodePoint(t, pos + 2);
          PrependTwice(bytes, Utf8(r.0), Literal(t, r.1));
          bytes, pos := bytes + Utf8(r.0), r.1;
        } else {
          var c := Unescape(t[pos + 1]);
          if c < 0 {
            NoneStays(bytes);
            return false, bytes, pos;
          }
          PrependTwice(bytes, [c], Literal(t, pos + 2));
          bytes, pos := bytes + [c], pos + 2;
        }
      } else {
        if t[pos] < 32 {
          NoneStays(bytes);
          return false, bytes, pos;
        }
        PrependTwice(bytes, [t[pos]], Literal(t, pos + 1));
        bytes, pos := bytes + [t[pos]], pos + 1;
      }
    }
    if pos >= |t| {
      NoneStays(bytes);
      return false, bytes, pos;
    }
    RunStays(bytes, pos + 1);
    ok, pos := true, pos + 1;
  }

  lemma NoneStays(b: seq<Byte>)
    ensures Prepend(b, NoString) == NoString
  {
  }

  lemma RunStays(b: seq<Byte>, pos: nat)
    ensures Prepend(b, Run([], pos)) == Run(b, pos)
  {
    assert b + [] == b;
  }

  /** `parse_number`. */
  method NumberLoop(t: seq<Byte>, start: nat) returns (ok: bool, n: real, pos: nat)
    requires start <= |t|
    ensures ok <==> ParseNumber(t, start).Good?
    ensures ok ==> ParseNumber(t, start) == Good(n, pos, 0)
  {
    hide Pow10;
    ok, n, pos := false, 0.0, start;
    var neg := false;
    if pos < |t| && t[pos] == 45 {
      neg, pos := true, pos + 1;
    }
    var v: nat := 0;
    ghost var first := pos;
    if !IsDigit(t, pos) {
      return;
    }
    if t[pos] == 48 {
      pos := pos + 1;
    } else {
      while IsDigit(t, pos)
        invariant first <= pos <= |t| && Integer(t, first, 0) == Integer(t, pos, v)
        decreases |t| - pos
      {
        v := 10 * v + (t[pos] - 48);
        pos := pos + 1;
      }
    }
    ghost var r := WithFraction(t, pos, v);
    n := v as real;
    if pos < |t| && t[pos] == 46 {
      pos := pos + 1;
      if !IsDigit(t, pos) {
        return;
      }
      var frac := 0.1;
      ghost var from := pos;
      while IsDigit(t, pos)
        invariant from <= pos <= |t| && Fraction(t, from, v as real, 0.1) == Fraction(t, pos, n, frac)
        decreases |t| - pos
      {
        n := n + (t[pos] - 48) as real * frac;
        frac := frac * 0.1;
        pos := pos + 1;
      }
    }
    assert r == WithExponent(t, pos, n);
    ok, n, pos := ExponentLoop(t, pos, n);
    if neg {
      n := -n;
    }
  }

  /** The exponent part of `parse_number`. */
  method ExponentLoop(t: seq<Byte>, start: nat, v: real) returns (ok: bool, n: real, pos: nat)
    requires start <= |t|
    ensures ok <==> WithExponent(t, start, v).Good?
    ensures ok ==> WithExponent(t, start, v) == Good(n, pos, 0)
  {
    ok, n, pos := true, v, start;
    if pos < |t| && (t[pos] == 101 || t[pos] == 69) {
      ok := false;
      pos := pos + 1;
      var minus := false;
      if pos < |t| && (t[pos] == 43 || t[pos] == 45) {
        minus := t[pos] == 45;
        pos := pos + 1;
      }
      if !IsDigit(t, pos) {
        return;
      }
      var e: nat := 0;
      ghost var from := pos;
      while IsDigit(t, pos)
        invariant from <= pos <= |t| && Exponent(t, from, 0) == Exponent(t, pos, e)
        decreases |t| - pos
      {
        e := 10 * e + (t[pos] - 48);
        if e > 300 {
          return;
        }
        pos := pos + 1;
      }
      Pow10Positive(e);
      assert Exponent(t, from, 0) == Good(e, pos, 0);
      assert minus == (start + 1 < |t| && t[start + 1] == 45);
      n := if minus then v / Pow10(e) else v * Pow10(e);
      ok := true;
      assert WithExponent(t, start, v).pos == pos && WithExponent(t, start, v).value == n;
    }
  }

  /* ---- the sibling list ---- */

  /** Start of the last of the siblings. */
  function LastAt(at: nat, ns: seq<nat>): nat
    requires ns != []
    decreases |ns|
  {
    if |ns| == 1 then at else LastAt(at + ns[0], ns[1..])
  }

  lemma {:induction false} LinkLast(nodes: seq<Node>, at: nat, ns: seq<nat>, n: nat)
    requires Links(nodes, at, ns) && ns != [] && n > 0
    requires at + Total(ns) < |nodes| && nodes[at + Total(ns)].next == -1
    ensures at <= LastAt(at, ns) < at + Total(ns) && RootOf(ns, at, LastAt(at, ns))
    ensures Links(nodes[LastAt(at, ns) := nodes[LastAt(at, ns)].(next := at + Total(ns))], at, ns + [n])
    decreases |ns|
  {
    var last := LastAt(at, ns);
    if |ns| == 1 {
      assert ns[1..] == [] && (ns + [n])[1..] == [n] && [n][1..] == [];
    } else {
      LinkLast(nodes, at + ns[0], ns[1..], n);
      assert (ns + [n])[1..] == ns[1..] + [n];
    }
  }

  lemma LinkFirst(nodes: seq<Node>, at: nat, n: nat)
    requires at < |nodes| && nodes[at].next == -1 && n > 0
    ensures Links(nodes, at, [n])
  {
    assert [n][1..] == [];
  }

  lemma {:induction false} TotalAppend(ns: seq<nat>, n: nat)
    ensures Total(ns + [n]) == Total(ns) + n
    decreases |ns|
  {
    if ns == [] {
      assert [n][1..] == [];
      assert ns + [n] == [n];
    } else {
      assert (ns + [n])[1..] == ns[1..] + [n];
      TotalAppend(ns[1..], n);
    }
  }

  lemma {:induction false} SizesAppend(items: seq<Value>, v: Value)
    ensures Sizes(items + [v]) == Sizes(items) + [Size(v)]
    decreases |items|
  {
    if items == [] {
      assert [v][1..] == [];
      assert items + [v] == [v];
    } else {
      assert (items + [v])[1..] == items[1..] + [v];
      SizesAppend(items[1..], v);
    }
  }

  lemma {:induction false} MemberSizesAppend(members: seq<Member>, m: Member)
    ensures MemberSizes(members + [m]) == MemberSizes(members) + [Size(m.value)]
    decreases |members|
  {
    if members == [] {
      assert [m][1..] == [];
      assert members + [m] == [m];
    } else {
      assert (members + [m])[1..] == members[1..] + [m];
      MemberSizesAppend(members[1..], m);
    }
  }

  lemma {:induction false} ItemsAppend(nodes: seq<Node>, strs: seq<Byte>, at: nat, items: seq<Value>, v: Value)
    requires ItemsRep(nodes, strs, at, items) && Rep(nodes, strs, at + ItemsSize(items), v)
    ensures ItemsRep(nodes, strs, at, items + [v])
    decreases |items|
  {
    hide Rep;
    if items == [] {
      assert [v][1..] == [];
      assert items + [v] == [v];
    } else {
      assert (items + [v])[1..] == items[1..] + [v];
      ItemsAppend(nodes, strs, at + Size(items[0]), items[1..], v);
    }
  }

  lemma {:induction false} MembersAppend(nodes: seq<Node>, strs: seq<Byte>, at: nat, members: seq<Member>, m: Member)
    requires MembersRep(nodes, strs, at, members) && Rep(nodes, strs, at + MembersSize(members), m.value)
    requires TextAt(strs, nodes[at + MembersSize(members)].key, m.key)
    ensures MembersRep(nodes, strs, at, members + [m])
    decreases |members|
  {
    hide Rep, TextAt;
    if members == [] {
      assert [m][1..] == [];
      assert members + [m] == [m];
    } else {
      assert (members + [m])[1..] == members[1..] + [m];
      MembersAppend(nodes, strs, at + Size(members[0].value), members[1..], m);
    }
  }

  /* ---- the document ---- */

  /** The children of a container whose node is i, as far as parsed. */
  predicate Children(nodes: seq<Node>, i: nat, kind: Kind, ns: seq<nat>) {
    && i + 1 + Total(ns) == |nodes| && nodes[i].kind == kind && nodes[i].key == -1 && nodes[i].next == -1
    && nodes[i].first == (if ns == [] then -1 else i + 1) && Links(nodes, i + 1, ns)
  }

  /** A fresh subtree behind the last child. */
  predicate Subtree(nodes: seq<Node>, i: nat, n: nat) {
    i + n == |nodes| && n > 0 && nodes[i].next == -1
  }

  lemma SameString(t: seq<Byte>, pos: nat, n: nat)
    ensures ParseString(t, pos, n) == match ParseString(t, pos, 0)
                                      case Bad(e) => Bad(e)
                                      case Good(s, p, _) => Good(s, p, n)
  {
  }

  lemma StartList(nodes: seq<Node>, strs: seq<Byte>, i: nat, kind: Kind)
    requires i + 1 == |nodes| && nodes[i] == Blank(kind)
    ensures Children(nodes, i, kind, []) && Sizes([]) == [] && MemberSizes([]) == []
    ensures ItemsRep(nodes, strs, i + 1, []) && MembersRep(nodes, strs, i + 1, [])
  {
  }

  lemma BeforeTwice<T>(a: seq<T>, b: seq<T>, r: Parsed<seq<T>>)
    ensures Before(a, Before(b, r)) == Before(a + b, r)
  {
    match r
    case Bad(_) =>
    case Good(c, _, _) => assert a + (b + c) == a + b + c;
  }

  /** One item, then a comma and more, or the end, or neither. */
  lemma ItemsUnfold(t: seq<Byte>, pos: nat, depth: nat, n: nat)
    requires pos <= |t| && n <= MAX_NODES
    ensures ParseItems(t, pos, depth, n) ==
            match ParseValue(t, pos, depth + 1, n)
            case Bad(e) => Bad(e)
            case Good(v, p, k) =>
              var q := SkipWs(t, p);
              if q < |t| && t[q] == COMMA then Before([v], ParseItems(t, q + 1, depth, k))
              else if q < |t| && t[q] == CLOSE_ARR then Good([v], q + 1, k)
              else Bad(Protocol)
  {
    hide ParseValue;
  }

  lemma MembersUnfold(t: seq<Byte>, pos: nat, depth: nat, n: nat)
    requires pos <= |t| && n <= MAX_NODES
    ensures ParseMembers(t, pos, depth, n) ==
            match ParseMember(t, pos, depth, n)
            case Bad(e) => Bad(e)
            case Good(m, p, k) =>
              var q := SkipWs(t, p);
              if q < |t| && t[q] == COMMA then Before([m], ParseMembers(t, q + 1, depth, k))
              else if q < |t| && t[q] == CLOSE_OBJ then Good([m], q + 1, k)
              else Bad(Protocol)
  {
    hide ParseMember;
  }

  /** The children so far stay what they are while the next value is parsed behind them. */
  lemma KeepItems(n0: seq<Node>, n1: seq<Node>, s0: seq<Byte>, s1: seq<Byte>, i: nat, items: seq<Value>)
    requires Children(n0, i, KArray, Sizes(items)) && ItemsRep(n0, s0, i + 1, items)
    requires |n0| <= |n1| && n1[..|n0|] == n0 && s0 <= s1
    ensures n1[i] == n0[i] && Links(n1, i + 1, Sizes(items)) && ItemsRep(n1, s1, i + 1, items)
  {
    hide ItemsRep, Links;
    SizesTotal(items);
    assert forall j :: 0 <= j < |n0| ==> n1[j] == n1[..|n0|][j];
    LinksFrame(n0, n1, i + 1, Sizes(items));
    ItemsFrame(n0, n1, s0, s1, i + 1, items);
  }

  lemma KeepMembers(n0: seq<Node>, n1: seq<Node>, s0: seq<Byte>, s1: seq<Byte>, i: nat, members: seq<Member>)
    requires Children(n0, i, KObject, MemberSizes(members)) && MembersRep(n0, s0, i + 1, members)
    requires |n0| <= |n1| && n1[..|n0|] == n0 && s0 <= s1
    ensures n1[i] == n0[i] && Links(n1, i + 1, MemberSizes(members)) && MembersRep(n1, s1, i + 1, members)
  {
    hide MembersRep, Links;
    MemberSizesTotal(members);
    assert forall j :: 0 <= j < |n0| ==> n1[j] == n1[..|n0|][j];
    LinksFrame(n0, n1, i + 1, MemberSizes(members));
    MembersFrame(n0, n1, s0, s1, i + 1, members);
  }

  /** What append_child changes: the parent's first child, or the link of the last sibling. */
  predicate Linked(n1: seq<Node>, n2: seq<Node>, i: nat, child: nat, ns: seq<nat>) {
    |n2| == |n1| && i < child < |n1| &&
    if ns == [] then n2 == n1[i := n1[i].(first := child)]
    else
      var last := LastAt(i + 1, ns);
      i < last < child && RootOf(ns, i + 1, last) && n2 == n1[last := n1[last].(next := child)]
  }

  lemma AppendedItem(n1: seq<Node>, n2: seq<Node>, s: seq<Byte>, i: nat, items: seq<Value>, v: Value)
    requires ItemsRep(n1, s, i + 1, items) && Rep(n1, s, i + 1 + ItemsSize(items), v)
    requires Linked(n1, n2, i, i + 1 + ItemsSize(items), Sizes(items))
    ensures ItemsRep(n2, s, i + 1, items + [v]) && Sizes(items + [v]) == Sizes(items) + [Size(v)]
  {
    hide ItemsRep, Rep, LastAt;
    SizesAppend(items, v);
    var child := i + 1 + ItemsSize(items);
    RepRoom(n1, s, child, v);
    RepFrame(n1, n2, s, s, child, v);
    ItemsFrame(n1, n2, s, s, i + 1, items);
    ItemsAppend(n2, s, i + 1, items, v);
  }

  lemma AppendedMember(n1: seq<Node>, n2: seq<Node>, s: seq<Byte>, i: nat, members: seq<Member>, m: Member)
    requires MembersRep(n1, s, i + 1, members) && Rep(n1, s, i + 1 + MembersSize(members), m.value)
    requires Linked(n1, n2, i, i + 1 + MembersSize(members), MemberSizes(members))
    requires TextAt(s, n1[i + 1 + MembersSize(members)].key, m.key)
    ensures MembersRep(n2, s, i + 1, members + [m])
    ensures MemberSizes(members + [m]) == MemberSizes(members) + [Size(m.value)]
  {
    hide MembersRep, Rep, LastAt, TextAt;
    MemberSizesAppend(members, m);
    var child := i + 1 + MembersSize(members);
    RepRoom(n1, s, child, m.value);
    RepFrame(n1, n2, s, s, child, m.value);
    MembersFrame(n1, n2, s, s, i + 1, members);
    MembersAppend(n2, s, i + 1, members, m);
  }

  /** A finished container is the tree of its children. */
  lemma ArrayDone(nodes: seq<Node>, strs: seq<Byte>, i: nat, items: seq<Value>)
    requires Children(nodes, i, KArray, Sizes(items)) && ItemsRep(nodes, strs, i + 1, items)
    ensures Rep(nodes, strs, i, Arr(items)) && Subtree(nodes, i, Size(Arr(items)))
  {
    SizesTotal(items);
  }

  lemma ObjectDone(nodes: seq<Node>, strs: seq<Byte>, i: nat, members: seq<Member>)
    requires Children(nodes, i, KObject, MemberSizes(members)) && MembersRep(nodes, strs, i + 1, members)
    ensures Rep(nodes, strs, i, Obj(members)) && Subtree(nodes, i, Size(Obj(members)))
  {
    MemberSizesTotal(members);
  }

  class Doc {
    var nodes: seq<Node>
    var strs: seq<Byte>
    var root: int

    constructor ()
      ensures nodes == [] && strs == [] && root == -1
    {
      nodes, strs, root := [], [], -1;
    }

    /** `new_node`. */
    method NewNode(kind: Kind) returns (n: int)
      modifies this`nodes
      ensures n == if |old(nodes)| >= MAX_NODES then -1 else |old(nodes)|
      ensures nodes == if n < 0 then old(nodes) else old(nodes) + [Blank(kind)]
    {
      if |nodes| >= MAX_NODES {
        return -1;
      }
      nodes := nodes + [Blank(kind)];
      n := |nodes| - 1;
    }

    /** `new_str`. */
    method NewStr(s: seq<Byte>) returns (idx: int)
      modifies this`strs
      ensures idx < 0 <==> |s| > MAX_STRING
      ensures idx < 0 ==> strs == old(strs)
      ensures idx >= 0 ==> old(strs) <= strs && TextAt(strs, idx, s)
    {
      if |s| > MAX_STRING {
        return -1;
      }
      idx := |strs|;
      strs := strs + s + [0];
    }

    /** `parse_string`. */
    method StringValue(t: seq<Byte>, pos: nat) returns (st: Status, next: nat, idx: int)
      modifies this`strs
      ensures match ParseString(t, pos, 0)
              case Bad(e) => st == e && strs == old(strs)
              case Good(s, p, _) => st == Ok && next == p && old(strs) <= strs && TextAt(strs, idx, s)
    {
      hide Literal, TextAt;
      next, idx := pos, -1;
      var ok, bytes, p := StringLoop(t, pos);
      if !ok {
        return Protocol, next, idx;
      }
      if |bytes| > MAX_STRING {
        return NoMem, next, idx;
      }
      idx := NewStr(bytes);
      st, next := Ok, p;
    }

    /** `append_child`: walks the siblings and links the new one. */
    method AppendChild(parent: nat, child: nat, ghost kind: Kind, ghost ns: seq<nat>, ghost n: nat)
      requires parent < child && child + n == |nodes| && n > 0
      requires child == parent + 1 + Total(ns)
      requires nodes[parent].first == if ns == [] then -1 else parent + 1
      requires Links(nodes, parent + 1, ns) && nodes[child].next == -1
      requires nodes[parent].kind == kind && nodes[parent].key == -1 && nodes[parent].next == -1
      modifies this`nodes
      ensures |nodes| == |old(nodes)| && Children(nodes, parent, kind, ns + [n])
      ensures nodes[..parent] == old(nodes[..parent])
      ensures Linked(old(nodes), nodes, parent, child, ns)
    {
      TotalAppend(ns, n);
      if nodes[parent].first < 0 {
        assert ns + [n] == [n];
        nodes := nodes[parent := nodes[parent].(first := child)];
        LinkFirst(nodes, child, n);
        return;
      }
      LinkLast(nodes, parent + 1, ns, n);
      var last: nat := nodes[parent].first;
      ghost var left := ns;
      while nodes[last].next >= 0
        invariant left != [] && Links(nodes, last, left) && LastAt(parent + 1, ns) == LastAt(last, left)
        invariant last < |nodes|
        decreases |left|
      {
        assert nodes[last].next == last + left[0];
        last, left := nodes[last].next, left[1..];
      }
      nodes := nodes[last := nodes[last].(next := child)];
    }

    /** What parsing a value leaves behind: more nodes and strings, of which the last nodes
        are the tree of the value. */
    twostate predicate Parsed(r: Json.Parsed<Value>, st: Status, next: nat, node: int)
      reads this
    {
      && |nodes| <= MAX_NODES && old(strs) <= strs
      && |old(nodes)| <= |nodes| && nodes[..|old(nodes)|] == old(nodes)
      && match r
         case Bad(e) => st == e
         case Good(v, p, k) =>
           && st == Ok && next == p && |nodes| == k && node == |old(nodes)|
           && Rep(nodes, strs, node, v) && Subtree(nodes, node, Size(v)) && nodes[node].key == -1
    }

    /** A keyword or number: one leaf node. */
    method LeafNode(v: Value, node: Node, pos: nat) returns (st: Status, n: int)
      requires |nodes| <= MAX_NODES && node.key == -1 && node.next == -1
      requires match v
               case Null => node.kind == KNull
               case Bool(b) => node.kind == KBool && node.boolean == b
               case Num(x) => node.kind == KNumber && node.num == x
               case _ => false
      modifies this`nodes
      ensures Parsed(Leaf(v, pos, |old(nodes)|), st, pos, n)
    {
      n := -1;
      if |nodes| >= MAX_NODES {
        return NoMem, n;
      }
      nodes := nodes + [node];
      st, n := Ok, |nodes| - 1;
    }

    /** A string value. */
    method TextNode(t: seq<Byte>, p: nat) returns (st: Status, next: nat, node: int)
      requires p < |t| && |nodes| <= MAX_NODES
      modifies this`nodes, this`strs
      ensures Parsed(ParseText(t, p, |old(nodes)|), st, next, node)
    {
      hide ParseString, TextAt;
      next := p;
      node := NewNode(KString);
      if node < 0 {
        return NoMem, next, node;
      }
      ghost var n0 := nodes;
      SameString(t, p + 1, |old(nodes)|);
      var idx;
      st, next, idx := StringValue(t, p + 1);
      nodes := nodes[node := nodes[node].(str := idx)];
      assert nodes[..|old(nodes)|] == n0[..|old(nodes)|] == old(nodes);
    }

    /** The items of an array; node is the array's node, made last. */
    method ItemsAt(t: seq<Byte>, start: nat, depth: nat, node: nat) returns (st: Status, next: nat)
      requires start <= |t| && node + 1 == |nodes| <= MAX_NODES && nodes[node] == Blank(KArray)
      modifies this`nodes, this`strs
      ensures |nodes| <= MAX_NODES && old(strs) <= strs && node < |nodes| && nodes[..node] == old(nodes[..node])
      ensures match ParseItems(t, start, depth, node + 1)
              case Bad(e) => st == e
              case Good(items, p, k) =>
                && st == Ok && next == p && |nodes| == k
                && Children(nodes, node, KArray, Sizes(items)) && ItemsRep(nodes, strs, node + 1, items) && items != []
      decreases |t| - start, 2
    {
      hide ParseItems, ParseValue, ItemsRep, Rep, Links;
      var pos := start;
      ghost var items: seq<Value> := [];
      BeforeNothing(ParseItems(t, start, depth, node + 1));
      StartList(nodes, strs, node, KArray);
      while true
        invariant start <= pos <= |t| && |nodes| <= MAX_NODES && old(strs) <= strs
        invariant node < |nodes| && nodes[..node] == old(nodes[..node])
        invariant Children(nodes, node, KArray, Sizes(items)) && ItemsRep(nodes, strs, node + 1, items)
        invariant ParseItems(t, start, depth, node + 1) == Before(items, ParseItems(t, pos, depth, |nodes|))
        decreases |t| - pos
      {
        ghost var n0, s0 := nodes, strs;
        ghost var parsed := ParseValue(t, pos, depth + 1, |n0|);
        ItemsUnfold(t, pos, depth, |n0|);
        SizesTotal(items);
        var v;
        st, next, v := ValueAt(t, pos, depth + 1);
        assert nodes[..node] == nodes[..|n0|][..node] == n0[..node];
        if st != Ok {
          return;
        }
        ghost var value := parsed.value;
        KeepItems(n0, nodes, s0, strs, node, items);
        ghost var n1 := nodes;
        AppendChild(node, v, KArray, Sizes(items), Size(value));
        AppendedItem(n1, nodes, strs, node, items, value);
        var q := SkipSpace(t, next);
        if q >= |t| || (t[q] != COMMA && t[q] != CLOSE_ARR) {
          return Protocol, q;
        }
        BeforeTwice(items, [value], ParseItems(t, q + 1, depth, |nodes|));
        items := items + [value];
        if t[q] == CLOSE_ARR {
          return Ok, q + 1;
        }
        pos := q + 1;
      }
    }

    /** An array. */
    method ArrayAt(t: seq<Byte>, p: nat, depth: nat) returns (st: Status, next: nat, node: int)
      requires p < |t| && |nodes| <= MAX_NODES
      modifies this`nodes, this`strs
      ensures Parsed(ParseArray(t, p, depth, |old(nodes)|), st, next, node)
      decreases |t| - p, 0
    {
      hide ParseItems, ItemsRep, Rep, Links;
      next := p;
      node := NewNode(KArray);
      if node < 0 {
        return NoMem, next, node;
      }
      StartList(nodes, strs, node, KArray);
      var q := SkipSpace(t, p + 1);
      if q < |t| && t[q] == CLOSE_ARR {
        ArrayDone(nodes, strs, node, []);
        return Ok, q + 1, node;
      }
      st, next := ItemsAt(t, q, depth, node);
      if st == Ok {
        ArrayDone(nodes, strs, node, ParseItems(t, q, depth, node + 1).value);
      }
    }

    /** One member of an object: key, colon, value; the key is stored in the value's node. */
    method MemberAt(t: seq<Byte>, pos: nat, depth: nat) returns (st: Status, next: nat, node: int)
      requires pos <= |t| && |nodes| <= MAX_NODES
      modifies this`nodes, this`strs
      ensures |nodes| <= MAX_NODES && old(strs) <= strs
      ensures |old(nodes)| <= |nodes| && nodes[..|old(nodes)|] == old(nodes)
      ensures match ParseMember(t, pos, depth, |old(nodes)|)
              case Bad(e) => st == e
              case Good(m, p, k) =>
                && st == Ok && next == p && |nodes| == k && node == |old(nodes)|
                && Rep(nodes, strs, node, m.value) && Subtree(nodes, node, Size(m.value))
                && TextAt(strs, nodes[node].key, m.key)
      decreases |t| - pos, 0
    {
      hide ParseString, ParseValue, Rep, TextAt;
      next, node := pos, -1;
      if pos >= |t| || t[pos] != QUOTE {
        return Protocol, next, node;
      }
      SameString(t, pos + 1, |nodes|);
      var p, idx;
      st, p, idx := StringValue(t, pos + 1);
      if st != Ok {
        return;
      }
      ghost var s1, key := strs, ParseString(t, pos + 1, 0).value;
      var q := SkipSpace(t, p);
      if q >= |t| || t[q] != COLON {
        return Protocol, q, node;
      }
      st, next, node := ValueAt(t, q + 1, depth + 1);
      if st != Ok {
        return;
      }
      ghost var n1, v := nodes, ParseValue(t, q + 1, depth + 1, |old(nodes)|).value;
      TextFrame(s1, strs, idx, key);
      nodes := nodes[node := nodes[node].(key := idx)];
      RepFrame(n1, nodes, strs, strs, node, v);
      assert nodes[..|old(nodes)|] == n1[..|old(nodes)|];
    }

    /** The members of an object. */
    method MembersAt(t: seq<Byte>, start: nat, depth: nat, node: nat) returns (st: Status, next: nat)
      requires start <= |t| && node + 1 == |nodes| <= MAX_NODES && nodes[node] == Blank(KObject)
      modifies this`nodes, this`strs
      ensures |nodes| <= MAX_NODES && old(strs) <= strs && node < |nodes| && nodes[..node] == old(nodes[..node])
      ensures match ParseMembers(t, start, depth, node + 1)
              case Bad(e) => st == e
              case Good(members, p, k) =>
                && st == Ok && next == p && |nodes| == k
                && Children(nodes, node, KObject, MemberSizes(members))
                && MembersRep(nodes, strs, node + 1, members) && members != []
      decreases |t| - start, 1
    {
      hide ParseMembers, ParseMember, MembersRep, Rep, Links, TextAt;
      var pos := start;
      ghost var members: seq<Member> := [];
      BeforeNothing(ParseMembers(t, start, depth, node + 1));
      StartList(nodes, strs, node, KObject);
      while true
        invariant start <= pos <= |t| && |nodes| <= MAX_NODES && old(strs) <= strs
        invariant node < |nodes| && nodes[..node] == old(nodes[..node])
        invariant Children(nodes, node, KObject, MemberSizes(members)) && MembersRep(nodes, strs, node + 1, members)
        invariant ParseMembers(t, start, depth, node + 1) == Before(members, ParseMembers(t, pos, depth, |nodes|))
        decreases |t| - pos
      {
        ghost var n0, s0 := nodes, strs;
        ghost var parsed := ParseMember(t, pos, depth, |n0|);
        MembersUnfold(t, pos, depth, |n0|);
        MemberSizesTotal(members);
        var v;
        st, next, v := MemberAt(t, pos, depth);
        assert nodes[..node] == nodes[..|n0|][..node] == n0[..node];
        if st != Ok {
          return;
        }
        ghost var m := parsed.value;
        KeepMembers(n0, nodes, s0, strs, node, members);
        ghost var n1 := nodes;
        AppendChild(node, v, KObject, MemberSizes(members), Size(m.value));
        AppendedMember(n1, nodes, strs, node, members, m);
        var q := SkipSpace(t, next);
        if q >= |t| || (t[q] != COMMA && t[q] != CLOSE_OBJ) {
          return Protocol, q;
        }
        BeforeTwice(members, [m], ParseMembers(t, q + 1, depth, |nodes|));
        members := members + [m];
        if t[q] == CLOSE_OBJ {
          return Ok, q + 1;
        }
        pos := q + 1;
      }
    }

    /** An object. */
    method ObjectAt(t: seq<Byte>, p: nat, depth: nat) returns (st: Status, next: nat, node: int)
      requires p < |t| && |nodes| <= MAX_NODES
      modifies this`nodes, this`strs
      ensures Parsed(ParseObject(t, p, depth, |old(nodes)|), st, next, node)
      decreases |t| - p, 0
    {
      hide ParseMembers, MembersRep, Rep, Links;
      next := p;
      node := NewNode(KObject);
      if node < 0 {
        return NoMem, next, node;
      }
      StartList(nodes, strs, node, KObject);
      var q := SkipSpace(t, p + 1);
      if q < |t| && t[q] == CLOSE_OBJ {
        ObjectDone(nodes, strs, node, []);
        return Ok, q + 1, node;
      }
      st, next := MembersAt(t, q, depth, node);
      if st == Ok {
        ObjectDone(nodes, strs, node, ParseMembers(t, q, depth, node + 1).value);
      }
    }

    /** `parse_value`. */
    method ValueAt(t: seq<Byte>, pos: nat, depth: nat) returns (st: Status, next: nat, node: int)
      requires pos <= |t| && |nodes| <= MAX_NODES
      modifies this`nodes, this`strs
      ensures Parsed(ParseValue(t, pos, depth, |old(nodes)|), st, next, node)
      decreases |t| - pos, 1
    {
      hide ParseNumber, ParseArray, ParseObject, ParseText, Rep, Has, Leaf;
      next, node := pos, -1;
      if depth > MAX_DEPTH {
        return NoMem, next, node;
      }
      var p := SkipSpace(t, pos);
      if p >= |t| {
        return Protocol, next, node;
      }
      var c := t[p];
      if c == OPEN_OBJ {
        st, next, node := ObjectAt(t, p, depth);
      } else if c == OPEN_ARR {
        st, next, node := ArrayAt(t, p, depth);
      } else if c == QUOTE {
        st, next, node := TextNode(t, p);
      } else if c == 116 {
        if !Has(t, p, TrueText()) {
          return Protocol, next, node;
        }
        next := p + 4;
        st, node := LeafNode(Bool(true), Blank(KBool).(boolean := true), next);
      } else if c == 102 {
        if !Has(t, p, FalseText()) {
          return Protocol, next, node;
        }
        next := p + 5;
        st, node := LeafNode(Bool(false), Blank(KBool), next);
      } else if c == 110 {
        if !Has(t, p, NullText()) {
          return Protocol, next, node;
        }
        next := p + 4;
        st, node := LeafNode(Null, Blank(KNull), next);
      } else {
        var ok, n, after := NumberLoop(t, p);
        if !ok {
          return Protocol, next, node;
        }
        next := after;
        st, node := LeafNode(Num(n), Blank(KNumber).(num := n), next);
      }
    }
  }
}
