/** The document of gateway/json.c: nodes in one pool, linked by first child and next
    sibling, strings in one arena. The parser fills it in preorder. */
module JsonDoc {
  import opened Mem
  import opened Json

  datatype Kind = KNull | KBool | KNumber | KString | KArray | KObject

  datatype Node = Node(kind: Kind, key: int, str: int, num: real, boolean: bool, first: int, next: int)

  function Blank(kind: Kind): Node {
    Node(kind, -1, -1, 0.0, false, -1, -1)
  }

  /** The arena holds s, closed by a NUL, from idx on. */
  predicate TextAt(strs: seq<Byte>, idx: int, s: seq<Byte>) {
    0 <= idx && idx + |s| < |strs| && strs[idx..idx + |s|] == s && strs[idx + |s|] == 0
  }

  function Sizes(items: seq<Value>): (ns: seq<nat>)
    ensures |ns| == |items|
  {
    if items == [] then [] else [Size(items[0])] + Sizes(items[1..])
  }

  function MemberSizes(members: seq<Member>): (ns: seq<nat>)
    ensures |ns| == |members|
  {
    if members == [] then [] else [Size(members[0].value)] + MemberSizes(members[1..])
  }

  function Total(ns: seq<nat>): nat {
    if ns == [] then 0 else ns[0] + Total(ns[1..])
  }

  /** Siblings of the given subtree sizes follow each other from `at` on, each linked to the next. */
  predicate Links(nodes: seq<Node>, at: nat, ns: seq<nat>)
    decreases |ns|
  {
    ns != [] ==>
      && ns[0] > 0 && at < |nodes|
      && nodes[at].next == (if |ns| == 1 then -1 else at + ns[0])
      && Links(nodes, at + ns[0], ns[1..])
  }

  /** The nodes from i on are the tree v in preorder. */
  predicate Rep(nodes: seq<Node>, strs: seq<Byte>, i: nat, v: Value)
    decreases v, 1
  {
    && i + Size(v) <= |nodes|
    && match v
       case Null => nodes[i].kind == KNull
       case Bool(b) => nodes[i].kind == KBool && nodes[i].boolean == b
       case Num(n) => nodes[i].kind == KNumber && nodes[i].num == n
       case Str(s) => nodes[i].kind == KString && TextAt(strs, nodes[i].str, s)
       case Arr(items) =>
         && nodes[i].kind == KArray && nodes[i].first == (if items == [] then -1 else i + 1)
         && Links(nodes, i + 1, Sizes(items)) && ItemsRep(nodes, strs, i + 1, items)
       case Obj(members) =>
         && nodes[i].kind == KObject && nodes[i].first == (if members == [] then -1 else i + 1)
         && Links(nodes, i + 1, MemberSizes(members)) && MembersRep(nodes, strs, i + 1, members)
  }

  predicate ItemsRep(nodes: seq<Node>, strs: seq<Byte>, at: nat, items: seq<Value>)
    decreases items, 2
  {
    items == [] || (Rep(nodes, strs, at, items[0]) && ItemsRep(nodes, strs, at + Size(items[0]), items[1..]))
  }

  predicate MembersRep(nodes: seq<Node>, strs: seq<Byte>, at: nat, members: seq<Member>)
    decreases members, 2
  {
    members != [] ==>
      && Rep(nodes, strs, at, members[0].value) && TextAt(strs, nodes[at].key, members[0].key)
      && MembersRep(nodes, strs, at + Size(members[0].value), members[1..])
  }

  lemma {:induction false} SizesTotal(items: seq<Value>)
    ensures Total(Sizes(items)) == ItemsSize(items)
    decreases items
  {
    if items != [] {
      SizesTotal(items[1..]);
      assert Sizes(items)[1..] == Sizes(items[1..]);
    }
  }

  lemma {:induction false} MemberSizesTotal(members: seq<Member>)
    ensures Total(MemberSizes(members)) == MembersSize(members)
    decreases members
  {
    if members != [] {
      MemberSizesTotal(members[1..]);
      assert MemberSizes(members)[1..] == MemberSizes(members[1..]);
    }
  }

  /* ---- frames ---- */

  /** Position j is the root of one of the sibling subtrees. */
  predicate RootOf(ns: seq<nat>, at: nat, j: nat)
    decreases |ns|
  {
    ns != [] && (j == at || RootOf(ns[1..], at + ns[0], j))
  }

  lemma {:induction false} RootBehind(ns: seq<nat>, at: nat, j: nat)
    requires RootOf(ns, at, j)
    ensures j >= at
    decreases |ns|
  {
    if j != at {
      RootBehind(ns[1..], at + ns[0], j);
    }
  }

  lemma RootInside(ns: seq<nat>, at: nat, j: nat)
    requires ns != [] && at < j < at + ns[0]
    ensures !RootOf(ns, at, j)
  {
    if RootOf(ns[1..], at + ns[0], j) {
      RootBehind(ns[1..], at + ns[0], j);
    }
  }

  /** Same tree content: links to later siblings and keys aside. */
  predicate SameNode(a: Node, b: Node) {
    a.(key := b.key, next := b.next) == b
  }

  lemma {:induction false} LinksFrame(nodes: seq<Node>, nodes2: seq<Node>, at: nat, ns: seq<nat>)
    requires Links(nodes, at, ns) && |nodes| <= |nodes2|
    requires forall j :: at <= j < at + Total(ns) && j < |nodes| ==> nodes2[j] == nodes[j]
    ensures Links(nodes2, at, ns)
    decreases |ns|
  {
    if ns != [] {
      LinksFrame(nodes, nodes2, at + ns[0], ns[1..]);
    }
  }

  lemma TextFrame(strs: seq<Byte>, strs2: seq<Byte>, idx: int, s: seq<Byte>)
    requires TextAt(strs, idx, s) && strs <= strs2
    ensures TextAt(strs2, idx, s)
  {
    assert strs2[..|strs|] == strs;
    assert strs2[idx..idx + |s|] == strs[idx..idx + |s|];
  }

  /** A tree stays where it is when nodes are added, strings are added, or its root gets a
      sibling or a key. */
  lemma RepFrame(nodes: seq<Node>, nodes2: seq<Node>, strs: seq<Byte>, strs2: seq<Byte>, i: nat, v: Value)
    requires Rep(nodes, strs, i, v) && |nodes| <= |nodes2| && strs <= strs2
    requires SameNode(nodes[i], nodes2[i])
    requires forall j :: i < j < i + Size(v) ==> nodes2[j] == nodes[j]
    ensures Rep(nodes2, strs2, i, v)
    decreases v, 1
  {
    hide TextAt, Links;
    match v
    case Str(s) => TextFrame(strs, strs2, nodes[i].str, s);
    case Arr(items) =>
      SizesTotal(items);
      LinksFrame(nodes, nodes2, i + 1, Sizes(items));
      ItemsFrame(nodes, nodes2, strs, strs2, i + 1, items);
    case Obj(members) =>
      MemberSizesTotal(members);
      LinksFrame(nodes, nodes2, i + 1, MemberSizes(members));
      MembersFrame(nodes, nodes2, strs, strs2, i + 1, members);
    case _ =>
  }

  lemma ItemsFrame(nodes: seq<Node>, nodes2: seq<Node>, strs: seq<Byte>, strs2: seq<Byte>, at: nat, items: seq<Value>)
    requires ItemsRep(nodes, strs, at, items) && |nodes| <= |nodes2| && strs <= strs2
    requires forall j :: at <= j < at + ItemsSize(items) && j < |nodes| ==> SameNode(nodes[j], nodes2[j])
    requires forall j :: at <= j < at + ItemsSize(items) && j < |nodes| ==>
               nodes2[j] == nodes[j] || RootOf(Sizes(items), at, j)
    ensures ItemsRep(nodes2, strs2, at, items)
    decreases items, 2
  {
    hide Rep;
    if items != [] {
      RepRoom(nodes, strs, at, items[0]);
      forall j | at < j < at + Size(items[0])
        ensures nodes2[j] == nodes[j]
      {
        RootInside(Sizes(items), at, j);
      }
      RepFrame(nodes, nodes2, strs, strs2, at, items[0]);
      forall j | at + Size(items[0]) <= j < at + ItemsSize(items) && j < |nodes| && nodes2[j] != nodes[j]
        ensures RootOf(Sizes(items[1..]), at + Size(items[0]), j)
      {
        assert Sizes(items)[1..] == Sizes(items[1..]);
      }
      ItemsFrame(nodes, nodes2, strs, strs2, at + Size(items[0]), items[1..]);
    }
  }

  lemma RepRoom(nodes: seq<Node>, strs: seq<Byte>, i: nat, v: Value)
    requires Rep(nodes, strs, i, v)
    ensures i + Size(v) <= |nodes|
  {
  }

  lemma MembersFrame(nodes: seq<Node>, nodes2: seq<Node>, strs: seq<Byte>, strs2: seq<Byte>, at: nat,
                     members: seq<Member>)
    requires MembersRep(nodes, strs, at, members) && |nodes| <= |nodes2| && strs <= strs2
    requires forall j :: at <= j < at + MembersSize(members) && j < |nodes| ==>
               nodes2[j].(next := nodes[j].next) == nodes[j]
    requires forall j :: at <= j < at + MembersSize(members) && j < |nodes| ==>
               nodes2[j] == nodes[j] || RootOf(MemberSizes(members), at, j)
    ensures MembersRep(nodes2, strs2, at, members)
    decreases members, 2
  {
    hide Rep, TextAt;
    if members != [] {
      var v := members[0].value;
      RepRoom(nodes, strs, at, v);
      forall j | at < j < at + Size(v)
        ensures nodes2[j] == nodes[j]
      {
        RootInside(MemberSizes(members), at, j);
      }
      RepFrame(nodes, nodes2, strs, strs2, at, v);
      TextFrame(strs, strs2, nodes[at].key, members[0].key);
      forall j | at + Size(v) <= j < at + MembersSize(members) && j < |nodes| && nodes2[j] != nodes[j]
        ensures RootOf(MemberSizes(members[1..]), at + Size(v), j)
      {
        assert MemberSizes(members)[1..] == MemberSizes(members[1..]);
      }
      MembersFrame(nodes, nodes2, strs, strs2, at + Size(v), members[1..]);
    }
  }
}
