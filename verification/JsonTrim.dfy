/** What survives in a NUL-terminated arena: the writer takes every string up to its first
    NUL byte (`strlen` in gateway/json.c). */
module JsonTrim {
  import opened Mem
  import opened Json
  import opened JsonRoundTrip

  /** The bytes before the first NUL. */
  function Cut(s: seq<Byte>): (c: seq<Byte>)
    ensures |c| <= |s| && c == s[..|c|] && 0 !in c
    ensures |c| < |s| ==> s[|c|] == 0
  {
    if s == [] || s[0] == 0 then [] else [s[0]] + Cut(s[1..])
  }

  /** The tree with every string and key cut at its first NUL. */
  function Trim(v: Value): Value
    decreases v
  {
    match v
    case Str(s) => Str(Cut(s))
    case Arr(items) => Arr(TrimItems(items))
    case Obj(members) => Obj(TrimMembers(members))
    case _ => v
  }

  function TrimItems(items: seq<Value>): (r: seq<Value>)
    ensures |r| == |items|
    decreases items
  {
    if items == [] then [] else [Trim(items[0])] + TrimItems(items[1..])
  }

  function TrimMember(m: Member): Member
    decreases m
  {
    Member(Cut(m.key), Trim(m.value))
  }

  function TrimMembers(members: seq<Member>): (r: seq<Member>)
    ensures |r| == |members|
    decreases members
  {
    if members == [] then [] else [TrimMember(members[0])] + TrimMembers(members[1..])
  }

  predicate NulFree(v: Value)
    decreases v
  {
    match v
    case Str(s) => 0 !in s
    case Arr(items) => forall i :: 0 <= i < |items| ==> NulFree(items[i])
    case Obj(members) => forall i :: 0 <= i < |members| ==> 0 !in members[i].key && NulFree(members[i].value)
    case _ => true
  }

  lemma {:induction false} TrimItem(items: seq<Value>, i: nat)
    requires i < |items|
    ensures TrimItems(items)[i] == Trim(items[i])
    decreases i
  {
    hide Trim;
    if i > 0 {
      TrimItem(items[1..], i - 1);
    }
  }

  lemma {:induction false} TrimMemberAt(members: seq<Member>, i: nat)
    requires i < |members|
    ensures TrimMembers(members)[i] == TrimMember(members[i])
    decreases i
  {
    hide TrimMember;
    if i > 0 {
      TrimMemberAt(members[1..], i - 1);
    }
  }

  /** Cutting strings keeps numbers, nesting and lengths within their limits. */
  lemma {:induction false} TrimWithin(v: Value, d: nat)
    ensures Printable(v) ==> Printable(Trim(v))
    ensures Short(v) ==> Short(Trim(v))
    ensures Shallow(v, d) ==> Shallow(Trim(v), d)
    decreases v
  {
    hide TrimItems, TrimMembers;
    match v
    case Arr(items) =>
      forall i | 0 <= i < |items|
        ensures TrimItems(items)[i] == Trim(items[i])
        ensures Printable(items[i]) ==> Printable(TrimItems(items)[i])
        ensures Short(items[i]) ==> Short(TrimItems(items)[i])
        ensures Shallow(items[i], d + 1) ==> Shallow(TrimItems(items)[i], d + 1)
      {
        TrimItem(items, i);
        TrimWithin(items[i], d + 1);
      }
    case Obj(members) =>
      forall i | 0 <= i < |members|
        ensures TrimMembers(members)[i] == TrimMember(members[i])
        ensures Printable(members[i].value) ==> Printable(TrimMembers(members)[i].value)
        ensures Short(members[i].value) ==> Short(TrimMembers(members)[i].value)
        ensures Shallow(members[i].value, d + 1) ==> Shallow(TrimMembers(members)[i].value, d + 1)
      {
        TrimMemberAt(members, i);
        TrimWithin(members[i].value, d + 1);
      }
    case _ =>
  }

  lemma {:induction false} TrimSize(v: Value)
    ensures Size(Trim(v)) == Size(v)
    decreases v, 1
  {
    match v
    case Arr(items) => TrimItemsSize(items);
    case Obj(members) => TrimMembersSize(members);
    case _ =>
  }

  lemma {:induction false} TrimItemsSize(items: seq<Value>)
    ensures ItemsSize(TrimItems(items)) == ItemsSize(items)
    decreases items, 0
  {
    hide Trim, Size;
    if items != [] {
      TrimSize(items[0]);
      TrimItemsSize(items[1..]);
      assert TrimItems(items)[1..] == TrimItems(items[1..]);
    }
  }

  lemma {:induction false} TrimMembersSize(members: seq<Member>)
    ensures MembersSize(TrimMembers(members)) == MembersSize(members)
    decreases members, 0
  {
    hide Trim, Size;
    if members != [] {
      TrimSize(members[0].value);
      TrimMembersSize(members[1..]);
      assert TrimMembers(members)[1..] == TrimMembers(members[1..]);
    }
  }

  /** Nothing is cut exactly when no string holds a NUL. */
  lemma {:induction false} TrimSame(v: Value)
    ensures Trim(v) == v <==> NulFree(v)
    decreases v
  {
    hide TrimItems, TrimMembers;
    match v
    case Arr(items) =>
      forall i | 0 <= i < |items|
        ensures TrimItems(items)[i] == items[i] <==> NulFree(items[i])
      {
        TrimItem(items, i);
        TrimSame(items[i]);
      }
      assert TrimItems(items) == items <==> forall i :: 0 <= i < |items| ==> TrimItems(items)[i] == items[i];
    case Obj(members) =>
      forall i | 0 <= i < |members|
        ensures TrimMembers(members)[i] == members[i] <==> 0 !in members[i].key && NulFree(members[i].value)
      {
        TrimMemberAt(members, i);
        TrimSame(members[i].value);
        CutSame(members[i].key);
      }
      assert TrimMembers(members) == members
        <==> forall i :: 0 <= i < |members| ==> TrimMembers(members)[i] == members[i];
    case Str(s) => CutSame(s);
    case _ =>
  }

  lemma CutSame(s: seq<Byte>)
    ensures Cut(s) == s <==> 0 !in s
  {
    hide Cut;
  }

  lemma {:induction false} ItemsPrintable(items: seq<Value>)
    requires forall i :: 0 <= i < |items| ==> Printable(items[i])
    ensures forall i :: 0 <= i < |items| ==> Printable(TrimItems(items)[i])
  {
    hide Printable, Trim, TrimItems;
    forall i | 0 <= i < |items|
      ensures Printable(TrimItems(items)[i])
    {
      TrimItem(items, i);
      TrimWithin(items[i], 0);
    }
  }

  lemma {:induction false} MembersPrintable(members: seq<Member>)
    requires forall i :: 0 <= i < |members| ==> Printable(members[i].value)
    ensures forall i :: 0 <= i < |members| ==> Printable(TrimMembers(members)[i].value)
  {
    hide Printable, Trim, TrimMembers;
    forall i | 0 <= i < |members|
      ensures Printable(TrimMembers(members)[i].value)
    {
      TrimMemberAt(members, i);
      TrimWithin(members[i].value, 0);
    }
  }

  /** What the writer makes of a tree in the arena. */
  function Written(v: Value): seq<Byte>
    requires Printable(v)
  {
    TrimWithin(v, 0);
    Text(Trim(v))
  }

  function WrittenItems(items: seq<Value>): seq<Byte>
    requires forall i :: 0 <= i < |items| ==> Printable(items[i])
  {
    ItemsPrintable(items);
    ItemsText(TrimItems(items))
  }

  function WrittenMember(m: Member): seq<Byte>
    requires Printable(m.value)
  {
    TrimWithin(m.value, 0);
    MemberText(TrimMember(m))
  }

  function WrittenMembers(members: seq<Member>): seq<Byte>
    requires forall i :: 0 <= i < |members| ==> Printable(members[i].value)
  {
    MembersPrintable(members);
    MembersText(TrimMembers(members))
  }

  lemma WrittenStep(items: seq<Value>)
    requires forall i :: 0 <= i < |items| ==> Printable(items[i])
    ensures items == [] ==> WrittenItems(items) == []
    ensures |items| == 1 ==> WrittenItems(items) == Written(items[0])
    ensures |items| > 1 ==> WrittenItems(items) == Written(items[0]) + [COMMA] + WrittenItems(items[1..])
  {
    hide Text, Trim, Printable;
    if items != [] {
      ItemsPrintable(items);
      assert TrimItems(items)[1..] == TrimItems(items[1..]);
    }
  }

  lemma WrittenMembersStep(members: seq<Member>)
    requires forall i :: 0 <= i < |members| ==> Printable(members[i].value)
    ensures members == [] ==> WrittenMembers(members) == []
    ensures |members| == 1 ==> WrittenMembers(members) == WrittenMember(members[0])
    ensures |members| > 1 ==>
              WrittenMembers(members) == WrittenMember(members[0]) + [COMMA] + WrittenMembers(members[1..])
  {
    hide MemberText, TrimMember, Printable;
    if members != [] {
      MembersPrintable(members);
      assert TrimMembers(members)[1..] == TrimMembers(members[1..]);
    }
  }

  /** The escape of NUL is accepted on input; the string then comes out empty. */
  lemma NulLost()
    ensures var t := [QUOTE, BACKSLASH, 117, 48, 48, 48, 48, QUOTE];
            Parse(t) == Good(Str([0]), 8, 1) && Written(Str([0])) == [QUOTE, QUOTE]
  {
    var t := [QUOTE, BACKSLASH, 117, 48, 48, 48, 48, QUOTE];
    assert Escaped([0]) == Escape(0) + Escaped([]);
    assert Quoted([0]) == t;
    assert Text(Str([0])) == t;
    RoundTrip(Str([0]));
    assert Cut([0]) == [] && Quoted([]) == [QUOTE, QUOTE];
  }
}
