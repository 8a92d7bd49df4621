/** Parsing the text of a tree gives back the tree. */
module JsonRoundTrip {
  import opened Mem
  import opened Json

  lemma HasSplit(t: seq<Byte>, pos: nat, a: seq<Byte>, b: seq<Byte>)
    ensures Has(t, pos, a + b) <==> Has(t, pos, a) && Has(t, pos + |a|, b)
  {
    if pos + |a| + |b| <= |t| {
      var w := t[pos..pos + |a| + |b|];
      assert w[..|a|] == t[pos..pos + |a|] && w[|a|..] == t[pos + |a|..pos + |a| + |b|];
      assert (a + b)[..|a|] == a && (a + b)[|a|..] == b;
    }
  }

  lemma HasAt(t: seq<Byte>, pos: nat, w: seq<Byte>, i: nat)
    requires Has(t, pos, w) && i < |w|
    ensures pos + i < |t| && t[pos + i] == w[i]
  {
    assert t[pos..pos + |w|][i] == t[pos + i];
  }

  /** What may follow a value: the end, or a character of the enclosing list. */
  predicate Stop(t: seq<Byte>, pos: nat) {
    pos == |t| || (pos < |t| && (t[pos] == COMMA || t[pos] == CLOSE_ARR || t[pos] == CLOSE_OBJ))
  }

  /* ---- strings ---- */

  lemma HexDigit(d: nat)
    requires d < 16
    ensures HexVal(Hex(d)) == d
  {
  }

  /** Reading the escape of one byte gives that byte. */
  lemma EscapeRead(t: seq<Byte>, pos: nat, c: Byte)
    requires Has(t, pos, Escape(c))
    ensures Literal(t, pos) == Prepend([c], Literal(t, pos + |Escape(c)|))
  {
    var e := Escape(c);
    HasAt(t, pos, e, 0);
    if |e| >= 2 {
      HasAt(t, pos, e, 1);
    }
    if |e| == 6 {
      HasAt(t, pos, e, 2);
      HasAt(t, pos, e, 3);
      HasAt(t, pos, e, 4);
      HasAt(t, pos, e, 5);
      HexDigit(c / 16);
      HexDigit(c % 16);
      assert Hex4(t, pos + 2) == c;
    }
  }

  lemma LiteralEnds(t: seq<Byte>, pos: nat)
    requires Has(t, pos, [QUOTE])
    ensures Literal(t, pos) == Run([], pos + 1)
  {
    HasAt(t, pos, [QUOTE], 0);
  }

  lemma {:induction false} LiteralRead(t: seq<Byte>, pos: nat, s: seq<Byte>)
    requires Has(t, pos, Escaped(s) + [QUOTE])
    ensures Literal(t, pos) == Run(s, pos + |Escaped(s)| + 1)
    decreases |s|
  {
    hide Escape, Literal, Has;
    if s == [] {
      assert Escaped(s) + [QUOTE] == [QUOTE];
      LiteralEnds(t, pos);
    } else {
      assert Escaped(s) + [QUOTE] == Escape(s[0]) + (Escaped(s[1..]) + [QUOTE]);
      HasSplit(t, pos, Escape(s[0]), Escaped(s[1..]) + [QUOTE]);
      EscapeRead(t, pos, s[0]);
      LiteralRead(t, pos + |Escape(s[0])|, s[1..]);
      assert [s[0]] + s[1..] == s;
    }
  }

  /** A quoted string, escapes included, is read back byte for byte. */
  lemma StringRead(t: seq<Byte>, pos: nat, s: seq<Byte>, nodes: nat)
    requires Has(t, pos, Quoted(s)) && |s| <= MAX_STRING
    ensures pos < |t| && t[pos] == QUOTE
    ensures ParseString(t, pos + 1, nodes) == Good(s, pos + |Quoted(s)|, nodes)
  {
    hide Literal, Escaped;
    assert Quoted(s) == [QUOTE] + (Escaped(s) + [QUOTE]);
    HasSplit(t, pos, [QUOTE], Escaped(s) + [QUOTE]);
    HasAt(t, pos, [QUOTE], 0);
    LiteralRead(t, pos + 1, s);
  }

  /* ---- numbers ---- */

  lemma {:induction false} DigitsRead(t: seq<Byte>, pos: nat, n: nat)
    requires Has(t, pos, Digits(n))
    ensures pos + |Digits(n)| <= |t| && Integer(t, pos, 0) == Integer(t, pos + |Digits(n)|, n)
    decreases n
  {
    if n < 10 {
      HasAt(t, pos, Digits(n), 0);
    } else {
      var d := Digits(n / 10);
      HasSplit(t, pos, d, [48 + n % 10]);
      DigitsRead(t, pos, n / 10);
      HasAt(t, pos + |d|, [48 + n % 10], 0);
      assert 10 * (n / 10) + n % 10 == n;
    }
  }

  lemma {:induction false} DigitsHead(n: nat)
    ensures n > 0 ==> Digits(n)[0] != 48
    ensures n == 0 ==> Digits(n) == [48]
    decreases n
  {
    if n >= 10 {
      DigitsHead(n / 10);
    }
  }

  lemma NaturalRead(t: seq<Byte>, pos: nat, n: nat)
    requires Has(t, pos, Digits(n)) && Stop(t, pos + |Digits(n)|)
    ensures IsDigit(t, pos)
    ensures (if t[pos] == 48 then (0, pos + 1) else Integer(t, pos, 0)) == (n, pos + |Digits(n)|)
  {
    HasAt(t, pos, Digits(n), 0);
    DigitsRead(t, pos, n);
    DigitsHead(n);
  }

  /** A plain integer is read back. */
  lemma NumberRead(t: seq<Byte>, pos: nat, n: real)
    requires Plain(n) && Has(t, pos, NumText(n)) && Stop(t, pos + |NumText(n)|)
    ensures ParseNumber(t, pos) == Good(n, pos + |NumText(n)|, 0)
    ensures pos < |t| && (t[pos] == 45 || 48 <= t[pos] <= 57)
  {
    hide Digits, Integer;
    if n < 0.0 {
      var d := Digits(-(n.Floor));
      HasSplit(t, pos, [45], d);
      HasAt(t, pos, [45], 0);
      NaturalRead(t, pos + 1, -(n.Floor));
    } else {
      NaturalRead(t, pos, n.Floor);
    }
  }

  /* ---- values ---- */

  /** No text starts with white space or a closing bracket. */
  lemma FirstByte(v: Value)
    requires Printable(v)
    ensures |Text(v)| > 0
    ensures var c := Text(v)[0]; !IsWs(c) && c != CLOSE_ARR && c != CLOSE_OBJ && c != COMMA
  {
  }

  lemma NoSpace(t: seq<Byte>, pos: nat)
    requires pos < |t| && !IsWs(t[pos])
    ensures SkipWs(t, pos) == pos
  {
  }

  lemma ValueRead(t: seq<Byte>, pos: nat, v: Value, depth: nat, nodes: nat)
    requires Printable(v) && Short(v) && Shallow(v, depth) && nodes + Size(v) <= MAX_NODES
    requires Has(t, pos, Text(v)) && Stop(t, pos + |Text(v)|)
    ensures pos <= |t|
    ensures ParseValue(t, pos, depth, nodes) == Good(v, pos + |Text(v)|, nodes + Size(v))
    decreases v, 1
  {
    FirstByte(v);
    HasAt(t, pos, Text(v), 0);
    NoSpace(t, pos);
    match v
    case Null =>
    case Bool(b) =>
    case Num(n) => NumberRead(t, pos, n);
    case Str(s) => StringRead(t, pos, s, nodes);
    case Arr(items) => ArrayRead(t, pos, v, depth, nodes);
    case Obj(members) => ObjectRead(t, pos, v, depth, nodes);
  }

  lemma ArrayRead(t: seq<Byte>, pos: nat, v: Value, depth: nat, nodes: nat)
    requires v.Arr? && Printable(v) && Short(v) && Shallow(v, depth) && nodes + Size(v) <= MAX_NODES
    requires Has(t, pos, Text(v)) && pos < |t| && t[pos] == OPEN_ARR && SkipWs(t, pos) == pos
    ensures ParseValue(t, pos, depth, nodes) == Good(v, pos + |Text(v)|, nodes + Size(v))
    decreases v, 0
  {
    hide ParseItems, ParseMembers, ItemsText, MembersText;
    var w := ItemsText(v.items) + [CLOSE_ARR];
    assert Text(v) == [OPEN_ARR] + w;
    HasSplit(t, pos, [OPEN_ARR], w);
    HasAt(t, pos + 1, w, 0);
    if v.items == [] {
      NoItems();
      NoSpace(t, pos + 1);
    } else {
      ItemsFirst(v.items);
      NoSpace(t, pos + 1);
      ItemsRead(t, pos + 1, v.items, depth, nodes + 1);
    }
  }

  lemma NoItems()
    ensures ItemsText([]) == [] && MembersText([]) == []
  {
  }

  lemma ItemsFirst(items: seq<Value>)
    requires items != [] && forall i :: 0 <= i < |items| ==> Printable(items[i])
    ensures |ItemsText(items)| > 0
    ensures var c := ItemsText(items)[0]; !IsWs(c) && c != CLOSE_ARR
  {
    FirstByte(items[0]);
  }

  lemma ItemsLast(t: seq<Byte>, pos: nat, depth: nat, nodes: nat, v: Value, p: nat, k: nat)
    requires pos <= |t| && nodes <= MAX_NODES && ParseValue(t, pos, depth + 1, nodes) == Good(v, p, k)
    requires p < |t| && t[p] == CLOSE_ARR
    ensures ParseItems(t, pos, depth, nodes) == Good([v], p + 1, k)
  {
    hide ParseValue;
    NoSpace(t, p);
  }

  lemma ItemsMore(t: seq<Byte>, pos: nat, depth: nat, nodes: nat, v: Value, p: nat, k: nat, more: seq<Value>,
                  next: nat, k2: nat)
    requires pos <= |t| && nodes <= MAX_NODES && ParseValue(t, pos, depth + 1, nodes) == Good(v, p, k)
    requires p < |t| && t[p] == COMMA && k <= MAX_NODES && ParseItems(t, p + 1, depth, k) == Good(more, next, k2)
    ensures ParseItems(t, pos, depth, nodes) == Good([v] + more, next, k2)
  {
    hide ParseValue;
    NoSpace(t, p);
  }

  lemma ItemsRead(t: seq<Byte>, pos: nat, items: seq<Value>, depth: nat, nodes: nat)
    requires items != [] && nodes + ItemsSize(items) <= MAX_NODES
    requires forall i :: 0 <= i < |items| ==> Printable(items[i]) && Short(items[i]) && Shallow(items[i], depth + 1)
    requires Has(t, pos, ItemsText(items) + [CLOSE_ARR])
    ensures pos <= |t|
    ensures ParseItems(t, pos, depth, nodes) == Good(items, pos + |ItemsText(items)| + 1, nodes + ItemsSize(items))
    decreases items, 0
  {
    hide ParseValue, ParseItems, Text, Has, Printable, Short, Shallow, Size;
    var v, w := items[0], Text(items[0]);
    if |items| == 1 {
      HasSplit(t, pos, w, [CLOSE_ARR]);
      HasAt(t, pos + |w|, [CLOSE_ARR], 0);
      assert items == [v] && items[1..] == [];
      ValueRead(t, pos, v, depth + 1, nodes);
      ItemsLast(t, pos, depth, nodes, v, pos + |w|, nodes + Size(v));
    } else {
      var more := ItemsText(items[1..]) + [CLOSE_ARR];
      assert ItemsText(items) + [CLOSE_ARR] == w + ([COMMA] + more);
      HasSplit(t, pos, w, [COMMA] + more);
      HasSplit(t, pos + |w|, [COMMA], more);
      HasAt(t, pos + |w|, [COMMA], 0);
      ValueRead(t, pos, v, depth + 1, nodes);
      var k := nodes + Size(v);
      ItemsRead(t, pos + |w| + 1, items[1..], depth, k);
      ItemsMore(t, pos, depth, nodes, v, pos + |w|, k, items[1..],
                pos + |w| + 1 + |ItemsText(items[1..])| + 1, k + ItemsSize(items[1..]));
      assert [v] + items[1..] == items;
    }
  }

  lemma ObjectRead(t: seq<Byte>, pos: nat, v: Value, depth: nat, nodes: nat)
    requires v.Obj? && Printable(v) && Short(v) && Shallow(v, depth) && nodes + Size(v) <= MAX_NODES
    requires Has(t, pos, Text(v)) && pos < |t| && t[pos] == OPEN_OBJ && SkipWs(t, pos) == pos
    ensures ParseValue(t, pos, depth, nodes) == Good(v, pos + |Text(v)|, nodes + Size(v))
    decreases v, 0
  {
    hide ParseItems, ParseMembers, ItemsText, MembersText;
    var w := MembersText(v.members) + [CLOSE_OBJ];
    assert Text(v) == [OPEN_OBJ] + w;
    HasSplit(t, pos, [OPEN_OBJ], w);
    HasAt(t, pos + 1, w, 0);
    if v.members == [] {
      NoItems();
      NoSpace(t, pos + 1);
    } else {
      MembersFirst(v.members);
      NoSpace(t, pos + 1);
      MembersRead(t, pos + 1, v.members, depth, nodes + 1);
    }
  }

  lemma MembersFirst(members: seq<Member>)
    requires members != [] && forall i :: 0 <= i < |members| ==> Printable(members[i].value)
    ensures |MembersText(members)| > 0 && MembersText(members)[0] == QUOTE
  {
  }

  lemma MemberRead(t: seq<Byte>, pos: nat, m: Member, depth: nat, nodes: nat)
    requires Printable(m.value) && Short(m.value) && Shallow(m.value, depth + 1) && |m.key| <= MAX_STRING
    requires nodes + Size(m.value) <= MAX_NODES
    requires Has(t, pos, MemberText(m)) && Stop(t, pos + |MemberText(m)|)
    ensures pos <= |t|
    ensures ParseMember(t, pos, depth, nodes) == Good(m, pos + |MemberText(m)|, nodes + Size(m.value))
    decreases m, 2
  {
    hide ParseValue, Text, Quoted, ParseString;
    var q := Quoted(m.key);
    assert MemberText(m) == q + ([COLON] + Text(m.value));
    HasSplit(t, pos, q, [COLON] + Text(m.value));
    HasSplit(t, pos + |q|, [COLON], Text(m.value));
    HasAt(t, pos + |q|, [COLON], 0);
    StringRead(t, pos, m.key, nodes);
    NoSpace(t, pos + |q|);
    ValueRead(t, pos + |q| + 1, m.value, depth + 1, nodes);
  }

  lemma MembersLast(t: seq<Byte>, pos: nat, depth: nat, nodes: nat, v: Member, p: nat, k: nat)
    requires pos <= |t| && nodes <= MAX_NODES && ParseMember(t, pos, depth, nodes) == Good(v, p, k)
    requires p < |t| && t[p] == CLOSE_OBJ
    ensures ParseMembers(t, pos, depth, nodes) == Good([v], p + 1, k)
  {
    hide ParseMember;
    NoSpace(t, p);
  }

  lemma MembersMore(t: seq<Byte>, pos: nat, depth: nat, nodes: nat, v: Member, p: nat, k: nat, more: seq<Member>,
                    next: nat, k2: nat)
    requires pos <= |t| && nodes <= MAX_NODES && ParseMember(t, pos, depth, nodes) == Good(v, p, k)
    requires p < |t| && t[p] == COMMA && k <= MAX_NODES && ParseMembers(t, p + 1, depth, k) == Good(more, next, k2)
    ensures ParseMembers(t, pos, depth, nodes) == Good([v] + more, next, k2)
  {
    hide ParseMember;
    NoSpace(t, p);
  }

  lemma MembersRead(t: seq<Byte>, pos: nat, members: seq<Member>, depth: nat, nodes: nat)
    requires members != [] && nodes + MembersSize(members) <= MAX_NODES
    requires forall i :: 0 <= i < |members| ==>
               Printable(members[i].value) && Short(members[i].value) && Shallow(members[i].value, depth + 1)
               && |members[i].key| <= MAX_STRING
    requires Has(t, pos, MembersText(members) + [CLOSE_OBJ])
    ensures pos <= |t|
    ensures ParseMembers(t, pos, depth, nodes)
            == Good(members, pos + |MembersText(members)| + 1, nodes + MembersSize(members))
    decreases members, 0
  {
    hide ParseMember, ParseMembers, MemberText, Has;
    var m, w := members[0], MemberText(members[0]);
    if |members| == 1 {
      HasSplit(t, pos, w, [CLOSE_OBJ]);
      HasAt(t, pos + |w|, [CLOSE_OBJ], 0);
      assert members == [m] && members[1..] == [];
      MemberRead(t, pos, m, depth, nodes);
      MembersLast(t, pos, depth, nodes, m, pos + |w|, nodes + Size(m.value));
    } else {
      var more := MembersText(members[1..]) + [CLOSE_OBJ];
      assert MembersText(members) + [CLOSE_OBJ] == w + ([COMMA] + more);
      HasSplit(t, pos, w, [COMMA] + more);
      HasSplit(t, pos + |w|, [COMMA], more);
      HasAt(t, pos + |w|, [COMMA], 0);
      MemberRead(t, pos, m, depth, nodes);
      var k := nodes + Size(m.value);
      MembersRead(t, pos + |w| + 1, members[1..], depth, k);
      MembersMore(t, pos, depth, nodes, m, pos + |w|, k, members[1..],
                  pos + |w| + 1 + |MembersText(members[1..])| + 1, k + MembersSize(members[1..]));
      assert [m] + members[1..] == members;
    }
  }

  /* ---- what the parser lets through ---- */

  /** Every parsed value is within the depth and string limits. */
  lemma {:induction false} ValueWithin(t: seq<Byte>, pos: nat, depth: nat, nodes: nat)
    requires pos <= |t| && ParseValue(t, pos, depth, nodes).Good?
    ensures var v := ParseValue(t, pos, depth, nodes).value; Short(v) && Shallow(v, depth)
    decreases |t| - pos, 1
  {
    hide ParseItems, ParseMembers, ParseNumber, ParseString;
    var p := SkipWs(t, pos);
    var q := SkipWs(t, p + 1);
    if t[p] == OPEN_ARR && !(q < |t| && t[q] == CLOSE_ARR) {
      ItemsWithin(t, q, depth, nodes + 1);
    } else if t[p] == OPEN_OBJ && !(q < |t| && t[q] == CLOSE_OBJ) {
      MembersWithin(t, q, depth, nodes + 1);
    } else if t[p] == QUOTE {
      StringWithin(t, p + 1, nodes);
    }
  }

  lemma StringWithin(t: seq<Byte>, pos: nat, nodes: nat)
    ensures ParseString(t, pos, nodes).Good? ==> |ParseString(t, pos, nodes).value| <= MAX_STRING
  {
  }

  lemma {:induction false} ItemsWithin(t: seq<Byte>, pos: nat, depth: nat, nodes: nat)
    requires pos <= |t| && nodes <= MAX_NODES && ParseItems(t, pos, depth, nodes).Good?
    ensures forall v :: v in ParseItems(t, pos, depth, nodes).value ==> Short(v) && Shallow(v, depth + 1)
    decreases |t| - pos, 2
  {
    hide ParseValue, Short, Shallow;
    ValueWithin(t, pos, depth + 1, nodes);
    var r := ParseValue(t, pos, depth + 1, nodes);
    var q := SkipWs(t, r.pos);
    if q < |t| && t[q] == COMMA {
      ItemsWithin(t, q + 1, depth, r.nodes);
    }
  }

  lemma {:induction false} MembersWithin(t: seq<Byte>, pos: nat, depth: nat, nodes: nat)
    requires pos <= |t| && nodes <= MAX_NODES && ParseMembers(t, pos, depth, nodes).Good?
    ensures forall m :: m in ParseMembers(t, pos, depth, nodes).value ==>
              |m.key| <= MAX_STRING && Short(m.value) && Shallow(m.value, depth + 1)
    decreases |t| - pos, 3
  {
    hide ParseValue, ParseMember, Short, Shallow;
    MemberWithin(t, pos, depth, nodes);
    var r := ParseMember(t, pos, depth, nodes);
    var q := SkipWs(t, r.pos);
    if q < |t| && t[q] == COMMA {
      MembersWithin(t, q + 1, depth, r.nodes);
    }
  }

  lemma {:induction false} MemberWithin(t: seq<Byte>, pos: nat, depth: nat, nodes: nat)
    requires pos <= |t| && nodes <= MAX_NODES && ParseMember(t, pos, depth, nodes).Good?
    ensures var m := ParseMember(t, pos, depth, nodes).value;
            |m.key| <= MAX_STRING && Short(m.value) && Shallow(m.value, depth + 1)
    decreases |t| - pos, 2
  {
    hide ParseValue, ParseString, Short, Shallow;
    StringWithin(t, pos + 1, nodes);
    var s := ParseString(t, pos + 1, nodes);
    ValueWithin(t, SkipWs(t, s.pos) + 1, depth + 1, nodes);
  }

  /* ---- the round trip ---- */

  /** Within the depth, node and string limits. */
  predicate Within(v: Value) {
    Short(v) && Shallow(v, 0) && Size(v) <= MAX_NODES
  }

  /** parse(serialize(v)) == v for every tree within the limits, with integers of at most
      seven digits. */
  lemma RoundTrip(v: Value)
    requires Printable(v) && Within(v)
    ensures Parse(Text(v)) == Good(v, |Text(v)|, Size(v))
  {
    hide ParseValue, Text, Size;
    var t := Text(v);
    assert t[0..|t|] == t;
    ValueRead(t, 0, v, 0, 0);
  }

  /** Whatever parses is within the limits. */
  lemma ParsedWithin(t: seq<Byte>)
    requires Parse(t).Good?
    ensures Within(Parse(t).value)
  {
    hide ParseValue, Short, Shallow, Size;
    ValueWithin(t, 0, 0, 0);
  }

  /** So the limits are exact, and what was parsed survives being written and parsed again. */
  lemma RoundTripExactly(v: Value)
    requires Printable(v)
    ensures Parse(Text(v)) == Good(v, |Text(v)|, Size(v)) <==> Within(v)
  {
    hide Parse, Text, Size, Within;
    if Within(v) {
      RoundTrip(v);
    }
    if Parse(Text(v)) == Good(v, |Text(v)|, Size(v)) {
      ParsedWithin(Text(v));
    }
  }
}
