/** The JSON of gateway/json.c as functions: the text of a tree, and the recursive-descent
    parser over the bytes of a text with its depth and node limits. */
module Json {
  import opened Mem

  const MAX_DEPTH: nat := 32
  const MAX_NODES: nat := 8192
  const MAX_STRING: nat := 0x10_0000

  datatype Value =
    | Null
    | Bool(b: bool)
    | Num(n: real)
    | Str(s: seq<Byte>)
    | Arr(items: seq<Value>)
    | Obj(members: seq<Member>)
  datatype Member = Member(key: seq<Byte>, value: Value)

  /** What a parsing step yields: a value, the position behind it and the number of nodes
      made so far; or the reason for giving up. */
  datatype Parsed<T> = Good(value: T, pos: nat, nodes: nat) | Bad(status: Status)

  const QUOTE: Byte := 34
  const COMMA: Byte := 44
  const COLON: Byte := 58
  const OPEN_ARR: Byte := 91
  const BACKSLASH: Byte := 92
  const CLOSE_ARR: Byte := 93
  const OPEN_OBJ: Byte := 123
  const CLOSE_OBJ: Byte := 125

  /* ---- the writer ---- */

  function Hex(d: nat): Byte
    requires d < 16
  {
    if d < 10 then 48 + d else 87 + d
  }

  /** The escape of one byte in `pai_json_quote`. */
  function Escape(c: Byte): (e: seq<Byte>)
    ensures |e| >= 1
  {
    if c == QUOTE then [BACKSLASH, QUOTE]
    else if c == BACKSLASH then [BACKSLASH, BACKSLASH]
    else if c == 8 then [BACKSLASH, 98]
    else if c == 12 then [BACKSLASH, 102]
    else if c == 10 then [BACKSLASH, 110]
    else if c == 13 then [BACKSLASH, 114]
    else if c == 9 then [BACKSLASH, 116]
    else if c < 32 then [BACKSLASH, 117, 48, 48, Hex(c / 16), Hex(c % 16)]
    else [c]
  }

  function Escaped(s: seq<Byte>): seq<Byte> {
    if s == [] then [] else Escape(s[0]) + Escaped(s[1..])
  }

  function Quoted(s: seq<Byte>): seq<Byte> {
    [QUOTE] + Escaped(s) + [QUOTE]
  }

  /** Decimal digits of a natural number. */
  function Digits(n: nat): (d: seq<Byte>)
    ensures |d| >= 1 && forall i :: 0 <= i < |d| ==> 48 <= d[i] <= 57
  {
    if n < 10 then [48 + n] else Digits(n / 10) + [48 + n % 10]
  }

  /** The numbers "%.7g" prints as plain integers. */
  predicate Plain(n: real) {
    n.Floor as real == n && -10_000_000.0 < n < 10_000_000.0
  }

  function NumText(n: real): seq<Byte>
    requires Plain(n)
  {
    if n < 0.0 then [45] + Digits(-(n.Floor)) else Digits(n.Floor)
  }

  /** Trees whose numbers print as plain integers. */
  predicate Printable(v: Value) {
    match v
    case Num(n) => Plain(n)
    case Arr(items) => forall i :: 0 <= i < |items| ==> Printable(items[i])
    case Obj(members) => forall i :: 0 <= i < |members| ==> Printable(members[i].value)
    case _ => true
  }

  function TrueText(): seq<Byte> { [116, 114, 117, 101] }

  function FalseText(): seq<Byte> { [102, 97, 108, 115, 101] }

  function NullText(): seq<Byte> { [110, 117, 108, 108] }

  /** `pai_json_serialize`. */
  function Text(v: Value): seq<Byte>
    requires Printable(v)
    decreases v
  {
    match v
    case Null => NullText()
    case Bool(b) => if b then TrueText() else FalseText()
    case Num(n) => NumText(n)
    case Str(s) => Quoted(s)
    case Arr(items) => [OPEN_ARR] + ItemsText(items) + [CLOSE_ARR]
    case Obj(members) => [OPEN_OBJ] + MembersText(members) + [CLOSE_OBJ]
  }

  function ItemsText(items: seq<Value>): seq<Byte>
    requires forall i :: 0 <= i < |items| ==> Printable(items[i])
    decreases items
  {
    if items == [] then []
    else if |items| == 1 then Text(items[0])
    else Text(items[0]) + [COMMA] + ItemsText(items[1..])
  }

  function MemberText(m: Member): seq<Byte>
    requires Printable(m.value)
    decreases m
  {
    Quoted(m.key) + [COLON] + Text(m.value)
  }

  function MembersText(members: seq<Member>): seq<Byte>
    requires forall i :: 0 <= i < |members| ==> Printable(members[i].value)
    decreases members
  {
    if members == [] then []
    else if |members| == 1 then MemberText(members[0])
    else MemberText(members[0]) + [COMMA] + MembersText(members[1..])
  }

  /* ---- the limits ---- */

  function Size(v: Value): (n: nat)
    ensures n >= 1
    decreases v
  {
    match v
    case Arr(items) => 1 + ItemsSize(items)
    case Obj(members) => 1 + MembersSize(members)
    case _ => 1
  }

  function ItemsSize(items: seq<Value>): nat
    decreases items
  {
    if items == [] then 0 else Size(items[0]) + ItemsSize(items[1..])
  }

  function MembersSize(members: seq<Member>): nat
    decreases members
  {
    if members == [] then 0 else Size(members[0].value) + MembersSize(members[1..])
  }

  /** Nesting below depth d stays within the limit. */
  predicate Shallow(v: Value, d: nat)
    decreases v
  {
    d <= MAX_DEPTH &&
    match v
    case Arr(items) => forall i :: 0 <= i < |items| ==> Shallow(items[i], d + 1)
    case Obj(members) => forall i :: 0 <= i < |members| ==> Shallow(members[i].value, d + 1)
    case _ => true
  }

  /** Strings and keys within the size limit. */
  predicate Short(v: Value)
    decreases v
  {
    match v
    case Str(s) => |s| <= MAX_STRING
    case Arr(items) => forall i :: 0 <= i < |items| ==> Short(items[i])
    case Obj(members) => forall i :: 0 <= i < |members| ==> |members[i].key| <= MAX_STRING && Short(members[i].value)
    case _ => true
  }

  /* ---- the parser ---- */

  predicate IsWs(c: Byte) {
    c == 32 || c == 9 || c == 10 || c == 13
  }

  function SkipWs(t: seq<Byte>, pos: nat): (p: nat)
    requires pos <= |t|
    ensures pos <= p <= |t|
    decreases |t| - pos
  {
    if pos < |t| && IsWs(t[pos]) then SkipWs(t, pos + 1) else pos
  }

  /** `hex_val`, or -1. */
  function HexVal(c: Byte): (h: int)
    ensures -1 <= h < 16
  {
    if 48 <= c <= 57 then c - 48 else if 97 <= c <= 102 then c - 87 else if 65 <= c <= 70 then c - 55 else -1
  }

  /** Four hex digits at pos, or -1. */
  function Hex4(t: seq<Byte>, pos: nat): (h: int)
    ensures -1 <= h < 0x1_0000
    ensures h >= 0 ==> pos + 4 <= |t|
  {
    if pos + 4 <= |t| && HexVal(t[pos]) >= 0 && HexVal(t[pos + 1]) >= 0 && HexVal(t[pos + 2]) >= 0
       && HexVal(t[pos + 3]) >= 0
    then 0x1000 * HexVal(t[pos]) + 0x100 * HexVal(t[pos + 1]) + 0x10 * HexVal(t[pos + 2]) + HexVal(t[pos + 3])
    else -1
  }

  /** `utf8_encode`. */
  function Utf8(u: nat): (b: seq<Byte>)
    requires u < 0x11_0000
    ensures 1 <= |b| <= 4
  {
    if u < 0x80 then [u]
    else if u < 0x800 then [0xC0 + u / 0x40, 0x80 + u % 0x40]
    else if u < 0x1_0000 then [0xE0 + u / 0x1000, 0x80 + u / 0x40 % 0x40, 0x80 + u % 0x40]
    else [0xF0 + u / 0x4_0000, 0x80 + u / 0x1000 % 0x40, 0x80 + u / 0x40 % 0x40, 0x80 + u % 0x40]
  }

  /** The code point of the escape whose four digits start at pos, and the position behind it:
      surrogate pairs are joined, lone surrogates replaced. */
  function CodePoint(t: seq<Byte>, pos: nat): (r: (nat, nat))
    requires Hex4(t, pos) >= 0
    ensures r.0 < 0x11_0000 && pos < r.1 <= |t|
  {
    var cp := Hex4(t, pos);
    var next := pos + 4;
    if 0xD800 <= cp <= 0xDBFF then
      if next + 6 <= |t| && t[next] == BACKSLASH && t[next + 1] == 117 then
        var lo := Hex4(t, next + 2);
        if 0xDC00 <= lo <= 0xDFFF then (0x1_0000 + (cp - 0xD800) * 0x400 + (lo - 0xDC00), next + 6)
        else (0xFFFD, next)
      else (0xFFFD, next)
    else if 0xDC00 <= cp <= 0xDFFF then (0xFFFD, next)
    else (cp, next)
  }

  /** The byte a simple escape stands for, or -1. */
  function Unescape(c: Byte): (e: int)
    ensures -1 <= e < 256
  {
    if c == QUOTE || c == BACKSLASH || c == 47 then c
    else if c == 98 then 8
    else if c == 102 then 12
    else if c == 110 then 10
    else if c == 114 then 13
    else if c == 116 then 9
    else -1
  }

  datatype Bytes = Run(bytes: seq<Byte>, pos: nat) | NoString

  function Prepend(p: seq<Byte>, r: Bytes): Bytes {
    match r
    case NoString => NoString
    case Run(b, pos) => Run(p + b, pos)
  }

  /** The rest of a string literal from pos on, up to and over its closing quote. */
  function Literal(t: seq<Byte>, pos: nat): (r: Bytes)
    ensures r.Run? ==> pos < r.pos <= |t|
    decreases |t| - pos
  {
    if pos >= |t| then NoString
    else if t[pos] == QUOTE then Run([], pos + 1)
    else if t[pos] == BACKSLASH then
      if pos + 1 >= |t| then NoString
      else if t[pos + 1] == 117 then
        if Hex4(t, pos + 2) < 0 then NoString
        else
          var (cp, next) := CodePoint(t, pos + 2);
          Prepend(Utf8(cp), Literal(t, next))
      else if Unescape(t[pos + 1]) < 0 then NoString
      else Prepend([Unescape(t[pos + 1])], Literal(t, pos + 2))
    else if t[pos] < 32 then NoString
    else Prepend([t[pos]], Literal(t, pos + 1))
  }

  /** `parse_string`, behind the opening quote. */
  function ParseString(t: seq<Byte>, pos: nat, nodes: nat): (r: Parsed<seq<Byte>>)
    ensures r.Bad? ==> r.status != Ok
    ensures r.Good? ==> pos < r.pos <= |t| && r.nodes == nodes
  {
    match Literal(t, pos)
    case NoString => Bad(Protocol)
    case Run(b, next) => if |b| > MAX_STRING then Bad(NoMem) else Good(b, next, nodes)
  }

  predicate IsDigit(t: seq<Byte>, pos: nat) {
    pos < |t| && 48 <= t[pos] <= 57
  }

  /** Digits from pos on, appended to v. */
  function Integer(t: seq<Byte>, pos: nat, v: nat): (r: (nat, nat))
    requires pos <= |t|
    ensures pos <= r.1 <= |t|
    decreases |t| - pos
  {
    if IsDigit(t, pos) then Integer(t, pos + 1, 10 * v + (t[pos] - 48)) else (v, pos)
  }

  function Fraction(t: seq<Byte>, pos: nat, v: real, scale: real): (r: (real, nat))
    requires pos <= |t|
    ensures pos <= r.1 <= |t|
    decreases |t| - pos
  {
    if IsDigit(t, pos) then Fraction(t, pos + 1, v + (t[pos] - 48) as real * scale, scale * 0.1) else (v, pos)
  }

  function Pow10(e: nat): real {
    if e == 0 then 1.0 else 10.0 * Pow10(e - 1)
  }

  lemma Pow10Positive(e: nat)
    ensures Pow10(e) > 0.0
  {
  }

  /** Exponent digits; none once the value passes 300. */
  function Exponent(t: seq<Byte>, pos: nat, e: nat): (r: Parsed<nat>)
    requires pos <= |t|
    ensures r.Bad? ==> r.status == Protocol
    ensures r.Good? ==> pos <= r.pos <= |t|
    decreases |t| - pos
  {
    if IsDigit(t, pos) then
      if 10 * e + (t[pos] - 48) > 300 then Bad(Protocol) else Exponent(t, pos + 1, 10 * e + (t[pos] - 48))
    else Good(e, pos, 0)
  }

  /** The optional exponent of a number whose mantissa is v. */
  function WithExponent(t: seq<Byte>, pos: nat, v: real): (r: Parsed<real>)
    requires pos <= |t|
    ensures r.Bad? ==> r.status == Protocol
    ensures r.Good? ==> pos <= r.pos <= |t|
  {
    if pos < |t| && (t[pos] == 101 || t[pos] == 69) then
      var sign := pos + 1 < |t| && (t[pos + 1] == 43 || t[pos + 1] == 45);
      var start := if sign then pos + 2 else pos + 1;
      if !IsDigit(t, start) then Bad(Protocol)
      else match Exponent(t, start, 0)
        case Bad(st) => Bad(st)
        case Good(e, next, _) =>
          Pow10Positive(e);
          Good(if sign && t[pos + 1] == 45 then v / Pow10(e) else v * Pow10(e), next, 0)
    else Good(v, pos, 0)
  }

  /** The optional fraction and exponent. */
  function WithFraction(t: seq<Byte>, pos: nat, v: nat): (r: Parsed<real>)
    requires pos <= |t|
    ensures r.Bad? ==> r.status == Protocol
    ensures r.Good? ==> pos <= r.pos <= |t|
  {
    if pos < |t| && t[pos] == 46 then
      if !IsDigit(t, pos + 1) then Bad(Protocol)
      else
        var (w, next) := Fraction(t, pos + 1, v as real, 0.1);
        WithExponent(t, next, w)
    else WithExponent(t, pos, v as real)
  }

  /** `parse_number`, over exact reals. */
  function ParseNumber(t: seq<Byte>, pos: nat): (r: Parsed<real>)
    requires pos <= |t|
    ensures r.Bad? ==> r.status == Protocol
    ensures r.Good? ==> pos < r.pos <= |t|
  {
    var neg := pos < |t| && t[pos] == 45;
    var start := if neg then pos + 1 else pos;
    if !IsDigit(t, start) then Bad(Protocol)
    else
      var (v, next) := if t[start] == 48 then (0, start + 1) else Integer(t, start, 0);
      DigitRead(t, start);
      match WithFraction(t, next, v)
      case Bad(st) => Bad(st)
      case Good(w, end, _) => Good(if neg then -w else w, end, 0)
  }

  lemma DigitRead(t: seq<Byte>, pos: nat)
    requires IsDigit(t, pos)
    ensures Integer(t, pos, 0).1 > pos
  {
  }

  /** `memcmp` with a keyword. */
  predicate Has(t: seq<Byte>, pos: nat, w: seq<Byte>) {
    pos + |w| <= |t| && t[pos..pos + |w|] == w
  }

  /** A leaf node, if there is room for one more node. */
  function Leaf(v: Value, pos: nat, nodes: nat): Parsed<Value> {
    if nodes >= MAX_NODES then Bad(NoMem) else Good(v, pos, nodes + 1)
  }

  /** A string value; its node is made before its text is read. */
  function ParseText(t: seq<Byte>, p: nat, nodes: nat): (r: Parsed<Value>)
    requires p < |t|
    ensures r.Bad? ==> r.status != Ok
    ensures r.Good? ==> p < r.pos <= |t| && r.nodes == nodes + 1 <= MAX_NODES
  {
    if nodes >= MAX_NODES then Bad(NoMem)
    else match ParseString(t, p + 1, nodes)
      case Bad(st) => Bad(st)
      case Good(s, next, _) => Good(Str(s), next, nodes + 1)
  }

  /** An array whose opening bracket is at p. */
  function ParseArray(t: seq<Byte>, p: nat, depth: nat, nodes: nat): (r: Parsed<Value>)
    requires p < |t|
    ensures r.Bad? ==> r.status != Ok
    ensures r.Good? ==> p < r.pos <= |t| && r.nodes == nodes + Size(r.value) <= MAX_NODES
    decreases |t| - p, 0
  {
    if nodes >= MAX_NODES then Bad(NoMem)
    else
      var q := SkipWs(t, p + 1);
      if q < |t| && t[q] == CLOSE_ARR then Good(Arr([]), q + 1, nodes + 1)
      else match ParseItems(t, q, depth, nodes + 1)
        case Bad(st) => Bad(st)
        case Good(vs, next, k) => Good(Arr(vs), next, k)
  }

  /** An object whose opening brace is at p. */
  function ParseObject(t: seq<Byte>, p: nat, depth: nat, nodes: nat): (r: Parsed<Value>)
    requires p < |t|
    ensures r.Bad? ==> r.status != Ok
    ensures r.Good? ==> p < r.pos <= |t| && r.nodes == nodes + Size(r.value) <= MAX_NODES
    decreases |t| - p, 0
  {
    if nodes >= MAX_NODES then Bad(NoMem)
    else
      var q := SkipWs(t, p + 1);
      if q < |t| && t[q] == CLOSE_OBJ then Good(Obj([]), q + 1, nodes + 1)
      else match ParseMembers(t, q, depth, nodes + 1)
        case Bad(st) => Bad(st)
        case Good(ms, next, k) => Good(Obj(ms), next, k)
  }

  /** `parse_value`. */
  function ParseValue(t: seq<Byte>, pos: nat, depth: nat, nodes: nat): (r: Parsed<Value>)
    requires pos <= |t|
    ensures r.Bad? ==> r.status != Ok
    ensures r.Good? ==> pos < r.pos <= |t| && r.nodes == nodes + Size(r.value) <= MAX_NODES
    decreases |t| - pos, 1
  {
    if depth > MAX_DEPTH then Bad(NoMem)
    else
      var p := SkipWs(t, pos);
      if p >= |t| then Bad(Protocol)
      else if t[p] == OPEN_OBJ then ParseObject(t, p, depth, nodes)
      else if t[p] == OPEN_ARR then ParseArray(t, p, depth, nodes)
      else if t[p] == QUOTE then ParseText(t, p, nodes)
      else if t[p] == 116 then
        if Has(t, p, TrueText()) then Leaf(Bool(true), p + 4, nodes) else Bad(Protocol)
      else if t[p] == 102 then
        if Has(t, p, FalseText()) then Leaf(Bool(false), p + 5, nodes) else Bad(Protocol)
      else if t[p] == 110 then
        if Has(t, p, NullText()) then Leaf(Null, p + 4, nodes) else Bad(Protocol)
      else match ParseNumber(t, p)
        case Bad(st) => Bad(st)
        case Good(n, next, _) => Leaf(Num(n), next, nodes)
  }

  /** The items of an array from pos on, over the closing bracket. */
  function ParseItems(t: seq<Byte>, pos: nat, depth: nat, nodes: nat): (r: Parsed<seq<Value>>)
    requires pos <= |t| && nodes <= MAX_NODES
    ensures r.Bad? ==> r.status != Ok
    ensures r.Good? ==> pos < r.pos <= |t| && r.nodes == nodes + ItemsSize(r.value) <= MAX_NODES && r.value != []
    decreases |t| - pos, 2
  {
    match ParseValue(t, pos, depth + 1, nodes)
    case Bad(st) => Bad(st)
    case Good(v, p, k) =>
      var q := SkipWs(t, p);
      if q < |t| && t[q] == COMMA then
        match ParseItems(t, q + 1, depth, k)
        case Bad(st) => Bad(st)
        case Good(vs, next, k2) =>
          assert ([v] + vs)[1..] == vs;
          Good([v] + vs, next, k2)
      else if q < |t| && t[q] == CLOSE_ARR then
        assert [v][1..] == [];
        Good([v], q + 1, k)
      else Bad(Protocol)
  }

  /** One member of an object: key, colon, value. */
  function ParseMember(t: seq<Byte>, pos: nat, depth: nat, nodes: nat): (r: Parsed<Member>)
    requires pos <= |t| && nodes <= MAX_NODES
    ensures r.Bad? ==> r.status != Ok
    ensures r.Good? ==> pos < r.pos <= |t| && r.nodes == nodes + Size(r.value.value) <= MAX_NODES
    decreases |t| - pos, 2
  {
    if pos >= |t| || t[pos] != QUOTE then Bad(Protocol)
    else match ParseString(t, pos + 1, nodes)
      case Bad(st) => Bad(st)
      case Good(key, p, _) =>
        var q := SkipWs(t, p);
        if q >= |t| || t[q] != COLON then Bad(Protocol)
        else match ParseValue(t, q + 1, depth + 1, nodes)
          case Bad(st) => Bad(st)
          case Good(v, next, k) => Good(Member(key, v), next, k)
  }

  /** The members of an object; a key must follow a comma at once. */
  function ParseMembers(t: seq<Byte>, pos: nat, depth: nat, nodes: nat): (r: Parsed<seq<Member>>)
    requires pos <= |t| && nodes <= MAX_NODES
    ensures r.Bad? ==> r.status != Ok
    ensures r.Good? ==> pos < r.pos <= |t| && r.nodes == nodes + MembersSize(r.value) <= MAX_NODES && r.value != []
    decreases |t| - pos, 3
  {
    match ParseMember(t, pos, depth, nodes)
    case Bad(st) => Bad(st)
    case Good(m, p, k) =>
      var q := SkipWs(t, p);
      if q < |t| && t[q] == COMMA then
        match ParseMembers(t, q + 1, depth, k)
        case Bad(st) => Bad(st)
        case Good(ms, next, k2) =>
          assert ([m] + ms)[1..] == ms;
          Good([m] + ms, next, k2)
      else if q < |t| && t[q] == CLOSE_OBJ then
        assert [m][1..] == [];
        Good([m], q + 1, k)
      else Bad(Protocol)
  }

  /** `pai_json_parse`: one value and nothing behind it but white space. */
  function Parse(t: seq<Byte>): Parsed<Value> {
    match ParseValue(t, 0, 0, 0)
    case Bad(st) => Bad(st)
    case Good(v, p, k) => if SkipWs(t, p) == |t| then Good(v, |t|, k) else Bad(Protocol)
  }
}
