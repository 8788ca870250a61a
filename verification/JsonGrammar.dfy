/** Texts of RFC 8259 (sections 2 to 7) without fractions, exponents and surrogate escapes, and what they denote. */
module JsonGrammar {
  import opened Bits
  import opened JsonControl
  import opened JsonSyntax

  /** One character of a string: a byte as it is, a two-character escape, or four hexadecimal digits. */
  datatype Unit = Plain(b: byte) | Escape(c: byte) | Hex(h: seq<byte>)

  /** A value with the white space inside it. */
  datatype Text =
    | TNull | TTrue | TFalse
    | TInt(negative: bool, digits: seq<byte>)
    | TStr(units: seq<Unit>)
    | TArr(ws: seq<byte>, items: Items)          // `ws` is the space of an empty array
    | TObj(ws: seq<byte>, members: Members)

  datatype Items = NoItem | Item(before: seq<byte>, val: Text, after: seq<byte>, rest: Items)

  datatype Members =
    | NoMember
    | Member(before: seq<byte>, name: seq<Unit>, mid: seq<byte>, space: seq<byte>, val: Text, after: seq<byte>,
    rest: Members)

  predicate Spaces(ws: seq<byte>) {
    forall k :: 0 <= k < |ws| ==> WhiteSpace(ws[k])
  }

  function Code(h: seq<byte>): (r: nat)
    requires |h| == 4 && forall k :: 0 <= k < 4 ==> HexDigit(h[k])
    ensures r < 0x1_0000
  {
    assert HexDigit(h[0]) && HexDigit(h[1]) && HexDigit(h[2]) && HexDigit(h[3]);
    HexWeight(h[0]) * 0x1000 + HexWeight(h[1]) * 0x100 + HexWeight(h[2]) * 0x10 + HexWeight(h[3])
  }

  predicate ValidUnit(u: Unit) {
    match u
    case Plain(b) => b >= 0x20 && b != 34 && b != 92
    case Escape(c) => EscapeLetter(c)
    case Hex(h) => |h| == 4 && (forall k :: 0 <= k < 4 ==> HexDigit(h[k])) && !(0xD800 <= Code(h) < 0xE000)
  }

  predicate ValidUnits(s: seq<Unit>) {
    forall k :: 0 <= k < |s| ==> ValidUnit(s[k])
  }

  predicate ValidDigits(d: seq<byte>) {
    d != [] && (forall k :: 0 <= k < |d| ==> Decimal(d[k])) && (|d| > 1 ==> d[0] != 48)
    && Magnitude(d) < 0x8000_0000_0000_0000
  }

  /** The number that decimal digits denote. */
  function Magnitude(d: seq<byte>): nat
    requires forall k :: 0 <= k < |d| ==> Decimal(d[k])
  {
    if d == [] then 0
    else
      assert Decimal(d[|d| - 1]);
      Magnitude(d[..|d| - 1]) * 10 + (d[|d| - 1] as int - 48)
  }

  predicate Valid(v: Text) {
    match v
    case TInt(_, d) => ValidDigits(d)
    case TStr(s) => ValidUnits(s)
    case TArr(ws, items) => Spaces(ws) && ValidItems(items)
    case TObj(ws, members) => Spaces(ws) && ValidMembers(members)
    case _ => true
  }

  predicate ValidItems(x: Items) {
    x.Item? ==> Spaces(x.before) && Valid(x.val) && Spaces(x.after) && ValidItems(x.rest)
  }

  predicate ValidMembers(x: Members) {
    x.Member? ==>
      && Spaces(x.before) && ValidUnits(x.name) && Spaces(x.mid) && Spaces(x.space) && Valid(x.val) && Spaces(x.after)
      && ValidMembers(x.rest)
  }

  // ---- The text ----

  function UnitText(u: Unit): seq<byte> {
    match u
    case Plain(b) => [b]
    case Escape(c) => [92, c]
    case Hex(h) => [92, 117] + h
  }

  function UnitsText(s: seq<Unit>): seq<byte> {
    if s == [] then [] else UnitText(s[0]) + UnitsText(s[1..])
  }

  function Quoted(s: seq<Unit>): seq<byte> {
    [34] + UnitsText(s) + [34]
  }

  function Render(v: Text): (r: seq<byte>)
    decreases v, 1
  {
    match v
    case TNull => [110, 117, 108, 108]
    case TTrue => [116, 114, 117, 101]
    case TFalse => [102, 97, 108, 115, 101]
    case TInt(negative, d) => (if negative then [45] else []) + d
    case TStr(s) => Quoted(s)
    case TArr(ws, items) => [91] + (if items.NoItem? then ws else RenderItems(items)) + [93]
    case TObj(ws, members) => [123] + (if members.NoMember? then ws else RenderMembers(members)) + [125]
  }

  function RenderItems(x: Items): seq<byte>
    decreases x, 0
  {
    match x
    case NoItem => []
    case Item(before, val, after, rest) =>
      before + Render(val) + after + (if rest.NoItem? then [] else [44] + RenderItems(rest))
  }

  function RenderMembers(x: Members): seq<byte>
    decreases x, 0
  {
    match x
    case NoMember => []
    case Member(before, name, mid, space, val, after, rest) =>
      before + Quoted(name) + mid + [58] + space + Render(val) + after
      + (if rest.NoMember? then [] else [44] + RenderMembers(rest))
  }

  // ---- The value ----

  /** What a text denotes. */
  datatype Doc = DNull | DBool(b: bool) | DInt(n: int) | DStr(s: seq<byte>) | DArr(items: seq<Doc>) | DObj(members: seq<(seq<byte>, Doc)>)

  /** UTF-8, as section 3 of RFC 3629 defines it for codes of the basic plane. */
  function Utf8(code: nat): seq<byte>
    requires code < 0x1_0000
  {
    if code < 0x80 then [code]
    else if code < 0x800 then [0xC0 + code / 0x40, 0x80 + code % 0x40]
    else [0xE0 + code / 0x1000, 0x80 + code / 0x40 % 0x40, 0x80 + code % 0x40]
  }

  function UnitBytes(u: Unit): seq<byte>
    requires ValidUnit(u)
  {
    match u
    case Plain(b) => [b]
    case Escape(c) => [EscapeValue(c)]
    case Hex(h) => Utf8(Code(h))
  }

  function UnitsBytes(s: seq<Unit>): seq<byte>
    requires ValidUnits(s)
  {
    if s == [] then [] else UnitBytes(s[0]) + UnitsBytes(s[1..])
  }

  function IntegerOf(negative: bool, d: seq<byte>): int
    requires forall k :: 0 <= k < |d| ==> Decimal(d[k])
  {
    if negative then 0 - Magnitude(d) else Magnitude(d)
  }

  function Denote(v: Text): Doc
    requires Valid(v)
    decreases v, 1
  {
    match v
    case TNull => DNull
    case TTrue => DBool(true)
    case TFalse => DBool(false)
    case TInt(negative, d) => DInt(IntegerOf(negative, d))
    case TStr(s) => DStr(UnitsBytes(s))
    case TArr(_, items) => DArr(DenoteItems(items))
    case TObj(_, members) => DObj(DenoteMembers(members))
  }

  function DenoteItems(x: Items): seq<Doc>
    requires ValidItems(x)
    decreases x, 0
  {
    match x
    case NoItem => []
    case Item(_, val, _, rest) => [Denote(val)] + DenoteItems(rest)
  }

  function DenoteMembers(x: Members): seq<(seq<byte>, Doc)>
    requires ValidMembers(x)
    decreases x, 0
  {
    match x
    case NoMember => []
    case Member(_, name, _, _, val, _, rest) => [(UnitsBytes(name), Denote(val))] + DenoteMembers(rest)
  }

  // ---- The events of a text ----

  function Puts(s: seq<Unit>): seq<Event>
    requires ValidUnits(s)
  {
    if s == [] then [] else [Put(UnitBytes(s[0]))] + Puts(s[1..])
  }

  /** What reading the value does, up to attaching it. */
  function Events(v: Text): seq<Event>
    requires Valid(v)
    decreases v, 1
  {
    match v
    case TNull => [New(Null, false)]
    case TTrue => [New(Boolean, true)]
    case TFalse => [New(Boolean, false)]
    case TInt(negative, d) => [New(Kind.Number, false), Value(false, IntegerOf(negative, d))]
    case TStr(s) => [New(Str, false)] + (Puts(s) + [EndStr])
    case TArr(_, items) => [New(Array, false)] + ItemEvents(items)
    case TObj(_, members) => [New(Object, false)] + MemberEvents(members)
  }

  function ItemEvents(x: Items): seq<Event>
    requires ValidItems(x)
    decreases x, 0
  {
    match x
    case NoItem => []
    case Item(_, val, _, rest) => Events(val) + ([Up] + ItemEvents(rest))
  }

  function NameEvents(name: seq<Unit>): seq<Event>
    requires ValidUnits(name)
  {
    [BeginName] + (Puts(name) + [EndName])
  }

  function MemberEvents(x: Members): seq<Event>
    requires ValidMembers(x)
    decreases x, 0
  {
    match x
    case NoMember => []
    case Member(_, name, _, _, val, _, rest) => NameEvents(name) + (Events(val) + ([Up] + MemberEvents(rest)))
  }

  /** The parser's reading of single characters is that of the grammar: its escapes mean what the table of section 7
      says, and any other letter behind a backslash stands for itself. */
  lemma EscapeByteMeans(b: byte)
    ensures EscapeByte(b) == if EscapeLetter(b) then EscapeValue(b) else b
  {
  }

  lemma HexValueMeans(b: byte)
    ensures HexDigit(b) <==> HexValue(b) != 0xFF
    ensures HexDigit(b) ==> HexValue(b) == HexWeight(b)
  {
  }

  lemma SpaceMeans(b: byte)
    ensures Space(b) <==> WhiteSpace(b)
    ensures Digit(b) <==> Decimal(b)
  {
  }

  /** The bit operations of the parser give the UTF-8 of the code. */
  lemma EncodeIsUtf8(u1: byte, u2: byte)
    ensures Encode(u1, u2) == Utf8(0x100 * (u1 as int) + u2)
  {
    var h: int, l: int := u1, u2;
    CodeParts(h, l);
  }

  lemma CodeParts(h: int, l: int)
    requires 0 <= h < 0x100 && 0 <= l < 0x100
    ensures var code := 0x100 * h + l;
            && code / 0x40 == 4 * h + l / 0x40 && code % 0x40 == l % 0x40 && code / 0x1000 == h / 0x10
            && code / 0x40 % 0x40 == h % 0x10 * 4 + l / 0x40 && (code < 0x800 ==> h < 8 && h % 8 == h)
  {
    var code := 0x100 * h + l;
    ModUnique(code, 0x40, 4 * h + l / 0x40, l % 0x40);
    ModUnique(code, 0x1000, h / 0x10, 0x100 * (h % 0x10) + l);
    ModUnique(4 * h + l / 0x40, 0x40, h / 0x10, 4 * (h % 0x10) + l / 0x40);
  }
}
