/** The loop of json_parse_ex: one iteration after the other, as decisions on flags, cursor and the kinds of the open
    values. What an iteration does to memory is recorded as events. */
module JsonControl {
  import opened Bits

  const QUOTE: byte := 34
  const COMMA: byte := 44
  const MINUS: byte := 45
  const PLUS: byte := 43
  const DOT: byte := 46
  const COLON: byte := 58
  const OPEN_BRACKET: byte := 91
  const BACKSLASH: byte := 92
  const CLOSE_BRACKET: byte := 93
  const LOWER_E: byte := 101
  const UPPER_E: byte := 69
  const LOWER_U: byte := 117
  const OPEN_BRACE: byte := 123
  const CLOSE_BRACE: byte := 125
  const UINT_MAX: nat := 0xFFFF_FFF7

  /** json_integer and json_double are both `Number` here; which one it is stands in `Numeral`. */
  datatype Kind = Object | Array | Number | Str | Boolean | Null

  /** The flags that outlive an iteration; those of a number are in `Numeral`. */
  datatype Flags = Flags(needComma: bool, seekValue: bool, escaped: bool, inString: bool, needColon: bool, done: bool)

  /** What pass 1 knows about the number it reads. */
  datatype Numeral = Numeral(negative: bool, zero: bool, e: bool, eSign: bool, eNegative: bool, digits: nat,
      isDouble: bool, integer: int)

  /** Cursor, flags, the kinds from the root to `top`, string_length, and the number. */
  datatype Ctl = Ctl(i: nat, f: Flags, path: seq<Kind>, strLen: nat, num: Numeral)

  datatype Event =
    | New(kind: Kind, boolean: bool)           // new_value
    | BeginName                                // the opening quote of a name
    | Put(bytes: seq<byte>)                    // characters of a string or name
    | EndStr
    | EndName
    | Value(isDouble: bool, integer: int)      // the end of a number, in pass 1
    | Up                                       // the value is attached to its parent

  datatype Outcome = Go(c: Ctl, ev: seq<Event>) | Finished | Failed | Crashed

  /** The text is followed by a zero byte. */
  function At(text: seq<byte>, i: nat): byte {
    if i < |text| then text[i] else 0
  }

  predicate Space(b: byte) {
    b == 32 || b == 9 || b == 10 || b == 13
  }

  predicate Digit(b: byte) {
    48 <= b <= 57
  }

  /** The characters that pass 2 skips. */
  predicate NumberChar(b: byte) {
    Digit(b) || b == PLUS || b == MINUS || b == LOWER_E || b == UPPER_E || b == DOT
  }

  function HexValue(b: byte): nat {
    if Digit(b) then b - 48
    else if 97 <= b <= 102 then b - 87
    else if 65 <= b <= 70 then b - 55
    else 0xFF
  }

  function Last(path: seq<Kind>): Kind
    requires path != []
  {
    path[|path| - 1]
  }

  const NO_NUMERAL := Numeral(false, false, false, false, false, 0, false, 0)

  function Start(): Ctl {
    Ctl(0, Flags(false, true, false, false, false, false), [], 0, NO_NUMERAL)
  }

  // ---- The end of an iteration ----

  /** What flag_reproc and flag_next lead to. */
  function Tail(c: Ctl, next: bool, reproc: bool, ev: seq<Event>): Outcome {
    var c1 := c.(i := if reproc then c.i else c.i + 1);
    if !next then Go(c1, ev)
    else
      var f := c.f.(needComma := true);
      if |c.path| <= 1 then Go(c1.(f := f.(done := true)), ev)
      else
        Go(c1.(f := if c.path[|c.path| - 2].Array? then f.(seekValue := true) else f, path := c.path[..|c.path| - 1]),
            ev + [Up])
  }

  // ---- Strings ----

  function EscapeByte(b: byte): byte {
    if b == 98 then 8 else if b == 102 then 12 else if b == 110 then 10 else if b == 114 then 13 else if b == 116 then 9
        else b
  }

  /** The bytes for a \u escape, from its two code unit bytes. */
  function Encode(u1: byte, u2: byte): seq<byte> {
    if u1 == 0 && u2 <= 0x7F then [u2]
    else if 0x100 * (u1 as int) + u2 <= 0x7FF then [0xC0 + u2 / 0x40 + u1 % 8 * 4, 0x80 + u2 % 0x40]
    else [0xE0 + u1 / 0x10, 0x80 + u1 % 0x10 * 4 + u2 / 0x40, 0x80 + u2 % 0x40]
  }

  /** The four hexadecimal digits behind a \u are there. */
  predicate HexDigits(text: seq<byte>, i: nat) {
    |text| - i >= 4 && HexValue(At(text, i + 1)) != 0xFF && HexValue(At(text, i + 2)) != 0xFF
    && HexValue(At(text, i + 3)) != 0xFF && HexValue(At(text, i + 4)) != 0xFF
  }

  function CodeBytes(text: seq<byte>, i: nat): seq<byte>
    requires HexDigits(text, i)
  {
    Encode(HexValue(At(text, i + 1)) * 0x10 + HexValue(At(text, i + 2)),
        HexValue(At(text, i + 3)) * 0x10 + HexValue(At(text, i + 4)))
  }

  function EscapedStep(text: seq<byte>, c: Ctl, b: byte): Outcome {
    var f := c.f.(escaped := false);
    if b == LOWER_U then
      if !HexDigits(text, c.i) then Failed
      else
        var bytes := CodeBytes(text, c.i);
        Go(c.(i := c.i + 5, f := f, strLen := c.strLen + |bytes|), [Put(bytes)])
    else Go(c.(i := c.i + 1, f := f, strLen := c.strLen + 1), [Put([EscapeByte(b)])])
  }

  function StringStep(text: seq<byte>, c: Ctl, b: byte): Outcome
    requires c.path != []
  {
    if b == 0 || c.strLen > UINT_MAX then Failed
    else if c.f.escaped then EscapedStep(text, c, b)
    else if b == BACKSLASH then Go(c.(i := c.i + 1, f := c.f.(escaped := true)), [])
    else if b != QUOTE then Go(c.(i := c.i + 1, strLen := c.strLen + 1), [Put([b])])
    else if Last(c.path).Object? then
      Go(c.(i := c.i + 1, f := c.f.(inString := false, seekValue := true, needColon := true)), [EndName])
    else Tail(c.(f := c.f.(inString := false)), true, false, [EndStr])
  }

  // ---- Looking for a value ----

  /** Where the bytes of `word` follow the cursor. */
  predicate Follows(text: seq<byte>, i: nat, word: seq<byte>) {
    i + |word| <= |text| && forall k :: 0 <= k < |word| ==> At(text, i + 1 + k) == word[k]
  }

  /** true, false and null: the comparison may look at the zero byte behind the text. */
  function Literal(text: seq<byte>, c: Ctl, word: seq<byte>, kind: Kind, boolean: bool): Outcome {
    if !Follows(text, c.i, word) then Failed
    else Tail(c.(i := c.i + |word|, path := c.path + [kind]), true, false, [New(kind, boolean)])
  }

  /** Where the number characters from `i` on end. */
  function Skip(text: seq<byte>, i: nat): (j: nat)
    ensures i <= j && (i <= |text| ==> j <= |text|)
    decreases |text| - i
  {
    if i < |text| && NumberChar(text[i]) then Skip(text, i + 1) else i
  }

  /** The start of a number: pass 2 skips it whole. */
  function NumberStart(first: bool, text: seq<byte>, c: Ctl, b: byte): Outcome {
    var c1 := c.(path := c.path + [Number]);
    if !first then Tail(c1.(i := Skip(text, c.i)), true, true, [New(Number, false)])
    else if b == MINUS then Go(c1.(i := c.i + 1, num := NO_NUMERAL.(negative := true)), [New(Number, false)])
    else Go(c1.(num := NO_NUMERAL), [New(Number, false)])
  }

  /** The first character of a value; flag_seek_value is cleared. */
  function ValueStart(first: bool, text: seq<byte>, c: Ctl, b: byte): Outcome {
    if b == OPEN_BRACE then Go(c.(i := c.i + 1, path := c.path + [Object]), [New(Object, false)])
    else if b == OPEN_BRACKET then
      Go(c.(i := c.i + 1, path := c.path + [Array], f := c.f.(seekValue := true)), [New(Array, false)])
    else if b == QUOTE then
      Go(c.(i := c.i + 1, path := c.path + [Str], f := c.f.(inString := true), strLen := 0), [New(Str, false)])
    else if b == 116 then Literal(text, c, [114, 117, 101], Boolean, true)
    else if b == 102 then Literal(text, c, [97, 108, 115, 101], Boolean, false)
    else if b == 110 then Literal(text, c, [117, 108, 108], Null, false)
    else if Digit(b) || b == MINUS then NumberStart(first, text, c, b)
    else Failed
  }

  function SeekStep(first: bool, text: seq<byte>, c: Ctl, b: byte): Outcome {
    if Space(b) then Go(c.(i := c.i + 1), [])
    else if b == CLOSE_BRACKET then
      if c.path == [] then Crashed
      else if Last(c.path).Array? then Tail(c.(f := c.f.(needComma := false, seekValue := false)), true, false, [])
      else Failed
    else if c.f.needComma then
      if b == COMMA then Go(c.(i := c.i + 1, f := c.f.(needComma := false)), []) else Failed
    else if c.f.needColon then
      if b == COLON then Go(c.(i := c.i + 1, f := c.f.(needColon := false)), []) else Failed
    else ValueStart(first, text, c.(f := c.f.(seekValue := false)), b)
  }

  // ---- Inside objects and numbers ----

  function ObjectStep(c: Ctl, b: byte): Outcome {
    if Space(b) then Go(c.(i := c.i + 1), [])
    else if b == QUOTE then
      if c.f.needComma then Failed else Go(c.(i := c.i + 1, f := c.f.(inString := true), strLen := 0), [BeginName])
    else if b == CLOSE_BRACE then Tail(c.(f := c.f.(needComma := false)), true, false, [])
    else if b == COMMA && c.f.needComma then Go(c.(i := c.i + 1, f := c.f.(needComma := false)), [])
    else Failed
  }

  /** What an int64_t keeps. */
  function Int64(x: int): int {
    var m := x % 0x1_0000_0000_0000_0000;
    if m >= 0x8000_0000_0000_0000 then m - 0x1_0000_0000_0000_0000 else m
  }

  /** A digit. The fraction and the exponent only count digits here. */
  function DigitStep(n: Numeral, b: byte): (Numeral, bool) {
    var n1 := n.(digits := n.digits + 1);
    if n.e then (n1.(eSign := true), true)
    else if n.isDouble then (n1, true)
    else if n.zero then (n1, false)
    else (n1.(zero := n1.digits == 1 && b == 48, integer := Int64(n.integer * 10 + (b - 48))), true)
  }

  /** The character behind a number, or an e: whether the number is complete enough. */
  predicate NumberComplete(n: Numeral) {
    (n.e || n.isDouble) ==> n.digits > 0
  }

  function NumberStep(c: Ctl, b: byte): Outcome {
    var n := c.num;
    var onward := c.(i := c.i + 1);
    if Digit(b) then
      var (n1, ok) := DigitStep(n, b);
      if ok then Go(onward.(num := n1), []) else Failed
    else if (b == PLUS || b == MINUS) && n.e && !n.eSign then
      Go(onward.(num := n.(eSign := true, eNegative := b == MINUS)), [])
    else if b == DOT && !n.isDouble then
      if n.digits == 0 then Failed else Go(onward.(num := n.(isDouble := true, digits := 0)), [])
    else if !NumberComplete(n) then Failed
    else if !n.e && (b == LOWER_E || b == UPPER_E) then
      Go(onward.(num := n.(e := true, isDouble := true, digits := 0, zero := false)), [])
    else Tail(c, true, true, [Value(n.isDouble, if n.negative then Int64(-n.integer) else n.integer)])
  }

  /** One iteration. */
  function Step(first: bool, text: seq<byte>, c: Ctl): Outcome {
    var b := At(text, c.i);
    if c.f.inString then if c.path == [] then Crashed else StringStep(text, c, b)
    else if c.f.done then
      if b == 0 then Finished else if Space(b) then Go(c.(i := c.i + 1), []) else Failed
    else if c.f.seekValue then SeekStep(first, text, c, b)
    else if c.path == [] then Crashed
    else if Last(c.path).Object? then ObjectStep(c, b)
    else if Last(c.path).Number? then NumberStep(c, b)
    else Tail(c, false, false, [])
  }

  // ---- Invariant and termination ----

  predicate Container(k: Kind) {
    k.Object? || k.Array?
  }

  /** Whether pass 1 is inside a number. */
  predicate InNumber(c: Ctl) {
    !c.f.inString && !c.f.done && !c.f.seekValue && c.path != [] && Last(c.path).Number?
  }

  predicate Inv(c: Ctl) {
    && (forall k :: 0 <= k < |c.path| - 1 ==> Container(c.path[k]))
    && (c.f.escaped ==> c.f.inString) && (c.f.needColon ==> c.f.seekValue)
    && if c.f.inString then !c.f.done && !c.f.seekValue && c.path != [] && (Last(c.path).Str? || Last(c.path).Object?)
       else if c.f.done then |c.path| == 1 && !c.f.seekValue
       else if c.f.seekValue then (c.path == [] || Container(Last(c.path)))
           && (c.f.needColon ==> c.path != [] && Last(c.path).Object?)
       else c.path != [] && (Last(c.path).Object? || Last(c.path).Number?)
  }

  /** Reprocessing leads from a value that starts to the number, and from the number to what follows it. */
  function Phase(c: Ctl): nat {
    if c.f.inString || c.f.done then 0
    else if c.f.seekValue then (if c.f.needComma then 0 else 2)
    else if InNumber(c) then 1
    else 0
  }

  /** The cursor moves on, or stays for a later phase. */
  predicate Forward(text: seq<byte>, c: Ctl, c': Ctl) {
    c'.i <= |text| && (c'.i > c.i || (c'.i == c.i && Phase(c') < Phase(c)))
  }

  lemma TailKeeps(text: seq<byte>, c: Ctl, reproc: bool, ev: seq<Event>)
    requires c.path != [] && forall k :: 0 <= k < |c.path| - 1 ==> Container(c.path[k])
    requires !c.f.escaped && !c.f.inString && !c.f.needColon && !c.f.done && !c.f.seekValue
    ensures var o := Tail(c, true, reproc, ev);
            o.Go? && Inv(o.c) && Phase(o.c) == 0 && o.c.i == if reproc then c.i else c.i + 1
  {
  }

  lemma StringKeeps(text: seq<byte>, c: Ctl)
    requires Inv(c) && c.i <= |text| && c.f.inString
    ensures var o := StringStep(text, c, At(text, c.i)); o.Go? ==> Inv(o.c) && Forward(text, c, o.c)
  {
    hide CodeBytes, HexValue;
    if Last(c.path).Str? {
      TailKeeps(text, c.(f := c.f.(inString := false, escaped := false)), false, [EndStr]);
    }
    CodeIsInside(text, c.i);
  }

  lemma CodeIsInside(text: seq<byte>, i: nat)
    ensures HexDigits(text, i) ==> i + 5 <= |text|
  {
  }

  lemma FollowsInside(text: seq<byte>, i: nat, word: seq<byte>)
    requires |word| > 0 && word[|word| - 1] != 0
    ensures Follows(text, i, word) ==> i + |word| + 1 <= |text|
  {
    if Follows(text, i, word) {
      assert At(text, i + 1 + (|word| - 1)) == word[|word| - 1];
    }
  }

  lemma SkipStarts(text: seq<byte>, i: nat)
    requires i <= |text|
    ensures NumberChar(At(text, i)) ==> Skip(text, i) > i
  {
    if i < |text| && NumberChar(text[i]) {
      assert Skip(text, i) == Skip(text, i + 1);
    }
  }

  /** A state that looks for a value, without flag_seek_value. */
  predicate Ready(c: Ctl) {
    && (forall k :: 0 <= k < |c.path| ==> Container(c.path[k]))
    && !c.f.needComma && !c.f.needColon && !c.f.inString && !c.f.done && !c.f.escaped && !c.f.seekValue
  }

  lemma LiteralKeeps(text: seq<byte>, c: Ctl, word: seq<byte>, kind: Kind, boolean: bool)
    requires Ready(c) && c.i <= |text| && |word| > 0 && word[|word| - 1] != 0
    ensures var o := Literal(text, c, word, kind, boolean); o.Go? ==> Inv(o.c) && c.i < o.c.i <= |text|
  {
    hide Follows, Tail, Inv;
    FollowsInside(text, c.i, word);
    TailKeeps(text, c.(i := c.i + |word|, path := c.path + [kind]), false, [New(kind, boolean)]);
  }

  lemma NumberStartKeeps(first: bool, text: seq<byte>, c: Ctl, b: byte)
    requires Ready(c) && c.i <= |text| && b == At(text, c.i) && (Digit(b) || b == MINUS)
    ensures var o := NumberStart(first, text, c, b);
            o.Go? && Inv(o.c) && c.i <= o.c.i <= |text| && (o.c.i == c.i ==> InNumber(o.c))
  {
    hide Skip, Tail;
    SkipStarts(text, c.i);
    TailKeeps(text, c.(i := Skip(text, c.i), path := c.path + [Number]), true, [New(Number, false)]);
  }

  lemma ValueStartKeeps(first: bool, text: seq<byte>, c: Ctl)
    requires Ready(c) && c.i <= |text|
    ensures var o := ValueStart(first, text, c, At(text, c.i));
            o.Go? ==> Inv(o.c) && c.i <= o.c.i <= |text| && (o.c.i == c.i ==> InNumber(o.c))
  {
    hide Literal, NumberStart;
    var b := At(text, c.i);
    LiteralKeeps(text, c, [114, 117, 101], Boolean, true);
    LiteralKeeps(text, c, [97, 108, 115, 101], Boolean, false);
    LiteralKeeps(text, c, [117, 108, 108], Null, false);
    if Digit(b) || b == MINUS {
      NumberStartKeeps(first, text, c, b);
    }
  }

  lemma SeekKeeps(first: bool, text: seq<byte>, c: Ctl)
    requires Inv(c) && c.i <= |text| && !c.f.inString && !c.f.done && c.f.seekValue
    ensures var o := SeekStep(first, text, c, At(text, c.i)); o.Go? ==> Inv(o.c) && Forward(text, c, o.c)
  {
    hide ValueStart, Tail;
    if !c.f.needComma && !c.f.needColon {
      ValueStartKeeps(first, text, c.(f := c.f.(seekValue := false)));
    }
    if c.path != [] {
      TailKeeps(text, c.(f := c.f.(needComma := false, seekValue := false, needColon := false)), false, []);
    }
  }

  lemma ObjectKeeps(text: seq<byte>, c: Ctl)
    requires Inv(c) && c.i <= |text| && !c.f.inString && !c.f.done && !c.f.seekValue && Last(c.path).Object?
    ensures var o := ObjectStep(c, At(text, c.i)); o.Go? ==> Inv(o.c) && Forward(text, c, o.c)
  {
    hide Tail;
    TailKeeps(text, c.(f := c.f.(needComma := false)), false, []);
  }

  lemma NumberKeeps(text: seq<byte>, c: Ctl)
    requires Inv(c) && c.i <= |text| && InNumber(c)
    ensures var o := NumberStep(c, At(text, c.i)); o.Go? ==> Inv(o.c) && Forward(text, c, o.c)
  {
    hide Tail, DigitStep, NumberComplete, Int64;
    var n := c.num;
    TailKeeps(text, c, true, [Value(n.isDouble, if n.negative then Int64(-n.integer) else n.integer)]);
  }

  /** Every iteration keeps the invariant and makes progress, and the cursor never passes the end. */
  lemma StepKeeps(first: bool, text: seq<byte>, c: Ctl)
    requires Inv(c) && c.i <= |text|
    ensures var o := Step(first, text, c); o.Go? ==> Inv(o.c) && Forward(text, c, o.c)
  {
    hide StringStep, SeekStep, ObjectStep, NumberStep;
    if c.f.inString {
      StringKeeps(text, c);
    } else if c.f.done {
    } else if c.f.seekValue {
      SeekKeeps(first, text, c);
    } else if Last(c.path).Object? {
      ObjectKeeps(text, c);
    } else {
      NumberKeeps(text, c);
    }
  }

  /** What a pass does from a state on. */
  datatype Result = Ok(ev: seq<Event>) | Error | Crash

  function Prepend(ev: seq<Event>, r: Result): Result {
    if r.Ok? then Ok(ev + r.ev) else r
  }

  function Run(first: bool, text: seq<byte>, c: Ctl): Result
    requires Inv(c) && c.i <= |text|
    decreases |text| - c.i, Phase(c)
  {
    StepKeeps(first, text, c);
    match Step(first, text, c)
    case Go(c', ev) => Prepend(ev, Run(first, text, c'))
    case Finished => Ok([])
    case Failed => Error
    case Crashed => Crash
  }
}
