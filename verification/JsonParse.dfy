/** json_parse_ex as its callers see it. */
module JsonParse {
  import opened Bits
  import opened JsonSyntax
  import opened JsonControl
  import opened JsonMemory
  import opened JsonLayout
  import opened JsonBlocks
  import opened JsonGrammar
  import opened JsonReading
  import opened JsonDecode
  import opened JsonParser
  import JsonFree
  import JsonLanguage

  /** The text without a byte order mark. */
  function SkipBom(json: seq<byte>): seq<byte> {
    if |json| >= 3 && json[0] == 0xEF && json[1] == 0xBB && json[2] == 0xBF then json[3..] else json
  }

  /** The text is a value of the grammar with white space around it. */
  ghost predicate Says(text: seq<byte>, before: seq<byte>, v: Text, after: seq<byte>) {
    Spaces(before) && Valid(v) && Spaces(after) && text == before + Render(v) + after && |text| <= UINT_MAX
  }

  /** Every block is exactly full. */
  predicate BlocksFull(values: seq<Slot>) {
    forall k :: 0 <= k < |values| ==>
      values[k].cap == values[k].cell.length && values[k].nameCap == values[k].cell.nameMem
  }

  /** Arrays and objects have the length of their contents, as json_value_free_ex needs it. */
  predicate LengthsRight(values: seq<Slot>) {
    forall k :: 0 <= k < |values| && Container(values[k].cell.kind) ==> values[k].cell.length == |values[k].children|
  }

  /** What a successful parse leaves is a tree that json_value_free_ex frees, in blocks that are exactly full. */
  lemma ParsesTree(text: seq<byte>, values: seq<Slot>)
    requires Parses(text, values)
    ensures values != [] && JsonFree.TreeOk(NodesOf(values)) && BlocksFull(values) && LengthsRight(values)
  {
    hide Run, CountAll, CountFitsAll, FillAll, Exact, Whole, JsonFree.TreeOk, FitsAll, Build, LengthsRight;
    var t, cells, s := TwoPasses(text);
    assert forall k :: 0 <= k < |cells| ==> s.slots[k].cap == s.slots[k].cell.length;
    SameNodes(values, t);
    JsonFree.WholeIsTree(t);
    NotEmpty(values, t);
  }

  lemma NotEmpty(values: seq<Slot>, t: Tree)
    requires Exact(values, t) && Whole(t)
    ensures values != [] && LengthsRight(values)
  {
    hide NameBytes, Wf;
  }

  /** A text of the grammar has one parse, and it means what the text denotes. */
  lemma ParsesWhatItSays(text: seq<byte>, before: seq<byte>, v: Text, after: seq<byte>)
    requires Says(text, before, v, after)
    ensures Run(true, text, Start()).Ok?
    ensures forall values :: Parses(text, values) ==> values != [] && Decode(NodesOf(values), 0) == Denote(v)
  {
    hide Render, Run, Decode, Denote, NodesOf, FillAll, CountAll, CountFitsAll;
    var slots := ParsesDocument(before, v, after);
  }

  /** No text of the grammar looks as if it began with a byte order mark, and one in front of it plays no role. */
  lemma BomIsSkipped(text: seq<byte>, before: seq<byte>, v: Text, after: seq<byte>)
    requires Says(text, before, v, after)
    ensures SkipBom(text) == text && SkipBom([0xEF, 0xBB, 0xBF] + text) == text
  {
    hide RenderItems, RenderMembers, UnitsText, Magnitude;
    assert ([0xEF, 0xBB, 0xBF] + text)[3..] == text;
    assert text[0] == if before != [] then before[0] else Render(v)[0];
  }

  /** The grammar is part of the language that the parser accepts. */
  lemma GrammarAccepted(text: seq<byte>, before: seq<byte>, v: Text, after: seq<byte>)
    requires Says(text, before, v, after)
    ensures JsonLanguage.Accepted(text)
  {
    hide Render, Run, JsonLanguage.Accepted;
    DocumentRun(before, v, after);
    JsonLanguage.LanguageIff(text);
  }

  /** It is a proper part: a lone minus sign becomes the number 0. */
  lemma LoneMinus()
    ensures Run(true, [MINUS], Start()) == Ok([New(Number, false), Value(false, 0)])
    ensures forall v :: Valid(v) ==> Render(v) != [MINUS]
  {
    var text, num := [MINUS], NO_NUMERAL.(negative := true);
    var f := Start().f.(seekValue := false);
    var c1 := Ctl(1, f, [Number], 0, num);
    var c2 := Ctl(1, f.(needComma := true, done := true), [Number], 0, num);
    assert Step(true, text, Start()) == Go(c1, [New(Number, false)]);
    assert Step(true, text, c1) == Go(c2, [Value(false, 0)]);
    assert Run(true, text, c2) == Ok([]);
    assert Run(true, text, c1) == Ok([Value(false, 0)] + []);
    assert Run(true, text, Start()) == Ok([New(Number, false)] + ([Value(false, 0)] + []));
  }

  // ---- The null pointer ----

  /** Nothing but white space in front of a closing bracket. */
  ghost predicate LeadingBracket(text: seq<byte>, i: nat) {
    exists k :: i <= k < |text| && text[k] == END_ARRAY && forall j :: i <= j < k ==> WhiteSpace(text[j])
  }

  /** Once there is a value, top is not null any more. */
  lemma OpenStays(first: bool, text: seq<byte>, c: Ctl)
    requires Inv(c) && c.path != []
    ensures var o := Step(first, text, c); !o.Crashed? && (o.Go? ==> o.c.path != [])
  {
    hide HexDigits, CodeBytes, EscapeByte, Follows, Skip, DigitStep, NumberComplete, Int64;
  }

  lemma {:induction false} OpenNeverCrashes(first: bool, text: seq<byte>, c: Ctl)
    requires Inv(c) && c.i <= |text| && c.path != []
    ensures !Run(first, text, c).Crash?
    decreases |text| - c.i, Phase(c)
  {
    hide Step, Inv, Phase;
    StepKeeps(first, text, c);
    OpenStays(first, text, c);
    var o := Step(first, text, c);
    if o.Go? {
      OpenNeverCrashes(first, text, o.c);
    }
  }

  /** The code reads through the null pointer exactly when the first character that is not white space is a closing
      bracket. */
  lemma {:induction false} CrashesIff(first: bool, text: seq<byte>, c: Ctl)
    requires Inv(c) && c.i <= |text| && c.path == [] && !c.f.needComma
    ensures Run(first, text, c).Crash? <==> LeadingBracket(text, c.i)
    decreases |text| - c.i
  {
    StepKeeps(first, text, c);
    FirstStep(first, text, c);
    var o := Step(first, text, c);
    if c.i < |text| && Space(text[c.i]) {
      hide Step, Inv, Phase;
      CrashesIff(first, text, o.c);
      if LeadingBracket(text, c.i) {
        var k :| c.i <= k < |text| && text[k] == END_ARRAY && forall j :: c.i <= j < k ==> WhiteSpace(text[j]);
        assert k != c.i;
        assert LeadingBracket(text, c.i + 1);
      }
    } else if o.Go? {
      OpenNeverCrashes(first, text, o.c);
    }
  }

  lemma FirstStep(first: bool, text: seq<byte>, c: Ctl)
    requires Inv(c) && c.i <= |text| && c.path == [] && !c.f.needComma
    ensures var o, b := Step(first, text, c), At(text, c.i);
            && (Space(b) ==> c.i < |text| && o == Go(c.(i := c.i + 1), []))
            && (b == CLOSE_BRACKET ==> o.Crashed?)
            && (!Space(b) && b != CLOSE_BRACKET ==> !o.Crashed? && (o.Go? ==> o.c.path != []))
  {
    hide Follows, Skip;
  }

  /** json_parse_ex: pass 1, and pass 2 in the blocks that it counted. */
  method ParseEx(json: seq<byte>) returns (e: End, values: seq<Slot>)
    ensures EndsRun(Run(true, SkipBom(json), Start()), e)
    ensures |SkipBom(json)| <= UINT_MAX ==> (e.Finish? <==> JsonLanguage.Accepted(SkipBom(json)))
    ensures e.NullTop? <==> LeadingBracket(SkipBom(json), 0)
    ensures e.Finish? ==> Parses(SkipBom(json), values)
    ensures e.Finish? ==> values != [] && JsonFree.TreeOk(NodesOf(values)) && BlocksFull(values) && LengthsRight(values)
    ensures forall before, v, after :: Says(SkipBom(json), before, v, after) ==>
              e.Finish? && values != [] && Decode(NodesOf(values), 0) == Denote(v)
  {
    hide Run, LeadingBracket, CountAll, CountFitsAll, FillAll, Parses, Decode, Render, Valid, Denote, NodesOf,
        BlocksFull,
      LengthsRight, JsonFree.TreeOk, JsonLanguage.Accepted;
    var text := json;
    if |json| >= 3 && json[0] == 0xEF && json[1] == 0xBB && json[2] == 0xBF {
      text := json[3..];
    }
    values := [];
    CrashesIff(true, text, Start());
    if |text| <= UINT_MAX {
      JsonLanguage.LanguageIff(text);
    }
    var p := new Parser(text);
    e := p.CountPass();
    if e.Finish? {
      ghost var fill := BothPasses(text, CellsOf(p.values));
      p.Rewind();
      p.FillPass(fill);
      values := p.values;
      ParsesTree(text, values);
    }
    forall before, v, after | Says(text, before, v, after)
      ensures e.Finish? && values != [] && Decode(NodesOf(values), 0) == Denote(v)
    {
      ParsesWhatItSays(text, before, v, after);
    }
  }

  /** Pass 2 after a pass 1 that succeeded. */
  lemma BothPasses(text: seq<byte>, cells: seq<Cell>) returns (s: Filling)
    requires Run(true, text, Start()).Ok? && CountFitsAll(NOTHING_COUNTED, Run(true, text, Start()).ev)
    requires cells == CountAll(NOTHING_COUNTED, Run(true, text, Start()).ev).cells
    ensures Run(false, text, Start()).Ok? && FillAll(Unfilled(cells), Run(false, text, Start()).ev) == Fill(s)
    ensures Parses(text, s.slots)
  {
    hide Run, CountAll, CountFitsAll, FillAll, SlotOf, Whole, FitsAll, Build;
    var t, cells', s' := TwoPasses(text);
    s := s';
  }
}
