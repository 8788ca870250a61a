/** json_parse_ex as it runs: one loop, twice, over flags, cursor, top and the values. */
module JsonParser {
  import opened Bits
  import opened JsonControl
  import opened JsonPasses
  import opened JsonMemory
  import opened JsonLayout
  import opened JsonBlocks

  // ---- The memory of either pass ----

  /** What the current pass keeps in memory. */
  datatype Mem = First(count: Counting) | Second(fill: Filling)

  ghost predicate Can(m: Mem, ev: seq<Event>) {
    match m
    case First(count) => CountFitsAll(count, ev)
    case Second(fill) => FillAll(fill, ev).Fill?
  }

  ghost function Do(m: Mem, ev: seq<Event>): Mem
    requires Can(m, ev)
  {
    match m
    case First(count) => First(CountAll(count, ev))
    case Second(fill) => Second(FillAll(fill, ev).s)
  }

  lemma {:induction false} CountConcat(s: Counting, a: seq<Event>, b: seq<Event>)
    requires CountFitsAll(s, a + b)
    ensures CountFitsAll(s, a) && CountFitsAll(CountAll(s, a), b) && CountAll(s, a + b) == CountAll(CountAll(s, a), b)
    decreases |a|
  {
    hide CountFits, CountStep;
    if a == [] {
      assert a + b == b;
    } else {
      assert (a + b)[0] == a[0] && (a + b)[1..] == a[1..] + b;
      CountConcat(CountStep(s, a[0]), a[1..], b);
    }
  }

  lemma {:induction false} FillConcat(s: Filling, a: seq<Event>, b: seq<Event>)
    requires FillAll(s, a + b).Fill?
    ensures FillAll(s, a).Fill? && FillAll(s, a + b) == FillAll(FillAll(s, a).s, b)
    decreases |a|
  {
    hide FillStep;
    if a == [] {
      assert a + b == b;
    } else {
      assert (a + b)[0] == a[0] && (a + b)[1..] == a[1..] + b;
      FillConcat(FillStep(s, a[0]).s, a[1..], b);
    }
  }

  lemma DoConcat(m: Mem, a: seq<Event>, b: seq<Event>)
    requires Can(m, a + b)
    ensures Can(m, a) && Can(Do(m, a), b) && Do(m, a + b) == Do(Do(m, a), b)
  {
    hide CountFitsAll, CountAll, FillAll;
    match m
    case First(count) => CountConcat(count, a, b);
    case Second(fill) => FillConcat(fill, a, b);
  }

  lemma {:induction false} CountJoin(s: Counting, a: seq<Event>, b: seq<Event>)
    requires CountFitsAll(s, a) && CountFitsAll(CountAll(s, a), b)
    ensures CountFitsAll(s, a + b) && CountAll(s, a + b) == CountAll(CountAll(s, a), b)
    decreases |a|
  {
    hide CountFits, CountStep;
    if a == [] {
      assert a + b == b;
    } else {
      assert (a + b)[0] == a[0] && (a + b)[1..] == a[1..] + b;
      CountJoin(CountStep(s, a[0]), a[1..], b);
    }
  }

  lemma DoNothing(m: Mem)
    ensures Can(m, []) && Do(m, []) == m
  {
  }

  lemma CountOne(s: Counting, e: Event)
    ensures CountFitsAll(s, [e]) <==> CountFits(s, e)
    ensures CountFitsAll(s, [e]) ==> CountAll(s, [e]) == CountStep(s, e)
  {
    hide CountFits, CountStep;
    assert [e][1..] == [];
    if CountFits(s, e) {
      assert CountFitsAll(CountStep(s, e), []);
    }
  }

  lemma FillOne(s: Filling, e: Event)
    ensures FillAll(s, [e]) == FillStep(s, e)
  {
    hide FillStep;
    assert [e][1..] == [];
    if FillStep(s, e).Fill? {
      assert FillAll(FillStep(s, e).s, []) == Fill(FillStep(s, e).s);
    }
  }

  // ---- Parent pointers and the path ----

  /** The kinds from the root to value `k`, by parent pointers. */
  ghost function PathOf(values: seq<Slot>, k: int): (r: seq<Kind>)
    requires -1 <= k < |values|
    ensures k >= 0 ==> r != [] && r[|r| - 1] == values[k].cell.kind
    decreases k
  {
    if k == -1 then []
    else
      var p := values[k].cell.parent;
      (if -1 <= p < k then PathOf(values, p) else []) + [values[k].cell.kind]
  }

  lemma {:induction false} PathFrame(a: seq<Slot>, b: seq<Slot>, k: int)
    requires -1 <= k < |a| && k < |b|
    requires forall j :: 0 <= j <= k ==> a[j].cell.kind == b[j].cell.kind && a[j].cell.parent == b[j].cell.parent
    ensures PathOf(a, k) == PathOf(b, k)
    decreases k
  {
    if k >= 0 && -1 <= a[k].cell.parent < k {
      PathFrame(a, b, a[k].cell.parent);
    }
  }

  function CellsOf(values: seq<Slot>): (r: seq<Cell>)
    ensures |r| == |values|
  {
    seq(|values|, k requires 0 <= k < |values| => values[k].cell)
  }

  lemma CellsAppend(values: seq<Slot>, x: Slot)
    ensures CellsOf(values + [x]) == CellsOf(values) + [x.cell]
  {
  }

  lemma CellsUpdate(values: seq<Slot>, k: nat, x: Slot)
    requires k < |values|
    ensures CellsOf(values[k := x]) == CellsOf(values)[k := x.cell]
  {
  }

  lemma CellAt(values: seq<Slot>, k: nat)
    requires k < |values|
    ensures CellsOf(values)[k] == values[k].cell
  {
  }

  /** How an iteration of the loop ends. */
  datatype End = Continue | Finish | Fail | NullTop

  class Parser {
    const text: seq<byte>
    var first: bool
    var i: nat
    var f: Flags
    var num: Numeral
    var strLen: nat
    var top: int
    var values: seq<Slot>
    var alloc: nat
    var str: seq<byte>

    ghost predicate Valid()
      reads this
    {
      && -1 <= top < |values| && i <= |text|
      && (forall k :: 0 <= k < |values| ==> -1 <= values[k].cell.parent < k)
      && (!first && f.inString ==> strLen == |str|)
    }

    ghost function View(): Ctl
      requires Valid()
      reads this
    {
      Ctl(i, f, PathOf(values, top), strLen, num)
    }

    ghost function Memory(): Mem
      reads this
    {
      if first then First(Counting(CellsOf(values), top, strLen)) else Second(Filling(values, alloc, top, str))
    }

    constructor (text: seq<byte>)
      ensures Valid() && this.text == text && first && View() == Start() && Memory() == First(NOTHING_COUNTED)
    {
      this.text := text;
      first := true;
      i, strLen, top, alloc := 0, 0, -1, 0;
      f := Flags(false, true, false, false, false, false);
      num := NO_NUMERAL;
      values, str := [], [];
    }

    // ---- Single effects on memory ----

    /** new_value in pass 1: a value behind the others. */
    method NewFirst(kind: Kind, boolean: bool)
      requires Valid() && first
      modifies this`values, this`top
      ensures Valid() && View() == old(View()).(path := old(View()).path + [kind])
      ensures CellsOf(values) == old(CellsOf(values)) + [Cell(kind, old(top), boolean, false, 0, 0, 0)]
          && top == |values| - 1
    {
      ghost var before := values;
      var x := Untouched(Cell(kind, top, boolean, false, 0, 0, 0));
      CellsAppend(values, x);
      values := values + [x];
      PathFrame(before, values, top);
      top := |values| - 1;
    }

    /** new_value in pass 2: the next value on the allocation list gets blocks of the sizes that pass 1 counted. */
    method NewSecond(kind: Kind)
      requires Valid() && !first && alloc < |values| && values[alloc].cell.kind == kind
          && values[alloc].cell.parent == top
      modifies this`values, this`top, this`alloc
      ensures Valid() && View() == old(View()).(path := old(View()).path + [kind])
      ensures var c := old(values)[old(alloc)].cell;
              && values == old(values)[old(alloc) := Slot(c.(length := 0, nameMem := 0), c.length, c.nameMem, [], [],
              [])]
              && top == old(alloc) && alloc == old(alloc) + 1
    {
      ghost var before := values;
      var c := values[alloc].cell;
      values := values[alloc := Slot(c.(length := 0, nameMem := 0), c.length, c.nameMem, [], [], [])];
      PathFrame(before, values, top);
      top := alloc;
      alloc := alloc + 1;
    }

    /** new_value */
    method NewValue(kind: Kind, boolean: bool)
      requires Valid() && Can(Memory(), [New(kind, boolean)])
      modifies this`values, this`top, this`alloc, this`strLen, this`str
      ensures Valid() && Memory() == Do(old(Memory()), [New(kind, boolean)])
      ensures View() == old(View()).(path := old(View()).path + [kind], strLen := if kind.Str? then 0 else old(strLen))
      ensures kind.Str? ==> str == []
    {
      hide CountFitsAll, CountAll, FillAll, CellsOf, PathOf;
      if first {
        CountOne(Memory().count, New(kind, boolean));
        NewFirst(kind, boolean);
      } else {
        FillOne(Memory().fill, New(kind, boolean));
        NewSecond(kind);
      }
      if kind == Str {
        strLen := 0;
        str := [];
      }
    }

    /** string_add, and the bytes of a \u escape. */
    method StringAdd(bytes: seq<byte>)
      requires Valid() && Can(Memory(), [Put(bytes)])
      modifies this`strLen, this`str
      ensures Valid() && Memory() == Do(old(Memory()), [Put(bytes)])
      ensures View() == old(View()).(strLen := old(strLen) + |bytes|)
    {
      hide CountFitsAll, CountAll, FillAll, CellsOf, PathOf;
      if first {
        CountOne(Memory().count, Put(bytes));
      } else {
        FillOne(Memory().fill, Put(bytes));
        str := str + bytes;
      }
      strLen := strLen + |bytes|;
    }

    /** The opening quote of a name. */
    method OpenName()
      requires Valid() && Can(Memory(), [BeginName])
      modifies this`strLen, this`str
      ensures Valid() && Memory() == Do(old(Memory()), [BeginName]) && View() == old(View()).(strLen := 0) && str == []
    {
      hide CountFitsAll, CountAll, FillAll, CellsOf, PathOf;
      if first {
        CountOne(Memory().count, BeginName);
      } else {
        FillOne(Memory().fill, BeginName);
      }
      strLen := 0;
      str := [];
    }

    /** Assigns to a value without changing its kind and parent. */
    method Assign(k: nat, x: Slot)
      requires Valid() && k < |values| && x.cell.kind == values[k].cell.kind && x.cell.parent == values[k].cell.parent
      modifies this`values
      ensures Valid() && values == old(values)[k := x] && View() == old(View())
      ensures CellsOf(values) == old(CellsOf(values))[k := x.cell]
    {
      ghost var before := values;
      CellsUpdate(values, k, x);
      values := values[k := x];
      PathFrame(before, values, top);
    }

    /** The closing quote of a string value. In pass 2 string_length is the length of what was written. */
    method CloseString()
      requires Valid() && top >= 0 && Can(Memory(), [EndStr]) && (!first ==> strLen == |str|)
      modifies this`values
      ensures Valid() && Memory() == Do(old(Memory()), [EndStr]) && View() == old(View())
    {
      hide CountFitsAll, CountAll, FillAll, CellsOf, PathOf;
      var x := values[top];
      if first {
        CountOne(Memory().count, EndStr);
        CellAt(values, top);
        Assign(top, x.(cell := x.cell.(length := strLen)));
      } else {
        FillOne(Memory().fill, EndStr);
        Assign(top, x.(cell := x.cell.(length := strLen), text := str));
      }
    }

    /** The closing quote of a name. */
    method CloseName()
      requires Valid() && top >= 0 && Can(Memory(), [EndName]) && (!first ==> strLen == |str|)
      modifies this`values
      ensures Valid() && Memory() == Do(old(Memory()), [EndName]) && View() == old(View())
    {
      hide CountFitsAll, CountAll, FillAll, CellsOf, PathOf;
      var x := values[top];
      var cell := x.cell.(nameMem := x.cell.nameMem + strLen + 1);
      if first {
        CountOne(Memory().count, EndName);
        CellAt(values, top);
        Assign(top, x.(cell := cell));
      } else {
        FillOne(Memory().fill, EndName);
        Assign(top, x.(cell := cell, names := x.names + [str]));
      }
    }

    /** The value of a number, which pass 1 keeps in the value itself. */
    method SetNumber(isDouble: bool, integer: int)
      requires Valid() && top >= 0 && first && Can(Memory(), [Value(isDouble, integer)])
      modifies this`values
      ensures Valid() && Memory() == Do(old(Memory()), [Value(isDouble, integer)]) && View() == old(View())
    {
      hide CountFitsAll, CountAll, FillAll, CellsOf, PathOf;
      CountOne(Memory().count, Value(isDouble, integer));
      CellAt(values, top);
      var x := values[top];
      Assign(top, x.(cell := x.cell.(isDouble := isDouble, integer := integer)));
    }

    /** Attaching a value to its parent. */
    method Attach()
      requires Valid() && top >= 0 && values[top].cell.parent >= 0 && Can(Memory(), [Up])
      modifies this`values, this`top
      ensures Valid() && Memory() == Do(old(Memory()), [Up])
      ensures View() == old(View()).(path := old(View()).path[..|old(View()).path| - 1])
    {
      hide CountFitsAll, CountAll, FillAll, CellsOf, PathOf;
      var p := values[top].cell.parent;
      var y := values[p];
      var cell := y.cell.(length := y.cell.length + 1);
      if first {
        CountOne(Memory().count, Up);
        CellAt(values, top);
        CellAt(values, p);
        Assign(p, y.(cell := cell));
      } else {
        FillOne(Memory().fill, Up);
        Assign(p, y.(cell := cell, children := y.children + [top as nat]));
      }
      PathUp(values, top);
      top := p;
    }

    // ---- The end of an iteration ----

    /** flag_next: the value is complete. */
    method Next()
      requires Valid() && top >= 0 && !f.inString && Can(Memory(), JsonControl.Tail(View(), true, true, []).ev)
      modifies this`f, this`values, this`top
      ensures var o := JsonControl.Tail(old(View()), true, true, []);
              Valid() && View() == o.c && Memory() == Do(old(Memory()), o.ev)
    {
      hide Can, Do, CellsOf, PathOf;
      PathUp(values, top);
      f := f.(needComma := true);
      var p := values[top].cell.parent;
      if p == -1 {
        DoNothing(Memory());
        f := f.(done := true);
      } else {
        if values[p].cell.kind == Array {
          f := f.(seekValue := true);
        }
        assert [] + [Up] == [Up];
        Attach();
      }
    }

    /** flag_reproc and flag_next: the step back and the step of the loop cancel. */
    method Tail(next: bool, reproc: bool)
      requires Valid() && (next ==> top >= 0) && (!reproc ==> i < |text|) && !f.inString
      requires Can(Memory(), JsonControl.Tail(View(), next, reproc, []).ev)
      modifies this`i, this`f, this`values, this`top
      ensures var o := JsonControl.Tail(old(View()), next, reproc, []);
              Valid() && View() == o.c && Memory() == Do(old(Memory()), o.ev)
    {
      hide Can, Do, CellsOf, PathOf, JsonControl.Tail;
      ghost var c := View();
      TailCursor(c, next, reproc);
      DoNothing(Memory());
      if !reproc {
        i := i + 1;
      }
      if next {
        Next();
      }
    }

    // ---- One iteration ----

    /** Inside a string or a name. */
    method StringIteration() returns (e: End)
      requires Valid() && Inv(View()) && f.inString
      requires var o := StringStep(text, View(), At(text, i)); o.Go? ==> Can(Memory(), o.ev)
      modifies this`i, this`f, this`values, this`top, this`strLen, this`str
      ensures var o := StringStep(text, old(View()), At(text, old(i)));
              Ends(o, e) && (o.Go? ==> Valid() && View() == o.c && Memory() == Do(old(Memory()), o.ev))
    {
      hide Can, Do, CodeBytes, HexDigits, EscapeByte, PathOf, CellsOf, JsonControl.Tail;
      ghost var c, m := View(), Memory();
      PathTop(values, top);
      var b := At(text, i);
      if b == 0 || strLen > UINT_MAX {
        return Fail;
      }
      if f.escaped {
        e := EscapedIteration(b);
      } else if b == BACKSLASH {
        DoNothing(m);
        f := f.(escaped := true);
        i := i + 1;
        e := Continue;
      } else if b != QUOTE {
        StringAdd([b]);
        i := i + 1;
        e := Continue;
      } else if values[top].cell.kind == Object {
        CloseName();
        f := f.(inString := false, seekValue := true, needColon := true);
        i := i + 1;
        e := Continue;
      } else {
        TailEvents(c.(f := c.f.(inString := false)), true, false, [EndStr]);
        DoConcat(m, [EndStr], JsonControl.Tail(c.(f := c.f.(inString := false)), true, false, []).ev);
        CloseString();
        f := f.(inString := false);
        Tail(true, false);
        e := Continue;
      }
    }

    /** Behind a backslash. */
    method EscapedIteration(b: byte) returns (e: End)
      requires Valid() && f.inString && b == At(text, i) && b != 0
      requires var o := EscapedStep(text, View(), b); o.Go? ==> Can(Memory(), o.ev)
      modifies this`i, this`f, this`strLen, this`str
      ensures var o := EscapedStep(text, old(View()), b);
              Ends(o, e) && (o.Go? ==> Valid() && View() == o.c && Memory() == Do(old(Memory()), o.ev))
    {
      hide Can, Do, EscapeByte, PathOf, CellsOf, Encode;
      if b == LOWER_U {
        if |text| - i < 4 {
          return Fail;
        }
        var h1, h2, h3, h4 := HexValue(At(text, i + 1)), HexValue(At(text, i + 2)), HexValue(At(text, i + 3)),
            HexValue(At(text, i + 4));
        if h1 == 0xFF || h2 == 0xFF || h3 == 0xFF || h4 == 0xFF {
          return Fail;
        }
        CodeIsInside(text, i);
        f := f.(escaped := false);
        StringAdd(Encode(h1 * 16 + h2, h3 * 16 + h4));
        i := i + 5;
      } else {
        f := f.(escaped := false);
        StringAdd([EscapeByte(b)]);
        i := i + 1;
      }
      e := Continue;
    }

    /** true, false and null. */
    method LiteralIteration(word: seq<byte>, kind: Kind, boolean: bool) returns (e: End)
      requires Valid() && |word| > 0 && word[|word| - 1] != 0 && (kind.Boolean? || kind.Null?) && !f.inString
      requires var o := Literal(text, View(), word, kind, boolean); o.Go? ==> Can(Memory(), o.ev)
      modifies this`i, this`f, this`values, this`top, this`alloc, this`strLen, this`str
      ensures var o := Literal(text, old(View()), word, kind, boolean);
              Ends(o, e) && (o.Go? ==> Valid() && View() == o.c && Memory() == Do(old(Memory()), o.ev))
    {
      hide Can, Do, PathOf, CellsOf, JsonControl.Tail;
      ghost var c, m := View(), Memory();
      if |text| - i < |word| {
        return Fail;
      }
      for k := 0 to |word|
        invariant forall j :: 0 <= j < k ==> At(text, i + 1 + j) == word[j]
      {
        if At(text, i + 1 + k) != word[k] {
          return Fail;
        }
      }
      FollowsInside(text, i, word);
      ghost var c1 := c.(i := c.i + |word|, path := c.path + [kind]);
      ghost var ev := [New(kind, boolean)];
      TailEvents(c1, true, false, ev);
      DoConcat(m, ev, JsonControl.Tail(c1, true, false, []).ev);
      NewValue(kind, boolean);
      PathTop(values, top);
      i := i + |word|;
      Tail(true, false);
      e := Continue;
    }

    /** The start of a number. */
    method NumberIteration(b: byte) returns (e: End)
      requires Valid() && b == At(text, i) && (Digit(b) || b == MINUS) && !f.inString
      requires var o := NumberStart(first, text, View(), b); o.Go? ==> Can(Memory(), o.ev)
      modifies this`i, this`f, this`values, this`top, this`alloc, this`strLen, this`str, this`num
      ensures var o := NumberStart(first, text, old(View()), b);
              Ends(o, e) && (o.Go? ==> Valid() && View() == o.c && Memory() == Do(old(Memory()), o.ev))
    {
      hide Can, Do, PathOf, CellsOf, JsonControl.Tail, Skip;
      ghost var c, m := View(), Memory();
      ghost var ev := [New(Number, false)];
      if !first {
        ghost var c1 := c.(i := Skip(text, c.i), path := c.path + [Number]);
        TailEvents(c1, true, true, ev);
        DoConcat(m, ev, JsonControl.Tail(c1, true, true, []).ev);
        NewValue(Number, false);
        PathTop(values, top);
        while i < |text| && NumberChar(text[i])
          invariant Valid() && Skip(text, i) == Skip(text, c.i) && Memory() == Do(m, ev)
          invariant View() == c.(i := i, path := c.path + [Number]) && top >= 0 && !f.inString
        {
          SkipStays(text, i);
          i := i + 1;
        }
        SkipStays(text, i);
        Tail(true, true);
      } else {
        NewValue(Number, false);
        num := NO_NUMERAL;
        if b == MINUS {
          num := num.(negative := true);
          i := i + 1;
        }
      }
      e := Continue;
    }

    /** The first character of a value. */
    method ValueIteration(b: byte) returns (e: End)
      requires Valid() && b == At(text, i) && !f.inString
      requires var o := ValueStart(first, text, View(), b); o.Go? ==> Can(Memory(), o.ev)
      modifies this`i, this`f, this`values, this`top, this`alloc, this`strLen, this`str, this`num
      ensures var o := ValueStart(first, text, old(View()), b);
              Ends(o, e) && (o.Go? ==> Valid() && View() == o.c && Memory() == Do(old(Memory()), o.ev))
    {
      hide Can, Do, PathOf, CellsOf, Literal, NumberStart;
      e := Continue;
      if b == OPEN_BRACE {
        NewValue(Object, false);
        i := i + 1;
      } else if b == OPEN_BRACKET {
        NewValue(Array, false);
        f := f.(seekValue := true);
        i := i + 1;
      } else if b == QUOTE {
        NewValue(Str, false);
        f := f.(inString := true);
        i := i + 1;
      } else if b == 116 {
        e := LiteralIteration([114, 117, 101], Boolean, true);
      } else if b == 102 {
        e := LiteralIteration([97, 108, 115, 101], Boolean, false);
      } else if b == 110 {
        e := LiteralIteration([117, 108, 108], Null, false);
      } else if Digit(b) || b == MINUS {
        e := NumberIteration(b);
      } else {
        e := Fail;
      }
    }

    /** With flag_seek_value. */
    method SeekIteration() returns (e: End)
      requires Valid() && Inv(View()) && !f.inString && !f.done && f.seekValue
      requires var o := SeekStep(first, text, View(), At(text, i)); o.Go? ==> Can(Memory(), o.ev)
      modifies this`i, this`f, this`values, this`top, this`alloc, this`strLen, this`str, this`num
      ensures var o := SeekStep(first, text, old(View()), At(text, old(i)));
              Ends(o, e) && (o.Go? ==> Valid() && View() == o.c && Memory() == Do(old(Memory()), o.ev))
    {
      hide Can, Do, CellsOf, PathOf, ValueStart, JsonControl.Tail;
      var b := At(text, i);
      PathTop(values, top);
      DoNothing(Memory());
      e := Continue;
      if Space(b) {
        i := i + 1;
      } else if b == CLOSE_BRACKET {
        if top == -1 {
          return NullTop;
        }
        if values[top].cell.kind != Array {
          return Fail;
        }
        f := f.(needComma := false, seekValue := false);
        TailEvents(View(), true, false, []);
        Tail(true, false);
      } else if f.needComma {
        if b != COMMA {
          return Fail;
        }
        f := f.(needComma := false);
        i := i + 1;
      } else if f.needColon {
        if b != COLON {
          return Fail;
        }
        f := f.(needColon := false);
        i := i + 1;
      } else {
        f := f.(seekValue := false);
        e := ValueIteration(b);
      }
    }

    /** The closing brace. */
    method CloseBrace()
      requires Valid() && !f.inString && top >= 0 && i < |text|
      requires var o := JsonControl.Tail(View().(f := f.(needComma := false)), true, false, []);
               o.Go? ==> Can(Memory(), o.ev)
      modifies this`i, this`f, this`values, this`top
      ensures var o := JsonControl.Tail(old(View()).(f := old(f).(needComma := false)), true, false, []);
              o.Go? && Valid() && View() == o.c && Memory() == Do(old(Memory()), o.ev)
    {
      hide Can, Do, CellsOf, PathOf, JsonControl.Tail;
      f := f.(needComma := false);
      TailEvents(View(), true, false, []);
      Tail(true, false);
    }

    /** Inside an object. */
    method ObjectIteration() returns (e: End)
      requires Valid() && !f.inString && top >= 0
      requires var o := ObjectStep(View(), At(text, i)); o.Go? ==> Can(Memory(), o.ev)
      modifies this`i, this`f, this`values, this`top, this`strLen, this`str
      ensures var o := ObjectStep(old(View()), At(text, old(i)));
              Ends(o, e) && (o.Go? ==> Valid() && View() == o.c && Memory() == Do(old(Memory()), o.ev))
    {
      hide Can, Do, CellsOf, PathOf, JsonControl.Tail;
      var b := At(text, i);
      DoNothing(Memory());
      e := Continue;
      if Space(b) {
        i := i + 1;
      } else if b == QUOTE {
        if f.needComma {
          return Fail;
        }
        OpenName();
        f := f.(inString := true);
        i := i + 1;
      } else if b == CLOSE_BRACE {
        CloseBrace();
      } else if b == COMMA && f.needComma {
        f := f.(needComma := false);
        i := i + 1;
      } else {
        e := Fail;
      }
    }

    /** Inside a number, in pass 1. */
    method DigitsIteration() returns (e: End)
      requires Valid() && !f.inString && top >= 0 && first
      requires var o := NumberStep(View(), At(text, i)); o.Go? ==> Can(Memory(), o.ev)
      modifies this`i, this`f, this`values, this`top, this`num
      ensures var o := NumberStep(old(View()), At(text, old(i)));
              Ends(o, e) && (o.Go? ==> Valid() && View() == o.c && Memory() == Do(old(Memory()), o.ev))
    {
      hide Can, Do, CellsOf, PathOf, JsonControl.Tail, Int64;
      var b := At(text, i);
      DoNothing(Memory());
      e := Continue;
      if Digit(b) {
        num := num.(digits := num.digits + 1);
        if num.e {
          num := num.(eSign := true);
        } else if !num.isDouble {
          if num.zero {
            return Fail;
          }
          num := num.(zero := num.digits == 1 && b == 48, integer := Int64(num.integer * 10 + (b - 48)));
        }
        i := i + 1;
      } else if (b == PLUS || b == MINUS) && num.e && !num.eSign {
        num := num.(eSign := true, eNegative := b == MINUS);
        i := i + 1;
      } else if b == DOT && !num.isDouble {
        if num.digits == 0 {
          return Fail;
        }
        num := num.(isDouble := true, digits := 0);
        i := i + 1;
      } else if (num.e || num.isDouble) && num.digits == 0 {
        return Fail;
      } else if !num.e && (b == LOWER_E || b == UPPER_E) {
        num := num.(e := true, isDouble := true, digits := 0, zero := false);
        i := i + 1;
      } else {
        TailEvents(View(), true, true,
            [Value(num.isDouble, if num.negative then Int64(-num.integer) else num.integer)]);
        EndNumber();
      }
    }

    method EndNumber()
      requires Valid() && !f.inString && top >= 0 && first
      requires var v := Value(num.isDouble, if num.negative then Int64(-num.integer) else num.integer);
               var o := JsonControl.Tail(View(), true, true, [v]); Can(Memory(), o.ev)
      modifies this`i, this`f, this`values, this`top
      ensures var v := Value(old(num.isDouble), if old(num.negative) then Int64(-old(num.integer))
          else old(num.integer));
              var o := JsonControl.Tail(old(View()), true, true, [v]);
              Valid() && View() == o.c && Memory() == Do(old(Memory()), o.ev)
    {
      hide Can, Do, CellsOf, PathOf, JsonControl.Tail, Int64;
      var integer := if num.negative then Int64(-num.integer) else num.integer;
      ghost var c, m := View(), Memory();
      ghost var v := [Value(num.isDouble, integer)];
      TailEvents(c, true, true, v);
      DoConcat(m, v, JsonControl.Tail(c, true, true, []).ev);
      SetNumber(num.isDouble, integer);
      Tail(true, true);
    }

    /** One iteration of the loop. */
    method Iterate() returns (e: End)
      requires Valid() && Inv(View()) && (first || !InNumber(View()))
      requires var o := Step(first, text, View()); o.Go? ==> Can(Memory(), o.ev)
      modifies this`i, this`f, this`values, this`top, this`alloc, this`strLen, this`str, this`num
      ensures var o := Step(first, text, old(View()));
              && Ends(o, e) && (o.Go? ==> Valid() && View() == o.c && Memory() == Do(old(Memory()), o.ev))
              && (o.Finished? ==> Valid() && values == old(values))
    {
      hide Can, Do, CellsOf, PathOf, StringStep, SeekStep, ObjectStep, NumberStep;
      PathTop(values, top);
      if Step(first, text, View()).Finished? {
        FinishedMeans(first, text, View());
      }
      if f.inString {
        e := StringIteration();
      } else if f.done {
        var b := At(text, i);
        DoNothing(Memory());
        if b == 0 {
          e := Finish;
        } else if Space(b) {
          i := i + 1;
          e := Continue;
        } else {
          e := Fail;
        }
      } else if f.seekValue {
        e := SeekIteration();
      } else if values[top].cell.kind == Object {
        e := ObjectIteration();
      } else {
        e := DigitsIteration();
      }
    }

    // ---- Both passes ----

    /** Pass 1: counts, and fails, finishes or goes astray as the text says. */
    method CountPass() returns (e: End)
      requires Valid() && first && View() == Start() && Memory() == First(NOTHING_COUNTED)
      modifies this`i, this`f, this`values, this`top, this`alloc, this`strLen, this`str, this`num
      ensures var r := Run(true, text, Start());
              && EndsRun(r, e)
              && (e.Finish? ==>
                    && Valid() && CountFitsAll(NOTHING_COUNTED, r.ev)
                    && CellsOf(values) == CountAll(NOTHING_COUNTED, r.ev).cells)
    {
      hide CellsOf, PathOf, Run, Rel, Wf, Counts, Step, Inv, CountFitsAll, CountAll, FillAll, Build, Phase;
      ghost var t, ev := EMPTY, [];
      StartFits();
      NothingCounted();
      e := Continue;
      while e.Continue?
        invariant e.Continue? ==> Valid() && Inv(View()) && Rel(View(), t) && Wf(t)
        invariant e.Continue? ==> Run(true, text, Start()) == Prepend(ev, Run(true, text, View()))
        invariant e.Continue? ==> Counts(Memory().count, t) && CountFitsAll(NOTHING_COUNTED, ev)
        invariant e.Continue? ==> Memory().count == CountAll(NOTHING_COUNTED, ev)
        invariant !e.Continue? ==> EndsRun(Run(true, text, Start()), e)
        invariant e.Finish? ==> Valid() && CountFitsAll(NOTHING_COUNTED, Run(true, text, Start()).ev)
                                && CellsOf(values) == CountAll(NOTHING_COUNTED, Run(true, text, Start()).ev).cells
        decreases e.Continue?, if e.Continue? then |text| - i else 0, if e.Continue? then Phase(View()) else 0
      {
        ghost var c, m := View(), Memory();
        t, ev := CountAhead(text, c, t, m.count, ev);
        e := Iterate();
      }
    }

    /** The start of pass 2: flags and cursor as at the start, and the first value next on the allocation list. */
    method Rewind()
      requires Valid() && first
      modifies this
      ensures Valid() && !first && View() == Start() && Memory() == Second(Unfilled(old(CellsOf(values))))
    {
      hide PathOf;
      first := false;
      i, strLen, top, alloc := 0, 0, -1, 0;
      f := Flags(false, true, false, false, false, false);
      num := NO_NUMERAL;
      var kept := values;
      values, str := seq(|kept|, k requires 0 <= k < |kept| => Untouched(kept[k].cell)), [];
      NoPath(values);
    }

    /** Pass 2: fills the blocks of the counted sizes. It is called where that is known to go well. */
    method FillPass(ghost s: Filling)
      requires Valid() && !first && View() == Start() && Run(false, text, Start()).Ok?
      requires FillAll(Memory().fill, Run(false, text, Start()).ev) == Fill(s)
      modifies this`i, this`f, this`values, this`top, this`alloc, this`strLen, this`str, this`num
      ensures values == s.slots
    {
      hide CellsOf, PathOf, Run, Step, Inv, FillAll, Phase, InNumber;
      var e := Continue;
      StartsRight();
      while e.Continue?
        invariant e.Continue? || e.Finish?
        invariant e.Continue? ==> Valid() && Inv(View()) && !InNumber(View()) && Run(false, text, View()).Ok?
        invariant e.Continue? ==> FillAll(Memory().fill, Run(false, text, View()).ev) == Fill(s)
        invariant e.Finish? ==> values == s.slots
        decreases e.Continue?, if e.Continue? then |text| - i else 0, if e.Continue? then Phase(View()) else 0
      {
        FillAhead(text, View(), Memory().fill, s);
        e := Iterate();
      }
    }
  }

  /** The outcome and the end of an iteration say the same. */
  predicate Ends(o: Outcome, e: End) {
    match o
    case Go(_, _) => e.Continue?
    case Finished => e.Finish?
    case Failed => e.Fail?
    case Crashed => e.NullTop?
  }

  /** top and the last kind on the path. */
  lemma PathTop(values: seq<Slot>, k: int)
    requires -1 <= k < |values|
    ensures PathOf(values, k) == [] <==> k == -1
    ensures k >= 0 ==> Last(PathOf(values, k)) == values[k].cell.kind
  {
  }

  /** The end of a pass. */
  predicate EndsRun(r: Result, e: End) {
    match r
    case Ok(_) => e.Finish?
    case Error => e.Fail?
    case Crash => e.NullTop?
  }

  lemma NothingCounted()
    ensures CountFitsAll(NOTHING_COUNTED, []) && CountAll(NOTHING_COUNTED, []) == NOTHING_COUNTED
        && Counts(NOTHING_COUNTED, EMPTY)
  {
  }

  /** What the next iteration of pass 1 does. */
  lemma CountAhead(text: seq<byte>, c: Ctl, t: Tree, s: Counting, ev: seq<Event>) returns (t': Tree, ev': seq<Event>)
    requires Inv(c) && c.i <= |text| && Rel(c, t) && Wf(t) && Counts(s, t)
    requires CountFitsAll(NOTHING_COUNTED, ev) && s == CountAll(NOTHING_COUNTED, ev)
    ensures var o := Step(true, text, c);
            if o.Go? then
              && Inv(o.c) && Rel(o.c, t') && Wf(t') && Forward(text, c, o.c)
              && CountFitsAll(s, o.ev) && Counts(CountAll(s, o.ev), t')
              && CountFitsAll(NOTHING_COUNTED, ev') && CountAll(s, o.ev) == CountAll(NOTHING_COUNTED, ev')
              && Prepend(ev, Run(true, text, c)) == Prepend(ev', Run(true, text, o.c))
            else
              && Run(true, text, c) == (if o.Finished? then Ok([]) else if o.Failed? then Error else Crash)
              && ev' == ev && Prepend(ev, Ok([])) == Ok(ev)
  {
    hide Rel, Wf, Counts, Step, Inv, CountFitsAll, CountAll, Build, Phase, FitsAll;
    StepKeeps(true, text, c);
    var o := Step(true, text, c);
    if o.Go? {
      StepFits(text, c, t);
      t', ev' := Build(t, o.ev), ev + o.ev;
      CountsTree(s, t, o.ev);
      CountJoin(NOTHING_COUNTED, ev, o.ev);
      PrependTwice(ev, o.ev, Run(true, text, o.c));
    } else {
      t', ev' := t, ev;
      assert ev + [] == ev;
    }
  }

  lemma NoPath(values: seq<Slot>)
    ensures PathOf(values, -1) == []
  {
  }

  lemma StartsRight()
    ensures Inv(Start()) && !InNumber(Start())
  {
  }

  /** Pass 2 is never inside a number. */
  lemma NeverInside(text: seq<byte>, c: Ctl)
    requires Inv(c) && c.i <= |text| && !InNumber(c)
    ensures var o := Step(false, text, c); o.Go? ==> !InNumber(o.c)
  {
    hide StringStep, SeekStep, ObjectStep, NumberStep;
    if c.f.inString {
      StringLeaves(text, c);
    } else if !c.f.done && c.f.seekValue {
      SeekLeaves(text, c);
    } else if !c.f.done {
      ObjectLeaves(c, At(text, c.i));
    }
  }

  /** A complete value is not a number in the making. */
  lemma TailLeaves(c: Ctl, reproc: bool, ev: seq<Event>)
    requires c.path != [] && forall k :: 0 <= k < |c.path| - 1 ==> Container(c.path[k])
    ensures !InNumber(JsonControl.Tail(c, true, reproc, ev).c)
  {
  }

  lemma StringLeaves(text: seq<byte>, c: Ctl)
    requires Inv(c) && c.f.inString
    ensures var o := StringStep(text, c, At(text, c.i)); o.Go? ==> !InNumber(o.c)
  {
    hide HexDigits, CodeBytes, EscapeByte, JsonControl.Tail;
    TailLeaves(c.(f := c.f.(inString := false)), false, [EndStr]);
  }

  lemma ObjectLeaves(c: Ctl, b: byte)
    requires Inv(c) && !c.f.inString && !c.f.done && !c.f.seekValue && Last(c.path).Object?
    ensures var o := ObjectStep(c, b); o.Go? ==> !InNumber(o.c)
  {
    hide JsonControl.Tail;
    TailLeaves(c.(f := c.f.(needComma := false)), false, []);
  }

  lemma LiteralLeaves(text: seq<byte>, c: Ctl, word: seq<byte>, kind: Kind, boolean: bool)
    requires forall k :: 0 <= k < |c.path| ==> Container(c.path[k])
    ensures var o := Literal(text, c, word, kind, boolean); o.Go? ==> !InNumber(o.c)
  {
    hide JsonControl.Tail, Follows;
    TailLeaves(c.(i := c.i + |word|, path := c.path + [kind]), false, [New(kind, boolean)]);
  }

  lemma SeekLeaves(text: seq<byte>, c: Ctl)
    requires Inv(c) && !c.f.inString && !c.f.done && c.f.seekValue
    ensures var o := SeekStep(false, text, c, At(text, c.i)); o.Go? ==> !InNumber(o.c)
  {
    hide JsonControl.Tail, Literal, Skip;
    var c1 := c.(f := c.f.(seekValue := false));
    LiteralLeaves(text, c1, [114, 117, 101], Boolean, true);
    LiteralLeaves(text, c1, [97, 108, 115, 101], Boolean, false);
    LiteralLeaves(text, c1, [117, 108, 108], Null, false);
    TailLeaves(c1.(i := Skip(text, c.i), path := c.path + [Number]), true, [New(Number, false)]);
    if c.path != [] {
      TailLeaves(c.(f := c.f.(needComma := false, seekValue := false)), false, []);
    }
  }

  /** What the next iteration of pass 2 does. */
  lemma FillAhead(text: seq<byte>, c: Ctl, fill: Filling, s: Filling)
    requires Inv(c) && c.i <= |text| && !InNumber(c) && Run(false, text, c).Ok?
    requires FillAll(fill, Run(false, text, c).ev) == Fill(s)
    ensures var o := Step(false, text, c);
            && (o.Go? || o.Finished?)
            && (o.Finished? ==> fill == s)
            && (o.Go? ==> Inv(o.c) && !InNumber(o.c) && Forward(text, c, o.c) && Run(false, text, o.c).Ok?
                          && FillAll(fill, o.ev).Fill?
                          && FillAll(FillAll(fill, o.ev).s, Run(false, text, o.c).ev) == Fill(s))
  {
    hide Step, Inv, InNumber, Phase, FillStep;
    StepKeeps(false, text, c);
    NeverInside(text, c);
    var o := Step(false, text, c);
    if o.Go? {
      FillConcat(fill, o.ev, Run(false, text, o.c).ev);
    }
  }

  /** The path of a value and of its parent. */
  lemma PathUp(values: seq<Slot>, k: int)
    requires 0 <= k < |values| && -1 <= values[k].cell.parent < k
    ensures var path, p := PathOf(values, k), values[k].cell.parent;
            && |path| >= 1 && path[..|path| - 1] == PathOf(values, p) && (|path| <= 1 <==> p == -1)
            && (p >= 0 ==> path[|path| - 2] == values[p].cell.kind)
  {
  }

  /** The cursor and flag_next do not depend on each other. */
  lemma TailCursor(c: Ctl, next: bool, reproc: bool)
    ensures var o, o' := JsonControl.Tail(c, next, reproc, []),
                         JsonControl.Tail(c.(i := if reproc then c.i else c.i + 1), true, true, []);
            if next then o == o' else o == Go(c.(i := if reproc then c.i else c.i + 1), [])
  {
  }

  lemma TailEvents(c: Ctl, next: bool, reproc: bool, ev: seq<Event>)
    ensures var o, o' := JsonControl.Tail(c, next, reproc, ev), JsonControl.Tail(c, next, reproc, []);
            o.Go? && o'.Go? && o.c == o'.c && o.ev == ev + o'.ev
  {
    assert ev + [] == ev && [] + [Up] == [Up];
  }
}
