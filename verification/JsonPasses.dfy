/** Both passes of json_parse_ex take the same path: they differ only inside numbers, and there they skip the same
    characters. */
module JsonPasses {
  import opened Bits
  import opened JsonControl

  /** The events of pass 2: numbers have their value from pass 1. */
  function Strip(ev: seq<Event>): seq<Event> {
    if ev == [] then []
    else if ev[0].Value? then Strip(ev[1..])
    else [ev[0]] + Strip(ev[1..])
  }

  lemma {:induction false} StripConcat(a: seq<Event>, b: seq<Event>)
    ensures Strip(a + b) == Strip(a) + Strip(b)
  {
    if a == [] {
      assert a + b == b;
    } else {
      assert (a + b)[1..] == a[1..] + b;
      StripConcat(a[1..], b);
    }
  }

  /** Pass 2 has no numeral. */
  function Forget(c: Ctl): Ctl {
    c.(num := NO_NUMERAL)
  }

  predicate NoValue(ev: seq<Event>) {
    forall k :: 0 <= k < |ev| ==> !ev[k].Value?
  }

  lemma {:induction false} StripNothing(ev: seq<Event>)
    requires NoValue(ev)
    ensures Strip(ev) == ev
  {
    if ev != [] {
      StripNothing(ev[1..]);
    }
  }

  /** Whether this iteration starts a number. */
  predicate StartsNumber(text: seq<byte>, c: Ctl) {
    && !c.f.inString && !c.f.done && c.f.seekValue && !c.f.needComma && !c.f.needColon
    && (Digit(At(text, c.i)) || At(text, c.i) == MINUS)
  }

  /** What pass 2 does where pass 1 has outcome `o`. */
  predicate Alike(o: Outcome, o2: Outcome) {
    match o
    case Go(c', ev) => o2 == Go(Forget(c'), ev) && NoValue(ev) && !InNumber(c')
    case _ => o2 == o
  }

  lemma TailAlike(c: Ctl, reproc: bool, ev: seq<Event>)
    requires NoValue(ev) && c.path != [] && forall k :: 0 <= k < |c.path| - 1 ==> Container(c.path[k])
    ensures Alike(Tail(c, true, reproc, ev), Tail(Forget(c), true, reproc, ev))
  {
  }

  lemma StringAlike(text: seq<byte>, c: Ctl, b: byte)
    requires Inv(c) && c.f.inString
    ensures Alike(StringStep(text, c, b), StringStep(text, Forget(c), b))
  {
    hide HexDigits, CodeBytes, EscapeByte, Tail;
    TailAlike(c.(f := c.f.(inString := false)), false, [EndStr]);
  }

  lemma ObjectAlike(c: Ctl, b: byte)
    requires Inv(c) && !c.f.inString && !c.f.done && !c.f.seekValue && Last(c.path).Object?
    ensures Alike(ObjectStep(c, b), ObjectStep(Forget(c), b))
  {
    hide Tail;
    TailAlike(c.(f := c.f.(needComma := false)), false, []);
  }

  lemma LiteralAlike(text: seq<byte>, c: Ctl, word: seq<byte>, kind: Kind, boolean: bool)
    requires forall k :: 0 <= k < |c.path| ==> Container(c.path[k])
    ensures Alike(Literal(text, c, word, kind, boolean), Literal(text, Forget(c), word, kind, boolean))
  {
    hide Follows, Tail;
    TailAlike(c.(i := c.i + |word|, path := c.path + [kind]), false, [New(kind, boolean)]);
  }

  lemma ValueAlike(text: seq<byte>, c: Ctl, b: byte)
    requires forall k :: 0 <= k < |c.path| ==> Container(c.path[k])
    requires !Digit(b) && b != MINUS
    ensures Alike(ValueStart(true, text, c, b), ValueStart(false, text, Forget(c), b))
  {
    hide Literal;
    LiteralAlike(text, c, [114, 117, 101], Boolean, true);
    LiteralAlike(text, c, [97, 108, 115, 101], Boolean, false);
    LiteralAlike(text, c, [117, 108, 108], Null, false);
  }

  lemma SeekAlike(text: seq<byte>, c: Ctl, b: byte)
    requires Inv(c) && !c.f.inString && !c.f.done && c.f.seekValue
    requires c.f.needComma || c.f.needColon || (!Digit(b) && b != MINUS)
    ensures Alike(SeekStep(true, text, c, b), SeekStep(false, text, Forget(c), b))
  {
    hide ValueStart, Tail;
    if !c.f.needComma && !c.f.needColon {
      ValueAlike(text, c.(f := c.f.(seekValue := false)), b);
    }
    if c.path != [] {
      TailAlike(c.(f := c.f.(needComma := false, seekValue := false)), false, []);
    }
  }

  /** Outside numbers an iteration is the same in both passes. */
  lemma SameStep(text: seq<byte>, c: Ctl)
    requires Inv(c) && !InNumber(c) && !StartsNumber(text, c)
    ensures Alike(Step(true, text, c), Step(false, text, Forget(c)))
  {
    hide StringStep, SeekStep, ObjectStep;
    var b := At(text, c.i);
    if c.f.inString {
      StringAlike(text, c, b);
    } else if !c.f.done && c.f.seekValue {
      SeekAlike(text, c, b);
    } else if !c.f.done {
      ObjectAlike(c, b);
    }
  }

  // ---- Numbers ----

  /** Behind a value, a character that could continue a number is an error. */
  lemma NoNumberFollows(text: seq<byte>, c: Ctl, ev: seq<Event>)
    requires Inv(c) && InNumber(c) && c.i <= |text| && NumberChar(At(text, c.i))
    ensures var o := Tail(c, true, true, ev); o.Go? && Step(true, text, o.c) == Failed
  {
  }

  lemma SkipStays(text: seq<byte>, i: nat)
    ensures !NumberChar(At(text, i)) ==> Skip(text, i) == i
    ensures i < |text| && NumberChar(At(text, i)) ==> Skip(text, i) == Skip(text, i + 1)
    ensures NumberChar(At(text, i)) ==> i < |text|
  {
  }

  /** What one iteration inside a number does. */
  lemma NumberStepMeans(c: Ctl, b: byte)
    ensures var o := NumberStep(c, b);
            && !o.Finished? && !o.Crashed?
            && (o.Go? && o.ev == [] ==> o.c == c.(i := c.i + 1, num := o.c.num) && NumberChar(b))
            && (o.Go? && o.ev != [] ==> o == Tail(c, true, true, [o.ev[0]]) && o.ev[0].Value?)
  {
    hide DigitStep, NumberComplete, Int64;
  }

  /** If pass 1 succeeds, the number ends exactly where pass 2 stops skipping. */
  lemma {:induction false} NumberRuns(text: seq<byte>, c: Ctl) returns (n: Numeral, v: Event)
    requires Inv(c) && c.i <= |text| && InNumber(c) && Run(true, text, c).Ok?
    ensures v.Value?
    ensures var o := Tail(c.(i := Skip(text, c.i), num := n), true, true, [v]);
            o.Go? && Inv(o.c) && o.c.i <= |text| && Run(true, text, c) == Prepend(o.ev, Run(true, text, o.c))
    decreases |text| - c.i
  {
    hide NumberStep, Skip, NumberChar;
    StepKeeps(true, text, c);
    NumberStepMeans(c, At(text, c.i));
    var o := Step(true, text, c);
    SkipStays(text, c.i);
    if o.ev == [] {
      n, v := NumberRuns(text, o.c);
      assert c.(i := Skip(text, c.i), num := n) == o.c.(i := Skip(text, o.c.i), num := n);
      PrependNothing(Run(true, text, o.c));
    } else {
      n, v := c.num, o.ev[0];
      if NumberChar(At(text, c.i)) {
        NoNumberFollows(text, c, [v]);
      }
      assert c.(i := c.i, num := c.num) == c;
    }
  }

  lemma PrependNothing(r: Result)
    ensures Prepend([], r) == r
  {
    if r.Ok? {
      assert [] + r.ev == r.ev;
    }
  }

  lemma PrependTwice(a: seq<Event>, b: seq<Event>, r: Result)
    ensures Prepend(a, Prepend(b, r)) == Prepend(a + b, r)
  {
    if r.Ok? {
      assert a + (b + r.ev) == (a + b) + r.ev;
    }
  }

  /** The tail of a number in both passes. */
  lemma SameTail(c1: Ctl, v: Event)
    requires Inv(c1) && InNumber(c1) && v.Value?
    ensures var o1, o2 := Tail(c1, true, true, [v]), Tail(Forget(c1), true, true, [New(Number, false)]);
            && o1.Go? && o2.Go? && o2.c == Forget(o1.c) && !InNumber(o1.c) && o1.c.i == c1.i
            && o2.ev == [New(Number, false)] + Strip(o1.ev)
  {
    assert [v][1..] == [] && ([v] + [Up])[1..] == [Up] && [Up][1..] == [];
    assert Strip([v]) == [] && Strip([Up]) == [Up] && Strip([v] + [Up]) == [Up];
    assert [New(Number, false)] + [] == [New(Number, false)];
  }

  /** The first iteration of a number in pass 1. */
  lemma NumberStarts(text: seq<byte>, c: Ctl)
    requires Inv(c) && StartsNumber(text, c)
    ensures var o := Step(true, text, c);
            && o.Go? && o.ev == [New(Number, false)] && InNumber(o.c)
            && o.c == c.(i := o.c.i, f := c.f.(seekValue := false), path := c.path + [Number], num := o.c.num)
            && (o.c.i == c.i || (o.c.i == c.i + 1 && NumberChar(At(text, c.i))))
  {
  }

  /** The whole number in pass 2. */
  lemma NumberSkipped(text: seq<byte>, c: Ctl)
    requires Inv(c) && StartsNumber(text, c)
    ensures Step(false, text, c)
         == Tail(c.(i := Skip(text, c.i), f := c.f.(seekValue := false), path := c.path + [Number]), true, true,
         [New(Number, false)])
  {
    hide Skip, Tail;
  }

  /** One number in both passes. */
  lemma SameNumber(text: seq<byte>, c: Ctl) returns (c': Ctl, ev: seq<Event>)
    requires Inv(c) && c.i <= |text| && StartsNumber(text, c) && Run(true, text, c).Ok?
    ensures Inv(c') && c.i < c'.i <= |text| && !InNumber(c')
    ensures Run(true, text, c) == Prepend(ev, Run(true, text, c'))
    ensures Step(false, text, Forget(c)) == Go(Forget(c'), Strip(ev))
  {
    hide Skip, NumberChar, Tail, Step, Strip;
    StepKeeps(true, text, c);
    NumberStarts(text, c);
    NumberSkipped(text, Forget(c));
    var o := Step(true, text, c);
    var c1 := o.c;
    SkipStays(text, c.i);
    SkipMoves(text, c.i);
    assert Skip(text, c1.i) == Skip(text, c.i);
    var n, v := NumberRuns(text, c1);
    var e1 := c1.(i := Skip(text, c1.i), num := n);
    SameTail(e1, v);
    var o1 := Tail(e1, true, true, [v]);
    c', ev := o1.c, o.ev + o1.ev;
    PrependTwice(o.ev, o1.ev, Run(true, text, c'));
    StripConcat(o.ev, o1.ev);
    StripNothing(o.ev);
  }

  lemma SkipMoves(text: seq<byte>, i: nat)
    requires Digit(At(text, i)) || At(text, i) == MINUS
    ensures Digit(At(text, i)) || At(text, i) == MINUS ==> NumberChar(At(text, i)) && Skip(text, i) > i
  {
    SkipStays(text, i);
  }

  /** Whenever pass 1 succeeds, pass 2 takes the same path and sees the same events. */
  lemma {:induction false} SamePath(text: seq<byte>, c: Ctl)
    requires Inv(c) && c.i <= |text| && !InNumber(c) && Run(true, text, c).Ok?
    ensures Inv(Forget(c)) && Run(false, text, Forget(c)) == Ok(Strip(Run(true, text, c).ev))
    decreases |text| - c.i
  {
    hide Skip, NumberChar, Tail, StringStep, SeekStep, ObjectStep, NumberStep;
    if StartsNumber(text, c) {
      var c', ev := SameNumber(text, c);
      SamePath(text, c');
      StripConcat(ev, Run(true, text, c').ev);
    } else {
      SameStep(text, c);
      StepKeeps(true, text, c);
      StepKeeps(false, text, Forget(c));
      var o := Step(true, text, c);
      if o.Go? {
        StepMoves(text, c);
        SamePath(text, o.c);
        StripConcat(o.ev, Run(true, text, o.c).ev);
        StripNothing(o.ev);
      }
    }
  }

  /** Only numbers are reprocessed. */
  lemma StepMoves(text: seq<byte>, c: Ctl)
    requires Inv(c) && !InNumber(c) && !StartsNumber(text, c)
    ensures var o := Step(true, text, c); o.Go? ==> o.c.i > c.i
  {
    hide HexDigits, CodeBytes, Follows, EscapeByte;
  }

  /** The whole of both passes. */
  lemma PassesAgree(text: seq<byte>)
    requires Run(true, text, Start()).Ok?
    ensures Run(false, text, Start()) == Ok(Strip(Run(true, text, Start()).ev))
  {
    SamePath(text, Start());
  }
}
