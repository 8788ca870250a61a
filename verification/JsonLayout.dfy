/** The flags and the tree go together: every event of pass 1 makes sense when it happens. */
module JsonLayout {
  import opened Bits
  import opened JsonControl
  import opened JsonPasses
  import opened JsonMemory

  /** The open nodes have the kinds on the path. */
  ghost predicate SamePathOf(c: Ctl, t: Tree) {
    && |c.path| == |t.chain| && (t.chain == [] <==> t.nodes == [])
    && forall j :: 0 <= j < |c.path| ==> t.chain[j] < |t.nodes| && t.nodes[t.chain[j]].kind == c.path[j]
  }

  /** The state of the loop and the tree that was built so far. */
  ghost predicate Rel(c: Ctl, t: Tree) {
    && SamePathOf(c, t) && t.open == c.f.inString && (t.open ==> |t.cur| == c.strLen)
    && (TopIs(t, Object) ==> if c.f.seekValue then Named(t.nodes[Top(t)]) else Complete(t.nodes[Top(t)]))
    && (t.open && TopIs(t, Str) ==> t.nodes[Top(t)].text == [])
  }

  lemma OneEvent(t: Tree, e: Event)
    requires Fits(t, e)
    ensures FitsAll(t, [e]) && Build(t, [e]) == BuildStep(t, e)
  {
    hide Fits, BuildStep;
    assert [e][1..] == [];
  }

  /** A closed value: what flag_next does to both. */
  lemma TailFits(c: Ctl, t: Tree, reproc: bool, ev: seq<Event>) returns (up: seq<Event>)
    requires SamePathOf(c, t) && !t.open && !c.f.inString && !c.f.seekValue && t.chain != [] && Wf(t)
    requires TopIs(t, Object) ==> Complete(t.nodes[Top(t)])
    ensures var o := Tail(c, true, reproc, ev);
            && o.Go? && o.ev == ev + up && FitsAll(t, up) && Rel(o.c, Build(t, up))
  {
    var o := Tail(c, true, reproc, ev);
    if |c.path| <= 1 {
      up := [];
      assert ev + up == ev;
    } else {
      up := [Up];
      UpRel(c, t);
    }
  }

  lemma OpenIsNamed(t: Tree, j: nat)
    requires Wf(t) && j + 1 < |t.chain|
    ensures t.chain[j] < |t.nodes| && Container(t.nodes[t.chain[j]].kind)
    ensures t.nodes[t.chain[j]].kind.Object? ==> Named(t.nodes[t.chain[j]])
  {
    hide ChildrenOk, Attached, OlderChildren;
  }

  lemma UpRel(c: Ctl, t: Tree)
    requires SamePathOf(c, t) && !t.open && !c.f.inString && !c.f.seekValue && |t.chain| >= 2 && Wf(t)
    requires TopIs(t, Object) ==> Complete(t.nodes[Top(t)])
    ensures FitsAll(t, [Up]) && Rel(Tail(c, true, true, []).c, Build(t, [Up]))
        && Rel(Tail(c, true, false, []).c, Build(t, [Up]))
  {
    hide Wf;
    OpenIsNamed(t, |t.chain| - 2);
    OneEvent(t, Up);
    UpMeans(t);
    AfterUp(c, t, BuildStep(t, Up));
  }

  /** Attaching a closed value, seen from the open nodes. */
  ghost predicate Attaches(t: Tree, t': Tree) {
    var n := |t.chain|;
    && n >= 2 && t'.chain == t.chain[..n - 1] && |t'.nodes| == |t.nodes| && t'.open == t.open
    && t.chain[n - 2] < |t.nodes|
    && (forall k :: 0 <= k < |t.nodes| ==> t'.nodes[k].kind == t.nodes[k].kind)
    && |t'.nodes[t.chain[n - 2]].children| == |t.nodes[t.chain[n - 2]].children| + 1
    && t'.nodes[t.chain[n - 2]].names == t.nodes[t.chain[n - 2]].names
  }

  lemma UpMeans(t: Tree)
    requires Fits(t, Up)
    ensures Attaches(t, BuildStep(t, Up))
  {
  }

  lemma AfterUp(c: Ctl, t: Tree, t': Tree)
    requires SamePathOf(c, t) && !t.open && !c.f.inString && !c.f.seekValue && Attaches(t, t')
    requires t.nodes[t.chain[|t.chain| - 2]].kind.Object? ==> Named(t.nodes[t.chain[|t.chain| - 2]])
    ensures Rel(Tail(c, true, true, []).c, t') && Rel(Tail(c, true, false, []).c, t')
  {
    var n := |t.chain|;
    forall j | 0 <= j < n - 1 ensures t'.chain[j] < |t'.nodes| && t'.nodes[t'.chain[j]].kind == c.path[j] {
      assert t'.chain[j] == t.chain[j];
    }
    assert t'.chain[n - 2] == t.chain[n - 2];
  }

  lemma StringEnds(c: Ctl, t: Tree)
    requires Inv(c) && c.f.inString && !c.f.escaped && Rel(c, t) && Wf(t) && Last(c.path).Str?
    ensures var o := Tail(c.(f := c.f.(inString := false)), true, false, [EndStr]);
            o.Go? && FitsAll(t, o.ev) && Rel(o.c, Build(t, o.ev))
  {
    hide Wf, Tail;
    OneEvent(t, EndStr);
    StepWf(t, EndStr);
    var up := TailFits(c.(f := c.f.(inString := false)), BuildStep(t, EndStr), false, [EndStr]);
    BuildConcat(t, [EndStr], up);
  }

  lemma NameEnds(c: Ctl, t: Tree)
    requires Inv(c) && c.f.inString && Rel(c, t) && Last(c.path).Object?
    ensures FitsAll(t, [EndName])
    ensures Rel(c.(i := c.i + 1, f := c.f.(inString := false, seekValue := true, needColon := true)),
        Build(t, [EndName]))
  {
    OneEvent(t, EndName);
  }

  lemma StringContinues(c: Ctl, t: Tree, bytes: seq<byte>, c': Ctl)
    requires Inv(c) && c.f.inString && Rel(c, t)
    requires c' == c.(i := c'.i, f := c.f.(escaped := false), strLen := c.strLen + |bytes|)
    ensures FitsAll(t, [Put(bytes)]) && Rel(c', Build(t, [Put(bytes)]))
  {
    OneEvent(t, Put(bytes));
  }

  lemma StringFits(text: seq<byte>, c: Ctl, t: Tree)
    requires Inv(c) && c.f.inString && Rel(c, t) && Wf(t)
    ensures var o := StringStep(text, c, At(text, c.i)); o.Go? ==> FitsAll(t, o.ev) && Rel(o.c, Build(t, o.ev))
  {
    hide Wf, CodeBytes, HexDigits, EscapeByte, Tail, FitsAll, Build, Rel;
    var b, o := At(text, c.i), StringStep(text, c, At(text, c.i));
    if o.Go? {
      if b == QUOTE && !c.f.escaped {
        if Last(c.path).Object? {
          NameEnds(c, t);
        } else {
          StringEnds(c, t);
        }
      } else if b == BACKSLASH && !c.f.escaped {
        NoEvents(t);
        EscapeOnly(c, t);
      } else {
        StringContinues(c, t, o.ev[0].bytes, o.c);
      }
    }
  }

  lemma EscapeOnly(c: Ctl, t: Tree)
    requires Rel(c, t)
    ensures Rel(c.(i := c.i + 1, f := c.f.(escaped := true)), t)
  {
  }

  /** A value that is complete at once. */
  lemma LiteralFits(c: Ctl, t: Tree, kind: Kind, boolean: bool)
    requires Ready(c) && Rel(c.(f := c.f.(seekValue := true)), t) && Wf(t) && (kind.Boolean? || kind.Null?)
    ensures var e := New(kind, boolean);
            var o := Tail(c.(path := c.path + [kind]), true, false, [e]);
            o.Go? && FitsAll(t, o.ev) && Rel(o.c, Build(t, o.ev))
  {
    hide Wf, Tail;
    var e := New(kind, boolean);
    OneEvent(t, e);
    StepWf(t, e);
    var up := TailFits(c.(path := c.path + [kind]), BuildStep(t, e), false, [e]);
    BuildConcat(t, [e], up);
  }

  lemma LiteralIsTail(text: seq<byte>, c: Ctl, t: Tree, word: seq<byte>, kind: Kind, boolean: bool)
    requires Ready(c) && Rel(c.(f := c.f.(seekValue := true)), t) && Wf(t) && (kind.Boolean? || kind.Null?)
    ensures var o := Literal(text, c, word, kind, boolean); o.Go? ==> FitsAll(t, o.ev) && Rel(o.c, Build(t, o.ev))
  {
    hide Follows, Tail, FitsAll, Build, Wf, Rel;
    CursorOnly(c.(f := c.f.(seekValue := true)), t, c.i + |word|);
    var c1 := c.(i := c.i + |word|);
    assert c1.(f := c1.f.(seekValue := true)) == c.(f := c.f.(seekValue := true)).(i := c.i + |word|);
    LiteralFits(c1, t, kind, boolean);
  }

  /** The cursor plays no role for the tree. */
  lemma CursorOnly(c: Ctl, t: Tree, i: nat)
    requires Rel(c, t)
    ensures Rel(c.(i := i), t)
  {
  }

  lemma ValueFits(text: seq<byte>, c: Ctl, t: Tree)
    requires Ready(c) && Rel(c.(f := c.f.(seekValue := true)), t) && Wf(t)
    ensures var o := ValueStart(true, text, c, At(text, c.i)); o.Go? ==> FitsAll(t, o.ev) && Rel(o.c, Build(t, o.ev))
  {
    hide Wf, Literal, Tail, NumberStart, Rel, Fits, BuildStep, FitsAll, Build;
    var b := At(text, c.i);
    if b == OPEN_BRACE || b == OPEN_BRACKET || b == QUOTE || Digit(b) || b == MINUS {
      OpensFit(text, c, t);
    } else {
      LiteralIsTail(text, c, t, [114, 117, 101], Boolean, true);
      LiteralIsTail(text, c, t, [97, 108, 115, 101], Boolean, false);
      LiteralIsTail(text, c, t, [117, 108, 108], Null, false);
    }
  }

  /** Values that stay open: containers, strings and numbers. */
  lemma OpensFit(text: seq<byte>, c: Ctl, t: Tree)
    requires Ready(c) && Rel(c.(f := c.f.(seekValue := true)), t)
    requires var b := At(text, c.i); b == OPEN_BRACE || b == OPEN_BRACKET || b == QUOTE || Digit(b) || b == MINUS
    ensures var o := ValueStart(true, text, c, At(text, c.i)); o.Go? && FitsAll(t, o.ev) && Rel(o.c, Build(t, o.ev))
  {
    hide Fits, BuildStep, FitsAll, Build;
    var o := ValueStart(true, text, c, At(text, c.i));
    var kind := o.ev[0].kind;
    assert o.ev == [New(kind, false)];
    OpenFits(c, t, kind);
  }

  lemma OpenFits(c: Ctl, t: Tree, kind: Kind)
    requires Ready(c) && Rel(c.(f := c.f.(seekValue := true)), t)
    ensures FitsAll(t, [New(kind, false)])
    ensures var t' := Build(t, [New(kind, false)]);
            && SamePathOf(c.(path := c.path + [kind]), t') && t'.open == kind.Str? && t'.cur == []
            && TopIs(t', kind) && Complete(t'.nodes[Top(t')]) && t'.nodes[Top(t')].text == []
  {
    OneEvent(t, New(kind, false));
  }

  lemma SeekFits(text: seq<byte>, c: Ctl, t: Tree)
    requires Inv(c) && !c.f.inString && !c.f.done && c.f.seekValue && Rel(c, t) && Wf(t)
    ensures var o := SeekStep(true, text, c, At(text, c.i)); o.Go? ==> FitsAll(t, o.ev) && Rel(o.c, Build(t, o.ev))
  {
    hide Wf, ValueStart, Tail, Fits, Build;
    NoEvents(t);
    var b := At(text, c.i);
    if !Space(b) && b != CLOSE_BRACKET && !c.f.needComma && !c.f.needColon {
      var c1 := c.(f := c.f.(seekValue := false));
      assert c1.(f := c1.f.(seekValue := true)) == c;
      ValueFits(text, c1, t);
    }
    if !Space(b) && b == CLOSE_BRACKET && c.path != [] && Last(c.path).Array? {
      var up := TailFits(c.(f := c.f.(needComma := false, seekValue := false)), t, false, []);
      assert [] + up == up;
    }
  }

  lemma NoEvents(t: Tree)
    ensures FitsAll(t, []) && Build(t, []) == t
  {
  }

  lemma ObjectFits(text: seq<byte>, c: Ctl, t: Tree)
    requires Inv(c) && !c.f.inString && !c.f.done && !c.f.seekValue && Last(c.path).Object? && Rel(c, t) && Wf(t)
    ensures var o := ObjectStep(c, At(text, c.i)); o.Go? ==> FitsAll(t, o.ev) && Rel(o.c, Build(t, o.ev))
  {
    hide Wf, Tail;
    var b := At(text, c.i);
    NoEvents(t);
    if b == QUOTE && !c.f.needComma {
      OneEvent(t, BeginName);
    }
    if b == CLOSE_BRACE {
      var up := TailFits(c.(f := c.f.(needComma := false)), t, false, []);
      assert [] + up == up;
    }
  }

  lemma NumberFits(text: seq<byte>, c: Ctl, t: Tree)
    requires Inv(c) && InNumber(c) && Rel(c, t) && Wf(t)
    ensures var o := NumberStep(c, At(text, c.i)); o.Go? ==> FitsAll(t, o.ev) && Rel(o.c, Build(t, o.ev))
  {
    hide Wf, Tail, NumberStep;
    var b, o := At(text, c.i), NumberStep(c, At(text, c.i));
    NumberStepMeans(c, b);
    NoEvents(t);
    if o.Go? && o.ev != [] {
      var e := o.ev[0];
      OneEvent(t, e);
      StepWf(t, e);
      var up := TailFits(c, BuildStep(t, e), true, [e]);
      BuildConcat(t, [e], up);
    }
  }

  /** One iteration of pass 1 and the tree. */
  lemma StepFits(text: seq<byte>, c: Ctl, t: Tree)
    requires Inv(c) && Rel(c, t) && Wf(t)
    ensures var o := Step(true, text, c); o.Go? ==> FitsAll(t, o.ev) && Rel(o.c, Build(t, o.ev)) && Wf(Build(t, o.ev))
  {
    hide Wf, StringStep, SeekStep, ObjectStep, NumberStep, Fits, BuildStep;
    NoEvents(t);
    if c.f.inString {
      StringFits(text, c, t);
    } else if c.f.done {
    } else if c.f.seekValue {
      SeekFits(text, c, t);
    } else if Last(c.path).Object? {
      ObjectFits(text, c, t);
    } else {
      NumberFits(text, c, t);
    }
    var o := Step(true, text, c);
    if o.Go? {
      BuildWf(t, o.ev);
    }
  }

  /** A tree whose root is complete. */
  ghost predicate Whole(t: Tree) {
    Wf(t) && t.chain == [0] && !t.open && t.nodes != [] && Complete(t.nodes[0])
  }

  /** Whenever pass 1 succeeds, its events build a whole tree. */
  lemma {:induction false} RunFits(text: seq<byte>, c: Ctl, t: Tree)
    requires Inv(c) && c.i <= |text| && Rel(c, t) && Wf(t) && Run(true, text, c).Ok?
    ensures FitsAll(t, Run(true, text, c).ev) && Whole(Build(t, Run(true, text, c).ev))
    decreases |text| - c.i, Phase(c)
  {
    hide Wf, Step, Fits, BuildStep, Rel, Inv;
    StepKeeps(true, text, c);
    var o := Step(true, text, c);
    if o.Go? {
      StepFits(text, c, t);
      RunFits(text, o.c, Build(t, o.ev));
      BuildConcat(t, o.ev, Run(true, text, o.c).ev);
    } else {
      FinishedWhole(text, c, t);
    }
  }

  lemma FinishedWhole(text: seq<byte>, c: Ctl, t: Tree)
    requires Inv(c) && Rel(c, t) && Wf(t) && Step(true, text, c).Finished?
    ensures FitsAll(t, []) && Whole(Build(t, []))
  {
    hide ChildrenOk, Attached, NamesOk, OlderChildren, Step;
    FinishedMeans(true, text, c);
    NoEvents(t);
    assert t.chain == [0];
  }

  lemma FinishedMeans(first: bool, text: seq<byte>, c: Ctl)
    requires Inv(c) && Step(first, text, c).Finished?
    ensures c.f.done && !c.f.inString && !c.f.seekValue
  {
    hide Tail, StringStep, SeekStep, ObjectStep, NumberStep;
    if c.f.inString {
      StringNeverFinishes(text, c);
    } else if !c.f.done && c.f.seekValue {
      SeekNeverFinishes(first, text, c);
    } else if !c.f.done {
      RestNeverFinishes(c, At(text, c.i));
    }
  }

  lemma StringNeverFinishes(text: seq<byte>, c: Ctl)
    requires c.path != []
    ensures !StringStep(text, c, At(text, c.i)).Finished?
  {
    hide HexDigits, CodeBytes;
  }

  lemma SeekNeverFinishes(first: bool, text: seq<byte>, c: Ctl)
    ensures !SeekStep(first, text, c, At(text, c.i)).Finished?
  {
    hide Follows, Skip;
  }

  lemma RestNeverFinishes(c: Ctl, b: byte)
    ensures !ObjectStep(c, b).Finished? && !NumberStep(c, b).Finished?
  {
    hide DigitStep, NumberComplete, Int64;
  }

  lemma StartFits()
    ensures Inv(Start()) && Rel(Start(), EMPTY) && Wf(EMPTY)
  {
  }
}
