/** Pass 1 of json_parse_ex on texts of RFC 8259: it accepts them, and its events are those of the value. */
module JsonReading {
  import opened Bits
  import opened Sequences
  import opened JsonControl
  import opened JsonSyntax
  import opened JsonPasses
  import opened JsonGrammar

  /** `s` stands in the text at `p`. */
  predicate Holds(text: seq<byte>, p: nat, s: seq<byte>) {
    p + |s| <= |text| && text[p..p + |s|] == s
  }

  lemma HoldsConcat(text: seq<byte>, p: nat, a: seq<byte>, b: seq<byte>)
    requires Holds(text, p, a + b)
    ensures Holds(text, p, a) && Holds(text, p + |a|, b)
  {
    var s := text[p..p + |a + b|];
    assert s[..|a|] == a && s[|a|..] == b;
  }

  lemma HoldsHead(text: seq<byte>, p: nat, s: seq<byte>)
    requires Holds(text, p, s) && s != []
    ensures At(text, p) == s[0] && p < |text| && Holds(text, p + 1, s[1..])
  {
    assert s == [s[0]] + s[1..];
    HoldsConcat(text, p, [s[0]], s[1..]);
    assert text[p..p + |s|][0] == s[0];
  }

  lemma HoldsAt(text: seq<byte>, p: nat, s: seq<byte>, k: nat)
    requires Holds(text, p, s) && k < |s|
    ensures At(text, p + k) == s[k]
  {
    assert text[p..p + |s|][k] == s[k];
  }

  /** From `c` the parser comes to `c'` with the events `ev`. */
  ghost predicate Reaches(text: seq<byte>, c: Ctl, ev: seq<Event>, c': Ctl) {
    Inv(c) && c.i <= |text| && Inv(c') && c'.i <= |text| && Run(true, text, c) == Prepend(ev, Run(true, text, c'))
  }

  lemma Stay(text: seq<byte>, c: Ctl)
    requires Inv(c) && c.i <= |text|
    ensures Reaches(text, c, [], c)
  {
    hide Run, Inv;
    PrependNothing(Run(true, text, c));
  }

  lemma Onward(text: seq<byte>, a: Ctl, ev: seq<Event>, b: Ctl, ev': seq<Event>, c: Ctl)
    requires Reaches(text, a, ev, b) && Reaches(text, b, ev', c)
    ensures Reaches(text, a, ev + ev', c)
  {
    hide Run, Inv;
    PrependTwice(ev, ev', Run(true, text, c));
  }

  /** One iteration. */
  lemma OneStep(text: seq<byte>, c: Ctl)
    requires Inv(c) && c.i <= |text| && Step(true, text, c).Go?
    ensures var o := Step(true, text, c); Reaches(text, c, o.ev, o.c)
  {
    hide Step, Inv;
    StepKeeps(true, text, c);
  }

  // ---- White space ----

  /** States that skip white space. */
  predicate Skips(c: Ctl) {
    !c.f.inString && (c.f.done || c.f.seekValue || (c.path != [] && Last(c.path).Object?))
  }

  lemma {:induction false} SpaceRun(text: seq<byte>, c: Ctl, ws: seq<byte>)
    requires Inv(c) && c.i <= |text| && Skips(c) && Spaces(ws) && Holds(text, c.i, ws)
    ensures Reaches(text, c, [], c.(i := c.i + |ws|))
    decreases |ws|
  {
    if ws == [] {
      Stay(text, c);
      assert c.(i := c.i + 0) == c;
    } else {
      HoldsHead(text, c.i, ws);
      var c1 := c.(i := c.i + 1);
      SpaceStep(text, c);
      OneStep(text, c);
      SpaceRun(text, c1, ws[1..]);
      Onward(text, c, [], c1, [], c.(i := c.i + |ws|));
    }
  }

  lemma SpaceStep(text: seq<byte>, c: Ctl)
    requires Inv(c) && Skips(c) && Space(At(text, c.i))
    ensures Step(true, text, c) == Go(c.(i := c.i + 1), []) && Inv(c.(i := c.i + 1))
  {
    hide ValueStart, Tail;
  }

  // ---- Strings ----

  lemma PlainStep(text: seq<byte>, c: Ctl, b: byte)
    requires Inv(c) && c.f.inString && !c.f.escaped && c.strLen <= UINT_MAX && At(text, c.i) == b && ValidUnit(Plain(b))
    ensures Step(true, text, c) == Go(c.(i := c.i + 1, strLen := c.strLen + 1), [Put([b])])
  {
  }

  lemma BackslashStep(text: seq<byte>, c: Ctl)
    requires Inv(c) && c.f.inString && !c.f.escaped && c.strLen <= UINT_MAX && At(text, c.i) == 92
    ensures Step(true, text, c) == Go(c.(i := c.i + 1, f := c.f.(escaped := true)), [])
  {
  }

  lemma EscapeStep(text: seq<byte>, c: Ctl, b: byte)
    requires Inv(c) && c.f.inString && c.f.escaped && c.strLen <= UINT_MAX && At(text, c.i) == b && EscapeLetter(b)
    ensures Step(true, text, c)
         == Go(c.(i := c.i + 1, f := c.f.(escaped := false), strLen := c.strLen + 1), [Put([EscapeValue(b)])])
  {
  }

  lemma HoldsHex(text: seq<byte>, p: nat, h: seq<byte>, k: nat)
    requires Holds(text, p, h) && k < |h| && HexDigit(h[k])
    ensures At(text, p + k) == h[k] && HexValue(h[k]) == HexWeight(h[k]) && HexValue(h[k]) < 0x10
  {
    HoldsAt(text, p, h, k);
    HexValueMeans(h[k]);
  }

  lemma HexStep(text: seq<byte>, c: Ctl, h: seq<byte>)
    requires Inv(c) && c.f.inString && c.f.escaped && c.strLen <= UINT_MAX && ValidUnit(Hex(h))
    requires At(text, c.i) == 117 && Holds(text, c.i + 1, h)
    ensures var bytes := Utf8(Code(h));
            Step(true, text, c) == Go(c.(i := c.i + 5, f := c.f.(escaped := false), strLen := c.strLen + |bytes|),
                [Put(bytes)])
  {
    hide Encode, Utf8, HexValue, HexWeight, HexDigit;
    var p := c.i + 1;
    HoldsHex(text, p, h, 0);
    HoldsHex(text, p, h, 1);
    HoldsHex(text, p, h, 2);
    HoldsHex(text, p, h, 3);
    EncodeIsUtf8(HexWeight(h[0]) * 0x10 + HexWeight(h[1]), HexWeight(h[2]) * 0x10 + HexWeight(h[3]));
  }

  /** One character, of one, two or six bytes. */
  lemma UnitRun(text: seq<byte>, c: Ctl, u: Unit) returns (c': Ctl)
    requires Inv(c) && c.f.inString && !c.f.escaped && c.strLen <= c.i <= |text| <= UINT_MAX
    requires ValidUnit(u) && Holds(text, c.i, UnitText(u))
    ensures Reaches(text, c, [Put(UnitBytes(u))], c') && c'.strLen <= c'.i
    ensures c' == c.(i := c.i + |UnitText(u)|, strLen := c'.strLen)
  {
    hide Step, HexDigit, EscapeLetter, Utf8, Code;
    HoldsHead(text, c.i, UnitText(u));
    match u
    case Plain(b) =>
      PlainStep(text, c, b);
      OneStep(text, c);
      c' := Step(true, text, c).c;
    case Escape(e) =>
      var c1 := c.(i := c.i + 1, f := c.f.(escaped := true));
      BackslashStep(text, c);
      OneStep(text, c);
      HoldsHead(text, c.i + 1, [e]);
      EscapeStep(text, c1, e);
      OneStep(text, c1);
      c' := Step(true, text, c1).c;
      Onward(text, c, [], c1, [Put(UnitBytes(u))], c');
      assert [] + [Put(UnitBytes(u))] == [Put(UnitBytes(u))];
    case Hex(h) =>
      c' := HexRun(text, c, h);
  }

  lemma HexRun(text: seq<byte>, c: Ctl, h: seq<byte>) returns (c': Ctl)
    requires Inv(c) && c.f.inString && !c.f.escaped && c.strLen <= c.i <= |text| <= UINT_MAX
    requires ValidUnit(Hex(h)) && Holds(text, c.i, UnitText(Hex(h)))
    ensures Reaches(text, c, [Put(Utf8(Code(h)))], c') && c'.strLen <= c'.i
    ensures c' == c.(i := c.i + 6, strLen := c'.strLen)
  {
    hide Step, HexDigit;
    HoldsHead(text, c.i, [92, 117] + h);
    var c1 := c.(i := c.i + 1, f := c.f.(escaped := true));
    BackslashStep(text, c);
    OneStep(text, c);
    assert ([92, 117] + h)[1..] == [117] + h;
    HoldsHead(text, c.i + 1, [117] + h);
    assert ([117] + h)[1..] == h;
    HexStep(text, c1, h);
    OneStep(text, c1);
    c' := Step(true, text, c1).c;
    Onward(text, c, [], c1, [Put(Utf8(Code(h)))], c');
    assert [] + [Put(Utf8(Code(h)))] == [Put(Utf8(Code(h)))];
  }

  lemma {:induction false} UnitsRun(text: seq<byte>, c: Ctl, s: seq<Unit>) returns (c': Ctl)
    requires Inv(c) && c.f.inString && !c.f.escaped && c.strLen <= c.i <= |text| <= UINT_MAX
    requires ValidUnits(s) && Holds(text, c.i, UnitsText(s))
    ensures Reaches(text, c, Puts(s), c') && c'.strLen <= c'.i
    ensures c' == c.(i := c.i + |UnitsText(s)|, strLen := c'.strLen)
    decreases |s|
  {
    hide Reaches, ValidUnit, UnitBytes, UnitText, Inv;
    if s == [] {
      Stay(text, c);
      c' := c;
    } else {
      HoldsConcat(text, c.i, UnitText(s[0]), UnitsText(s[1..]));
      var c1 := UnitRun(text, c, s[0]);
      ReachedInv(text, c, [Put(UnitBytes(s[0]))], c1);
      c' := UnitsRun(text, c1, s[1..]);
      Onward(text, c, [Put(UnitBytes(s[0]))], c1, Puts(s[1..]), c');
    }
  }

  lemma ReachedInv(text: seq<byte>, c: Ctl, ev: seq<Event>, c': Ctl)
    requires Reaches(text, c, ev, c')
    ensures Inv(c) && Inv(c') && c'.i <= |text|
  {
  }

  // ---- Values ----

  /** Looking for a value, without anything in front of it. */
  ghost predicate Seeking(c: Ctl) {
    Inv(c) && c.f == Flags(false, true, false, false, false, false)
  }

  /** The state behind a value that was read from `c` on. */
  ghost predicate Behind(c: Ctl, c': Ctl) {
    && Inv(c')
    && (if c.path == [] then |c'.path| == 1 && c'.f == Flags(true, false, false, false, false, true)
        else c'.path == c.path && c'.f == Flags(true, Last(c.path).Array?, false, false, false, false))
  }

  function Ups(c: Ctl): seq<Event> {
    if c.path == [] then [] else [Up]
  }

  /** What flag_next does with a value whose kind stands on the path. */
  lemma TailBehind(c: Ctl, c1: Ctl, reproc: bool, ev: seq<Event>)
    requires Seeking(c) && |c1.path| == |c.path| + 1 && c1.path[..|c.path|] == c.path
    requires c1.f == Flags(false, false, false, false, false, false)
    ensures var o := Tail(c1, true, reproc, ev);
            o.Go? && o.ev == ev + Ups(c) && Behind(c, o.c) && o.c.i == if reproc then c1.i else c1.i + 1
  {
    var o := Tail(c1, true, reproc, ev);
    assert c1.path[..|c1.path| - 1] == c.path;
    if c.path == [] {
      assert ev + [] == ev;
    } else {
      assert c1.path[|c.path| - 1] == c.path[|c.path| - 1];
    }
  }

  /** The three words. */
  lemma WordRun(text: seq<byte>, c: Ctl, v: Text) returns (c': Ctl)
    requires Seeking(c) && c.i <= |text| && (v.TNull? || v.TTrue? || v.TFalse?) && Holds(text, c.i, Render(v))
    ensures Reaches(text, c, Events(v) + Ups(c), c') && Behind(c, c') && c'.i == c.i + |Render(v)|
  {
    hide Tail, Inv;
    var r := Render(v);
    HoldsHead(text, c.i, r);
    var word := r[1..];
    WordFollows(text, c.i, word);
    var kind := if v.TNull? then Null else Boolean;
    WordStep(text, c, v);
    var c1 := c.(i := c.i + |word|, path := c.path + [kind], f := c.f.(seekValue := false));
    TailBehind(c, c1, false, Events(v));
    OneStep(text, c);
    c' := Step(true, text, c).c;
  }

  lemma WordFollows(text: seq<byte>, i: nat, word: seq<byte>)
    requires Holds(text, i + 1, word)
    ensures Follows(text, i, word)
  {
    forall k | 0 <= k < |word| ensures At(text, i + 1 + k) == word[k] {
      HoldsAt(text, i + 1, word, k);
    }
  }

  lemma WordStep(text: seq<byte>, c: Ctl, v: Text)
    requires Seeking(c) && (v.TNull? || v.TTrue? || v.TFalse?)
    requires At(text, c.i) == Render(v)[0] && Follows(text, c.i, Render(v)[1..])
    ensures Step(true, text, c)
         == Tail(c.(i := c.i + |Render(v)| - 1, path := c.path + [if v.TNull? then Null else Boolean],
                    f := c.f.(seekValue := false)), true, false, Events(v))
  {
    hide Follows, Tail;
    assert v.TNull? ==> Render(v)[1..] == [117, 108, 108];
    assert v.TTrue? ==> Render(v)[1..] == [114, 117, 101];
    assert v.TFalse? ==> Render(v)[1..] == [97, 108, 115, 101];
  }

  /** Inside an integer after the digits `d`. */
  function IntState(c: Ctl, i: nat, negative: bool, d: seq<byte>): Ctl
    requires forall k :: 0 <= k < |d| ==> Decimal(d[k])
  {
    Ctl(i, Flags(false, false, false, false, false, false), c.path + [Kind.Number], c.strLen,
        Numeral(negative, |d| == 1 && d[0] == 48, false, false, false, |d|, false, Magnitude(d)))
  }

  lemma MagnitudeStep(d: seq<byte>, k: nat)
    requires ValidDigits(d) && k < |d|
    ensures Magnitude(d[..k + 1]) == Magnitude(d[..k]) * 10 + (d[k] as int - 48) && Decimal(d[k])
    ensures Magnitude(d[..k]) * 10 <= Magnitude(d[..k + 1]) <= Magnitude(d)
    decreases |d| - k
  {
    assert d[..k + 1][..k] == d[..k];
    if k + 1 == |d| {
      assert d[..k + 1] == d;
    } else {
      MagnitudeStep(d, k + 1);
    }
  }

  lemma IntDigit(text: seq<byte>, c: Ctl, i: nat, negative: bool, d: seq<byte>, k: nat)
    requires Seeking(c) && ValidDigits(d) && k < |d| && At(text, i) == d[k]
    ensures Step(true, text, IntState(c, i, negative, d[..k])) == Go(IntState(c, i + 1, negative, d[..k + 1]), [])
    ensures Inv(IntState(c, i, negative, d[..k]))
  {
    MagnitudeStep(d, k);
    var s := IntState(c, i, negative, d[..k]);
    assert d[..k + 1][0] == d[0];
    IntFits(Magnitude(d[..k + 1]));
  }

  lemma IntFits(x: int)
    requires -0x8000_0000_0000_0000 <= x < 0x8000_0000_0000_0000
    ensures Int64(x) == x
  {
  }

  lemma {:induction false} DigitsRun(text: seq<byte>, c: Ctl, i: nat, negative: bool, d: seq<byte>, k: nat)
    requires Seeking(c) && ValidDigits(d) && k <= |d| && Holds(text, i, d[k..])
    ensures Reaches(text, IntState(c, i, negative, d[..k]), [], IntState(c, i + (|d| - k), negative, d))
    decreases |d| - k
  {
    hide Step, Reaches, Inv, Magnitude;
    if k == |d| {
      assert d[..k] == d;
      IntStateInv(c, i, negative, d);
      Stay(text, IntState(c, i, negative, d));
    } else {
      HoldsHead(text, i, d[k..]);
      assert d[k..][1..] == d[k + 1..];
      IntDigit(text, c, i, negative, d, k);
      OneStep(text, IntState(c, i, negative, d[..k]));
      DigitsRun(text, c, i + 1, negative, d, k + 1);
      Onward(text, IntState(c, i, negative, d[..k]), [], IntState(c, i + 1, negative, d[..k + 1]), [],
             IntState(c, i + (|d| - k), negative, d));
      var none: seq<Event> := [];
      assert none + none == none;
    }
  }

  lemma IntStateInv(c: Ctl, i: nat, negative: bool, d: seq<byte>)
    requires Seeking(c) && forall k :: 0 <= k < |d| ==> Decimal(d[k])
    ensures Inv(IntState(c, i, negative, d)) && InNumber(IntState(c, i, negative, d))
  {
  }

  lemma IntStart(text: seq<byte>, c: Ctl, negative: bool, d: seq<byte>)
    requires Seeking(c) && ValidDigits(d) && At(text, c.i) == if negative then 45 else d[0]
    ensures Step(true, text, c) == Go(IntState(c, if negative then c.i + 1 else c.i, negative, d[..0]),
        [New(Kind.Number, false)])
  {
    assert Decimal(d[0]);
  }

  lemma IntEnd(text: seq<byte>, c: Ctl, i: nat, negative: bool, d: seq<byte>)
    requires Seeking(c) && ValidDigits(d) && !NumberChar(At(text, i))
    ensures Step(true, text, IntState(c, i, negative, d))
         == Tail(IntState(c, i, negative, d), true, true, [Value(false, IntegerOf(negative, d))])
  {
    hide Tail;
    IntFits(0 - Magnitude(d));
  }

  lemma IntRun(text: seq<byte>, c: Ctl, negative: bool, d: seq<byte>) returns (c': Ctl)
    requires Seeking(c) && c.i <= |text| && ValidDigits(d) && Holds(text, c.i, Render(TInt(negative, d)))
    requires !NumberChar(At(text, c.i + |Render(TInt(negative, d))|))
    ensures Reaches(text, c, Events(TInt(negative, d)) + Ups(c), c') && Behind(c, c')
        && c'.i == c.i + |Render(TInt(negative, d))|
  {
    hide Step, Tail, Reaches, Inv, Magnitude;
    HoldsHead(text, c.i, Render(TInt(negative, d)));
    var p := if negative then c.i + 1 else c.i;
    if negative {
      assert ([45] + d)[1..] == d;
    } else {
      assert [] + d == d;
    }
    IntStart(text, c, negative, d);
    OneStep(text, c);
    assert d[0..] == d;
    DigitsRun(text, c, p, negative, d, 0);
    var s0, s1 := IntState(c, p, negative, d[..0]), IntState(c, p + |d|, negative, d);
    IntEnd(text, c, p + |d|, negative, d);
    var v := [Value(false, IntegerOf(negative, d))];
    TailBehind(c, s1, true, v);
    ReachedInv(text, s0, [], s1);
    OneStep(text, s1);
    c' := Step(true, text, s1).c;
    Onward(text, s0, [], s1, v + Ups(c), c');
    Onward(text, c, [New(Kind.Number, false)], s0, [] + (v + Ups(c)), c');
    assert [New(Kind.Number, false)] + ([] + (v + Ups(c))) == Events(TInt(negative, d)) + Ups(c);
  }

  // ---- String values ----

  lemma QuoteOpens(text: seq<byte>, c: Ctl)
    requires Seeking(c) && At(text, c.i) == 34
    ensures Step(true, text, c)
         == Go(c.(i := c.i + 1, path := c.path + [Str], f := Flags(false, false, false, true, false, false),
         strLen := 0), [New(Str, false)])
  {
  }

  lemma QuoteCloses(text: seq<byte>, c: Ctl)
    requires Inv(c) && c.f.inString && !c.f.escaped && c.strLen <= UINT_MAX && At(text, c.i) == 34 && Last(c.path).Str?
    ensures Step(true, text, c) == Tail(c.(f := c.f.(inString := false)), true, false, [EndStr])
  {
    hide Tail;
  }

  /** The characters of a string and its closing quote. */
  lemma BodyRun(text: seq<byte>, c: Ctl, s: seq<Unit>) returns (c': Ctl)
    requires Inv(c) && c.f.inString && !c.f.escaped && c.strLen <= c.i <= |text| <= UINT_MAX
    requires ValidUnits(s) && Holds(text, c.i, UnitsText(s) + [34])
    ensures Reaches(text, c, Puts(s), c') && At(text, c'.i) == 34 && c'.i < |text| && c'.strLen <= UINT_MAX
    ensures c' == c.(i := c.i + |UnitsText(s)|, strLen := c'.strLen)
  {
    hide Reaches, Inv, UnitsText, Puts;
    HoldsConcat(text, c.i, UnitsText(s), [34]);
    c' := UnitsRun(text, c, s);
    HoldsHead(text, c'.i, [34]);
  }

  lemma StrRun(text: seq<byte>, c: Ctl, s: seq<Unit>) returns (c': Ctl)
    requires Seeking(c) && c.i <= |text| <= UINT_MAX && ValidUnits(s) && Holds(text, c.i, Quoted(s))
    ensures Reaches(text, c, Events(TStr(s)) + Ups(c), c') && Behind(c, c') && c'.i == c.i + |Quoted(s)|
  {
    hide Step, Tail, Reaches, Inv, UnitsText, Puts;
    assert Quoted(s) == [34] + (UnitsText(s) + [34]);
    HoldsHead(text, c.i, Quoted(s));
    assert Quoted(s)[1..] == UnitsText(s) + [34];
    QuoteOpens(text, c);
    OneStep(text, c);
    var c1 := Step(true, text, c).c;
    ReachedInv(text, c, [New(Str, false)], c1);
    var c2 := BodyRun(text, c1, s);
    ReachedInv(text, c1, Puts(s), c2);
    QuoteCloses(text, c2);
    TailBehind(c, c2.(f := c2.f.(inString := false)), false, [EndStr]);
    OneStep(text, c2);
    c' := Step(true, text, c2).c;
    Onward(text, c1, Puts(s), c2, [EndStr] + Ups(c), c');
    Onward(text, c, [New(Str, false)], c1, Puts(s) + ([EndStr] + Ups(c)), c');
    assert [New(Str, false)] + (Puts(s) + ([EndStr] + Ups(c))) == Events(TStr(s)) + Ups(c);
  }

  /** A name with its quotes, from the state inside an object that waits for it. */
  lemma NameRun(text: seq<byte>, c: Ctl, s: seq<Unit>) returns (c': Ctl)
    requires Inv(c) && InObject(c) && c.i <= |text| <= UINT_MAX && ValidUnits(s) && Holds(text, c.i, Quoted(s))
    ensures Reaches(text, c, NameEvents(s), c') && c'.i == c.i + |Quoted(s)| && c'.path == c.path
    ensures c'.f == Flags(false, true, false, false, true, false)
  {
    hide Step, Tail, Reaches, Inv, UnitsText, Puts;
    assert Quoted(s) == [34] + (UnitsText(s) + [34]);
    HoldsHead(text, c.i, Quoted(s));
    assert Quoted(s)[1..] == UnitsText(s) + [34];
    NameOpens(text, c);
    OneStep(text, c);
    var c1 := Step(true, text, c).c;
    ReachedInv(text, c, [BeginName], c1);
    var c2 := BodyRun(text, c1, s);
    ReachedInv(text, c1, Puts(s), c2);
    NameCloses(text, c2);
    OneStep(text, c2);
    c' := Step(true, text, c2).c;
    Onward(text, c1, Puts(s), c2, [EndName], c');
    Onward(text, c, [BeginName], c1, Puts(s) + [EndName], c');
  }

  /** Inside an object, where a name may come. */
  ghost predicate InObject(c: Ctl) {
    c.path != [] && Last(c.path).Object? && c.f == Flags(false, false, false, false, false, false)
  }

  lemma NameOpens(text: seq<byte>, c: Ctl)
    requires InObject(c) && At(text, c.i) == 34
    ensures Step(true, text, c)
         == Go(c.(i := c.i + 1, f := Flags(false, false, false, true, false, false), strLen := 0), [BeginName])
  {
  }

  lemma NameCloses(text: seq<byte>, c: Ctl)
    requires Inv(c) && c.f.inString && !c.f.escaped && c.strLen <= UINT_MAX && At(text, c.i) == 34
        && Last(c.path).Object?
    ensures Step(true, text, c)
         == Go(c.(i := c.i + 1, f := c.f.(inString := false, seekValue := true, needColon := true)), [EndName])
  {
  }

  // ---- Arrays and objects ----

  lemma BracketOpens(text: seq<byte>, c: Ctl)
    requires Seeking(c) && At(text, c.i) == 91
    ensures Step(true, text, c) == Go(c.(i := c.i + 1, path := c.path + [Array]), [New(Array, false)])
    ensures Seeking(c.(i := c.i + 1, path := c.path + [Array]))
  {
  }

  lemma BraceOpens(text: seq<byte>, c: Ctl)
    requires Seeking(c) && At(text, c.i) == 123
    ensures Step(true, text, c) == Go(c.(i := c.i + 1, path := c.path + [Object], f := c.f.(seekValue := false)),
        [New(Object, false)])
    ensures InObject(c.(i := c.i + 1, path := c.path + [Object], f := c.f.(seekValue := false)))
    ensures Inv(c.(i := c.i + 1, path := c.path + [Object], f := c.f.(seekValue := false)))
  {
  }

  /** In an array, where the closing bracket may come. */
  ghost predicate AtBracket(c: Ctl) {
    Inv(c) && c.path != [] && Last(c.path).Array? && c.f.seekValue && !c.f.inString && !c.f.done && !c.f.escaped
        && !c.f.needColon
  }

  lemma BracketCloses(text: seq<byte>, c: Ctl)
    requires AtBracket(c) && At(text, c.i) == 93
    ensures Step(true, text, c) == Tail(c.(f := Flags(false, false, false, false, false, false)), true, false, [])
  {
    hide Tail;
  }

  /** In an object, where the closing brace may come. */
  ghost predicate AtBrace(c: Ctl) {
    Inv(c) && c.path != [] && Last(c.path).Object? && !c.f.seekValue && !c.f.inString && !c.f.done && !c.f.escaped
        && !c.f.needColon
  }

  lemma BraceCloses(text: seq<byte>, c: Ctl)
    requires AtBrace(c) && At(text, c.i) == 125
    ensures Step(true, text, c) == Tail(c.(f := Flags(false, false, false, false, false, false)), true, false, [])
  {
    hide Tail;
  }

  /** The comma behind an item or a member. */
  lemma CommaStep(text: seq<byte>, c: Ctl)
    requires (AtBracket(c) || AtBrace(c)) && c.f.needComma && At(text, c.i) == 44
    ensures Step(true, text, c) == Go(c.(i := c.i + 1, f := c.f.(needComma := false)), [])
    ensures AtBracket(c) ==> Seeking(c.(i := c.i + 1, f := c.f.(needComma := false)))
    ensures AtBrace(c) ==>
              && InObject(c.(i := c.i + 1, f := c.f.(needComma := false)))
              && Inv(c.(i := c.i + 1, f := c.f.(needComma := false)))
  {
  }

  lemma ColonStep(text: seq<byte>, c: Ctl)
    requires Inv(c) && c.f == Flags(false, true, false, false, true, false) && At(text, c.i) == 58
    ensures Step(true, text, c) == Go(c.(i := c.i + 1, f := c.f.(needColon := false)), [])
    ensures Seeking(c.(i := c.i + 1, f := c.f.(needColon := false)))
  {
  }

  /** What may follow a value in a valid text. */
  predicate Follower(b: byte) {
    Space(b) || b == 44 || b == 93 || b == 125 || b == 0
  }

  lemma FollowerIsNoNumber(b: byte)
    requires Follower(b)
    ensures !NumberChar(b)
  {
  }

  /** What comes behind a value inside a container. */
  lemma FollowerAt(text: seq<byte>, p: nat, after: seq<byte>, tail: seq<byte>)
    requires Spaces(after) && Holds(text, p, after) && Holds(text, p + |after|, tail)
    requires if tail == [] then Follower(At(text, p + |after|)) else Follower(tail[0])
    ensures Follower(At(text, p))
  {
    if after != [] {
      HoldsHead(text, p, after);
    } else if tail != [] {
      HoldsHead(text, p, tail);
    }
  }

  /** Follows a run that has no events. */
  lemma SilentThen(text: seq<byte>, a: Ctl, b: Ctl, ev: seq<Event>, c: Ctl)
    requires Reaches(text, a, [], b) && Reaches(text, b, ev, c)
    ensures Reaches(text, a, ev, c)
  {
    hide Reaches;
    Onward(text, a, [], b, ev, c);
    assert [] + ev == ev;
  }

  lemma ThenSilent(text: seq<byte>, a: Ctl, ev: seq<Event>, b: Ctl, c: Ctl)
    requires Reaches(text, a, ev, b) && Reaches(text, b, [], c)
    ensures Reaches(text, a, ev, c)
  {
    hide Reaches;
    Onward(text, a, ev, b, [], c);
    assert ev + [] == ev;
  }

  /** The tail of an item list behind the first item. */
  function MoreItems(rest: Items): seq<byte> {
    if rest.NoItem? then [] else [44] + RenderItems(rest)
  }

  function MoreMembers(rest: Members): seq<byte> {
    if rest.NoMember? then [] else [44] + RenderMembers(rest)
  }

  lemma HoldsFour(text: seq<byte>, p: nat, a: seq<byte>, b: seq<byte>, c: seq<byte>, d: seq<byte>)
    requires Holds(text, p, a + b + c + d)
    ensures Holds(text, p, a) && Holds(text, p + |a|, b) && Holds(text, p + |a| + |b|, c)
        && Holds(text, p + |a| + |b| + |c|, d)
  {
    HoldsConcat(text, p, a + b + c, d);
    HoldsConcat(text, p, a + b, c);
    HoldsConcat(text, p, a, b);
  }

  lemma SeeksInContainer(c: Ctl)
    requires Seeking(c) && c.path != []
    ensures Container(Last(c.path))
  {
  }

  /** Space, a value and space, inside a container. */
  lemma PaddedRun(text: seq<byte>, c: Ctl, before: seq<byte>, v: Text, after: seq<byte>, tail: seq<byte>)
      returns (c': Ctl)
    requires Seeking(c) && c.path != [] && c.i <= |text| <= UINT_MAX
    requires Spaces(before) && Spaces(after) && Valid(v) && Holds(text, c.i, before + Render(v) + after + tail)
    requires var p := c.i + |before + Render(v) + after|;
             if tail == [] then Follower(At(text, p)) else Follower(tail[0])
    ensures Reaches(text, c, Events(v) + [Up], c') && c'.i == c.i + |before + Render(v) + after| && c'.path == c.path
    ensures Inv(c') && c'.f == Flags(true, Last(c.path).Array?, false, false, false, false)
    decreases v, 2
  {
    hide Reaches, Holds, Render, Events, Inv;
    HoldsFour(text, c.i, before, Render(v), after, tail);
    SeeksInContainer(c);
    SpaceRun(text, c, before);
    var c1 := c.(i := c.i + |before|);
    ReachedInv(text, c, [], c1);
    FollowerAt(text, c1.i + |Render(v)|, after, tail);
    var c2 := ValueRun(text, c1, v);
    ReachedInv(text, c1, Events(v) + Ups(c1), c2);
    SpaceRun(text, c2, after);
    c' := c2.(i := c2.i + |after|);
    ReachedInv(text, c2, [], c');
    SilentThen(text, c, c1, Events(v) + [Up], c2);
    ThenSilent(text, c, Events(v) + [Up], c2, c');
  }

  lemma ItemsRun(text: seq<byte>, c: Ctl, x: Items) returns (c': Ctl)
    requires Seeking(c) && c.path != [] && Last(c.path).Array? && c.i <= |text| <= UINT_MAX
    requires x.Item? && ValidItems(x) && Holds(text, c.i, RenderItems(x)) && At(text, c.i + |RenderItems(x)|) == 93
    ensures Reaches(text, c, ItemEvents(x), c') && AtBracket(c') && c'.path == c.path && c'.i == c.i + |RenderItems(x)|
    decreases x, 0
  {
    hide Reaches, Holds, Render, Events, Inv, RenderItems, ItemEvents;
    var tail := MoreItems(x.rest);
    ItemsText(x);
    var c1 := PaddedRun(text, c, x.before, x.val, x.after, tail);
    if x.rest.NoItem? {
      c' := c1;
    } else {
      HoldsFour(text, c.i, x.before, Render(x.val), x.after, tail);
      HoldsHead(text, c1.i, tail);
      CommaStep(text, c1);
      OneStep(text, c1);
      var c2 := Step(true, text, c1).c;
      ReachedInv(text, c1, [], c2);
      assert tail[1..] == RenderItems(x.rest);
      c' := ItemsRun(text, c2, x.rest);
      ThenSilent(text, c, Events(x.val) + [Up], c1, c2);
      Onward(text, c, Events(x.val) + [Up], c2, ItemEvents(x.rest), c');
    }
  }

  lemma ItemsText(x: Items)
    requires x.Item? && ValidItems(x)
    ensures RenderItems(x) == x.before + Render(x.val) + x.after + MoreItems(x.rest)
    ensures ItemEvents(x) == (Events(x.val) + [Up]) + ItemEvents(x.rest)
    ensures x.rest.NoItem? ==> ItemEvents(x) == Events(x.val) + [Up]
  {
    hide Render, Events;
  }

  lemma MembersRun(text: seq<byte>, c: Ctl, x: Members) returns (c': Ctl)
    requires Inv(c) && InObject(c) && c.i <= |text| <= UINT_MAX
    requires x.Member? && ValidMembers(x) && Holds(text, c.i, RenderMembers(x))
        && At(text, c.i + |RenderMembers(x)|) == 125
    ensures Reaches(text, c, MemberEvents(x), c') && AtBrace(c') && c'.path == c.path
        && c'.i == c.i + |RenderMembers(x)|
    decreases x, 0
  {
    hide Reaches, Holds, Render, Events, Inv, RenderMembers, MemberEvents, NameEvents, Quoted;
    var tail := MoreMembers(x.rest);
    var padded := x.space + Render(x.val) + x.after + tail;
    MembersText(x);
    HoldsFour(text, c.i, x.before, Quoted(x.name), x.mid, [58] + padded);
    var c1 := NamedRun(text, c, x.before, x.name, x.mid, padded);
    assert |RenderMembers(x)| == |x.before| + |Quoted(x.name)| + |x.mid| + 1 + |padded|;
    var c2 := PaddedRun(text, c1, x.space, x.val, x.after, tail);
    Onward(text, c, NameEvents(x.name), c1, Events(x.val) + [Up], c2);
    if x.rest.NoMember? {
      c' := c2;
    } else {
      HoldsFour(text, c1.i, x.space, Render(x.val), x.after, tail);
      HoldsHead(text, c2.i, tail);
      CommaStep(text, c2);
      OneStep(text, c2);
      var c3 := Step(true, text, c2).c;
      ReachedInv(text, c2, [], c3);
      assert tail[1..] == RenderMembers(x.rest);
      c' := MembersRun(text, c3, x.rest);
      ThenSilent(text, c, NameEvents(x.name) + (Events(x.val) + [Up]), c2, c3);
      Onward(text, c, NameEvents(x.name) + (Events(x.val) + [Up]), c3, MemberEvents(x.rest), c');
    }
  }

  lemma MembersText(x: Members)
    requires x.Member? && ValidMembers(x)
    ensures RenderMembers(x)
         == x.before + Quoted(x.name) + x.mid + ([58] + (x.space + Render(x.val) + x.after + MoreMembers(x.rest)))
    ensures MemberEvents(x) == (NameEvents(x.name) + (Events(x.val) + [Up])) + MemberEvents(x.rest)
    ensures x.rest.NoMember? ==> MemberEvents(x) == NameEvents(x.name) + (Events(x.val) + [Up])
  {
    hide Render, Events, Quoted, NameEvents;
    var more := MoreMembers(x.rest);
    assert RenderMembers(x) == x.before + Quoted(x.name) + x.mid + [58] + x.space + Render(x.val) + x.after + more;
    Regroup(x.before + Quoted(x.name) + x.mid, [58], x.space, Render(x.val), x.after, more);
    Associate(NameEvents(x.name), Events(x.val), [Up] + MemberEvents(x.rest));
    Associate(Events(x.val), [Up], MemberEvents(x.rest));
    Associate(NameEvents(x.name), Events(x.val) + [Up], MemberEvents(x.rest));
    assert x.rest.NoMember? ==> [Up] + MemberEvents(x.rest) == [Up];
  }

  lemma Regroup(a: seq<byte>, b: seq<byte>, c: seq<byte>, d: seq<byte>, e: seq<byte>, f: seq<byte>)
    ensures a + b + c + d + e + f == a + (b + (c + d + e + f))
  {
    Associate(a, b, c + d + e + f);
    Associate(a + b, c, d + e + f);
  }

  /** Space, a name, space and the colon. */
  lemma NamedRun(text: seq<byte>, c: Ctl, before: seq<byte>, name: seq<Unit>, mid: seq<byte>, padded: seq<byte>)
      returns (c': Ctl)
    requires Inv(c) && InObject(c) && c.i <= |text| <= UINT_MAX && Spaces(before) && ValidUnits(name) && Spaces(mid)
    requires Holds(text, c.i, before) && Holds(text, c.i + |before|, Quoted(name))
    requires Holds(text, c.i + |before| + |Quoted(name)|, mid)
    requires Holds(text, c.i + |before| + |Quoted(name)| + |mid|, [58] + padded)
    ensures Reaches(text, c, NameEvents(name), c') && Seeking(c') && c'.path == c.path && c'.i <= |text|
    ensures c'.i == c.i + |before| + |Quoted(name)| + |mid| + 1 && Holds(text, c'.i, padded)
  {
    hide Reaches, Holds, Inv, NameEvents, Quoted, Step;
    SpaceRun(text, c, before);
    var c1 := c.(i := c.i + |before|);
    ReachedInv(text, c, [], c1);
    var c2 := NameRun(text, c1, name);
    ReachedInv(text, c1, NameEvents(name), c2);
    SpaceRun(text, c2, mid);
    var c3 := c2.(i := c2.i + |mid|);
    ReachedInv(text, c2, [], c3);
    HoldsHead(text, c3.i, [58] + padded);
    assert ([58] + padded)[1..] == padded;
    ColonStep(text, c3);
    OneStep(text, c3);
    c' := Step(true, text, c3).c;
    ReachedInv(text, c3, [], c');
    SilentThen(text, c, c1, NameEvents(name), c2);
    ThenSilent(text, c, NameEvents(name), c2, c3);
    ThenSilent(text, c, NameEvents(name), c3, c');
  }

  lemma Delimited(text: seq<byte>, p: nat, open: byte, inner: seq<byte>, close: byte)
    requires Holds(text, p, [open] + (inner + [close]))
    ensures At(text, p) == open && Holds(text, p + 1, inner) && At(text, p + 1 + |inner|) == close
        && p + 1 + |inner| < |text|
  {
    hide Holds;
    HoldsHead(text, p, [open] + (inner + [close]));
    assert ([open] + (inner + [close]))[1..] == inner + [close];
    HoldsConcat(text, p + 1, inner, [close]);
    HoldsHead(text, p + 1 + |inner|, [close]);
  }

  /** From the opening bracket or brace to the closing one. */
  lemma Closed(text: seq<byte>, c: Ctl, e: Event, c1: Ctl, ev: seq<Event>, c2: Ctl) returns (c': Ctl)
    requires Seeking(c) && Reaches(text, c, [e], c1) && Reaches(text, c1, ev, c2)
    requires c2.path == c1.path && |c1.path| == |c.path| + 1 && c1.path[..|c.path|] == c.path
    requires (AtBracket(c2) && At(text, c2.i) == 93) || (AtBrace(c2) && At(text, c2.i) == 125)
    ensures Reaches(text, c, ([e] + ev) + Ups(c), c') && Behind(c, c') && c'.i == c2.i + 1
  {
    hide Reaches, Inv, Step, Tail;
    if AtBracket(c2) {
      BracketCloses(text, c2);
    } else {
      BraceCloses(text, c2);
    }
    TailBehind(c, c2.(f := Flags(false, false, false, false, false, false)), false, []);
    ReachedInv(text, c1, ev, c2);
    OneStep(text, c2);
    c' := Step(true, text, c2).c;
    assert [] + Ups(c) == Ups(c);
    Onward(text, c1, ev, c2, Ups(c), c');
    Onward(text, c, [e], c1, ev + Ups(c), c');
    assert [e] + (ev + Ups(c)) == ([e] + ev) + Ups(c);
  }

  lemma ArrRun(text: seq<byte>, c: Ctl, v: Text) returns (c': Ctl)
    requires Seeking(c) && c.i <= |text| <= UINT_MAX && v.TArr? && Valid(v) && Holds(text, c.i, Render(v))
    ensures Reaches(text, c, Events(v) + Ups(c), c') && Behind(c, c') && c'.i == c.i + |Render(v)|
    decreases v, 0
  {
    hide Reaches, Holds, Inv, Step, RenderItems, ItemEvents;
    var inner := if v.items.NoItem? then v.ws else RenderItems(v.items);
    assert Render(v) == [91] + (inner + [93]);
    Delimited(text, c.i, 91, inner, 93);
    BracketOpens(text, c);
    OneStep(text, c);
    var c1 := Step(true, text, c).c;
    ReachedInv(text, c, [New(Array, false)], c1);
    var c2;
    if v.items.NoItem? {
      SpaceRun(text, c1, v.ws);
      c2 := c1.(i := c1.i + |v.ws|);
      ReachedInv(text, c1, [], c2);
      NoItems(v.items);
    } else {
      c2 := ItemsRun(text, c1, v.items);
    }
    c' := Closed(text, c, New(Array, false), c1, ItemEvents(v.items), c2);
  }

  lemma NoItems(x: Items)
    ensures x.NoItem? ==> ItemEvents(x) == []
  {
  }

  lemma NoMembers(x: Members)
    ensures x.NoMember? ==> MemberEvents(x) == []
  {
  }

  lemma ObjRun(text: seq<byte>, c: Ctl, v: Text) returns (c': Ctl)
    requires Seeking(c) && c.i <= |text| <= UINT_MAX && v.TObj? && Valid(v) && Holds(text, c.i, Render(v))
    ensures Reaches(text, c, Events(v) + Ups(c), c') && Behind(c, c') && c'.i == c.i + |Render(v)|
    decreases v, 0
  {
    hide Reaches, Holds, Inv, Step, RenderMembers, MemberEvents;
    var inner := if v.members.NoMember? then v.ws else RenderMembers(v.members);
    assert Render(v) == [123] + (inner + [125]);
    Delimited(text, c.i, 123, inner, 125);
    BraceOpens(text, c);
    OneStep(text, c);
    var c1 := Step(true, text, c).c;
    ReachedInv(text, c, [New(Object, false)], c1);
    var c2;
    if v.members.NoMember? {
      SpaceRun(text, c1, v.ws);
      c2 := c1.(i := c1.i + |v.ws|);
      ReachedInv(text, c1, [], c2);
      NoMembers(v.members);
    } else {
      c2 := MembersRun(text, c1, v.members);
    }
    c' := Closed(text, c, New(Object, false), c1, MemberEvents(v.members), c2);
  }

  /** Every valid value, followed by what may follow it, is read whole and gives its events. */
  lemma ValueRun(text: seq<byte>, c: Ctl, v: Text) returns (c': Ctl)
    requires Seeking(c) && c.i <= |text| <= UINT_MAX && Valid(v) && Holds(text, c.i, Render(v))
    requires Follower(At(text, c.i + |Render(v)|))
    ensures Reaches(text, c, Events(v) + Ups(c), c') && Behind(c, c') && c'.i == c.i + |Render(v)|
    decreases v, 1
  {
    hide Reaches, Holds, Inv;
    match v
    case TInt(negative, d) =>
      FollowerIsNoNumber(At(text, c.i + |Render(v)|));
      c' := IntRun(text, c, negative, d);
    case TStr(s) => c' := StrRun(text, c, s);
    case TArr(_, _) => c' := ArrRun(text, c, v);
    case TObj(_, _) => c' := ObjRun(text, c, v);
    case _ => c' := WordRun(text, c, v);
  }

  /** Every text of the grammar, with white space around it, is accepted by pass 1 with the events of its value. */
  lemma DocumentRun(before: seq<byte>, v: Text, after: seq<byte>)
    requires Spaces(before) && Valid(v) && Spaces(after) && |before + Render(v) + after| <= UINT_MAX
    ensures Run(true, before + Render(v) + after, Start()) == Ok(Events(v))
  {
    hide Reaches, Holds, Inv, Render, Events, Run;
    var text := before + Render(v) + after;
    var c := Start();
    StartSeeks();
    assert Holds(text, 0, before + Render(v) + after + []) by { WholeHolds(text); }
    HoldsFour(text, 0, before, Render(v), after, []);
    SpaceRun(text, c, before);
    var c1 := c.(i := |before|);
    ReachedInv(text, c, [], c1);
    FollowerAt(text, |before| + |Render(v)|, after, []);
    var c2 := ValueRun(text, c1, v);
    ReachedInv(text, c1, Events(v) + Ups(c1), c2);
    assert Events(v) + [] == Events(v);
    SpaceRun(text, c2, after);
    var c3 := c2.(i := |text|);
    SilentThen(text, c, c1, Events(v), c2);
    ThenSilent(text, c, Events(v), c2, c3);
    EndRun(text, c, Events(v), c3);
  }

  lemma StartSeeks()
    ensures Seeking(Start())
  {
  }

  lemma WholeHolds(text: seq<byte>)
    ensures Holds(text, 0, text + [])
  {
    assert text + [] == text;
  }

  lemma EndRun(text: seq<byte>, c: Ctl, ev: seq<Event>, c': Ctl)
    requires Reaches(text, c, ev, c') && c'.f.done && !c'.f.inString && c'.i == |text|
    ensures Run(true, text, c) == Ok(ev)
  {
    assert Step(true, text, c') == Finished;
    assert ev + [] == ev;
  }
}
