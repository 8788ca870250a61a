/** What a parsed tree denotes, and that parsing a text of RFC 8259 gives the value that the text denotes. */
module JsonDecode {
  import opened Bits
  import opened Sequences
  import opened JsonControl
  import opened JsonPasses
  import opened JsonMemory
  import opened JsonLayout
  import opened JsonBlocks
  import opened JsonGrammar
  import opened JsonReading

  // ---- Reading a tree ----

  /** The value at node `k`. */
  function Decode(nodes: seq<Node>, k: nat): Doc
    requires k < |nodes|
    decreases |nodes| - k, 1, 0
  {
    var n := nodes[k];
    match n.kind
    case Null => DNull
    case Boolean => DBool(n.boolean)
    case Number => DInt(n.integer)
    case Str => DStr(n.text)
    case Array => DArr(DecodeAll(nodes, k, n.children))
    case Object => DObj(Zip(n.names, DecodeAll(nodes, k, n.children)))
  }

  /** The values at nodes behind `k`. */
  function DecodeAll(nodes: seq<Node>, k: nat, cs: seq<nat>): (r: seq<Doc>)
    requires k < |nodes|
    ensures |r| == |cs|
    decreases |nodes| - k, 0, |cs|
  {
    if cs == [] then []
    else
      var c := cs[|cs| - 1];
      DecodeAll(nodes, k, cs[..|cs| - 1]) + [if k < c < |nodes| then Decode(nodes, c) else DNull]
  }

  function Zip(names: seq<seq<byte>>, docs: seq<Doc>): seq<(seq<byte>, Doc)> {
    seq(|docs|, i requires 0 <= i < |docs| => (if i < |names| then names[i] else [], docs[i]))
  }

  lemma DecodeAllSnoc(nodes: seq<Node>, k: nat, cs: seq<nat>, c: nat)
    requires k < c < |nodes|
    ensures DecodeAll(nodes, k, cs + [c]) == DecodeAll(nodes, k, cs) + [Decode(nodes, c)]
  {
    assert (cs + [c])[..|cs|] == cs;
  }

  /** The children of the nodes from `a` on lie behind them and in front of `n`. */
  ghost predicate Inner(nodes: seq<Node>, a: nat, n: nat) {
    n <= |nodes| && forall j :: a <= j < n ==> ChildrenIn(nodes[j].children, j, n)
  }

  ghost predicate ChildrenIn(cs: seq<nat>, j: nat, n: nat) {
    forall i :: 0 <= i < |cs| ==> j < cs[i] < n
  }

  ghost predicate Agree(nodes: seq<Node>, nodes': seq<Node>, a: nat, n: nat) {
    n <= |nodes| && n <= |nodes'| && forall j :: a <= j < n ==> nodes'[j] == nodes[j]
  }

  /** A value depends only on the nodes of its own part of the tree. */
  lemma {:induction false} DecodeStable(nodes: seq<Node>, nodes': seq<Node>, k: nat, n: nat)
    requires k < n && Agree(nodes, nodes', k, n) && Inner(nodes, k, n)
    ensures Decode(nodes', k) == Decode(nodes, k)
    decreases n - k, 1, 0
  {
    assert nodes'[k] == nodes[k] && ChildrenIn(nodes[k].children, k, n);
    AllStable(nodes, nodes', k, nodes[k].children, n);
  }

  lemma {:induction false} AllStable(nodes: seq<Node>, nodes': seq<Node>, k: nat, cs: seq<nat>, n: nat)
    requires k < n && Agree(nodes, nodes', k + 1, n) && Inner(nodes, k + 1, n) && ChildrenIn(cs, k, n)
    ensures DecodeAll(nodes', k, cs) == DecodeAll(nodes, k, cs)
    decreases n - k, 0, |cs|
  {
    if cs != [] {
      var c := cs[|cs| - 1];
      AllStable(nodes, nodes', k, cs[..|cs| - 1], n);
      DecodeStable(nodes, nodes', c, n);
    }
  }

  // ---- Building a value ----

  lemma {:induction false} FitsConcat(t: Tree, a: seq<Event>, b: seq<Event>)
    requires FitsAll(t, a + b)
    ensures FitsAll(t, a) && FitsAll(Build(t, a), b) && Build(t, a + b) == Build(Build(t, a), b)
    decreases |a|
  {
    hide Fits, BuildStep;
    if a == [] {
      assert a + b == b;
    } else {
      assert (a + b)[0] == a[0] && (a + b)[1..] == a[1..] + b;
      FitsConcat(BuildStep(t, a[0]), a[1..], b);
    }
  }

  lemma OneBuilt(t: Tree, e: Event)
    requires FitsAll(t, [e])
    ensures Fits(t, e) && Build(t, [e]) == BuildStep(t, e)
  {
    hide Fits, BuildStep;
    assert [e][1..] == [];
  }

  lemma PutStep(t: Tree, b: seq<byte>)
    ensures Fits(t, Put(b)) ==> BuildStep(t, Put(b)) == t.(cur := t.cur + b)
  {
  }

  lemma {:induction false} PutsBuilt(t: Tree, s: seq<Unit>)
    requires ValidUnits(s) && FitsAll(t, Puts(s))
    ensures Build(t, Puts(s)) == t.(cur := t.cur + UnitsBytes(s))
    decreases |s|
  {
    hide UnitBytes, ValidUnit, Fits, BuildStep;
    if s == [] {
      assert t.cur + [] == t.cur;
    } else {
      var b := UnitBytes(s[0]);
      assert Puts(s)[0] == Put(b) && Puts(s)[1..] == Puts(s[1..]);
      PutStep(t, b);
      PutsBuilt(t.(cur := t.cur + b), s[1..]);
      assert (t.cur + b) + UnitsBytes(s[1..]) == t.cur + UnitsBytes(s);
    }
  }

  /** A value was added behind the nodes of `t`, and it is open. */
  ghost predicate Added(t: Tree, t': Tree, v: Text)
    requires Valid(v)
  {
    var n := |t.nodes|;
    && |t'.nodes| > n && Agree(t.nodes, t'.nodes, 0, n) && t'.chain == t.chain + [n] && !t'.open
    && Inner(t'.nodes, n, |t'.nodes|) && Decode(t'.nodes, n) == Denote(v)
  }

  /** A container was extended: only its children and names, and nodes behind the old ones. */
  ghost predicate Extended(t: Tree, t': Tree, a: nat)
  {
    && a < |t.nodes| <= |t'.nodes| && t'.chain == t.chain && !t'.open && Agree(t.nodes, t'.nodes, 0, a)
    && t'.nodes[a] == t.nodes[a].(children := t'.nodes[a].children, names := t'.nodes[a].names)
    && Inner(t'.nodes, a, |t'.nodes|)
  }

  /** The container in which values are being read. */
  ghost predicate Inside(t: Tree, a: nat, kind: Kind) {
    t.chain != [] && t.chain[|t.chain| - 1] == a < |t.nodes| && t.nodes[a].kind == kind && !t.open
    && Inner(t.nodes, a, |t.nodes|)
  }

  /** The end of one value in its container. */
  lemma Attached2(t: Tree, t2: Tree, a: nat, kind: Kind, v: Text)
    requires Inside(t, a, kind) && Valid(v) && Added(t, t2, v) && Fits(t2, Up)
    ensures var t3 := BuildStep(t2, Up);
            && Inside(t3, a, kind) && Extended(t, t3, a) && t3.nodes[a].names == t.nodes[a].names
            && DecodeAll(t3.nodes, a, t3.nodes[a].children) == DecodeAll(t.nodes, a, t.nodes[a].children) + [Denote(v)]
  {
    hide Denote, Decode, DecodeAll;
    var n, cs := |t.nodes|, t.nodes[a].children;
    var t3 := BuildStep(t2, Up);
    UpIs(t, t2, a, n);
    assert ChildrenIn(cs, a, n);
    InnerLater(t, t2, t3, a, n);
    AllStable(t.nodes, t3.nodes, a, cs, n);
    DecodeStable(t2.nodes, t3.nodes, n, |t2.nodes|);
    DecodeAllSnoc(t3.nodes, a, cs, n);
  }

  lemma UpIs(t: Tree, t2: Tree, a: nat, n: nat)
    requires t.chain != [] && t.chain[|t.chain| - 1] == a < n == |t.nodes| < |t2.nodes| && t2.chain == t.chain + [n]
    requires Agree(t.nodes, t2.nodes, 0, n) && Fits(t2, Up)
    ensures var t3 := BuildStep(t2, Up);
            && t3.chain == t.chain && |t3.nodes| == |t2.nodes| && t3.open == t2.open
            && t3.nodes[a] == t.nodes[a].(children := t.nodes[a].children + [n])
            && (forall k :: 0 <= k < |t2.nodes| && k != a ==> t3.nodes[k] == t2.nodes[k])
  {
    assert t2.chain[..|t2.chain| - 1] == t.chain;
    assert t2.chain[|t2.chain| - 2] == a;
  }

  lemma InnerLater(t: Tree, t2: Tree, t3: Tree, a: nat, n: nat)
    requires a < n == |t.nodes| < |t2.nodes| == |t3.nodes| && Agree(t.nodes, t2.nodes, 0, n)
    requires Inner(t.nodes, a, n) && Inner(t2.nodes, n, |t2.nodes|)
    requires t3.nodes[a] == t.nodes[a].(children := t.nodes[a].children + [n])
    requires forall k :: 0 <= k < |t2.nodes| && k != a ==> t3.nodes[k] == t2.nodes[k]
    ensures Inner(t3.nodes, a, |t3.nodes|) && Agree(t.nodes, t3.nodes, 0, a) && Agree(t.nodes, t3.nodes, a + 1, n)
    ensures Agree(t2.nodes, t3.nodes, n, |t2.nodes|) && Inner(t.nodes, a + 1, n)
  {
    forall j | a <= j < |t3.nodes| ensures ChildrenIn(t3.nodes[j].children, j, |t3.nodes|) {
      if j < n {
        assert ChildrenIn(t.nodes[j].children, j, n);
      } else {
        assert ChildrenIn(t2.nodes[j].children, j, |t2.nodes|);
      }
    }
  }

  /** One value in a container. */
  lemma PaddedBuilt(t: Tree, a: nat, kind: Kind, v: Text)
    requires Inside(t, a, kind) && Valid(v) && FitsAll(t, Events(v) + [Up])
    ensures var t3 := Build(t, Events(v) + [Up]);
            && Inside(t3, a, kind) && Extended(t, t3, a) && t3.nodes[a].names == t.nodes[a].names
            && DecodeAll(t3.nodes, a, t3.nodes[a].children) == DecodeAll(t.nodes, a, t.nodes[a].children) + [Denote(v)]
    decreases v, 2
  {
    hide Denote, Decode, DecodeAll, Events, Fits, BuildStep, FitsAll, Build, Inside, Extended, Added;
    FitsConcat(t, Events(v), [Up]);
    ValueBuilt(t, v);
    OneBuilt(Build(t, Events(v)), Up);
    Attached2(t, Build(t, Events(v)), a, kind, v);
  }

  lemma ExtendedTwice(t: Tree, t1: Tree, t2: Tree, a: nat)
    requires Extended(t, t1, a) && Extended(t1, t2, a)
    ensures Extended(t, t2, a)
  {
  }

  lemma ItemsBuilt(t: Tree, a: nat, x: Items)
    requires Inside(t, a, Array) && ValidItems(x) && FitsAll(t, ItemEvents(x))
    ensures var t' := Build(t, ItemEvents(x));
            && Inside(t', a, Array) && Extended(t, t', a)
            && DecodeAll(t'.nodes, a, t'.nodes[a].children) == DecodeAll(t.nodes, a,
            t.nodes[a].children) + DenoteItems(x)
    decreases x, 0
  {
    hide Denote, Decode, DecodeAll, Events, Fits, BuildStep, FitsAll, Build, Extended;
    if x.NoItem? {
      NothingBuilt(t);
      Unchanged(t, a, Array);
    } else {
      var first := Events(x.val) + [Up];
      ItemsText(x);
      FitsConcat(t, first, ItemEvents(x.rest));
      PaddedBuilt(t, a, Array, x.val);
      var t1 := Build(t, first);
      ItemsBuilt(t1, a, x.rest);
      ExtendedTwice(t, t1, Build(t1, ItemEvents(x.rest)), a);
    }
  }

  lemma NothingBuilt(t: Tree)
    ensures FitsAll(t, []) && Build(t, []) == t
  {
  }

  lemma Unchanged(t: Tree, a: nat, kind: Kind)
    requires Inside(t, a, kind)
    ensures Extended(t, t, a)
  {
  }

  /** The names and the values of the members. */
  function MemberNames(x: Members): seq<seq<byte>>
    requires ValidMembers(x)
  {
    if x.NoMember? then [] else [UnitsBytes(x.name)] + MemberNames(x.rest)
  }

  function MemberDocs(x: Members): (r: seq<Doc>)
    requires ValidMembers(x)
    ensures |r| == |MemberNames(x)|
  {
    if x.NoMember? then [] else [Denote(x.val)] + MemberDocs(x.rest)
  }

  lemma {:induction false} MembersZip(x: Members)
    requires ValidMembers(x)
    ensures Zip(MemberNames(x), MemberDocs(x)) == DenoteMembers(x)
  {
    if x.Member? {
      MembersZip(x.rest);
    }
  }

  lemma NameBuilt(t: Tree, a: nat, name: seq<Unit>)
    requires Inside(t, a, Object) && ValidUnits(name) && FitsAll(t, NameEvents(name))
    ensures var t' := Build(t, NameEvents(name));
            && Inside(t', a, Object) && Extended(t, t', a) && t'.nodes[a].names == t.nodes[a].names + [UnitsBytes(name)]
            && t'.nodes[a].children == t.nodes[a].children
            && DecodeAll(t'.nodes, a, t'.nodes[a].children) == DecodeAll(t.nodes, a, t.nodes[a].children)
  {
    hide Decode, DecodeAll, UnitsBytes, Puts;
    FitsConcat(t, [BeginName], Puts(name) + [EndName]);
    OneBuilt(t, BeginName);
    var t1 := BuildStep(t, BeginName);
    FitsConcat(t1, Puts(name), [EndName]);
    PutsBuilt(t1, name);
    var t2 := Build(t1, Puts(name));
    OneBuilt(t2, EndName);
    assert [] + UnitsBytes(name) == UnitsBytes(name);
    var t' := BuildStep(t2, EndName);
    assert ChildrenIn(t.nodes[a].children, a, |t.nodes|);
    assert forall k :: 0 <= k < |t.nodes| && k != a ==> t'.nodes[k] == t.nodes[k];
    AllStable(t.nodes, t'.nodes, a, t.nodes[a].children, |t.nodes|);
  }

  /** One name and its value. */
  lemma MemberBuilt(t: Tree, a: nat, name: seq<Unit>, v: Text)
    requires Inside(t, a, Object) && ValidUnits(name) && Valid(v) && FitsAll(t, NameEvents(name) + (Events(v) + [Up]))
    ensures var t' := Build(t, NameEvents(name) + (Events(v) + [Up]));
            && Inside(t', a, Object) && Extended(t, t', a) && t'.nodes[a].names == t.nodes[a].names + [UnitsBytes(name)]
            && DecodeAll(t'.nodes, a, t'.nodes[a].children) == DecodeAll(t.nodes, a, t.nodes[a].children) + [Denote(v)]
    decreases v, 3
  {
    hide Denote, Decode, DecodeAll, Events, Fits, BuildStep, FitsAll, Build, Extended, Inside, NameEvents, UnitsBytes;
    var first := Events(v) + [Up];
    FitsConcat(t, NameEvents(name), first);
    NameBuilt(t, a, name);
    var t1 := Build(t, NameEvents(name));
    PaddedBuilt(t1, a, Object, v);
    ExtendedTwice(t, t1, Build(t1, first), a);
  }

  lemma MembersBuilt(t: Tree, a: nat, x: Members)
    requires Inside(t, a, Object) && ValidMembers(x) && FitsAll(t, MemberEvents(x))
    ensures var t' := Build(t, MemberEvents(x));
            && Inside(t', a, Object) && Extended(t, t', a) && t'.nodes[a].names == t.nodes[a].names + MemberNames(x)
            && DecodeAll(t'.nodes, a, t'.nodes[a].children) == DecodeAll(t.nodes, a,
            t.nodes[a].children) + MemberDocs(x)
    decreases x, 0
  {
    hide Denote, Decode, DecodeAll, Events, Fits, BuildStep, FitsAll, Build, Extended, NameEvents, UnitsBytes,
        MemberEvents;
    if x.NoMember? {
      NoMembers(x);
      NothingBuilt(t);
      Unchanged(t, a, Object);
    } else {
      var first := NameEvents(x.name) + (Events(x.val) + [Up]);
      MembersText(x);
      FitsConcat(t, first, MemberEvents(x.rest));
      MemberBuilt(t, a, x.name, x.val);
      var t1 := Build(t, first);
      MembersBuilt(t1, a, x.rest);
      var t2 := Build(t1, MemberEvents(x.rest));
      ExtendedTwice(t, t1, t2, a);
      Associate(t.nodes[a].names, [UnitsBytes(x.name)], MemberNames(x.rest));
      Associate(DecodeAll(t.nodes, a, t.nodes[a].children), [Denote(x.val)], MemberDocs(x.rest));
    }
  }

  /** A new container, string, number or word. */
  lemma NewBuilt(t: Tree, e: Event)
    requires e.New? && FitsAll(t, [e])
    ensures var t' := Build(t, [e]);
            var n := |t.nodes|;
            && |t'.nodes| == n + 1 && Agree(t.nodes, t'.nodes, 0, n) && t'.chain == t.chain + [n]
            && t'.open == e.kind.Str?
            && t'.cur == [] && Inner(t'.nodes, n, n + 1)
            && t'.nodes[n].kind == e.kind && t'.nodes[n].boolean == e.boolean && t'.nodes[n].children == []
            && t'.nodes[n].names == []
  {
    OneBuilt(t, e);
  }

  lemma WordBuilt(t: Tree, v: Text)
    requires (v.TNull? || v.TTrue? || v.TFalse?) && FitsAll(t, Events(v))
    ensures Added(t, Build(t, Events(v)), v)
  {
    hide FitsAll, Build;
    NewBuilt(t, Events(v)[0]);
    assert Events(v) == [Events(v)[0]];
  }

  lemma IntBuilt(t: Tree, v: Text)
    requires v.TInt? && Valid(v) && FitsAll(t, Events(v))
    ensures Added(t, Build(t, Events(v)), v)
  {
    hide FitsAll, Build, Magnitude;
    var e := Value(false, IntegerOf(v.negative, v.digits));
    assert Events(v) == [New(Number, false)] + [e];
    FitsConcat(t, [New(Number, false)], [e]);
    NewBuilt(t, New(Number, false));
    OneBuilt(Build(t, [New(Number, false)]), e);
  }

  lemma StrBuilt(t: Tree, v: Text)
    requires v.TStr? && Valid(v) && FitsAll(t, Events(v))
    ensures Added(t, Build(t, Events(v)), v)
  {
    hide FitsAll, Build, Puts, UnitsBytes;
    FitsConcat(t, [New(Str, false)], Puts(v.units) + [EndStr]);
    NewBuilt(t, New(Str, false));
    var t1 := Build(t, [New(Str, false)]);
    FitsConcat(t1, Puts(v.units), [EndStr]);
    PutsBuilt(t1, v.units);
    OneBuilt(Build(t1, Puts(v.units)), EndStr);
    assert [] + UnitsBytes(v.units) == UnitsBytes(v.units);
  }

  lemma NoneYet(nodes: seq<Node>, k: nat)
    requires k < |nodes| && nodes[k].children == []
    ensures DecodeAll(nodes, k, nodes[k].children) == []
  {
  }

  lemma ArrBuilt(t: Tree, v: Text)
    requires v.TArr? && Valid(v) && FitsAll(t, Events(v))
    ensures Added(t, Build(t, Events(v)), v)
    decreases v, 0
  {
    hide FitsAll, Build, DecodeAll, ItemEvents, DenoteItems;
    var n := |t.nodes|;
    FitsConcat(t, [New(Array, false)], ItemEvents(v.items));
    NewBuilt(t, New(Array, false));
    var t1 := Build(t, [New(Array, false)]);
    ItemsBuilt(t1, n, v.items);
    NoneYet(t1.nodes, n);
    assert [] + DenoteItems(v.items) == DenoteItems(v.items);
  }

  lemma ObjBuilt(t: Tree, v: Text)
    requires v.TObj? && Valid(v) && FitsAll(t, Events(v))
    ensures Added(t, Build(t, Events(v)), v)
    decreases v, 0
  {
    hide FitsAll, Build, DecodeAll, MemberEvents, DenoteMembers, MemberDocs, MemberNames, Zip;
    var n, x := |t.nodes|, v.members;
    FitsConcat(t, [New(Object, false)], MemberEvents(x));
    NewBuilt(t, New(Object, false));
    var t1 := Build(t, [New(Object, false)]);
    MembersBuilt(t1, n, x);
    NoneYet(t1.nodes, n);
    assert [] + MemberDocs(x) == MemberDocs(x) && [] + MemberNames(x) == MemberNames(x);
    MembersZip(x);
  }

  /** The events of a valid value build a node that denotes it. */
  lemma ValueBuilt(t: Tree, v: Text)
    requires Valid(v) && FitsAll(t, Events(v))
    ensures Added(t, Build(t, Events(v)), v)
    decreases v, 1
  {
    match v
    case TInt(_, _) => IntBuilt(t, v);
    case TStr(_) => StrBuilt(t, v);
    case TArr(_, _) => ArrBuilt(t, v);
    case TObj(_, _) => ObjBuilt(t, v);
    case _ => WordBuilt(t, v);
  }

  // ---- The parser ----

  /** The contents of the values after pass 2. */
  function NodeOf(x: Slot): Node {
    Node(x.cell.kind, x.cell.parent, x.cell.boolean, x.cell.isDouble, x.cell.integer, x.children, x.names, x.text)
  }

  function NodesOf(slots: seq<Slot>): (r: seq<Node>)
    ensures |r| == |slots|
  {
    seq(|slots|, k requires 0 <= k < |slots| => NodeOf(slots[k]))
  }

  /** What json_parse_ex leaves: the filled values of pass 2, or nothing. */
  ghost predicate Parses(text: seq<byte>, slots: seq<Slot>) {
    && Run(true, text, Start()).Ok? && CountFitsAll(NOTHING_COUNTED, Run(true, text, Start()).ev)
    && Run(false, text, Start()).Ok?
    && var filled := FillAll(Unfilled(CountAll(NOTHING_COUNTED, Run(true, text, Start()).ev).cells),
    Run(false, text, Start()).ev);
       filled.Fill? && filled.s.slots == slots && filled.s.alloc == |slots|
  }

  /** For every text of the grammar, with white space around it, both passes succeed, and the root denotes the value of
      the text. */
  lemma ParsesDocument(before: seq<byte>, v: Text, after: seq<byte>) returns (slots: seq<Slot>)
    requires Spaces(before) && Valid(v) && Spaces(after) && |before + Render(v) + after| <= UINT_MAX
    ensures Parses(before + Render(v) + after, slots) && slots != [] && Decode(NodesOf(slots), 0) == Denote(v)
  {
    hide Render, Events, Run, Decode, Denote, Build, FitsAll, CountAll, CountFitsAll, FillAll, Exact, Whole;
    var text := before + Render(v) + after;
    DocumentRun(before, v, after);
    var t, cells, s := TwoPasses(text);
    slots := s.slots;
    ValueBuilt(EMPTY, v);
    SameNodes(slots, t);
  }

  lemma SameNodes(slots: seq<Slot>, t: Tree)
    requires Exact(slots, t)
    ensures NodesOf(slots) == t.nodes
  {
    hide NameBytes;
  }
}
