/** The memory of both passes of json_parse_ex: cells that pass 1 allocates and counts in, and the blocks of exactly
    those sizes that pass 2 fills. */
module JsonBlocks {
  import opened Bits
  import opened JsonControl
  import opened JsonPasses
  import opened JsonMemory
  import opened JsonLayout

  // ---- Pass 1 ----

  /** A json_value after pass 1: the length of its array, object or string, and the bytes for its names. */
  datatype Cell = Cell(kind: Kind, parent: int, boolean: bool, isDouble: bool, integer: int, length: nat, nameMem: nat)

  /** The allocation list is the sequence of the cells. */
  datatype Counting = Counting(cells: seq<Cell>, top: int, strLen: nat)

  predicate CountFits(s: Counting, e: Event) {
    match e
    case New(_, _) => true
    case BeginName => true
    case Put(_) => true
    case Up => 0 <= s.top < |s.cells| && 0 <= s.cells[s.top].parent < |s.cells|
    case _ => 0 <= s.top < |s.cells|
  }

  function CountStep(s: Counting, e: Event): Counting
    requires CountFits(s, e)
  {
    match e
    case New(kind, boolean) =>
      Counting(s.cells + [Cell(kind, s.top, boolean, false, 0, 0, 0)], |s.cells|, if kind.Str? then 0 else s.strLen)
    case BeginName => s.(strLen := 0)
    case Put(bytes) => s.(strLen := s.strLen + |bytes|)
    case EndStr => s.(cells := s.cells[s.top := s.cells[s.top].(length := s.strLen)])
    case EndName => s.(cells := s.cells[s.top := s.cells[s.top].(nameMem := s.cells[s.top].nameMem + s.strLen + 1)])
    case Value(isDouble, integer) =>
      s.(cells := s.cells[s.top := s.cells[s.top].(isDouble := isDouble, integer := integer)])
    case Up =>
      var p := s.cells[s.top].parent;
      s.(cells := s.cells[p := s.cells[p].(length := s.cells[p].length + 1)], top := p)
  }

  ghost predicate CountFitsAll(s: Counting, ev: seq<Event>)
    decreases |ev|
  {
    ev == [] || (CountFits(s, ev[0]) && CountFitsAll(CountStep(s, ev[0]), ev[1..]))
  }

  ghost function CountAll(s: Counting, ev: seq<Event>): Counting
    requires CountFitsAll(s, ev)
    decreases |ev|
  {
    if ev == [] then s else CountAll(CountStep(s, ev[0]), ev[1..])
  }

  /** Names with their terminating zeros. */
  function NameBytes(names: seq<seq<byte>>): nat {
    if names == [] then 0 else NameBytes(names[..|names| - 1]) + |names[|names| - 1]| + 1
  }

  lemma NameBytesSnoc(names: seq<seq<byte>>, n: seq<byte>)
    ensures NameBytes(names + [n]) == NameBytes(names) + |n| + 1
  {
    assert (names + [n])[..|names|] == names;
  }

  function Length(n: Node): nat {
    if n.kind.Str? then |n.text| else |n.children|
  }

  /** What pass 1 knows of a node. */
  function CellOf(n: Node): Cell {
    Cell(n.kind, n.parent, n.boolean, n.isDouble, n.integer, Length(n), NameBytes(n.names))
  }

  ghost predicate Counts(s: Counting, t: Tree) {
    && |s.cells| == |t.nodes| && s.top == Top(t) && (t.open ==> s.strLen == |t.cur|)
    && forall k :: 0 <= k < |t.nodes| ==> s.cells[k] == CellOf(t.nodes[k])
  }

  lemma CountNew(s: Counting, t: Tree, e: Event)
    requires Counts(s, t) && Fits(t, e) && e.New?
    ensures Counts(CountStep(s, e), BuildStep(t, e))
  {
    hide NameBytes;
    NoNames();
  }

  lemma CountUp(s: Counting, t: Tree)
    requires Counts(s, t) && Fits(t, Up) && Linked(t) && Container(t.nodes[t.chain[|t.chain| - 2]].kind)
    ensures CountFits(s, Up) && Counts(CountStep(s, Up), BuildStep(t, Up))
  {
    hide NameBytes;
    var n := |t.chain|;
    assert t.nodes[t.chain[n - 1]].parent == t.chain[n - 2];
  }

  lemma CountContent(s: Counting, t: Tree, e: Event)
    requires Counts(s, t) && Fits(t, e) && !e.New? && !e.Up?
    ensures CountFits(s, e) && Counts(CountStep(s, e), BuildStep(t, e))
  {
    hide NameBytes;
    if e.EndName? {
      NameBytesSnoc(t.nodes[Top(t)].names, t.cur);
    }
  }

  lemma CountStepIs(s: Counting, t: Tree, e: Event)
    requires Counts(s, t) && Fits(t, e) && Wf(t)
    ensures CountFits(s, e) && Counts(CountStep(s, e), BuildStep(t, e))
  {
    hide Wf, Counts, CountStep, BuildStep;
    if e.New? {
      CountNew(s, t, e);
    } else if e.Up? {
      WfLinked(t);
      OpenIsNamed(t, |t.chain| - 2);
      CountUp(s, t);
    } else {
      CountContent(s, t, e);
    }
  }

  lemma NoNames()
    ensures NameBytes([]) == 0
  {
  }

  /** Pass 1 counts the tree. */
  lemma {:induction false} CountsTree(s: Counting, t: Tree, ev: seq<Event>)
    requires Counts(s, t) && FitsAll(t, ev) && Wf(t)
    ensures CountFitsAll(s, ev) && Counts(CountAll(s, ev), Build(t, ev))
    decreases |ev|
  {
    hide Wf, Counts, Fits, BuildStep, CountFits, CountStep;
    if ev != [] {
      CountStepIs(s, t, ev[0]);
      StepWf(t, ev[0]);
      CountsTree(CountStep(s, ev[0]), BuildStep(t, ev[0]), ev[1..]);
    }
  }

  // ---- Pass 2 ----

  /** A json_value in pass 2: what pass 1 left, with the counters running again, the sizes of its block, and its
      contents. */
  datatype Slot = Slot(cell: Cell, cap: nat, nameCap: nat, children: seq<nat>, names: seq<seq<byte>>, text: seq<byte>)

  /** `alloc` is the next value on the allocation list. */
  datatype Filling = Filling(slots: seq<Slot>, alloc: nat, top: int, cur: seq<byte>)

  /** `Overrun`: the list is used up or does not match the text, or a write would leave its block. */
  datatype Filled = Fill(s: Filling) | Overrun

  function Untouched(c: Cell): Slot {
    Slot(c, 0, 0, [], [], [])
  }

  function TopSlot(s: Filling): Slot
    requires 0 <= s.top < |s.slots|
  {
    s.slots[s.top]
  }

  function FillStep(s: Filling, e: Event): Filled {
    if e.New? then
      if s.alloc >= |s.slots| || s.slots[s.alloc].cell.kind != e.kind
          || s.slots[s.alloc].cell.parent != s.top then Overrun
      else
        var c := s.slots[s.alloc].cell;
        Fill(Filling(s.slots[s.alloc := Slot(c.(length := 0, nameMem := 0), c.length, c.nameMem, [], [], [])],
                     s.alloc + 1, s.alloc, if e.kind.Str? then [] else s.cur))
    else if !(0 <= s.top < |s.slots|) then Overrun
    else
      var x := TopSlot(s);
      match e
      case BeginName => Fill(s.(cur := []))
      case Put(bytes) =>
        var end := |s.cur| + |bytes|;
        if (if x.cell.kind.Str? then end > x.cap + 1 else x.cell.nameMem + end > x.nameCap) then Overrun
        else Fill(s.(cur := s.cur + bytes))
      case EndStr =>
        if |s.cur| >= x.cap + 1 then Overrun
        else Fill(s.(slots := s.slots[s.top := x.(cell := x.cell.(length := |s.cur|), text := s.cur)]))
      case EndName =>
        if x.cell.nameMem + |s.cur| >= x.nameCap || x.cell.length >= x.cap then Overrun
        else Fill(s.(slots := s.slots[s.top := x.(cell := x.cell.(nameMem := x.cell.nameMem + |s.cur| + 1),
            names := x.names + [s.cur])]))
      case Up =>
        var p := x.cell.parent;
        if !(0 <= p < |s.slots|) || s.slots[p].cell.length >= s.slots[p].cap then Overrun
        else
          var y := s.slots[p];
          Fill(s.(slots := s.slots[p := y.(cell := y.cell.(length := y.cell.length + 1),
              children := y.children + [s.top as nat])],
                  top := p))
      case _ => Fill(s)
  }

  function FillAll(s: Filling, ev: seq<Event>): Filled
    decreases |ev|
  {
    if ev == [] then Fill(s)
    else
      match FillStep(s, ev[0])
      case Fill(s') => FillAll(s', ev[1..])
      case Overrun => Overrun
  }

  // ---- The counted sizes are enough ----

  /** A string or name that is being read at node `k` will need at least this. */
  function PendingStr(t: Tree, k: nat): nat {
    if t.open && k == Top(t) && TopIs(t, Str) then |t.cur| else 0
  }

  function PendingName(t: Tree, k: nat): nat {
    if t.open && k == Top(t) && TopIs(t, Object) then |t.cur| + 1 else 0
  }

  /** The node will get no more than the cell counted. */
  ghost predicate FitsCell(t: Tree, k: nat, c: Cell)
    requires k < |t.nodes|
  {
    var n := t.nodes[k];
    && c.kind == n.kind && c.parent == n.parent && c.boolean == n.boolean
    && Length(n) <= c.length && PendingStr(t, k) <= c.length
    && NameBytes(n.names) + PendingName(t, k) <= c.nameMem
    && (n.kind.Object? ==> |n.names| <= c.length && (t.open && k == Top(t) ==> |n.names| + 1 <= c.length))
  }

  ghost predicate Room(f: seq<Cell>, t: Tree) {
    |t.nodes| <= |f| && forall k :: 0 <= k < |t.nodes| ==> FitsCell(t, k, f[k])
  }

  lemma RoomBefore(f: seq<Cell>, t: Tree, e: Event, k: nat)
    requires Fits(t, e) && Linked(t) && Room(f, BuildStep(t, e)) && k < |t.nodes|
    ensures FitsCell(t, k, f[k])
  {
    hide NameBytes;
    var t' := BuildStep(t, e);
    assert FitsCell(t', k, f[k]);
    match e
    case New(_, _) => assert t'.nodes[k] == t.nodes[k];
    case BeginName =>
    case Put(bytes) => assert t'.nodes[k] == t.nodes[k] && |t.cur| <= |t'.cur|;
    case EndStr =>
    case EndName => NameBytesSnoc(t.nodes[k].names, t.cur);
    case Value(_, _) =>
    case Up =>
  }

  /** In a whole tree the cells are exact. */
  lemma WholeRoom(f: seq<Cell>, t: Tree)
    requires Whole(t) && |f| == |t.nodes| && forall k :: 0 <= k < |f| ==> f[k] == CellOf(t.nodes[k])
    ensures Room(f, t)
  {
    hide NameBytes, Linked, OlderChildren, Attached, ChildrenOk;
    forall k | 0 <= k < |t.nodes| ensures FitsCell(t, k, f[k]) {
      if k != 0 {
        assert k !in t.chain;
      }
      assert Complete(t.nodes[k]);
    }
  }

  // ---- Pass 2 follows the tree ----

  ghost predicate SlotIs(x: Slot, n: Node, c: Cell) {
    && x.cell == c.(length := Length(n), nameMem := NameBytes(n.names)) && x.cap == c.length && x.nameCap == c.nameMem
    && x.children == n.children && x.names == n.names && x.text == n.text
  }

  ghost predicate Follows2(f: seq<Cell>, t: Tree, s: Filling) {
    && |s.slots| == |f| && s.alloc == |t.nodes| <= |f| && s.top == Top(t) && (t.open ==> s.cur == t.cur)
    && (forall k :: 0 <= k < |t.nodes| ==> SlotIs(s.slots[k], t.nodes[k], f[k]))
    && (forall k :: |t.nodes| <= k < |f| ==> s.slots[k] == Untouched(f[k]))
  }

  lemma FillNew(f: seq<Cell>, t: Tree, s: Filling, e: Event)
    requires Follows2(f, t, s) && Fits(t, e) && e.New? && Linked(t) && Room(f, BuildStep(t, e))
    ensures FillStep(s, e).Fill? && Follows2(f, BuildStep(t, e), FillStep(s, e).s)
  {
    hide NameBytes;
    NoNames();
    var n := |t.nodes|;
    var t' := BuildStep(t, e);
    assert FitsCell(t', n, f[n]);
    assert s.slots[n] == Untouched(f[n]);
  }

  lemma FillContent(f: seq<Cell>, t: Tree, s: Filling, e: Event)
    requires Follows2(f, t, s) && Fits(t, e) && !e.New? && !e.Up? && !e.Value? && Linked(t)
    requires Room(f, t) && Room(f, BuildStep(t, e))
    ensures FillStep(s, e).Fill? && Follows2(f, BuildStep(t, e), FillStep(s, e).s)
  {
    hide NameBytes;
    var k: nat := Top(t);
    var t' := BuildStep(t, e);
    assert FitsCell(t, k, f[k]) && FitsCell(t', k, f[k]) && SlotIs(s.slots[k], t.nodes[k], f[k]);
    NameBytesSnoc(t.nodes[k].names, t.cur);
  }

  lemma FillUp(f: seq<Cell>, t: Tree, s: Filling)
    requires Follows2(f, t, s) && Fits(t, Up) && Wf(t) && Room(f, t) && Room(f, BuildStep(t, Up))
    ensures FillStep(s, Up).Fill? && Follows2(f, BuildStep(t, Up), FillStep(s, Up).s)
  {
    hide NameBytes, ChildrenOk, Attached, OlderChildren;
    var n := |t.chain|;
    var top, p := t.chain[n - 1], t.chain[n - 2];
    OpenIsNamed(t, n - 2);
    assert t.nodes[t.chain[n - 1]].parent == t.chain[n - 2];
    assert SlotIs(s.slots[top], t.nodes[top], f[top]) && SlotIs(s.slots[p], t.nodes[p], f[p]);
    assert FitsCell(t, top, f[top]) && FitsCell(BuildStep(t, Up), p, f[p]);
  }

  /** A number in pass 1 changes nothing that pass 2 looks at. */
  lemma FillValue(f: seq<Cell>, t: Tree, s: Filling, e: Event)
    requires Follows2(f, t, s) && Fits(t, e) && e.Value?
    ensures Follows2(f, BuildStep(t, e), s)
  {
    hide NameBytes;
  }

  /** With the cells of the whole tree, pass 2 never leaves a block and follows the tree to its end. */
  lemma {:induction false} FillsTree(f: seq<Cell>, t: Tree, s: Filling, ev: seq<Event>)
    requires Follows2(f, t, s) && FitsAll(t, ev) && Wf(t) && Room(f, Build(t, ev))
    ensures Room(f, t) && FillAll(s, Strip(ev)).Fill? && Follows2(f, Build(t, ev), FillAll(s, Strip(ev)).s)
    decreases |ev|
  {
    hide Wf, Follows2, Fits, BuildStep, FillStep, FitsCell;
    if ev != [] {
      var e := ev[0];
      var t' := BuildStep(t, e);
      StepWf(t, e);
      RoomFrom(f, t', ev[1..]);
      WfLinked(t);
      NodesGrow(t, e);
      forall k | 0 <= k < |t.nodes| ensures FitsCell(t, k, f[k]) {
        RoomBefore(f, t, e, k);
      }
      if e.Value? {
        FillValue(f, t, s, e);
        FillsTree(f, t', s, ev[1..]);
      } else {
        if e.New? {
          FillNew(f, t, s, e);
        } else if e.Up? {
          FillUp(f, t, s);
        } else {
          FillContent(f, t, s, e);
        }
        FillsTree(f, t', FillStep(s, e).s, ev[1..]);
        assert ([e] + Strip(ev[1..]))[1..] == Strip(ev[1..]);
      }
    }
  }

  lemma WfLinked(t: Tree)
    requires Wf(t)
    ensures Linked(t)
  {
  }

  lemma NodesGrow(t: Tree, e: Event)
    requires Fits(t, e)
    ensures |t.nodes| <= |BuildStep(t, e).nodes|
  {
  }

  lemma {:induction false} RoomFrom(f: seq<Cell>, t: Tree, ev: seq<Event>)
    requires FitsAll(t, ev) && Wf(t) && Room(f, Build(t, ev))
    ensures Room(f, t)
    decreases |ev|
  {
    hide Wf, Fits, BuildStep, FitsCell;
    if ev != [] {
      StepWf(t, ev[0]);
      WfLinked(t);
      NodesGrow(t, ev[0]);
      RoomFrom(f, BuildStep(t, ev[0]), ev[1..]);
      forall k | 0 <= k < |t.nodes| ensures FitsCell(t, k, f[k]) {
        RoomBefore(f, t, ev[0], k);
      }
    }
  }

  // ---- Both passes ----

  /** The value as it should be after pass 2: the block is exactly full. */
  function SlotOf(n: Node): Slot {
    Slot(CellOf(n), Length(n), NameBytes(n.names), n.children, n.names, n.text)
  }

  /** The values as pass 2 finds them. */
  function Unfilled(cells: seq<Cell>): Filling {
    Filling(seq(|cells|, k requires 0 <= k < |cells| => Untouched(cells[k])), 0, -1, [])
  }

  const NOTHING_COUNTED := Counting([], -1, 0)

  /** The values of a whole tree as they should be after pass 2. */
  ghost predicate Exact(slots: seq<Slot>, t: Tree) {
    |slots| == |t.nodes| && forall k :: 0 <= k < |slots| ==> slots[k] == SlotOf(t.nodes[k])
  }

  /** Pass 1 on a text that it accepts: the cells are those of a whole tree. */
  lemma FirstPass(text: seq<byte>)
    requires Run(true, text, Start()).Ok?
    ensures var ev := Run(true, text, Start()).ev;
            FitsAll(EMPTY, ev) && Whole(Build(EMPTY, ev)) && CountFitsAll(NOTHING_COUNTED, ev)
            && Counts(CountAll(NOTHING_COUNTED, ev), Build(EMPTY, ev))
  {
    hide Run, FitsAll, CountFitsAll, Build, CountAll, Whole;
    StartFits();
    RunFits(text, Start(), EMPTY);
    CountsTree(NOTHING_COUNTED, EMPTY, Run(true, text, Start()).ev);
  }

  /** Whenever pass 1 succeeds, pass 2 succeeds in blocks of the counted sizes: it uses up the allocation list in
      creation order, no write leaves its block, and every array, object, string and name area ends exactly full, with
      the contents of the tree. */
  lemma TwoPasses(text: seq<byte>) returns (t: Tree, cells: seq<Cell>, s: Filling)
    requires Run(true, text, Start()).Ok?
    ensures FitsAll(EMPTY, Run(true, text, Start()).ev) && t == Build(EMPTY, Run(true, text, Start()).ev) && Whole(t)
    ensures CountFitsAll(NOTHING_COUNTED, Run(true, text, Start()).ev)
    ensures cells == CountAll(NOTHING_COUNTED, Run(true, text, Start()).ev).cells && |cells| == |t.nodes|
    ensures Run(false, text, Start()).Ok? && FillAll(Unfilled(cells), Run(false, text, Start()).ev) == Fill(s)
    ensures s.alloc == |cells| && s.top == 0 && Exact(s.slots, t)
    ensures forall k :: 0 <= k < |cells| ==>
              s.slots[k].cap == s.slots[k].cell.length == cells[k].length
              && s.slots[k].nameCap == s.slots[k].cell.nameMem == cells[k].nameMem
  {
    hide Run, FitsAll, CountFitsAll, Build, CountAll, FillAll, FitsCell;
    var ev := Run(true, text, Start()).ev;
    FirstPass(text);
    t := Build(EMPTY, ev);
    cells := CountAll(NOTHING_COUNTED, ev).cells;
    PassesAgree(text);
    WholeRoom(cells, t);
    StartFits();
    FillsTree(cells, EMPTY, Unfilled(cells), ev);
    s := FillAll(Unfilled(cells), Strip(ev)).s;
    forall k | 0 <= k < |cells|
      ensures s.slots[k] == SlotOf(t.nodes[k]) && s.slots[k].cap == s.slots[k].cell.length == cells[k].length
              && s.slots[k].nameCap == s.slots[k].cell.nameMem == cells[k].nameMem
    {
      assert SlotIs(s.slots[k], t.nodes[k], cells[k]) && cells[k] == CellOf(t.nodes[k]);
    }
  }
}
