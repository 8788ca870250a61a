/** What the events of json_parse_ex do to memory: pass 1 counts, pass 2 fills blocks of the counted sizes, and both
    agree with a tree that is built at once. */
module JsonMemory {
  import opened Bits
  import opened JsonControl
  import opened JsonPasses

  // ---- The tree, built at once ----

  /** A value with its contents; values are numbered in the order of their creation, and the root has parent -1. */
  datatype Node = Node(kind: Kind, parent: int, boolean: bool, isDouble: bool, integer: int,
                       children: seq<nat>, names: seq<seq<byte>>, text: seq<byte>)

  /** The nodes, the open ones from the root to top, and the string or name that is being read. */
  datatype Tree = Tree(nodes: seq<Node>, chain: seq<nat>, cur: seq<byte>, open: bool)

  const EMPTY := Tree([], [], [], false)

  function Top(t: Tree): int {
    if t.chain == [] then -1 else t.chain[|t.chain| - 1]
  }

  /** The name that belongs to the next member has been read. */
  predicate Named(n: Node) {
    |n.names| == |n.children| + 1
  }

  predicate Complete(n: Node) {
    n.kind.Object? ==> |n.names| == |n.children|
  }

  predicate TopIs(t: Tree, kind: Kind) {
    t.chain != [] && t.chain[|t.chain| - 1] < |t.nodes| && t.nodes[t.chain[|t.chain| - 1]].kind == kind
  }

  /** Whether an event makes sense for a tree. */
  predicate Fits(t: Tree, e: Event) {
    match e
    case New(_, _) =>
      !t.open && (if t.chain == [] then t.nodes == []
                  else TopIs(t, Array) || (TopIs(t, Object) && Named(t.nodes[Top(t)])))
    case BeginName => !t.open && TopIs(t, Object) && Complete(t.nodes[Top(t)])
    case Put(_) => t.open && (TopIs(t, Object) || TopIs(t, Str))
    case EndStr => t.open && TopIs(t, Str) && t.nodes[Top(t)].text == []
    case EndName => t.open && TopIs(t, Object) && Complete(t.nodes[Top(t)])
    case Value(_, _) => !t.open && TopIs(t, Number)
    case Up => !t.open && |t.chain| >= 2 && t.chain[|t.chain| - 1] < |t.nodes| && t.chain[|t.chain| - 2] < |t.nodes|
               && Complete(t.nodes[Top(t)])
  }

  function BuildStep(t: Tree, e: Event): Tree
    requires Fits(t, e)
  {
    var top := Top(t);
    match e
    case New(kind, boolean) =>
      Tree(t.nodes + [Node(kind, top, boolean, false, 0, [], [], [])], t.chain + [|t.nodes|], [], kind.Str?)
    case BeginName => t.(cur := [], open := true)
    case Put(bytes) => t.(cur := t.cur + bytes)
    case EndStr => t.(nodes := t.nodes[top := t.nodes[top].(text := t.cur)], open := false)
    case EndName => t.(nodes := t.nodes[top := t.nodes[top].(names := t.nodes[top].names + [t.cur])], open := false)
    case Value(isDouble, integer) =>
      t.(nodes := t.nodes[top := t.nodes[top].(isDouble := isDouble, integer := integer)])
    case Up =>
      var p := t.chain[|t.chain| - 2];
      t.(nodes := t.nodes[p := t.nodes[p].(children := t.nodes[p].children + [top as nat])],
      chain := t.chain[..|t.chain| - 1])
  }

  predicate FitsAll(t: Tree, ev: seq<Event>)
    decreases |ev|
  {
    ev == [] || (Fits(t, ev[0]) && FitsAll(BuildStep(t, ev[0]), ev[1..]))
  }

  function Build(t: Tree, ev: seq<Event>): Tree
    requires FitsAll(t, ev)
    decreases |ev|
  {
    if ev == [] then t else Build(BuildStep(t, ev[0]), ev[1..])
  }

  // ---- What every tree on the way satisfies ----

  /** Parents come before children, and the open nodes are a path from the root. */
  predicate Linked(t: Tree) {
    && (t.chain == [] <==> t.nodes == [])
    && (forall j :: 0 <= j < |t.chain| ==> t.chain[j] < |t.nodes|)
    && (t.chain != [] ==> t.chain[0] == 0)
    && (forall j :: 0 < j < |t.chain| ==> t.nodes[t.chain[j]].parent == t.chain[j - 1])
    && (forall k :: 0 <= k < |t.nodes| ==> -1 <= t.nodes[k].parent < k && (t.nodes[k].parent == -1 <==> k == 0))
  }

  /** The children of a node are closed nodes behind it, in order, and name it as their parent. */
  predicate ChildrenOk(t: Tree, k: nat)
    requires k < |t.nodes|
  {
    && (forall j :: 0 <= j < |t.nodes[k].children| ==>
          k < t.nodes[k].children[j] < |t.nodes| && t.nodes[t.nodes[k].children[j]].parent == k
          && t.nodes[k].children[j] !in t.chain)
    && (forall i, j :: 0 <= i < j < |t.nodes[k].children| ==> t.nodes[k].children[i] < t.nodes[k].children[j])
    && (t.nodes[k].children != [] ==> Container(t.nodes[k].kind))
  }

  /** Every closed node but the root is among the children of its parent. */
  predicate Attached(t: Tree) {
    forall k :: 0 < k < |t.nodes| && k !in t.chain ==>
      0 <= t.nodes[k].parent < |t.nodes| && k in t.nodes[t.nodes[k].parent].children
  }

  /** Objects have a name for every member, and the open ones one more where a member is being read. */
  predicate NamesOk(t: Tree) {
    && (forall k :: 0 <= k < |t.nodes| && k !in t.chain ==> Complete(t.nodes[k]))
    && (forall j :: 0 <= j < |t.chain| - 1 && t.chain[j] < |t.nodes| ==>
          Container(t.nodes[t.chain[j]].kind) && (t.nodes[t.chain[j]].kind.Object? ==> Named(t.nodes[t.chain[j]])))
  }

  /** The children of an open node are older than the open node below it. */
  predicate OlderChildren(t: Tree) {
    forall j, i :: 0 <= j < |t.chain| - 1 && t.chain[j] < |t.nodes| && 0 <= i < |t.nodes[t.chain[j]].children| ==>
      t.nodes[t.chain[j]].children[i] < t.chain[j + 1]
  }

  predicate Wf(t: Tree) {
    Linked(t) && OlderChildren(t) && (forall k :: 0 <= k < |t.nodes| ==> ChildrenOk(t, k)) && Attached(t) && NamesOk(t)
  }

  /** The open nodes stand in order: top is the last of them. */
  lemma {:induction false} ChainGrows(t: Tree, i: nat, j: nat)
    requires Linked(t) && i < j < |t.chain|
    ensures t.chain[i] < t.chain[j]
    decreases j
  {
    if i < j - 1 {
      ChainGrows(t, i, j - 1);
    }
  }

  // ---- Every event keeps that ----

  /** new_value adds an open node behind the others. */
  ghost predicate Adds(t: Tree, t': Tree) {
    var n := |t.nodes|;
    && |t'.nodes| == n + 1 && (forall k :: 0 <= k < n ==> t'.nodes[k] == t.nodes[k])
    && |t'.chain| == |t.chain| + 1 && (forall j :: 0 <= j < |t.chain| ==> t'.chain[j] == t.chain[j])
    && t'.chain[|t.chain|] == n
    && t'.nodes[n].parent == Top(t) && t'.nodes[n].children == [] && t'.nodes[n].names == []
    && (t.chain == [] ==> t.nodes == [])
    && (t.chain != [] ==> TopIs(t, Array) || (TopIs(t, Object) && Named(t.nodes[Top(t)])))
  }

  /** Strings, names and numbers: only the contents of top change. */
  ghost predicate Edits(t: Tree, t': Tree) {
    && t'.chain == t.chain && |t'.nodes| == |t.nodes|
    && (forall k :: 0 <= k < |t.nodes| ==>
          t'.nodes[k] == t.nodes[k].(names := t'.nodes[k].names, text := t'.nodes[k].text,
                                     isDouble := t'.nodes[k].isDouble, integer := t'.nodes[k].integer))
    && (forall k :: 0 <= k < |t.nodes| && k != Top(t) ==> t'.nodes[k] == t.nodes[k])
    && t.chain != []
  }

  /** A closed value goes to its parent. */
  ghost predicate Pops(t: Tree, t': Tree) {
    && |t.chain| >= 2 && |t'.nodes| == |t.nodes| && t'.chain == t.chain[..|t.chain| - 1]
    && var top, p := t.chain[|t.chain| - 1], t.chain[|t.chain| - 2];
    && top < |t.nodes| && p < |t.nodes|
    && (forall k :: 0 <= k < |t.nodes| && k != p ==> t'.nodes[k] == t.nodes[k])
    && t'.nodes[p] == t.nodes[p].(children := t'.nodes[p].children)
    && |t'.nodes[p].children| == |t.nodes[p].children| + 1 && t'.nodes[p].children[|t.nodes[p].children|] == top
    && (forall i :: 0 <= i < |t.nodes[p].children| ==> t'.nodes[p].children[i] == t.nodes[p].children[i])
    && Complete(t.nodes[top])
  }

  lemma StepShape(t: Tree, e: Event)
    requires Linked(t) && Fits(t, e)
    ensures var t' := BuildStep(t, e);
            if e.New? then Adds(t, t') else if e.Up? then Pops(t, t') else Edits(t, t')
  {
  }

  lemma AddsLinked(t: Tree, t': Tree)
    requires Linked(t) && Adds(t, t')
    ensures Linked(t')
  {
    forall j | 0 < j < |t'.chain| ensures t'.nodes[t'.chain[j]].parent == t'.chain[j - 1] {
      if j < |t.chain| {
        assert t.nodes[t.chain[j]].parent == t.chain[j - 1];
      }
    }
  }

  lemma AddsOlder(t: Tree, t': Tree)
    requires Wf(t) && Adds(t, t')
    ensures OlderChildren(t')
  {
    hide Attached, NamesOk;
    forall j, i | 0 <= j < |t'.chain| - 1 && 0 <= i < |t'.nodes[t'.chain[j]].children|
      ensures t'.nodes[t'.chain[j]].children[i] < t'.chain[j + 1]
    {
      assert t'.chain[j] == t.chain[j];
      assert ChildrenOk(t, t.chain[j]);
    }
  }

  lemma AddsChildren(t: Tree, t': Tree, k: nat)
    requires Wf(t) && Adds(t, t') && k < |t'.nodes|
    ensures ChildrenOk(t', k)
  {
    hide Attached, NamesOk, OlderChildren;
    if k < |t.nodes| {
      assert ChildrenOk(t, k);
      forall j | 0 <= j < |t.nodes[k].children| ensures t'.nodes[k].children[j] !in t'.chain {
        InChain(t, t', t.nodes[k].children[j]);
      }
    }
  }

  lemma InChain(t: Tree, t': Tree, k: nat)
    requires Adds(t, t')
    ensures k in t'.chain <==> k in t.chain || k == |t.nodes|
  {
    if k in t.chain {
      var j :| 0 <= j < |t.chain| && t.chain[j] == k;
      assert t'.chain[j] == k;
    }
  }

  lemma AddsAttached(t: Tree, t': Tree)
    requires Linked(t) && Attached(t) && Adds(t, t')
    ensures Attached(t')
  {
    forall k | 0 < k < |t'.nodes| && k !in t'.chain
      ensures 0 <= t'.nodes[k].parent < |t'.nodes| && k in t'.nodes[t'.nodes[k].parent].children
    {
      InChain(t, t', k);
      assert t'.nodes[k] == t.nodes[k];
    }
  }

  lemma AddsNames(t: Tree, t': Tree)
    requires Linked(t) && NamesOk(t) && Adds(t, t')
    ensures NamesOk(t')
  {
    forall k | 0 <= k < |t'.nodes| && k !in t'.chain ensures Complete(t'.nodes[k]) {
      InChain(t, t', k);
    }
  }

  lemma EditsLinked(t: Tree, t': Tree)
    requires Linked(t) && Edits(t, t')
    ensures Linked(t')
  {
  }

  lemma EditsOlder(t: Tree, t': Tree)
    requires Linked(t) && OlderChildren(t) && Edits(t, t')
    ensures OlderChildren(t')
  {
    forall j, i | 0 <= j < |t'.chain| - 1 && 0 <= i < |t'.nodes[t'.chain[j]].children|
      ensures t'.nodes[t'.chain[j]].children[i] < t'.chain[j + 1]
    {
      assert t'.nodes[t'.chain[j]].children == t.nodes[t.chain[j]].children;
    }
  }

  lemma EditsAttached(t: Tree, t': Tree)
    requires Linked(t) && Attached(t) && Edits(t, t')
    ensures Attached(t')
  {
    forall k | 0 < k < |t'.nodes| && k !in t'.chain
      ensures 0 <= t'.nodes[k].parent < |t'.nodes| && k in t'.nodes[t'.nodes[k].parent].children
    {
      assert t'.nodes[k].parent == t.nodes[k].parent;
      assert t'.nodes[t.nodes[k].parent].children == t.nodes[t.nodes[k].parent].children;
    }
  }

  lemma EditsNames(t: Tree, t': Tree)
    requires Linked(t) && NamesOk(t) && Edits(t, t')
    ensures NamesOk(t')
  {
    var n := |t.chain|;
    forall k | 0 <= k < |t'.nodes| && k !in t'.chain ensures Complete(t'.nodes[k]) {
      assert t.chain[n - 1] in t.chain;
    }
    forall j | 0 <= j < n - 1
      ensures Container(t'.nodes[t'.chain[j]].kind)
          && (t'.nodes[t'.chain[j]].kind.Object? ==> Named(t'.nodes[t'.chain[j]]))
    {
      ChainGrows(t, j, n - 1);
    }
  }

  lemma EditsChildren(t: Tree, t': Tree, k: nat)
    requires Wf(t) && Edits(t, t') && k < |t'.nodes|
    ensures ChildrenOk(t', k)
  {
    hide Attached, NamesOk, OlderChildren, Linked;
    assert ChildrenOk(t, k);
  }

  lemma PopsLinked(t: Tree, t': Tree)
    requires Linked(t) && Pops(t, t')
    ensures Linked(t')
  {
    forall j | 0 < j < |t'.chain| ensures t'.nodes[t'.chain[j]].parent == t'.chain[j - 1] {
      assert t'.chain[j] == t.chain[j] && t'.chain[j - 1] == t.chain[j - 1];
      assert t.nodes[t.chain[j]].parent == t.chain[j - 1];
    }
  }

  /** What closing a value means for the open nodes. */
  lemma PopsChain(t: Tree, t': Tree)
    requires Linked(t) && Pops(t, t')
    ensures var top, p := t.chain[|t.chain| - 1], t.chain[|t.chain| - 2];
            && t.nodes[top].parent == p && p < top
            && (forall j :: 0 <= j < |t.chain| - 2 ==> t.chain[j] < p)
            && (forall k :: k in t.chain <==> k in t'.chain || k == top) && top !in t'.chain
  {
    var n := |t.chain|;
    forall j | 0 <= j < n - 2 ensures t.chain[j] < t.chain[n - 2] {
      ChainGrows(t, j, n - 2);
    }
    ChainGrows(t, n - 2, n - 1);
    assert t.chain == t'.chain + [t.chain[n - 1]];
  }

  lemma PopsOlder(t: Tree, t': Tree)
    requires Linked(t) && OlderChildren(t) && Pops(t, t')
    ensures OlderChildren(t')
  {
    PopsChain(t, t');
    forall j, i | 0 <= j < |t'.chain| - 1 && 0 <= i < |t'.nodes[t'.chain[j]].children|
      ensures t'.nodes[t'.chain[j]].children[i] < t'.chain[j + 1]
    {
      assert t'.chain[j] == t.chain[j] && t'.chain[j + 1] == t.chain[j + 1];
    }
  }

  lemma PopsChildren(t: Tree, t': Tree, k: nat)
    requires Wf(t) && Pops(t, t') && k < |t'.nodes|
    ensures ChildrenOk(t', k)
  {
    hide Attached, NamesOk;
    PopsChain(t, t');
    assert ChildrenOk(t, k);
    var top, p := t.chain[|t.chain| - 1], t.chain[|t.chain| - 2];
    if k == p {
      forall j | 0 <= j < |t.nodes[p].children| ensures t.nodes[p].children[j] < top {
        assert t.chain[|t.chain| - 2] == p && t.chain[(|t.chain| - 2) + 1] == top;
      }
      OpenIsContainer(t, |t.chain| - 2);
    }
  }

  lemma OpenIsContainer(t: Tree, j: nat)
    requires Linked(t) && NamesOk(t) && j + 1 < |t.chain|
    ensures Container(t.nodes[t.chain[j]].kind)
  {
  }

  lemma PopsAttached(t: Tree, t': Tree)
    requires Linked(t) && Attached(t) && Pops(t, t')
    ensures Attached(t')
  {
    PopsChain(t, t');
    var top, p := t.chain[|t.chain| - 1], t.chain[|t.chain| - 2];
    forall k | 0 < k < |t'.nodes| && k !in t'.chain
      ensures 0 <= t'.nodes[k].parent < |t'.nodes| && k in t'.nodes[t'.nodes[k].parent].children
    {
      assert t'.nodes[k].parent == t.nodes[k].parent;
      if k == top {
        assert t'.nodes[p].children[|t.nodes[p].children|] == top;
      } else {
        var q := t.nodes[k].parent;
        assert k in t.nodes[q].children;
        var i :| 0 <= i < |t.nodes[q].children| && t.nodes[q].children[i] == k;
        assert t'.nodes[q].children[i] == k;
      }
    }
  }

  lemma PopsNames(t: Tree, t': Tree)
    requires Linked(t) && NamesOk(t) && Pops(t, t')
    ensures NamesOk(t')
  {
    PopsChain(t, t');
    forall j | 0 <= j < |t'.chain| - 1
      ensures Container(t'.nodes[t'.chain[j]].kind)
          && (t'.nodes[t'.chain[j]].kind.Object? ==> Named(t'.nodes[t'.chain[j]]))
    {
      assert t'.chain[j] == t.chain[j];
    }
  }

  /** Every event keeps a tree well-formed. */
  lemma StepWf(t: Tree, e: Event)
    requires Wf(t) && Fits(t, e)
    ensures Wf(BuildStep(t, e))
  {
    hide Linked, OlderChildren, ChildrenOk, Attached, NamesOk, Adds, Pops, Edits, Fits, BuildStep;
    var t' := BuildStep(t, e);
    StepShape(t, e);
    if e.New? {
      AddsLinked(t, t');
      AddsOlder(t, t');
      forall k | 0 <= k < |t'.nodes| ensures ChildrenOk(t', k) {
        AddsChildren(t, t', k);
      }
      AddsAttached(t, t');
      AddsNames(t, t');
    } else if e.Up? {
      PopsLinked(t, t');
      PopsOlder(t, t');
      forall k | 0 <= k < |t'.nodes| ensures ChildrenOk(t', k) {
        PopsChildren(t, t', k);
      }
      PopsAttached(t, t');
      PopsNames(t, t');
    } else {
      EditsLinked(t, t');
      EditsOlder(t, t');
      EditsAttached(t, t');
      EditsNames(t, t');
      forall k | 0 <= k < |t'.nodes| ensures ChildrenOk(t', k) {
        EditsChildren(t, t', k);
      }
    }
  }

  lemma {:induction false} BuildWf(t: Tree, ev: seq<Event>)
    requires Wf(t) && FitsAll(t, ev)
    ensures Wf(Build(t, ev))
    decreases |ev|
  {
    hide Wf, Fits, BuildStep;
    if ev != [] {
      StepWf(t, ev[0]);
      BuildWf(BuildStep(t, ev[0]), ev[1..]);
    }
  }

  lemma {:induction false} BuildConcat(t: Tree, a: seq<Event>, b: seq<Event>)
    requires FitsAll(t, a) && FitsAll(Build(t, a), b)
    ensures FitsAll(t, a + b) && Build(t, a + b) == Build(Build(t, a), b)
    decreases |a|
  {
    hide Fits, BuildStep;
    if a == [] {
      assert a + b == b;
    } else {
      assert (a + b)[1..] == a[1..] + b;
      BuildConcat(BuildStep(t, a[0]), a[1..], b);
    }
  }
}
