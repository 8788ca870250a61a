/** json_value_free_ex: frees a parsed tree without recursion, by shrinking lengths and climbing by parent pointers. */
module JsonFree {
  import opened Sequences
  import opened JsonControl
  import opened JsonMemory
  import opened JsonLayout

  /** Something given back to the allocator: a value, or the block that it owns. */
  datatype Freed = Block(k: nat) | Cell(k: nat)

  /** Arrays, objects and strings own a block. */
  predicate Owns(n: Node) {
    Container(n.kind) || n.kind.Str?
  }

  /** The values of a tree: parents come first, and the children of a node name it as their parent. */
  ghost predicate TreeOk(nodes: seq<Node>) {
    && (forall k :: 0 <= k < |nodes| ==> -1 <= nodes[k].parent < k && (nodes[k].parent == -1 <==> k == 0))
    && (forall k :: 0 <= k < |nodes| ==> Family(nodes, k))
    && (forall k :: 0 < k < |nodes| ==> k in nodes[nodes[k].parent].children)
  }

  ghost predicate Family(nodes: seq<Node>, k: nat)
    requires k < |nodes|
  {
    && (forall j :: 0 <= j < |nodes[k].children| ==>
          k < nodes[k].children[j] < |nodes| && nodes[nodes[k].children[j]].parent == k)
    && (forall i, j :: 0 <= i < j < |nodes[k].children| ==> nodes[k].children[i] != nodes[k].children[j])
    && (nodes[k].children != [] ==> Container(nodes[k].kind))
  }

  /** What a parse leaves is such a tree. */
  lemma WholeIsTree(t: Tree)
    requires Whole(t)
    ensures TreeOk(t.nodes)
  {
    hide NamesOk, OlderChildren;
    forall k | 0 <= k < |t.nodes| ensures Family(t.nodes, k) {
      assert ChildrenOk(t, k);
    }
    forall k | 0 < k < |t.nodes| ensures k in t.nodes[t.nodes[k].parent].children {
      assert k !in t.chain;
    }
  }

  // ---- The order ----

  function Own(nodes: seq<Node>, k: nat): seq<Freed>
    requires k < |nodes|
  {
    (if Owns(nodes[k]) then [Block(k)] else []) + [Cell(k)]
  }

  /** A value and everything below it: the children from the last to the first, then the value. */
  function FreeOrder(nodes: seq<Node>, k: nat): seq<Freed>
    requires k < |nodes|
    decreases |nodes| - k, 1, 0
  {
    FreeKids(nodes, k, |nodes[k].children|) + Own(nodes, k)
  }

  /** The first `n` children, from the last of them to the first. */
  function FreeKids(nodes: seq<Node>, k: nat, n: nat): seq<Freed>
    requires k < |nodes| && n <= |nodes[k].children|
    decreases |nodes| - k, 0, n
  {
    if n == 0 then []
    else
      var c := nodes[k].children[n - 1];
      (if k < c < |nodes| then FreeOrder(nodes, c) else []) + FreeKids(nodes, k, n - 1)
  }

  // ---- Every value and every block exactly once, children first ----

  /** `x` is `k` or below it. */
  predicate Below(nodes: seq<Node>, k: nat, x: nat)
    decreases x
  {
    x < |nodes| && (x == k || (x > k && 0 <= nodes[x].parent < x && Below(nodes, k, nodes[x].parent)))
  }

  ghost predicate Member(nodes: seq<Node>, k: nat, e: Freed) {
    Below(nodes, k, e.k) && (e.Block? ==> Owns(nodes[e.k]))
  }

  /** Below one of the first `n` children. */
  ghost predicate KidMember(nodes: seq<Node>, k: nat, n: nat, e: Freed)
    requires k < |nodes| && n <= |nodes[k].children|
  {
    exists j :: 0 <= j < n && Member(nodes, nodes[k].children[j], e)
  }

  lemma {:induction false} FreedIffBelow(nodes: seq<Node>, k: nat, e: Freed)
    requires TreeOk(nodes) && k < |nodes|
    ensures e in FreeOrder(nodes, k) <==> Member(nodes, k, e)
    decreases |nodes| - k, 1, 0
  {
    var n := |nodes[k].children|;
    KidsIffBelow(nodes, k, n, e);
    assert e in FreeOrder(nodes, k) <==> e in FreeKids(nodes, k, n) || e in Own(nodes, k);
    if Member(nodes, k, e) && e.k != k {
      var j := BelowKid(nodes, k, e.k);
      assert Member(nodes, nodes[k].children[j], e);
    }
    if KidMember(nodes, k, n, e) {
      var j :| 0 <= j < n && Member(nodes, nodes[k].children[j], e);
      assert Family(nodes, k);
      BelowParent(nodes, nodes[k].children[j], e.k);
    }
  }

  lemma KidMemberStep(nodes: seq<Node>, k: nat, n: nat, e: Freed)
    requires k < |nodes| && 0 < n <= |nodes[k].children|
    ensures KidMember(nodes, k, n, e) <==> Member(nodes, nodes[k].children[n - 1], e) || KidMember(nodes, k, n - 1, e)
  {
    hide Member;
    if KidMember(nodes, k, n, e) {
      var j :| 0 <= j < n && Member(nodes, nodes[k].children[j], e);
      if j < n - 1 {
        assert KidMember(nodes, k, n - 1, e);
      }
    }
    if KidMember(nodes, k, n - 1, e) {
      var j :| 0 <= j < n - 1 && Member(nodes, nodes[k].children[j], e);
    }
  }

  /** The last child first. */
  lemma KidsSplit(nodes: seq<Node>, k: nat, n: nat)
    requires TreeOk(nodes) && k < |nodes| && 0 < n <= |nodes[k].children|
    ensures k < nodes[k].children[n - 1] < |nodes|
    ensures FreeKids(nodes, k, n) == FreeOrder(nodes, nodes[k].children[n - 1]) + FreeKids(nodes, k, n - 1)
  {
    assert Family(nodes, k);
  }

  lemma {:induction false} KidsIffBelow(nodes: seq<Node>, k: nat, n: nat, e: Freed)
    requires TreeOk(nodes) && k < |nodes| && n <= |nodes[k].children|
    ensures e in FreeKids(nodes, k, n) <==> KidMember(nodes, k, n, e)
    decreases |nodes| - k, 0, n
  {
    hide FreeOrder, Member, KidMember, TreeOk;
    if n > 0 {
      KidsSplit(nodes, k, n);
      FreedIffBelow(nodes, nodes[k].children[n - 1], e);
      KidsIffBelow(nodes, k, n - 1, e);
      KidMemberStep(nodes, k, n, e);
    } else {
      NoKids(nodes, k, e);
    }
  }

  lemma NoKids(nodes: seq<Node>, k: nat, e: Freed)
    requires k < |nodes|
    ensures e !in FreeKids(nodes, k, 0) && !KidMember(nodes, k, 0, e) && FreeKids(nodes, k, 0) == []
  {
  }

  /** A node below `k` is below one of its children. */
  lemma {:induction false} BelowKid(nodes: seq<Node>, k: nat, x: nat) returns (j: nat)
    requires TreeOk(nodes) && k < |nodes| && Below(nodes, k, x) && x != k
    ensures j < |nodes[k].children| && Below(nodes, nodes[k].children[j], x)
    decreases x
  {
    var p := nodes[x].parent;
    if p == k {
      assert x in nodes[k].children;
      j :| 0 <= j < |nodes[k].children| && nodes[k].children[j] == x;
    } else {
      j := BelowKid(nodes, k, p);
      BelowIsBehind(nodes, nodes[k].children[j], p);
    }
  }

  lemma {:induction false} BelowIsBehind(nodes: seq<Node>, k: nat, x: nat)
    requires Below(nodes, k, x)
    ensures k <= x < |nodes|
    decreases x
  {
  }

  /** Below a child is below its parent. */
  lemma {:induction false} BelowParent(nodes: seq<Node>, c: nat, x: nat)
    requires TreeOk(nodes) && c < |nodes| && c > 0 && Below(nodes, c, x)
    ensures Below(nodes, nodes[c].parent as nat, x) && x != nodes[c].parent
    decreases x
  {
    BelowIsBehind(nodes, c, x);
    if x != c {
      BelowParent(nodes, c, nodes[x].parent);
      BelowIsBehind(nodes, c, nodes[x].parent);
    }
  }

  lemma NotBehind(nodes: seq<Node>, k: nat, x: nat)
    requires x < k
    ensures !Below(nodes, k, x)
  {
  }

  /** Ways up from the same node meet: a node below `a` is below a later `b` only if `b` is below `a`. */
  lemma {:induction false} OneWayUp(nodes: seq<Node>, a: nat, b: nat, x: nat)
    requires Below(nodes, a, x) && a <= b && !Below(nodes, a, b)
    ensures !Below(nodes, b, x)
    decreases x
  {
    if x < b {
      NotBehind(nodes, b, x);
    } else if x != a {
      OneWayUp(nodes, a, b, nodes[x].parent);
    }
  }

  lemma SiblingNotBelow(nodes: seq<Node>, k: nat, a: nat, b: nat)
    requires k < a < |nodes| && b < |nodes| && a != b && nodes[b].parent == k
    ensures !Below(nodes, a, b)
  {
    NotBehind(nodes, a, k);
  }

  /** The parts below different children of a node have nothing in common. */
  lemma SiblingsApart(nodes: seq<Node>, k: nat, i: nat, j: nat, x: nat)
    requires TreeOk(nodes) && k < |nodes| && i < |nodes[k].children| && j < |nodes[k].children| && i != j
    requires Below(nodes, nodes[k].children[i], x)
    ensures !Below(nodes, nodes[k].children[j], x)
  {
    hide Below;
    assert Family(nodes, k);
    var a, b := nodes[k].children[i], nodes[k].children[j];
    SiblingNotBelow(nodes, k, a, b);
    SiblingNotBelow(nodes, k, b, a);
    if a <= b {
      OneWayUp(nodes, a, b, x);
    } else {
      OneWayUpToo(nodes, a, b, x);
    }
  }

  lemma {:induction false} OneWayUpToo(nodes: seq<Node>, a: nat, b: nat, x: nat)
    requires Below(nodes, a, x) && b <= a && !Below(nodes, b, a)
    ensures !Below(nodes, b, x)
    decreases x
  {
    if x != a {
      OneWayUpToo(nodes, a, b, nodes[x].parent);
      BelowIsBehind(nodes, a, nodes[x].parent);
    }
  }

  ghost predicate Distinct(log: seq<Freed>) {
    forall i, j :: 0 <= i < j < |log| ==> log[i] != log[j]
  }

  /** Nothing about a value comes after anything about its parent. */
  ghost predicate ChildrenFirst(nodes: seq<Node>, log: seq<Freed>) {
    forall i, j :: 0 <= i < j < |log| && log[j].k < |nodes| ==> nodes[log[j].k].parent != log[i].k
  }

  lemma JoinDistinct(a: seq<Freed>, b: seq<Freed>)
    requires Distinct(a) && Distinct(b) && forall e :: e in a ==> e !in b
    ensures Distinct(a + b)
  {
    forall i, j | 0 <= i < j < |a + b| ensures (a + b)[i] != (a + b)[j] {
      if i < |a| <= j {
        assert (a + b)[i] in a && (a + b)[j] in b;
      }
    }
  }

  lemma JoinChildrenFirst(nodes: seq<Node>, a: seq<Freed>, b: seq<Freed>)
    requires ChildrenFirst(nodes, a) && ChildrenFirst(nodes, b)
    requires forall e, f :: e in a && f in b && f.k < |nodes| ==> nodes[f.k].parent != e.k
    ensures ChildrenFirst(nodes, a + b)
  {
  }

  lemma {:induction false} OrderOk(nodes: seq<Node>, k: nat)
    requires TreeOk(nodes) && k < |nodes|
    ensures Distinct(FreeOrder(nodes, k)) && ChildrenFirst(nodes, FreeOrder(nodes, k))
    decreases |nodes| - k, 1, 0
  {
    hide FreeKids, Distinct, ChildrenFirst, Family, Below;
    var n := |nodes[k].children|;
    var kids, own := FreeKids(nodes, k, n), Own(nodes, k);
    KidsOk(nodes, k, n);
    OwnOk(nodes, k);
    forall e | e in kids ensures e !in own && Below(nodes, k, e.k) && e.k != k {
      KidsIffBelow(nodes, k, n, e);
      KidsAreBelow(nodes, k, n, e);
    }
    JoinDistinct(kids, own);
    forall e, f | e in kids && f in own && f.k < |nodes| ensures nodes[f.k].parent != e.k {
      BelowIsBehind(nodes, k, e.k);
    }
    JoinChildrenFirst(nodes, kids, own);
  }

  lemma OwnOk(nodes: seq<Node>, k: nat)
    requires TreeOk(nodes) && k < |nodes|
    ensures Distinct(Own(nodes, k)) && ChildrenFirst(nodes, Own(nodes, k))
        && forall e :: e in Own(nodes, k) ==> e.k == k
  {
  }

  lemma KidsAreBelow(nodes: seq<Node>, k: nat, n: nat, e: Freed)
    requires TreeOk(nodes) && k < |nodes| && n <= |nodes[k].children| && KidMember(nodes, k, n, e)
    ensures Below(nodes, k, e.k) && e.k != k
  {
    var j :| 0 <= j < n && Member(nodes, nodes[k].children[j], e);
    assert Family(nodes, k);
    BelowParent(nodes, nodes[k].children[j], e.k);
  }

  lemma {:induction false} KidsOk(nodes: seq<Node>, k: nat, n: nat)
    requires TreeOk(nodes) && k < |nodes| && n <= |nodes[k].children|
    ensures Distinct(FreeKids(nodes, k, n)) && ChildrenFirst(nodes, FreeKids(nodes, k, n))
    decreases |nodes| - k, 0, n
  {
    hide FreeOrder, FreeKids, Below, TreeOk, Family;
    if n == 0 {
      NoKids(nodes, k, Cell(0));
    } else {
      KidsSplit(nodes, k, n);
      OrderOk(nodes, nodes[k].children[n - 1]);
      KidsOk(nodes, k, n - 1);
      KidsJoin(nodes, k, n);
    }
  }

  lemma KidsJoin(nodes: seq<Node>, k: nat, n: nat)
    requires TreeOk(nodes) && k < |nodes| && 0 < n <= |nodes[k].children| && k < nodes[k].children[n - 1] < |nodes|
    requires var last, rest := FreeOrder(nodes, nodes[k].children[n - 1]), FreeKids(nodes, k, n - 1);
             Distinct(last) && ChildrenFirst(nodes, last) && Distinct(rest) && ChildrenFirst(nodes, rest)
    ensures var s := FreeOrder(nodes, nodes[k].children[n - 1]) + FreeKids(nodes, k, n - 1);
            Distinct(s) && ChildrenFirst(nodes, s)
  {
    hide FreeOrder, FreeKids, Distinct, ChildrenFirst, TreeOk;
    var last, rest := FreeOrder(nodes, nodes[k].children[n - 1]), FreeKids(nodes, k, n - 1);
    forall e, f | e in last && f in rest ensures e != f && (f.k < |nodes| ==> nodes[f.k].parent != e.k) {
      KidApart(nodes, k, n, e, f);
    }
    JoinDistinct(last, rest);
    JoinChildrenFirst(nodes, last, rest);
  }

  lemma KidApart(nodes: seq<Node>, k: nat, n: nat, e: Freed, f: Freed)
    requires TreeOk(nodes) && k < |nodes| && 0 < n <= |nodes[k].children| && k < nodes[k].children[n - 1] < |nodes|
    requires e in FreeOrder(nodes, nodes[k].children[n - 1]) && f in FreeKids(nodes, k, n - 1)
    ensures e != f && (f.k < |nodes| ==> nodes[f.k].parent != e.k)
  {
    hide FreeOrder, FreeKids, Below, Family;
    var c := nodes[k].children[n - 1];
    FreedIffBelow(nodes, c, e);
    KidsIffBelow(nodes, k, n - 1, f);
    var j :| 0 <= j < n - 1 && Member(nodes, nodes[k].children[j], f);
    SiblingsApart(nodes, k, n - 1, j, e.k);
    BelowIsBehind(nodes, c, e.k);
    ParentAbove(nodes, k, j, f.k);
  }

  /** The parent of a node below a child is the node itself or below the same child. */
  lemma ParentAbove(nodes: seq<Node>, k: nat, j: nat, x: nat)
    requires TreeOk(nodes) && k < |nodes| && j < |nodes[k].children| && Below(nodes, nodes[k].children[j], x)
    ensures x < |nodes|
    ensures nodes[x].parent == k || (nodes[x].parent >= 0 && Below(nodes, nodes[k].children[j], nodes[x].parent))
  {
    assert Family(nodes, k);
  }

  lemma {:induction false} AllBelowRoot(nodes: seq<Node>, x: nat)
    requires TreeOk(nodes) && x < |nodes|
    ensures Below(nodes, 0, x)
    decreases x
  {
    if x > 0 {
      AllBelowRoot(nodes, nodes[x].parent);
    }
  }

  /** From the root, every value and every owned block is freed, exactly once, and children before their parents. */
  lemma ExactlyOnce(nodes: seq<Node>)
    requires TreeOk(nodes) && nodes != []
    ensures var log := FreeOrder(nodes, 0);
            && Distinct(log) && ChildrenFirst(nodes, log)
            && forall e: Freed :: e in log <==> e.k < |nodes| && (e.Block? ==> Owns(nodes[e.k]))
  {
    hide FreeOrder, Below, Distinct, ChildrenFirst;
    OrderOk(nodes, 0);
    forall e: Freed ensures e in FreeOrder(nodes, 0) <==> e.k < |nodes| && (e.Block? ==> Owns(nodes[e.k])) {
      FreedIffBelow(nodes, 0, e);
      if e.k < |nodes| {
        AllBelowRoot(nodes, e.k);
      } else {
        NotBelow(nodes, 0, e.k);
      }
    }
  }

  lemma NotBelow(nodes: seq<Node>, k: nat, x: nat)
    requires x >= |nodes|
    ensures !Below(nodes, k, x)
  {
  }

  // ---- json.c ----

  /** What is still to be freed when the loop stands at `v`: the children that its length still counts, itself, and the
      same for its parents. */
  function Pending(nodes: seq<Node>, length: seq<nat>, v: int): seq<Freed>
    requires -1 <= v < |nodes| == |length|
    decreases v
  {
    if v == -1 then []
    else
      (if length[v] <= |nodes[v].children| then FreeKids(nodes, v, length[v]) else []) + Own(nodes, v)
      + (if -1 <= nodes[v].parent < v then Pending(nodes, length, nodes[v].parent) else [])
  }

  /** The loop enters values from the root down. Values that it has not entered have their full length, and those that a
      length still counts are not entered. */
  ghost predicate Progress(nodes: seq<Node>, length: seq<nat>, entered: set<nat>) {
    && |length| == |nodes|
    && (forall k :: 0 <= k < |nodes| ==> length[k] <= |nodes[k].children|)
    && (forall k :: 0 <= k < |nodes| && k !in entered ==> length[k] == |nodes[k].children|)
    && (forall k, j :: 0 <= k < |nodes| && 0 <= j < length[k] ==> nodes[k].children[j] !in entered)
    && (forall k :: k in entered ==> k < |nodes| && (nodes[k].parent < 0 || nodes[k].parent in entered))
  }

  /** Lengths behind `v` play no role. */
  lemma {:induction false} PendingFrame(nodes: seq<Node>, a: seq<nat>, b: seq<nat>, v: int)
    requires -1 <= v < |nodes| == |a| == |b| && forall k :: 0 <= k <= v ==> a[k] == b[k]
    ensures Pending(nodes, a, v) == Pending(nodes, b, v)
    decreases v
  {
    hide FreeKids;
    if v >= 0 && -1 <= nodes[v].parent < v {
      PendingFrame(nodes, a, b, nodes[v].parent);
    }
  }

  lemma LastChild(nodes: seq<Node>, length: seq<nat>, entered: set<nat>, v: nat)
    requires TreeOk(nodes) && Progress(nodes, length, entered) && v < |nodes| && length[v] > 0
    ensures length[v] <= |nodes[v].children|
    ensures var c := nodes[v].children[length[v] - 1];
            v < c < |nodes| && c !in entered && nodes[c].parent == v && length[c] == |nodes[c].children|
  {
    assert Family(nodes, v);
  }

  /** A child has no other place. */
  lemma OnePlace(nodes: seq<Node>, k: nat, j: nat, v: nat, i: nat)
    requires TreeOk(nodes) && k < |nodes| && j < |nodes[k].children| && v < |nodes| && i < |nodes[v].children|
    requires nodes[k].children[j] == nodes[v].children[i]
    ensures k == v && j == i
  {
    assert Family(nodes, k) && Family(nodes, v);
  }

  lemma DescendProgress(nodes: seq<Node>, length: seq<nat>, entered: set<nat>, v: nat)
    requires TreeOk(nodes) && Progress(nodes, length, entered) && v in entered && v < |nodes| && length[v] > 0
    ensures length[v] <= |nodes[v].children|
    ensures Progress(nodes, length[v := length[v] - 1], entered + {nodes[v].children[length[v] - 1]})
  {
    hide TreeOk;
    LastChild(nodes, length, entered, v);
    var c, length' := nodes[v].children[length[v] - 1], length[v := length[v] - 1];
    forall k, j | 0 <= k < |nodes| && 0 <= j < length'[k] ensures nodes[k].children[j] !in entered + {c} {
      if nodes[k].children[j] == c {
        OnePlace(nodes, k, j, v, length[v] - 1);
      }
    }
  }

  /** Going down to the last child. */
  lemma Descend(nodes: seq<Node>, length: seq<nat>, entered: set<nat>, v: nat)
    requires TreeOk(nodes) && Progress(nodes, length, entered) && v in entered && v < |nodes| && length[v] > 0
    ensures length[v] <= |nodes[v].children|
    ensures var c := nodes[v].children[length[v] - 1];
            var length' := length[v := length[v] - 1];
            v < c < |nodes| && Progress(nodes, length', entered + {c})
            && Pending(nodes, length', c) == Pending(nodes, length, v)
  {
    hide TreeOk, Pending;
    LastChild(nodes, length, entered, v);
    DescendProgress(nodes, length, entered, v);
    PendingDown(nodes, length, v, nodes[v].children[length[v] - 1]);
  }

  lemma PendingIs(nodes: seq<Node>, length: seq<nat>, v: nat)
    requires TreeOk(nodes) && v < |nodes| == |length| && length[v] <= |nodes[v].children|
    ensures -1 <= nodes[v].parent < v
    ensures Pending(nodes, length, v)
         == FreeKids(nodes, v, length[v]) + Own(nodes, v) + Pending(nodes, length, nodes[v].parent)
  {
    hide FreeKids, Own;
  }

  lemma OrderIs(nodes: seq<Node>, k: nat)
    requires k < |nodes|
    ensures FreeOrder(nodes, k) == FreeKids(nodes, k, |nodes[k].children|) + Own(nodes, k)
  {
    hide FreeKids, Own;
  }

  lemma PendingDown(nodes: seq<Node>, length: seq<nat>, v: nat, c: nat)
    requires TreeOk(nodes) && v < |nodes| == |length| && 0 < length[v] <= |nodes[v].children|
        && c == nodes[v].children[length[v] - 1]
    requires v < c < |nodes| && nodes[c].parent == v && length[c] == |nodes[c].children|
    ensures Pending(nodes, length[v := length[v] - 1], c) == Pending(nodes, length, v)
  {
    hide Own, TreeOk, Pending, FreeKids, FreeOrder;
    var length' := length[v := length[v] - 1];
    PendingIs(nodes, length, v);
    PendingIs(nodes, length', v);
    PendingIs(nodes, length', c);
    PendingFrame(nodes, length, length', nodes[v].parent);
    KidsSplit(nodes, v, length[v]);
    OrderIs(nodes, c);
    Regroup(FreeOrder(nodes, c), FreeKids(nodes, v, length[v] - 1), Own(nodes, v),
        Pending(nodes, length, nodes[v].parent));
  }

  lemma TreeParent(nodes: seq<Node>, v: nat)
    requires TreeOk(nodes) && v < |nodes|
    ensures -1 <= nodes[v].parent < v
  {
  }

  lemma Regroup<T>(a: seq<T>, b: seq<T>, c: seq<T>, d: seq<T>)
    ensures a + (b + c + d) == (a + b) + c + d
  {
  }

  /** Going up from a value without children that are left. */
  lemma Ascend(nodes: seq<Node>, length: seq<nat>, v: nat)
    requires TreeOk(nodes) && v < |nodes| == |length| && length[v] == 0
    ensures -1 <= nodes[v].parent < v
    ensures Pending(nodes, length, v) == Own(nodes, v) + Pending(nodes, length, nodes[v].parent)
  {
    hide Own, TreeOk;
    TreeParent(nodes, v);
    assert [] + Own(nodes, v) == Own(nodes, v);
  }

  /** How many children are still counted. */
  function Total(length: seq<nat>): nat {
    if length == [] then 0 else Total(length[..|length| - 1]) + length[|length| - 1]
  }

  lemma {:induction false} TotalShrinks(length: seq<nat>, v: nat)
    requires v < |length| && length[v] > 0
    ensures Total(length[v := length[v] - 1]) < Total(length)
    decreases |length|
  {
    var n := |length| - 1;
    var length' := length[v := length[v] - 1];
    if v < n {
      TotalShrinks(length[..n], v);
      assert length'[..n] == length[..n][v := length[v] - 1];
    } else {
      assert length'[..n] == length[..n];
    }
  }

  lemma Finished(nodes: seq<Node>, length: seq<nat>)
    requires nodes != [] && |length| == |nodes| && TreeOk(nodes) && length[0] == |nodes[0].children|
    ensures Pending(nodes, length, 0) == FreeOrder(nodes, 0)
  {
    hide Own;
    assert nodes[0].parent == -1;
    assert Pending(nodes, length, -1) == [];
  }

  /** The lengths of arrays and objects; a string keeps its own length in the same place. */
  function Counted(nodes: seq<Node>, length: seq<nat>): (r: seq<nat>)
    requires |length| == |nodes|
    ensures |r| == |nodes|
  {
    seq(|nodes|, k requires 0 <= k < |nodes| => if Container(nodes[k].kind) then length[k] else 0)
  }

  lemma CountedDown(nodes: seq<Node>, length: seq<nat>, v: nat)
    requires |length| == |nodes| && v < |nodes| && Container(nodes[v].kind) && length[v] > 0
    ensures Counted(nodes, length[v := length[v] - 1]) == Counted(nodes, length)[v := length[v] - 1]
    ensures Counted(nodes, length)[v] == length[v]
  {
  }

  /** One step down to the last child that the length still counts. */
  method Down(nodes: seq<Node>, length: array<nat>, value: nat, ghost entered: set<nat>) returns (value': nat)
    requires TreeOk(nodes) && value in entered && value < |nodes| == length.Length && Container(nodes[value].kind)
        && length[value] > 0
    requires Progress(nodes, Counted(nodes, length[..]), entered)
    modifies length
    ensures value' < |nodes| && Progress(nodes, Counted(nodes, length[..]), entered + {value'})
    ensures Pending(nodes, Counted(nodes, length[..]), value') == Pending(nodes, Counted(nodes, old(length[..])), value)
    ensures Total(Counted(nodes, length[..])) < Total(Counted(nodes, old(length[..])))
  {
    hide TreeOk, Pending, Total, Progress, Counted;
    ghost var before := length[..];
    CountedDown(nodes, before, value);
    Descend(nodes, Counted(nodes, before), entered, value);
    TotalShrinks(Counted(nodes, before), value);
    length[value] := length[value] - 1;
    assert length[..] == before[value := before[value] - 1];
    value' := nodes[value].children[length[value]];
  }

  /** json_value_free_ex on the root of a parsed tree. `length` are the lengths that it counts down, and `log` is what
      mem_free was called with. */
  method FreeValueEx(nodes: seq<Node>, length: array<nat>) returns (log: seq<Freed>)
    requires TreeOk(nodes) && nodes != [] && length.Length == |nodes|
    requires forall k :: 0 <= k < |nodes| && Container(nodes[k].kind) ==> length[k] == |nodes[k].children|
    modifies length
    ensures log == FreeOrder(nodes, 0)
  {
    hide FreeOrder, Total, Pending, Progress, TreeOk, Counted;
    ghost var entered: set<nat> := {0};
    var value: int := 0;
    log := [];
    Begins(nodes, length[..]);
    while value != -1
      invariant -1 <= value < |nodes| == length.Length && Progress(nodes, Counted(nodes, length[..]), entered)
          && (value != -1 ==> value in entered)
      invariant log + Pending(nodes, Counted(nodes, length[..]), value) == FreeOrder(nodes, 0)
      decreases Total(Counted(nodes, length[..])), value
    {
      var n := nodes[value];
      if Container(n.kind) && length[value] != 0 {
        value := Down(nodes, length, value, entered);
        entered := entered + {value};
      } else {
        ghost var before := log;
        LeafIsEmpty(nodes, length[..], value);
        ParentEntered(nodes, Counted(nodes, length[..]), entered, value);
        Ascend(nodes, Counted(nodes, length[..]), value);
        log := log + (if Container(n.kind) || n.kind == Str then [Block(value)] else []);
        var curValue := value;
        value := n.parent;
        log := log + [Cell(curValue)];
        assert log == before + Own(nodes, curValue);
        Associate(before, Own(nodes, curValue), Pending(nodes, Counted(nodes, length[..]), value));
      }
    }
    NothingPending(nodes, Counted(nodes, length[..]));
    assert log + [] == log;
  }

  lemma ParentEntered(nodes: seq<Node>, length: seq<nat>, entered: set<nat>, v: nat)
    requires Progress(nodes, length, entered) && v in entered
    ensures v < |nodes| && (nodes[v].parent < 0 || nodes[v].parent in entered)
  {
  }

  lemma Begins(nodes: seq<Node>, length: seq<nat>)
    requires TreeOk(nodes) && nodes != [] && |length| == |nodes|
    requires forall k :: 0 <= k < |nodes| && Container(nodes[k].kind) ==> length[k] == |nodes[k].children|
    ensures var counted := Counted(nodes, length);
            Progress(nodes, counted, {0}) && [] + Pending(nodes, counted, 0) == FreeOrder(nodes, 0)
  {
    hide FreeOrder, Pending;
    var counted := Counted(nodes, length);
    forall k | 0 <= k < |nodes| ensures counted[k] == |nodes[k].children| {
      assert Family(nodes, k);
    }
    forall k, j | 0 <= k < |nodes| && 0 <= j < counted[k] ensures nodes[k].children[j] != 0 {
      assert Family(nodes, k);
    }
    assert nodes[0].parent == -1;
    Finished(nodes, counted);
    assert [] + FreeOrder(nodes, 0) == FreeOrder(nodes, 0);
  }

  lemma LeafIsEmpty(nodes: seq<Node>, length: seq<nat>, v: nat)
    requires |length| == |nodes| && v < |nodes| && (!Container(nodes[v].kind) || length[v] == 0)
    ensures Counted(nodes, length)[v] == 0
  {
  }

  lemma NothingPending(nodes: seq<Node>, length: seq<nat>)
    requires |length| == |nodes|
    ensures Pending(nodes, length, -1) == []
  {
  }
}
