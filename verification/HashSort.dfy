/** HASH_SRT of uthash.h: Simon Tatham's bottom-up merge sort, on the links of the insertion-order list. */
module HashSort {
  import opened Bits
  import opened Sequences
  import opened Handles
  import opened StableSort

  /** `cmpfcn(a, b) <= 0` */
  function KeyLe(cmp: (Key, Key) -> int): (Key, Key) -> bool {
    (a, b) => cmp(a, b) <= 0
  }

  ghost function HandleLe(cmp: (Key, Key) -> int): (Handle, Handle) -> bool {
    (a: Handle, b: Handle) => cmp(a.key, b.key) <= 0
  }

  ghost function Keys(s: seq<Handle>): (r: seq<Key>)
    ensures |r| == |s| && forall i :: 0 <= i < |s| ==> r[i] == s[i].key
  {
    seq(|s|, i requires 0 <= i < |s| => s[i].key)
  }

  lemma {:induction false} KeysOfMerge(cmp: (Key, Key) -> int, xs: seq<Handle>, ys: seq<Handle>)
    ensures Keys(Merge(HandleLe(cmp), xs, ys)) == Merge(KeyLe(cmp), Keys(xs), Keys(ys))
    decreases |xs| + |ys|
  {
    if xs == [] {
      assert Keys(xs) == [];
    } else if ys == [] {
      assert Keys(ys) == [];
    } else if cmp(xs[0].key, ys[0].key) <= 0 {
      KeysOfMerge(cmp, xs[1..], ys);
      KeysOfCons(xs[0], Merge(HandleLe(cmp), xs[1..], ys));
      KeysOfCons(xs[0], xs[1..]);
      assert [xs[0]] + xs[1..] == xs;
    } else {
      KeysOfMerge(cmp, xs, ys[1..]);
      KeysOfCons(ys[0], Merge(HandleLe(cmp), xs, ys[1..]));
      KeysOfCons(ys[0], ys[1..]);
      assert [ys[0]] + ys[1..] == ys;
    }
  }

  lemma KeysOfCons(x: Handle, s: seq<Handle>)
    ensures Keys([x] + s) == [x.key] + Keys(s)
    ensures ([x.key] + Keys(s))[1..] == Keys(s)
  {
  }

  // ---- Lists under construction ----

  /** `q` can be followed through next to a final null. */
  ghost predicate NextLinked(q: seq<Handle>)
    reads q`next
  {
    forall i {:trigger q[i].next} :: 0 <= i < |q| ==> q[i].next == At(q, i + 1)
  }

  /** `p` can be followed through next, with no promise after its last element. */
  ghost predicate RunLinked(p: seq<Handle>)
    reads p`next
  {
    forall i {:trigger p[i].next} :: 0 <= i < |p| - 1 ==> p[i].next == p[i + 1]
  }

  /** The output so far: linked both ways, with no promise after its last element. */
  ghost predicate OutLinked(o: seq<Handle>)
    reads o`next, o`prev
  {
    RunLinked(o) && forall i {:trigger o[i].prev} :: 0 <= i < |o| ==> o[i].prev == At(o, i - 1)
  }

  ghost predicate Apart<T>(a: seq<T>, b: seq<T>) {
    forall i, j :: 0 <= i < |a| && 0 <= j < |b| ==> a[i] != b[j]
  }

  ghost predicate ThreeApart<T>(a: seq<T>, b: seq<T>, c: seq<T>) {
    Distinct(a) && Distinct(b) && Distinct(c) && Apart(a, b) && Apart(a, c) && Apart(b, c)
  }

  /** Appends `e` to the output list. */
  method Emit(e: Handle, list: Handle?, tail: Handle?, ghost o: seq<Handle>) returns (list': Handle?)
    requires OutLinked(o) && list == At(o, 0) && tail == At(o, |o| - 1) && Distinct(o) && e !in o
    modifies e`prev
    modifies (if tail != null then {tail} else {})`next
    ensures OutLinked(o + [e]) && list' == At(o + [e], 0) && e == At(o + [e], |o|)
  {
    list' := list;
    if tail != null {
      tail.next := e;
    } else {
      list' := e;
    }
    e.prev := tail;
    ghost var o' := o + [e];
    assert forall i :: 0 <= i < |o| ==> o'[i] == o[i];
    assert forall i {:trigger o'[i].next} :: 0 <= i < |o'| - 1 ==> o'[i].next == o'[i + 1];
  }

  /** Counts off the first run: up to `insize` elements from `p`. */
  method TakeRun(p: Handle, insize: nat, ghost s: seq<Handle>) returns (psize: nat, q: Handle?)
    requires insize > 0 && s != [] && p == s[0] && NextLinked(s)
    ensures psize == Min(insize, |s|) && q == At(s, psize)
  {
    q := p;
    psize := 0;
    var i := 0;
    while i < insize
      invariant 0 <= i == psize <= insize && psize < |s| && q == s[psize]
    {
      psize := psize + 1;
      q := q.next;
      if q == null {
        return;
      }
      i := i + 1;
    }
  }

  /** The output `o` and what is left of the two runs. */
  ghost predicate Merging(list: Handle?, tail: Handle?, o: seq<Handle>, ps: seq<Handle>, qs: seq<Handle>)
    reads o`next, o`prev, ps`next, qs`next
  {
    && OutLinked(o) && list == At(o, 0) && tail == At(o, |o| - 1)
    && RunLinked(ps) && NextLinked(qs) && ThreeApart(o, ps, qs)
  }

  /** Moves the first element of the first run to the output. */
  method EmitP(p: Handle, list: Handle?, tail: Handle?, ghost o: seq<Handle>, ghost ps: seq<Handle>,
      ghost qs: seq<Handle>)
    returns (list': Handle?, p': Handle?)
    requires Merging(list, tail, o, ps, qs) && ps != [] && p == ps[0]
    modifies Elems(o)`next, p`prev
    ensures Merging(list', p, o + [p], ps[1..], qs) && (|ps| > 1 ==> p' == ps[1])
  {
    p' := p.next;
    list' := Emit(p, list, tail, o);
  }

  /** Moves the first element of the second run to the output. */
  method EmitQ(q: Handle, list: Handle?, tail: Handle?, ghost o: seq<Handle>, ghost ps: seq<Handle>,
      ghost qs: seq<Handle>)
    returns (list': Handle?, q': Handle?)
    requires Merging(list, tail, o, ps, qs) && qs != [] && q == qs[0]
    modifies Elems(o)`next, q`prev
    ensures Merging(list', q, o + [q], ps, qs[1..]) && q' == At(qs, 1)
  {
    q' := q.next;
    list' := Emit(q, list, tail, o);
  }

  /** What one merge has still to append. */
  ghost function ToMerge(cmp: (Key, Key) -> int, ps: seq<Handle>, qs: seq<Handle>, qsize: nat): seq<Handle> {
    Merge(HandleLe(cmp), ps, qs[..Min(qsize, |qs|)])
  }

  lemma MergeTakesP(cmp: (Key, Key) -> int, ps: seq<Handle>, qs: seq<Handle>, qsize: nat)
    requires ps != [] && (qs == [] || qsize == 0 || cmp(ps[0].key, qs[0].key) <= 0)
    ensures ToMerge(cmp, ps, qs, qsize) != [] && ToMerge(cmp, ps, qs, qsize)[0] == ps[0]
    ensures ToMerge(cmp, ps, qs, qsize)[1..] == ToMerge(cmp, ps[1..], qs, qsize)
  {
    if qs == [] || qsize == 0 {
      assert qs[..Min(qsize, |qs|)] == [];
      if ps[1..] == [] {
        assert ps == [ps[0]];
      }
    }
  }

  lemma MergeTakesQ(cmp: (Key, Key) -> int, ps: seq<Handle>, qs: seq<Handle>, qsize: nat)
    requires qs != [] && qsize > 0 && (ps == [] || cmp(ps[0].key, qs[0].key) > 0)
    ensures ToMerge(cmp, ps, qs, qsize) != [] && ToMerge(cmp, ps, qs, qsize)[0] == qs[0]
    ensures ToMerge(cmp, ps, qs, qsize)[1..] == ToMerge(cmp, ps, qs[1..], qsize - 1)
  {
    var n := Min(qsize, |qs|);
    assert qs[..n][1..] == qs[1..][..n - 1];
    assert qs[..n] == [qs[0]] + qs[1..][..n - 1];
  }

  /** The merge loop of HASH_SRT: interleaves a run of `psize` from `p` with one of up to `qsize` from `q`. */
  method MergeRuns(p0: Handle?, psize0: nat, q0: Handle?, qsize0: nat, list0: Handle?, tail0: Handle?,
                   cmp: (Key, Key) -> int, ghost o: seq<Handle>, ghost ps: seq<Handle>, ghost qs: seq<Handle>,
                   ghost all: set<Handle>)
    returns (list: Handle?, tail: Handle?, q: Handle?, ghost o': seq<Handle>)
    requires psize0 == |ps| && p0 == At(ps, 0) && q0 == At(qs, 0) && Merging(list0, tail0, o, ps, qs)
    requires all == Elems(o) + Elems(ps) + Elems(qs)
    modifies all`next, all`prev
    ensures o' == o + ToMerge(cmp, ps, qs, qsize0)
    ensures Merging(list, tail, o', [], qs[Min(qsize0, |qs|)..]) && q == At(qs, Min(qsize0, |qs|))
    ensures Elems(o') + Elems(qs[Min(qsize0, |qs|)..]) == all
  {
    hide Merging, ToMerge, Elems, Distinct, Apart, OutLinked, NextLinked, RunLinked;
    var p: Handle?, psize: nat, qsize: nat := p0, psize0, qsize0;
    list, tail, q := list0, tail0, q0;
    o' := o;
    ghost var ps', k := ps, 0;
    assert qs[0..] == qs;
    ghost var todo := ToMerge(cmp, ps, qs, qsize);
    while psize > 0 || (qsize > 0 && q != null)
      invariant 0 <= k <= |qs| && qsize0 == qsize + k && q == At(qs, k)
      invariant psize == |ps'| && (psize > 0 ==> p == ps'[0])
      invariant Merging(list, tail, o', ps', qs[k..])
      invariant Elems(o') + Elems(ps') + Elems(qs[k..]) == all
      invariant todo == ToMerge(cmp, ps', qs[k..], qsize) && o' + todo == o + ToMerge(cmp, ps, qs, qsize0)
      decreases psize + |qs| - k
    {
      if psize > 0 && (qsize == 0 || q == null || cmp(p.key, q.key) <= 0) {
        MergeTakesP(cmp, ps', qs[k..], qsize);
        ElemsMove(o', ps');
        var e := p;
        list, p := EmitP(e, list, tail, o', ps', qs[k..]);
        tail := e;
        psize := psize - 1;
        MoveFirst(o', todo);
        o', ps', todo := o' + [e], ps'[1..], todo[1..];
      } else {
        MergeTakesQ(cmp, ps', qs[k..], qsize);
        ElemsMove(o', qs[k..]);
        var e: Handle := q;
        list, q := EmitQ(e, list, tail, o', ps', qs[k..]);
        tail := e;
        qsize := qsize - 1;
        assert qs[k..][1..] == qs[k + 1..];
        MoveFirst(o', todo);
        o', k, todo := o' + [e], k + 1, todo[1..];
      }
    }
    assert k == Min(qsize0, |qs|);
    NothingToMerge(cmp, ps', qs[k..], qsize);
    assert o' + [] == o';
  }

  lemma NothingToMerge(cmp: (Key, Key) -> int, ps: seq<Handle>, qs: seq<Handle>, qsize: nat)
    requires ps == [] && (qs == [] || qsize == 0)
    ensures ToMerge(cmp, ps, qs, qsize) == [] && Elems(ps) == {}
  {
  }

  lemma MoveFirst<T>(o: seq<T>, s: seq<T>)
    requires s != []
    ensures (o + [s[0]]) + s[1..] == o + s
  {
  }

  lemma ElemsMove<T>(o: seq<T>, ps: seq<T>)
    requires ps != []
    ensures ps[0] in Elems(ps) && Elems(o + [ps[0]]) + Elems(ps[1..]) == Elems(o) + Elems(ps)
  {
    assert ps == [ps[0]] + ps[1..];
  }

  /** Splits the unsorted rest into the first run and what follows. */
  lemma SplitRun(list: Handle?, tail: Handle?, o: seq<Handle>, r: seq<Handle>, n: nat)
    requires Merging(list, tail, o, [], r) && n <= |r|
    ensures Merging(list, tail, o, r[..n], r[n..])
  {
    forall i {:trigger r[n..][i].next} | 0 <= i < |r[n..]| ensures r[n..][i].next == At(r[n..], i + 1) {
      assert r[n..][i] == r[n + i];
    }
  }

  lemma PassStep<T>(le: (T, T) -> bool, r: seq<T>, n: nat, p: nat, k: nat)
    requires n > 0 && r != [] && p == Min(n, |r|) && k == Min(n, |r| - p)
    ensures Pass(le, r, n) == Merge(le, r[..p], r[p..][..k]) + Pass(le, r[p..][k..], n)
    ensures Merges(|r|, n) == 1 + Merges(|r| - p - k, n)
  {
    hide Min, Merge;
    TwoRuns(n, |r|, p, k);
    SliceOfSlice(r, p, k);
  }

  lemma TwoRuns(n: nat, len: nat, p: nat, k: nat)
    requires n > 0 && len > 0 && p == Min(n, len) && k == Min(n, len - p)
    ensures p + k == Min(2 * n, len) && 0 < p && p + k <= len
  {
  }

  lemma SliceOfSlice<T>(r: seq<T>, p: nat, k: nat)
    requires p + k <= |r|
    ensures r[p..][..k] == r[p..p + k] && r[p..][k..] == r[p + k..]
  {
  }

  lemma SplitElems<T>(r: seq<T>, n: nat)
    requires n <= |r|
    ensures Elems(r[..n]) + Elems(r[n..]) == Elems(r)
  {
    assert r[..n] + r[n..] == r;
  }

  lemma RestLinked(list: Handle?, tail: Handle?, o: seq<Handle>, r: seq<Handle>)
    requires Merging(list, tail, o, [], r)
    ensures NextLinked(r)
  {
  }

  /** Cuts the next two runs off the rest and merges them onto the output. */
  method SortStep(p: Handle, insize: nat, list0: Handle?, tail0: Handle?, cmp: (Key, Key) -> int,
                  ghost t: seq<Handle>, ghost r: seq<Handle>, ghost all: set<Handle>)
    returns (list: Handle?, tail: Handle?, q: Handle?, ghost t': seq<Handle>, ghost r': seq<Handle>)
    requires insize > 0 && r != [] && p == r[0] && Merging(list0, tail0, t, [], r)
    requires Elems(t) + Elems(r) == all
    modifies all`next, all`prev
    ensures Merging(list, tail, t', [], r') && q == At(r', 0) && Elems(t') + Elems(r') == all && t' != []
    ensures t' + Pass(HandleLe(cmp), r', insize) == t + Pass(HandleLe(cmp), r, insize)
    ensures 1 + Merges(|r'|, insize) == Merges(|r|, insize) && |r'| < |r|
  {
    hide Min, Merging, Merge, Pass, Elems, Merges;
    RestLinked(list0, tail0, t, r);
    var psize;
    psize, q := TakeRun(p, insize, r);
    RunSizes(insize, |r|, psize);
    ghost var ps, qs := r[..psize], r[psize..];
    ghost var k := Min(insize, |qs|);
    SplitRun(list0, tail0, t, r, psize);
    SplitElems(r, psize);
    PassStep(HandleLe(cmp), r, insize, psize, k);
    list, tail, q, t' := MergeRuns(p, psize, q, insize, list0, tail0, cmp, t, ps, qs, all);
    r' := qs[k..];
    Associate(t, Merge(HandleLe(cmp), ps, qs[..k]), Pass(HandleLe(cmp), r', insize));
  }

  lemma RunSizes(n: nat, len: nat, p: nat)
    requires n > 0 && len > 0 && p == Min(n, len)
    ensures 0 < p <= len && 0 <= Min(n, len - p) <= len - p
  {
  }

  /** The null at the end of the sorted list. */
  method EndList(tail: Handle, ghost t: seq<Handle>)
    requires t != [] && OutLinked(t) && tail == t[|t| - 1] && Distinct(t)
    modifies tail`next
    ensures OrderLinked(t)
  {
    tail.next := null;
  }

  lemma NothingMerged(s: seq<Handle>)
    requires NextLinked(s) && Distinct(s)
    ensures Merging(null, null, [], [], s)
  {
  }

  /** The loop of one pass of HASH_SRT. */
  method MergeAll(list0: Handle, insize: nat, cmp: (Key, Key) -> int, ghost s: seq<Handle>, ghost all: set<Handle>)
    returns (list: Handle?, tail: Handle?, nmerges: nat, ghost t: seq<Handle>)
    requires insize > 0 && s != [] && list0 == s[0] && all == Elems(s) && Merging(null, null, [], [], s)
    modifies all`next, all`prev
    ensures t == Pass(HandleLe(cmp), s, insize) && nmerges == Merges(|s|, insize)
    ensures Elems(t) == all && t != [] && Merging(list, tail, t, [], [])
  {
    var p: Handle? := list0;
    list, tail, nmerges, t := null, null, 0, [];
    ghost var r := s;
    assert [] + Pass(HandleLe(cmp), r, insize) == Pass(HandleLe(cmp), s, insize);
    while p != null
      invariant p == At(r, 0) && Merging(list, tail, t, [], r) && (r == [] ==> t != [])
      invariant Elems(t) + Elems(r) == all
      invariant t + Pass(HandleLe(cmp), r, insize) == Pass(HandleLe(cmp), s, insize)
      invariant nmerges + Merges(|r|, insize) == Merges(|s|, insize)
      decreases |r|
    {
      hide Merging, Elems, Pass, Merges;
      nmerges := nmerges + 1;
      list, tail, p, t, r := SortStep(p, insize, list, tail, cmp, t, r, all);
    }
    assert r == [] && t + [] == t;
  }

  /** One pass of HASH_SRT over the whole list. */
  method SortPass(list0: Handle, insize: nat, cmp: (Key, Key) -> int, ghost s: seq<Handle>)
    returns (list: Handle, tail: Handle, nmerges: nat, ghost t: seq<Handle>)
    requires insize > 0 && s != [] && list0 == s[0] && NextLinked(s) && Distinct(s)
    modifies Elems(s)`next, Elems(s)`prev
    ensures t == Pass(HandleLe(cmp), s, insize) && nmerges == Merges(|s|, insize)
    ensures Elems(t) == Elems(s) && Distinct(t) && OrderLinked(t) && t != []
    ensures list == t[0] && tail == t[|t| - 1]
  {
    var l, e;
    NothingMerged(s);
    l, e, nmerges, t := MergeAll(list0, insize, cmp, s, Elems(s));
    list, tail := l, e;
    assert tail in Elems(t);
    EndList(tail, t);
  }

  lemma OrderIsNext(s: seq<Handle>)
    requires OrderLinked(s)
    ensures NextLinked(s)
  {
  }

  const UNSIGNED_WRAP: nat := 0x1_0000_0000

  /** The body of HASH_SRT's outer loop. */
  method SortRound(head0: Handle, insize0: nat, cmp: (Key, Key) -> int, ghost s: seq<Handle>)
    returns (head: Handle, tail: Handle, insize: nat, looping: bool, ghost t: seq<Handle>)
    requires 0 < insize0 < UNSIGNED_WRAP && s != [] && head0 == s[0] && OrderLinked(s) && Distinct(s)
    modifies Elems(s)`next, Elems(s)`prev
    ensures t == Pass(HandleLe(cmp), s, insize0) && looping == (|s| > 2 * insize0)
    ensures insize == 2 * insize0 % UNSIGNED_WRAP
    ensures Elems(t) == Elems(s) && Distinct(t) && OrderLinked(t) && t != []
    ensures head == t[0] && tail == t[|t| - 1]
  {
    OrderIsNext(s);
    var nmerges;
    head, tail, nmerges, t := SortPass(head0, insize0, cmp, s);
    OneMerge(|s|, insize0);
    looping := true;
    if nmerges <= 1 {
      looping := false;
    }
    insize := insize0 * 2 % UNSIGNED_WRAP;
  }

  /** HASH_SRT. `insize` is a 32-bit unsigned that wraps to 0 behind 2^31; the pass with 2^31 is the last one for every
      list that a 32-bit count of items allows. */
  method HashSrt(head0: Handle, cmp: (Key, Key) -> int, ghost s: seq<Handle>)
    returns (head: Handle, tail: Handle, ghost t: seq<Handle>)
    requires s != [] && head0 == s[0] && OrderLinked(s) && Distinct(s) && |s| <= UNSIGNED_WRAP
    modifies Elems(s)`next, Elems(s)`prev
    ensures t == BottomUp(HandleLe(cmp), s, 1) && |t| == |s|
    ensures t != [] && Elems(t) == Elems(s) && Distinct(t) && OrderLinked(t)
    ensures head == t[0] && tail == t[|t| - 1]
  {
    hide OrderLinked, Distinct, Elems, Pass, Keys;
    var insize: nat, looping;
    head, tail, insize, looping, t := SortRound(head0, 1, cmp, s);
    while looping
      invariant looping ==> 0 < insize < |s|
      invariant |t| == |s| && t != [] && Elems(t) == Elems(s) && Distinct(t) && OrderLinked(t)
      invariant head == t[0] && tail == t[|t| - 1]
      invariant (if looping then BottomUp(HandleLe(cmp), t, insize) else t) == BottomUp(HandleLe(cmp), s, 1)
      decreases looping, |s| - insize
    {
      head, tail, insize, looping, t := SortRound(head, insize, cmp, t);
    }
  }

  lemma {:induction false} KeysOfPass(cmp: (Key, Key) -> int, s: seq<Handle>, n: nat)
    requires n > 0
    ensures Keys(Pass(HandleLe(cmp), s, n)) == Pass(KeyLe(cmp), Keys(s), n)
    decreases |s|
  {
    if s == [] {
      assert Keys(s) == [];
    } else {
      var p, q := Min(n, |s|), Min(2 * n, |s|);
      KeysOfMerge(cmp, s[..p], s[p..q]);
      KeysOfPass(cmp, s[q..], n);
      KeysOfSlices(s, p, q);
      KeysOfConcat(Merge(HandleLe(cmp), s[..p], s[p..q]), Pass(HandleLe(cmp), s[q..], n));
    }
  }

  lemma KeysOfSlices(s: seq<Handle>, p: nat, q: nat)
    requires p <= q <= |s|
    ensures Keys(s[..p]) == Keys(s)[..p] && Keys(s[p..q]) == Keys(s)[p..q] && Keys(s[q..]) == Keys(s)[q..]
  {
  }

  lemma KeysOfConcat(a: seq<Handle>, b: seq<Handle>)
    ensures Keys(a + b) == Keys(a) + Keys(b)
  {
  }

  lemma {:induction false} KeysOfBottomUp(cmp: (Key, Key) -> int, s: seq<Handle>, n: nat)
    requires n > 0
    ensures Keys(BottomUp(HandleLe(cmp), s, n)) == BottomUp(KeyLe(cmp), Keys(s), n)
    decreases |s| - n
  {
    KeysOfPass(cmp, s, n);
    if |s| > 2 * n {
      KeysOfBottomUp(cmp, Pass(HandleLe(cmp), s, n), 2 * n);
    }
  }

  /** What HASH_SRT computes is the stable sort of the keys, for every total preorder. */
  lemma HashSrtIsStableSort(cmp: (Key, Key) -> int, s: seq<Handle>, t: seq<Handle>)
    requires TotalPreorder(KeyLe(cmp)) && t == BottomUp(HandleLe(cmp), s, 1)
    ensures StablySorted(KeyLe(cmp), Keys(s), Keys(t)) && multiset(Keys(s)) == multiset(Keys(t))
  {
    KeysOfBottomUp(cmp, s, 1);
    SingletonRuns(KeyLe(cmp), Keys(s));
    BottomUpSorts(KeyLe(cmp), Keys(s), 1);
    StableIsPermutation(KeyLe(cmp), Keys(s), Keys(t));
  }
}
