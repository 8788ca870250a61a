/** Stable sorting by a comparison, as both merge sorts of the repository promise it. */
module StableSort {

  ghost predicate TotalPreorder<T(!new)>(le: (T, T) -> bool) {
    && (forall x, y :: le(x, y) || le(y, x))
    && (forall x, y, z :: le(x, y) && le(y, z) ==> le(x, z))
  }

  ghost predicate Sorted<T>(le: (T, T) -> bool, s: seq<T>) {
    forall i, j :: 0 <= i < j < |s| ==> le(s[i], s[j])
  }

  /** The elements of `s` that the comparison cannot tell from `x`, in the order of `s`. */
  ghost function Ties<T>(le: (T, T) -> bool, x: T, s: seq<T>): (r: seq<T>)
    ensures |r| <= |s|
  {
    if s == [] then []
    else (if le(x, s[0]) && le(s[0], x) then [s[0]] else []) + Ties(le, x, s[1..])
  }

  /** `b` is `a` sorted, with ties in their original order. */
  ghost predicate StablySorted<T(!new)>(le: (T, T) -> bool, a: seq<T>, b: seq<T>) {
    Sorted(le, b) && SameTies(le, a, b)
  }

  ghost predicate SameTies<T(!new)>(le: (T, T) -> bool, a: seq<T>, b: seq<T>) {
    forall x :: Ties(le, x, a) == Ties(le, x, b)
  }

  lemma {:induction false} TiesOfConcat<T>(le: (T, T) -> bool, x: T, a: seq<T>, b: seq<T>)
    ensures Ties(le, x, a + b) == Ties(le, x, a) + Ties(le, x, b)
  {
    if a == [] {
      assert a + b == b;
    } else {
      assert (a + b)[1..] == a[1..] + b;
      TiesOfConcat(le, x, a[1..], b);
    }
  }

  lemma {:induction false} NoTies<T>(le: (T, T) -> bool, x: T, s: seq<T>)
    requires forall i :: 0 <= i < |s| ==> !le(s[i], x)
    ensures Ties(le, x, s) == []
  {
    if s != [] {
      NoTies(le, x, s[1..]);
    }
  }

  // ---- A stable sort loses nothing and is unique ----

  lemma {:induction false} TiesCount<T(!new)>(le: (T, T) -> bool, x: T, s: seq<T>)
    requires TotalPreorder(le)
    ensures multiset(s)[x] == multiset(Ties(le, x, s))[x]
  {
    if s != [] {
      TiesCount(le, x, s[1..]);
      assert s == [s[0]] + s[1..];
      assert multiset(s) == multiset{s[0]} + multiset(s[1..]);
      assert le(x, x);
    }
  }

  lemma StableIsPermutation<T(!new)>(le: (T, T) -> bool, a: seq<T>, b: seq<T>)
    requires TotalPreorder(le) && SameTies(le, a, b)
    ensures multiset(a) == multiset(b)
  {
    forall x ensures multiset(a)[x] == multiset(b)[x] {
      TiesCount(le, x, a);
      TiesCount(le, x, b);
      assert Ties(le, x, a) == Ties(le, x, b);
    }
  }

  lemma HeadIsLeast<T(!new)>(le: (T, T) -> bool, b: seq<T>, x: T)
    requires TotalPreorder(le) && Sorted(le, b) && b != [] && x in b
    ensures le(b[0], x)
  {
    var i :| 0 <= i < |b| && b[i] == x;
    if i == 0 {
      assert le(x, x);
    }
  }

  lemma TiesOfHead<T(!new)>(le: (T, T) -> bool, b: seq<T>, x: T)
    requires TotalPreorder(le) && b != [] && le(x, b[0]) && le(b[0], x)
    ensures Ties(le, x, b) != [] && Ties(le, x, b)[0] == b[0]
  {
  }

  lemma TiesOfTail<T(!new)>(le: (T, T) -> bool, x: T, s: seq<T>)
    requires s != []
    ensures Ties(le, x, s[1..]) == if le(x, s[0]) && le(s[0], x) then Ties(le, x, s)[1..] else Ties(le, x, s)
  {
  }

  /** There is only one stably sorted arrangement. */
  lemma {:induction false} StableIsUnique<T(!new)>(le: (T, T) -> bool, b: seq<T>, c: seq<T>)
    requires TotalPreorder(le) && Sorted(le, b) && Sorted(le, c) && SameTies(le, b, c)
    ensures b == c
  {
    StableIsPermutation(le, b, c);
    assert |multiset(b)| == |multiset(c)|;
    if b != [] {
      assert b[0] in multiset(b) && b[0] in c;
      assert c[0] in multiset(c) && c[0] in b;
      HeadIsLeast(le, b, c[0]);
      HeadIsLeast(le, c, b[0]);
      TiesOfHead(le, b, b[0]);
      TiesOfHead(le, c, b[0]);
      assert Ties(le, b[0], b) == Ties(le, b[0], c);
      assert b[0] == c[0];
      forall x ensures Ties(le, x, b[1..]) == Ties(le, x, c[1..]) {
        TiesOfTail(le, x, b);
        TiesOfTail(le, x, c);
      }
      StableIsUnique(le, b[1..], c[1..]);
    }
  }

  // ---- Ties stay in order, element by element ----

  /** Where the ties of `x` are among the elements. */
  lemma {:induction false} TieFound<T>(le: (T, T) -> bool, x: T, s: seq<T>, u: nat) returns (p: nat)
    requires u < |Ties(le, x, s)|
    ensures p < |s| && s[p] == Ties(le, x, s)[u]
  {
    if le(x, s[0]) && le(s[0], x) && u == 0 {
      p := 0;
    } else {
      var p' := TieFound(le, x, s[1..], if le(x, s[0]) && le(s[0], x) then u - 1 else u);
      p := p' + 1;
    }
  }

  lemma {:induction false} TiePairFound<T>(le: (T, T) -> bool, x: T, s: seq<T>, u: nat, v: nat) returns (p: nat, q: nat)
    requires u < v < |Ties(le, x, s)|
    ensures p < q < |s| && s[p] == Ties(le, x, s)[u] && s[q] == Ties(le, x, s)[v]
  {
    if le(x, s[0]) && le(s[0], x) {
      if u == 0 {
        var q' := TieFound(le, x, s[1..], v - 1);
        p, q := 0, q' + 1;
      } else {
        p, q := TiePairFound(le, x, s[1..], u - 1, v - 1);
        p, q := p + 1, q + 1;
      }
    } else {
      p, q := TiePairFound(le, x, s[1..], u, v);
      p, q := p + 1, q + 1;
    }
  }

  /** Where an element is among the ties. */
  lemma {:induction false} TieAt<T>(le: (T, T) -> bool, x: T, s: seq<T>, i: nat) returns (u: nat)
    requires i < |s| && le(x, s[i]) && le(s[i], x)
    ensures u < |Ties(le, x, s)| && Ties(le, x, s)[u] == s[i]
  {
    if i == 0 {
      u := 0;
    } else {
      u := TieAt(le, x, s[1..], i - 1);
      u := if le(x, s[0]) && le(s[0], x) then u + 1 else u;
    }
  }

  lemma {:induction false} TiePairAt<T>(le: (T, T) -> bool, x: T, s: seq<T>, i: nat, j: nat) returns (u: nat, v: nat)
    requires i < j < |s| && le(x, s[i]) && le(s[i], x) && le(x, s[j]) && le(s[j], x)
    ensures u < v < |Ties(le, x, s)| && Ties(le, x, s)[u] == s[i] && Ties(le, x, s)[v] == s[j]
  {
    if i == 0 {
      var v' := TieAt(le, x, s[1..], j - 1);
      u, v := 0, v' + 1;
    } else {
      u, v := TiePairAt(le, x, s[1..], i - 1, j - 1);
      if le(x, s[0]) && le(s[0], x) {
        u, v := u + 1, v + 1;
      }
    }
  }

  /** Two elements that the comparison cannot tell apart stood in the same order before a stable sort. */
  lemma TieOrder<T(!new)>(le: (T, T) -> bool, a: seq<T>, b: seq<T>, i: nat, j: nat) returns (p: nat, q: nat)
    requires TotalPreorder(le) && SameTies(le, a, b) && i < j < |b| && le(b[i], b[j]) && le(b[j], b[i])
    ensures p < q < |a| && a[p] == b[i] && a[q] == b[j]
  {
    var x := b[i];
    assert le(x, x);
    var u, v := TiePairAt(le, x, b, i, j);
    assert Ties(le, x, a) == Ties(le, x, b);
    p, q := TiePairFound(le, x, a, u, v);
  }

  // ---- Merging ----

  function Merge<T>(le: (T, T) -> bool, xs: seq<T>, ys: seq<T>): (r: seq<T>)
    ensures |r| == |xs| + |ys|
    decreases |xs| + |ys|
  {
    if xs == [] then ys
    else if ys == [] then xs
    else if le(xs[0], ys[0]) then [xs[0]] + Merge(le, xs[1..], ys)
    else [ys[0]] + Merge(le, xs, ys[1..])
  }

  lemma {:induction false} MergeMembers<T>(le: (T, T) -> bool, xs: seq<T>, ys: seq<T>)
    ensures forall z :: z in Merge(le, xs, ys) ==> z in xs || z in ys
    decreases |xs| + |ys|
  {
    if xs != [] && ys != [] {
      if le(xs[0], ys[0]) {
        MergeMembers(le, xs[1..], ys);
      } else {
        MergeMembers(le, xs, ys[1..]);
      }
    }
  }

  lemma SortedCons<T(!new)>(le: (T, T) -> bool, x: T, s: seq<T>)
    requires Sorted(le, s) && forall z :: z in s ==> le(x, z)
    ensures Sorted(le, [x] + s)
  {
  }

  lemma {:induction false} MergeSorted<T(!new)>(le: (T, T) -> bool, xs: seq<T>, ys: seq<T>)
    requires TotalPreorder(le) && Sorted(le, xs) && Sorted(le, ys)
    ensures Sorted(le, Merge(le, xs, ys))
    decreases |xs| + |ys|
  {
    if xs != [] && ys != [] {
      if le(xs[0], ys[0]) {
        MergeSorted(le, xs[1..], ys);
        MergeMembers(le, xs[1..], ys);
        forall z | z in xs[1..] || z in ys ensures le(xs[0], z) {
          if z in ys {
            HeadIsLeast(le, ys, z);
          } else {
            HeadIsLeast(le, xs, z);
          }
        }
        SortedCons(le, xs[0], Merge(le, xs[1..], ys));
      } else {
        MergeSorted(le, xs, ys[1..]);
        MergeMembers(le, xs, ys[1..]);
        forall z | z in xs || z in ys[1..] ensures le(ys[0], z) {
          if z in xs {
            HeadIsLeast(le, xs, z);
          } else {
            HeadIsLeast(le, ys, z);
          }
        }
        SortedCons(le, ys[0], Merge(le, xs, ys[1..]));
      }
    }
  }

  lemma TiesOfCons<T>(le: (T, T) -> bool, x: T, y: T, s: seq<T>)
    ensures Ties(le, x, [y] + s) == (if le(x, y) && le(y, x) then [y] else []) + Ties(le, x, s)
  {
    assert ([y] + s)[1..] == s;
  }

  /** Merging two sorted runs keeps ties of the first run before ties of the second. */
  lemma {:induction false} MergeTies<T(!new)>(le: (T, T) -> bool, x: T, xs: seq<T>, ys: seq<T>)
    requires TotalPreorder(le) && Sorted(le, xs)
    ensures Ties(le, x, Merge(le, xs, ys)) == Ties(le, x, xs) + Ties(le, x, ys)
    decreases |xs| + |ys|
  {
    hide Ties, TotalPreorder;
    TiesOfNone(le, x);
    if xs != [] && ys != [] {
      if le(xs[0], ys[0]) {
        var m := Merge(le, xs[1..], ys);
        MergeTies(le, x, xs[1..], ys);
        TiesOfCons(le, x, xs[0], m);
        TiesOfCons(le, x, xs[0], xs[1..]);
        assert [xs[0]] + xs[1..] == xs;
      } else {
        var m := Merge(le, xs, ys[1..]);
        MergeTies(le, x, xs, ys[1..]);
        TiesOfCons(le, x, ys[0], m);
        TiesOfCons(le, x, ys[0], ys[1..]);
        assert [ys[0]] + ys[1..] == ys;
        if le(x, ys[0]) && le(ys[0], x) {
          LaterHasNoTies(le, x, xs, ys[0]);
        }
      }
    }
  }

  lemma TiesOfNone<T>(le: (T, T) -> bool, x: T)
    ensures Ties(le, x, []) == []
  {
  }

  /** Elements that are all above an element that ties with `x` do not tie with it. */
  lemma LaterHasNoTies<T(!new)>(le: (T, T) -> bool, x: T, xs: seq<T>, y: T)
    requires TotalPreorder(le) && Sorted(le, xs) && xs != [] && !le(xs[0], y) && le(x, y) && le(y, x)
    ensures Ties(le, x, xs) == []
  {
    forall i | 0 <= i < |xs| ensures !le(xs[i], x) {
      HeadIsLeast(le, xs, xs[i]);
    }
    NoTies(le, x, xs);
  }

  // ---- Bottom-up merge sort ----

  function Min(a: nat, b: nat): nat {
    if a < b then a else b
  }

  /** One pass: merges neighbouring runs of length `n`, two by two. */
  function Pass<T>(le: (T, T) -> bool, s: seq<T>, n: nat): (r: seq<T>)
    requires n > 0
    ensures |r| == |s|
    decreases |s|
  {
    if s == [] then []
    else
      var p := Min(n, |s|);
      var q := Min(2 * n, |s|);
      Merge(le, s[..p], s[p..q]) + Pass(le, s[q..], n)
  }

  /** How many merges one pass makes. */
  function Merges(len: nat, n: nat): nat
    requires n > 0
  {
    if len == 0 then 0 else 1 + Merges(len - Min(2 * n, len), n)
  }

  lemma OneMerge(len: nat, n: nat)
    requires n > 0
    ensures Merges(len, n) <= 1 <==> len <= 2 * n
  {
    if len > 2 * n {
      assert Merges(len - 2 * n, n) >= 1;
    }
  }

  /** Passes with doubling run length, until one merge is enough. */
  function BottomUp<T>(le: (T, T) -> bool, s: seq<T>, n: nat): seq<T>
    requires n > 0
    decreases |s| - n
  {
    var t := Pass(le, s, n);
    if |s| <= 2 * n then t else BottomUp(le, t, 2 * n)
  }

  ghost predicate RunsSorted<T>(le: (T, T) -> bool, s: seq<T>, n: nat)
    requires n > 0
    decreases |s|
  {
    s == [] || (Sorted(le, s[..Min(n, |s|)]) && RunsSorted(le, s[Min(n, |s|)..], n))
  }

  lemma {:induction false} SingletonRuns<T>(le: (T, T) -> bool, s: seq<T>)
    ensures RunsSorted(le, s, 1)
    decreases |s|
  {
    if s != [] {
      SingletonRuns(le, s[1..]);
    }
  }

  /** The two runs that a pass merges first, and the rest. */
  lemma RunsSplit<T>(le: (T, T) -> bool, s: seq<T>, n: nat, p: nat, q: nat)
    requires n > 0 && RunsSorted(le, s, n) && p == Min(n, |s|) && q == Min(2 * n, |s|)
    ensures Sorted(le, s[..p]) && Sorted(le, s[p..q]) && RunsSorted(le, s[q..], n)
  {
    if s == [] {
      assert s[..p] == [] && s[p..q] == [] && s[q..] == [];
    } else if |s| <= n {
      assert s[p..q] == [] && s[q..] == [];
    } else {
      var u := s[p..];
      assert s[p..q] == u[..Min(n, |u|)] && s[q..] == u[Min(n, |u|)..];
    }
  }

  lemma RunsJoin<T>(le: (T, T) -> bool, m: seq<T>, t: seq<T>, n: nat)
    requires n > 0 && Sorted(le, m) && RunsSorted(le, t, n) && |m| <= n
    requires t != [] ==> |m| == n
    ensures RunsSorted(le, m + t, n)
  {
    var s := m + t;
    if s != [] {
      assert Min(n, |s|) == |m|;
      assert s[..|m|] == m && s[|m|..] == t;
    }
  }

  lemma {:induction false} PassDoublesRuns<T(!new)>(le: (T, T) -> bool, s: seq<T>, n: nat)
    requires n > 0 && TotalPreorder(le) && RunsSorted(le, s, n)
    ensures RunsSorted(le, Pass(le, s, n), 2 * n)
    decreases |s|
  {
    if s != [] {
      var p, q := Min(n, |s|), Min(2 * n, |s|);
      RunsSplit(le, s, n, p, q);
      hide Sorted, RunsSorted;
      MergeSorted(le, s[..p], s[p..q]);
      PassDoublesRuns(le, s[q..], n);
      RunsJoin(le, Merge(le, s[..p], s[p..q]), Pass(le, s[q..], n), 2 * n);
    }
  }

  lemma TiesOfParts<T>(le: (T, T) -> bool, x: T, a: seq<T>, b: seq<T>, c: seq<T>, m: seq<T>, t: seq<T>)
    requires Ties(le, x, m) == Ties(le, x, a) + Ties(le, x, b) && Ties(le, x, t) == Ties(le, x, c)
    ensures Ties(le, x, m + t) == Ties(le, x, a + b + c)
  {
    TiesOfConcat(le, x, a, b);
    TiesOfConcat(le, x, a + b, c);
    TiesOfConcat(le, x, m, t);
  }

  lemma ThreeParts<T>(s: seq<T>, p: nat, q: nat)
    requires p <= q <= |s|
    ensures s[..p] + s[p..q] + s[q..] == s
  {
  }

  lemma {:induction false} PassKeepsTies<T(!new)>(le: (T, T) -> bool, x: T, s: seq<T>, n: nat)
    requires n > 0 && TotalPreorder(le) && RunsSorted(le, s, n)
    ensures Ties(le, x, Pass(le, s, n)) == Ties(le, x, s)
    decreases |s|
  {
    if s != [] {
      var p, q := Min(n, |s|), Min(2 * n, |s|);
      RunsSplit(le, s, n, p, q);
      PassKeepsTies(le, x, s[q..], n);
      MergeTies(le, x, s[..p], s[p..q]);
      TiesOfParts(le, x, s[..p], s[p..q], s[q..], Merge(le, s[..p], s[p..q]), Pass(le, s[q..], n));
      ThreeParts(s, p, q);
    }
  }

  /** Bottom-up merge sort is the stable sort. */
  lemma {:induction false} BottomUpSorts<T(!new)>(le: (T, T) -> bool, s: seq<T>, n: nat)
    requires n > 0 && TotalPreorder(le) && RunsSorted(le, s, n)
    ensures StablySorted(le, s, BottomUp(le, s, n))
    decreases |s| - n
  {
    var t := Pass(le, s, n);
    PassDoublesRuns(le, s, n);
    forall x ensures Ties(le, x, s) == Ties(le, x, t) {
      PassKeepsTies(le, x, s, n);
    }
    if |s| <= 2 * n {
      if t != [] {
        assert t[..Min(2 * n, |t|)] == t;
      }
    } else {
      BottomUpSorts(le, t, 2 * n);
      forall x ensures Ties(le, x, s) == Ties(le, x, BottomUp(le, s, n)) {
        assert Ties(le, x, t) == Ties(le, x, BottomUp(le, t, 2 * n));
      }
    }
  }
}
