/** The bucket array of a uthash table: chains through hh_next and hh_prev, and their doubling. */
module Buckets {
  import opened Bits
  import opened Handles

  datatype Bucket = Bucket(head: Handle?, count: nat, expandMult: nat)

  /** What the table remembers about its doublings. */
  datatype Expansion = Expansion(idealChainMaxlen: nat, nonidealItems: nat, ineffExpands: nat, noexpand: nat)

  /** `c` is linked through hh_next and hh_prev, from null to null. */
  ghost predicate ChainLinked(c: seq<Handle>)
    reads c`hhNext, c`hhPrev
  {
    && (forall i {:trigger c[i].hhNext} :: 0 <= i < |c| ==> c[i].hhNext == At(c, i + 1))
    && (forall i {:trigger c[i].hhPrev} :: 0 <= i < |c| ==> c[i].hhPrev == At(c, i - 1))
  }

  lemma ChainRelinked(s: seq<Handle>, k: nat)
    requires k < |s|
    requires forall i {:trigger s[i].hhNext} ::
               0 <= i < |s| ==> s[i].hhNext == if i == k - 1 then At(s, k + 1) else At(s, i + 1)
    requires forall i {:trigger s[i].hhPrev} ::
               0 <= i < |s| ==> s[i].hhPrev == if i == k + 1 then At(s, k - 1) else At(s, i - 1)
    ensures ChainLinked(Without(s, k))
  {
    var w := Without(s, k);
    forall i | 0 <= i < |w| ensures w[i].hhNext == At(w, i + 1) && w[i].hhPrev == At(w, i - 1) {
      assert w[i] == s[if i < k then i else i + 1];
    }
  }

  // ---- Buckets ----

  /** HASH_TO_BKT */
  function ToBkt(hashv: nat, numBkts: nat): nat
    requires numBkts > 0
  {
    And(hashv, numBkts - 1)
  }

  lemma ToBktInRange(hashv: nat, numBkts: nat, k: nat)
    requires numBkts == Pow2(k)
    ensures ToBkt(hashv, numBkts) == hashv % numBkts < numBkts
  {
    MaskIsMod(hashv, k);
  }

  ghost function Members(chains: seq<seq<Handle>>): set<Handle> {
    set b, h | 0 <= b < |chains| && h in chains[b] :: h
  }

  ghost predicate BucketHolds(bkt: Bucket, c: seq<Handle>)
    reads c`hhNext, c`hhPrev
  {
    ChainLinked(c) && Distinct(c) && bkt.head == At(c, 0) && bkt.count == |c|
  }

  ghost predicate Chained(bkts: array<Bucket>, chains: seq<seq<Handle>>)
    reads bkts, Members(chains)`hhNext, Members(chains)`hhPrev
  {
    && bkts.Length == |chains|
    && forall b :: 0 <= b < |chains| ==>
         assert forall h :: h in chains[b] ==> h in Members(chains);
         BucketHolds(bkts[b], chains[b])
  }

  /** Chain `b` holds exactly the members of `all` whose hash selects bucket `b`. */
  ghost predicate Partitioned(chains: seq<seq<Handle>>, all: set<Handle>, hashf: Key -> uint32)
    requires |chains| > 0
  {
    && (forall h :: h in all ==>
          0 <= ToBkt(hashf(h.key), |chains|) < |chains| && h in chains[ToBkt(hashf(h.key), |chains|)])
    && (forall b, i :: 0 <= b < |chains| && 0 <= i < |chains[b]| ==>
          chains[b][i] in all && ToBkt(hashf(chains[b][i].key), |chains|) == b)
  }

  // ---- Statistics of a doubling ----

  function CeilDiv(n: nat, d: nat): nat
    requires d > 0
  {
    if n % d == 0 then n / d else n / d + 1
  }

  function Over(len: nat, ideal: nat): nat {
    if len > ideal then len - ideal else 0
  }

  /** How many entries sit deeper in their chain than `ideal`. */
  ghost function Excess<T>(chains: seq<seq<T>>, ideal: nat): nat {
    if |chains| == 0 then 0 else Excess(chains[1..], ideal) + Over(|chains[0]|, ideal)
  }

  lemma {:induction false} ExcessOfEmpty<T>(chains: seq<seq<T>>, ideal: nat)
    requires forall b :: 0 <= b < |chains| ==> chains[b] == []
    ensures Excess(chains, ideal) == 0
  {
    if |chains| > 0 {
      ExcessOfEmpty(chains[1..], ideal);
    }
  }

  lemma {:induction false} ExcessOfUpdate<T>(chains: seq<seq<T>>, b: nat, c: seq<T>, ideal: nat)
    requires b < |chains|
    ensures Excess(chains[b := c], ideal) + Over(|chains[b]|, ideal) == Excess(chains, ideal) + Over(|c|, ideal)
  {
    var chains' := chains[b := c];
    if b == 0 {
      assert chains'[1..] == chains[1..];
    } else {
      assert chains'[1..] == chains[1..][b - 1 := c];
      ExcessOfUpdate(chains[1..], b - 1, c, ideal);
    }
  }

  function ExpandMult(len: nat, ideal: nat): nat
    requires ideal > 0
  {
    if len > ideal then len / ideal else 0
  }

  ghost predicate MultsSet(bkts: array<Bucket>, ideal: nat)
    requires ideal > 0
    reads bkts
  {
    forall b :: 0 <= b < bkts.Length ==> bkts[b].expandMult == ExpandMult(bkts[b].count, ideal)
  }

  lemma CeilPositive(n: nat, d: nat)
    requires d > 0 && n > 0
    ensures CeilDiv(n, d) > 0
  {
  }

  /** The shift-and-mask formula for ideal_chain_maxlen is a rounded-up division. */
  function IdealChainMaxlen(n: nat, log2: nat, numBkts: nat): (r: nat)
    requires numBkts == Pow2(log2)
    ensures r == CeilDiv(n, 2 * numBkts)
    ensures n > 0 ==> r > 0
  {
    MaskIsMod(n, log2 + 1);
    assert Pow2(log2 + 1) == 2 * numBkts;
    if n > 0 then CeilPositive(n, 2 * numBkts); Shifted(n, log2, numBkts) else Shifted(n, log2, numBkts)
  }

  function Shifted(n: nat, log2: nat, numBkts: nat): int
    requires numBkts > 0
  {
    n / Pow2(log2 + 1) + (if And(n, 2 * numBkts - 1) != 0 then 1 else 0)
  }

  /** Two ineffective doublings in a row forbid further ones. */
  function Doubled(e: Expansion, ideal: nat, nonideal: nat, items: nat): Expansion {
    var ineff := if nonideal > items / 2 then e.ineffExpands + 1 else 0;
    Expansion(ideal, nonideal, ineff, if ineff > 1 then 1 else e.noexpand)
  }

  // ---- Chains in place ----

  /** Links `h` in front of chain `b`. */
  method PushFront(bkts: array<Bucket>, b: nat, h: Handle, ghost c: seq<Handle>)
    requires b < bkts.Length && BucketHolds(bkts[b], c) && h !in c
    modifies bkts, h`hhNext, h`hhPrev, c`hhPrev
    ensures bkts[..] == old(bkts[..])[b := Bucket(h, |c| + 1, old(bkts[b].expandMult))]
    ensures BucketHolds(bkts[b], [h] + c)
  {
    var bkt := bkts[b];
    h.hhNext := bkt.head;
    h.hhPrev := null;
    if bkt.head != null {
      bkt.head.hhPrev := h;
    }
    bkts[b] := Bucket(h, bkt.count + 1, bkt.expandMult);
    ghost var d := [h] + c;
    assert forall i :: 1 <= i < |d| ==> d[i] == c[i - 1];
    assert forall i :: 0 <= i < |c| ==> c[i].hhNext == At(c, i + 1);
    assert forall i :: 0 <= i < |c| ==> c[i].hhPrev == if i == 0 then h else At(c, i - 1);
  }

  lemma OtherChain(chains: seq<seq<Handle>>, all: set<Handle>, hashf: Key -> uint32, b: nat, b': nat)
    requires |chains| > 0 && Partitioned(chains, all, hashf)
    requires b < |chains| && b' < |chains| && b != b'
    ensures forall i :: 0 <= i < |chains[b']| ==> chains[b'][i] in all && chains[b'][i] !in chains[b]
  {
  }

  lemma PartitionedPush(chains: seq<seq<Handle>>, all: set<Handle>, hashf: Key -> uint32, h: Handle, b: nat)
    requires |chains| > 0 && Partitioned(chains, all, hashf)
    requires b == ToBkt(hashf(h.key), |chains|) < |chains|
    ensures Partitioned(chains[b := [h] + chains[b]], all + {h}, hashf)
  {
    var chains' := chains[b := [h] + chains[b]];
    forall x | x in all + {h}
      ensures 0 <= ToBkt(hashf(x.key), |chains|) < |chains| && x in chains'[ToBkt(hashf(x.key), |chains|)]
    {
      if x == h {
        assert chains'[b][0] == h;
      } else {
        var bx := ToBkt(hashf(x.key), |chains|);
        var i :| 0 <= i < |chains[bx]| && chains[bx][i] == x;
        if bx == b {
          assert chains'[b][i + 1] == x;
        }
      }
    }
    forall b', i | 0 <= b' < |chains'| && 0 <= i < |chains'[b']|
      ensures chains'[b'][i] in all + {h} && ToBkt(hashf(chains'[b'][i].key), |chains|) == b'
    {
      if b' == b && i > 0 {
        assert chains'[b][i] == chains[b][i - 1];
      }
    }
  }

  /** HASH_ADD_TO_BKT without its threshold test: chain `b` grows at the front, the others stay. */
  method PushIntoChains(bkts: array<Bucket>, b: nat, h: Handle,
                           hashf: Key -> uint32, ghost chains: seq<seq<Handle>>, ghost all: set<Handle>)
    requires |chains| > 0 && Chained(bkts, chains) && Partitioned(chains, all, hashf)
    requires h !in all && b == ToBkt(hashf(h.key), |chains|) < |chains|
    modifies bkts, h`hhNext, h`hhPrev, all`hhPrev
    ensures Chained(bkts, chains[b := [h] + chains[b]])
    ensures Partitioned(chains[b := [h] + chains[b]], all + {h}, hashf)
    ensures bkts[..] == old(bkts[..])[b := Bucket(h, |chains[b]| + 1, old(bkts[b].expandMult))]
  {
    ghost var c := chains[b];
    assert forall i :: 0 <= i < |c| ==> c[i] in all;
    PushFront(bkts, b, h, c);
    PartitionedPush(chains, all, hashf, h, b);
    ghost var chains' := chains[b := [h] + c];
    forall b' | 0 <= b' < |chains'| ensures BucketHolds(bkts[b'], chains'[b']) {
      if b' != b {
        OtherChain(chains, all, hashf, b, b');
        assert bkts[b'] == old(bkts[b']);
        assert old(BucketHolds(bkts[b'], chains[b']));
      }
    }
  }

  /** The statistics of one entry that has just reached bucket `b`. */
  method CountEntry(bkts: array<Bucket>, b: nat, ideal: nat, nonideal: nat, ghost chains: seq<seq<Handle>>)
    returns (nonideal': nat)
    requires Chained(bkts, chains)
    requires b < bkts.Length && ideal > 0 && bkts[b].count > 0
    requires bkts[b].expandMult == ExpandMult(bkts[b].count - 1, ideal)
    modifies bkts
    ensures bkts[..] == old(bkts[..])[b := old(bkts[b]).(expandMult := ExpandMult(old(bkts[b].count), ideal))]
    ensures Chained(bkts, chains)
    ensures nonideal' + Over(old(bkts[b].count) - 1, ideal) == nonideal + Over(old(bkts[b].count), ideal)
  {
    nonideal' := nonideal;
    if bkts[b].count > ideal {
      nonideal' := nonideal + 1;
      bkts[b] := bkts[b].(expandMult := bkts[b].count / ideal);
    }
    forall b' | 0 <= b' < |chains| ensures BucketHolds(bkts[b'], chains[b']) {
      assert old(BucketHolds(bkts[b'], chains[b']));
    }
  }

  /** The body of the doubling loop: moves one handle into its new bucket and updates the statistics. */
  method MoveHandle(bkts: array<Bucket>, h: Handle, ideal: nat, nonideal: nat,
                       hashf: Key -> uint32, ghost chains: seq<seq<Handle>>, ghost all: set<Handle>, ghost log2: nat)
    returns (nonideal': nat, ghost chains': seq<seq<Handle>>)
    requires |chains| == Pow2(log2) && Chained(bkts, chains) && Partitioned(chains, all, hashf)
    requires h !in all && h.hashv == hashf(h.key)
    requires ideal > 0 && MultsSet(bkts, ideal) && nonideal == Excess(chains, ideal)
    modifies bkts, h`hhNext, h`hhPrev, all`hhPrev
    ensures |chains'| == |chains| && Chained(bkts, chains') && Partitioned(chains', all + {h}, hashf)
    ensures MultsSet(bkts, ideal) && nonideal' == Excess(chains', ideal)
  {
    hide Partitioned, ChainLinked, ToBkt, Pow2;
    ToBktInRange(h.hashv, bkts.Length, log2);
    var b := ToBkt(h.hashv, bkts.Length);
    PushIntoChains(bkts, b, h, hashf, chains, all);
    chains' := chains[b := [h] + chains[b]];
    ExcessOfUpdate(chains, b, [h] + chains[b], ideal);
    nonideal' := CountEntry(bkts, b, ideal, nonideal, chains');
  }

  /** `c` can be walked from its head through hh_next. */
  ghost predicate Walkable(c: seq<Handle>)
    reads c`hhNext
  {
    forall i {:trigger c[i].hhNext} :: 0 <= i < |c| ==> c[i].hhNext == At(c, i + 1)
  }

  /** The inner loop of HASH_EXPAND_BUCKETS: empties one old chain into the new buckets. */
  method RehashChain(bkts: array<Bucket>, first: Handle?, ideal: nat, nonideal: nat, hashf: Key -> uint32,
                        ghost c: seq<Handle>, ghost chains: seq<seq<Handle>>, ghost all: set<Handle>, ghost log2: nat)
    returns (nonideal': nat, ghost chains': seq<seq<Handle>>)
    requires |chains| == Pow2(log2) && Chained(bkts, chains) && Partitioned(chains, all, hashf)
    requires ideal > 0 && MultsSet(bkts, ideal) && nonideal == Excess(chains, ideal)
    requires first == At(c, 0) && Walkable(c) && Distinct(c) && all !! Elems(c)
    requires forall h :: h in c ==> h.hashv == hashf(h.key)
    modifies bkts, all`hhPrev, c`hhPrev, c`hhNext
    ensures |chains'| == |chains| && Chained(bkts, chains') && Partitioned(chains', all + Elems(c), hashf)
    ensures MultsSet(bkts, ideal) && nonideal' == Excess(chains', ideal)
  {
    hide Chained, Partitioned, MultsSet, Excess;
    var thh := first;
    ghost var j := 0;
    ghost var done := all;
    nonideal', chains' := nonideal, chains;
    while thh != null
      invariant 0 <= j <= |c| && thh == At(c, j)
      invariant forall i {:trigger c[i].hhNext} :: j <= i < |c| ==> c[i].hhNext == At(c, i + 1)
      invariant forall i :: j <= i < |c| ==> c[i] !in done
      invariant done == all + Elems(c[..j])
      invariant |chains'| == |chains| && Chained(bkts, chains') && Partitioned(chains', done, hashf)
      invariant MultsSet(bkts, ideal) && nonideal' == Excess(chains', ideal)
      decreases |c| - j
    {
      var nxt := thh.hhNext;
      nonideal', chains' := MoveHandle(bkts, thh, ideal, nonideal', hashf, chains', done, log2);
      done := done + {thh};
      ElemsOfPrefix(c, j);
      thh := nxt;
      j := j + 1;
    }
    assert c[..j] == c;
  }

  /** The old chains as the doubling loop needs them. */
  ghost predicate Drainable(bkts: array<Bucket>, chains: seq<seq<Handle>>, hashf: Key -> uint32)
    reads bkts, Members(chains)`hhNext, Members(chains)`hashv
  {
    && bkts.Length == |chains|
    && (forall b :: 0 <= b < |chains| ==> Distinct(chains[b]) && bkts[b].head == At(chains[b], 0))
    && (forall b, b' :: 0 <= b < b' < |chains| ==> Elems(chains[b]) !! Elems(chains[b']))
    && (forall h :: h in Members(chains) ==> h.hashv == hashf(h.key))
    && (forall b :: 0 <= b < |chains| ==>
          assert forall h :: h in chains[b] ==> h in Members(chains);
          Walkable(chains[b]))
  }

  lemma MembersOfPrefix(chains: seq<seq<Handle>>, i: nat)
    requires i < |chains|
    ensures Members(chains[..i + 1]) == Members(chains[..i]) + Elems(chains[i])
  {
    var p, q := chains[..i + 1], chains[..i];
    forall h | h in Members(p) ensures h in Members(q) + Elems(chains[i]) {
      var b :| 0 <= b < |p| && h in p[b];
      if b < i {
        assert h in q[b];
      }
    }
    forall h | h in Members(q) + Elems(chains[i]) ensures h in Members(p) {
      if h in Members(q) {
        var b :| 0 <= b < |q| && h in q[b];
        assert h in p[b];
      } else {
        assert h in p[i];
      }
    }
  }

  lemma PrefixDisjoint(chains: seq<seq<Handle>>, i: nat)
    requires i < |chains|
    requires forall b, b' :: 0 <= b < b' < |chains| ==> Elems(chains[b]) !! Elems(chains[b'])
    ensures Members(chains[..i]) !! Elems(chains[i])
    ensures forall h :: h in Members(chains[..i]) + Elems(chains[i]) ==> h in Members(chains)
    ensures forall b, h :: i < b < |chains| && h in chains[b] ==> h !in Members(chains[..i]) + Elems(chains[i])
  {
    forall h, b | i <= b < |chains| && h in chains[b] ensures h !in Members(chains[..i]) {
      forall b' | 0 <= b' < i ensures h !in chains[b'] {
        assert h in Elems(chains[b]);
      }
    }
    forall b, h | i < b < |chains| && h in chains[b] ensures h !in Elems(chains[i]) {
      assert h in Elems(chains[b]);
    }
  }

  /** The outer loop of HASH_EXPAND_BUCKETS. */
  method RehashAll(bkts: array<Bucket>, newBkts: array<Bucket>, ideal: nat, hashf: Key -> uint32,
                      ghost chains: seq<seq<Handle>>, ghost log2: nat)
    returns (nonideal: nat, ghost newChains: seq<seq<Handle>>)
    requires bkts != newBkts && newBkts.Length == Pow2(log2) && ideal > 0
    requires forall b :: 0 <= b < newBkts.Length ==> newBkts[b] == Bucket(null, 0, 0)
    requires Drainable(bkts, chains, hashf)
    modifies newBkts, Members(chains)`hhNext, Members(chains)`hhPrev
    ensures |newChains| == newBkts.Length && Chained(newBkts, newChains)
    ensures Partitioned(newChains, Members(chains), hashf)
    ensures MultsSet(newBkts, ideal) && nonideal == Excess(newChains, ideal)
  {
    newChains := seq(newBkts.Length, _ => []);
    ExcessOfEmpty(newChains, ideal);
    nonideal := 0;
    assert Members(chains[..0]) == {};
    var i := 0;
    while i < bkts.Length
      invariant 0 <= i <= bkts.Length
      invariant |newChains| == newBkts.Length && Chained(newBkts, newChains)
      invariant Partitioned(newChains, Members(chains[..i]), hashf)
      invariant MultsSet(newBkts, ideal) && nonideal == Excess(newChains, ideal)
      invariant forall b :: i <= b < |chains| ==> Walkable(chains[b])
    {
      hide Chained, Partitioned, MultsSet, Excess, Members;
      ghost var c := chains[i];
      MembersOfPrefix(chains, i);
      PrefixDisjoint(chains, i);
      nonideal, newChains := RehashChain(newBkts, bkts[i].head, ideal, nonideal, hashf,
                                         c, newChains, Members(chains[..i]), log2);
      i := i + 1;
    }
    assert chains[..i] == chains;
  }

  /** HASH_DEL_IN_BKT */
  method UnlinkChain(bkts: array<Bucket>, b: nat, del: Handle, ghost c: seq<Handle>, ghost k: nat)
    requires b < bkts.Length && k < |c| && c[k] == del && BucketHolds(bkts[b], c)
    modifies bkts, Elems(c)`hhNext, Elems(c)`hhPrev
    ensures BucketHolds(bkts[b], Without(c, k))
    ensures bkts[..] == old(bkts[..])[b := Bucket(bkts[b].head, |c| - 1, old(bkts[b].expandMult))]
  {
    bkts[b] := bkts[b].(count := bkts[b].count - 1);
    if bkts[b].head == del {
      bkts[b] := bkts[b].(head := del.hhNext);
    }
    if del.hhPrev != null {
      del.hhPrev.hhNext := del.hhNext;
    }
    if del.hhNext != null {
      del.hhNext.hhPrev := del.hhPrev;
    }
    assert forall i {:trigger c[i].hhNext} :: 0 <= i < |c| ==>
        c[i].hhNext == if i == k - 1 then At(c, k + 1) else At(c, i + 1);
    assert forall i {:trigger c[i].hhPrev} :: 0 <= i < |c| ==>
        c[i].hhPrev == if i == k + 1 then At(c, k - 1) else At(c, i - 1);
    ChainRelinked(c, k);
    WithoutFacts(c, k);
  }

  lemma PartitionedDrop(chains: seq<seq<Handle>>, all: set<Handle>, hashf: Key -> uint32, b: nat, k: nat)
    requires |chains| > 0 && Partitioned(chains, all, hashf)
    requires b < |chains| && k < |chains[b]| && Distinct(chains[b])
    ensures Partitioned(chains[b := Without(chains[b], k)], all - {chains[b][k]}, hashf)
  {
    var chains' := chains[b := Without(chains[b], k)];
    WithoutFacts(chains[b], k);
    forall b', i | 0 <= b' < |chains'| && 0 <= i < |chains'[b']|
      ensures chains'[b'][i] in all - {chains[b][k]} && ToBkt(hashf(chains'[b'][i].key), |chains|) == b'
    {
      assert chains'[b'][i] in chains'[b'];
      assert chains'[b'][i] in chains[b'];
      if b' != b {
        OtherChain(chains, all, hashf, b, b');
      }
    }
  }

  /** HASH_DEL_IN_BKT on the whole array: chain `b` loses its k-th handle, the others stay. */
  method DropFromChains(bkts: array<Bucket>, b: nat, del: Handle,
                        hashf: Key -> uint32, ghost chains: seq<seq<Handle>>, ghost all: set<Handle>, ghost k: nat)
    requires |chains| > 0 && Chained(bkts, chains) && Partitioned(chains, all, hashf)
    requires b < |chains| && k < |chains[b]| && chains[b][k] == del
    modifies bkts, all`hhNext, all`hhPrev
    ensures Chained(bkts, chains[b := Without(chains[b], k)])
    ensures Partitioned(chains[b := Without(chains[b], k)], all - {del}, hashf)
    ensures bkts[..] == old(bkts[..])[b := Bucket(bkts[b].head, |chains[b]| - 1, old(bkts[b].expandMult))]
  {
    ghost var c := chains[b];
    assert BucketHolds(bkts[b], c);
    assert forall i :: 0 <= i < |c| ==> c[i] in all;
    PartitionedDrop(chains, all, hashf, b, k);
    UnlinkChain(bkts, b, del, c, k);
    ghost var chains' := chains[b := Without(c, k)];
    forall b' | 0 <= b' < |chains'| ensures BucketHolds(bkts[b'], chains'[b']) {
      if b' != b {
        OtherChain(chains, all, hashf, b, b');
        assert bkts[b'] == old(bkts[b']);
        assert old(BucketHolds(bkts[b'], chains[b']));
      }
    }
  }
}
