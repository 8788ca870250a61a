/** The intrusive hash table of uthash.h: every element is in a bucket chain and, at the same time,
    in one doubly linked list that remembers the order of insertion. */
module UtHash {
  import opened Bits
  import opened Handles
  import opened Buckets
  import opened StableSort
  import opened HashSort

  const INITIAL_NUM_BUCKETS: nat := 32
  const INITIAL_NUM_BUCKETS_LOG2: nat := 5
  const BKT_CAPACITY_THRESH: nat := 10

  /** One more entry in this bucket triggers a doubling. */
  predicate Crowded(bkt: Bucket, e: Expansion) {
    bkt.count + 1 >= (bkt.expandMult + 1) * BKT_CAPACITY_THRESH && e.noexpand != 1
  }

  class HashTable {
    const hashf: Key -> uint32
    var head: Handle?
    // UT_hash_table, allocated while head is not null
    var tail: Handle?
    var buckets: array<Bucket>
    var numBuckets: nat
    var log2NumBuckets: nat
    var numItems: nat
    var expansion: Expansion

    ghost var order: seq<Handle>
    ghost var chains: seq<seq<Handle>>

    /** The insertion-order list. */
    ghost predicate OrderOk()
      reads this`order, this`head, this`tail, this`numItems, order`next, order`prev, order`hashv
    {
      && order != [] && Distinct(order) && OrderLinked(order)
      && head == order[0] && tail == order[|order| - 1] && numItems == |order|
      && KeysDistinct(order) && Hashed(order, hashf)
    }

    /** The bucket array, holding exactly the handles of `all`. */
    ghost predicate BucketsHold(all: set<Handle>)
      reads this`numBuckets, this`log2NumBuckets, this`chains, this`buckets
      reads buckets, Members(chains)`hhNext, Members(chains)`hhPrev
    {
      && numBuckets == |chains| == Pow2(log2NumBuckets)
      && Partitioned(chains, all, hashf)
      && Chained(buckets, chains)
    }

    ghost predicate Valid()
      reads this, buckets, order, Members(chains)
    {
      && (head == null ==> order == [])
      && (head != null ==> OrderOk() && BucketsHold(Elems(order)))
    }

    constructor (hashf: Key -> uint32)
      ensures Valid() && order == [] && this.hashf == hashf && head == null && fresh(buckets)
    {
      this.hashf := hashf;
      head, tail, order, chains := null, null, [], [];
      buckets := new Bucket[0];
      numBuckets, log2NumBuckets, numItems := 0, 0, 0;
      expansion := Expansion(0, 0, 0, 0);
    }

    lemma DrainableNow()
      requires BucketsHold(Elems(order)) && Hashed(order, hashf)
      ensures Drainable(buckets, chains, hashf) && Members(chains) == Elems(order)
    {
      assert forall b :: 0 <= b < |chains| ==> BucketHolds(buckets[b], chains[b]);
    }

    /** HASH_EXPAND_BUCKETS */
    method ExpandBuckets()
      requires order != [] && numItems == |order| && BucketsHold(Elems(order))
      requires Hashed(order, hashf)
      modifies this`buckets, this`numBuckets, this`log2NumBuckets, this`chains
      modifies this`expansion
      modifies Elems(order)`hhNext, Elems(order)`hhPrev
      ensures BucketsHold(Elems(order)) && fresh(buckets) && numBuckets == 2 * old(numBuckets)
      ensures expansion.idealChainMaxlen == CeilDiv(|order|, numBuckets) > 0
      ensures MultsSet(buckets, expansion.idealChainMaxlen)
      ensures expansion == Doubled(old(expansion), expansion.idealChainMaxlen,
                                   Excess(chains, expansion.idealChainMaxlen), |order|)
    {
      var newBuckets, ideal, nonideal;
      ghost var newChains;
      newBuckets, ideal, nonideal, newChains := BuildBuckets();
      InstallBuckets(newBuckets, ideal, nonideal, newChains);
    }

    /** The start of HASH_EXPAND_BUCKETS: allocates the doubled array and moves every entry to it. */
    method BuildBuckets()
      returns (newBuckets: array<Bucket>, ideal: nat, nonideal: nat, ghost newChains: seq<seq<Handle>>)
      requires order != [] && numItems == |order| && BucketsHold(Elems(order))
      requires Hashed(order, hashf)
      modifies Elems(order)`hhNext, Elems(order)`hhPrev
      ensures fresh(newBuckets) && |newChains| == 2 * numBuckets == Pow2(log2NumBuckets + 1)
      ensures Chained(newBuckets, newChains) && Partitioned(newChains, Elems(order), hashf)
      ensures ideal == CeilDiv(|order|, 2 * numBuckets) && ideal > 0
      ensures nonideal == Excess(newChains, ideal) && MultsSet(newBuckets, ideal)
    {
      newBuckets := new Bucket[2 * numBuckets](_ => Bucket(null, 0, 0));
      ideal := IdealChainMaxlen(numItems, log2NumBuckets, numBuckets);
      assert newBuckets.Length == Pow2(log2NumBuckets + 1);
      DrainableNow();
      nonideal, newChains := RehashAll(buckets, newBuckets, ideal, hashf, chains, log2NumBuckets + 1);
    }

    /** The end of HASH_EXPAND_BUCKETS: the new array replaces the old one. */
    method InstallBuckets(newBuckets: array<Bucket>, ideal: nat, nonideal: nat, ghost newChains: seq<seq<Handle>>)
      requires |newChains| == 2 * numBuckets == Pow2(log2NumBuckets + 1)
      requires Chained(newBuckets, newChains) && Partitioned(newChains, Elems(order), hashf)
      modifies this`buckets, this`numBuckets, this`log2NumBuckets, this`chains
      modifies this`expansion
      ensures BucketsHold(Elems(order)) && buckets == newBuckets && numBuckets == 2 * old(numBuckets)
          && chains == newChains
      ensures expansion == Doubled(old(expansion), ideal, nonideal, numItems)
    {
      hide Partitioned, BucketHolds;
      expansion := Doubled(expansion, ideal, nonideal, numItems);
      buckets, chains := newBuckets, newChains;
      numBuckets, log2NumBuckets := 2 * numBuckets, log2NumBuckets + 1;
    }

    /** HASH_MAKE_TABLE: the bucket array of a new table. */
    method MakeBuckets()
      modifies this`buckets, this`chains, this`numBuckets, this`log2NumBuckets
      modifies this`expansion
      ensures BucketsHold({}) && fresh(buckets)
      ensures numBuckets == INITIAL_NUM_BUCKETS && log2NumBuckets == INITIAL_NUM_BUCKETS_LOG2
      ensures forall b :: 0 <= b < buckets.Length ==> buckets[b] == Bucket(null, 0, 0)
      ensures expansion == Expansion(0, 0, 0, 0)
    {
      expansion := Expansion(0, 0, 0, 0);
      numBuckets, log2NumBuckets := INITIAL_NUM_BUCKETS, INITIAL_NUM_BUCKETS_LOG2;
      chains := seq(INITIAL_NUM_BUCKETS, _ => []);
      buckets := new Bucket[INITIAL_NUM_BUCKETS](_ => Bucket(null, 0, 0));
    }

    /** The first element becomes head and tail. */
    method StartList(add: Handle)
      requires head == null && order == [] && add.hashv == hashf(add.key)
      modifies this`head, this`tail, this`order, this`numItems, add`next, add`prev
      ensures order == [add] && OrderOk()
    {
      add.next, add.prev := null, null;
      head, tail, numItems, order := add, add, 1, [add];
    }

    /** HASH_APPEND_LIST */
    method AppendList(add: Handle)
      requires head != null && OrderOk() && add !in order && add.hashv == hashf(add.key)
      requires forall i {:trigger order[i].key} :: 0 <= i < |order| ==> order[i].key != add.key
      modifies this`tail, this`order, this`numItems, add`next, add`prev, tail`next
      ensures order == old(order) + [add] && OrderOk()
    {
      ListGrown(order, add, hashf);
      hide OrderLinked, KeysDistinct, Hashed, Distinct;
      AppendLinks(tail, add, order);
      tail := add;
      numItems := numItems + 1;
      order := order + [add];
    }

    /** HASH_ADD_TO_BKT without its threshold test. */
    method PushToBkt(b: nat, add: Handle)
      requires add in order && Hashed(order, hashf) && BucketsHold(Elems(order) - {add})
      requires b == ToBkt(hashf(add.key), numBuckets)
      modifies this`chains, buckets, Elems(order)`hhNext, Elems(order)`hhPrev
      ensures BucketsHold(Elems(order)) && b < |chains| && chains == old(chains)[b := [add] + old(chains)[b]]
      ensures |chains[b]| == old(buckets[b].count) + 1
      ensures buckets[..] == old(buckets[..])[b := Bucket(add, |chains[b]|, old(buckets[b].expandMult))]
    {
      ToBktInRange(hashf(add.key), numBuckets, log2NumBuckets);
      PushIntoChains(buckets, b, add, hashf, chains, Elems(order) - {add});
      chains := chains[b := [add] + chains[b]];
      assert Elems(order) - {add} + {add} == Elems(order);
    }

    /** HASH_ADD_TO_BKT */
    method AddToBkt(add: Handle)
      requires numItems == |order| && add in order && Hashed(order, hashf) && BucketsHold(Elems(order) - {add})
      modifies this`buckets, this`numBuckets, this`log2NumBuckets, this`chains, buckets
      modifies this`expansion
      modifies Elems(order)`hhNext, Elems(order)`hhPrev
      ensures BucketsHold(Elems(order)) && (buckets == old(buckets) || fresh(buckets))
      ensures old(ToBkt(hashf(add.key), numBuckets) < buckets.Length)
      ensures old(Crowded(buckets[ToBkt(hashf(add.key), numBuckets)], expansion)) ==>
                && numBuckets == 2 * old(numBuckets)
                && expansion.idealChainMaxlen == CeilDiv(|order|, numBuckets)
                && expansion.nonidealItems == Excess(chains, expansion.idealChainMaxlen)
      ensures !old(Crowded(buckets[ToBkt(hashf(add.key), numBuckets)], expansion)) ==>
                numBuckets == old(numBuckets) && expansion == old(expansion)
    {
      assert add.hashv == hashf(add.key);
      var b := ToBkt(add.hashv, numBuckets);
      PushToBkt(b, add);
      if buckets[b].count >= (buckets[b].expandMult + 1) * BKT_CAPACITY_THRESH && expansion.noexpand != 1 {
        ExpandBuckets();
      }
    }

    /** The list part of HASH_ADD_KEYPTR_BYHASHVALUE: a new table, or one more element at the tail. */
    method Enlist(add: Handle)
      requires Valid() && add !in order && add.hashv == hashf(add.key)
      requires forall i {:trigger order[i].key} :: 0 <= i < |order| ==> order[i].key != add.key
      modifies this, add`next, add`prev, Elems(order)`next
      ensures order == old(order) + [add] && OrderOk() && head != null
      ensures BucketsHold(Elems(order) - {add}) && (buckets == old(buckets) || fresh(buckets))
    {
      hide OrderLinked, KeysDistinct, Hashed, Partitioned, Distinct, BucketHolds;
      if head == null {
        StartList(add);
        MakeBuckets();
        assert Elems(order) - {add} == {};
      } else {
        AppendList(add);
        assert Elems(order) - {add} == Elems(old(order));
      }
    }

    /** HASH_ADD_KEYPTR, for a key that is not in the table. */
    method Add(add: Handle)
      requires Valid() && add !in order
          && forall i {:trigger order[i].key} :: 0 <= i < |order| ==> order[i].key != add.key
      modifies this, buckets, add`hashv, add`next, add`prev, add`hhNext, add`hhPrev
      modifies Elems(order)`next, Elems(order)`prev, Elems(order)`hhNext, Elems(order)`hhPrev
      ensures Valid() && head != null && order == old(order) + [add]
      ensures buckets == old(buckets) || fresh(buckets)
    {
      hide OrderLinked, KeysDistinct, Hashed, Partitioned, Chained, Distinct;
      add.hashv := hashf(add.key);
      Enlist(add);
      AddToBkt(add);
    }

    /** HASH_FIND */
    method Find(key: Key) returns (out: Handle?)
      requires Valid()
      ensures out == null ==> forall i {:trigger order[i].key} :: 0 <= i < |order| ==> order[i].key != key
      ensures out != null ==> out in order && out.key == key
    {
      out := null;
      if head != null {
        ToBktInRange(hashf(key), numBuckets, log2NumBuckets);
        var b := ToBkt(hashf(key), numBuckets);
        ghost var c := chains[b];
        assert BucketHolds(buckets[b], c);
        out := buckets[b].head;
        ghost var j := 0;
        while out != null
          invariant 0 <= j <= |c| && out == At(c, j)
          invariant forall i :: 0 <= i < j ==> c[i].key != key
          decreases |c| - j
        {
          if out.hashv == hashf(key) && |out.key| == |key| && out.key == key {
            assert c[j] in Elems(order);
            return;
          }
          assert c[j] in Elems(order) && c[j] in order;
          out := out.hhNext;
          j := j + 1;
        }
        forall i | 0 <= i < |order| ensures order[i].key != key {
          assert order[i] in Elems(order);
        }
      }
    }

    /** Head and tail give way to the neighbours of the element that HASH_DELETE removes. */
    method MoveEnds(del: Handle, ghost k: nat)
      requires head != null && |order| > 1 && k < |order| && order[k] == del && Distinct(order)
      requires head == order[0] && tail == order[|order| - 1]
      requires del.prev == At(order, k - 1) && del.next == At(order, k + 1)
      modifies this`head, this`tail
      ensures head == Without(order, k)[0] && tail == Without(order, k)[|order| - 2] && head != null
    {
      if del == tail {
        tail := del.prev;
      }
      if del.prev == null {
        head := del.next;
      }
    }

    /** The list part of HASH_DELETE for an element that is not alone. */
    method Delist(del: Handle, ghost k: nat)
      requires head != null && OrderOk() && |order| > 1 && k < |order| && order[k] == del
      modifies this`head, this`tail, this`numItems, this`order, Elems(order)`next, Elems(order)`prev
      ensures OrderOk() && head != null && order == Without(old(order), k)
    {
      hide Hashed, KeysDistinct, OrderLinked, Distinct, Elems;
      ListShrunk(order, k, hashf);
      Neighbours(order, k);
      MoveEnds(del, k);
      UnlinkOrder(del, order, k);
      numItems := numItems - 1;
      order := Without(order, k);
    }

    /** The bucket part of HASH_DELETE. */
    method DropFromBkt(del: Handle, ghost all: set<Handle>)
      requires BucketsHold(all) && del in all && del.hashv == hashf(del.key)
      modifies this`chains, buckets, all`hhNext, all`hhPrev
      ensures BucketsHold(all - {del})
    {
      ToBktInRange(del.hashv, numBuckets, log2NumBuckets);
      var b := ToBkt(del.hashv, numBuckets);
      ghost var k :| 0 <= k < |chains[b]| && chains[b][k] == del;
      DropFromChains(buckets, b, del, hashf, chains, all, k);
      chains := chains[b := Without(chains[b], k)];
    }

    method DeleteOne(del: Handle, ghost k: nat)
      requires head != null && OrderOk() && BucketsHold(Elems(order)) && |order| > 1 && k < |order| && order[k] == del
      requires del.hashv == hashf(del.key)
      requires Elems(Without(order, k)) == Elems(order) - {del}
      modifies this, buckets, Elems(order)`next, Elems(order)`prev, Elems(order)`hhNext, Elems(order)`hhPrev
      ensures head != null && OrderOk() && BucketsHold(Elems(order))
      ensures order == Without(old(order), k) && buckets == old(buckets)
    {
      hide BucketHolds, Without, OrderLinked, KeysDistinct;
      ghost var all := Elems(order);
      Delist(del, k);
      DropFromBkt(del, all);
    }

    lemma DeleteFacts(k: nat)
      requires head != null && OrderOk() && k < |order|
      ensures order[k].hashv == hashf(order[k].key)
      ensures Elems(Without(order, k)) == Elems(order) - {order[k]}
      ensures order[k].prev == null && order[k].next == null <==> |order| == 1
    {
      ElemsOfWithout(order, k);
      assert order[k].prev == At(order, k - 1) && order[k].next == At(order, k + 1);
    }

    /** HASH_DELETE */
    method Delete(del: Handle, ghost k: nat)
      requires Valid() && k < |order| && order[k] == del
      modifies this, buckets, Elems(order)`next, Elems(order)`prev, Elems(order)`hhNext, Elems(order)`hhPrev
      ensures Valid() && order == Without(old(order), k) && buckets == old(buckets)
    {
      DeleteFacts(k);
      hide BucketHolds, Without, OrderLinked, KeysDistinct;
      if del.prev == null && del.next == null {
        head, order, chains := null, [], [];
      } else {
        DeleteOne(del, k);
      }
    }

    /** The end of HASH_SRT: the table points to the rearranged list. */
    method Relist(h: Handle, t: Handle, ghost s: seq<Handle>)
      requires head != null && numItems == |order| && BucketsHold(Elems(order))
      requires s != [] && Distinct(s) && OrderLinked(s) && KeysDistinct(s) && Hashed(s, hashf)
      requires h == s[0] && t == s[|s| - 1] && |s| == |order| && Elems(s) == Elems(order)
      modifies this`head, this`tail, this`order
      ensures Valid() && order == s
    {
      hide OrderLinked, KeysDistinct, Hashed, Partitioned, BucketHolds, Distinct;
      head, tail, order := h, t, s;
    }

    /** HASH_SRT on the table: only the insertion-order list is rearranged. */
    method Sort(cmp: (Key, Key) -> int)
      requires Valid() && |order| <= UNSIGNED_WRAP
      modifies this`head, this`tail, this`order, Elems(order)`next, Elems(order)`prev
      ensures Valid() && Elems(order) == Elems(old(order))
      ensures order == BottomUp(HandleLe(cmp), old(order), 1)
    {
      if head != null {
        var h, t;
        ghost var s;
        h, t, s := HashSrt(head, cmp, order);
        Rearranged(order, s, hashf);
        hide OrderLinked, KeysDistinct, Hashed, Partitioned, BucketHolds, Distinct, BottomUp;
        Relist(h, t, s);
      }
    }

    /** HASH_CLEAR */
    method Clear()
      requires Valid()
      modifies this`head, this`order, this`chains
      ensures Valid() && order == [] && head == null
    {
      head, order, chains := null, [], [];
    }
  }
}
