/** The connection cache of cache.c, on top of the hash table. Time comes in as a parameter instead of ev_time(). */
module Cache {
  import opened Bits
  import opened Handles
  import opened Buckets
  import opened UtHash
  import opened Lru

  /** The items along the insertion-order list. */
  ghost function View(order: seq<Handle>): (r: seq<Item>)
    reads order`data, order`ts
    ensures |r| == |order|
    ensures forall i :: 0 <= i < |r| ==> r[i] == Item(order[i].key, order[i].data, order[i].ts)
  {
    if order == [] then []
    else
      var e := order[|order| - 1];
      View(order[..|order| - 1]) + [Item(e.key, e.data, e.ts)]
  }

  lemma ViewOfWithout(order: seq<Handle>, k: nat)
    requires k < |order|
    ensures View(Without(order, k)) == Drop(View(order), k)
  {
  }

  lemma IndexInView(order: seq<Handle>, k: nat)
    requires k < |order| && KeysDistinct(order)
    ensures Index(View(order), order[k].key) == k
  {
    assert View(order)[k].key == order[k].key;
    var i := Index(View(order), order[k].key);
    assert i < |order| ==> View(order)[i].key == order[i].key;
  }

  lemma DropLacksKey(order: seq<Handle>, k: nat)
    requires k < |order| && KeysDistinct(order)
    ensures !Has(Drop(View(order), k), order[k].key)
  {
    var d := Drop(View(order), k);
    forall i | 0 <= i < |d| ensures d[i].key != order[k].key {
      assert d[i].key == order[if i < k then i else i + 1].key;
    }
  }

  lemma NotInView(order: seq<Handle>, key: Key)
    requires forall i {:trigger order[i].key} :: 0 <= i < |order| ==> order[i].key != key
    ensures Index(View(order), key) == |order|
  {
    forall i | 0 <= i < |order| ensures View(order)[i].key != key {
      assert order[i].key != key;
    }
  }

  lemma AbsentKey(order: seq<Handle>, key: Key)
    requires Index(View(order), key) == |order|
    ensures forall i {:trigger order[i].key} :: 0 <= i < |order| ==> order[i].key != key
  {
    assert forall i {:trigger order[i].key} :: 0 <= i < |order| ==> View(order)[i].key == order[i].key;
  }

  class Cache {
    const maxEntries: nat
    const entries: HashTable
    // the payloads given to free_cb or ss_free, in order
    var released: seq<Payload>

    ghost function Repr(): set<object>
      reads entries
    {
      {this, entries, entries.buckets} + Elems(entries.order)
    }

    ghost predicate Valid()
      reads entries, entries.buckets, entries.order, Members(entries.chains)
    {
      entries.Valid()
    }

    ghost function Contents(): Lru.State
      reads this`released, entries`order, entries.order`data, entries.order`ts
    {
      State(View(entries.order), released)
    }

    /** cache_create */
    constructor (capacity: nat, hashf: Key -> uint32)
      ensures Valid() && fresh(Repr()) && maxEntries == capacity && Contents() == State([], [])
    {
      maxEntries := capacity;
      entries := new HashTable(hashf);
      released := [];
    }

    /** Hands a payload back, to free_cb or ss_free, unless it is null. */
    method Release(data: Payload)
      modifies this`released
      ensures released == old(released) + (if data == Null then [] else [data])
    {
      if data != Null {
        released := released + [data];
      }
    }

    /** HASH_DELETE on the table of the cache. */
    method Unhook(entry: Handle, ghost k: nat)
      requires Valid() && k < |entries.order| && entries.order[k] == entry
      modifies entries, entries.buckets, Elems(entries.order)`next, Elems(entries.order)`prev
      modifies Elems(entries.order)`hhNext, Elems(entries.order)`hhPrev
      ensures Valid() && entries.order == Without(old(entries.order), k) && entries.buckets == old(entries.buckets)
      ensures Contents().items == Drop(old(Contents().items), k)
    {
      hide OrderLinked, KeysDistinct, Hashed, Partitioned, Distinct, BucketHolds, View, Drop;
      ViewOfWithout(entries.order, k);
      entries.Delete(entry, k);
    }

    /** Unlinks the k-th entry and hands its payload back. */
    method Discard(entry: Handle, ghost k: nat)
      requires Valid() && k < |entries.order| && entries.order[k] == entry
      modifies Repr()
      ensures Valid() && entries.order == Without(old(entries.order), k) && entries.buckets == old(entries.buckets)
      ensures Contents() == State(Drop(old(Contents().items), k), old(released) + Owned(old(Contents().items)[k]))
    {
      hide OrderLinked, KeysDistinct, Hashed, Partitioned, Distinct, BucketHolds, Without, View, Drop;
      Unhook(entry, k);
      Release(entry.data);
    }

    /** HASH_COUNT */
    method Count() returns (n: nat)
      requires Valid()
      ensures n == |entries.order|
    {
      n := if entries.head != null then entries.numItems else 0;
    }

    /** HASH_ADD_KEYPTR on the table of the cache. */
    method Enter(entry: Handle)
      requires Valid() && entry !in entries.order && !Has(Contents().items, entry.key)
      modifies entries, entries.buckets, entry, Elems(entries.order)
      ensures Valid() && entries.head != null && entries.order == old(entries.order) + [entry]
      ensures entries.buckets == old(entries.buckets) || fresh(entries.buckets)
      ensures Contents() == State(old(Contents().items) + [Item(entry.key, old(entry.data), old(entry.ts))], released)
      ensures entry.data == old(entry.data)
    {
      hide OrderLinked, KeysDistinct, Hashed, Partitioned, Distinct, ChainLinked;
      AbsentKey(entries.order, entry.key);
      entries.Add(entry);
    }

    /** The end of cache_insert: a full cache gives up its oldest entry. */
    method EvictOldest()
      requires Valid() && entries.head != null
      modifies Repr()
      ensures Valid() && Repr() <= old(Repr())
      ensures Contents() == Evict(maxEntries, old(Contents()))
    {
      hide OrderLinked, KeysDistinct, Hashed, Partitioned, Distinct, ChainLinked;
      var n := Count();
      if n >= maxEntries {
        Discard(entries.head, 0);
      }
    }

    /** Creates an entry and adds it to the table. */
    method EnterNew(key: Key, data: Payload, now: real)
      requires Valid() && !Has(Contents().items, key)
      modifies entries, entries.buckets, Elems(entries.order)
      ensures Valid() && fresh(Repr() - old(Repr())) && entries.head != null
      ensures Contents() == State(old(Contents().items) + [Item(key, data, now)], released)
    {
      hide OrderLinked, KeysDistinct, Hashed, Partitioned, Distinct, ChainLinked;
      var entry := new Handle(key, data, now);
      Enter(entry);
    }

    /** cache_insert, for a key that is not cached */
    method Insert(key: Key, data: Payload, now: real)
      requires Valid() && !Has(Contents().items, key)
      modifies Repr()
      ensures Valid() && fresh(Repr() - old(Repr()))
      ensures Contents() == Step(maxEntries, old(Contents()), Lru.Insert(key, data, now))
    {
      hide OrderLinked, KeysDistinct, Hashed, Partitioned, Distinct, ChainLinked, View, Elems;
      EnterNew(key, data, now);
      EvictOldest();
    }

    /** Where a found entry is, and what its removal leaves. */
    lemma Locate(h: Handle) returns (k: nat)
      requires Valid() && h in entries.order
      ensures k < |entries.order| && entries.order[k] == h && Index(Contents().items, h.key) == k
      ensures h !in Without(entries.order, k) && !Has(Drop(Contents().items, k), h.key)
      ensures Contents().items[k].data == h.data
    {
      hide OrderLinked, Hashed, Partitioned, Chained, Distinct, KeysDistinct, Drop;
      k :| 0 <= k < |entries.order| && entries.order[k] == h;
      IndexInView(entries.order, k);
      WithoutFacts(entries.order, k);
      DropLacksKey(entries.order, k);
    }

    /** Takes a found entry out of the table and sets its time. */
    method Detach(tmp: Handle, now: real, ghost k: nat)
      requires Valid() && k < |entries.order| && entries.order[k] == tmp && tmp !in Without(entries.order, k)
      modifies entries, entries.buckets, Elems(entries.order)
      ensures Valid() && entries.order == Without(old(entries.order), k) && entries.buckets == old(entries.buckets)
      ensures Contents().items == Drop(old(Contents().items), k) && tmp.ts == now && tmp.data == old(tmp.data)
    {
      hide OrderLinked, KeysDistinct, Hashed, Partitioned, Distinct, BucketHolds, Without, Drop;
      Unhook(tmp, k);
      tmp.ts := now;
    }

    /** Takes a found entry out and adds it again at the end, with a new time. */
    method MoveToEnd(tmp: Handle, now: real, ghost k: nat)
      requires Valid() && k < |entries.order| && entries.order[k] == tmp
      requires tmp !in Without(entries.order, k) && !Has(Drop(Contents().items, k), tmp.key)
      modifies entries, entries.buckets, Elems(entries.order)
      ensures Valid() && fresh(Repr() - old(Repr())) && tmp.data == old(tmp.data)
      ensures Contents().items == Drop(old(Contents().items), k) + [old(Contents().items)[k].(ts := now)]
    {
      hide OrderLinked, KeysDistinct, Hashed, Partitioned, Distinct, ChainLinked;
      WithoutShrinks(entries.order, k);
      Detach(tmp, now, k);
      Enter(tmp);
    }

    /** The common part of cache_lookup and cache_key_exist: a hit moves the entry to the end with a new time. */
    method Refresh(key: Key, now: real) returns (tmp: Handle?)
      requires Valid()
      modifies Repr()
      ensures Valid() && fresh(Repr() - old(Repr())) && released == old(released)
      ensures Contents().items == Touch(old(Contents().items), key, now)
      ensures (tmp != null) == Has(old(Contents().items), key)
      ensures tmp != null ==> tmp.data == Found(old(Contents().items), key)
    {
      hide OrderLinked, KeysDistinct, Hashed, Partitioned, Distinct, ChainLinked, View, Drop, Without;
      tmp := entries.Find(key);
      if tmp != null {
        ghost var k := Locate(tmp);
        MoveToEnd(tmp, now, k);
      } else {
        NotInView(entries.order, key);
      }
    }

    /** cache_lookup */
    method Lookup(key: Key, now: real) returns (result: Payload)
      requires Valid()
      modifies Repr()
      ensures Valid() && fresh(Repr() - old(Repr()))
      ensures Contents() == Step(maxEntries, old(Contents()), Lru.Lookup(key, now))
      ensures result == Found(old(Contents().items), key)
    {
      hide OrderLinked, KeysDistinct, Hashed, Partitioned, Distinct, ChainLinked;
      var tmp := Refresh(key, now);
      result := if tmp != null then tmp.data else Null;
    }

    /** cache_key_exist */
    method KeyExist(key: Key, now: real) returns (found: bool)
      requires Valid()
      modifies Repr()
      ensures Valid() && fresh(Repr() - old(Repr()))
      ensures Contents() == Step(maxEntries, old(Contents()), Lru.Lookup(key, now))
      ensures found == Has(old(Contents().items), key)
    {
      hide OrderLinked, KeysDistinct, Hashed, Partitioned, Distinct, ChainLinked;
      var tmp := Refresh(key, now);
      found := tmp != null;
    }

    /** cache_remove */
    method Remove(key: Key, ghost now: real)
      requires Valid()
      modifies Repr()
      ensures Valid() && Repr() <= old(Repr())
      ensures Contents() == Step(maxEntries, old(Contents()), Lru.Remove(key, now))
    {
      hide OrderLinked, KeysDistinct, Hashed, Partitioned, Distinct, ChainLinked, View, Drop, Without;
      var tmp := entries.Find(key);
      if tmp != null {
        ghost var k := Locate(tmp);
        Discard(tmp, k);
        WithoutShrinks(old(entries.order), k);
      } else {
        NotInView(entries.order, key);
      }
    }

    /** The next element of HASH_ITER, read before the loop body runs. */
    method Next(entry: Handle, ghost k: nat) returns (tmp: Handle?)
      requires Valid() && k < |entries.order| && entries.order[k] == entry
      ensures tmp == At(entries.order, k + 1)
    {
      tmp := entry.next;
    }

    /** The body of the loop of cache_clear: `n` of the items `v` are behind, `k` of them were kept. */
    method ClearOne(entry: Handle, age: real, now: real,
                    ghost k: nat, ghost v: seq<Item>, ghost n: nat, ghost released0: seq<Payload>)
      returns (tmp: Handle?, ghost k': nat)
      requires Valid() && k < |entries.order| && entries.order[k] == entry
      requires n < |v| && k == |Fresh(v[..n], age, now)| && Contents() == ClearedTo(v, n, age, now, released0)
      modifies Repr()
      ensures Valid() && Repr() <= old(Repr()) && tmp == At(entries.order, k')
      ensures k' == |Fresh(v[..n + 1], age, now)| && Contents() == ClearedTo(v, n + 1, age, now, released0)
      ensures k' - |entries.order| == k - old(|entries.order|) + 1
    {
      hide OrderLinked, KeysDistinct, Hashed, Partitioned, Distinct, BucketHolds, View, Drop, ClearedTo;
      ClearStep(v, n, age, now, released0);
      tmp := Next(entry, k);
      k' := k + 1;
      if now - entry.ts > age {
        WithoutShrinks(entries.order, k);
        Discard(entry, k);
        k' := k;
      }
    }

    /** The loop of cache_clear. */
    method ClearAll(age: real, now: real, ghost v: seq<Item>, ghost released0: seq<Payload>)
      requires Valid() && v == Contents().items && Contents() == ClearedTo(v, 0, age, now, released0)
      modifies Repr()
      ensures Valid() && Repr() <= old(Repr()) && Contents() == ClearedTo(v, |v|, age, now, released0)
    {
      hide OrderLinked, KeysDistinct, Hashed, Partitioned, Distinct, ChainLinked, ClearedTo;
      ghost var n, k := 0, 0;
      var entry := entries.head;
      while entry != null
        invariant Valid() && Repr() <= old(Repr())
        invariant n <= |v| && k == |Fresh(v[..n], age, now)| && entry == At(entries.order, k)
        invariant |entries.order| - k == |v| - n
        invariant Contents() == ClearedTo(v, n, age, now, released0)
        decreases |v| - n
      {
        entry, k := ClearOne(entry, age, now, k, v, n, released0);
        n := n + 1;
      }
    }

    /** cache_clear */
    method Clear(age: real, now: real)
      requires Valid()
      modifies Repr()
      ensures Valid() && Repr() <= old(Repr())
      ensures Contents() == Step(maxEntries, old(Contents()), Lru.Clear(age, now))
    {
      hide OrderLinked, KeysDistinct, Hashed, Partitioned, Distinct, BucketHolds, View, ClearedTo;
      ClearedAll(Contents().items, age, now, released);
      ClearAll(age, now, Contents().items, released);
    }

    /** The body of the loop of cache_delete. */
    method DeleteFirst(entry: Handle, ghost v: seq<Item>, ghost n: nat, ghost released0: seq<Payload>)
      returns (tmp: Handle?)
      requires Valid() && 0 < |entries.order| && entries.order[0] == entry
      requires n < |v| && Contents() == DeletedTo(v, n, released0)
      modifies Repr()
      ensures Valid() && Repr() <= old(Repr()) && tmp == At(entries.order, 0)
      ensures Contents() == DeletedTo(v, n + 1, released0)
    {
      hide OrderLinked, KeysDistinct, Hashed, Partitioned, Distinct, ChainLinked, DeletedTo, Drop;
      DeleteStep(v, n, released0);
      tmp := Next(entry, 0);
      WithoutShrinks(entries.order, 0);
      Discard(entry, 0);
    }

    /** cache_delete: empties the table, and unless the data is kept releases every payload. */
    method Delete(keepData: bool)
      requires Valid()
      modifies Repr()
      ensures Valid() && Repr() <= old(Repr()) && Contents().items == []
      ensures released == if keepData then old(released) else old(released) + AllOwned(old(Contents().items))
    {
      hide OrderLinked, KeysDistinct, Hashed, Partitioned, Distinct, ChainLinked;
      if keepData {
        entries.Clear();
        return;
      }
      ghost var v := Contents().items;
      ghost var n := 0;
      assert v[0..] == v && released + AllOwned(v[..0]) == released;
      var entry := entries.head;
      while entry != null
        invariant Valid() && Repr() <= old(Repr())
        invariant n <= |v| && entry == At(entries.order, 0)
        invariant Contents() == DeletedTo(v, n, old(released))
        decreases |v| - n
      {
        entry := DeleteFirst(entry, v, n, old(released));
        n := n + 1;
      }
      assert v[..n] == v;
    }

    /** Any run of calls on a new cache has the effect that the list model gives it. */
    method Execute(ops: seq<Op>)
      requires Valid() && Contents() == State([], []) && Legal(maxEntries, ops)
      modifies Repr()
      ensures Valid() && fresh(Repr() - old(Repr()))
      ensures Contents() == Run(maxEntries, ops)
    {
      hide OrderLinked, KeysDistinct, Hashed, Partitioned, Distinct, ChainLinked, Step;
      assert ops[..0] == [];
      for n := 0 to |ops|
        invariant Valid() && fresh(Repr() - old(Repr()))
        invariant Contents() == Run(maxEntries, ops[..n])
      {
        assert ops[..n + 1][..n] == ops[..n];
        Perform(ops[n]);
      }
      assert ops[..|ops|] == ops;
    }

    method Perform(op: Op)
      requires Valid() && (op.Insert? ==> !Has(Contents().items, op.key))
      modifies Repr()
      ensures Valid() && fresh(Repr() - old(Repr()))
      ensures Contents() == Step(maxEntries, old(Contents()), op)
    {
      hide OrderLinked, KeysDistinct, Hashed, Partitioned, Distinct, ChainLinked, Step;
      match op
      case Insert(key, data, now) => Insert(key, data, now);
      case Lookup(key, now) => var _ := Lookup(key, now);
      case Remove(key, now) => Remove(key, now);
      case Clear(age, now) => Clear(age, now);
    }
  }

  lemma WithoutShrinks(s: seq<Handle>, k: nat)
    requires k < |s|
    ensures Elems(Without(s, k)) <= Elems(s)
  {
  }
}
