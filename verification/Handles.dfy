/** Elements of a uthash table as linked objects: the insertion-order list of uthash.h. */
module Handles {
  import opened Bits

  type Key = seq<byte>

  /** A `void *`: null or a payload. */
  datatype Payload = Null | Data(address: nat)

  /** An element together with its UT_hash_handle. */
  class Handle {
    const key: Key
    var data: Payload
    var ts: real
    var hashv: uint32
    var prev: Handle?
    var next: Handle?
    var hhPrev: Handle?
    var hhNext: Handle?

    constructor (key: Key, data: Payload, ts: real)
      ensures this.key == key && this.data == data && this.ts == ts
    {
      this.key, this.data, this.ts, this.hashv := key, data, ts, 0;
      prev, next, hhPrev, hhNext := null, null, null, null;
    }
  }

  // ---- Sequences of handles ----

  ghost predicate Distinct<T>(s: seq<T>) {
    forall i, j :: 0 <= i < j < |s| ==> s[i] != s[j]
  }

  /** The i-th handle, or null past either end. */
  ghost function At(s: seq<Handle>, i: int): Handle? {
    if 0 <= i < |s| then s[i] else null
  }

  ghost function Without<T>(s: seq<T>, k: nat): seq<T>
    requires k < |s|
  {
    s[..k] + s[k + 1..]
  }

  lemma WithoutFacts<T>(s: seq<T>, k: nat)
    requires k < |s| && Distinct(s)
    ensures Distinct(Without(s, k))
    ensures forall x :: x in Without(s, k) <==> x in s && x != s[k]
  {
    var w := Without(s, k);
    forall x | x in s && x != s[k] ensures x in w {
      var i :| 0 <= i < |s| && s[i] == x;
      assert w[if i < k then i else i - 1] == x;
    }
    forall x | x in w ensures x in s && x != s[k] {
      var i :| 0 <= i < |w| && w[i] == x;
      assert s[if i < k then i else i + 1] == x;
    }
  }

  /** `s` is linked through next and prev, from null to null. */
  ghost predicate OrderLinked(s: seq<Handle>)
    reads s`next, s`prev
  {
    && (forall i {:trigger s[i].next} :: 0 <= i < |s| ==> s[i].next == At(s, i + 1))
    && (forall i {:trigger s[i].prev} :: 0 <= i < |s| ==> s[i].prev == At(s, i - 1))
  }

  lemma Neighbours(s: seq<Handle>, k: nat)
    requires k < |s| && OrderLinked(s)
    ensures s[k].prev == At(s, k - 1) && s[k].next == At(s, k + 1)
  {
  }

  lemma OrderRelinked(s: seq<Handle>, k: nat)
    requires k < |s|
    requires forall i {:trigger s[i].next} ::
               0 <= i < |s| ==> s[i].next == if i == k - 1 then At(s, k + 1) else At(s, i + 1)
    requires forall i {:trigger s[i].prev} ::
               0 <= i < |s| ==> s[i].prev == if i == k + 1 then At(s, k - 1) else At(s, i - 1)
    ensures OrderLinked(Without(s, k))
  {
    var w := Without(s, k);
    forall i | 0 <= i < |w| ensures w[i].next == At(w, i + 1) && w[i].prev == At(w, i - 1) {
      assert w[i] == s[if i < k then i else i + 1];
    }
  }

  ghost function Elems<T>(s: seq<T>): set<T> {
    set x | x in s
  }

  lemma ElemsOfPrefix<T>(s: seq<T>, j: nat)
    requires j < |s|
    ensures Elems(s[..j + 1]) == Elems(s[..j]) + {s[j]}
  {
    assert s[..j + 1] == s[..j] + [s[j]];
  }

  lemma ElemsOfWithout<T>(s: seq<T>, k: nat)
    requires k < |s| && Distinct(s)
    ensures Elems(Without(s, k)) == Elems(s) - {s[k]}
  {
    WithoutFacts(s, k);
  }

  ghost predicate KeysDistinct(s: seq<Handle>) {
    forall i, j {:trigger s[i].key, s[j].key} :: 0 <= i < j < |s| ==> s[i].key != s[j].key
  }

  ghost predicate Hashed(s: seq<Handle>, hashf: Key -> uint32)
    reads s`hashv
  {
    forall i {:trigger s[i].hashv} :: 0 <= i < |s| ==> s[i].hashv == hashf(s[i].key)
  }

  lemma ListShrunk(s: seq<Handle>, k: nat, hashf: Key -> uint32)
    requires k < |s| && Distinct(s) && KeysDistinct(s) && Hashed(s, hashf)
    ensures Distinct(Without(s, k)) && KeysDistinct(Without(s, k)) && Hashed(Without(s, k), hashf)
  {
    var w := Without(s, k);
    forall i | 0 <= i < |w| ensures w[i] == s[if i < k then i else i + 1] {
    }
  }

  /** HASH_APPEND_LIST on the links alone. */
  method AppendLinks(tail: Handle, add: Handle, ghost s: seq<Handle>)
    requires s != [] && tail == s[|s| - 1] && add !in s && Distinct(s) && OrderLinked(s)
    modifies add`next, add`prev, tail`next
    ensures OrderLinked(s + [add])
  {
    add.next := null;
    add.prev := tail;
    tail.next := add;
    ghost var t := s + [add];
    assert forall i :: 0 <= i < |s| ==> t[i] == s[i];
    assert forall i :: 0 <= i < |s| ==> s[i].next == At(t, i + 1);
    assert forall i :: 0 <= i < |s| ==> s[i].prev == At(t, i - 1);
  }

  lemma ListGrown(s: seq<Handle>, add: Handle, hashf: Key -> uint32)
    requires add !in s && Distinct(s) && KeysDistinct(s) && Hashed(s, hashf) && add.hashv == hashf(add.key)
    requires forall i {:trigger s[i].key} :: 0 <= i < |s| ==> s[i].key != add.key
    ensures Distinct(s + [add]) && KeysDistinct(s + [add]) && Hashed(s + [add], hashf)
  {
  }

  /** The list patch-up of HASH_DELETE, apart from head and tail. */
  method UnlinkOrder(del: Handle, ghost s: seq<Handle>, ghost k: nat)
    requires k < |s| && s[k] == del && Distinct(s) && OrderLinked(s)
    modifies Elems(s)`next, Elems(s)`prev
    ensures OrderLinked(Without(s, k))
  {
    if del.prev != null {
      del.prev.next := del.next;
    }
    if del.next != null {
      del.next.prev := del.prev;
    }
    assert forall i {:trigger s[i].next} :: 0 <= i < |s| ==>
        s[i].next == if i == k - 1 then At(s, k + 1) else At(s, i + 1);
    assert forall i {:trigger s[i].prev} :: 0 <= i < |s| ==>
        s[i].prev == if i == k + 1 then At(s, k - 1) else At(s, i - 1);
    OrderRelinked(s, k);
  }

  lemma Rearranged(s: seq<Handle>, t: seq<Handle>, hashf: Key -> uint32)
    requires KeysDistinct(s) && Hashed(s, hashf) && Elems(t) == Elems(s) && Distinct(t)
    ensures KeysDistinct(t) && Hashed(t, hashf)
  {
    forall i | 0 <= i < |t| ensures t[i] in s {
      assert t[i] in Elems(t);
    }
  }
}
