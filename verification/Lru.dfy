/** What the cache of cache.c promises, as a plain list ordered from least to most recently touched. */
module Lru {
  import opened Handles
  import opened Sequences

  datatype Item = Item(key: Key, data: Payload, ts: real)

  /** The cached items, oldest first, and the non-null payloads handed back so far. */
  datatype State = State(items: seq<Item>, released: seq<Payload>)

  /** One call of the cache, with the time that ev_time() answers during the call. */
  datatype Op =
    | Insert(key: Key, data: Payload, now: real)
    | Lookup(key: Key, now: real)
    | Remove(key: Key, now: real)
    | Clear(age: real, now: real)

  // ---- Lists of items ----

  /** The position of `key`, or the length of the list. */
  function Index(items: seq<Item>, key: Key): (i: nat)
    ensures i <= |items|
    ensures i < |items| ==> items[i].key == key
    ensures forall j :: 0 <= j < i ==> items[j].key != key
  {
    if items == [] || items[0].key == key then 0 else 1 + Index(items[1..], key)
  }

  predicate Has(items: seq<Item>, key: Key) {
    Index(items, key) < |items|
  }

  function Drop<T>(s: seq<T>, k: nat): (r: seq<T>)
    requires k < |s|
    ensures |r| == |s| - 1
    ensures forall i :: 0 <= i < k ==> r[i] == s[i]
    ensures forall i :: k <= i < |r| ==> r[i] == s[i + 1]
  {
    s[..k] + s[k + 1..]
  }

  /** The payload of `item`, when there is one to hand back. */
  function Owned(item: Item): seq<Payload> {
    if item.data == Null then [] else [item.data]
  }

  function AllOwned(items: seq<Item>): seq<Payload> {
    if items == [] then [] else Owned(items[0]) + AllOwned(items[1..])
  }

  predicate Expired(item: Item, age: real, now: real) {
    now - item.ts > age
  }

  function Fresh(items: seq<Item>, age: real, now: real): seq<Item> {
    if items == [] then []
    else (if Expired(items[0], age, now) then [] else [items[0]]) + Fresh(items[1..], age, now)
  }

  function Stale(items: seq<Item>, age: real, now: real): seq<Item> {
    if items == [] then []
    else (if Expired(items[0], age, now) then [items[0]] else []) + Stale(items[1..], age, now)
  }

  // ---- The calls ----

  function Touch(items: seq<Item>, key: Key, now: real): seq<Item> {
    var i := Index(items, key);
    if i < |items| then Drop(items, i) + [items[i].(ts := now)] else items
  }

  function Found(items: seq<Item>, key: Key): Payload {
    var i := Index(items, key);
    if i < |items| then items[i].data else Null
  }

  function Evict(max: nat, s: State): State {
    if |s.items| >= max && s.items != [] then State(s.items[1..], s.released + Owned(s.items[0])) else s
  }

  function Step(max: nat, s: State, op: Op): State {
    match op
    case Insert(key, data, now) => Evict(max, s.(items := s.items + [Item(key, data, now)]))
    case Lookup(key, now) => s.(items := Touch(s.items, key, now))
    case Remove(key, _) =>
      var i := Index(s.items, key);
      if i < |s.items| then State(Drop(s.items, i), s.released + Owned(s.items[i])) else s
    case Clear(age, now) =>
      State(Fresh(s.items, age, now), s.released + AllOwned(Stale(s.items, age, now)))
  }

  /** The state after a run of calls on a new cache. */
  function Run(max: nat, ops: seq<Op>): State {
    if ops == [] then State([], [])
    else Step(max, Run(max, ops[..|ops| - 1]), ops[|ops| - 1])
  }

  /** Every caller looks a key up before it inserts it. */
  ghost predicate Legal(max: nat, ops: seq<Op>) {
    forall i {:trigger ops[i]} :: 0 <= i < |ops| && ops[i].Insert? ==> !Has(Run(max, ops[..i]).items, ops[i].key)
  }

  lemma LegalPrefix(max: nat, ops: seq<Op>)
    requires ops != [] && Legal(max, ops)
    ensures Legal(max, ops[..|ops| - 1])
  {
    var p := ops[..|ops| - 1];
    forall i | 0 <= i < |p| && p[i].Insert? ensures !Has(Run(max, p[..i]).items, p[i].key) {
      assert p[i] == ops[i] && p[..i] == ops[..i];
    }
  }

  // ---- Every key is cached at most once ----

  ghost predicate KeysOnce(items: seq<Item>) {
    forall i, j :: 0 <= i < j < |items| ==> items[i].key != items[j].key
  }

  lemma {:induction false} FreshIsSubsequence(items: seq<Item>, age: real, now: real)
    ensures |Fresh(items, age, now)| <= |items|
    ensures forall x :: x in Fresh(items, age, now) <==> x in items && !Expired(x, age, now)
    ensures KeysOnce(items) ==> KeysOnce(Fresh(items, age, now))
  {
    if items != [] {
      FreshIsSubsequence(items[1..], age, now);
      var f := Fresh(items[1..], age, now);
      if KeysOnce(items) {
        forall j | 0 <= j < |f| ensures f[j].key != items[0].key {
          assert f[j] in items[1..];
        }
      }
      assert items == [items[0]] + items[1..];
    }
  }

  lemma KeysOnceTouch(items: seq<Item>, key: Key, now: real)
    requires KeysOnce(items)
    ensures KeysOnce(Touch(items, key, now)) && |Touch(items, key, now)| == |items|
  {
  }

  lemma KeysOnceStep(max: nat, s: State, op: Op)
    requires KeysOnce(s.items) && (op.Insert? ==> !Has(s.items, op.key))
    ensures KeysOnce(Step(max, s, op).items)
  {
    match op
    case Insert(key, data, now) =>
    case Lookup(key, now) => KeysOnceTouch(s.items, key, now);
    case Remove(key, _) =>
    case Clear(age, now) => FreshIsSubsequence(s.items, age, now);
  }

  lemma {:induction false} KeysOnceRun(max: nat, ops: seq<Op>)
    requires Legal(max, ops)
    ensures KeysOnce(Run(max, ops).items)
  {
    if ops != [] {
      LegalPrefix(max, ops);
      KeysOnceRun(max, ops[..|ops| - 1]);
      KeysOnceStep(max, Run(max, ops[..|ops| - 1]), ops[|ops| - 1]);
    }
  }

  // ---- The cache never fills its capacity ----

  /** After every call a cache of capacity c holds at most c - 1 items. */
  lemma {:induction false} Bounded(max: nat, ops: seq<Op>)
    ensures |Run(max, ops).items| <= if max == 0 then 0 else max - 1
  {
    if ops != [] {
      var s, op := Run(max, ops[..|ops| - 1]), ops[|ops| - 1];
      Bounded(max, ops[..|ops| - 1]);
      if op.Clear? {
        FreshIsSubsequence(s.items, op.age, op.now);
      }
    }
  }

  // ---- The list is ordered by time, so clearing drops a prefix ----

  ghost predicate ByTime(items: seq<Item>) {
    forall i, j :: 0 <= i < j < |items| ==> items[i].ts <= items[j].ts
  }

  ghost predicate Clocked(ops: seq<Op>) {
    forall i, j :: 0 <= i < j < |ops| ==> ops[i].now <= ops[j].now
  }

  ghost predicate Between(items: seq<Item>, from: real, to: real) {
    forall i :: 0 <= i < |items| ==> from <= items[i].ts <= to
  }

  lemma {:induction false} ByTimeFresh(items: seq<Item>, age: real, now: real, from: real, to: real)
    requires ByTime(items) && Between(items, from, to)
    ensures ByTime(Fresh(items, age, now)) && Between(Fresh(items, age, now), from, to)
  {
    if items != [] {
      ByTimeFresh(items[1..], age, now, items[0].ts, to);
    }
  }

  lemma ByTimeTouch(items: seq<Item>, key: Key, now: real)
    requires ByTime(items) && forall i :: 0 <= i < |items| ==> items[i].ts <= now
    ensures ByTime(Touch(items, key, now))
    ensures forall i :: 0 <= i < |Touch(items, key, now)| ==> Touch(items, key, now)[i].ts <= now
  {
  }

  lemma ByTimeStep(max: nat, s: State, op: Op)
    requires ByTime(s.items) && forall i :: 0 <= i < |s.items| ==> s.items[i].ts <= op.now
    ensures ByTime(Step(max, s, op).items)
    ensures forall i :: 0 <= i < |Step(max, s, op).items| ==> Step(max, s, op).items[i].ts <= op.now
  {
    match op
    case Insert(key, data, now) =>
    case Lookup(key, now) => ByTimeTouch(s.items, key, now);
    case Remove(key, _) =>
    case Clear(age, now) =>
      ByTimeFresh(s.items, age, now, if s.items == [] then 0.0 else s.items[0].ts, now);
  }

  /** With a clock that does not go back, the list is sorted by timestamp after every call. */
  lemma {:induction false} ByTimeRun(max: nat, ops: seq<Op>)
    requires Clocked(ops)
    ensures ByTime(Run(max, ops).items)
    ensures forall i :: 0 <= i < |Run(max, ops).items| ==> ops != [] && Run(max, ops).items[i].ts <= ops[|ops| - 1].now
  {
    if ops != [] {
      ByTimeRun(max, ops[..|ops| - 1]);
      ByTimeStep(max, Run(max, ops[..|ops| - 1]), ops[|ops| - 1]);
    }
  }

  lemma {:induction false} FreshOfConcat(a: seq<Item>, b: seq<Item>, age: real, now: real)
    ensures Fresh(a + b, age, now) == Fresh(a, age, now) + Fresh(b, age, now)
  {
    if a == [] {
      assert a + b == b;
    } else {
      assert (a + b)[1..] == a[1..] + b;
      FreshOfConcat(a[1..], b, age, now);
      Associate(if Expired(a[0], age, now) then [] else [a[0]], Fresh(a[1..], age, now), Fresh(b, age, now));
    }
  }

  lemma {:induction false} StaleOfConcat(a: seq<Item>, b: seq<Item>, age: real, now: real)
    ensures Stale(a + b, age, now) == Stale(a, age, now) + Stale(b, age, now)
  {
    if a == [] {
      assert a + b == b;
    } else {
      assert (a + b)[1..] == a[1..] + b;
      StaleOfConcat(a[1..], b, age, now);
      Associate(if Expired(a[0], age, now) then [a[0]] else [], Stale(a[1..], age, now), Stale(b, age, now));
    }
  }

  lemma {:induction false} AllOwnedConcat(a: seq<Item>, b: seq<Item>)
    ensures AllOwned(a + b) == AllOwned(a) + AllOwned(b)
  {
    if a == [] {
      assert a + b == b;
    } else {
      assert (a + b)[1..] == a[1..] + b;
      AllOwnedConcat(a[1..], b);
    }
  }

  /** The state when the loop of cache_clear has seen the first `n` of the items `v`. */
  ghost function ClearedTo(v: seq<Item>, n: nat, age: real, now: real, released: seq<Payload>): State
    requires n <= |v|
  {
    State(Fresh(v[..n], age, now) + v[n..], released + AllOwned(Stale(v[..n], age, now)))
  }

  lemma OneItem(x: Item, age: real, now: real)
    ensures Fresh([x], age, now) == if Expired(x, age, now) then [] else [x]
    ensures Stale([x], age, now) == if Expired(x, age, now) then [x] else []
    ensures AllOwned([x]) == Owned(x)
  {
    assert [x][1..] == [];
    assert [x] + [] == [x];
    assert Owned(x) + [] == Owned(x);
  }

  /** One more item seen by the loop of cache_clear. */
  lemma ClearStep(v: seq<Item>, n: nat, age: real, now: real, released: seq<Payload>)
    requires n < |v|
    ensures var k, before, after := |Fresh(v[..n], age, now)|,
                                    ClearedTo(v, n, age, now, released), ClearedTo(v, n + 1, age, now, released);
            && k < |before.items| && before.items[k] == v[n]
            && (if Expired(v[n], age, now) then
                  && after == State(Drop(before.items, k), before.released + Owned(v[n]))
                  && |Fresh(v[..n + 1], age, now)| == k
                else
                  after == before && |Fresh(v[..n + 1], age, now)| == k + 1)
  {
    var f, g := Fresh(v[..n], age, now), Stale(v[..n], age, now);
    assert v[..n + 1] == v[..n] + [v[n]];
    FreshOfConcat(v[..n], [v[n]], age, now);
    StaleOfConcat(v[..n], [v[n]], age, now);
    OneItem(v[n], age, now);
    KeepOrDrop(f, v, n);
    if Expired(v[n], age, now) {
      AllOwnedConcat(g, [v[n]]);
      Associate(released, AllOwned(g), Owned(v[n]));
      assert f + [] == f;
    } else {
      assert g + [] == g;
    }
  }

  lemma KeepOrDrop(f: seq<Item>, v: seq<Item>, n: nat)
    requires n < |v|
    ensures (f + v[n..])[|f|] == v[n] && Drop(f + v[n..], |f|) == (f + []) + v[n + 1..]
    ensures (f + [v[n]]) + v[n + 1..] == f + v[n..]
  {
  }

  lemma ClearedAll(v: seq<Item>, age: real, now: real, released: seq<Payload>)
    ensures ClearedTo(v, 0, age, now, released) == State(v, released)
    ensures ClearedTo(v, |v|, age, now, released) == State(Fresh(v, age, now), released + AllOwned(Stale(v, age, now)))
  {
    assert v[..0] == [] && v[0..] == v && v[..|v|] == v && v[|v|..] == [];
    assert [] + v == v && released + [] == released;
    assert Fresh(v, age, now) + [] == Fresh(v, age, now);
  }

  /** The state when the loop of cache_delete has released the first `n` of the items `v`. */
  ghost function DeletedTo(v: seq<Item>, n: nat, released: seq<Payload>): State
    requires n <= |v|
  {
    State(v[n..], released + AllOwned(v[..n]))
  }

  lemma DeleteStep(v: seq<Item>, n: nat, released: seq<Payload>)
    requires n < |v|
    ensures var before := DeletedTo(v, n, released);
            && |before.items| > 0 && before.items[0] == v[n]
            && DeletedTo(v, n + 1, released) == State(Drop(before.items, 0), before.released + Owned(v[n]))
  {
    assert v[..n + 1] == v[..n] + [v[n]];
    AllOwnedConcat(v[..n], [v[n]]);
    OneItem(v[n], 0.0, 0.0);
    assert Drop(v[n..], 0) == v[n + 1..];
    assert released + (AllOwned(v[..n]) + Owned(v[n])) == (released + AllOwned(v[..n])) + Owned(v[n]);
  }

  lemma {:induction false} NothingExpired(items: seq<Item>, age: real, now: real)
    requires forall i :: 0 <= i < |items| ==> !Expired(items[i], age, now)
    ensures Fresh(items, age, now) == items && Stale(items, age, now) == []
  {
    if items != [] {
      NothingExpired(items[1..], age, now);
      assert [items[0]] + items[1..] == items;
    }
  }

  /** How many items at the front have expired. */
  function ExpiredPrefix(items: seq<Item>, age: real, now: real): (k: nat)
    ensures k <= |items|
  {
    if items == [] || !Expired(items[0], age, now) then 0 else 1 + ExpiredPrefix(items[1..], age, now)
  }

  /** On a list sorted by time, cache_clear removes exactly a prefix: the expired items. */
  lemma {:induction false} ClearDropsPrefix(items: seq<Item>, age: real, now: real)
    requires ByTime(items)
    ensures Fresh(items, age, now) == items[ExpiredPrefix(items, age, now)..]
    ensures Stale(items, age, now) == items[..ExpiredPrefix(items, age, now)]
    ensures forall i :: 0 <= i < |items| ==> (now - items[i].ts > age <==> i < ExpiredPrefix(items, age, now))
  {
    if items == [] {
    } else if Expired(items[0], age, now) {
      var k := ExpiredPrefix(items[1..], age, now);
      ClearDropsPrefix(items[1..], age, now);
      assert [items[0]] + items[1..][..k] == items[..k + 1];
      assert items[1..][k..] == items[k + 1..];
      forall i | 0 <= i < |items| ensures now - items[i].ts > age <==> i < k + 1 {
        assert i > 0 ==> items[i] == items[1..][i - 1];
      }
    } else {
      forall i | 0 <= i < |items| ensures !Expired(items[i], age, now) {
        assert i > 0 ==> items[0].ts <= items[i].ts;
      }
      NothingExpired(items, age, now);
    }
  }

  // ---- Least recently used ----

  /** The number of the last call that inserted or looked up `key`, counted from 1; 0 when there is none. */
  function LastTouch(ops: seq<Op>, key: Key): (n: nat)
    ensures n <= |ops|
  {
    if ops == [] then 0
    else
      var op := ops[|ops| - 1];
      if (op.Insert? || op.Lookup?) && op.key == key then |ops| else LastTouch(ops[..|ops| - 1], key)
  }

  /** Strictly ordered by the call that touched the key last. */
  ghost predicate ByRecency(items: seq<Item>, ops: seq<Op>) {
    forall i, j :: 0 <= i < j < |items| ==> LastTouch(ops, items[i].key) < LastTouch(ops, items[j].key)
  }

  lemma {:induction false} ByRecencyFresh(items: seq<Item>, age: real, now: real, ops: seq<Op>)
    requires ByRecency(items, ops)
    ensures ByRecency(Fresh(items, age, now), ops)
  {
    if items != [] {
      ByRecencyFresh(items[1..], age, now, ops);
      FreshIsSubsequence(items[1..], age, now);
      var f := Fresh(items[1..], age, now);
      forall j | 0 <= j < |f| ensures LastTouch(ops, items[0].key) < LastTouch(ops, f[j].key) {
        assert f[j] in items[1..];
      }
    }
  }

  lemma TouchesOthers(ops: seq<Op>, key: Key)
    requires ops != []
    ensures var op := ops[|ops| - 1];
            LastTouch(ops, key) == if (op.Insert? || op.Lookup?) && op.key == key then |ops|
                                   else LastTouch(ops[..|ops| - 1], key)
  {
  }

  lemma RecencyStep(items: seq<Item>, ops: seq<Op>)
    requires ops != [] && ByRecency(items, ops[..|ops| - 1])
    requires var op := ops[|ops| - 1];
             (op.Insert? || op.Lookup?) ==> forall x :: x in items ==> x.key != op.key
    ensures ByRecency(items, ops)
  {
    forall i, j | 0 <= i < j < |items|
      ensures LastTouch(ops, items[i].key) < LastTouch(ops, items[j].key)
    {
      assert items[i] in items && items[j] in items;
      TouchesOthers(ops, items[i].key);
      TouchesOthers(ops, items[j].key);
    }
  }

  lemma RecencyAppend(items: seq<Item>, x: Item, ops: seq<Op>)
    requires ops != [] && ByRecency(items, ops[..|ops| - 1]) && forall y :: y in items ==> y.key != x.key
    requires (ops[|ops| - 1].Insert? || ops[|ops| - 1].Lookup?) && ops[|ops| - 1].key == x.key
    ensures ByRecency(items + [x], ops)
  {
    RecencyStep(items, ops);
    forall i | 0 <= i < |items| ensures LastTouch(ops, items[i].key) < LastTouch(ops, x.key) {
      assert items[i] in items;
      TouchesOthers(ops, items[i].key);
    }
  }

  /** After every run the list is ordered by last touch: its head is the least recently used item. */
  lemma {:induction false} ByRecencyRun(max: nat, ops: seq<Op>)
    requires Legal(max, ops)
    ensures ByRecency(Run(max, ops).items, ops)
  {
    if ops != [] {
      var p := ops[..|ops| - 1];
      var s, op := Run(max, p), ops[|ops| - 1];
      LegalPrefix(max, ops);
      ByRecencyRun(max, p);
      KeysOnceRun(max, p);
      match op
      case Insert(key, data, now) =>
        assert ops[..|ops| - 1] == p;
        assert !Has(s.items, key);
        RecencyAppend(s.items, Item(key, data, now), ops);
      case Lookup(key, now) =>
        var i := Index(s.items, key);
        if i < |s.items| {
          RecencyAppend(Drop(s.items, i), s.items[i].(ts := now), ops);
        } else {
          RecencyStep(s.items, ops);
        }
      case Remove(key, _) =>
        RecencyStep(s.items, ops);
      case Clear(age, now) =>
        RecencyStep(s.items, ops);
        ByRecencyFresh(s.items, age, now, ops);
    }
  }

  /** An insertion that reaches the capacity evicts, of the cached items and the new one, the item whose last touch is
      oldest, and nothing else. */
  lemma EvictsLeastRecent(max: nat, ops: seq<Op>, key: Key, data: Payload, now: real)
    requires Legal(max, ops + [Insert(key, data, now)]) && |Run(max, ops).items| + 1 >= max
    ensures var ops' := ops + [Insert(key, data, now)];
            var all := Run(max, ops).items + [Item(key, data, now)];
            && Run(max, ops').items == all[1..]
            && forall x :: x in all[1..] ==> LastTouch(ops', all[0].key) < LastTouch(ops', x.key)
  {
    hide LastTouch, Has;
    var ops' := ops + [Insert(key, data, now)];
    assert ops'[..|ops' | - 1] == ops;
    LegalPrefix(max, ops');
    ByRecencyRun(max, ops);
    var before := Run(max, ops).items;
    NotYetThere(before, key, max, ops, ops');
    RecencyAppend(before, Item(key, data, now), ops');
  }

  lemma NotYetThere(items: seq<Item>, key: Key, max: nat, ops: seq<Op>, ops': seq<Op>)
    requires Legal(max, ops') && ops' != [] && ops'[..|ops' | - 1] == ops && items == Run(max, ops).items
    requires ops'[|ops' | - 1].Insert? && ops'[|ops' | - 1].key == key
    ensures forall y :: y in items ==> y.key != key
  {
    hide Run;
    assert !Has(items, key);
  }

  // ---- Nothing is lost and nothing is released twice ----

  function Inserted(ops: seq<Op>): seq<Payload> {
    if ops == [] then [] else Inserted(ops[..|ops| - 1]) + InsertedBy(ops[|ops| - 1])
  }

  function InsertedBy(op: Op): seq<Payload> {
    if op.Insert? then Owned(Item(op.key, op.data, op.now)) else []
  }

  /** The payloads owned by a list of items. */
  ghost function Holding(items: seq<Item>): multiset<Payload> {
    if items == [] then multiset{} else multiset(Owned(items[0])) + Holding(items[1..])
  }

  lemma {:induction false} HoldingIsAllOwned(items: seq<Item>)
    ensures Holding(items) == multiset(AllOwned(items))
  {
    if items != [] {
      HoldingIsAllOwned(items[1..]);
    }
  }

  lemma {:induction false} HoldingConcat(a: seq<Item>, b: seq<Item>)
    ensures Holding(a + b) == Holding(a) + Holding(b)
  {
    if a == [] {
      assert a + b == b;
    } else {
      assert (a + b)[1..] == a[1..] + b;
      HoldingConcat(a[1..], b);
    }
  }

  lemma HoldingOne(x: Item)
    ensures Holding([x]) == multiset(Owned(x))
  {
    assert [x][1..] == [];
  }

  lemma HoldingCons(x: Item, s: seq<Item>)
    ensures Holding([x] + s) == multiset(Owned(x)) + Holding(s)
  {
    assert ([x] + s)[1..] == s;
  }

  lemma AroundItem(items: seq<Item>, i: nat)
    requires i < |items|
    ensures items == items[..i] + ([items[i]] + items[i + 1..]) && Drop(items, i) == items[..i] + items[i + 1..]
  {
  }

  lemma HoldingDrop(items: seq<Item>, i: nat)
    requires i < |items|
    ensures Holding(items) == Holding(Drop(items, i)) + multiset(Owned(items[i]))
  {
    hide Holding, Owned, Drop;
    var a, x, b := items[..i], items[i], items[i + 1..];
    AroundItem(items, i);
    HoldingConcat(a, [x] + b);
    HoldingCons(x, b);
    HoldingConcat(a, b);
    Regroup(Holding(a), multiset(Owned(x)), Holding(b));
  }

  lemma {:induction false} HoldingClear(items: seq<Item>, age: real, now: real)
    ensures Holding(items) == Holding(Fresh(items, age, now)) + Holding(Stale(items, age, now))
  {
    if items != [] {
      HoldingClear(items[1..], age, now);
      var x, f, g := items[0], Fresh(items[1..], age, now), Stale(items[1..], age, now);
      assert [] + f == f && [] + g == g;
      assert Holding(items) == multiset(Owned(x)) + (Holding(f) + Holding(g));
      HoldingCons(x, f);
      HoldingCons(x, g);
      hide Holding, Owned;
      Regroup(multiset(Owned(x)), Holding(f), Holding(g));
    }
  }

  lemma Regroup<T>(a: multiset<T>, b: multiset<T>, c: multiset<T>)
    ensures a + (b + c) == b + (a + c) && a + (b + c) == (a + b) + c && a + (b + c) == (a + c) + b
  {
  }

  /** All the payloads that a state accounts for. */
  ghost function Accounted(s: State): multiset<Payload> {
    Holding(s.items) + multiset(s.released)
  }

  lemma AccountedEvict(max: nat, s: State)
    ensures Accounted(Evict(max, s)) == Accounted(s)
  {
    if s.items != [] {
      HoldingDrop(s.items, 0);
      assert Drop(s.items, 0) == s.items[1..];
    }
  }

  lemma AccountedInsert(max: nat, s: State, x: Item)
    ensures Accounted(Evict(max, s.(items := s.items + [x]))) == Accounted(s) + multiset(Owned(x))
  {
    HoldingConcat(s.items, [x]);
    HoldingOne(x);
    AccountedEvict(max, s.(items := s.items + [x]));
  }

  lemma AccountedTouch(s: State, key: Key, now: real)
    ensures Accounted(s.(items := Touch(s.items, key, now))) == Accounted(s)
  {
    var i := Index(s.items, key);
    if i < |s.items| {
      HoldingDrop(s.items, i);
      HoldingConcat(Drop(s.items, i), [s.items[i].(ts := now)]);
      HoldingOne(s.items[i].(ts := now));
    }
  }

  lemma AccountedStep(max: nat, s: State, op: Op)
    ensures Accounted(Step(max, s, op)) == Accounted(s) + multiset(InsertedBy(op))
  {
    match op
    case Insert(key, data, now) => AccountedInsert(max, s, Item(key, data, now));
    case Lookup(key, now) => AccountedTouch(s, key, now);
    case Remove(key, _) =>
      if Index(s.items, key) < |s.items| {
        HoldingDrop(s.items, Index(s.items, key));
      }
    case Clear(age, now) =>
      HoldingClear(s.items, age, now);
      HoldingIsAllOwned(Stale(s.items, age, now));
  }

  /** Over every run, each non-null payload is either still cached or was released, exactly once. */
  lemma {:induction false} Conserved(max: nat, ops: seq<Op>)
    ensures multiset(Inserted(ops)) == multiset(AllOwned(Run(max, ops).items)) + multiset(Run(max, ops).released)
  {
    HoldingIsAllOwned(Run(max, ops).items);
    if ops != [] {
      Conserved(max, ops[..|ops| - 1]);
      HoldingIsAllOwned(Run(max, ops[..|ops| - 1]).items);
      AccountedStep(max, Run(max, ops[..|ops| - 1]), ops[|ops| - 1]);
    }
  }
}
