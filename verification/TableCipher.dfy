/** The substitution table of encrypt.c: a merge sort shuffles the bytes, and table mode maps buffers through the table.
*/
module TableCipher {
  import opened Bits
  import opened Buffers
  import opened StableSort

  // ---- random_compare ----

  /** What a C int keeps of an unsigned 64-bit value. */
  function ToInt(u: uint64): int {
    var low := u % 0x1_0000_0000;
    if low >= 0x8000_0000 then low - 0x1_0000_0000 else low
  }

  /** random_compare: an unsigned difference, returned as an int. */
  function RandomCompare(x: byte, y: byte, salt: uint32, key: uint64): int
    requires 1 <= salt < 1024
  {
    ToInt((key % (x + salt) - key % (y + salt)) % 0x1_0000_0000_0000_0000)
  }

  /** The order that the sort uses. */
  function Order(salt: uint32, key: uint64): (byte, byte) -> bool
    requires 1 <= salt < 1024
  {
    (x: byte, y: byte) => key % (x + salt) <= key % (y + salt)
  }

  lemma SmallDifference(d: int)
    requires -2048 < d < 2048
    ensures ToInt(d % 0x1_0000_0000_0000_0000) == d
  {
    if d >= 0 {
      ModUnique(d, 0x1_0000_0000_0000_0000, 0, d);
    } else {
      assert d % 0x1_0000_0000_0000_0000 == d + 0x1_0000_0000_0000_0000;
    }
  }

  /** The wrap-around of the difference does not disturb the order. */
  lemma CompareIsOrder(x: byte, y: byte, salt: uint32, key: uint64)
    requires 1 <= salt < 1024
    ensures RandomCompare(x, y, salt, key) <= 0 <==> Order(salt, key)(x, y)
  {
    SmallDifference(key % (x + salt) - key % (y + salt));
  }

  lemma OrderIsTotal(salt: uint32, key: uint64)
    requires 1 <= salt < 1024
    ensures TotalPreorder(Order(salt, key))
  {
  }

  // ---- The sort ----

  /** How many elements the left half gets. */
  function LeftLength(n: nat): nat {
    n - n / 2
  }

  function MergeSortOf<T>(le: (T, T) -> bool, s: seq<T>): (r: seq<T>)
    ensures |r| == |s|
    decreases |s|
  {
    if |s| <= 1 then s
    else Merge(le, MergeSortOf(le, s[..LeftLength(|s|)]), MergeSortOf(le, s[LeftLength(|s|)..]))
  }

  /** Top-down merge sort is the stable sort. */
  lemma {:induction false} MergeSortSorts<T(!new)>(le: (T, T) -> bool, s: seq<T>)
    requires TotalPreorder(le)
    ensures StablySorted(le, s, MergeSortOf(le, s))
    decreases |s|
  {
    if |s| > 1 {
      var l, r := s[..LeftLength(|s|)], s[LeftLength(|s|)..];
      var sl, sr := MergeSortOf(le, l), MergeSortOf(le, r);
      MergeSortSorts(le, l);
      MergeSortSorts(le, r);
      StableSort.MergeSorted(le, sl, sr);
      forall x ensures Ties(le, x, s) == Ties(le, x, Merge(le, sl, sr)) {
        MergeTies(le, x, sl, sr);
        TiesOfConcat(le, x, l, r);
        assert l + r == s;
        assert Ties(le, x, l) == Ties(le, x, sl) && Ties(le, x, r) == Ties(le, x, sr);
      }
    }
  }

  /** One step of the loop of merge. */
  lemma MergeStep<T>(le: (T, T) -> bool, done: seq<T>, xs: seq<T>, ys: seq<T>)
    requires xs != [] && ys != []
    ensures done + Merge(le, xs, ys)
         == if le(xs[0], ys[0]) then (done + [xs[0]]) + Merge(le, xs[1..], ys)
            else (done + [ys[0]]) + Merge(le, xs, ys[1..])
  {
  }

  lemma MergeEnd<T>(le: (T, T) -> bool, xs: seq<T>, ys: seq<T>)
    ensures xs == [] ==> Merge(le, xs, ys) == ys
    ensures ys == [] ==> Merge(le, xs, ys) == xs
  {
  }

  /** Nothing outside a range has changed. */
  ghost predicate Outside(was: seq<byte>, now: seq<byte>, lo: nat, hi: nat) {
    |was| == |now| && lo <= hi <= |was| && was[..lo] == now[..lo] && was[hi..] == now[hi..]
  }

  lemma InPlace(was: seq<byte>, now: seq<byte>, at: nat, s: seq<byte>)
    requires at + |s| <= |was| && Outside(was, now, at, at + |s|) && now[at..at + |s|] == s
    ensures now == was[..at] + s + was[at + |s|..]
  {
    assert now == now[..at] + now[at..at + |s|] + now[at + |s|..];
  }

  /** Writes at `k`, inside the range that merge may write. */
  method Put(a: array<byte>, lo: nat, k: nat, hi: nat, s: seq<byte>)
    requires lo <= k && k + |s| <= hi <= a.Length
    modifies a
    ensures a[lo..k + |s|] == old(a[lo..k]) + s && Outside(old(a[..]), a[..], lo, hi)
  {
    ghost var was := a[..];
    CopyInto(a, k, s);
    PutIn(was, a[..], lo, k, hi, s);
  }

  lemma PutIn(was: seq<byte>, now: seq<byte>, lo: nat, k: nat, hi: nat, s: seq<byte>)
    requires lo <= k && k + |s| <= hi <= |was| && now == was[..k] + s + was[k + |s|..]
    ensures |now| == |was| && now[lo..k + |s|] == was[lo..k] + s && Outside(was, now, lo, hi)
  {
  }

  lemma OutsideTransitive(a: seq<byte>, b: seq<byte>, c: seq<byte>, lo: nat, hi: nat)
    requires Outside(a, b, lo, hi) && Outside(b, c, lo, hi)
    ensures Outside(a, c, lo, hi)
  {
  }

  /** merge: the halves stand next to each other from `at`, and the result takes their place. */
  method MergeHalves(a: array<byte>, at: nat, llength0: nat, rlength0: nat, salt: uint32, key: uint64)
    requires at + llength0 + rlength0 <= a.Length && 1 <= salt < 1024
    modifies a
    ensures a[..] == old(a[..at])
                   + Merge(Order(salt, key), old(a[at..at + llength0]), old(a[at + llength0..at + llength0 + rlength0]))
                   + old(a[at + llength0 + rlength0..])
  {
    hide Merge, RandomCompare, Outside, Order;
    ghost var le, was, end := Order(salt, key), a[..], at + llength0 + rlength0;
    var ll, rr := a[at..at + llength0], a[at + llength0..at + llength0 + rlength0];
    ghost var merged := Merge(le, ll, rr);
    var llength, rlength, result := llength0, rlength0, at;
    assert a[at..result] + merged == merged;
    NothingWritten(was, at, end);
    while llength > 0 && rlength > 0
      invariant |ll| == llength && |rr| == rlength && result + llength + rlength == at + llength0 + rlength0
      invariant at <= result && a[at..result] + Merge(le, ll, rr) == merged
      invariant Outside(was, a[..], at, at + llength0 + rlength0)
    {
      CompareIsOrder(ll[0], rr[0], salt, key);
      MergeStep(le, a[at..result], ll, rr);
      ghost var before := a[..];
      if RandomCompare(ll[0], rr[0], salt, key) <= 0 {
        Put(a, at, result, at + llength0 + rlength0, [ll[0]]);
        ll := ll[1..];
        llength := llength - 1;
      } else {
        Put(a, at, result, at + llength0 + rlength0, [rr[0]]);
        rr := rr[1..];
        rlength := rlength - 1;
      }
      OutsideTransitive(was, before, a[..], at, end);
      result := result + 1;
    }
    MergeEnd(le, ll, rr);
    CopyRest(a, at, result, if llength > 0 then ll else rr, was);
    InPlace(was, a[..], at, merged);
  }

  /** The loops at the end of merge, which copy what is left of one half. */
  method CopyRest(a: array<byte>, at: nat, result: nat, rest: seq<byte>, ghost was: seq<byte>)
    requires at <= result && result + |rest| <= a.Length && Outside(was, a[..], at, result + |rest|)
    modifies a
    ensures a[..][at..result + |rest|] == old(a[at..result]) + rest && Outside(was, a[..], at, result + |rest|)
  {
    ghost var before := a[..];
    Put(a, at, result, result + |rest|, rest);
    OutsideTransitive(was, before, a[..], at, result + |rest|);
  }

  lemma NothingWritten(s: seq<byte>, lo: nat, hi: nat)
    requires lo <= hi <= |s|
    ensures Outside(s, s, lo, hi)
  {
  }

  /** merge_sort. The middle is a byte: up to 511 elements it is really the middle. */
  method MergeSort(a: array<byte>, at: nat, length: nat, salt: uint32, key: uint64)
    requires at + length <= a.Length && length < 512 && 1 <= salt < 1024
    modifies a
    ensures a[..] == old(a[..at]) + MergeSortOf(Order(salt, key), old(a[at..at + length])) + old(a[at + length..])
    decreases length
  {
    hide Merge, Order, MergeSortOf;
    ghost var s0, le := a[..], Order(salt, key);
    if length <= 1 {
      ShortIsSorted(le, s0, at, length);
      return;
    }
    var middle := length / 2 % 0x100;
    var llength := length - middle;
    MergeSort(a, at, llength, salt, key);
    ghost var s1 := a[..];
    MergeSort(a, at + llength, middle, salt, key);
    ghost var s2 := a[..];
    Halves(s0, s1, s2, at, llength, middle, le);
    MergeHalves(a, at, llength, middle, salt, key);
    Joined(s0, s2, a[..], at, length, llength, le);
  }

  lemma ShortIsSorted(le: (byte, byte) -> bool, s: seq<byte>, at: nat, length: nat)
    requires length <= 1 && at + length <= |s|
    ensures s == s[..at] + MergeSortOf(le, s[at..at + length]) + s[at + length..]
  {
  }

  lemma Joined(s0: seq<byte>, s2: seq<byte>, s3: seq<byte>, at: nat, n: nat, l: nat, le: (byte, byte) -> bool)
    requires at + n <= |s0| && 1 < n && l == LeftLength(n) && |s2| == |s0|
    requires s2[..at] == s0[..at] && s2[at + n..] == s0[at + n..]
    requires s2[at..at + l] == MergeSortOf(le, s0[at..at + n][..l])
    requires s2[at + l..at + n] == MergeSortOf(le, s0[at..at + n][l..])
    requires s3 == s2[..at] + Merge(le, s2[at..at + l], s2[at + l..at + n]) + s2[at + n..]
    ensures s3 == s0[..at] + MergeSortOf(le, s0[at..at + n]) + s0[at + n..]
  {
    hide Merge;
    var s := s0[at..at + n];
    assert MergeSortOf(le, s) == Merge(le, MergeSortOf(le, s[..l]), MergeSortOf(le, s[l..]));
  }

  /** After both recursive calls the halves are sorted and the rest is as it was. */
  lemma Halves(s0: seq<byte>, s1: seq<byte>, s2: seq<byte>, at: nat, l: nat, m: nat, le: (byte, byte) -> bool)
    requires at + l + m <= |s0|
    requires s1 == s0[..at] + MergeSortOf(le, s0[at..at + l]) + s0[at + l..]
    requires |s1| == |s0| ==> s2 == s1[..at + l] + MergeSortOf(le, s1[at + l..at + l + m]) + s1[at + l + m..]
    ensures |s2| == |s0| && s2[..at] == s0[..at] && s2[at + l + m..] == s0[at + l + m..]
    ensures s2[at..at + l] == MergeSortOf(le, s0[at..at + (l + m)][..l])
    ensures s2[at + l..at + l + m] == MergeSortOf(le, s0[at..at + (l + m)][l..])
  {
    hide Merge, MergeSortOf;
    assert s0[at..at + (l + m)][..l] == s0[at..at + l];
    assert s0[at..at + (l + m)][l..] == s0[at + l..at + l + m];
    assert s1[at + l..at + l + m] == s0[at + l..at + l + m];
    assert s1[at..at + l] == MergeSortOf(le, s0[at..at + l]);
    assert s2[at..at + l] == s1[at..at + l];
  }

  // ---- The table ----

  /** The table after sorting with the salts below `n`. */
  function Shuffled(key: uint64, n: nat): (r: seq<byte>)
    requires 1 <= n <= 1024
    ensures |r| == 256
    decreases n
  {
    if n == 1 then Identity() else MergeSortOf(Order(n - 1, key), Shuffled(key, n - 1))
  }

  function Identity(): (r: seq<byte>)
    ensures |r| == 256
  {
    seq(256, i requires 0 <= i < 256 => i)
  }

  /** Which of two bytes stands first after the rounds with the salts from 1 below `n`: the last salt whose remainders
      differ decides, and the bytes themselves if none does. */
  ghost predicate First(key: uint64, n: nat, x: byte, y: byte)
    requires n >= 1
  {
    DecidedBy(key, n, x, y) || (x < y && SameFrom(key, 1, n, x, y))
  }

  ghost function Remainder(key: uint64, salt: nat, x: byte): nat
    requires salt >= 1
  {
    key % (x + salt)
  }

  /** The remainders are the same for all salts from `salt` below `n`. */
  ghost predicate SameFrom(key: uint64, salt: nat, n: nat, x: byte, y: byte)
    requires salt >= 1
  {
    forall later :: salt <= later < n ==> Remainder(key, later, x) == Remainder(key, later, y)
  }

  ghost predicate DecidedBy(key: uint64, n: nat, x: byte, y: byte) {
    exists salt ::
      1 <= salt < n && Remainder(key, salt, x) < Remainder(key, salt, y) && SameFrom(key, salt + 1, n, x, y)
  }

  ghost predicate InOrder(key: uint64, n: nat, t: seq<byte>)
    requires n >= 1
  {
    forall i, j :: 0 <= i < j < |t| ==> First(key, n, t[i], t[j])
  }

  lemma FirstNow(key: uint64, n: nat, x: byte, y: byte)
    requires n >= 1 && Remainder(key, n, x) < Remainder(key, n, y)
    ensures First(key, n + 1, x, y)
  {
    hide Remainder;
    assert SameFrom(key, n + 1, n + 1, x, y);
  }

  lemma FirstBefore(key: uint64, n: nat, x: byte, y: byte)
    requires n >= 1 && First(key, n, x, y) && Remainder(key, n, x) == Remainder(key, n, y)
    ensures First(key, n + 1, x, y)
  {
    hide Remainder;
    if DecidedBy(key, n, x, y) {
      var salt :| 1 <= salt < n && Remainder(key, salt, x) < Remainder(key, salt, y)
          && SameFrom(key, salt + 1, n, x, y);
      assert SameFrom(key, salt + 1, n + 1, x, y);
    }
  }

  lemma RemaindersOrder(key: uint64, n: nat, x: byte, y: byte)
    requires 1 <= n < 1024
    ensures Order(n, key)(x, y) <==> Remainder(key, n, x) <= Remainder(key, n, y)
  {
  }

  /** One more round: its salt decides where the remainders differ, and the earlier rounds where they do not. */
  lemma RoundOrders(key: uint64, n: nat, s: seq<byte>, t: seq<byte>)
    requires 1 <= n < 1024 && InOrder(key, n, s) && StablySorted(Order(n, key), s, t)
    ensures InOrder(key, n + 1, t)
  {
    hide First, Ties, Order, Remainder;
    OrderIsTotal(n, key);
    forall i, j | 0 <= i < j < |t| ensures First(key, n + 1, t[i], t[j]) {
      var le := Order(n, key);
      assert le(t[i], t[j]);
      RemaindersOrder(key, n, t[i], t[j]);
      RemaindersOrder(key, n, t[j], t[i]);
      if le(t[j], t[i]) {
        var p, q := TieOrder(le, s, t, i, j);
        FirstBefore(key, n, t[i], t[j]);
      } else {
        FirstNow(key, n, t[i], t[j]);
      }
    }
  }

  lemma {:induction false} ShuffledInOrder(key: uint64, n: nat)
    requires 1 <= n <= 1024
    ensures InOrder(key, n, Shuffled(key, n))
    decreases n
  {
    hide MergeSortOf, StablySorted, Order;
    if n > 1 {
      ShuffledInOrder(key, n - 1);
      OrderIsTotal(n - 1, key);
      MergeSortSorts(Order(n - 1, key), Shuffled(key, n - 1));
      RoundOrders(key, n - 1, Shuffled(key, n - 1), Shuffled(key, n));
    }
  }

  /** Every byte stands in the table exactly once. */
  ghost predicate Permutation(s: seq<byte>) {
    && |s| == 256
    && (forall i, j :: 0 <= i < j < 256 ==> s[i] != s[j])
    && (forall b: byte :: b in s)
  }

  lemma {:induction false} ShuffledIsRearranged(key: uint64, n: nat)
    requires 1 <= n <= 1024
    ensures multiset(Shuffled(key, n)) == multiset(Identity())
    decreases n
  {
    if n > 1 {
      ShuffledIsRearranged(key, n - 1);
      OrderIsTotal(n - 1, key);
      MergeSortSorts(Order(n - 1, key), Shuffled(key, n - 1));
      StableIsPermutation(Order(n - 1, key), Shuffled(key, n - 1), Shuffled(key, n));
    }
  }

  lemma {:induction false} OnceEach(s: seq<byte>, x: byte, i: nat, j: nat)
    requires i < j < |s| && s[i] == x == s[j]
    ensures multiset(s)[x] >= 2
  {
    assert s == s[..j] + s[j..];
    assert multiset(s) == multiset(s[..j]) + multiset(s[j..]);
    assert s[..j][i] == x && s[j..][0] == x;
    assert x in multiset(s[..j]) && x in multiset(s[j..]);
  }

  lemma {:induction false} IdentityCount(n: nat, x: byte)
    requires n <= 256
    ensures multiset(Identity()[..n])[x] == if x < n then 1 else 0
  {
    if n > 0 {
      IdentityCount(n - 1, x);
      assert Identity()[..n] == Identity()[..n - 1] + [Identity()[n - 1]];
    }
  }

  /** For every key the encryption table is a permutation of the bytes. */
  lemma TableIsPermutation(key: uint64)
    ensures Permutation(Shuffled(key, 1024))
  {
    var s := Shuffled(key, 1024);
    ShuffledIsRearranged(key, 1024);
    assert Identity()[..256] == Identity();
    forall i, j | 0 <= i < j < 256 ensures s[i] != s[j] {
      if s[i] == s[j] {
        OnceEach(s, s[i], i, j);
        IdentityCount(256, s[i]);
      }
    }
    forall b: byte ensures b in s {
      IdentityCount(256, b);
      assert b in multiset(s);
    }
  }

  /** What table mode does to a buffer. */
  function Mapped(table: seq<byte>, m: seq<byte>): (r: seq<byte>)
    requires |table| == 256
    ensures |r| == |m|
  {
    seq(|m|, i requires 0 <= i < |m| => table[m[i]])
  }

  /** dec_table inverts enc_table, in both directions. */
  ghost predicate Inverse(enc: seq<byte>, dec: seq<byte>) {
    && |enc| == |dec| == 256
    && (forall b: byte :: dec[enc[b]] == b)
    && (forall b: byte :: enc[dec[b]] == b)
  }

  /** Decrypting in table mode gives back every buffer, and so does encrypting what was decrypted. */
  lemma TableRoundTrip(enc: seq<byte>, dec: seq<byte>, m: seq<byte>)
    requires Inverse(enc, dec)
    ensures Mapped(dec, Mapped(enc, m)) == m && Mapped(enc, Mapped(dec, m)) == m
  {
  }

  /** The rounds of enc_table_init. */
  method Shuffle(encTable: array<byte>, key: uint64)
    requires encTable.Length == 256
    modifies encTable
    ensures encTable[..] == Shuffled(key, 1024)
  {
    hide MergeSortOf, Order;
    for i := 0 to 256
      invariant forall k :: 0 <= k < i ==> encTable[k] == k
    {
      encTable[i] := i;
    }
    assert encTable[..] == Identity();
    for i := 1 to 1024
      invariant encTable[..] == Shuffled(key, i)
    {
      assert encTable[0..0 + 256] == encTable[..];
      MergeSort(encTable, 0, 256, i, key);
      assert encTable[..] == MergeSortOf(Order(i, key), Shuffled(key, i));
    }
  }

  /** enc_table_init, for the key taken from the digest of the password. */
  method EncTableInit(encTable: array<byte>, decTable: array<byte>, key: uint64)
    requires encTable.Length == decTable.Length == 256 && encTable != decTable
    modifies encTable, decTable
    ensures encTable[..] == Shuffled(key, 1024) && Inverse(encTable[..], decTable[..])
    ensures InOrder(key, 1024, encTable[..])
  {
    hide Shuffled, InOrder;
    Shuffle(encTable, key);
    TableIsPermutation(key);
    ShuffledInOrder(key, 1024);
    ghost var enc := encTable[..];
    for i := 0 to 256
      invariant encTable[..] == enc
      invariant forall k :: 0 <= k < i ==> decTable[enc[k]] == k
    {
      decTable[encTable[i]] := i;
    }
    LeftInverseIsInverse(enc, decTable[..]);
  }

  lemma LeftInverseIsInverse(enc: seq<byte>, dec: seq<byte>)
    requires Permutation(enc) && |dec| == 256
    requires forall k :: 0 <= k < 256 ==> dec[enc[k]] == k
    ensures Inverse(enc, dec)
  {
    forall b: byte ensures enc[dec[b]] == b {
      assert b in enc;
      var k :| 0 <= k < 256 && enc[k] == b;
    }
  }

  /** ss_encrypt and ss_decrypt in table mode. */
  method MapBuffer(table: array<byte>, buf: array<byte>, len: nat)
    requires table.Length == 256 && len <= buf.Length && table != buf
    modifies buf
    ensures buf[..] == Mapped(table[..], old(buf[..len])) + old(buf[len..])
    ensures forall k :: 0 <= k < buf.Length ==>
              buf[k] == if k < len then old(table[..])[old(buf[..])[k]] else old(buf[..])[k]
  {
    ghost var was := buf[..];
    var ptr := 0;
    while ptr < len
      invariant ptr <= len && table[..] == old(table[..])
      invariant forall k :: 0 <= k < ptr ==> buf[k] == table[was[k]]
      invariant forall k :: ptr <= k < buf.Length ==> buf[k] == was[k]
    {
      buf[ptr] := table[buf[ptr]];
      ptr := ptr + 1;
    }
  }
}
