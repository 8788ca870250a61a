/** memcpy and memmove on byte buffers. */
module Buffers {
  import opened Bits

  /** memcpy(dst + at, s, |s|) */
  method CopyInto(dst: array<byte>, at: nat, s: seq<byte>)
    requires at + |s| <= dst.Length
    modifies dst
    ensures dst[..] == old(dst[..at]) + s + old(dst[at + |s|..])
  {
    ghost var was := dst[..];
    for i := 0 to |s|
      invariant forall k :: at <= k < at + i ==> dst[k] == s[k - at]
      invariant forall k :: 0 <= k < at || at + i <= k < dst.Length ==> dst[k] == was[k]
    {
      dst[at + i] := s[i];
    }
    assert dst[..] == was[..at] + s + was[at + |s|..];
  }

  lemma Moved(was: seq<byte>, now: seq<byte>, to: nat, from: nat, n: nat)
    requires to + n <= |was| == |now| && from + n <= |was|
    requires forall k :: to <= k < to + n ==> now[k] == was[k - to + from]
    requires forall k :: 0 <= k < to || to + n <= k < |now| ==> now[k] == was[k]
    ensures now == was[..to] + was[from..from + n] + was[to + n..]
  {
    assert now[..to] == was[..to];
    assert now[to..to + n] == was[from..from + n];
    assert now[to + n..] == was[to + n..];
    assert now == now[..to] + now[to..to + n] + now[to + n..];
  }

  method MoveDown(buf: array<byte>, to: nat, from: nat, n: nat)
    requires to <= from && from + n <= buf.Length
    modifies buf
    ensures buf[..] == old(buf[..to]) + old(buf[from..from + n]) + old(buf[to + n..])
  {
    ghost var was := buf[..];
    for i := 0 to n
      invariant forall k :: to <= k < to + i ==> buf[k] == was[k - to + from]
      invariant forall k :: 0 <= k < to || to + i <= k < buf.Length ==> buf[k] == was[k]
    {
      buf[to + i] := buf[from + i];
    }
    Moved(was, buf[..], to, from, n);
  }

  method MoveUp(buf: array<byte>, to: nat, from: nat, n: nat)
    requires from <= to && to + n <= buf.Length
    modifies buf
    ensures buf[..] == old(buf[..to]) + old(buf[from..from + n]) + old(buf[to + n..])
  {
    ghost var was := buf[..];
    for i := n downto 0
      invariant forall k :: to + i <= k < to + n ==> buf[k] == was[k - to + from]
      invariant forall k :: 0 <= k < to + i || to + n <= k < buf.Length ==> buf[k] == was[k]
    {
      buf[to + i] := buf[from + i];
    }
    Moved(was, buf[..], to, from, n);
  }

  /** memmove(buf + to, buf + from, n), for overlapping ranges too */
  method Move(buf: array<byte>, to: nat, from: nat, n: nat)
    requires to + n <= buf.Length && from + n <= buf.Length
    modifies buf
    ensures buf[..] == old(buf[..to]) + old(buf[from..from + n]) + old(buf[to + n..])
  {
    if to <= from {
      MoveDown(buf, to, from, n);
    } else {
      MoveUp(buf, to, from, n);
    }
  }

  /** Two adjacent writes are one. */
  lemma AdjacentWrites(s: seq<byte>, s1: seq<byte>, s2: seq<byte>, at: nat, u: seq<byte>, v: seq<byte>)
    requires at + |u| + |v| <= |s|
    requires s1 == s[..at] + u + s[at + |u|..]
    requires s2 == s1[..at + |u|] + v + s1[at + |u| + |v|..]
    ensures s2 == s[..at] + (u + v) + s[at + |u| + |v|..]
  {
  }

  /** What a write left in its place and around it. */
  lemma WriteInPlace(s: seq<byte>, s1: seq<byte>, at: nat, u: seq<byte>, k: nat)
    requires at + |u| + k <= |s| && s1 == s[..at] + u + s[at + |u|..]
    ensures |s1| == |s| && s1[..at] == s[..at] && s1[at..at + |u|] == u && s1[at + |u| + k..] == s[at + |u| + k..]
  {
  }

  /** A write leaves every range beside it as it was. */
  lemma WriteElsewhere(s: seq<byte>, s1: seq<byte>, at: nat, u: seq<byte>, i: nat, j: nat)
    requires at + |u| <= |s| && s1 == s[..at] + u + s[at + |u|..]
    requires i <= j <= |s| && (j <= at || at + |u| <= i)
    ensures |s1| == |s| && s1[i..j] == s[i..j]
  {
  }

  /** A range of a buffer, seen through its filled part. */
  lemma RangeOfPrefix(buf: array<byte>, size: nat, i: nat, j: nat)
    requires i <= j <= size <= buf.Length
    ensures buf[..size][i..j] == buf[i..j]
  {
  }

  /** Writing over the middle part of a buffer. */
  lemma WriteOver(s: seq<byte>, before: seq<byte>, was: seq<byte>, after: seq<byte>, u: seq<byte>)
    requires s == before + was + after && |u| == |was|
    ensures s[..|before|] + u + s[|before| + |u|..] == before + u + after
  {
  }
}
