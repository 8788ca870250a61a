/** Keyed hashes, which stay uninterpreted, and the frame counters that go into their keys. */
module Macs {
  import opened Bits

  /** What the hmac writes: 16 bytes for MD5, 20 for SHA-1. */
  type Digest = s: seq<byte> | |s| >= 16 witness [0, 0, 0, 0, 0, 0, 0, 0, 0, 0, 0, 0, 0, 0, 0, 0]

  /** The keyed hash: key, message. */
  type Mac = (seq<byte>, seq<byte>) -> Digest

  function Next(id: uint32): uint32 {
    (id + 1) % 0x1_0000_0000
  }

  /** The counters of `n` consecutive frames and of the one after them. */
  function Ids(id: uint32, n: nat): (r: seq<uint32>)
    ensures |r| == n + 1
  {
    seq(n + 1, i requires 0 <= i => (id + i) % 0x1_0000_0000)
  }

  lemma IdsStep(id: uint32, n: nat, i: nat)
    requires i < n
    ensures Ids(id, n)[0] == id && Ids(id, n)[i + 1] == Next(Ids(id, n)[i])
  {
  }

  lemma IdsStart(id: uint32, n: nat)
    ensures Ids(id, n)[0] == id
    ensures forall i :: 0 <= i <= n ==> Ids(id, n)[i] == (id + i) % 0x1_0000_0000
  {
  }
}
