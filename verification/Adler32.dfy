/** The Adler-32 of crc32.c, against the definition of section 2.2 of RFC 1950. */
module Adler32 {
  import opened Bits
  import Crc32

  const BASE: nat := 65521
  const NMAX: nat := 5552
  const U32: nat := 0x1_0000_0000

  // ---- The definition: both sums are reduced after every byte ----

  datatype Sums = Sums(a: nat, b: nat)

  function AddByte(s: Sums, x: byte): Sums {
    var a := (s.a + x) % BASE;
    Sums(a, (s.b + a) % BASE)
  }

  function SumsOf(s: Sums, data: seq<byte>): Sums {
    if data == [] then s else AddByte(SumsOf(s, data[..|data| - 1]), data[|data| - 1])
  }

  function Adler(data: seq<byte>): nat {
    var s := SumsOf(Sums(1, 0), data);
    s.b * 0x1_0000 + s.a
  }

  predicate Reduced(s: Sums) {
    s.a < BASE && s.b < BASE
  }

  lemma {:induction false} SumsReduced(s: Sums, data: seq<byte>)
    requires Reduced(s)
    ensures Reduced(SumsOf(s, data))
  {
    if data != [] {
      SumsReduced(s, data[..|data| - 1]);
    }
  }

  lemma {:induction false} SumsOfConcat(s: Sums, x: seq<byte>, y: seq<byte>)
    ensures SumsOf(s, x + y) == SumsOf(SumsOf(s, x), y)
    decreases |y|
  {
    if y == [] {
      assert x + y == x;
    } else {
      assert (x + y)[..|x + y| - 1] == x + y[..|y| - 1];
      SumsOfConcat(s, x, y[..|y| - 1]);
    }
  }

  lemma SumsSnoc(s: Sums, data: seq<byte>, x: byte)
    ensures SumsOf(s, data + [x]) == AddByte(SumsOf(s, data), x)
  {
    assert (data + [x])[..|data|] == data;
  }

  // ---- Reducing later changes nothing ----

  lemma ModAdd(x: nat, y: nat, m: nat)
    requires m > 0
    ensures (x % m + y % m) % m == (x + y) % m
  {
    var q, r := x / m, y / m;
    var t := x % m + y % m;
    Distribute(m, q, r, t / m);
    ModUnique(x + y, m, q + r + t / m, t % m);
  }

  lemma Distribute(m: nat, x: nat, y: nat, z: nat)
    ensures m * (x + y + z) == m * x + m * y + m * z
  {
  }

  lemma ModModest(x: nat, m: nat)
    requires m > 0
    ensures x % m % m == x % m
  {
    ModUnique(x % m, m, 0, x % m);
  }

  /** How large the unreduced sums can get after `n` bytes. */
  function BoundA(n: nat): nat {
    BASE - 1 + 255 * n
  }

  function BoundB(n: nat): nat {
    if n == 0 then BASE - 1 else BoundB(n - 1) + BoundA(n)
  }

  lemma {:induction false} BoundBClosed(n: nat)
    ensures 2 * BoundB(n) == 2 * (BASE - 1) * (n + 1) + 255 * n * (n + 1)
  {
    if n > 0 {
      BoundBClosed(n - 1);
      assert 255 * n * (n + 1) == 255 * (n - 1) * n + 510 * n;
    }
  }

  lemma {:induction false} BoundBGrows(m: nat, n: nat)
    requires m <= n
    ensures BoundB(m) <= BoundB(n)
    decreases n - m
  {
    if m < n {
      BoundBGrows(m + 1, n);
    }
  }

  /** 5552 is the longest block that cannot overflow 32 bits: one byte more can. */
  lemma NmaxIsTight()
    ensures BoundB(NMAX) < U32 <= BoundB(NMAX + 1)
  {
    BoundBClosed(NMAX);
    BoundBClosed(NMAX + 1);
  }

  lemma BoundsAtStart()
    ensures BoundA(0) == BoundB(0) == BASE - 1
  {
  }

  /** Inside a block of at most 5552 bytes the 32-bit additions do not wrap. */
  lemma StaysSmall(a: nat, b: nat, n: nat, x: byte)
    requires n < NMAX && a <= BoundA(n) && b <= BoundB(n)
    ensures (a + x) % U32 == a + x <= BoundA(n + 1) && (b + (a + x)) % U32 == b + (a + x) <= BoundB(n + 1)
  {
    NmaxIsTight();
    BoundBGrows(n + 1, NMAX);
  }

  lemma AddUnreduced(a: nat, b: nat, s: Sums, x: byte)
    requires a % BASE == s.a && b % BASE == s.b
    ensures (a + x) % BASE == AddByte(s, x).a && (b + (a + x)) % BASE == AddByte(s, x).b
  {
    ModAdd(a, x, BASE);
    ModAdd(s.a, x, BASE);
    ModModest(a, BASE);
    ModAdd(b, a + x, BASE);
    ModAdd(s.b, (a + x) % BASE, BASE);
    ModModest(b, BASE);
    ModModest(a + x, BASE);
  }

  // ---- crc32.c ----

  /** adler32_short on a block that is short enough; the additions are those of 32-bit unsigneds. */
  method AdlerShort(buffer: array<byte>, from: nat, size: nat, a0: uint32, b0: uint32) returns (a: uint32, b: uint32)
    requires from + size <= buffer.Length && size <= NMAX && Reduced(Sums(a0, b0))
    ensures Sums(a, b) == SumsOf(Sums(a0, b0), buffer[from..from + size])
  {
    a, b := a0, b0;
    hide BoundB, BoundA;
    BoundsAtStart();
    for i := 0 to size
      invariant a <= BoundA(i) && b <= BoundB(i)
      invariant Sums(a % BASE, b % BASE) == SumsOf(Sums(a0, b0), buffer[from..from + i])
    {
      hide SumsOf, AddByte;
      var x := buffer[from + i];
      assert buffer[from..from + i + 1] == buffer[from..from + i] + [x];
      SumsSnoc(Sums(a0, b0), buffer[from..from + i], x);
      AddUnreduced(a, b, SumsOf(Sums(a0, b0), buffer[from..from + i]), x);
      StaysSmall(a, b, i, x);
      a := (a + x) % U32;
      b := (b + a) % U32;
    }
    a := a % BASE;
    b := b % BASE;
  }

  /** adler32 on the `size0` bytes from `start`. */
  method Checksum(buffer: array<byte>, start: nat, size0: nat) returns (r: uint32)
    requires start + size0 <= buffer.Length
    ensures r == Adler(buffer[start..start + size0])
  {
    var a: uint32, b: uint32 := 1, 0;
    var from: nat, size: nat := start, size0;
    while size >= NMAX
      invariant start <= from && from + size == start + size0 && Reduced(Sums(a, b))
      invariant Sums(a, b) == SumsOf(Sums(1, 0), buffer[start..from])
    {
      a, b := NextBlock(buffer, start, from, NMAX, a, b);
      from := from + NMAX;
      size := size - NMAX;
    }
    a, b := NextBlock(buffer, start, from, size, a, b);
    r := (b * 0x1_0000 + a) % U32;
  }

  /** One call of adler32_short inside adler32. */
  method NextBlock(buffer: array<byte>, start: nat, from: nat, size: nat, a0: uint32, b0: uint32)
    returns (a: uint32, b: uint32)
    requires start <= from && from + size <= buffer.Length && size <= NMAX && Reduced(Sums(a0, b0))
    requires Sums(a0, b0) == SumsOf(Sums(1, 0), buffer[start..from])
    ensures Sums(a, b) == SumsOf(Sums(1, 0), buffer[start..from + size]) && Reduced(Sums(a, b))
  {
    a, b := AdlerShort(buffer, from, size, a0, b0);
    SumsReduced(Sums(a0, b0), buffer[from..from + size]);
    SumsOfConcat(Sums(1, 0), buffer[start..from], buffer[from..from + size]);
    assert buffer[start..from] + buffer[from..from + size] == buffer[start..from + size];
  }

  lemma AdlerFits(data: seq<byte>)
    ensures Adler(data) < U32
  {
    SumsReduced(Sums(1, 0), data);
  }

  /** `data` followed by its checksum, least significant byte first. */
  function Sealed(data: seq<byte>): seq<byte> {
    data + Crc32.LittleEndian(Adler(data))
  }

  /** filladler32 on the `size0` bytes from `from`. */
  method FillAdler32(buffer: array<byte>, from: nat, size0: nat)
    requires 4 <= size0 && from + size0 <= buffer.Length
    modifies buffer
    ensures buffer[..] == old(buffer[..from]) + Sealed(old(buffer[from..from + size0 - 4])) + old(buffer[from + size0..])
  {
    var size := size0 - 4;
    var checksum := Checksum(buffer, from, size);
    assert buffer[..from + size] == buffer[..from] + buffer[from..from + size];
    Crc32.StoreLittleEndian(buffer, from + size, checksum);
  }

  /** The 32-bit value of four bytes, least significant first. */
  function FromLittleEndian(b0: byte, b1: byte, b2: byte, b3: byte): uint32 {
    b0 + 0x100 * b1 + 0x1_0000 * b2 + 0x100_0000 * b3
  }

  lemma LittleEndianRoundTrip(x: uint32)
    ensures var t := Crc32.LittleEndian(x); FromLittleEndian(t[0], t[1], t[2], t[3]) == x
  {
    Crc32.ByteOfQuotient(x);
    var q1, q2, q3 := x / 0x100, x / 0x1_0000, x / 0x100_0000;
    LowByte(x);
    LowByte(q1);
    LowByte(q2);
    LowByte(q3);
  }

  lemma LowByte(x: nat)
    ensures x == 0x100 * (x / 0x100) + x % 0x100
  {
  }

  /** What checkadler32 decides about a buffer. */
  predicate Accepts(s: seq<byte>)
    requires |s| >= 4
  {
    var n := |s| - 4;
    Adler(s[..n]) == FromLittleEndian(s[n], s[n + 1], s[n + 2], s[n + 3])
  }

  /** checkadler32 accepts whatever filladler32 completed. */
  lemma SealedAccepted(data: seq<byte>)
    ensures |Sealed(data)| == |data| + 4 && Accepts(Sealed(data))
  {
    AdlerFits(data);
    LittleEndianRoundTrip(Adler(data));
    assert Sealed(data)[..|data|] == data;
  }

  /** checkadler32 */
  method CheckAdler32(buffer: array<byte>, size0: nat) returns (ok: bool)
    requires 4 <= size0 <= buffer.Length
    ensures ok == Accepts(buffer[..size0])
  {
    var size := size0 - 4;
    var checksum := Checksum(buffer, 0, size);
    assert buffer[..size0][..size] == buffer[0..0 + size];
    ok := checksum == FromLittleEndian(buffer[size], buffer[size + 1], buffer[size + 2], buffer[size + 3]);
  }
}
