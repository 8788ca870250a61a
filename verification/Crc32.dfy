/** The CRC-32 of crc32.c, against the bit-by-bit definition of section 8 of RFC 1952. */
module Crc32 {
  import opened Bits

  const POLYNOMIAL: uint32 := 0xEDB8_8320
  const ALL_ONES: uint32 := 0xFFFF_FFFF

  // ---- Bit by bit ----

  /** One bit of the division by the polynomial, least significant bit first. */
  function Shift(c: nat): nat {
    if c % 2 == 1 then Xor(POLYNOMIAL, c / 2) else c / 2
  }

  function Shifts(c: nat, n: nat): nat
    decreases n
  {
    if n == 0 then c else Shifts(Shift(c), n - 1)
  }

  /** The register after one more byte. */
  function CrcByte(c: nat, b: byte): nat {
    Shifts(Xor(c, b), 8)
  }

  /** The register after the bytes of `s`, from register `c`. */
  function Register(c: nat, s: seq<byte>): nat {
    if s == [] then c else CrcByte(Register(c, s[..|s| - 1]), s[|s| - 1])
  }

  /** The checksum that section 8 of RFC 1952 defines. */
  function Crc(s: seq<byte>): nat {
    Xor(Register(ALL_ONES, s), ALL_ONES)
  }

  // ---- The register as a linear function ----

  lemma ShiftLinear(a: nat, b: nat)
    ensures Shift(Xor(a, b)) == Xor(Shift(a), Shift(b))
  {
    var p, x, y := POLYNOMIAL, a / 2, b / 2;
    XorHalves(a, b);
    if a % 2 == 1 && b % 2 == 1 {
      XorCommutes(p, x);
      XorAssociates(x, p, Xor(p, y));
      XorCommutes(p, Xor(p, y));
      XorCommutes(p, y);
      XorTwice(y, p);
    } else if a % 2 == 1 {
      XorAssociates(p, x, y);
    } else if b % 2 == 1 {
      XorCommutes(x, y);
      XorAssociates(p, y, x);
      XorCommutes(x, Xor(p, y));
    }
  }

  lemma {:induction false} ShiftsLinear(a: nat, b: nat, n: nat)
    ensures Shifts(Xor(a, b), n) == Xor(Shifts(a, n), Shifts(b, n))
    decreases n
  {
    if n > 0 {
      ShiftLinear(a, b);
      ShiftsLinear(Shift(a), Shift(b), n - 1);
    }
  }

  lemma {:induction false} ShiftsDownZeros(h: nat, n: nat)
    ensures Shifts(Pow2(n) * h, n) == h
    decreases n
  {
    if n > 0 {
      assert Pow2(n) * h == 2 * (Pow2(n - 1) * h);
      DoubleHalf(Pow2(n - 1) * h);
      ShiftsDownZeros(h, n - 1);
    }
  }

  /** Eight shifts treat the low byte and the rest separately: the reason a table of 256 entries is enough. */
  lemma EightShifts(x: nat)
    ensures Shifts(x, 8) == Xor(Shifts(x % 0x100, 8), x / 0x100)
  {
    ByteSplit(x);
    ShiftsLinear(x % 0x100, 0x100 * (x / 0x100), 8);
    Pow2Of32();
    ShiftsDownZeros(x / 0x100, 8);
  }

  lemma {:induction false} XorHigh(c: nat, b: nat, k: nat)
    requires b < Pow2(k)
    ensures Xor(c, b) / Pow2(k) == c / Pow2(k)
    decreases k
  {
    if k == 0 {
      XorZero(c);
    } else {
      XorHigh(c / 2, b / 2, k - 1);
      XorHalves(c, b);
      DivOfDouble(Xor(c, b), Pow2(k - 1));
      DivOfDouble(c, Pow2(k - 1));
    }
  }

  lemma DivOfDouble(a: nat, p: nat)
    requires p >= 1
    ensures a / (2 * p) == a / 2 / p
  {
    ModOfDouble(a, p);
    var q, r := a / 2 / p, a / 2 % p;
    assert (2 * p) * q == 2 * (p * q);
    ModUnique(a, 2 * p, q, 2 * r + a % 2);
  }

  /** A table look-up does the work of eight shifts. */
  lemma TableStep(c: nat, b: byte)
    ensures Xor(Shifts(Xor(c, b) % 0x100, 8), c / 0x100) == CrcByte(c, b)
  {
    EightShifts(Xor(c, b));
    Pow2Of32();
    XorHigh(c, b, 8);
  }

  lemma {:induction false} ShiftsFit(c: nat, n: nat)
    requires c < 0x1_0000_0000
    ensures Shifts(c, n) < 0x1_0000_0000
    decreases n
  {
    if n > 0 {
      Pow2Of32();
      XorBound(POLYNOMIAL, c / 2, 32);
      ShiftsFit(Shift(c), n - 1);
    }
  }

  lemma XorFits(a: nat, b: nat)
    requires a < 0x1_0000_0000 && b < 0x1_0000_0000
    ensures Xor(a, b) < 0x1_0000_0000
  {
    Pow2Of32();
    XorBound(a, b, 32);
  }

  lemma {:induction false} RegisterFits(c: nat, s: seq<byte>)
    requires c < 0x1_0000_0000
    ensures Register(c, s) < 0x1_0000_0000
  {
    if s != [] {
      var d := Register(c, s[..|s| - 1]);
      RegisterFits(c, s[..|s| - 1]);
      XorFits(d, s[|s| - 1]);
      ShiftsFit(Xor(d, s[|s| - 1]), 8);
    }
  }

  // ---- Appending the register ----

  /** The four bytes that fillcrc32 stores, least significant first. */
  function LittleEndian(x: nat): (r: seq<byte>)
    ensures |r| == 4
  {
    [x % 0x100, x / 0x100 % 0x100, x / 0x1_0000 % 0x100, x / 0x100_0000 % 0x100]
  }

  lemma FeedLowByte(c: nat)
    ensures CrcByte(c, c % 0x100) == c / 0x100
  {
    var low, high := c % 0x100, 0x100 * (c / 0x100);
    ByteSplit(c);
    XorCommutes(low, high);
    XorTwice(high, low);
    Pow2Of32();
    ShiftsDownZeros(c / 0x100, 8);
  }

  lemma RegisterSnoc(c: nat, s: seq<byte>, b: byte)
    ensures Register(c, s + [b]) == CrcByte(Register(c, s), b)
  {
    assert (s + [b])[..|s|] == s;
  }

  lemma RegisterOfNothing(c: nat, s: seq<byte>)
    requires s == []
    ensures Register(c, s) == c
  {
  }

  lemma ByteOfQuotient(x: nat)
    requires x < 0x1_0000_0000
    ensures x / 0x100 / 0x100 == x / 0x1_0000 && x / 0x1_0000 / 0x100 == x / 0x100_0000 && x / 0x100_0000 / 0x100 == 0
  {
  }

  lemma RegisterFourBytes(c: nat, s: seq<byte>, t: seq<byte>)
    requires |t| == 4
    ensures Register(c, s + t) == CrcByte(CrcByte(CrcByte(CrcByte(Register(c, s), t[0]), t[1]), t[2]), t[3])
  {
    hide Register, CrcByte;
    var s1 := s + [t[0]];
    var s2 := s1 + [t[1]];
    var s3 := s2 + [t[2]];
    RegisterSnoc(c, s, t[0]);
    RegisterSnoc(c, s1, t[1]);
    RegisterSnoc(c, s2, t[2]);
    RegisterSnoc(c, s3, t[3]);
    assert s3 + [t[3]] == s + t;
  }

  /** Four times the low byte of what is left. */
  lemma FeedFourBytes(c: nat)
    requires c < 0x1_0000_0000
    ensures var t := LittleEndian(c); CrcByte(CrcByte(CrcByte(CrcByte(c, t[0]), t[1]), t[2]), t[3]) == 0
  {
    hide CrcByte;
    ByteOfQuotient(c);
    FeedLowByte(c);
    FeedLowByte(c / 0x100);
    FeedLowByte(c / 0x1_0000);
    FeedLowByte(c / 0x100_0000);
  }

  /** Feeding the register its own bytes empties it, whatever the content was. */
  lemma SelfCancelling(s: seq<byte>)
    ensures Register(ALL_ONES, s + LittleEndian(Register(ALL_ONES, s))) == 0
    ensures Crc(s + LittleEndian(Register(ALL_ONES, s))) == 0xFFFF_FFFF
  {
    hide Register, CrcByte, LittleEndian;
    RegisterFits(ALL_ONES, s);
    RegisterFourBytes(ALL_ONES, s, LittleEndian(Register(ALL_ONES, s)));
    FeedFourBytes(Register(ALL_ONES, s));
    XorZero(ALL_ONES);
  }

  // ---- crc32.c ----

  ghost predicate TableReady(table: array<uint32>)
    reads table
  {
    table.Length == 256 && forall i :: 0 <= i < 256 ==> table[i] == Shifts(i, 8)
  }

  /** The inner loop of init_crc32_table. */
  method TableEntry(i: byte) returns (c: uint32)
    ensures c == Shifts(i, 8)
  {
    c := i;
    for j := 0 to 8
      invariant Shifts(c, 8 - j) == Shifts(i, 8)
    {
      ShiftsFit(c, 1);
      assert Shifts(c, 1) == Shift(c);
      c := if c % 2 == 1 then Xor(POLYNOMIAL, c / 2) else c / 2;
    }
  }

  /** init_crc32_table: the table starts zeroed, and entry 0 stays 0. */
  method InitCrc32Table(table: array<uint32>)
    requires table.Length == 256 && (table[0] == 0 || TableReady(table))
    modifies table
    ensures TableReady(table)
  {
    hide Shifts;
    if table[0] == 0 {
      for i := 0 to 256
        invariant forall k :: 0 <= k < i ==> table[k] == Shifts(k, 8)
      {
        var c := TableEntry(i);
        table[i] := c;
      }
    }
  }

  /** The loop that crc32 and fillcrc32 share, on the `size` bytes from `from`. */
  method RunRegister(table: array<uint32>, buffer: array<byte>, from: nat, size: nat) returns (crc: uint32)
    requires TableReady(table) && from + size <= buffer.Length
    ensures crc == Register(ALL_ONES, buffer[from..from + size])
  {
    hide Shifts, CrcByte, Xor, Register;
    crc := ALL_ONES;
    RegisterOfNothing(ALL_ONES, buffer[from..from]);
    for i := 0 to size
      invariant crc == Register(ALL_ONES, buffer[from..from + i])
    {
      var x := buffer[from + i];
      assert buffer[from..from + i + 1] == buffer[from..from + i] + [x];
      RegisterSnoc(ALL_ONES, buffer[from..from + i], x);
      RegisterFits(ALL_ONES, buffer[from..from + i + 1]);
      TableStep(crc, x);
      crc := Xor(table[Xor(crc, x) % 0x100], crc / 0x100);
    }
  }

  /** crc32 on the `size` bytes from `from` */
  method Checksum(table: array<uint32>, buffer: array<byte>, from: nat, size: nat) returns (crc: uint32)
    requires TableReady(table) && from + size <= buffer.Length
    ensures crc == Crc(buffer[from..from + size])
  {
    crc := RunRegister(table, buffer, from, size);
    XorFits(crc, ALL_ONES);
    crc := Xor(crc, ALL_ONES);
  }

  /** Stores a 32-bit value, least significant byte first. */
  method StoreLittleEndian(buffer: array<byte>, at: nat, x: uint32)
    requires at + 4 <= buffer.Length
    modifies buffer
    ensures buffer[..] == old(buffer[..at]) + LittleEndian(x) + old(buffer[at + 4..])
  {
    buffer[at] := x % 0x100;
    buffer[at + 1] := x / 0x100 % 0x100;
    buffer[at + 2] := x / 0x1_0000 % 0x100;
    buffer[at + 3] := x / 0x100_0000 % 0x100;
  }

  /** `data` followed by its register: what fillcrc32 leaves in a buffer. */
  function Sealed(data: seq<byte>): seq<byte> {
    data + LittleEndian(Register(ALL_ONES, data))
  }

  /** crc32 of a completed buffer is 0xFFFFFFFF, that is -1 as an int, for every content. */
  lemma SealedAccepted(data: seq<byte>)
    ensures |Sealed(data)| == |data| + 4 && Crc(Sealed(data)) == 0xFFFF_FFFF
  {
    SelfCancelling(data);
  }

  /** fillcrc32 on the `size0` bytes from `from`: stores the register, not its complement, in the last four. */
  method FillCrc32(table: array<uint32>, buffer: array<byte>, from: nat, size0: nat)
    requires TableReady(table) && 4 <= size0 && from + size0 <= buffer.Length && table as object != buffer
    modifies buffer
    ensures buffer[..] == old(buffer[..from]) + Sealed(old(buffer[from..from + size0 - 4])) + old(buffer[from + size0..])
  {
    hide Register, LittleEndian;
    var size := size0 - 4;
    var crc := RunRegister(table, buffer, from, size);
    assert buffer[..from + size] == buffer[..from] + buffer[from..from + size];
    StoreLittleEndian(buffer, from + size, crc);
  }
}
