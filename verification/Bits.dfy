/** Fixed-width integers and the bit operations of the C sources, on unbounded integers. */
module Bits {
  type byte = x: int | 0 <= x < 0x100
  type uint16 = x: int | 0 <= x < 0x1_0000
  type uint32 = x: int | 0 <= x < 0x1_0000_0000
  type uint64 = x: int | 0 <= x < 0x1_0000_0000_0000_0000

  function Pow2(k: nat): (r: nat)
    ensures r >= 1
  {
    if k == 0 then 1 else 2 * Pow2(k - 1)
  }

  /** `(hi << 8) | lo` */
  function Word(hi: byte, lo: byte): uint16 {
    var h: int, l: int := hi, lo;
    0x100 * h + l
  }

  /** The byte that `(uint8_t)(x >> 8)` keeps. */
  function Hi(x: nat): byte {
    x / 0x100 % 0x100
  }

  /** The byte that `(uint8_t)x` keeps. */
  function Lo(x: nat): byte {
    x % 0x100
  }

  lemma WordOfBytes(x: uint16)
    ensures Word(Hi(x), Lo(x)) == x
  {
  }

  /** `a & b` */
  function And(a: nat, b: nat): nat
    decreases a + b
  {
    if a == 0 || b == 0 then 0
    else 2 * And(a / 2, b / 2) + (if a % 2 == 1 && b % 2 == 1 then 1 else 0)
  }

  /** `a ^ b` */
  function Xor(a: nat, b: nat): nat
    decreases a + b
  {
    if a == 0 && b == 0 then 0
    else 2 * Xor(a / 2, b / 2) + (if a % 2 == b % 2 then 0 else 1)
  }

  /** Masking with a power of two minus one is the remainder. */
  lemma {:induction false} MaskIsMod(a: nat, k: nat)
    ensures And(a, Pow2(k) - 1) == a % Pow2(k)
  {
    if k == 0 || a == 0 {
      SmallMod(a, Pow2(k));
    } else {
      var p := Pow2(k - 1);
      MaskIsMod(a / 2, k - 1);
      ModOfDouble(a, p);
      OddHalf(p);
    }
  }

  lemma OddHalf(p: nat)
    requires p >= 1
    ensures (2 * p - 1) / 2 == p - 1 && (2 * p - 1) % 2 == 1
  {
  }

  lemma SmallMod(a: nat, m: nat)
    requires (a == 0 && m >= 1) || m == 1
    ensures a % m == 0
  {
  }

  lemma ModOfDouble(a: nat, p: nat)
    requires p >= 1
    ensures a % (2 * p) == 2 * (a / 2 % p) + a % 2
  {
    var q, r := a / 2 / p, a / 2 % p;
    assert a == (2 * p) * q + (2 * r + a % 2) by {
      assert a / 2 == p * q + r;
      assert (2 * p) * q == 2 * (p * q);
    }
    ModUnique(a, 2 * p, q, 2 * r + a % 2);
  }

  lemma ModUnique(a: nat, m: nat, q: nat, r: nat)
    requires m >= 1 && r < m && a == m * q + r
    ensures a % m == r && a / m == q
  {
    var q', r' := a / m, a % m;
    var d := q - q';
    assert m * d == r' - r by {
      assert m * d == m * q - m * q';
    }
    if d >= 1 {
      MulAtLeast(m, d);
    } else if d <= -1 {
      MulAtLeast(m, -d);
    }
  }

  lemma MulAtLeast(m: nat, d: int)
    requires d >= 1
    ensures m * d >= m
  {
    assert m * d == m * (d - 1) + m;
  }

  lemma {:induction false} XorCommutes(a: nat, b: nat)
    ensures Xor(a, b) == Xor(b, a)
    decreases a + b
  {
    if a != 0 || b != 0 {
      XorCommutes(a / 2, b / 2);
    }
  }

  lemma {:induction false} XorAssociates(a: nat, b: nat, c: nat)
    ensures Xor(Xor(a, b), c) == Xor(a, Xor(b, c))
    decreases a + b + c
  {
    if a != 0 || b != 0 || c != 0 {
      XorAssociates(a / 2, b / 2, c / 2);
      XorHalves(a, b);
      XorHalves(b, c);
      XorHalves(Xor(a, b), c);
      XorHalves(a, Xor(b, c));
      SameHalves(Xor(Xor(a, b), c), Xor(a, Xor(b, c)));
    }
  }

  lemma SameHalves(x: nat, y: nat)
    requires x / 2 == y / 2 && x % 2 == y % 2
    ensures x == y
  {
  }

  lemma XorHalves(a: nat, b: nat)
    ensures Xor(a, b) / 2 == Xor(a / 2, b / 2) && Xor(a, b) % 2 == if a % 2 == b % 2 then 0 else 1
  {
  }

  /** Bit `j` of a number. */
  function Bit(a: nat, j: nat): nat {
    if j == 0 then a % 2 else Bit(a / 2, j - 1)
  }

  lemma {:induction false} BitIsBit(a: nat, j: nat)
    ensures Bit(a, j) <= 1
    decreases j
  {
    if j > 0 {
      BitIsBit(a / 2, j - 1);
    }
  }

  /** Bit by bit: one exactly where the bits differ. */
  lemma {:induction false} XorBit(a: nat, b: nat, j: nat)
    ensures Bit(Xor(a, b), j) == if Bit(a, j) == Bit(b, j) then 0 else 1
    decreases j
  {
    XorHalves(a, b);
    if j > 0 {
      XorBit(a / 2, b / 2, j - 1);
    }
  }

  lemma {:induction false} XorSelf(a: nat)
    ensures Xor(a, a) == 0
  {
    if a != 0 {
      XorSelf(a / 2);
    }
  }

  lemma {:induction false} XorZero(a: nat)
    ensures Xor(a, 0) == a && Xor(0, a) == a
  {
    if a != 0 {
      XorZero(a / 2);
    }
  }

  /** Applying the same mask twice gives the value back. */
  lemma XorTwice(a: nat, k: nat)
    ensures Xor(Xor(a, k), k) == a
  {
    XorAssociates(a, k, k);
    XorSelf(k);
    XorZero(a);
  }

  lemma {:induction false} XorBound(a: nat, b: nat, k: nat)
    requires a < Pow2(k) && b < Pow2(k)
    ensures Xor(a, b) < Pow2(k)
  {
    if k > 0 && (a != 0 || b != 0) {
      XorBound(a / 2, b / 2, k - 1);
    }
  }

  /** Disjoint low and high bits: exclusive or is addition. */
  lemma {:induction false} XorDisjoint(low: nat, high: nat, k: nat)
    requires low < Pow2(k)
    ensures Xor(low, Pow2(k) * high) == low + Pow2(k) * high
  {
    if k == 0 {
      XorZero(high);
    } else {
      var p := Pow2(k - 1);
      assert Pow2(k) * high == 2 * (p * high);
      XorDisjoint(low / 2, high, k - 1);
      XorHalves(low, 2 * (p * high));
      DoubleHalf(p * high);
      SameHalves(Xor(low, 2 * (p * high)), low + 2 * (p * high));
    }
  }

  lemma DoubleHalf(x: nat)
    ensures 2 * x / 2 == x && 2 * x % 2 == 0
  {
  }

  lemma ByteSplit(x: nat)
    ensures Xor(x % 0x100, 0x100 * (x / 0x100)) == x
  {
    assert Pow2(8) == 0x100;
    XorDisjoint(x % 0x100, x / 0x100, 8);
  }

  lemma Pow2Of32()
    ensures Pow2(8) == 0x100 && Pow2(32) == 0x1_0000_0000
  {
    assert Pow2(8) == 0x100;
    assert Pow2(16) == 0x1_0000;
    assert Pow2(24) == 0x100_0000;
  }
}
