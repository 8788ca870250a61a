/** What the fixed-point arithmetic of BBR computes while nothing overflows: the exact product, up to rounding. */
module BbrArithmetic {
  import opened Bits
  import opened BbrModel

  /** Both scales together. */
  const SCALES: nat := 0x1_0000_0000

  /** The pacing rate is the bandwidth times packet size and gain, in bytes per second: never too high, and too low by
      less than two. */
  lemma RateIsClose(mtu: uint32, rate: nat, gain: nat)
    requires gain > 0 && rate * mtu * gain < U64 && rate * mtu * gain / BBR_UNIT * USEC_PER_SEC < U64
    ensures var r := RateBytesPerSec(mtu, rate, gain);
            r * SCALES <= rate * mtu * gain * USEC_PER_SEC < (r + 2) * SCALES
  {
    var y: nat := rate * mtu;
    var x: nat := y * gain;
    NoLarger(y, gain);
    RateIs(mtu, rate, gain, y, x);
    TwoShifts(x);
  }

  lemma NoLarger(y: nat, gain: nat)
    requires gain > 0
    ensures y <= y * gain
  {
  }

  lemma RateIs(mtu: uint32, rate: nat, gain: nat, y: nat, x: nat)
    requires y == rate * mtu < U64 && x == y * gain < U64 && x / BBR_UNIT * USEC_PER_SEC < U64
    ensures RateBytesPerSec(mtu, rate, gain) == x / BBR_UNIT * USEC_PER_SEC / BW_UNIT
  {
    Exact64(y);
    Exact64(x);
    Exact64(x / BBR_UNIT * USEC_PER_SEC);
  }

  lemma Exact64(x: nat)
    requires x < U64
    ensures Low64(x) == x
  {
  }

  lemma TwoShifts(x: nat)
    ensures var r := x / BBR_UNIT * USEC_PER_SEC / BW_UNIT;
            r * SCALES <= x * USEC_PER_SEC < (r + 2) * SCALES
  {
  }

  /** The target window is the gain times the bandwidth-delay product in packets, rounded up, plus room for three
      bursts, made even. */
  lemma TargetIsClose(us: uint32, tso: nat, bw: uint32, gain: nat)
    requires us != U32 - 1 && tso < 0x80 && bw * us * gain < 0xFFFF_0000_0000_0000
    ensures var t := TargetCwnd(us, tso, bw, gain);
            && t % 2 == 0 && t >= 3 * tso
            && bw * us * gain < (t - 3 * tso) * SCALES + BBR_UNIT
            && (t - 3 * tso) * SCALES < bw * us * gain + 2 * SCALES
  {
    hide TargetCwnd, Even, Packets, Low32;
    var x: nat := bw * us * gain;
    TargetIs(us, tso, bw, gain, x);
    PacketsAndBursts(x, tso);
  }

  lemma PacketsAndBursts(x: nat, tso: nat)
    requires x < 0xFFFF_0000_0000_0000 && tso < 0x80
    ensures var t := Even(Low32(Packets(x) + 3 * tso));
            && t % 2 == 0 && t >= 3 * tso
            && x < (t - 3 * tso) * SCALES + BBR_UNIT
            && (t - 3 * tso) * SCALES < x + 2 * SCALES
  {
    hide Even, Packets;
    PacketsClose(x);
    EvenMeans(Packets(x) + 3 * tso);
  }

  lemma TargetIs(us: uint32, tso: nat, bw: uint32, gain: nat, x: nat)
    requires us != U32 - 1 && x == bw * us * gain
    ensures TargetCwnd(us, tso, bw, gain) == Even(Low32(Packets(x) + 3 * tso))
  {
    hide Packets, Even;
  }

  lemma EvenMeans(x: uint32)
    ensures Even(x) % 2 == 0 && (x < U32 - 1 ==> x <= Even(x) <= x + 1)
  {
  }

  lemma PacketsClose(x: nat)
    requires x < 0xFFFF_0000_0000_0000
    ensures Packets(x) <= 0xFFFF_0001 && x < Packets(x) * SCALES + BBR_UNIT && Packets(x) * SCALES < x + SCALES
  {
  }
}
