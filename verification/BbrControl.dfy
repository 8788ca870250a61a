/** What one ACK does to the gains, the pacing rate, the window and the long-term bandwidth, in plain numbers. */
module BbrControl {
  import opened Bits
  import opened BbrModel
  import opened BbrInvariants
  import opened BbrAck
  import BbrProbeRtt

  // ---- The gain cycle ----

  /** How long the present phase lasts already, in microseconds. */
  function Elapsed(b: Bbr, tcp: Tcp): nat {
    if tcp.deliveredMstamp > b.gains.cycleMstamp then tcp.deliveredMstamp - b.gains.cycleMstamp else 0
  }

  /** Whether a phase is over: a cruising phase after a round trip; a probing phase after a round trip too, but not
      before it met a loss or had filled the pipe to its gain; a draining phase after a round trip or as soon as
      in-flight is down to the target. */
  predicate PhaseOver(b: Bbr, tcp: Tcp, rs: RateSample, maxBw: uint32) {
    var whole := Elapsed(b, tcp) > b.rtt.us;
    if b.gains.pacing == 256 then whole
    else if b.gains.pacing > 256
    then whole && (rs.losses > 0 || rs.priorInFlight >= TargetCwnd(b.rtt.us, b.win.tsoSegsGoal, maxBw, b.gains.pacing))
    else whole || rs.priorInFlight <= TargetCwnd(b.rtt.us, b.win.tsoSegsGoal, maxBw, 256)
  }

  /** In PROBE_BW, without long-term bandwidth, an ACK moves to the next of the eight phases exactly if the present one
      is over, and otherwise leaves all gains. */
  lemma CycleStep(c: Clock, b: Bbr, tcp: Tcp, rs: RateSample, d: Draws)
    requires b.gains.mode.ProbeBw? && !b.lt.useBw
    ensures var r := OnAck(c, b, tcp, rs, d).0;
            r.gains.mode.ProbeBw? && !r.lt.useBw ==>
              var idx := (b.gains.cycleIdx + 1) % 8;
              r.gains == if PhaseOver(b, tcp, rs, r.round.maxBw)
                         then b.gains.(cycleIdx := idx, cycleMstamp := tcp.deliveredMstamp,
                                       pacing := [384, 192, 320, 320, 320, 384, 384, 384][idx])
                         else b.gains
  {
    hide UpdateRates, OnAck, UpdateMinRtt, CheckFullBwReached, UpdateBw, PhaseOver, NewMaxBw;
    AckRates(c, b, tcp, rs, d);
    BandwidthStep(b, tcp, rs, d);
    MinRttKeepsRates(c, UpdateRates(b, tcp, rs, d), tcp, rs, d.rttDraw);
    AckModel(c, b, tcp, rs, d);
    var u := UpdateBw(b, tcp, rs, d);
    if !u.lt.useBw {
      GainsUntouched(b, tcp, rs, d);
      CycleRates(b, tcp, rs, d, u);
      MinRttGains(c, UpdateRates(b, tcp, rs, d), tcp, rs, d.rttDraw);
    }
  }

  /** While long-term bandwidth is not used, the bandwidth step leaves the gains. */
  lemma GainsUntouched(b: Bbr, tcp: Tcp, rs: RateSample, d: Draws)
    requires !b.lt.useBw
    ensures var u := UpdateBw(b, tcp, rs, d); !u.lt.useBw ==> u.gains == b.gains
  {
    hide NewMaxBw, NewRound, Consistent, Low32;
  }

  lemma CycleRates(b: Bbr, tcp: Tcp, rs: RateSample, d: Draws, u: Bbr)
    requires b.gains.mode.ProbeBw? && u == UpdateBw(b, tcp, rs, d) && !u.lt.useBw && u.gains == b.gains
    requires u.rtt == b.rtt && u.win.tsoSegsGoal == b.win.tsoSegsGoal
    ensures var r, idx := UpdateRates(b, tcp, rs, d), (b.gains.cycleIdx + 1) % 8;
            && r.round == u.round
            && r.gains == if PhaseOver(b, tcp, rs, u.round.maxBw)
                          then b.gains.(cycleIdx := idx, cycleMstamp := tcp.deliveredMstamp,
                                        pacing := [384, 192, 320, 320, 320, 384, 384, 384][idx])
                          else b.gains
  {
    hide UpdateBw, CheckFullBwReached, TargetCwnd;
  }

  lemma MinRttGains(c: Clock, b: Bbr, tcp: Tcp, rs: RateSample, draw: Draw)
    ensures var r := UpdateMinRtt(c, b, tcp, rs, draw);
            !b.gains.mode.ProbeRtt? && !r.gains.mode.ProbeRtt? ==> r.gains == b.gains
  {
    hide ResetMode, Low32;
  }

  // ---- The pacing rate ----

  /** The bandwidth that is used for rates and windows. */
  function UsedBw(b: Bbr): uint32 {
    if b.lt.useBw then b.lt.bw else b.round.maxBw
  }

  function Capped(tcp: Tcp, bw: uint32, gain: nat): uint32 {
    Smaller(RateBytesPerSec(tcp.mtu, bw, gain), tcp.maxPacingRate)
  }

  /** The rate of the first round trip: the window over it, or over a microsecond at least, at the high gain. */
  function FirstRate(tcp: Tcp): uint32 {
    Capped(tcp, tcp.sndCwnd * 0x100_0000 / Larger(tcp.srttUs / 8, 1) % 0x1_0000_0000, 769)
  }

  /** Once the pipe is full the pacing rate is the bandwidth in use at the gain of the phase, up to the cap. Before that
      it only rises, from the rate that the first round trip gives. */
  lemma PacingStep(c: Clock, b: Bbr, tcp: Tcp, rs: RateSample, d: Draws)
    ensures var (r, t) := OnAck(c, b, tcp, rs, d);
            var rate := Capped(tcp, UsedBw(r), r.gains.pacing);
            var first := !b.win.hasSeenRtt && tcp.srttUs != 0;
            && r.win.hasSeenRtt == (b.win.hasSeenRtt || tcp.srttUs != 0)
            && t.pacingRate == if r.full.reached then rate
                               else Larger(rate, if first then FirstRate(tcp) else tcp.pacingRate)
  {
    hide UpdateModel, UpdateRates, ProbeAppLimited, RecoverOrRestore, NewCwnd, StartsRecovery, RateBytesPerSec, Low32;
    AckWin(c, b, tcp, rs, d);
    AckModel(c, b, tcp, rs, d);
    FirstRateMeans(tcp);
  }

  lemma FirstRateMeans(tcp: Tcp)
    ensures tcp.srttUs != 0 ==> InitPacingRate(false, tcp) == (true, FirstRate(tcp))
  {
    hide RateBytesPerSec;
  }

  /** The fields of the window that the model step keeps. */
  lemma AckWin(c: Clock, b: Bbr, tcp: Tcp, rs: RateSample, d: Draws)
    ensures var m := UpdateModel(c, b, tcp, rs, d);
            m.win == b.win.(conservation := b.win.conservation && !NextRound(b, rs), prior := m.win.prior,
                            restore := m.win.restore)
  {
    hide UpdateRates, UpdateMinRtt;
    RatesWin(b, tcp, rs, d);
    MinRttKeepsRates(c, UpdateRates(b, tcp, rs, d), tcp, rs, d.rttDraw);
  }

  lemma RatesWin(b: Bbr, tcp: Tcp, rs: RateSample, d: Draws)
    ensures UpdateRates(b, tcp, rs, d).win == b.win.(conservation := b.win.conservation && !NextRound(b, rs))
  {
    hide UpdateBw, CheckFullBwReached, IsNextCyclePhase, CheckDrain;
    BandwidthStep(b, tcp, rs, d);
  }

  // ---- The window ----

  /** The target window of the state behind an ACK. */
  function Aim(r: Bbr): nat {
    TargetCwnd(r.rtt.us, r.win.tsoSegsGoal, UsedBw(r), r.gains.cwnd)
  }

  /** The window with the lost packets taken off, and raised to the saved window if that is to come back. */
  function Basis(tcp: Tcp, losses: nat, restores: bool, prior: nat): nat {
    var cut: nat := if losses == 0 then tcp.sndCwnd else if tcp.sndCwnd > losses then tcp.sndCwnd - losses else 1;
    if restores then Larger(cut, prior) else cut
  }

  /** Windows, losses and packet counts are far from the 32-bit limit. */
  predicate Small(b: Bbr, tcp: Tcp, rs: RateSample) {
    tcp.sndCwnd < 0x4000_0000 && tcp.inFlight < 0x4000_0000 && rs.ackedSacked < 0x4000_0000 && b.win.prior < 0x4000_0000
    && rs.losses < 0x4000_0000
  }

  /** The last step: the clamp, and in PROBE_RTT four packets. */
  function Clamped(m: Mode, clamp: nat, cwnd: nat): nat {
    if m.ProbeRtt? then Smaller(Smaller(cwnd, clamp), 4) else Smaller(cwnd, clamp)
  }

  /** What bbr_set_cwnd makes of the state and socket in front of it. */
  lemma CwndIs(b: Bbr, tcp: Tcp, rs: RateSample, bw: uint32, gain: nat)
    requires Small(b, tcp, rs) && rs.ackedSacked > 0
    ensures var flight := tcp.inFlight + rs.ackedSacked;
            var cwnd := NewCwnd(b, tcp, rs.losses, rs.ackedSacked, bw, gain);
            var target := TargetCwnd(b.rtt.us, b.win.tsoSegsGoal, bw, gain);
            var starts := tcp.caState == 3 && b.win.prevCaState != 3;
            var ends := b.win.prevCaState >= 3 && tcp.caState < 3;
            var basis := Basis(tcp, rs.losses, b.win.restore || ends, b.win.prior);
            cwnd == Clamped(b.gains.mode, tcp.clamp,
                            if starts then (if b.win.restore then Larger(flight, b.win.prior) else flight)
                            else if b.win.conservation && !ends then Larger(basis, flight)
                            else Larger(4, if b.full.reached then Smaller(basis + rs.ackedSacked, target)
                                           else if basis < target || tcp.delivered < 10 then basis + rs.ackedSacked
                                           else basis))
  {
    hide TargetCwnd, RecoverOrRestore, Low32, Basis;
    RecoverIs(b.win, tcp, rs.losses, rs.ackedSacked);
    var ends := b.win.prevCaState >= 3 && tcp.caState < 3;
    BasisSmall(tcp, rs.losses, b.win.restore || ends, b.win.prior);
    SumSmall(tcp.inFlight, rs.ackedSacked);
    SumSmall(Basis(tcp, rs.losses, b.win.restore || ends, b.win.prior), rs.ackedSacked);
  }

  lemma RecoverIs(w: Win, tcp: Tcp, losses: nat, acked: uint32)
    requires tcp.sndCwnd < 0x4000_0000 && tcp.inFlight < 0x4000_0000 && acked < 0x4000_0000 && losses < 0x4000_0000
    ensures var flight := tcp.inFlight + acked;
            var starts := tcp.caState == 3 && w.prevCaState != 3;
            var ends := w.prevCaState >= 3 && tcp.caState < 3;
            var basis := Basis(tcp, losses, w.restore || ends, w.prior);
            RecoverOrRestore(w, tcp, losses, acked) ==
              if starts then (if w.restore then Larger(flight, w.prior) else flight, true)
              else if w.conservation && !ends then (Larger(basis, flight), true)
              else (basis, false)
  {
    hide Low32, Signed;
    SumSmall(tcp.inFlight, acked);
    SignedSmall(tcp.sndCwnd, losses);
  }

  lemma BasisSmall(tcp: Tcp, losses: nat, restores: bool, prior: nat)
    requires tcp.sndCwnd < 0x4000_0000 && prior < 0x4000_0000
    ensures Basis(tcp, losses, restores, prior) < 0x4000_0000
  {
  }

  lemma SumSmall(x: nat, y: nat)
    requires x < 0x4000_0000 && y < 0x4000_0000
    ensures Low32(x + y) == x + y
  {
  }

  lemma SignedSmall(x: uint32, losses: nat)
    requires x < 0x4000_0000 && losses < 0x4000_0000
    ensures Signed(Low32(x - losses)) == x - losses
  {
  }

  /** What an ACK does to the window. Without an acknowledged packet: nothing. At the start of recovery: what is in
      flight. While packets are conserved, in the first round of recovery: what is in flight at least, with the losses
      taken off. Otherwise it grows by what was acknowledged, from the window with the losses taken off, or the saved
      one when recovery or PROBE_RTT ends: with a full pipe up to the target and no further, before that without limit
      while it is below; and it is four packets at least. The clamp caps it, and in PROBE_RTT four packets do. */
  lemma WindowStep(c: Clock, b: Bbr, tcp: Tcp, rs: RateSample, d: Draws)
    requires Small(b, tcp, rs)
    ensures var (r, t) := OnAck(c, b, tcp, rs, d);
            var m := UpdateModel(c, b, tcp, rs, d);
            var flight := tcp.inFlight + rs.ackedSacked;
            var starts := tcp.caState == 3 && b.win.prevCaState != 3;
            var ends := b.win.prevCaState >= 3 && tcp.caState < 3;
            var conserves := b.win.conservation && !NextRound(b, rs) && !ends;
            var basis := Basis(tcp, rs.losses, m.win.restore || ends, m.win.prior);
            if rs.ackedSacked == 0 then t.sndCwnd == tcp.sndCwnd
            else
              && t.sndCwnd == Clamped(r.gains.mode, tcp.clamp,
                   if starts then (if m.win.restore then Larger(flight, m.win.prior) else flight)
                   else if conserves then Larger(basis, flight)
                   else Larger(4, if r.full.reached then Smaller(basis + rs.ackedSacked, Aim(r))
                                  else if basis < Aim(r) || tcp.delivered < 10 then basis + rs.ackedSacked
                                  else basis))
              && r.win.prevCaState == tcp.caState && !r.win.restore && r.win.conservation == (starts || conserves)
  {
    hide UpdateModel, UpdateRates, ProbeAppLimited, NewCwnd, TargetCwnd, SetPacingRate, Small, Basis, Clamped;
    var m := UpdateModel(c, b, tcp, rs, d);
    AckWin(c, b, tcp, rs, d);
    AckModel(c, b, tcp, rs, d);
    PriorSmall(c, b, tcp, rs, d);
    var tcp1 := tcp.(appLimited := ProbeAppLimited(c, UpdateRates(b, tcp, rs, d), tcp));
    var (b2, tcp2) := Paced(m, tcp1);
    if rs.ackedSacked > 0 {
      SmallStays(b, tcp, rs, b2, tcp2);
      CwndIs(b2, tcp2, rs, BwOf(b2), b2.gains.cwnd);
      SameBasis(tcp, tcp2, rs.losses, b2.win.restore || (b.win.prevCaState >= 3 && tcp.caState < 3), b2.win.prior);
    }
  }

  lemma SameBasis(tcp: Tcp, tcp2: Tcp, losses: nat, restores: bool, prior: nat)
    requires tcp2.sndCwnd == tcp.sndCwnd
    ensures Basis(tcp2, losses, restores, prior) == Basis(tcp, losses, restores, prior)
  {
  }

  lemma SmallStays(b: Bbr, tcp: Tcp, rs: RateSample, b2: Bbr, tcp2: Tcp)
    requires Small(b, tcp, rs) && b2.win.prior in {b.win.prior, tcp.sndCwnd}
    requires tcp2.sndCwnd == tcp.sndCwnd && tcp2.inFlight == tcp.inFlight
    ensures Small(b2, tcp2, rs)
  {
  }

  lemma PriorSmall(c: Clock, b: Bbr, tcp: Tcp, rs: RateSample, d: Draws)
    ensures UpdateModel(c, b, tcp, rs, d).win.prior in {b.win.prior, tcp.sndCwnd}
  {
    hide UpdateRates, UpdateMinRtt, Enters;
    BbrProbeRtt.RatesFrame(b, tcp, rs, d);
    BbrProbeRtt.MinRttFrame(c, UpdateRates(b, tcp, rs, d), tcp, rs, d.rttDraw);
  }

  // ---- Long-term bandwidth ----

  /** What was delivered and lost since the sampling interval started, and for how many milliseconds it runs, in 32
      bits. */
  function Delivered(l: Lt, tcp: Tcp): nat {
    (tcp.delivered - l.lastDelivered) % 0x1_0000_0000
  }

  function Lost(l: Lt, tcp: Tcp): nat {
    (tcp.lost - l.lastLost) % 0x1_0000_0000
  }

  function Millis(l: Lt, tcp: Tcp): nat {
    (tcp.deliveredMstamp / 1000 - l.lastStamp) % 0x1_0000_0000
  }

  /** A sampling interval ends with a loss after 4 to 16 rounds, none of them limited by the application, of which the
      last may be the present one, if 50 in 256 packets or more were lost and it took from one millisecond to 71
      minutes. */
  predicate IntervalEnds(l: Lt, tcp: Tcp, starts: bool, rs: RateSample) {
    var rounds := l.rttCnt + if starts then 1 else 0;
    && l.isSampling && !rs.isAppLimited && rs.losses > 0 && 4 <= rounds <= 16
    && Delivered(l, tcp) > 0 && Lost(l, tcp) * 256 % 0x1_0000_0000 >= 50 * Delivered(l, tcp) % 0x1_0000_0000
    && 1 <= Millis(l, tcp) < 4294967
  }

  /** Its bandwidth, in the scale of the samples. */
  function IntervalBw(l: Lt, tcp: Tcp): uint32
    requires Millis(l, tcp) > 0
  {
    Delivered(l, tcp) * 0x100_0000 / (Millis(l, tcp) * 1000) % 0x1_0000_0000
  }

  /** The distance of two bandwidths, on the circle of 32-bit numbers. */
  function Distance(x: uint32, y: uint32): nat {
    var far := if x > y then x - y else y - x;
    if far > 0x8000_0000 then 0x1_0000_0000 - far else far
  }

  /** They differ by a quarter of the older one at most, or by 1000 bytes per second. */
  predicate Near(mtu: uint32, x: uint32, older: uint32) {
    || Distance(x, older) * 256 % 0x1_0000_0000 <= 64 * older % 0x1_0000_0000
    || RateBytesPerSec(mtu, Distance(x, older), 256) <= 1000
  }

  lemma DistanceMeans(x: uint32, y: uint32)
    ensures AbsDiff(x, y) == Distance(x, y)
  {
  }

  lemma EndIntervalMeans(l: Lt, pacing: nat, tcp: Tcp, starts: bool, rs: RateSample)
    requires !l.useBw && l.isSampling && !rs.isAppLimited && rs.losses > 0
    requires 4 <= l.rttCnt + (if starts then 1 else 0) <= 16
    ensures var l1 := if starts then l.(rttCnt := l.rttCnt + 1) else l;
            var l' := LtEndInterval(l1, pacing, tcp).0;
            if !IntervalEnds(l, tcp, starts, rs) then !l'.useBw && l'.bw in {0, l.bw}
            else
              var bw := IntervalBw(l, tcp);
              if l.bw != 0 && Near(tcp.mtu, bw, l.bw)
              then l'.useBw && l'.bw == (bw + l.bw) % 0x1_0000_0000 / 2
              else !l'.useBw && l'.bw == bw && l'.isSampling && l'.rttCnt == 0 && l'.lastDelivered == tcp.delivered
  {
    hide RateBytesPerSec, AbsDiff, Distance;
    if IntervalEnds(l, tcp, starts, rs) {
      DistanceMeans(IntervalBw(l, tcp), l.bw);
    }
  }

  /** The long-term bandwidth comes into use exactly when a sampling interval ends with about the bandwidth of the one
      before, as the mean of both, and goes out of use exactly with the 48th round in PROBE_BW. An interval that is not
      like the one before takes its place. */
  lemma LongTermStep(c: Clock, b: Bbr, tcp: Tcp, rs: RateSample, d: Draws)
    ensures var l, l', starts := b.lt, OnAck(c, b, tcp, rs, d).0.lt, NextRound(b, rs);
            if !Valid(rs) then l' == l
            else if l.useBw then
              l'.useBw == !(b.gains.mode.ProbeBw? && starts && l.rttCnt + 1 >= 48) && (l'.useBw ==> l'.bw == l.bw)
            else if IntervalEnds(l, tcp, starts, rs) then
              var bw := IntervalBw(l, tcp);
              if l.bw != 0 && Near(tcp.mtu, bw, l.bw)
              then l'.useBw && l'.bw == (bw + l.bw) % 0x1_0000_0000 / 2
              else !l'.useBw && l'.bw == bw && l'.isSampling && l'.rttCnt == 0 && l'.lastDelivered == tcp.delivered
            else !l'.useBw && l'.bw in {0, l.bw}
  {
    hide OnAck, CheckFullBwReached, NewMaxBw, LtEndInterval, Near, IntervalBw, Low32;
    AckRates(c, b, tcp, rs, d);
    var l, starts := b.lt, NextRound(b, rs);
    StartsIsNext(b, tcp, rs);
    var rounds := l.rttCnt + if starts then 1 else 0;
    if Valid(rs) && !l.useBw && l.isSampling && !rs.isAppLimited && rs.losses > 0 && 4 <= rounds <= 16 {
      EndIntervalMeans(l, b.gains.pacing, tcp, starts, rs);
    }
  }

  // ---- The rest of the socket, and the other callbacks ----

  /** An ACK changes nothing else in the socket than rate, window and app_limited, which marks all that is in flight
      while PROBE_RTT lasts, so that its low samples do not count. */
  lemma SocketStep(c: Clock, b: Bbr, tcp: Tcp, rs: RateSample, d: Draws)
    ensures var (r, t) := OnAck(c, b, tcp, rs, d);
            var enters := !b.gains.mode.ProbeRtt? && Expired(c, b, tcp) && !b.rtt.idleRestart;
            && t == tcp.(appLimited := t.appLimited, pacingRate := t.pacingRate, sndCwnd := t.sndCwnd)
            && t.appLimited == (if b.gains.mode.ProbeRtt? || enters then Larger(tcp.delivered + tcp.inFlight, 1)
                                else tcp.appLimited)
            && r.win.tsoSegsGoal == Smaller(tcp.tsoAutosize, 127)
  {
    hide UpdateModel, UpdateRates, RecoverOrRestore, NewCwnd, StartsRecovery, SetPacingRate;
    BbrProbeRtt.RatesFrame(b, tcp, rs, d);
  }

  /** ssthresh saves the window: the present one outside recovery and PROBE_RTT, otherwise the larger of it and the
      saved one. An undo judges the pipe and the policer afresh. A transmission after idleness is marked, and in
      PROBE_BW it starts at the unit gain. A timeout forgets the peak rate of the pipe check and counts as a loss that
      ends a round. */
  lemma OtherSteps(c: Clock, b: Bbr, i: Input)
    ensures var (r, t) := Step(c, b, i);
            match i.event
            case Ack(rs, d) => (r, t) == OnAck(c, b, i.tcp, rs, d)
            case Ssthresh =>
              && t == i.tcp
              && r == b.(win := b.win.(prior := if b.win.prevCaState < 3 && !b.gains.mode.ProbeRtt? then i.tcp.sndCwnd
                                                else Larger(b.win.prior, i.tcp.sndCwnd)))
            case Undo =>
              && t == i.tcp && r == b.(full := b.full.(bw := 0, cnt := 0), lt := r.lt)
              && !r.lt.useBw && !r.lt.isSampling && r.lt.bw == 0 && r.lt.rttCnt == 0
            case SetState(s, draw) =>
              && t == i.tcp
              && (s != 4 ==> r == b)
              && (s == 4 ==>
                    && r.win == b.win.(prevCaState := 4) && r.full == b.full.(bw := 0)
                    && r.round == b.round.(start := true) && r.rtt == b.rtt && r.gains.mode == b.gains.mode
                    && (r.lt, r.gains) == LtBwSampling(b.lt, b.gains, i.tcp, true, 1, false, draw))
            case CwndEvent(txStart) =>
              var restarts := txStart && i.tcp.appLimited != 0;
              && (!restarts ==> r == b && t == i.tcp)
              && (restarts ==>
                    && r == b.(rtt := b.rtt.(idleRestart := true), win := r.win)
                    && (!b.gains.mode.ProbeBw? ==> r.win == b.win && t == i.tcp)
                    && (b.gains.mode.ProbeBw? && b.full.reached ==>
                          t == i.tcp.(pacingRate := Capped(i.tcp, UsedBw(b), 256))))
  {
    hide OnAck, LtBwSampling, InitPacingRate, RateBytesPerSec;
    if i.event.SetState? {
      BbrProbeRtt.LtFrame(b.lt, b.gains, i.tcp, true, 1, false, i.event.draw);
    }
  }
}
