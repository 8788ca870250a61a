/** The congestion control decisions of tcp_bbr_mod.c, as functions of the state, the socket and one rate sample.
    Times and delivery counts do not wrap; the 32-bit and 64-bit arithmetic on rates and windows does. */
module BbrModel {
  import opened Bits

  const BW_UNIT: nat := 0x100_0000
  const BBR_UNIT: nat := 256
  const HIGH_GAIN: nat := 769
  const DRAIN_GAIN: nat := 85
  const CWND_GAIN: nat := 512
  const CYCLE_LEN: nat := 8
  const CYCLE_RAND: nat := 7
  const CWND_MIN_TARGET: nat := 4
  const FULL_BW_THRESH: nat := 320
  const FULL_BW_CNT: nat := 3
  const LT_INTVL_MIN_RTTS: nat := 4
  const LT_LOSS_THRESH: nat := 50
  const LT_BW_RATIO: nat := 64
  const LT_BW_DIFF: nat := 1000
  const LT_BW_MAX_RTTS: nat := 48
  const MIN_RTT_WIN_SEC: nat := 10
  const PROBE_RTT_MODE_MS: nat := 100
  const TCP_INIT_CWND: nat := 10
  const CA_RECOVERY: nat := 3
  const CA_LOSS: nat := 4
  const USEC_PER_SEC: nat := 1_000_000
  const USEC_PER_MSEC: nat := 1000
  const U32: nat := 0x1_0000_0000
  const U64: nat := 0x1_0000_0000_0000_0000

  const PACING_GAIN: seq<nat> := [384, 192, 320, 320, 320, 384, 384, 384]

  datatype Mode = Startup | Drain | ProbeBw | ProbeRtt

  /** The fields of struct bbr, in groups: minimum round trip and PROBE_RTT ... */
  datatype Rtt = Rtt(us: uint32, stamp: nat, doneStamp: nat, roundDone: bool, idleRestart: bool)

  /** ... bandwidth samples and packet-timed rounds; `maxBw` is what the windowed maximum filter answers ... */
  datatype Round = Round(maxBw: uint32, cnt: uint32, nextDelivered: nat, start: bool)

  /** ... mode and gains ... */
  datatype Gains = Gains(mode: Mode, pacing: nat, cwnd: nat, cycleIdx: nat, cycleMstamp: nat)

  /** ... long-term bandwidth sampling ... */
  datatype Lt = Lt(isSampling: bool, rttCnt: nat, useBw: bool, bw: uint32, lastDelivered: nat, lastStamp: nat,
      lastLost: nat)

  /** ... full pipe detection ... */
  datatype Full = Full(reached: bool, cnt: nat, bw: uint32)

  /** ... and the window. */
  datatype Win = Win(prevCaState: nat, conservation: bool,
      restore: bool, prior: uint32, tsoSegsGoal: nat, hasSeenRtt: bool)

  datatype Bbr = Bbr(rtt: Rtt, round: Round, gains: Gains, lt: Lt, full: Full, win: Win)

  /** What the socket holds when a callback runs. `now` is in jiffies; `tsoAutosize` answers for tcp_tso_autosize. */
  datatype Tcp = Tcp(
    now: nat, delivered: nat, deliveredMstamp: nat, lost: nat, inFlight: uint32, sndCwnd: uint32, clamp: uint32,
    appLimited: nat, srttUs: uint32, minRtt: uint32, caState: nat,
    pacingRate: uint32, maxPacingRate: uint32, mtu: uint32, tsoAutosize: uint32)

  /** An interval that fits the 32-bit divisor of do_div, or a negative mark. */
  type Interval = x: int | x < U32

  datatype RateSample = RateSample(
    delivered: int, intervalUs: Interval, priorDelivered: nat, priorInFlight: uint32, losses: nat, rttUs: int,
    isAppLimited: bool, ackedSacked: uint32)

  /** HZ, and msecs_to_jiffies(bbr_probe_rtt_mode_ms), which never rounds down. */
  datatype Clock = Clock(hz: nat, probeRttJiffies: nat)

  ghost predicate ClockOk(c: Clock) {
    c.probeRttJiffies > 0 && c.probeRttJiffies * 1000 >= PROBE_RTT_MODE_MS * c.hz
  }

  /** prandom_u32_max(bbr_cycle_rand) */
  type Draw = x: nat | x < CYCLE_RAND

  /** What one ACK draws: three possible restarts of the gain cycle, and the choice of the filter. */
  datatype Draws = Draws(ltDraw: Draw, drainDraw: Draw, rttDraw: Draw, filter: uint32)

  function Low32(x: int): uint32 {
    x % U32
  }

  function Low64(x: int): uint64 {
    x % U64
  }

  /** The value as a signed 32-bit integer. */
  function Signed(x: uint32): int {
    if x >= 0x8000_0000 then x - U32 else x
  }

  function Max(a: int, b: int): int {
    if a > b then a else b
  }

  function Min(a: int, b: int): int {
    if a < b then a else b
  }

  // ---- Rates and targets ----

  /** bbr_bw */
  function BwOf(b: Bbr): uint32 {
    if b.lt.useBw then b.lt.bw else b.round.maxBw
  }

  /** bbr_rate_bytes_per_sec */
  function RateBytesPerSec(mtu: uint32, rate: nat, gain: nat): nat {
    Low64(Low64(Low64(rate * mtu) * gain) / BBR_UNIT * USEC_PER_SEC) / BW_UNIT
  }

  /** bbr_bw_to_pacing_rate */
  function PacingRate(tcp: Tcp, bw: uint32, gain: nat): uint32 {
    var rate := RateBytesPerSec(tcp.mtu, bw, gain);
    if rate < tcp.maxPacingRate then rate else tcp.maxPacingRate
  }

  /** bbr_init_pacing_rate_from_rtt: whether a round trip has been seen, and the rate. */
  function InitPacingRate(seen: bool, tcp: Tcp): (bool, uint32) {
    var rttUs: nat := if tcp.srttUs != 0 then (if tcp.srttUs / 8 > 1 then tcp.srttUs / 8 else 1) else USEC_PER_MSEC;
    (seen || tcp.srttUs != 0, PacingRate(tcp, Low32(tcp.sndCwnd * BW_UNIT / rttUs), HIGH_GAIN))
  }

  /** bbr_set_pacing_rate: whether a round trip has been seen, and the rate. */
  function SetPacingRate(seen: bool, fullBwReached: bool, tcp: Tcp, bw: uint32, gain: nat): (bool, uint32) {
    var rate := PacingRate(tcp, bw, gain);
    var (seen1, rate1) := if !seen && tcp.srttUs != 0 then InitPacingRate(seen, tcp) else (seen, tcp.pacingRate);
    (seen1, if fullBwReached || rate > rate1 then rate else rate1)
  }

  /** bbr_set_tso_segs_goal: the smaller of the answer and what seven bits hold. */
  function TsoSegsGoal(tcp: Tcp): (r: nat)
    ensures r < 0x80
  {
    if tcp.tsoAutosize < 0x7F then tcp.tsoAutosize else 0x7F
  }

  /** `(cwnd + 1) & ~1U` */
  function Even(x: uint32): uint32 {
    Low32(x + 1) / 2 * 2
  }

  /** Removes both scales, rounding up to whole packets. */
  function Packets(x: nat): uint32 {
    Low32(Low64(Low64(x) / BBR_UNIT + BW_UNIT - 1) / BW_UNIT)
  }

  /** bbr_target_cwnd */
  function TargetCwnd(minRttUs: uint32, tsoSegsGoal: nat, bw: uint32, gain: nat): uint32 {
    if minRttUs == U32 - 1 then TCP_INIT_CWND
    else
      var w: nat := bw * minRttUs;
      Even(Low32(Packets(w * gain) + 3 * tsoSegsGoal))
  }

  function Target(b: Bbr, bw: uint32, gain: nat): uint32 {
    TargetCwnd(b.rtt.us, b.win.tsoSegsGoal, bw, gain)
  }

  // ---- The gain cycle and the modes ----

  /** bbr_is_next_cycle_phase */
  predicate IsNextCyclePhase(b: Bbr, tcp: Tcp, rs: RateSample) {
    var isFullLength := Max(tcp.deliveredMstamp - b.gains.cycleMstamp, 0) > b.rtt.us;
    if b.gains.pacing == BBR_UNIT then isFullLength
    else if b.gains.pacing > BBR_UNIT then
      isFullLength && (rs.losses != 0 || rs.priorInFlight >= Target(b, b.round.maxBw, b.gains.pacing))
    else isFullLength || rs.priorInFlight <= Target(b, b.round.maxBw, BBR_UNIT)
  }

  /** bbr_advance_cycle_phase */
  function AdvanceCyclePhase(g: Gains, ltUseBw: bool, tcp: Tcp): Gains {
    var idx := (g.cycleIdx + 1) % CYCLE_LEN;
    g.(cycleIdx := idx, cycleMstamp := tcp.deliveredMstamp, pacing := if ltUseBw then BBR_UNIT else PACING_GAIN[idx])
  }

  /** bbr_update_cycle_phase */
  function UpdateCyclePhase(b: Bbr, tcp: Tcp, rs: RateSample): Bbr {
    if b.gains.mode.ProbeBw? && IsNextCyclePhase(b, tcp, rs)
    then b.(gains := AdvanceCyclePhase(b.gains, b.lt.useBw, tcp)) else b
  }

  /** bbr_reset_startup_mode */
  function ResetStartupMode(g: Gains): Gains {
    g.(mode := Startup, pacing := HIGH_GAIN, cwnd := HIGH_GAIN)
  }

  /** bbr_reset_probe_bw_mode */
  function ResetProbeBwMode(g: Gains, ltUseBw: bool, tcp: Tcp, draw: Draw): Gains {
    AdvanceCyclePhase(
      g.(mode := ProbeBw, pacing := BBR_UNIT, cwnd := CWND_GAIN, cycleIdx := CYCLE_LEN - 1 - draw), ltUseBw, tcp)
  }

  /** bbr_reset_mode */
  function ResetMode(g: Gains, fullBwReached: bool, ltUseBw: bool, tcp: Tcp, draw: Draw): Gains {
    if !fullBwReached then ResetStartupMode(g) else ResetProbeBwMode(g, ltUseBw, tcp, draw)
  }

  // ---- Long-term bandwidth sampling ----

  /** bbr_reset_lt_bw_sampling_interval */
  function ResetLtInterval(l: Lt, tcp: Tcp): Lt {
    l.(lastStamp := Low32(tcp.deliveredMstamp / USEC_PER_MSEC), lastDelivered := tcp.delivered, lastLost := tcp.lost,
    rttCnt := 0)
  }

  /** bbr_reset_lt_bw_sampling */
  function ResetLt(l: Lt, tcp: Tcp): Lt {
    ResetLtInterval(l.(bw := 0, useBw := false, isSampling := false), tcp)
  }

  /** The kernel's abs on the difference of two unsigned values. */
  function AbsDiff(x: uint32, y: uint32): nat {
    var d := Signed(Low32(x - y));
    if d < 0 then -d else d
  }

  /** Whether two intervals have about the same bandwidth. */
  predicate Consistent(mtu: uint32, bw: uint32, ltBw: uint32) {
    var diff := AbsDiff(bw, ltBw);
    Low32(diff * BBR_UNIT) <= Low32(LT_BW_RATIO * ltBw) || RateBytesPerSec(mtu, diff, BBR_UNIT) <= LT_BW_DIFF
  }

  /** bbr_lt_bw_interval_done: the sampling state, and the pacing gain. */
  function LtIntervalDone(l: Lt, pacing: nat, tcp: Tcp, bw: uint32): (Lt, nat) {
    if l.bw != 0 && Consistent(tcp.mtu, bw, l.bw)
    then (l.(bw := Low32(bw + l.bw) / 2, useBw := true, rttCnt := 0), BBR_UNIT)
    else (ResetLtInterval(l.(bw := bw), tcp), pacing)
  }

  /** The end of bbr_lt_bw_sampling: a loss may end the interval. */
  function LtEndInterval(l: Lt, pacing: nat, tcp: Tcp): (Lt, nat) {
    var lost := Low32(tcp.lost - l.lastLost);
    var delivered := Low32(tcp.delivered - l.lastDelivered);
    var t := Low32(tcp.deliveredMstamp / USEC_PER_MSEC - l.lastStamp);
    if delivered == 0 || Low32(lost * 256) < Low32(LT_LOSS_THRESH * delivered) then (l, pacing)
    else if Signed(t) < 1 then (l, pacing)
    else if t >= (U32 - 1) / USEC_PER_MSEC then (ResetLt(l, tcp), pacing)
    else LtIntervalDone(l, pacing, tcp, Low32(delivered * BW_UNIT / (t * USEC_PER_MSEC)))
  }

  /** bbr_lt_bw_sampling once sampling runs. */
  function LtSampling(l: Lt, pacing: nat, tcp: Tcp, roundStart: bool, losses: nat, isAppLimited: bool): (Lt, nat) {
    if isAppLimited then (ResetLt(l, tcp), pacing)
    else
      var l1 := if roundStart then l.(rttCnt := l.rttCnt + 1) else l;
      if l1.rttCnt < LT_INTVL_MIN_RTTS then (l1, pacing)
      else if l1.rttCnt > 4 * LT_INTVL_MIN_RTTS then (ResetLt(l1, tcp), pacing)
      else if losses == 0 then (l1, pacing)
      else LtEndInterval(l1, pacing, tcp)
  }

  /** bbr_lt_bw_sampling while lt_bw is in use: after 48 rounds in PROBE_BW the gain cycle restarts without it. */
  function LtUsing(l: Lt, g: Gains, tcp: Tcp, roundStart: bool, draw: Draw): (Lt, Gains) {
    if g.mode.ProbeBw? && roundStart then
      var l1 := l.(rttCnt := l.rttCnt + 1);
      if l1.rttCnt >= LT_BW_MAX_RTTS
      then (ResetLt(l1, tcp), ResetProbeBwMode(g, ResetLt(l1, tcp).useBw, tcp, draw)) else (l1, g)
    else (l, g)
  }

  /** bbr_lt_bw_sampling */
  function LtBwSampling(l: Lt, g: Gains, tcp: Tcp, roundStart: bool, losses: nat, isAppLimited: bool, draw: Draw)
    : (Lt, Gains)
  {
    if l.useBw then LtUsing(l, g, tcp, roundStart, draw)
    else if !l.isSampling && losses == 0 then (l, g)
    else
      var l1 := if l.isSampling then l else ResetLtInterval(l, tcp).(isSampling := true);
      var (l2, pacing) := LtSampling(l1, g.pacing, tcp, roundStart, losses, isAppLimited);
      (l2, g.(pacing := pacing))
  }

  // ---- The model update ----

  /** minmax_running_max: at least the new sample, and no more than it or the old maximum. */
  function RunningMax(before: uint32, sample: uint32, filter: uint32): uint32 {
    if filter < sample then sample else if filter > before then (if before > sample then before else sample) else filter
  }

  /** A valid observation has both. */
  predicate ValidSample(rs: RateSample) {
    rs.delivered >= 0 && rs.intervalUs > 0
  }

  /** Whether this ACK is for a packet sent after the round started. */
  predicate StartsRound(r: Round, rs: RateSample) {
    ValidSample(rs) && rs.priorDelivered >= r.nextDelivered
  }

  /** The rounds after bbr_update_bw. */
  function NewRound(r: Round, tcp: Tcp, rs: RateSample): Round {
    if StartsRound(r, rs) then r.(nextDelivered := tcp.delivered, cnt := Low32(r.cnt + 1), start := true)
    else r.(start := false)
  }

  /** The bandwidth filter after bbr_update_bw. */
  function NewMaxBw(maxBw: uint32, rs: RateSample, filter: uint32): uint32
    requires ValidSample(rs)
  {
    var bw := Low64(rs.delivered * BW_UNIT) / rs.intervalUs;
    if !rs.isAppLimited || bw >= maxBw then RunningMax(maxBw, Low32(bw), filter) else maxBw
  }

  /** bbr_update_bw */
  function UpdateBw(b: Bbr, tcp: Tcp, rs: RateSample, d: Draws): Bbr {
    var r := NewRound(b.round, tcp, rs);
    if !ValidSample(rs) then b.(round := r)
    else
      var (l, g) := LtBwSampling(b.lt, b.gains, tcp, r.start, rs.losses, rs.isAppLimited, d.ltDraw);
      b.(round := r.(maxBw := NewMaxBw(r.maxBw, rs, d.filter)), lt := l, gains := g,
         win := b.win.(conservation := b.win.conservation && !r.start))
  }

  /** bbr_check_full_bw_reached */
  function CheckFullBwReached(f: Full, r: Round, isAppLimited: bool): Full {
    if f.reached || !r.start || isAppLimited then f
    else if r.maxBw >= Low32(f.bw * FULL_BW_THRESH / 256) then f.(bw := r.maxBw, cnt := 0)
    else f.(cnt := f.cnt + 1, reached := f.cnt + 1 >= FULL_BW_CNT)
  }

  /** bbr_check_drain */
  function CheckDrain(b: Bbr, tcp: Tcp, draw: Draw): Gains {
    var g := if b.gains.mode.Startup? && b.full.reached
             then b.gains.(mode := Drain, pacing := DRAIN_GAIN, cwnd := HIGH_GAIN) else b.gains;
    if g.mode.Drain? && tcp.inFlight <= Target(b, b.round.maxBw, BBR_UNIT)
    then ResetProbeBwMode(g, b.lt.useBw, tcp, draw) else g
  }

  /** bbr_save_cwnd */
  function SaveCwnd(w: Win, m: Mode, tcp: Tcp): Win {
    if w.prevCaState < CA_RECOVERY && !m.ProbeRtt? then w.(prior := tcp.sndCwnd)
    else w.(prior := if w.prior > tcp.sndCwnd then w.prior else tcp.sndCwnd)
  }

  predicate FilterExpired(c: Clock, r: Rtt, tcp: Tcp) {
    tcp.now > r.stamp + MIN_RTT_WIN_SEC * c.hz
  }

  function TrackMinRtt(c: Clock, r: Rtt, tcp: Tcp, rs: RateSample): Rtt {
    if rs.rttUs >= 0 && (rs.rttUs <= r.us || FilterExpired(c, r, tcp))
    then r.(us := Low32(rs.rttUs), stamp := tcp.now) else r
  }

  /** The entry into PROBE_RTT. The mode changes before the window is saved. */
  function EnterProbeRtt(b: Bbr, tcp: Tcp): Bbr {
    b.(gains := b.gains.(mode := ProbeRtt, pacing := BBR_UNIT, cwnd := BBR_UNIT),
       win := SaveCwnd(b.win, ProbeRtt, tcp), rtt := b.rtt.(doneStamp := 0))
  }

  /** One ACK inside PROBE_RTT. */
  function InProbeRtt(c: Clock, b: Bbr, tcp: Tcp, draw: Draw): Bbr {
    if b.rtt.doneStamp == 0 then
      if tcp.inFlight <= CWND_MIN_TARGET
      then b.(rtt := b.rtt.(doneStamp := tcp.now + c.probeRttJiffies, roundDone := false),
              round := b.round.(nextDelivered := tcp.delivered))
      else b
    else
      var done := b.rtt.roundDone || b.round.start;
      if done && tcp.now > b.rtt.doneStamp
      then b.(rtt := b.rtt.(roundDone := true, stamp := tcp.now), win := b.win.(restore := true),
              gains := ResetMode(b.gains, b.full.reached, b.lt.useBw, tcp, draw))
      else b.(rtt := b.rtt.(roundDone := done))
  }

  /** Whether an ACK enters PROBE_RTT. */
  predicate Enters(c: Clock, b: Bbr, tcp: Tcp) {
    FilterExpired(c, b.rtt, tcp) && !b.rtt.idleRestart && !b.gains.mode.ProbeRtt?
  }

  /** bbr_update_min_rtt */
  function UpdateMinRtt(c: Clock, b: Bbr, tcp: Tcp, rs: RateSample, draw: Draw): Bbr {
    var b1 := b.(rtt := TrackMinRtt(c, b.rtt, tcp, rs));
    var b2 := if Enters(c, b, tcp) then EnterProbeRtt(b1, tcp) else b1;
    var b3 := if b2.gains.mode.ProbeRtt? then InProbeRtt(c, b2, tcp, draw) else b2;
    b3.(rtt := b3.rtt.(idleRestart := false))
  }

  /** What bbr_update_min_rtt leaves in tp->app_limited. */
  function ProbeAppLimited(c: Clock, b: Bbr, tcp: Tcp): nat {
    if b.gains.mode.ProbeRtt? || Enters(c, b, tcp)
    then (if tcp.delivered + tcp.inFlight == 0 then 1 else tcp.delivered + tcp.inFlight)
    else tcp.appLimited
  }

  // ---- The window ----

  /** Whether an ACK starts the first round of recovery. */
  predicate StartsRecovery(w: Win, tcp: Tcp) {
    tcp.caState == CA_RECOVERY && w.prevCaState != CA_RECOVERY
  }

  /** Whether an ACK leaves loss recovery. */
  predicate EndsRecovery(w: Win, tcp: Tcp) {
    !StartsRecovery(w, tcp) && w.prevCaState >= CA_RECOVERY && tcp.caState < CA_RECOVERY
  }

  /** bbr_set_cwnd_to_recover_or_restore: the window, and whether packets are conserved. */
  function RecoverOrRestore(w: Win, tcp: Tcp, losses: nat, acked: uint32): (uint32, bool) {
    var cwnd: uint32 := if losses > 0 then Max(Signed(Low32(tcp.sndCwnd - losses)), 1) else tcp.sndCwnd;
    var flight := Low32(tcp.inFlight + acked);
    var cwnd1 := if StartsRecovery(w, tcp) then flight else cwnd;
    var restores := w.restore || EndsRecovery(w, tcp);
    var conserves := StartsRecovery(w, tcp) || (w.conservation && !EndsRecovery(w, tcp));
    var cwnd2 := if restores && w.prior > cwnd1 then w.prior else cwnd1;
    (if conserves && flight > cwnd2 then flight else cwnd2, conserves)
  }

  /** The window that bbr_set_cwnd steers to when packets are not conserved. */
  function Steer(fullBwReached: bool, delivered: nat, acked: uint32, cwnd: uint32, target: uint32): uint32 {
    var grown := Low32(cwnd + acked);
    var steered := if fullBwReached then (if grown < target then grown else target)
                   else if cwnd < target || delivered < TCP_INIT_CWND then grown else cwnd;
    if steered > CWND_MIN_TARGET then steered else CWND_MIN_TARGET
  }

  /** The window after bbr_set_cwnd. */
  function NewCwnd(b: Bbr, tcp: Tcp, losses: nat, acked: uint32, bw: uint32, gain: nat): uint32 {
    var (cwnd, conserves) := RecoverOrRestore(b.win, tcp, losses, acked);
    var wanted := if conserves then cwnd else Steer(b.full.reached, tcp.delivered, acked, cwnd, Target(b, bw, gain));
    var capped := if wanted < tcp.clamp then wanted else tcp.clamp;
    if b.gains.mode.ProbeRtt? && capped > CWND_MIN_TARGET then CWND_MIN_TARGET else capped
  }

  /** bbr_set_cwnd */
  function SetCwnd(b: Bbr, tcp: Tcp, losses: nat, acked: uint32, bw: uint32, gain: nat): (Bbr, uint32) {
    if acked == 0 then (b, tcp.sndCwnd)
    else
      var (_, conserves) := RecoverOrRestore(b.win, tcp, losses, acked);
      (b.(win := b.win.(conservation := conserves, prevCaState := tcp.caState, restore := false),
          round := if StartsRecovery(b.win, tcp) then b.round.(nextDelivered := tcp.delivered) else b.round),
       NewCwnd(b, tcp, losses, acked, bw, gain))
  }

  // ---- The callbacks ----

  /** bbr_update_model without bbr_update_min_rtt. */
  function UpdateRates(b: Bbr, tcp: Tcp, rs: RateSample, d: Draws): Bbr {
    var b1 := UpdateCyclePhase(UpdateBw(b, tcp, rs, d), tcp, rs);
    var b2 := b1.(full := CheckFullBwReached(b1.full, b1.round, rs.isAppLimited));
    b2.(gains := CheckDrain(b2, tcp, d.drainDraw))
  }

  /** bbr_update_model */
  function UpdateModel(c: Clock, b: Bbr, tcp: Tcp, rs: RateSample, d: Draws): Bbr {
    UpdateMinRtt(c, UpdateRates(b, tcp, rs, d), tcp, rs, d.rttDraw)
  }

  /** The pacing and segment size steps of bbr_main. */
  function Paced(b: Bbr, tcp: Tcp): (Bbr, Tcp) {
    var (seen, rate) := SetPacingRate(b.win.hasSeenRtt, b.full.reached, tcp, BwOf(b), b.gains.pacing);
    (b.(win := b.win.(hasSeenRtt := seen, tsoSegsGoal := TsoSegsGoal(tcp))), tcp.(pacingRate := rate))
  }

  /** bbr_main */
  function OnAck(c: Clock, b: Bbr, tcp: Tcp, rs: RateSample, d: Draws): (Bbr, Tcp) {
    var tcp1 := tcp.(appLimited := ProbeAppLimited(c, UpdateRates(b, tcp, rs, d), tcp));
    var (b2, tcp2) := Paced(UpdateModel(c, b, tcp, rs, d), tcp1);
    var (b3, cwnd) := SetCwnd(b2, tcp2, rs.losses, rs.ackedSacked, BwOf(b2), b2.gains.cwnd);
    (b3, tcp2.(sndCwnd := cwnd))
  }

  /** bbr_init */
  function Init(tcp: Tcp): (Bbr, Tcp) {
    var (seen, rate) := InitPacingRate(false, tcp);
    (Bbr(Rtt(tcp.minRtt, tcp.now, 0, false, false), Round(0, 0, 0, false),
         ResetStartupMode(Gains(Startup, 0, 0, 0, 0)), ResetLt(Lt(false, 0, false, 0, 0, 0, 0), tcp),
         Full(false, 0, 0), Win(0, false, false, 0, 0, seen)),
     tcp.(pacingRate := rate))
  }

  /** bbr_undo_cwnd */
  function OnUndo(b: Bbr, tcp: Tcp): Bbr {
    b.(full := b.full.(bw := 0, cnt := 0), lt := ResetLt(b.lt, tcp))
  }

  /** bbr_set_state */
  function OnState(b: Bbr, tcp: Tcp, newState: nat, draw: Draw): Bbr {
    if newState == CA_LOSS then
      var (l, g) := LtBwSampling(b.lt, b.gains, tcp, true, 1, false, draw);
      b.(win := b.win.(prevCaState := CA_LOSS), full := b.full.(bw := 0), round := b.round.(start := true), lt := l,
      gains := g)
    else b
  }

  /** bbr_cwnd_event */
  function OnCwndEvent(b: Bbr, tcp: Tcp, txStart: bool): (Bbr, Tcp) {
    if txStart && tcp.appLimited != 0 then
      var b1 := b.(rtt := b.rtt.(idleRestart := true));
      if b1.gains.mode.ProbeBw? then
        var (seen, rate) := SetPacingRate(b1.win.hasSeenRtt, b1.full.reached, tcp, BwOf(b1), BBR_UNIT);
        (b1.(win := b1.win.(hasSeenRtt := seen)), tcp.(pacingRate := rate))
      else (b1, tcp)
    else (b, tcp)
  }
}
