/** What every run of ACK, loss, undo and idle events of tcp_bbr_mod.c keeps. */
module BbrInvariants {
  import opened Bits
  import opened BbrModel

  /** One callback. */
  datatype Event =
    | Ack(rs: RateSample, draws: Draws)
    | Ssthresh
    | Undo
    | SetState(newState: nat, draw: Draw)
    | CwndEvent(txStart: bool)

  /** A callback with the socket it sees: the rest of the stack may have changed the socket in any way before. */
  datatype Input = Input(tcp: Tcp, event: Event)

  function Step(c: Clock, b: Bbr, i: Input): (Bbr, Tcp) {
    match i.event
    case Ack(rs, d) => OnAck(c, b, i.tcp, rs, d)
    case Ssthresh => (b.(win := SaveCwnd(b.win, b.gains.mode, i.tcp)), i.tcp)
    case Undo => (OnUndo(b, i.tcp), i.tcp)
    case SetState(s, draw) => (OnState(b, i.tcp, s, draw), i.tcp)
    case CwndEvent(tx) => OnCwndEvent(b, i.tcp, tx)
  }

  /** The state after the first `k` events. */
  function After(c: Clock, b: Bbr, run: seq<Input>, k: nat): Bbr
    requires k <= |run|
    decreases k
  {
    if k == 0 then b else Step(c, After(c, b, run, k - 1), run[k - 1]).0
  }

  // ---- Modes, gains and counters ----

  function GainOf(m: Mode): nat {
    match m
    case Startup => HIGH_GAIN
    case Drain => HIGH_GAIN
    case ProbeBw => CWND_GAIN
    case ProbeRtt => BBR_UNIT
  }

  /** The pacing gain is the one of the mode, or the unit that long-term bandwidth use leaves behind. */
  predicate PacingOk(g: Gains, ltUseBw: bool) {
    match g.mode
    case Startup => g.pacing == HIGH_GAIN || g.pacing == BBR_UNIT
    case Drain => g.pacing == DRAIN_GAIN || g.pacing == BBR_UNIT
    case ProbeBw => g.pacing == BBR_UNIT || (!ltUseBw && g.cycleIdx < CYCLE_LEN && g.pacing == PACING_GAIN[g.cycleIdx])
    case ProbeRtt => g.pacing == BBR_UNIT
  }

  predicate GainsOk(g: Gains, ltUseBw: bool) {
    g.cwnd == GainOf(g.mode) && PacingOk(g, ltUseBw) && g.cycleIdx < CYCLE_LEN
  }

  predicate LtOk(l: Lt) {
    l.rttCnt <= 47 && (!l.useBw ==> l.rttCnt <= 16)
  }

  predicate FullOk(f: Full) {
    f.cnt <= 3 && (!f.reached ==> f.cnt <= 2)
  }

  /** What holds between the steps of one ACK too. */
  predicate Kept(b: Bbr) {
    && (b.gains.mode.Drain? || b.gains.mode.ProbeBw? ==> b.full.reached)
    && GainsOk(b.gains, b.lt.useBw) && LtOk(b.lt) && FullOk(b.full) && b.win.tsoSegsGoal < 0x80
  }

  /** The invariant of every run. */
  predicate Inv(b: Bbr) {
    Kept(b) && (b.gains.mode.Startup? ==> !b.full.reached)
  }

  /** The fields fit into their 2, 3, 7 and 10 bits, and long-term bandwidth use paces at the estimate. */
  lemma FieldsFit(b: Bbr)
    requires Inv(b)
    ensures b.full.cnt < 4 && b.gains.cycleIdx < 8 && b.lt.rttCnt < 128 && b.win.tsoSegsGoal < 128
    ensures b.gains.pacing < 1024 && b.gains.cwnd < 1024
    ensures b.gains.mode.ProbeBw? && b.lt.useBw ==> b.gains.pacing == BBR_UNIT
  {
  }

  lemma InitHolds(tcp: Tcp)
    ensures Inv(Init(tcp).0) && !Init(tcp).0.full.reached && Init(tcp).0.win.prior == 0
  {
    hide InitPacingRate, Low32;
  }

  lemma ResetProbeBwOk(g: Gains, ltUseBw: bool, tcp: Tcp, draw: Draw)
    ensures GainsOk(ResetProbeBwMode(g, ltUseBw, tcp, draw), ltUseBw)
        && ResetProbeBwMode(g, ltUseBw, tcp, draw).mode.ProbeBw?
  {
  }

  lemma AdvanceOk(g: Gains, ltUseBw: bool, tcp: Tcp)
    requires GainsOk(g, ltUseBw) && g.mode.ProbeBw?
    ensures GainsOk(AdvanceCyclePhase(g, ltUseBw, tcp), ltUseBw) && AdvanceCyclePhase(g, ltUseBw, tcp).mode.ProbeBw?
  {
  }

  /** The unit gain is allowed in every mode. */
  lemma UnitOk(g: Gains, ltUseBw: bool, ltUseBw': bool)
    requires GainsOk(g, ltUseBw)
    ensures GainsOk(g.(pacing := BBR_UNIT), ltUseBw') && (!ltUseBw' ==> GainsOk(g, ltUseBw'))
  {
  }

  lemma EndIntervalOk(l: Lt, pacing: nat, tcp: Tcp)
    requires LtOk(l) && !l.useBw
    ensures var (l', p) := LtEndInterval(l, pacing, tcp);
            LtOk(l') && (p == BBR_UNIT || (p == pacing && !l'.useBw))
  {
    hide Consistent, Low32;
  }

  lemma SamplingOk(l: Lt, pacing: nat, tcp: Tcp, roundStart: bool, losses: nat, isAppLimited: bool)
    requires LtOk(l) && !l.useBw
    ensures var (l', p) := LtSampling(l, pacing, tcp, roundStart, losses, isAppLimited);
            LtOk(l') && (p == BBR_UNIT || (p == pacing && !l'.useBw))
  {
    hide LtEndInterval, Low32;
    var l1 := if roundStart then l.(rttCnt := l.rttCnt + 1) else l;
    if LT_INTVL_MIN_RTTS <= l1.rttCnt <= 4 * LT_INTVL_MIN_RTTS {
      EndIntervalOk(l1, pacing, tcp);
    }
  }

  lemma UsingOk(l: Lt, g: Gains, tcp: Tcp, roundStart: bool, draw: Draw)
    requires LtOk(l) && l.useBw && GainsOk(g, l.useBw)
    ensures var (l', g') := LtUsing(l, g, tcp, roundStart, draw);
            LtOk(l') && GainsOk(g', l'.useBw) && g'.mode == g.mode
  {
    hide GainsOk, ResetProbeBwMode, Low32;
    ResetProbeBwOk(g, false, tcp, draw);
  }

  lemma LtKeeps(l: Lt, g: Gains, tcp: Tcp, roundStart: bool, losses: nat, isAppLimited: bool, draw: Draw)
    requires LtOk(l) && GainsOk(g, l.useBw)
    ensures var (l', g') := LtBwSampling(l, g, tcp, roundStart, losses, isAppLimited, draw);
            LtOk(l') && GainsOk(g', l'.useBw) && g'.mode == g.mode
  {
    hide LtUsing, LtSampling, GainsOk;
    if l.useBw {
      UsingOk(l, g, tcp, roundStart, draw);
    } else {
      var l1 := if l.isSampling then l else ResetLtInterval(l, tcp).(isSampling := true);
      SamplingOk(l1, g.pacing, tcp, roundStart, losses, isAppLimited);
      UnitOk(g, false, LtSampling(l1, g.pacing, tcp, roundStart, losses, isAppLimited).0.useBw);
      assert g.(pacing := g.pacing) == g;
    }
  }

  lemma UpdateBwKeeps(b: Bbr, tcp: Tcp, rs: RateSample, d: Draws)
    requires Kept(b)
    ensures Kept(UpdateBw(b, tcp, rs, d))
    ensures UpdateBw(b, tcp, rs, d).gains.mode == b.gains.mode && UpdateBw(b, tcp, rs, d).full == b.full
  {
    hide LtBwSampling, NewMaxBw, NewRound, GainsOk;
    LtKeeps(b.lt, b.gains, tcp, NewRound(b.round, tcp, rs).start, rs.losses, rs.isAppLimited, d.ltDraw);
  }

  lemma CheckFullOk(f: Full, r: Round, isAppLimited: bool)
    requires FullOk(f)
    ensures FullOk(CheckFullBwReached(f, r, isAppLimited))
        && (f.reached ==> CheckFullBwReached(f, r, isAppLimited).reached)
  {
  }

  lemma CheckDrainKeeps(b: Bbr, tcp: Tcp, draw: Draw)
    requires Kept(b)
    ensures Inv(b.(gains := CheckDrain(b, tcp, draw)))
  {
    hide Target, ResetProbeBwMode;
    ResetProbeBwOk(b.gains, b.lt.useBw, tcp, draw);
    ResetProbeBwOk(b.gains.(mode := Drain, pacing := DRAIN_GAIN, cwnd := HIGH_GAIN), b.lt.useBw, tcp, draw);
  }

  lemma UpdateRatesKeeps(b: Bbr, tcp: Tcp, rs: RateSample, d: Draws)
    requires Inv(b)
    ensures Inv(UpdateRates(b, tcp, rs, d)) && (b.full.reached ==> UpdateRates(b, tcp, rs, d).full.reached)
  {
    hide UpdateBw, IsNextCyclePhase, CheckDrain, CheckFullBwReached, AdvanceCyclePhase, GainsOk;
    var b1 := UpdateBw(b, tcp, rs, d);
    UpdateBwKeeps(b, tcp, rs, d);
    if b1.gains.mode.ProbeBw? {
      AdvanceOk(b1.gains, b1.lt.useBw, tcp);
    }
    var b2 := UpdateCyclePhase(b1, tcp, rs);
    CheckFullOk(b2.full, b2.round, rs.isAppLimited);
    CheckDrainKeeps(b2.(full := CheckFullBwReached(b2.full, b2.round, rs.isAppLimited)), tcp, d.drainDraw);
  }

  lemma InProbeRttKeeps(c: Clock, b: Bbr, tcp: Tcp, draw: Draw)
    requires Inv(b)
    ensures Inv(InProbeRtt(c, b, tcp, draw)) && InProbeRtt(c, b, tcp, draw).full == b.full
  {
    hide ResetProbeBwMode;
    ResetProbeBwOk(b.gains, b.lt.useBw, tcp, draw);
  }

  lemma UpdateMinRttKeeps(c: Clock, b: Bbr, tcp: Tcp, rs: RateSample, draw: Draw)
    requires Inv(b)
    ensures Inv(UpdateMinRtt(c, b, tcp, rs, draw)) && UpdateMinRtt(c, b, tcp, rs, draw).full == b.full
  {
    hide Enters, TrackMinRtt, InProbeRtt;
    var b1 := b.(rtt := TrackMinRtt(c, b.rtt, tcp, rs));
    var b2 := if Enters(c, b, tcp) then EnterProbeRtt(b1, tcp) else b1;
    InProbeRttKeeps(c, b2, tcp, draw);
  }

  /** bbr_set_cwnd and the pacing step change neither the mode nor the gains, the counters and the round trip times. */
  lemma AckModel(c: Clock, b: Bbr, tcp: Tcp, rs: RateSample, d: Draws)
    ensures var m := UpdateModel(c, b, tcp, rs, d);
            var r := OnAck(c, b, tcp, rs, d).0;
            && r.rtt == m.rtt && r.gains == m.gains && r.lt == m.lt && r.full == m.full
            && r.win.prior == m.win.prior && r.win.tsoSegsGoal < 0x80
            && r.round == m.round.(nextDelivered := r.round.nextDelivered)
            && (r.round.nextDelivered == m.round.nextDelivered || r.round.nextDelivered == tcp.delivered)
  {
    hide UpdateModel, SetPacingRate, UpdateRates, ProbeAppLimited, RecoverOrRestore, NewCwnd, StartsRecovery;
  }

  lemma AckKeeps(c: Clock, b: Bbr, tcp: Tcp, rs: RateSample, d: Draws)
    requires Inv(b)
    ensures Inv(OnAck(c, b, tcp, rs, d).0) && (b.full.reached ==> OnAck(c, b, tcp, rs, d).0.full.reached)
  {
    hide UpdateRates, UpdateMinRtt, OnAck, GainsOk, LtOk, FullOk;
    UpdateRatesKeeps(b, tcp, rs, d);
    UpdateMinRttKeeps(c, UpdateRates(b, tcp, rs, d), tcp, rs, d.rttDraw);
    AckModel(c, b, tcp, rs, d);
  }

  lemma UndoKeeps(b: Bbr, tcp: Tcp)
    requires Inv(b)
    ensures Inv(OnUndo(b, tcp)) && OnUndo(b, tcp).full.reached == b.full.reached
  {
    hide GainsOk, Low32;
    UnitOk(b.gains, b.lt.useBw, false);
  }

  lemma StepKeeps(c: Clock, b: Bbr, i: Input)
    requires Inv(b)
    ensures Inv(Step(c, b, i).0) && (b.full.reached ==> Step(c, b, i).0.full.reached)
  {
    hide OnAck, LtBwSampling, SetPacingRate, GainsOk, OnUndo;
    match i.event
    case Ack(rs, d) => AckKeeps(c, b, i.tcp, rs, d);
    case Undo => UndoKeeps(b, i.tcp);
    case SetState(s, draw) => LtKeeps(b.lt, b.gains, i.tcp, true, 1, false, draw);
    case _ =>
  }

  /** In every run: DRAIN and PROBE_BW imply a filled pipe, STARTUP that it is not, the gains follow the mode, and the
      counters fit their fields. */
  lemma {:induction false} RunKeeps(c: Clock, b: Bbr, run: seq<Input>, k: nat)
    requires Inv(b) && k <= |run|
    ensures Inv(After(c, b, run, k))
    decreases k
  {
    hide Inv, Step;
    if k > 0 {
      RunKeeps(c, b, run, k - 1);
      StepKeeps(c, After(c, b, run, k - 1), run[k - 1]);
    }
  }

  /** Once the pipe is full it stays full. */
  lemma {:induction false} FullStaysFull(c: Clock, b: Bbr, run: seq<Input>, j: nat, k: nat)
    requires Inv(b) && j <= k <= |run| && After(c, b, run, j).full.reached
    ensures After(c, b, run, k).full.reached
    decreases k
  {
    hide Inv, Step;
    if j < k {
      FullStaysFull(c, b, run, j, k - 1);
      RunKeeps(c, b, run, k - 1);
      StepKeeps(c, After(c, b, run, k - 1), run[k - 1]);
    }
  }
}
