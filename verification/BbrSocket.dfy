/** The callbacks of tcp_bbr_mod.c as they assign the fields of struct bbr and of the socket, against the functions of
    module BbrModel. */
module BbrSocket {
  import opened Bits
  import opened BbrModel
  import opened BbrInvariants

  class Connection {
    var rtt: Rtt
    var round: Round
    var gains: Gains
    var lt: Lt
    var full: Full
    var win: Win
    var tcp: Tcp
    const clock: Clock

    ghost function View(): Bbr
      reads this
    {
      Bbr(rtt, round, gains, lt, full, win)
    }

    // ---- The gain cycle ----

    /** bbr_advance_cycle_phase */
    method AdvanceCyclePhase()
      modifies this`gains
      ensures gains == BbrModel.AdvanceCyclePhase(old(gains), lt.useBw, tcp)
    {
      gains := gains.(cycleIdx := (gains.cycleIdx + 1) % CYCLE_LEN);
      gains := gains.(cycleMstamp := tcp.deliveredMstamp);
      gains := gains.(pacing := if lt.useBw then BBR_UNIT else PACING_GAIN[gains.cycleIdx]);
    }

    /** bbr_target_cwnd */
    method TargetCwnd(bw: uint32, gain: nat) returns (cwnd: uint32)
      ensures cwnd == Target(View(), bw, gain)
    {
      if rtt.us == 0xFFFF_FFFF {
        return TCP_INIT_CWND;
      }
      var w: nat := bw * rtt.us;
      cwnd := Packets(w * gain);
      cwnd := Low32(cwnd + 3 * win.tsoSegsGoal);
      cwnd := Even(cwnd);
    }

    /** bbr_is_next_cycle_phase */
    method IsNextCyclePhase(rs: RateSample) returns (r: bool)
      ensures r == BbrModel.IsNextCyclePhase(View(), tcp, rs)
    {
      hide Target;
      var isFullLength := Max(tcp.deliveredMstamp - gains.cycleMstamp, 0) > rtt.us;
      if gains.pacing == BBR_UNIT {
        return isFullLength;
      }
      var inflight, bw := rs.priorInFlight, round.maxBw;
      if gains.pacing > BBR_UNIT {
        var target := TargetCwnd(bw, gains.pacing);
        return isFullLength && (rs.losses != 0 || inflight >= target);
      }
      var target := TargetCwnd(bw, BBR_UNIT);
      return isFullLength || inflight <= target;
    }

    /** bbr_update_cycle_phase */
    method UpdateCyclePhase(rs: RateSample)
      modifies this`gains
      ensures View() == BbrModel.UpdateCyclePhase(old(View()), tcp, rs)
    {
      hide BbrModel.IsNextCyclePhase, BbrModel.AdvanceCyclePhase;
      if gains.mode == ProbeBw {
        var next := IsNextCyclePhase(rs);
        if next {
          AdvanceCyclePhase();
        }
      }
    }

    /** bbr_reset_probe_bw_mode */
    method ResetProbeBwMode(draw: Draw)
      modifies this`gains
      ensures gains == BbrModel.ResetProbeBwMode(old(gains), lt.useBw, tcp, draw)
    {
      gains := gains.(mode := ProbeBw);
      gains := gains.(pacing := BBR_UNIT);
      gains := gains.(cwnd := CWND_GAIN);
      gains := gains.(cycleIdx := CYCLE_LEN - 1 - draw);
      AdvanceCyclePhase();
    }

    /** bbr_reset_mode */
    method ResetMode(draw: Draw)
      modifies this`gains
      ensures gains == BbrModel.ResetMode(old(gains), full.reached, lt.useBw, tcp, draw)
    {
      if !full.reached {
        gains := gains.(mode := Startup);
        gains := gains.(pacing := HIGH_GAIN);
        gains := gains.(cwnd := HIGH_GAIN);
      } else {
        ResetProbeBwMode(draw);
      }
    }

    // ---- Long-term bandwidth sampling ----

    /** bbr_reset_lt_bw_sampling_interval */
    method ResetLtInterval()
      modifies this`lt
      ensures lt == BbrModel.ResetLtInterval(old(lt), tcp)
    {
      lt := lt.(lastStamp := Low32(tcp.deliveredMstamp / USEC_PER_MSEC));
      lt := lt.(lastDelivered := tcp.delivered);
      lt := lt.(lastLost := tcp.lost);
      lt := lt.(rttCnt := 0);
    }

    /** bbr_reset_lt_bw_sampling */
    method ResetLt()
      modifies this`lt
      ensures lt == BbrModel.ResetLt(old(lt), tcp)
    {
      lt := lt.(bw := 0);
      lt := lt.(useBw := false);
      lt := lt.(isSampling := false);
      ResetLtInterval();
    }

    /** bbr_lt_bw_interval_done */
    method LtIntervalDone(bw: uint32)
      modifies this`lt, this`gains
      ensures (lt, gains.pacing) == BbrModel.LtIntervalDone(old(lt), old(gains.pacing), tcp, bw)
      ensures gains == old(gains).(pacing := gains.pacing)
    {
      hide Low32, AbsDiff, RateBytesPerSec;
      if lt.bw != 0 {
        var diff := AbsDiff(bw, lt.bw);
        if Low32(diff * BBR_UNIT) <= Low32(LT_BW_RATIO * lt.bw)
            || RateBytesPerSec(tcp.mtu, diff, BBR_UNIT) <= LT_BW_DIFF {
          lt := lt.(bw := Low32(bw + lt.bw) / 2);
          lt := lt.(useBw := true);
          gains := gains.(pacing := BBR_UNIT);
          lt := lt.(rttCnt := 0);
          return;
        }
      }
      lt := lt.(bw := bw);
      ResetLtInterval();
    }

    /** The end of bbr_lt_bw_sampling. */
    method LtEndInterval()
      modifies this`lt, this`gains
      ensures (lt, gains.pacing) == BbrModel.LtEndInterval(old(lt), old(gains.pacing), tcp)
      ensures gains == old(gains).(pacing := gains.pacing)
    {
      hide BbrModel.LtIntervalDone, BbrModel.ResetLt;
      var lost: nat := Low32(tcp.lost - lt.lastLost);
      var delivered: nat := Low32(tcp.delivered - lt.lastDelivered);
      if delivered == 0 || Low32(lost * 256) < Low32(LT_LOSS_THRESH * delivered) {
        return;
      }
      var t := Low32(tcp.deliveredMstamp / USEC_PER_MSEC - lt.lastStamp);
      if Signed(t) < 1 {
        return;
      }
      if t >= 0xFFFF_FFFF / USEC_PER_MSEC {
        ResetLt();
        return;
      }
      LtIntervalDone(Low32(delivered * BW_UNIT / (t * USEC_PER_MSEC)));
    }

    /** bbr_lt_bw_sampling */
    method LtBwSampling(losses: nat, isAppLimited: bool, draw: Draw)
      modifies this`lt, this`gains
      ensures (lt, gains)
           == BbrModel.LtBwSampling(old(lt), old(gains), tcp, round.start, losses, isAppLimited, draw)
    {
      hide BbrModel.ResetLt, BbrModel.ResetProbeBwMode, BbrModel.LtEndInterval, BbrModel.ResetLtInterval;
      if lt.useBw {
        if gains.mode == ProbeBw && round.start {
          lt := lt.(rttCnt := lt.rttCnt + 1);
          if lt.rttCnt >= LT_BW_MAX_RTTS {
            ResetLt();
            ResetProbeBwMode(draw);
          }
        }
        return;
      }
      if !lt.isSampling {
        if losses == 0 {
          return;
        }
        ResetLtInterval();
        lt := lt.(isSampling := true);
      }
      if isAppLimited {
        ResetLt();
        return;
      }
      if round.start {
        lt := lt.(rttCnt := lt.rttCnt + 1);
      }
      if lt.rttCnt < LT_INTVL_MIN_RTTS {
        return;
      }
      if lt.rttCnt > 4 * LT_INTVL_MIN_RTTS {
        ResetLt();
        return;
      }
      if losses == 0 {
        return;
      }
      LtEndInterval();
    }

    // ---- The model update ----

    /** bbr_update_bw */
    method UpdateBw(rs: RateSample, d: Draws)
      modifies this
      ensures View() == BbrModel.UpdateBw(old(View()), tcp, rs, d) && tcp == old(tcp)
    {
      hide BbrModel.LtBwSampling, RunningMax, Low32, Low64;
      round := round.(start := false);
      if rs.delivered < 0 || rs.intervalUs <= 0 {
        return;
      }
      if !(rs.priorDelivered < round.nextDelivered) {
        round := round.(nextDelivered := tcp.delivered);
        round := round.(cnt := Low32(round.cnt + 1));
        round := round.(start := true);
        win := win.(conservation := false);
      }
      LtBwSampling(rs.losses, rs.isAppLimited, d.ltDraw);
      var bw := Low64(rs.delivered * BW_UNIT) / rs.intervalUs;
      if !rs.isAppLimited || bw >= round.maxBw {
        round := round.(maxBw := RunningMax(round.maxBw, Low32(bw), d.filter));
      }
    }

    /** bbr_check_full_bw_reached */
    method CheckFullBwReached(rs: RateSample)
      modifies this`full
      ensures full == BbrModel.CheckFullBwReached(old(full), round, rs.isAppLimited)
    {
      if full.reached || !round.start || rs.isAppLimited {
        return;
      }
      var bwThresh := Low32(full.bw * FULL_BW_THRESH / 256);
      if round.maxBw >= bwThresh {
        full := full.(bw := round.maxBw);
        full := full.(cnt := 0);
        return;
      }
      full := full.(cnt := full.cnt + 1);
      full := full.(reached := full.cnt >= FULL_BW_CNT);
    }

    /** bbr_check_drain */
    method CheckDrain(draw: Draw)
      modifies this`gains
      ensures gains == BbrModel.CheckDrain(old(View()), tcp, draw)
    {
      hide BbrModel.TargetCwnd, BbrModel.ResetProbeBwMode;
      if gains.mode == Startup && full.reached {
        gains := gains.(mode := Drain);
        gains := gains.(pacing := DRAIN_GAIN);
        gains := gains.(cwnd := HIGH_GAIN);
      }
      if gains.mode == Drain {
        var target := TargetCwnd(round.maxBw, BBR_UNIT);
        if tcp.inFlight <= target {
          ResetProbeBwMode(draw);
        }
      }
    }

    /** bbr_save_cwnd */
    method SaveCwnd()
      modifies this`win
      ensures win == BbrModel.SaveCwnd(old(win), gains.mode, tcp)
    {
      if win.prevCaState < CA_RECOVERY && gains.mode != ProbeRtt {
        win := win.(prior := tcp.sndCwnd);
      } else {
        win := win.(prior := if win.prior > tcp.sndCwnd then win.prior else tcp.sndCwnd);
      }
    }

    /** The part of bbr_update_min_rtt that runs in PROBE_RTT. */
    method InProbeRtt(draw: Draw)
      modifies this`rtt, this`round, this`win, this`gains
      ensures View() == BbrModel.InProbeRtt(clock, old(View()), tcp, draw)
    {
      hide BbrModel.ResetMode;
      if rtt.doneStamp == 0 && tcp.inFlight <= CWND_MIN_TARGET {
        rtt := rtt.(doneStamp := tcp.now + clock.probeRttJiffies);
        rtt := rtt.(roundDone := false);
        round := round.(nextDelivered := tcp.delivered);
      } else if rtt.doneStamp != 0 {
        if round.start {
          rtt := rtt.(roundDone := true);
        }
        if rtt.roundDone && tcp.now > rtt.doneStamp {
          rtt := rtt.(stamp := tcp.now);
          win := win.(restore := true);
          ResetMode(draw);
        }
      }
    }

    /** bbr_update_min_rtt */
    method UpdateMinRtt(rs: RateSample, draw: Draw)
      modifies this
      ensures View() == BbrModel.UpdateMinRtt(clock, old(View()), old(tcp), rs, draw)
      ensures tcp == old(tcp).(appLimited := ProbeAppLimited(clock, old(View()), old(tcp)))
    {
      hide BbrModel.InProbeRtt, BbrModel.SaveCwnd, Low32;
      var filterExpired := tcp.now > rtt.stamp + MIN_RTT_WIN_SEC * clock.hz;
      if rs.rttUs >= 0 && (rs.rttUs <= rtt.us || filterExpired) {
        rtt := rtt.(us := Low32(rs.rttUs));
        rtt := rtt.(stamp := tcp.now);
      }
      if filterExpired && !rtt.idleRestart && gains.mode != ProbeRtt {
        gains := gains.(mode := ProbeRtt);
        gains := gains.(pacing := BBR_UNIT);
        gains := gains.(cwnd := BBR_UNIT);
        SaveCwnd();
        rtt := rtt.(doneStamp := 0);
      }
      if gains.mode == ProbeRtt {
        InProbeRtt(draw);
        tcp := tcp.(appLimited := if tcp.delivered + tcp.inFlight == 0 then 1 else tcp.delivered + tcp.inFlight);
      }
      rtt := rtt.(idleRestart := false);
    }

    /** bbr_update_model */
    method UpdateModel(rs: RateSample, d: Draws)
      modifies this
      ensures View() == BbrModel.UpdateModel(clock, old(View()), old(tcp), rs, d)
      ensures tcp == old(tcp).(appLimited := ProbeAppLimited(clock, UpdateRates(old(View()), old(tcp), rs, d),
          old(tcp)))
    {
      hide BbrModel.UpdateBw, BbrModel.UpdateCyclePhase, BbrModel.CheckFullBwReached, BbrModel.CheckDrain,
          BbrModel.UpdateMinRtt, ProbeAppLimited;
      UpdateBw(rs, d);
      UpdateCyclePhase(rs);
      CheckFullBwReached(rs);
      CheckDrain(d.drainDraw);
      UpdateMinRtt(rs, d.rttDraw);
    }

    // ---- Rates and the window ----

    /** bbr_init_pacing_rate_from_rtt */
    method InitPacingRate()
      modifies this`win, this`tcp
      ensures (win.hasSeenRtt, tcp.pacingRate) == BbrModel.InitPacingRate(old(win.hasSeenRtt), old(tcp))
      ensures tcp == old(tcp).(pacingRate := tcp.pacingRate) && win == old(win).(hasSeenRtt := win.hasSeenRtt)
    {
      hide PacingRate, Low32;
      var rttUs: nat;
      if tcp.srttUs != 0 {
        rttUs := if tcp.srttUs / 8 > 1 then tcp.srttUs / 8 else 1;
        win := win.(hasSeenRtt := true);
      } else {
        rttUs := USEC_PER_MSEC;
      }
      tcp := tcp.(pacingRate := PacingRate(tcp, Low32(tcp.sndCwnd * BW_UNIT / rttUs), HIGH_GAIN));
    }

    /** bbr_set_pacing_rate */
    method SetPacingRate(bw: uint32, gain: nat)
      modifies this`win, this`tcp
      ensures (win.hasSeenRtt, tcp.pacingRate) == BbrModel.SetPacingRate(old(win.hasSeenRtt), full.reached, old(tcp),
          bw, gain)
      ensures tcp == old(tcp).(pacingRate := tcp.pacingRate) && win == old(win).(hasSeenRtt := win.hasSeenRtt)
    {
      hide PacingRate, BbrModel.InitPacingRate;
      var rate := PacingRate(tcp, bw, gain);
      if !win.hasSeenRtt && tcp.srttUs != 0 {
        InitPacingRate();
      }
      if full.reached || rate > tcp.pacingRate {
        tcp := tcp.(pacingRate := rate);
      }
    }

    /** bbr_set_cwnd_to_recover_or_restore */
    method RecoverOrRestore(losses: nat, acked: uint32) returns (cwnd: uint32, conserves: bool)
      modifies this`win, this`round
      ensures (cwnd, conserves) == BbrModel.RecoverOrRestore(old(win), tcp, losses, acked)
      ensures win == old(win).(conservation := conserves, prevCaState := tcp.caState, restore := false)
      ensures round == if StartsRecovery(old(win), tcp) then old(round).(nextDelivered := tcp.delivered) else old(round)
    {
      hide Low32;
      var prevState, state := win.prevCaState, tcp.caState;
      cwnd := tcp.sndCwnd;
      if losses > 0 {
        cwnd := Max(Signed(Low32(cwnd - losses)), 1);
      }
      if state == CA_RECOVERY && prevState != CA_RECOVERY {
        win := win.(conservation := true);
        round := round.(nextDelivered := tcp.delivered);
        cwnd := Low32(tcp.inFlight + acked);
      } else if prevState >= CA_RECOVERY && state < CA_RECOVERY {
        win := win.(restore := true);
        win := win.(conservation := false);
      }
      win := win.(prevCaState := state);
      if win.restore {
        cwnd := if win.prior > cwnd then win.prior else cwnd;
        win := win.(restore := false);
      }
      conserves := win.conservation;
      if win.conservation {
        var flight := Low32(tcp.inFlight + acked);
        cwnd := if flight > cwnd then flight else cwnd;
      }
    }

    /** bbr_set_cwnd */
    method SetCwnd(losses: nat, acked: uint32, bw: uint32, gain: nat)
      modifies this`win, this`round, this`tcp
      ensures (View(), tcp.sndCwnd) == BbrModel.SetCwnd(old(View()), old(tcp), losses, acked, bw, gain)
      ensures tcp == old(tcp).(sndCwnd := tcp.sndCwnd)
    {
      hide BbrModel.RecoverOrRestore, BbrModel.TargetCwnd, Low32, StartsRecovery;
      if acked == 0 {
        return;
      }
      var cwnd, conserves := RecoverOrRestore(losses, acked);
      if !conserves {
        var targetCwnd := TargetCwnd(bw, gain);
        if full.reached {
          var grown := Low32(cwnd + acked);
          cwnd := if grown < targetCwnd then grown else targetCwnd;
        } else if cwnd < targetCwnd || tcp.delivered < TCP_INIT_CWND {
          cwnd := Low32(cwnd + acked);
        }
        cwnd := if cwnd > CWND_MIN_TARGET then cwnd else CWND_MIN_TARGET;
      }
      tcp := tcp.(sndCwnd := if cwnd < tcp.clamp then cwnd else tcp.clamp);
      if gains.mode == ProbeRtt {
        tcp := tcp.(sndCwnd := if tcp.sndCwnd < CWND_MIN_TARGET then tcp.sndCwnd else CWND_MIN_TARGET);
      }
    }

    // ---- The callbacks ----

    /** bbr_main */
    method OnAck(rs: RateSample, d: Draws)
      modifies this
      ensures (View(), tcp) == BbrModel.OnAck(clock, old(View()), old(tcp), rs, d)
    {
      hide BbrModel.UpdateModel, UpdateRates, ProbeAppLimited, BbrModel.SetPacingRate, BbrModel.SetCwnd;
      UpdateModel(rs, d);
      var bw := if lt.useBw then lt.bw else round.maxBw;
      ghost var m, t := View(), tcp;
      SetPacingRate(bw, gains.pacing);
      win := win.(tsoSegsGoal := TsoSegsGoal(tcp));
      assert (View(), tcp) == Paced(m, t);
      SetCwnd(rs.losses, rs.ackedSacked, bw, gains.cwnd);
    }

    /** bbr_init */
    constructor (clock: Clock, tcp: Tcp)
      ensures (View(), this.tcp) == Init(tcp) && this.clock == clock
    {
      this.clock := clock;
      this.tcp := tcp;
      win := Win(0, false, false, 0, 0, false);
      round := Round(0, 0, 0, false);
      rtt := Rtt(tcp.minRtt, tcp.now, 0, false, false);
      full := Full(false, 0, 0);
      gains := Gains(Startup, 0, 0, 0, 0);
      lt := Lt(false, 0, false, 0, 0, 0, 0);
      new;
      hide BbrModel.InitPacingRate, Low32;
      InitPacingRate();
      ResetLt();
      gains := gains.(mode := Startup, pacing := HIGH_GAIN, cwnd := HIGH_GAIN);
    }

    /** bbr_undo_cwnd */
    method OnUndo() returns (cwnd: uint32)
      modifies this`full, this`lt
      ensures View() == BbrModel.OnUndo(old(View()), tcp) && cwnd == tcp.sndCwnd
    {
      full := full.(bw := 0);
      full := full.(cnt := 0);
      ResetLt();
      cwnd := tcp.sndCwnd;
    }

    /** bbr_set_state */
    method OnState(newState: nat, draw: Draw)
      modifies this
      ensures View() == BbrModel.OnState(old(View()), tcp, newState, draw) && tcp == old(tcp)
    {
      hide BbrModel.LtBwSampling;
      if newState == CA_LOSS {
        win := win.(prevCaState := CA_LOSS);
        full := full.(bw := 0);
        round := round.(start := true);
        LtBwSampling(1, false, draw);
      }
    }

    /** bbr_cwnd_event */
    method OnCwndEvent(txStart: bool)
      modifies this
      ensures (View(), tcp) == BbrModel.OnCwndEvent(old(View()), old(tcp), txStart)
    {
      hide BbrModel.SetPacingRate;
      if txStart && tcp.appLimited != 0 {
        rtt := rtt.(idleRestart := true);
        if gains.mode == ProbeBw {
          SetPacingRate(if lt.useBw then lt.bw else round.maxBw, BBR_UNIT);
        }
      }
    }

    /** One callback on the socket as the stack left it. */
    method Handle(i: Input)
      modifies this
      ensures (View(), tcp) == Step(clock, old(View()), i)
    {
      hide BbrModel.OnAck, BbrModel.OnUndo, BbrModel.OnState, BbrModel.OnCwndEvent, BbrModel.SaveCwnd;
      tcp := i.tcp;
      match i.event
      case Ack(rs, d) => OnAck(rs, d);
      case Ssthresh => SaveCwnd();
      case Undo => var _ := OnUndo();
      case SetState(s, draw) => OnState(s, draw);
      case CwndEvent(tx) => OnCwndEvent(tx);
    }

    /** Every run of the callbacks is a run of the model. */
    method Run(run: seq<Input>)
      modifies this
      ensures View() == After(clock, old(View()), run, |run|)
    {
      hide Step;
      for k := 0 to |run|
        invariant View() == After(clock, old(View()), run, k)
      {
        Handle(run[k]);
      }
    }
  }
}
