/** What one ACK, taken as a whole, does to each estimate of BBR and to the socket, in plain numbers; and what follows
    for runs. */
module BbrAck {
  import opened Bits
  import opened BbrModel
  import opened BbrInvariants
  import BbrProbeRtt

  // ---- What is asked of an ACK ----

  /** The sample has a delivery count and an interval. */
  predicate Valid(rs: RateSample) {
    rs.delivered >= 0 && rs.intervalUs > 0
  }

  /** The ACK is for a packet that was sent after the present round had started. */
  predicate NextRound(b: Bbr, rs: RateSample) {
    Valid(rs) && rs.priorDelivered >= b.round.nextDelivered
  }

  /** The delivery rate in packets per microsecond, scaled by 2^24, in 64 bits. */
  function Sample(rs: RateSample): nat
    requires Valid(rs)
  {
    rs.delivered * 0x100_0000 % 0x1_0000_0000_0000_0000 / rs.intervalUs
  }

  function Larger(a: nat, b: nat): nat {
    if a < b then b else a
  }

  function Smaller(a: nat, b: nat): nat {
    if a < b then a else b
  }

  /** Ten seconds have passed since the smallest round trip was seen. */
  predicate Expired(c: Clock, b: Bbr, tcp: Tcp) {
    tcp.now > b.rtt.stamp + 10 * c.hz
  }

  // ---- The steps inside one ACK ----

  /** bbr_update_min_rtt leaves the rates alone. */
  lemma MinRttKeepsRates(c: Clock, b: Bbr, tcp: Tcp, rs: RateSample, draw: Draw)
    ensures var r := UpdateMinRtt(c, b, tcp, rs, draw);
            && r.round == b.round.(nextDelivered := r.round.nextDelivered) && r.lt == b.lt && r.full == b.full
            && r.win == b.win.(prior := r.win.prior, restore := r.win.restore)
  {
    hide ResetMode, FilterExpired, Low32;
  }

  /** The rates after an ACK are those after the bandwidth step. */
  lemma AckRates(c: Clock, b: Bbr, tcp: Tcp, rs: RateSample, d: Draws)
    ensures var u, r := UpdateBw(b, tcp, rs, d), OnAck(c, b, tcp, rs, d).0;
            && r.lt == u.lt && r.round == u.round.(nextDelivered := r.round.nextDelivered)
            && r.full == CheckFullBwReached(b.full, u.round, rs.isAppLimited)
  {
    hide UpdateBw, UpdateMinRtt, OnAck, CheckDrain, AdvanceCyclePhase, IsNextCyclePhase, CheckFullBwReached;
    BandwidthStep(b, tcp, rs, d);
    MinRttKeepsRates(c, UpdateRates(b, tcp, rs, d), tcp, rs, d.rttDraw);
    AckModel(c, b, tcp, rs, d);
  }

  lemma BandwidthStep(b: Bbr, tcp: Tcp, rs: RateSample, d: Draws)
    ensures var u := UpdateBw(b, tcp, rs, d);
            && u.full == b.full && u.rtt == b.rtt
            && u.round.start == NextRound(b, rs)
            && u.round.cnt == (if NextRound(b, rs) then (b.round.cnt + 1) % 0x1_0000_0000 else b.round.cnt)
            && u.round.maxBw == (if Valid(rs) then NewMaxBw(b.round.maxBw, rs, d.filter) else b.round.maxBw)
            && u.win == b.win.(conservation := b.win.conservation && !NextRound(b, rs))
  {
    hide NewMaxBw, LtBwSampling;
  }

  // ---- Bandwidth and rounds ----

  /** The bandwidth estimate follows the samples: a sample that is not limited by the application, or is no smaller than
      the estimate, goes through the filter, whose answer is at least the sample and at most the larger of both; any
      other leaves the estimate as it was. */
  lemma BandwidthFollows(c: Clock, b: Bbr, tcp: Tcp, rs: RateSample, d: Draws)
    ensures var old', new' := b.round.maxBw, OnAck(c, b, tcp, rs, d).0.round.maxBw;
            if Valid(rs) && (!rs.isAppLimited || Sample(rs) >= old') then
              var low := Sample(rs) % 0x1_0000_0000;
              low <= new' <= Larger(low, old') && (low <= d.filter <= Larger(low, old') ==> new' == d.filter)
            else new' == old'
  {
    hide UpdateBw, OnAck, CheckFullBwReached;
    AckRates(c, b, tcp, rs, d);
    BandwidthStep(b, tcp, rs, d);
  }

  /** A round starts exactly with the ACK for a packet that was sent after the last start. */
  lemma RoundsCounted(c: Clock, b: Bbr, tcp: Tcp, rs: RateSample, d: Draws)
    ensures var r := OnAck(c, b, tcp, rs, d).0;
            && r.round.start == NextRound(b, rs)
            && r.round.cnt == if NextRound(b, rs) then (b.round.cnt + 1) % 0x1_0000_0000 else b.round.cnt
  {
    hide UpdateBw, OnAck, CheckFullBwReached, NewMaxBw;
    AckRates(c, b, tcp, rs, d);
    BandwidthStep(b, tcp, rs, d);
  }

  // ---- The full pipe ----

  /** A round, not limited by the application, after which the estimate has not grown by a quarter. */
  predicate SlowRound(b: Bbr, rs: RateSample, maxBw: nat) {
    NextRound(b, rs) && !rs.isAppLimited && maxBw < b.full.bw * 5 / 4 % 0x1_0000_0000
  }

  predicate FastRound(b: Bbr, rs: RateSample, maxBw: nat) {
    NextRound(b, rs) && !rs.isAppLimited && maxBw >= b.full.bw * 5 / 4 % 0x1_0000_0000
  }

  /** The pipe counts as full with the third slow round without a fast one in between. */
  lemma FullStep(c: Clock, b: Bbr, tcp: Tcp, rs: RateSample, d: Draws)
    ensures var r := OnAck(c, b, tcp, rs, d).0;
            r.full == if b.full.reached then b.full
                      else if FastRound(b, rs, r.round.maxBw) then Full(false, 0, r.round.maxBw)
                      else if SlowRound(b, rs, r.round.maxBw) then Full(b.full.cnt + 1 >= 3, b.full.cnt + 1, b.full.bw)
                      else b.full
  {
    hide UpdateBw, OnAck, NewMaxBw;
    AckRates(c, b, tcp, rs, d);
    BandwidthStep(b, tcp, rs, d);
    assert b.full.bw * FULL_BW_THRESH / 256 == b.full.bw * 5 / 4;
  }

  ghost predicate SlowAt(c: Clock, b: Bbr, run: seq<Input>, i: nat)
    requires i < |run|
  {
    var e := run[i].event;
    e.Ack? && SlowRound(After(c, b, run, i), e.rs, After(c, b, run, i + 1).round.maxBw)
  }

  ghost predicate FastAt(c: Clock, b: Bbr, run: seq<Input>, i: nat)
    requires i < |run|
  {
    var e := run[i].event;
    e.Ack? && FastRound(After(c, b, run, i), e.rs, After(c, b, run, i + 1).round.maxBw)
  }

  /** Only ACKs judge the pipe, and every other event leaves the count or resets it. */
  lemma OtherFull(c: Clock, b: Bbr, i: Input)
    requires !i.event.Ack?
    ensures var r := Step(c, b, i).0;
            r.full.reached == b.full.reached && r.full.cnt == if i.event.Undo? then 0 else b.full.cnt
  {
    hide LtBwSampling, SetPacingRate;
  }

  /** `s` are slow rounds before event `k`, in order, with neither a fast round nor an undo since the first. */
  ghost predicate Streak(c: Clock, b: Bbr, run: seq<Input>, s: seq<nat>, k: nat)
    requires k <= |run|
  {
    && (forall u :: 0 <= u < |s| ==> s[u] < k && SlowAt(c, b, run, s[u]))
    && (forall u, v :: 0 <= u < v < |s| ==> s[u] < s[v])
    && (s != [] ==> forall m :: s[0] <= m < k ==> !FastAt(c, b, run, m) && !run[m].event.Undo?)
  }

  lemma StreakGoesOn(c: Clock, b: Bbr, run: seq<Input>, s: seq<nat>, k: nat) returns (s': seq<nat>)
    requires 0 < k <= |run| && Streak(c, b, run, s, k - 1) && !FastAt(c, b, run, k - 1) && !run[k - 1].event.Undo?
    ensures Streak(c, b, run, s', k) && s' == if SlowAt(c, b, run, k - 1) then s + [k - 1] else s
  {
    hide SlowAt, FastAt;
    s' := if SlowAt(c, b, run, k - 1) then s + [k - 1] else s;
    forall m | s' != [] && s'[0] <= m < k ensures !FastAt(c, b, run, m) && !run[m].event.Undo? {
      if m < k - 1 {
        assert s != [] && s[0] == s'[0];
      }
    }
  }

  lemma {:induction false} StreakCounts(c: Clock, b: Bbr, run: seq<Input>, k: nat) returns (s: seq<nat>)
    requires k <= |run| && !b.full.reached && b.full.cnt == 0 && !After(c, b, run, k).full.reached
    ensures Streak(c, b, run, s, k) && |s| == After(c, b, run, k).full.cnt
    decreases k
  {
    hide Step, SlowRound, FastRound;
    s := [];
    if k > 0 {
      var a, e := After(c, b, run, k - 1), run[k - 1];
      if e.event.Ack? {
        FullStep(c, a, e.tcp, e.event.rs, e.event.draws);
        AckIsStep(c, a, e);
        NotBoth(a, e.event.rs, After(c, b, run, k).round.maxBw);
        s := StreakCounts(c, b, run, k - 1);
        if FastAt(c, b, run, k - 1) {
          s := [];
        } else {
          s := StreakGoesOn(c, b, run, s, k);
        }
      } else {
        OtherFull(c, a, e);
        s := StreakCounts(c, b, run, k - 1);
        if e.event.Undo? {
          s := [];
        } else {
          s := StreakGoesOn(c, b, run, s, k);
        }
      }
    }
  }

  lemma AckIsStep(c: Clock, b: Bbr, i: Input)
    requires i.event.Ack?
    ensures Step(c, b, i) == OnAck(c, b, i.tcp, i.event.rs, i.event.draws)
  {
    hide OnAck;
  }

  /** In every run from the start the pipe is judged full only with a slow round that has two slow rounds before it, and
      no fast one in between. */
  lemma FullNeedsThree(c: Clock, b: Bbr, run: seq<Input>, k: nat) returns (i: nat, j: nat)
    requires k < |run| && !b.full.reached && b.full.cnt == 0
    requires !After(c, b, run, k).full.reached && After(c, b, run, k + 1).full.reached
    ensures i < j < k && SlowAt(c, b, run, i) && SlowAt(c, b, run, j) && SlowAt(c, b, run, k)
    ensures forall m :: i <= m <= k ==> !FastAt(c, b, run, m) && !run[m].event.Undo?
  {
    hide Step, SlowRound, FastRound;
    var a, e := After(c, b, run, k), run[k];
    var s := StreakCounts(c, b, run, k);
    if e.event.Ack? {
      FullStep(c, a, e.tcp, e.event.rs, e.event.draws);
      AckIsStep(c, a, e);
      NotBoth(a, e.event.rs, After(c, b, run, k + 1).round.maxBw);
      assert |s| >= 2;
      i, j := s[|s| - 2], s[|s| - 1];
      assert s[0] <= i;
    } else {
      OtherFull(c, a, e);
    }
  }

  lemma NotBoth(b: Bbr, rs: RateSample, maxBw: nat)
    ensures !(SlowRound(b, rs, maxBw) && FastRound(b, rs, maxBw))
  {
  }

  // ---- The smallest round trip ----

  /** The round trip estimate is lowered by every smaller sample, and replaced by any sample once ten seconds have
      passed without one. */
  lemma MinRttStep(c: Clock, b: Bbr, tcp: Tcp, rs: RateSample, d: Draws)
    ensures OnAck(c, b, tcp, rs, d).0.rtt.us
         == if rs.rttUs >= 0 && (rs.rttUs <= b.rtt.us || Expired(c, b, tcp)) then rs.rttUs % 0x1_0000_0000 else b.rtt.us
  {
    hide UpdateMinRtt, UpdateRates, OnAck;
    BbrProbeRtt.RatesFrame(b, tcp, rs, d);
    MinRttUs(c, UpdateRates(b, tcp, rs, d), tcp, rs, d.rttDraw);
    AckModel(c, b, tcp, rs, d);
  }

  lemma MinRttUs(c: Clock, b: Bbr, tcp: Tcp, rs: RateSample, draw: Draw)
    ensures UpdateMinRtt(c, b, tcp, rs, draw).rtt.us == TrackMinRtt(c, b.rtt, tcp, rs).us
  {
    hide TrackMinRtt, ResetMode, Enters;
  }

  lemma OtherRtt(c: Clock, b: Bbr, i: Input)
    requires !i.event.Ack?
    ensures Step(c, b, i).0.rtt.us == b.rtt.us
  {
    hide LtBwSampling, SetPacingRate;
  }

  /** Event `i` is an ACK with this round trip time. */
  ghost predicate SeesRtt(run: seq<Input>, i: nat, us: int)
    requires i < |run|
  {
    run[i].event.Ack? && run[i].event.rs.rttUs >= 0 && run[i].event.rs.rttUs % 0x1_0000_0000 == us
  }

  /** Event `i` is an ACK that finds the estimate ten seconds old. */
  ghost predicate FindsOld(c: Clock, b: Bbr, run: seq<Input>, i: nat)
    requires i < |run|
  {
    run[i].event.Ack? && Expired(c, After(c, b, run, i), run[i].tcp)
  }

  /** In every run the estimate is one of the samples, or that of the start; and it is above a sample only if an ACK
      since then has found it ten seconds old. */
  lemma {:induction false} MinRttIsMin(c: Clock, b: Bbr, run: seq<Input>, i: nat, k: nat)
    requires i < k <= |run| && run[i].event.Ack? && 0 <= run[i].event.rs.rttUs < 0x1_0000_0000
    requires forall m :: i < m < k ==> !FindsOld(c, b, run, m)
    ensures After(c, b, run, k).rtt.us <= run[i].event.rs.rttUs
    decreases k
  {
    hide Step, Expired;
    var a, e := After(c, b, run, k - 1), run[k - 1];
    if i < k - 1 {
      MinRttIsMin(c, b, run, i, k - 1);
      assert !FindsOld(c, b, run, k - 1);
    }
    if e.event.Ack? {
      AckIsStep(c, a, e);
      MinRttStep(c, a, e.tcp, e.event.rs, e.event.draws);
      ModAtMost(e.event.rs.rttUs);
    } else {
      OtherRtt(c, a, e);
    }
  }

  lemma ModAtMost(x: int)
    ensures x >= 0 ==> x % 0x1_0000_0000 <= x
  {
  }

  lemma {:induction false} MinRttIsSeen(c: Clock, b: Bbr, run: seq<Input>, k: nat)
    requires k <= |run|
    ensures var us := After(c, b, run, k).rtt.us; us == b.rtt.us || exists i :: 0 <= i < k && SeesRtt(run, i, us)
    decreases k
  {
    hide Step, Expired;
    if k > 0 {
      var a, e := After(c, b, run, k - 1), run[k - 1];
      MinRttIsSeen(c, b, run, k - 1);
      if e.event.Ack? {
        AckIsStep(c, a, e);
        MinRttStep(c, a, e.tcp, e.event.rs, e.event.draws);
        if After(c, b, run, k).rtt.us != a.rtt.us {
          assert SeesRtt(run, k - 1, After(c, b, run, k).rtt.us);
        }
      } else {
        OtherRtt(c, a, e);
      }
    }
  }

  // ---- Modes ----

  /** What in-flight must not exceed for the queue to count as drained: the target at unit gain. */
  function Drained(b: Bbr, maxBw: uint32): nat {
    TargetCwnd(b.rtt.us, b.win.tsoSegsGoal, maxBw, 256)
  }

  /** Where an ACK leads that neither enters nor leaves PROBE_RTT. */
  function Steered(b: Bbr, inFlight: nat, full: bool, maxBw: uint32): Mode {
    match b.gains.mode
    case Startup => if !full then Startup else if inFlight <= Drained(b, maxBw) then ProbeBw else Drain
    case Drain => if inFlight <= Drained(b, maxBw) then ProbeBw else Drain
    case m => m
  }

  lemma RatesMode(b: Bbr, tcp: Tcp, rs: RateSample, d: Draws)
    ensures var u := UpdateRates(b, tcp, rs, d); u.gains.mode == Steered(b, tcp.inFlight, u.full.reached, u.round.maxBw)
  {
    hide NewMaxBw, NewRound, CheckFullBwReached, IsNextCyclePhase, LtSampling, TargetCwnd;
    BbrProbeRtt.LtFrame(b.lt, b.gains, tcp, NewRound(b.round, tcp, rs).start, rs.losses, rs.isAppLimited, d.ltDraw);
  }

  /** An ACK enters PROBE_RTT exactly if the round trip estimate is ten seconds old and the connection was not idle. It
      leaves it exactly if the time set when in-flight had dropped is over and a round has passed since; then it goes
      back to STARTUP or, with a full pipe, to PROBE_BW. Otherwise STARTUP ends exactly with a full pipe, and DRAIN
      exactly when in-flight has come down to the target. */
  lemma ModeStep(c: Clock, b: Bbr, tcp: Tcp, rs: RateSample, d: Draws)
    ensures var r := OnAck(c, b, tcp, rs, d).0;
            var probes := b.gains.mode.ProbeRtt?;
            var enters := !probes && Expired(c, b, tcp) && !b.rtt.idleRestart;
            var leaves := probes && b.rtt.doneStamp != 0 && (b.rtt.roundDone || NextRound(b, rs))
                          && tcp.now > b.rtt.doneStamp;
            r.gains.mode == if enters || (probes && !leaves) then ProbeRtt
                            else if leaves then (if r.full.reached then ProbeBw else Startup)
                            else Steered(b, tcp.inFlight, r.full.reached, r.round.maxBw)
  {
    hide UpdateRates, OnAck, UpdateMinRtt, Drained, CheckFullBwReached, UpdateBw;
    BbrProbeRtt.RatesFrame(b, tcp, rs, d);
    RatesMode(b, tcp, rs, d);
    AckRates(c, b, tcp, rs, d);
    MinRttKeepsRates(c, UpdateRates(b, tcp, rs, d), tcp, rs, d.rttDraw);
    MinRttMode(c, UpdateRates(b, tcp, rs, d), tcp, rs, d.rttDraw);
    AckModel(c, b, tcp, rs, d);
    StartsIsNext(b, tcp, rs);
  }

  lemma StartsIsNext(b: Bbr, tcp: Tcp, rs: RateSample)
    ensures NewRound(b.round, tcp, rs).start == NextRound(b, rs)
  {
  }

  lemma MinRttMode(c: Clock, b: Bbr, tcp: Tcp, rs: RateSample, draw: Draw)
    ensures var r, probes := UpdateMinRtt(c, b, tcp, rs, draw), b.gains.mode.ProbeRtt?;
            var enters := !probes && tcp.now > b.rtt.stamp + 10 * c.hz && !b.rtt.idleRestart;
            var leaves := probes && b.rtt.doneStamp != 0 && (b.rtt.roundDone || b.round.start)
                          && tcp.now > b.rtt.doneStamp;
            r.gains.mode == if enters || (probes && !leaves) then ProbeRtt
                            else if leaves then (if b.full.reached then ProbeBw else Startup)
                            else b.gains.mode
  {
    hide Low32;
  }
}
