/** How long a PROBE_RTT visit lasts, when the next one may start, and what happens to the window, in every run. */
module BbrProbeRtt {
  import opened Bits
  import opened BbrModel
  import opened BbrInvariants

  /** Time and the delivery count never go back. */
  ghost predicate Ordered(run: seq<Input>) {
    forall i, j :: 0 <= i < j < |run| ==>
      run[i].tcp.now <= run[j].tcp.now && run[i].tcp.delivered <= run[j].tcp.delivered
  }

  /** Event `i` enters PROBE_RTT, and the visit goes on until event `j`. */
  ghost predicate Visit(c: Clock, b: Bbr, run: seq<Input>, i: nat, j: nat)
    requires i < j <= |run|
  {
    && !After(c, b, run, i).gains.mode.ProbeRtt?
    && forall k :: i < k <= j ==> After(c, b, run, k).gains.mode.ProbeRtt?
  }

  /** Event `j` leaves PROBE_RTT. */
  ghost predicate Exits(c: Clock, b: Bbr, run: seq<Input>, j: nat)
    requires j < |run|
  {
    After(c, b, run, j).gains.mode.ProbeRtt? && !After(c, b, run, j + 1).gains.mode.ProbeRtt?
  }

  /** Event `j` enters PROBE_RTT. */
  ghost predicate EntersAt(c: Clock, b: Bbr, run: seq<Input>, j: nat)
    requires j < |run|
  {
    !After(c, b, run, j).gains.mode.ProbeRtt? && After(c, b, run, j + 1).gains.mode.ProbeRtt?
  }

  // ---- What the steps do to the fields involved ----

  /** The bandwidth part of an ACK neither enters nor leaves PROBE_RTT. */
  lemma RatesFrame(b: Bbr, tcp: Tcp, rs: RateSample, d: Draws)
    ensures var r := UpdateRates(b, tcp, rs, d);
            && r.rtt == b.rtt && r.win.prior == b.win.prior && r.gains.mode.ProbeRtt? == b.gains.mode.ProbeRtt?
            && r.round.nextDelivered == NewRound(b.round, tcp, rs).nextDelivered
            && r.round.start == NewRound(b.round, tcp, rs).start
  {
    hide NewMaxBw, NewRound, CheckFullBwReached, IsNextCyclePhase, Target, LtSampling;
    LtFrame(b.lt, b.gains, tcp, NewRound(b.round, tcp, rs).start, rs.losses, rs.isAppLimited, d.ltDraw);
  }

  lemma LtFrame(l: Lt, g: Gains, tcp: Tcp, roundStart: bool, losses: nat, isAppLimited: bool, draw: Draw)
    ensures LtBwSampling(l, g, tcp, roundStart, losses, isAppLimited, draw).1.mode == g.mode
  {
    hide LtSampling, Low32;
  }

  /** bbr_update_min_rtt on the fields of a visit. */
  lemma MinRttFrame(c: Clock, b: Bbr, tcp: Tcp, rs: RateSample, draw: Draw)
    ensures var r := UpdateMinRtt(c, b, tcp, rs, draw);
            var probes := b.gains.mode.ProbeRtt?;
            var starts := (Enters(c, b, tcp) || (probes && b.rtt.doneStamp == 0));
            && (Enters(c, b, tcp) ==> !probes)
            && (!starts && !probes ==>
                  !r.gains.mode.ProbeRtt? && r.rtt.stamp in {b.rtt.stamp, tcp.now} && r.win == b.win)
            && (starts ==>
                  && r.gains.mode.ProbeRtt? && r.rtt.stamp in {b.rtt.stamp, tcp.now}
                  && (if tcp.inFlight <= CWND_MIN_TARGET
                      then r.rtt.doneStamp == tcp.now + c.probeRttJiffies && !r.rtt.roundDone
                           && r.round == b.round.(nextDelivered := tcp.delivered)
                      else r.rtt.doneStamp == 0 && r.round == b.round))
            && (probes && b.rtt.doneStamp != 0 ==>
                  && r.round == b.round && r.rtt.doneStamp == b.rtt.doneStamp
                  && r.rtt.roundDone == (b.rtt.roundDone || b.round.start)
                  && (r.gains.mode.ProbeRtt? <==> !(r.rtt.roundDone && tcp.now > b.rtt.doneStamp))
                  && (if r.gains.mode.ProbeRtt? then r.rtt.stamp in {b.rtt.stamp, tcp.now}
                      else r.rtt.stamp == tcp.now && r.win.restore))
            && (if Enters(c, b, tcp)
                then && r.win.prior >= tcp.sndCwnd && r.win.prior >= b.win.prior
                     && r.win.prior in {b.win.prior, tcp.sndCwnd}
                else r.win.prior == b.win.prior)
  {
    hide ResetProbeBwMode, FilterExpired, Low32;
    ResetMeans(b.gains, b.full.reached, b.lt.useBw, tcp, draw);
  }

  lemma ResetMeans(g: Gains, reached: bool, ltUseBw: bool, tcp: Tcp, draw: Draw)
    ensures !ResetMode(g, reached, ltUseBw, tcp, draw).mode.ProbeRtt?
  {
  }

  /** An event that is not an ACK leaves the visit alone, except that a saved window may grow. */
  lemma OtherFrame(c: Clock, b: Bbr, i: Input)
    requires !i.event.Ack?
    ensures var r := Step(c, b, i).0;
            && r.gains.mode == b.gains.mode && r.rtt == b.rtt.(idleRestart := r.rtt.idleRestart)
            && r.round.nextDelivered == b.round.nextDelivered
            && (b.gains.mode.ProbeRtt? ==> r.win.prior >= b.win.prior)
            && (r.win.prior == b.win.prior || r.win.prior == i.tcp.sndCwnd)
  {
    hide LtBwSampling, SetPacingRate;
    match i.event
    case SetState(s, draw) => LtFrame(b.lt, b.gains, i.tcp, true, 1, false, draw);
    case _ =>
  }

  // ---- The duration of a visit ----

  /** An ACK for data sent after event `s`: one full round. */
  ghost predicate RoundAck(run: seq<Input>, s: nat, r: nat)
    requires s < r < |run|
  {
    match run[r].event
    case Ack(rs, _) => ValidSample(rs) && rs.priorDelivered >= run[s].tcp.delivered
    case _ => false
  }

  /** Between events `i` and `k`, in-flight dropped to four at event `s`, which started the clock of the visit. */
  ghost predicate HeldSince(c: Clock, b: Bbr, run: seq<Input>, i: nat, k: nat, s: nat)
    requires k <= |run|
  {
    && i <= s < k && run[s].tcp.inFlight <= CWND_MIN_TARGET
    && b.rtt.doneStamp == run[s].tcp.now + c.probeRttJiffies
    && b.round.nextDelivered >= run[s].tcp.delivered
    && (b.rtt.roundDone ==> exists r: nat :: s < r < k && RoundAck(run, s, r))
  }

  /** The first event of a visit. */
  lemma VisitStarts(c: Clock, b: Bbr, run: seq<Input>, i: nat)
    requires i < |run| && EntersAt(c, b, run, i)
    ensures var b' := After(c, b, run, i + 1);
            && run[i].event.Ack?
            && Enters(c, UpdateRates(After(c, b, run, i), run[i].tcp, run[i].event.rs, run[i].event.draws), run[i].tcp)
            && (b'.rtt.doneStamp == 0 || HeldSince(c, b', run, i, i + 1, i))
            && b'.win.prior >= run[i].tcp.sndCwnd
  {
    hide UpdateRates, UpdateMinRtt, OnAck, Enters;
    var b0 := After(c, b, run, i);
    if run[i].event.Ack? {
      var rs, d, tcp := run[i].event.rs, run[i].event.draws, run[i].tcp;
      RatesFrame(b0, tcp, rs, d);
      MinRttFrame(c, UpdateRates(b0, tcp, rs, d), tcp, rs, d.rttDraw);
      AckModel(c, b0, tcp, rs, d);
    } else {
      OtherFrame(c, b0, run[i]);
    }
  }

  /** One more event of a visit. */
  lemma VisitContinues(c: Clock, b: Bbr, run: seq<Input>, i: nat, k: nat, s: nat) returns (s': nat)
    requires i < k < |run| && Ordered(run) && c.probeRttJiffies > 0
    requires After(c, b, run, k).gains.mode.ProbeRtt?
    requires After(c, b, run, k).rtt.doneStamp == 0 || HeldSince(c, After(c, b, run, k), run, i, k, s)
    ensures var b' := After(c, b, run, k + 1);
            if b'.gains.mode.ProbeRtt? then b'.rtt.doneStamp == 0 || HeldSince(c, b', run, i, k + 1, s')
            else s' == s && Left(c, After(c, b, run, k), run, i, k, s)
    ensures After(c, b, run, k + 1).win.prior >= After(c, b, run, k).win.prior
  {
    hide Step, Ordered;
    var b0 := After(c, b, run, k);
    s' := s;
    if run[k].event.Ack? {
      s' := AckInVisit(c, b0, run, i, k, s);
    } else {
      OtherFrame(c, b0, run[k]);
      OtherHolds(c, b0, run, i, k, s);
    }
  }

  /** Why event `k` may leave the visit. */
  ghost predicate Left(c: Clock, b: Bbr, run: seq<Input>, i: nat, k: nat, s: nat)
    requires k < |run|
  {
    && run[k].event.Ack? && i <= s < k && run[s].tcp.inFlight <= CWND_MIN_TARGET
    && run[k].tcp.now > run[s].tcp.now + c.probeRttJiffies
    && (exists r: nat :: s < r <= k && RoundAck(run, s, r))
    && Step(c, b, run[k]).0.rtt.stamp == run[k].tcp.now
  }

  lemma OtherHolds(c: Clock, b: Bbr, run: seq<Input>, i: nat, k: nat, s: nat)
    requires k < |run| && !run[k].event.Ack?
    requires b.rtt.doneStamp == 0 || HeldSince(c, b, run, i, k, s)
    ensures var b' := Step(c, b, run[k]).0; b'.rtt.doneStamp == 0 || HeldSince(c, b', run, i, k + 1, s)
  {
    OtherFrame(c, b, run[k]);
    var b' := Step(c, b, run[k]).0;
    if b.rtt.doneStamp != 0 && b'.rtt.roundDone {
      var r: nat :| s < r < k && RoundAck(run, s, r);
      assert s < r < k + 1;
    }
  }

  lemma AckInVisit(c: Clock, b: Bbr, run: seq<Input>, i: nat, k: nat, s: nat) returns (s': nat)
    requires i < k < |run| && Ordered(run) && c.probeRttJiffies > 0 && run[k].event.Ack? && b.gains.mode.ProbeRtt?
    requires b.rtt.doneStamp == 0 || HeldSince(c, b, run, i, k, s)
    ensures var b' := Step(c, b, run[k]).0;
            && (if b'.gains.mode.ProbeRtt? then b'.rtt.doneStamp == 0 || HeldSince(c, b', run, i, k + 1, s')
                else s' == s && Left(c, b, run, i, k, s))
            && b'.win.prior >= b.win.prior
  {
    hide UpdateRates, UpdateMinRtt, OnAck, Enters;
    var rs, d, tcp := run[k].event.rs, run[k].event.draws, run[k].tcp;
    RatesFrame(b, tcp, rs, d);
    MinRttFrame(c, UpdateRates(b, tcp, rs, d), tcp, rs, d.rttDraw);
    AckModel(c, b, tcp, rs, d);
    if b.rtt.doneStamp == 0 {
      s' := k;
    } else {
      s' := s;
      if b.rtt.roundDone {
        var r: nat :| s < r < k && RoundAck(run, s, r);
        assert s < r < k + 1;
      } else if StartsRound(b.round, rs) {
        assert RoundAck(run, s, k);
      }
    }
  }

  /** Up to any event of a visit. */
  lemma {:induction false} VisitSoFar(c: Clock, b: Bbr, run: seq<Input>, i: nat, k: nat) returns (s: nat)
    requires i < k <= |run| && Ordered(run) && c.probeRttJiffies > 0 && Visit(c, b, run, i, k)
    ensures var b' := After(c, b, run, k);
            (b'.rtt.doneStamp == 0 || HeldSince(c, b', run, i, k, s)) && b'.win.prior >= run[i].tcp.sndCwnd
    decreases k
  {
    hide Step, HeldSince, Left, UpdateRates, Enters;
    if k == i + 1 {
      VisitStarts(c, b, run, i);
      s := i;
    } else {
      s := VisitSoFar(c, b, run, i, k - 1);
      s := VisitContinues(c, b, run, i, k - 1, s);
    }
  }

  /** In every run, a visit of PROBE_RTT ends only more than 100 ms after in-flight dropped to four packets, and only
      after an ACK for data sent since then. */
  lemma VisitLasts(c: Clock, b: Bbr, run: seq<Input>, i: nat, j: nat) returns (s: nat, r: nat)
    requires i < j < |run| && Ordered(run) && ClockOk(c) && Visit(c, b, run, i, j) && Exits(c, b, run, j)
    ensures i <= s < r <= j && run[s].tcp.inFlight <= CWND_MIN_TARGET
    ensures (run[j].tcp.now - run[s].tcp.now) * 1000 > PROBE_RTT_MODE_MS * c.hz
    ensures RoundAck(run, s, r)
  {
    hide Step, HeldSince, RoundAck;
    s := VisitSoFar(c, b, run, i, j);
    s := VisitContinues(c, b, run, i, j, s);
    r :| s < r <= j && RoundAck(run, s, r);
  }

  // ---- The time between visits ----

  /** The filter stamp only moves to the present. */
  lemma StampMoves(c: Clock, b: Bbr, i: Input)
    ensures Step(c, b, i).0.rtt.stamp in {b.rtt.stamp, i.tcp.now}
  {
    hide UpdateRates, UpdateMinRtt, OnAck, Enters;
    if i.event.Ack? {
      var rs, d := i.event.rs, i.event.draws;
      RatesFrame(b, i.tcp, rs, d);
      MinRttFrame(c, UpdateRates(b, i.tcp, rs, d), i.tcp, rs, d.rttDraw);
      AckModel(c, b, i.tcp, rs, d);
    } else {
      OtherFrame(c, b, i);
    }
  }

  lemma {:induction false} StampSince(c: Clock, b: Bbr, run: seq<Input>, i: nat, k: nat)
    requires i < k <= |run| && Ordered(run) && After(c, b, run, i + 1).rtt.stamp == run[i].tcp.now
    ensures After(c, b, run, k).rtt.stamp >= run[i].tcp.now
    decreases k
  {
    hide Step;
    if k > i + 1 {
      StampSince(c, b, run, i, k - 1);
      StampMoves(c, After(c, b, run, k - 1), run[k - 1]);
    }
  }

  /** An exit notes the time. */
  lemma ExitStamps(c: Clock, b: Bbr, i: Input)
    requires b.gains.mode.ProbeRtt? && !Step(c, b, i).0.gains.mode.ProbeRtt?
    ensures i.event.Ack? && Step(c, b, i).0.rtt.stamp == i.tcp.now
  {
    hide UpdateRates, UpdateMinRtt, OnAck, Enters;
    if i.event.Ack? {
      var rs, d := i.event.rs, i.event.draws;
      RatesFrame(b, i.tcp, rs, d);
      MinRttFrame(c, UpdateRates(b, i.tcp, rs, d), i.tcp, rs, d.rttDraw);
      AckModel(c, b, i.tcp, rs, d);
    } else {
      OtherFrame(c, b, i);
    }
  }

  /** In every run, the next visit starts more than 10 seconds after an exit. */
  lemma VisitsAreRare(c: Clock, b: Bbr, run: seq<Input>, i: nat, j: nat)
    requires i < j < |run| && Ordered(run) && Exits(c, b, run, i) && EntersAt(c, b, run, j)
    ensures run[j].tcp.now > run[i].tcp.now + MIN_RTT_WIN_SEC * c.hz
  {
    hide Step, UpdateRates;
    ExitStamps(c, After(c, b, run, i), run[i]);
    StampSince(c, b, run, i, j);
    VisitStarts(c, b, run, j);
    RatesFrame(After(c, b, run, j), run[j].tcp, run[j].event.rs, run[j].event.draws);
  }

  // ---- The window ----

  /** Inside a visit an ACK that acknowledges data leaves at most four packets of window. */
  lemma WindowInside(c: Clock, b: Bbr, tcp: Tcp, rs: RateSample, d: Draws)
    requires rs.ackedSacked > 0 && OnAck(c, b, tcp, rs, d).0.gains.mode.ProbeRtt?
    ensures OnAck(c, b, tcp, rs, d).1.sndCwnd <= CWND_MIN_TARGET
  {
    hide UpdateModel, SetPacingRate, UpdateRates, ProbeAppLimited, RecoverOrRestore, Steer, Target;
  }

  const MODEST: nat := 0x4000_0000

  /** Windows and packet counts far from the 32-bit limit. */
  ghost predicate Modest(run: seq<Input>) {
    forall i :: 0 <= i < |run| ==>
      && run[i].tcp.sndCwnd < MODEST && run[i].tcp.inFlight < MODEST
      && (run[i].event.Ack? ==> run[i].event.rs.ackedSacked < MODEST)
  }

  lemma PriorStep(c: Clock, b: Bbr, i: Input)
    ensures Step(c, b, i).0.win.prior in {b.win.prior, i.tcp.sndCwnd}
  {
    hide UpdateRates, UpdateMinRtt, OnAck, Enters;
    if i.event.Ack? {
      var rs, d := i.event.rs, i.event.draws;
      RatesFrame(b, i.tcp, rs, d);
      MinRttFrame(c, UpdateRates(b, i.tcp, rs, d), i.tcp, rs, d.rttDraw);
      AckModel(c, b, i.tcp, rs, d);
    } else {
      OtherFrame(c, b, i);
    }
  }

  lemma {:induction false} PriorModest(c: Clock, b: Bbr, run: seq<Input>, k: nat)
    requires k <= |run| && Modest(run) && b.win.prior < MODEST
    ensures After(c, b, run, k).win.prior < MODEST
    decreases k
  {
    hide Step;
    if k > 0 {
      PriorModest(c, b, run, k - 1);
      PriorStep(c, After(c, b, run, k - 1), run[k - 1]);
    }
  }

  /** With a restore pending, the window comes back to the saved one, as far as the target of a full pipe and the clamp
      allow. */
  lemma RestoredWindow(b: Bbr, tcp: Tcp, losses: nat, acked: uint32, bw: uint32, gain: nat)
    requires b.win.restore && !b.gains.mode.ProbeRtt?
    requires b.win.prior < MODEST && tcp.sndCwnd < MODEST && tcp.inFlight < MODEST && acked < MODEST
    ensures var cwnd := NewCwnd(b, tcp, losses, acked, bw, gain);
            cwnd >= b.win.prior || cwnd == tcp.clamp || (b.full.reached && cwnd >= Target(b, bw, gain))
  {
    hide Target;
    assert Signed(Low32(tcp.sndCwnd - losses)) < 0x8000_0000;
  }

  /** An exiting ACK that acknowledges data leaves at least the window of the entry, unless the clamp or, once the pipe
      was full, the target is smaller. */
  lemma ExitRestores(c: Clock, b: Bbr, run: seq<Input>, i: nat, j: nat)
    requires i < j < |run| && Ordered(run) && ClockOk(c) && Visit(c, b, run, i, j) && Exits(c, b, run, j)
    requires Modest(run) && b.win.prior < MODEST && run[j].event.Ack? && run[j].event.rs.ackedSacked > 0
    ensures var (b', tcp') := Step(c, After(c, b, run, j), run[j]);
            || tcp'.sndCwnd >= run[i].tcp.sndCwnd || tcp'.sndCwnd == run[j].tcp.clamp
            || (b'.full.reached && tcp'.sndCwnd >= Target(b', BwOf(b'), b'.gains.cwnd))
  {
    hide HeldSince, UpdateRates, UpdateMinRtt, Enters, SetPacingRate, NewCwnd, ProbeAppLimited, RecoverOrRestore,
        Target, StartsRecovery;
    var b0, rs, d, tcp := After(c, b, run, j), run[j].event.rs, run[j].event.draws, run[j].tcp;
    var s := VisitSoFar(c, b, run, i, j);
    PriorModest(c, b, run, j);
    RatesFrame(b0, tcp, rs, d);
    MinRttFrame(c, UpdateRates(b0, tcp, rs, d), tcp, rs, d.rttDraw);
    var tcp1 := tcp.(appLimited := ProbeAppLimited(c, UpdateRates(b0, tcp, rs, d), tcp));
    var (b2, tcp2) := Paced(UpdateModel(c, b0, tcp, rs, d), tcp1);
    RestoredWindow(b2, tcp2, rs.losses, rs.ackedSacked, BwOf(b2), b2.gains.cwnd);
    SameTarget(c, b0, tcp, rs, d, b2);
  }

  lemma SameTarget(c: Clock, b: Bbr, tcp: Tcp, rs: RateSample, d: Draws, b2: Bbr)
    requires b2 == Paced(UpdateModel(c, b, tcp, rs, d),
        tcp.(appLimited := ProbeAppLimited(c, UpdateRates(b, tcp, rs, d), tcp))).0
    ensures var b' := OnAck(c, b, tcp, rs, d).0;
            && Target(b2, BwOf(b2), b2.gains.cwnd) == Target(b', BwOf(b'), b'.gains.cwnd)
            && b2.full == b'.full && b2.gains == b'.gains
  {
    hide UpdateModel, UpdateRates, SetPacingRate, NewCwnd, ProbeAppLimited, RecoverOrRestore, TargetCwnd,
        StartsRecovery;
  }
}
