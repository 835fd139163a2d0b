/** What every printed report says about its window: poll counts, cycle accounting, packet balance. */
module WindowProofs {
  import opened TxBuffering
  import opened WorkerModel
  import opened WorkerProofs

  // ----- The timer

  /** With a monotone timer that stays within 64 bits, the wrapping difference is the plain one. */
  lemma ElapsedIsDifference(from: nat, to: nat)
    requires from <= to < U64
    ensures Elapsed(from, to) == to - from
  {
  }

  /** The poll counters and loop timers of a window that is between iterations. */
  predicate CountsAgree(p: Profile) {
    && p.pollCount == p.emptyPollCount + p.nonemptyPollCount
    && p.workBatches == p.nonemptyPollCount
    && p.totalLoopCycles == p.emptyPollCycles + p.nonemptyPollCycles
  }

  /** The same counters inside an iteration: an empty poll is counted as such only at its end. */
  predicate CountsInside(p: Profile, empty: bool) {
    CountsAgree(p.(pollCount := if empty && p.pollCount > 0 then p.pollCount - 1 else p.pollCount))
    && (empty ==> p.pollCount > 0)
  }

  /** Between iterations: the stages fit in the loop time, and the loop time in the window so far. */
  ghost predicate OnTime<P>(env: Env<P>, s: State<P>) {
    && s.ticks > 0
    && AccountedCycles(s.stats) <= s.stats.totalLoopCycles
    && s.lastReport + s.stats.totalLoopCycles <= env.clock(s.ticks - 1)
  }

  /** Inside an iteration begun at `start`: the stages fit in the loop time plus what has passed since. */
  ghost predicate InsideLoop<P>(env: Env<P>, s: State<P>, start: nat) {
    && s.ticks > 0
    && s.lastReport + s.stats.totalLoopCycles <= start <= env.clock(s.ticks - 1)
    && AccountedCycles(s.stats) + start <= s.stats.totalLoopCycles + env.clock(s.ticks - 1)
  }

  // ----- Reports

  /** What a printed report guarantees. */
  predicate GoodWindow<P>(cfg: Config<P>, w: Window, limit: nat) {
    && CountsAgree(w.profile)
    && AccountedCycles(w.profile) + OtherCycles(w.profile) == w.profile.totalLoopCycles
    && w.openedAt + w.profile.totalLoopCycles <= w.closedAt
    && w.closedAt - w.openedAt >= cfg.reportCycles
    // The packet balance is the growth of the buffer, which stays below the limit.
    && w.profile.rxPackets + w.startLength == w.profile.txPackets + w.profile.txDrops + w.endLength
    && w.startLength < limit && w.endLength < limit
    // Packets are left behind only if the deadline passed after the flush check of the last iteration.
    && (w.endLength > 0 ==>
          && w.checkedAt.Some?
          && w.openedAt <= w.checkedAt.value <= w.closedAt
          && w.checkedAt.value - w.openedAt < cfg.reportCycles)
  }

  /** All reports are good, and each window opens where the one before it closed. */
  ghost predicate GoodReports<P>(cfg: Config<P>, s: State<P>, limit: nat) {
    && (forall i :: 0 <= i < |s.windows| ==> GoodWindow(cfg, s.windows[i], limit))
    && (forall i :: 0 < i < |s.windows| ==> Follows(s.windows[i - 1], s.windows[i]))
    && (s.windows != [] ==>
          var last := s.windows[|s.windows| - 1];
          last.closedAt == s.lastReport && last.endLength == s.startLength)
  }

  predicate Follows(v: Window, w: Window) {
    v.closedAt == w.openedAt && v.endLength == w.startLength
  }

  ghost predicate Timely<P>(cfg: Config<P>, env: Env<P>, s: State<P>, limit: nat) {
    OnTime(env, s) && CountsAgree(s.stats) && GoodReports(cfg, s, limit)
  }

  // ----- The parts of an iteration

  /** Everything that holds inside an iteration begun at `start`. */
  ghost predicate Midway<P>(cfg: Config<P>, env: Env<P>, s: State<P>, start: nat, empty: bool, offered: seq<P>,
                            limit: nat) {
    && InsideLoop(env, s, start) && CountsInside(s.stats, empty)
    && GoodReports(cfg, s, limit) && Balanced(s, offered, limit)
  }

  lemma ReceiveMidway<P>(cfg: Config<P>, env: Env<P>, s: State<P>, offered: seq<P>, limit: nat)
    requires WellBehaved(cfg, env) && Timely(cfg, env, s, limit) && Balanced(s, offered, limit)
    ensures Midway(cfg, env, Receive(env, s), env.clock(s.ticks), true, offered, limit)
  {
    ElapsedIsDifference(env.clock(s.ticks + 1), env.clock(s.ticks + 2));
  }

  lemma FlushMidway<P>(cfg: Config<P>, env: Env<P>, s: State<P>, start: nat, empty: bool, offered: seq<P>, limit: nat)
    requires WellBehaved(cfg, env) && Midway(cfg, env, s, start, empty, offered, limit)
    ensures Midway(cfg, env, FlushTimed(env, s), start, empty, offered, limit)
    ensures FlushTimed(env, s).tx.buffer == []
    ensures FlushTimed(env, s).lastReport == s.lastReport && s.ticks <= FlushTimed(env, s).ticks
  {
    ElapsedIsDifference(env.clock(s.ticks), env.clock(s.ticks + 1));
    FlushTimedBalanced(env, s, offered, limit);
  }

  lemma WorkInside<P>(cfg: Config<P>, env: Env<P>, s: State<P>, start: nat, n: nat)
    requires WellBehaved(cfg, env) && InsideLoop(env, s, start) && CountsInside(s.stats, true)
    ensures InsideLoop(env, Work(env, s, n), start) && CountsInside(Work(env, s, n).stats, false)
  {
    var r := s.ticks;
    ElapsedIsDifference(env.clock(r), env.clock(r + 1));
    ElapsedIsDifference(env.clock(r + 2), env.clock(r + 3));
    ElapsedIsDifference(env.clock(r + 4), env.clock(r + 5));
    assert env.clock(r - 1) <= env.clock(r) && env.clock(r + 1) <= env.clock(r + 2);
    assert env.clock(r + 3) <= env.clock(r + 4);
  }

  lemma TxStageInside<P>(cfg: Config<P>, env: Env<P>, s: State<P>, y: TxState<P>, start: nat)
    requires WellBehaved(cfg, env) && InsideLoop(env, s, start)
    requires |s.tx.sent| <= |y.sent| && s.tx.drops <= y.drops
    ensures InsideLoop(env, TxStage(env, s, y), start)
    ensures CountsInside(s.stats, false) ==> CountsInside(TxStage(env, s, y).stats, false)
  {
    ElapsedIsDifference(env.clock(s.ticks), env.clock(s.ticks + 1));
  }

  lemma BurstMidway<P>(cfg: Config<P>, env: Env<P>, s: State<P>, y: TxState<P>, start: nat,
                       offered: seq<P>, ps: seq<P>, limit: nat)
    requires WellBehaved(cfg, env) && Midway(cfg, env, s, start, true, offered, limit)
    requires |s.tx.sent| <= |y.sent| && s.tx.drops <= y.drops
    requires Accounts(y, offered + ps) && |y.buffer| < limit
    ensures Midway(cfg, env, TxStage(env, Work(env, s, |ps|), y), start, false, offered + ps, limit)
  {
    hide InsideLoop, CountsInside, Balanced, Accounts, Elapsed, GoodWindow;
    TxStageBalanced(env, s, y, offered, ps, limit);
    WorkInside(cfg, env, s, start, |ps|);
    TxStageInside(cfg, env, Work(env, s, |ps|), y, start);
  }

  /** After the deadline flush, packets remain only if the check came before the deadline. */
  lemma DeadlineMidway<P>(cfg: Config<P>, env: Env<P>, s: State<P>, start: nat, offered: seq<P>, limit: nat)
    requires WellBehaved(cfg, env) && Midway(cfg, env, s, start, false, offered, limit)
    ensures var t := DeadlineFlush(cfg, env, s);
            && Midway(cfg, env, t, start, false, offered, limit)
            && t.lastReport <= env.clock(s.ticks) <= env.clock(t.ticks)
            && (t.tx.buffer != [] ==> env.clock(s.ticks) - t.lastReport < cfg.reportCycles)
  {
    ElapsedIsDifference(s.lastReport, env.clock(s.ticks));
    assert env.clock(s.ticks - 1) <= env.clock(s.ticks);
    var t := s.(ticks := s.ticks + 1);
    assert Midway(cfg, env, t, start, false, offered, limit);
    FlushMidway(cfg, env, t, start, false, offered, limit);
    hide FlushTimed, Midway;
  }

  // ----- The end of an iteration

  lemma GoodReportsAppend<P>(cfg: Config<P>, s: State<P>, t: State<P>, w: Window, limit: nat)
    requires GoodReports(cfg, s, limit) && GoodWindow(cfg, w, limit)
    requires t.windows == s.windows + [w] && w.openedAt == s.lastReport && w.startLength == s.startLength
    requires t.lastReport == w.closedAt && t.startLength == w.endLength
    ensures GoodReports(cfg, t, limit)
  {
    hide GoodWindow;
  }

  /** The loop timers of the iteration that ends now. */
  lemma LoopTimed<P>(cfg: Config<P>, env: Env<P>, s: State<P>, start: nat)
    requires WellBehaved(cfg, env) && InsideLoop(env, s, start)
    ensures var loop := Elapsed(start, env.clock(s.ticks));
            && AccountedCycles(s.stats) <= s.stats.totalLoopCycles + loop
            && s.lastReport + s.stats.totalLoopCycles + loop <= env.clock(s.ticks)
    ensures Elapsed(s.lastReport, env.clock(s.ticks)) == env.clock(s.ticks) - s.lastReport
  {
    assert env.clock(s.ticks - 1) <= env.clock(s.ticks);
    ElapsedIsDifference(start, env.clock(s.ticks));
    ElapsedIsDifference(s.lastReport, env.clock(s.ticks));
  }

  /** The counters and timers after the end of an iteration. */
  lemma CloseLoopOnTime<P>(cfg: Config<P>, env: Env<P>, s: State<P>, start: nat, empty: bool, checkedAt: Option<nat>)
    requires WellBehaved(cfg, env) && InsideLoop(env, s, start) && CountsInside(s.stats, empty)
    ensures var t := CloseLoop(cfg, env, s, start, empty, checkedAt);
            OnTime(env, t) && CountsAgree(t.stats)
  {
    LoopTimed(cfg, env, s, start);
    hide Elapsed;
  }

  lemma CloseLoopReports<P>(cfg: Config<P>, env: Env<P>, s: State<P>, start: nat, empty: bool,
                            checkedAt: Option<nat>, offered: seq<P>, limit: nat)
    requires WellBehaved(cfg, env) && Midway(cfg, env, s, start, empty, offered, limit)
    requires CheckedInTime(cfg, env, s, checkedAt)
    ensures GoodReports(cfg, CloseLoop(cfg, env, s, start, empty, checkedAt), limit)
  {
    LoopTimed(cfg, env, s, start);
    hide Elapsed, Accounts;
    var t := CloseLoop(cfg, env, s, start, empty, checkedAt);
    if t.windows != s.windows {
      GoodReportsAppend(cfg, s, t, t.windows[|s.windows|], limit);
    }
  }

  /** If packets are still buffered, the flush check was made in this window before its deadline. */
  ghost predicate CheckedInTime<P>(cfg: Config<P>, env: Env<P>, s: State<P>, checkedAt: Option<nat>) {
    s.tx.buffer != [] ==>
      && checkedAt.Some? && s.lastReport <= checkedAt.value <= env.clock(s.ticks)
      && checkedAt.value - s.lastReport < cfg.reportCycles
  }

  lemma CloseLoopTimely<P>(cfg: Config<P>, env: Env<P>, s: State<P>, start: nat, empty: bool,
                           checkedAt: Option<nat>, offered: seq<P>, limit: nat)
    requires WellBehaved(cfg, env) && Midway(cfg, env, s, start, empty, offered, limit)
    requires CheckedInTime(cfg, env, s, checkedAt)
    ensures Timely(cfg, env, CloseLoop(cfg, env, s, start, empty, checkedAt), limit)
    ensures Balanced(CloseLoop(cfg, env, s, start, empty, checkedAt), offered, limit)
  {
    hide CloseLoop, InsideLoop, CountsInside, OnTime, CountsAgree, GoodReports, Balanced;
    CloseLoopBalanced(cfg, env, s, start, empty, checkedAt, offered, limit);
    CloseLoopOnTime(cfg, env, s, start, empty, checkedAt);
    CloseLoopReports(cfg, env, s, start, empty, checkedAt, offered, limit);
  }

  // ----- Whole runs

  lemma BufferedStepTimely<P>(cfg: Config<P>, env: Env<P>, s: State<P>, offered: seq<P>)
    requires ValidConfig(cfg) && WellBehaved(cfg, env)
    requires Balanced(s, offered, cfg.bufferSize) && Timely(cfg, env, s, cfg.bufferSize)
    ensures Timely(cfg, env, BufferedStep(cfg, env, s), cfg.bufferSize)
  {
    hide Midway, Timely, FlushTimed, Work, TxStage, CloseLoop, DeadlineFlush, PushAll;
    var start, burst, t := env.clock(s.ticks), env.rx(s.polls), Receive(env, s);
    ReceiveMidway(cfg, env, s, offered, cfg.bufferSize);
    if burst == [] {
      FlushMidway(cfg, env, t, start, true, offered, cfg.bufferSize);
      CloseLoopTimely(cfg, env, FlushTimed(env, t), start, true, None, offered, cfg.bufferSize);
    } else {
      var ps := Map(cfg.process, burst);
      var y := PushAll(env.nic, cfg.bufferSize, t.tx, ps);
      PushAllGrows(env.nic, cfg.bufferSize, t.tx, ps);
      PushAllAccounts(env.nic, cfg.bufferSize, t.tx, offered, ps);
      BurstMidway(cfg, env, t, y, start, offered, ps, cfg.bufferSize);
      WorkKeepsTx(env, t, |burst|);
      var u := BufferBurst(cfg, env, Work(env, t, |burst|), ps);
      DeadlineMidway(cfg, env, u, start, offered + ps, cfg.bufferSize);
      CloseLoopTimely(cfg, env, DeadlineFlush(cfg, env, u), start, false, Some(env.clock(u.ticks)),
                      offered + ps, cfg.bufferSize);
    }
  }

  lemma WorkKeepsTx<P>(env: Env<P>, s: State<P>, n: nat)
    ensures Work(env, s, n).tx == s.tx
  {
  }

  lemma InitialTimely<P>(cfg: Config<P>, env: Env<P>, limit: nat)
    ensures Timely(cfg, env, Initial(env), limit)
  {
  }

  /** Every report of every run of the buffered worker is good. */
  lemma {:induction false} BufferedRunTimely<P>(cfg: Config<P>, env: Env<P>, n: nat)
    requires ValidConfig(cfg) && WellBehaved(cfg, env)
    ensures Timely(cfg, env, BufferedRun(cfg, env, n), cfg.bufferSize)
  {
    hide BufferedStep, Timely, Balanced, WellBehaved;
    if n == 0 {
      InitialTimely(cfg, env, cfg.bufferSize);
    } else {
      BufferedRunTimely(cfg, env, n - 1);
      BufferedRunBalanced(cfg, env, n - 1);
      BufferedStepTimely(cfg, env, BufferedRun(cfg, env, n - 1), Stream(cfg, env.rx, n - 1));
    }
  }

  lemma DirectStepTimely<P>(cfg: Config<P>, env: Env<P>, s: State<P>, offered: seq<P>)
    requires WellBehaved(cfg, env) && Balanced(s, offered, 1) && Timely(cfg, env, s, 1)
    ensures Timely(cfg, env, DirectStep(cfg, env, s), 1)
  {
    hide Timely, FlushTimed, Work, CloseLoop;
    var start, burst, t := env.clock(s.ticks), env.rx(s.polls), Receive(env, s);
    ReceiveMidway(cfg, env, s, offered, 1);
    if burst == [] {
      CloseLoopTimely(cfg, env, t, start, true, None, offered, 1);
    } else {
      var ps := Map(cfg.process, burst);
      var y := Transmit(env.nic, t.tx, ps);
      TransmitAccounts(env.nic, t.tx, offered, ps);
      BurstMidway(cfg, env, t, y, start, offered, ps, 1);
      WorkKeepsTx(env, t, |burst|);
      CloseLoopTimely(cfg, env, SendBurst(env, Work(env, t, |burst|), ps), start, false, None, offered + ps, 1);
    }
  }

  /** Every report of the unbuffered worker is good with nothing buffered: rx = tx + drops in each. */
  lemma {:induction false} DirectRunTimely<P>(cfg: Config<P>, env: Env<P>, n: nat)
    requires WellBehaved(cfg, env)
    ensures Timely(cfg, env, DirectRun(cfg, env, n), 1)
  {
    hide DirectStep, Timely, Balanced, WellBehaved;
    if n == 0 {
      InitialTimely(cfg, env, 1);
    } else {
      DirectRunTimely(cfg, env, n - 1);
      DirectRunBalanced(cfg, env, n - 1);
      DirectStepTimely(cfg, env, DirectRun(cfg, env, n - 1), Stream(cfg, env.rx, n - 1));
    }
  }
}
