/** When a worker prints a report, and which of its loop iterations each counter of the report counts. */
module LoopLedger {
  import opened TxBuffering
  import opened WorkerModel
  import opened WorkerProofs
  import opened WindowProofs
  import opened StageLedger

  // ----- Both workers

  function StepOf<P>(buffered: bool, cfg: Config<P>, env: Env<P>, s: State<P>): State<P> {
    if buffered then BufferedStep(cfg, env, s) else DirectStep(cfg, env, s)
  }

  function RunOf<P>(buffered: bool, cfg: Config<P>, env: Env<P>, n: nat): State<P> {
    if buffered then BufferedRun(cfg, env, n) else DirectRun(cfg, env, n)
  }

  lemma RunNext<P>(buffered: bool, cfg: Config<P>, env: Env<P>, n: nat)
    ensures RunOf(buffered, cfg, env, n + 1) == StepOf(buffered, cfg, env, RunOf(buffered, cfg, env, n))
    ensures RunOf(buffered, cfg, env, 0) == Initial(env)
  {
  }

  lemma RunOnTime<P>(buffered: bool, cfg: Config<P>, env: Env<P>, n: nat)
    requires ValidConfig(cfg) && WellBehaved(cfg, env)
    ensures var s := RunOf(buffered, cfg, env, n); s.polls == n && s.ticks > 0 && s.lastReport <= env.clock(s.ticks - 1)
  {
    hide BufferedRun, DirectRun, GoodReports, Accounts, WellBehaved, ValidConfig, CountsAgree;
    if buffered {
      BufferedRunTimely(cfg, env, n);
      BufferedRunBalanced(cfg, env, n);
    } else {
      DirectRunTimely(cfg, env, n);
      DirectRunBalanced(cfg, env, n);
    }
  }

  // ----- Iterations

  /** One loop iteration: its first and last timer read, and how many packets its poll found. */
  datatype Iteration = Iteration(first: nat, last: nat, received: nat)

  /** The iterations that found nothing. */
  function EmptyCount(its: seq<Iteration>): (k: nat)
    ensures k <= |its|
  {
    if its == [] then 0
    else EmptyCount(its[..|its| - 1]) + if its[|its| - 1].received == 0 then 1 else 0
  }

  function ReceivedIn(its: seq<Iteration>): nat {
    if its == [] then 0 else ReceivedIn(its[..|its| - 1]) + its[|its| - 1].received
  }

  /** The time the iterations took, each from its first read to its last. */
  function LoopTime(clock: nat -> nat, its: seq<Iteration>): int {
    if its == [] then 0
    else LoopTime(clock, its[..|its| - 1]) + clock(its[|its| - 1].last) - clock(its[|its| - 1].first)
  }

  /** The same for those that found nothing. */
  function EmptyTime(clock: nat -> nat, its: seq<Iteration>): int {
    if its == [] then 0
    else
      var it := its[|its| - 1];
      EmptyTime(clock, its[..|its| - 1]) + if it.received == 0 then clock(it.last) - clock(it.first) else 0
  }

  /** The loop counters and loop timers count exactly these iterations. */
  ghost predicate Tallies(clock: nat -> nat, its: seq<Iteration>, p: Profile) {
    && p.pollCount == |its| && p.emptyPollCount == EmptyCount(its)
    && p.nonemptyPollCount == p.workBatches == |its| - EmptyCount(its)
    && p.rxPackets == ReceivedIn(its)
    && p.totalLoopCycles == LoopTime(clock, its)
    && p.emptyPollCycles == EmptyTime(clock, its)
    && p.nonemptyPollCycles == LoopTime(clock, its) - EmptyTime(clock, its)
  }

  /** The n-th iteration of a run. */
  function NthIteration<P>(buffered: bool, cfg: Config<P>, env: Env<P>, n: nat): Iteration {
    var s, t := RunOf(buffered, cfg, env, n), RunOf(buffered, cfg, env, n + 1);
    Iteration(s.ticks, if t.ticks > 0 then t.ticks - 1 else 0, |env.rx(n)|)
  }

  /** Whether the n-th iteration ends at least a report period after the last report. */
  predicate ReportDue<P>(buffered: bool, cfg: Config<P>, env: Env<P>, n: nat) {
    var last := NthIteration(buffered, cfg, env, n).last;
    env.clock(last) - RunOf(buffered, cfg, env, n).lastReport >= cfg.reportCycles
  }

  /** The iterations since the last report that was due. */
  function OpenIterations<P>(buffered: bool, cfg: Config<P>, env: Env<P>, n: nat): seq<Iteration> {
    if n == 0 || ReportDue(buffered, cfg, env, n - 1) then []
    else OpenIterations(buffered, cfg, env, n - 1) + [NthIteration(buffered, cfg, env, n - 1)]
  }

  /** For each report that was due in the first `n` iterations, the iterations it covers. */
  function ClosedIterations<P>(buffered: bool, cfg: Config<P>, env: Env<P>, n: nat): seq<seq<Iteration>> {
    if n == 0 then []
    else
      ClosedIterations(buffered, cfg, env, n - 1)
      + if ReportDue(buffered, cfg, env, n - 1)
        then [OpenIterations(buffered, cfg, env, n - 1) + [NthIteration(buffered, cfg, env, n - 1)]] else []
  }

  lemma TallySnoc(clock: nat -> nat, its: seq<Iteration>, it: Iteration)
    ensures EmptyCount(its + [it]) == EmptyCount(its) + if it.received == 0 then 1 else 0
    ensures ReceivedIn(its + [it]) == ReceivedIn(its) + it.received
    ensures LoopTime(clock, its + [it]) == LoopTime(clock, its) + clock(it.last) - clock(it.first)
    ensures EmptyTime(clock, its + [it])
            == EmptyTime(clock, its) + if it.received == 0 then clock(it.last) - clock(it.first) else 0
  {
    assert (its + [it])[..|its|] == its;
  }

  // ----- One iteration

  /** What an iteration has counted when it reaches its end: its poll and its packets, but no loop time. */
  ghost predicate Counted(before: Profile, p: Profile, received: nat) {
    var work := if received == 0 then 0 else 1;
    && p.pollCount == before.pollCount + 1 && p.emptyPollCount == before.emptyPollCount
    && p.nonemptyPollCount == before.nonemptyPollCount + work && p.workBatches == before.workBatches + work
    && p.rxPackets == before.rxPackets + received
    && p.totalLoopCycles == before.totalLoopCycles && p.emptyPollCycles == before.emptyPollCycles
    && p.nonemptyPollCycles == before.nonemptyPollCycles
  }

  lemma FlushCounts<P>(env: Env<P>, s: State<P>)
    ensures var t := FlushTimed(env, s);
            && t.windows == s.windows && t.lastReport == s.lastReport && t.ticks >= s.ticks
            && t.stats == s.stats.(txCycles := t.stats.txCycles, txPackets := t.stats.txPackets,
                                   txDrops := t.stats.txDrops)
  {
    hide Elapsed;
  }

  lemma TxStageCounts<P>(env: Env<P>, s: State<P>, y: TxState<P>)
    requires |s.tx.sent| <= |y.sent| && s.tx.drops <= y.drops
    ensures var t := TxStage(env, s, y);
            && t.windows == s.windows && t.lastReport == s.lastReport && t.ticks >= s.ticks
            && t.stats == s.stats.(txCycles := t.stats.txCycles, txPackets := t.stats.txPackets,
                                   txDrops := t.stats.txDrops)
  {
    hide Elapsed;
  }

  lemma ReceiveCounts<P>(env: Env<P>, s: State<P>, n: nat)
    ensures var t := Receive(env, s);
            && t.windows == s.windows && t.lastReport == s.lastReport && t.ticks >= s.ticks
            && Counted(s.stats, t.stats, 0)
            && (n > 0 ==> Counted(s.stats, Work(env, t, n).stats, n) && Work(env, t, n).windows == s.windows
                          && Work(env, t, n).lastReport == s.lastReport && Work(env, t, n).ticks >= s.ticks)
  {
    hide Elapsed;
  }

  /** Every iteration reaches its end with these counts, and closes with a last timer read. */
  lemma StepReachesEnd<P>(buffered: bool, cfg: Config<P>, env: Env<P>, s: State<P>)
    returns (v: State<P>, checkedAt: Option<nat>)
    ensures StepOf(buffered, cfg, env, s)
            == CloseLoop(cfg, env, v, env.clock(s.ticks), env.rx(s.polls) == [], checkedAt)
    ensures v.windows == s.windows && v.lastReport == s.lastReport && v.ticks >= s.ticks
    ensures Counted(s.stats, v.stats, |env.rx(s.polls)|)
  {
    hide CloseLoop, FlushTimed, TxStage, Work, Receive, Elapsed, PushAll, Transmit, Map;
    var burst, t := env.rx(s.polls), Receive(env, s);
    var w, ps := Work(env, t, |burst|), Map(cfg.process, burst);
    ReceiveCounts(env, s, |burst|);
    checkedAt := None;
    if burst == [] {
      FlushCounts(env, t);
      v := if buffered then FlushTimed(env, t) else t;
    } else if buffered {
      PushAllGrows(env.nic, cfg.bufferSize, w.tx, ps);
      TxStageCounts(env, w, PushAll(env.nic, cfg.bufferSize, w.tx, ps));
      var u := BufferBurst(cfg, env, w, ps);
      FlushCounts(env, u.(ticks := u.ticks + 1));
      v, checkedAt := DeadlineFlush(cfg, env, u), Some(env.clock(u.ticks));
    } else {
      TransmitGrows(env.nic, w.tx, ps);
      TxStageCounts(env, w, Transmit(env.nic, w.tx, ps));
      v := SendBurst(env, w, ps);
    }
  }

  lemma TransmitGrows<P>(nic: Nic, x: TxState<P>, ps: seq<P>)
    ensures |x.sent| <= |Transmit(nic, x, ps).sent| && x.drops <= Transmit(nic, x, ps).drops
  {
  }

  /** A report is printed exactly when it is due; it closes the window, clears the counters, and opens the next. */
  ghost predicate ReportsIfDue<P>(cfg: Config<P>, env: Env<P>, s: State<P>, t: State<P>) {
    && t.ticks > s.ticks
    && var now := env.clock(t.ticks - 1);
    if now - s.lastReport >= cfg.reportCycles then
      && |t.windows| == |s.windows| + 1 && t.windows[..|s.windows|] == s.windows
      && t.windows[|s.windows|].openedAt == s.lastReport && t.windows[|s.windows|].closedAt == now
      && t.lastReport == now
      && t.stats == Profile(0, 0, 0, 0, 0, 0, 0, 0, 0, 0, 0, 0, 0, 0, 0)
    else
      t.windows == s.windows && t.lastReport == s.lastReport
  }

  /** One iteration: the report, and what it or the open window has counted. */
  lemma StepReports<P>(buffered: bool, cfg: Config<P>, env: Env<P>, s: State<P>, its: seq<Iteration>)
    requires WellBehaved(cfg, env) && s.ticks > 0 && s.lastReport <= env.clock(s.ticks - 1)
    requires Tallies(env.clock, its, s.stats)
    ensures var t := StepOf(buffered, cfg, env, s);
            && ReportsIfDue(cfg, env, s, t)
            && var all := its + [Iteration(s.ticks, t.ticks - 1, |env.rx(s.polls)|)];
            if |t.windows| > |s.windows| then Tallies(env.clock, all, t.windows[|s.windows|].profile)
            else Tallies(env.clock, all, t.stats)
  {
    hide StepOf, Tallies, WellBehaved;
    var v, checkedAt := StepReachesEnd(buffered, cfg, env, s);
    ReadsInOrder(cfg, env, s, v.ticks);
    CloseReports(cfg, env, s, v, checkedAt, its);
  }

  lemma ReadsInOrder<P>(cfg: Config<P>, env: Env<P>, s: State<P>, end: nat)
    requires WellBehaved(cfg, env) && s.ticks > 0 && s.lastReport <= env.clock(s.ticks - 1) && s.ticks <= end
    ensures s.lastReport <= env.clock(end) && env.clock(s.ticks) <= env.clock(end) < U64
  {
    assert env.clock(s.ticks - 1) <= env.clock(end);
  }

  lemma CloseReports<P>(cfg: Config<P>, env: Env<P>, s: State<P>, v: State<P>, checkedAt: Option<nat>,
                        its: seq<Iteration>)
    requires s.lastReport <= env.clock(v.ticks) < U64 && env.clock(s.ticks) <= env.clock(v.ticks)
    requires v.windows == s.windows && v.lastReport == s.lastReport && v.ticks >= s.ticks
    requires Counted(s.stats, v.stats, |env.rx(s.polls)|) && Tallies(env.clock, its, s.stats)
    ensures var t := CloseLoop(cfg, env, v, env.clock(s.ticks), env.rx(s.polls) == [], checkedAt);
            && ReportsIfDue(cfg, env, s, t)
            && var all := its + [Iteration(s.ticks, t.ticks - 1, |env.rx(s.polls)|)];
            if |t.windows| > |s.windows| then Tallies(env.clock, all, t.windows[|s.windows|].profile)
            else Tallies(env.clock, all, t.stats)
  {
    hide Elapsed, EmptyCount, ReceivedIn, LoopTime, EmptyTime;
    ElapsedIsDifference(s.lastReport, env.clock(v.ticks));
    ElapsedIsDifference(env.clock(s.ticks), env.clock(v.ticks));
    TallySnoc(env.clock, its, Iteration(s.ticks, v.ticks, |env.rx(s.polls)|));
  }

  /** How many timer reads an iteration of the buffered worker makes. */
  lemma BufferedReads<P>(cfg: Config<P>, env: Env<P>, s: State<P>)
    requires WellBehaved(cfg, env) && s.ticks > 0 && s.lastReport <= env.clock(s.ticks - 1)
    ensures var waiting := PushAll(env.nic, cfg.bufferSize, s.tx, Map(cfg.process, env.rx(s.polls))).buffer;
            BufferedStep(cfg, env, s).ticks
            == s.ticks + if env.rx(s.polls) == [] then (if s.tx.buffer == [] then 4 else 6)
                         else if env.clock(s.ticks + 11) - s.lastReport >= cfg.reportCycles && waiting != [] then 15
                         else 13
  {
    hide BufferedStep, BeforeClose, Elapsed, WellBehaved, StepIntervals, Charged, PushAll, Map;
    ReadsInOrder(cfg, env, s, s.ticks + 11);
    ElapsedIsDifference(s.lastReport, env.clock(s.ticks + 11));
    var empty, checkedAt := StepCloses(cfg, env, s);
    if env.rx(s.polls) == [] {
      EmptyCharges(cfg, env, s, Rx);
    } else {
      NonemptyCharges(cfg, env, s, Rx);
    }
  }

  /** And one of the unbuffered worker. */
  lemma DirectReads<P>(cfg: Config<P>, env: Env<P>, s: State<P>)
    ensures DirectStep(cfg, env, s).ticks == s.ticks + if env.rx(s.polls) == [] then 4 else 12
  {
    hide Elapsed, Flush, Map;
  }

  /** The iterations follow each other without a timer read in between. */
  lemma IterationsAdjacent<P>(buffered: bool, cfg: Config<P>, env: Env<P>, n: nat)
    requires ValidConfig(cfg) && WellBehaved(cfg, env)
    ensures NthIteration(buffered, cfg, env, 0).first == 1
    ensures NthIteration(buffered, cfg, env, n + 1).first == NthIteration(buffered, cfg, env, n).last + 1
  {
    RunOnTime(buffered, cfg, env, n + 1);
    RunNext(buffered, cfg, env, 0);
    hide RunOf, WellBehaved, ValidConfig;
  }

  // ----- Whole runs

  /**
   * Every report of every run, of either worker, counts exactly the iterations since the report
   * before it, and so does the window still open: their number, those that found nothing, the packets
   * they received, and the time from the first to the last timer read of each.
   */
  lemma {:induction false} ReportsTallied<P>(buffered: bool, cfg: Config<P>, env: Env<P>, n: nat)
    requires ValidConfig(cfg) && WellBehaved(cfg, env)
    ensures var s, closed := RunOf(buffered, cfg, env, n), ClosedIterations(buffered, cfg, env, n);
            && |closed| == |s.windows|
            && (forall i :: 0 <= i < |closed| ==> Tallies(env.clock, closed[i], s.windows[i].profile))
            && Tallies(env.clock, OpenIterations(buffered, cfg, env, n), s.stats)
  {
    hide RunOf, StepOf, Tallies, WellBehaved, ValidConfig;
    if n == 0 {
      RunNext(buffered, cfg, env, 0);
      NothingTallied(env.clock);
      InitialCounts(env);
    } else {
      ReportsTallied(buffered, cfg, env, n - 1);
      RunReports(buffered, cfg, env, n - 1);
      NothingTallied(env.clock);
    }
  }

  lemma NothingTallied(clock: nat -> nat)
    ensures Tallies(clock, [], Profile(0, 0, 0, 0, 0, 0, 0, 0, 0, 0, 0, 0, 0, 0, 0))
  {
    var none: seq<Iteration> := [];
    assert EmptyCount(none) == 0 && ReceivedIn(none) == 0;
    assert LoopTime(clock, none) == 0 && EmptyTime(clock, none) == 0;
    hide EmptyCount, ReceivedIn, LoopTime, EmptyTime;
  }

  lemma InitialCounts<P>(env: Env<P>)
    ensures Initial(env).windows == []
    ensures Initial(env).stats == Profile(0, 0, 0, 0, 0, 0, 0, 0, 0, 0, 0, 0, 0, 0, 0)
  {
  }

  /** The n-th iteration of a run. */
  lemma RunReports<P>(buffered: bool, cfg: Config<P>, env: Env<P>, n: nat)
    requires ValidConfig(cfg) && WellBehaved(cfg, env)
    requires Tallies(env.clock, OpenIterations(buffered, cfg, env, n), RunOf(buffered, cfg, env, n).stats)
    ensures var s, t := RunOf(buffered, cfg, env, n), RunOf(buffered, cfg, env, n + 1);
            && ReportsIfDue(cfg, env, s, t)
            && (|t.windows| > |s.windows| <==> ReportDue(buffered, cfg, env, n))
            && var all := OpenIterations(buffered, cfg, env, n) + [NthIteration(buffered, cfg, env, n)];
            if |t.windows| > |s.windows| then Tallies(env.clock, all, t.windows[|s.windows|].profile)
            else Tallies(env.clock, all, t.stats)
  {
    hide RunOf, StepOf, Tallies, WellBehaved, ValidConfig, OpenIterations;
    RunNext(buffered, cfg, env, n);
    RunOnTime(buffered, cfg, env, n);
    StepReports(buffered, cfg, env, RunOf(buffered, cfg, env, n), OpenIterations(buffered, cfg, env, n));
  }

  /**
   * A report is never late: after every iteration less than a report period has passed since the last
   * report, or since the start if there was none; and an iteration prints one exactly when its last
   * timer read is at least that period later.
   */
  lemma {:induction false} ReportsPrinted<P>(buffered: bool, cfg: Config<P>, env: Env<P>, n: nat)
    requires ValidConfig(cfg) && WellBehaved(cfg, env)
    ensures var s, t := RunOf(buffered, cfg, env, n), RunOf(buffered, cfg, env, n + 1);
            && ReportsIfDue(cfg, env, s, t)
            && s.ticks > 0 && (cfg.reportCycles > 0 ==> env.clock(s.ticks - 1) - s.lastReport < cfg.reportCycles)
            && s.lastReport == if s.windows == [] then env.clock(0) else s.windows[|s.windows| - 1].closedAt
  {
    hide RunOf, StepOf, Tallies, WellBehaved, ValidConfig;
    RunOnTime(buffered, cfg, env, n);
    ReportsTallied(buffered, cfg, env, n);
    RunReports(buffered, cfg, env, n);
    if n == 0 {
      RunNext(buffered, cfg, env, 0);
    } else {
      ReportsPrinted(buffered, cfg, env, n - 1);
    }
  }

  // ----- The stages of the unbuffered worker

  /** What an iteration of the unbuffered worker spends in a stage, by the position of its reads. */
  function StageSpan(clock: nat -> nat, it: Iteration, stage: Stage): int {
    var r := it.first;
    match stage
    case Rx => clock(r + 2) - clock(r + 1)
    case Parse => if it.received == 0 then 0 else clock(r + 4) - clock(r + 3)
    case Rewrite => if it.received == 0 then 0 else clock(r + 6) - clock(r + 5)
    case Checksum => if it.received == 0 then 0 else clock(r + 8) - clock(r + 7)
    case Tx => if it.received == 0 then 0 else clock(r + 10) - clock(r + 9)
  }

  function StageTime(clock: nat -> nat, its: seq<Iteration>, stage: Stage): int {
    if its == [] then 0 else StageTime(clock, its[..|its| - 1], stage) + StageSpan(clock, its[|its| - 1], stage)
  }

  /** Each stage sum is the time these iterations spent in the stage. */
  ghost predicate StagesTally(clock: nat -> nat, its: seq<Iteration>, p: Profile) {
    forall stage :: StageCycles(p, stage) == StageTime(clock, its, stage)
  }

  lemma DirectStepStages<P>(cfg: Config<P>, env: Env<P>, s: State<P>, its: seq<Iteration>)
    requires WellBehaved(cfg, env) && StagesTally(env.clock, its, s.stats)
    ensures var t := DirectStep(cfg, env, s);
            && t.ticks > 0
            && var all := its + [Iteration(s.ticks, t.ticks - 1, |env.rx(s.polls)|)];
            if |t.windows| > |s.windows|
            then StagesTally(env.clock, all, t.windows[|s.windows|].profile) && StagesTally(env.clock, [], t.stats)
            else StagesTally(env.clock, all, t.stats)
  {
    hide StageTime, CloseLoop, StagesTally, DirectEnd, WellBehaved, StageCycles;
    var v := DirectEnd(cfg, env, s);
    var it := Iteration(s.ticks, v.ticks, |env.rx(s.polls)|);
    DirectCloses(cfg, env, s);
    forall stage
      ensures StageCycles(v.stats, stage) == StageCycles(s.stats, stage) + StageSpan(env.clock, it, stage)
    {
      DirectCharges(cfg, env, s, it, stage);
    }
    StagesNext(env.clock, its, it, s.stats, v.stats);
    CloseStages(cfg, env, v, env.clock(s.ticks), env.rx(s.polls) == [], its + [it]);
  }

  function DirectEnd<P>(cfg: Config<P>, env: Env<P>, s: State<P>): State<P> {
    var burst, t := env.rx(s.polls), Receive(env, s);
    if burst == [] then t else SendBurst(env, Work(env, t, |burst|), Map(cfg.process, burst))
  }

  lemma DirectCloses<P>(cfg: Config<P>, env: Env<P>, s: State<P>)
    ensures DirectStep(cfg, env, s)
            == CloseLoop(cfg, env, DirectEnd(cfg, env, s), env.clock(s.ticks), env.rx(s.polls) == [], None)
    ensures DirectEnd(cfg, env, s).windows == s.windows
  {
    hide CloseLoop, Elapsed, Flush, Map;
  }

  lemma DirectCharges<P>(cfg: Config<P>, env: Env<P>, s: State<P>, it: Iteration, stage: Stage)
    requires WellBehaved(cfg, env) && it.first == s.ticks && it.received == |env.rx(s.polls)|
    ensures StageCycles(DirectEnd(cfg, env, s).stats, stage)
            == StageCycles(s.stats, stage) + StageSpan(env.clock, it, stage)
  {
    hide Receive, Work, Map, StageCycles;
    var burst, t := env.rx(s.polls), Receive(env, s);
    ReceiveCharges(cfg, env, s, stage);
    if burst != [] {
      var w, ps := Work(env, t, |burst|), Map(cfg.process, burst);
      WorkCharges(cfg, env, t, |burst|, stage);
      SendCharges(cfg, env, w, ps, stage);
    }
  }

  lemma SendCharges<P>(cfg: Config<P>, env: Env<P>, s: State<P>, ps: seq<P>, stage: Stage)
    requires WellBehaved(cfg, env)
    ensures StageCycles(SendBurst(env, s, ps).stats, stage)
            == StageCycles(s.stats, stage) + TimeIf(env.clock, s.ticks, s.ticks + 1, stage == Tx)
  {
    ElapsedIsDifference(env.clock(s.ticks), env.clock(s.ticks + 1));
    hide Elapsed, WellBehaved, Transmit;
  }

  lemma StagesNext(clock: nat -> nat, its: seq<Iteration>, it: Iteration, before: Profile, p: Profile)
    requires StagesTally(clock, its, before)
    requires forall stage :: StageCycles(p, stage) == StageCycles(before, stage) + StageSpan(clock, it, stage)
    ensures StagesTally(clock, its + [it], p)
  {
    assert (its + [it])[..|its|] == its;
    hide StageCycles, StageSpan;
  }

  lemma CloseStages<P>(cfg: Config<P>, env: Env<P>, v: State<P>, start: nat, empty: bool, its: seq<Iteration>)
    requires StagesTally(env.clock, its, v.stats)
    ensures var t := CloseLoop(cfg, env, v, start, empty, None);
            && t.ticks == v.ticks + 1
            && if |t.windows| > |v.windows|
               then StagesTally(env.clock, its, t.windows[|v.windows|].profile) && StagesTally(env.clock, [], t.stats)
               else StagesTally(env.clock, its, t.stats)
  {
    hide Elapsed, StageTime;
    NoStageTime(env.clock);
  }

  lemma NoStageTime(clock: nat -> nat)
    ensures forall stage :: StageTime(clock, [], stage) == 0
    ensures StagesTally(clock, [], ZERO_PROFILE)
  {
  }

  /** Every report of every run of the unbuffered worker: each stage sum is the time its iterations spent there. */
  lemma {:induction false} DirectStagesTallied<P>(cfg: Config<P>, env: Env<P>, n: nat)
    requires ValidConfig(cfg) && WellBehaved(cfg, env)
    ensures var s, closed := RunOf(false, cfg, env, n), ClosedIterations(false, cfg, env, n);
            && |closed| == |s.windows|
            && (forall i :: 0 <= i < |closed| ==> StagesTally(env.clock, closed[i], s.windows[i].profile))
            && StagesTally(env.clock, OpenIterations(false, cfg, env, n), s.stats)
  {
    hide RunOf, StagesTally, Tallies, WellBehaved, ValidConfig, StepOf;
    if n == 0 {
      RunNext(false, cfg, env, 0);
      NoStageTime(env.clock);
    } else {
      DirectStagesTallied(cfg, env, n - 1);
      ReportsTallied(false, cfg, env, n - 1);
      RunReports(false, cfg, env, n - 1);
      DirectRunStages(cfg, env, n - 1, OpenIterations(false, cfg, env, n - 1));
    }
  }

  lemma DirectRunStages<P>(cfg: Config<P>, env: Env<P>, n: nat, its: seq<Iteration>)
    requires ValidConfig(cfg) && WellBehaved(cfg, env) && StagesTally(env.clock, its, RunOf(false, cfg, env, n).stats)
    ensures var s, t := RunOf(false, cfg, env, n), RunOf(false, cfg, env, n + 1);
            && var all := its + [NthIteration(false, cfg, env, n)];
            if |t.windows| > |s.windows|
            then StagesTally(env.clock, all, t.windows[|s.windows|].profile) && StagesTally(env.clock, [], t.stats)
            else StagesTally(env.clock, all, t.stats)
  {
    hide DirectStep, StagesTally, WellBehaved, ValidConfig, DirectRun;
    RunOnTime(false, cfg, env, n);
    RunNext(false, cfg, env, n);
    DirectStepStages(cfg, env, RunOf(false, cfg, env, n), its);
  }
}
