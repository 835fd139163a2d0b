/**
 * Where the cycles of a report come from: a ledger of timer intervals, kept apart from the worker's
 * own sums, that says which reads bound which stage.
 */
module StageLedger {
  import opened TxBuffering
  import opened WorkerModel
  import opened WindowProofs

  datatype Stage = Rx | Parse | Rewrite | Checksum | Tx

  /** A timed piece of a stage, from one timer read to another. */
  datatype Interval = Interval(stage: Stage, begin: nat, end: nat)

  function StageCycles(p: Profile, stage: Stage): nat {
    match stage
    case Rx => p.rxCycles
    case Parse => p.parseCycles
    case Rewrite => p.rewriteCycles
    case Checksum => p.checksumCycles
    case Tx => p.txCycles
  }

  /** The time between two reads, for one stage. */
  function TimeIf(clock: nat -> nat, begin: nat, end: nat, counts: bool): int {
    if counts then clock(end) - clock(begin) else 0
  }

  /** The time between the reads of all intervals of a stage. */
  function Charged(clock: nat -> nat, ledger: seq<Interval>, stage: Stage): int {
    if ledger == [] then 0
    else
      var last := ledger[|ledger| - 1];
      Charged(clock, ledger[..|ledger| - 1], stage)
      + if last.stage == stage then clock(last.end) - clock(last.begin) else 0
  }

  /** The stages that can follow a stage: a batch goes through all of them, a flush adds another transmit. */
  predicate MayFollow(first: Stage, second: Stage) {
    match first
    case Rx => second == Rx || second == Parse || second == Tx
    case Parse => second == Rewrite
    case Rewrite => second == Checksum
    case Checksum => second == Tx
    case Tx => second == Tx || second == Rx
  }

  // ----- The ledger of a run

  /** The intervals of the five stages of a batch whose iteration starts at read `r`. */
  function BatchIntervals(r: nat): seq<Interval> {
    [Interval(Rx, r + 1, r + 2), Interval(Parse, r + 3, r + 4), Interval(Rewrite, r + 5, r + 6),
     Interval(Checksum, r + 7, r + 8), Interval(Tx, r + 9, r + 10)]
  }

  function FlushInterval(r: nat, flushed: bool): seq<Interval> {
    if flushed then [Interval(Tx, r, r + 1)] else []
  }

  /** Whether the flush check of the nonempty iteration from `s` finds the window over and packets waiting. */
  predicate FlushesAtDeadline<P>(cfg: Config<P>, env: Env<P>, s: State<P>) {
    && Elapsed(s.lastReport, env.clock(s.ticks + 11)) >= cfg.reportCycles
    && PushAll(env.nic, cfg.bufferSize, s.tx, Map(cfg.process, env.rx(s.polls))).buffer != []
  }

  /** The intervals of one iteration, by the position of their reads in it. */
  function StepIntervals<P>(cfg: Config<P>, env: Env<P>, s: State<P>): seq<Interval> {
    var r := s.ticks;
    if env.rx(s.polls) == [] then
      [Interval(Rx, r + 1, r + 2)] + FlushInterval(r + 3, s.tx.buffer != [])
    else
      BatchIntervals(r) + FlushInterval(r + 12, FlushesAtDeadline(cfg, env, s))
  }

  /** Whether the `n`-th iteration printed a report. */
  predicate Reported<P>(cfg: Config<P>, env: Env<P>, n: nat)
    requires n > 0
  {
    |BufferedRun(cfg, env, n).windows| > |BufferedRun(cfg, env, n - 1).windows|
  }

  /** The ledger of the window that is open after `n` iterations. */
  function OpenLedger<P>(cfg: Config<P>, env: Env<P>, n: nat): seq<Interval> {
    if n == 0 || Reported(cfg, env, n) then []
    else OpenLedger(cfg, env, n - 1) + StepIntervals(cfg, env, BufferedRun(cfg, env, n - 1))
  }

  /** The ledgers of the reports printed in `n` iterations. */
  function ClosedLedgers<P>(cfg: Config<P>, env: Env<P>, n: nat): seq<seq<Interval>> {
    if n == 0 then []
    else
      ClosedLedgers(cfg, env, n - 1)
      + if Reported(cfg, env, n)
        then [OpenLedger(cfg, env, n - 1) + StepIntervals(cfg, env, BufferedRun(cfg, env, n - 1))] else []
  }

  // ----- What a ledger says about a window

  ghost predicate Inside(clock: nat -> nat, ledger: seq<Interval>, from: nat, until: nat) {
    forall i :: 0 <= i < |ledger| ==> from <= clock(ledger[i].begin) <= clock(ledger[i].end) <= until
  }

  ghost predicate Disjoint(clock: nat -> nat, ledger: seq<Interval>) {
    forall i, j :: 0 <= i < j < |ledger| ==> clock(ledger[i].end) <= clock(ledger[j].begin)
  }

  /** From a receive on, each stage is one that can follow the stage before it. */
  predicate LoopOrder(ledger: seq<Interval>) {
    && (ledger != [] ==> ledger[0].stage == Rx)
    && forall i :: 0 < i < |ledger| ==> MayFollow(ledger[i - 1].stage, ledger[i].stage)
  }

  /** The intervals lie between the two times, one after the other, in an order the loop allows. */
  ghost predicate InOrder(clock: nat -> nat, ledger: seq<Interval>, from: nat, until: nat) {
    Inside(clock, ledger, from, until) && Disjoint(clock, ledger) && LoopOrder(ledger)
  }

  /** Each stage sum of the report is the total of its intervals, which are disjoint and inside the window. */
  ghost predicate Explains(clock: nat -> nat, ledger: seq<Interval>, w: Window) {
    && InOrder(clock, ledger, w.openedAt, w.closedAt)
    && forall stage :: Charged(clock, ledger, stage) == StageCycles(w.profile, stage)
  }

  /** The same for the window still open in a state, with the reads themselves in order. */
  ghost predicate Tracks<P>(env: Env<P>, ledger: seq<Interval>, s: State<P>) {
    && s.ticks > 0 && InOrder(env.clock, ledger, s.lastReport, env.clock(s.ticks - 1))
    && (ledger != [] ==> ledger[|ledger| - 1].stage == Tx || ledger[|ledger| - 1].stage == Rx)
    && forall stage :: Charged(env.clock, ledger, stage) == StageCycles(s.stats, stage)
  }

  // ----- Sums

  lemma {:induction false} ChargedConcat(clock: nat -> nat, a: seq<Interval>, b: seq<Interval>, stage: Stage)
    ensures Charged(clock, a + b, stage) == Charged(clock, a, stage) + Charged(clock, b, stage)
  {
    if b == [] {
      assert a + b == a;
    } else {
      var i := |b| - 1;
      ChargedConcat(clock, a, b[..i], stage);
      assert (a + b)[..|a| + i] == a + b[..i];
    }
  }

  lemma ChargedOne(clock: nat -> nat, x: Interval, stage: Stage)
    ensures Charged(clock, [x], stage) == TimeIf(clock, x.begin, x.end, x.stage == stage)
  {
    assert [x][..0] == [];
  }

  lemma ChargedBatch(clock: nat -> nat, r: nat, stage: Stage)
    ensures Charged(clock, BatchIntervals(r), stage)
         == TimeIf(clock, r + 1, r + 2, stage == Rx) + TimeIf(clock, r + 3, r + 4, stage == Parse)
            + TimeIf(clock, r + 5, r + 6, stage == Rewrite) + TimeIf(clock, r + 7, r + 8, stage == Checksum)
            + TimeIf(clock, r + 9, r + 10, stage == Tx)
  {
    var a, b, c, d, e := Interval(Rx, r + 1, r + 2), Interval(Parse, r + 3, r + 4), Interval(Rewrite, r + 5, r + 6),
      Interval(Checksum, r + 7, r + 8), Interval(Tx, r + 9, r + 10);
    ChargedOne(clock, a, stage);
    ChargedOne(clock, b, stage);
    ChargedOne(clock, c, stage);
    ChargedOne(clock, d, stage);
    ChargedOne(clock, e, stage);
    hide Charged;
    ChargedConcat(clock, [a], [b], stage);
    ChargedConcat(clock, [a] + [b], [c], stage);
    ChargedConcat(clock, [a] + [b] + [c], [d], stage);
    ChargedConcat(clock, [a] + [b] + [c] + [d], [e], stage);
    assert [a] + [b] + [c] + [d] + [e] == BatchIntervals(r);
  }

  lemma ChargedFlush(clock: nat -> nat, r: nat, flushed: bool, stage: Stage)
    ensures Charged(clock, FlushInterval(r, flushed), stage) == TimeIf(clock, r, r + 1, flushed && stage == Tx)
  {
    ChargedOne(clock, Interval(Tx, r, r + 1), stage);
  }

  // ----- One iteration

  /** The state in which an iteration reaches its end, before loop timers and report. */
  function BeforeClose<P>(cfg: Config<P>, env: Env<P>, s: State<P>): State<P> {
    var burst, t := env.rx(s.polls), Receive(env, s);
    if burst == [] then FlushTimed(env, t)
    else DeadlineFlush(cfg, env, BufferBurst(cfg, env, Work(env, t, |burst|), Map(cfg.process, burst)))
  }

  lemma StepCloses<P>(cfg: Config<P>, env: Env<P>, s: State<P>) returns (empty: bool, checkedAt: Option<nat>)
    ensures BufferedStep(cfg, env, s)
         == CloseLoop(cfg, env, BeforeClose(cfg, env, s), env.clock(s.ticks), empty, checkedAt)
  {
    hide CloseLoop, DeadlineFlush, BufferBurst, Work, FlushTimed, Map;
    empty := env.rx(s.polls) == [];
    var t := Receive(env, s);
    var burst := env.rx(s.polls);
    checkedAt := if empty then None
                 else Some(env.clock(BufferBurst(cfg, env, Work(env, t, |burst|), Map(cfg.process, burst)).ticks));
  }

  lemma ReceiveCharges<P>(cfg: Config<P>, env: Env<P>, s: State<P>, stage: Stage)
    requires WellBehaved(cfg, env)
    ensures var t := Receive(env, s);
            && StageCycles(t.stats, stage)
               == StageCycles(s.stats, stage) + TimeIf(env.clock, s.ticks + 1, s.ticks + 2, stage == Rx)
            && t.ticks == s.ticks + 3 && t.tx == s.tx && t.lastReport == s.lastReport
  {
    ElapsedIsDifference(env.clock(s.ticks + 1), env.clock(s.ticks + 2));
  }

  lemma WorkCharges<P>(cfg: Config<P>, env: Env<P>, s: State<P>, n: nat, stage: Stage)
    requires WellBehaved(cfg, env)
    ensures var t, r := Work(env, s, n), s.ticks;
            && StageCycles(t.stats, stage)
               == StageCycles(s.stats, stage) + TimeIf(env.clock, r, r + 1, stage == Parse)
                  + TimeIf(env.clock, r + 2, r + 3, stage == Rewrite)
                  + TimeIf(env.clock, r + 4, r + 5, stage == Checksum)
            && t.ticks == r + 6 && t.tx == s.tx && t.lastReport == s.lastReport
  {
    var r := s.ticks;
    ElapsedIsDifference(env.clock(r), env.clock(r + 1));
    ElapsedIsDifference(env.clock(r + 2), env.clock(r + 3));
    ElapsedIsDifference(env.clock(r + 4), env.clock(r + 5));
    hide Elapsed, WellBehaved;
  }

  lemma BufferCharges<P>(cfg: Config<P>, env: Env<P>, s: State<P>, ps: seq<P>, stage: Stage)
    requires WellBehaved(cfg, env)
    ensures var t := BufferBurst(cfg, env, s, ps);
            && StageCycles(t.stats, stage)
               == StageCycles(s.stats, stage) + TimeIf(env.clock, s.ticks, s.ticks + 1, stage == Tx)
            && t.ticks == s.ticks + 2 && t.lastReport == s.lastReport
            && t.tx == PushAll(env.nic, cfg.bufferSize, s.tx, ps)
  {
    ElapsedIsDifference(env.clock(s.ticks), env.clock(s.ticks + 1));
    hide Elapsed, WellBehaved, PushAll;
  }

  lemma FlushCharges<P>(cfg: Config<P>, env: Env<P>, s: State<P>, stage: Stage)
    requires WellBehaved(cfg, env)
    ensures var t, flushed := FlushTimed(env, s), s.tx.buffer != [];
            && StageCycles(t.stats, stage)
               == StageCycles(s.stats, stage) + TimeIf(env.clock, s.ticks, s.ticks + 1, flushed && stage == Tx)
            && t.ticks == s.ticks + if flushed then 2 else 0
  {
    ElapsedIsDifference(env.clock(s.ticks), env.clock(s.ticks + 1));
    hide Elapsed, WellBehaved, Flush;
  }

  lemma DeadlineCharges<P>(cfg: Config<P>, env: Env<P>, s: State<P>, stage: Stage)
    requires WellBehaved(cfg, env)
    ensures var t := DeadlineFlush(cfg, env, s);
            var flushed := Elapsed(s.lastReport, env.clock(s.ticks)) >= cfg.reportCycles && s.tx.buffer != [];
            && StageCycles(t.stats, stage)
               == StageCycles(s.stats, stage) + TimeIf(env.clock, s.ticks + 1, s.ticks + 2, flushed && stage == Tx)
            && t.ticks == s.ticks + if flushed then 3 else 1
  {
    FlushCharges(cfg, env, s.(ticks := s.ticks + 1), stage);
    hide Elapsed, WellBehaved, FlushTimed;
  }

  /** What an iteration has charged when it reaches its end. */
  lemma EmptyCharges<P>(cfg: Config<P>, env: Env<P>, s: State<P>, stage: Stage)
    requires WellBehaved(cfg, env) && env.rx(s.polls) == []
    ensures var v := BeforeClose(cfg, env, s);
            && StageCycles(v.stats, stage)
               == StageCycles(s.stats, stage) + Charged(env.clock, StepIntervals(cfg, env, s), stage)
            && v.ticks == s.ticks + if s.tx.buffer == [] then 3 else 5
  {
    var r, flushed := s.ticks, s.tx.buffer != [];
    ReceiveCharges(cfg, env, s, stage);
    FlushCharges(cfg, env, Receive(env, s), stage);
    ChargedOne(env.clock, Interval(Rx, r + 1, r + 2), stage);
    ChargedFlush(env.clock, r + 3, flushed, stage);
    hide Charged, Receive, FlushTimed, WellBehaved, StageCycles, FlushInterval, TimeIf;
    ChargedConcat(env.clock, [Interval(Rx, r + 1, r + 2)], FlushInterval(r + 3, flushed), stage);
  }

  lemma NonemptyCharges<P>(cfg: Config<P>, env: Env<P>, s: State<P>, stage: Stage)
    requires WellBehaved(cfg, env) && env.rx(s.polls) != []
    ensures var v := BeforeClose(cfg, env, s);
            && StageCycles(v.stats, stage)
               == StageCycles(s.stats, stage) + Charged(env.clock, StepIntervals(cfg, env, s), stage)
            && v.ticks == s.ticks + if FlushesAtDeadline(cfg, env, s) then 14 else 12
  {
    hide Elapsed, Charged, PushAll, Map, WellBehaved, Receive, Work, BufferBurst, DeadlineFlush, StageCycles, TimeIf,
      BatchIntervals, FlushInterval;
    var r, burst := s.ticks, env.rx(s.polls);
    var t := Receive(env, s);
    var w := Work(env, t, |burst|);
    ReceiveCharges(cfg, env, s, stage);
    WorkCharges(cfg, env, t, |burst|, stage);
    BufferCharges(cfg, env, w, Map(cfg.process, burst), stage);
    DeadlineCharges(cfg, env, BufferBurst(cfg, env, w, Map(cfg.process, burst)), stage);
    ChargedBatch(env.clock, r, stage);
    ChargedFlush(env.clock, r + 12, FlushesAtDeadline(cfg, env, s), stage);
    ChargedConcat(env.clock, BatchIntervals(r), FlushInterval(r + 12, FlushesAtDeadline(cfg, env, s)), stage);
  }

  /** The reads of an iteration are in order, and it runs from a receive to a receive or transmit. */
  lemma StepOrder<P>(cfg: Config<P>, env: Env<P>, s: State<P>)
    ensures var l := StepIntervals(cfg, env, s);
            && l != [] && LoopOrder(l) && (l[|l| - 1].stage == Tx || l[|l| - 1].stage == Rx)
            && (forall i :: 0 <= i < |l| ==> s.ticks < l[i].begin < l[i].end)
            && (forall i, j :: 0 <= i < j < |l| ==> l[i].end < l[j].begin)
            && l[|l| - 1].end == s.ticks + if env.rx(s.polls) == [] then (if s.tx.buffer == [] then 2 else 4)
                                           else if FlushesAtDeadline(cfg, env, s) then 13 else 10
  {
    hide FlushesAtDeadline;
  }

  lemma StepCharges<P>(cfg: Config<P>, env: Env<P>, s: State<P>)
    requires WellBehaved(cfg, env)
    ensures var l, v := StepIntervals(cfg, env, s), BeforeClose(cfg, env, s);
            && (forall stage ::
                  StageCycles(v.stats, stage) == StageCycles(s.stats, stage) + Charged(env.clock, l, stage))
            && l[|l| - 1].end < v.ticks
  {
    StepOrder(cfg, env, s);
    hide Charged, StageCycles, BeforeClose, WellBehaved, StepIntervals, FlushesAtDeadline, LoopOrder;
    forall stage
      ensures StageCycles(BeforeClose(cfg, env, s).stats, stage)
           == StageCycles(s.stats, stage) + Charged(env.clock, StepIntervals(cfg, env, s), stage)
      ensures var l := StepIntervals(cfg, env, s); l[|l| - 1].end < BeforeClose(cfg, env, s).ticks
    {
      if env.rx(s.polls) == [] {
        EmptyCharges(cfg, env, s, stage);
      } else {
        NonemptyCharges(cfg, env, s, stage);
      }
    }
    assert StageCycles(BeforeClose(cfg, env, s).stats, Rx)
        == StageCycles(s.stats, Rx) + Charged(env.clock, StepIntervals(cfg, env, s), Rx);
  }

  lemma Later<P>(cfg: Config<P>, env: Env<P>, i: nat, j: nat)
    requires WellBehaved(cfg, env) && i <= j
    ensures env.clock(i) <= env.clock(j)
  {
  }

  /** The ledger of the window, with the iteration's intervals behind it, is in order up to any later read. */
  lemma OrderExtends<P>(cfg: Config<P>, env: Env<P>, ledger: seq<Interval>, s: State<P>, end: nat)
    requires WellBehaved(cfg, env) && s.ticks > 0 && s.lastReport <= env.clock(s.ticks - 1)
    requires Tracks(env, ledger, s)
    requires var l := StepIntervals(cfg, env, s); l[|l| - 1].end <= end
    ensures InOrder(env.clock, ledger + StepIntervals(cfg, env, s), s.lastReport, env.clock(end))
  {
    StepOrder(cfg, env, s);
    var l := StepIntervals(cfg, env, s);
    hide StepIntervals, Charged, StageCycles, BeforeClose;
    forall i | 0 <= i < |l|
      ensures s.lastReport <= env.clock(l[i].begin) <= env.clock(l[i].end) <= env.clock(end)
      ensures env.clock(s.ticks - 1) <= env.clock(l[i].begin)
      ensures forall j :: i < j < |l| ==> env.clock(l[i].end) <= env.clock(l[j].begin)
    {
      Later(cfg, env, s.ticks - 1, l[i].begin);
      Later(cfg, env, l[i].begin, l[i].end);
      assert l[i].end <= l[|l| - 1].end;
      Later(cfg, env, l[i].end, end);
    }
    Later(cfg, env, s.ticks - 1, end);
    hide WellBehaved;
    OrderConcat(env.clock, ledger, l, s.lastReport, env.clock(s.ticks - 1), env.clock(end));
  }

  lemma OrderConcat(clock: nat -> nat, a: seq<Interval>, b: seq<Interval>, from: nat, mid: nat, until: nat)
    requires InOrder(clock, a, from, mid) && InOrder(clock, b, mid, until) && from <= mid <= until
    requires a != [] ==> a[|a| - 1].stage == Tx || a[|a| - 1].stage == Rx
    ensures InOrder(clock, a + b, from, until)
  {
    InsideConcat(clock, a, b, from, mid, until);
    DisjointConcat(clock, a, b, from, mid, until);
    LoopOrderConcat(a, b);
  }

  lemma InsideConcat(clock: nat -> nat, a: seq<Interval>, b: seq<Interval>, from: nat, mid: nat, until: nat)
    requires Inside(clock, a, from, mid) && Inside(clock, b, mid, until) && from <= mid <= until
    ensures Inside(clock, a + b, from, until)
  {
    forall i | 0 <= i < |a + b|
      ensures from <= clock((a + b)[i].begin) <= clock((a + b)[i].end) <= until
    {
      assert (a + b)[i] == if i < |a| then a[i] else b[i - |a|];
    }
  }

  lemma DisjointConcat(clock: nat -> nat, a: seq<Interval>, b: seq<Interval>, from: nat, mid: nat, until: nat)
    requires Inside(clock, a, from, mid) && Inside(clock, b, mid, until) && Disjoint(clock, a) && Disjoint(clock, b)
    ensures Disjoint(clock, a + b)
  {
    forall i, j | 0 <= i < j < |a + b|
      ensures clock((a + b)[i].end) <= clock((a + b)[j].begin)
    {
      var x := if i < |a| then a[i] else b[i - |a|];
      var y := if j < |a| then a[j] else b[j - |a|];
      assert (a + b)[i] == x && (a + b)[j] == y;
      if i < |a| <= j {
        assert clock(x.end) <= mid <= clock(y.begin);
      }
    }
  }

  lemma LoopOrderConcat(a: seq<Interval>, b: seq<Interval>)
    requires LoopOrder(a) && LoopOrder(b) && (a != [] ==> a[|a| - 1].stage == Tx || a[|a| - 1].stage == Rx)
    ensures LoopOrder(a + b)
  {
    var c := a + b;
    forall i | 0 < i < |c|
      ensures MayFollow(c[i - 1].stage, c[i].stage)
    {
      if i > |a| {
        assert c[i - 1] == b[i - 1 - |a|] && c[i] == b[i - |a|];
      }
    }
  }

  // ----- Whole runs

  /** An iteration either keeps the window open or closes it; its ledger fits in both cases. */
  lemma StepTracks<P>(cfg: Config<P>, env: Env<P>, ledger: seq<Interval>, s: State<P>)
    requires WellBehaved(cfg, env) && OnTime(env, s) && Tracks(env, ledger, s)
    ensures var t, l := BufferedStep(cfg, env, s), ledger + StepIntervals(cfg, env, s);
            if |t.windows| > |s.windows|
            then t.windows[..|s.windows|] == s.windows && |t.windows| == |s.windows| + 1
                 && Explains(env.clock, l, t.windows[|s.windows|]) && Tracks(env, [], t)
            else t.windows == s.windows && Tracks(env, l, t)
  {
    hide BufferedStep, StepIntervals, Charged, InOrder, Elapsed, BeforeClose;
    var t, v, l := BufferedStep(cfg, env, s), BeforeClose(cfg, env, s), ledger + StepIntervals(cfg, env, s);
    var empty, checkedAt := StepCloses(cfg, env, s);
    StepCharges(cfg, env, s);
    StepOrder(cfg, env, s);
    OrderExtends(cfg, env, ledger, s, v.ticks);
    forall stage
      ensures Charged(env.clock, l, stage) == StageCycles(v.stats, stage)
    {
      ChargedConcat(env.clock, ledger, StepIntervals(cfg, env, s), stage);
    }
    BeforeCloseKeeps(cfg, env, s);
    CloseTracks(cfg, env, v, env.clock(s.ticks), empty, checkedAt, l);
  }

  lemma BeforeCloseKeeps<P>(cfg: Config<P>, env: Env<P>, s: State<P>)
    ensures var v := BeforeClose(cfg, env, s); v.windows == s.windows && v.lastReport == s.lastReport
  {
    hide Elapsed, Flush, PushAll, Map;
  }

  lemma CloseTracks<P>(cfg: Config<P>, env: Env<P>, v: State<P>, start: nat, empty: bool, checkedAt: Option<nat>,
                       l: seq<Interval>)
    requires InOrder(env.clock, l, v.lastReport, env.clock(v.ticks))
    requires l != [] ==> l[|l| - 1].stage == Tx || l[|l| - 1].stage == Rx
    requires forall stage :: Charged(env.clock, l, stage) == StageCycles(v.stats, stage)
    ensures var t := CloseLoop(cfg, env, v, start, empty, checkedAt);
            if |t.windows| > |v.windows|
            then t.windows[..|v.windows|] == v.windows && |t.windows| == |v.windows| + 1
                 && Explains(env.clock, l, t.windows[|v.windows|]) && Tracks(env, [], t)
            else t.windows == v.windows && Tracks(env, l, t)
  {
    hide InOrder, Elapsed;
    EmptyLedger(env.clock, env.clock(v.ticks));
  }

  lemma EmptyLedger(clock: nat -> nat, now: nat)
    ensures InOrder(clock, [], now, now)
    ensures forall stage :: Charged(clock, [], stage) == 0
  {
  }

  /**
   * Every report of every run is explained by its ledger: each stage sum is the total of that stage's
   * timer intervals, and all intervals of the window are disjoint, in loop order and inside it.
   */
  lemma {:induction false} LedgersExplainReports<P>(cfg: Config<P>, env: Env<P>, n: nat)
    requires ValidConfig(cfg) && WellBehaved(cfg, env)
    ensures var s, ls := BufferedRun(cfg, env, n), ClosedLedgers(cfg, env, n);
            && |ls| == |s.windows|
            && (forall i :: 0 <= i < |ls| ==> Explains(env.clock, ls[i], s.windows[i]))
            && Tracks(env, OpenLedger(cfg, env, n), s)
  {
    hide BufferedStep, StepIntervals, Tracks, Explains, WellBehaved, GoodReports, OnTime;
    if n == 0 {
      InitialTracks(env);
    } else {
      LedgersExplainReports(cfg, env, n - 1);
      BufferedRunTimely(cfg, env, n - 1);
      StepTracks(cfg, env, OpenLedger(cfg, env, n - 1), BufferedRun(cfg, env, n - 1));
    }
  }

  lemma InitialTracks<P>(env: Env<P>)
    ensures Tracks(env, [], Initial(env))
  {
    EmptyLedger(env.clock, env.clock(0));
  }
}
