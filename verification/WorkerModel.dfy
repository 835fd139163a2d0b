/** One echo worker as a state machine: each step is one iteration of its poll loop. */
module WorkerModel {
  import opened TxBuffering

  const U64 := 0x1_0000_0000_0000_0000

  /** The counters of one report window. */
  datatype Profile = Profile(
    pollCount: nat, emptyPollCount: nat, nonemptyPollCount: nat, workBatches: nat,
    rxPackets: nat, txPackets: nat, txDrops: nat,
    totalLoopCycles: nat, emptyPollCycles: nat, nonemptyPollCycles: nat,
    rxCycles: nat, parseCycles: nat, rewriteCycles: nat, checksumCycles: nat, txCycles: nat)

  const ZERO_PROFILE := Profile(0, 0, 0, 0, 0, 0, 0, 0, 0, 0, 0, 0, 0, 0, 0)

  function AccountedCycles(p: Profile): nat {
    p.rxCycles + p.parseCycles + p.rewriteCycles + p.checksumCycles + p.txCycles
  }

  /** The derived figure of a report, clamped at zero. */
  function OtherCycles(p: Profile): nat {
    if p.totalLoopCycles > AccountedCycles(p) then p.totalLoopCycles - AccountedCycles(p) else 0
  }

  datatype Option<+T> = None | Some(value: T)

  /**
   * A printed report: the counters, how many packets were buffered when its window opened and
   * closed, when it opened and closed, and when (if at all) its last iteration made the flush check.
   */
  datatype Window = Window(profile: Profile, startLength: nat, endLength: nat,
                           openedAt: nat, closedAt: nat, checkedAt: Option<nat>)

  /** Everything outside the worker: the burst each poll finds, the NIC, and each timer read. */
  datatype Env<P> = Env(rx: nat -> seq<P>, nic: Nic, clock: nat -> nat)

  datatype Config<!P> = Config(burstSize: nat, bufferSize: nat, reportCycles: nat, process: P -> P)

  /** `polls` and `ticks` count the receive calls and timer reads made so far. */
  datatype State<P> = State(tx: TxState<P>, stats: Profile, lastReport: nat,
                            polls: nat, ticks: nat, windows: seq<Window>, startLength: nat)

  /** The compile-time sizes: at least one packet, and small enough for the 16-bit counters. */
  predicate ValidConfig<P>(cfg: Config<P>) {
    && cfg.burstSize > 0 && cfg.bufferSize > 0
    && cfg.burstSize + cfg.bufferSize <= 0x1_0000
  }

  /** The assumed behaviour of the receive call and of the 64-bit timer. */
  ghost predicate WellBehaved<P>(cfg: Config<P>, env: Env<P>) {
    && (forall k :: |env.rx(k)| <= cfg.burstSize)
    && (forall i :: env.clock(i) < U64)
    && (forall i, j :: i <= j ==> env.clock(i) <= env.clock(j))
  }

  /** The 64-bit difference of two timer reads. */
  function Elapsed(from: nat, to: nat): nat {
    (to - from) % U64
  }

  function Map<P>(process: P -> P, ps: seq<P>): seq<P> {
    seq(|ps|, i requires 0 <= i < |ps| => process(ps[i]))
  }

  // ----- The parts of an iteration

  function Initial<P>(env: Env<P>): State<P> {
    State(TxState([], 0, 0, [], [], []), ZERO_PROFILE, env.clock(0), 0, 1, [], 0)
  }

  /** The receive call between its two timer reads; the read before it starts the iteration. */
  function Receive<P>(env: Env<P>, s: State<P>): State<P> {
    s.(polls := s.polls + 1, ticks := s.ticks + 3,
       stats := s.stats.(pollCount := s.stats.pollCount + 1,
                         rxCycles := s.stats.rxCycles + Elapsed(env.clock(s.ticks + 1), env.clock(s.ticks + 2))))
  }

  /** flush_tx_buffer: nothing on an empty buffer, otherwise a timed flush. */
  function FlushTimed<P>(env: Env<P>, s: State<P>): State<P> {
    if s.tx.buffer == [] then s
    else
      var y := Flush(env.nic, s.tx);
      s.(tx := y, ticks := s.ticks + 2,
         stats := s.stats.(txCycles := s.stats.txCycles + Elapsed(env.clock(s.ticks), env.clock(s.ticks + 1)),
                           txPackets := s.stats.txPackets + (|y.sent| - |s.tx.sent|),
                           txDrops := s.stats.txDrops + (y.drops - s.tx.drops)))
  }

  /** The counters and the parse, rewrite and checksum timers of a poll that found `n` packets. */
  function Work<P>(env: Env<P>, s: State<P>, n: nat): State<P> {
    var r := s.ticks;
    s.(ticks := r + 6,
       stats := s.stats.(nonemptyPollCount := s.stats.nonemptyPollCount + 1,
                         workBatches := s.stats.workBatches + 1,
                         rxPackets := s.stats.rxPackets + n,
                         parseCycles := s.stats.parseCycles + Elapsed(env.clock(r), env.clock(r + 1)),
                         rewriteCycles := s.stats.rewriteCycles + Elapsed(env.clock(r + 2), env.clock(r + 3)),
                         checksumCycles := s.stats.checksumCycles + Elapsed(env.clock(r + 4), env.clock(r + 5))))
  }

  /** The timed transmit stage, which takes the transmit side from `s.tx` to `y`. */
  function TxStage<P>(env: Env<P>, s: State<P>, y: TxState<P>): State<P>
    requires |s.tx.sent| <= |y.sent| && s.tx.drops <= y.drops
  {
    s.(tx := y, ticks := s.ticks + 2,
       stats := s.stats.(txCycles := s.stats.txCycles + Elapsed(env.clock(s.ticks), env.clock(s.ticks + 1)),
                         txPackets := s.stats.txPackets + (|y.sent| - |s.tx.sent|),
                         txDrops := s.stats.txDrops + (y.drops - s.tx.drops)))
  }

  /** The end of an iteration begun at `start`: loop timers, then a report if the window is over. */
  function CloseLoop<P>(cfg: Config<P>, env: Env<P>, s: State<P>, start: nat, empty: bool,
                        checkedAt: Option<nat>): State<P> {
    var end := env.clock(s.ticks);
    var loop := Elapsed(start, end);
    var timed := s.stats.(totalLoopCycles := s.stats.totalLoopCycles + loop);
    var stats := if empty then timed.(emptyPollCount := timed.emptyPollCount + 1,
                                      emptyPollCycles := timed.emptyPollCycles + loop)
                 else timed.(nonemptyPollCycles := timed.nonemptyPollCycles + loop);
    var length := |s.tx.buffer|;
    if Elapsed(s.lastReport, end) >= cfg.reportCycles then
      s.(ticks := s.ticks + 1, stats := ZERO_PROFILE, lastReport := end, startLength := length,
         windows := s.windows + [Window(stats, s.startLength, length, s.lastReport, end, checkedAt)])
    else
      s.(ticks := s.ticks + 1, stats := stats)
  }

  // ----- The buffered worker

  function BufferBurst<P>(cfg: Config<P>, env: Env<P>, s: State<P>, ps: seq<P>): State<P> {
    PushAllGrows(env.nic, cfg.bufferSize, s.tx, ps);
    TxStage(env, s, PushAll(env.nic, cfg.bufferSize, s.tx, ps))
  }

  /** The early flush of a nonempty poll whose window is about to close. */
  function DeadlineFlush<P>(cfg: Config<P>, env: Env<P>, s: State<P>): State<P> {
    var t := s.(ticks := s.ticks + 1);
    if Elapsed(s.lastReport, env.clock(s.ticks)) >= cfg.reportCycles then FlushTimed(env, t) else t
  }

  function BufferedStep<P>(cfg: Config<P>, env: Env<P>, s: State<P>): State<P> {
    var start, burst, t := env.clock(s.ticks), env.rx(s.polls), Receive(env, s);
    if burst == [] then
      CloseLoop(cfg, env, FlushTimed(env, t), start, true, None)
    else
      var u := BufferBurst(cfg, env, Work(env, t, |burst|), Map(cfg.process, burst));
      CloseLoop(cfg, env, DeadlineFlush(cfg, env, u), start, false, Some(env.clock(u.ticks)))
  }

  function BufferedRun<P>(cfg: Config<P>, env: Env<P>, n: nat): State<P> {
    if n == 0 then Initial(env) else BufferedStep(cfg, env, BufferedRun(cfg, env, n - 1))
  }

  // ----- The unbuffered worker

  function SendBurst<P>(env: Env<P>, s: State<P>, ps: seq<P>): State<P> {
    TxStage(env, s, Transmit(env.nic, s.tx, ps))
  }

  function DirectStep<P>(cfg: Config<P>, env: Env<P>, s: State<P>): State<P> {
    var start, burst, t := env.clock(s.ticks), env.rx(s.polls), Receive(env, s);
    if burst == [] then
      CloseLoop(cfg, env, t, start, true, None)
    else
      CloseLoop(cfg, env, SendBurst(env, Work(env, t, |burst|), Map(cfg.process, burst)), start, false, None)
  }

  function DirectRun<P>(cfg: Config<P>, env: Env<P>, n: nat): State<P> {
    if n == 0 then Initial(env) else DirectStep(cfg, env, DirectRun(cfg, env, n - 1))
  }

  /** The processed packets of the first `n` polls, in receive order. */
  function Stream<P>(cfg: Config<P>, rx: nat -> seq<P>, n: nat): seq<P> {
    if n == 0 then [] else Stream(cfg, rx, n - 1) + Map(cfg.process, rx(n - 1))
  }
}
