/** What every run of a worker keeps, whatever arrives, whatever the NIC takes and however time passes. */
module WorkerProofs {
  import opened TxBuffering
  import opened WorkerModel

  // ----- Sums over the reports

  function RxReported(ws: seq<Window>): nat {
    if ws == [] then 0 else RxReported(ws[..|ws| - 1]) + ws[|ws| - 1].profile.rxPackets
  }

  function TxReported(ws: seq<Window>): nat {
    if ws == [] then 0 else TxReported(ws[..|ws| - 1]) + ws[|ws| - 1].profile.txPackets
  }

  function DropsReported(ws: seq<Window>): nat {
    if ws == [] then 0 else DropsReported(ws[..|ws| - 1]) + ws[|ws| - 1].profile.txDrops
  }

  lemma ReportedAppend(ws: seq<Window>, w: Window)
    ensures RxReported(ws + [w]) == RxReported(ws) + w.profile.rxPackets
    ensures TxReported(ws + [w]) == TxReported(ws) + w.profile.txPackets
    ensures DropsReported(ws + [w]) == DropsReported(ws) + w.profile.txDrops
  {
    assert (ws + [w])[..|ws|] == ws;
  }

  // ----- The packet balance

  /**
   * Packets: each processed packet is transmitted, dropped or buffered; the reports and the current
   * window together count all of them; and the current window's balance is the growth of the buffer.
   */
  ghost predicate Balanced<P>(s: State<P>, offered: seq<P>, limit: nat) {
    && Accounts(s.tx, offered)
    && |s.tx.buffer| < limit && s.startLength < limit
    && RxReported(s.windows) + s.stats.rxPackets == |offered|
    && TxReported(s.windows) + s.stats.txPackets == |s.tx.sent|
    && DropsReported(s.windows) + s.stats.txDrops == s.tx.drops
    && s.stats.rxPackets + s.startLength == s.stats.txPackets + s.stats.txDrops + |s.tx.buffer|
  }

  lemma FlushTimedBalanced<P>(env: Env<P>, s: State<P>, offered: seq<P>, limit: nat)
    requires Balanced(s, offered, limit)
    ensures Balanced(FlushTimed(env, s), offered, limit)
    ensures FlushTimed(env, s).tx.buffer == [] && FlushTimed(env, s).polls == s.polls
  {
    FlushAccounts(env.nic, s.tx, offered);
  }

  /** A transmit stage that accounts for `n` more packets, after they were counted as received. */
  lemma TxStageBalanced<P>(env: Env<P>, s: State<P>, y: TxState<P>, offered: seq<P>, ps: seq<P>, limit: nat)
    requires Balanced(s, offered, limit)
    requires |s.tx.sent| <= |y.sent| && s.tx.drops <= y.drops
    requires Accounts(y, offered + ps) && |y.buffer| < limit
    ensures Balanced(TxStage(env, Work(env, s, |ps|), y), offered + ps, limit)
    ensures TxStage(env, Work(env, s, |ps|), y).polls == s.polls
  {
    Conservation(s.tx, offered);
    Conservation(y, offered + ps);
  }

  lemma CloseLoopBalanced<P>(cfg: Config<P>, env: Env<P>, s: State<P>, start: nat, empty: bool,
                             checkedAt: Option<nat>, offered: seq<P>, limit: nat)
    requires Balanced(s, offered, limit)
    ensures Balanced(CloseLoop(cfg, env, s, start, empty, checkedAt), offered, limit)
    ensures var t := CloseLoop(cfg, env, s, start, empty, checkedAt); t.tx == s.tx && t.polls == s.polls
  {
    var t := CloseLoop(cfg, env, s, start, empty, checkedAt);
    if t.windows != s.windows {
      ReportedAppend(s.windows, t.windows[|s.windows|]);
    }
  }

  /** A nonempty iteration up to the end of its loop timer. */
  lemma BurstBalanced<P>(cfg: Config<P>, env: Env<P>, t: State<P>, offered: seq<P>, ps: seq<P>)
    requires ValidConfig(cfg) && Balanced(t, offered, cfg.bufferSize)
    ensures var u := BufferBurst(cfg, env, Work(env, t, |ps|), ps);
            && Balanced(DeadlineFlush(cfg, env, u), offered + ps, cfg.bufferSize)
            && DeadlineFlush(cfg, env, u).polls == t.polls
  {
    hide Elapsed, FlushTimed, PushAll, Accounts;
    PushAllGrows(env.nic, cfg.bufferSize, t.tx, ps);
    PushAllAccounts(env.nic, cfg.bufferSize, t.tx, offered, ps);
    TxStageBalanced(env, t, PushAll(env.nic, cfg.bufferSize, t.tx, ps), offered, ps, cfg.bufferSize);
    var u := BufferBurst(cfg, env, Work(env, t, |ps|), ps);
    FlushTimedBalanced(env, u.(ticks := u.ticks + 1), offered + ps, cfg.bufferSize);
  }

  lemma ReceiveBalanced<P>(env: Env<P>, s: State<P>, offered: seq<P>, limit: nat)
    requires Balanced(s, offered, limit)
    ensures Balanced(Receive(env, s), offered, limit) && Receive(env, s).polls == s.polls + 1
  {
    hide Elapsed, Accounts;
  }

  lemma BufferedStepBalanced<P>(cfg: Config<P>, env: Env<P>, s: State<P>, offered: seq<P>)
    requires ValidConfig(cfg) && Balanced(s, offered, cfg.bufferSize)
    ensures Balanced(BufferedStep(cfg, env, s), offered + Map(cfg.process, env.rx(s.polls)), cfg.bufferSize)
    ensures BufferedStep(cfg, env, s).polls == s.polls + 1
    ensures env.rx(s.polls) == [] ==> BufferedStep(cfg, env, s).tx.buffer == []
  {
    hide Balanced, Receive, Elapsed, CloseLoop, FlushTimed, BufferBurst, DeadlineFlush, Work;
    var start, burst, t := env.clock(s.ticks), env.rx(s.polls), Receive(env, s);
    var ps := Map(cfg.process, burst);
    ReceiveBalanced(env, s, offered, cfg.bufferSize);
    if burst == [] {
      assert offered + ps == offered;
      FlushTimedBalanced(env, t, offered, cfg.bufferSize);
      CloseLoopBalanced(cfg, env, FlushTimed(env, t), start, true, None, offered, cfg.bufferSize);
    } else {
      BurstBalanced(cfg, env, t, offered, ps);
      var u := BufferBurst(cfg, env, Work(env, t, |burst|), ps);
      var v := DeadlineFlush(cfg, env, u);
      CloseLoopBalanced(cfg, env, v, start, false, Some(env.clock(u.ticks)), offered + ps, cfg.bufferSize);
    }
  }

  /** The buffered worker over any run: every processed packet is accounted for, in order. */
  lemma {:induction false} BufferedRunBalanced<P>(cfg: Config<P>, env: Env<P>, n: nat)
    requires ValidConfig(cfg)
    ensures BufferedRun(cfg, env, n).polls == n
    ensures Balanced(BufferedRun(cfg, env, n), Stream(cfg, env.rx, n), cfg.bufferSize)
    ensures n > 0 && env.rx(n - 1) == [] ==> BufferedRun(cfg, env, n).tx.buffer == []
  {
    hide BufferedStep;
    if n == 0 {
    } else {
      BufferedRunBalanced(cfg, env, n - 1);
      BufferedStepBalanced(cfg, env, BufferedRun(cfg, env, n - 1), Stream(cfg, env.rx, n - 1));
    }
  }

  /** Over the lifetime of a worker: received = transmitted + dropped + still buffered, each packet once. */
  lemma LifetimeConservation<P>(cfg: Config<P>, env: Env<P>, n: nat)
    requires ValidConfig(cfg)
    ensures var s := BufferedRun(cfg, env, n);
            && RxReported(s.windows) + s.stats.rxPackets
               == TxReported(s.windows) + s.stats.txPackets
                  + DropsReported(s.windows) + s.stats.txDrops + |s.tx.buffer|
            && multiset(Stream(cfg, env.rx, n)) == multiset(s.tx.sent) + multiset(s.tx.dropped) + multiset(s.tx.buffer)
            && |s.tx.buffer| < cfg.bufferSize
  {
    BufferedRunBalanced(cfg, env, n);
    Conservation(BufferedRun(cfg, env, n).tx, Stream(cfg, env.rx, n));
  }

  // ----- How long a packet waits

  /** More packets are offered in every poll that finds some, and what has left stays so. */
  lemma StepProgress<P>(cfg: Config<P>, env: Env<P>, n: nat)
    requires ValidConfig(cfg)
    ensures |Stream(cfg, env.rx, n + 1)| == |Stream(cfg, env.rx, n)| + |env.rx(n)|
    ensures |BufferedRun(cfg, env, n).tx.fates| + |BufferedRun(cfg, env, n).tx.buffer| == |Stream(cfg, env.rx, n)|
    ensures |BufferedRun(cfg, env, n).tx.buffer| < cfg.bufferSize
    ensures n > 0 && env.rx(n - 1) == [] ==> BufferedRun(cfg, env, n).tx.buffer == []
  {
    BufferedRunBalanced(cfg, env, n);
    hide BufferedRun, WithFate;
  }

  /** After `j` further polls the packets of the first `n` have all left, or `j` more came behind them. */
  lemma {:induction false} OvertakenOrGone<P>(cfg: Config<P>, env: Env<P>, n: nat, j: nat)
    requires ValidConfig(cfg)
    ensures |Stream(cfg, env.rx, n + j)| >= |Stream(cfg, env.rx, n)|
    ensures || |BufferedRun(cfg, env, n + j).tx.fates| >= |Stream(cfg, env.rx, n)|
            || |Stream(cfg, env.rx, n + j)| >= |Stream(cfg, env.rx, n)| + j
    decreases j
  {
    hide BufferedRun, Stream, ValidConfig;
    if j > 0 {
      OvertakenOrGone(cfg, env, n, j - 1);
      StepProgress(cfg, env, n + j - 1);
      StepProgress(cfg, env, n + j);
      FatesGrow(cfg, env, n + j - 1);
    }
  }

  /** What has left the buffer stays so. */
  lemma FatesGrow<P>(cfg: Config<P>, env: Env<P>, n: nat)
    ensures |BufferedRun(cfg, env, n).tx.fates| <= |BufferedRun(cfg, env, n + 1).tx.fates|
  {
    hide BufferedStep;
    StepFates(cfg, env, BufferedRun(cfg, env, n));
  }

  lemma StepFates<P>(cfg: Config<P>, env: Env<P>, s: State<P>)
    ensures |s.tx.fates| <= |BufferedStep(cfg, env, s).tx.fates|
  {
    hide PushAll, Map, Elapsed;
    PushFates(env.nic, cfg.bufferSize, s.tx, Map(cfg.process, env.rx(s.polls)));
  }

  lemma {:induction false} PushFates<P>(nic: Nic, size: nat, x: TxState<P>, ps: seq<P>)
    ensures |x.fates| <= |PushAll(nic, size, x, ps).fates|
    decreases |ps|
  {
    if ps == [] {
    } else {
      PushFates(nic, size, Push(nic, size, x, ps[0]), ps[1..]);
    }
  }

  /**
   * No packet is kept for long: whatever arrives, and however the NIC behaves, every packet received
   * by poll `n` has been sent or dropped after at most bufferSize - 1 further polls.
   */
  lemma WaitBounded<P>(cfg: Config<P>, env: Env<P>, n: nat)
    requires ValidConfig(cfg)
    ensures |BufferedRun(cfg, env, n + cfg.bufferSize - 1).tx.fates| >= |Stream(cfg, env.rx, n)|
  {
    hide BufferedRun, Stream;
    OvertakenOrGone(cfg, env, n, cfg.bufferSize - 1);
    StepProgress(cfg, env, n + cfg.bufferSize - 1);
  }

  lemma DirectStepBalanced<P>(cfg: Config<P>, env: Env<P>, s: State<P>, offered: seq<P>)
    requires Balanced(s, offered, 1)
    ensures Balanced(DirectStep(cfg, env, s), offered + Map(cfg.process, env.rx(s.polls)), 1)
    ensures DirectStep(cfg, env, s).polls == s.polls + 1
  {
    var start, burst, t := env.clock(s.ticks), env.rx(s.polls), Receive(env, s);
    var ps := Map(cfg.process, burst);
    if burst == [] {
      assert offered + ps == offered;
      CloseLoopBalanced(cfg, env, t, start, true, None, offered, 1);
    } else {
      TransmitAccounts(env.nic, t.tx, offered, ps);
      TxStageBalanced(env, t, Transmit(env.nic, t.tx, ps), offered, ps, 1);
      CloseLoopBalanced(cfg, env, SendBurst(env, Work(env, t, |burst|), ps), start, false, None, offered + ps, 1);
    }
  }

  /** The unbuffered worker over any run: the same account, with nothing ever waiting. */
  lemma {:induction false} DirectRunBalanced<P>(cfg: Config<P>, env: Env<P>, n: nat)
    ensures DirectRun(cfg, env, n).polls == n
    ensures Balanced(DirectRun(cfg, env, n), Stream(cfg, env.rx, n), 1)
  {
    hide DirectStep;
    if n == 0 {
    } else {
      DirectRunBalanced(cfg, env, n - 1);
      DirectStepBalanced(cfg, env, DirectRun(cfg, env, n - 1), Stream(cfg, env.rx, n - 1));
    }
  }

  // ----- Refinement

  lemma StepDropsNothing<P>(cfg: Config<P>, env: Env<P>, s: State<P>)
    requires TakesAll(env.nic) && s.tx.dropped == []
    ensures BufferedStep(cfg, env, s).tx.dropped == []
    ensures DirectStep(cfg, env, s).tx.dropped == []
  {
    PushAllDropsNothing(env.nic, cfg.bufferSize, s.tx, Map(cfg.process, env.rx(s.polls)));
  }

  lemma {:induction false} RunDropsNothing<P>(cfg: Config<P>, env: Env<P>, n: nat)
    requires TakesAll(env.nic)
    ensures BufferedRun(cfg, env, n).tx.dropped == []
    ensures DirectRun(cfg, env, n).tx.dropped == []
  {
    hide BufferedStep, DirectStep;
    if n == 0 {
    } else {
      RunDropsNothing(cfg, env, n - 1);
      StepDropsNothing(cfg, env, BufferedRun(cfg, env, n - 1));
      StepDropsNothing(cfg, env, DirectRun(cfg, env, n - 1));
    }
  }

  /** With a NIC that takes what it is offered, every processed packet is sent or still buffered, in order. */
  lemma AllSentInOrder<P>(cfg: Config<P>, env: Env<P>, n: nat)
    requires TakesAll(env.nic)
    ensures ValidConfig(cfg) ==>
              var b := BufferedRun(cfg, env, n).tx;
              b.sent + b.buffer == Stream(cfg, env.rx, n) && |b.buffer| < cfg.bufferSize
    ensures DirectRun(cfg, env, n).tx.sent == Stream(cfg, env.rx, n)
  {
    RunDropsNothing(cfg, env, n);
    DirectRunBalanced(cfg, env, n);
    SentThenBuffered(DirectRun(cfg, env, n).tx, Stream(cfg, env.rx, n));
    assert DirectRun(cfg, env, n).tx.sent + [] == DirectRun(cfg, env, n).tx.sent;
    if ValidConfig(cfg) {
      BufferedRunBalanced(cfg, env, n);
      SentThenBuffered(BufferedRun(cfg, env, n).tx, Stream(cfg, env.rx, n));
    }
  }

  lemma SentThenBuffered<P>(x: TxState<P>, offered: seq<P>)
    requires Accounts(x, offered) && x.dropped == []
    ensures x.sent + x.buffer == offered
  {
    NothingDropped(offered[..|x.fates|], x.fates);
    assert offered == offered[..|x.fates|] + x.buffer;
  }

  /**
   * Buffering does not change what is sent: on the same receive stream, with NICs that take what
   * they are offered, the buffered worker's transmissions followed by its buffer are the unbuffered
   * worker's transmissions, and after a poll that found nothing the two agree exactly.
   */
  lemma BufferedRefinesDirect<P>(cfg: Config<P>, direct: Config<P>, env: Env<P>, env': Env<P>, n: nat)
    requires ValidConfig(cfg) && cfg.process == direct.process
    requires env.rx == env'.rx && TakesAll(env.nic) && TakesAll(env'.nic)
    ensures var b, d := BufferedRun(cfg, env, n), DirectRun(direct, env', n);
            && b.tx.sent + b.tx.buffer == d.tx.sent
            && |d.tx.sent| - |b.tx.sent| < cfg.bufferSize
            && (n > 0 && env.rx(n - 1) == [] ==> b.tx.sent == d.tx.sent)
  {
    AllSentInOrder(cfg, env, n);
    AllSentInOrder(direct, env', n);
    BufferedRunBalanced(cfg, env, n);
    SameStream(cfg, direct, env.rx, n);
    hide *;
    var b := BufferedRun(cfg, env, n).tx;
    assert b.buffer == [] ==> b.sent + b.buffer == b.sent;
  }

  lemma {:induction false} SameStream<P>(cfg: Config<P>, direct: Config<P>, rx: nat -> seq<P>, n: nat)
    requires cfg.process == direct.process
    ensures Stream(cfg, rx, n) == Stream(direct, rx, n)
  {
    if n == 0 {
    } else {
      SameStream(cfg, direct, rx, n - 1);
    }
  }
}
