/** The two worker loops as they run: fields updated in place, one method call per loop iteration. */
module EchoWorkers {
  import opened TxBuffering
  import opened WorkerModel

  /** The worker of one queue; the unbuffered program never puts anything in its transmit buffer. */
  class EchoWorker<P(0)> {
    const cfg: Config<P>
    const env: Env<P>
    const txBuffer: TxBuffer<P>
    var stats: Profile
    var lastReport: nat
    var polls: nat
    var ticks: nat
    ghost var windows: seq<Window>
    ghost var startLength: nat

    ghost predicate Valid()
      reads this, txBuffer
    {
      && ValidConfig(cfg)
      && (forall k :: |env.rx(k)| <= cfg.burstSize)
      && txBuffer.Valid() && txBuffer.nic == env.nic && txBuffer.pkts.Length == cfg.bufferSize
    }

    ghost function State(): State<P>
      requires Valid()
      reads this, txBuffer, txBuffer.pkts
    {
      WorkerModel.State(txBuffer.State(), stats, lastReport, polls, ticks, windows, startLength)
    }

    constructor (cfg: Config<P>, env: Env<P>)
      requires ValidConfig(cfg) && forall k :: |env.rx(k)| <= cfg.burstSize
      ensures Valid() && fresh(txBuffer) && fresh(txBuffer.pkts)
      ensures this.cfg == cfg && this.env == env && State() == BufferedRun(cfg, env, 0)
    {
      this.cfg, this.env := cfg, env;
      txBuffer := new TxBuffer(env.nic, cfg.bufferSize);
      stats, lastReport, polls, ticks := ZERO_PROFILE, env.clock(0), 0, 1;
      windows, startLength := [], 0;
    }

    method ReadTimer() returns (t: nat)
      modifies this`ticks
      ensures t == env.clock(old(ticks)) && ticks == old(ticks) + 1
    {
      t := env.clock(ticks);
      ticks := ticks + 1;
    }

    method FlushTxBuffer()
      requires Valid()
      modifies this`stats, this`ticks, txBuffer
      ensures Valid() && State() == FlushTimed(env, old(State()))
    {
      hide Elapsed;
      var dropsBefore := txBuffer.drops;
      if txBuffer.length == 0 {
        return;
      }
      var t0 := ReadTimer();
      var taken := txBuffer.FlushBuffer();
      var t1 := ReadTimer();
      stats := stats.(txCycles := stats.txCycles + Elapsed(t0, t1), txPackets := stats.txPackets + taken,
                      txDrops := stats.txDrops + (txBuffer.drops - dropsBefore));
    }

    /** The transmit stage: buffer every packet of the burst. */
    method BufferAll(ps: seq<P>)
      requires Valid() && |ps| <= cfg.burstSize
      modifies this`stats, this`ticks, txBuffer, txBuffer.pkts
      ensures Valid() && State() == BufferBurst(cfg, env, old(State()), ps)
    {
      PushAllGrows(env.nic, cfg.bufferSize, txBuffer.State(), ps);
      hide PushAll, Elapsed;
      var t0 := ReadTimer();
      var dropsBefore := txBuffer.drops;
      var nbTx := txBuffer.AppendAll(ps);
      var t1 := ReadTimer();
      stats := stats.(txCycles := stats.txCycles + Elapsed(t0, t1), txPackets := stats.txPackets + nbTx,
                      txDrops := stats.txDrops + (txBuffer.drops - dropsBefore));
    }

    /** The loop timers of the iteration, then the report and the reset when the window is over. */
    method EndIteration(start: nat, empty: bool, ghost checkedAt: Option<nat>)
      requires Valid()
      modifies this`stats, this`ticks, this`lastReport, this`windows, this`startLength
      ensures Valid() && State() == CloseLoop(cfg, env, old(State()), start, empty, checkedAt)
    {
      hide Elapsed;
      var loopEnd := ReadTimer();
      var loopCycles := Elapsed(start, loopEnd);
      stats := stats.(totalLoopCycles := stats.totalLoopCycles + loopCycles);
      if empty {
        stats := stats.(emptyPollCount := stats.emptyPollCount + 1,
                        emptyPollCycles := stats.emptyPollCycles + loopCycles);
      } else {
        stats := stats.(nonemptyPollCycles := stats.nonemptyPollCycles + loopCycles);
      }
      if Elapsed(lastReport, loopEnd) >= cfg.reportCycles {
        windows := windows + [Window(stats, startLength, txBuffer.length, lastReport, loopEnd, checkedAt)];
        startLength := txBuffer.length;
        stats := ZERO_PROFILE;
        lastReport := loopEnd;
      }
    }

    /** One iteration of the buffered program's poll loop. */
    method PollBuffered()
      requires Valid()
      modifies this, txBuffer, txBuffer.pkts
      ensures Valid() && State() == BufferedStep(cfg, env, old(State()))
    {
      hide FlushTimed, Work, TxStage, CloseLoop, PushAll, Elapsed;
      var loopStart := ReadTimer();
      var burst := Receive();
      if burst == [] {
        FlushTxBuffer();
        EndIteration(loopStart, true, None);
        return;
      }
      var ps := Process(burst);
      BufferAll(ps);
      ghost var buffered := State();
      var checkedAt := ReadTimer();
      if Elapsed(lastReport, checkedAt) >= cfg.reportCycles {
        FlushTxBuffer();
      }
      assert State() == DeadlineFlush(cfg, env, buffered);
      EndIteration(loopStart, false, Some(checkedAt));
    }

    /** One iteration of the unbuffered program's poll loop. */
    method PollDirect()
      requires Valid() && txBuffer.length == 0
      modifies this, txBuffer
      ensures Valid() && txBuffer.length == 0 && State() == DirectStep(cfg, env, old(State()))
    {
      hide FlushTimed, Work, TxStage, CloseLoop, PushAll, Elapsed;
      var loopStart := ReadTimer();
      var burst := Receive();
      if burst == [] {
        EndIteration(loopStart, true, None);
        return;
      }
      var ps := Process(burst);
      TransmitAll(ps);
      EndIteration(loopStart, false, None);
    }

    /** The unbuffered transmit stage. */
    method TransmitAll(ps: seq<P>)
      requires Valid() && txBuffer.length == 0 && ps != []
      modifies this`stats, this`ticks, txBuffer
      ensures Valid() && txBuffer.length == 0 && State() == SendBurst(env, old(State()), ps)
    {
      var t0 := ReadTimer();
      var nbTx := txBuffer.TransmitDirectly(ps);
      var t1 := ReadTimer();
      stats := stats.(txCycles := stats.txCycles + Elapsed(t0, t1), txPackets := stats.txPackets + nbTx,
                      txDrops := stats.txDrops + (|ps| - nbTx));
    }

    method Receive() returns (burst: seq<P>)
      requires Valid() && ticks > 0
      modifies this`stats, this`ticks, this`polls
      ensures Valid() && burst == env.rx(old(polls))
      ensures State() == WorkerModel.Receive(env, old(State()).(ticks := old(ticks) - 1))
    {
      var t0 := ReadTimer();
      burst := env.rx(polls);
      polls := polls + 1;
      var t1 := ReadTimer();
      stats := stats.(pollCount := stats.pollCount + 1);
      stats := stats.(rxCycles := stats.rxCycles + Elapsed(t0, t1));
    }

    /** The parse, rewrite and checksum stages with their timers. */
    method Process(burst: seq<P>) returns (ps: seq<P>)
      requires Valid()
      modifies this`stats, this`ticks
      ensures Valid() && ps == Map(cfg.process, burst) && State() == Work(env, old(State()), |burst|)
    {
      hide Map, Elapsed;
      ps := Map(cfg.process, burst);
      var parse, rewrite, checksum := TimeStages();
      stats := stats.(nonemptyPollCount := stats.nonemptyPollCount + 1,
                      workBatches := stats.workBatches + 1,
                      rxPackets := stats.rxPackets + |burst|,
                      parseCycles := stats.parseCycles + parse,
                      rewriteCycles := stats.rewriteCycles + rewrite,
                      checksumCycles := stats.checksumCycles + checksum);
    }

    /** The timer reads around each of the three stages. */
    method TimeStages() returns (parse: nat, rewrite: nat, checksum: nat)
      modifies this`ticks
      ensures parse == Elapsed(env.clock(old(ticks)), env.clock(old(ticks) + 1))
      ensures rewrite == Elapsed(env.clock(old(ticks) + 2), env.clock(old(ticks) + 3))
      ensures checksum == Elapsed(env.clock(old(ticks) + 4), env.clock(old(ticks) + 5))
      ensures ticks == old(ticks) + 6
    {
      var t0 := ReadTimer();
      var t1 := ReadTimer();
      parse := Elapsed(t0, t1);
      t0 := ReadTimer();
      t1 := ReadTimer();
      rewrite := Elapsed(t0, t1);
      t0 := ReadTimer();
      t1 := ReadTimer();
      checksum := Elapsed(t0, t1);
    }
  }

  /** A buffered worker that has made `n` iterations is in the state of the `n`-step run. */
  method RunBuffered<P(0)>(cfg: Config<P>, env: Env<P>, n: nat) returns (w: EchoWorker<P>)
    requires ValidConfig(cfg) && forall k :: |env.rx(k)| <= cfg.burstSize
    ensures w.Valid() && w.State() == BufferedRun(cfg, env, n)
  {
    w := new EchoWorker(cfg, env);
    for i := 0 to n
      invariant w.Valid() && w.cfg == cfg && w.env == env && fresh(w) && fresh(w.txBuffer) && fresh(w.txBuffer.pkts)
      invariant w.State() == BufferedRun(cfg, env, i)
    {
      w.PollBuffered();
    }
  }

  /** The same for the unbuffered program. */
  method RunDirect<P(0)>(cfg: Config<P>, env: Env<P>, n: nat) returns (w: EchoWorker<P>)
    requires ValidConfig(cfg) && forall k :: |env.rx(k)| <= cfg.burstSize
    ensures w.Valid() && w.State() == DirectRun(cfg, env, n)
  {
    w := new EchoWorker(cfg, env);
    for i := 0 to n
      invariant w.Valid() && w.cfg == cfg && w.env == env && fresh(w) && fresh(w.txBuffer)
      invariant w.txBuffer.length == 0 && w.State() == DirectRun(cfg, env, i)
    {
      w.PollDirect();
    }
  }
}
