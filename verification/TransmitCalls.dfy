/** The transmit calls of a run, from the lengths of its bursts alone, and what the NIC took of each. */
module TransmitCalls {
  import opened Arithmetic
  import opened TxBuffering
  import opened WorkerModel
  import opened WorkerProofs
  import opened WindowProofs
  import opened TxTurns

  /** The NIC of the programs: a call takes a prefix of what it is offered. */
  ghost predicate TakesPrefix(nic: Nic) {
    forall call, offered :: nic(call, offered) <= offered
  }

  // ----- Logs of calls: how many packets each was offered

  function Sum(log: seq<nat>): nat {
    if log == [] then 0 else Sum(log[..|log| - 1]) + log[|log| - 1]
  }

  /** How many packets the NIC took over a log. */
  function Accepted(nic: Nic, log: seq<nat>): nat {
    if log == [] then 0
    else Accepted(nic, log[..|log| - 1]) + nic(|log| - 1, log[|log| - 1])
  }

  /** The fate of each packet offered: of every call the first ones, as many as the NIC took, are sent. */
  function FatesOf(nic: Nic, log: seq<nat>): seq<Fate> {
    if log == [] then []
    else
      var i := |log| - 1;
      var k := nic(i, log[i]);
      FatesOf(nic, log[..i]) + (Repeat(Sent, k) + Repeat(Dropped, if k <= log[i] then log[i] - k else 0))
  }

  /** `k` calls with a full buffer. */
  function Full(size: nat, k: nat): (log: seq<nat>)
    ensures |log| == k
  {
    seq(k, _ => size)
  }

  /** A call with what waits, if anything does. */
  function Rest(waiting: nat): seq<nat> {
    if waiting == 0 then [] else [waiting]
  }

  /** How many packets wait after some turns, each of which brings packets and perhaps ends with a flush. */
  function WaitingAfter<P>(size: nat, turns: seq<Turn<P>>): (w: nat)
    requires size > 0
  {
    if turns == [] then 0
    else
      var turn := turns[|turns| - 1];
      if turn.ps == [] || turn.overdue then 0
      else (WaitingAfter(size, turns[..|turns| - 1]) + |turn.ps|) % size
  }

  /** A burst makes one call for each time the buffer is full; a flush adds one with the rest. */
  function CallLog<P>(size: nat, turns: seq<Turn<P>>): seq<nat>
    requires size > 0
  {
    if turns == [] then []
    else
      var front, turn := turns[..|turns| - 1], turns[|turns| - 1];
      var there := WaitingAfter(size, front) + |turn.ps|;
      CallLog(size, front)
      + if turn.ps == [] then Rest(there)
        else Full(size, there / size) + if turn.overdue then Rest(there % size) else []
  }

  // ----- States and logs

  /** The calls so far were those of the log, and each packet that left met the fate the log says. */
  ghost predicate Explained<P>(nic: Nic, x: TxState<P>, log: seq<nat>) {
    x.calls == |log| && x.fates == FatesOf(nic, log)
  }

  lemma LogSnoc(nic: Nic, log: seq<nat>, n: nat)
    requires nic(|log|, n) <= n
    ensures Sum(log + [n]) == Sum(log) + n
    ensures Accepted(nic, log + [n]) == Accepted(nic, log) + nic(|log|, n)
    ensures FatesOf(nic, log + [n])
            == FatesOf(nic, log) + (Repeat(Sent, nic(|log|, n)) + Repeat(Dropped, n - nic(|log|, n)))
  {
    assert (log + [n])[..|log|] == log;
  }

  lemma FlushExplained<P>(nic: Nic, x: TxState<P>, log: seq<nat>)
    requires TakesPrefix(nic) && Explained(nic, x, log)
    ensures Explained(nic, Flush(nic, x), log + Rest(|x.buffer|)) && Flush(nic, x).buffer == []
  {
    if x.buffer == [] {
      assert log + [] == log;
    } else {
      LogSnoc(nic, log, |x.buffer|);
    }
  }

  /** Where the buffer stands after one more packet, and then `m` more. */
  lemma OneMorePacket(size: nat, b: nat, m: nat)
    requires b < size
    ensures b + 1 < size ==> (b + 1 + m) / size == (b + (m + 1)) / size && (b + 1 + m) % size == (b + (m + 1)) % size
    ensures b + 1 == size ==> (b + (m + 1)) / size == 1 + m / size && (b + (m + 1)) % size == m % size
  {
    if b + 1 == size {
      OneBufferMore(size, m);
    }
  }

  lemma OneBufferMore(size: nat, m: nat)
    requires size > 0
    ensures (size + m) / size == 1 + m / size && (size + m) % size == m % size
  {
    var q, r := m / size, m % size;
    DivModAgain(m, size);
    OneMore(q, size);
    RemainderOf(q + 1, size, r);
    QuotientIs(size + m, size, q + 1);
  }

  /** Buffering a burst: full calls only, as many as the packets fill, and the remainder waits. */
  lemma {:induction false} PushAllExplained<P>(nic: Nic, size: nat, x: TxState<P>, log: seq<nat>, ps: seq<P>)
    requires TakesPrefix(nic) && Explained(nic, x, log) && |x.buffer| < size
    ensures var y, there := PushAll(nic, size, x, ps), |x.buffer| + |ps|;
            Explained(nic, y, log + Full(size, there / size)) && |y.buffer| == there % size
    decreases |ps|
  {
    hide Explained, Flush, Sum, FatesOf;
    if ps == [] {
      QuotientIs(|x.buffer|, size, 0);
      DivModAgain(|x.buffer|, size);
      assert log + Full(size, 0) == log;
    } else {
      var y, m := x.(buffer := x.buffer + [ps[0]]), |ps| - 1;
      OneMorePacket(size, |x.buffer|, m);
      SameExplained(nic, x, y, log);
      if |y.buffer| < size {
        PushAllExplained(nic, size, y, log, ps[1..]);
      } else {
        FlushExplained(nic, y, log);
        PushAllExplained(nic, size, Flush(nic, y), log + [size], ps[1..]);
        assert log + [size] + Full(size, m / size) == log + Full(size, 1 + m / size);
      }
    }
  }

  lemma SameExplained<P>(nic: Nic, x: TxState<P>, y: TxState<P>, log: seq<nat>)
    requires Explained(nic, x, log) && x.calls == y.calls && x.fates == y.fates
    ensures Explained(nic, y, log)
  {
  }

  lemma TurnExplained<P>(nic: Nic, size: nat, x: TxState<P>, log: seq<nat>, turn: Turn<P>)
    requires TakesPrefix(nic) && Explained(nic, x, log) && |x.buffer| < size
    ensures var y, there := AfterTurn(nic, size, x, turn), |x.buffer| + |turn.ps|;
            if turn.ps == [] then Explained(nic, y, log + Rest(there)) && y.buffer == []
            else && Explained(nic, y, log + (Full(size, there / size)
                                             + if turn.overdue then Rest(there % size) else []))
                 && |y.buffer| == if turn.overdue then 0 else there % size
  {
    hide Explained, Flush, PushAll, Full, Rest;
    if turn.ps == [] {
      FlushExplained(nic, x, log);
    } else {
      var y, full := PushAll(nic, size, x, turn.ps), Full(size, (|x.buffer| + |turn.ps|) / size);
      PushAllExplained(nic, size, x, log, turn.ps);
      FlushExplained(nic, y, log + full);
      assert log + full + Rest(|y.buffer|) == log + (full + Rest(|y.buffer|));
      assert full + [] == full;
    }
  }

  /** Over any turns the calls are those of the log. */
  lemma {:induction false} RunExplained<P>(nic: Nic, size: nat, turns: seq<Turn<P>>)
    requires TakesPrefix(nic) && size > 0
    ensures var x := TxRun(nic, size, turns);
            Explained(nic, x, CallLog(size, turns)) && |x.buffer| == WaitingAfter(size, turns)
  {
    if turns == [] {
    } else {
      hide AfterTurn, Explained, Full, Rest;
      var front, turn := turns[..|turns| - 1], turns[|turns| - 1];
      RunExplained(nic, size, front);
      TurnsAccount(nic, size, front);
      TurnExplained(nic, size, TxRun(nic, size, front), CallLog(size, front), turn);
    }
  }

  // ----- Counts

  function CountSent(fates: seq<Fate>): nat {
    if fates == [] then 0
    else CountSent(fates[..|fates| - 1]) + if fates[|fates| - 1] == Sent then 1 else 0
  }

  lemma {:induction false} SentCount<P>(ps: seq<P>, fates: seq<Fate>)
    requires |ps| == |fates|
    ensures |WithFate(ps, fates, Sent)| == CountSent(fates)
  {
    if ps == [] {
    } else {
      SentCount(ps[..|ps| - 1], fates[..|ps| - 1]);
    }
  }

  lemma {:induction false} CountConcat(a: seq<Fate>, b: seq<Fate>)
    ensures CountSent(a + b) == CountSent(a) + CountSent(b)
  {
    if b == [] {
      assert a + b == a;
    } else {
      var i := |b| - 1;
      CountConcat(a, b[..i]);
      assert (a + b)[..|a| + i] == a + b[..i];
    }
  }

  lemma {:induction false} CountRepeat(fate: Fate, n: nat)
    ensures CountSent(Repeat(fate, n)) == if fate == Sent then n else 0
  {
    if n == 0 {
    } else {
      CountRepeat(fate, n - 1);
      assert Repeat(fate, n)[..n - 1] == Repeat(fate, n - 1);
    }
  }

  lemma {:induction false} LogCounts(nic: Nic, log: seq<nat>)
    requires TakesPrefix(nic)
    ensures CountSent(FatesOf(nic, log)) == Accepted(nic, log) && |FatesOf(nic, log)| == Sum(log)
  {
    if log == [] {
    } else {
      hide CountSent;
      var i := |log| - 1;
      LogCounts(nic, log[..i]);
      var k := nic(i, log[i]);
      CountRepeat(Sent, k);
      CountRepeat(Dropped, log[i] - k);
      CountConcat(Repeat(Sent, k), Repeat(Dropped, log[i] - k));
      CountConcat(FatesOf(nic, log[..i]), Repeat(Sent, k) + Repeat(Dropped, log[i] - k));
    }
  }

  /** A state with its account and its log: what was sent and dropped is what the NIC took and left. */
  lemma ExplainedCounts<P>(nic: Nic, x: TxState<P>, offered: seq<P>, log: seq<nat>)
    requires TakesPrefix(nic) && Accounts(x, offered) && Explained(nic, x, log)
    ensures |x.sent| == Accepted(nic, log) && x.drops == Sum(log) - Accepted(nic, log)
    ensures Sum(log) + |x.buffer| == |offered|
  {
    LogCounts(nic, log);
    SentCount(offered[..|x.fates|], x.fates);
    FateCounts(offered[..|x.fates|], x.fates);
    hide WithFate, FatesOf, Sum, CountSent;
  }

  // ----- The workers

  /**
   * The buffered worker over any run: its transmit calls follow from the lengths of its bursts and its
   * flush checks, and exactly what the NIC took of each call is sent and reported as transmitted; the
   * rest of the call is dropped and reported so.
   */
  lemma BufferedCallsExplained<P>(cfg: Config<P>, env: Env<P>, n: nat)
    requires ValidConfig(cfg) && TakesPrefix(env.nic)
    ensures var s, log := BufferedRun(cfg, env, n), CallLog(cfg.bufferSize, TurnsOf(cfg, env, n));
            && Explained(env.nic, s.tx, log)
            && |s.tx.buffer| == WaitingAfter(cfg.bufferSize, TurnsOf(cfg, env, n))
            && |s.tx.sent| == Accepted(env.nic, log)
            && TxReported(s.windows) + s.stats.txPackets == Accepted(env.nic, log)
            && DropsReported(s.windows) + s.stats.txDrops == Sum(log) - Accepted(env.nic, log)
  {
    BufferedRunBalanced(cfg, env, n);
    BufferedRunIsTxRun(cfg, env, n);
    RunExplained(env.nic, cfg.bufferSize, TurnsOf(cfg, env, n));
    hide BufferedRun, TxRun, CallLog, TurnsOf, WaitingAfter, Explained, Accounts;
    var log := CallLog(cfg.bufferSize, TurnsOf(cfg, env, n));
    ExplainedCounts(env.nic, BufferedRun(cfg, env, n).tx, Stream(cfg, env.rx, n), log);
  }

  /** A turn of a run ends with a flush exactly when its twelfth timer read finds the report period over. */
  lemma OverdueIff<P>(cfg: Config<P>, env: Env<P>, n: nat)
    requires ValidConfig(cfg) && WellBehaved(cfg, env)
    ensures var s := BufferedRun(cfg, env, n);
            TurnOf(cfg, env, s).overdue <==> env.clock(s.ticks + 11) - s.lastReport >= cfg.reportCycles
  {
    BufferedRunTimely(cfg, env, n);
    hide BufferedRun, GoodReports, CountsAgree, Map, Elapsed;
    var s := BufferedRun(cfg, env, n);
    assert s.lastReport <= env.clock(s.ticks - 1) <= env.clock(s.ticks + 11) < U64;
    ElapsedIsDifference(s.lastReport, env.clock(s.ticks + 11));
  }

  /** The unbuffered worker makes one call for each burst, with all of it. */
  function BurstLog<P>(rx: nat -> seq<P>, n: nat): seq<nat> {
    if n == 0 then [] else BurstLog(rx, n - 1) + Rest(|rx(n - 1)|)
  }

  lemma {:induction false} DirectExplained<P>(cfg: Config<P>, env: Env<P>, n: nat)
    requires TakesPrefix(env.nic)
    ensures Explained(env.nic, DirectRun(cfg, env, n).tx, BurstLog(env.rx, n))
  {
    hide DirectStep, Explained;
    if n == 0 {
      NothingExplained(env);
    } else {
      DirectExplained(cfg, env, n - 1);
      DirectRunBalanced(cfg, env, n - 1);
      DirectStepExplained(cfg, env, DirectRun(cfg, env, n - 1), BurstLog(env.rx, n - 1));
    }
  }

  lemma NothingExplained<P>(env: Env<P>)
    ensures Explained(env.nic, Initial(env).tx, [])
  {
  }

  lemma DirectStepExplained<P>(cfg: Config<P>, env: Env<P>, s: State<P>, log: seq<nat>)
    requires TakesPrefix(env.nic) && Explained(env.nic, s.tx, log) && s.tx.buffer == []
    ensures Explained(env.nic, DirectStep(cfg, env, s).tx, log + Rest(|env.rx(s.polls)|))
  {
    hide Elapsed, FatesOf;
    var ps := Map(cfg.process, env.rx(s.polls));
    SameExplained(env.nic, s.tx, s.tx.(buffer := ps), log);
    FlushExplained(env.nic, s.tx.(buffer := ps), log);
    assert log + [] == log;
    hide Explained, Flush;
  }

  /** The unbuffered worker over any run: of each burst what the NIC took is transmitted, the rest dropped. */
  lemma DirectCallsExplained<P>(cfg: Config<P>, env: Env<P>, n: nat)
    requires TakesPrefix(env.nic)
    ensures var s, log := DirectRun(cfg, env, n), BurstLog(env.rx, n);
            && Explained(env.nic, s.tx, log)
            && |s.tx.sent| == Accepted(env.nic, log)
            && TxReported(s.windows) + s.stats.txPackets == Accepted(env.nic, log)
            && DropsReported(s.windows) + s.stats.txDrops == Sum(log) - Accepted(env.nic, log)
  {
    DirectRunBalanced(cfg, env, n);
    DirectExplained(cfg, env, n);
    hide DirectRun, Explained, Accounts, BurstLog;
    ExplainedCounts(env.nic, DirectRun(cfg, env, n).tx, Stream(cfg, env.rx, n), BurstLog(env.rx, n));
  }
}
