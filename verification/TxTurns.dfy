/** The transmit side of the poll loop on its own: what each iteration offers and flushes. */
module TxTurns {
  import opened TxBuffering
  import opened WorkerModel

  /** One iteration: the packets of its burst, and whether its flush check finds the window over. */
  datatype Turn<P> = Turn(ps: seq<P>, overdue: bool)

  function AfterTurn<P>(nic: Nic, size: nat, x: TxState<P>, turn: Turn<P>): TxState<P> {
    if turn.ps == [] then Flush(nic, x)
    else
      var y := PushAll(nic, size, x, turn.ps);
      if turn.overdue then Flush(nic, y) else y
  }

  function TxRun<P>(nic: Nic, size: nat, turns: seq<Turn<P>>): TxState<P> {
    if turns == [] then TxState([], 0, 0, [], [], [])
    else AfterTurn(nic, size, TxRun(nic, size, turns[..|turns| - 1]), turns[|turns| - 1])
  }

  /** The packets of all turns, in order. */
  function Offered<P>(turns: seq<Turn<P>>): seq<P> {
    if turns == [] then [] else Offered(turns[..|turns| - 1]) + turns[|turns| - 1].ps
  }

  lemma TxRunSnoc<P>(nic: Nic, size: nat, turns: seq<Turn<P>>, turn: Turn<P>)
    ensures TxRun(nic, size, turns + [turn]) == AfterTurn(nic, size, TxRun(nic, size, turns), turn)
    ensures Offered(turns + [turn]) == Offered(turns) + turn.ps
  {
    assert (turns + [turn])[..|turns|] == turns;
  }

  /** Over any run of turns everything offered is accounted for, in order. */
  lemma {:induction false} TurnsAccount<P>(nic: Nic, size: nat, turns: seq<Turn<P>>)
    requires size > 0
    ensures Accounts(TxRun(nic, size, turns), Offered(turns))
    ensures |TxRun(nic, size, turns).buffer| < size
  {
    if turns == [] {
    } else {
      var front, turn := turns[..|turns| - 1], turns[|turns| - 1];
      TurnsAccount(nic, size, front);
      TurnAccounts(nic, size, TxRun(nic, size, front), Offered(front), turn);
      hide Accounts;
    }
  }

  lemma TurnAccounts<P>(nic: Nic, size: nat, x: TxState<P>, offered: seq<P>, turn: Turn<P>)
    requires Accounts(x, offered) && |x.buffer| < size
    ensures Accounts(AfterTurn(nic, size, x, turn), offered + turn.ps)
    ensures |AfterTurn(nic, size, x, turn).buffer| < size
  {
    hide Accounts, Flush;
    if turn.ps == [] {
      assert offered + turn.ps == offered;
      FlushAccounts(nic, x, offered);
    } else {
      PushAllAccounts(nic, size, x, offered, turn.ps);
      FlushAccounts(nic, PushAll(nic, size, x, turn.ps), offered + turn.ps);
    }
  }

  // ----- The worker's turns

  /** What the iteration from `s` does to the transmit side; its flush check is its twelfth timer read. */
  function TurnOf<P>(cfg: Config<P>, env: Env<P>, s: State<P>): Turn<P> {
    Turn(Map(cfg.process, env.rx(s.polls)), Elapsed(s.lastReport, env.clock(s.ticks + 11)) >= cfg.reportCycles)
  }

  function TurnsOf<P>(cfg: Config<P>, env: Env<P>, n: nat): seq<Turn<P>> {
    if n == 0 then [] else TurnsOf(cfg, env, n - 1) + [TurnOf(cfg, env, BufferedRun(cfg, env, n - 1))]
  }

  lemma StepIsTurn<P>(cfg: Config<P>, env: Env<P>, s: State<P>)
    ensures BufferedStep(cfg, env, s).tx == AfterTurn(env.nic, cfg.bufferSize, s.tx, TurnOf(cfg, env, s))
  {
    hide Elapsed, PushAll;
    assert Map(cfg.process, env.rx(s.polls)) == [] <==> env.rx(s.polls) == [];
  }

  /** The transmit side of the buffered worker is the run of its turns. */
  lemma {:induction false} BufferedRunIsTxRun<P>(cfg: Config<P>, env: Env<P>, n: nat)
    ensures BufferedRun(cfg, env, n).tx == TxRun(env.nic, cfg.bufferSize, TurnsOf(cfg, env, n))
  {
    hide BufferedStep, AfterTurn, TurnOf;
    if n == 0 {
    } else {
      BufferedRunIsTxRun(cfg, env, n - 1);
      StepIsTurn(cfg, env, BufferedRun(cfg, env, n - 1));
      TxRunSnoc(env.nic, cfg.bufferSize, TurnsOf(cfg, env, n - 1), TurnOf(cfg, env, BufferedRun(cfg, env, n - 1)));
    }
  }
}
