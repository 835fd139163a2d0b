/** The buffered loop on real mbufs: received bytes, the in-place passes, the transmit buffer of mbuf pointers. */
module BurstPipeline {
  import opened EchoModes
  import opened BurstPasses
  import opened TxBuffering
  import opened MbufBuffering
  import opened TxTurns
  import opened WorkerModel
  import opened WorkerProofs
  import opened Servers

  function Echoes(mode: ChecksumMode, packets: seq<Packet>): (ps: seq<Packet>)
    requires forall i :: 0 <= i < |packets| ==> Accepts(mode, packets[i].frame)
    ensures |ps| == |packets|
  {
    seq(|packets|, i requires 0 <= i < |packets| => Echo(mode, packets[i]))
  }

  /**
   * Echoes a burst in place and buffers its mbufs behind those that wait from earlier bursts. Each
   * time the buffer fills up, the bytes that the NIC reads and the bytes that are freed are those of
   * the waiting mbufs, untouched, and of the echoes.
   */
  method EchoAndBuffer(mode: ChecksumMode, bufs: seq<Mbuf>, tx: MbufTxBuffer, prefetch: bool, lookAhead: nat,
                       eth: array<HeaderPtr>, ipv4: array<HeaderPtr>, udp: array<HeaderPtr>)
    requires tx.Valid() && ValidBurst(bufs) && Apart(tx.waiting, bufs)
    requires forall i :: 0 <= i < |bufs| ==> Accepts(mode, bufs[i].Contents().frame)
    requires |bufs| <= eth.Length && |bufs| <= ipv4.Length && |bufs| <= udp.Length
    requires eth != ipv4 && eth != udp && ipv4 != udp
    modifies bufs, Rooms(bufs), eth, ipv4, udp, tx, tx.slots, tx.slots.pkts
    ensures tx.Valid() && forall m :: m in tx.waiting ==> m in old(tx.waiting) + bufs
    ensures tx.slots.State() == PushAll(tx.slots.nic, tx.slots.pkts.Length, old(tx.slots.State()), bufs)
    ensures tx.Wire()
            == PushAll(tx.slots.nic, tx.slots.pkts.Length, old(tx.Wire()), Echoes(mode, old(BurstContents(bufs))))
    ensures ValidBurst(bufs) && BurstContents(bufs) == Echoes(mode, old(BurstContents(bufs)))
  {
    hide Echo, PushAll, Accepts;
    ghost var received := BurstContents(bufs);
    EchoBurst(mode, bufs, prefetch, lookAhead, eth, ipv4, udp);
    assert BurstContents(bufs) == Echoes(mode, received);
    assert BurstContents(tx.waiting) == old(BurstContents(tx.waiting));
    assert tx.Wire() == old(tx.Wire());
    tx.AppendAll(bufs);
  }

  // ----- Whole runs

  /** What a receive call finds: the mbufs it hands over and the packets in them; and the flush check. */
  datatype Poll = Poll(bufs: seq<Mbuf>, packets: seq<Packet>, overdue: bool)

  /** The receive call puts each packet into an mbuf of its own that has room for it. */
  ghost predicate Deliverable(mode: ChecksumMode, poll: Poll) {
    && |poll.bufs| == |poll.packets|
    && (forall i, j :: 0 <= i < j < |poll.bufs| ==>
          poll.bufs[i] != poll.bufs[j] && poll.bufs[i].data != poll.bufs[j].data)
    && (forall i :: 0 <= i < |poll.bufs| ==> |poll.packets[i].frame| <= poll.bufs[i].data.Length)
    && (forall i :: 0 <= i < |poll.packets| ==> Accepts(mode, poll.packets[i].frame))
  }

  /** The receive call as far as one mbuf is concerned: the NIC overwrites what was in it. */
  method DeliverOne(m: Mbuf, p: Packet)
    requires |p.frame| <= m.data.Length
    modifies m, m.data
    ensures m.Valid() && m.Contents() == p
  {
    Put(m.data, 0, p.frame);
    m.len, m.meta := |p.frame|, p.meta;
    assert m.data[..m.len] == p.frame;
  }

  method Deliver(mode: ChecksumMode, poll: Poll)
    requires Deliverable(mode, poll)
    modifies poll.bufs, Rooms(poll.bufs)
    ensures ValidBurst(poll.bufs) && BurstContents(poll.bufs) == poll.packets
  {
    for i := 0 to |poll.bufs|
      invariant forall k :: 0 <= k < i ==> poll.bufs[k].Valid() && poll.bufs[k].Contents() == poll.packets[k]
    {
      DeliverOne(poll.bufs[i], poll.packets[i]);
    }
  }

  /** The mbufs of the poll hold the echoes of its packets. */
  ghost predicate Echoed(mode: ChecksumMode, poll: Poll)
    requires Deliverable(mode, poll)
    reads poll.bufs, Rooms(poll.bufs)
  {
    ValidBurst(poll.bufs) && BurstContents(poll.bufs) == Echoes(mode, poll.packets)
  }

  /**
   * One iteration of the buffered loop on mbufs: an empty poll flushes; otherwise the burst is
   * received, echoed in place and buffered, and flushed as well if the window is over. The bytes that
   * leave at its transmit calls, and the bytes still waiting, move as if the packets themselves, each
   * echoed, were buffered.
   */
  method RunTurn(mode: ChecksumMode, poll: Poll, tx: MbufTxBuffer, prefetch: bool, lookAhead: nat,
                 eth: array<HeaderPtr>, ipv4: array<HeaderPtr>, udp: array<HeaderPtr>)
    requires Deliverable(mode, poll) && tx.Valid() && Apart(tx.waiting, poll.bufs)
    requires |poll.bufs| <= eth.Length && |poll.bufs| <= ipv4.Length && |poll.bufs| <= udp.Length
    requires eth != ipv4 && eth != udp && ipv4 != udp
    modifies poll.bufs, Rooms(poll.bufs), eth, ipv4, udp, tx, tx.slots, tx.slots.pkts
    ensures tx.Valid() && forall m :: m in tx.waiting ==> m in old(tx.waiting) + poll.bufs
    ensures tx.slots.State()
            == AfterTurn(tx.slots.nic, tx.slots.pkts.Length, old(tx.slots.State()), Turn(poll.bufs, poll.overdue))
    ensures tx.Wire() == AfterTurn(tx.slots.nic, tx.slots.pkts.Length, old(tx.Wire()), EchoTurn(mode, poll))
    ensures Echoed(mode, poll)
  {
    hide Echo, Accepts, PushAll, Flush;
    if poll.bufs == [] {
      tx.FlushBuffer();
    } else {
      ReceiveAndBuffer(mode, poll, tx, prefetch, lookAhead, eth, ipv4, udp);
      if poll.overdue {
        tx.FlushBuffer();
      }
    }
  }

  method ReceiveAndBuffer(mode: ChecksumMode, poll: Poll, tx: MbufTxBuffer, prefetch: bool, lookAhead: nat,
                          eth: array<HeaderPtr>, ipv4: array<HeaderPtr>, udp: array<HeaderPtr>)
    requires Deliverable(mode, poll) && tx.Valid() && Apart(tx.waiting, poll.bufs)
    requires |poll.bufs| <= eth.Length && |poll.bufs| <= ipv4.Length && |poll.bufs| <= udp.Length
    requires eth != ipv4 && eth != udp && ipv4 != udp
    modifies poll.bufs, Rooms(poll.bufs), eth, ipv4, udp, tx, tx.slots, tx.slots.pkts
    ensures tx.Valid() && forall m :: m in tx.waiting ==> m in old(tx.waiting) + poll.bufs
    ensures tx.slots.State() == PushAll(tx.slots.nic, tx.slots.pkts.Length, old(tx.slots.State()), poll.bufs)
    ensures tx.Wire()
            == PushAll(tx.slots.nic, tx.slots.pkts.Length, old(tx.Wire()), Echoes(mode, poll.packets))
    ensures Echoed(mode, poll)
  {
    hide Echo, Accepts, PushAll;
    Deliver(mode, poll);
    assert BurstContents(tx.waiting) == old(BurstContents(tx.waiting));
    assert tx.Wire() == old(tx.Wire());
    EchoAndBuffer(mode, poll.bufs, tx, prefetch, lookAhead, eth, ipv4, udp);
  }

  /** The turns of a run on mbufs, and the same turns on the echoes of what was received. */
  function MbufTurns(polls: seq<Poll>): (ts: seq<Turn<Mbuf?>>)
    ensures |ts| == |polls|
  {
    seq(|polls|, i requires 0 <= i < |polls| => Turn(polls[i].bufs, polls[i].overdue))
  }

  ghost function EchoTurn(mode: ChecksumMode, poll: Poll): Turn<Packet>
    requires Deliverable(mode, poll)
  {
    Turn(Echoes(mode, poll.packets), poll.overdue)
  }

  ghost function EchoTurns(mode: ChecksumMode, polls: seq<Poll>): (ts: seq<Turn<Packet>>)
    requires forall i :: 0 <= i < |polls| ==> Deliverable(mode, polls[i])
    ensures |ts| == |polls|
  {
    seq(|polls|, i requires 0 <= i < |polls| => EchoTurn(mode, polls[i]))
  }

  /** All mbufs are of one pool, in which no two share a data room. */
  ghost predicate FromPool(pool: set<Mbuf>, polls: seq<Poll>) {
    && (forall m, n :: m in pool && n in pool && m != n ==> m.data != n.data)
    && forall i :: 0 <= i < |polls| ==> forall m :: m in polls[i].bufs ==> m in pool
  }

  /** A receive call hands over no mbuf that still waits to be sent: each is reused only after it was sent or freed. */
  ghost predicate ReusedInTime(nic: Nic, size: nat, polls: seq<Poll>) {
    forall i :: 0 <= i < |polls| ==>
      forall m :: m in polls[i].bufs ==> m !in TxRun(nic, size, MbufTurns(polls[..i])).buffer
  }

  ghost function PoolRooms(pool: set<Mbuf>): set<object> {
    set m | m in pool :: m.data
  }

  lemma TurnsNext(mode: ChecksumMode, nic: Nic, size: nat, polls: seq<Poll>, i: nat)
    requires i < |polls| && forall k :: 0 <= k < |polls| ==> Deliverable(mode, polls[k])
    ensures TxRun(nic, size, MbufTurns(polls[..i + 1]))
            == AfterTurn(nic, size, TxRun(nic, size, MbufTurns(polls[..i])), Turn(polls[i].bufs, polls[i].overdue))
    ensures TxRun(nic, size, EchoTurns(mode, polls[..i + 1]))
            == AfterTurn(nic, size, TxRun(nic, size, EchoTurns(mode, polls[..i])), EchoTurn(mode, polls[i]))
  {
    hide AfterTurn, TxRun, MbufTurns, EchoTurns, Echoes, Deliverable;
    MbufTurnsNext(polls, i);
    EchoTurnsNext(mode, polls, i);
    TxRunSnoc(nic, size, MbufTurns(polls[..i]), Turn(polls[i].bufs, polls[i].overdue));
    TxRunSnoc(nic, size, EchoTurns(mode, polls[..i]), EchoTurn(mode, polls[i]));
  }

  lemma MbufTurnsNext(polls: seq<Poll>, i: nat)
    requires i < |polls|
    ensures MbufTurns(polls[..i + 1]) == MbufTurns(polls[..i]) + [Turn(polls[i].bufs, polls[i].overdue)]
  {
  }

  lemma EchoTurnsNext(mode: ChecksumMode, polls: seq<Poll>, i: nat)
    requires i < |polls| && forall k :: 0 <= k < |polls| ==> Deliverable(mode, polls[k])
    ensures EchoTurns(mode, polls[..i + 1]) == EchoTurns(mode, polls[..i]) + [EchoTurn(mode, polls[i])]
  {
    hide Deliverable, EchoTurn;
  }

  lemma PoolApart(pool: set<Mbuf>, waiting: seq<Mbuf>, bufs: seq<Mbuf>)
    requires forall m, n :: m in pool && n in pool && m != n ==> m.data != n.data
    requires (forall m :: m in waiting ==> m in pool) && (forall m :: m in bufs ==> m in pool && m !in waiting)
    ensures Apart(waiting, bufs)
  {
    forall i, j | 0 <= i < |waiting| && 0 <= j < |bufs|
      ensures waiting[i] != bufs[j] && waiting[i].data != bufs[j].data
    {
      assert waiting[i] in waiting && bufs[j] in bufs;
    }
  }

  /**
   * A whole run on mbufs of one pool, reused as soon as they were sent or freed. However often the
   * data rooms are overwritten in between, the bytes that the NIC read, those that were freed unsent,
   * and those that the waiting mbufs hold at the end are the ones of the run on the echoed packets,
   * and account for the echoes of all received packets, in receive order. The mbufs of the last poll
   * still hold its echoes.
   */
  method RunPolls(mode: ChecksumMode, nic: Nic, size: nat, polls: seq<Poll>, ghost pool: set<Mbuf>,
                  prefetch: bool, lookAhead: nat,
                  eth: array<HeaderPtr>, ipv4: array<HeaderPtr>, udp: array<HeaderPtr>)
    returns (tx: MbufTxBuffer)
    requires size > 0 && FromPool(pool, polls) && ReusedInTime(nic, size, polls)
    requires forall i :: 0 <= i < |polls| ==> Deliverable(mode, polls[i])
    requires forall i :: 0 <= i < |polls| ==>
      |polls[i].bufs| <= eth.Length && |polls[i].bufs| <= ipv4.Length && |polls[i].bufs| <= udp.Length
    requires eth != ipv4 && eth != udp && ipv4 != udp
    modifies pool, PoolRooms(pool), eth, ipv4, udp
    ensures tx.Valid() && tx.slots.State() == TxRun(nic, size, MbufTurns(polls))
    ensures tx.Wire() == TxRun(nic, size, EchoTurns(mode, polls))
    ensures Accounts(tx.Wire(), Offered(EchoTurns(mode, polls))) && |tx.waiting| < size
    ensures polls != [] ==> Echoed(mode, polls[|polls| - 1])
  {
    hide Deliverable, AfterTurn, Accounts, Offered, TxRun, MbufTurns, EchoTurns, Echoed;
    tx := new MbufTxBuffer(nic, size);
    NothingYet(mode, nic, size, polls);
    for i := 0 to |polls|
      invariant tx.Valid() && fresh(tx) && fresh(tx.slots) && fresh(tx.slots.pkts)
      invariant tx.slots.nic == nic && tx.slots.pkts.Length == size
      invariant tx.slots.State() == TxRun(nic, size, MbufTurns(polls[..i]))
      invariant tx.Wire() == TxRun(nic, size, EchoTurns(mode, polls[..i]))
      invariant forall m :: m in tx.waiting ==> m in pool
      invariant i > 0 ==> Echoed(mode, polls[i - 1])
    {
      TurnsNext(mode, nic, size, polls, i);
      PoolApart(pool, tx.waiting, polls[i].bufs);
      RunTurn(mode, polls[i], tx, prefetch, lookAhead, eth, ipv4, udp);
    }
    assert polls[..|polls|] == polls;
    TurnsAccount(nic, size, EchoTurns(mode, polls));
  }

  lemma NothingYet(mode: ChecksumMode, nic: Nic, size: nat, polls: seq<Poll>)
    requires forall i :: 0 <= i < |polls| ==> Deliverable(mode, polls[i])
    ensures TxRun<Mbuf?>(nic, size, MbufTurns(polls[..0])) == TxState([], 0, 0, [], [], [])
    ensures TxRun(nic, size, EchoTurns(mode, polls[..0])) == TxState([], 0, 0, [], [], [])
  {
    hide Deliverable;
  }

  // ----- The worker's run

  /** The polls are those of the worker: its receive stream and its flush checks. */
  ghost predicate WorkerPolls(cfg: Config<Packet>, env: Env<Packet>, polls: seq<Poll>) {
    forall i :: 0 <= i < |polls| ==>
      && polls[i].packets == env.rx(i)
      && polls[i].overdue == TurnOf(cfg, env, BufferedRun(cfg, env, i)).overdue
  }

  /**
   * On the polls of a worker, the run on mbufs puts on the wire, drops and keeps waiting what the
   * worker's state machine says, whose steps echo packets as values.
   */
  lemma MbufRunIsWorkerRun(mode: ChecksumMode, cfg: Config<Packet>, env: Env<Packet>, polls: seq<Poll>)
    requires ValidConfig(cfg) && cfg == EchoConfig(mode, cfg.burstSize, cfg.bufferSize, cfg.reportCycles)
    requires (forall i :: 0 <= i < |polls| ==> Deliverable(mode, polls[i])) && WorkerPolls(cfg, env, polls)
    ensures TxRun(env.nic, cfg.bufferSize, EchoTurns(mode, polls)) == BufferedRun(cfg, env, |polls|).tx
  {
    hide BufferedRun, EchoTurns, WorkerPolls, TxRun, Deliverable;
    BufferedRunIsTxRun(cfg, env, |polls|);
    WorkerTurns(mode, cfg, env, polls, |polls|);
    assert polls[..|polls|] == polls;
  }

  lemma {:induction false} WorkerTurns(mode: ChecksumMode, cfg: Config<Packet>, env: Env<Packet>, polls: seq<Poll>,
                                          k: nat)
    requires ValidConfig(cfg) && cfg == EchoConfig(mode, cfg.burstSize, cfg.bufferSize, cfg.reportCycles)
    requires (forall i :: 0 <= i < |polls| ==> Deliverable(mode, polls[i])) && WorkerPolls(cfg, env, polls)
    requires k <= |polls|
    ensures EchoTurns(mode, polls[..k]) == TurnsOf(cfg, env, k)
    decreases k
  {
    hide BufferedRun, TurnOf, WorkerPolls, Deliverable, EchoTurn;
    if k == 0 {
    } else {
      WorkerTurns(mode, cfg, env, polls, k - 1);
      BufferedRunBalanced(cfg, env, k - 1);
      WorkerTurn(mode, cfg, env, polls, k - 1);
      EchoTurnsNext(mode, polls, k - 1);
    }
  }

  lemma WorkerTurn(mode: ChecksumMode, cfg: Config<Packet>, env: Env<Packet>, polls: seq<Poll>, i: nat)
    requires cfg == EchoConfig(mode, cfg.burstSize, cfg.bufferSize, cfg.reportCycles)
    requires i < |polls| && Deliverable(mode, polls[i]) && WorkerPolls(cfg, env, polls)
    requires BufferedRun(cfg, env, i).polls == i
    ensures TurnOf(cfg, env, BufferedRun(cfg, env, i)) == EchoTurn(mode, polls[i])
  {
    hide BufferedRun, Echo, Accepts;
    assert Map(cfg.process, env.rx(i)) == Echoes(mode, polls[i].packets);
  }
}
