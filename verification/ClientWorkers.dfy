/** The client workers: bursts of generated packets out, replies drained. */
module ClientWorkers {
  import opened Arithmetic
  import opened TxBuffering
  import opened FlowSchedule

  /** The flow ids of the first `m` packets of worker `q` of `w`. */
  function Ids(w: nat, q: nat, m: nat): (ids: seq<nat>)
    ensures |ids| == m
  {
    seq(m, k requires 0 <= k => FlowId(w, q, k))
  }

  /** `n` consecutive ids from `first`, a step of `w` apart. */
  function Steps(first: nat, w: nat, n: nat): (ids: seq<nat>)
    ensures |ids| == n
  {
    seq(n, i requires 0 <= i => first + i * w)
  }

  lemma IdsExtend(w: nat, q: nat, m: nat, more: nat)
    ensures Ids(w, q, m + more) == Ids(w, q, m) + Steps(FlowId(w, q, m), w, more)
  {
    forall i | 0 <= i < more
      ensures FlowId(w, q, m + i) == FlowId(w, q, m) + i * w
    {
      Distributed(m, i, w);
    }
  }

  // ----- Receive scripts

  /** All mbufs of the batches, in order. */
  function Concat(batches: seq<seq<nat>>): seq<nat> {
    if batches == [] then [] else batches[0] + Concat(batches[1..])
  }

  /** How many batches a drain takes: up to and including the first that is not full. */
  function DrainLength(burstSize: nat, batches: seq<seq<nat>>): (k: nat)
    ensures k <= |batches|
  {
    if batches == [] then 0
    else if |batches[0]| < burstSize then 1
    else 1 + DrainLength(burstSize, batches[1..])
  }

  lemma DrainNext(burstSize: nat, batches: seq<seq<nat>>)
    ensures DrainLength(burstSize, batches)
            == if batches == [] then 0
               else 1 + if |batches[0]| < burstSize then 0 else DrainLength(burstSize, batches[1..])
  {
  }

  lemma NothingDrained()
    ensures Concat([]) == []
  {
  }

  /** A drain stops exactly at the first batch that is not full, or when nothing more arrives. */
  lemma {:induction false} DrainStopsAtShort(burstSize: nat, batches: seq<seq<nat>>, i: nat)
    requires i < |batches|
    ensures i < DrainLength(burstSize, batches) <==> forall j :: 0 <= j < i ==> |batches[j]| >= burstSize
  {
    if i == 0 {
    } else if |batches[0]| < burstSize {
    } else {
      DrainStopsAtShort(burstSize, batches[1..], i - 1);
      assert forall j :: 0 < j < i ==> batches[j] == batches[1..][j - 1];
      assert (forall j :: 0 <= j < i - 1 ==> |batches[1..][j]| >= burstSize)
        ==> forall j :: 0 < j < i ==> |batches[j]| >= burstSize;
    }
  }

  /** How a queue without arrivals is received: full batches, then a short one. */
  function Chop(burstSize: nat, queue: seq<nat>): seq<seq<nat>>
    requires burstSize > 0
  {
    if |queue| < burstSize then [queue] else [queue[..burstSize]] + Chop(burstSize, queue[burstSize..])
  }

  /** A drain of a queue without arrivals takes all of it. */
  lemma {:induction false} QueueDrained(burstSize: nat, queue: seq<nat>)
    requires burstSize > 0
    ensures DrainLength(burstSize, Chop(burstSize, queue)) == |Chop(burstSize, queue)|
    ensures Concat(Chop(burstSize, queue)) == queue
    ensures forall i :: 0 <= i < |Chop(burstSize, queue)| ==> |Chop(burstSize, queue)[i]| <= burstSize
  {
    if |queue| < burstSize {
      assert Concat([queue]) == queue + Concat([]);
    } else {
      var rest := Chop(burstSize, queue[burstSize..]);
      QueueDrained(burstSize, queue[burstSize..]);
      assert ([queue[..burstSize]] + rest)[1..] == rest;
    }
  }

  lemma {:induction false} ConcatSplit(batches: seq<seq<nat>>, k: nat)
    requires k <= |batches|
    ensures Concat(batches) == Concat(batches[..k]) + Concat(batches[k..])
  {
    if k == 0 {
    } else {
      ConcatSplit(batches[1..], k - 1);
      assert batches[..k][1..] == batches[1..][..k - 1] && batches[k..] == batches[1..][k - 1..];
    }
  }

  /** The number of allocations that failed. */
  function Failures(gotMbufs: seq<bool>): (k: nat)
    ensures k <= |gotMbufs|
  {
    if gotMbufs == [] then 0
    else Failures(gotMbufs[..|gotMbufs| - 1]) + if gotMbufs[|gotMbufs| - 1] then 0 else 1
  }

  lemma NoFailures()
    ensures Failures([]) == 0
  {
  }

  lemma FailuresNext(gotMbufs: seq<bool>, i: nat)
    requires i < |gotMbufs|
    ensures Failures(gotMbufs[..i + 1]) == Failures(gotMbufs[..i]) + if gotMbufs[i] then 0 else 1
  {
    assert gotMbufs[..i + 1][..i] == gotMbufs[..i];
  }

  // ----- The worker

  /**
   * The worker of one queue. An mbuf on the transmit side is named by the flow id of the packet in it,
   * which no other mbuf of the run shares. `txq` makes the transmit calls and frees what they leave;
   * nothing ever waits in it. `script` holds the batches that coming receive calls will find.
   */
  class ClientWorker {
    const queue: nat
    const workers: nat
    const burstSize: nat
    const txq: TxBuffer<nat>
    var nextFlow: nat
    var completed: nat
    var txSent: nat
    var txDrops: nat
    var allocFailures: nat
    var script: seq<seq<nat>>
    ghost var rxFreed: seq<nat>

    /** What the transmit side has done with every generated mbuf. */
    ghost function Account(): TxState<nat>
      reads this, txq
    {
      TxState([], txq.drops, txq.calls, txq.sent, txq.dropped, txq.fates)
    }

    /**
     * Every generated mbuf is sent or freed once, in order; the next flow follows the counters; and
     * exactly the freed replies are completed.
     */
    ghost predicate Valid()
      reads this, txq
    {
      && burstSize > 0 && txq.Valid() && txq.length == 0
      && txSent == |txq.sent| && txDrops == txq.drops
      && Accounts(Account(), Ids(workers, queue, txSent + txDrops))
      && nextFlow == queue + (txSent + txDrops) * workers
      && completed == |rxFreed|
      && forall i :: 0 <= i < |script| ==> |script[i]| <= burstSize
    }

    constructor (queue: nat, workers: nat, burstSize: nat, nic: Nic, script: seq<seq<nat>>)
      requires burstSize > 0 && forall i :: 0 <= i < |script| ==> |script[i]| <= burstSize
      ensures Valid() && fresh(txq) && nextFlow == queue && completed == 0 && this.script == script
    {
      this.queue, this.workers, this.burstSize, this.script := queue, workers, burstSize, script;
      txq := new TxBuffer(nic, 1);
      nextFlow, completed, txSent, txDrops, allocFailures, rxFreed := queue, 0, 0, 0, 0, [];
    }

    /** One receive call: the next batch of the script, or nothing when it has run out. */
    method Receive() returns (bufs: seq<nat>)
      modifies this`script
      ensures if old(script) == [] then bufs == [] && script == []
              else bufs == old(script)[0] && script == old(script)[1..]
    {
      if script == [] {
        return [];
      }
      bufs, script := script[0], script[1..];
    }

    /** Frees each of the received mbufs. */
    method FreeAll(bufs: seq<nat>)
      modifies this`rxFreed
      ensures rxFreed == old(rxFreed) + bufs
    {
      for i := 0 to |bufs|
        invariant rxFreed == old(rxFreed) + bufs[..i]
      {
        rxFreed := rxFreed + [bufs[i]];
      }
    }

    /**
     * drain_rx: receive until a batch is not full. Each mbuf of the batches taken is freed once, in
     * order, and exactly these are completed.
     */
    method DrainRx()
      requires Valid()
      modifies this`script, this`rxFreed, this`completed
      ensures Valid() && script == old(script)[DrainLength(burstSize, old(script))..]
      ensures rxFreed == old(rxFreed) + Concat(old(script)[..DrainLength(burstSize, old(script))])
    {
      hide Accounts, Ids, Concat, DrainLength;
      var more := true;
      ghost var taken := 0;
      NothingDrained();
      while more
        invariant taken <= |old(script)| && script == old(script)[taken..]
        invariant forall i :: 0 <= i < |script| ==> |script[i]| <= burstSize
        invariant more ==> taken + DrainLength(burstSize, script) == DrainLength(burstSize, old(script))
        invariant !more ==> taken == DrainLength(burstSize, old(script))
        invariant rxFreed == old(rxFreed) + Concat(old(script)[..taken]) && completed == |rxFreed|
        decreases |script|, more
      {
        ghost var before := script;
        DrainNext(burstSize, script);
        var bufs := Receive();
        completed := completed + |bufs|;
        FreeAll(bufs);
        more := |bufs| == burstSize;
        if before != [] {
          OneMoreBatch(old(script), taken);
          taken := taken + 1;
        }
      }
    }

    /** Fills `created` mbufs with the next packets. */
    method Generate(created: nat) returns (pkts: seq<nat>)
      modifies this`nextFlow
      ensures pkts == Steps(old(nextFlow), workers, created)
      ensures nextFlow == old(nextFlow) + created * workers
    {
      pkts := [];
      for i := 0 to created
        invariant pkts == Steps(old(nextFlow), workers, i)
        invariant nextFlow == old(nextFlow) + i * workers
      {
        pkts := pkts + [nextFlow];
        nextFlow := nextFlow + workers;
        OneMore(i, workers);
      }
    }

    /** Generates a burst, offers it, and frees what the NIC leaves. */
    method GenerateAndSend(created: nat)
      requires Valid() && 0 < created
      modifies this`nextFlow, this`txSent, this`txDrops, txq
      ensures Valid() && txSent + txDrops == old(txSent) + old(txDrops) + created
      ensures Account() == Transmit(txq.nic, old(Account()), Steps(old(nextFlow), workers, created))
      ensures var taken := txq.nic(old(txq.calls), created);
              taken <= created ==> txSent == old(txSent) + taken && txDrops == old(txDrops) + (created - taken)
    {
      hide Accounts, Transmit;
      ghost var m, before := txSent + txDrops, Account();
      var pkts := Generate(created);
      IdsExtend(workers, queue, m, created);
      TransmitAccounts(txq.nic, before, Ids(workers, queue, m), pkts);
      Distributed(m, created, workers);
      assert txq.State() == before;
      var nbTx := txq.TransmitDirectly(pkts);
      TransmitCounts(txq.nic, before, pkts);
      assert Account() == txq.State();
      txSent := txSent + nbTx;
      txDrops := txDrops + (created - nbTx);
    }

    /** One burst of the fast client: all mbufs or none; a failed allocation drains instead. */
    method FastBurst(gotMbufs: bool)
      requires Valid()
      modifies this, txq
      ensures Valid() && rxFreed + Concat(script) == old(rxFreed) + Concat(old(script))
      ensures txSent + txDrops == old(txSent) + old(txDrops) + if gotMbufs then burstSize else 0
      ensures allocFailures == old(allocFailures) + if gotMbufs then 0 else 1
      ensures script == if gotMbufs then old(script) else old(script)[DrainLength(burstSize, old(script))..]
    {
      if !gotMbufs {
        allocFailures := allocFailures + 1;
        ConcatSplit(script, DrainLength(burstSize, script));
        DrainRx();
        return;
      }
      GenerateAndSend(burstSize);
    }

    /**
     * One iteration of the fast client: a burst for each allocation that succeeds, a drain for each
     * that fails, and a drain at the end. What has been received is freed, once and in order.
     */
    method FastIteration(gotMbufs: seq<bool>)
      requires Valid()
      modifies this, txq
      ensures Valid() && rxFreed + Concat(script) == old(rxFreed) + Concat(old(script))
      ensures allocFailures == old(allocFailures) + Failures(gotMbufs)
      ensures txSent + txDrops == old(txSent) + old(txDrops) + (|gotMbufs| - Failures(gotMbufs)) * burstSize
      ensures Failures(gotMbufs) == 0 ==> script == old(script)[DrainLength(burstSize, old(script))..]
    {
      Bursts(gotMbufs);
      ConcatSplit(script, DrainLength(burstSize, script));
      DrainRx();
    }

    method Bursts(gotMbufs: seq<bool>)
      requires Valid()
      modifies this, txq
      ensures Valid() && rxFreed + Concat(script) == old(rxFreed) + Concat(old(script))
      ensures allocFailures == old(allocFailures) + Failures(gotMbufs)
      ensures txSent + txDrops == old(txSent) + old(txDrops) + (|gotMbufs| - Failures(gotMbufs)) * burstSize
      ensures Failures(gotMbufs) == 0 ==> script == old(script)
    {
      hide Accounts, Concat, DrainLength, Failures;
      NoFailures();
      for i := 0 to |gotMbufs|
        invariant Valid() && rxFreed + Concat(script) == old(rxFreed) + Concat(old(script))
        invariant allocFailures == old(allocFailures) + Failures(gotMbufs[..i])
        invariant txSent + txDrops == old(txSent) + old(txDrops) + (i - Failures(gotMbufs[..i])) * burstSize
        invariant Failures(gotMbufs[..i]) == 0 ==> script == old(script)
      {
        FailuresNext(gotMbufs, i);
        OneMore(i - Failures(gotMbufs[..i]), burstSize);
        FastBurst(gotMbufs[i]);
      }
      assert gotMbufs[..|gotMbufs|] == gotMbufs;
    }

    /** One iteration of the slow client: as many packets as could be allocated, then one receive. */
    method ThroughputIteration(created: nat)
      requires Valid() && created <= burstSize
      modifies this, txq
      ensures Valid() && txSent + txDrops == old(txSent) + old(txDrops) + created
      ensures rxFreed == old(rxFreed) + (if old(script) == [] then [] else old(script)[0])
      ensures script == if old(script) == [] then [] else old(script)[1..]
    {
      hide Accounts, Ids, Steps, Transmit;
      if created > 0 {
        GenerateAndSend(created);
      }
      var bufs := Receive();
      completed := completed + |bufs|;
      FreeAll(bufs);
    }
  }

  lemma {:induction false} OneMoreBatch(batches: seq<seq<nat>>, k: nat)
    requires k < |batches|
    ensures Concat(batches[..k + 1]) == Concat(batches[..k]) + batches[k]
  {
    ConcatSplit(batches[..k + 1], k);
    assert batches[..k + 1][..k] == batches[..k] && batches[..k + 1][k..] == [batches[k]];
    assert Concat([batches[k]]) == batches[k] + Concat([]);
  }

  /** A transmission without buffering accounts for as many packets as it was given. */
  lemma TransmitCounts<P>(nic: Nic, x: TxState<P>, ps: seq<P>)
    requires x.buffer == [] && ps != []
    ensures var y := Transmit(nic, x, ps);
            y.buffer == [] && |y.sent| + y.drops == |x.sent| + x.drops + |ps| && |x.sent| <= |y.sent|
  {
  }

  /**
   * However many packets each worker has generated, an id is in use exactly when it is below the
   * count of the one worker that its remainder names; no other worker ever uses it.
   */
  lemma WorkersShareIds(w: nat, counts: seq<nat>, id: nat)
    requires |counts| == w > 0
    ensures forall q: nat :: q < w ==> (id in Ids(w, q, counts[q]) <==> q == id % w && id / w < counts[q])
  {
    forall q: nat | q < w
      ensures id in Ids(w, q, counts[q]) <==> q == id % w && id / w < counts[q]
    {
      DivModAgain(id, w);
      IdInWorker(w, q, counts[q], id, id % w, id / w);
    }
  }

  lemma IdInWorker(w: nat, q: nat, m: nat, id: nat, r: nat, d: nat)
    requires q < w && r < w && id == d * w + r
    ensures id in Ids(w, q, m) <==> q == r && d < m
  {
    if id in Ids(w, q, m) {
      var k :| 0 <= k < m && Ids(w, q, m)[k] == id;
      IdsNeverRepeat(w, q, k, r, d);
    }
    if q == r && d < m {
      assert Ids(w, q, m)[d] == FlowId(w, q, d) == id;
    }
  }
}
