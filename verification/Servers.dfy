/** Whole servers: workers that echo packets in a checksum mode, and several of them side by side. */
module Servers {
  import opened Frames
  import opened EchoModes
  import opened EchoProofs
  import opened TxBuffering
  import opened WorkerModel
  import opened WorkerProofs

  // ----- Echoing workers

  /** What the worker does to one packet; frames too short for the mode are outside the fixed format. */
  function EchoOrKeep(mode: ChecksumMode, p: Packet): Packet {
    if Accepts(mode, p.frame) then Echo(mode, p) else p
  }

  function EchoConfig(mode: ChecksumMode, burstSize: nat, bufferSize: nat, reportCycles: nat): Config<Packet> {
    Config(burstSize, bufferSize, reportCycles, p => EchoOrKeep(mode, p))
  }

  /** What a NIC with checksum completion puts on the wire. */
  function WireOrKeep(p: Packet): Frame {
    if Transmittable(p) then Wire(p) else p.frame
  }

  function WireAll(ps: seq<Packet>): (fs: seq<Frame>)
    ensures |fs| == |ps|
  {
    seq(|ps|, i requires 0 <= i < |ps| => WireOrKeep(ps[i]))
  }

  /**
   * Requests to which two modes give the same wire bytes: any request if the modes are the same,
   * well-formed ones for software and offload, canonical ones as soon as preserve is involved.
   */
  ghost predicate Agreeable(mode: ChecksumMode, mode': ChecksumMode, p: Packet) {
    || mode == mode'
    || (&& mode != ChecksumMode.None && mode' != ChecksumMode.None
        && p.meta.flags == {} && WellFormed(p.frame)
        && (mode == Preserve || mode' == Preserve ==> Canonical(p.frame)))
  }

  ghost predicate AgreeableTraffic(mode: ChecksumMode, mode': ChecksumMode, rx: nat -> seq<Packet>) {
    forall k, i :: 0 <= i < |rx(k)| ==> Agreeable(mode, mode', rx(k)[i])
  }

  /** On well-formed requests, offload after completion and software are the same on the wire. */
  lemma RecomputedOnWire(mode: ChecksumMode, p: Packet)
    requires (mode == Software || mode == Offload) && WellFormed(p.frame) && p.meta.flags == {}
    ensures WireOrKeep(EchoOrKeep(mode, p)) == Echo(Software, p).frame
  {
    assert Accepts(mode, p.frame);
    OffloadCompletesToSoftware(p);
    hide SwapEndpoints, RecomputeIp, RecomputeUdp, Wire, WellFormed, PseudoHeaderCksum;
    if mode == Software {
      WireWithoutFlags(Echo(mode, p));
    }
  }

  lemma PreservedOnWire(p: Packet)
    requires Canonical(p.frame) && p.meta.flags == {}
    ensures WireOrKeep(EchoOrKeep(Preserve, p)) == Echo(Software, p).frame
  {
    PreserveEqualsSoftwareIff(p);
    assert Accepts(Preserve, p.frame) && Accepts(Software, p.frame);
    hide Canonical, SwapEndpoints, RecomputeIp, RecomputeUdp, Wire, Transmittable;
    WireWithoutFlags(Echo(Preserve, p));
  }

  lemma AgreeOnWire(mode: ChecksumMode, mode': ChecksumMode, p: Packet)
    requires Agreeable(mode, mode', p)
    ensures WireOrKeep(EchoOrKeep(mode, p)) == WireOrKeep(EchoOrKeep(mode', p))
  {
    hide WireOrKeep, EchoOrKeep, Canonical, WellFormed, Echo;
    if mode != mode' {
      CanonicalIsWellFormed(p.frame);
      if mode == Preserve { PreservedOnWire(p); } else { RecomputedOnWire(mode, p); }
      if mode' == Preserve { PreservedOnWire(p); } else { RecomputedOnWire(mode', p); }
    }
  }

  lemma CanonicalIsWellFormed(f: Frame)
    ensures Canonical(f) ==> WellFormed(f)
  {
  }

  lemma {:induction false} SameWire(a: Config<Packet>, b: Config<Packet>, mode: ChecksumMode, mode': ChecksumMode,
                                    rx: nat -> seq<Packet>, n: nat)
    requires a.process == (p => EchoOrKeep(mode, p)) && b.process == (p => EchoOrKeep(mode', p))
    requires AgreeableTraffic(mode, mode', rx)
    ensures WireAll(Stream(a, rx, n)) == WireAll(Stream(b, rx, n))
  {
    if n == 0 {
    } else {
      hide Agreeable, WireOrKeep, EchoOrKeep;
      SameWire(a, b, mode, mode', rx, n - 1);
      var x, y := Stream(a, rx, n - 1), Stream(b, rx, n - 1);
      var ps, qs := Map(a.process, rx(n - 1)), Map(b.process, rx(n - 1));
      forall i | 0 <= i < |rx(n - 1)|
        ensures WireOrKeep(ps[i]) == WireOrKeep(qs[i])
      {
        AgreeOnWire(mode, mode', rx(n - 1)[i]);
      }
      WireAllConcat(x, ps);
      WireAllConcat(y, qs);
      assert WireAll(ps) == WireAll(qs);
    }
  }

  lemma WireAllConcat(ps: seq<Packet>, qs: seq<Packet>)
    ensures WireAll(ps + qs) == WireAll(ps) + WireAll(qs)
  {
  }

  /**
   * The fast server refines the simple one: on traffic to which their modes reply alike and NICs that
   * take everything, a buffered server puts on the wire, in order and byte for byte, what the
   * unbuffered server does, up to the packets that still wait in its buffer.
   */
  lemma FastServerRefinesSimple(mode: ChecksumMode, mode': ChecksumMode, burstSize: nat, bufferSize: nat,
                                reportCycles: nat, env: Env<Packet>, env': Env<Packet>, n: nat)
    requires ValidConfig(EchoConfig(mode, burstSize, bufferSize, reportCycles))
    requires env.rx == env'.rx && TakesAll(env.nic) && TakesAll(env'.nic) && AgreeableTraffic(mode, mode', env.rx)
    ensures var fast := BufferedRun(EchoConfig(mode, burstSize, bufferSize, reportCycles), env, n).tx;
            var simple := DirectRun(EchoConfig(mode', burstSize, 1, reportCycles), env', n).tx;
            WireAll(fast.sent) + WireAll(fast.buffer) == WireAll(simple.sent) && |fast.buffer| < bufferSize
  {
    hide BufferedRun, DirectRun, AgreeableTraffic, Stream, EchoOrKeep, TakesAll, WireOrKeep;
    var a, b := EchoConfig(mode, burstSize, bufferSize, reportCycles), EchoConfig(mode', burstSize, 1, reportCycles);
    AllSentInOrder(a, env, n);
    AllSentInOrder(b, env', n);
    SameWire(a, b, mode, mode', env.rx, n);
    var fast := BufferedRun(a, env, n).tx;
    WireAllConcat(fast.sent, fast.buffer);
  }

  // ----- Several queues

  /** How often `q` is scheduled. */
  function Turns(schedule: seq<nat>, q: nat): nat {
    if schedule == [] then 0
    else Turns(schedule[..|schedule| - 1], q) + if schedule[|schedule| - 1] == q then 1 else 0
  }

  /** All workers of a server, stepped in the order of an arbitrary schedule of queue ids. */
  function Interleaved<P>(cfg: Config<P>, envs: seq<Env<P>>, schedule: seq<nat>): (ss: seq<State<P>>)
    ensures |ss| == |envs|
  {
    if schedule == [] then seq(|envs|, q requires 0 <= q < |envs| => Initial(envs[q]))
    else
      var before := Interleaved(cfg, envs, schedule[..|schedule| - 1]);
      var q := schedule[|schedule| - 1];
      if q < |envs| then before[q := BufferedStep(cfg, envs[q], before[q])] else before
  }

  /** Workers do not interfere: under any interleaving each is where it would be running alone. */
  lemma {:induction false} WorkersIndependent<P>(cfg: Config<P>, envs: seq<Env<P>>, schedule: seq<nat>, q: nat)
    requires q < |envs|
    ensures Interleaved(cfg, envs, schedule)[q] == BufferedRun(cfg, envs[q], Turns(schedule, q))
  {
    hide BufferedStep;
    if schedule == [] {
    } else {
      WorkersIndependent(cfg, envs, schedule[..|schedule| - 1], q);
    }
  }

  /** All packets received by the first `k` queues under the schedule. */
  function ReceivedByAll<P>(cfg: Config<P>, envs: seq<Env<P>>, schedule: seq<nat>, k: nat): multiset<P>
    requires k <= |envs|
  {
    if k == 0 then multiset{}
    else ReceivedByAll(cfg, envs, schedule, k - 1) + multiset(Stream(cfg, envs[k - 1].rx, Turns(schedule, k - 1)))
  }

  /** The packets at each place over the first `k` workers. */
  datatype Places<P(==)> = Places(sent: multiset<P>, dropped: multiset<P>, buffered: multiset<P>)

  function PlacesOfAll<P>(ss: seq<State<P>>, k: nat): Places<P>
    requires k <= |ss|
  {
    if k == 0 then Places(multiset{}, multiset{}, multiset{})
    else
      var before, x := PlacesOfAll(ss, k - 1), ss[k - 1].tx;
      Places(before.sent + multiset(x.sent), before.dropped + multiset(x.dropped), before.buffered + multiset(x.buffer))
  }

  /** Under any interleaving each worker accounts, place by place and in order, for its own receive stream. */
  lemma EachWorkerAccounts<P>(cfg: Config<P>, envs: seq<Env<P>>, schedule: seq<nat>, q: nat)
    requires ValidConfig(cfg) && q < |envs|
    ensures var x, stream := Interleaved(cfg, envs, schedule)[q].tx, Stream(cfg, envs[q].rx, Turns(schedule, q));
            && Accounts(x, stream)
            && multiset(stream) == multiset(x.sent) + multiset(x.dropped) + multiset(x.buffer)
  {
    hide Interleaved, BufferedRun, Turns, Stream, ValidConfig, Accounts;
    WorkersIndependent(cfg, envs, schedule, q);
    WorkerConservation(cfg, envs[q], Turns(schedule, q));
  }

  /**
   * System-wide conservation under any interleaving: the packets that the first `k` workers, and so
   * all of them, sent, dropped and buffered are together exactly the packets they received.
   */
  lemma {:induction false} SystemConservation<P>(cfg: Config<P>, envs: seq<Env<P>>, schedule: seq<nat>, k: nat)
    requires ValidConfig(cfg) && k <= |envs|
    ensures var all := PlacesOfAll(Interleaved(cfg, envs, schedule), k);
            ReceivedByAll(cfg, envs, schedule, k) == all.sent + all.dropped + all.buffered
  {
    hide Interleaved, Turns, Stream, ValidConfig, Accounts;
    if k == 0 {
    } else {
      var ss, q := Interleaved(cfg, envs, schedule), k - 1;
      SystemConservation(cfg, envs, schedule, q);
      EachWorkerAccounts(cfg, envs, schedule, q);
      var all, x := PlacesOfAll(ss, q), ss[q].tx;
      Regroup(all.sent, all.dropped, all.buffered, multiset(x.sent), multiset(x.dropped), multiset(x.buffer));
    }
  }

  lemma Regroup<P>(a: multiset<P>, b: multiset<P>, c: multiset<P>, x: multiset<P>, y: multiset<P>, z: multiset<P>)
    ensures (a + b + c) + (x + y + z) == (a + x) + (b + y) + (c + z)
  {
  }

  lemma WorkerConservation<P>(cfg: Config<P>, env: Env<P>, n: nat)
    requires ValidConfig(cfg)
    ensures var x := BufferedRun(cfg, env, n).tx;
            && Accounts(x, Stream(cfg, env.rx, n))
            && multiset(Stream(cfg, env.rx, n)) == multiset(x.sent) + multiset(x.dropped) + multiset(x.buffer)
  {
    hide BufferedRun;
    BufferedRunBalanced(cfg, env, n);
    Conservation(BufferedRun(cfg, env, n).tx, Stream(cfg, env.rx, n));
  }
}
