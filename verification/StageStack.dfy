/** The stage averages of a round stacked on each other, against the average of the total cycles. */
module StageStack {
  import opened WorkerModel
  import opened WindowProofs
  import opened RoundCollection
  import opened Aggregation
  import StageLedger

  /** The per-packet figures that a report prints: the total, then the six stages. */
  function Figures(p: Profile): seq<real> {
    var rx := p.rxPackets;
    [PerPacket(p.totalLoopCycles, rx), PerPacket(p.rxCycles, rx), PerPacket(p.parseCycles, rx),
     PerPacket(p.rewriteCycles, rx), PerPacket(p.checksumCycles, rx), PerPacket(p.txCycles, p.txPackets),
     PerPacket(OtherCycles(p), rx)]
  }

  /** The log line of a report. */
  predicate ReportOf(s: Sample, p: Profile) {
    s.rxPkts == p.rxPackets && s.txPkts == p.txPackets && s.cyclesPerPkt == Figures(p)
  }

  /** A round of log lines, and the reports they were printed from. */
  predicate RoundOf(r: seq<Sample>, ps: seq<Profile>) {
    |r| == |ps| && forall i :: 0 <= i < |r| ==> ReportOf(r[i], ps[i])
  }

  /** The stages with the derived one make up the loop time. */
  predicate Complementary(ps: seq<Profile>) {
    forall i :: 0 <= i < |ps| ==> AccountedCycles(ps[i]) + OtherCycles(ps[i]) == ps[i].totalLoopCycles
  }

  /** The height of a stacked bar: the first `k` stage averages. */
  function Stacked(r: seq<Sample>, k: nat): real {
    if k == 0 then 0.0 else Stacked(r, k - 1) + WeightedAverage(r, Figure(k))
  }

  function StackedSum(r: seq<Sample>, k: nat): real {
    if k == 0 then 0.0 else StackedSum(r, k - 1) + WeightedSum(r, Figure(k))
  }

  /** What a loaded queue's transmit figure adds over its transmit cycles when weighted by received packets. */
  function LoadedExcess(p: Profile): real {
    if p.rxPackets == 0 then 0.0
    else PerPacket(p.txCycles, p.txPackets) * p.rxPackets as real - p.txCycles as real
  }

  function LoadedExcessTotal(ps: seq<Profile>): real {
    if ps == [] then 0.0 else LoadedExcessTotal(ps[..|ps| - 1]) + LoadedExcess(ps[|ps| - 1])
  }

  // ----- Sums

  /** The stage figures of one line, weighted by its received packets. */
  function LineStack(s: Sample, k: nat): real {
    if k == 0 then 0.0 else LineStack(s, k - 1) + Figure(k)(s) * s.rxPkts as real
  }

  lemma {:induction false} StackedSumSnoc(r: seq<Sample>, k: nat)
    requires r != []
    ensures StackedSum(r, k) == StackedSum(r[..|r| - 1], k) + LineStack(r[|r| - 1], k)
  {
    if k == 0 {
    } else {
      var front, last := r[..|r| - 1], r[|r| - 1];
      StackedSumSnoc(r, k - 1);
      StackNext(r, k);
      StackNext(front, k);
      LineNext(last, k);
      TotalsSnoc(r, Figure(k));
      hide StackedSum, LineStack, WeightedSum, Figure;
    }
  }

  lemma StackNext(r: seq<Sample>, k: nat)
    requires k > 0
    ensures StackedSum(r, k) == StackedSum(r, k - 1) + WeightedSum(r, Figure(k))
  {
  }

  lemma LineNext(s: Sample, k: nat)
    requires k > 0
    ensures LineStack(s, k) == LineStack(s, k - 1) + Figure(k)(s) * s.rxPkts as real
  {
  }

  lemma {:induction false} NothingStacked(k: nat)
    ensures StackedSum([], k) == 0.0 && WeightedSum([], Figure(0)) == 0.0
  {
    if k == 0 {
    } else {
      NothingStacked(k - 1);
    }
  }

  lemma LineGap(s: Sample, p: Profile)
    requires ReportOf(s, p) && AccountedCycles(p) + OtherCycles(p) == p.totalLoopCycles
    ensures LineStack(s, STAGES) == Figure(0)(s) * s.rxPkts as real + LoadedExcess(p)
  {
    hide PerPacket, LineStack, OtherCycles, Figure;
    SixStages(s);
    var rx := p.rxPackets;
    TimesItsPackets(p.totalLoopCycles, rx);
    TimesItsPackets(p.rxCycles, rx);
    TimesItsPackets(p.parseCycles, rx);
    TimesItsPackets(p.rewriteCycles, rx);
    TimesItsPackets(p.checksumCycles, rx);
    TimesItsPackets(OtherCycles(p), rx);
  }

  lemma SixStages(s: Sample)
    requires |s.cyclesPerPkt| == STAGES + 1
    ensures Figure(0)(s) == s.cyclesPerPkt[0]
    ensures var c, x := s.cyclesPerPkt, s.rxPkts as real;
            LineStack(s, STAGES) == c[1] * x + c[2] * x + c[3] * x + c[4] * x + c[5] * x + c[6] * x
  {
    assert LineStack(s, 0) == 0.0;
    assert LineStack(s, 2) == LineStack(s, 1) + Figure(2)(s) * s.rxPkts as real;
    assert LineStack(s, 4) == LineStack(s, 3) + Figure(4)(s) * s.rxPkts as real;
    assert LineStack(s, 6) == LineStack(s, 5) + Figure(6)(s) * s.rxPkts as real;
  }

  lemma {:induction false} StackGap(r: seq<Sample>, ps: seq<Profile>)
    requires RoundOf(r, ps) && Complementary(ps)
    ensures StackedSum(r, STAGES) == WeightedSum(r, Figure(0)) + LoadedExcessTotal(ps)
  {
    hide StackedSum, WeightedSum, LineStack, LoadedExcess, Figure;
    if r == [] {
      NothingStacked(STAGES);
    } else {
      var i := |r| - 1;
      StackGap(r[..i], ps[..i]);
      LineGap(r[i], ps[i]);
      StackedSumSnoc(r, STAGES);
      TotalsSnoc(r, Figure(0));
    }
  }

  lemma {:induction false} StackedIsQuotient(r: seq<Sample>, k: nat)
    requires RxTotal(r) > 0
    ensures Stacked(r, k) == StackedSum(r, k) / RxTotal(r) as real
  {
    hide WeightedSum, RxTotal, Figure;
    if k == 0 {
    } else {
      StackedIsQuotient(r, k - 1);
      SumOfQuotients(StackedSum(r, k - 1), WeightedSum(r, Figure(k)), RxTotal(r) as real);
    }
  }

  lemma SumOfQuotients(a: real, b: real, d: real)
    requires d > 0.0
    ensures a / d + b / d == (a + b) / d
  {
  }

  // ----- What each column of a summary averages

  /** The cycles of the loaded queues of a round. */
  function LoadedTotal(ps: seq<Profile>, cycles: Profile -> nat): nat {
    if ps == [] then 0
    else LoadedTotal(ps[..|ps| - 1], cycles) + if ps[|ps| - 1].rxPackets == 0 then 0 else cycles(ps[|ps| - 1])
  }

  function StageOf(stage: StageLedger.Stage): Profile -> nat {
    (p: Profile) => StageLedger.StageCycles(p, stage)
  }

  function LoopCycles(p: Profile): nat {
    p.totalLoopCycles
  }

  lemma {:induction false} ColumnSum(r: seq<Sample>, ps: seq<Profile>, k: nat, cycles: Profile -> nat)
    requires RoundOf(r, ps) && k <= STAGES
    requires forall i :: 0 <= i < |ps| ==> Figures(ps[i])[k] == PerPacket(cycles(ps[i]), ps[i].rxPackets)
    ensures WeightedSum(r, Figure(k)) == LoadedTotal(ps, cycles) as real
  {
    hide Figures, Figure, PerPacket, ReportOf;
    if r == [] {
    } else {
      var i := |r| - 1;
      ColumnSum(r[..i], ps[..i], k, cycles);
      LineColumn(r[i], ps[i], k, cycles);
    }
  }

  lemma LineColumn(s: Sample, p: Profile, k: nat, cycles: Profile -> nat)
    requires ReportOf(s, p) && k <= STAGES && Figures(p)[k] == PerPacket(cycles(p), p.rxPackets)
    ensures Figure(k)(s) * s.rxPkts as real == if p.rxPackets == 0 then 0.0 else cycles(p) as real
  {
    TimesItsPackets(cycles(p), p.rxPackets);
    hide PerPacket;
  }

  /** A loaded round's average times its packets is the sum it averages; an idle round averages to zero. */
  lemma AverageTimesPackets(r: seq<Sample>, figure: Sample -> real)
    ensures RxTotal(r) > 0 ==> WeightedAverage(r, figure) * RxTotal(r) as real == WeightedSum(r, figure)
    ensures RxTotal(r) == 0 ==> WeightedAverage(r, figure) == 0.0
  {
  }

  /**
   * The columns of a summary: column 0 averages the loop cycles, 1 to 4 the receive, parse, rewrite and
   * checksum cycles of the loaded queues, each over all received packets.
   */
  lemma ColumnsHoldStages(r: seq<Sample>, ps: seq<Profile>)
    requires RoundOf(r, ps) && RxTotal(r) > 0
    ensures var n := RxTotal(r) as real;
            && WeightedAverage(r, Figure(0)) * n == LoadedTotal(ps, LoopCycles) as real
            && WeightedAverage(r, Figure(1)) * n == LoadedTotal(ps, StageOf(StageLedger.Rx)) as real
            && WeightedAverage(r, Figure(2)) * n == LoadedTotal(ps, StageOf(StageLedger.Parse)) as real
            && WeightedAverage(r, Figure(3)) * n == LoadedTotal(ps, StageOf(StageLedger.Rewrite)) as real
            && WeightedAverage(r, Figure(4)) * n == LoadedTotal(ps, StageOf(StageLedger.Checksum)) as real
            && WeightedAverage(r, Figure(6)) * n == LoadedTotal(ps, OtherCycles) as real
  {
    hide Figure, WeightedAverage, WeightedSum, LoadedTotal, RxTotal, RoundOf, PerPacket, OtherCycles;
    ColumnSum(r, ps, 0, LoopCycles);
    ColumnSum(r, ps, 1, StageOf(StageLedger.Rx));
    ColumnSum(r, ps, 2, StageOf(StageLedger.Parse));
    ColumnSum(r, ps, 3, StageOf(StageLedger.Rewrite));
    ColumnSum(r, ps, 4, StageOf(StageLedger.Checksum));
    ColumnSum(r, ps, 6, OtherCycles);
    AverageTimesPackets(r, Figure(0));
    AverageTimesPackets(r, Figure(1));
    AverageTimesPackets(r, Figure(2));
    AverageTimesPackets(r, Figure(3));
    AverageTimesPackets(r, Figure(4));
    AverageTimesPackets(r, Figure(6));
  }

  /** Column 5: each loaded queue's transmit cycles per transmitted packet, weighted by its received packets. */
  lemma {:induction false} TransmitColumn(r: seq<Sample>, ps: seq<Profile>)
    requires RoundOf(r, ps)
    ensures WeightedSum(r, Figure(5))
            == LoadedTotal(ps, StageOf(StageLedger.Tx)) as real + LoadedExcessTotal(ps)
  {
    if r == [] {
    } else {
      var i := |r| - 1;
      TransmitColumn(r[..i], ps[..i]);
      assert Figure(5)(r[i]) == PerPacket(ps[i].txCycles, ps[i].txPackets);
      hide PerPacket, Figure, Figures;
    }
  }

  // ----- When the stages add up

  /**
   * In a loaded round the stage averages add up to the average of the total cycles exactly when the
   * loaded queues' transmit excess cancels out; a positive excess makes the stack too high.
   */
  lemma StagesAddUpIff(r: seq<Sample>, ps: seq<Profile>)
    requires RoundOf(r, ps) && Complementary(ps) && RxTotal(r) > 0
    ensures Stacked(r, STAGES) == WeightedAverage(r, Figure(0)) <==> LoadedExcessTotal(ps) == 0.0
    ensures Stacked(r, STAGES) >= WeightedAverage(r, Figure(0)) <==> LoadedExcessTotal(ps) >= 0.0
  {
    hide RoundOf, Complementary, Stacked, StackedSum, WeightedSum, RxTotal, LoadedExcessTotal, Figure;
    StackGap(r, ps);
    StackedIsQuotient(r, STAGES);
    QuotientOrder(StackedSum(r, STAGES), WeightedSum(r, Figure(0)), RxTotal(r) as real);
  }

  /** No loaded queue sent more than it received, and none with transmit cycles sent nothing. */
  predicate LoadedSentSome(ps: seq<Profile>) {
    forall i :: 0 <= i < |ps| && ps[i].rxPackets > 0 ==>
      ps[i].txPackets <= ps[i].rxPackets && (ps[i].txCycles > 0 ==> ps[i].txPackets > 0)
  }

  /** Every loaded queue with transmit cycles sent all it received. */
  predicate LoadedSentAll(ps: seq<Profile>) {
    forall i :: 0 <= i < |ps| && ps[i].rxPackets > 0 && ps[i].txCycles > 0 ==> ps[i].txPackets == ps[i].rxPackets
  }

  lemma LoadedExcessSign(p: Profile)
    requires LoadedSentSome([p])
    ensures LoadedExcess(p) >= 0.0
    ensures LoadedExcess(p) == 0.0 <==> LoadedSentAll([p])
  {
    assert [p][0] == p;
    var c, t, x := p.txCycles, p.txPackets, p.rxPackets as real;
    if p.rxPackets > 0 && c > 0 {
      TimesItsPackets(c, t);
      assert PerPacket(c, t) > 0.0;
      MulOrder(t as real, x, PerPacket(c, t));
      MulOrder(x, t as real, PerPacket(c, t));
    } else {
      assert c == 0 ==> PerPacket(c, t) == 0.0;
    }
  }

  lemma {:induction false} LoadedExcessZeroIff(ps: seq<Profile>)
    requires LoadedSentSome(ps)
    ensures LoadedExcessTotal(ps) >= 0.0
    ensures LoadedExcessTotal(ps) == 0.0 <==> LoadedSentAll(ps)
  {
    if ps == [] {
    } else {
      var front, last := ps[..|ps| - 1], ps[|ps| - 1];
      assert ps == front + [last];
      LoadedExcessZeroIff(front);
      LoadedExcessSign(last);
      hide LoadedExcess;
      assert LoadedSentAll(ps) <==> LoadedSentAll(front) && LoadedSentAll([last]);
    }
  }

  // ----- Reports of real runs

  /** Each report is one that the queue's worker, buffered or not, printed in some run. */
  ghost predicate Printed<P>(cfg: Config<P>, envs: seq<Env<P>>, ps: seq<Profile>) {
    |envs| == |ps| && forall q :: 0 <= q < |ps| ==> WellBehaved(cfg, envs[q]) && PrintedBy(cfg, envs[q], ps[q])
  }

  ghost predicate PrintedBy<P>(cfg: Config<P>, env: Env<P>, p: Profile) {
    exists n: nat, i: nat ::
      || (i < |BufferedRun(cfg, env, n).windows| && BufferedRun(cfg, env, n).windows[i].profile == p)
      || (i < |DirectRun(cfg, env, n).windows| && DirectRun(cfg, env, n).windows[i].profile == p)
  }

  /**
   * For a round of reports that the workers printed: the stage averages add up to the average
   * of the total cycles exactly when the transmit excess cancels out. If no loaded queue sent more
   * than it received or spent cycles on sending nothing, the stack is never too low, and it is right
   * exactly when every loaded queue with transmit cycles sent all it received.
   */
  lemma PrintedStagesAddUpIff<P>(cfg: Config<P>, envs: seq<Env<P>>, r: seq<Sample>, ps: seq<Profile>)
    requires ValidConfig(cfg) && Printed(cfg, envs, ps) && RoundOf(r, ps) && RxTotal(r) > 0
    ensures Stacked(r, STAGES) == WeightedAverage(r, Figure(0)) <==> LoadedExcessTotal(ps) == 0.0
    ensures LoadedSentSome(ps) ==>
      && Stacked(r, STAGES) >= WeightedAverage(r, Figure(0))
      && (Stacked(r, STAGES) == WeightedAverage(r, Figure(0)) <==> LoadedSentAll(ps))
  {
    hide Stacked, WeightedAverage, LoadedExcessTotal, RxTotal, RoundOf, LoadedSentAll, LoadedSentSome, PrintedBy;
    forall q | 0 <= q < |ps|
      ensures AccountedCycles(ps[q]) + OtherCycles(ps[q]) == ps[q].totalLoopCycles
    {
      PrintedIsComplementary(cfg, envs[q], ps[q]);
    }
    StagesAddUpIff(r, ps);
    if LoadedSentSome(ps) {
      LoadedExcessZeroIff(ps);
    }
  }

  lemma PrintedIsComplementary<P>(cfg: Config<P>, env: Env<P>, p: Profile)
    requires ValidConfig(cfg) && WellBehaved(cfg, env) && PrintedBy(cfg, env, p)
    ensures AccountedCycles(p) + OtherCycles(p) == p.totalLoopCycles
  {
    hide BufferedRun, DirectRun, WellBehaved, ValidConfig;
    var n: nat, i: nat :|
      || (i < |BufferedRun(cfg, env, n).windows| && BufferedRun(cfg, env, n).windows[i].profile == p)
      || (i < |DirectRun(cfg, env, n).windows| && DirectRun(cfg, env, n).windows[i].profile == p);
    BufferedRunTimely(cfg, env, n);
    DirectRunTimely(cfg, env, n);
    var b, d := BufferedRun(cfg, env, n), DirectRun(cfg, env, n);
    assert i < |b.windows| ==> GoodWindow(cfg, b.windows[i], cfg.bufferSize);
    assert i < |d.windows| ==> GoodWindow(cfg, d.windows[i], 1);
  }
}
