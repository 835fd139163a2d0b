/** Averages over one round, in exact real arithmetic. */
module Aggregation {
  import opened RoundCollection
  import Selection

  /** cycles_per_packet and cycles_per_event of the server's report. */
  function PerPacket(cycles: nat, packets: nat): real {
    if packets == 0 then 0.0 else cycles as real / packets as real
  }

  function RxPkts(s: Sample): nat {
    s.rxPkts
  }

  function TxPkts(s: Sample): nat {
    s.txPkts
  }

  function TxDrops(s: Sample): nat {
    s.txDrops
  }

  /** The sum of a count over a round. */
  function Total(r: seq<Sample>, count: Sample -> nat): nat {
    if r == [] then 0 else Total(r[..|r| - 1], count) + count(r[|r| - 1])
  }

  function RxTotal(r: seq<Sample>): nat {
    Total(r, RxPkts)
  }

  /** The sum of a figure weighted by received packets. */
  function WeightedSum(r: seq<Sample>, figure: Sample -> real): real {
    if r == [] then 0.0
    else WeightedSum(r[..|r| - 1], figure) + figure(r[|r| - 1]) * r[|r| - 1].rxPkts as real
  }

  function WeightedAverage(r: seq<Sample>, figure: Sample -> real): real {
    if RxTotal(r) == 0 then 0.0 else WeightedSum(r, figure) / RxTotal(r) as real
  }

  /** The cycles spent by queues that received nothing, which their per-packet figure of zero hides. */
  function IdleCycles(r: seq<Sample>, cycles: Sample -> nat): nat {
    if r == [] then 0
    else IdleCycles(r[..|r| - 1], cycles) + if r[|r| - 1].rxPkts == 0 then cycles(r[|r| - 1]) else 0
  }

  // ----- Bounds

  lemma {:induction false} WeightedSumBounds(r: seq<Sample>, figure: Sample -> real, lo: real, hi: real)
    requires forall i :: 0 <= i < |r| && r[i].rxPkts > 0 ==> lo <= figure(r[i]) <= hi
    ensures lo * RxTotal(r) as real <= WeightedSum(r, figure) <= hi * RxTotal(r) as real
  {
    if r == [] {
    } else {
      var front, last := r[..|r| - 1], r[|r| - 1];
      WeightedSumBounds(front, figure, lo, hi);
      ScaleBounds(lo, figure(last), hi, last.rxPkts);
      TotalsSnoc(r, figure);
      hide WeightedSum, RxTotal;
      BoundsStep(lo, hi, RxTotal(front), last.rxPkts, WeightedSum(front, figure), figure(last) * last.rxPkts as real);
    }
  }

  lemma TotalsSnoc(r: seq<Sample>, figure: Sample -> real)
    requires r != []
    ensures var front, last := r[..|r| - 1], r[|r| - 1];
            RxTotal(r) == RxTotal(front) + last.rxPkts &&
            WeightedSum(r, figure) == WeightedSum(front, figure) + figure(last) * last.rxPkts as real
  {
  }

  lemma BoundsStep(lo: real, hi: real, before: nat, own: nat, sum: real, term: real)
    requires lo * before as real <= sum <= hi * before as real
    requires lo * own as real <= term <= hi * own as real
    ensures lo * (before + own) as real <= sum + term <= hi * (before + own) as real
  {
    assert (before + own) as real == before as real + own as real;
    Distribute(lo, before as real, own as real);
    Distribute(hi, before as real, own as real);
  }

  lemma ScaleBounds(lo: real, v: real, hi: real, n: nat)
    requires n > 0 ==> lo <= v <= hi
    ensures lo * n as real <= v * n as real <= hi * n as real
  {
    if n > 0 {
      assert (v - lo) * n as real >= 0.0 && (hi - v) * n as real >= 0.0;
    }
  }

  lemma Distribute(a: real, x: real, y: real)
    ensures a * (x + y) == a * x + a * y
  {
  }

  /** In a loaded round the average lies between the least and the greatest figure of the loaded queues. */
  lemma AverageBetween(r: seq<Sample>, figure: Sample -> real, lo: real, hi: real)
    requires RxTotal(r) > 0
    requires forall i :: 0 <= i < |r| && r[i].rxPkts > 0 ==> lo <= figure(r[i]) <= hi
    ensures lo <= WeightedAverage(r, figure) <= hi
  {
    WeightedSumBounds(r, figure, lo, hi);
    QuotientBounds(WeightedSum(r, figure), RxTotal(r) as real, lo, hi);
  }

  lemma QuotientBounds(s: real, d: real, lo: real, hi: real)
    requires d > 0.0 && lo * d <= s <= hi * d
    ensures lo <= s / d <= hi
  {
    assert (s / d) * d == s;
    MulOrder(lo, s / d, d);
    MulOrder(s / d, hi, d);
  }

  lemma MulOrder(a: real, b: real, d: real)
    requires d > 0.0
    ensures a * d <= b * d <==> a <= b
  {
    assert b * d - a * d == (b - a) * d;
    if a <= b {
      assert (b - a) * d >= 0.0;
    } else {
      assert (a - b) * d > 0.0 && (b - a) * d == -((a - b) * d);
    }
  }

  // ----- Exactness

  /** Weighting a per-packet figure by its own packets gives the cycles back, except on idle queues. */
  lemma {:induction false} WeightedSumExact(r: seq<Sample>, cycles: Sample -> nat, figure: Sample -> real)
    requires forall i :: 0 <= i < |r| ==> figure(r[i]) == PerPacket(cycles(r[i]), r[i].rxPkts)
    ensures WeightedSum(r, figure) + IdleCycles(r, cycles) as real == Total(r, cycles) as real
  {
    if r == [] {
    } else {
      var i := |r| - 1;
      WeightedSumExact(r[..i], cycles, figure);
      TimesItsPackets(cycles(r[i]), r[i].rxPkts);
    }
  }

  lemma TimesItsPackets(c: nat, n: nat)
    ensures PerPacket(c, n) * n as real == if n == 0 then 0.0 else c as real
    ensures n == 0 ==> PerPacket(c, n) == 0.0
  {
  }

  /**
   * The average of per-packet figures over a loaded round is total cycles over total packets exactly
   * when no cycles were spent on queues that received nothing; otherwise it is smaller.
   */
  lemma AverageExactIff(r: seq<Sample>, cycles: Sample -> nat, figure: Sample -> real)
    requires RxTotal(r) > 0
    requires forall i :: 0 <= i < |r| ==> figure(r[i]) == PerPacket(cycles(r[i]), r[i].rxPkts)
    ensures WeightedAverage(r, figure) == PerPacket(Total(r, cycles), RxTotal(r)) <==> IdleCycles(r, cycles) == 0
    ensures WeightedAverage(r, figure) <= PerPacket(Total(r, cycles), RxTotal(r))
  {
    WeightedSumExact(r, cycles, figure);
    QuotientOrder(WeightedSum(r, figure), Total(r, cycles) as real, RxTotal(r) as real);
  }

  lemma QuotientOrder(a: real, b: real, d: real)
    requires d > 0.0
    ensures a / d == b / d <==> a == b
    ensures a / d <= b / d <==> a <= b
    ensures b / d <= a / d <==> b <= a
  {
    assert (a / d) * d == a && (b / d) * d == b;
    MulOrder(a / d, b / d, d);
    MulOrder(b / d, a / d, d);
  }

  // ----- Transmit cycles, divided by transmitted packets but weighted by received ones

  /** The cycles spent by queues that transmitted nothing. */
  function UnsentCycles(r: seq<Sample>, cycles: Sample -> nat): nat {
    if r == [] then 0
    else UnsentCycles(r[..|r| - 1], cycles) + if r[|r| - 1].txPkts == 0 then cycles(r[|r| - 1]) else 0
  }

  /** What weighting by received packets adds: one transmitted packet's cycles for each packet received but not sent. */
  function ExcessCycles(r: seq<Sample>, cycles: Sample -> nat): real {
    if r == [] then 0.0
    else ExcessCycles(r[..|r| - 1], cycles) + Excess(r[|r| - 1], cycles)
  }

  function Excess(s: Sample, cycles: Sample -> nat): real {
    PerPacket(cycles(s), s.txPkts) * (s.rxPkts as real - s.txPkts as real)
  }

  lemma {:induction false} TxWeightedSum(r: seq<Sample>, cycles: Sample -> nat, figure: Sample -> real)
    requires forall i :: 0 <= i < |r| ==> figure(r[i]) == PerPacket(cycles(r[i]), r[i].txPkts)
    ensures WeightedSum(r, figure) + UnsentCycles(r, cycles) as real
            == Total(r, cycles) as real + ExcessCycles(r, cycles)
  {
    if r == [] {
    } else {
      var i := |r| - 1;
      TxWeightedSum(r[..i], cycles, figure);
      TimesItsPackets(cycles(r[i]), r[i].txPkts);
      Distribute(figure(r[i]), r[i].txPkts as real, r[i].rxPkts as real - r[i].txPkts as real);
      hide PerPacket;
    }
  }

  /**
   * The average of transmit figures is total cycles over received packets exactly when what the
   * weighting adds makes up for the cycles of queues that transmitted nothing.
   */
  lemma TxAverageBalanceIff(r: seq<Sample>, cycles: Sample -> nat, figure: Sample -> real)
    requires RxTotal(r) > 0
    requires forall i :: 0 <= i < |r| ==> figure(r[i]) == PerPacket(cycles(r[i]), r[i].txPkts)
    ensures WeightedAverage(r, figure) == PerPacket(Total(r, cycles), RxTotal(r))
            <==> ExcessCycles(r, cycles) == UnsentCycles(r, cycles) as real
    ensures WeightedAverage(r, figure) >= PerPacket(Total(r, cycles), RxTotal(r))
            <==> ExcessCycles(r, cycles) >= UnsentCycles(r, cycles) as real
  {
    TxWeightedSum(r, cycles, figure);
    var a, b, d := WeightedSum(r, figure), Total(r, cycles) as real, RxTotal(r) as real;
    hide WeightedSum, Total, RxTotal, UnsentCycles, ExcessCycles;
    QuotientOrder(a, b, d);
  }

  /** Every queue with transmit cycles has sent all it received. */
  predicate SentAll(r: seq<Sample>, cycles: Sample -> nat) {
    forall i :: 0 <= i < |r| && cycles(r[i]) > 0 ==> r[i].txPkts == r[i].rxPkts
  }

  /** No queue sent more than it received, and none with transmit cycles sent nothing. */
  predicate SentSome(r: seq<Sample>, cycles: Sample -> nat) {
    forall i :: 0 <= i < |r| ==> r[i].txPkts <= r[i].rxPkts && (cycles(r[i]) > 0 ==> r[i].txPkts > 0)
  }

  lemma ExcessSign(s: Sample, cycles: Sample -> nat)
    requires s.txPkts <= s.rxPkts && (cycles(s) > 0 ==> s.txPkts > 0)
    ensures Excess(s, cycles) >= 0.0
    ensures Excess(s, cycles) == 0.0 <==> cycles(s) > 0 ==> s.txPkts == s.rxPkts
  {
    var c, t, more := cycles(s), s.txPkts, s.rxPkts as real - s.txPkts as real;
    if c == 0 {
      assert PerPacket(c, t) == 0.0;
    } else {
      TimesItsPackets(c, t);
      assert PerPacket(c, t) > 0.0;
      MulOrder(0.0, more, PerPacket(c, t));
      MulOrder(more, 0.0, PerPacket(c, t));
    }
  }

  lemma {:induction false} ExcessZeroIff(r: seq<Sample>, cycles: Sample -> nat)
    requires SentSome(r, cycles)
    ensures UnsentCycles(r, cycles) == 0 && ExcessCycles(r, cycles) >= 0.0
    ensures ExcessCycles(r, cycles) == 0.0 <==> SentAll(r, cycles)
  {
    if r == [] {
    } else {
      var front, last := r[..|r| - 1], r[|r| - 1];
      ExcessZeroIff(front, cycles);
      ExcessSign(last, cycles);
      hide Excess;
      assert SentAll(r, cycles) <==> SentAll(front, cycles) && (cycles(last) > 0 ==> last.txPkts == last.rxPkts) by {
        assert r == front + [last];
      }
    }
  }

  /**
   * Where no queue sent more than it received and none spent cycles on sending nothing, the average
   * of transmit figures is never below total cycles over received packets, and equals it exactly
   * when every queue with transmit cycles sent all it received.
   */
  lemma TxAverageExactIff(r: seq<Sample>, cycles: Sample -> nat, figure: Sample -> real)
    requires RxTotal(r) > 0 && SentSome(r, cycles)
    requires forall i :: 0 <= i < |r| ==> figure(r[i]) == PerPacket(cycles(r[i]), r[i].txPkts)
    ensures WeightedAverage(r, figure) >= PerPacket(Total(r, cycles), RxTotal(r))
    ensures WeightedAverage(r, figure) == PerPacket(Total(r, cycles), RxTotal(r)) <==> SentAll(r, cycles)
  {
    hide WeightedAverage, PerPacket, Total, RxTotal;
    TxAverageBalanceIff(r, cycles, figure);
    ExcessZeroIff(r, cycles);
  }

  // ----- One round's summary

  function RxMpps(s: Sample): real {
    s.rxMpps
  }

  function TxMpps(s: Sample): real {
    s.txMpps
  }

  function RateTotal(r: seq<Sample>, rate: Sample -> real): real {
    if r == [] then 0.0 else RateTotal(r[..|r| - 1], rate) + rate(r[|r| - 1])
  }

  function Sum(xs: seq<nat>): nat {
    if xs == [] then 0 else Sum(xs[..|xs| - 1]) + xs[|xs| - 1]
  }

  function SumOfRates(xs: seq<real>): real {
    if xs == [] then 0.0 else SumOfRates(xs[..|xs| - 1]) + xs[|xs| - 1]
  }

  lemma {:induction false} TotalOfColumn(r: seq<Sample>, count: Sample -> nat, xs: seq<nat>)
    requires |xs| == |r| && forall i :: 0 <= i < |r| ==> xs[i] == count(r[i])
    ensures Total(r, count) == Sum(xs)
  {
    if r == [] {
    } else {
      TotalOfColumn(r[..|r| - 1], count, xs[..|r| - 1]);
    }
  }

  lemma {:induction false} RatesOfColumn(r: seq<Sample>, rate: Sample -> real, xs: seq<real>)
    requires |xs| == |r| && forall i :: 0 <= i < |r| ==> xs[i] == rate(r[i])
    ensures RateTotal(r, rate) == SumOfRates(xs)
  {
    if r == [] {
    } else {
      RatesOfColumn(r[..|r| - 1], rate, xs[..|r| - 1]);
    }
  }

  /** Each total adds up its own column of the lines. */
  lemma TotalsOfColumns(r: seq<Sample>, rx: seq<nat>, tx: seq<nat>, drops: seq<nat>, rxRates: seq<real>,
                        txRates: seq<real>)
    requires |r| == |rx| == |tx| == |drops| == |rxRates| == |txRates|
    requires forall i :: 0 <= i < |r| ==> rx[i] == r[i].rxPkts && tx[i] == r[i].txPkts && drops[i] == r[i].txDrops
    requires forall i :: 0 <= i < |r| ==> rxRates[i] == r[i].rxMpps && txRates[i] == r[i].txMpps
    ensures RxTotal(r) == Sum(rx) && Total(r, TxPkts) == Sum(tx) && Total(r, TxDrops) == Sum(drops)
    ensures RateTotal(r, RxMpps) == SumOfRates(rxRates) && RateTotal(r, TxMpps) == SumOfRates(txRates)
  {
    hide Sum, SumOfRates, Total, RateTotal;
    TotalOfColumn(r, RxPkts, rx);
    TotalOfColumn(r, TxPkts, tx);
    TotalOfColumn(r, TxDrops, drops);
    RatesOfColumn(r, RxMpps, rxRates);
    RatesOfColumn(r, TxMpps, txRates);
  }

  /** The number of stages: receive, parse, rewrite, checksum, transmit, other. */
  const STAGES: nat := 6

  /** The numeric fields before the stage averages. */
  const LEADING: nat := 7

  /** The cycle figures of a sample: the total first, then one for each stage. */
  function Figure(k: nat): Sample -> real {
    (s: Sample) => if k < |s.cyclesPerPkt| then s.cyclesPerPkt[k] else 0.0
  }

  /** What `part` is of `whole` in percent; zero of nothing. */
  function Percentage(part: nat, whole: nat): (p: real)
    ensures p * whole as real == if whole == 0 then 0.0 else part as real * 100.0
    ensures whole == 0 ==> p == 0.0
  {
    if whole == 0 then 0.0
    else
      var d, x := part as real, whole as real;
      assert (d / x) * x == d;
      assert d / x * 100.0 * x == (d / x) * x * 100.0;
      d / x * 100.0
  }

  /**
   * summarize_round: rates, totals, the average of the total cycles, the drop percentage (zero without
   * received packets), and one average for each stage.
   */
  method SummarizeRound(r: seq<Sample>) returns (s: Selection.Summary)
    ensures s.rxPkts == RxTotal(r) && s.rxMpps == RateTotal(r, RxMpps)
    ensures s.dropPct * RxTotal(r) as real == if RxTotal(r) == 0 then 0.0 else Total(r, TxDrops) as real * 100.0
    ensures RxTotal(r) == 0 ==> s.dropPct == 0.0
    ensures |s.fields| == LEADING + STAGES
    ensures s.fields[..LEADING] == [s.rxMpps, RateTotal(r, TxMpps), s.rxPkts as real, Total(r, TxPkts) as real,
                                    Total(r, TxDrops) as real, WeightedAverage(r, Figure(0)), s.dropPct]
    ensures forall j :: LEADING <= j < LEADING + STAGES ==> s.fields[j] == WeightedAverage(r, Figure(j - LEADING + 1))
  {
    var rx, tx, drops, rxRate, txRate := 0, 0, 0, 0.0, 0.0;
    for i := 0 to |r|
      invariant rx == RxTotal(r[..i]) && tx == Total(r[..i], TxPkts) && drops == Total(r[..i], TxDrops)
      invariant rxRate == RateTotal(r[..i], RxMpps) && txRate == RateTotal(r[..i], TxMpps)
    {
      assert r[..i + 1][..i] == r[..i];
      rx, tx, drops := rx + r[i].rxPkts, tx + r[i].txPkts, drops + r[i].txDrops;
      rxRate, txRate := rxRate + r[i].rxMpps, txRate + r[i].txMpps;
    }
    assert r[..|r|] == r;
    var dropPct := Percentage(drops, rx);
    hide Percentage, WeightedAverage, Figure, Total, RxTotal, RateTotal;
    var leading := [rxRate, txRate, rx as real, tx as real, drops as real, WeightedAverage(r, Figure(0)), dropPct];
    var stages: seq<real> := [];
    for k := 0 to STAGES
      invariant |stages| == k && forall j :: 0 <= j < k ==> stages[j] == WeightedAverage(r, Figure(j + 1))
    {
      stages := stages + [WeightedAverage(r, Figure(k + 1))];
    }
    s := Selection.Summary(rx, rxRate, dropPct, leading + stages);
  }
}
