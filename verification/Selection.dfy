/** Choosing the rounds that stand for a log, and their field-wise median. */
module Selection {

  /** The summary of one round: what selection looks at, and its numeric fields in report order. */
  datatype Summary = Summary(rxPkts: nat, rxMpps: real, dropPct: real, fields: seq<real>)

  // ----- Stable sorting by a strict order

  /** A strict order in which incomparable elements count as equal. */
  ghost predicate StrictWeak<T(!new)>(lt: (T, T) -> bool) {
    && (forall x, y :: lt(x, y) ==> !lt(y, x))
    && (forall x, y, z :: !lt(x, y) && !lt(y, z) ==> !lt(x, z))
  }

  predicate Sorted<T>(lt: (T, T) -> bool, xs: seq<T>) {
    forall i, j :: 0 <= i < j < |xs| ==> !lt(xs[j], xs[i])
  }

  /** Inserts behind everything that does not have to come after it. */
  function Insert<T>(lt: (T, T) -> bool, xs: seq<T>, x: T): (ys: seq<T>)
    ensures |ys| == |xs| + 1
  {
    if xs == [] || !lt(x, xs[|xs| - 1]) then xs + [x]
    else Insert(lt, xs[..|xs| - 1], x) + [xs[|xs| - 1]]
  }

  /** A stable sort. */
  function SortBy<T>(lt: (T, T) -> bool, xs: seq<T>): (ys: seq<T>)
    ensures |ys| == |xs|
  {
    if xs == [] then [] else Insert(lt, SortBy(lt, xs[..|xs| - 1]), xs[|xs| - 1])
  }

  lemma {:induction false} InsertMultiset<T>(lt: (T, T) -> bool, xs: seq<T>, x: T)
    ensures multiset(Insert(lt, xs, x)) == multiset(xs) + multiset{x}
  {
    if xs == [] || !lt(x, xs[|xs| - 1]) {
    } else {
      var i := |xs| - 1;
      InsertMultiset(lt, xs[..i], x);
      assert xs == xs[..i] + [xs[i]];
    }
  }

  lemma {:induction false} SortMultiset<T>(lt: (T, T) -> bool, xs: seq<T>)
    ensures multiset(SortBy(lt, xs)) == multiset(xs)
  {
    if xs == [] {
    } else {
      var front, last := xs[..|xs| - 1], xs[|xs| - 1];
      SortMultiset(lt, front);
      InsertMultiset(lt, SortBy(lt, front), last);
      assert SortBy(lt, xs) == Insert(lt, SortBy(lt, front), last);
      hide SortBy, Insert;
      assert xs == front + [last];
    }
  }

  lemma {:induction false} InsertSorted<T(!new)>(lt: (T, T) -> bool, xs: seq<T>, x: T)
    requires StrictWeak(lt) && Sorted(lt, xs)
    ensures Sorted(lt, Insert(lt, xs, x))
  {
    if xs == [] {
    } else {
      var i := |xs| - 1;
      var last := xs[i];
      if lt(x, last) {
        InsertSorted(lt, xs[..i], x);
        var ys := Insert(lt, xs[..i], x);
        InsertMultiset(lt, xs[..i], x);
        forall k | 0 <= k < |ys|
          ensures !lt(last, ys[k])
        {
          assert ys[k] in multiset(ys);
          if ys[k] != x {
            assert ys[k] in xs[..i];
          }
        }
      }
    }
  }

  lemma {:induction false} SortSorted<T(!new)>(lt: (T, T) -> bool, xs: seq<T>)
    requires StrictWeak(lt)
    ensures Sorted(lt, SortBy(lt, xs))
  {
    if xs == [] {
    } else {
      SortSorted(lt, xs[..|xs| - 1]);
      InsertSorted(lt, SortBy(lt, xs[..|xs| - 1]), xs[|xs| - 1]);
    }
  }

  // ----- Stability

  /** Neither comes before the other. */
  predicate Tied<T>(lt: (T, T) -> bool, x: T, y: T) {
    !lt(x, y) && !lt(y, x)
  }

  /** The elements tied with `x`, in their order. */
  function Ties<T>(lt: (T, T) -> bool, xs: seq<T>, x: T): seq<T> {
    if xs == [] then []
    else
      var i := |xs| - 1;
      Ties(lt, xs[..i], x) + if Tied(lt, xs[i], x) then [xs[i]] else []
  }

  /** Tied elements come in the same order in both. */
  ghost predicate SameTies<T(!new)>(lt: (T, T) -> bool, xs: seq<T>, ys: seq<T>) {
    forall x :: Ties(lt, xs, x) == Ties(lt, ys, x)
  }

  lemma TiesSnoc<T>(lt: (T, T) -> bool, xs: seq<T>, y: T, x: T)
    ensures Ties(lt, xs + [y], x) == Ties(lt, xs, x) + if Tied(lt, y, x) then [y] else []
  {
    assert (xs + [y])[..|xs|] == xs;
  }

  lemma {:induction false} InsertTies<T(!new)>(lt: (T, T) -> bool, xs: seq<T>, y: T, x: T)
    requires StrictWeak(lt)
    ensures Ties(lt, Insert(lt, xs, y), x) == Ties(lt, xs + [y], x)
  {
    if xs == [] || !lt(y, xs[|xs| - 1]) {
    } else {
      var front, last := xs[..|xs| - 1], xs[|xs| - 1];
      InsertTies(lt, front, y, x);
      TiesSnoc(lt, Insert(lt, front, y), last, x);
      TiesSnoc(lt, front, y, x);
      TiesSnoc(lt, xs, y, x);
    }
  }

  /** Elements of which neither has to come first keep their order. */
  lemma {:induction false} SortStable<T(!new)>(lt: (T, T) -> bool, xs: seq<T>, x: T)
    requires StrictWeak(lt)
    ensures Ties(lt, SortBy(lt, xs), x) == Ties(lt, xs, x)
  {
    if xs == [] {
    } else {
      var front, last := xs[..|xs| - 1], xs[|xs| - 1];
      SortStable(lt, front, x);
      InsertTies(lt, SortBy(lt, front), last, x);
      TiesSnoc(lt, SortBy(lt, front), last, x);
    }
  }

  /** Being tied with something means being among its ties. */
  lemma {:induction false} TiesMember<T>(lt: (T, T) -> bool, xs: seq<T>, x: T, y: T)
    ensures y in Ties(lt, xs, x) <==> y in xs && Tied(lt, y, x)
  {
    if xs == [] {
    } else {
      var front, last := xs[..|xs| - 1], xs[|xs| - 1];
      TiesMember(lt, front, x, y);
      assert xs == front + [last];
    }
  }

  /** In sorted sequences with the same ties the last of one does not come before the last of the other. */
  lemma LastNotBefore<T(!new)>(lt: (T, T) -> bool, ys: seq<T>, zs: seq<T>)
    requires StrictWeak(lt) && Sorted(lt, zs) && ys != [] && SameTies(lt, ys, zs)
    ensures zs != [] && !lt(zs[|zs| - 1], ys[|ys| - 1])
  {
    var last := ys[|ys| - 1];
    TiesMember(lt, ys, last, last);
    TiesMember(lt, zs, last, last);
    hide Ties;
    assert last in zs;
  }

  /** Sorted sequences in which tied elements come in the same order are equal. */
  lemma {:induction false} SortedTiesUnique<T(!new)>(lt: (T, T) -> bool, ys: seq<T>, zs: seq<T>)
    requires StrictWeak(lt) && Sorted(lt, ys) && Sorted(lt, zs)
    requires SameTies(lt, ys, zs)
    ensures ys == zs
  {
    if ys == [] && zs == [] {
    } else if ys == [] {
      LastNotBefore(lt, zs, ys);
    } else {
      LastNotBefore(lt, ys, zs);
      LastNotBefore(lt, zs, ys);
      var front, last := ys[..|ys| - 1], ys[|ys| - 1];
      var front', last' := zs[..|zs| - 1], zs[|zs| - 1];
      assert ys == front + [last] && zs == front' + [last'];
      TiesSnoc(lt, front, last, last);
      TiesSnoc(lt, front', last', last);
      assert last == last' by {
        assert Tied(lt, last, last) && Tied(lt, last', last);
        assert Ties(lt, ys, last)[|Ties(lt, ys, last)| - 1] == last;
      }
      SameTiesFront(lt, front, front', last);
      hide SameTies;
      SortedTiesUnique(lt, front, front');
    }
  }

  lemma SameTiesFront<T(!new)>(lt: (T, T) -> bool, xs: seq<T>, ys: seq<T>, last: T)
    requires SameTies(lt, xs + [last], ys + [last])
    ensures SameTies(lt, xs, ys)
  {
    forall x
      ensures Ties(lt, xs, x) == Ties(lt, ys, x)
    {
      TiesSnoc(lt, xs, last, x);
      TiesSnoc(lt, ys, last, x);
      hide Ties;
      assert Ties(lt, xs + [last], x)[..|Ties(lt, xs, x)|] == Ties(lt, xs, x);
      assert Ties(lt, ys + [last], x)[..|Ties(lt, ys, x)|] == Ties(lt, ys, x);
    }
  }

  /** Being sorted with ties in their given order names the result: any such arrangement is the sort's. */
  lemma StableSortUnique<T(!new)>(lt: (T, T) -> bool, xs: seq<T>, ys: seq<T>)
    requires StrictWeak(lt)
    ensures ys == SortBy(lt, xs) <==> Sorted(lt, ys) && SameTies(lt, ys, xs)
  {
    SortSorted(lt, xs);
    forall x
      ensures Ties(lt, SortBy(lt, xs), x) == Ties(lt, xs, x)
    {
      SortStable(lt, xs, x);
    }
    hide Ties, SortBy, Sorted;
    if Sorted(lt, ys) && SameTies(lt, ys, xs) {
      SortedTiesUnique(lt, ys, SortBy(lt, xs));
    }
  }

  // ----- The selection

  predicate HigherRate(x: Summary, y: Summary) {
    x.rxMpps > y.rxMpps
  }

  /** Fewer drops first; among equals the higher rate first. */
  predicate FewerDrops(x: Summary, y: Summary) {
    x.dropPct < y.dropPct || (x.dropPct == y.dropPct && -x.rxMpps < -y.rxMpps)
  }

  function PeakRate(rounds: seq<Summary>): (peak: real)
    requires rounds != []
    ensures exists i :: 0 <= i < |rounds| && rounds[i].rxMpps == peak
    ensures forall i :: 0 <= i < |rounds| ==> rounds[i].rxMpps <= peak
  {
    var last := rounds[|rounds| - 1].rxMpps;
    if |rounds| == 1 then last
    else
      var before := PeakRate(rounds[..|rounds| - 1]);
      assert forall i :: 0 <= i < |rounds| - 1 ==> rounds[..|rounds| - 1][i] == rounds[i];
      if before >= last then before else last
  }

  function Filter(keep: Summary -> bool, rounds: seq<Summary>): (kept: seq<Summary>)
    ensures forall s :: s in kept <==> s in rounds && keep(s)
  {
    if rounds == [] then []
    else
      var i := |rounds| - 1;
      assert rounds == rounds[..i] + [rounds[i]];
      Filter(keep, rounds[..i]) + if keep(rounds[i]) then [rounds[i]] else []
  }

  /** Filtering keeps every occurrence of what it keeps, and nothing else. */
  lemma {:induction false} FilterCounts(keep: Summary -> bool, rounds: seq<Summary>, s: Summary)
    ensures multiset(Filter(keep, rounds))[s] == if keep(s) then multiset(rounds)[s] else 0
  {
    if rounds == [] {
    } else {
      var i := |rounds| - 1;
      FilterCounts(keep, rounds[..i], s);
      assert rounds == rounds[..i] + [rounds[i]];
    }
  }

  lemma FilterEmptyIff(keep: Summary -> bool, rounds: seq<Summary>)
    ensures Filter(keep, rounds) == [] <==> forall s :: s in rounds ==> !keep(s)
  {
    if Filter(keep, rounds) != [] {
      assert Filter(keep, rounds)[0] in Filter(keep, rounds);
    }
  }

  function RateAtLeast(bound: real): Summary -> bool {
    (s: Summary) => s.rxMpps >= bound
  }

  function DropsAtMost(bound: real): Summary -> bool {
    (s: Summary) => s.dropPct <= bound
  }

  /** The rate a round needs to count as high load. */
  function LoadThreshold(rounds: seq<Summary>, minRatio: real): real
    requires rounds != []
  {
    PeakRate(rounds) * minRatio
  }

  function HighLoad(rounds: seq<Summary>, minRatio: real): seq<Summary>
    requires rounds != []
  {
    var high := Filter(RateAtLeast(LoadThreshold(rounds, minRatio)), rounds);
    if high == [] then rounds else high
  }

  function Eligible(high: seq<Summary>, maxDropPct: real): seq<Summary> {
    Filter(DropsAtMost(maxDropPct), high)
  }

  function Limit(topN: int): nat {
    if topN > 1 then topN else 1
  }

  function Take<T>(xs: seq<T>, k: nat): seq<T> {
    if |xs| <= k then xs else xs[..k]
  }

  /** The rounds that stable-median selection takes. */
  function Picked(rounds: seq<Summary>, topN: int, maxDropPct: real, minRatio: real): seq<Summary>
    requires rounds != []
  {
    Take(Ranked(HighLoad(rounds, minRatio), maxDropPct), Limit(topN))
  }

  /** The candidates in the order in which they are taken: those within the drop limit, or all if there are none. */
  function Ranked(high: seq<Summary>, maxDropPct: real): seq<Summary> {
    var eligible := Eligible(high, maxDropPct);
    if eligible == [] then SortBy(FewerDrops, high) else SortBy(HigherRate, eligible)
  }

  lemma Threshold(peak: real, minRatio: real)
    requires peak >= 0.0
    ensures peak >= peak * minRatio <==> minRatio <= 1.0 || peak == 0.0
  {
    if minRatio <= 1.0 {
      assert peak * (1.0 - minRatio) >= 0.0;
    } else if peak > 0.0 {
      assert peak * (minRatio - 1.0) > 0.0;
    }
  }

  /** When the high-load threshold can be reached at all. */
  predicate Reachable(rounds: seq<Summary>, minRatio: real)
    requires rounds != []
  {
    minRatio <= 1.0 || PeakRate(rounds) == 0.0
  }

  /** With a ratio of at most one some round always reaches the high-load threshold; above one none does. */
  lemma HighLoadFallbackIff(rounds: seq<Summary>, minRatio: real)
    requires rounds != [] && forall i :: 0 <= i < |rounds| ==> rounds[i].rxMpps >= 0.0
    ensures (exists i :: 0 <= i < |rounds| && rounds[i].rxMpps >= LoadThreshold(rounds, minRatio))
            <==> Reachable(rounds, minRatio)
  {
    hide PeakRate, LoadThreshold;
    var i :| 0 <= i < |rounds| && rounds[i].rxMpps == PeakRate(rounds);
    PeakReachesThreshold(rounds, minRatio);
    assert PeakRate(rounds) >= LoadThreshold(rounds, minRatio) ==> rounds[i].rxMpps >= LoadThreshold(rounds, minRatio);
  }

  lemma PeakReachesThreshold(rounds: seq<Summary>, minRatio: real)
    requires rounds != [] && PeakRate(rounds) >= 0.0
    ensures PeakRate(rounds) >= LoadThreshold(rounds, minRatio) <==> minRatio <= 1.0 || PeakRate(rounds) == 0.0
  {
    hide PeakRate;
    Threshold(PeakRate(rounds), minRatio);
  }

  lemma OrdersStrictWeak()
    ensures StrictWeak(HigherRate) && StrictWeak(FewerDrops) && StrictWeak(Below)
  {
  }

  /** Some round reaches the ratio of the peak. */
  ghost predicate SomeReach(rounds: seq<Summary>, peak: real, minRatio: real) {
    exists i :: 0 <= i < |rounds| && rounds[i].rxMpps >= peak * minRatio
  }

  /** The round counts as high load: it reaches the ratio of the peak, unless no round does. */
  ghost predicate Loaded(rounds: seq<Summary>, peak: real, minRatio: real, s: Summary) {
    SomeReach(rounds, peak, minRatio) ==> s.rxMpps >= peak * minRatio
  }

  ghost predicate SomeWithinDrops(rounds: seq<Summary>, peak: real, minRatio: real, maxDropPct: real) {
    exists i :: 0 <= i < |rounds| && Loaded(rounds, peak, minRatio, rounds[i]) && rounds[i].dropPct <= maxDropPct
  }

  /** The peak is the greatest rate of a round. */
  ghost predicate IsPeak(rounds: seq<Summary>, peak: real) {
    && (exists i :: 0 <= i < |rounds| && rounds[i].rxMpps == peak)
    && forall i :: 0 <= i < |rounds| ==> rounds[i].rxMpps <= peak
  }

  /**
   * What stable-median selection promises of the rounds it takes and of the candidates it leaves:
   * between one and max(topN, 1) are taken, as many as there are. If a high-load round keeps the drop
   * limit, the candidates are the ones that do, and none of those left has a higher rate than one
   * taken; else they are all high-load rounds, and the taken ones have fewer drops, or as many and a
   * rate at least as high.
   */
  ghost predicate RightlyPicked(rounds: seq<Summary>, topN: int, maxDropPct: real, minRatio: real, peak: real,
                                picked: seq<Summary>, others: seq<Summary>) {
    && IsPeak(rounds, peak)
    && 1 <= |picked| && (|picked| <= topN || |picked| == 1)
    && (others != [] ==> |picked| >= topN)
    && if SomeWithinDrops(rounds, peak, minRatio, maxDropPct) then
         && (forall s :: multiset(picked + others)[s]
                         == if Loaded(rounds, peak, minRatio, s) && s.dropPct <= maxDropPct then multiset(rounds)[s]
                            else 0)
         && forall i, j :: 0 <= i < |picked| && 0 <= j < |others| ==> others[j].rxMpps <= picked[i].rxMpps
       else
         && (forall s :: multiset(picked + others)[s]
                         == if Loaded(rounds, peak, minRatio, s) then multiset(rounds)[s] else 0)
         && forall i, j :: 0 <= i < |picked| && 0 <= j < |others| ==>
              || picked[i].dropPct < others[j].dropPct
              || (picked[i].dropPct == others[j].dropPct && picked[i].rxMpps >= others[j].rxMpps)
  }

  /** The high-load rounds are all occurrences of those that count as such. */
  lemma HighLoadCounts(rounds: seq<Summary>, minRatio: real, s: Summary)
    requires rounds != []
    ensures multiset(HighLoad(rounds, minRatio))[s]
            == if Loaded(rounds, PeakRate(rounds), minRatio, s) then multiset(rounds)[s] else 0
  {
    hide PeakRate, Filter;
    var bound := LoadThreshold(rounds, minRatio);
    FilterCounts(RateAtLeast(bound), rounds, s);
    FilterEmptyIff(RateAtLeast(bound), rounds);
    assert SomeReach(rounds, PeakRate(rounds), minRatio) <==> exists x :: x in rounds && x.rxMpps >= bound;
  }

  lemma HighLoadNonempty(rounds: seq<Summary>, minRatio: real)
    requires rounds != []
    ensures HighLoad(rounds, minRatio) != []
    ensures forall s :: s in HighLoad(rounds, minRatio) ==> s in rounds
  {
    hide Filter, LoadThreshold;
  }

  /** The ranking, in terms of drops and rates. */
  lemma RankedSound(high: seq<Summary>, maxDropPct: real)
    requires high != []
    ensures var r := Ranked(high, maxDropPct);
            && r != [] && (forall s :: s in r ==> s in high)
            && if exists s :: s in high && s.dropPct <= maxDropPct then
                 && (forall s :: multiset(r)[s] == if s.dropPct <= maxDropPct then multiset(high)[s] else 0)
                 && forall i, j :: 0 <= i < j < |r| ==> r[j].rxMpps <= r[i].rxMpps
               else
                 && multiset(r) == multiset(high)
                 && forall i, j :: 0 <= i < j < |r| ==>
                      r[i].dropPct < r[j].dropPct || (r[i].dropPct == r[j].dropPct && r[i].rxMpps >= r[j].rxMpps)
  {
    OrdersStrictWeak();
    hide Filter, SortBy, StrictWeak;
    var eligible, r := Eligible(high, maxDropPct), Ranked(high, maxDropPct);
    FilterEmptyIff(DropsAtMost(maxDropPct), high);
    forall s: Summary
      ensures multiset(eligible)[s] == if s.dropPct <= maxDropPct then multiset(high)[s] else 0
    {
      FilterCounts(DropsAtMost(maxDropPct), high, s);
    }
    SortMultiset(FewerDrops, high);
    SortMultiset(HigherRate, eligible);
    SortSorted(FewerDrops, high);
    SortSorted(HigherRate, eligible);
    forall s | s in r
      ensures s in high
    {
      assert s in multiset(r);
      assert s in multiset(high);
    }
  }

  /** Whether high-load rounds keep the drop limit, said of the rounds they come from. */
  lemma SameCondition(rounds: seq<Summary>, minRatio: real, maxDropPct: real)
    requires rounds != []
    ensures SomeWithinDrops(rounds, PeakRate(rounds), minRatio, maxDropPct)
            <==> exists s :: s in HighLoad(rounds, minRatio) && s.dropPct <= maxDropPct
  {
    var peak, high := PeakRate(rounds), HighLoad(rounds, minRatio);
    hide PeakRate, HighLoad, Loaded;
    forall s: Summary
      ensures s in high <==> s in rounds && Loaded(rounds, peak, minRatio, s)
    {
      HighLoadCounts(rounds, minRatio, s);
      assert s in high <==> s in multiset(high);
      assert s in rounds <==> s in multiset(rounds);
    }
  }

  /** The selection keeps that promise, for any parameters; `others` follow the taken ones in the ranking. */
  lemma PickedSound(rounds: seq<Summary>, topN: int, maxDropPct: real, minRatio: real) returns (others: seq<Summary>)
    requires rounds != []
    ensures RightlyPicked(rounds, topN, maxDropPct, minRatio, PeakRate(rounds),
                          Picked(rounds, topN, maxDropPct, minRatio), others)
    ensures Picked(rounds, topN, maxDropPct, minRatio) + others == Ranked(HighLoad(rounds, minRatio), maxDropPct)
  {
    hide HighLoad, Ranked, RightlyPicked, PeakRate, GoodRanking;
    var peak, high := PeakRate(rounds), HighLoad(rounds, minRatio);
    var ranked, picked := Ranked(high, maxDropPct), Picked(rounds, topN, maxDropPct, minRatio);
    others := ranked[|picked|..];
    RankingGood(rounds, maxDropPct, minRatio);
    SplitRightly(rounds, topN, maxDropPct, minRatio, peak, ranked, |picked|);
    assert ranked[..|picked|] == picked;
  }

  ghost predicate RatesFall(ranked: seq<Summary>) {
    forall i, j :: 0 <= i < j < |ranked| ==> ranked[j].rxMpps <= ranked[i].rxMpps
  }

  ghost predicate DropsRise(ranked: seq<Summary>) {
    forall i, j :: 0 <= i < j < |ranked| ==>
      || ranked[i].dropPct < ranked[j].dropPct
      || (ranked[i].dropPct == ranked[j].dropPct && ranked[i].rxMpps >= ranked[j].rxMpps)
  }

  /** The candidates, in an order of falling rate, or of rising drops and then falling rate. */
  ghost predicate GoodRanking(rounds: seq<Summary>, maxDropPct: real, minRatio: real, peak: real,
                              ranked: seq<Summary>) {
    if SomeWithinDrops(rounds, peak, minRatio, maxDropPct) then
      && (forall s :: multiset(ranked)[s] == if Loaded(rounds, peak, minRatio, s) && s.dropPct <= maxDropPct
                                             then multiset(rounds)[s] else 0)
      && RatesFall(ranked)
    else
      && (forall s :: multiset(ranked)[s] == if Loaded(rounds, peak, minRatio, s) then multiset(rounds)[s] else 0)
      && DropsRise(ranked)
  }

  lemma RankingGood(rounds: seq<Summary>, maxDropPct: real, minRatio: real)
    requires rounds != []
    ensures IsPeak(rounds, PeakRate(rounds))
    ensures var ranked := Ranked(HighLoad(rounds, minRatio), maxDropPct);
            ranked != [] && GoodRanking(rounds, maxDropPct, minRatio, PeakRate(rounds), ranked)
  {
    hide HighLoad, Loaded, Ranked, SomeWithinDrops, PeakRate;
    var peak, high := PeakRate(rounds), HighLoad(rounds, minRatio);
    HighLoadNonempty(rounds, minRatio);
    RankedSound(high, maxDropPct);
    SameCondition(rounds, minRatio, maxDropPct);
    forall s: Summary
      ensures multiset(high)[s] == if Loaded(rounds, peak, minRatio, s) then multiset(rounds)[s] else 0
    {
      HighLoadCounts(rounds, minRatio, s);
    }
  }

  /** The beginning of a good ranking is rightly picked. */
  lemma SplitRightly(rounds: seq<Summary>, topN: int, maxDropPct: real, minRatio: real, peak: real,
                     ranked: seq<Summary>, k: nat)
    requires IsPeak(rounds, peak) && 1 <= k <= |ranked| && (k <= topN || k == 1) && (k < |ranked| ==> k >= topN)
    requires GoodRanking(rounds, maxDropPct, minRatio, peak, ranked)
    ensures RightlyPicked(rounds, topN, maxDropPct, minRatio, peak, ranked[..k], ranked[k..])
  {
    hide IsPeak, SomeWithinDrops, Loaded, RatesFall, DropsRise;
    assert ranked[..k] + ranked[k..] == ranked;
    if SomeWithinDrops(rounds, peak, minRatio, maxDropPct) {
      RatesSplit(ranked, k);
    } else {
      DropsSplit(ranked, k);
    }
  }

  lemma RatesSplit(ranked: seq<Summary>, k: nat)
    requires RatesFall(ranked) && k <= |ranked|
    ensures forall i, j :: 0 <= i < k && 0 <= j < |ranked| - k ==> ranked[k..][j].rxMpps <= ranked[..k][i].rxMpps
  {
  }

  lemma DropsSplit(ranked: seq<Summary>, k: nat)
    requires DropsRise(ranked) && k <= |ranked|
    ensures forall i, j :: 0 <= i < k && 0 <= j < |ranked| - k ==>
      var x, y := ranked[..k][i], ranked[k..][j];
      x.dropPct < y.dropPct || (x.dropPct == y.dropPct && x.rxMpps >= y.rxMpps)
  {
  }

  // ----- Which of equally good rounds are taken

  function All(a: Summary -> bool, b: Summary -> bool): Summary -> bool {
    (s: Summary) => a(s) && b(s)
  }

  function RateIs(rate: real): Summary -> bool {
    (s: Summary) => s.rxMpps == rate
  }

  function DropsAre(drops: real): Summary -> bool {
    (s: Summary) => s.dropPct == drops
  }

  lemma {:induction false} FilterTwice(a: Summary -> bool, b: Summary -> bool, xs: seq<Summary>)
    ensures Filter(a, Filter(b, xs)) == Filter(All(a, b), xs)
  {
    if xs == [] {
    } else {
      var front, last := xs[..|xs| - 1], xs[|xs| - 1];
      FilterTwice(a, b, front);
      if b(last) {
        FilterSnoc(a, Filter(b, front), last);
      } else {
        assert Filter(b, front) + [] == Filter(b, front);
      }
    }
  }

  lemma FilterSnoc(keep: Summary -> bool, xs: seq<Summary>, x: Summary)
    ensures Filter(keep, xs + [x]) == Filter(keep, xs) + if keep(x) then [x] else []
  {
    assert (xs + [x])[..|xs|] == xs;
  }

  lemma {:induction false} TiesAreFiltered(lt: (Summary, Summary) -> bool, xs: seq<Summary>, x: Summary,
                                           keep: Summary -> bool)
    requires forall s :: keep(s) <==> Tied(lt, s, x)
    ensures Ties(lt, xs, x) == Filter(keep, xs)
  {
    if xs == [] {
    } else {
      TiesAreFiltered(lt, xs[..|xs| - 1], x, keep);
    }
  }

  /**
   * Among equally good rounds the earlier ones are taken: in the ranking, of which the picked rounds
   * are the beginning, rounds of the same rate, or of the same drops and rate, keep the log's order.
   */
  lemma RankedInLogOrder(high: seq<Summary>, maxDropPct: real, drops: real, rate: real)
    ensures var r := Ranked(high, maxDropPct);
            if exists s :: s in high && s.dropPct <= maxDropPct
            then Filter(RateIs(rate), r) == Filter(All(RateIs(rate), DropsAtMost(maxDropPct)), high)
            else Filter(All(DropsAre(drops), RateIs(rate)), r) == Filter(All(DropsAre(drops), RateIs(rate)), high)
  {
    OrdersStrictWeak();
    hide SortBy, StrictWeak, Filter, Ties;
    var eligible, x := Eligible(high, maxDropPct), Summary(0, rate, drops, []);
    FilterEmptyIff(DropsAtMost(maxDropPct), high);
    if eligible != [] {
      SortStable(HigherRate, eligible, x);
      TiesAreFiltered(HigherRate, SortBy(HigherRate, eligible), x, RateIs(rate));
      TiesAreFiltered(HigherRate, eligible, x, RateIs(rate));
      FilterTwice(RateIs(rate), DropsAtMost(maxDropPct), high);
    } else {
      SortStable(FewerDrops, high, x);
      TiesAreFiltered(FewerDrops, SortBy(FewerDrops, high), x, All(DropsAre(drops), RateIs(rate)));
      TiesAreFiltered(FewerDrops, high, x, All(DropsAre(drops), RateIs(rate)));
    }
  }

  // ----- The median

  predicate Below(x: real, y: real) {
    x < y
  }

  /** statistics.median */
  function Median(xs: seq<real>): real
    requires xs != []
  {
    var ys, n := SortBy(Below, xs), |xs|;
    if n % 2 == 1 then ys[n / 2] else (ys[n / 2 - 1] + ys[n / 2]) / 2.0
  }

  lemma SortedReals(xs: seq<real>)
    ensures multiset(SortBy(Below, xs)) == multiset(xs)
    ensures forall i, j :: 0 <= i < j < |xs| ==> SortBy(Below, xs)[i] <= SortBy(Below, xs)[j]
  {
    OrdersStrictWeak();
    SortMultiset(Below, xs);
    SortSorted(Below, xs);
  }

  /** The median lies between the two middle values, so at most half of the values are on either side. */
  lemma MedianBetween(xs: seq<real>)
    requires xs != []
    ensures var ys, n := SortBy(Below, xs), |xs|;
            && (forall i :: 0 <= i <= (n - 1) / 2 ==> ys[i] <= Median(xs))
            && (forall i :: n / 2 <= i < n ==> Median(xs) <= ys[i])
    ensures exists i :: 0 <= i < |xs| && xs[i] <= Median(xs)
    ensures exists i :: 0 <= i < |xs| && Median(xs) <= xs[i]
  {
    SortedReals(xs);
    hide SortBy;
    var ys, n := SortBy(Below, xs), |xs|;
    MiddleBetween(ys, n, Median(xs));
    var i := SameElement(ys, xs, 0);
    var j := SameElement(ys, xs, n - 1);
    assert xs[i] <= Median(xs) <= xs[j];
  }

  /** The middle of any sorted arrangement, or the mean of its two middles. */
  lemma MedianExact(xs: seq<real>, ys: seq<real>)
    requires xs != [] && multiset(ys) == multiset(xs)
    requires forall i, j :: 0 <= i < j < |ys| ==> ys[i] <= ys[j]
    ensures |ys| == |xs|
    ensures |xs| % 2 == 1 ==> Median(xs) == ys[|xs| / 2]
    ensures |xs| % 2 == 0 ==> 2.0 * Median(xs) == ys[|xs| / 2 - 1] + ys[|xs| / 2]
  {
    SortedReals(xs);
    hide SortBy;
    SortedUnique(SortBy(Below, xs), ys);
  }

  lemma MiddleBetween(ys: seq<real>, n: nat, m: real)
    requires |ys| == n > 0 && forall i, j :: 0 <= i < j < n ==> ys[i] <= ys[j]
    requires m == if n % 2 == 1 then ys[n / 2] else (ys[n / 2 - 1] + ys[n / 2]) / 2.0
    ensures forall i :: 0 <= i <= (n - 1) / 2 ==> ys[i] <= m
    ensures forall i :: n / 2 <= i < n ==> m <= ys[i]
  {
    if n % 2 == 0 {
      assert ys[n / 2 - 1] <= ys[n / 2];
      assert ys[n / 2 - 1] <= m <= ys[n / 2];
    }
  }

  /** Sequences with the same elements: each element of one is at some position of the other. */
  lemma SameElement(xs: seq<real>, ys: seq<real>, i: nat) returns (j: nat)
    requires multiset(xs) == multiset(ys) && i < |xs|
    ensures j < |ys| && ys[j] == xs[i]
  {
    assert xs[i] in multiset(xs);
    assert xs[i] in multiset(ys);
    assert xs[i] in ys;
    j :| 0 <= j < |ys| && ys[j] == xs[i];
  }

  /** The order of the rounds does not matter for a median. */
  lemma MedianOrderFree(xs: seq<real>, ys: seq<real>)
    requires xs != [] && ys != [] && multiset(xs) == multiset(ys)
    ensures Median(xs) == Median(ys)
  {
    SortedReals(xs);
    SortedReals(ys);
    hide SortBy;
    SortedUnique(SortBy(Below, xs), SortBy(Below, ys));
    assert |xs| == |SortBy(Below, xs)| && |ys| == |SortBy(Below, ys)|;
  }

  lemma WithoutLast(xs: seq<real>)
    requires xs != []
    ensures multiset(xs[..|xs| - 1]) == multiset(xs) - multiset{xs[|xs| - 1]}
  {
    assert xs == xs[..|xs| - 1] + [xs[|xs| - 1]];
  }

  lemma SameLast(xs: seq<real>, ys: seq<real>)
    requires forall i, j :: 0 <= i < j < |xs| ==> xs[i] <= xs[j]
    requires xs != [] && ys != [] && multiset(xs) == multiset(ys)
    ensures ys[|ys| - 1] <= xs[|xs| - 1]
  {
    var j := SameElement(ys, xs, |ys| - 1);
  }

  lemma {:induction false} SortedUnique(xs: seq<real>, ys: seq<real>)
    requires forall i, j :: 0 <= i < j < |xs| ==> xs[i] <= xs[j]
    requires forall i, j :: 0 <= i < j < |ys| ==> ys[i] <= ys[j]
    requires multiset(xs) == multiset(ys)
    ensures xs == ys
  {
    assert |multiset(xs)| == |xs| && |multiset(ys)| == |ys|;
    if xs == [] {
    } else {
      SameLast(xs, ys);
      SameLast(ys, xs);
      var front, front' := xs[..|xs| - 1], ys[..|ys| - 1];
      assert multiset(front) == multiset(front') by {
        WithoutLast(xs);
        WithoutLast(ys);
      }
      SortedUnique(front, front');
      assert xs == front + [xs[|xs| - 1]] && ys == front' + [ys[|ys| - 1]];
    }
  }

  function Column(rounds: seq<Summary>, k: nat): (xs: seq<real>)
    requires forall i :: 0 <= i < |rounds| ==> k < |rounds[i].fields|
    ensures |xs| == |rounds|
  {
    seq(|rounds|, i requires 0 <= i < |rounds| => rounds[i].fields[k])
  }

  /** median_summaries: one median per numeric field, each between two of the selected rounds. */
  method MedianSummaries(rounds: seq<Summary>, fieldCount: nat) returns (medians: seq<real>)
    requires rounds != [] && forall i :: 0 <= i < |rounds| ==> |rounds[i].fields| == fieldCount
    ensures |medians| == fieldCount
    ensures forall k :: 0 <= k < fieldCount ==> medians[k] == Median(Column(rounds, k))
    ensures forall k :: 0 <= k < fieldCount ==>
      && (exists i :: 0 <= i < |rounds| && rounds[i].fields[k] <= medians[k])
      && (exists i :: 0 <= i < |rounds| && medians[k] <= rounds[i].fields[k])
  {
    medians := [];
    for k := 0 to fieldCount
      invariant |medians| == k
      invariant forall j :: 0 <= j < k ==> medians[j] == Median(Column(rounds, j))
    {
      medians := medians + [Median(Column(rounds, k))];
    }
    forall k | 0 <= k < fieldCount
      ensures exists i :: 0 <= i < |rounds| && rounds[i].fields[k] <= medians[k]
      ensures exists i :: 0 <= i < |rounds| && medians[k] <= rounds[i].fields[k]
    {
      var xs := Column(rounds, k);
      MedianBetween(xs);
      var i :| 0 <= i < |xs| && xs[i] <= Median(xs);
      var j :| 0 <= j < |xs| && Median(xs) <= xs[j];
      assert rounds[i].fields[k] <= medians[k] && medians[k] <= rounds[j].fields[k];
    }
  }

  // ----- The peak selection

  /** max() with the pair of packets and rate as key: the first of the greatest. */
  method ChoosePeak(rounds: seq<Summary>) returns (best: nat)
    requires rounds != []
    ensures best < |rounds| && IsFirstBusiest(rounds, best)
  {
    best := 0;
    for i := 1 to |rounds|
      invariant best < i
      invariant forall k :: 0 <= k < i ==>
        || rounds[k].rxPkts < rounds[best].rxPkts
        || (rounds[k].rxPkts == rounds[best].rxPkts && rounds[k].rxMpps <= rounds[best].rxMpps)
      invariant forall k :: 0 <= k < best ==>
        || rounds[k].rxPkts < rounds[best].rxPkts
        || (rounds[k].rxPkts == rounds[best].rxPkts && rounds[k].rxMpps < rounds[best].rxMpps)
    {
      var x, y := rounds[i], rounds[best];
      if x.rxPkts > y.rxPkts || (x.rxPkts == y.rxPkts && x.rxMpps > y.rxMpps) {
        best := i;
      }
    }
  }

  /** No round has more packets, or as many and a higher rate, and no earlier one has as many of both. */
  ghost predicate IsFirstBusiest(rounds: seq<Summary>, best: nat)
    requires best < |rounds|
  {
    && (forall i :: 0 <= i < |rounds| ==>
          || rounds[i].rxPkts < rounds[best].rxPkts
          || (rounds[i].rxPkts == rounds[best].rxPkts && rounds[i].rxMpps <= rounds[best].rxMpps))
    && (forall i :: 0 <= i < best ==>
          || rounds[i].rxPkts < rounds[best].rxPkts
          || (rounds[i].rxPkts == rounds[best].rxPkts && rounds[i].rxMpps < rounds[best].rxMpps))
  }

  // ----- The whole choice

  datatype Choice = Peak | StableMedian

  /** Only given rounds are taken. */
  lemma PickedAmongRounds(rounds: seq<Summary>, topN: int, maxDropPct: real, minRatio: real)
    requires rounds != []
    ensures forall s :: s in Picked(rounds, topN, maxDropPct, minRatio) ==> s in rounds
  {
    HighLoadNonempty(rounds, minRatio);
    RankedSound(HighLoad(rounds, minRatio), maxDropPct);
    hide HighLoad, Ranked;
  }

  /**
   * choose_round_summary: the fields of the first busiest round, or the field-wise medians over rounds
   * that are rightly picked.
   */
  method ChooseRoundSummary(rounds: seq<Summary>, choice: Choice, topN: int, maxDropPct: real, minRatio: real,
                            fieldCount: nat)
    returns (fields: seq<real>, ghost picked: seq<Summary>, ghost others: seq<Summary>)
    requires rounds != [] && forall i :: 0 <= i < |rounds| ==> |rounds[i].fields| == fieldCount
    ensures |fields| == fieldCount
    ensures choice == Peak ==>
      exists b :: 0 <= b < |rounds| && fields == rounds[b].fields && IsFirstBusiest(rounds, b)
    ensures choice == StableMedian ==>
      && RightlyPicked(rounds, topN, maxDropPct, minRatio, PeakRate(rounds), picked, others)
      && (forall i :: 0 <= i < |picked| ==> |picked[i].fields| == fieldCount)
      && forall k :: 0 <= k < fieldCount ==> fields[k] == Median(Column(picked, k))
  {
    hide Picked, Median, RightlyPicked, IsFirstBusiest, PeakRate, Ranked, HighLoad;
    picked, others := [], [];
    if choice == Peak {
      var best := ChoosePeak(rounds);
      fields := rounds[best].fields;
      return;
    }
    PickedAmongRounds(rounds, topN, maxDropPct, minRatio);
    var chosen := Picked(rounds, topN, maxDropPct, minRatio);
    picked := chosen;
    others := PickedSound(rounds, topN, maxDropPct, minRatio);
    forall i | 0 <= i < |picked|
      ensures |picked[i].fields| == fieldCount
    {
      assert picked[i] in rounds;
    }
    assert chosen != [] by {
      RightlyNonempty(rounds, topN, maxDropPct, minRatio, picked, others);
    }
    fields := MedianSummaries(chosen, fieldCount);
  }

  lemma RightlyNonempty(rounds: seq<Summary>, topN: int, maxDropPct: real, minRatio: real, picked: seq<Summary>,
                        others: seq<Summary>)
    requires rounds != [] && RightlyPicked(rounds, topN, maxDropPct, minRatio, PeakRate(rounds), picked, others)
    ensures picked != []
  {
  }
}
