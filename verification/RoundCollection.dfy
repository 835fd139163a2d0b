/** Regrouping the interleaved per-queue report lines of a log into complete rounds. */
module RoundCollection {

  /** One parsed report line: its queue, its packet counts, its rates and its per-packet cycle figures. */
  datatype Sample = Sample(queueId: nat, rxPkts: nat, txPkts: nat, txDrops: nat,
                           rxMpps: real, txMpps: real, cyclesPerPkt: seq<real>, lineNo: nat)

  /** The queue ids below `n`. */
  function Expected(n: nat): (ids: set<nat>)
    ensures |ids| == n && forall q: nat :: q in ids <==> q < n
  {
    if n == 0 then {} else Expected(n - 1) + {n - 1}
  }

  function QueueIds(r: seq<Sample>): set<nat> {
    if r == [] then {} else QueueIds(r[..|r| - 1]) + {r[|r| - 1].queueId}
  }

  predicate DistinctQueues(r: seq<Sample>) {
    forall i, j :: 0 <= i < j < |r| ==> r[i].queueId != r[j].queueId
  }

  /** A complete round: every queue id below `n` once, and nothing else. */
  predicate Complete(n: nat, r: seq<Sample>) {
    DistinctQueues(r) && QueueIds(r) == Expected(n)
  }

  // ----- The scan

  /** The scan after some samples; `starts` are the positions where the returned rounds begin. */
  datatype Scan = Scan(rounds: seq<seq<Sample>>, current: seq<Sample>, seen: set<nat>, starts: seq<nat>)

  /** One sample, at position `at`. */
  function Step(n: nat, s: Scan, x: Sample, at: nat): Scan
    requires |s.current| <= at
  {
    if x.queueId in s.seen then
      var t := if s.seen == Expected(n)
               then s.(rounds := s.rounds + [s.current], starts := s.starts + [at - |s.current|])
               else s;
      t.(current := [x], seen := {x.queueId})
    else
      var current, seen := s.current + [x], s.seen + {x.queueId};
      if seen == Expected(n) then
        Scan(s.rounds + [current], [], {}, s.starts + [at - |s.current|])
      else
        s.(current := current, seen := seen)
  }

  function ScanAll(n: nat, xs: seq<Sample>): (s: Scan)
    ensures |s.current| <= |xs|
  {
    if xs == [] then Scan([], [], {}, [])
    else
      var i := |xs| - 1;
      Step(n, ScanAll(n, xs[..i]), xs[i], i)
  }

  /** collect_rounds */
  method CollectRounds(samples: seq<Sample>, n: nat) returns (rounds: seq<seq<Sample>>)
    ensures rounds == ScanAll(n, samples).rounds
  {
    rounds := [];
    var current: seq<Sample> := [];
    var seen: set<nat> := {};
    var expected := Expected(n);
    for i := 0 to |samples|
      invariant var s := ScanAll(n, samples[..i]); rounds == s.rounds && current == s.current && seen == s.seen
    {
      assert samples[..i + 1][..i] == samples[..i];
      var sample := samples[i];
      if sample.queueId in seen {
        if seen == expected {
          rounds := rounds + [current];
        }
        current := [sample];
        seen := {sample.queueId};
      } else {
        current := current + [sample];
        seen := seen + {sample.queueId};
        if seen == expected {
          rounds := rounds + [current];
          current := [];
          seen := {};
        }
      }
    }
    assert samples[..|samples|] == samples;
  }

  // ----- What is returned

  predicate BlockAt(xs: seq<Sample>, start: nat, r: seq<Sample>) {
    start + |r| <= |xs| && xs[start..start + |r|] == r
  }

  /** The rounds are complete contiguous blocks of the input, disjoint, in input order, and end by `end`. */
  ghost predicate Blocks(n: nat, xs: seq<Sample>, rounds: seq<seq<Sample>>, starts: seq<nat>, end: nat) {
    && |starts| == |rounds|
    && (forall i :: 0 <= i < |rounds| ==>
          Complete(n, rounds[i]) && BlockAt(xs, starts[i], rounds[i]) && starts[i] + |rounds[i]| <= end)
    && (forall i, j :: 0 <= i < j < |rounds| ==> starts[i] + |rounds[i]| <= starts[j])
  }

  /** The samples being collected are the last ones read, all of different queues. */
  ghost predicate ScanInvariant(n: nat, xs: seq<Sample>, s: Scan) {
    && |s.current| <= |xs| && BlockAt(xs, |xs| - |s.current|, s.current)
    && DistinctQueues(s.current) && s.seen == QueueIds(s.current)
    && Blocks(n, xs, s.rounds, s.starts, |xs| - |s.current|)
  }

  lemma BlocksExtend(n: nat, xs: seq<Sample>, x: Sample, rounds: seq<seq<Sample>>, starts: seq<nat>,
                     end: nat, end': nat)
    requires Blocks(n, xs, rounds, starts, end) && end <= end'
    ensures Blocks(n, xs + [x], rounds, starts, end')
  {
    hide Complete;
    forall i | 0 <= i < |rounds|
      ensures BlockAt(xs + [x], starts[i], rounds[i])
    {
      assert BlockAt(xs, starts[i], rounds[i]);
    }
  }

  lemma BlocksAppend(n: nat, xs: seq<Sample>, rounds: seq<seq<Sample>>, starts: seq<nat>,
                     start: nat, r: seq<Sample>, end: nat)
    requires Blocks(n, xs, rounds, starts, start) && Complete(n, r)
    requires BlockAt(xs, start, r) && start + |r| <= end
    ensures Blocks(n, xs, rounds + [r], starts + [start], end)
  {
    hide Complete, BlockAt;
  }

  /** Membership in the recursively collected id set. */
  lemma {:induction false} QueueIdsMember(r: seq<Sample>, q: nat)
    ensures q in QueueIds(r) <==> exists i :: 0 <= i < |r| && r[i].queueId == q
  {
    if r == [] {
    } else {
      var i := |r| - 1;
      QueueIdsMember(r[..i], q);
      if k :| 0 <= k < |r| && r[k].queueId == q {
        assert k < i ==> r[..i][k].queueId == q;
      }
    }
  }

  lemma QueueIdsExtend(r: seq<Sample>, x: Sample)
    ensures QueueIds(r + [x]) == QueueIds(r) + {x.queueId}
    ensures DistinctQueues(r) && x.queueId !in QueueIds(r) ==> DistinctQueues(r + [x])
  {
    assert (r + [x])[..|r|] == r;
    QueueIdsMember(r, x.queueId);
  }

  lemma ContinueInvariant(n: nat, xs: seq<Sample>, s: Scan, x: Sample)
    requires ScanInvariant(n, xs, s) && x.queueId !in s.seen
    ensures ScanInvariant(n, xs + [x], Step(n, s, x, |xs|))
  {
    var ys, start, current := xs + [x], |xs| - |s.current|, s.current + [x];
    QueueIdsExtend(s.current, x);
    BlocksExtend(n, xs, x, s.rounds, s.starts, start, start);
    assert BlockAt(ys, start, current);
    hide QueueIds, Expected, Blocks;
    if s.seen + {x.queueId} == Expected(n) {
      BlocksAppend(n, ys, s.rounds, s.starts, start, current, |ys|);
      NothingCollected(ys);
    }
  }

  lemma NothingCollected(ys: seq<Sample>)
    ensures BlockAt(ys, |ys|, []) && DistinctQueues([]) && QueueIds([]) == {}
  {
  }

  lemma RepeatInvariant(n: nat, xs: seq<Sample>, s: Scan, x: Sample)
    requires ScanInvariant(n, xs, s) && x.queueId in s.seen
    ensures ScanInvariant(n, xs + [x], Step(n, s, x, |xs|))
  {
    var ys, start := xs + [x], |xs| - |s.current|;
    BlocksExtend(n, xs, x, s.rounds, s.starts, start, |xs|);
    assert BlockAt(ys, |xs|, [x]) && BlockAt(ys, start, s.current);
    assert QueueIds([x]) == {x.queueId} && DistinctQueues([x]);
    BlocksExtend(n, xs, x, s.rounds, s.starts, start, start);
    hide QueueIds, Expected, Blocks;
    if s.seen == Expected(n) {
      BlocksAppend(n, ys, s.rounds, s.starts, start, s.current, |xs|);
    }
  }

  lemma {:induction false} ScanKeepsInvariant(n: nat, xs: seq<Sample>)
    ensures ScanInvariant(n, xs, ScanAll(n, xs))
  {
    if xs == [] {
      NothingCollected(xs);
    } else {
      var front, x := xs[..|xs| - 1], xs[|xs| - 1];
      ScanKeepsInvariant(n, front);
      assert xs == front + [x];
      StepKeepsInvariant(n, front, ScanAll(n, front), x);
      hide ScanInvariant, Step;
    }
  }

  lemma StepKeepsInvariant(n: nat, xs: seq<Sample>, s: Scan, x: Sample)
    requires |s.current| <= |xs| && ScanInvariant(n, xs, s)
    ensures ScanInvariant(n, xs + [x], Step(n, s, x, |xs|))
  {
    hide ScanInvariant, Step;
    if x.queueId in s.seen {
      RepeatInvariant(n, xs, s, x);
    } else {
      ContinueInvariant(n, xs, s, x);
    }
  }

  /** Every returned round is a complete contiguous block; the rounds are disjoint and in input order. */
  lemma RoundsAreBlocks(n: nat, xs: seq<Sample>)
    ensures var s := ScanAll(n, xs); Blocks(n, xs, s.rounds, s.starts, |xs|)
  {
    ScanKeepsInvariant(n, xs);
    hide ScanAll, Complete, BlockAt;
  }

  /** A complete round has exactly `n` samples, all of queues below `n`, among them any such queue `q`. */
  lemma CompleteMembers(n: nat, r: seq<Sample>, q: nat)
    requires Complete(n, r)
    ensures |r| == n && forall i :: 0 <= i < |r| ==> r[i].queueId < n
    ensures q < n ==> exists i :: 0 <= i < |r| && r[i].queueId == q
  {
    DistinctCount(r);
    QueueIdsMember(r, q);
    forall i | 0 <= i < |r|
      ensures r[i].queueId < n
    {
      QueueIdsMember(r, r[i].queueId);
    }
  }

  lemma {:induction false} DistinctCount(r: seq<Sample>)
    requires DistinctQueues(r)
    ensures |QueueIds(r)| == |r|
  {
    if r == [] {
    } else {
      var i := |r| - 1;
      DistinctCount(r[..i]);
      QueueIdsMember(r[..i], r[i].queueId);
    }
  }

  // ----- Round trip

  function Flatten(rounds: seq<seq<Sample>>): seq<Sample> {
    if rounds == [] then [] else Flatten(rounds[..|rounds| - 1]) + rounds[|rounds| - 1]
  }

  predicate Clean(s: Scan) {
    s.current == [] && s.seen == {}
  }

  /** A proper prefix of a complete round neither repeats an id nor has them all. */
  lemma ProperPrefix(n: nat, r: seq<Sample>, k: nat)
    requires Complete(n, r) && k < |r|
    ensures r[k].queueId !in QueueIds(r[..k]) && QueueIds(r[..k]) != Expected(n)
    ensures QueueIds(r[..k + 1]) == QueueIds(r[..k]) + {r[k].queueId}
  {
    QueueIdsMember(r[..k], r[k].queueId);
    QueueIdsMember(r, r[k].queueId);
    assert r[..k + 1] == r[..k] + [r[k]];
    QueueIdsExtend(r[..k], r[k]);
  }

  lemma ScanSnoc(n: nat, xs: seq<Sample>, x: Sample)
    ensures ScanAll(n, xs + [x]) == Step(n, ScanAll(n, xs), x, |xs|)
  {
    assert (xs + [x])[..|xs|] == xs;
  }

  lemma ScanNext(n: nat, xs: seq<Sample>, r: seq<Sample>, k: nat)
    requires k < |r|
    ensures ScanAll(n, xs + r[..k + 1]) == Step(n, ScanAll(n, xs + r[..k]), r[k], |xs| + k)
  {
    assert xs + r[..k + 1] == xs + r[..k] + [r[k]];
    ScanSnoc(n, xs + r[..k], r[k]);
  }

  /** While a complete round is read, from its first `from` samples on, the scan collects it. */
  lemma {:induction false} CollectsPrefix(n: nat, xs: seq<Sample>, r: seq<Sample>, from: nat, k: nat)
    requires Complete(n, r) && from <= k < |r|
    requires var s := ScanAll(n, xs + r[..from]); s.current == r[..from] && s.seen == QueueIds(r[..from])
    ensures var s, t := ScanAll(n, xs + r[..from]), ScanAll(n, xs + r[..k]);
            t == s.(current := r[..k], seen := QueueIds(r[..k]))
    decreases k
  {
    hide ScanAll, QueueIds, Expected, Complete;
    if k == from {
    } else {
      CollectsPrefix(n, xs, r, from, k - 1);
      ScanNext(n, xs, r, k - 1);
      ProperPrefix(n, r, k - 1);
      ProperPrefix(n, r, k);
      assert r[..k] == r[..k - 1] + [r[k - 1]];
    }
  }

  /** Once the scan has the first samples of a complete round, it returns that round at its end. */
  lemma CollectsRound(n: nat, xs: seq<Sample>, r: seq<Sample>, from: nat)
    requires Complete(n, r) && from < |r|
    requires var s := ScanAll(n, xs + r[..from]); s.current == r[..from] && s.seen == QueueIds(r[..from])
    ensures var s, t := ScanAll(n, xs + r[..from]), ScanAll(n, xs + r);
            Clean(t) && t.rounds == s.rounds + [r] && t.starts == s.starts + [|xs|]
  {
    hide ScanAll, QueueIds, Complete;
    CollectsPrefix(n, xs, r, from, |r| - 1);
    LastSample(n, xs, r);
  }

  lemma LastSample(n: nat, xs: seq<Sample>, r: seq<Sample>)
    requires Complete(n, r) && r != []
    requires var s := ScanAll(n, xs + r[..|r| - 1]); s.current == r[..|r| - 1] && s.seen == QueueIds(r[..|r| - 1])
    ensures var s := ScanAll(n, xs + r[..|r| - 1]);
            ScanAll(n, xs + r) == Scan(s.rounds + [r], [], {}, s.starts + [|xs|])
  {
    hide ScanAll, QueueIds, Complete, Step;
    var i := |r| - 1;
    assert r[..i + 1] == r;
    ScanNext(n, xs, r, i);
    LastStep(n, ScanAll(n, xs + r[..i]), r, |xs| + i);
  }

  lemma LastStep(n: nat, s: Scan, r: seq<Sample>, at: nat)
    requires Complete(n, r) && 0 < |r| && |r| - 1 <= at
    requires s.current == r[..|r| - 1] && s.seen == QueueIds(r[..|r| - 1])
    ensures Step(n, s, r[|r| - 1], at) == Scan(s.rounds + [r], [], {}, s.starts + [at - (|r| - 1)])
  {
    ProperPrefix(n, r, |r| - 1);
    hide QueueIds, Expected;
    assert r[..|r| - 1 + 1] == r && r == r[..|r| - 1] + [r[|r| - 1]];
  }

  /** Collecting the concatenation of complete rounds gives the rounds back. */
  lemma {:induction false} CollectFlatten(n: nat, rounds: seq<seq<Sample>>)
    requires n > 0 && forall i :: 0 <= i < |rounds| ==> Complete(n, rounds[i])
    ensures ScanAll(n, Flatten(rounds)).rounds == rounds && Clean(ScanAll(n, Flatten(rounds)))
  {
    if rounds == [] {
    } else {
      var front, last := rounds[..|rounds| - 1], rounds[|rounds| - 1];
      assert Flatten(rounds) == Flatten(front) + last;
      CollectFlatten(n, front);
      CollectOne(n, Flatten(front), last);
      assert rounds == front + [last];
    }
  }

  lemma CollectOne(n: nat, xs: seq<Sample>, r: seq<Sample>)
    requires n > 0 && Complete(n, r) && Clean(ScanAll(n, xs))
    ensures Clean(ScanAll(n, xs + r)) && ScanAll(n, xs + r).rounds == ScanAll(n, xs).rounds + [r]
  {
    CompleteMembers(n, r, 0);
    assert xs + r[..0] == xs && QueueIds(r[..0]) == {};
    hide ScanAll, Complete;
    CollectsRound(n, xs, r, 0);
  }

  // ----- A log without its first lines

  /** Both list the queues in the same order. */
  predicate SameOrder(a: seq<Sample>, b: seq<Sample>) {
    |a| == |b| && forall k :: 0 <= k < |a| ==> a[k].queueId == b[k].queueId
  }

  /** The end of each round with the beginning of the next. */
  function Torn(rounds: seq<seq<Sample>>, j: nat): (rs: seq<seq<Sample>>)
    requires rounds != [] && forall i :: 0 <= i < |rounds| ==> j <= |rounds[i]|
    ensures |rs| == |rounds| - 1
  {
    seq(|rounds| - 1, i requires 0 <= i < |rounds| - 1 => rounds[i][j..] + rounds[i + 1][..j])
  }

  /** Such a round is complete, although its lines belong to two different rounds. */
  lemma TornComplete(n: nat, a: seq<Sample>, b: seq<Sample>, j: nat)
    requires Complete(n, a) && SameOrder(a, b) && j <= |a|
    ensures Complete(n, a[j..] + b[..j])
  {
    hide QueueIds, Expected;
    var r, m := a[j..] + b[..j], |a| - j;
    assert forall i :: 0 <= i < |r| ==> r[i].queueId == a[if i < m then i + j else i - m].queueId;
    forall q
      ensures q in QueueIds(r) <==> q in QueueIds(a)
    {
      QueueIdsMember(r, q);
      QueueIdsMember(a, q);
      if i :| 0 <= i < |a| && a[i].queueId == q {
        assert r[if i < j then i + m else i - j].queueId == q;
      }
    }
    assert QueueIds(r) == QueueIds(a);
  }

  lemma {:induction false} FlattenWithoutFirst(rounds: seq<seq<Sample>>, j: nat)
    requires rounds != [] && forall i :: 0 <= i < |rounds| ==> j <= |rounds[i]|
    ensures j <= |Flatten(rounds)|
    ensures Flatten(rounds)[j..] == Flatten(Torn(rounds, j)) + rounds[|rounds| - 1][j..]
  {
    hide Flatten, Torn;
    var front, last := rounds[..|rounds| - 1], rounds[|rounds| - 1];
    FlattenSnoc(front, last);
    assert rounds == front + [last];
    if front == [] {
      OneRound(last, j);
      Regrouped([], last, j);
    } else {
      FlattenWithoutFirst(front, j);
      var end := front[|front| - 1];
      TornSnoc(front, last, j);
      FlattenSnoc(Torn(front, j), end[j..] + last[..j]);
      Regrouped(Flatten(front), last, j);
      Reassociated(Flatten(Torn(front, j)), end[j..], last, j);
    }
  }

  lemma FlattenSnoc(rounds: seq<seq<Sample>>, r: seq<Sample>)
    ensures Flatten(rounds + [r]) == Flatten(rounds) + r
  {
    assert (rounds + [r])[..|rounds|] == rounds;
  }

  lemma TornSnoc(rounds: seq<seq<Sample>>, r: seq<Sample>, j: nat)
    requires rounds != [] && j <= |r| && forall i :: 0 <= i < |rounds| ==> j <= |rounds[i]|
    ensures Torn(rounds + [r], j) == Torn(rounds, j) + [rounds[|rounds| - 1][j..] + r[..j]]
  {
  }

  lemma OneRound(r: seq<Sample>, j: nat)
    requires j <= |r|
    ensures Flatten([]) == [] && Torn([r], j) == []
  {
  }

  lemma Regrouped(front: seq<Sample>, r: seq<Sample>, j: nat)
    requires j <= |r|
    ensures [] + r == r && [] + r[j..] == r[j..]
    ensures j <= |front| ==> (front + r)[j..] == front[j..] + r
  {
  }

  lemma Reassociated(front: seq<Sample>, end: seq<Sample>, r: seq<Sample>, j: nat)
    requires j <= |r|
    ensures (front + end) + r == (front + (end + r[..j])) + r[j..]
  {
    assert r == r[..j] + r[j..];
  }

  /**
   * Where the queues always report in one order, a log that lost its first `j` lines never gets back
   * into step: exactly the torn rounds are returned, each complete, none with the lines of one round.
   */
  lemma LostLinesTearRounds(n: nat, rounds: seq<seq<Sample>>, j: nat)
    requires 0 < j < n && rounds != [] && forall i :: 0 <= i < |rounds| ==> Complete(n, rounds[i]) && |rounds[i]| == n
    requires forall i, k :: 0 <= i < k < |rounds| ==> SameOrder(rounds[i], rounds[k])
    ensures j <= |Flatten(rounds)| && ScanAll(n, Flatten(rounds)[j..]).rounds == Torn(rounds, j)
  {
    hide ScanAll, Complete, QueueIds, Flatten;
    FlattenWithoutFirst(rounds, j);
    var torn, last := Torn(rounds, j), rounds[|rounds| - 1];
    forall i | 0 <= i < |torn|
      ensures Complete(n, torn[i])
    {
      TornComplete(n, rounds[i], rounds[i + 1], j);
    }
    CollectFlatten(n, torn);
    NothingFromEnd(n, Flatten(torn), last, j);
  }

  /** The lines behind the last torn round complete nothing. */
  lemma NothingFromEnd(n: nat, xs: seq<Sample>, r: seq<Sample>, j: nat)
    requires Complete(n, r) && 0 < j <= |r| && Clean(ScanAll(n, xs))
    ensures ScanAll(n, xs + r[j..]).rounds == ScanAll(n, xs).rounds
  {
    var turned, k := r[j..] + r[..j], |r| - j;
    TornComplete(n, r, r, j);
    assert xs + turned[..0] == xs && turned[..k] == r[j..] && QueueIds(turned[..0]) == {};
    hide ScanAll, QueueIds, Complete;
    CollectsPrefix(n, xs, turned, 0, k);
  }

  // ----- Which complete blocks are returned

  /** The position where the samples being collected begin. */
  function CurrentStart(xs: seq<Sample>, s: Scan): nat
    requires |s.current| <= |xs|
  {
    |xs| - |s.current|
  }

  /**
   * No round begins at a position once the scan is past it, if it is collecting from elsewhere or
   * has collected a queue `q` that is not expected.
   */
  lemma {:induction false} StartMissed(n: nat, xs: seq<Sample>, ys: seq<Sample>, a: nat, q: nat)
    requires a < |xs| && a !in ScanAll(n, xs).starts && q >= n
    requires CurrentStart(xs, ScanAll(n, xs)) == a ==> q in ScanAll(n, xs).seen
    ensures a !in ScanAll(n, xs + ys).starts
    ensures CurrentStart(xs + ys, ScanAll(n, xs + ys)) == a ==> q in ScanAll(n, xs + ys).seen
    decreases |ys|
  {
    if ys == [] {
      assert xs + ys == xs;
    } else {
      var k := |ys| - 1;
      StartMissed(n, xs, ys[..k], a, q);
      ScanNext(n, xs, ys, k);
      assert ys[..k + 1] == ys;
      hide ScanAll;
    }
  }

  /** The scan collects nothing before a block, or is collecting a group that its first sample repeats. */
  predicate AtBoundary(n: nat, xs: seq<Sample>, r: seq<Sample>)
    requires r != []
  {
    ScanAll(n, xs).current == [] || r[0].queueId in ScanAll(n, xs).seen
  }

  /** One expected queue, whose repeat of the collected group is only returned by a further repeat. */
  predicate NeedsRepeat(n: nat, xs: seq<Sample>) {
    n == 1 && ScanAll(n, xs).current != []
  }

  /**
   * A complete block of the input is returned as a round from its position exactly when the scan was
   * collecting nothing there, or its first sample repeats a queue that was being collected; with one
   * expected queue, a block that repeats also needs that queue's next sample right behind it. Any
   * other complete block is missed.
   */
  lemma BlockReturnedIff(n: nat, xs: seq<Sample>, r: seq<Sample>, ys: seq<Sample>)
    requires n >= 1 && Complete(n, r)
    ensures r != []
    ensures |xs| in ScanAll(n, xs + r + ys).starts <==>
            AtBoundary(n, xs, r) && (NeedsRepeat(n, xs) ==> ys != [] && ys[0].queueId == 0)
  {
    CompleteMembers(n, r, 0);
    ScanFacts(n, xs);
    hide ScanAll, Complete, DistinctQueues, QueueIds;
    if !AtBoundary(n, xs, r) {
      BlockSkipped(n, xs, r, ys);
    } else if NeedsRepeat(n, xs) {
      hide AtBoundary;
      RepeatedAlone(n, xs, r, ys);
    } else {
      BlockCollected(n, xs, r, ys);
    }
  }

  /** What the block lemmas need of the scan so far. */
  lemma ScanFacts(n: nat, xs: seq<Sample>)
    ensures ScanAll(n, xs).seen == QueueIds(ScanAll(n, xs).current)
    ensures n >= 1 ==> |xs| !in ScanAll(n, xs).starts
  {
    ScanKeepsInvariant(n, xs);
    StartsBefore(n, xs);
    hide ScanAll, Blocks, DistinctQueues, QueueIds, BlockAt;
  }

  lemma BlockSkipped(n: nat, xs: seq<Sample>, r: seq<Sample>, ys: seq<Sample>)
    requires n >= 1 && r != [] && !AtBoundary(n, xs, r)
    ensures |xs| !in ScanAll(n, xs + r + ys).starts
  {
    hide ScanAll, QueueIds, Complete, Step;
    ScanFacts(n, xs);
    ScanSnoc(n, xs, r[0]);
    SkipsStart(n, ScanAll(n, xs), r[0], |xs|);
    StartMissed(n, xs + [r[0]], r[1..] + ys, |xs|, n);
    assert xs + [r[0]] + (r[1..] + ys) == xs + r + ys;
  }

  lemma BlockCollected(n: nat, xs: seq<Sample>, r: seq<Sample>, ys: seq<Sample>)
    requires n >= 1 && Complete(n, r) && r != [] && AtBoundary(n, xs, r) && !NeedsRepeat(n, xs)
    ensures |xs| in ScanAll(n, xs + r + ys).starts
  {
    ScanFacts(n, xs);
    var s, a := ScanAll(n, xs), |xs|;
    if s.current == [] {
      assert xs + r[..0] == xs && QueueIds(r[..0]) == {};
      hide ScanAll, QueueIds, Complete;
      CollectsRound(n, xs, r, 0);
    } else {
      ScanSnoc(n, xs, r[0]);
      assert r[..1] == [r[0]];
      hide ScanAll, QueueIds, Complete;
      FirstCollected(n, s, r, a);
      hide Step;
      CollectsRound(n, xs, r, 1);
    }
    hide ScanAll;
    StartKept(n, xs + r, ys, a);
  }

  lemma FirstCollected(n: nat, s: Scan, r: seq<Sample>, at: nat)
    requires n >= 2 && Complete(n, r) && |s.current| <= at
    requires r != [] && r[0].queueId in s.seen
    ensures Step(n, s, r[0], at).current == r[..1] && Step(n, s, r[0], at).seen == QueueIds(r[..1])
    ensures |r| >= 2
  {
    CompleteMembers(n, r, 0);
    assert QueueIds(r[..1]) == {r[0].queueId} by {
      assert r[..1][..0] == [];
    }
  }

  lemma RepeatStep(s: Scan, x: Sample, at: nat)
    requires s.current != [] && |s.current| <= at && at !in s.starts
    requires x.queueId == 0 && 0 in s.seen
    ensures var t := Step(1, s, x, at); t.current == [x] && t.seen == {0} && at !in t.starts
  {
  }

  lemma AfterRepeat(t: Scan, x: Sample, y: Sample, at: nat)
    requires t.current == [x] && t.seen == {0} && at !in t.starts
    ensures var u := Step(1, t, y, at + 1);
            (at in u.starts <==> y.queueId == 0) && (y.queueId != 0 ==> y.queueId in u.seen)
  {
    assert Expected(1) == {0};
    assert 0 in t.seen + {y.queueId} && y.queueId in t.seen + {y.queueId};
  }

  lemma FirstOfSum(xs: seq<Sample>, r: seq<Sample>, ys: seq<Sample>)
    requires ys != []
    ensures xs + r + [ys[0]] + ys[1..] == xs + r + ys
  {
  }

  /** With one expected queue: its sample as a repeat starts a group that only its next sample completes. */
  lemma RepeatedAlone(n: nat, xs: seq<Sample>, r: seq<Sample>, ys: seq<Sample>)
    requires n == 1 && Complete(1, r) && r != [] && ScanAll(1, xs).current != [] && r[0].queueId in ScanAll(1, xs).seen
    ensures |xs| in ScanAll(1, xs + r + ys).starts <==> ys != [] && ys[0].queueId == 0
  {
    hide ScanAll, Complete, QueueIds, Step;
    CompleteMembers(1, r, 0);
    ScanFacts(1, xs);
    ScanSnoc(1, xs, r[0]);
    var s, a := ScanAll(1, xs), |xs|;
    assert r == [r[0]];
    RepeatStep(s, r[0], a);
    if ys == [] {
      assert xs + r + ys == xs + r;
    } else {
      var zs := xs + r + [ys[0]];
      ScanSnoc(1, xs + r, ys[0]);
      FirstOfSum(xs, r, ys);
      AfterRepeat(ScanAll(1, xs + r), r[0], ys[0], a);
      if ys[0].queueId == 0 {
        StartKept(1, zs, ys[1..], a);
      } else {
        StartMissed(1, zs, ys[1..], a, ys[0].queueId);
      }
    }
  }

  lemma SkipsStart(n: nat, s: Scan, x: Sample, at: nat)
    requires s.current != [] && |s.current| <= at && x.queueId !in s.seen && at !in s.starts
    ensures var t := Step(n, s, x, at); at !in t.starts && at + 1 - |t.current| != at
  {
  }

  /** Every returned round begins at least `n` positions before the end of what was read. */
  lemma StartsBefore(n: nat, xs: seq<Sample>)
    ensures forall i :: 0 <= i < |ScanAll(n, xs).starts| ==> ScanAll(n, xs).starts[i] + n <= |xs|
  {
    ScanKeepsInvariant(n, xs);
    var s := ScanAll(n, xs);
    hide ScanAll;
    forall i | 0 <= i < |s.starts|
      ensures s.starts[i] + n <= |xs|
    {
      CompleteMembers(n, s.rounds[i], 0);
    }
  }

  lemma {:induction false} StartKept(n: nat, xs: seq<Sample>, ys: seq<Sample>, a: nat)
    requires a in ScanAll(n, xs).starts
    ensures a in ScanAll(n, xs + ys).starts
    decreases |ys|
  {
    if ys == [] {
      assert xs + ys == xs;
    } else {
      var k := |ys| - 1;
      StartKept(n, xs, ys[..k], a);
      ScanNext(n, xs, ys, k);
      assert ys[..k + 1] == ys;
    }
  }

  // ----- The append in the repeat branch

  /** Some sample of `xs` repeats a queue while the collected ids are exactly the expected ones. */
  ghost predicate RepeatAppends(n: nat, xs: seq<Sample>) {
    exists i :: 0 <= i < |xs| && AppendsAt(n, xs, i)
  }

  ghost predicate AppendsAt(n: nat, xs: seq<Sample>, i: nat)
    requires i < |xs|
  {
    xs[i].queueId in ScanAll(n, xs[..i]).seen && ScanAll(n, xs[..i]).seen == Expected(n)
  }

  predicate IdsBelow(xs: seq<Sample>, m: nat) {
    forall i :: 0 <= i < |xs| ==> xs[i].queueId < m
  }

  /** The collected ids are never all expected ones: always for n != 1, and for n = 1 if only id 0 occurs. */
  lemma {:induction false} NeverAllExpected(n: nat, xs: seq<Sample>)
    requires n != 1 || IdsBelow(xs, 1)
    ensures var seen := ScanAll(n, xs).seen;
            (n > 0 ==> seen != Expected(n)) && (n == 1 ==> seen == {})
  {
    if xs == [] {
    } else {
      var i := |xs| - 1;
      NeverAllExpected(n, xs[..i]);
      assert |{xs[i].queueId}| == 1;
      if n == 1 {
        assert xs[i].queueId == 0 && Expected(1) == {0} by {
          assert Expected(0) == {};
        }
      }
    }
  }

  /** The log lines on which the repeat branch does append, with one expected queue. */
  lemma RepeatAppendsExample(x: Sample)
    ensures var a, b := x.(queueId := 1), x.(queueId := 0); RepeatAppends(1, [a, b, b, b])
  {
    hide ScanAll, Step, Expected;
    var a, b := x.(queueId := 1), x.(queueId := 0);
    var xs := [a, b, b, b];
    assert [] + [a] == [a] && [a] + [b] == [a, b] && [a, b] + [b] == xs[..3];
    ScanNothing();
    ScanSnoc(1, [], a);
    ScanSnoc(1, [a], b);
    ScanSnoc(1, [a, b], b);
    StrangerThenRepeat(a, b);
    assert AppendsAt(1, xs, 3);
  }

  lemma ScanNothing()
    ensures ScanAll(1, []) == Scan([], [], {}, []) && Expected(1) == {0}
  {
    assert Expected(0) == {};
  }

  lemma StrangerThenRepeat(a: Sample, b: Sample)
    requires a.queueId == 1 && b.queueId == 0
    ensures var s := Step(1, Scan([], [], {}, []), a, 0);
            && |s.current| <= 1 && var t := Step(1, s, b, 1);
            && |t.current| <= 2 && Step(1, t, b, 2).seen == {0}
  {
    ScanNothing();
    assert 1 in {1} + {0};
  }

  /**
   * Over all logs whose queue ids are below `m`, the append in the repeat branch is unreachable
   * exactly when one does not expect a single queue, or only queue 0 can occur.
   */
  lemma RepeatAppendUnreachableIff(n: nat, m: nat)
    ensures (forall xs :: IdsBelow(xs, m) ==> !RepeatAppends(n, xs)) <==> n != 1 || m <= 1
  {
    if n != 1 || m <= 1 {
      forall xs | IdsBelow(xs, m)
        ensures !RepeatAppends(n, xs)
      {
        forall i | 0 <= i < |xs|
          ensures !AppendsAt(n, xs, i)
        {
          NeverAllExpected(n, xs[..i]);
        }
      }
    } else {
      var x := Sample(0, 0, 0, 0, 0.0, 0.0, [], 0);
      RepeatAppendsExample(x);
      assert IdsBelow([x.(queueId := 1), x.(queueId := 0), x.(queueId := 0), x.(queueId := 0)], m);
    }
  }
}
