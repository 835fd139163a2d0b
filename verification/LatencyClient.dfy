/** The latency client: one request in flight, and the times it records for matched replies. */
module LatencyClient {
  import opened Arithmetic
  import opened Frames
  import opened EchoModes
  import opened EchoProofs
  import opened ClientPackets
  import opened EndToEnd

  /**
   * What ends the wait of one round, after `polls` polls that found nothing: a burst whose first frame
   * the client looks at, or the end of the test.
   */
  datatype Round = Reply(polls: nat, frame: Frame) | TimedOut(polls: nat)

  /** Received frames hold at least the headers the client reads. */
  predicate ValidRounds(rounds: seq<Round>) {
    forall i :: 0 <= i < |rounds| && rounds[i].Reply? ==> |rounds[i].frame| >= HEADERS_LENGTH
  }

  ghost predicate Monotone(clock: nat -> nat) {
    forall i, j :: i <= j ==> clock(i) <= clock(j)
  }

  // ----- The reads of the timer

  /**
   * The timer read with which round `k` begins. Read 0 is the start time; a round reads the timer for
   * its loop test and its send time, and twice per poll; the test that ends a timed-out round is one read.
   */
  function RoundStart(rounds: seq<Round>, k: nat): nat
    requires k <= |rounds|
  {
    if k == 0 then 1
    else RoundStart(rounds, k - 1) + 2 + 2 * rounds[k - 1].polls + if rounds[k - 1].Reply? then 2 else 1
  }

  /** The read that stamps the request of round `k`. */
  function SendRead(rounds: seq<Round>, k: nat): nat
    requires k <= |rounds|
  {
    RoundStart(rounds, k) + 1
  }

  /** The read that stamps the burst which ended round `k`. */
  function ReceiveRead(rounds: seq<Round>, k: nat): nat
    requires k < |rounds|
  {
    RoundStart(rounds, k) + 3 + 2 * rounds[k].polls
  }

  /** What a timer read is for: the start, a test of the outer or the inner loop, or a time stamp. */
  datatype Purpose = Start | LoopTest | SendStamp | WaitTest | ReceiveStamp

  /** The reads of `polls` polls that find nothing: a test of the deadline, then a stamp after the receive call. */
  function EmptyPolls(polls: nat): (t: seq<Purpose>)
    ensures |t| == 2 * polls
    ensures forall i :: 0 <= i < |t| ==> t[i] == if i % 2 == 0 then WaitTest else ReceiveStamp
  {
    if polls == 0 then [] else EmptyPolls(polls - 1) + [WaitTest, ReceiveStamp]
  }

  /** The reads of one round, in order. */
  function RoundTrace(r: Round): seq<Purpose> {
    [LoopTest, SendStamp] + EmptyPolls(r.polls) + if r.Reply? then [WaitTest, ReceiveStamp] else [WaitTest]
  }

  /** The reads up to the end of the first `k` rounds. */
  function Trace(rounds: seq<Round>, k: nat): seq<Purpose>
    requires k <= |rounds|
  {
    if k == 0 then [Start] else Trace(rounds, k - 1) + RoundTrace(rounds[k - 1])
  }

  lemma {:induction false} TraceLength(rounds: seq<Round>, k: nat)
    requires k <= |rounds|
    ensures |Trace(rounds, k)| == RoundStart(rounds, k)
  {
    if k == 0 {
    } else {
      TraceLength(rounds, k - 1);
    }
  }

  lemma {:induction false} TraceGrows(rounds: seq<Round>, k: nat, m: nat)
    requires k <= m <= |rounds|
    ensures Trace(rounds, k) <= Trace(rounds, m)
  {
    if k < m {
      TraceGrows(rounds, k, m - 1);
    }
  }

  /** Of a list of reads: `j` is the last one before position `end` that is for `purpose`. */
  ghost predicate LastFor(trace: seq<Purpose>, purpose: Purpose, j: nat, end: nat) {
    j < end <= |trace| && trace[j] == purpose && forall i :: j < i < end ==> trace[i] != purpose
  }

  /**
   * The stamp of a request is the last send stamp before the round ends, and the stamp of its reply is
   * the very last read of the round. Between them lie the tests and stamps of all polls of the wait.
   */
  lemma StampReads(rounds: seq<Round>, k: nat)
    requires k < |rounds| && rounds[k].Reply?
    ensures LastFor(Trace(rounds, |rounds|), SendStamp, SendRead(rounds, k), RoundStart(rounds, k + 1))
    ensures LastFor(Trace(rounds, |rounds|), ReceiveStamp, ReceiveRead(rounds, k), RoundStart(rounds, k + 1))
    ensures ReceiveRead(rounds, k) + 1 == RoundStart(rounds, k + 1)
    ensures ReceiveRead(rounds, k) == SendRead(rounds, k) + 2 * rounds[k].polls + 2
  {
    TraceLength(rounds, k);
    TraceGrows(rounds, k + 1, |rounds|);
    TraceNext(rounds, k);
    hide Trace, RoundStart, RoundTrace;
    LastStamps(Trace(rounds, k), rounds[k], Trace(rounds, |rounds|));
  }

  /** The stamps in the reads of one round that a reply ends, wherever these stand. */
  lemma LastStamps(before: seq<Purpose>, r: Round, all: seq<Purpose>)
    requires r.Reply? && before + RoundTrace(r) <= all
    ensures |RoundTrace(r)| == 2 * r.polls + 4
    ensures LastFor(all, SendStamp, |before| + 1, |before| + |RoundTrace(r)|)
    ensures LastFor(all, ReceiveStamp, |before| + |RoundTrace(r)| - 1, |before| + |RoundTrace(r)|)
  {
    var t := RoundTrace(r);
    assert forall i :: 0 <= i < |t| ==> all[|before| + i] == t[i];
    assert forall i :: 2 <= i < |t| ==> t[i] != SendStamp;
    hide RoundTrace, EmptyPolls;
    forall j | |before| + 1 < j < |before| + |t|
      ensures all[j] != SendStamp
    {
      assert all[|before| + (j - |before|)] == t[j - |before|];
    }
  }

  /** In the first round the request is stamped with read 2, and a reply with read 4 plus two for each empty poll. */
  lemma FirstRoundReads(rounds: seq<Round>)
    requires rounds != []
    ensures SendRead(rounds, 0) == 2 && ReceiveRead(rounds, 0) == 4 + 2 * rounds[0].polls
  {
  }

  lemma TraceNext(rounds: seq<Round>, k: nat)
    requires k < |rounds|
    ensures Trace(rounds, k + 1) == Trace(rounds, k) + RoundTrace(rounds[k])
    ensures RoundStart(rounds, k + 1) == RoundStart(rounds, k) + |RoundTrace(rounds[k])|
  {
  }

  /** The timer, which remembers what each read was for. */
  class Timer {
    const clock: nat -> nat
    var ticks: nat
    ghost var trace: seq<Purpose>

    ghost predicate Valid()
      reads this
    {
      ticks == |trace|
    }

    constructor (clock: nat -> nat)
      ensures Valid() && this.clock == clock && trace == []
    {
      this.clock, ticks, trace := clock, 0, [];
    }

    method Read(ghost purpose: Purpose) returns (t: nat)
      requires Valid()
      modifies this
      ensures Valid() && trace == old(trace) + [purpose] && t == clock(old(|trace|))
    {
      t := clock(ticks);
      ticks, trace := ticks + 1, trace + [purpose];
    }

    /** The polls that find nothing. */
    method PollInVain(polls: nat)
      requires Valid()
      modifies this
      ensures Valid() && trace == old(trace) + EmptyPolls(polls)
    {
      for i := 0 to polls
        invariant Valid() && trace == old(trace) + EmptyPolls(i)
      {
        var test := Read(WaitTest);
        var received := Read(ReceiveStamp);
      }
    }
  }

  // ----- Which rounds match

  /**
   * The rounds whose reply passes the client's chain for the flow of the request then in flight, which
   * is the number of replies matched before.
   */
  function MatchedRounds(c: Client, rounds: seq<Round>, k: nat): (ms: seq<nat>)
    requires ValidClient(c) && ValidRounds(rounds) && k <= |rounds|
    ensures |ms| <= k && forall i :: 0 <= i < |ms| ==> ms[i] < k && rounds[ms[i]].Reply?
    ensures forall i, j :: 0 <= i < j < |ms| ==> ms[i] < ms[j]
  {
    if k == 0 then []
    else
      var before := MatchedRounds(c, rounds, k - 1);
      if rounds[k - 1].Reply? && Matches(c, rounds[k - 1].frame, FlowSrcPort(c, |before|)) then before + [k - 1]
      else before
  }

  /** The rounds that ended with a reply, matched or not. */
  function ReplyCount(rounds: seq<Round>, k: nat): nat
    requires k <= |rounds|
  {
    if k == 0 then 0 else ReplyCount(rounds, k - 1) + if rounds[k - 1].Reply? then 1 else 0
  }

  /** Sample `i` is stamped with the send and receive reads of the `i`-th matched round. */
  ghost predicate Stamped(clock: nat -> nat, rounds: seq<Round>, ms: seq<nat>, snd: seq<nat>, rcv: seq<nat>) {
    && |ms| <= |snd| && |ms| <= |rcv|
    && forall i :: 0 <= i < |ms| ==>
         ms[i] < |rounds| && snd[i] == clock(SendRead(rounds, ms[i])) && rcv[i] == clock(ReceiveRead(rounds, ms[i]))
  }

  /**
   * The loop of the latency test over a list of rounds. Exactly the matched replies are counted as
   * correct and recorded, with the times of their own round; exactly the other replies are incorrect.
   * The caller bounds the number of rounds by the size of the sample arrays.
   */
  method LatencyTest(c: Client, timer: Timer, rounds: seq<Round>, snd: array<nat>, rcv: array<nat>)
    returns (correct: nat, incorrect: nat)
    requires ValidClient(c) && ValidRounds(rounds) && snd != rcv
    requires timer.Valid() && timer.trace == []
    requires |rounds| <= snd.Length && |rounds| <= rcv.Length && |rounds| <= U32
    modifies timer, snd, rcv
    ensures timer.Valid() && timer.trace == Trace(rounds, |rounds|)
    ensures correct == |MatchedRounds(c, rounds, |rounds|)|
    ensures incorrect == ReplyCount(rounds, |rounds|) - correct
    ensures Stamped(timer.clock, rounds, MatchedRounds(c, rounds, |rounds|), snd[..], rcv[..])
  {
    hide Matches, FlowSrcPort, Stamped, RoundTrace, Trace, RoundStart, MatchedRounds, ReplyCount, SendRead, ReceiveRead;
    correct, incorrect := 0, 0;
    var start := timer.Read(Start);
    NoRounds(c, timer.clock, rounds, snd[..], rcv[..]);
    for k := 0 to |rounds|
      invariant timer.Valid() && timer.trace == Trace(rounds, k)
      invariant correct == |MatchedRounds(c, rounds, k)| <= k && correct + incorrect == ReplyCount(rounds, k)
      invariant Stamped(timer.clock, rounds, MatchedRounds(c, rounds, k), snd[..], rcv[..])
    {
      ghost var was, wasRcv := snd[..], rcv[..];
      NextRound(c, rounds, k);
      var sent, received := WaitRound(timer, rounds[k]);
      var matched := Record(c, rounds[k], sent, received, snd, rcv, correct);
      StampedNext(timer.clock, rounds, MatchedRounds(c, rounds, k), was, wasRcv, k, sent, received, matched);
      if matched {
        correct := correct + 1;
      } else if rounds[k].Reply? {
        incorrect := incorrect + 1;
      }
    }
  }

  /** Stamps the request and, if a reply of the expected flow ended the wait, the reply. */
  method Record(c: Client, round: Round, sent: nat, received: nat, snd: array<nat>, rcv: array<nat>, correct: nat)
    returns (matched: bool)
    requires ValidClient(c) && ValidRounds([round]) && snd != rcv
    requires correct < snd.Length && correct < rcv.Length && correct < U32
    modifies snd, rcv
    ensures matched <==> round.Reply? && |round.frame| >= HEADERS_LENGTH
                         && Matches(c, round.frame, FlowSrcPort(c, correct))
    ensures snd[..] == old(snd[..])[correct := sent]
    ensures rcv[..] == if matched then old(rcv[..])[correct := received] else old(rcv[..])
  {
    hide Matches, FlowSrcPort;
    var expectedPort := FlowSrcPort(c, correct % U32);
    Stamp(snd, correct, sent);
    assert [round][0] == round;
    matched := round.Reply? && Matches(c, round.frame, expectedPort);
    if matched {
      Stamp(rcv, correct, received);
    }
  }

  /** A round adds its sample if it matches; otherwise its stamp is left to be overwritten. */
  lemma StampedNext(clock: nat -> nat, rounds: seq<Round>, ms: seq<nat>, snd: seq<nat>, rcv: seq<nat>, k: nat,
                    sent: nat, received: nat, matched: bool)
    requires Stamped(clock, rounds, ms, snd, rcv) && k < |rounds| && |ms| < |snd| && |ms| < |rcv|
    requires sent == clock(SendRead(rounds, k)) && (matched ==> received == clock(ReceiveRead(rounds, k)))
    ensures Stamped(clock, rounds, if matched then ms + [k] else ms, snd[|ms| := sent],
                    if matched then rcv[|ms| := received] else rcv)
  {
    hide Stamped;
    if matched {
      OneMoreStamped(clock, rounds, ms, snd, rcv, k);
    } else {
      PendingStamp(clock, rounds, ms, snd, rcv, sent);
    }
  }

  lemma OneRound(before: seq<Purpose>, r: Round)
    ensures before + [LoopTest] + [SendStamp] + EmptyPolls(r.polls) + [WaitTest]
            + (if r.Reply? then [ReceiveStamp] else []) == before + RoundTrace(r)
    ensures !r.Reply? ==> before + [LoopTest] + [SendStamp] + EmptyPolls(r.polls) + [WaitTest] == before + RoundTrace(r)
  {
    hide EmptyPolls;
  }

  lemma NoRounds(c: Client, clock: nat -> nat, rounds: seq<Round>, snd: seq<nat>, rcv: seq<nat>)
    requires ValidClient(c) && ValidRounds(rounds)
    ensures Trace(rounds, 0) == [Start] && MatchedRounds(c, rounds, 0) == [] && ReplyCount(rounds, 0) == 0
    ensures Stamped(clock, rounds, [], snd, rcv)
  {
  }

  /** What round `k` adds to the trace and the counts, and which of its reads are the stamps. */
  lemma NextRound(c: Client, rounds: seq<Round>, k: nat)
    requires ValidClient(c) && ValidRounds(rounds) && k < |rounds|
    ensures Trace(rounds, k + 1) == Trace(rounds, k) + RoundTrace(rounds[k])
    ensures SendRead(rounds, k) == |Trace(rounds, k)| + 1
    ensures rounds[k].Reply? ==> ReceiveRead(rounds, k) == |Trace(rounds, k + 1)| - 1
    ensures ReplyCount(rounds, k + 1) == ReplyCount(rounds, k) + if rounds[k].Reply? then 1 else 0
    ensures var before := MatchedRounds(c, rounds, k);
            MatchedRounds(c, rounds, k + 1)
            == if rounds[k].Reply? && Matches(c, rounds[k].frame, FlowSrcPort(c, |before|)) then before + [k]
               else before
  {
    hide Matches, FlowSrcPort;
    TraceLength(rounds, k);
    TraceNext(rounds, k);
    hide Trace;
  }

  /** The timer reads of one round; `received` is only used when a reply ended it. */
  method WaitRound(timer: Timer, round: Round) returns (sent: nat, received: nat)
    requires timer.Valid()
    modifies timer
    ensures timer.Valid() && timer.trace == old(timer.trace) + RoundTrace(round)
    ensures sent == timer.clock(old(|timer.trace|) + 1)
    ensures round.Reply? ==> received == timer.clock(|timer.trace| - 1)
  {
    hide RoundTrace, EmptyPolls;
    var loop := timer.Read(LoopTest);
    sent := timer.Read(SendStamp);
    timer.PollInVain(round.polls);
    received := timer.Read(WaitTest);
    if round.Reply? {
      received := timer.Read(ReceiveStamp);
    }
    OneRound(old(timer.trace), round);
  }

  method Stamp(times: array<nat>, i: nat, t: nat)
    requires i < times.Length
    modifies times
    ensures times[..] == old(times[..])[i := t]
  {
    times[i] := t;
  }

  /** A matched reply adds the sample of its round. */
  lemma OneMoreStamped(clock: nat -> nat, rounds: seq<Round>, ms: seq<nat>, snd: seq<nat>, rcv: seq<nat>, k: nat)
    requires Stamped(clock, rounds, ms, snd, rcv) && k < |rounds| && |ms| < |snd| && |ms| < |rcv|
    ensures Stamped(clock, rounds, ms + [k], snd[|ms| := clock(SendRead(rounds, k))],
                    rcv[|ms| := clock(ReceiveRead(rounds, k))])
  {
  }

  /** A request without a match leaves only a stamp that the next request overwrites. */
  lemma PendingStamp(clock: nat -> nat, rounds: seq<Round>, ms: seq<nat>, snd: seq<nat>, rcv: seq<nat>, t: nat)
    requires Stamped(clock, rounds, ms, snd, rcv) && |ms| < |snd|
    ensures Stamped(clock, rounds, ms, snd[|ms| := t], rcv)
  {
  }

  // ----- What the recorded times say

  /** A later round begins after the reads of an earlier one. */
  lemma {:induction false} RoundsFollow(rounds: seq<Round>, i: nat, j: nat)
    requires i < j <= |rounds| && rounds[i].Reply?
    ensures ReceiveRead(rounds, i) < RoundStart(rounds, j)
    decreases j
  {
    if i + 1 == j {
    } else {
      RoundsFollow(rounds, i, j - 1);
    }
  }

  /** Each recorded reply is after its request, and each recorded request after the reply before it. */
  ghost predicate Recorded(snd: seq<nat>, rcv: seq<nat>, count: nat) {
    && count <= |snd| && count <= |rcv|
    && (forall i :: 0 <= i < count ==> snd[i] <= rcv[i])
    && (forall i :: 0 < i < count ==> rcv[i - 1] <= snd[i])
  }

  /** With a monotone timer the recorded round trips are nonnegative and do not overlap. */
  lemma StampedInOrder(c: Client, clock: nat -> nat, rounds: seq<Round>, snd: seq<nat>, rcv: seq<nat>)
    requires ValidClient(c) && ValidRounds(rounds) && Monotone(clock)
    requires Stamped(clock, rounds, MatchedRounds(c, rounds, |rounds|), snd, rcv)
    ensures Recorded(snd, rcv, |MatchedRounds(c, rounds, |rounds|)|)
  {
    var ms := MatchedRounds(c, rounds, |rounds|);
    forall i | 0 < i < |ms|
      ensures rcv[i - 1] <= snd[i]
    {
      RoundsFollow(rounds, ms[i - 1], ms[i]);
    }
  }

  /** The time that `n` polls take, from the test before each to the stamp behind it; `first` is the first test. */
  function PollTime(clock: nat -> nat, first: nat, n: nat): int {
    if n == 0 then 0 else PollTime(clock, first, n - 1) + clock(first + 2 * n - 1) - clock(first + 2 * n - 2)
  }

  lemma {:induction false} PollTimeFits(clock: nat -> nat, first: nat, n: nat)
    requires Monotone(clock) && n > 0
    ensures 0 <= PollTime(clock, first, n) <= clock(first + 2 * n - 1) - clock(first)
  {
    if n == 1 {
      assert PollTime(clock, first, 0) == 0;
    } else {
      PollTimeFits(clock, first, n - 1);
      assert clock(first + 2 * (n - 1) - 1) <= clock(first + 2 * n - 2) <= clock(first + 2 * n - 1);
    }
  }

  /** A recorded round trip is at least as long as all polls of its wait took, the successful one included. */
  lemma RoundTripCoversPolls(c: Client, clock: nat -> nat, rounds: seq<Round>, snd: seq<nat>, rcv: seq<nat>, i: nat)
    requires ValidClient(c) && ValidRounds(rounds) && Monotone(clock)
    requires Stamped(clock, rounds, MatchedRounds(c, rounds, |rounds|), snd, rcv)
    requires i < |MatchedRounds(c, rounds, |rounds|)|
    ensures var k := MatchedRounds(c, rounds, |rounds|)[i];
            PollTime(clock, SendRead(rounds, k) + 1, rounds[k].polls + 1) <= rcv[i] - snd[i]
  {
    hide PollTime, MatchedRounds, RoundStart, Trace;
    var k := MatchedRounds(c, rounds, |rounds|)[i];
    StampReads(rounds, k);
    PollTimeFits(clock, SendRead(rounds, k) + 1, rounds[k].polls + 1);
    assert clock(SendRead(rounds, k)) <= clock(SendRead(rounds, k) + 1);
  }

  /** The frame is what arrives when the server echoes the request of flow `f`. */
  ghost predicate EchoOfFlow(mode: ChecksumMode, c: Client, meta: TxMeta, f: nat, frame: Frame)
    requires ValidClient(c)
  {
    var reply := Echo(mode, Packet(Request(c, FlowSrcPort(c, f)), meta));
    Transmittable(reply) && frame == Wire(reply)
  }

  /** Every round ends with the server's echo of its request. */
  ghost predicate AllEchoed(mode: ChecksumMode, c: Client, meta: TxMeta, rounds: seq<Round>)
    requires ValidClient(c)
  {
    forall i :: 0 <= i < |rounds| ==> rounds[i].Reply? && EchoOfFlow(mode, c, meta, i, rounds[i].frame)
  }

  /** If every round is answered with the server's echo of its request, every round matches. */
  lemma {:induction false} EchoedRoundsMatch(mode: ChecksumMode, c: Client, meta: TxMeta, rounds: seq<Round>, k: nat)
    requires ValidClient(c) && ValidRounds(rounds) && k <= |rounds| && meta.flags == {}
    requires AllEchoed(mode, c, meta, rounds)
    ensures |MatchedRounds(c, rounds, k)| == k
    decreases k
  {
    hide FlowSrcPort, Matches, AllEchoed;
    if k == 0 {
    } else {
      EchoedRoundsMatch(mode, c, meta, rounds, k - 1);
      EchoedRoundPasses(mode, c, meta, rounds, k - 1);
    }
  }

  lemma EchoedRoundPasses(mode: ChecksumMode, c: Client, meta: TxMeta, rounds: seq<Round>, i: nat)
    requires ValidClient(c) && meta.flags == {} && AllEchoed(mode, c, meta, rounds) && i < |rounds|
    ensures rounds[i].Reply? && |rounds[i].frame| >= HEADERS_LENGTH
    ensures Matches(c, rounds[i].frame, FlowSrcPort(c, i))
  {
    hide Matches, FlowSrcPort, Echo, Wire, Transmittable, Canonical, ChecksumsInRange;
    ReplyMatchesIff(mode, c, meta, i, i);
  }

  // ----- Replies behind

  /**
   * The first `d` rounds are ended by frames that do not match, and from then on the replies, which
   * the server gives in order, come `d` rounds late: each round ends with the echo of the request that
   * was sent `d` rounds before it.
   */
  ghost predicate Behind(mode: ChecksumMode, c: Client, meta: TxMeta, d: nat, rounds: seq<Round>)
    requires ValidClient(c) && ValidRounds(rounds)
  {
    && (forall k :: 0 <= k < |rounds| ==> rounds[k].Reply?)
    && (forall k :: 0 <= k < d && k < |rounds| ==> !Matches(c, rounds[k].frame, FlowSrcPort(c, 0)))
    && forall k :: d <= k < |rounds| ==> EchoOfFlow(mode, c, meta, |MatchedRounds(c, rounds, k - d)|, rounds[k].frame)
  }

  /** Such a round matches exactly when the client asks for a flow of the same port as `d` rounds before. */
  lemma LateEchoMatchesIff(mode: ChecksumMode, c: Client, meta: TxMeta, d: nat, rounds: seq<Round>, k: nat)
    requires ValidClient(c) && ValidRounds(rounds) && meta.flags == {}
    requires Behind(mode, c, meta, d, rounds) && d <= k < |rounds|
    ensures rounds[k].Reply?
    ensures Matches(c, rounds[k].frame, FlowSrcPort(c, |MatchedRounds(c, rounds, k)|)) <==>
            |MatchedRounds(c, rounds, k - d)| % c.numFlows == |MatchedRounds(c, rounds, k)| % c.numFlows
  {
    hide Matches, FlowSrcPort, Echo, Wire, Transmittable, Canonical, ChecksumsInRange, MatchedRounds;
    ReplyMatchesIff(mode, c, meta, |MatchedRounds(c, rounds, k - d)|, |MatchedRounds(c, rounds, k)|);
  }

  /** The rounds that match then: with several flows one in d + 1, with one flow all but the first `d`. */
  function LateMatches(c: Client, d: nat, k: nat): (ms: seq<nat>)
    requires ValidClient(c)
  {
    if c.numFlows >= 2 then seq(Quotient(k, d + 1), i requires 0 <= i => LateRound(d, i))
    else seq(if k <= d then 0 else k - d, i requires 0 <= i => i + d)
  }

  /** The last round in which flow `i` is asked for. */
  function LateRound(d: nat, i: nat): nat {
    i * (d + 1) + d
  }

  function Quotient(k: nat, n: nat): nat
    requires n > 0
  {
    k / n
  }

  /**
   * `d` stray frames leave the client `d` replies behind for good. With two or more flows only one
   * round in d + 1 is counted as correct from then on, and sample `i` pairs the last request for flow
   * `i`, sent in round i (d + 1) + d, with the echo of the first one, sent `d` rounds earlier; with a
   * single flow no later round is lost.
   */
  lemma {:induction false} StaysBehind(mode: ChecksumMode, c: Client, meta: TxMeta, d: nat, rounds: seq<Round>, k: nat)
    requires ValidClient(c) && ValidRounds(rounds) && meta.flags == {}
    requires Behind(mode, c, meta, d, rounds) && k <= |rounds|
    ensures MatchedRounds(c, rounds, k) == LateMatches(c, d, k)
    decreases k
  {
    hide FlowSrcPort, Matches, Behind, MatchedRounds, LateMatches, ValidRounds, ValidClient;
    if k == 0 {
      NothingMatched(c, d, rounds);
    } else {
      StaysBehind(mode, c, meta, d, rounds, k - 1);
      if k <= d {
        StrayRound(mode, c, meta, d, rounds, k);
      } else {
        StaysBehind(mode, c, meta, d, rounds, k - 1 - d);
        NextBehind(mode, c, meta, d, rounds, k);
      }
    }
  }

  lemma NothingMatched(c: Client, d: nat, rounds: seq<Round>)
    requires ValidClient(c) && ValidRounds(rounds)
    ensures MatchedRounds(c, rounds, 0) == LateMatches(c, d, 0)
  {
    QuotientIs(0, d + 1, 0);
  }

  lemma StrayRound(mode: ChecksumMode, c: Client, meta: TxMeta, d: nat, rounds: seq<Round>, k: nat)
    requires ValidClient(c) && ValidRounds(rounds) && Behind(mode, c, meta, d, rounds) && 0 < k <= d && k <= |rounds|
    requires MatchedRounds(c, rounds, k - 1) == LateMatches(c, d, k - 1)
    ensures MatchedRounds(c, rounds, k) == LateMatches(c, d, k)
  {
    hide FlowSrcPort, Matches, EchoOfFlow, MatchedRounds;
    QuotientIs(k - 1, d + 1, 0);
    QuotientIs(k, d + 1, 0);
    MatchedStep(c, rounds, k);
  }

  lemma NextBehind(mode: ChecksumMode, c: Client, meta: TxMeta, d: nat, rounds: seq<Round>, k: nat)
    requires ValidClient(c) && ValidRounds(rounds) && meta.flags == {}
    requires Behind(mode, c, meta, d, rounds) && d < k <= |rounds|
    requires MatchedRounds(c, rounds, k - 1) == LateMatches(c, d, k - 1)
    requires MatchedRounds(c, rounds, k - 1 - d) == LateMatches(c, d, k - 1 - d)
    ensures MatchedRounds(c, rounds, k) == LateMatches(c, d, k)
  {
    hide FlowSrcPort, Matches, Behind, MatchedRounds, LateMatches, ValidRounds, ValidClient;
    LateEchoMatchesIff(mode, c, meta, d, rounds, k - 1);
    MatchedStep(c, rounds, k);
    NextLateMatch(c, d, k - 1);
  }

  lemma MatchedStep(c: Client, rounds: seq<Round>, k: nat)
    requires ValidClient(c) && ValidRounds(rounds) && 0 < k <= |rounds| && rounds[k - 1].Reply?
    ensures var before := MatchedRounds(c, rounds, k - 1);
            MatchedRounds(c, rounds, k)
            == if Matches(c, rounds[k - 1].frame, FlowSrcPort(c, |before|)) then before + [k - 1] else before
  {
    hide FlowSrcPort, Matches;
  }

  /** In that pattern a round matches exactly when the number of matches did not grow in the `d` rounds before. */
  lemma NextLateMatch(c: Client, d: nat, j: nat)
    requires ValidClient(c) && d <= j
    ensures var a, b := |LateMatches(c, d, j - d)|, |LateMatches(c, d, j)|;
            LateMatches(c, d, j + 1) == LateMatches(c, d, j) + if a % c.numFlows == b % c.numFlows then [j] else []
  {
    if c.numFlows >= 2 {
      hide ValidClient;
      QuotientStep(j, d);
      if j % (d + 1) != d {
        ConsecutiveDiffer(j / (d + 1) - 1, c.numFlows);
      }
    }
  }

  /** A quotient by d + 1 grows exactly when `d` steps back it was the same already. */
  lemma QuotientStep(j: nat, d: nat)
    requires d <= j
    ensures var n := d + 1;
            if j % n == d then (j + 1) / n == j / n + 1 && (j - d) / n == j / n && j == j / n * n + d
            else (j + 1) / n == j / n && (j - d) / n == j / n - 1 && j / n >= 1
  {
    var n, q := d + 1, j / (d + 1);
    DivModAgain(j, n);
    if j % n == d {
      OneMore(q, n);
      QuotientIs(j + 1, n, q + 1);
      QuotientIs(j - d, n, q);
    } else {
      QuotientIs(j + 1, n, q);
      assert q >= 1 by { assert q == 0 ==> q * n == 0; }
      OneMore(q - 1, n);
      QuotientIs(j - d, n, q - 1);
    }
  }

  lemma ConsecutiveDiffer(a: nat, n: nat)
    requires n >= 2
    ensures a % n != (a + 1) % n
  {
    var d := (a + 1) / n - a / n;
    assert (a + 1) % n - a % n == 1 - n * d;
    assert if d <= 0 then n * d <= 0 else n * d >= n;
  }

  /** The sum of the round-trip times of samples `lo` to `hi`. */
  function TotalLatency(snd: seq<nat>, rcv: seq<nat>, lo: nat, hi: nat): int
    requires lo <= hi <= |snd| && hi <= |rcv|
  {
    if lo == hi then 0 else TotalLatency(snd, rcv, lo, hi - 1) + rcv[hi - 1] - snd[hi - 1]
  }

  /** The loop that adds up the round trips of a range of samples. */
  method AddUpLatency(snd: array<nat>, rcv: array<nat>, lo: nat, hi: nat) returns (total: int)
    requires lo <= hi <= snd.Length && hi <= rcv.Length
    ensures total == TotalLatency(snd[..], rcv[..], lo, hi)
  {
    total := 0;
    for i := lo to hi
      invariant total == TotalLatency(snd[..], rcv[..], lo, i)
    {
      total := total + rcv[i] - snd[i];
    }
  }

  /** The total of a range is that of its parts, down to single samples. */
  lemma {:induction false} LatencySplit(snd: seq<nat>, rcv: seq<nat>, lo: nat, mid: nat, hi: nat)
    requires lo <= mid <= hi <= |snd| && hi <= |rcv|
    ensures TotalLatency(snd, rcv, lo, hi) == TotalLatency(snd, rcv, lo, mid) + TotalLatency(snd, rcv, mid, hi)
    ensures lo + 1 == hi ==> TotalLatency(snd, rcv, lo, hi) == rcv[lo] as int - snd[lo] as int
    decreases hi - mid
  {
    if mid < hi {
      LatencySplit(snd, rcv, lo, mid, hi - 1);
      assert lo + 1 == hi ==> TotalLatency(snd, rcv, lo, lo) == 0;
    } else {
      assert TotalLatency(snd, rcv, hi, hi) == 0;
      assert lo + 1 == hi ==> TotalLatency(snd, rcv, lo, lo) == 0;
    }
  }

  /** Round trips do not overlap, so those of any range of samples fit in the time that range took. */
  lemma {:induction false} LatencyFitsInRun(snd: seq<nat>, rcv: seq<nat>, count: nat, lo: nat, hi: nat)
    requires Recorded(snd, rcv, count) && lo < hi <= count
    ensures 0 <= TotalLatency(snd, rcv, lo, hi)
    ensures snd[lo] + TotalLatency(snd, rcv, lo, hi) <= rcv[hi - 1]
  {
    if lo + 1 == hi {
      assert TotalLatency(snd, rcv, lo, lo) == 0;
    } else {
      LatencyFitsInRun(snd, rcv, count, lo, hi - 1);
    }
  }
}
