/** Which flow ids the client workers use: worker `q` of `w` starts at `q` and steps by `w`. */
module FlowSchedule {
  import opened Arithmetic

  /** The id of packet `k` of worker `q`, before any wrap. */
  function FlowId(w: nat, q: nat, k: nat): nat {
    q + k * w
  }

  // ----- Arithmetic

  function Gcd(a: nat, b: nat): (g: nat)
    ensures a > 0 || b > 0 ==> g > 0
    decreases b
  {
    if b == 0 then a else Gcd(b, a % b)
  }

  ghost predicate Divides(d: nat, a: int) {
    exists m: int :: a == d * m
  }

  lemma DividesCombination(d: nat, a: int, b: int, x: int, y: int)
    requires Divides(d, a) && Divides(d, b)
    ensures Divides(d, x * a + y * b)
  {
    var m: int :| a == d * m;
    var n: int :| b == d * n;
    calc {
      x * a + y * b;
      x * (d * m) + y * (d * n);
      { MulShuffle(x, d, m); MulShuffle(y, d, n); }
      d * (x * m) + d * (y * n);
      d * (x * m + y * n);
    }
  }

  lemma MulShuffle(x: int, d: int, m: int)
    ensures x * (d * m) == d * (x * m)
  {
  }

  lemma {:induction false} GcdDivides(a: nat, b: nat)
    ensures Divides(Gcd(a, b), a) && Divides(Gcd(a, b), b)
    decreases b
  {
    if b == 0 {
      assert a == Gcd(a, b) * 1 && b == Gcd(a, b) * 0;
    } else {
      GcdDivides(b, a % b);
      var g := Gcd(a, b);
      DivModAgain(a, b);
      DividesCombination(g, b, a % b, a / b, 1);
    }
  }

  /** Bezout: the gcd is an integer combination. */
  lemma {:induction false} Bezout(a: nat, b: nat) returns (x: int, y: int)
    ensures Gcd(a, b) == x * a + y * b
    decreases b
  {
    if b == 0 {
      x, y := 1, 0;
    } else {
      var u, v := Bezout(b, a % b);
      x, y := v, u - v * (a / b);
      DivModAgain(a, b);
      BezoutStep(a, b, u, v, a / b, a % b);
    }
  }

  lemma BezoutStep(a: int, b: int, u: int, v: int, d: int, r: int)
    requires a == d * b + r
    ensures u * b + v * r == v * a + (u - v * d) * b
  {
    assert v * a == v * (d * b) + v * r;
    assert v * (d * b) == v * d * b;
    assert (u - v * d) * b == u * b - v * d * b;
  }

  /** Equal remainders, as divisibility of the difference. */
  lemma SameRemainderIff(a: nat, b: nat, n: nat)
    requires n > 0
    ensures a % n == b % n <==> Divides(n, a - b)
  {
    DivModAgain(a, n);
    DivModAgain(b, n);
    var d := a / n - b / n;
    assert a - b == n * d + (a % n - b % n);
    if a % n == b % n {
      assert a - b == n * d;
    }
    if Divides(n, a - b) {
      var m: int :| a - b == n * m;
      assert n * (m - d) == a % n - b % n;
      SmallMultiple(n, m - d, a % n - b % n);
    }
  }

  // ----- Across workers

  /** No id is ever generated twice, by the same worker or by two of them. */
  lemma IdsNeverRepeat(w: nat, q: nat, k: nat, q': nat, k': nat)
    requires q < w && q' < w && FlowId(w, q, k) == FlowId(w, q', k')
    ensures q == q' && k == k'
  {
    assert (k - k') * w == q' - q;
    SmallMultiple(w, k - k', q' - q);
  }

  /** `k` packets from each worker use exactly the ids below `k * w`. */
  lemma IdsCoverPrefix(w: nat, k: nat, id: nat)
    requires w > 0
    ensures id < k * w <==> exists q: nat, j: nat :: q < w && j < k && FlowId(w, q, j) == id
  {
    if id < k * w {
      var q, j := id % w, id / w;
      DivModAgain(id, w);
      if j >= k {
        MulMonotone(k, j, w);
      }
      assert FlowId(w, q, j) == id;
    }
    if q: nat, j: nat :| q < w && j < k && FlowId(w, q, j) == id {
      MulMonotone(j + 1, k, w);
      assert (j + 1) * w == j * w + w;
    }
  }

  // ----- Flows reached by one worker

  /** Packet `k` of worker `q` belongs to flow `f` of `n`. */
  predicate UsesFlow(w: nat, n: nat, q: nat, k: nat, f: nat)
    requires n > 0
  {
    FlowId(w, q, k) % n == f
  }

  /** Every flow a worker uses has the worker's remainder modulo the gcd. */
  lemma UsedFlowRemainder(w: nat, n: nat, q: nat, k: nat, f: nat)
    requires w > 0 && n > 0 && UsesFlow(w, n, q, k, f)
    ensures f % Gcd(w, n) == q % Gcd(w, n)
  {
    var g, id := Gcd(w, n), FlowId(w, q, k);
    GcdDivides(w, n);
    DivModAgain(id, n);
    DividesCombination(g, w, n, k, -(id / n));
    assert f - q == k * w + -(id / n) * n;
    SameRemainderIff(f, q, g);
  }

  /** A flow with that remainder is used within the first `n` packets. */
  lemma RemainderFlowUsed(w: nat, n: nat, q: nat, f: nat) returns (k: nat)
    requires w > 0 && f < n && f % Gcd(w, n) == q % Gcd(w, n)
    ensures k < n && UsesFlow(w, n, q, k, f)
  {
    var g := Gcd(w, n);
    SameRemainderIff(f, q, g);
    var m: int :| f - q == g * m;
    var x, y := Bezout(w, n);
    Expand(g, m, x, y, w, n);
    k := ReducedIndex(w, n, m * x);
    ReducedHits(w, n, q, f, m * x, m * y, k);
  }

  /** A step count reduced modulo `n` moves by the same amount modulo `n`. */
  lemma ReducedIndex(w: nat, n: nat, j: int) returns (k: nat)
    requires n > 0
    ensures k < n && Divides(n, k - j)
  {
    k := j % n;
    assert k - j == n * -(j / n);
  }

  lemma ReducedHits(w: nat, n: nat, q: nat, f: nat, j: int, z: int, k: nat)
    requires f < n && f - q == j * w + z * n && Divides(n, k - j)
    ensures UsesFlow(w, n, q, k, f)
  {
    var d: int :| k - j == n * d;
    Shifted(w, n, k, j, d);
    assert FlowId(w, q, k) - f == n * (d * w - z);
    SameRemainderIff(FlowId(w, q, k), f, n);
    RemainderOf(0, n, f);
  }

  lemma Shifted(w: int, n: int, k: int, j: int, d: int)
    requires k - j == n * d
    ensures k * w - j * w == n * (d * w)
  {
    assert k * w - j * w == (k - j) * w;
    assert (n * d) * w == n * (d * w);
  }

  /** g m with the combination for g written out. */
  lemma Expand(g: int, m: int, x: int, y: int, w: int, n: int)
    requires g == x * w + y * n
    ensures g * m == (m * x) * w + (m * y) * n
  {
    assert g * m == m * (x * w) + m * (y * n);
    assert m * (x * w) == (m * x) * w && m * (y * n) == (m * y) * n;
  }

  /** The number of flows that one worker uses. */
  function Period(w: nat, n: nat): (p: nat)
    requires n > 0
    ensures p > 0 && n == Gcd(w, n) * p
  {
    PeriodDivides(w, n);
    n / Gcd(w, n)
  }

  lemma PeriodDivides(w: nat, n: nat)
    requires n > 0
    ensures n / Gcd(w, n) > 0 && n == Gcd(w, n) * (n / Gcd(w, n))
  {
    GcdDivides(w, n);
    hide Gcd;
    var g := Gcd(w, n);
    var m: int :| n == g * m;
    assert m > 0 by { assert m <= 0 ==> g * m <= 0; }
    QuotientIs(n, g, m);
  }

  /** Two packets of a worker belong to the same flow exactly when whole periods lie between them. */
  lemma SameFlowIff(w: nat, n: nat, q: nat, k: nat, k': nat)
    requires w > 0 && n > 0
    ensures FlowId(w, q, k) % n == FlowId(w, q, k') % n <==> k % Period(w, n) == k' % Period(w, n)
  {
    hide Gcd, Divides;
    SameRemainderIff(FlowId(w, q, k), FlowId(w, q, k'), n);
    SameRemainderIff(k, k', Period(w, n));
    assert k * w - k' * w == (k - k') * w;
    if Divides(n, (k - k') * w) {
      StepsFromProduct(w, n, k - k');
    }
    if Divides(Period(w, n), k - k') {
      ProductFromSteps(w, n, k - k');
    }
  }

  lemma StepsFromProduct(w: nat, n: nat, d: int)
    requires w > 0 && n > 0 && Divides(n, d * w)
    ensures Divides(Period(w, n), d)
  {
    hide Gcd;
    var g, p := Gcd(w, n), Period(w, n);
    var x, y := Bezout(w, n);
    assert Divides(n, n) by { assert n == n * 1; }
    DividesCombination(n, d * w, n, x, d * y);
    Combined(g, d, x, y, w, n);
    var t: int :| g * d == n * t;
    Reassociated(g, p, t);
    SameFactor(g, d, p * t);
  }

  /** g d with the combination for g written out. */
  lemma Combined(g: int, d: int, x: int, y: int, w: int, n: int)
    requires g == x * w + y * n
    ensures g * d == x * (d * w) + d * y * n
  {
    Expand(g, d, x, y, w, n);
    MulShuffle(d, x, w);
  }

  lemma Reassociated(g: int, p: int, t: int)
    ensures g * p * t == g * (p * t)
  {
  }

  lemma SameFactor(g: nat, a: int, b: int)
    requires g > 0 && g * a == g * b
    ensures a == b
  {
    assert g * (a - b) == 0;
    SmallMultiple(g, a - b, 0);
  }

  lemma ProductFromSteps(w: nat, n: nat, d: int)
    requires w > 0 && n > 0 && Divides(Period(w, n), d)
    ensures Divides(n, d * w)
  {
    GcdDivides(w, n);
    var g, p := Gcd(w, n), Period(w, n);
    hide Gcd;
    var t: int :| d == p * t;
    var m: int :| w == g * m;
    calc {
      d * w;
      (p * t) * (g * m);
      (g * p) * (t * m);
      n * (t * m);
    }
  }

  /**
   * A worker's flows repeat with that period: in any `Period(w, n)` packets in a row, from packet `a`
   * on, it uses each of its flows once.
   */
  lemma FlowUsedOncePerPeriod(w: nat, n: nat, q: nat, f: nat, a: nat) returns (k: nat)
    requires w > 0 && f < n && f % Gcd(w, n) == q % Gcd(w, n)
    ensures a <= k < a + Period(w, n) && UsesFlow(w, n, q, k, f)
    ensures forall j: nat :: a <= j < a + Period(w, n) && UsesFlow(w, n, q, j, f) ==> j == k
  {
    var p := Period(w, n);
    var k0 := RemainderFlowUsed(w, n, q, f);
    hide Gcd;
    k := a + (k0 - a) % p;
    CongruentPosition(k0, a, p);
    SameFlowIff(w, n, q, k, k0);
    forall j: nat | a <= j < a + p && UsesFlow(w, n, q, j, f)
      ensures j == k
    {
      SameFlowIff(w, n, q, j, k);
      SameRemainderIff(j, k, p);
      var m: int :| j - k == p * m;
      SmallMultiple(p, m, j - k);
    }
  }

  lemma CongruentPosition(k0: nat, a: nat, p: nat)
    requires p > 0
    ensures (a + (k0 - a) % p) % p == k0 % p
  {
    var k, m := a + (k0 - a) % p, (k0 - a) / p;
    assert k - k0 == p * -m;
    SameRemainderIff(k, k0, p);
  }

  /**
   * Worker `q` ever uses flow `f` exactly when both leave the same remainder modulo gcd(w, n), and
   * then it does so within its first n / gcd(w, n) packets.
   */
  lemma FlowUsedIff(w: nat, n: nat, q: nat, f: nat)
    requires w > 0 && f < n
    ensures (exists k: nat :: UsesFlow(w, n, q, k, f)) <==> f % Gcd(w, n) == q % Gcd(w, n)
    ensures (exists k: nat :: UsesFlow(w, n, q, k, f))
            <==> (exists k: nat :: k < Period(w, n) && UsesFlow(w, n, q, k, f))
  {
    hide Gcd;
    if k: nat :| UsesFlow(w, n, q, k, f) {
      UsedFlowRemainder(w, n, q, k, f);
    }
    if f % Gcd(w, n) == q % Gcd(w, n) {
      var k := FlowUsedOncePerPeriod(w, n, q, f, 0);
    }
  }

  // ----- Ids that are cut to 32 bits before they choose a flow

  /** Packet `k` of worker `q` belongs to flow `f` of `n` once its id is cut. */
  predicate UsesCutFlow(w: nat, n: nat, q: nat, k: nat, f: nat)
    requires n > 0
  {
    FlowId(w, q, k) % U32 % n == f
  }

  /** The gcd that is left when steps of `w` wrap at 2^32 before they wrap at `n`. */
  function CutGcd(w: nat, n: nat): nat {
    Gcd(Gcd(w, U32), n)
  }

  /** A remainder modulo `g` decides the one modulo a divisor of `g`. */
  lemma CoarserRemainder(q: nat, g: nat, d: nat)
    requires g > 0 && d > 0 && Divides(d, g)
    ensures (q % g) % d == q % d
  {
    DivModAgain(q, g);
    assert Divides(d, d) by { assert d == d * 1; }
    DividesCombination(d, g, d, -(q / g), 0);
    assert q % g - q == -(q / g) * g + 0 * d;
    SameRemainderIff(q % g, q, d);
  }

  /** Every flow used after the cut has the worker's remainder modulo that gcd. */
  lemma UsedCutFlowRemainder(w: nat, n: nat, q: nat, k: nat, f: nat)
    requires w > 0 && n > 0 && UsesCutFlow(w, n, q, k, f)
    ensures f % CutGcd(w, n) == q % CutGcd(w, n)
  {
    hide Gcd, Divides;
    var g, x := Gcd(w, U32), FlowId(w, q, k) % U32;
    UsedFlowRemainder(w, U32, q, k, x);
    AsStep(x, g);
    UsedFlowRemainder(g, n, x % g, x / g, f);
    GcdDivides(g, n);
    CoarserRemainder(q, g, Gcd(g, n));
  }

  lemma AsStep(x: nat, g: nat)
    requires g > 0
    ensures FlowId(g, x % g, x / g) == x
  {
    DivModAgain(x, g);
  }

  /** Step `t` of at most `n` steps of `g`, taken from a remainder of `g`. */
  lemma StepInRange(g: nat, r: nat, t: nat, n: nat)
    requires r < g && t < n
    ensures FlowId(g, r, t) < n * g && FlowId(g, r, t) % g == r
  {
    MulMonotone(t + 1, n, g);
    OneMore(t, g);
    RemainderOf(t, g, r);
  }

  /** A flow with that remainder is used, if ids below 2^32 leave room for `n` steps of the first gcd. */
  lemma RemainderCutFlowUsed(w: nat, n: nat, q: nat, f: nat) returns (k: nat)
    requires w > 0 && f < n && n * Gcd(w, U32) <= U32 && f % CutGcd(w, n) == q % CutGcd(w, n)
    ensures k < U32 && UsesCutFlow(w, n, q, k, f)
  {
    hide Gcd, Divides, FlowId;
    var g := Gcd(w, U32);
    GcdDivides(g, n);
    CoarserRemainder(q, g, Gcd(g, n));
    var t := RemainderFlowUsed(g, n, q % g, f);
    StepInRange(g, q % g, t, n);
    k := RemainderFlowUsed(w, U32, q, FlowId(g, q % g, t));
  }

  /** Counts of queues and of flows that fit 16 bits always leave that room. */
  lemma RoomForCounts(w: nat, n: nat)
    requires 0 < w <= 0x1_0000 && n <= 0x1_0000
    ensures n * Gcd(w, U32) <= U32
  {
    GcdDivides(w, U32);
    hide Gcd;
    var g := Gcd(w, U32);
    var m: int :| w == g * m;
    MulMonotone(1, m, g);
    MulMonotone(n, 0x1_0000, g);
  }

  /**
   * The client that cuts its ids reaches flow `f` from worker `q` exactly when both leave the same
   * remainder modulo gcd(gcd(w, 2^32), n), and then within the first 2^32 packets.
   * `RoomForCounts` has the room that it needs.
   */
  lemma CutFlowUsedIff(w: nat, n: nat, q: nat, f: nat)
    requires w > 0 && f < n && n * Gcd(w, U32) <= U32
    ensures (exists k: nat :: UsesCutFlow(w, n, q, k, f)) <==> f % CutGcd(w, n) == q % CutGcd(w, n)
    ensures (exists k: nat :: UsesCutFlow(w, n, q, k, f)) <==> (exists k: nat :: k < U32 && UsesCutFlow(w, n, q, k, f))
  {
    if k: nat :| UsesCutFlow(w, n, q, k, f) {
      UsedCutFlowRemainder(w, n, q, k, f);
    }
    if f % CutGcd(w, n) == q % CutGcd(w, n) {
      var k := RemainderCutFlowUsed(w, n, q, f);
    }
  }
}
