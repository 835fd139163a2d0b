/** The bounded transmit buffer: packets wait in it until it is full or flushed. */
module TxBuffering {

  datatype Fate = Sent | Dropped

  /** A NIC transmit queue: how many of the packets offered in the given call it takes. */
  type Nic = (nat, nat) -> nat

  /** A transmit call takes a prefix, so never more than it was offered. */
  function Taken(nic: Nic, call: nat, offered: nat): (k: nat)
    ensures k <= offered
    ensures nic(call, offered) <= offered ==> k == nic(call, offered)
  {
    if nic(call, offered) <= offered then nic(call, offered) else offered
  }

  /**
   * The buffer with its drop counter, the number of transmit calls so far, what the NIC took, what
   * the error callback freed, and the fate of each packet that has left the buffer.
   */
  datatype TxState<P> = TxState(buffer: seq<P>, drops: nat, calls: nat,
                                sent: seq<P>, dropped: seq<P>, fates: seq<Fate>)

  /** The packets of `ps` that met the given fate, in their own order. */
  function WithFate<P>(ps: seq<P>, fates: seq<Fate>, fate: Fate): seq<P>
    requires |ps| == |fates|
  {
    if ps == [] then []
    else
      var i := |ps| - 1;
      WithFate(ps[..i], fates[..i], fate) + if fates[i] == fate then [ps[i]] else []
  }

  function Repeat(fate: Fate, n: nat): seq<Fate> {
    seq(n, _ => fate)
  }

  // ----- The three operations

  /** rte_eth_tx_buffer_flush: offer everything, count and free what the NIC leaves. */
  function Flush<P>(nic: Nic, x: TxState<P>): TxState<P> {
    if x.buffer == [] then x
    else
      var n := |x.buffer|;
      var k := Taken(nic, x.calls, n);
      TxState([], x.drops + (n - k), x.calls + 1,
              x.sent + x.buffer[..k], x.dropped + x.buffer[k..],
              x.fates + (Repeat(Sent, k) + Repeat(Dropped, n - k)))
  }

  /** rte_eth_tx_buffer: append, and flush when full. */
  function Push<P>(nic: Nic, size: nat, x: TxState<P>, p: P): TxState<P> {
    var y := x.(buffer := x.buffer + [p]);
    if |y.buffer| < size then y else Flush(nic, y)
  }

  function PushAll<P>(nic: Nic, size: nat, x: TxState<P>, ps: seq<P>): TxState<P>
    decreases |ps|
  {
    if ps == [] then x else PushAll(nic, size, Push(nic, size, x, ps[0]), ps[1..])
  }

  lemma PushAllFirst<P>(nic: Nic, size: nat, x: TxState<P>, ps: seq<P>, i: nat)
    requires i < |ps|
    ensures PushAll(nic, size, x, ps[i..]) == PushAll(nic, size, Push(nic, size, x, ps[i]), ps[i + 1..])
  {
    assert ps[i..][1..] == ps[i + 1..];
  }

  /** What the NIC takes of a nonempty buffer is sent, in order; the rest is counted and freed. */
  lemma FlushSends<P>(nic: Nic, x: TxState<P>)
    requires x.buffer != [] && nic(x.calls, |x.buffer|) <= |x.buffer|
    ensures var y, k := Flush(nic, x), nic(x.calls, |x.buffer|);
            && y.sent == x.sent + x.buffer[..k] && y.dropped == x.dropped + x.buffer[k..]
            && y.drops == x.drops + (|x.buffer| - k) && y.calls == x.calls + 1 && y.buffer == []
  {
  }

  /** A push makes a transmit call exactly when it fills the buffer; otherwise the packet only waits. */
  lemma PushCallsIff<P>(nic: Nic, size: nat, x: TxState<P>, p: P)
    requires |x.buffer| < size
    ensures Push(nic, size, x, p).calls == x.calls + 1 <==> |x.buffer| == size - 1
    ensures |x.buffer| < size - 1 ==> Push(nic, size, x, p) == x.(buffer := x.buffer + [p])
  {
  }

  lemma PushAllNothing<P>(nic: Nic, size: nat, x: TxState<P>)
    ensures PushAll(nic, size, x, []) == x
  {
  }

  /** rte_eth_tx_burst followed by freeing the packets it leaves: no buffering. */
  function Transmit<P>(nic: Nic, x: TxState<P>, ps: seq<P>): TxState<P> {
    Flush(nic, x.(buffer := ps))
  }

  // ----- Accounting

  /**
   * Every packet ever offered is in exactly one place: the first ones have a fate and sit in `sent`
   * or `dropped`, the rest are still buffered, and each of the three keeps the offered order.
   */
  ghost predicate Accounts<P>(x: TxState<P>, offered: seq<P>) {
    && |x.fates| <= |offered|
    && x.buffer == offered[|x.fates|..]
    && x.sent == WithFate(offered[..|x.fates|], x.fates, Sent)
    && x.dropped == WithFate(offered[..|x.fates|], x.fates, Dropped)
    && x.drops == |x.dropped|
  }

  lemma {:induction false} WithFateConcat<P>(ps: seq<P>, qs: seq<P>, fs: seq<Fate>, gs: seq<Fate>, fate: Fate)
    requires |ps| == |fs| && |qs| == |gs|
    ensures WithFate(ps + qs, fs + gs, fate) == WithFate(ps, fs, fate) + WithFate(qs, gs, fate)
  {
    if qs == [] {
      assert ps + qs == ps && fs + gs == fs;
    } else {
      var i := |qs| - 1;
      WithFateConcat(ps, qs[..i], fs, gs[..i], fate);
      assert (ps + qs)[..|ps| + i] == ps + qs[..i];
      assert (fs + gs)[..|fs| + i] == fs + gs[..i];
    }
  }

  lemma {:induction false} WithFateUniform<P>(ps: seq<P>, met: Fate, fate: Fate)
    ensures WithFate(ps, Repeat(met, |ps|), fate) == if met == fate then ps else []
  {
    if ps == [] {
    } else {
      var i := |ps| - 1;
      WithFateUniform(ps[..i], met, fate);
      assert Repeat(met, |ps|)[..i] == Repeat(met, i);
      assert ps[..i] + [ps[i]] == ps;
    }
  }

  lemma {:induction false} FateCounts<P>(ps: seq<P>, fates: seq<Fate>)
    requires |ps| == |fates|
    ensures |WithFate(ps, fates, Sent)| + |WithFate(ps, fates, Dropped)| == |ps|
  {
    if ps == [] {
    } else {
      FateCounts(ps[..|ps| - 1], fates[..|ps| - 1]);
    }
  }

  lemma LastCounted<P>(ps: seq<P>, fates: seq<Fate>, i: nat, fate: Fate, p: P)
    requires |ps| == |fates| == i + 1
    ensures multiset(WithFate(ps, fates, fate))[p]
         == multiset(WithFate(ps[..i], fates[..i], fate))[p] + if fates[i] == fate && ps[i] == p then 1 else 0
  {
  }

  lemma LastElement<P>(ps: seq<P>, i: nat, p: P)
    requires |ps| == i + 1
    ensures multiset(ps)[p] == multiset(ps[..i])[p] + if ps[i] == p then 1 else 0
  {
    assert ps == ps[..i] + [ps[i]];
  }

  /** The two fates partition what has left the buffer. */
  lemma {:induction false} FatesPartition<P>(ps: seq<P>, fates: seq<Fate>, p: P)
    requires |ps| == |fates|
    ensures multiset(WithFate(ps, fates, Sent))[p] + multiset(WithFate(ps, fates, Dropped))[p] == multiset(ps)[p]
  {
    if ps == [] {
    } else {
      hide WithFate;
      var i := |ps| - 1;
      FatesPartition(ps[..i], fates[..i], p);
      LastCounted(ps, fates, i, Sent, p);
      LastCounted(ps, fates, i, Dropped, p);
      LastElement(ps, i, p);
    }
  }

  lemma {:induction false} NothingDropped<P>(ps: seq<P>, fates: seq<Fate>)
    requires |ps| == |fates| && WithFate(ps, fates, Dropped) == []
    ensures WithFate(ps, fates, Sent) == ps
  {
    if ps == [] {
    } else {
      var i := |ps| - 1;
      NothingDropped(ps[..i], fates[..i]);
      assert ps == ps[..i] + [ps[i]];
    }
  }

  /** Taking the first packets of a buffer and dropping the others splits it by fate, in order. */
  lemma PrefixTaken<P>(taken: seq<P>, left: seq<P>, fate: Fate)
    ensures WithFate(taken + left, Repeat(Sent, |taken|) + Repeat(Dropped, |left|), fate)
         == if fate == Sent then taken else left
  {
    WithFateConcat(taken, left, Repeat(Sent, |taken|), Repeat(Dropped, |left|), fate);
    WithFateUniform(taken, Sent, fate);
    WithFateUniform(left, Dropped, fate);
  }

  lemma FlushAccounts<P>(nic: Nic, x: TxState<P>, offered: seq<P>)
    requires Accounts(x, offered)
    ensures Accounts(Flush(nic, x), offered)
    ensures Flush(nic, x).buffer == []
  {
    hide WithFate;
    if x.buffer != [] {
      var k := Taken(nic, x.calls, |x.buffer|);
      var gone, taken, left := offered[..|x.fates|], x.buffer[..k], x.buffer[k..];
      var gs := Repeat(Sent, |taken|) + Repeat(Dropped, |left|);
      assert offered == gone + (taken + left);
      WithFateConcat(gone, taken + left, x.fates, gs, Sent);
      WithFateConcat(gone, taken + left, x.fates, gs, Dropped);
      PrefixTaken(taken, left, Sent);
      PrefixTaken(taken, left, Dropped);
      assert offered[..|Flush(nic, x).fates|] == offered;
    }
  }

  lemma AppendAccounts<P>(x: TxState<P>, offered: seq<P>, more: seq<P>)
    requires Accounts(x, offered)
    ensures Accounts(x.(buffer := x.buffer + more), offered + more)
  {
    assert (offered + more)[..|x.fates|] == offered[..|x.fates|];
    assert (offered + more)[|x.fates|..] == x.buffer + more;
  }

  lemma {:induction false} PushAllAccounts<P>(nic: Nic, size: nat, x: TxState<P>, offered: seq<P>, ps: seq<P>)
    requires Accounts(x, offered) && |x.buffer| < size
    ensures Accounts(PushAll(nic, size, x, ps), offered + ps)
    ensures |PushAll(nic, size, x, ps).buffer| < size
    decreases |ps|
  {
    if ps == [] {
      assert offered + ps == offered;
    } else {
      AppendAccounts(x, offered, [ps[0]]);
      FlushAccounts(nic, x.(buffer := x.buffer + [ps[0]]), offered + [ps[0]]);
      PushAllAccounts(nic, size, Push(nic, size, x, ps[0]), offered + [ps[0]], ps[1..]);
      assert offered + [ps[0]] + ps[1..] == offered + ps;
    }
  }

  lemma TransmitAccounts<P>(nic: Nic, x: TxState<P>, offered: seq<P>, ps: seq<P>)
    requires Accounts(x, offered) && x.buffer == []
    ensures Accounts(Transmit(nic, x, ps), offered + ps)
    ensures Transmit(nic, x, ps).buffer == []
  {
    AppendAccounts(x, offered, ps);
    assert x.buffer + ps == ps;
    FlushAccounts(nic, x.(buffer := ps), offered + ps);
  }

  /** Conservation: nothing is lost, duplicated or invented. */
  lemma Conservation<P>(x: TxState<P>, offered: seq<P>)
    requires Accounts(x, offered)
    ensures |offered| == |x.sent| + x.drops + |x.buffer|
    ensures multiset(offered) == multiset(x.sent) + multiset(x.dropped) + multiset(x.buffer)
  {
    var gone := offered[..|x.fates|];
    FateCounts(gone, x.fates);
    assert offered == gone + x.buffer;
    forall p
      ensures multiset(gone)[p] == multiset(x.sent)[p] + multiset(x.dropped)[p]
    {
      FatesPartition(gone, x.fates, p);
    }
    assert multiset(gone) == multiset(x.sent) + multiset(x.dropped);
  }

  /** Buffering keeps the packet balance, and never takes back a transmission or a drop. */
  lemma {:induction false} PushAllGrows<P>(nic: Nic, size: nat, x: TxState<P>, ps: seq<P>)
    ensures var y := PushAll(nic, size, x, ps);
            && x.sent <= y.sent && x.drops <= y.drops
            && |y.sent| + y.drops + |y.buffer| == |x.sent| + x.drops + |x.buffer| + |ps|
    decreases |ps|
  {
    if ps == [] {
    } else {
      PushAllGrows(nic, size, Push(nic, size, x, ps[0]), ps[1..]);
    }
  }

  // ----- A NIC that takes everything

  ghost predicate TakesAll(nic: Nic) {
    forall call, offered :: nic(call, offered) == offered
  }

  lemma {:induction false} PushAllDropsNothing<P>(nic: Nic, size: nat, x: TxState<P>, ps: seq<P>)
    requires TakesAll(nic) && x.dropped == []
    ensures PushAll(nic, size, x, ps).dropped == []
    decreases |ps|
  {
    if ps == [] {
    } else {
      PushAllDropsNothing(nic, size, Push(nic, size, x, ps[0]), ps[1..]);
    }
  }

  // ----- The buffer itself

  class TxBuffer<P(0)> {
    const nic: Nic
    const pkts: array<P>
    var length: nat
    var drops: nat
    var calls: nat
    ghost var sent: seq<P>
    ghost var dropped: seq<P>
    ghost var fates: seq<Fate>

    ghost predicate Valid()
      reads this
    {
      length < pkts.Length
    }

    ghost function State(): TxState<P>
      requires length <= pkts.Length
      reads this, pkts
    {
      TxState(pkts[..length], drops, calls, sent, dropped, fates)
    }

    constructor (nic: Nic, size: nat)
      requires size > 0
      ensures Valid() && fresh(pkts) && this.nic == nic && pkts.Length == size
      ensures State() == TxState([], 0, 0, [], [], [])
    {
      this.nic := nic;
      pkts := new P[size];
      length, drops, calls := 0, 0, 0;
      sent, dropped, fates := [], [], [];
    }

    /** Offers every buffered packet, counts and frees what is left; returns how many were taken. */
    method OfferAll() returns (taken: nat)
      requires 0 < length <= pkts.Length
      modifies this
      ensures Valid() && State() == Flush(nic, old(State()))
      ensures taken == |sent| - |old(sent)|
      ensures nic(old(calls), old(length)) <= old(length) ==> taken == nic(old(calls), old(length))
    {
      var n := length;
      taken := Taken(nic, calls, n);
      calls := calls + 1;
      length := 0;
      if taken != n {
        drops := drops + (n - taken);
      }
      sent, dropped := sent + pkts[..taken], dropped + pkts[taken..n];
      fates := fates + (Repeat(Sent, taken) + Repeat(Dropped, n - taken));
    }

    method FlushBuffer() returns (taken: nat)
      requires Valid()
      modifies this
      ensures Valid() && State() == Flush(nic, old(State()))
      ensures taken == |sent| - |old(sent)|
      ensures old(length) == 0 ==> taken == 0
      ensures 0 < old(length) && nic(old(calls), old(length)) <= old(length) ==>
        && taken == nic(old(calls), old(length)) && drops == old(drops) + (old(length) - taken)
        && sent == old(sent) + old(pkts[..length])[..taken]
        && dropped == old(dropped) + old(pkts[..length])[taken..]
    {
      if length == 0 {
        return 0;
      }
      taken := OfferAll();
    }

    /** Puts a packet behind the others; the buffer may be full then. */
    method Store(p: P)
      requires Valid()
      modifies this`length, pkts
      ensures length <= pkts.Length && State() == old(State()).(buffer := old(State()).buffer + [p])
    {
      pkts[length] := p;
      length := length + 1;
      assert pkts[..length] == old(pkts[..length]) + [p];
    }

    method Append(p: P) returns (taken: nat)
      requires Valid()
      modifies this, pkts
      ensures Valid() && State() == Push(nic, pkts.Length, old(State()), p)
      ensures taken == |sent| - |old(sent)|
    {
      Store(p);
      if length < pkts.Length {
        return 0;
      }
      taken := OfferAll();
    }

    /** The unbuffered alternative: one transmit call for `ps`, then a loop that frees what it left. */
    method TransmitDirectly(ps: seq<P>) returns (taken: nat)
      requires Valid() && length == 0 && ps != []
      modifies this
      ensures Valid() && State() == Transmit(nic, old(State()), ps)
      ensures taken == |sent| - |old(sent)| <= |ps|
      ensures nic(old(calls), |ps|) <= |ps| ==>
        && taken == nic(old(calls), |ps|) && drops == old(drops) + (|ps| - taken)
        && sent == old(sent) + ps[..taken] && dropped == old(dropped) + ps[taken..]
    {
      taken := Taken(nic, calls, |ps|);
      calls, sent := calls + 1, sent + ps[..taken];
      if taken < |ps| {
        FreeFrom(ps, taken);
      }
      fates := fates + (Repeat(Sent, taken) + Repeat(Dropped, |ps| - taken));
    }

    method FreeFrom(ps: seq<P>, first: nat)
      requires first < |ps|
      modifies this`dropped, this`drops
      ensures dropped == old(dropped) + ps[first..] && drops == old(drops) + (|ps| - first)
    {
      for i := first to |ps|
        invariant dropped == old(dropped) + ps[first..i] && drops == old(drops) + (i - first)
      {
        dropped, drops := dropped + [ps[i]], drops + 1;
      }
    }

    /** Appends a whole burst; the 16-bit sum of the transmit counts never wraps. */
    method AppendAll(ps: seq<P>) returns (taken: nat)
      requires Valid() && |ps| + pkts.Length <= 0x1_0000
      modifies this, pkts
      ensures Valid() && State() == PushAll(nic, pkts.Length, old(State()), ps)
      ensures taken == |sent| - |old(sent)|
    {
      taken := 0;
      ghost var x := State();
      for i := 0 to |ps|
        invariant Valid() && PushAll(nic, pkts.Length, State(), ps[i..]) == PushAll(nic, pkts.Length, x, ps)
        invariant taken == |sent| - |x.sent| && x.drops <= drops
        invariant |sent| + drops + length == |x.sent| + x.drops + |x.buffer| + i
      {
        PushAllFirst(nic, pkts.Length, State(), ps, i);
        hide PushAll;
        var k := Append(ps[i]);
        taken := (taken + k) % 0x1_0000;
      }
      assert ps[|ps|..] == [];
    }
  }
}
