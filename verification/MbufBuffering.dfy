/** The transmit buffer of mbuf pointers, together with the bytes that leave it at each transmit call. */
module MbufBuffering {
  import opened EchoModes
  import opened BurstPasses
  import opened TxBuffering

  /** No mbuf and no data room is shared between the two. */
  ghost predicate Apart(waiting: seq<Mbuf>, bufs: seq<Mbuf>) {
    forall i, j :: 0 <= i < |waiting| && 0 <= j < |bufs| ==> waiting[i] != bufs[j] && waiting[i].data != bufs[j].data
  }

  /**
   * `slots` holds pointers. Bytes are read from the mbufs behind them only when they are offered:
   * `sentFrames` is what the NIC read, `droppedFrames` what was in the mbufs that were freed instead.
   */
  class MbufTxBuffer {
    const slots: TxBuffer<Mbuf?>
    var sentFrames: seq<Packet>
    var droppedFrames: seq<Packet>
    ghost var waiting: seq<Mbuf>

    ghost predicate Valid()
      reads this, waiting, slots, slots.pkts
    {
      slots.Valid() && Holds()
    }

    /** The slots are the waiting mbufs, perhaps as many as fit. */
    ghost predicate Holds()
      reads this, waiting, slots, slots.pkts
    {
      slots.length <= slots.pkts.Length && slots.pkts[..slots.length] == waiting && ValidBurst(waiting)
    }

    /** The buffer in terms of bytes: those read so far, and those the waiting mbufs hold now. */
    ghost function Wire(): TxState<Packet>
      requires Holds()
      reads this, waiting, Rooms(waiting), slots, slots.pkts
    {
      TxState(BurstContents(waiting), slots.drops, slots.calls, sentFrames, droppedFrames, slots.fates)
    }

    constructor (nic: Nic, size: nat)
      requires size > 0
      ensures Valid() && fresh(slots) && fresh(slots.pkts) && slots.nic == nic && slots.pkts.Length == size
      ensures waiting == [] && slots.State() == TxState([], 0, 0, [], [], [])
      ensures Wire() == TxState([], 0, 0, [], [], [])
    {
      slots := new TxBuffer(nic, size);
      sentFrames, droppedFrames, waiting := [], [], [];
    }

    /** The transmit call: the NIC reads the mbufs it takes, and the callback frees the others. */
    method Transmit() returns (taken: nat)
      requires Holds() && slots.length > 0
      modifies this, slots
      ensures Valid() && waiting == [] && taken <= |old(waiting)|
      ensures var offered := old(slots.length); var asked := slots.nic(old(slots.calls), offered);
              asked <= offered ==> taken == asked
      ensures slots.State() == Flush(slots.nic, old(slots.State()))
      ensures sentFrames == old(sentFrames) + old(BurstContents(waiting))[..taken]
      ensures droppedFrames == old(droppedFrames) + old(BurstContents(waiting))[taken..]
      ensures Wire() == Flush(slots.nic, old(Wire()))
    {
      hide BurstContents, Repeat;
      var offered: seq<Mbuf> := slots.pkts[..slots.length];
      taken := slots.OfferAll();
      sentFrames := sentFrames + BurstContents(offered)[..taken];
      droppedFrames := droppedFrames + BurstContents(offered)[taken..];
      waiting := [];
      assert BurstContents(waiting) == [];
    }

    method FlushBuffer()
      requires Valid()
      modifies this, slots
      ensures Valid() && waiting == []
      ensures slots.State() == Flush(slots.nic, old(slots.State())) && Wire() == Flush(slots.nic, old(Wire()))
    {
      if slots.length > 0 {
        var taken := Transmit();
      }
    }

    method Store(m: Mbuf)
      requires Valid() && m.Valid() && Apart(waiting, [m])
      modifies this`waiting, slots`length, slots.pkts
      ensures Holds() && waiting == old(waiting) + [m]
      ensures slots.State() == old(slots.State()).(buffer := old(slots.State()).buffer + [m])
      ensures Wire() == old(Wire()).(buffer := old(Wire()).buffer + [m.Contents()])
    {
      slots.Store(m);
      waiting := waiting + [m];
      assert BurstContents(waiting) == old(BurstContents(waiting)) + [m.Contents()];
    }

    method Append(m: Mbuf)
      requires Valid() && m.Valid() && Apart(waiting, [m])
      modifies this, slots, slots.pkts
      ensures Valid() && (waiting == [] || waiting == old(waiting) + [m])
      ensures slots.State() == Push(slots.nic, slots.pkts.Length, old(slots.State()), m)
      ensures Wire() == Push(slots.nic, slots.pkts.Length, old(Wire()), m.Contents())
    {
      hide Flush, BurstContents;
      Store(m);
      if slots.length == slots.pkts.Length {
        var taken := Transmit();
      }
    }

    /** Buffers a burst. Each mbuf is read when the buffer is full, from the bytes it holds then. */
    method AppendAll(bufs: seq<Mbuf>)
      requires Valid() && ValidBurst(bufs) && Apart(waiting, bufs)
      modifies this, slots, slots.pkts
      ensures Valid() && forall m :: m in waiting ==> m in old(waiting) + bufs
      ensures slots.State() == PushAll(slots.nic, slots.pkts.Length, old(slots.State()), bufs)
      ensures Wire() == PushAll(slots.nic, slots.pkts.Length, old(Wire()), BurstContents(bufs))
    {
      hide PushAll, Push, BurstContents, Apart;
      ghost var x, y, ps := slots.State(), Wire(), BurstContents(bufs);
      ghost var size := slots.pkts.Length;
      assert bufs[0..] == bufs && ps[0..] == ps;
      for i := 0 to |bufs|
        invariant Valid() && Apart(waiting, bufs[i..]) && BurstContents(bufs) == ps
        invariant forall m :: m in waiting ==> m in old(waiting) + bufs
        invariant PushAll(slots.nic, size, slots.State(), bufs[i..]) == PushAll(slots.nic, size, x, bufs)
        invariant PushAll(slots.nic, size, Wire(), ps[i..]) == PushAll(slots.nic, size, y, ps)
      {
        PushAllFirst<Mbuf?>(slots.nic, size, slots.State(), bufs, i);
        PushAllFirst(slots.nic, size, Wire(), ps, i);
        ApartNext(waiting, bufs, i);
        Append(bufs[i]);
      }
      PushAllNothing<Mbuf?>(slots.nic, size, slots.State());
      PushAllNothing(slots.nic, size, Wire());
      assert bufs[|bufs|..] == [] && ps[|ps|..] == [];
    }
  }

  lemma ApartNext(waiting: seq<Mbuf>, bufs: seq<Mbuf>, i: nat)
    requires ValidBurst(bufs) && i < |bufs| && Apart(waiting, bufs[i..])
    ensures Apart(waiting, [bufs[i]]) && Apart([], bufs[i + 1..]) && Apart(waiting + [bufs[i]], bufs[i + 1..])
  {
    assert bufs[i..][0] == bufs[i];
    assert bufs[i..][1..] == bufs[i + 1..];
  }
}
