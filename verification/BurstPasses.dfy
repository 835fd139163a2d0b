/** The worker's staged passes over one burst: find the headers, rewrite in place, treat checksums. */
module BurstPasses {
  import opened OnesComplement
  import opened Frames
  import opened EchoModes

  /** A packet buffer: a fixed data room of which the first `len` bytes are the frame. */
  class Mbuf {
    const data: array<Byte>
    var len: nat
    var meta: TxMeta

    constructor (data: array<Byte>, len: nat, meta: TxMeta)
      requires len <= data.Length
      ensures Valid() && this.data == data && this.len == len && this.meta == meta
    {
      this.data, this.len, this.meta := data, len, meta;
    }

    ghost predicate Valid()
      reads this
    {
      len <= data.Length
    }

    function Contents(): (p: Packet)
      requires Valid()
      reads this, data
    {
      Packet(data[..len], meta)
    }

    /** The bytes of the data room behind the frame. */
    ghost function Tail(): Frame
      requires Valid()
      reads this, data
    {
      data[len..]
    }
  }

  /** A header pointer: a buffer and an offset into it. */
  datatype HeaderPtr = HeaderPtr(buf: array<Byte>, offset: nat)

  /** The mbufs of one receive burst: valid, distinct, over distinct data rooms. */
  ghost predicate ValidBurst(bufs: seq<Mbuf>)
    reads bufs
  {
    && (forall i :: 0 <= i < |bufs| ==> bufs[i].Valid())
    && (forall i, j :: 0 <= i < j < |bufs| ==> bufs[i] != bufs[j] && bufs[i].data != bufs[j].data)
  }

  ghost function Rooms(bufs: seq<Mbuf>): set<object> {
    set m | m in bufs :: m.data
  }

  ghost function BurstTails(bufs: seq<Mbuf>): (ts: seq<Frame>)
    requires ValidBurst(bufs)
    reads bufs, Rooms(bufs)
    ensures |ts| == |bufs| && forall i :: 0 <= i < |bufs| ==> ts[i] == bufs[i].Tail()
  {
    seq(|bufs|, i requires 0 <= i < |bufs| reads bufs, Rooms(bufs) requires ValidBurst(bufs) => bufs[i].Tail())
  }

  /** The packets in the mbufs of a burst, as they are now. */
  function BurstContents(bufs: seq<Mbuf>): (ps: seq<Packet>)
    requires ValidBurst(bufs)
    reads bufs, Rooms(bufs)
    ensures |ps| == |bufs| && forall i :: 0 <= i < |bufs| ==> ps[i] == bufs[i].Contents()
  {
    seq(|bufs|, i requires 0 <= i < |bufs| && bufs[i].Valid() reads bufs, Rooms(bufs) => bufs[i].Contents())
  }

  // ----- Writes

  /** Copies bytes to an offset. */
  method Put(buf: array<Byte>, at: nat, bytes: Frame)
    requires at + |bytes| <= buf.Length
    modifies buf
    ensures forall i :: 0 <= i < buf.Length ==> buf[i] == if at <= i < at + |bytes| then bytes[i - at] else old(buf[i])
  {
    forall i | at <= i < at + |bytes| {
      buf[i] := bytes[i - at];
    }
  }

  method PutWord(h: HeaderPtr, field: nat, w: Word)
    requires h.offset + field + 1 < h.buf.Length
    modifies h.buf
    ensures h.buf[..] == SetWord(old(h.buf[..]), h.offset + field, w)
  {
    h.buf[h.offset + field] := w / 0x100;
    h.buf[h.offset + field + 1] := w % 0x100;
  }

  /** Exchanges two adjacent fields of `size` bytes through a temporary copy of the first. */
  method ExchangeFields(h: HeaderPtr, first: nat, size: nat)
    requires h.offset + first + 2 * size <= h.buf.Length
    modifies h.buf
    ensures Exchanged(old(h.buf[..]), h.buf[..], h.offset + first, size)
  {
    var a := h.offset + first;
    var tmp := h.buf[a..a + size];
    forall i | a <= i < a + size {
      h.buf[i] := h.buf[i + size];
    }
    forall i | a + size <= i < a + 2 * size {
      h.buf[i] := tmp[i - a - size];
    }
  }

  /** The swap of one packet's Ethernet, IPv4 and UDP endpoints. */
  method SwapInPlace(eth: HeaderPtr, ipv4: HeaderPtr, udp: HeaderPtr)
    requires eth.buf == ipv4.buf == udp.buf && eth.buf.Length >= HEADERS_LENGTH
    requires eth.offset == 0 && ipv4.offset == IP_OFFSET && udp.offset == UDP_OFFSET
    modifies eth.buf
    ensures forall i :: 0 <= i < eth.buf.Length ==> eth.buf[i] == old(eth.buf[Partner(i)])
  {
    ghost var s0 := eth.buf[..];
    ExchangeFields(eth, 0, 6);
    ghost var s1 := eth.buf[..];
    ExchangeFields(ipv4, 12, 4);
    ghost var s2 := eth.buf[..];
    ExchangeFields(udp, 0, 2);
    ThreeExchanges(s0, s1, s2, eth.buf[..]);
  }

  /** Where a byte comes from when the adjacent fields of `size` bytes at `a` are exchanged. */
  function ExchangedFrom(a: nat, size: nat, i: nat): nat {
    if a <= i < a + size then i + size else if a + size <= i < a + 2 * size then i - size else i
  }

  ghost predicate Exchanged(s: Frame, t: Frame, a: nat, size: nat)
    requires a + 2 * size <= |s|
  {
    |t| == |s| && forall i :: 0 <= i < |s| ==> t[i] == s[ExchangedFrom(a, size, i)]
  }

  /** The three exchanges together are the endpoint swap. */
  lemma ThreeExchanges(s0: Frame, s1: Frame, s2: Frame, s3: Frame)
    requires |s0| == |s1| == |s2| >= HEADERS_LENGTH
    requires Exchanged(s0, s1, 0, 6) && Exchanged(s1, s2, 26, 4) && Exchanged(s2, s3, 34, 2)
    ensures |s3| == |s0| && forall i :: 0 <= i < |s0| ==> s3[i] == s0[Partner(i)]
  {
    forall i | 0 <= i < |s0|
      ensures s3[i] == s0[Partner(i)]
    {
      var j := ExchangedFrom(34, 2, i);
      var k := ExchangedFrom(26, 4, j);
      assert s3[i] == s2[j] == s1[k] == s0[ExchangedFrom(0, 6, k)];
    }
  }

  // ----- Pass 1: parse

  /**
   * Fills the header-pointer arrays. The prefetching variant also touches, at each step, the mbuf
   * `lookAhead` places on, if there is one; `fetched` lists the positions touched.
   */
  method ParseBurst(bufs: seq<Mbuf>, eth: array<HeaderPtr>, ipv4: array<HeaderPtr>, udp: array<HeaderPtr>,
                    prefetch: bool, lookAhead: nat)
    returns (fetched: seq<nat>)
    requires |bufs| <= eth.Length && |bufs| <= ipv4.Length && |bufs| <= udp.Length
    requires eth != ipv4 && eth != udp && ipv4 != udp
    modifies eth, ipv4, udp
    ensures HeadersParsed(bufs, eth, ipv4, udp)
    ensures |fetched| == if !prefetch || lookAhead >= |bufs| then 0 else |bufs| - lookAhead
    ensures forall k :: 0 <= k < |fetched| ==> fetched[k] == k + lookAhead < |bufs|
  {
    fetched := [];
    for i := 0 to |bufs|
      invariant forall k :: 0 <= k < i ==>
        && eth[k] == HeaderPtr(bufs[k].data, 0)
        && ipv4[k] == HeaderPtr(bufs[k].data, IP_OFFSET)
        && udp[k] == HeaderPtr(bufs[k].data, UDP_OFFSET)
      invariant |fetched| == if !prefetch || lookAhead >= |bufs| then 0
                             else if i + lookAhead <= |bufs| then i
                             else |bufs| - lookAhead
      invariant forall k :: 0 <= k < |fetched| ==> fetched[k] == k + lookAhead < |bufs|
    {
      if prefetch && i + lookAhead < |bufs| {
        fetched := fetched + [i + lookAhead];
      }
      eth[i] := HeaderPtr(bufs[i].data, 0);
      ipv4[i] := HeaderPtr(bufs[i].data, IP_OFFSET);
      udp[i] := HeaderPtr(bufs[i].data, UDP_OFFSET);
    }
  }

  ghost predicate HeadersParsed(bufs: seq<Mbuf>, eth: array<HeaderPtr>, ipv4: array<HeaderPtr>, udp: array<HeaderPtr>)
    reads eth, ipv4, udp
  {
    && |bufs| <= eth.Length && |bufs| <= ipv4.Length && |bufs| <= udp.Length
    && forall k :: 0 <= k < |bufs| ==>
         && eth[k] == HeaderPtr(bufs[k].data, 0)
         && ipv4[k] == HeaderPtr(bufs[k].data, IP_OFFSET)
         && udp[k] == HeaderPtr(bufs[k].data, UDP_OFFSET)
  }

  // ----- Pass 2: rewrite

  method RewriteBurst(bufs: seq<Mbuf>, eth: array<HeaderPtr>, ipv4: array<HeaderPtr>, udp: array<HeaderPtr>)
    requires ValidBurst(bufs) && HeadersParsed(bufs, eth, ipv4, udp)
    requires forall i :: 0 <= i < |bufs| ==> bufs[i].len >= HEADERS_LENGTH
    modifies Rooms(bufs)
    ensures ValidBurst(bufs) && HeadersParsed(bufs, eth, ipv4, udp)
    ensures forall i :: 0 <= i < |bufs| ==>
      bufs[i].Contents() == old(bufs[i].Contents()).(frame := SwapEndpoints(old(bufs[i].Contents()).frame))
    ensures BurstTails(bufs) == old(BurstTails(bufs))
  {
    for i := 0 to |bufs|
      invariant ValidBurst(bufs) && HeadersParsed(bufs, eth, ipv4, udp)
      invariant forall k :: 0 <= k < i ==> bufs[k].data[..] == SwapEndpoints(old(bufs[k].data[..]))
      invariant forall k :: i <= k < |bufs| ==> bufs[k].data[..] == old(bufs[k].data[..])
    {
      label before:
      SwapInPlace(eth[i], ipv4[i], udp[i]);
      assert bufs[i].data[..] == SwapEndpoints(old(bufs[i].data[..]));
      hide SwapEndpoints;
      assert forall k :: 0 <= k < |bufs| && k != i ==> bufs[k].data[..] == old@before(bufs[k].data[..]);
    }
    forall i | 0 <= i < |bufs|
      ensures bufs[i].Contents() == old(bufs[i].Contents()).(frame := SwapEndpoints(old(bufs[i].Contents()).frame))
      ensures bufs[i].Tail() == old(bufs[i].Tail())
    {
      SwapOfPrefix(old(bufs[i].data[..]), bufs[i].len);
    }
  }

  /** The swap of a data room is the swap of the frame in front and leaves the rest alone. */
  lemma SwapOfPrefix(s: Frame, n: nat)
    requires HEADERS_LENGTH <= n <= |s|
    ensures SwapEndpoints(s)[..n] == SwapEndpoints(s[..n]) && SwapEndpoints(s)[n..] == s[n..]
  {
  }

  // ----- Pass 3: checksums

  method RecomputeInPlace(m: Mbuf, ipv4: HeaderPtr, udp: HeaderPtr)
    requires m.Valid() && ipv4 == HeaderPtr(m.data, IP_OFFSET) && udp == HeaderPtr(m.data, UDP_OFFSET)
    requires ChecksumsInRange(m.data[..m.len])
    modifies m.data
    ensures m.data[..m.len] == RecomputeUdp(RecomputeIp(old(m.data[..m.len])))
    ensures m.Tail() == old(m.Tail())
  {
    hide WordSum, Fold, Ipv4Cksum, UdpCksum;
    var n := m.len;
    ghost var f := m.data[..n];
    PutWord(ipv4, 10, 0);
    assert m.data[..n] == SetWord(f, IP_CKSUM_FIELD, 0);
    PutWord(ipv4, 10, Ipv4Cksum(m.data[..n]));
    ghost var g := m.data[..n];
    assert g == RecomputeIp(f);
    PutWord(udp, 6, 0);
    assert m.data[..n] == SetWord(g, UDP_CKSUM_FIELD, 0);
    PutWord(udp, 6, UdpCksum(m.data[..n]));
    assert m.data[..n] == RecomputeUdp(g);
  }

  method TreatChecksumsInPlace(mode: ChecksumMode, m: Mbuf, ipv4: HeaderPtr, udp: HeaderPtr)
    requires m.Valid() && ipv4 == HeaderPtr(m.data, IP_OFFSET) && udp == HeaderPtr(m.data, UDP_OFFSET)
    requires Accepts(mode, m.data[..m.len])
    modifies m`meta, m.data
    ensures m.Valid() && m.Contents() == TreatChecksums(mode, old(m.Contents())) && m.Tail() == old(m.Tail())
  {
    hide RecomputeIp, RecomputeUdp, PseudoHeaderCksum;
    var n := m.len;
    if mode == Software {
      RecomputeInPlace(m, ipv4, udp);
    } else if mode == Offload {
      m.meta := TxMeta(14, 20, 8, {TxIpv4, TxIpCksum, TxUdpCksum});
      PutWord(ipv4, 10, 0);
      assert m.data[..n] == SetWord(old(m.data[..n]), IP_CKSUM_FIELD, 0);
      PutWord(udp, 6, PseudoHeaderCksum(m.data[..n]));
    } else if mode == None {
      PutWord(ipv4, 10, 0);
      PutWord(udp, 6, 0);
    }
  }

  /** One step of the pass: mbuf `i` is treated, every other mbuf of the burst is left alone. */
  method ChecksumAt(mode: ChecksumMode, bufs: seq<Mbuf>, i: nat, ipv4: array<HeaderPtr>, udp: array<HeaderPtr>)
    requires ValidBurst(bufs) && i < |bufs| && i < ipv4.Length && i < udp.Length
    requires ipv4[i] == HeaderPtr(bufs[i].data, IP_OFFSET) && udp[i] == HeaderPtr(bufs[i].data, UDP_OFFSET)
    requires Accepts(mode, bufs[i].Contents().frame)
    modifies bufs[i], bufs[i].data
    ensures ValidBurst(bufs)
    ensures BurstContents(bufs) == old(BurstContents(bufs))[i := TreatChecksums(mode, old(bufs[i].Contents()))]
    ensures BurstTails(bufs) == old(BurstTails(bufs))
  {
    TreatChecksumsInPlace(mode, bufs[i], ipv4[i], udp[i]);
    ghost var now, was := BurstContents(bufs), old(BurstContents(bufs));
    forall k | 0 <= k < |bufs| && k != i
      ensures now[k] == was[k] && bufs[k].Tail() == old(bufs[k].Tail())
    {
      assert bufs[k].data[..] == old(bufs[k].data[..]);
    }
  }

  method ChecksumBurst(mode: ChecksumMode, bufs: seq<Mbuf>, ipv4: array<HeaderPtr>, udp: array<HeaderPtr>,
                       ghost eth: array<HeaderPtr>)
    requires ValidBurst(bufs) && HeadersParsed(bufs, eth, ipv4, udp)
    requires forall i :: 0 <= i < |bufs| ==> Accepts(mode, bufs[i].Contents().frame)
    modifies bufs, Rooms(bufs)
    ensures ValidBurst(bufs)
    ensures forall i :: 0 <= i < |bufs| ==> bufs[i].Contents() == TreatChecksums(mode, old(bufs[i].Contents()))
    ensures BurstTails(bufs) == old(BurstTails(bufs))
  {
    hide TreatChecksums, Accepts, BurstContents, BurstTails;
    ghost var was := BurstContents(bufs);
    for i := 0 to |bufs|
      invariant ValidBurst(bufs) && HeadersParsed(bufs, eth, ipv4, udp)
      invariant forall k :: 0 <= k < i ==> BurstContents(bufs)[k] == TreatChecksums(mode, was[k])
      invariant BurstContents(bufs)[i..] == was[i..]
      invariant BurstTails(bufs) == old(BurstTails(bufs))
    {
      assert bufs[i].Contents() == was[i..][0];
      ChecksumAt(mode, bufs, i, ipv4, udp);
    }
  }

  /** The two passes that write: rewrite, then checksums. */
  method TransformBurst(mode: ChecksumMode, bufs: seq<Mbuf>, eth: array<HeaderPtr>, ipv4: array<HeaderPtr>,
                        udp: array<HeaderPtr>)
    requires ValidBurst(bufs) && HeadersParsed(bufs, eth, ipv4, udp)
    requires forall i :: 0 <= i < |bufs| ==> Accepts(mode, bufs[i].Contents().frame)
    modifies bufs, Rooms(bufs)
    ensures ValidBurst(bufs) && BurstTails(bufs) == old(BurstTails(bufs))
    ensures forall i :: 0 <= i < |bufs| ==> bufs[i].Contents() == Echo(mode, old(bufs[i].Contents()))
  {
    forall i | 0 <= i < |bufs|
      ensures Accepts(mode, SwapEndpoints(bufs[i].Contents().frame))
    {
      SwapKeepsAccepts(mode, bufs[i].Contents().frame);
    }
    hide SwapEndpoints, TreatChecksums;
    RewriteBurst(bufs, eth, ipv4, udp);
    ChecksumBurst(mode, bufs, ipv4, udp, eth);
  }

  /** The three passes together leave every mbuf of the burst equal to the pure per-packet echo. */
  method EchoBurst(mode: ChecksumMode, bufs: seq<Mbuf>, prefetch: bool, lookAhead: nat,
                   eth: array<HeaderPtr>, ipv4: array<HeaderPtr>, udp: array<HeaderPtr>)
    requires ValidBurst(bufs)
    requires forall i :: 0 <= i < |bufs| ==> Accepts(mode, bufs[i].Contents().frame)
    requires |bufs| <= eth.Length && |bufs| <= ipv4.Length && |bufs| <= udp.Length
    requires eth != ipv4 && eth != udp && ipv4 != udp
    modifies bufs, Rooms(bufs), eth, ipv4, udp
    ensures ValidBurst(bufs)
    ensures forall i :: 0 <= i < |bufs| ==> bufs[i].Contents() == Echo(mode, old(bufs[i].Contents()))
    ensures BurstTails(bufs) == old(BurstTails(bufs))
  {
    hide Echo, Accepts;
    var fetched := ParseBurst(bufs, eth, ipv4, udp, prefetch, lookAhead);
    TransformBurst(mode, bufs, eth, ipv4, udp);
  }
}
