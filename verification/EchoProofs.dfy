/** When the checksum modes agree, and what the replies verify. */
module EchoProofs {
  import opened OnesComplement
  import opened Frames
  import opened EchoModes

  // ----- Which bytes an echo touches

  /** The swap moves bytes within the endpoint fields, so it keeps every structural property. */
  lemma SwapKeepsShape(f: Frame)
    requires |f| >= HEADERS_LENGTH
    ensures Parsable(SwapEndpoints(f)) == Parsable(f)
    ensures WellFormed(SwapEndpoints(f)) == WellFormed(f)
    ensures ChecksumsInRange(SwapEndpoints(f)) == ChecksumsInRange(f)
  {
    var g := SwapEndpoints(f);
    assert forall i :: 38 <= i < |f| ==> g[i] == f[i];
  }

  predicate ChecksumField(i: nat) {
    i == 24 || i == 25 || i == 40 || i == 41
  }

  /** Every mode leaves each byte outside the two checksum fields exactly where the swap puts it. */
  lemma EchoOnlySwapsOutsideChecksums(mode: ChecksumMode, p: Packet, i: nat)
    requires Accepts(mode, p.frame) && i < |p.frame| && !ChecksumField(i)
    ensures Accepts(mode, SwapEndpoints(p.frame))
    ensures Echo(mode, p).frame[i] == p.frame[Partner(i)]
    ensures Partner(Partner(i)) == i && !ChecksumField(Partner(i))
  {
    SwapKeepsShape(p.frame);
  }

  /** In every mode both endpoints of all three layers are exchanged; nothing else but checksums changes. */
  lemma EndpointsExchanged(mode: ChecksumMode, p: Packet)
    requires Accepts(mode, p.frame)
    ensures var f, r := p.frame, Echo(mode, p).frame;
            && |r| == |f|
            && r[0..6] == f[6..12] && r[6..12] == f[0..6] && r[12..24] == f[12..24]
            && r[26..30] == f[30..34] && r[30..34] == f[26..30]
            && r[34..36] == f[36..38] && r[36..38] == f[34..36] && r[38..40] == f[38..40] && r[42..] == f[42..]
  {
    hide Echo;
    var f, r := p.frame, Echo(mode, p).frame;
    assert |f| >= HEADERS_LENGTH;
    forall i | 0 <= i < |f| && !ChecksumField(i)
      ensures Partner(i) < |f| && r[i] == f[Partner(i)]
    {
      EchoOnlySwapsOutsideChecksums(mode, p, i);
    }
    SwappedSlices(f, r);
  }

  lemma SwappedSlices(f: Frame, r: Frame)
    requires |r| == |f| >= HEADERS_LENGTH
    requires forall i :: 0 <= i < |f| && !ChecksumField(i) ==> Partner(i) < |f| && r[i] == f[Partner(i)]
    ensures r[0..6] == f[6..12] && r[6..12] == f[0..6] && r[12..24] == f[12..24]
    ensures r[26..30] == f[30..34] && r[30..34] == f[26..30]
    ensures r[34..36] == f[36..38] && r[36..38] == f[34..36] && r[38..40] == f[38..40] && r[42..] == f[42..]
  {
  }

  /** What each mode leaves as header checksum and as transmit metadata. */
  lemma EchoStoresIpWord(mode: ChecksumMode, p: Packet)
    requires Accepts(mode, p.frame)
    ensures Accepts(mode, SwapEndpoints(p.frame))
    ensures WordAt(Echo(mode, p).frame, 24)
            == match mode
               case Software => IpWord(SwapEndpoints(p.frame))
               case Offload => 0
               case Preserve => WordAt(p.frame, 24)
               case None => 0
    ensures Echo(mode, p).meta == if mode == Offload then TxMeta(14, 20, 8, {TxIpv4, TxIpCksum, TxUdpCksum}) else p.meta
  {
    SwapKeepsAccepts(mode, p.frame);
    assert WordAt(SwapEndpoints(p.frame), 24) == WordAt(p.frame, 24);
    hide SwapEndpoints, Ipv4Cksum, UdpCksum, PseudoHeaderCksum;
  }

  /** Requests whose checksums are the ones recomputation would store. */
  predicate Canonical(f: Frame) {
    && WellFormed(f)
    && IpVerifies(f) && WordAt(f, IP_CKSUM_FIELD) != 0xFFFF
    && UdpVerifies(f) && WordAt(f, UDP_CKSUM_FIELD) != 0
  }

  // ----- preserve

  /** A preserve reply verifies exactly when the request did, with or without IPv4 options. */
  lemma PreserveVerifiesIff(p: Packet)
    requires Parsable(p.frame)
    ensures Parsable(Echo(Preserve, p).frame)
    ensures IpVerifies(Echo(Preserve, p).frame) <==> IpVerifies(p.frame)
    ensures UdpVerifies(Echo(Preserve, p).frame) <==> UdpVerifies(p.frame)
  {
    hide WordSum, Fold, UdpSum;
    SwapKeepsShape(p.frame);
    SwapKeepsWordSum(p.frame, IP_OFFSET + IpHeaderLength(p.frame));
    SwapKeepsUdpSum(p.frame);
  }

  lemma SwapKeepsUdpSum(f: Frame)
    requires Parsable(f)
    ensures Parsable(SwapEndpoints(f)) && UdpSum(SwapEndpoints(f)) == UdpSum(f)
  {
    hide WordSum;
    SwapKeepsShape(f);
    var g := SwapEndpoints(f);
    var udp := IP_OFFSET + IpHeaderLength(f);
    var length := WordAt(f, udp + 4);
    PseudoHeaderSwap(f, length);
    assert WordSum(g[udp..udp + length]) == WordSum(f[udp..udp + length]) by {
      if udp == UDP_OFFSET {
        SwapKeepsUdpWordSum(f, udp + length);
      } else {
        SwapKeepsSlice(f, udp, udp + length);
      }
    }
  }

  lemma SwapKeepsSlice(f: Frame, lo: nat, hi: nat)
    requires 38 <= lo <= hi <= |f| && HEADERS_LENGTH <= |f|
    ensures SwapEndpoints(f)[lo..hi] == f[lo..hi]
  {
  }

  lemma PseudoHeaderSwap(f: Frame, length: Word)
    requires |f| >= HEADERS_LENGTH
    ensures WordSum(PseudoHeader(SwapEndpoints(f), length)) == WordSum(PseudoHeader(f, length))
  {
    var g := SwapEndpoints(f);
    SwapKeepsWordSum(f, UDP_OFFSET);
    var tail := [0, f[PROTOCOL_FIELD]] + WordBytes(length);
    assert PseudoHeader(f, length) == f[IP_SRC_FIELD..UDP_OFFSET] + tail;
    assert PseudoHeader(g, length) == g[IP_SRC_FIELD..UDP_OFFSET] + tail;
    WordSumConcat(f[IP_SRC_FIELD..UDP_OFFSET], tail);
    WordSumConcat(g[IP_SRC_FIELD..UDP_OFFSET], tail);
  }

  /** Under preserve the second echo undoes the first. */
  lemma PreserveTwice(p: Packet)
    requires |p.frame| >= HEADERS_LENGTH
    ensures Echo(Preserve, Echo(Preserve, p)) == p
  {
    SwapTwice(p.frame);
  }

  // ----- Options

  /** The reply carries the request's ports the other way round, where the IHL field puts them. */
  predicate PortsExchanged(f: Frame, r: Frame)
    requires Parsable(f) && |r| == |f|
  {
    var udp := IP_OFFSET + IpHeaderLength(f);
    WordAt(r, udp) == WordAt(f, udp + 2) && WordAt(r, udp + 2) == WordAt(f, udp)
  }

  predicate EqualPorts(f: Frame)
    requires Parsable(f)
  {
    var udp := IP_OFFSET + IpHeaderLength(f);
    WordAt(f, udp) == WordAt(f, udp + 2)
  }

  /** The word that a mode leaves at the fixed place of the UDP checksum in the swapped frame `g`. */
  function StoredWord(mode: ChecksumMode, g: Frame): Word
    requires Accepts(mode, g)
  {
    match mode
    case Software => UdpWord(g)
    case Offload => PseudoHeaderCksum(g)
    case Preserve => WordAt(g, UDP_CKSUM_FIELD)
    case None => 0
  }

  /** That is the word there in the reply, whatever the header length is. */
  lemma EchoStoresWord(mode: ChecksumMode, p: Packet)
    requires Accepts(mode, p.frame)
    ensures Accepts(mode, SwapEndpoints(p.frame))
    ensures WordAt(Echo(mode, p).frame, UDP_CKSUM_FIELD) == StoredWord(mode, SwapEndpoints(p.frame))
  {
    SwapKeepsAccepts(mode, p.frame);
    var g := SwapEndpoints(p.frame);
    hide SwapEndpoints, WordSum, Fold;
    if mode == Software {
      UdpWordIgnoresIp(g);
    } else if mode == Offload {
      PseudoHeaderIgnores(g, IP_CKSUM_FIELD, 0, TotalLength(g) - IpHeaderLength(g));
    }
  }

  /** The header checksum is not among what the UDP checksum sums. */
  lemma UdpWordIgnoresIp(f: Frame)
    requires ChecksumsInRange(f)
    ensures UdpWord(RecomputeIp(f)) == UdpWord(f)
  {
    hide WordSum, Fold, Ipv4Cksum, CarryStep;
    var y, z := SetWord(RecomputeIp(f), UDP_CKSUM_FIELD, 0), SetWord(f, UDP_CKSUM_FIELD, 0);
    var length := TotalLength(f) - IpHeaderLength(f);
    assert y[UDP_OFFSET..UDP_OFFSET + length] == z[UDP_OFFSET..UDP_OFFSET + length];
    assert y[IP_SRC_FIELD..UDP_OFFSET] == z[IP_SRC_FIELD..UDP_OFFSET];
    assert PseudoHeader(y, length) == PseudoHeader(z, length);
  }

  /**
   * The server finds the UDP header at a fixed offset. Where a receiver honours the IHL field, the
   * reply of any mode carries exchanged ports exactly when the header has no options, or both ports
   * are equal; and behind a header of 24 bytes, where the fixed checksum field is the destination
   * port, the word stored there must be that port too.
   */
  lemma PortsExchangedIff(mode: ChecksumMode, p: Packet)
    requires Parsable(p.frame) && Accepts(mode, p.frame)
    ensures Accepts(mode, SwapEndpoints(p.frame))
    ensures PortsExchanged(p.frame, Echo(mode, p).frame) <==>
            || IpHeaderLength(p.frame) == 20
            || (EqualPorts(p.frame) &&
                (IpHeaderLength(p.frame) == 24 ==> WordAt(p.frame, 38) == StoredWord(mode, SwapEndpoints(p.frame))))
  {
    hide Echo, SwapEndpoints, StoredWord;
    var f, r, udp := p.frame, Echo(mode, p).frame, IP_OFFSET + IpHeaderLength(p.frame);
    SwapKeepsAccepts(mode, f);
    if udp == 38 {
      DestinationPortOverwritten(mode, p);
    } else {
      forall i | udp <= i < udp + 4
        ensures r[i] == f[Partner(i)]
      {
        EchoOnlySwapsOutsideChecksums(mode, p, i);
      }
      WordsMoved(f, r, udp);
    }
  }

  lemma WordsMoved(f: Frame, r: Frame, udp: nat)
    requires |r| == |f| && udp + 4 <= |f| && (udp == 34 || 38 <= udp)
    requires forall i :: udp <= i < udp + 4 ==> r[i] == f[Partner(i)]
    ensures if udp == 34 then WordAt(r, 34) == WordAt(f, 36) && WordAt(r, 36) == WordAt(f, 34)
            else WordAt(r, udp) == WordAt(f, udp) && WordAt(r, udp + 2) == WordAt(f, udp + 2)
  {
    assert r[udp] == f[Partner(udp)] && r[udp + 1] == f[Partner(udp + 1)];
    assert r[udp + 2] == f[Partner(udp + 2)] && r[udp + 3] == f[Partner(udp + 3)];
  }

  /**
   * Behind a 24-byte header the source port stays, and the destination port is replaced by the word
   * that the mode stores: the checksum, the pseudo-header sum, or zero. Preserve keeps the port.
   */
  lemma DestinationPortOverwritten(mode: ChecksumMode, p: Packet)
    requires Parsable(p.frame) && Accepts(mode, p.frame) && IpHeaderLength(p.frame) == 24
    ensures Accepts(mode, SwapEndpoints(p.frame))
    ensures WordAt(Echo(mode, p).frame, 38) == WordAt(p.frame, 38)
    ensures WordAt(Echo(mode, p).frame, 40) == StoredWord(mode, SwapEndpoints(p.frame))
    ensures mode == Preserve ==> StoredWord(mode, SwapEndpoints(p.frame)) == WordAt(p.frame, 40)
  {
    hide Echo, SwapEndpoints, UdpWord, PseudoHeaderCksum;
    EchoOnlySwapsOutsideChecksums(mode, p, 38);
    EchoOnlySwapsOutsideChecksums(mode, p, 39);
    EchoStoresWord(mode, p);
    SwapKeepsWord(p.frame, 40);
  }

  lemma SwapKeepsWord(f: Frame, i: nat)
    requires 38 <= i && i + 1 < |f| && HEADERS_LENGTH <= |f|
    ensures WordAt(SwapEndpoints(f), i) == WordAt(f, i)
  {
  }

  // ----- The canonical checksum words

  /** The header checksum that recomputation stores in `f`. */
  function IpWord(f: Frame): Word
    requires ChecksumsInRange(f)
  {
    Ipv4Cksum(SetWord(f, IP_CKSUM_FIELD, 0))
  }

  /** The UDP checksum that recomputation stores in `f`. */
  function UdpWord(f: Frame): Word
    requires ChecksumsInRange(f)
  {
    UdpCksum(SetWord(f, UDP_CKSUM_FIELD, 0))
  }

  lemma IpWordVerifies(f: Frame)
    requires WellFormed(f)
    ensures IpWord(f) != 0xFFFF
    ensures IpVerifies(f) <==>
            WordAt(f, IP_CKSUM_FIELD) == IpWord(f) || (WordAt(f, IP_CKSUM_FIELD) == 0xFFFF && IpWord(f) == 0)
  {
    var z := SetWord(f, IP_CKSUM_FIELD, 0);
    SetWordInSum(f, IP_OFFSET, IP_CKSUM_FIELD, UDP_OFFSET, 0);
    WordSumPositive(z[IP_OFFSET..UDP_OFFSET], 0);
    VerifyingWords(WordSum(z[IP_OFFSET..UDP_OFFSET]), WordAt(f, IP_CKSUM_FIELD));
  }

  /** The one-pass RFC 768 sum of `f` with its checksum field taken as zero. */
  function UdpRest(f: Frame): nat
    requires WellFormed(f)
  {
    var length := TotalLength(f) - 20;
    WordSum(PseudoHeader(f, length))
    + WordSum(SetWord(f, UDP_CKSUM_FIELD, 0)[UDP_OFFSET..UDP_OFFSET + length])
  }

  lemma UdpWordVerifies(f: Frame)
    requires WellFormed(f)
    ensures UdpWord(f) == if Fold(UdpRest(f)) == 0xFFFF then 0xFFFF else 0xFFFF - Fold(UdpRest(f))
    ensures Fold(UdpSum(f)) == 0xFFFF <==>
            || WordAt(f, UDP_CKSUM_FIELD) == UdpWord(f)
            || (WordAt(f, UDP_CKSUM_FIELD) == 0 && UdpWord(f) == 0xFFFF)
  {
    var length := TotalLength(f) - 20;
    UdpRestPositive(f);
    SetWordInSum(f, UDP_OFFSET, UDP_CKSUM_FIELD, UDP_OFFSET + length, 0);
    assert UdpSum(f) == UdpRest(f) + WordAt(f, UDP_CKSUM_FIELD);
    VerifyingWords(UdpRest(f), WordAt(f, UDP_CKSUM_FIELD));
    UdpWordForm(f);
  }

  lemma UdpRestPositive(f: Frame)
    requires WellFormed(f)
    ensures UdpRest(f) > 0
  {
    var ph := PseudoHeader(f, TotalLength(f) - 20);
    assert ph[9] == IPPROTO_UDP;
    WordSumPositive(ph, 9);
  }

  /** The two partial sums and the single carry of the library give the one-pass checksum. */
  lemma UdpWordForm(f: Frame)
    requires WellFormed(f)
    ensures UdpWord(f) == if Fold(UdpRest(f)) == 0xFFFF then 0xFFFF else 0xFFFF - Fold(UdpRest(f))
  {
    hide WordSum, Fold, CarryStep;
    var z := SetWord(f, UDP_CKSUM_FIELD, 0);
    var length := TotalLength(f) - 20;
    PseudoHeaderIgnores(f, UDP_CKSUM_FIELD, 0, length);
    OneCarryJoinsParts(WordSum(z[UDP_OFFSET..UDP_OFFSET + length]), WordSum(PseudoHeader(f, length)));
  }

  lemma PseudoHeaderIgnores(f: Frame, i: nat, w: Word, length: Word)
    requires |f| >= HEADERS_LENGTH && (i == IP_CKSUM_FIELD || i == UDP_CKSUM_FIELD)
    ensures PseudoHeader(SetWord(f, i, w), length) == PseudoHeader(f, length)
  {
    assert SetWord(f, i, w)[IP_SRC_FIELD..UDP_OFFSET] == f[IP_SRC_FIELD..UDP_OFFSET];
  }

  // ----- software

  lemma SoftwareForm(f: Frame)
    requires WellFormed(f)
    ensures RecomputeUdp(RecomputeIp(f)) == SetWord(SetWord(f, IP_CKSUM_FIELD, IpWord(f)), UDP_CKSUM_FIELD, UdpWord(f))
  {
    var g := RecomputeIp(f);
    assert g == SetWord(f, IP_CKSUM_FIELD, IpWord(f));
    UdpWordIgnoresIpChecksum(f, IpWord(f));
  }

  lemma UdpWordIgnoresIpChecksum(f: Frame, w: Word)
    requires WellFormed(f)
    ensures WellFormed(SetWord(f, IP_CKSUM_FIELD, w))
    ensures UdpRest(SetWord(f, IP_CKSUM_FIELD, w)) == UdpRest(f)
    ensures UdpWord(SetWord(f, IP_CKSUM_FIELD, w)) == UdpWord(f)
  {
    hide WordSum, Fold, UdpSum;
    var g := SetWord(f, IP_CKSUM_FIELD, w);
    var end := 14 + TotalLength(f);
    PseudoHeaderIgnores(f, IP_CKSUM_FIELD, w, TotalLength(f) - 20);
    assert SetWord(g, UDP_CKSUM_FIELD, 0)[UDP_OFFSET..end] == SetWord(f, UDP_CKSUM_FIELD, 0)[UDP_OFFSET..end];
    UdpWordVerifies(f);
    UdpWordVerifies(g);
  }

  /**
   * Whatever the request's checksums were, a software reply is canonical exactly when the request has
   * the fixed format: it verifies under both tests and uses neither special value.
   */
  lemma SoftwareVerifies(p: Packet)
    requires Accepts(Software, p.frame)
    ensures Canonical(Echo(Software, p).frame) <==> WellFormed(p.frame)
  {
    SwapKeepsShape(p.frame);
    var g := SwapEndpoints(p.frame);
    if WellFormed(p.frame) {
      SoftwareForm(g);
      RecomputedVerifies(g);
      hide Canonical, SwapEndpoints, RecomputeIp, RecomputeUdp, IpWord, UdpWord;
    } else {
      hide IpVerifies, UdpVerifies, SwapEndpoints, Ipv4Cksum, UdpCksum;
      assert WellFormed(Echo(Software, p).frame) == WellFormed(g);
    }
  }

  lemma RecomputedVerifies(f: Frame)
    requires WellFormed(f)
    ensures Canonical(SetWord(SetWord(f, IP_CKSUM_FIELD, IpWord(f)), UDP_CKSUM_FIELD, UdpWord(f)))
  {
    hide WordSum, Fold, UdpRest, UdpSum;
    var m := SetWord(f, IP_CKSUM_FIELD, IpWord(f));
    var r := SetWord(m, UDP_CKSUM_FIELD, UdpWord(f));
    UdpWordIgnoresIpChecksum(f, IpWord(f));
    assert SetWord(r, UDP_CKSUM_FIELD, 0) == SetWord(m, UDP_CKSUM_FIELD, 0);
    assert SetWord(r, IP_CKSUM_FIELD, 0)[IP_OFFSET..UDP_OFFSET] == SetWord(f, IP_CKSUM_FIELD, 0)[IP_OFFSET..UDP_OFFSET];
    assert IpWord(r) == IpWord(f);
    IpWordVerifies(f);
    IpWordVerifies(r);
    UdpWordVerifies(f);
    UdpWordVerifies(r);
  }

  /**
   * Leaving the old checksums alone gives, byte for byte, the recomputed reply exactly when the
   * request is canonical: it verifies under both tests and uses neither special value, header
   * checksum 0xFFFF or UDP checksum 0.
   */
  lemma PreserveEqualsSoftwareIff(p: Packet)
    requires WellFormed(p.frame)
    ensures Echo(Preserve, p) == Echo(Software, p) <==> Canonical(p.frame)
  {
    hide WordSum, Fold, IpVerifies, UdpVerifies, RecomputeIp, RecomputeUdp, IpWord, UdpWord;
    var g := SwapEndpoints(p.frame);
    SwapKeepsShape(p.frame);
    PreserveVerifiesIff(p);
    SoftwareForm(g);
    FixedPointIff(g);
    assert WordAt(g, IP_CKSUM_FIELD) == WordAt(p.frame, IP_CKSUM_FIELD);
    assert WordAt(g, UDP_CKSUM_FIELD) == WordAt(p.frame, UDP_CKSUM_FIELD);
    hide SwapEndpoints;
  }

  /** Recomputation leaves exactly the canonical frames alone. */
  lemma FixedPointIff(f: Frame)
    requires WellFormed(f)
    ensures SetWord(SetWord(f, IP_CKSUM_FIELD, IpWord(f)), UDP_CKSUM_FIELD, UdpWord(f)) == f <==> Canonical(f)
  {
    IpWordVerifies(f);
    UdpWordVerifies(f);
    hide WordSum, Fold, UdpRest, UdpSum, IpVerifies, IpWord, UdpWord;
    var m := SetWord(f, IP_CKSUM_FIELD, IpWord(f));
    var r := SetWord(m, UDP_CKSUM_FIELD, UdpWord(f));
    assert WordAt(r, IP_CKSUM_FIELD) == IpWord(f);
    SetSameWord(f, IP_CKSUM_FIELD);
    SetSameWord(f, UDP_CKSUM_FIELD);
  }

  lemma SetSameWord(f: Frame, i: nat)
    requires i + 1 < |f|
    ensures SetWord(f, i, WordAt(f, i)) == f
  {
  }

  // ----- offload

  /** Once the NIC has completed it, an offload reply is the software reply. */
  lemma OffloadCompletesToSoftware(p: Packet)
    requires WellFormed(p.frame)
    ensures Transmittable(Echo(Offload, p))
    ensures Wire(Echo(Offload, p)) == Echo(Software, p).frame
  {
    var g := SwapEndpoints(p.frame);
    SwapKeepsShape(p.frame);
    SoftwareForm(g);
    OffloadCompletes(g);
  }

  lemma OffloadCompletes(f: Frame)
    requires WellFormed(f)
    ensures var q := TreatChecksums(Offload, Packet(f, OFFLOAD_META));
            && Transmittable(q)
            && Wire(q) == SetWord(SetWord(f, IP_CKSUM_FIELD, IpWord(f)), UDP_CKSUM_FIELD, UdpWord(f))
  {
    var z := SetWord(f, IP_CKSUM_FIELD, 0);
    var q := Packet(SetWord(z, UDP_CKSUM_FIELD, PseudoHeaderCksum(z)), OFFLOAD_META);
    NicFoldsTheSeed(z);
    UdpWordIgnoresIpChecksum(f, 0);
    NicSeesZeroedHeader(f, UdpWord(f));
  }

  lemma NicSeesZeroedHeader(f: Frame, w: Word)
    requires WellFormed(f)
    ensures var u := Packet(SetWord(SetWord(f, IP_CKSUM_FIELD, 0), UDP_CKSUM_FIELD, w), OFFLOAD_META);
            && Transmittable(u)
            && NicIpChecksum(u) == SetWord(SetWord(f, IP_CKSUM_FIELD, IpWord(f)), UDP_CKSUM_FIELD, w)
  {
    hide WordSum, Fold;
    var z := SetWord(f, IP_CKSUM_FIELD, 0);
    var u := SetWord(z, UDP_CKSUM_FIELD, w);
    assert u[IP_OFFSET..UDP_OFFSET] == z[IP_OFFSET..UDP_OFFSET];
  }

  /** Folding the datagram with the folded pseudo-header in its checksum field gives the one-pass checksum. */
  lemma NicFoldsTheSeed(f: Frame)
    requires WellFormed(f)
    ensures var q := Packet(SetWord(f, UDP_CKSUM_FIELD, PseudoHeaderCksum(f)), OFFLOAD_META);
            Transmittable(q) && NicUdpChecksum(q) == SetWord(f, UDP_CKSUM_FIELD, UdpWord(f))
  {
    hide WordSum, Fold, PseudoHeader;
    var length, end := TotalLength(f) - 20, 14 + TotalLength(f);
    var seed := PseudoHeaderCksum(f);
    var q := Packet(SetWord(f, UDP_CKSUM_FIELD, seed), OFFLOAD_META);
    SetWordInSum(f, UDP_OFFSET, UDP_CKSUM_FIELD, end, seed);
    FoldOfParts(WordSum(PseudoHeader(f, length)), WordSum(SetWord(f, UDP_CKSUM_FIELD, 0)[UDP_OFFSET..end]));
    assert Fold(WordSum(q.frame[UDP_OFFSET..end])) == Fold(UdpRest(f));
    UdpWordForm(f);
  }

  // ----- Corollaries over the modes

  /** The three modes put the same bytes on the wire: the request with its endpoints exchanged. */
  predicate ModesAgree(p: Packet)
    requires Canonical(p.frame)
  {
    && Echo(Preserve, p) == p.(frame := SwapEndpoints(p.frame))
    && Echo(Software, p) == p.(frame := SwapEndpoints(p.frame))
    && Transmittable(Echo(Offload, p)) && Wire(Echo(Offload, p)) == SwapEndpoints(p.frame)
  }

  /** They do so on every canonical request, and the reply is canonical too. */
  lemma ModesAgreeOnCanonical(p: Packet)
    requires Canonical(p.frame)
    ensures ModesAgree(p)
    ensures Canonical(SwapEndpoints(p.frame)) && SwapEndpoints(SwapEndpoints(p.frame)) == p.frame
  {
    PreserveEqualsSoftwareIff(p);
    OffloadCompletesToSoftware(p);
    SwapKeepsShape(p.frame);
    PreserveVerifiesIff(p);
    SwapTwice(p.frame);
    hide RecomputeIp, RecomputeUdp, IpVerifies, UdpVerifies, Wire, PseudoHeaderCksum;
  }

  /** Without transmit flags the NIC leaves the bytes alone. */
  lemma WireWithoutFlags(p: Packet)
    requires |p.frame| >= HEADERS_LENGTH && p.meta.flags == {}
    ensures Transmittable(p) && Wire(p) == p.frame
  {
  }
}
