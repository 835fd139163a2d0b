/** Which replies pass the two checksum tests, for every header length and datagram length. */
module ReplyTests {
  import opened OnesComplement
  import opened Frames
  import opened EchoModes
  import opened EchoProofs

  // ----- Folding to all ones

  lemma AllOnesIff(s: nat)
    ensures Fold(s) == 0xFFFF <==> s > 0 && s % 0xFFFF == 0
  {
    FoldUnique(s, 0xFFFF);
  }

  /** Replacing one summand of a verifying sum. */
  lemma ReplacedSummand(s: nat, a: Word, w: Word)
    requires s >= a && s % 0xFFFF == 0 && s - a + w > 0
    ensures Fold(s - a + w) == 0xFFFF <==> a % 0xFFFF == w % 0xFFFF
  {
    AllOnesIff(s - a + w);
    CongruentIff(s, a, w);
  }

  lemma CongruentIff(s: nat, a: nat, b: nat)
    requires s + b >= a
    ensures (s + b - a) % 0xFFFF == 0 <==> (s + b) % 0xFFFF == a % 0xFFFF
    ensures s % 0xFFFF == 0 ==> (s + b) % 0xFFFF == b % 0xFFFF
  {
    AddedRemainder(s + b - a, a);
    AddedRemainder(s, b);
  }

  /** Adding `x` keeps the remainder of `a` exactly when `x` is a multiple. */
  lemma AddedRemainder(x: nat, a: nat)
    ensures (x + a) % 0xFFFF == a % 0xFFFF <==> x % 0xFFFF == 0
  {
    var r, t := x % 0xFFFF, a % 0xFFFF;
    var q := x / 0xFFFF + a / 0xFFFF;
    assert x + a == r + t + 0xFFFF * q;
    AddMultiple(r + t, q);
    assert (r + t) % 0xFFFF == if r + t < 0xFFFF then r + t else r + t - 0xFFFF;
  }

  // ----- Where the reply differs from the request

  /** The reply to `p` keeps the lengths, and from byte 42 on every byte. */
  lemma ReplyShape(mode: ChecksumMode, p: Packet)
    requires Parsable(p.frame) && Accepts(mode, p.frame)
    ensures var f, r := p.frame, Echo(mode, p).frame;
            && Parsable(r) && IpHeaderLength(r) == IpHeaderLength(f)
            && var udp := IP_OFFSET + IpHeaderLength(f);
               WordAt(r, udp + 4) == WordAt(f, udp + 4) && (udp >= 38 ==> WordAt(r, udp + 6) == WordAt(f, udp + 6))
    ensures forall i :: 38 <= i < |p.frame| && i != 40 && i != 41 ==> Echo(mode, p).frame[i] == p.frame[i]
  {
    hide Echo, Accepts;
    forall i | 0 <= i < |p.frame| && !ChecksumField(i)
      ensures Echo(mode, p).frame[i] == p.frame[Partner(i)]
    {
      EchoOnlySwapsOutsideChecksums(mode, p, i);
    }
    KeptShape(p.frame, Echo(mode, p).frame);
  }

  lemma KeptShape(f: Frame, r: Frame)
    requires Parsable(f) && |r| == |f|
    requires forall i :: 0 <= i < |f| && !ChecksumField(i) ==> r[i] == f[Partner(i)]
    ensures Parsable(r) && IpHeaderLength(r) == IpHeaderLength(f)
    ensures var udp := IP_OFFSET + IpHeaderLength(f);
            WordAt(r, udp + 4) == WordAt(f, udp + 4) && (udp >= 38 ==> WordAt(r, udp + 6) == WordAt(f, udp + 6))
  {
    var udp := IP_OFFSET + IpHeaderLength(f);
    assert r[14] == f[14];
    assert r[udp + 4] == f[udp + 4] && r[udp + 5] == f[udp + 5];
  }

  /** The pseudo-header sum does not change in any mode. */
  lemma ReplyPseudoHeader(mode: ChecksumMode, p: Packet, length: Word)
    requires Parsable(p.frame) && Accepts(mode, p.frame)
    ensures WordSum(PseudoHeader(Echo(mode, p).frame, length)) == WordSum(PseudoHeader(p.frame, length))
  {
    hide Echo, Accepts, WordSum;
    var r, g := Echo(mode, p).frame, SwapEndpoints(p.frame);
    forall i | 26 <= i < 34 || i == 23
      ensures r[i] == g[i]
    {
      EchoOnlySwapsOutsideChecksums(mode, p, i);
    }
    assert r[IP_SRC_FIELD..UDP_OFFSET] == g[IP_SRC_FIELD..UDP_OFFSET];
    PseudoHeaderSwap(p.frame, length);
  }

  lemma UdpSumPositive(f: Frame)
    requires Parsable(f)
    ensures UdpSum(f) > 0
  {
    var length := WordAt(f, IP_OFFSET + IpHeaderLength(f) + 4);
    var ph := PseudoHeader(f, length);
    assert ph[10] == length / 0x100 && ph[11] == length % 0x100;
    WordSumPositive(ph, if length / 0x100 > 0 then 10 else 11);
  }

  // ----- The UDP test

  /** The UDP sum of the reply: the word at byte 40 is replaced, if the datagram reaches that far to the front. */
  lemma ReplyUdpSum(mode: ChecksumMode, p: Packet)
    requires Parsable(p.frame) && Accepts(mode, p.frame)
    ensures var f, r, g := p.frame, Echo(mode, p).frame, SwapEndpoints(p.frame);
            && Parsable(r) && Accepts(mode, g)
            && if IpHeaderLength(f) <= 24 then UdpSum(r) + WordAt(f, 40) == UdpSum(f) + StoredWord(mode, g)
               else UdpSum(r) == UdpSum(f)
  {
    hide Echo, Accepts, StoredWord, WordSum, PseudoHeader;
    var f, r := p.frame, Echo(mode, p).frame;
    var udp := IP_OFFSET + IpHeaderLength(f);
    var length := WordAt(f, udp + 4);
    ReplyShape(mode, p);
    EchoStoresWord(mode, p);
    ReplyPseudoHeader(mode, p, length);
    if udp >= 42 {
      assert r[udp..udp + length] == f[udp..udp + length];
    } else {
      ThreeParts(f, udp, 40, udp + length);
      ThreeParts(r, udp, 40, udp + length);
      assert r[42..udp + length] == f[42..udp + length];
      ReplyPorts(mode, p);
    }
  }

  /** What is in front of byte 40 in a datagram that starts at byte 34 or 38 keeps its sum. */
  lemma ReplyPorts(mode: ChecksumMode, p: Packet)
    requires Parsable(p.frame) && Accepts(mode, p.frame) && IpHeaderLength(p.frame) <= 24
    ensures var udp := IP_OFFSET + IpHeaderLength(p.frame);
            WordSum(Echo(mode, p).frame[udp..40]) == WordSum(p.frame[udp..40])
  {
    hide Echo, Accepts, WordSum;
    var f, r, g := p.frame, Echo(mode, p).frame, SwapEndpoints(p.frame);
    var udp := IP_OFFSET + IpHeaderLength(f);
    forall i | udp <= i < 40
      ensures r[i] == g[i]
    {
      EchoOnlySwapsOutsideChecksums(mode, p, i);
    }
    assert r[udp..40] == g[udp..40];
    if udp == UDP_OFFSET {
      SwapKeepsUdpWordSum(f, 40);
    } else {
      SwapKeepsSlice(f, udp, 40);
    }
  }

  /**
   * When the reply of a mode passes the UDP test, for every header length. Without options the stored
   * word is its checksum; behind 24 bytes of header it is its destination port, next to a checksum
   * that nobody recomputes; behind longer headers the datagram is not touched at all.
   */
  lemma UdpReplyVerifiesIff(mode: ChecksumMode, p: Packet)
    requires Parsable(p.frame) && Accepts(mode, p.frame)
    ensures Parsable(Echo(mode, p).frame) && Accepts(mode, SwapEndpoints(p.frame))
    ensures var f, w := p.frame, StoredWord(mode, SwapEndpoints(p.frame));
            UdpVerifies(Echo(mode, p).frame) <==>
            if IpHeaderLength(f) == 20 then w == 0 || (UdpSum(f) + w) % 0xFFFF == WordAt(f, 40) % 0xFFFF
            else if IpHeaderLength(f) == 24 then
              WordAt(f, 44) == 0 || (UdpSum(f) + w) % 0xFFFF == WordAt(f, 40) % 0xFFFF
            else UdpVerifies(f)
  {
    hide Echo, Accepts, StoredWord, UdpSum;
    var f, r := p.frame, Echo(mode, p).frame;
    ReplyShape(mode, p);
    ReplyUdpSum(mode, p);
    EchoStoresWord(mode, p);
    UdpSumPositive(r);
    AllOnesIff(UdpSum(r));
    if IpHeaderLength(f) <= 24 {
      CongruentIff(UdpSum(f), WordAt(f, 40), StoredWord(mode, SwapEndpoints(f)));
    }
  }

  // ----- The UDP test of software replies

  /** The sum over `length` bytes from the fixed place of the UDP header, its checksum taken as zero. */
  function RestOver(f: Frame, length: Word): nat
    requires |f| >= HEADERS_LENGTH && UDP_OFFSET + length <= |f|
  {
    WordSum(PseudoHeader(f, length)) + WordSum(SetWord(f, UDP_CKSUM_FIELD, 0)[UDP_OFFSET..UDP_OFFSET + length])
  }

  /** The stored checksum cancels the sum over the bytes that the total length promises. */
  lemma StoredCancels(f: Frame)
    requires ChecksumsInRange(f)
    ensures (RestOver(f, TotalLength(f) - IpHeaderLength(f)) + UdpWord(f)) % 0xFFFF == 0
    ensures UdpWord(f) == 0
            <==> f[PROTOCOL_FIELD] != 17 && Fold(RestOver(f, TotalLength(f) - IpHeaderLength(f))) == 0xFFFF
  {
    hide WordSum, Fold, CarryStep;
    var z, length := SetWord(f, UDP_CKSUM_FIELD, 0), TotalLength(f) - IpHeaderLength(f);
    var datagram, pseudo := WordSum(z[UDP_OFFSET..UDP_OFFSET + length]), WordSum(PseudoHeader(f, length));
    PseudoHeaderIgnores(f, UDP_CKSUM_FIELD, 0, length);
    OneCarryJoinsParts(datagram, pseudo);
    var w := UdpWord(f);
    assert w == 0xFFFF - Fold(datagram + pseudo) || (w == 0xFFFF && Fold(datagram + pseudo) == 0xFFFF);
    FoldUnique(datagram + pseudo, Fold(datagram + pseudo));
  }

  /** What the UDP sum of a request without options is made of. */
  lemma UdpSumParts(f: Frame)
    requires Parsable(f) && IpHeaderLength(f) == 20
    ensures UdpSum(f) == RestOver(SwapEndpoints(f), WordAt(f, UDP_LENGTH_FIELD)) + WordAt(f, UDP_CKSUM_FIELD)
  {
    hide WordSum, PseudoHeader;
    var z, length := SetWord(f, UDP_CKSUM_FIELD, 0), WordAt(f, UDP_LENGTH_FIELD);
    SetWordInSum(f, UDP_OFFSET, UDP_CKSUM_FIELD, UDP_OFFSET + length, 0);
    PseudoHeaderSwap(f, length);
    assert SetWord(SwapEndpoints(f), UDP_CKSUM_FIELD, 0) == SwapEndpoints(z);
    SwapKeepsUdpWordSum(z, UDP_OFFSET + length);
  }

  /**
   * The server sums the bytes that the total length promises, a receiver those that the UDP length
   * names. Without options a software reply passes the UDP test exactly when the two sums agree modulo
   * 0xFFFF, so always for equal lengths; or when 0 was stored, which happens for other protocols only.
   */
  lemma SoftwareUdpVerifiesIff(p: Packet)
    requires Parsable(p.frame) && ChecksumsInRange(p.frame) && IpHeaderLength(p.frame) == 20
    ensures ChecksumsInRange(SwapEndpoints(p.frame)) && Parsable(Echo(Software, p).frame)
    ensures var g := SwapEndpoints(p.frame);
            var promised, named := TotalLength(p.frame) - 20, WordAt(p.frame, UDP_LENGTH_FIELD);
            && (UdpVerifies(Echo(Software, p).frame) <==>
                UdpWord(g) == 0 || RestOver(g, named) % 0xFFFF == RestOver(g, promised) % 0xFFFF)
            && (UdpWord(g) == 0 ==> p.frame[PROTOCOL_FIELD] != IPPROTO_UDP)
            && (named == promised ==> UdpVerifies(Echo(Software, p).frame))
  {
    hide Echo, UdpSum, UdpWord, RestOver, UdpVerifies;
    var f, g := p.frame, SwapEndpoints(p.frame);
    SwapKeepsShape(f);
    assert TotalLength(g) == TotalLength(f) && IpHeaderLength(g) == 20 && g[PROTOCOL_FIELD] == f[PROTOCOL_FIELD];
    hide SwapEndpoints, Parsable;
    UdpReplyVerifiesIff(Software, p);
    UdpSumParts(f);
    StoredCancels(g);
    Cancelled(RestOver(g, WordAt(f, UDP_LENGTH_FIELD)), RestOver(g, TotalLength(f) - 20), WordAt(f, 40), UdpWord(g));
  }

  lemma Cancelled(named: nat, promised: nat, field: nat, stored: nat)
    requires (promised + stored) % 0xFFFF == 0
    ensures (named + field + stored) % 0xFFFF == field % 0xFFFF <==> named % 0xFFFF == promised % 0xFFFF
  {
    var d := named - promised;
    assert named + field + stored == field + d + (promised + stored);
  }

  // ----- The header test of software replies

  /** Recomputation alone makes any header verify, with options too. */
  lemma RecomputedHeader(g: Frame)
    requires ChecksumsInRange(g)
    ensures Fold(WordSum(RecomputeIp(g)[IP_OFFSET..IP_OFFSET + IpHeaderLength(g)])) == 0xFFFF
  {
    hide Fold, WordSum;
    var z, hi := SetWord(g, IP_CKSUM_FIELD, 0), IP_OFFSET + IpHeaderLength(g);
    assert z[IP_OFFSET..hi][0] == g[IP_OFFSET] > 0;
    WordSumPositive(z[IP_OFFSET..hi], 0);
    SetWordInSum(z, IP_OFFSET, IP_CKSUM_FIELD, hi, Ipv4Cksum(z));
    assert SetWord(z, IP_CKSUM_FIELD, 0) == z;
    VerifyingWords(WordSum(z[IP_OFFSET..hi]), Ipv4Cksum(z));
  }

  /**
   * With up to four bytes of options a software reply passes the header test. Behind longer headers
   * the UDP checksum is stored inside the options after the header checksum was computed, and the
   * reply passes exactly when the word that was there is the stored one modulo 0xFFFF.
   */
  lemma SoftwareIpVerifiesIff(p: Packet)
    requires Parsable(p.frame) && ChecksumsInRange(p.frame)
    ensures ChecksumsInRange(SwapEndpoints(p.frame)) && Parsable(Echo(Software, p).frame)
    ensures IpVerifies(Echo(Software, p).frame) <==>
            || IpHeaderLength(p.frame) <= 24
            || WordAt(p.frame, 40) % 0xFFFF == UdpWord(SwapEndpoints(p.frame)) % 0xFFFF
  {
    hide Fold, WordSum, UdpWord, RecomputeIp, Echo, SwapEndpoints, TotalLength;
    var f, g := p.frame, SwapEndpoints(p.frame);
    ReplyShape(Software, p);
    SwappedHeader(f);
    SoftwareStores(p);
    RecomputedHeader(g);
    HeaderWithWord(RecomputeIp(g), IP_OFFSET + IpHeaderLength(f), UdpWord(g));
  }

  lemma SwappedHeader(f: Frame)
    requires ChecksumsInRange(f)
    ensures var g := SwapEndpoints(f);
            && ChecksumsInRange(g) && IpHeaderLength(g) == IpHeaderLength(f)
            && WordAt(g, 40) == WordAt(f, 40) && RecomputeIp(g)[IP_OFFSET] == f[IP_OFFSET]
  {
    hide Ipv4Cksum;
    SwapKeepsShape(f);
  }

  /** The reply is the swapped frame with both words stored, the UDP one last. */
  lemma SoftwareStores(p: Packet)
    requires ChecksumsInRange(p.frame)
    ensures ChecksumsInRange(SwapEndpoints(p.frame))
    ensures var g := SwapEndpoints(p.frame);
            && Echo(Software, p).frame == SetWord(RecomputeIp(g), UDP_CKSUM_FIELD, UdpWord(g))
            && WordAt(RecomputeIp(g), 40) == WordAt(g, 40)
  {
    SwapKeepsShape(p.frame);
    UdpWordIgnoresIp(SwapEndpoints(p.frame));
    hide SwapEndpoints, WordSum, Fold;
  }

  /** A verifying header after a word at byte 40 was stored in its frame. */
  lemma HeaderWithWord(m: Frame, hi: nat, w: Word)
    requires HEADERS_LENGTH <= |m| && UDP_OFFSET <= hi <= |m| && (hi <= 38 || 42 <= hi) && m[IP_OFFSET] > 0
    requires Fold(WordSum(m[IP_OFFSET..hi])) == 0xFFFF
    ensures Fold(WordSum(SetWord(m, 40, w)[IP_OFFSET..hi])) == 0xFFFF <==>
            hi <= 38 || WordAt(m, 40) % 0xFFFF == w % 0xFFFF
  {
    hide Fold, WordSum;
    var r := SetWord(m, 40, w);
    if hi <= 38 {
      assert r[IP_OFFSET..hi] == m[IP_OFFSET..hi];
    } else {
      SetWordInSum(m, IP_OFFSET, 40, hi, w);
      WordSumPositive(r[IP_OFFSET..hi], 0);
      AllOnesIff(WordSum(m[IP_OFFSET..hi]));
      ReplacedSummand(WordSum(m[IP_OFFSET..hi]), WordAt(m, 40), w);
    }
  }
}
