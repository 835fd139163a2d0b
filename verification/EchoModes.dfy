/** What the echo server does to one packet: swap the endpoints, then treat the checksums per mode. */
module EchoModes {
  import opened OnesComplement
  import opened Frames

  datatype ChecksumMode = Software | Offload | Preserve | None

  datatype TxFlag = TxIpv4 | TxIpCksum | TxUdpCksum

  /** The transmit metadata that an mbuf carries next to its bytes. */
  datatype TxMeta = TxMeta(l2Len: nat, l3Len: nat, l4Len: nat, flags: set<TxFlag>)

  datatype Packet = Packet(frame: Frame, meta: TxMeta)

  const OFFLOAD_META := TxMeta(14, 20, 8, {TxIpv4, TxIpCksum, TxUdpCksum})

  // ----- The library's checksum functions, as RFC 791, RFC 768 and RFC 1071 define them

  /** Frames on which the checksum functions stay inside the frame. */
  predicate ChecksumsInRange(f: Frame) {
    && |f| >= HEADERS_LENGTH
    && 20 <= IpHeaderLength(f) <= |f| - IP_OFFSET
    && IpHeaderLength(f) <= TotalLength(f) <= |f| - UDP_OFFSET + IpHeaderLength(f)
  }

  /** rte_ipv4_cksum: the complement of the folded header sum. */
  function Ipv4Cksum(f: Frame): Word
    requires |f| >= HEADERS_LENGTH && IpHeaderLength(f) <= |f| - IP_OFFSET
  {
    0xFFFF - Fold(WordSum(f[IP_OFFSET..IP_OFFSET + IpHeaderLength(f)]))
  }

  /** rte_ipv4_phdr_cksum: the folded sum of the pseudo-header, not complemented. */
  function PseudoHeaderCksum(f: Frame): Word
    requires |f| >= HEADERS_LENGTH && IpHeaderLength(f) <= TotalLength(f)
  {
    Fold(WordSum(PseudoHeader(f, TotalLength(f) - IpHeaderLength(f))))
  }

  /** rte_ipv4_udptcp_cksum: two partial sums, one carry, complement, and zero sent as all ones for UDP. */
  function UdpCksum(f: Frame): Word
    requires ChecksumsInRange(f)
  {
    var l4Length := TotalLength(f) - IpHeaderLength(f);
    var raw := Fold(WordSum(f[UDP_OFFSET..UDP_OFFSET + l4Length]));
    var cksum := 0xFFFF - CarryStep(raw + PseudoHeaderCksum(f)) % 0x1_0000;
    if cksum == 0 && f[PROTOCOL_FIELD] == IPPROTO_UDP then 0xFFFF else cksum
  }

  // ----- The server

  /** What each mode needs of a received frame so that every access stays inside it. */
  predicate Accepts(mode: ChecksumMode, f: Frame) {
    && |f| >= HEADERS_LENGTH
    && (mode == Software ==> ChecksumsInRange(f))
    && (mode == Offload ==> IpHeaderLength(f) <= TotalLength(f))
  }

  function RecomputeIp(f: Frame): Frame
    requires ChecksumsInRange(f)
  {
    var g := SetWord(f, IP_CKSUM_FIELD, 0);
    SetWord(g, IP_CKSUM_FIELD, Ipv4Cksum(g))
  }

  function RecomputeUdp(f: Frame): Frame
    requires ChecksumsInRange(f)
  {
    var g := SetWord(f, UDP_CKSUM_FIELD, 0);
    SetWord(g, UDP_CKSUM_FIELD, UdpCksum(g))
  }

  function TreatChecksums(mode: ChecksumMode, p: Packet): (q: Packet)
    requires Accepts(mode, p.frame)
    ensures |q.frame| == |p.frame|
  {
    match mode
    case Software => p.(frame := RecomputeUdp(RecomputeIp(p.frame)))
    case Offload =>
      var g := SetWord(p.frame, IP_CKSUM_FIELD, 0);
      Packet(SetWord(g, UDP_CKSUM_FIELD, PseudoHeaderCksum(g)), OFFLOAD_META)
    case Preserve => p
    case None => p.(frame := SetWord(SetWord(p.frame, IP_CKSUM_FIELD, 0), UDP_CKSUM_FIELD, 0))
  }

  lemma SwapKeepsAccepts(mode: ChecksumMode, f: Frame)
    requires |f| >= HEADERS_LENGTH
    ensures Accepts(mode, SwapEndpoints(f)) == Accepts(mode, f)
  {
    var g := SwapEndpoints(f);
    assert g[14] == f[14] && g[16] == f[16] && g[17] == f[17];
  }

  /** The pure per-packet echo. */
  function Echo(mode: ChecksumMode, p: Packet): (q: Packet)
    requires Accepts(mode, p.frame)
    ensures |q.frame| == |p.frame|
  {
    SwapKeepsAccepts(mode, p.frame);
    TreatChecksums(mode, p.(frame := SwapEndpoints(p.frame)))
  }

  // ----- The NIC

  /**
   * Packets on which the NIC can follow the metadata. A driver completes checksums only for packets
   * whose type flag says IPv4, and the UDP one only when the length of the UDP header is given.
   */
  predicate Transmittable(p: Packet) {
    && |p.frame| >= HEADERS_LENGTH
    && (TxIpCksum in p.meta.flags || TxUdpCksum in p.meta.flags ==> TxIpv4 in p.meta.flags)
    && (TxUdpCksum in p.meta.flags ==> p.meta.l4Len == 8)
    && (p.meta.flags != {} ==> 14 <= p.meta.l2Len && 20 <= p.meta.l3Len && p.meta.l2Len + p.meta.l3Len <= |p.frame|)
    && (TxUdpCksum in p.meta.flags ==>
          && p.meta.l3Len + 8 <= TotalLength(p.frame)
          && p.meta.l2Len + TotalLength(p.frame) <= |p.frame|)
  }

  /** Checksum completion: complement of the folded sum over the bytes as they are, seed included. */
  function NicIpChecksum(p: Packet): (f: Frame)
    requires Transmittable(p)
    ensures |f| == |p.frame|
  {
    if TxIpCksum !in p.meta.flags then p.frame
    else
      var header := p.frame[p.meta.l2Len..p.meta.l2Len + p.meta.l3Len];
      SetWord(p.frame, p.meta.l2Len + 10, 0xFFFF - Fold(WordSum(header)))
  }

  function NicUdpChecksum(p: Packet): (f: Frame)
    requires Transmittable(p)
    ensures |f| == |p.frame|
  {
    if TxUdpCksum !in p.meta.flags then p.frame
    else
      var start := p.meta.l2Len + p.meta.l3Len;
      var cksum := 0xFFFF - Fold(WordSum(p.frame[start..p.meta.l2Len + TotalLength(p.frame)]));
      SetWord(p.frame, start + 6, if cksum == 0 then 0xFFFF else cksum)
  }

  /** The bytes on the wire for a packet handed to the NIC. */
  function Wire(p: Packet): (f: Frame)
    requires Transmittable(p)
    ensures |f| == |p.frame|
  {
    NicIpChecksum(p.(frame := NicUdpChecksum(p)))
  }
}
