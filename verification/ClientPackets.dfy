/** The request packets of the clients: built from scratch, or copied from a table of templates. */
module ClientPackets {
  import opened OnesComplement
  import opened Frames
  import opened EchoModes
  import opened EchoProofs

  const CLIENT_IP: Frame := [10, 16, 1, 2]
  const SERVER_IP: Frame := [10, 16, 1, 1]
  const CLIENT_PORT := 50000
  const SERVER_PORT := 8001
  const MAX_FRAME := 0xFFFF

  datatype Client = Client(myEth: Frame, serverEth: Frame, numFlows: nat, payloadLength: nat)

  /** What argument parsing establishes, and a frame whose length fits the 16-bit length fields. */
  predicate ValidClient(c: Client) {
    && |c.myEth| == 6 && |c.serverEth| == 6
    && 1 <= c.numFlows <= 0xFFFF - CLIENT_PORT
    && PacketLength(c) <= MAX_FRAME
  }

  function PacketLength(c: Client): nat {
    HEADERS_LENGTH + c.payloadLength
  }

  function FlowSrcPort(c: Client, flowId: nat): Word
    requires ValidClient(c)
  {
    CLIENT_PORT + flowId % c.numFlows
  }

  /** Two ids use the same source port exactly when they are the same flow modulo the flow count. */
  lemma SamePortIff(c: Client, f: nat, g: nat)
    requires ValidClient(c)
    ensures FlowSrcPort(c, f) == FlowSrcPort(c, g) <==> f % c.numFlows == g % c.numFlows
  {
  }

  // ----- The request frame

  function EtherHeader(c: Client): Frame {
    c.serverEth + c.myEth + [0x08, 0x00]
  }

  function Ipv4Header(c: Client): Frame
    requires ValidClient(c)
  {
    [0x45, 0] + WordBytes(28 + c.payloadLength) + [0, 0, 0, 0, 64, IPPROTO_UDP, 0, 0] + CLIENT_IP + SERVER_IP
  }

  function UdpHeader(c: Client, port: Word): Frame
    requires ValidClient(c)
  {
    WordBytes(port) + WordBytes(SERVER_PORT) + WordBytes(8 + c.payloadLength) + [0, 0]
  }

  function Payload(c: Client): Frame {
    seq(c.payloadLength, _ => 0xAB)
  }

  /** The request with both checksum fields still zero. */
  function Unsummed(c: Client, port: Word): (f: Frame)
    requires ValidClient(c)
    ensures |f| == PacketLength(c) && WellFormed(f)
  {
    var f := EtherHeader(c) + Ipv4Header(c) + UdpHeader(c, port) + Payload(c);
    UnsummedFields(c, port, f);
    f
  }

  lemma UnsummedFields(c: Client, port: Word, f: Frame)
    requires ValidClient(c) && f == EtherHeader(c) + Ipv4Header(c) + UdpHeader(c, port) + Payload(c)
    ensures |f| == PacketLength(c) && WellFormed(f)
    ensures f[..6] == c.serverEth && f[6..12] == c.myEth && f[12..14] == [0x08, 0x00]
    ensures f[14..34] == Ipv4Header(c) && f[26..30] == CLIENT_IP && f[30..34] == SERVER_IP
    ensures f[34..42] == UdpHeader(c, port)
    ensures WordAt(f, 34) == port && WordAt(f, 36) == SERVER_PORT
  {
    var e, h, u := EtherHeader(c), Ipv4Header(c), UdpHeader(c, port);
    FourParts(e, h, u, Payload(c), f);
    assert h[12..16] == CLIENT_IP && h[16..20] == SERVER_IP;
    assert f[26..30] == h[12..16] && f[30..34] == h[16..20];
    assert e[..6] == c.serverEth && e[6..12] == c.myEth && e[12..14] == [0x08, 0x00];
    assert f[..6] == e[..6] && f[6..12] == e[6..12] && f[12..14] == e[12..14];
    RequestFields(c, port, f);
  }

  lemma FourParts(e: Frame, h: Frame, u: Frame, p: Frame, f: Frame)
    requires |e| == 14 && |h| == 20 && |u| == 8 && f == e + h + u + p
    ensures f[..14] == e && f[14..34] == h && f[34..42] == u && f[42..] == p
  {
  }

  lemma RequestFields(c: Client, port: Word, f: Frame)
    requires ValidClient(c) && f == EtherHeader(c) + Ipv4Header(c) + UdpHeader(c, port) + Payload(c)
    ensures |f| == PacketLength(c) && WellFormed(f)
    ensures WordAt(f, 34) == port && WordAt(f, 36) == SERVER_PORT
  {
    assert f[14] == 0x45 && f[23] == IPPROTO_UDP;
    assert f[16] == (28 + c.payloadLength) / 0x100 && f[17] == (28 + c.payloadLength) % 0x100;
    assert f[38] == (8 + c.payloadLength) / 0x100 && f[39] == (8 + c.payloadLength) % 0x100;
    assert f[34] == port / 0x100 && f[35] == port % 0x100;
    assert f[36] == SERVER_PORT / 0x100 && f[37] == SERVER_PORT % 0x100;
  }

  /** The finished request for a source port: well formed, and with the checksums the standards ask for. */
  function Request(c: Client, port: Word): (f: Frame)
    requires ValidClient(c)
    ensures |f| == PacketLength(c) && ChecksumsInRange(f) && Canonical(f)
  {
    RecomputedCanonical(Unsummed(c, port));
    RecomputeUdp(RecomputeIp(Unsummed(c, port)))
  }

  lemma RecomputedCanonical(f: Frame)
    requires WellFormed(f)
    ensures var r := RecomputeUdp(RecomputeIp(f));
            && |r| == |f| && ChecksumsInRange(r) && Canonical(r)
            && forall i :: 0 <= i < |f| && !ChecksumField(i) ==> r[i] == f[i]
  {
    SoftwareForm(f);
    RecomputedVerifies(f);
    hide IpVerifies, UdpSum, Fold, IpWord, UdpWord;
  }

  lemma RequestBytes(c: Client, port: Word)
    requires ValidClient(c)
    ensures forall i :: 0 <= i < PacketLength(c) && !ChecksumField(i) ==> Request(c, port)[i] == Unsummed(c, port)[i]
  {
    RecomputedCanonical(Unsummed(c, port));
  }

  /** Every field of the request of flow `f`, outside the checksums. */
  lemma RequestLayout(c: Client, f: nat)
    requires ValidClient(c)
    ensures var r := Request(c, FlowSrcPort(c, f));
            && |r| == 42 + c.payloadLength
            && r[0..6] == c.serverEth && r[6..12] == c.myEth && r[12..14] == [0x08, 0x00]
            && r[14..16] == [0x45, 0x00] && WordAt(r, 16) == 28 + c.payloadLength
            && r[18..24] == [0, 0, 0, 0, 64, 17]
            && r[26..30] == [10, 16, 1, 2] && r[30..34] == [10, 16, 1, 1]
            && WordAt(r, 34) == 50000 + f % c.numFlows && WordAt(r, 36) == 8001
            && WordAt(r, 38) == 8 + c.payloadLength
            && forall i :: 42 <= i < |r| ==> r[i] == 0xAB
  {
    var port := FlowSrcPort(c, f);
    var u, r := Unsummed(c, port), Request(c, port);
    UnsummedFields(c, port, u);
    RequestBytes(c, port);
    HeaderLayout(c, port, u);
    assert u[42..] == Payload(c) by {
      FourParts(EtherHeader(c), Ipv4Header(c), UdpHeader(c, port), Payload(c), u);
    }
    hide Unsummed, Request, Ipv4Header, UdpHeader, Canonical, ChecksumsInRange, WellFormed;
    SameOutsideChecksums(u, r);
  }

  lemma HeaderLayout(c: Client, port: Word, u: Frame)
    requires ValidClient(c) && |u| >= 42 && u[14..34] == Ipv4Header(c) && u[34..42] == UdpHeader(c, port)
    ensures u[14..16] == [0x45, 0x00] && WordAt(u, 16) == 28 + c.payloadLength && u[18..24] == [0, 0, 0, 0, 64, 17]
    ensures WordAt(u, 38) == 8 + c.payloadLength
  {
    var h, d := u[14..34], u[34..42];
    assert h[4..10] == [0, 0, 0, 0, 64, IPPROTO_UDP];
    assert forall i :: 0 <= i < 20 ==> u[14 + i] == h[i];
    assert u[14..16] == h[0..2] && u[18..24] == h[4..10];
    assert u[16] == h[2] && u[17] == h[3] && u[38] == d[4] && u[39] == d[5];
  }

  lemma SameOutsideChecksums(u: Frame, r: Frame)
    requires |u| == |r| >= 42 && forall i :: 0 <= i < |u| && !ChecksumField(i) ==> r[i] == u[i]
    ensures r[0..6] == u[0..6] && r[6..12] == u[6..12] && r[12..14] == u[12..14] && r[14..16] == u[14..16]
    ensures r[18..24] == u[18..24] && r[26..30] == u[26..30] && r[30..34] == u[30..34] && r[42..] == u[42..]
    ensures forall i :: i == 16 || i == 34 || i == 36 || i == 38 ==> WordAt(r, i) == WordAt(u, i)
  {
  }
}
