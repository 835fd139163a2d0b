/** A request, the server's reply, and the client's test of that reply. */
module EndToEnd {
  import opened OnesComplement
  import opened Frames
  import opened EchoModes
  import opened EchoProofs
  import opened ClientPackets

  // ----- The client's match chain

  predicate CheckEther(c: Client, f: Frame)
    requires |f| >= HEADERS_LENGTH
  {
    f[..6] == c.myEth && WordAt(f, 12) == 0x0800
  }

  predicate CheckIp(f: Frame)
    requires |f| >= HEADERS_LENGTH
  {
    f[IP_DST_FIELD..UDP_OFFSET] == CLIENT_IP && f[PROTOCOL_FIELD] == IPPROTO_UDP
  }

  /** What the latency client accepts as the reply to a request it sent from `expectedPort`. */
  predicate Matches(c: Client, f: Frame, expectedPort: Word)
    requires |f| >= HEADERS_LENGTH
  {
    && CheckEther(c, f)
    && CheckIp(f)
    && f[6..12] == c.serverEth
    && WordAt(f, UDP_OFFSET) == SERVER_PORT && WordAt(f, 36) == expectedPort
  }

  /** The bytes that the chain looks at: both MAC addresses and the type, protocol, destination, both ports. */
  predicate CheckedByte(i: nat) {
    i < 14 || i == 23 || 30 <= i < 38
  }

  /** Next to a frame that the chain accepts, it accepts exactly those that are equal in all these bytes. */
  lemma OnlyCheckedBytesMatter(c: Client, f: Frame, g: Frame, port: Word)
    requires |f| >= HEADERS_LENGTH && |g| >= HEADERS_LENGTH && Matches(c, f, port)
    ensures Matches(c, g, port) <==> forall i :: 0 <= i < 42 && CheckedByte(i) ==> g[i] == f[i]
  {
    if forall i :: 0 <= i < 42 && CheckedByte(i) ==> g[i] == f[i] {
      assert g[..6] == f[..6] && g[6..12] == f[6..12] && g[30..34] == f[30..34];
    }
    if Matches(c, g, port) {
      assert forall i :: 0 <= i < 6 ==> g[i] == g[..6][i] == f[..6][i] && g[i + 6] == g[6..12][i] == f[6..12][i];
      assert forall i :: 0 <= i < 4 ==> g[i + 30] == g[30..34][i] == f[30..34][i];
    }
  }

  /** What the chain asks of those bytes. */
  lemma MatchedFrame(c: Client, f: Frame, port: Word)
    requires |f| >= HEADERS_LENGTH
    ensures Matches(c, f, port) <==>
            && f[0..6] == c.myEth && f[6..12] == c.serverEth && f[12] == 0x08 && f[13] == 0x00
            && f[23] == 17 && f[30..34] == [10, 16, 1, 2]
            && f[34] == 0x1F && f[35] == 0x41 && 0x100 * (f[36] as int) + f[37] == port
  {
  }

  /** The client's chain looks only at bytes that no checksum mode changes. */
  lemma MatchIgnoresChecksums(c: Client, f: Frame, g: Frame, port: Word)
    requires |f| == |g| >= HEADERS_LENGTH
    requires forall i :: 0 <= i < |f| && !ChecksumField(i) ==> f[i] == g[i]
    ensures Matches(c, f, port) <==> Matches(c, g, port)
  {
    assert f[..6] == g[..6] && f[6..12] == g[6..12] && f[30..34] == g[30..34];
  }

  /** The swapped request passes the chain exactly for its own source port. */
  lemma SwappedRequestMatches(c: Client, port: Word, expected: Word)
    requires ValidClient(c)
    ensures Matches(c, SwapEndpoints(Unsummed(c, port)), expected) <==> expected == port
  {
    var f := Unsummed(c, port);
    var g := SwapEndpoints(f);
    UnsummedFields(c, port, f);
    assert g[..6] == f[6..12] && g[6..12] == f[..6] && g[30..34] == f[26..30];
    assert g[12] == f[12..14][0] && g[13] == f[12..14][1];
    assert WordAt(g, 34) == WordAt(f, 36) && WordAt(g, 36) == WordAt(f, 34);
  }

  /** What the server leaves in the mbuf passes the chain exactly for a flow that shares the port. */
  lemma EchoMatchesIff(mode: ChecksumMode, c: Client, meta: TxMeta, f: nat, g: nat)
    requires ValidClient(c)
    ensures var reply := Echo(mode, Packet(Request(c, FlowSrcPort(c, f)), meta)).frame;
            Matches(c, reply, FlowSrcPort(c, g)) <==> f % c.numFlows == g % c.numFlows
  {
    var port := FlowSrcPort(c, f);
    var p := Packet(Request(c, port), meta);
    hide Request, Matches, Echo, FlowSrcPort;
    RequestBytes(c, port);
    var reply, plain := Echo(mode, p).frame, SwapEndpoints(Unsummed(c, port));
    forall i | 0 <= i < |reply| && !ChecksumField(i)
      ensures reply[i] == plain[i]
    {
      EchoOnlySwapsOutsideChecksums(mode, p, i);
    }
    MatchIgnoresChecksums(c, reply, plain, FlowSrcPort(c, g));
    SwappedRequestMatches(c, port, FlowSrcPort(c, g));
    SamePortIff(c, f, g);
  }

  /** The bytes of a reply on the wire: for offload they are the ones software would have left. */
  lemma WireReply(mode: ChecksumMode, p: Packet)
    requires WellFormed(p.frame) && p.meta.flags == {}
    ensures Transmittable(Echo(mode, p))
    ensures Wire(Echo(mode, p)) == Echo(if mode == Offload then Software else mode, p).frame
  {
    if mode == Offload {
      OffloadCompletesToSoftware(p);
    } else {
      hide SwapEndpoints, RecomputeIp, RecomputeUdp;
      WireWithoutFlags(Echo(mode, p));
    }
  }

  /**
   * In every mode, the reply to flow `f`'s request, as it arrives, passes the client's chain for flow
   * `g`'s port exactly when `f` and `g` are the same flow modulo the flow count.
   */
  lemma ReplyMatchesIff(mode: ChecksumMode, c: Client, meta: TxMeta, f: nat, g: nat)
    requires ValidClient(c) && meta.flags == {}
    ensures var reply := Echo(mode, Packet(Request(c, FlowSrcPort(c, f)), meta));
            Transmittable(reply) && (Matches(c, Wire(reply), FlowSrcPort(c, g)) <==> f % c.numFlows == g % c.numFlows)
  {
    var p := Packet(Request(c, FlowSrcPort(c, f)), meta);
    WireReply(mode, p);
    hide Matches, Echo, FlowSrcPort, Wire, Transmittable, Canonical;
    EchoMatchesIff(if mode == Offload then Software else mode, c, meta, f, g);
  }

  /**
   * The three modes answer a request with the same wire bytes, those bytes verify and pass the
   * client's chain, and echoing them again, in any of the modes, gives the request back.
   */
  lemma RoundTrip(c: Client, meta: TxMeta, f: nat)
    requires ValidClient(c)
    ensures ModesAgree(Packet(Request(c, FlowSrcPort(c, f)), meta))
    ensures var reply := SwapEndpoints(Request(c, FlowSrcPort(c, f)));
            && Canonical(reply) && Matches(c, reply, FlowSrcPort(c, f))
            && ModesAgree(Packet(reply, meta)) && SwapEndpoints(reply) == Request(c, FlowSrcPort(c, f))
  {
    hide FlowSrcPort, Matches, Wire, Transmittable, IpVerifies, UdpVerifies;
    var p := Packet(Request(c, FlowSrcPort(c, f)), meta);
    ModesAgreeOnCanonical(p);
    ModesAgreeOnCanonical(p.(frame := SwapEndpoints(p.frame)));
    EchoMatchesIff(Preserve, c, meta, f, f);
  }
}
