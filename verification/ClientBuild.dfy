/** How the clients write their packets: in place, into an mbuf or into one block of the template table. */
module ClientBuild {
  import opened Arithmetic
  import opened OnesComplement
  import opened Frames
  import opened EchoModes
  import opened EchoProofs
  import opened BurstPasses
  import opened ClientPackets

  // ----- Writing one packet at an offset

  /** memset */
  method Fill(buf: array<Byte>, at: nat, n: nat, b: Byte)
    requires at + n <= buf.Length
    modifies buf
    ensures forall i :: 0 <= i < buf.Length ==> buf[i] == if at <= i < at + n then b else old(buf[i])
  {
    forall i | at <= i < at + n {
      buf[i] := b;
    }
  }

  method WriteEther(buf: array<Byte>, at: nat, c: Client)
    requires ValidClient(c) && at + 14 <= buf.Length
    modifies buf
    ensures buf[at..at + 14] == EtherHeader(c)
    ensures forall i :: 0 <= i < at || at + 14 <= i < buf.Length ==> buf[i] == old(buf[i])
  {
    Put(buf, at + 6, c.myEth);
    Put(buf, at, c.serverEth);
    Put(buf, at + 12, [0x08, 0x00]);
  }

  method WriteIpv4(buf: array<Byte>, at: nat, c: Client)
    requires ValidClient(c) && at + 20 <= buf.Length
    modifies buf
    ensures buf[at..at + 20] == Ipv4Header(c)
    ensures forall i :: 0 <= i < at || at + 20 <= i < buf.Length ==> buf[i] == old(buf[i])
  {
    Put(buf, at, [0x45, 0]);
    Put(buf, at + 2, WordBytes(28 + c.payloadLength));
    Put(buf, at + 4, [0, 0, 0, 0]);
    Put(buf, at + 8, [64, IPPROTO_UDP, 0, 0]);
    Put(buf, at + 12, CLIENT_IP);
    Put(buf, at + 16, SERVER_IP);
    var h := Ipv4Header(c);
    assert h[0..2] == [0x45, 0] && h[2..4] == WordBytes(28 + c.payloadLength) && h[4..8] == [0, 0, 0, 0];
    assert h[8..12] == [64, IPPROTO_UDP, 0, 0] && h[12..16] == CLIENT_IP && h[16..20] == SERVER_IP;
  }

  method WriteUdp(buf: array<Byte>, at: nat, c: Client, port: Word)
    requires ValidClient(c) && at + 8 + c.payloadLength <= buf.Length
    modifies buf
    ensures buf[at..at + 8] == UdpHeader(c, port)
    ensures buf[at + 8..at + 8 + c.payloadLength] == Payload(c)
    ensures forall i :: 0 <= i < at || at + 8 + c.payloadLength <= i < buf.Length ==> buf[i] == old(buf[i])
  {
    Put(buf, at, WordBytes(port));
    Put(buf, at + 2, WordBytes(SERVER_PORT));
    Put(buf, at + 4, WordBytes(8 + c.payloadLength));
    Put(buf, at + 6, [0, 0]);
    Fill(buf, at + 8, c.payloadLength, 0xAB);
  }

  method WriteUnsummed(buf: array<Byte>, at: nat, c: Client, port: Word)
    requires ValidClient(c) && at + PacketLength(c) <= buf.Length
    modifies buf
    ensures buf[at..at + PacketLength(c)] == Unsummed(c, port)
    ensures forall i :: 0 <= i < at || at + PacketLength(c) <= i < buf.Length ==> buf[i] == old(buf[i])
  {
    hide EtherHeader, Ipv4Header, UdpHeader, Payload;
    WriteEther(buf, at, c);
    WriteIpv4(buf, at + 14, c);
    WriteUdp(buf, at + 34, c, port);
    assert buf[at..at + 14] == EtherHeader(c);
    assert buf[at + 14..at + 34] == Ipv4Header(c);
    HeaderSlices(buf[..], at, PacketLength(c));
    assert buf[..][at..at + 14] == buf[at..at + 14] && buf[..][at + 14..at + 34] == buf[at + 14..at + 34];
  }

  lemma HeaderSlices(s: Frame, at: nat, n: nat)
    requires 42 <= n && at + n <= |s|
    ensures s[at..at + n] == s[at..at + 14] + s[at + 14..at + 34] + s[at + 34..at + 42] + s[at + 42..at + n]
  {
  }

  /** Stores a 16-bit word in the packet at `at`. */
  method StoreWord(buf: array<Byte>, at: nat, n: nat, field: nat, w: Word)
    requires at + n <= buf.Length && field + 1 < n
    modifies buf
    ensures buf[at..at + n] == SetWord(old(buf[at..at + n]), field, w)
    ensures forall i :: 0 <= i < at || at + n <= i < buf.Length ==> buf[i] == old(buf[i])
  {
    buf[at + field] := w / 0x100;
    buf[at + field + 1] := w % 0x100;
  }

  /** Zeroes and computes the header checksum, then the UDP checksum. */
  method Summarise(buf: array<Byte>, at: nat, n: nat)
    requires at + n <= buf.Length && ChecksumsInRange(buf[at..at + n])
    modifies buf
    ensures buf[at..at + n] == RecomputeUdp(RecomputeIp(old(buf[at..at + n])))
    ensures forall i :: 0 <= i < at || at + n <= i < buf.Length ==> buf[i] == old(buf[i])
  {
    hide Ipv4Cksum, UdpCksum;
    StoreWord(buf, at, n, IP_CKSUM_FIELD, 0);
    StoreWord(buf, at, n, IP_CKSUM_FIELD, Ipv4Cksum(buf[at..at + n]));
    StoreWord(buf, at, n, UDP_CKSUM_FIELD, 0);
    StoreWord(buf, at, n, UDP_CKSUM_FIELD, UdpCksum(buf[at..at + n]));
  }

  // ----- Building from scratch

  lemma UnsummedRetargeted(c: Client, port: Word)
    requires ValidClient(c)
    ensures SetWord(Unsummed(c, CLIENT_PORT), UDP_OFFSET, port) == Unsummed(c, port)
  {
    var f, g := Unsummed(c, CLIENT_PORT), Unsummed(c, port);
    UnsummedFields(c, CLIENT_PORT, f);
    UnsummedFields(c, port, g);
    assert f[..14] == g[..14] && f[36..] == g[36..] by {
      assert f[..14] == EtherHeader(c) && g[..14] == EtherHeader(c);
      assert UdpHeader(c, port)[2..] == UdpHeader(c, CLIENT_PORT)[2..];
      assert f[42..] == Payload(c) && g[42..] == Payload(c);
    }
  }

  /** Without options, the header checksum does not depend on the ports. */
  lemma PortOutsideHeader(f: Frame, port: Word)
    requires WellFormed(f)
    ensures WellFormed(SetWord(f, UDP_OFFSET, port))
    ensures RecomputeIp(SetWord(f, UDP_OFFSET, port)) == SetWord(RecomputeIp(f), UDP_OFFSET, port)
  {
    hide WordSum, Fold;
    var zf := SetWord(f, IP_CKSUM_FIELD, 0);
    var zg := SetWord(SetWord(f, UDP_OFFSET, port), IP_CKSUM_FIELD, 0);
    assert zf[14..34] == zg[14..34];
    assert Ipv4Cksum(zf) == Ipv4Cksum(zg);
  }

  /** The bytes set_packet_flow leaves when it retargets a packet to a source port. */
  lemma RetargetedPort(c: Client, port: Word)
    requires ValidClient(c)
    ensures SetWord(Unsummed(c, CLIENT_PORT), UDP_OFFSET, port) == Unsummed(c, port)
    ensures SetWord(RecomputeIp(Unsummed(c, CLIENT_PORT)), UDP_OFFSET, port) == RecomputeIp(Unsummed(c, port))
  {
    hide RecomputeIp, Unsummed, WellFormed;
    UnsummedRetargeted(c, port);
    PortOutsideHeader(Unsummed(c, CLIENT_PORT), port);
  }

  /** craft_packet on a fresh mbuf; like the library, it relies on the data room being large enough. */
  method CraftPacket(m: Mbuf, c: Client, flowId: nat)
    requires ValidClient(c) && flowId < U32
    requires m.len == 0 && m.meta == TxMeta(0, 0, 0, {}) && PacketLength(c) <= m.data.Length
    modifies m, m.data
    ensures m.Valid() && m.Contents() == Packet(Request(c, FlowSrcPort(c, flowId)), TxMeta(14, 20, 0, {}))
  {
    hide Ipv4Cksum, UdpCksum, ChecksumsInRange;
    var n, port := PacketLength(c), FlowSrcPort(c, flowId);
    m.len := n;
    WriteUnsummed(m.data, 0, c, CLIENT_PORT);
    m.meta := m.meta.(l2Len := 14, l3Len := 20, flags := {});
    ghost var f := m.data[..n];
    WellFormedInRange(c, CLIENT_PORT);
    WellFormedInRange(c, port);
    assert f == SetWord(f, IP_CKSUM_FIELD, 0);
    StoreWord(m.data, 0, n, IP_CKSUM_FIELD, Ipv4Cksum(m.data[..n]));
    assert m.data[0..n] == RecomputeIp(f);
    RetargetedPort(c, port);
    StoreWord(m.data, 0, n, UDP_OFFSET, port);
    StoreWord(m.data, 0, n, UDP_CKSUM_FIELD, 0);
    StoreWord(m.data, 0, n, UDP_CKSUM_FIELD, UdpCksum(m.data[..n]));
    assert m.data[0..n] == RecomputeUdp(RecomputeIp(Unsummed(c, port)));
  }

  lemma WellFormedInRange(c: Client, port: Word)
    requires ValidClient(c)
    ensures ChecksumsInRange(Unsummed(c, port)) && ChecksumsInRange(RecomputeIp(Unsummed(c, port)))
    ensures Unsummed(c, port) == SetWord(Unsummed(c, port), IP_CKSUM_FIELD, 0)
    ensures ChecksumsInRange(SetWord(RecomputeIp(Unsummed(c, port)), UDP_CKSUM_FIELD, 0))
  {
    UnsummedFields(c, port, Unsummed(c, port));
    assert Unsummed(c, port)[14..34][10] == 0 && Unsummed(c, port)[14..34][11] == 0;
  }

  // ----- The template table

  /** Where the block of flow `i` begins. */
  function Offset(n: nat, i: nat): nat {
    i * n
  }

  /** Block `i` of the table is the finished request of flow `i`. */
  ghost predicate TemplatesReady(c: Client, table: array<Byte>, upTo: nat)
    requires ValidClient(c)
    reads table
  {
    forall i :: 0 <= i < upTo ==> BlockReady(c, table, i)
  }

  ghost predicate BlockReady(c: Client, table: array<Byte>, i: nat)
    requires ValidClient(c)
    reads table
  {
    var at, n := Offset(PacketLength(c), i), PacketLength(c);
    at + n <= table.Length && table[at..at + n] == Request(c, FlowSrcPort(c, i))
  }

  /** Blocks do not overlap and stay inside the table. */
  lemma BlocksDisjoint(n: nat, count: nat, i: nat, j: nat)
    requires i < j < count
    ensures Offset(n, i) + n <= Offset(n, j) && Offset(n, j) + n <= Offset(n, count)
  {
    MulMonotone(i + 1, j, n);
    MulMonotone(j + 1, count, n);
    assert (i + 1) * n == i * n + n && (j + 1) * n == j * n + n;
  }

  method BuildTemplate(table: array<Byte>, at: nat, c: Client, flowId: nat)
    requires ValidClient(c) && at + PacketLength(c) <= table.Length && flowId < U32
    modifies table
    ensures table[at..at + PacketLength(c)] == Request(c, FlowSrcPort(c, flowId))
    ensures forall i :: 0 <= i < at || at + PacketLength(c) <= i < table.Length ==> table[i] == old(table[i])
  {
    hide RecomputeIp, RecomputeUdp;
    var n := PacketLength(c);
    Fill(table, at, n, 0);
    WriteUnsummed(table, at, c, FlowSrcPort(c, flowId));
    WellFormedInRange(c, FlowSrcPort(c, flowId));
    Summarise(table, at, n);
  }

  /** One iteration of the loop of prepare_templates: block `i` is built, earlier blocks stay. */
  method AddTemplate(table: array<Byte>, c: Client, i: nat)
    requires ValidClient(c) && i < c.numFlows && TemplatesReady(c, table, i)
    requires table.Length == Offset(PacketLength(c), c.numFlows)
    modifies table
    ensures TemplatesReady(c, table, i + 1)
  {
    hide Request, FlowSrcPort, Offset, Canonical, ChecksumsInRange;
    var n := PacketLength(c);
    BlocksBefore(n, c.numFlows, i);
    BuildTemplate(table, Offset(n, i), c, i);
    forall k | 0 <= k < i
      ensures BlockReady(c, table, k)
    {
      assert old(BlockReady(c, table, k));
      assert table[Offset(n, k)..Offset(n, k) + n] == old(table[Offset(n, k)..Offset(n, k) + n]);
    }
  }

  /** prepare_templates */
  method PrepareTemplates(c: Client) returns (table: array<Byte>)
    requires ValidClient(c)
    ensures fresh(table) && table.Length == Offset(PacketLength(c), c.numFlows)
    ensures TemplatesReady(c, table, c.numFlows)
  {
    hide BlockReady, Offset;
    table := new Byte[Offset(PacketLength(c), c.numFlows)](_ => 0);
    for i := 0 to c.numFlows
      invariant table.Length == Offset(PacketLength(c), c.numFlows) && TemplatesReady(c, table, i)
    {
      AddTemplate(table, c, i);
    }
  }

  /** Block `i` is inside the table and after every earlier block. */
  lemma BlocksBefore(n: nat, count: nat, i: nat)
    requires i < count
    ensures Offset(n, i) + n <= Offset(n, count)
    ensures forall k :: 0 <= k < i ==> Offset(n, k) + n <= Offset(n, i)
  {
    forall k | 0 <= k < i
      ensures Offset(n, k) + n <= Offset(n, i)
    {
      BlocksDisjoint(n, count, k, i);
    }
    MulMonotone(i + 1, count, n);
    assert (i + 1) * n == i * n + n;
  }

  lemma PortWraps(c: Client, flowId: nat)
    requires ValidClient(c)
    ensures FlowSrcPort(c, flowId % c.numFlows) == FlowSrcPort(c, flowId)
  {
    var i := flowId % c.numFlows;
    RemainderOf(0, c.numFlows, i);
    assert i % c.numFlows == i;
  }

  /** prepare_mbuf_from_template: false when the mbuf has no room, which ends the program. */
  method PrepareFromTemplate(m: Mbuf, table: array<Byte>, c: Client, flowId: nat) returns (ok: bool)
    requires ValidClient(c) && TemplatesReady(c, table, c.numFlows) && m.data != table
    modifies m, m.data
    ensures ok <==> PacketLength(c) <= m.data.Length
    ensures ok ==> m.Valid() && m.Contents() == Packet(Request(c, FlowSrcPort(c, flowId)), TxMeta(14, 20, 0, {}))
  {
    hide Request, Offset, Canonical, ChecksumsInRange;
    var n, i := PacketLength(c), flowId % c.numFlows;
    m.len, m.meta := 0, TxMeta(0, 0, 0, {});
    if n > m.data.Length {
      return false;
    }
    m.len := n;
    assert BlockReady(c, table, i);
    PortWraps(c, flowId);
    hide FlowSrcPort;
    var block := table[Offset(n, i)..Offset(n, i) + n];
    Put(m.data, 0, block);
    m.meta := m.meta.(l2Len := 14, l3Len := 20, flags := {});
    assert m.data[..n] == block;
    return true;
  }

  // ----- When the two agree

  /** Different source ports give different requests. */
  lemma RequestDeterminesPort(c: Client, p: Word, q: Word)
    requires ValidClient(c)
    ensures Request(c, p) == Request(c, q) <==> p == q
  {
    UnsummedFields(c, p, Unsummed(c, p));
    UnsummedFields(c, q, Unsummed(c, q));
    RequestBytes(c, p);
    RequestBytes(c, q);
    hide Request, Unsummed, Canonical, ChecksumsInRange, WellFormed;
    assert Request(c, p)[34] == Unsummed(c, p)[34] && Request(c, p)[35] == Unsummed(c, p)[35];
    assert Request(c, q)[34] == Unsummed(c, q)[34] && Request(c, q)[35] == Unsummed(c, q)[35];
    assert WordAt(Request(c, p), UDP_OFFSET) == p && WordAt(Request(c, q), UDP_OFFSET) == q;
  }

  /** The template of a 64-bit flow id is what crafting gives after the id is cut to 32 bits. */
  ghost predicate TemplateMatchesCraft(c: Client, flowId: nat)
    requires ValidClient(c)
  {
    Request(c, FlowSrcPort(c, flowId)) == Request(c, FlowSrcPort(c, flowId % U32))
  }

  lemma SameRequestIff(c: Client, f: nat, g: nat)
    requires ValidClient(c)
    ensures Request(c, FlowSrcPort(c, f)) == Request(c, FlowSrcPort(c, g)) <==> f % c.numFlows == g % c.numFlows
  {
    SamePortIff(c, f, g);
    hide Request, FlowSrcPort, Canonical, ChecksumsInRange;
    RequestDeterminesPort(c, FlowSrcPort(c, f), FlowSrcPort(c, g));
  }

  /** Cutting the id matters exactly when it changes the remainder; it never does below 2^32. */
  lemma TemplateMatchesCraftIff(c: Client, flowId: nat)
    requires ValidClient(c)
    ensures TemplateMatchesCraft(c, flowId) <==> flowId % c.numFlows == flowId % U32 % c.numFlows
    ensures flowId % U32 == flowId ==> TemplateMatchesCraft(c, flowId)
  {
    hide Request, FlowSrcPort, Canonical, ChecksumsInRange;
    SameRequestIff(c, flowId, flowId % U32);
  }

  lemma DivisorMatches(c: Client, flowId: nat)
    requires ValidClient(c) && U32 % c.numFlows == 0
    ensures TemplateMatchesCraft(c, flowId)
  {
    hide TemplateMatchesCraft;
    TemplateMatchesCraftIff(c, flowId);
    DropMultiple(flowId % U32, flowId / U32, c.numFlows);
  }

  /** The table and crafting agree on all 64-bit ids exactly when the flow count divides 2^32. */
  lemma AllIdsMatchIff(c: Client)
    requires ValidClient(c)
    ensures (forall f :: 0 <= f < 0x1_0000_0000_0000_0000 ==> TemplateMatchesCraft(c, f)) <==> U32 % c.numFlows == 0
  {
    hide TemplateMatchesCraft;
    if U32 % c.numFlows == 0 {
      forall f | 0 <= f < 0x1_0000_0000_0000_0000
        ensures TemplateMatchesCraft(c, f)
      {
        DivisorMatches(c, f);
      }
    } else {
      TemplateMatchesCraftIff(c, U32);
    }
  }

  lemma DropMultiple(r: nat, k: nat, n: nat)
    requires n > 0 && U32 % n == 0
    ensures (U32 * k + r) % n == r % n
  {
    var q := U32 / n;
    assert U32 == q * n;
    assert U32 * k + r == (q * k + r / n) * n + r % n by {
      assert r == (r / n) * n + r % n;
      assert q * n * k == q * k * n;
    }
    RemainderOf(q * k + r / n, n, r % n);
  }
}
