/** Concrete inputs on which the code does not do what its shape or documentation suggests. */
module CounterExamples {
  import opened Arithmetic
  import opened OnesComplement
  import opened Frames
  import opened EchoModes
  import opened EchoProofs
  import opened ReplyTests
  import opened ClientPackets
  import opened ClientBuild
  import opened RoundCollection
  import opened Aggregation

  // ----- Verifying requests that preserve and software answer differently

  const ETHER: Frame := [2, 0, 0, 0, 0, 1, 2, 0, 0, 0, 0, 2, 0x08, 0x00]

  /** A header that verifies with checksum 0xFFFF in place of 0. */
  const ALL_ONES_HEADER: Frame :=
    [0x45, 0x00, 0x00, 0x1C, 0x00, 0x00, 0x00, 0x00, 0x40, 0x11, 0xFF, 0xFF,
     0x0A, 0x10, 0x01, 0x02, 0x0A, 0x10, 0x65, 0xB0]

  /** Its datagram, with a correct checksum. */
  const SUMMED_DATAGRAM: Frame := [0x04, 0xD2, 0x00, 0x07, 0x00, 0x08, 0x80, 0x33]

  /** A header with the usual checksum. */
  const PLAIN_HEADER: Frame :=
    [0x45, 0x00, 0x00, 0x1C, 0x00, 0x00, 0x00, 0x00, 0x40, 0x11, 0x64, 0xAD,
     0x0A, 0x10, 0x01, 0x02, 0x0A, 0x10, 0x01, 0x03]

  /** A datagram whose sender computed no checksum. */
  const UNSUMMED_DATAGRAM: Frame := [0x04, 0xD2, 0x00, 0x07, 0x00, 0x08, 0x00, 0x00]

  /** The sum of the two words at byte `i`. */
  function TwoWords(b: seq<Byte>, i: nat): nat
    requires i + 4 <= |b|
  {
    0x100 * (b[i] as int + b[i + 2] as int) + b[i + 1] + b[i + 3]
  }

  lemma WordSumFrom(b: seq<Byte>, i: nat)
    requires i + 4 <= |b|
    ensures WordSum(b[i..]) == TwoWords(b, i) + WordSum(b[i + 4..])
  {
    assert b[i..][2..] == b[i + 2..] && b[i + 2..][2..] == b[i + 4..];
  }

  lemma HeaderSum(h: Frame)
    requires |h| == 20
    ensures WordSum(h) == TwoWords(h, 0) + TwoWords(h, 4) + TwoWords(h, 8) + TwoWords(h, 12) + TwoWords(h, 16)
    ensures WordSum(h[12..]) == TwoWords(h, 12) + TwoWords(h, 16)
  {
    assert h[0..] == h && WordSum(h[20..]) == 0;
    WordSumFrom(h, 0);
    WordSumFrom(h, 4);
    WordSumFrom(h, 8);
    WordSumFrom(h, 12);
    WordSumFrom(h, 16);
    hide WordSum, TwoWords;
  }

  lemma DatagramSum(d: Frame)
    requires |d| == 8
    ensures WordSum(d) == TwoWords(d, 0) + TwoWords(d, 4)
  {
    assert d[0..] == d && WordSum(d[8..]) == 0;
    WordSumFrom(d, 0);
    WordSumFrom(d, 4);
  }

  /** What the two tests look at in a frame put together from its three headers. */
  lemma Parts(h: Frame, d: Frame)
    requires |h| == 20 && |d| == 8 && h[0] == 0x45 && h[2] == 0 && h[3] == 28 && h[9] == IPPROTO_UDP
    requires d[4] == 0 && d[5] == 8
    ensures var f := ETHER + h + d;
            && WellFormed(f) && Parsable(f) && IpHeaderLength(f) == 20 && f[14..34] == h
            && WordAt(f, IP_CKSUM_FIELD) == WordAt(h, 10) && WordAt(f, UDP_CKSUM_FIELD) == WordAt(d, 6)
            && UdpSum(f) == WordSum(h[12..]) + 25 + WordSum(d)
  {
    hide WordSum, UdpSum, WellFormed, Parsable;
    var f := ETHER + h + d;
    PartBytes(h, d);
    SumOfParts(f, h, d);
  }

  lemma PartBytes(h: Frame, d: Frame)
    requires |h| == 20 && |d| == 8
    ensures var f := ETHER + h + d; |f| == HEADERS_LENGTH && f[14..34] == h && f[34..42] == d
  {
  }

  lemma SumOfParts(f: Frame, h: Frame, d: Frame)
    requires |f| == HEADERS_LENGTH && f[14..34] == h && f[34..42] == d
    requires h[0] == 0x45 && h[2] == 0 && h[3] == 28 && h[9] == IPPROTO_UDP && d[4] == 0 && d[5] == 8
    ensures WellFormed(f) && Parsable(f) && IpHeaderLength(f) == 20
    ensures WordAt(f, IP_CKSUM_FIELD) == WordAt(h, 10) && WordAt(f, UDP_CKSUM_FIELD) == WordAt(d, 6)
    ensures UdpSum(f) == WordSum(h[12..]) + 25 + WordSum(d)
  {
    hide WordSum, PseudoHeader;
    assert f[14] == h[0] && f[16] == h[2] && f[17] == h[3] && f[23] == h[9] && f[38] == d[4] && f[39] == d[5];
    assert f[24] == h[10] && f[25] == h[11] && f[40] == d[6] && f[41] == d[7];
    PseudoSum(f, h);
  }

  lemma PseudoSum(f: Frame, h: Frame)
    requires |f| >= HEADERS_LENGTH && |h| == 20 && f[14..34] == h && f[PROTOCOL_FIELD] == IPPROTO_UDP
    ensures WordSum(PseudoHeader(f, 8)) == WordSum(h[12..]) + 25
  {
    hide WordSum;
    var tail := [0, IPPROTO_UDP, 0, 8];
    assert PseudoHeader(f, 8) == h[12..] + tail;
    WordSumConcat(h[12..], tail);
    TailSum(tail);
  }

  lemma TailSum(tail: Frame)
    requires tail == [0, IPPROTO_UDP, 0, 8]
    ensures WordSum(tail) == 25
  {
    assert tail[2..] == [0, 8] && tail[2..][2..] == [];
    assert WordSum(tail) == 17 + WordSum([0, 8]);
  }

  /** The request passes both tests, and yet preserve and software put different bytes in the reply. */
  lemma AllOnesHeaderDiffers(meta: TxMeta)
    ensures var f := ETHER + ALL_ONES_HEADER + SUMMED_DATAGRAM;
            && WellFormed(f) && IpVerifies(f) && UdpVerifies(f)
            && WordAt(f, IP_CKSUM_FIELD) == 0xFFFF && WordAt(f, UDP_CKSUM_FIELD) != 0
            && Echo(Preserve, Packet(f, meta)) != Echo(Software, Packet(f, meta))
  {
    hide WordSum, Echo, UdpSum, Canonical;
    Parts(ALL_ONES_HEADER, SUMMED_DATAGRAM);
    HeaderSum(ALL_ONES_HEADER);
    DatagramSum(SUMMED_DATAGRAM);
    DiffersUnlessCanonical(ETHER + ALL_ONES_HEADER + SUMMED_DATAGRAM, meta);
  }

  lemma DiffersUnlessCanonical(f: Frame, meta: TxMeta)
    requires WellFormed(f) && (WordAt(f, IP_CKSUM_FIELD) == 0xFFFF || WordAt(f, UDP_CKSUM_FIELD) == 0)
    ensures Echo(Preserve, Packet(f, meta)) != Echo(Software, Packet(f, meta))
  {
    hide Echo;
    PreserveEqualsSoftwareIff(Packet(f, meta));
  }

  /** The same where the header checksum is the usual one and the sender computed no UDP checksum. */
  lemma NoUdpChecksumDiffers(meta: TxMeta)
    ensures var f := ETHER + PLAIN_HEADER + UNSUMMED_DATAGRAM;
            && WellFormed(f) && IpVerifies(f) && UdpVerifies(f)
            && WordAt(f, IP_CKSUM_FIELD) != 0xFFFF && WordAt(f, UDP_CKSUM_FIELD) == 0
            && Echo(Preserve, Packet(f, meta)) != Echo(Software, Packet(f, meta))
  {
    hide WordSum, Echo, UdpSum, Canonical;
    Parts(PLAIN_HEADER, UNSUMMED_DATAGRAM);
    HeaderSum(PLAIN_HEADER);
    DiffersUnlessCanonical(ETHER + PLAIN_HEADER + UNSUMMED_DATAGRAM, meta);
  }

  // ----- A request with IPv4 options

  /** A header of 28 bytes that verifies. */
  const LONG_HEADER: Frame :=
    [0x47, 0x00, 0x00, 0x24, 0x00, 0x00, 0x00, 0x00, 0x40, 0x11, 0xCC, 0x9E,
     0x0A, 0x10, 0x01, 0x02, 0x0A, 0x10, 0x01, 0x03]

  const EIGHT_OPTIONS: Frame := [0x94, 0x04, 0x00, 0x00, 0x01, 0x01, 0x01, 0x01]

  /** Eight bytes of options: the datagram begins at byte 42, with ports 1234 and 7. */
  const WITH_OPTIONS: Frame := ETHER + (LONG_HEADER + EIGHT_OPTIONS) + UNSUMMED_DATAGRAM

  /** Whatever the mode, the reply comes from the port the request came from. */
  lemma OptionsKeepPorts(mode: ChecksumMode, meta: TxMeta)
    ensures Parsable(WITH_OPTIONS) && Accepts(mode, WITH_OPTIONS)
    ensures WordAt(Echo(mode, Packet(WITH_OPTIONS, meta)).frame, 42) == 1234
    ensures !PortsExchanged(WITH_OPTIONS, Echo(mode, Packet(WITH_OPTIONS, meta)).frame)
  {
    OptionsAccepted(mode);
    var p := Packet(WITH_OPTIONS, meta);
    hide Echo, Accepts, Parsable, PortsExchanged;
    PortsExchangedIff(mode, p);
    EchoOnlySwapsOutsideChecksums(mode, p, 42);
    EchoOnlySwapsOutsideChecksums(mode, p, 43);
  }

  lemma OptionsAccepted(mode: ChecksumMode)
    ensures |WITH_OPTIONS| == 50 && Parsable(WITH_OPTIONS) && Accepts(mode, WITH_OPTIONS)
    ensures IpHeaderLength(WITH_OPTIONS) == 28 && !EqualPorts(WITH_OPTIONS)
    ensures WITH_OPTIONS[42] == 0x04 && WITH_OPTIONS[43] == 0xD2
  {
  }

  /**
   * Both tests accept the request, and the preserve reply too. Software stores 0x54BC in the options
   * after it has summed them, so that its reply fails the header test.
   */
  lemma OptionsSpoilHeader(meta: TxMeta)
    ensures Parsable(WITH_OPTIONS) && ChecksumsInRange(WITH_OPTIONS)
    ensures IpVerifies(WITH_OPTIONS) && UdpVerifies(WITH_OPTIONS)
    ensures var reply := Echo(Preserve, Packet(WITH_OPTIONS, meta)).frame;
            Parsable(reply) && IpVerifies(reply) && UdpVerifies(reply)
    ensures var reply := Echo(Software, Packet(WITH_OPTIONS, meta)).frame;
            Parsable(reply) && WordAt(reply, 40) == 0x54BC && UdpVerifies(reply) && !IpVerifies(reply)
  {
    hide Echo, SwapEndpoints, Accepts, Parsable, UdpWord, WordSum, Fold, UdpSum, IpVerifies, UdpVerifies;
    var p := Packet(WITH_OPTIONS, meta);
    OptionsAccepted(Software);
    OptionsVerify();
    OptionsWord();
    PreserveVerifiesIff(p);
    SoftwareIpVerifiesIff(p);
    UdpReplyVerifiesIff(Software, p);
    EchoStoresWord(Software, p);
  }

  lemma OptionsVerify()
    ensures Parsable(WITH_OPTIONS) && IpVerifies(WITH_OPTIONS) && UdpVerifies(WITH_OPTIONS)
  {
    hide WordSum, UdpSum, Fold;
    OptionsAccepted(Software);
    OptionsSlices();
    LongHeaderSum();
    NoOptionsChecksum();
  }

  lemma LongHeaderSum()
    ensures Fold(WordSum(LONG_HEADER + EIGHT_OPTIONS)) == 0xFFFF
  {
    hide WordSum, TwoWords;
    HeaderSum(LONG_HEADER);
    DatagramSum(EIGHT_OPTIONS);
    WordSumConcat(LONG_HEADER, EIGHT_OPTIONS);
    OptionsTwoWords();
  }

  lemma NoOptionsChecksum()
    ensures |WITH_OPTIONS| == 50 && WordAt(WITH_OPTIONS, 48) == 0
  {
  }

  lemma OptionsSlices()
    ensures WITH_OPTIONS[14..42] == LONG_HEADER + EIGHT_OPTIONS
    ensures WITH_OPTIONS[26..34] == LONG_HEADER[12..]
  {
  }

  lemma OptionsTwoWords()
    ensures var h, o := LONG_HEADER, EIGHT_OPTIONS;
            && TwoWords(h, 0) + TwoWords(h, 4) + TwoWords(h, 8) + TwoWords(h, 12) + TwoWords(h, 16) == 0x1_69F8
            && TwoWords(o, 0) + TwoWords(o, 4) == 0x9606
  {
  }

  /** The word that software stores in the options. */
  lemma OptionsWord()
    ensures var g := SwapEndpoints(WITH_OPTIONS); ChecksumsInRange(g) && UdpWord(g) == 0x54BC
    ensures WordAt(WITH_OPTIONS, 40) == 0x0101
  {
    hide WordSum, PseudoHeader, UdpWord, PseudoHeaderCksum, Accepts, TwoWords;
    OptionsAccepted(Software);
    SwapKeepsAccepts(Software, WITH_OPTIONS);
    OptionsBytes();
    PseudoHeaderSwap(WITH_OPTIONS, 8);
    AddressSum(WITH_OPTIONS[26..34], [0, IPPROTO_UDP, 0, 8]);
    StoredInOptionsSum();
    StoredFromSums(SwapEndpoints(WITH_OPTIONS), 0x9505);
  }

  lemma StoredInOptionsSum()
    ensures WordSum([0, 0, 0x94, 4, 1, 1, 0, 0]) == 0x9505
  {
    DatagramSum([0, 0, 0x94, 4, 1, 1, 0, 0]);
  }

  lemma OptionsBytes()
    ensures var f, g := WITH_OPTIONS, SwapEndpoints(WITH_OPTIONS);
            && PseudoHeader(f, 8) == f[26..34] + [0, IPPROTO_UDP, 0, 8]
            && TwoWords(f[26..34], 0) + TwoWords(f[26..34], 4) == 0x1625
            && IpHeaderLength(g) == 28 && TotalLength(g) == 36 && g[PROTOCOL_FIELD] == IPPROTO_UDP
            && SetWord(g, UDP_CKSUM_FIELD, 0)[34..42] == [0, 0, 0x94, 4, 1, 1, 0, 0]
  {
    hide SwapEndpoints, TwoWords;
    OptionsAccepted(Software);
    OptionsSlices();
    LongHeaderBytes();
    SwappedOptions(WITH_OPTIONS);
  }

  lemma LongHeaderBytes()
    ensures var f := WITH_OPTIONS;
            && f[34] == 0x94 && f[35] == 4 && f[36] == f[37] == 0 && f[38] == f[39] == 1
            && TotalLength(f) == 36 && f[PROTOCOL_FIELD] == IPPROTO_UDP
    ensures TwoWords(LONG_HEADER[12..], 0) + TwoWords(LONG_HEADER[12..], 4) == 0x1625
  {
    assert LONG_HEADER[12..] == [0x0A, 0x10, 0x01, 0x02, 0x0A, 0x10, 0x01, 0x03];
  }

  // ----- A request whose destination port is overwritten

  /** Four bytes of options: the datagram begins at byte 38, and both its ports are 7. */
  const FOUR_OPTIONS: Frame :=
    [2, 0, 0, 0, 0, 1, 2, 0, 0, 0, 0, 2, 0x08, 0x00,
     0x46, 0x00, 0x00, 0x20, 0x00, 0x00, 0x00, 0x00, 0x40, 0x11, 0x00, 0x00,
     0x0A, 0x10, 0x01, 0x02, 0x0A, 0x10, 0x01, 0x03,
     0x01, 0x01, 0x01, 0x01,
     0x00, 0x07, 0x00, 0x07, 0x00, 0x08, 0x00, 0x00]

  /**
   * With equal ports every other header length would exchange them. Here only preserve does: the
   * other modes send the reply to port 0, to the pseudo-header sum, or to the checksum.
   */
  lemma FourOptionsMisdirect(mode: ChecksumMode, meta: TxMeta)
    ensures Parsable(FOUR_OPTIONS) && Accepts(mode, FOUR_OPTIONS) && EqualPorts(FOUR_OPTIONS)
    ensures var reply := Echo(mode, Packet(FOUR_OPTIONS, meta)).frame;
            && (PortsExchanged(FOUR_OPTIONS, reply) <==> mode == Preserve)
            && WordAt(reply, 40) == match mode
                                    case Software => 0xE7B8
                                    case Offload => 0x163E
                                    case Preserve => 7
                                    case None => 0
  {
    hide Echo, SwapEndpoints, Accepts, Parsable, PortsExchanged, UdpWord, PseudoHeaderCksum;
    FourOptionsAccepted(mode);
    FourOptionsWords();
    PortsExchangedIff(mode, Packet(FOUR_OPTIONS, meta));
    DestinationPortOverwritten(mode, Packet(FOUR_OPTIONS, meta));
  }

  lemma FourOptionsAccepted(mode: ChecksumMode)
    ensures |FOUR_OPTIONS| == 46 && Parsable(FOUR_OPTIONS) && Accepts(mode, FOUR_OPTIONS) && EqualPorts(FOUR_OPTIONS)
    ensures IpHeaderLength(FOUR_OPTIONS) == 24 && TotalLength(FOUR_OPTIONS) == 32
    ensures WordAt(FOUR_OPTIONS, 38) == 7 && WordAt(FOUR_OPTIONS, 40) == 7
    ensures FOUR_OPTIONS[PROTOCOL_FIELD] == IPPROTO_UDP
  {
  }

  /** The words that offload and software store, from the sums of the pseudo-header and of eight bytes. */
  lemma FourOptionsWords()
    ensures var g := SwapEndpoints(FOUR_OPTIONS);
            ChecksumsInRange(g) && PseudoHeaderCksum(g) == 0x163E && UdpWord(g) == 0xE7B8
  {
    hide SwapEndpoints, WordSum, PseudoHeader, UdpWord, PseudoHeaderCksum, Accepts, TwoWords;
    FourOptionsAccepted(Software);
    SwapKeepsAccepts(Software, FOUR_OPTIONS);
    FourOptionsBytes();
    PseudoHeaderSwap(FOUR_OPTIONS, 8);
    AddressSum(FOUR_OPTIONS[26..34], [0, IPPROTO_UDP, 0, 8]);
    OptionsSum();
    StoredFromSums(SwapEndpoints(FOUR_OPTIONS), 0x0209);
  }

  lemma StoredFromSums(g: Frame, datagram: nat)
    requires Accepts(Software, g) && TotalLength(g) - IpHeaderLength(g) == 8 && g[PROTOCOL_FIELD] == IPPROTO_UDP
    requires WordSum(PseudoHeader(g, 8)) == 0x163E && 0x163E + datagram < 0xFFFF
    requires WordSum(SetWord(g, UDP_CKSUM_FIELD, 0)[34..42]) == datagram
    ensures ChecksumsInRange(g) && PseudoHeaderCksum(g) == 0x163E && UdpWord(g) == 0xFFFF - (0x163E + datagram)
  {
    hide WordSum, PseudoHeader, Fold, CarryStep;
    PseudoHeaderIgnores(g, UDP_CKSUM_FIELD, 0, 8);
    NothingToCarry(0x163E);
    NothingToCarry(datagram);
    NothingToCarry(0x163E + datagram);
  }

  lemma NothingToCarry(s: nat)
    requires s < 0x1_0000
    ensures Fold(s) == s && CarryStep(s) == s
  {
  }

  lemma OptionsSum()
    ensures WordSum([1, 1, 1, 1, 0, 7, 0, 0]) == 0x0209
  {
    DatagramSum([1, 1, 1, 1, 0, 7, 0, 0]);
  }

  lemma AddressSum(a: Frame, tail: Frame)
    requires |a| == 8 && tail == [0, IPPROTO_UDP, 0, 8]
    ensures WordSum(a + tail) == TwoWords(a, 0) + TwoWords(a, 4) + 25
  {
    WordSumConcat(a, tail);
    DatagramSum(a);
    TailSum(tail);
  }

  lemma FourOptionsBytes()
    ensures var f, g := FOUR_OPTIONS, SwapEndpoints(FOUR_OPTIONS);
            && PseudoHeader(f, 8) == f[26..34] + [0, IPPROTO_UDP, 0, 8]
            && TwoWords(f[26..34], 0) + TwoWords(f[26..34], 4) == 0x1625
            && IpHeaderLength(g) == 24 && TotalLength(g) == 32 && g[PROTOCOL_FIELD] == IPPROTO_UDP
            && SetWord(g, UDP_CKSUM_FIELD, 0)[34..42] == [1, 1, 1, 1, 0, 7, 0, 0]
  {
    hide SwapEndpoints;
    var f := FOUR_OPTIONS;
    FourOptionsSlices();
    FourOptionsAccepted(Software);
    SwappedOptions(f);
  }

  lemma FourOptionsSlices()
    ensures FOUR_OPTIONS[26..34] == [0x0A, 0x10, 0x01, 0x02, 0x0A, 0x10, 0x01, 0x03]
    ensures FOUR_OPTIONS[34] == FOUR_OPTIONS[35] == FOUR_OPTIONS[36] == FOUR_OPTIONS[37] == 1
    ensures FOUR_OPTIONS[38] == 0 && FOUR_OPTIONS[39] == 7
  {
  }

  /** What the server sums from byte 34 on, when it takes options for the UDP header. */
  lemma SwappedOptions(f: Frame)
    requires |f| >= HEADERS_LENGTH
    ensures var g := SwapEndpoints(f);
            && g[14] == f[14] && g[16] == f[16] && g[17] == f[17] && g[23] == f[23]
            && SetWord(g, UDP_CKSUM_FIELD, 0)[34..42] == [f[36], f[37], f[34], f[35], f[38], f[39], 0, 0]
  {
    var g := SwapEndpoints(f);
    assert g[34] == f[36] && g[35] == f[37] && g[36] == f[34] && g[37] == f[35] && g[38] == f[38] && g[39] == f[39];
    hide SwapEndpoints;
    assert SetWord(g, UDP_CKSUM_FIELD, 0)[34..40] == [g[34], g[35], g[36], g[37], g[38], g[39]];
    assert SetWord(g, UDP_CKSUM_FIELD, 0)[40..42] == [0, 0];
  }

  // ----- A flow id that the two ways of building a packet treat differently

  const THREE_FLOWS := Client([2, 0, 0, 0, 0, 2], [2, 0, 0, 0, 0, 1], 3, 0)

  /** With three flows, the id 2^32 is flow 1 in the table; cut to 32 bits it is flow 0. */
  lemma TemplateDiffers()
    ensures ValidClient(THREE_FLOWS)
    ensures FlowSrcPort(THREE_FLOWS, U32) == CLIENT_PORT + 1 && FlowSrcPort(THREE_FLOWS, U32 % U32) == CLIENT_PORT
    ensures !TemplateMatchesCraft(THREE_FLOWS, U32)
  {
    hide TemplateMatchesCraft;
    TemplateMatchesCraftIff(THREE_FLOWS, U32);
  }

  // ----- A complete block of a log that is missed

  /** The line of queue `q`, whatever else is in it. */
  function Line(x: Sample, q: nat): Sample {
    x.(queueId := q)
  }

  /** With three queues, the lines 0, 1, 0, 2 hold the complete block 1, 0, 2, but no round is returned. */
  lemma BlockMissed(x: Sample)
    ensures Complete(3, [Line(x, 1), Line(x, 0), Line(x, 2)])
    ensures ScanAll(3, [Line(x, 0)] + [Line(x, 1), Line(x, 0), Line(x, 2)]).rounds == []
  {
    var a, b, c := Line(x, 0), Line(x, 1), Line(x, 2);
    BlockComplete(b, a, c);
    hide ScanAll, Complete, Step;
    assert [a] + [b] == [a, b] && [a, b] + [a] == [a, b, a] && [a, b, a] + [c] == [a] + [b, a, c];
    ScanStart(3, a);
    ScanNew([a], b, 2);
    ScanRepeated([a, b], a, 2);
    ScanNew([a, b, a], c, 1);
  }

  lemma BlockComplete(x: Sample, y: Sample, z: Sample)
    requires x.queueId == 1 && y.queueId == 0 && z.queueId == 2
    ensures Complete(3, [x, y, z])
  {
    hide QueueIds, Expected;
    assert [] + [x] == [x] && [x] + [y] == [x, y] && [x, y] + [z] == [x, y, z];
    NoIds();
    QueueIdsExtend([], x);
    QueueIdsExtend([x], y);
    QueueIdsExtend([x, y], z);
    NotExpected({0, 1, 2});
  }

  lemma NoIds()
    ensures QueueIds([]) == {}
  {
  }

  /** A sample of a new queue, which does not complete the group. */
  lemma ScanNew(xs: seq<Sample>, x: Sample, missing: nat)
    requires var s := ScanAll(3, xs); x.queueId !in s.seen && missing !in s.seen && missing != x.queueId && missing < 3
    ensures var s := ScanAll(3, xs);
            ScanAll(3, xs + [x]) == s.(current := s.current + [x], seen := s.seen + {x.queueId})
  {
    ScanSnoc(3, xs, x);
    hide ScanAll, Expected;
    assert missing in Expected(3) && missing !in ScanAll(3, xs).seen + {x.queueId};
  }

  /** A sample of a queue seen before, while the group is not complete. */
  lemma ScanRepeated(xs: seq<Sample>, x: Sample, missing: nat)
    requires var s := ScanAll(3, xs); x.queueId in s.seen && missing !in s.seen && missing < 3
    ensures ScanAll(3, xs + [x]) == ScanAll(3, xs).(current := [x], seen := {x.queueId})
  {
    ScanSnoc(3, xs, x);
    hide ScanAll, Expected;
    assert missing in Expected(3);
  }

  lemma ScanStart(n: nat, x: Sample)
    requires n != 1
    ensures ScanAll(n, [x]) == Scan([], [x], {x.queueId}, [])
  {
    assert [x] == [] + [x];
    ScanSnoc(n, [], x);
    assert |{x.queueId}| == 1;
  }

  lemma NotExpected(ids: set<nat>)
    ensures ids == Expected(3) <==> ids == {0, 1, 2}
  {
    assert forall q: nat :: q in Expected(3) <==> q in {0, 1, 2};
  }

  // ----- Averages that are not total cycles over total packets

  function Ten(s: Sample): nat {
    10
  }

  /** A queue that logs its figure for ten cycles: per received packet, or per transmitted one. */
  function TenCycles(q: nat, rx: nat, tx: nat, perTx: bool): Sample
    requires tx <= rx
  {
    Sample(q, rx, tx, rx - tx, 0.0, 0.0, [PerPacket(10, if perTx then tx else rx)], 0)
  }

  /** One queue receives two packets and one is idle: twenty cycles for two packets, and the average says five. */
  lemma IdleQueueLost()
    ensures var r := [TenCycles(0, 2, 2, false), TenCycles(1, 0, 0, false)];
            && (forall i :: 0 <= i < |r| ==> Figure(0)(r[i]) == PerPacket(Ten(r[i]), r[i].rxPkts))
            && WeightedAverage(r, Figure(0)) == 5.0
            && PerPacket(Total(r, Ten), RxTotal(r)) == 10.0
  {
    var r := [TenCycles(0, 2, 2, false), TenCycles(1, 0, 0, false)];
    OneSum(r[0]);
    TwoSums(r[0], r[1]);
  }

  /** Of two received packets one is sent: ten cycles for two packets, and the average says ten, not five. */
  lemma DropsInflate()
    ensures var r := [TenCycles(0, 2, 1, true)];
            && (forall i :: 0 <= i < |r| ==> Figure(0)(r[i]) == PerPacket(Ten(r[i]), r[i].txPkts))
            && SentSome(r, Ten) && !SentAll(r, Ten)
            && WeightedAverage(r, Figure(0)) == 10.0
            && PerPacket(Total(r, Ten), RxTotal(r)) == 5.0
  {
    OneSum(TenCycles(0, 2, 1, true));
  }

  lemma OneSum(x: Sample)
    ensures RxTotal([x]) == x.rxPkts && Total([x], Ten) == 10
    ensures WeightedSum([x], Figure(0)) == Figure(0)(x) * x.rxPkts as real
  {
    var r := [x];
    assert r[..|r| - 1] == [] && r[|r| - 1] == x;
    assert Total(r, Ten) == Total([], Ten) + Ten(x);
    assert Total(r, RxPkts) == Total([], RxPkts) + RxPkts(x);
    assert WeightedSum(r, Figure(0)) == WeightedSum([], Figure(0)) + Figure(0)(x) * x.rxPkts as real;
  }

  lemma TwoSums(x: Sample, y: Sample)
    ensures RxTotal([x, y]) == x.rxPkts + y.rxPkts && Total([x, y], Ten) == 20
    ensures WeightedSum([x, y], Figure(0)) == Figure(0)(x) * x.rxPkts as real + Figure(0)(y) * y.rxPkts as real
  {
    OneSum(x);
    var r := [x, y];
    assert r[..|r| - 1] == [x] && r[|r| - 1] == y;
    assert Total(r, Ten) == Total([x], Ten) + Ten(y);
    assert Total(r, RxPkts) == Total([x], RxPkts) + RxPkts(y);
    assert WeightedSum(r, Figure(0)) == WeightedSum([x], Figure(0)) + Figure(0)(y) * y.rxPkts as real;
  }
}
