/** Ethernet + IPv4 + UDP frames as the programs lay them out: fixed offsets, network byte order. */
module Frames {
  import opened OnesComplement

  type Frame = seq<Byte>

  const IP_OFFSET := 14
  const TOTAL_LENGTH_FIELD := 16
  const PROTOCOL_FIELD := 23
  const IP_CKSUM_FIELD := 24
  const IP_SRC_FIELD := 26
  const IP_DST_FIELD := 30
  const UDP_OFFSET := 34
  const UDP_LENGTH_FIELD := 38
  const UDP_CKSUM_FIELD := 40
  const HEADERS_LENGTH := 42
  const IPPROTO_UDP: Byte := 17

  function WordAt(f: Frame, i: nat): Word
    requires i + 1 < |f|
  {
    0x100 * (f[i] as int) + f[i + 1]
  }

  function WordBytes(w: Word): Frame {
    [w / 0x100, w % 0x100]
  }

  function SetWord(f: Frame, i: nat, w: Word): (g: Frame)
    requires i + 1 < |f|
    ensures |g| == |f| && WordAt(g, i) == w
    ensures forall k :: 0 <= k < |f| && k != i && k != i + 1 ==> g[k] == f[k]
  {
    f[i := w / 0x100][i + 1 := w % 0x100]
  }

  function IpHeaderLength(f: Frame): nat
    requires |f| > IP_OFFSET
  {
    4 * (f[IP_OFFSET] % 0x10)
  }

  function TotalLength(f: Frame): nat
    requires |f| >= HEADERS_LENGTH
  {
    WordAt(f, TOTAL_LENGTH_FIELD)
  }

  /** The pseudo-header of RFC 768: both addresses, zero, protocol and the datagram length. */
  function PseudoHeader(f: Frame, length: Word): Frame
    requires |f| >= HEADERS_LENGTH
  {
    f[IP_SRC_FIELD..UDP_OFFSET] + [0, f[PROTOCOL_FIELD]] + WordBytes(length)
  }

  // ----- What a receiver checks

  /** Frames on which a receiver that honours the IHL field can locate the UDP datagram. */
  predicate Parsable(f: Frame) {
    && |f| >= HEADERS_LENGTH
    && IpHeaderLength(f) >= 20
    && var udp := IP_OFFSET + IpHeaderLength(f);
    && udp + 8 <= |f|
    && 8 <= WordAt(f, udp + 4) <= |f| - udp
  }

  /** The header-checksum test of section 3.1 of RFC 791. */
  predicate IpVerifies(f: Frame)
    requires Parsable(f)
  {
    Fold(WordSum(f[IP_OFFSET..IP_OFFSET + IpHeaderLength(f)])) == 0xFFFF
  }

  /** The sum that RFC 768 protects: the pseudo-header, the UDP header and the payload. */
  function UdpSum(f: Frame): nat
    requires Parsable(f)
  {
    var udp := IP_OFFSET + IpHeaderLength(f);
    var length := WordAt(f, udp + 4);
    WordSum(PseudoHeader(f, length)) + WordSum(f[udp..udp + length])
  }

  /** The checksum test of RFC 768, where a zero field says that the sender computed none. */
  predicate UdpVerifies(f: Frame)
    requires Parsable(f)
  {
    || WordAt(f, IP_OFFSET + IpHeaderLength(f) + 6) == 0
    || Fold(UdpSum(f)) == 0xFFFF
  }

  /**
   * The fixed format of the echo traffic: no IPv4 options, UDP, consistent lengths.
   * Bytes after the datagram (Ethernet padding) are allowed.
   */
  predicate WellFormed(f: Frame) {
    && |f| >= HEADERS_LENGTH
    && f[IP_OFFSET] == 0x45
    && f[PROTOCOL_FIELD] == IPPROTO_UDP
    && 28 <= TotalLength(f) <= |f| - IP_OFFSET
    && WordAt(f, UDP_LENGTH_FIELD) == TotalLength(f) - 20
  }

  // ----- The endpoint swap

  /** The byte that moves to position `i` when source and destination endpoints are exchanged. */
  function Partner(i: nat): nat {
    if i < 6 then i + 6
    else if i < 12 then i - 6
    else if 26 <= i < 30 then i + 4
    else if 30 <= i < 34 then i - 4
    else if 34 <= i < 36 then i + 2
    else if 36 <= i < 38 then i - 2
    else i
  }

  function SwapEndpoints(f: Frame): (g: Frame)
    requires |f| >= HEADERS_LENGTH
  {
    seq(|f|, i requires 0 <= i < |f| => f[Partner(i)])
  }

  /** Exchanging the endpoints twice restores the frame. */
  lemma SwapTwice(f: Frame)
    requires |f| >= HEADERS_LENGTH
    ensures SwapEndpoints(SwapEndpoints(f)) == f
  {
    var g := SwapEndpoints(f);
    forall i | 0 <= i < |f|
      ensures SwapEndpoints(g)[i] == f[i]
    {
      assert Partner(Partner(i)) == i;
    }
  }

  /** The swap permutes whole 16-bit words of any range that holds both ends of each exchange. */
  lemma SwapKeepsWordSum(f: Frame, hi: nat)
    requires HEADERS_LENGTH <= |f| && UDP_OFFSET <= hi <= |f| && (hi == UDP_OFFSET || 38 <= hi)
    ensures WordSum(SwapEndpoints(f)[IP_OFFSET..hi]) == WordSum(f[IP_OFFSET..hi])
    ensures WordSum(SwapEndpoints(f)[IP_SRC_FIELD..UDP_OFFSET]) == WordSum(f[IP_SRC_FIELD..UDP_OFFSET])
  {
    var g := SwapEndpoints(f);
    Split(f, IP_OFFSET, IP_SRC_FIELD, hi);
    Split(g, IP_OFFSET, IP_SRC_FIELD, hi);
    assert g[IP_OFFSET..IP_SRC_FIELD] == f[IP_OFFSET..IP_SRC_FIELD];
    Split(f, IP_SRC_FIELD, UDP_OFFSET, hi);
    Split(g, IP_SRC_FIELD, UDP_OFFSET, hi);
    Split(f, IP_SRC_FIELD, IP_DST_FIELD, UDP_OFFSET);
    Split(g, IP_SRC_FIELD, IP_DST_FIELD, UDP_OFFSET);
    assert g[IP_SRC_FIELD..IP_DST_FIELD] == f[IP_DST_FIELD..UDP_OFFSET];
    assert g[IP_DST_FIELD..UDP_OFFSET] == f[IP_SRC_FIELD..IP_DST_FIELD];
    if hi > UDP_OFFSET {
      SwapKeepsUdpWordSum(f, hi);
    }
  }

  lemma SwapKeepsUdpWordSum(f: Frame, hi: nat)
    requires HEADERS_LENGTH <= |f| && 38 <= hi <= |f|
    ensures WordSum(SwapEndpoints(f)[UDP_OFFSET..hi]) == WordSum(f[UDP_OFFSET..hi])
  {
    var g := SwapEndpoints(f);
    Split(f, UDP_OFFSET, 36, hi);
    Split(g, UDP_OFFSET, 36, hi);
    Split(f, 36, 38, hi);
    Split(g, 36, 38, hi);
    assert g[UDP_OFFSET..36] == f[36..38];
    assert g[36..38] == f[UDP_OFFSET..36];
    assert g[38..hi] == f[38..hi];
  }

  lemma Split(f: Frame, lo: nat, mid: nat, hi: nat)
    requires lo <= mid <= hi <= |f| && (mid - lo) % 2 == 0
    ensures WordSum(f[lo..hi]) == WordSum(f[lo..mid]) + WordSum(f[mid..hi])
  {
    assert f[lo..hi] == f[lo..mid] + f[mid..hi];
    WordSumConcat(f[lo..mid], f[mid..hi]);
  }

  /** A word at an even distance contributes its own value to the sum, whatever the other bytes are. */
  lemma SetWordInSum(f: Frame, lo: nat, i: nat, hi: nat, w: Word)
    requires lo <= i && i + 2 <= hi <= |f| && (i - lo) % 2 == 0
    ensures WordSum(f[lo..hi]) == WordSum(SetWord(f, i, 0)[lo..hi]) + WordAt(f, i)
    ensures WordSum(SetWord(f, i, w)[lo..hi]) == WordSum(SetWord(f, i, 0)[lo..hi]) + w
  {
    var z, g := SetWord(f, i, 0), SetWord(f, i, w);
    ThreeParts(f, lo, i, hi);
    ThreeParts(z, lo, i, hi);
    ThreeParts(g, lo, i, hi);
    assert f[lo..i] == z[lo..i] == g[lo..i];
    assert f[i + 2..hi] == z[i + 2..hi] == g[i + 2..hi];
  }

  lemma ThreeParts(f: Frame, lo: nat, i: nat, hi: nat)
    requires lo <= i && i + 2 <= hi <= |f| && (i - lo) % 2 == 0
    ensures WordSum(f[lo..hi]) == WordSum(f[lo..i]) + WordAt(f, i) + WordSum(f[i + 2..hi])
  {
    Split(f, lo, i, hi);
    Split(f, i, i + 2, hi);
    assert f[i..i + 2] == [f[i], f[i + 1]];
    assert WordSum([f[i], f[i + 1]]) == WordAt(f, i);
  }
}
