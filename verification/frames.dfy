/**
 * The on-the-wire layout of the frames the packet crafter builds: an
 * Ethernet II header, an IPv4 header without options, then a TCP, UDP or
 * ICMP header and the payload. Each header is the byte string of the
 * packed struct PacketCrafterEngine.cpp lays over the frame buffer, with
 * its multi-byte fields in network order.
 */
module Frames {
  import opened Optional
  import opened Bytes
  import opened Checksum
  import opened Addresses
  import opened CraftConfig

  const EthernetSize: nat := 14
  const IPv4Size: nat := 20
  /** Where the transport header starts in the frame. */
  const TransportOffset: nat := EthernetSize + IPv4Size
  const EtherTypeIPv4: uint16 := 0x0800

  function TransportSize(p: TransportProtocol): nat {
    match p
    case TCP => 20
    case UDP => 8
    case ICMP => 8
  }

  /** The IPv4 protocol number BuildPacket writes for each transport. */
  function ProtocolNumber(p: TransportProtocol): byte {
    match p
    case TCP => 6
    case UDP => 17
    case ICMP => 1
  }

  /** Offset of the checksum field inside each transport header. */
  function TransportCheckOffset(p: TransportProtocol): nat {
    match p
    case TCP => 16
    case UDP => 6
    case ICMP => 2
  }

  /**
   * The four bytes inet_addr stores for an address string: the address in
   * network order, or INADDR_NONE (all ones) when the text is not an address.
   */
  function AddressField(s: string): (r: seq<byte>)
    ensures |r| == 4
    ensures ParseDottedQuad(s).Some? ==> FormatDottedQuad(r) == s
  {
    FormatParseOf(s);
    match ParseDottedQuad(s)
    case Some(a) => a
    case None => [0xFF, 0xFF, 0xFF, 0xFF]
  }

  lemma FormatParseOf(s: string)
    ensures ParseDottedQuad(s).Some? ==> FormatDottedQuad(ParseDottedQuad(s).value) == s
  {
    if ParseDottedQuad(s).Some? {
      FormatParse(s);
    }
  }

  /** `buf` with the big-endian 16-bit field at `off` replaced by `v`. */
  function StoreBE16(buf: seq<byte>, off: nat, v: uint16): (r: seq<byte>)
    requires off + 2 <= |buf|
    ensures |r| == |buf| && ReadBE16(r, off) == v
    ensures forall i :: 0 <= i < |buf| && i != off && i != off + 1 ==> r[i] == buf[i]
  {
    buf[..off] + BE16(v) + buf[off + 2..]
  }

  // ---------------------------------------------------------------------
  // Headers
  // ---------------------------------------------------------------------

  /** Destination MAC, source MAC, EtherType IPv4. */
  function EthernetHeader(c: PacketCraftConfig): (r: seq<byte>)
    ensures |r| == EthernetSize
  {
    MacBytes(c.dstMAC) + MacBytes(c.srcMAC) + BE16(EtherTypeIPv4)
  }

  /**
   * Version 4 and a 5-word header, type of service, total length (truncated
   * to 16 bits), identification, the don't-fragment flag, TTL, protocol,
   * header checksum, source and destination address.
   */
  function IPv4Header(c: PacketCraftConfig, payloadLen: nat, check: uint16): (r: seq<byte>)
    ensures |r| == IPv4Size
  {
    [0x45, c.tos]
    + BE16((IPv4Size + TransportSize(c.protocol) + payloadLen) % 0x1_0000)
    + BE16(c.identification)
    + (if c.dontFragment then BE16(0x4000) else BE16(0))
    + [c.ttl, ProtocolNumber(c.protocol)]
    + BE16(check)
    + AddressField(c.srcIP)
    + AddressField(c.dstIP)
  }

  /** The TCP flags byte: FIN 0x01, SYN 0x02, RST 0x04, PSH 0x08, ACK 0x10, URG 0x20. */
  function TcpFlags(c: PacketCraftConfig): byte {
    (if c.flagFIN then 0x01 else 0) + (if c.flagSYN then 0x02 else 0)
    + (if c.flagRST then 0x04 else 0) + (if c.flagPSH then 0x08 else 0)
    + (if c.flagACK then 0x10 else 0) + (if c.flagURG then 0x20 else 0)
  }

  function TcpHeader(c: PacketCraftConfig, check: uint16): (r: seq<byte>)
    ensures |r| == 20
  {
    BE16(c.srcPort) + BE16(c.dstPort) + BE32(c.seqNumber) + BE32(c.ackNumber)
    + [0x50, TcpFlags(c)] + BE16(c.windowSize) + BE16(check) + BE16(0)
  }

  function UdpHeader(c: PacketCraftConfig, payloadLen: nat, check: uint16): (r: seq<byte>)
    ensures |r| == 8
  {
    BE16(c.srcPort) + BE16(c.dstPort) + BE16((8 + payloadLen) % 0x1_0000) + BE16(check)
  }

  function IcmpHeader(c: PacketCraftConfig, check: uint16): (r: seq<byte>)
    ensures |r| == 8
  {
    [c.icmpType, c.icmpCode] + BE16(check) + BE16(c.icmpId) + BE16(c.icmpSequence)
  }

  function TransportHeader(c: PacketCraftConfig, payloadLen: nat, check: uint16): (r: seq<byte>)
    ensures |r| == TransportSize(c.protocol)
  {
    match c.protocol
    case TCP => TcpHeader(c, check)
    case UDP => UdpHeader(c, payloadLen, check)
    case ICMP => IcmpHeader(c, check)
  }

  /**
   * The pseudo-header CalculateTCPChecksum and CalculateUDPChecksum put in
   * front of the segment: source and destination address, a zero byte, the
   * protocol and the segment length (its low 16 bits).
   */
  function PseudoHeader(src: seq<byte>, dst: seq<byte>, proto: byte, len: nat): (r: seq<byte>)
    requires |src| == 4 && |dst| == 4
    ensures |r| == 12
  {
    src + dst + [0, proto] + [len / 0x100 % 0x100, len % 0x100]
  }

  // ---------------------------------------------------------------------
  // The frame
  // ---------------------------------------------------------------------

  /** The IPv4 header checksum: over the header with its checksum field zero. */
  function IPv4Checksum(c: PacketCraftConfig, payloadLen: nat): uint16 {
    InternetChecksum(IPv4Header(c, payloadLen, 0))
  }

  /** What the transport checksum is computed over: the segment with a zero checksum, behind the pseudo-header for TCP and UDP. */
  function TransportChecksumInput(c: PacketCraftConfig, p: seq<byte>): seq<byte> {
    var segment := TransportHeader(c, |p|, 0) + p;
    if c.protocol == ICMP then segment
    else PseudoHeader(AddressField(c.srcIP), AddressField(c.dstIP), ProtocolNumber(c.protocol), |segment|) + segment
  }

  function TransportChecksum(c: PacketCraftConfig, p: seq<byte>): uint16 {
    InternetChecksum(TransportChecksumInput(c, p))
  }

  /** The frame BuildPacket produces for configuration `c` and payload `p`. */
  function Frame(c: PacketCraftConfig, p: seq<byte>): (r: seq<byte>)
    ensures |r| == TransportOffset + TransportSize(c.protocol) + |p|
  {
    EthernetHeader(c)
    + IPv4Header(c, |p|, IPv4Checksum(c, |p|))
    + TransportHeader(c, |p|, TransportChecksum(c, p))
    + p
  }

  // ---------------------------------------------------------------------
  // Properties of the frame
  // ---------------------------------------------------------------------

  /** Each flag the configuration sets is its own bit of the flags byte, and no other bit is set. */
  lemma TcpFlagBits(c: PacketCraftConfig)
    ensures c.flagFIN <==> TcpFlags(c) % 2 == 1
    ensures c.flagSYN <==> TcpFlags(c) / 0x02 % 2 == 1
    ensures c.flagRST <==> TcpFlags(c) / 0x04 % 2 == 1
    ensures c.flagPSH <==> TcpFlags(c) / 0x08 % 2 == 1
    ensures c.flagACK <==> TcpFlags(c) / 0x10 % 2 == 1
    ensures c.flagURG <==> TcpFlags(c) / 0x20 % 2 == 1
    ensures TcpFlags(c) < 0x40
  {
  }

  /** Filling in the checksum of an IPv4 header touches only its checksum field (bytes 10 and 11). */
  lemma IPv4HeaderStore(c: PacketCraftConfig, payloadLen: nat, check: uint16)
    ensures IPv4Header(c, payloadLen, check) == StoreBE16(IPv4Header(c, payloadLen, 0), 10, check)
  {
  }

  /** Filling in a transport checksum touches only the checksum field of that header. */
  lemma TransportHeaderStore(c: PacketCraftConfig, payloadLen: nat, check: uint16)
    ensures TransportHeader(c, payloadLen, check)
         == StoreBE16(TransportHeader(c, payloadLen, 0), TransportCheckOffset(c.protocol), check)
  {
  }

  /** The frame is the four parts in order: Ethernet header, IPv4 header, transport header, payload. */
  lemma FrameParts(c: PacketCraftConfig, p: seq<byte>)
    ensures var f := Frame(c, p);
      var t := TransportOffset + TransportSize(c.protocol);
      && f[..EthernetSize] == EthernetHeader(c)
      && f[EthernetSize..TransportOffset] == IPv4Header(c, |p|, IPv4Checksum(c, |p|))
      && f[TransportOffset..] == TransportHeader(c, |p|, TransportChecksum(c, p)) + p
      && f[TransportOffset..t] == TransportHeader(c, |p|, TransportChecksum(c, p))
      && f[t..] == p
  {
    var e := EthernetHeader(c);
    var ip := IPv4Header(c, |p|, IPv4Checksum(c, |p|));
    var th := TransportHeader(c, |p|, TransportChecksum(c, p));
    var f := e + ip + th + p;
    assert f == e + ip + (th + p);
    assert f[EthernetSize..TransportOffset] == ip;
    assert f[TransportOffset..] == th + p;
  }

  /** The Ethernet header: destination MAC, source MAC, EtherType 0x0800. */
  lemma EthernetFields(c: PacketCraftConfig)
    ensures var h := EthernetHeader(c);
      h[..6] == MacBytes(c.dstMAC) && h[6..12] == MacBytes(c.srcMAC) && ReadBE16(h, 12) == EtherTypeIPv4
  {
    var h := EthernetHeader(c);
    assert h[..6] == MacBytes(c.dstMAC);
    assert h[6..12] == MacBytes(c.srcMAC);
  }

  /** The IPv4 header fields, read back in network order. */
  lemma IPv4Fields(c: PacketCraftConfig, payloadLen: nat, check: uint16)
    ensures var h := IPv4Header(c, payloadLen, check);
      && h[0] == 0x45 && h[1] == c.tos
      && ReadBE16(h, 2) == (IPv4Size + TransportSize(c.protocol) + payloadLen) % 0x1_0000
      && ReadBE16(h, 4) == c.identification
      && ReadBE16(h, 6) == (if c.dontFragment then 0x4000 else 0)
      && h[8] == c.ttl && h[9] == ProtocolNumber(c.protocol) && ReadBE16(h, 10) == check
      && h[12..16] == AddressField(c.srcIP) && h[16..20] == AddressField(c.dstIP)
  {
    var h := IPv4Header(c, payloadLen, check);
    assert h[12..16] == AddressField(c.srcIP);
    assert h[16..20] == AddressField(c.dstIP);
  }

  /** The transport header fields, read back in network order. */
  lemma TransportFields(c: PacketCraftConfig, payloadLen: nat, check: uint16)
    ensures var h := TransportHeader(c, payloadLen, check);
      && ReadBE16(h, TransportCheckOffset(c.protocol)) == check
      && (c.protocol != ICMP ==> ReadBE16(h, 0) == c.srcPort && ReadBE16(h, 2) == c.dstPort)
      && (c.protocol == TCP ==>
            && ReadBE16(h, 4) as int * 0x1_0000 + ReadBE16(h, 6) == c.seqNumber
            && ReadBE16(h, 8) as int * 0x1_0000 + ReadBE16(h, 10) == c.ackNumber
            && h[12] == 0x50 && h[13] == TcpFlags(c) && ReadBE16(h, 14) == c.windowSize
            && ReadBE16(h, 18) == 0)
      && (c.protocol == UDP ==> ReadBE16(h, 4) == (8 + payloadLen) % 0x1_0000)
      && (c.protocol == ICMP ==>
            h[0] == c.icmpType && h[1] == c.icmpCode
            && ReadBE16(h, 4) == c.icmpId && ReadBE16(h, 6) == c.icmpSequence)
  {
    var h := TransportHeader(c, payloadLen, check);
    if c.protocol == TCP {
      var s4 := BE32(c.seqNumber);
      var a4 := BE32(c.ackNumber);
      assert h[4..8] == s4 && h[8..12] == a4;
      assert ReadBE16(h, 4) == ReadBE16(s4, 0) && ReadBE16(h, 6) == ReadBE16(s4, 2);
      assert ReadBE16(h, 8) == ReadBE16(a4, 0) && ReadBE16(h, 10) == ReadBE16(a4, 2);
    }
  }

  /**
   * A receiver summing the IPv4 header of the frame, checksum included, gets
   * 0xFFFF (RFC 791 section 3.1, RFC 1071 section 1): the header checksum is
   * right.
   */
  lemma IPv4ChecksumValid(c: PacketCraftConfig, p: seq<byte>)
    ensures var f := Frame(c, p);
      OnesSum(f[EthernetSize..TransportOffset], IPv4Size / 2, BigEndian) == 0xFFFF
  {
    var f := Frame(c, p);
    var h0 := IPv4Header(c, |p|, 0);
    var h := IPv4Header(c, |p|, IPv4Checksum(c, |p|));
    IPv4HeaderStore(c, |p|, IPv4Checksum(c, |p|));
    ChecksumVerifies(h0, 5, h);
    FrameParts(c, p);
  }

  /**
   * What a receiver sums to check the transport checksum of a frame: the
   * segment, behind the pseudo-header it builds from the frame's own IPv4
   * header (no pseudo-header for ICMP).
   */
  function ReceivedSegment(f: seq<byte>, protocol: TransportProtocol): seq<byte>
    requires |f| >= TransportOffset
  {
    var segment := f[TransportOffset..];
    if protocol == ICMP then segment
    else PseudoHeader(f[26..30], f[30..34], f[23], |segment|) + segment
  }

  /**
   * The whole words of what the receiver sums, the frame's checksum
   * included, add up to 0xFFFF: the TCP, UDP or ICMP checksum agrees with
   * the unpadded sum CalculateChecksum computes. When the payload has even
   * length this is the test of an RFC 1071 receiver, which then passes.
   */
  lemma TransportChecksumValid(c: PacketCraftConfig, p: seq<byte>)
    ensures var input := ReceivedSegment(Frame(c, p), c.protocol);
      OnesSum(input, |input| / 2, BigEndian) == 0xFFFF
    ensures |p| % 2 == 0 ==> ReceiverSum(ReceivedSegment(Frame(c, p), c.protocol)) == 0xFFFF
  {
    FrameSum(c, p);
    FrameTail(c, p);
    SegmentReceiver(Frame(c, p), c.protocol, p);
  }

  /**
   * A payload of odd length whose last byte is not zero makes the frame fail
   * an RFC 1071 receiver, which pads the segment with a zero byte where
   * CalculateChecksum leaves the last byte out.
   */
  lemma OddPayloadFailsReceiver(c: PacketCraftConfig, p: seq<byte>)
    requires |p| % 2 == 1 && p[|p| - 1] != 0
    ensures ReceiverSum(ReceivedSegment(Frame(c, p), c.protocol)) != 0xFFFF
  {
    FrameSum(c, p);
    FrameTail(c, p);
    SegmentReceiver(Frame(c, p), c.protocol, p);
  }

  /** The transport checksum as RFC 1071 defines it: over the checksum input padded to whole words. */
  function PaddedTransportChecksum(c: PacketCraftConfig, p: seq<byte>): uint16 {
    PaddedChecksum(TransportChecksumInput(c, p))
  }

  /** For a payload of even length the padded checksum is the one BuildPacket stores. */
  lemma PaddedTransportChecksumOfEven(c: PacketCraftConfig, p: seq<byte>)
    requires |p| % 2 == 0
    ensures PaddedTransportChecksum(c, p) == TransportChecksum(c, p)
  {
    var x := TransportChecksumInput(c, p);
    var h := TransportHeader(c, |p|, 0);
    if c.protocol == ICMP {
      assert x == h + p;
    } else {
      var pre := PseudoHeader(AddressField(c.srcIP), AddressField(c.dstIP), ProtocolNumber(c.protocol), |h + p|);
      assert x == pre + h + p;
    }
    EvenBufferPadded(x);
  }

  /**
   * The segment with the padded checksum stored, behind its pseudo-header
   * (none for ICMP), passes an RFC 1071 receiver for every payload, odd
   * lengths included.
   */
  lemma PaddedSegmentValid(c: PacketCraftConfig, p: seq<byte>)
    ensures var segment := TransportHeader(c, |p|, PaddedTransportChecksum(c, p)) + p;
      var input := if c.protocol == ICMP then segment
                   else PseudoHeader(AddressField(c.srcIP), AddressField(c.dstIP), ProtocolNumber(c.protocol), |segment|) + segment;
      ReceiverSum(input) == 0xFFFF
  {
    TransportHeaderStore(c, |p|, PaddedTransportChecksum(c, p));
    CheckFieldZero(c, |p|);
    var t0 := TransportHeader(c, |p|, 0);
    if c.protocol == ICMP {
      var check := PaddedTransportChecksum(c, p);
      assert TransportChecksumInput(c, p) == t0 + p;
      PaddedIcmpValid(t0, TransportHeader(c, |p|, check), p, check);
    } else {
      PaddedPseudoValid(c, p, t0);
    }
  }

  /** The ICMP case of PaddedSegmentValid: no pseudo-header, the checksum field at offset 2. */
  lemma PaddedIcmpValid(t0: seq<byte>, t: seq<byte>, p: seq<byte>, check: uint16)
    requires |t0| == 8 && ReadBE16(t0, 2) == 0
    requires check == PaddedChecksum(t0 + p) && t == StoreBE16(t0, 2, check)
    ensures ReceiverSum(t + p) == 0xFFFF
  {
    assert [] + t0 + p == t0 + p;
    StoredPaddedValid([], t0, p, 2);
    assert [] + t + p == t + p;
  }

  lemma PaddedPseudoValid(c: PacketCraftConfig, p: seq<byte>, t0: seq<byte>)
    requires c.protocol != ICMP && t0 == TransportHeader(c, |p|, 0)
    requires var off := TransportCheckOffset(c.protocol); off % 2 == 0 && off + 2 <= |t0| && ReadBE16(t0, off) == 0
    requires TransportHeader(c, |p|, PaddedTransportChecksum(c, p))
          == StoreBE16(t0, TransportCheckOffset(c.protocol), PaddedTransportChecksum(c, p))
    ensures var segment := TransportHeader(c, |p|, PaddedTransportChecksum(c, p)) + p;
      ReceiverSum(PseudoHeader(AddressField(c.srcIP), AddressField(c.dstIP), ProtocolNumber(c.protocol), |segment|) + segment) == 0xFFFF
  {
    var off := TransportCheckOffset(c.protocol);
    var pre := PseudoHeader(AddressField(c.srcIP), AddressField(c.dstIP), ProtocolNumber(c.protocol), |t0 + p|);
    assert TransportChecksumInput(c, p) == pre + t0 + p;
    var t := TransportHeader(c, |p|, PaddedTransportChecksum(c, p));
    StoredPaddedSegment(pre, t0, t, p, off);
  }

  /** StoredPaddedValid for a segment `t + p` placed behind `pre`. */
  lemma StoredPaddedSegment(pre: seq<byte>, t0: seq<byte>, t: seq<byte>, p: seq<byte>, off: nat)
    requires |pre| % 2 == 0 && off % 2 == 0 && off + 2 <= |t0| && ReadBE16(t0, off) == 0
    requires t == StoreBE16(t0, off, PaddedChecksum(pre + t0 + p))
    ensures ReceiverSum(pre + (t + p)) == 0xFFFF
  {
    StoredPaddedValid(pre, t0, p, off);
    assert pre + (t + p) == pre + t + p;
  }

  /** The padded checksum of `pre + h + p`, stored in the zero field at `off` of `h`, passes the RFC 1071 receiver. */
  lemma StoredPaddedValid(pre: seq<byte>, h: seq<byte>, p: seq<byte>, off: nat)
    requires |pre| % 2 == 0 && off % 2 == 0 && off + 2 <= |h| && ReadBE16(h, off) == 0
    ensures var stored := pre + StoreBE16(h, off, PaddedChecksum(pre + h + p)) + p;
      ReceiverSum(stored) == 0xFFFF
  {
    var buf := pre + h + p;
    var check := PaddedChecksum(buf);
    var k := (|pre| + off) / 2;
    var stored := pre + StoreBE16(h, off, check) + p;
    assert 2 * k + 2 <= |buf| && buf[2 * k] == 0 && buf[2 * k + 1] == 0
        && stored == buf[..2 * k] + BE16(check) + buf[2 * k + 2..] by {
      StoreSplice(pre, h, p, off, check);
    }
    PaddedChecksumVerifies(buf, k, stored);
  }

  /** Storing a word in the field at `off` of `h` is storing it at word (|pre| + off) / 2 of `pre + h + p`. */
  lemma StoreSplice(pre: seq<byte>, h: seq<byte>, p: seq<byte>, off: nat, v: uint16)
    requires |pre| % 2 == 0 && off % 2 == 0 && off + 2 <= |h| && ReadBE16(h, off) == 0
    ensures var buf := pre + h + p; var k := (|pre| + off) / 2;
      && 2 * k + 2 <= |buf| && buf[2 * k] == 0 && buf[2 * k + 1] == 0
      && pre + StoreBE16(h, off, v) + p == buf[..2 * k] + BE16(v) + buf[2 * k + 2..]
  {
    var buf := pre + h + p;
    var k := (|pre| + off) / 2;
    assert buf[2 * k] == h[off] && buf[2 * k + 1] == h[off + 1];
  }

  /** The addresses and the protocol, where a receiver finds them in a frame holding the IPv4 header at offset 14. */
  lemma HeaderAddresses(c: PacketCraftConfig, payloadLen: nat, check: uint16, f: seq<byte>)
    requires |f| >= TransportOffset && f[EthernetSize..TransportOffset] == IPv4Header(c, payloadLen, check)
    ensures f[26..30] == AddressField(c.srcIP) && f[30..34] == AddressField(c.dstIP)
    ensures f[14] == 0x45 && f[23] == ProtocolNumber(c.protocol)
  {
    IPv4Fields(c, payloadLen, check);
    HeaderInFrame(f, f[EthernetSize..TransportOffset]);
  }

  /** Where the IPv4 protocol byte and the two addresses of the header at offset 14 sit in the frame. */
  lemma HeaderInFrame(f: seq<byte>, h: seq<byte>)
    requires |f| >= TransportOffset && f[EthernetSize..TransportOffset] == h
    ensures f[14] == h[0] && f[23] == h[9] && f[26..30] == h[12..16] && f[30..34] == h[16..20]
  {
    assert forall i :: 0 <= i < IPv4Size ==> f[EthernetSize + i] == h[i];
  }

  /** TransportChecksumValid for any buffer holding the frame's addresses, protocol and segment. */
  lemma ReceiverTransportSum(c: PacketCraftConfig, p: seq<byte>, f: seq<byte>)
    requires |f| >= TransportOffset
    requires f[26..30] == AddressField(c.srcIP) && f[30..34] == AddressField(c.dstIP)
    requires f[23] == ProtocolNumber(c.protocol)
    requires f[TransportOffset..] == TransportHeader(c, |p|, TransportChecksum(c, p)) + p
    ensures var input := ReceivedSegment(f, c.protocol);
      OnesSum(input, |input| / 2, BigEndian) == 0xFFFF
  {
    SegmentChecksumValid(c, p);
  }

  /** The unpadded sum over what a receiver of the frame sums. */
  lemma FrameSum(c: PacketCraftConfig, p: seq<byte>)
    ensures var input := ReceivedSegment(Frame(c, p), c.protocol); OnesSum(input, |input| / 2, BigEndian) == 0xFFFF
  {
    FrameParts(c, p);
    PartsSum(c, p, Frame(c, p));
  }

  /** The frame ends with the payload, right behind the transport header. */
  lemma FrameTail(c: PacketCraftConfig, p: seq<byte>)
    ensures |Frame(c, p)| == TransportOffset + TransportSize(c.protocol) + |p|
    ensures Frame(c, p)[TransportOffset + TransportSize(c.protocol)..] == p
  {
    FrameParts(c, p);
  }

  /** The unpadded sum over the receiver's input, for a buffer holding the IPv4 header and the segment where the frame does. */
  lemma PartsSum(c: PacketCraftConfig, p: seq<byte>, f: seq<byte>)
    requires |f| >= TransportOffset && f[EthernetSize..TransportOffset] == IPv4Header(c, |p|, IPv4Checksum(c, |p|))
    requires f[TransportOffset..] == TransportHeader(c, |p|, TransportChecksum(c, p)) + p
    ensures var input := ReceivedSegment(f, c.protocol); OnesSum(input, |input| / 2, BigEndian) == 0xFFFF
  {
    HeaderAddresses(c, |p|, IPv4Checksum(c, |p|), f);
    ReceiverTransportSum(c, p, f);
  }

  /**
   * What an RFC 1071 receiver makes of a frame ending with the payload `p`
   * right behind its transport header, when the whole words of the segment,
   * behind its pseudo-header, sum to 0xFFFF: it passes when the payload has
   * even length, and fails when it has odd length and a last byte that is
   * not zero.
   */
  lemma SegmentReceiver(f: seq<byte>, protocol: TransportProtocol, p: seq<byte>)
    requires |f| == TransportOffset + TransportSize(protocol) + |p|
    requires f[TransportOffset + TransportSize(protocol)..] == p
    requires var input := ReceivedSegment(f, protocol); OnesSum(input, |input| / 2, BigEndian) == 0xFFFF
    ensures |p| % 2 == 0 ==> ReceiverSum(ReceivedSegment(f, protocol)) == 0xFFFF
    ensures |p| % 2 == 1 && p[|p| - 1] != 0 ==> ReceiverSum(ReceivedSegment(f, protocol)) != 0xFFFF
  {
    ReceivedSegmentEnd(f, protocol, p);
    ReceiverVerdict(ReceivedSegment(f, protocol), p);
  }

  /** The RFC 1071 receiver on a buffer whose whole words sum to 0xFFFF and which ends like the payload `p`. */
  lemma ReceiverVerdict(input: seq<byte>, p: seq<byte>)
    requires OnesSum(input, |input| / 2, BigEndian) == 0xFFFF
    requires |input| % 2 == |p| % 2 && (|p| > 0 ==> input[|input| - 1] == p[|p| - 1])
    ensures |p| % 2 == 0 ==> ReceiverSum(input) == 0xFFFF
    ensures |p| % 2 == 1 && p[|p| - 1] != 0 ==> ReceiverSum(input) != 0xFFFF
  {
    if |p| % 2 == 0 {
      EvenBufferPadded(input);
    } else if p[|p| - 1] != 0 {
      OddByteFailsReceiver(input);
    }
  }

  /** What the receiver sums has the parity of the payload, and ends with the payload's last byte. */
  lemma ReceivedSegmentEnd(f: seq<byte>, protocol: TransportProtocol, p: seq<byte>)
    requires |f| == TransportOffset + TransportSize(protocol) + |p|
    requires f[TransportOffset + TransportSize(protocol)..] == p
    ensures var input := ReceivedSegment(f, protocol);
      |input| % 2 == |p| % 2 && (|p| > 0 ==> input[|input| - 1] == p[|p| - 1])
  {
    var segment := f[TransportOffset..];
    var input := ReceivedSegment(f, protocol);
    assert input[|input| - |segment|..] == segment;
    match protocol
    case TCP => assert |input| == 32 + |p|;
    case UDP => assert |input| == 20 + |p|;
    case ICMP => assert |input| == 8 + |p|;
    if |p| > 0 {
      assert segment[|segment| - 1] == p[|p| - 1];
    }
  }

  /** The segment BuildPacket writes, behind its pseudo-header (none for ICMP), sums to 0xFFFF. */
  lemma SegmentChecksumValid(c: PacketCraftConfig, p: seq<byte>)
    ensures var segment := TransportHeader(c, |p|, TransportChecksum(c, p)) + p;
      var input := if c.protocol == ICMP then segment
                   else PseudoHeader(AddressField(c.srcIP), AddressField(c.dstIP), ProtocolNumber(c.protocol), |segment|) + segment;
      OnesSum(input, |input| / 2, BigEndian) == 0xFFFF
  {
    var t0 := TransportHeader(c, |p|, 0);
    var t := TransportHeader(c, |p|, TransportChecksum(c, p));
    var off := TransportCheckOffset(c.protocol);
    TransportHeaderStore(c, |p|, TransportChecksum(c, p));
    CheckFieldZero(c, |p|);
    if c.protocol == ICMP {
      assert TransportChecksumInput(c, p) == [] + t0 + p;
      StoredSegmentValid([], t0, t, p, off, t + p);
    } else {
      var pre := PseudoHeader(AddressField(c.srcIP), AddressField(c.dstIP), ProtocolNumber(c.protocol), |t0 + p|);
      assert TransportChecksumInput(c, p) == pre + t0 + p;
      StoredSegmentValid(pre, t0, t, p, off, pre + (t + p));
    }
  }

  /** The transport header built with checksum 0 holds a zero word at the checksum offset. */
  lemma CheckFieldZero(c: PacketCraftConfig, payloadLen: nat)
    ensures var off := TransportCheckOffset(c.protocol);
      var t0 := TransportHeader(c, payloadLen, 0);
      off % 2 == 0 && off + 2 <= |t0| && ReadBE16(t0, off) == 0
  {
    TransportFields(c, payloadLen, 0);
  }

  /** StoredChecksumValid for a segment `t + p` placed behind `pre`. */
  lemma StoredSegmentValid(pre: seq<byte>, t0: seq<byte>, t: seq<byte>, p: seq<byte>, off: nat, input: seq<byte>)
    requires |pre| % 2 == 0 && off % 2 == 0 && off + 2 <= |t0| && ReadBE16(t0, off) == 0
    requires t == StoreBE16(t0, off, InternetChecksum(pre + t0 + p))
    requires input == pre + (t + p)
    ensures OnesSum(input, |input| / 2, BigEndian) == 0xFFFF
  {
    StoredChecksumValid(pre, t0, p, off);
    assert input == pre + t + p;
  }

  /**
   * The checksum of `pre + h + p`, stored in the zero field at `off` of the
   * header `h`, makes the whole buffer sum to 0xFFFF.
   */
  lemma StoredChecksumValid(pre: seq<byte>, h: seq<byte>, p: seq<byte>, off: nat)
    requires |pre| % 2 == 0 && off % 2 == 0 && off + 2 <= |h| && ReadBE16(h, off) == 0
    ensures var check := InternetChecksum(pre + h + p);
      var stored := pre + StoreBE16(h, off, check) + p;
      OnesSum(stored, |stored| / 2, BigEndian) == 0xFFFF
  {
    var buf := pre + h + p;
    var check := InternetChecksum(buf);
    StoreSplice(pre, h, p, off, check);
    ChecksumVerifies(buf, (|pre| + off) / 2, pre + StoreBE16(h, off, check) + p);
  }
}
