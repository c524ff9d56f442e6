/**
 * How the two halves of the program fit together: a frame the crafter
 * builds from a configuration that passes validation is decoded by the
 * parser, directly or as the capture callback truncates it, into the
 * addresses, transport and ports of that configuration.
 */
module RoundTrip {
  import opened Bytes
  import opened Addresses
  import opened CraftConfig
  import opened Frames
  import opened Crafter
  import opened Packet
  import opened Parser
  import opened Capture

  /** The bytes of a frame's headers that the parser reads, as the crafter writes them for `c`. */
  predicate HeaderBytes(c: PacketCraftConfig, d: seq<byte>) {
    && |d| >= TransportOffset + TransportSize(c.protocol)
    && ReadBE16(d, 12) == EtherTypeIPv4 && d[14] == 0x45 && d[23] == ProtocolNumber(c.protocol)
    && d[26..30] == AddressField(c.srcIP) && d[30..34] == AddressField(c.dstIP)
    && (c.protocol != ICMP ==> ReadBE16(d, 34) == c.srcPort && ReadBE16(d, 36) == c.dstPort)
  }

  /** Header bytes at fixed offsets, for any buffer laid out as the three headers of `c`. */
  lemma LayoutHeaderBytes(c: PacketCraftConfig, n: nat, ipCheck: uint16, check: uint16, p: seq<byte>, f: seq<byte>)
    requires |f| >= TransportOffset && f[..EthernetSize] == EthernetHeader(c)
    requires f[EthernetSize..TransportOffset] == IPv4Header(c, n, ipCheck)
    requires f[TransportOffset..] == TransportHeader(c, n, check) + p
    ensures HeaderBytes(c, f)
  {
    EthernetFields(c);
    EtherTypeInFrame(f, EthernetHeader(c));
    HeaderAddresses(c, n, ipCheck, f);
    TransportFields(c, n, check);
    PortsInFrame(f, TransportHeader(c, n, check), p);
  }

  /** The EtherType of the Ethernet header at the front of `f`, read from `f`. */
  lemma EtherTypeInFrame(f: seq<byte>, e: seq<byte>)
    requires |f| >= EthernetSize && f[..EthernetSize] == e
    ensures ReadBE16(f, 12) == ReadBE16(e, 12)
  {
    assert f[12] == e[12] && f[13] == e[13];
  }

  /** The first two words of the transport header at offset 34 of `f`, read from `f`. */
  lemma PortsInFrame(f: seq<byte>, t: seq<byte>, p: seq<byte>)
    requires |f| >= TransportOffset && |t| >= 4 && f[TransportOffset..] == t + p
    ensures ReadBE16(f, 34) == ReadBE16(t, 0) && ReadBE16(f, 36) == ReadBE16(t, 2)
  {
    var s := f[TransportOffset..];
    assert f[34] == s[0] && f[35] == s[1] && f[36] == s[2] && f[37] == s[3];
  }

  /** Every frame the crafter builds carries its header bytes where the parser reads them. */
  lemma FrameHeaderBytes(c: PacketCraftConfig, p: seq<byte>)
    ensures HeaderBytes(c, Frame(c, p))
  {
    FrameParts(c, p);
    LayoutHeaderBytes(c, |p|, IPv4Checksum(c, |p|), TransportChecksum(c, p), p, Frame(c, p));
  }

  /** A prefix long enough for the transport header keeps those bytes. */
  lemma PrefixHeaderBytes(c: PacketCraftConfig, f: seq<byte>, m: nat)
    requires HeaderBytes(c, f) && m >= TransportOffset + TransportSize(c.protocol)
    ensures HeaderBytes(c, f[..Min(m, |f|)])
  {
    var d := f[..Min(m, |f|)];
    assert d[12] == f[12] && d[13] == f[13] && d[14] == f[14] && d[23] == f[23];
    assert d[34] == f[34] && d[35] == f[35] && d[36] == f[36] && d[37] == f[37];
    assert d[26..30] == f[26..30];
    assert d[30..34] == f[30..34];
  }

  /** The four fields a record gets from a frame of configuration `c`. */
  predicate DecodesAs(c: PacketCraftConfig, r: PacketInfo, before: PacketInfo) {
    && r.srcIP == c.srcIP && r.dstIP == c.dstIP
    && r.transportProtocol == (match c.protocol case TCP => "TCP" case UDP => "UDP" case ICMP => "Other")
    && (if c.protocol == ICMP then r.srcPort == before.srcPort && r.dstPort == before.dstPort
        else r.srcPort == c.srcPort && r.dstPort == c.dstPort)
    && r.incoming == (!IsPrivate(AddressField(c.srcIP)) && IsPrivate(AddressField(c.dstIP)))
  }

  /** The parser recovers the configuration from those header bytes when the addresses are valid. */
  lemma DecodeHeaderBytes(c: PacketCraftConfig, pkt: PacketInfo)
    requires ValidateIPAddress(c.srcIP) && ValidateIPAddress(c.dstIP) && HeaderBytes(c, pkt.data)
    ensures DecodesAs(c, Decoded(pkt), pkt)
  {
    var d := pkt.data;
    FormatParse(c.srcIP);
    FormatParse(c.dstIP);
    var ip := pkt.(srcIP := FormatDottedQuad(d[26..30]), dstIP := FormatDottedQuad(d[30..34]),
                   transportProtocol := "IP");
    assert Decoded(pkt) == DecodedTransport(ip);
    TransportHeaderDecodes(c, ip);
  }

  /** The transport part of the decoding, for header bytes of configuration `c`. */
  lemma TransportHeaderDecodes(c: PacketCraftConfig, ip: PacketInfo)
    requires |ip.data| >= TransportOffset + TransportSize(c.protocol)
    requires ip.data[14] == 0x45 && ip.data[23] == ProtocolNumber(c.protocol)
    requires c.protocol != ICMP ==> ReadBE16(ip.data, 34) == c.srcPort && ReadBE16(ip.data, 36) == c.dstPort
    ensures var r := DecodedTransport(ip);
      && r.transportProtocol == (match c.protocol case TCP => "TCP" case UDP => "UDP" case ICMP => "Other")
      && (if c.protocol == ICMP then r.srcPort == ip.srcPort && r.dstPort == ip.dstPort
          else r.srcPort == c.srcPort && r.dstPort == c.dstPort)
      && r.incoming == (!IsPrivate(ip.data[26..30]) && IsPrivate(ip.data[30..34]))
  {
    var d := ip.data;
    assert HeaderLength(d[14]) == 20;
  }

  /**
   * Decoding a frame built from a configuration that passes ValidateConfig
   * gives back its addresses, its transport ("Other" for ICMP) and, for TCP
   * and UDP, its ports; the direction follows from the two addresses.
   */
  lemma BuiltFrameDecodes(c: PacketCraftConfig, p: seq<byte>, pkt: PacketInfo)
    requires ValidateConfig(c) == Valid && pkt.data == Frame(c, p)
    ensures DecodesAs(c, Decoded(pkt), pkt)
  {
    FrameHeaderBytes(c, p);
    DecodeHeaderBytes(c, pkt);
  }

  /**
   * The same for a built frame that the capture callback receives whole:
   * its first 64 bytes still hold every header the parser reads.
   */
  lemma CapturedFrameDecodes(c: PacketCraftConfig, p: seq<byte>, h: PcapHeader)
    requires ValidateConfig(c) == Valid && h.caplen as nat == |Frame(c, p)|
    ensures DecodesAs(c, Captured(h, Frame(c, p)), NewPacketInfo())
  {
    var f := Frame(c, p);
    FrameHeaderBytes(c, p);
    PrefixHeaderBytes(c, f, SnapBytes);
    var raw := NewPacketInfo().(timestamp := Timestamp(h), length := h.len, data := f[..Min(h.caplen as nat, SnapBytes)]);
    DecodeHeaderBytes(c, raw);
  }

  /**
   * Loopback traffic, as the default configuration sends it (a UDP datagram
   * from 127.0.0.1 to itself), decodes with the configured ports and as
   * outgoing, since both ends are local.
   */
  lemma LoopbackFrameDecodes(c: PacketCraftConfig, p: seq<byte>, pkt: PacketInfo)
    requires ValidateConfig(c) == Valid && c.srcIP == "127.0.0.1" && c.dstIP == "127.0.0.1"
    requires pkt.data == Frame(c, p)
    ensures var r := Decoded(pkt);
      r.srcIP == "127.0.0.1" && r.srcPort == (if c.protocol == ICMP then pkt.srcPort else c.srcPort)
      && !r.incoming
  {
    BuiltFrameDecodes(c, p, pkt);
    LoopbackAddress();
  }

  lemma LoopbackAddress()
    ensures AddressField("127.0.0.1") == [127, 0, 0, 1] && IsPrivate([127, 0, 0, 1])
  {
    assert FormatDottedQuad([127, 0, 0, 1]) == "127.0.0.1";
    ParseFormat([127, 0, 0, 1]);
  }

  /** The default configuration is such a configuration. */
  lemma DefaultIsLoopback()
    ensures var c := DefaultConfig();
      ValidateConfig(c) == Valid && c.srcIP == "127.0.0.1" && c.dstIP == "127.0.0.1" && c.protocol == UDP
  {
    DefaultConfigValid();
  }
}
