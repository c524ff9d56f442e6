/**
 * PacketCrafterEngine: turns a PacketCraftConfig into the bytes of an
 * Ethernet frame (payload generation, header writing, checksums) and
 * validates a configuration before it is sent.
 */
module Crafter {
  import opened Optional
  import opened Bytes
  import opened Checksum
  import opened Addresses
  import opened CraftConfig
  import opened Frames

  // ---------------------------------------------------------------------
  // Payload
  // ---------------------------------------------------------------------

  /** The bytes of a text payload: each character is one byte of the std::string. */
  function TextBytes(t: string): (r: seq<byte>)
    ensures |r| == |t|
    ensures forall i :: 0 <= i < |t| ==> r[i] == t[i] as int % 0x100
  {
    seq(|t|, i requires 0 <= i < |t| => t[i] as int % 0x100)
  }

  /** The hexadecimal digits of `s`, in order; everything else is dropped. */
  function HexDigitsOf(s: string): (r: string)
    ensures |r| <= |s|
    ensures forall i :: 0 <= i < |r| ==> IsHexDigit(r[i])
    ensures (forall i :: 0 <= i < |s| ==> IsHexDigit(s[i])) ==> r == s
    ensures |s| == 1 && !IsHexDigit(s[0]) ==> r == []
  {
    if s == [] then []
    else if IsHexDigit(s[0]) then [s[0]] + HexDigitsOf(s[1..])
    else HexDigitsOf(s[1..])
  }

  /**
   * The filter works character by character: the hex digits of a
   * concatenation are those of each part, in order. With the one-character
   * cases above this fixes HexDigitsOf on every input.
   */
  lemma {:induction false} HexDigitsOfAppend(a: string, b: string)
    ensures HexDigitsOf(a + b) == HexDigitsOf(a) + HexDigitsOf(b)
  {
    if a == [] {
      assert a + b == b;
    } else {
      assert (a + b)[0] == a[0] && (a + b)[1..] == a[1..] + b;
      HexDigitsOfAppend(a[1..], b);
    }
  }

  /** Consecutive pairs of hexadecimal digits read as bytes; an odd last digit is dropped. */
  function HexPairs(h: string): (r: seq<byte>)
    requires forall i :: 0 <= i < |h| ==> IsHexDigit(h[i])
    ensures |r| == |h| / 2
    ensures forall i :: 0 <= i < |r| ==> r[i] == HexValue(h[2 * i]) * 16 + HexValue(h[2 * i + 1])
  {
    if |h| < 2 then []
    else [HexValue(h[0]) * 16 + HexValue(h[1])] + HexPairs(h[2..])
  }

  /** Bytes counting from `num` by `inc`, each the low byte of the counter. */
  function Counting(num: int, inc: int, n: nat): (r: seq<byte>)
    ensures |r| == n
    ensures forall i :: 0 <= i < n ==> r[i] == (num + i * inc) % 0x100
    decreases n
  {
    if n == 0 then []
    else
      var rest := Counting(num + inc, inc, n - 1);
      assert forall i :: 1 <= i < n ==> (num + inc) + (i - 1) * inc == num + i * inc;
      [num % 0x100] + rest
  }

  /** The first `n` values of the random source. */
  function RandomBytes(rng: nat -> byte, n: nat): (r: seq<byte>)
    ensures |r| == n
  {
    seq(n, i requires 0 <= i => rng(i))
  }

  /**
   * The payload GeneratePayload produces for `c`. The random source is the
   * parameter `rng`: byte `i` of a random payload is rng(i).
   */
  function Payload(c: PacketCraftConfig, rng: nat -> byte): (r: seq<byte>)
    ensures c.payloadType == Text ==> |r| == |c.payloadText| && r == TextBytes(c.payloadText)
    ensures c.payloadType == Hex ==> |r| == |HexDigitsOf(c.payloadHex)| / 2
    ensures c.payloadType in {Random, Pattern, Numbers} ==> |r| == c.payloadSize
    ensures c.payloadType == Pattern ==> forall i :: 0 <= i < |r| ==> r[i] == c.patternByte
    ensures c.payloadType == Numbers ==>
              forall i :: 0 <= i < |r| ==> r[i] == (c.numberStart + i * c.numberIncrement) % 0x100
  {
    match c.payloadType
    case Text => TextBytes(c.payloadText)
    case Hex => HexPairs(HexDigitsOf(c.payloadHex))
    case Random => RandomBytes(rng, c.payloadSize)
    case Pattern => seq(c.payloadSize, _ => c.patternByte)
    case Numbers => Counting(c.numberStart, c.numberIncrement, c.payloadSize)
  }

  /** GeneratePayload: the payload for the configured payload type. */
  method GeneratePayload(c: PacketCraftConfig, rng: nat -> byte) returns (payload: seq<byte>)
    ensures payload == Payload(c, rng)
  {
    match c.payloadType {
      case Text =>
        payload := TextBytes(c.payloadText);
      case Hex =>
        payload := DecodeHex(c.payloadHex);
      case Random =>
        payload := DrawRandom(rng, c.payloadSize);
      case Pattern =>
        payload := seq(c.payloadSize, _ => c.patternByte);
      case Numbers =>
        payload := CountUp(c.numberStart, c.numberIncrement, c.payloadSize);
    }
  }

  /** The Hex case: drop the non-hexadecimal characters, then convert two digits at a time. */
  method DecodeHex(text: string) returns (payload: seq<byte>)
    ensures payload == HexPairs(HexDigitsOf(text))
  {
    var hex := HexDigitsOf(text);
    ghost var pairs := HexPairs(hex);
    payload := [];
    var i := 0;
    ghost var k := 0;
    while i + 1 < |hex|
      invariant i == 2 * k && i <= |hex|
      invariant payload == pairs[..k]
    {
      assert pairs[k] == HexValue(hex[i]) * 16 + HexValue(hex[i + 1]);
      payload := payload + [HexValue(hex[i]) * 16 + HexValue(hex[i + 1])];
      i := i + 2;
      k := k + 1;
    }
    assert k == |pairs|;
  }

  /** The Random case: `n` draws from the random source. */
  method DrawRandom(rng: nat -> byte, n: nat) returns (payload: seq<byte>)
    ensures payload == RandomBytes(rng, n)
  {
    payload := [];
    var i := 0;
    while i < n
      invariant i <= n
      invariant payload == RandomBytes(rng, n)[..i]
    {
      payload := payload + [rng(i)];
      i := i + 1;
    }
  }

  /**
   * The Numbers case. The counter is an unbounded integer here; the low byte
   * it contributes is the same as that of a wrapping 32-bit `int`.
   */
  method CountUp(start: int32, inc: int32, n: nat) returns (payload: seq<byte>)
    ensures payload == Counting(start, inc, n)
  {
    var num: int := start;
    payload := [];
    var i := 0;
    while i < n
      invariant i <= n
      invariant num == start + i * inc
      invariant payload == Counting(start, inc, n)[..i]
    {
      payload := payload + [num % 0x100];
      num := num + inc;
      i := i + 1;
    }
  }

  /** The payload text of a byte string in upper-case hexadecimal, two digits a byte. */
  function HexText(b: seq<byte>): (s: string)
    ensures |s| == 2 * |b|
    ensures forall i :: 0 <= i < |s| ==> IsHexDigit(s[i])
  {
    if b == [] then [] else HexByte(b[0]) + HexText(b[1..])
  }

  /** A Hex payload written out with HexText decodes to the bytes written. */
  lemma {:induction false} HexPayloadRoundTrip(b: seq<byte>)
    ensures HexPairs(HexDigitsOf(HexText(b))) == b
  {
    var h := HexText(b);
    assert HexDigitsOf(h) == h;
    var r := HexPairs(h);
    forall i | 0 <= i < |b|
      ensures r[i] == b[i]
    {
      HexTextAt(b, i);
    }
  }

  lemma {:induction false} HexTextAt(b: seq<byte>, i: nat)
    requires i < |b|
    ensures var h := HexText(b);
      h[2 * i] == HexByte(b[i])[0] && h[2 * i + 1] == HexByte(b[i])[1]
  {
    if i > 0 {
      HexTextAt(b[1..], i - 1);
    }
  }

  // ---------------------------------------------------------------------
  // Checksums over the frame buffer
  // ---------------------------------------------------------------------

  /** The pseudo-header built from the IPv4 header at `ipHeaderOffset`, in front of everything from `offset` on. */
  function PseudoPacket(packet: seq<byte>, ipHeaderOffset: nat, offset: nat, proto: byte): seq<byte>
    requires ipHeaderOffset + IPv4Size <= |packet| && offset <= |packet|
  {
    PseudoHeader(packet[ipHeaderOffset + 12..ipHeaderOffset + 16], packet[ipHeaderOffset + 16..ipHeaderOffset + 20],
                 proto, |packet| - offset)
    + packet[offset..]
  }

  /**
   * CalculateTCPChecksum: the checksum, as a native little-endian word, of
   * the pseudo-header (protocol 6) and the segment from `tcpOffset` to the
   * end of the packet.
   */
  method CalculateTCPChecksum(packet: seq<byte>, ipHeaderOffset: nat, tcpOffset: nat) returns (check: uint16)
    requires ipHeaderOffset + IPv4Size <= |packet| && tcpOffset <= |packet|
    ensures LE16(check) == BE16(InternetChecksum(PseudoPacket(packet, ipHeaderOffset, tcpOffset, 6)))
  {
    var tcpLen := |packet| - tcpOffset;
    var ip := packet[ipHeaderOffset..ipHeaderOffset + IPv4Size];
    var pseudoPacket := ip[12..16] + ip[16..20] + [0, 6] + [tcpLen / 0x100 % 0x100, tcpLen % 0x100];
    pseudoPacket := pseudoPacket + packet[tcpOffset..];
    assert pseudoPacket == PseudoPacket(packet, ipHeaderOffset, tcpOffset, 6);
    check := CalculateChecksum(pseudoPacket);
    HostChecksumIsNetworkChecksum(pseudoPacket);
  }

  /** CalculateUDPChecksum: as CalculateTCPChecksum, with protocol 17. */
  method CalculateUDPChecksum(packet: seq<byte>, ipHeaderOffset: nat, udpOffset: nat) returns (check: uint16)
    requires ipHeaderOffset + IPv4Size <= |packet| && udpOffset <= |packet|
    ensures LE16(check) == BE16(InternetChecksum(PseudoPacket(packet, ipHeaderOffset, udpOffset, 17)))
  {
    var udpLen := |packet| - udpOffset;
    var ip := packet[ipHeaderOffset..ipHeaderOffset + IPv4Size];
    var pseudoPacket := ip[12..16] + ip[16..20] + [0, 17] + [udpLen / 0x100 % 0x100, udpLen % 0x100];
    pseudoPacket := pseudoPacket + packet[udpOffset..];
    assert pseudoPacket == PseudoPacket(packet, ipHeaderOffset, udpOffset, 17);
    check := CalculateChecksum(pseudoPacket);
    HostChecksumIsNetworkChecksum(pseudoPacket);
  }

  // ---------------------------------------------------------------------
  // Building the frame
  // ---------------------------------------------------------------------

  /** Copies `src` into `a` at `off` (a header struct write or a memcpy). */
  method CopyInto(a: array<byte>, off: nat, src: seq<byte>)
    requires off + |src| <= a.Length
    modifies a
    ensures a[..] == old(a[..off]) + src + old(a[off + |src|..])
  {
    var i := 0;
    while i < |src|
      invariant i <= |src|
      invariant forall j :: 0 <= j < a.Length ==> a[j] == if off <= j < off + i then src[j - off] else old(a[j])
    {
      a[off + i] := src[i];
      i := i + 1;
    }
    assert a[..] == old(a[..off]) + src + old(a[off + |src|..]);
  }

  /** `s` with its two bytes at `off` replaced by `v`, as a store through a `uint16_t*` leaves them. */
  lemma StoreNative16(s: seq<byte>, off: nat, host: uint16, net: uint16)
    requires off + 2 <= |s| && LE16(host) == BE16(net)
    ensures s[..off] + LE16(host) + s[off + 2..] == StoreBE16(s, off, net)
  {
  }

  /** The Ethernet header: both MAC addresses as sscanf reads them, then EtherType 0x0800. */
  method WriteEthernetHeader(a: array<byte>, c: PacketCraftConfig)
    requires a.Length >= EthernetSize
    modifies a
    ensures a[..] == EthernetHeader(c) + old(a[EthernetSize..])
  {
    CopyInto(a, 0, EthernetHeader(c));
  }

  /** The IPv4 header with its checksum field zero, then the checksum CalculateChecksum computes over it. */
  method WriteIPv4Header(a: array<byte>, c: PacketCraftConfig, payloadLen: nat)
    requires a.Length >= TransportOffset
    modifies a
    ensures a[..] == old(a[..EthernetSize]) + IPv4Header(c, payloadLen, IPv4Checksum(c, payloadLen))
                     + old(a[TransportOffset..])
  {
    var h0 := IPv4Header(c, payloadLen, 0);
    CopyInto(a, EthernetSize, h0);
    ghost var before := a[..];
    assert a[EthernetSize..TransportOffset] == h0;
    assert before == old(a[..EthernetSize]) + h0 + old(a[TransportOffset..]);
    var check := CalculateChecksum(a[EthernetSize..TransportOffset]);
    HostChecksumIsNetworkChecksum(h0);
    ghost var net := IPv4Checksum(c, payloadLen);
    CopyInto(a, EthernetSize + 10, LE16(check));
    StoreInSegment(before, a[..], old(a[..EthernetSize]), h0, old(a[TransportOffset..]), 10, check, net);
    IPv4HeaderStore(c, payloadLen, net);
  }

  /** The buffer a transport checksum routine reads holds exactly what TransportChecksum is computed over. */
  lemma ChecksumInputInBuffer(c: PacketCraftConfig, p: seq<byte>, s: seq<byte>)
    requires |s| >= TransportOffset
    requires s[26..30] == AddressField(c.srcIP) && s[30..34] == AddressField(c.dstIP)
    requires s[TransportOffset..] == TransportHeader(c, |p|, 0) + p
    ensures c.protocol == ICMP ==> s[TransportOffset..] == TransportChecksumInput(c, p)
    ensures c.protocol != ICMP ==>
              PseudoPacket(s, EthernetSize, TransportOffset, ProtocolNumber(c.protocol)) == TransportChecksumInput(c, p)
  {
  }

  /** The checksum routine BuildPacket calls for the configured protocol, over the buffer written so far. */
  method TransportChecksumOf(s: seq<byte>, c: PacketCraftConfig, p: seq<byte>) returns (check: uint16)
    requires |s| >= TransportOffset
    requires s[26..30] == AddressField(c.srcIP) && s[30..34] == AddressField(c.dstIP)
    requires s[TransportOffset..] == TransportHeader(c, |p|, 0) + p
    ensures LE16(check) == BE16(TransportChecksum(c, p))
  {
    ChecksumInputInBuffer(c, p, s);
    match c.protocol {
      case TCP =>
        check := CalculateTCPChecksum(s, EthernetSize, TransportOffset);
      case UDP =>
        check := CalculateUDPChecksum(s, EthernetSize, TransportOffset);
      case ICMP =>
        check := CalculateChecksum(s[TransportOffset..]);
        HostChecksumIsNetworkChecksum(s[TransportOffset..]);
    }
  }

  /** The transport header at offset 34, then the payload behind it unless the payload is empty. */
  method WriteSegment(a: array<byte>, header: seq<byte>, payload: seq<byte>)
    requires a.Length == TransportOffset + |header| + |payload|
    modifies a
    ensures a[..] == old(a[..TransportOffset]) + header + payload
    ensures a[TransportOffset..] == header + payload
  {
    CopyInto(a, TransportOffset, header);
    if |payload| > 0 {
      CopyInto(a, TransportOffset + |header|, payload);
    }
    assert a[..] == old(a[..TransportOffset]) + header + payload;
  }

  /**
   * The transport header with its checksum field zero, the payload behind
   * it, then the checksum over both (behind the pseudo-header for TCP and
   * UDP) stored as a native word.
   */
  method WriteTransport(a: array<byte>, c: PacketCraftConfig, payload: seq<byte>)
    requires a.Length == TransportOffset + TransportSize(c.protocol) + |payload|
    requires a[EthernetSize..TransportOffset] == IPv4Header(c, |payload|, IPv4Checksum(c, |payload|))
    modifies a
    ensures a[..] == old(a[..TransportOffset]) + TransportHeader(c, |payload|, TransportChecksum(c, payload)) + payload
  {
    var t0 := TransportHeader(c, |payload|, 0);
    WriteSegment(a, t0, payload);
    HeaderAddresses(c, |payload|, IPv4Checksum(c, |payload|), a[..]);
    var check := TransportChecksumOf(a[..], c, payload);
    ghost var net := TransportChecksum(c, payload);
    ghost var before := a[..];
    var off := TransportCheckOffset(c.protocol);
    CopyInto(a, TransportOffset + off, LE16(check));
    StoreInSegment(before, a[..], old(a[..TransportOffset]), t0, payload, off, check, net);
    TransportHeaderStore(c, |payload|, net);
  }

  /** Storing a native word at `off` inside the header `h` of `pre + h + p` stores the network-order field there. */
  lemma StoreInSegment(before: seq<byte>, after: seq<byte>, pre: seq<byte>, h: seq<byte>, p: seq<byte>,
                       off: nat, host: uint16, net: uint16)
    requires before == pre + h + p && off + 2 <= |h| && LE16(host) == BE16(net)
    requires after == before[..|pre| + off] + LE16(host) + before[|pre| + off + 2..]
    ensures after == pre + StoreBE16(h, off, net) + p
  {
    StoreNative16(h, off, host, net);
    assert before[..|pre| + off] == pre + h[..off];
    assert before[|pre| + off + 2..] == h[off + 2..] + p;
  }

  /**
   * BuildPacket: the payload first, then a zeroed buffer of the total size
   * with the Ethernet, IPv4 and transport headers and the payload written
   * into it.
   */
  method BuildPacket(c: PacketCraftConfig, rng: nat -> byte) returns (packet: seq<byte>)
    ensures packet == Frame(c, Payload(c, rng))
  {
    var payload := GeneratePayload(c, rng);
    var total := EthernetSize + IPv4Size + TransportSize(c.protocol) + |payload|;
    var a := new byte[total](_ => 0);
    WriteEthernetHeader(a, c);
    ghost var e := a[..EthernetSize];
    WriteIPv4Header(a, c, |payload|);
    ghost var i := a[EthernetSize..TransportOffset];
    WriteTransport(a, c, payload);
    packet := a[..];
    assert packet == e + i + TransportHeader(c, |payload|, TransportChecksum(c, payload)) + payload;
  }

  // ---------------------------------------------------------------------
  // Validation
  // ---------------------------------------------------------------------

  datatype Validation = Valid | Invalid(message: string)

  /**
   * ValidateIPAddress: whether inet_pton accepts the text as an IPv4
   * address, which is exactly when it is the dotted-quad form of four bytes.
   */
  function ValidateIPAddress(ip: string): (r: bool)
    ensures r <==> exists a: seq<byte> :: |a| == 4 && FormatDottedQuad(a) == ip
  {
    QuadTextParses(ip);
    ParseDottedQuad(ip).Some?
  }

  /** ValidateMACAddress: whether sscanf completes all six "%02x" conversions. */
  function ValidateMACAddress(mac: string): (r: bool)
    ensures r ==> MacBytes(mac) == ScanMacFields(mac, 6)
  {
    |ScanMacFields(mac, 6)| == 6
  }

  /** Every MAC address printed in the colon-separated form passes ValidateMACAddress. */
  lemma ValidMacText(m: seq<byte>)
    requires |m| == 6
    ensures ValidateMACAddress(MacText(m))
  {
    ScanMacText(m);
  }

  /**
   * ValidateMACAddress accepts exactly the texts that start with six
   * colon-separated fields of one or two hex digits, whatever follows them;
   * the bytes it then yields are the values of those fields.
   */
  lemma ValidMacPrefix(mac: string)
    ensures ValidateMACAddress(mac) <==>
      exists f: seq<string> :: |f| == 6 && (forall i :: 0 <= i < 6 ==> HexField(f[i])) && JoinColons(f) <= mac
    ensures ValidateMACAddress(mac) ==>
      exists f: seq<string> :: |f| == 6 && (forall i :: 0 <= i < 6 ==> HexField(f[i])) && JoinColons(f) <= mac
        && forall i :: 0 <= i < 6 ==> MacBytes(mac)[i] == FieldValue(f[i])
  {
    if ValidateMACAddress(mac) {
      var f := ScannedFields(mac, 6);
    }
    if f: seq<string> :| |f| == 6 && (forall i :: 0 <= i < 6 ==> HexField(f[i])) && JoinColons(f) <= mac {
      FieldsScan(mac, f);
    }
  }

  /**
   * Nothing after the sixth field is looked at: any text that starts with a
   * printed MAC address passes ValidateMACAddress and yields its six bytes.
   */
  lemma MacTrailingTextIgnored(m: seq<byte>, t: string)
    requires |m| == 6
    ensures ValidateMACAddress(MacText(m) + t) && MacBytes(MacText(m) + t) == m
  {
    ScanMacFieldsText(m, t);
  }

  /**
   * ValidateConfig: the first check that fails, in the order source IP,
   * destination IP, source MAC, then non-zero ports for TCP and UDP.
   */
  function ValidateConfig(c: PacketCraftConfig): (r: Validation)
    ensures r == Valid <==>
              && ValidateIPAddress(c.srcIP) && ValidateIPAddress(c.dstIP) && ValidateMACAddress(c.srcMAC)
              && (c.protocol == TCP || c.protocol == UDP ==> c.srcPort != 0 && c.dstPort != 0)
  {
    if !ValidateIPAddress(c.srcIP) then Invalid("Invalid source IP address.")
    else if !ValidateIPAddress(c.dstIP) then Invalid("Invalid destination IP address.")
    else if !ValidateMACAddress(c.srcMAC) then Invalid("Invalid source MAC address.")
    else if (c.protocol == TCP || c.protocol == UDP) && (c.srcPort == 0 || c.dstPort == 0) then
      Invalid("Source and destination ports must be non-zero for TCP/UDP.")
    else Valid
  }

  /** The message ValidateConfig returns is that of the first check that fails. */
  lemma ValidateConfigFirstFailure(c: PacketCraftConfig)
    ensures !ValidateIPAddress(c.srcIP) ==> ValidateConfig(c) == Invalid("Invalid source IP address.")
    ensures ValidateIPAddress(c.srcIP) && !ValidateIPAddress(c.dstIP) ==>
              ValidateConfig(c) == Invalid("Invalid destination IP address.")
    ensures ValidateIPAddress(c.srcIP) && ValidateIPAddress(c.dstIP) && !ValidateMACAddress(c.srcMAC) ==>
              ValidateConfig(c) == Invalid("Invalid source MAC address.")
    ensures ValidateIPAddress(c.srcIP) && ValidateIPAddress(c.dstIP) && ValidateMACAddress(c.srcMAC)
            && c.protocol != ICMP && (c.srcPort == 0 || c.dstPort == 0) ==>
              ValidateConfig(c) == Invalid("Source and destination ports must be non-zero for TCP/UDP.")
  {
  }

  /** The destination MAC address and the ICMP fields take no part in validation. */
  lemma ValidateConfigIgnores(c: PacketCraftConfig, mac: string, t: byte, code: byte, id: uint16, sequence: uint16)
    ensures ValidateConfig(c.(dstMAC := mac)) == ValidateConfig(c)
    ensures ValidateConfig(c.(icmpType := t, icmpCode := code, icmpId := id, icmpSequence := sequence)) == ValidateConfig(c)
  {
    ValidateConfigReads(c, c.(dstMAC := mac));
    ValidateConfigReads(c, c.(icmpType := t, icmpCode := code, icmpId := id, icmpSequence := sequence));
  }

  /** ValidateConfig reads only the addresses, the source MAC, the protocol and the ports. */
  lemma ValidateConfigReads(c: PacketCraftConfig, d: PacketCraftConfig)
    requires c.srcIP == d.srcIP && c.dstIP == d.dstIP && c.srcMAC == d.srcMAC
    requires c.protocol == d.protocol && c.srcPort == d.srcPort && c.dstPort == d.dstPort
    ensures ValidateConfig(c) == ValidateConfig(d)
  {
  }

  /** The configuration a fresh PacketCraftConfig holds passes ValidateConfig. */
  lemma DefaultConfigValid()
    ensures ValidateConfig(DefaultConfig()) == Valid
  {
    var c := DefaultConfig();
    LoopbackValid();
    ZeroMacValid(c.srcMAC);
    assert ValidateIPAddress(c.srcIP) && ValidateIPAddress(c.dstIP) && ValidateMACAddress(c.srcMAC);
  }

  /** Six copies of one byte, printed as a MAC address, pass validation. */
  lemma UniformMacValid(b: byte, mac: string)
    requires mac == HexByte(b) + ":" + HexByte(b) + ":" + HexByte(b) + ":"
                    + HexByte(b) + ":" + HexByte(b) + ":" + HexByte(b)
    ensures ValidateMACAddress(mac)
  {
    var m := [b, b, b, b, b, b];
    ValidMacText(m);
  }

  /** The default source MAC address passes ValidateMACAddress. */
  lemma ZeroMacValid(mac: string)
    requires mac == "00:00:00:00:00:00"
    ensures ValidateMACAddress(mac)
  {
    assert HexByte(0) == "00";
    UniformMacValid(0, mac);
  }

  /** The default IP address passes ValidateIPAddress. */
  lemma LoopbackValid()
    ensures ValidateIPAddress("127.0.0.1")
  {
    assert FormatDottedQuad([127, 0, 0, 1]) == "127.0.0.1";
    ParseFormat([127, 0, 0, 1]);
  }

  /**
   * A configuration ValidateConfig accepts is built into a frame whose
   * address fields print back as the configured addresses and whose source
   * MAC is the one configured.
   */
  lemma ValidConfigFrame(c: PacketCraftConfig, p: seq<byte>)
    requires ValidateConfig(c) == Valid
    ensures var f := Frame(c, p);
      && FormatDottedQuad(f[26..30]) == c.srcIP && FormatDottedQuad(f[30..34]) == c.dstIP
      && f[6..12] == ScanMacFields(c.srcMAC, 6)
  {
    FrameParts(c, p);
    HeaderAddresses(c, |p|, IPv4Checksum(c, |p|), Frame(c, p));
    FrameSourceMac(c, Frame(c, p));
  }

  /** The source MAC field of a buffer that starts with the Ethernet header of `c`. */
  lemma FrameSourceMac(c: PacketCraftConfig, f: seq<byte>)
    requires |f| >= EthernetSize && f[..EthernetSize] == EthernetHeader(c)
    ensures f[6..12] == MacBytes(c.srcMAC)
  {
    EthernetFields(c);
    assert f[6..12] == f[..EthernetSize][6..12];
  }
}
