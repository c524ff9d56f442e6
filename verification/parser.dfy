/**
 * PacketParser: decodes the Ethernet, IPv4 and TCP/UDP headers at the
 * start of a captured frame into its PacketInfo, and guesses the traffic
 * direction from whether the addresses are private.
 */
module Parser {
  import opened Optional
  import opened Bytes
  import opened Addresses
  import opened Packet
  import opened Frames

  // ---------------------------------------------------------------------
  // String helpers of the C++ library
  // ---------------------------------------------------------------------

  /** `s.rfind(w, 0) == 0`: `s` starts with `w`. */
  predicate StartsWith(s: string, w: string) {
    |w| <= |s| && s[..|w|] == w
  }

  /** `s.find(ch, from)`: the first position at or after `from` that holds `ch`. */
  function FindFrom(s: string, ch: char, from: nat): (r: Option<nat>)
    ensures r.Some? ==> from <= r.value < |s| && s[r.value] == ch
    ensures r.Some? ==> forall i :: from <= i < r.value ==> s[i] != ch
    ensures r.None? ==> forall i :: from <= i < |s| ==> s[i] != ch
    decreases |s| - from
  {
    if from >= |s| then None
    else if s[from] == ch then Some(from)
    else FindFrom(s, ch, from + 1)
  }

  /** The characters isspace accepts in the C locale: space, \t, \n, \v, \f and \r. */
  predicate IsSpace(ch: char) {
    ch == ' ' || '\t' <= ch <= '\r'
  }

  /** The value of a string of decimal digits, most significant first. */
  function DecimalValue(d: string): nat
    requires AllDigits(d)
  {
    if d == [] then 0 else DecimalValue(d[..|d| - 1]) * 10 + DigitValue(d[|d| - 1])
  }

  /** The length of the run of decimal digits at the start of `s`. */
  function DigitPrefix(s: string): (n: nat)
    ensures n <= |s| && AllDigits(s[..n])
    ensures n < |s| ==> !IsDigit(s[n])
  {
    if s == [] || !IsDigit(s[0]) then 0
    else
      var n := 1 + DigitPrefix(s[1..]);
      assert s[..n] == [s[0]] + s[1..][..n - 1];
      n
  }

  /**
   * std::stoi: leading white space, an optional sign, then the longest run
   * of digits; what follows is ignored. None stands for the exception it
   * throws when there is no digit (invalid_argument) or the value does not
   * fit an `int` (out_of_range).
   */
  function Stoi(s: string): (r: Option<int>)
    ensures r.Some? ==> -0x8000_0000 <= r.value < 0x8000_0000
  {
    if s != [] && IsSpace(s[0]) then Stoi(s[1..])
    else
      var negative := s != [] && s[0] == '-';
      var u := if s != [] && (s[0] == '-' || s[0] == '+') then s[1..] else s;
      var n := DigitPrefix(u);
      if n == 0 then None
      else
        var v: int := if negative then -(DecimalValue(u[..n]) as int) else DecimalValue(u[..n]);
        if -0x8000_0000 <= v < 0x8000_0000 then Some(v) else None
  }

  lemma {:induction false} DigitPrefixOfDigits(s: string)
    requires AllDigits(s)
    ensures DigitPrefix(s) == |s|
  {
    if s != [] {
      assert AllDigits(s[1..]) by {
        forall i | 0 <= i < |s| - 1 ensures IsDigit(s[1..][i]) {
          assert s[1..][i] == s[i + 1];
        }
      }
      DigitPrefixOfDigits(s[1..]);
    }
  }

  lemma DecimalValueOfDigits(x: char, y: char, z: char)
    requires IsDigit(x) && IsDigit(y) && IsDigit(z)
    ensures DecimalValue([x]) == DigitValue(x)
    ensures DecimalValue([x, y]) == DigitValue(x) * 10 + DigitValue(y)
    ensures DecimalValue([x, y, z]) == (DigitValue(x) * 10 + DigitValue(y)) * 10 + DigitValue(z)
  {
    assert [x][..0] == [];
    assert [x, y][..1] == [x];
    assert [x, y, z][..2] == [x, y];
  }

  lemma DecimalValueOfDecimal(b: byte)
    ensures DecimalValue(Decimal(b)) == b
  {
    var d := Decimal(b);
    if b < 10 {
      DecimalValueOfDigits(d[0], d[0], d[0]);
      assert d == [d[0]];
    } else if b < 100 {
      DecimalValueOfDigits(d[0], d[1], d[1]);
      assert d == [d[0], d[1]];
    } else {
      var h, t, o := b / 100, b / 10 % 10, b % 10;
      assert b == h * 100 + t * 10 + o;
      DecimalValueOfDigits(d[0], d[1], d[2]);
      assert d == [d[0], d[1], d[2]];
    }
  }

  /** std::stoi reads an octet printed in decimal back as its value. */
  lemma StoiDecimal(b: byte)
    ensures Stoi(Decimal(b)) == Some(b as int)
  {
    var d := Decimal(b);
    DigitPrefixOfDigits(d);
    assert d[..|d|] == d;
    DecimalValueOfDecimal(b);
  }

  // ---------------------------------------------------------------------
  // IsLocalAddress
  // ---------------------------------------------------------------------

  /** The address ranges the program counts as local: 10/8, 192.168/16, 127/8 and 172.16/12. */
  predicate IsPrivate(a: seq<byte>)
    requires |a| == 4
  {
    a[0] == 10 || (a[0] == 192 && a[1] == 168) || a[0] == 127 || (a[0] == 172 && 16 <= a[1] <= 31)
  }

  /**
   * IsLocalAddress: a prefix test on the text of the address. For "172."
   * the second field is read with std::stoi; None stands for the exception
   * it throws when that field holds no number.
   */
  function IsLocalAddress(ip: string): (r: Option<bool>)
    ensures StartsWith(ip, "10.") || StartsWith(ip, "192.168.") || StartsWith(ip, "127.") ==> r == Some(true)
    ensures r == Some(true) ==> StartsWith(ip, "10.") || StartsWith(ip, "192.168.") || StartsWith(ip, "127.") || StartsWith(ip, "172.")
    ensures r.None? ==> StartsWith(ip, "172.")
  {
    if StartsWith(ip, "10.") || StartsWith(ip, "192.168.") || StartsWith(ip, "127.") then Some(true)
    else if StartsWith(ip, "172.") then
      match FindFrom(ip, '.', 4)
      case None => Some(false)
      case Some(dot) =>
        match Stoi(ip[4..dot])
        case None => None
        case Some(second) => Some(16 <= second <= 31)
    else Some(false)
  }

  /** A dot-free field followed by a dot starts a string exactly when it is the same field. */
  lemma PrefixField(d: string, rest: string, w: string)
    requires NoDot(d) && NoDot(w)
    ensures StartsWith(d + "." + rest, w + ".") <==> d == w
  {
    var s := d + "." + rest;
    if StartsWith(s, w + ".") {
      assert s[|w|] == (w + ".")[|w|] == '.';
      assert s[|d|] == '.';
      assert forall i :: 0 <= i < |d| ==> s[i] == d[i];
      assert forall i :: 0 <= i < |w| ==> s[i] == (w + ".")[i] == w[i];
      assert |d| == |w|;
      assert d == s[..|d|];
    }
    if d == w {
      assert s[..|w + "."|] == w + ".";
    }
  }

  /** The same for two fields. */
  lemma PrefixTwoFields(d0: string, d1: string, rest: string, w0: string, w1: string)
    requires NoDot(d0) && NoDot(d1) && NoDot(w0) && NoDot(w1)
    ensures StartsWith(d0 + "." + d1 + "." + rest, w0 + "." + w1 + ".") <==> d0 == w0 && d1 == w1
  {
    var s := d0 + "." + d1 + "." + rest;
    var t := d1 + "." + rest;
    assert s == d0 + "." + t;
    PrefixField(d0, t, w0);
    PrefixField(d1, rest, w1);
    if StartsWith(s, w0 + "." + w1 + ".") {
      assert s[..|w0| + 1] == (w0 + "." + w1 + ".")[..|w0| + 1] == w0 + ".";
      assert d0 == w0;
      assert s[|w0| + 1..] == t;
      assert t[..|w1| + 1] == s[|w0| + 1..|w0| + |w1| + 2] == w1 + ".";
    }
    if d0 == w0 && d1 == w1 {
      assert s[..|w0 + "." + w1 + "."|] == w0 + "." + w1 + ".";
    }
  }

  /** Two octets print alike only when they are equal. */
  lemma DecimalInjective(x: byte, y: byte)
    ensures Decimal(x) == Decimal(y) <==> x == y
  {
    ParseOctetOfDecimal(x);
    ParseOctetOfDecimal(y);
  }

  /** The position of the dot that ends the dot-free field `d` starting at `from`. */
  lemma FindDotAfterField(s: string, from: nat, d: string)
    requires NoDot(d) && from + |d| < |s| && s[from..from + |d|] == d && s[from + |d|] == '.'
    ensures FindFrom(s, '.', from) == Some(from + |d|)
  {
    var r := FindFrom(s, '.', from);
    assert forall i :: from <= i < from + |d| ==> s[i] == d[i - from];
    assert r.Some? && r.value == from + |d|;
  }

  /** The printed address starts with the octet `x` and a dot exactly when its first byte is `x`. */
  lemma StartsWithFirstOctet(a: seq<byte>, x: byte)
    requires |a| == 4
    ensures StartsWith(FormatDottedQuad(a), Decimal(x) + ".") <==> a[0] == x
  {
    var d1, rest := Decimal(a[1]), Decimal(a[2]) + "." + Decimal(a[3]);
    assert FormatDottedQuad(a) == Decimal(a[0]) + "." + (d1 + "." + rest);
    DecimalNoDot(a[0]);
    DecimalNoDot(x);
    PrefixField(Decimal(a[0]), d1 + "." + rest, Decimal(x));
    DecimalInjective(a[0], x);
  }

  /** The same for the first two octets. */
  lemma StartsWithTwoOctets(a: seq<byte>, x: byte, y: byte)
    requires |a| == 4
    ensures StartsWith(FormatDottedQuad(a), Decimal(x) + "." + Decimal(y) + ".") <==> a[0] == x && a[1] == y
  {
    var rest := Decimal(a[2]) + "." + Decimal(a[3]);
    assert FormatDottedQuad(a) == Decimal(a[0]) + "." + Decimal(a[1]) + "." + rest;
    DecimalNoDot(a[0]); DecimalNoDot(a[1]); DecimalNoDot(x); DecimalNoDot(y);
    PrefixTwoFields(Decimal(a[0]), Decimal(a[1]), rest, Decimal(x), Decimal(y));
    DecimalInjective(a[0], x);
    DecimalInjective(a[1], y);
  }

  /** In an address starting "172.", the field std::stoi reads is the second octet. */
  lemma SecondField(a: seq<byte>)
    requires |a| == 4 && a[0] == 172
    ensures var s := FormatDottedQuad(a);
      FindFrom(s, '.', 4).Some? && s[4..FindFrom(s, '.', 4).value] == Decimal(a[1])
  {
    var s := FormatDottedQuad(a);
    var d1 := Decimal(a[1]);
    assert Decimal(172) == "172";
    assert s == "172" + "." + d1 + "." + (Decimal(a[2]) + "." + Decimal(a[3]));
    assert s[4..4 + |d1|] == d1 && s[4 + |d1|] == '.';
    DecimalNoDot(a[1]);
    FindDotAfterField(s, 4, d1);
  }

  /**
   * On the text inet_ntop prints for an address, IsLocalAddress never
   * throws, and it answers whether the address is private.
   */
  lemma LocalAddressOfQuad(a: seq<byte>)
    requires |a| == 4
    ensures IsLocalAddress(FormatDottedQuad(a)) == Some(IsPrivate(a))
  {
    var ip := FormatDottedQuad(a);
    OctetPrefixes();
    StartsWithFirstOctet(a, 10);
    StartsWithTwoOctets(a, 192, 168);
    StartsWithFirstOctet(a, 127);
    StartsWithFirstOctet(a, 172);
    if a[0] == 172 {
      SecondField(a);
      StoiDecimal(a[1]);
    }
    LocalAddressCases(ip, a);
  }

  /** The prefixes IsLocalAddress tests, as printed octets. */
  lemma OctetPrefixes()
    ensures Decimal(10) + "." == "10." && Decimal(127) + "." == "127." && Decimal(172) + "." == "172."
    ensures Decimal(192) + "." + Decimal(168) + "." == "192.168."
  {
  }

  /** IsLocalAddress on a text whose prefixes and second field agree with the octets `a`. */
  lemma LocalAddressCases(ip: string, a: seq<byte>)
    requires |a| == 4
    requires StartsWith(ip, "10.") <==> a[0] == 10
    requires StartsWith(ip, "192.168.") <==> a[0] == 192 && a[1] == 168
    requires StartsWith(ip, "127.") <==> a[0] == 127
    requires StartsWith(ip, "172.") <==> a[0] == 172
    requires a[0] == 172 ==> FindFrom(ip, '.', 4).Some? && 4 <= FindFrom(ip, '.', 4).value <= |ip|
                             && Stoi(ip[4..FindFrom(ip, '.', 4).value]) == Some(a[1] as int)
    ensures IsLocalAddress(ip) == Some(IsPrivate(a))
  {
    if a[0] == 172 {
      var dot := FindFrom(ip, '.', 4).value;
      assert IsLocalAddress(ip) == Some(16 <= a[1] as int <= 31);
    }
  }

  // ---------------------------------------------------------------------
  // ParsePacket
  // ---------------------------------------------------------------------

  /** The IPv4 header length in bytes from its first byte: the low four bits count 32-bit words. */
  function HeaderLength(ihlVersion: byte): (n: nat)
    ensures n % 4 == 0 && n <= 60
  {
    (ihlVersion % 0x10) * 4
  }

  /** The direction field: incoming when a non-private source sends to a private destination. */
  function WithDirection(p: PacketInfo, d: seq<byte>): PacketInfo
    requires |d| >= TransportOffset
  {
    p.(incoming := !IsPrivate(d[26..30]) && IsPrivate(d[30..34]))
  }

  /**
   * What ParsePacket makes of a record, from its `data`: nothing for a
   * frame too short for an IPv4 header or not carrying IPv4; the addresses
   * and the label "IP" once the IPv4 header is there; then the transport
   * part.
   */
  function Decoded(pkt: PacketInfo): (r: PacketInfo)
    // a frame too short for an IPv4 header, or not carrying IPv4, leaves the record as it was
    ensures |pkt.data| < TransportOffset || ReadBE16(pkt.data, 12) != EtherTypeIPv4 ==> r == pkt
    // decoding never touches the captured bytes, the lengths, the time, the link-layer strings, TTL or protocol number
    ensures r.data == pkt.data && r.length == pkt.length && r.timestamp == pkt.timestamp
    ensures r.etherSrc == pkt.etherSrc && r.etherDst == pkt.etherDst && r.etherTypeStr == pkt.etherTypeStr
    ensures r.ttl == pkt.ttl && r.protocol == pkt.protocol && r.extraFields == pkt.extraFields
    // an IPv4 frame gets one of the four labels
    ensures r != pkt ==> r.transportProtocol in {"IP", "TCP", "UDP", "Other"}
  {
    var d := pkt.data;
    if |d| < TransportOffset || ReadBE16(d, 12) != EtherTypeIPv4 then pkt
    else
      DecodedTransport(pkt.(srcIP := FormatDottedQuad(d[26..30]), dstIP := FormatDottedQuad(d[30..34]),
                            transportProtocol := "IP"))
  }

  /**
   * The transport part: the label, then the ports and the direction as far
   * as the frame is long enough for them. The transport header starts where
   * the IPv4 header length says, whatever that length is.
   */
  function DecodedTransport(ip: PacketInfo): (r: PacketInfo)
    requires |ip.data| >= TransportOffset
    ensures r.data == ip.data && r.srcIP == ip.srcIP && r.dstIP == ip.dstIP
    ensures r.length == ip.length && r.timestamp == ip.timestamp && r.ttl == ip.ttl && r.protocol == ip.protocol
    ensures r.etherSrc == ip.etherSrc && r.etherDst == ip.etherDst && r.etherTypeStr == ip.etherTypeStr
    ensures r.extraFields == ip.extraFields
  {
    var d := ip.data;
    var t := EthernetSize + HeaderLength(d[14]);
    if |d| < t + 4 then ip
    else if d[23] == 6 then
      if |d| < t + 20 then ip.(transportProtocol := "TCP")
      else WithDirection(ip.(transportProtocol := "TCP", srcPort := ReadBE16(d, t), dstPort := ReadBE16(d, t + 2)), d)
    else if d[23] == 17 then
      if |d| < t + 8 then ip.(transportProtocol := "UDP")
      else WithDirection(ip.(transportProtocol := "UDP", srcPort := ReadBE16(d, t), dstPort := ReadBE16(d, t + 2)), d)
    else WithDirection(ip.(transportProtocol := "Other"), d)
  }

  /**
   * ParsePacket: fills in the record layer by layer, returning as soon as
   * the frame is too short for the next field. The record is passed by
   * reference in the program; here the filled-in record is returned.
   */
  method ParsePacket(pkt: PacketInfo) returns (r: PacketInfo)
    ensures r == Decoded(pkt)
  {
    r := pkt;
    if |r.data| < 14 {
      return;
    }
    var etherType := ReadBE16(r.data, 12);
    if etherType != EtherTypeIPv4 {
      return;
    }
    var ipOffset := EthernetSize;
    if |r.data| < ipOffset + IPv4Size {
      return;
    }
    var ipHeaderLen := HeaderLength(r.data[ipOffset]);
    var protocol := r.data[ipOffset + 9];
    var src := FormatDottedQuad(r.data[ipOffset + 12..ipOffset + 16]);
    var dst := FormatDottedQuad(r.data[ipOffset + 16..ipOffset + 20]);
    r := r.(srcIP := src);
    r := r.(dstIP := dst);
    r := r.(transportProtocol := "IP");
    r := ParseTransport(r, protocol, ipOffset + ipHeaderLen);
  }

  /** The part of ParsePacket after the IPv4 header: labels, ports, then the direction. */
  method ParseTransport(ip: PacketInfo, protocol: byte, transportOffset: nat) returns (r: PacketInfo)
    requires |ip.data| >= TransportOffset && protocol == ip.data[23]
    requires transportOffset == EthernetSize + HeaderLength(ip.data[14])
    requires ip.srcIP == FormatDottedQuad(ip.data[26..30]) && ip.dstIP == FormatDottedQuad(ip.data[30..34])
    ensures r == DecodedTransport(ip)
  {
    r := ip;
    if |r.data| < transportOffset + 4 {
      return;
    }
    if protocol == 6 {
      r := ReadPorts(ip, "TCP", 20, transportOffset);
      assert r == DecodedTransport(ip);
    } else if protocol == 17 {
      r := ReadPorts(ip, "UDP", 8, transportOffset);
      assert r == DecodedTransport(ip);
    } else {
      r := r.(transportProtocol := "Other");
      r := MarkDirection(r);
    }
  }

  /**
   * The TCP or UDP case of ParseTransport: the protocol's `name`; then, when the frame
   * holds the whole `size`-byte header at `transportOffset`, the two ports
   * and the direction.
   */
  method ReadPorts(ip: PacketInfo, name: string, size: nat, transportOffset: nat) returns (r: PacketInfo)
    requires |ip.data| >= TransportOffset && size >= 4
    requires ip.srcIP == FormatDottedQuad(ip.data[26..30]) && ip.dstIP == FormatDottedQuad(ip.data[30..34])
    ensures |ip.data| < transportOffset + size ==> r == ip.(transportProtocol := name)
    ensures |ip.data| >= transportOffset + size ==>
      r == WithDirection(ip.(transportProtocol := name, srcPort := ReadBE16(ip.data, transportOffset),
                             dstPort := ReadBE16(ip.data, transportOffset + 2)), ip.data)
  {
    r := ip.(transportProtocol := name);
    if |r.data| < transportOffset + size {
      return;
    }
    r := r.(srcPort := ReadBE16(r.data, transportOffset), dstPort := ReadBE16(r.data, transportOffset + 2));
    r := MarkDirection(r);
  }

  /** The direction: incoming when the source is not local and the destination is. */
  method MarkDirection(p: PacketInfo) returns (r: PacketInfo)
    requires |p.data| >= TransportOffset
    requires p.srcIP == FormatDottedQuad(p.data[26..30]) && p.dstIP == FormatDottedQuad(p.data[30..34])
    ensures r == WithDirection(p, p.data)
  {
    var srcIsLocal := IsLocalAddress(p.srcIP);
    var dstIsLocal := IsLocalAddress(p.dstIP);
    LocalAddressOfQuad(p.data[26..30]);
    LocalAddressOfQuad(p.data[30..34]);
    r := p.(incoming := !srcIsLocal.value && dstIsLocal.value);
  }

  // ---------------------------------------------------------------------
  // Properties of the decoder
  // ---------------------------------------------------------------------

  /** The label a decoded IPv4 frame gets, by the protocol byte at offset 23 and the frame length. */
  lemma DecodedLabel(pkt: PacketInfo)
    requires |pkt.data| >= TransportOffset && ReadBE16(pkt.data, 12) == EtherTypeIPv4
    ensures var r := Decoded(pkt);
      var d := pkt.data;
      var t := EthernetSize + HeaderLength(d[14]);
      && r.srcIP == FormatDottedQuad(d[26..30]) && r.dstIP == FormatDottedQuad(d[30..34])
      && r.transportProtocol == (if |d| < t + 4 then "IP" else if d[23] == 6 then "TCP"
                                 else if d[23] == 17 then "UDP" else "Other")
  {
  }

  /**
   * The ports are read, and the direction computed, only when the frame
   * holds the whole TCP (20 bytes) or UDP (8 bytes) header, or at least
   * four bytes of any other transport; otherwise both stay as they were.
   */
  lemma DecodedPorts(pkt: PacketInfo)
    requires |pkt.data| >= TransportOffset && ReadBE16(pkt.data, 12) == EtherTypeIPv4
    ensures var r := Decoded(pkt);
      var d := pkt.data;
      var t := EthernetSize + HeaderLength(d[14]);
      var n := if d[23] == 6 then 20 else if d[23] == 17 then 8 else 4;
      var full := |d| >= t + 4 && |d| >= t + n;
      && (full && (d[23] == 6 || d[23] == 17) ==> r.srcPort == ReadBE16(d, t) && r.dstPort == ReadBE16(d, t + 2))
      && (!full || (d[23] != 6 && d[23] != 17) ==> r.srcPort == pkt.srcPort && r.dstPort == pkt.dstPort)
      && r.incoming == (if full then !IsPrivate(d[26..30]) && IsPrivate(d[30..34]) else pkt.incoming)
  {
  }

  /** Traffic between two private addresses is never marked incoming. */
  lemma LocalTrafficIsOutgoing(pkt: PacketInfo)
    requires |pkt.data| >= TransportOffset && IsPrivate(pkt.data[26..30]) && !pkt.incoming
    ensures !Decoded(pkt).incoming
  {
  }
}
