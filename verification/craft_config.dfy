/**
 * What the user asks the packet crafter to build: the addressing, the
 * header fields of each layer and how to fill the payload.
 */
module CraftConfig {
  import opened Bytes

  /** How GeneratePayload fills the payload. */
  datatype PayloadType =
    | Text     // the bytes of payloadText
    | Hex      // payloadHex read as pairs of hexadecimal digits
    | Random   // payloadSize random bytes
    | Pattern  // payloadSize copies of patternByte
    | Numbers  // payloadSize bytes counting from numberStart by numberIncrement

  datatype TransportProtocol = TCP | UDP | ICMP

  datatype PacketCraftConfig = PacketCraftConfig(
    // Ethernet
    srcMAC: string,
    dstMAC: string,
    // IPv4
    srcIP: string,
    dstIP: string,
    ttl: byte,
    tos: byte,
    identification: uint16,
    dontFragment: bool,
    // transport
    protocol: TransportProtocol,
    srcPort: uint16,
    dstPort: uint16,
    // TCP
    seqNumber: uint32,
    ackNumber: uint32,
    flagSYN: bool,
    flagACK: bool,
    flagFIN: bool,
    flagRST: bool,
    flagPSH: bool,
    flagURG: bool,
    windowSize: uint16,
    // ICMP
    icmpType: byte,
    icmpCode: byte,
    icmpId: uint16,
    icmpSequence: uint16,
    // payload
    payloadType: PayloadType,
    payloadText: string,
    payloadHex: string,
    patternByte: byte,
    payloadSize: nat,
    numberStart: int32,
    numberIncrement: int32)

  /** The configuration a fresh PacketCraftConfig holds: a UDP datagram from and to the loopback address. */
  function DefaultConfig(): (c: PacketCraftConfig)
    ensures c.srcMAC == "00:00:00:00:00:00" && c.dstMAC == "FF:FF:FF:FF:FF:FF"
    ensures c.srcIP == "127.0.0.1" && c.dstIP == "127.0.0.1" && c.ttl == 64
    ensures c.protocol == UDP && c.srcPort == 12345 && c.dstPort == 54321
    ensures c.windowSize == 65535
    ensures c.icmpType == 8 && c.icmpCode == 0 && c.icmpId == 1 && c.icmpSequence == 1
    ensures c.payloadType == Text && c.payloadSize == 32 && c.patternByte == 0
    ensures c.numberStart == 0 && c.numberIncrement == 1
  {
    PacketCraftConfig(
      "00:00:00:00:00:00", "FF:FF:FF:FF:FF:FF",
      "127.0.0.1", "127.0.0.1", 64, 0, 0, false,
      UDP, 12345, 54321,
      0, 0, false, false, false, false, false, false, 65535,
      8, 0, 1, 1,
      Text, "Hello, Packet Inspector! made by ALRAYZZ",
      "48656C6C6F2C205061636B657420496E73706563746F7221206D61646520627920414C5241595A5A",
      0x00, 32, 0, 1)
  }
}
