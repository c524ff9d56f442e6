# PacketInspector core, modelled in Dafny

PacketInspector is a desktop packet capture and packet crafting tool. This
project models and verifies its three core components:

* **The packet crafter** (`PacketCrafterEngine`). It turns a
  `PacketCraftConfig` into an Ethernet II / IPv4 / TCP, UDP or ICMP frame.
  It fills the payload in one of five ways, computes the IPv4, TCP, UDP
  and ICMP checksums, and validates a configuration before sending it.
* **The frame decoder** (`PacketParser::ParsePacket` with the
  `PacketInfo` record and its hex preview). It fills in a record layer by
  layer from the first bytes of a frame. It guesses the traffic direction
  from whether the addresses are private.
* **The capture buffer** (`CaptureEngine`). The libpcap callback keeps the
  first 64 bytes of each frame, decodes them and appends the record to a
  bounded FIFO. The engine also has the flags that guard starting and
  stopping a capture.

Modules, one per file:

| file | module | models |
|---|---|---|
| `optional.dfy` | `Optional` | the `Option` type |
| `bytes.dfy` | `Bytes` | bytes, 16- and 32-bit words in network and host order, digits |
| `checksum.dfy` | `Checksum` | `CalculateChecksum`, its unpadded word sum, and the padded Internet checksum of RFC 1071 |
| `addresses.dfy` | `Addresses` | dotted-decimal IPv4 text and colon-separated MAC text |
| `craft_config.dfy` | `CraftConfig` | `PayloadType`, `TransportProtocol`, `PacketCraftConfig` and its defaults |
| `frames.dfy` | `Frames` | the byte layout of the frames the crafter builds |
| `crafter.dfy` | `Crafter` | payload generation, checksums over the frame, `BuildPacket` on an array, validation |
| `packet_info.dfy` | `Packet` | `PacketInfo` and `GetHexPreview` |
| `parser.dfy` | `Parser` | `IsLocalAddress` and `ParsePacket` |
| `capture.dfy` | `Capture` | the `CaptureEngine` class |
| `roundtrip.dfy` | `RoundTrip` | decoding what the crafter builds |

Some conventions of the model:

* The host is little-endian.
  * `CalculateChecksum` reads native words and returns a native `uint16_t`,
    as the program does.
  * `Checksum.HostChecksumIsNetworkChecksum` shows that the two bytes it
    stores are the unpadded Internet checksum in network order: the
    one's-complement sum of the whole 16-bit words, with an odd trailing
    byte left out.
  * RFC 1071 pads an odd trailing byte with a zero byte instead. The two
    agree on even lengths. See "## Findings" for odd lengths.
* `BuildPacket` writes into a zero-filled `array<byte>` header by header,
  then copies the payload.
  * Each write is proved against `Frames.Frame`, the frame as a sequence of
    bytes.
  * The wire properties are lemmas about `Frame`: the field offsets and the
    checksum tests of an RFC 1071 receiver.
* The headline lemma is `RoundTrip.BuiltFrameDecodes`: decoding a frame
  built from a configuration that `ValidateConfig` accepts gives back the
  addresses, the transport label and the ports.

## Model

| member | source | states |
|---|---|---|
| Checksum.CalculateChecksum | core/PacketCrafterEngine.cpp:427-442 | the result is the complement of the one's-complement sum of the ⌊len/2⌋ native words; the running sum stays ≤ 0xFFFF after every step because the carry is folded back at once |
| Checksum.HostChecksumIsNetworkChecksum | core/PacketCrafterEngine.cpp:427-442 | stored as a native word on a little-endian host, the result is the unpadded Internet checksum (whole words only) in network byte order |
| Checksum.OnesSumByteOrder | core/PacketCrafterEngine.cpp:431-437 | summing little-endian words gives the byte-swapped big-endian sum (RFC 1071 section 2(B)) |
| Checksum.OddTrailingByteIgnored | core/PacketCrafterEngine.cpp:429-441 | appending one byte to an even-length buffer changes neither the host nor the network checksum |
| Checksum.Padded | core/PacketCrafterEngine.cpp:430-432 | the buffer with one zero byte appended when its length is odd, as RFC 1071 section 4.1 pads it: even length, the buffer a prefix, at most one byte longer |
| Checksum.EvenBufferPadded | core/PacketCrafterEngine.cpp:429-441 | on an even-length buffer the unpadded checksum equals the padded RFC 1071 checksum, and the receiver's padded sum equals the unpadded sum |
| Checksum.PaddedChecksumVerifies | core/PacketCrafterEngine.cpp:430-432 | once the padded checksum is stored in a zeroed field, the RFC 1071 receiver's padded sum is 0xFFFF for a buffer of any length |
| Checksum.OddByteFailsReceiver | core/PacketCrafterEngine.cpp:430-432 | an odd-length buffer whose whole words sum to 0xFFFF and whose last byte b is not zero has the padded sum b·0x100, so an RFC 1071 receiver rejects it |
| Checksum.UnpaddedChecksumFailsReceiver | core/PacketCrafterEngine.cpp:430-432 | a buffer carrying the unpadded checksum and an odd trailing byte other than zero fails the RFC 1071 receiver |
| Checksum.ChecksumVerifies | core/PacketCrafterEngine.cpp:211-212 | once the unpadded checksum of a buffer is stored in its zeroed 16-bit field, the unpadded word sum of the buffer is 0xFFFF; on an even-length buffer, such as the 20-byte IPv4 header, this is the RFC 1071 receiver's test |
| CraftConfig.DefaultConfig | core/PacketCrafterEngine.h:22-66 | default MACs, addresses 127.0.0.1, TTL 64, UDP ports 12345 and 54321, window 65535, ICMP 8/0/1/1, Text payload, size 32, pattern 0, numbers from 0 by 1 |
| Addresses.ParseOctetOfDecimal | core/PacketParser.cpp:101-102 | an octet printed in decimal reads back as the same octet |
| Addresses.DecimalOfParseOctet | core/PacketCrafterEngine.cpp:384-388 | a field accepted as an octet is the octet's canonical decimal form: no leading zero, at most 255 |
| Addresses.ParseFormat | core/PacketParser.cpp:101-102 | four bytes printed as a dotted quad parse back to the same four bytes |
| Addresses.FormatParse | core/PacketCrafterEngine.cpp:384-388 | a text accepted as a dotted quad is exactly the printed form of the bytes it parses to |
| Addresses.MacBytes | core/PacketCrafterEngine.cpp:179-189 | the six address bytes; when all six conversions succeed they are the values read |
| Addresses.HexByte | core/PacketParser.cpp:59 | a byte prints as two hexadecimal digits, neither of them a lower-case letter, whose values give the byte back |
| Addresses.ScanMacFieldsText | core/PacketCrafterEngine.cpp:390-396 | colon-separated two-digit hex text scans back to its bytes, whatever text follows it |
| Addresses.QuadTextParses | core/PacketCrafterEngine.cpp:384-388 | a text parses as a dotted quad exactly when it is the printed form of some four bytes |
| Addresses.MacText | core/PacketParser.cpp:56-61 | 17 characters: the six bytes as two upper-case hex digits each, separated by colons |
| Addresses.ScannedFields | core/PacketCrafterEngine.cpp:390-396 | when n fields are scanned, the text starts with n colon-separated fields of one or two hex digits, and the values scanned are those fields' values |
| Addresses.FieldsScan | core/PacketCrafterEngine.cpp:390-396 | conversely, a text that starts with n colon-separated fields of one or two hex digits scans n fields |
| Addresses.ScanMacText | core/PacketParser.cpp:56-61 | a MAC address printed as macToStr prints it scans back to its six bytes |
| Frames.AddressField | core/PacketCrafterEngine.cpp:209-210 | the four address bytes; for an accepted text they print back as that text |
| Frames.Frame | core/PacketCrafterEngine.cpp:154-173 | the frame is 14 + 20 + T + \|payload\| bytes long, with T = 20 for TCP and 8 for UDP and ICMP |
| Frames.TcpFlagBits | core/PacketCrafterEngine.cpp:227-233 | each configured flag is its own bit of the flags byte (FIN 0x01 … URG 0x20), and no other bit is set |
| Frames.IPv4HeaderStore | core/PacketCrafterEngine.cpp:211-212 | filling in the IPv4 checksum changes only bytes 10-11 of the header |
| Frames.TransportHeaderStore | core/PacketCrafterEngine.cpp:235-285 | filling in a TCP, UDP or ICMP checksum changes only that header's checksum field |
| Frames.FrameParts | core/PacketCrafterEngine.cpp:172-288 | the frame is the Ethernet header, the IPv4 header, the transport header, then the payload verbatim from offset 34 + T |
| Frames.EthernetFields | core/PacketCrafterEngine.cpp:175-190 | bytes 0-5 hold the destination MAC, 6-11 the source MAC, and 12-13 EtherType 0x0800 |
| Frames.IPv4Fields | core/PacketCrafterEngine.cpp:192-210 | 0x45, TOS, total length mod 65536, id, 0x4000 iff don't-fragment, TTL, protocol 6/17/1, checksum, then the addresses |
| Frames.TransportFields | core/PacketCrafterEngine.cpp:219-287 | the ports, the sequence and ack numbers, data offset 0x50, the flags, the window, the checksum, urgent pointer 0, UDP length 8 + \|payload\| mod 65536, and the ICMP type, code, id and sequence |
| Frames.IPv4ChecksumValid | core/PacketCrafterEngine.cpp:211-212 | the one's-complement sum of the frame's 20 IPv4 header bytes, checksum included, is 0xFFFF |
| Frames.TransportChecksumValid | core/PacketCrafterEngine.cpp:244-285 | the whole words of the segment, behind the pseudo-header a receiver builds from the frame's own IPv4 header (none for ICMP), sum to 0xFFFF; for a payload of even length the RFC 1071 receiver's padded sum is 0xFFFF, so the frame passes |
| Frames.OddPayloadFailsReceiver | core/PacketCrafterEngine.cpp:430-432 | a payload of odd length whose last byte is not zero makes the built frame fail the RFC 1071 receiver's TCP, UDP or ICMP checksum test |
| Frames.PaddedTransportChecksumOfEven | core/PacketCrafterEngine.cpp:244-285 | for a payload of even length the padded transport checksum is the checksum BuildPacket stores |
| Frames.PaddedSegmentValid | core/PacketCrafterEngine.cpp:244-285 | with the padded checksum stored, the segment behind its pseudo-header passes the RFC 1071 receiver for a payload of any length |
| Frames.HeaderAddresses | core/PacketCrafterEngine.cpp:194-210 | in a buffer holding the IPv4 header at offset 14, byte 14 is 0x45, byte 23 is the protocol and bytes 26-33 are the addresses |
| Crafter.TextBytes | core/PacketCrafterEngine.cpp:298-303 | a text payload has one byte per character, byte i being character i (its code mod 256) |
| Crafter.HexDigitsOf | core/PacketCrafterEngine.cpp:306-309 | only hex digits remain; a text made only of hex digits is kept whole; a single character that is not a hex digit is removed |
| Crafter.HexDigitsOfAppend | core/PacketCrafterEngine.cpp:306-309 | the filter of a concatenation is the concatenation of the filters, so with the one-character cases the result is the hex digits of the text in order |
| Crafter.HexPairs | core/PacketCrafterEngine.cpp:311-317 | ⌊n/2⌋ bytes, byte i being the value of digits 2i and 2i+1; an odd last digit is dropped |
| Crafter.Counting | core/PacketCrafterEngine.cpp:338-348 | n bytes, byte i being (start + i·increment) mod 256 |
| Crafter.Payload | core/PacketCrafterEngine.cpp:292-351 | the length for each mode; Text bytes are TextBytes of payloadText; Pattern bytes are patternByte; Numbers byte i is (numberStart + i·numberIncrement) mod 256 |
| Crafter.GeneratePayload | core/PacketCrafterEngine.cpp:292-351 | returns Payload(c, rng) |
| Crafter.DecodeHex | core/PacketCrafterEngine.cpp:304-319 | the loop over digit pairs returns HexPairs of the hex digits of the text |
| Crafter.DrawRandom | core/PacketCrafterEngine.cpp:320-332 | payloadSize bytes drawn in order from the random source |
| Crafter.CountUp | core/PacketCrafterEngine.cpp:338-348 | the counting loop returns Counting(start, increment, n) |
| Crafter.HexPayloadRoundTrip | core/PacketCrafterEngine.cpp:304-319 | bytes written as hex text decode back to the same bytes |
| Crafter.CalculateTCPChecksum | core/PacketCrafterEngine.cpp:444-478 | the stored word is the Internet checksum of the addresses, 0, 6 and the 16-bit segment length, followed by the segment |
| Crafter.CalculateUDPChecksum | core/PacketCrafterEngine.cpp:480-515 | the same with protocol 17 |
| Crafter.CopyInto | core/PacketCrafterEngine.cpp:239-242 | the array holds `src` at `off` and is unchanged elsewhere |
| Crafter.WriteEthernetHeader | core/PacketCrafterEngine.cpp:175-190 | the first 14 bytes become the Ethernet header; the rest is unchanged |
| Crafter.WriteIPv4Header | core/PacketCrafterEngine.cpp:192-212 | bytes 14-33 become the IPv4 header with its checksum stored; the rest is unchanged |
| Crafter.TransportChecksumOf | core/PacketCrafterEngine.cpp:244-285 | for TCP, UDP and ICMP alike, the word stored is the transport checksum in network order |
| Crafter.WriteSegment | core/PacketCrafterEngine.cpp:238-242 | the transport header and then the payload follow the first 34 bytes |
| Crafter.WriteTransport | core/PacketCrafterEngine.cpp:214-288 | from offset 34 the array holds the transport header, with its checksum computed after the payload copy, then the payload |
| Crafter.BuildPacket | core/PacketCrafterEngine.cpp:147-290 | the bytes returned are Frame(c, Payload(c, rng)) |
| Crafter.ValidateIPAddress | core/PacketCrafterEngine.cpp:384-388 | accepted exactly when the text is the dotted-quad form of some four bytes (both directions) |
| Crafter.ValidateMACAddress | core/PacketCrafterEngine.cpp:390-396 | when accepted, the bytes BuildPacket writes are the six values scanned |
| Crafter.ValidMacText | core/PacketCrafterEngine.cpp:390-396 | every MAC address in printed form is accepted |
| Crafter.ValidMacPrefix | core/PacketCrafterEngine.cpp:390-396 | accepted exactly when the text starts with six colon-separated fields of one or two hex digits, and then the bytes written are those fields' values |
| Crafter.MacTrailingTextIgnored | core/PacketCrafterEngine.cpp:390-396 | text after the sixth field is never examined |
| Crafter.ValidateConfig | core/PacketCrafterEngine.cpp:353-382 | Valid iff both IPs and the source MAC are accepted and, for TCP and UDP only, both ports are non-zero |
| Crafter.ValidateConfigFirstFailure | core/PacketCrafterEngine.cpp:353-382 | the message returned is that of the first failing check, in the order source IP, destination IP, source MAC, ports |
| Crafter.ValidateConfigReads | core/PacketCrafterEngine.cpp:353-382 | two configurations that agree on the addresses, the source MAC, the protocol and the ports get the same verdict |
| Crafter.ValidateConfigIgnores | core/PacketCrafterEngine.cpp:353-382 | the destination MAC and the ICMP type, code, id and sequence do not affect the verdict |
| Crafter.DefaultConfigValid | core/PacketCrafterEngine.h:25-39 | the default configuration passes ValidateConfig |
| Crafter.ValidConfigFrame | core/PacketCrafterEngine.cpp:179-210 | for an accepted configuration, the frame's address fields print back as the configured addresses and bytes 6-11 are the scanned source MAC |
| Packet.NewPacketInfo | core/PacketInfo.h:6-31 | a fresh record has length, ttl, protocol and ports 0, empty data, strings and extra fields, and incoming false |
| Packet.HexGroup | core/PacketInfo.cpp:25 | three characters: two lower-case hex digits, then a space |
| Packet.HexGroups | core/PacketInfo.cpp:23-26 | 3 characters per byte, group k being HexGroup(d[k]) |
| Packet.GetHexPreview | core/PacketInfo.cpp:20-28 | the loop returns the groups of the first min(maxBytes, \|data\|) bytes; maxBytes defaults to 16 |
| Packet.HexGroupsReadBack | core/PacketInfo.cpp:25 | the digits of group k read back as byte k |
| Packet.PreviewIgnoresLaterBytes | core/PacketInfo.cpp:23 | bytes at index maxBytes or later do not change the preview |
| Packet.HexGroupsAppend | core/PacketInfo.cpp:23-26 | the preview of a concatenation is the concatenation of the previews |
| Packet.HexGroupsInjective | core/PacketInfo.cpp:23-26 | two byte strings with the same hex dump are equal |
| Parser.FindFrom | core/PacketParser.cpp:72 | the first position at or after `from` that holds the character, or None when there is none |
| Parser.Stoi | core/PacketParser.cpp:75 | a value is returned only when it fits a 32-bit int |
| Parser.StoiDecimal | core/PacketParser.cpp:75 | std::stoi reads a printed octet back as its value |
| Parser.IsLocalAddress | core/PacketParser.cpp:63-80 | true for texts starting "10.", "192.168." or "127."; true otherwise only for "172." texts; the std::stoi exception (None) only for "172." texts |
| Parser.LocalAddressOfQuad | core/PacketParser.cpp:63-80 | on any address inet_ntop prints, IsLocalAddress does not throw and is true exactly for 10/8, 192.168/16, 127/8 and 172.16/12 |
| Parser.HeaderLength | core/PacketParser.cpp:96 | (byte & 0x0F)·4 is a multiple of 4 and at most 60; it is not checked against 20 |
| Parser.DecodedTransport | core/PacketParser.cpp:108-143 | the transport step keeps data, addresses, length, timestamp, ttl, protocol byte, Ethernet strings and extra fields |
| Parser.ParsePacket | core/PacketParser.cpp:82-144 | the guarded early returns fill in the record as Decoded(pkt) |
| Parser.ParseTransport | core/PacketParser.cpp:108-143 | the transport switch and the direction give DecodedTransport(ip) |
| Parser.ReadPorts | core/PacketParser.cpp:113-130 | label first; ports and direction only when the whole TCP or UDP header is present |
| Parser.MarkDirection | core/PacketParser.cpp:137-143 | incoming = source not private and destination private |
| Parser.Decoded | core/PacketParser.cpp:82-144 | a frame shorter than 34 bytes or not IPv4 leaves the record as it was; data, length, timestamp, ttl, protocol byte, Ethernet strings and extra fields are never written; a changed record is labelled "IP", "TCP", "UDP" or "Other" |
| Parser.DecodedLabel | core/PacketParser.cpp:99-133 | the addresses are the dotted forms of bytes 26-29 and 30-33; the label is "IP", "TCP", "UDP" or "Other" according to the length and byte 23 |
| Parser.DecodedPorts | core/PacketParser.cpp:108-143 | ports are read big-endian, and the direction computed, only when enough bytes remain; otherwise both keep their old values |
| Parser.LocalTrafficIsOutgoing | core/PacketParser.cpp:137-143 | traffic from a private source is never marked incoming |
| Capture.Captured | core/CaptureEngine.cpp:163-175 | data is the first min(caplen, 64) bytes, length is the wire length, timestamp is tv_sec·10⁶ + tv_usec µs |
| Capture.Window | core/CaptureEngine.cpp:179-183 | the last min(\|s\|, m) elements, in order |
| Capture.Appended | core/CaptureEngine.cpp:179-183 | size stays ≤ capacity; the new record is last; below capacity the old contents are a prefix; at capacity exactly the oldest is dropped |
| Capture.AppendedWindow | core/CaptureEngine.cpp:179-183 | appending to the window of the arrivals gives the window of the arrivals plus the new record |
| Capture.Record | core/CaptureEngine.cpp:163-175 | the record the handler builds is Captured(header, bytes) |
| Capture.CaptureEngine.constructor | core/CaptureEngine.cpp:6-9 | no handle, not capturing, an empty buffer |
| Capture.CaptureEngine.OpenDevice | core/CaptureEngine.cpp:50-79 | succeeds iff the list is non-empty, the index is in range (a negative index selects the first device) and libpcap opens the device; the handle flag is updated only once libpcap is called |
| Capture.CaptureEngine.StartCapture | core/CaptureEngine.cpp:95-118 | returns false and changes nothing without a handle or while capturing; otherwise capturing becomes true |
| Capture.CaptureEngine.StopCapture | core/CaptureEngine.cpp:121-142 | afterwards there is no capture, whatever the state was |
| Capture.CaptureEngine.CloseDevice | core/CaptureEngine.cpp:82-92 | stops the capture, then no handle remains |
| Capture.CaptureEngine.GetRecentPackets | core/CaptureEngine.cpp:188-192 | a copy of the buffer, which is the last maxPackets arrivals in order |
| Capture.CaptureEngine.PacketHandler | core/CaptureEngine.cpp:155-185 | nothing for a missing engine, header or data; otherwise the buffer becomes Appended(buffer, record, maxPackets) and stays the window of all arrivals |
| RoundTrip.FrameHeaderBytes | core/PacketCrafterEngine.cpp:175-263 | every built frame has EtherType IPv4, 0x45, the protocol, the addresses and (TCP/UDP) the ports where the parser reads them |
| RoundTrip.PrefixHeaderBytes | core/CaptureEngine.cpp:172-174 | a prefix long enough for the transport header keeps those bytes |
| RoundTrip.DecodeHeaderBytes | core/PacketParser.cpp:82-144 | from those bytes the parser recovers the configured addresses, label and ports, and the direction of the two addresses |
| RoundTrip.BuiltFrameDecodes | core/PacketParser.cpp:82-144 | parsing a frame built from an accepted configuration gives its addresses, "TCP"/"UDP"/"Other" and (TCP/UDP) its ports |
| RoundTrip.CapturedFrameDecodes | core/CaptureEngine.cpp:163-175 | the same holds for the record the capture callback stores for such a frame |
| RoundTrip.LoopbackFrameDecodes | core/PacketParser.cpp:137-143 | a frame from 127.0.0.1 to 127.0.0.1 decodes as outgoing, with source 127.0.0.1 and (TCP/UDP) the configured source port |
| RoundTrip.DefaultIsLoopback | core/PacketCrafterEngine.h:25-39 | the default configuration is accepted and sends from 127.0.0.1 over UDP |

## Left out

- `BuildPacket` stores the unpadded transport checksum, as the program does. The padded one is modelled only as `Frames.PaddedTransportChecksum`, for the row under "## Findings".

- Device I/O through libpcap and the OS is not modelled:
  - sending in `CraftAndSendPacket`;
  - `Initialize`, `GetAvailableDevices` and `FreeDeviceList`;
  - `pcap_open_live`, which is the `openSucceeds` parameter of `OpenDevice`;
  - `GetLocalMACAddress`, and the `GetGatewayMACAddress` stub.
- Threads and locking are not modelled: the capture thread, `pcap_loop` and `pcap_breakloop`, `packetMutex` and the atomics. Handler calls and reads are sequential calls on one object.
  - `capturing` is reset by the capture thread when `pcap_loop` returns; the model does not include that thread.
- The random payload bytes come from the parameter `rng`; `std::random_device` and `mt19937` are not modelled.
- `inet_pton`, `inet_addr` and `inet_ntop` are replaced by an explicit canonical dotted-quad parser and printer.
  - An address is accepted when it has four decimal octets 0-255 with no leading zeros, as `inet_pton` accepts for AF_INET.
  - A rejected text gives address bytes 255.255.255.255 (INADDR_NONE).
  - `inet_addr` also accepts hexadecimal, octal and fewer-part forms. Those are not modelled, since `ValidateConfig` rejects them first.
- `sscanf` reading "%02x" is modelled as one or two hex digits per field.
  - Leading whitespace, signs and "0x" prefixes are not modelled.
  - A field it fails to read (left uninitialised in the program) is 0 in the model.
- Byte order: the host is assumed to be little-endian. On a big-endian host the stored checksums and the pseudo-header's address bytes would differ.
- `Crafter.CountUp`: the counter is an unbounded integer. Signed 32-bit overflow is undefined behaviour in the program. Only the low byte is used, and that byte is the same as for a wrapping `int`.
- `Crafter.TextBytes`: characters are modelled as bytes (code point mod 256). The model does no UTF-8 encoding of `std::string` contents.
- `ParsePacket` writes fields named `srcAddr`, `dstAddr` and a string `protocol`. The record declares `srcIP`, `dstIP` and `transportProtocol`, and the GUI reads those, so the writes are modelled on those fields. The `protocol` byte is never written.
- `Parser.Stoi`: the exception `std::stoi` throws is None. `Parser.LocalAddressOfQuad` shows it never happens on inet_ntop output.
- `core/CaptureEngine.h` does not declare `packetBuffer`, `maxPackets`, `packetMutex`, `captureThread` or `GetRecentPackets`. The state is taken from `core/CaptureEngine.cpp`, with `maxPackets` a constructor parameter.
- The timestamp is an integer number of microseconds, not a `system_clock::time_point`.
- These have no model:
  - `PacketInfo::GetTimeString` (local-time formatting);
  - `GetGroupedPackets`, which has no definition in the sources;
  - `PingEngine` (sockets, threads and floating-point statistics);
  - the GUI and `main.cpp`.
- `macToStr` is unused by `ParsePacket`. It is modelled as `Addresses.MacText` and only serves the MAC round-trip lemma.
- `Capture.CaptureEngine.OpenDevice`: the model does not track a second open leaking the previous handle.

## Findings

| source | as written | input that shows it | evidently intended | confidence | as-written member | corrected member |
|---|---|---|---|---|---|---|
| core/PacketCrafterEngine.cpp:430-432 | `CalculateChecksum` sums `len / 2` words, so the TCP, UDP and ICMP checksums leave out the last byte of a segment of odd length | any TCP, UDP or ICMP payload of odd length whose last byte is not zero; for the buffer [0, 0, 1] with its checksum field at bytes 0-1, the stored buffer is [0xFF, 0xFF, 1], whose padded sum is 0x0100, not 0xFFFF | pad the odd byte with a zero byte, as RFC 1071 section 4.1 does, so that every receiver accepts the frame | not executed | Frames.OddPayloadFailsReceiver | Frames.PaddedSegmentValid |
