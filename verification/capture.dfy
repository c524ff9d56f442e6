/**
 * CaptureEngine: the bounded buffer of recently captured frames that the
 * libpcap callback fills, and the flags that guard starting and stopping
 * a capture.
 */
module Capture {
  import opened Optional
  import opened Bytes
  import opened Packet
  import opened Parser

  /** How many bytes of each frame PacketHandler keeps. */
  const SnapBytes: nat := 64

  /** The fields of libpcap's pcap_pkthdr the handler reads. */
  datatype PcapHeader = PcapHeader(tsSec: int, tsUsec: int, caplen: uint32, len: uint32)

  /** The capture time in microseconds: tv_sec seconds plus tv_usec microseconds. */
  function Timestamp(h: PcapHeader): int {
    h.tsSec * 1_000_000 + h.tsUsec
  }

  /**
   * The record PacketHandler stores for one frame: the capture time, the
   * length on the wire, at most the first 64 captured bytes, decoded.
   */
  function Captured(h: PcapHeader, bytes: seq<byte>): (p: PacketInfo)
    requires Min(h.caplen as nat, SnapBytes) <= |bytes|
    ensures p.data == bytes[..Min(h.caplen as nat, SnapBytes)] && |p.data| <= SnapBytes
    ensures p.length == h.len && p.timestamp == Timestamp(h)
  {
    var p := NewPacketInfo().(timestamp := Timestamp(h), length := h.len,
                              data := bytes[..Min(h.caplen as nat, SnapBytes)]);
    Decoded(p)
  }

  /** The last `m` elements of `s`, or all of them when there are fewer. */
  function Window<T>(s: seq<T>, m: nat): (w: seq<T>)
    ensures |w| == Min(|s|, m) && w == s[|s| - |w|..]
  {
    if |s| <= m then s else s[|s| - m..]
  }

  /** push_back, then pop_front when the buffer has grown past `m`. */
  function Appended<T>(buf: seq<T>, p: T, m: nat): (r: seq<T>)
    ensures |buf| <= m ==> |r| <= m
    ensures m > 0 ==> |r| > 0 && r[|r| - 1] == p
    ensures |buf| < m ==> r == buf + [p]
    ensures |buf| == m > 0 ==> r == buf[1..] + [p]
  {
    var b := buf + [p];
    if |b| > m then b[1..] else b
  }

  /** Appending to the window of the arrivals so far gives the window of the arrivals including the new one. */
  lemma AppendedWindow<T>(s: seq<T>, p: T, m: nat)
    ensures Appended(Window(s, m), p, m) == Window(s + [p], m)
  {
    var w := Window(s, m);
    var s' := s + [p];
    if |s| < m {
      assert w == s;
    } else if m > 0 {
      assert w + [p] == s'[|s'| - m - 1..];
      assert (w + [p])[1..] == s'[|s'| - m..];
    } else {
      assert Window(s', m) == [];
    }
  }

  class CaptureEngine {
    /** Whether a device handle is open (the last OpenDevice that reached libpcap succeeded, and CloseDevice has not run since). */
    var hasHandle: bool
    var capturing: bool
    var packetBuffer: seq<PacketInfo>
    const maxPackets: nat
    /** Every record the handler has stored, oldest first. */
    ghost var arrivals: seq<PacketInfo>

    /** The buffer holds the latest `maxPackets` records, in arrival order. */
    ghost predicate Valid()
      reads this
    {
      packetBuffer == Window(arrivals, maxPackets)
    }

    constructor (maxPackets: nat)
      ensures Valid() && this.maxPackets == maxPackets
      ensures !hasHandle && !capturing && packetBuffer == [] && arrivals == []
    {
      this.maxPackets := maxPackets;
      hasHandle := false;
      capturing := false;
      packetBuffer := [];
      arrivals := [];
    }

    /**
     * OpenDevice: walks `index` steps down the device list (an empty list
     * stands for no list at all) and opens the device it reaches. Whether
     * libpcap opens it is the parameter `openSucceeds`. A negative index
     * takes no step, so it selects the first device.
     */
    method OpenDevice(devices: seq<string>, index: int, openSucceeds: bool) returns (success: bool, device: nat)
      modifies this
      ensures success <==> |devices| > 0 && index < |devices| && openSucceeds
      ensures success ==> device == (if index < 0 then 0 else index) && device < |devices|
      ensures hasHandle == (if |devices| > 0 && index < |devices| then openSucceeds else old(hasHandle))
      ensures capturing == old(capturing) && packetBuffer == old(packetBuffer) && arrivals == old(arrivals)
    {
      device := 0;
      if |devices| == 0 {
        return false, device;
      }
      var i := 0;
      while device < |devices| && i < index
        invariant device == i && 0 <= i <= |devices|
        invariant i <= index || i == 0
        decreases |devices| - device
      {
        device := device + 1;
        i := i + 1;
      }
      if device >= |devices| {
        return false, device;
      }
      hasHandle := openSucceeds;
      success := openSucceeds;
    }

    /** StartCapture: refused without a handle or while a capture runs; otherwise the capture is running. */
    method StartCapture() returns (started: bool)
      modifies this
      ensures started <==> old(hasHandle) && !old(capturing)
      ensures capturing == (old(capturing) || started)
      ensures hasHandle == old(hasHandle) && packetBuffer == old(packetBuffer) && arrivals == old(arrivals)
    {
      if !hasHandle || capturing {
        return false;
      }
      capturing := true;
      return true;
    }

    /** StopCapture: whatever the state, no capture runs afterwards. */
    method StopCapture()
      modifies this
      ensures !capturing
      ensures hasHandle == old(hasHandle) && packetBuffer == old(packetBuffer) && arrivals == old(arrivals)
    {
      capturing := false;
    }

    /** CloseDevice: stops the capture, then closes the handle. */
    method CloseDevice()
      modifies this
      ensures !capturing && !hasHandle
      ensures packetBuffer == old(packetBuffer) && arrivals == old(arrivals)
    {
      StopCapture();
      hasHandle := false;
    }

    /** GetRecentPackets: a copy of the buffer, which is the latest records in arrival order. */
    method GetRecentPackets() returns (r: seq<PacketInfo>)
      requires Valid()
      ensures r == packetBuffer
      ensures r == Window(arrivals, maxPackets) && |r| <= maxPackets
    {
      r := packetBuffer;
    }

    /**
     * PacketHandler, the libpcap callback: nothing for a missing engine,
     * header or data; otherwise the record of the frame goes to the back of
     * the buffer, and the oldest record leaves when the buffer is over
     * capacity.
     */
    static method PacketHandler(user: CaptureEngine?, header: Option<PcapHeader>, bytes: Option<seq<byte>>)
      requires user != null ==> user.Valid()
      requires header.Some? && bytes.Some? ==> Min(header.value.caplen as nat, SnapBytes) <= |bytes.value|
      modifies user
      ensures user != null ==> user.Valid()
      ensures user != null ==> user.hasHandle == old(user.hasHandle) && user.capturing == old(user.capturing)
      ensures user != null && (header.None? || bytes.None?) ==>
                user.packetBuffer == old(user.packetBuffer) && user.arrivals == old(user.arrivals)
      ensures user != null && header.Some? && bytes.Some? ==>
                var p := Captured(header.value, bytes.value);
                && user.packetBuffer == Appended(old(user.packetBuffer), p, user.maxPackets)
                && user.arrivals == old(user.arrivals) + [p]
    {
      if user == null || header.None? || bytes.None? {
        return;
      }
      var packet := Record(header.value, bytes.value);
      AppendedWindow(user.arrivals, packet, user.maxPackets);
      user.packetBuffer := user.packetBuffer + [packet];
      if |user.packetBuffer| > user.maxPackets {
        user.packetBuffer := user.packetBuffer[1..];
      }
      user.arrivals := user.arrivals + [packet];
    }
  }

  /** The record PacketHandler builds for a frame: time, wire length, the first bytes, then ParsePacket. */
  method Record(h: PcapHeader, bytes: seq<byte>) returns (packet: PacketInfo)
    requires Min(h.caplen as nat, SnapBytes) <= |bytes|
    ensures packet == Captured(h, bytes)
  {
    packet := NewPacketInfo();
    packet := packet.(timestamp := h.tsSec * 1_000_000 + h.tsUsec);
    packet := packet.(length := h.len);
    var available := h.caplen as nat;
    var toCopy := Min(available, SnapBytes);
    packet := packet.(data := bytes[..toCopy]);
    packet := ParsePacket(packet);
  }
}
