/**
 * PacketInfo: what the program records about one frame it has seen, and
 * the hexadecimal preview of its first bytes.
 */
module Packet {
  import opened Bytes

  /**
   * One frame. `timestamp` counts microseconds since the epoch; the
   * system_clock ticks of the program are at least that fine.
   */
  datatype PacketInfo = PacketInfo(
    timestamp: int,
    length: uint32,
    data: seq<byte>,
    // parsed layer info
    etherSrc: string,
    etherDst: string,
    etherTypeStr: string,
    srcIP: string,
    dstIP: string,
    ttl: byte,
    protocol: byte,
    transportProtocol: string,  // "IP", "TCP", "UDP" or "Other" once decoded
    srcPort: uint16,
    dstPort: uint16,
    extraFields: seq<(string, string)>,
    incoming: bool)             // true = received, false = sent

  /** A value-initialised PacketInfo: no data, empty strings, zero numbers, not incoming. */
  function NewPacketInfo(): (p: PacketInfo)
    ensures p.length == 0 && p.data == [] && p.ttl == 0 && p.protocol == 0
    ensures p.srcIP == "" && p.dstIP == "" && p.transportProtocol == ""
    ensures p.etherSrc == "" && p.etherDst == "" && p.etherTypeStr == ""
    ensures p.srcPort == 0 && p.dstPort == 0 && p.extraFields == [] && !p.incoming
  {
    PacketInfo(0, 0, [], "", "", "", "", "", 0, 0, "", 0, 0, [], false)
  }

  // ---------------------------------------------------------------------
  // GetHexPreview
  // ---------------------------------------------------------------------

  /** The number of bytes GetHexPreview shows when no count is given. */
  const DefaultPreviewBytes: nat := 16

  /** One byte of the preview: two lower-case hexadecimal digits, zero-padded, then a space. */
  function HexGroup(b: byte): (g: string)
    ensures |g| == 3 && g[2] == ' '
    ensures IsHexDigit(g[0]) && IsHexDigit(g[1]) && HexValue(g[0]) * 16 + HexValue(g[1]) == b
    ensures !('A' <= g[0] <= 'Z') && !('A' <= g[1] <= 'Z')
  {
    [LowerHexChar(b / 16), LowerHexChar(b % 16), ' ']
  }

  /** The groups of all the bytes of `d`, in order. */
  function HexGroups(d: seq<byte>): (s: string)
    ensures |s| == 3 * |d|
    ensures forall k :: 0 <= k < |d| ==> s[3 * k..3 * k + 3] == HexGroup(d[k])
  {
    if d == [] then []
    else
      var s := HexGroups(d[..|d| - 1]) + HexGroup(d[|d| - 1]);
      assert forall k :: 0 <= k < |d| - 1 ==> s[3 * k..3 * k + 3] == HexGroups(d[..|d| - 1])[3 * k..3 * k + 3];
      s
  }

  /** GetHexPreview: the groups of the first min(maxBytes, |data|) bytes. */
  method GetHexPreview(pkt: PacketInfo, maxBytes: nat := DefaultPreviewBytes) returns (s: string)
    ensures s == HexGroups(pkt.data[..Min(maxBytes, |pkt.data|)])
  {
    var n := Min(maxBytes, |pkt.data|);
    s := [];
    var i := 0;
    while i < n
      invariant i <= n
      invariant s == HexGroups(pkt.data[..i])
    {
      assert pkt.data[..i + 1][..i] == pkt.data[..i];
      s := s + HexGroup(pkt.data[i]);
      i := i + 1;
    }
  }

  /** Each group of the preview reads back as the byte it shows. */
  lemma HexGroupsReadBack(d: seq<byte>, k: nat)
    requires k < |d|
    ensures var s := HexGroups(d);
      IsHexDigit(s[3 * k]) && IsHexDigit(s[3 * k + 1]) && HexValue(s[3 * k]) * 16 + HexValue(s[3 * k + 1]) == d[k] && s[3 * k + 2] == ' '
  {
    var s := HexGroups(d);
    assert s[3 * k..3 * k + 3] == HexGroup(d[k]);
    assert s[3 * k] == HexGroup(d[k])[0] && s[3 * k + 1] == HexGroup(d[k])[1] && s[3 * k + 2] == HexGroup(d[k])[2];
  }

  /** Bytes beyond the first `maxBytes` do not change the preview. */
  lemma PreviewIgnoresLaterBytes(p: PacketInfo, more: seq<byte>, maxBytes: nat)
    requires maxBytes <= |p.data|
    ensures var q := p.(data := p.data + more);
      HexGroups(q.data[..Min(maxBytes, |q.data|)]) == HexGroups(p.data[..Min(maxBytes, |p.data|)])
  {
    assert (p.data + more)[..maxBytes] == p.data[..maxBytes];
  }

  /** The preview of two byte strings one after the other is their previews one after the other. */
  lemma {:induction false} HexGroupsAppend(d: seq<byte>, e: seq<byte>)
    ensures HexGroups(d + e) == HexGroups(d) + HexGroups(e)
    decreases |e|
  {
    if e != [] {
      var e0 := e[..|e| - 1];
      HexGroupsAppend(d, e0);
      assert (d + e)[..|d + e| - 1] == d + e0;
      assert (d + e)[|d + e| - 1] == e[|e| - 1];
      assert HexGroups(d + e) == HexGroups(d + e0) + HexGroup(e[|e| - 1]);
      assert HexGroups(e) == HexGroups(e0) + HexGroup(e[|e| - 1]);
    } else {
      assert d + e == d;
    }
  }

  /** Groups are decoded back one by one: the preview determines the bytes it shows. */
  lemma {:induction false} HexGroupsInjective(d: seq<byte>, e: seq<byte>)
    requires HexGroups(d) == HexGroups(e)
    ensures d == e
  {
    assert |d| == |e|;
    forall k | 0 <= k < |d| ensures d[k] == e[k] {
      HexGroupsReadBack(d, k);
      HexGroupsReadBack(e, k);
    }
  }
}
