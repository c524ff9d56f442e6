/**
 * The Internet checksum, the one primitive behind the IPv4 header checksum
 * (RFC 791 section 3.1), the TCP and UDP checksums (RFC 793 section 3.1,
 * RFC 768) and the ICMP checksum (RFC 792): the one's complement of the
 * one's-complement sum of the buffer's 16-bit words. CalculateChecksum sums
 * the whole words only (the unpadded checksum); RFC 1071 pads an odd
 * trailing byte with a zero byte (the padded checksum, at the end of this
 * module). The two agree on buffers of even length.
 */
module Checksum {
  import opened Bytes

  datatype ByteOrder = BigEndian | LittleEndian

  /** The k-th 16-bit word of `buf`, read in the given byte order. */
  function Word(buf: seq<byte>, k: nat, order: ByteOrder): uint16
    requires 2 * k + 2 <= |buf|
  {
    match order
    case BigEndian => buf[2 * k] as int * 0x100 + buf[2 * k + 1]
    case LittleEndian => buf[2 * k + 1] as int * 0x100 + buf[2 * k]
  }

  /** One's-complement addition: add, then fold the carry out of bit 15 back into bit 0. */
  function OnesAdd(a: uint16, b: uint16): uint16 {
    if a as int + b > 0xFFFF then a as int + b - 0xFFFF else a as int + b
  }

  /** The one's-complement sum of the first `n` words of `buf`, added in order. */
  function OnesSum(buf: seq<byte>, n: nat, order: ByteOrder): uint16
    requires 2 * n <= |buf|
  {
    if n == 0 then 0 else OnesAdd(OnesSum(buf, n - 1, order), Word(buf, n - 1, order))
  }

  /**
   * The unpadded checksum: the complement of the one's-complement sum of the
   * |buf| / 2 whole words of `buf` in network order. A trailing odd byte
   * takes no part, as in CalculateChecksum; RFC 1071 would pad it with a
   * zero byte instead (see PaddedChecksum).
   */
  function InternetChecksum(buf: seq<byte>): uint16 {
    0xFFFF - OnesSum(buf, |buf| / 2, BigEndian)
  }

  /**
   * The `uint16_t` CalculateChecksum returns on a little-endian host, where it
   * reads the buffer as native words.
   */
  function HostChecksum(buf: seq<byte>): uint16 {
    0xFFFF - OnesSum(buf, |buf| / 2, LittleEndian)
  }

  /**
   * CalculateChecksum: folds `len / 2` native words into a 32-bit sum,
   * wrapping the carry back in as soon as one appears, and returns the
   * complement truncated to 16 bits. The buffer's length is `len`.
   */
  method CalculateChecksum(buf: seq<byte>) returns (check: uint16)
    ensures check == HostChecksum(buf)
  {
    var sum: int := 0;
    var count := |buf| / 2;
    var k := 0;
    while k < count
      invariant 0 <= k <= count
      invariant 0 <= sum <= 0xFFFF
      invariant sum == OnesSum(buf, k, LittleEndian)
    {
      sum := sum + (buf[2 * k + 1] as int * 0x100 + buf[2 * k]);
      if sum >= 0x1_0000 {
        sum := sum % 0x1_0000;
        sum := sum + 1;
      }
      k := k + 1;
    }
    check := 0xFFFF - sum;
  }

  // ---------------------------------------------------------------------
  // Byte-order independence (RFC 1071 section 2(B))
  // ---------------------------------------------------------------------

  /** The 16-bit value with its two bytes exchanged. */
  function Swap(x: uint16): uint16 {
    (x % 0x100) * 0x100 + x / 0x100
  }

  lemma SwapOfBytes(h: byte, l: byte)
    ensures Swap(h * 0x100 + l) == l * 0x100 + h
  {
    var x := h * 0x100 + l;
    assert x / 0x100 == h;
    assert x % 0x100 == l;
  }

  /** Exchanging the bytes of both addends exchanges the bytes of their one's-complement sum. */
  lemma SwapOnesAdd(a: uint16, b: uint16)
    ensures Swap(OnesAdd(a, b)) == OnesAdd(Swap(a), Swap(b))
  {
    var ah, al, bh, bl := a / 0x100, a % 0x100, b / 0x100, b % 0x100;
    assert a == ah * 0x100 + al && b == bh * 0x100 + bl;
    SwapOfBytes(ah, al);
    SwapOfBytes(bh, bl);
    var lo, hi := al + bl, ah + bh;
    var r := OnesAdd(a, b);
    if lo < 0x100 && hi < 0x100 {
      SwapOfBytes(hi, lo);
    } else if lo >= 0x100 && hi < 0xFF {
      assert r == (hi + 1) * 0x100 + (lo - 0x100);
      SwapOfBytes(hi + 1, lo - 0x100);
    } else if lo >= 0x100 && hi >= 0xFF {
      assert r == (hi - 0xFF) * 0x100 + (lo - 0xFF);
      SwapOfBytes(hi - 0xFF, lo - 0xFF);
    } else if lo < 0xFF {
      assert r == (hi - 0x100) * 0x100 + lo + 1;
      SwapOfBytes(hi - 0x100, lo + 1);
    } else {
      assert r == (hi - 0xFF) * 0x100;
      SwapOfBytes(hi - 0xFF, 0);
    }
  }

  lemma {:induction false} OnesSumByteOrder(buf: seq<byte>, n: nat)
    requires 2 * n <= |buf|
    ensures OnesSum(buf, n, LittleEndian) == Swap(OnesSum(buf, n, BigEndian))
  {
    if n > 0 {
      OnesSumByteOrder(buf, n - 1);
      SwapOfBytes(buf[2 * (n - 1)], buf[2 * (n - 1) + 1]);
      SwapOnesAdd(OnesSum(buf, n - 1, BigEndian), Word(buf, n - 1, BigEndian));
    }
  }

  /**
   * What CalculateChecksum returns, stored as a native `uint16_t` on a
   * little-endian host, is the unpadded checksum in network byte order.
   */
  lemma HostChecksumIsNetworkChecksum(buf: seq<byte>)
    ensures LE16(HostChecksum(buf)) == BE16(InternetChecksum(buf))
  {
    OnesSumByteOrder(buf, |buf| / 2);
    ComplementOfSwap(OnesSum(buf, |buf| / 2, BigEndian));
  }

  /** Complementing a byte-swapped sum and storing it little-endian gives the complement big-endian. */
  lemma ComplementOfSwap(x: uint16)
    ensures LE16(0xFFFF - Swap(x)) == BE16(0xFFFF - x)
  {
    var xh, xl := x / 0x100, x % 0x100;
    assert x == xh * 0x100 + xl;
    assert 0xFFFF - Swap(x) == (0xFF - xl) * 0x100 + (0xFF - xh);
    assert 0xFFFF - x == (0xFF - xh) * 0x100 + (0xFF - xl);
  }

  // ---------------------------------------------------------------------
  // A trailing odd byte is not summed
  // ---------------------------------------------------------------------

  lemma {:induction false} OnesSumPrefix(buf: seq<byte>, more: seq<byte>, n: nat, order: ByteOrder)
    requires 2 * n <= |buf|
    ensures OnesSum(buf + more, n, order) == OnesSum(buf, n, order)
  {
    if n > 0 {
      OnesSumPrefix(buf, more, n - 1, order);
      assert Word(buf + more, n - 1, order) == Word(buf, n - 1, order);
    }
  }

  /** Appending one byte to an even-length buffer changes neither checksum. */
  lemma OddTrailingByteIgnored(buf: seq<byte>, b: byte)
    requires |buf| % 2 == 0
    ensures InternetChecksum(buf + [b]) == InternetChecksum(buf)
    ensures HostChecksum(buf + [b]) == HostChecksum(buf)
  {
    assert |buf + [b]| / 2 == |buf| / 2;
    OnesSumPrefix(buf, [b], |buf| / 2, BigEndian);
    OnesSumPrefix(buf, [b], |buf| / 2, LittleEndian);
  }

  // ---------------------------------------------------------------------
  // Verification at the receiver, over whole words (RFC 1071 section 1)
  // ---------------------------------------------------------------------

  /** The ordinary integer sum of the first `n` words. */
  function PlainSum(buf: seq<byte>, n: nat): nat
    requires 2 * n <= |buf|
  {
    if n == 0 then 0 else PlainSum(buf, n - 1) + Word(buf, n - 1, BigEndian)
  }

  /** How many times the fold of OnesSum(buf, n, BigEndian) wrapped a carry around. */
  function Carries(buf: seq<byte>, n: nat): nat
    requires 2 * n <= |buf|
  {
    if n == 0 then 0
    else Carries(buf, n - 1)
         + (if OnesSum(buf, n - 1, BigEndian) as int + Word(buf, n - 1, BigEndian) > 0xFFFF then 1 else 0)
  }

  /**
   * The one's-complement sum differs from the plain sum by a multiple of
   * 0xFFFF, and is zero only when the plain sum is.
   */
  lemma {:induction false} OnesSumIsPlainSumModulo(buf: seq<byte>, n: nat)
    requires 2 * n <= |buf|
    ensures PlainSum(buf, n) == OnesSum(buf, n, BigEndian) + Carries(buf, n) * 0xFFFF
    ensures OnesSum(buf, n, BigEndian) == 0 <==> PlainSum(buf, n) == 0
  {
    if n > 0 {
      OnesSumIsPlainSumModulo(buf, n - 1);
    }
  }

  /** Replacing the zero word `k` by `v` raises the plain sum of every longer prefix by `v`. */
  lemma {:induction false} PlainSumStore(buf: seq<byte>, k: nat, v: uint16, n: nat)
    requires 2 * k + 2 <= |buf| && buf[2 * k] == 0 && buf[2 * k + 1] == 0
    requires 2 * n <= |buf|
    ensures var stored := buf[..2 * k] + BE16(v) + buf[2 * k + 2..];
      PlainSum(stored, n) == PlainSum(buf, n) + (if k < n then v else 0)
  {
    var stored := buf[..2 * k] + BE16(v) + buf[2 * k + 2..];
    assert |stored| == |buf|;
    if n > 0 {
      PlainSumStore(buf, k, v, n - 1);
      if n - 1 == k {
        assert stored[2 * k] == BE16(v)[0] && stored[2 * k + 1] == BE16(v)[1];
        assert Word(stored, n - 1, BigEndian) == v;
      } else {
        assert stored[2 * (n - 1)] == buf[2 * (n - 1)];
        assert stored[2 * (n - 1) + 1] == buf[2 * (n - 1) + 1];
      }
    }
  }

  /**
   * Storing the unpadded checksum over a buffer whose checksum field (word
   * `k`) is zero makes the one's-complement sum of its whole words 0xFFFF.
   * For an even-length buffer this is the receiver's check of RFC 1071
   * section 1.
   */
  lemma ChecksumVerifies(buf: seq<byte>, k: nat, stored: seq<byte>)
    requires 2 * k + 2 <= |buf| && buf[2 * k] == 0 && buf[2 * k + 1] == 0
    requires stored == buf[..2 * k] + BE16(InternetChecksum(buf)) + buf[2 * k + 2..]
    ensures OnesSum(stored, |stored| / 2, BigEndian) == 0xFFFF
  {
    var c := InternetChecksum(buf);
    var n := |buf| / 2;
    assert |stored| / 2 == n;
    OnesSumIsPlainSumModulo(buf, n);
    OnesSumIsPlainSumModulo(stored, n);
    PlainSumStore(buf, k, c, n);
    var r := OnesSum(stored, n, BigEndian);
    assert PlainSum(stored, n) == (Carries(buf, n) + 1) * 0xFFFF;
    assert r == (Carries(buf, n) + 1 - Carries(stored, n)) * 0xFFFF;
  }

  // ---------------------------------------------------------------------
  // The receiver of RFC 1071, which pads an odd buffer with a zero byte
  // ---------------------------------------------------------------------

  /** The buffer as RFC 1071 section 4.1 sums it: an odd trailing byte is padded with a zero byte. */
  function Padded(buf: seq<byte>): (r: seq<byte>)
    ensures |r| % 2 == 0 && buf <= r && |r| <= |buf| + 1
  {
    if |buf| % 2 == 1 then buf + [0] else buf
  }

  /** The one's-complement sum an RFC 1071 receiver computes over a buffer; 0xFFFF means it verifies. */
  function ReceiverSum(buf: seq<byte>): uint16 {
    var q := Padded(buf);
    OnesSum(q, |q| / 2, BigEndian)
  }

  /** The checksum as RFC 1071 defines it: over the padded buffer. */
  function PaddedChecksum(buf: seq<byte>): uint16 {
    0xFFFF - ReceiverSum(buf)
  }

  /** On an even-length buffer the unpadded checksum and the receiver agree with RFC 1071. */
  lemma EvenBufferPadded(buf: seq<byte>)
    requires |buf| % 2 == 0
    ensures PaddedChecksum(buf) == InternetChecksum(buf)
    ensures ReceiverSum(buf) == OnesSum(buf, |buf| / 2, BigEndian)
  {
    assert Padded(buf) == buf;
  }

  /**
   * Storing the padded checksum over a buffer whose checksum field (word
   * `k`) is zero makes the buffer pass the RFC 1071 receiver, whatever the
   * parity of its length.
   */
  lemma PaddedChecksumVerifies(buf: seq<byte>, k: nat, stored: seq<byte>)
    requires 2 * k + 2 <= |buf| && buf[2 * k] == 0 && buf[2 * k + 1] == 0
    requires stored == buf[..2 * k] + BE16(PaddedChecksum(buf)) + buf[2 * k + 2..]
    ensures ReceiverSum(stored) == 0xFFFF
  {
    var q := Padded(buf);
    assert PaddedChecksum(buf) == InternetChecksum(q);
    assert Padded(stored) == q[..2 * k] + BE16(InternetChecksum(q)) + q[2 * k + 2..];
    ChecksumVerifies(q, k, Padded(stored));
  }

  /**
   * A buffer of odd length whose whole words sum to 0xFFFF, and whose last
   * byte is not zero, fails the RFC 1071 receiver: padding adds the word
   * `last * 0x100`, which is all the receiver's sum then holds.
   */
  lemma OddByteFailsReceiver(buf: seq<byte>)
    requires |buf| % 2 == 1 && buf[|buf| - 1] != 0
    requires OnesSum(buf, |buf| / 2, BigEndian) == 0xFFFF
    ensures ReceiverSum(buf) == buf[|buf| - 1] as int * 0x100
    ensures ReceiverSum(buf) != 0xFFFF
  {
    var n := |buf| / 2;
    var b := buf[|buf| - 1];
    var x := buf[..|buf| - 1];
    assert buf == x + [b];
    assert Padded(buf) == x + [b, 0];
    OnesSumPrefix(x, [b], n, BigEndian);
    OnesSumPrefix(x, [b, 0], n, BigEndian);
    assert Word(x + [b, 0], n, BigEndian) == b as int * 0x100;
  }

  /**
   * The checksum as CalculateChecksum computes it, stored in the zero field
   * of an even buffer followed by one more byte `b` that is not zero, fails
   * the RFC 1071 receiver: the odd byte is left out of the sum the sender
   * stores, and counted by the receiver.
   */
  lemma UnpaddedChecksumFailsReceiver(buf: seq<byte>, k: nat, b: byte, stored: seq<byte>)
    requires |buf| % 2 == 0 && 2 * k + 2 <= |buf| && buf[2 * k] == 0 && buf[2 * k + 1] == 0
    requires b != 0
    requires stored == buf[..2 * k] + BE16(InternetChecksum(buf + [b])) + buf[2 * k + 2..] + [b]
    ensures ReceiverSum(stored) != 0xFFFF
  {
    OddTrailingByteIgnored(buf, b);
    var even := buf[..2 * k] + BE16(InternetChecksum(buf)) + buf[2 * k + 2..];
    ChecksumVerifies(buf, k, even);
    assert stored == even + [b];
    OnesSumPrefix(even, [b], |even| / 2, BigEndian);
    OddByteFailsReceiver(stored);
  }
}
