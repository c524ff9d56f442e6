/**
 * Textual addresses: IPv4 addresses in dotted-decimal notation and MAC
 * addresses in colon-separated hexadecimal.
 *
 * The program converts dotted-decimal text with the C library (inet_pton,
 * inet_addr, inet_ntop). Here the conversion is explicit: an address is
 * valid when it is four decimal octets 0..255 without leading zeros,
 * separated by dots (the strings the C library's inet_pton accepts for
 * AF_INET), and an address is printed as inet_ntop prints it.
 */
module Addresses {
  import opened Optional
  import opened Bytes

  // ---------------------------------------------------------------------
  // Decimal octets
  // ---------------------------------------------------------------------

  predicate AllDigits(s: string) {
    forall i :: 0 <= i < |s| ==> IsDigit(s[i])
  }

  /** An octet in decimal, without leading zeros, as inet_ntop prints it. */
  function Decimal(b: byte): (s: string)
    ensures 1 <= |s| <= 3 && AllDigits(s)
    ensures |s| > 1 ==> s[0] != '0'
  {
    if b < 10 then [DigitChar(b)]
    else if b < 100 then [DigitChar(b / 10), DigitChar(b % 10)]
    else [DigitChar(b / 100), DigitChar(b / 10 % 10), DigitChar(b % 10)]
  }

  /**
   * A field that is a decimal octet: one to three digits, no leading zero,
   * at most 255 (inet_pton rejects "01" and "256" alike).
   */
  function ParseOctet(f: string): Option<byte> {
    if |f| == 1 && IsDigit(f[0]) then
      Some(DigitValue(f[0]))
    else if |f| == 2 && IsDigit(f[0]) && IsDigit(f[1]) && f[0] != '0' then
      Some(DigitValue(f[0]) * 10 + DigitValue(f[1]))
    else if |f| == 3 && IsDigit(f[0]) && IsDigit(f[1]) && IsDigit(f[2]) && f[0] != '0'
            && DigitValue(f[0]) * 100 + DigitValue(f[1]) * 10 + DigitValue(f[2]) <= 255 then
      Some(DigitValue(f[0]) * 100 + DigitValue(f[1]) * 10 + DigitValue(f[2]))
    else None
  }

  /** Printing an octet and reading it back gives the octet. */
  lemma ParseOctetOfDecimal(b: byte)
    ensures ParseOctet(Decimal(b)) == Some(b)
  {
  }

  /** A field that reads as an octet is that octet's printed form: only canonical fields are accepted. */
  lemma DecimalOfParseOctet(f: string)
    requires ParseOctet(f).Some?
    ensures Decimal(ParseOctet(f).value) == f
  {
    var v := ParseOctet(f).value;
    if |f| == 2 {
      DecimalDigits(0, DigitValue(f[0]), DigitValue(f[1]));
      assert Decimal(v) == [f[0], f[1]];
    } else if |f| == 3 {
      DecimalDigits(DigitValue(f[0]), DigitValue(f[1]), DigitValue(f[2]));
      assert Decimal(v) == [f[0], f[1], f[2]];
    }
  }

  /** The decimal digits of a number below 1000, recovered by division. */
  lemma DecimalDigits(h: nat, t: nat, u: nat)
    requires h < 10 && t < 10 && u < 10
    ensures (h * 100 + t * 10 + u) / 100 == h
    ensures (h * 100 + t * 10 + u) / 10 % 10 == t
    ensures (h * 100 + t * 10 + u) / 10 == h * 10 + t
    ensures (h * 100 + t * 10 + u) % 10 == u
  {
  }

  // ---------------------------------------------------------------------
  // Dotted-decimal IPv4 addresses
  // ---------------------------------------------------------------------

  predicate NoDot(f: string) {
    forall i :: 0 <= i < |f| ==> f[i] != '.'
  }

  /** The dot-separated fields of `s`: always at least one, none holding a dot. */
  function SplitDots(s: string): (r: seq<string>)
    ensures |r| >= 1
    ensures forall i :: 0 <= i < |r| ==> NoDot(r[i])
  {
    if s == [] then [[]]
    else
      var rest := SplitDots(s[1..]);
      if s[0] == '.' then [[]] + rest else [[s[0]] + rest[0]] + rest[1..]
  }

  /** The fields `f` separated by dots. */
  function JoinDots(f: seq<string>): string
    requires |f| >= 1
  {
    if |f| == 1 then f[0] else f[0] + "." + JoinDots(f[1..])
  }

  /**
   * The four address bytes in network order, or None when `s` is not four
   * dot-separated decimal octets.
   */
  function ParseDottedQuad(s: string): (r: Option<seq<byte>>)
    ensures r.Some? ==> |r.value| == 4
  {
    var f := SplitDots(s);
    if |f| == 4 && ParseOctet(f[0]).Some? && ParseOctet(f[1]).Some?
       && ParseOctet(f[2]).Some? && ParseOctet(f[3]).Some?
    then Some([ParseOctet(f[0]).value, ParseOctet(f[1]).value, ParseOctet(f[2]).value, ParseOctet(f[3]).value])
    else None
  }

  /** The dotted-decimal form of four address bytes, as inet_ntop(AF_INET, ...) prints it. */
  function FormatDottedQuad(a: seq<byte>): string
    requires |a| == 4
  {
    Decimal(a[0]) + "." + Decimal(a[1]) + "." + Decimal(a[2]) + "." + Decimal(a[3])
  }

  /** Joining the fields of `s` gives `s` back. */
  lemma {:induction false} JoinSplitDots(s: string)
    ensures JoinDots(SplitDots(s)) == s
  {
    if s != [] {
      var rest := SplitDots(s[1..]);
      JoinSplitDots(s[1..]);
      if s[0] == '.' {
        assert JoinDots([[]] + rest) == [] + "." + JoinDots(rest) by {
          assert ([[]] + rest)[1..] == rest;
        }
        assert s == [s[0]] + s[1..];
      } else {
        var r := [[s[0]] + rest[0]] + rest[1..];
        if |rest| == 1 {
          assert s == [s[0]] + rest[0];
        } else {
          assert r[1..] == rest[1..];
          assert JoinDots(rest) == rest[0] + "." + JoinDots(rest[1..]);
          assert s == [s[0]] + s[1..];
        }
      }
    }
  }

  /** Splitting a dot-free field followed by more text: the field heads the first piece. */
  lemma {:induction false} SplitDotsPrefix(d: string, t: string)
    requires NoDot(d)
    ensures var r := SplitDots(t);
      SplitDots(d + t) == [d + r[0]] + r[1..]
  {
    if d == [] {
      var r := SplitDots(t);
      assert d + t == t && d + r[0] == r[0];
      assert r == [r[0]] + r[1..];
    } else {
      var s := d + t;
      assert s[0] == d[0] && s[1..] == d[1..] + t;
      SplitDotsPrefix(d[1..], t);
      assert [d[0]] + (d[1..] + SplitDots(t)[0]) == d + SplitDots(t)[0];
    }
  }

  /** Splitting joined dot-free fields gives the fields back. */
  lemma {:induction false} SplitJoinDots(f: seq<string>)
    requires |f| >= 1 && forall i :: 0 <= i < |f| ==> NoDot(f[i])
    ensures SplitDots(JoinDots(f)) == f
  {
    if |f| == 1 {
      SplitDotsPrefix(f[0], []);
      assert f[0] + [] == f[0];
      assert f == [f[0]];
    } else {
      SplitJoinDots(f[1..]);
      var t := JoinDots(f[1..]);
      SplitDotsPrefix(f[0], "." + t);
      assert SplitDots("." + t) == [[]] + SplitDots(t) by {
        assert ("." + t)[1..] == t;
      }
      assert f[0] + "." + t == f[0] + ("." + t);
      assert f[0] + [] == f[0];
      assert [f[0]] + f[1..] == f;
    }
  }

  lemma DecimalNoDot(b: byte)
    ensures NoDot(Decimal(b))
  {
    var d := Decimal(b);
    forall i | 0 <= i < |d| ensures d[i] != '.' {
      assert IsDigit(d[i]);
    }
  }

  lemma FormatIsJoin(a: seq<byte>)
    requires |a| == 4
    ensures FormatDottedQuad(a) == JoinDots([Decimal(a[0]), Decimal(a[1]), Decimal(a[2]), Decimal(a[3])])
  {
    var f := [Decimal(a[0]), Decimal(a[1]), Decimal(a[2]), Decimal(a[3])];
    assert f[1..][1..][1..] == [f[3]];
    assert JoinDots(f[1..][1..]) == f[2] + "." + f[3];
    assert JoinDots(f[1..]) == f[1] + "." + (f[2] + "." + f[3]);
    assert JoinDots(f) == f[0] + "." + (f[1] + "." + (f[2] + "." + f[3]));
    assert f[0] + "." + (f[1] + "." + (f[2] + "." + f[3])) == f[0] + "." + f[1] + "." + f[2] + "." + f[3];
    assert FormatDottedQuad(a) == f[0] + "." + f[1] + "." + f[2] + "." + f[3];
  }

  /** Printing four bytes and parsing the text gives the bytes back. */
  lemma ParseFormat(a: seq<byte>)
    requires |a| == 4
    ensures ParseDottedQuad(FormatDottedQuad(a)) == Some(a)
  {
    var f := [Decimal(a[0]), Decimal(a[1]), Decimal(a[2]), Decimal(a[3])];
    FormatIsJoin(a);
    DecimalNoDot(a[0]); DecimalNoDot(a[1]); DecimalNoDot(a[2]); DecimalNoDot(a[3]);
    SplitJoinDots(f);
    ParseOctetOfDecimal(a[0]); ParseOctetOfDecimal(a[1]);
    ParseOctetOfDecimal(a[2]); ParseOctetOfDecimal(a[3]);
    assert SplitDots(FormatDottedQuad(a)) == f;
    assert [a[0], a[1], a[2], a[3]] == a;
  }

  /** A string that parses is the printed form of what it parses to: valid text is canonical. */
  lemma FormatParse(s: string)
    requires ParseDottedQuad(s).Some?
    ensures FormatDottedQuad(ParseDottedQuad(s).value) == s
  {
    var f := SplitDots(s);
    var a := ParseDottedQuad(s).value;
    JoinSplitDots(s);
    DecimalOfParseOctet(f[0]); DecimalOfParseOctet(f[1]);
    DecimalOfParseOctet(f[2]); DecimalOfParseOctet(f[3]);
    assert [Decimal(a[0]), Decimal(a[1]), Decimal(a[2]), Decimal(a[3])] == f;
    FormatIsJoin(a);
  }

  /** A text parses exactly when it is the printed form of four bytes. */
  lemma QuadTextParses(s: string)
    ensures ParseDottedQuad(s).Some? <==> exists a: seq<byte> :: |a| == 4 && FormatDottedQuad(a) == s
  {
    if ParseDottedQuad(s).Some? {
      FormatParse(s);
      var a := ParseDottedQuad(s).value;
      assert |a| == 4 && FormatDottedQuad(a) == s;
    }
    if a: seq<byte> :| |a| == 4 && FormatDottedQuad(a) == s {
      ParseFormat(a);
    }
  }

  // ---------------------------------------------------------------------
  // MAC addresses as sscanf reads them with "%02x:%02x:%02x:%02x:%02x:%02x"
  // ---------------------------------------------------------------------

  /**
   * One "%02x" conversion at the start of `s`: one or two hexadecimal
   * digits, with the value and the number of characters consumed.
   */
  function ScanHexField(s: string): (r: Option<(byte, nat)>)
    ensures r.Some? ==> 1 <= r.value.1 <= 2 && r.value.1 <= |s|
  {
    if |s| == 0 || !IsHexDigit(s[0]) then None
    else if |s| >= 2 && IsHexDigit(s[1]) then Some((HexValue(s[0]) * 16 + HexValue(s[1]), 2))
    else Some((HexValue(s[0]), 1))
  }

  /**
   * The values of the conversions sscanf completes when it matches at most
   * `n` colon-separated "%02x" fields against `s`; it stops at the first
   * field or colon that does not match, and ignores what follows the last.
   */
  function ScanMacFields(s: string, n: nat): (r: seq<byte>)
    ensures |r| <= n
    decreases n
  {
    if n == 0 then []
    else match ScanHexField(s)
      case None => []
      case Some((v, k)) =>
        if n > 1 && k < |s| && s[k] == ':' then [v] + ScanMacFields(s[k + 1..], n - 1)
        else [v]
  }

  /** The six bytes BuildPacket writes for a MAC string; a field sscanf does not read is taken as 0. */
  function MacBytes(s: string): (r: seq<byte>)
    ensures |r| == 6
    ensures |ScanMacFields(s, 6)| == 6 ==> r == ScanMacFields(s, 6)
  {
    var f := ScanMacFields(s, 6);
    f + seq(6 - |f|, _ => 0)
  }

  /** A byte as "%02X" prints it: two upper-case hexadecimal digits. */
  function HexByte(b: byte): (s: string)
    ensures |s| == 2 && IsHexDigit(s[0]) && IsHexDigit(s[1])
    ensures HexValue(s[0]) * 16 + HexValue(s[1]) == b
    ensures !('a' <= s[0] <= 'z') && !('a' <= s[1] <= 'z')
  {
    [UpperHexChar(b / 16), UpperHexChar(b % 16)]
  }

  /** The bytes of `m` printed with "%02X" and separated by colons. */
  function MacFieldsText(m: seq<byte>): (s: string)
    requires |m| >= 1
    ensures |s| == 3 * |m| - 1
  {
    if |m| == 1 then HexByte(m[0]) else HexByte(m[0]) + ":" + MacFieldsText(m[1..])
  }

  /** A MAC address as "%02X:%02X:%02X:%02X:%02X:%02X" prints it: six two-digit fields and five colons. */
  function MacText(m: seq<byte>): (s: string)
    requires |m| == 6
    ensures |s| == 17
    ensures s == HexByte(m[0]) + ":" + HexByte(m[1]) + ":" + HexByte(m[2]) + ":"
                 + HexByte(m[3]) + ":" + HexByte(m[4]) + ":" + HexByte(m[5])
  {
    SixFieldsText(m);
    MacFieldsText(m)
  }

  /** MacFieldsText of six bytes written out field by field. */
  lemma SixFieldsText(m: seq<byte>)
    requires |m| == 6
    ensures MacFieldsText(m) == HexByte(m[0]) + ":" + HexByte(m[1]) + ":" + HexByte(m[2]) + ":"
                                + HexByte(m[3]) + ":" + HexByte(m[4]) + ":" + HexByte(m[5])
  {
    var m1, m2, m3, m4, m5 := m[1..], m[2..], m[3..], m[4..], m[5..];
    assert m1[1..] == m2 && m2[1..] == m3 && m3[1..] == m4 && m4[1..] == m5 && m5 == [m[5]];
    var t5 := HexByte(m[5]);
    var t4 := HexByte(m[4]) + ":" + t5;
    var t3 := HexByte(m[3]) + ":" + t4;
    var t2 := HexByte(m[2]) + ":" + t3;
    var t1 := HexByte(m[1]) + ":" + t2;
    assert MacFieldsText(m5) == t5;
    assert MacFieldsText(m4) == t4;
    assert MacFieldsText(m3) == t3;
    assert MacFieldsText(m2) == t2;
    assert MacFieldsText(m1) == t1;
    assert MacFieldsText(m) == HexByte(m[0]) + ":" + t1;
  }

  /** sscanf reads back every field of colon-separated "%02X" text, whatever follows it. */
  lemma {:induction false} ScanMacFieldsText(m: seq<byte>, t: string)
    requires |m| >= 1
    ensures ScanMacFields(MacFieldsText(m) + t, |m|) == m
  {
    var s := MacFieldsText(m) + t;
    var h := HexByte(m[0]);
    assert s[..2] == h;
    assert ScanHexField(s) == Some((m[0], 2));
    if |m| > 1 {
      var rest := MacFieldsText(m[1..]);
      assert s == h + ":" + (rest + t);
      assert s[3..] == rest + t;
      ScanMacFieldsText(m[1..], t);
      assert ScanMacFields(s, |m|) == [m[0]] + m[1..];
    }
  }

  /** A MAC address printed by MacText scans back to its six bytes. */
  lemma ScanMacText(m: seq<byte>)
    requires |m| == 6
    ensures ScanMacFields(MacText(m), 6) == m
    ensures MacBytes(MacText(m)) == m
  {
    ScanMacFieldsText(m, "");
    assert MacText(m) + "" == MacText(m);
  }

  // ---------------------------------------------------------------------
  // The texts sscanf accepts as a MAC address
  // ---------------------------------------------------------------------

  /** A field "%02x" can read in full: one or two hexadecimal digits. */
  predicate HexField(t: string) {
    1 <= |t| <= 2 && forall i :: 0 <= i < |t| ==> IsHexDigit(t[i])
  }

  /** The value of such a field. */
  function FieldValue(t: string): (v: byte)
    requires HexField(t)
    ensures |t| == 1 ==> v == HexValue(t[0])
  {
    if |t| == 1 then HexValue(t[0]) else HexValue(t[0]) * 16 + HexValue(t[1])
  }

  /** Fields separated by colons. */
  function JoinColons(f: seq<string>): (s: string)
    requires |f| >= 1
    ensures f[0] <= s
  {
    if |f| == 1 then f[0] else f[0] + ":" + JoinColons(f[1..])
  }

  /**
   * When sscanf completes `n` conversions, the text starts with `n`
   * colon-separated fields of one or two hex digits, and the values read
   * are those fields' values.
   */
  lemma {:induction false} ScannedFields(s: string, n: nat) returns (f: seq<string>)
    requires n >= 1 && |ScanMacFields(s, n)| == n
    ensures |f| == n && (forall i :: 0 <= i < n ==> HexField(f[i])) && JoinColons(f) <= s
    ensures forall i :: 0 <= i < n ==> ScanMacFields(s, n)[i] == FieldValue(f[i])
  {
    var k := ScanHexField(s).value.1;
    var f0 := s[..k];
    assert HexField(f0);
    if n == 1 {
      f := [f0];
    } else {
      var rest := s[k + 1..];
      var g := ScannedFields(rest, n - 1);
      f := [f0] + g;
      assert f[1..] == g;
      assert s == f0 + ":" + rest;
      assert JoinColons(f) == f0 + ":" + JoinColons(g);
    }
  }

  /**
   * Conversely, sscanf completes `|f|` conversions on any text that starts
   * with the colon-separated fields `f` of one or two hex digits, whatever
   * follows them.
   */
  lemma {:induction false} FieldsScan(s: string, f: seq<string>)
    requires |f| >= 1 && (forall i :: 0 <= i < |f| ==> HexField(f[i])) && JoinColons(f) <= s
    ensures |ScanMacFields(s, |f|)| == |f|
  {
    var n := |f|;
    var f0 := f[0];
    assert s[0] == f0[0];
    if n > 1 {
      var j := JoinColons(f);
      assert j == f0 + ":" + JoinColons(f[1..]);
      var k := |f0|;
      assert s[k] == j[k] == ':';
      if k == 2 {
        assert s[1] == f0[1];
      }
      assert ScanHexField(s).value.1 == k;
      var rest := s[k + 1..];
      assert JoinColons(f[1..]) <= rest by {
        assert j[k + 1..] == JoinColons(f[1..]);
      }
      FieldsScan(rest, f[1..]);
    }
  }
}
