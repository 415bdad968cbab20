/** Textual forms of link- and network-layer addresses: `std::net::Ipv4Addr`
    parsing (`from_str`) and display, pnet's `MacAddr` display, and the
    MAC normalisation shared by the vendor lookup and the manual mapping
    loader. */
module Inet {
  import opened Common
  import opened Strings

  type Octet = x: int | 0 <= x < 256

  /** `std::net::Ipv4Addr`: four octets, most significant first. */
  datatype Ipv4 = Ipv4(a: Octet, b: Octet, c: Octet, d: Octet)

  /** One dotted-quad field as `Ipv4Addr::from_str` accepts it: one to
      three decimal digits, no leading zero unless the field is "0", and a
      value that fits an octet. */
  predicate IsOctetText(p: string)
  {
    1 <= |p| <= 3 && AllDigits(p, 10) && (p[0] == '0' ==> |p| == 1) && DigitsValue(p, 10) < 256
  }

  /** `Ipv4Addr`'s `Display`: the four octets in decimal, joined by dots. */
  function Ipv4Text(ip: Ipv4): (r: string)
    ensures forall i :: 0 <= i < |r| ==> r[i] == '.' || IsDecimalDigit(r[i])
  {
    NatText(ip.a) + "." + NatText(ip.b) + "." + NatText(ip.c) + "." + NatText(ip.d)
  }

  /** The four fields of an address's display form. */
  function OctetTexts(ip: Ipv4): seq<string>
  {
    [NatText(ip.a), NatText(ip.b), NatText(ip.c), NatText(ip.d)]
  }

  lemma Ipv4TextIsJoin(ip: Ipv4)
    ensures Ipv4Text(ip) == Join(OctetTexts(ip), '.')
  {
    var t := OctetTexts(ip);
    assert t[1..][1..][1..] == [t[3]];
    assert t[1..][1..] == [t[2], t[3]];
    assert t[1..] == [t[1], t[2], t[3]];
    assert Join(t[1..][1..], '.') == t[2] + "." + t[3];
    assert Join(t[1..], '.') == t[1] + "." + (t[2] + "." + t[3]);
    assert Join(t, '.') == t[0] + "." + (t[1] + "." + (t[2] + "." + t[3]));
  }

  /** `Ipv4Addr::from_str`: exactly four dot-separated fields, each a
      canonical decimal octet. An accepted string is always the display
      form of the address it denotes, so display inverts parsing. */
  function ParseIpv4(s: string): (r: Option<Ipv4>)
    ensures r.Some? <==> |Split(s, '.')| == 4 && forall i :: 0 <= i < 4 ==> IsOctetText(Split(s, '.')[i])
    ensures r.Some? ==> Ipv4Text(r.value) == s
  {
    var p := Split(s, '.');
    if |p| == 4 && IsOctetText(p[0]) && IsOctetText(p[1]) && IsOctetText(p[2]) && IsOctetText(p[3]) then
      var ip := QuadOf(p);
      QuadOfIsCanonical(s, p);
      Some(ip)
    else
      None
  }

  /** The address four octet fields denote. */
  function QuadOf(p: seq<string>): Ipv4
    requires |p| == 4 && forall i :: 0 <= i < 4 ==> IsOctetText(p[i])
  {
    assert IsOctetText(p[0]) && IsOctetText(p[1]) && IsOctetText(p[2]) && IsOctetText(p[3]);
    Ipv4(DigitsValue(p[0], 10), DigitsValue(p[1], 10), DigitsValue(p[2], 10), DigitsValue(p[3], 10))
  }

  lemma QuadOfIsCanonical(s: string, p: seq<string>)
    requires p == Split(s, '.')
    requires |p| == 4 && forall i :: 0 <= i < 4 ==> IsOctetText(p[i])
    ensures Ipv4Text(QuadOf(p)) == s
  {
    var ip := QuadOf(p);
    forall i | 0 <= i < 4 ensures OctetTexts(ip)[i] == p[i] {
      NatTextOfDigits(p[i]);
    }
    Ipv4TextIsJoin(ip);
    assert OctetTexts(ip) == p;
  }

  /** Parsing inverts display. */
  lemma ParseIpv4Text(ip: Ipv4)
    ensures ParseIpv4(Ipv4Text(ip)) == Some(ip)
  {
    var t := OctetTexts(ip);
    Ipv4TextIsJoin(ip);
    forall i | 0 <= i < 4 ensures '.' !in t[i] {
      assert AllDigits(t[i], 10);
    }
    SplitJoin(t, '.');
    NatTextOfDigits(t[0]);
  }

  // ---------------------------------------------------------------------
  // MAC addresses
  // ---------------------------------------------------------------------

  /** A hardware address as six octets (pnet's `MacAddr`). */
  predicate IsMacBytes(m: seq<Octet>) { |m| == 6 }

  /** The lower-case hexadecimal digit of `n`. */
  function HexChar(n: nat): (c: char)
    requires n < 16
    ensures IsDigitOf(c, 16) && DigitValue(c) == n && c != ':'
  {
    if n < 10 then ('0' as int + n) as char else ('a' as int + n - 10) as char
  }

  /** `{:02x}` of one octet: two lower-case hexadecimal digits. */
  function OctetHex(b: Octet): (r: string)
    ensures |r| == 2 && AllDigits(r, 16) && ':' !in r
    ensures DigitsValue(r, 16) == b
  {
    var r := [HexChar(b / 16), HexChar(b % 16)];
    assert r[..1] == [HexChar(b / 16)];
    assert [HexChar(b / 16)][..0] == [];
    assert DigitsValue(r[..1], 16) == b / 16;
    r
  }

  /** The six two-digit fields of a hardware address's display form. */
  function MacFields(m: seq<Octet>): (r: seq<string>)
    requires IsMacBytes(m)
    ensures |r| == 6 && forall i :: 0 <= i < 6 ==> r[i] == OctetHex(m[i])
  {
    seq(6, i requires 0 <= i < 6 => OctetHex(m[i]))
  }

  /** `MacAddr`'s `Display`: six lower-case two-digit hexadecimal fields
      joined by colons. The display form determines the address. */
  function MacText(m: seq<Octet>): (r: string)
    requires IsMacBytes(m)
    ensures Split(r, ':') == MacFields(m)
  {
    var f := MacFields(m);
    SplitJoin(f, ':');
    Join(f, ':')
  }

  /** Two hardware addresses display alike only when they are equal. */
  lemma MacTextInjective(m1: seq<Octet>, m2: seq<Octet>)
    requires IsMacBytes(m1) && IsMacBytes(m2)
    requires MacText(m1) == MacText(m2)
    ensures m1 == m2
  {
    forall i | 0 <= i < 6 ensures m1[i] == m2[i] {
      assert MacFields(m1)[i] == MacFields(m2)[i];
    }
  }

  /** One character of a normalised MAC string. */
  function MacChar(c: char): char
  {
    if c == '-' then ':' else UpperChar(c)
  }

  /** `to_uppercase().replace("-", ":")`, as both the vendor lookup and
      `normalize_mac` write it: same length, every character normalised
      on its own, no '-' and no lower-case ASCII letter left. */
  function NormalizeMac(mac: string): (r: string)
    ensures |r| == |mac|
    ensures forall i :: 0 <= i < |mac| ==> r[i] == MacChar(mac[i])
    ensures '-' !in r
    ensures forall i :: 0 <= i < |r| ==> !IsAsciiLower(r[i])
  {
    ReplaceChar(ToUpper(mac), '-', ':')
  }

  /** Normalising twice is normalising once. */
  lemma NormalizeMacIdempotent(mac: string)
    ensures NormalizeMac(NormalizeMac(mac)) == NormalizeMac(mac)
  {
  }

  /** Two strings normalise alike exactly when they agree up to ASCII
      letter case and the choice of '-' or ':' at each position. */
  lemma NormalizeMacEqual(m1: string, m2: string)
    ensures NormalizeMac(m1) == NormalizeMac(m2)
        <==> |m1| == |m2| && forall i :: 0 <= i < |m1| ==> MacChar(m1[i]) == MacChar(m2[i])
  {
    if |m1| == |m2| && forall i :: 0 <= i < |m1| ==> MacChar(m1[i]) == MacChar(m2[i]) {
      assert NormalizeMac(m1) == NormalizeMac(m2);
    }
    if NormalizeMac(m1) == NormalizeMac(m2) {
      forall i | 0 <= i < |m1| ensures MacChar(m1[i]) == MacChar(m2[i]) {
        assert NormalizeMac(m1)[i] == NormalizeMac(m2)[i];
      }
    }
  }
}
