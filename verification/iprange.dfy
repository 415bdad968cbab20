/** The `A.B.C.start-end` range argument: parsing it into the ascending
    list of addresses to probe, or into one of three typed errors. */
module IpRange {
  import opened Common
  import opened Strings
  import opened Inet

  /** Why a range argument was refused. */
  datatype ParseError = InvalidFormat | InvalidIp | InvalidRange

  /** The `count` addresses that share `base`'s first three octets and whose
      last octets run upwards from `base`'s, one apart. */
  function Hosts(base: Ipv4, count: nat): (r: seq<Ipv4>)
    requires base.d + count <= 256
    ensures |r| == count
    ensures forall k :: 0 <= k < count ==> r[k] == Ipv4(base.a, base.b, base.c, base.d + k)
  {
    if count == 0 then []
    else Hosts(base, count - 1) + [Ipv4(base.a, base.b, base.c, base.d + count - 1)]
  }

  /** `parse_ip_range`. The text must split on '-' into exactly two parts
      (else InvalidFormat); the first must be a dotted-quad address (else
      InvalidIp); the second must read as a `u8` and be at least the
      address's last octet (else InvalidRange). On success the result runs
      from the address up to `A.B.C.end`, both included. */
  function ParseIpRange(s: string): (r: Result<seq<Ipv4>, ParseError>)
    ensures r == Err(InvalidFormat) <==> |Split(s, '-')| != 2
    ensures r == Err(InvalidIp) <==> |Split(s, '-')| == 2 && ParseIpv4(Split(s, '-')[0]).None?
    ensures r == Err(InvalidRange) <==>
      && |Split(s, '-')| == 2
      && ParseIpv4(Split(s, '-')[0]).Some?
      && (|| ParseByte(Split(s, '-')[1], 10).None?
          || ParseIpv4(Split(s, '-')[0]).value.d > ParseByte(Split(s, '-')[1], 10).value)
    ensures r.Ok? ==>
      var base := ParseIpv4(Split(s, '-')[0]).value;
      var end := ParseByte(Split(s, '-')[1], 10).value;
      && |r.value| == end - base.d + 1
      && forall k :: 0 <= k < |r.value| ==> r.value[k] == Ipv4(base.a, base.b, base.c, base.d + k)
  {
    var parts := Split(s, '-');
    if |parts| != 2 then Err(InvalidFormat)
    else
      match ParseIpv4(parts[0])
      case None => Err(InvalidIp)
      case Some(base) =>
        match ParseByte(parts[1], 10)
        case None => Err(InvalidRange)
        case Some(end) =>
          if base.d > end then Err(InvalidRange)
          else Ok(Hosts(base, end - base.d + 1))
  }

  /** A successful parse lists every address once, in strictly ascending
      order, all inside the base address's /24. */
  lemma ParseIpRangeAscending(s: string, i: int, j: int)
    requires ParseIpRange(s).Ok?
    requires 0 <= i < j < |ParseIpRange(s).value|
    ensures ParseIpRange(s).value[i].d < ParseIpRange(s).value[j].d
    ensures var base := ParseIpv4(Split(s, '-')[0]).value;
      var x := ParseIpRange(s).value[i];
      x.a == base.a && x.b == base.b && x.c == base.c
  {
  }

  /** A text without '-' is a format error, whatever else it holds. */
  lemma NoDashIsFormatError(s: string)
    requires '-' !in s
    ensures ParseIpRange(s) == Err(InvalidFormat)
  {
    SplitWord(s, '-');
  }

  /** The printed form `A.B.C.D-E` splits on '-' into the address text
      and the end octet's text. */
  lemma PrintedRangeSplits(base: Ipv4, end: Octet, s: string)
    requires s == Ipv4Text(base) + "-" + NatText(end)
    ensures Split(s, '-') == [Ipv4Text(base), NatText(end)]
  {
    var parts := [Ipv4Text(base), NatText(end)];
    assert Join(parts, '-') == s;
    assert '-' !in parts[1] by {
      assert AllDigits(parts[1], 10);
    }
    SplitJoin(parts, '-');
  }

  /** Printing a base address and an end octet in the documented form and
      parsing the text gives back the whole ascending range. */
  lemma ParsePrintedRange(base: Ipv4, end: Octet)
    requires base.d <= end
    ensures ParseIpRange(Ipv4Text(base) + "-" + NatText(end)) == Ok(Hosts(base, end - base.d + 1))
  {
    PrintedRangeSplits(base, end, Ipv4Text(base) + "-" + NatText(end));
    ParseIpv4Text(base);
    ParseByteOfText(end);
  }

  lemma Text192()
    ensures NatText(192) == "192" && NatText(168) == "168"
  {
    assert NatText(19) == "19";
    assert NatText(16) == "16";
  }

  /** The documented example: "192.168.1.1-5" is the five addresses
      192.168.1.1 to 192.168.1.5. */
  lemma ExampleRange()
    ensures ParseIpRange("192.168.1.1-5") == Ok(Hosts(Ipv4(192, 168, 1, 1), 5))
    ensures |Hosts(Ipv4(192, 168, 1, 1), 5)| == 5
    ensures Hosts(Ipv4(192, 168, 1, 1), 5)[0] == Ipv4(192, 168, 1, 1)
    ensures Hosts(Ipv4(192, 168, 1, 1), 5)[4] == Ipv4(192, 168, 1, 5)
  {
    var base := Ipv4(192, 168, 1, 1);
    Text192();
    assert Ipv4Text(base) + "-" + NatText(5) == "192.168.1.1-5";
    ParsePrintedRange(base, 5);
  }

  /** The documented refusals: no '-' at all, and a start above the end. */
  lemma ExampleRefusals()
    ensures ParseIpRange("192.168.1.1") == Err(InvalidFormat)
    ensures ParseIpRange("192.168.1.200-50") == Err(InvalidRange)
  {
    NoDashIsFormatError("192.168.1.1");
    var base := Ipv4(192, 168, 1, 200);
    InvertedText();
    RefusedInverted(base, 50, "192.168.1.200-50");
  }

  lemma InvertedText()
    ensures Ipv4Text(Ipv4(192, 168, 1, 200)) + "-" + NatText(50) == "192.168.1.200-50"
  {
    Text192();
    assert NatText(20) == "20";
    assert NatText(200) == "200";
    assert NatText(50) == "50";
  }

  lemma RefusedInverted(base: Ipv4, end: Octet, s: string)
    requires base.d > end
    requires s == Ipv4Text(base) + "-" + NatText(end)
    ensures ParseIpRange(s) == Err(InvalidRange)
  {
    PrintedRangeSplits(base, end, s);
    ParseIpv4Text(base);
    ParseByteOfText(end);
  }
}
