/** The pure helpers of the Proxmox integration: reading the hardware
    address out of a container's `netN` configuration string, normalising
    a MAC address, and building the manual IP → real-MAC mapping. */
module Proxmox {
  import opened Common
  import opened Strings
  import opened Inet

  /** One entry of the manual mapping file. */
  datatype MacMapping = MacMapping(ip: string, realMac: string, description: Option<string>)

  /** A comma-part of a network configuration string that names the
      hardware address: it splits on '=' into exactly two pieces and the
      trimmed key is "hwaddr". */
  predicate IsHwaddrPart(part: string)
  {
    var kv := Split(part, '=');
    |kv| == 2 && Trim(kv[0]) == "hwaddr"
  }

  /** The trimmed value of a hardware-address part. */
  function HwaddrValue(part: string): string
    requires IsHwaddrPart(part)
  {
    Trim(Split(part, '=')[1])
  }

  /** Part `i` is the first hardware-address part. */
  predicate IsFirstHwaddr(parts: seq<string>, i: int)
  {
    0 <= i < |parts| && IsHwaddrPart(parts[i]) && forall j :: 0 <= j < i ==> !IsHwaddrPart(parts[j])
  }

  /** `v` is the value of the first hardware-address part. */
  predicate FirstHwaddrIs(parts: seq<string>, v: string)
  {
    exists i :: 0 <= i < |parts| && IsFirstHwaddr(parts, i) && v == HwaddrValue(parts[i])
  }

  /** The position of the first element satisfying `p`, scanning front
      to back; None when no element does. */
  function FirstWhere<T>(xs: seq<T>, p: T -> bool): (r: Option<nat>)
    ensures r.None? <==> forall i :: 0 <= i < |xs| ==> !p(xs[i])
    ensures r.Some? ==> r.value < |xs| && p(xs[r.value])
    ensures r.Some? ==> forall j :: 0 <= j < r.value ==> !p(xs[j])
  {
    if |xs| == 0 then None
    else if p(xs[0]) then Some(0)
    else
      assert forall i :: 1 <= i < |xs| ==> xs[i] == xs[1..][i - 1];
      match FirstWhere(xs[1..], p)
      case None => None
      case Some(i) => Some(i + 1)
  }

  /** The scan over the comma-parts, front to back, stopping at the first
      hardware-address part. */
  function FirstHwaddr(parts: seq<string>): (r: Option<string>)
    ensures r.None? <==> forall i :: 0 <= i < |parts| ==> !IsHwaddrPart(parts[i])
    ensures r.Some? ==> FirstHwaddrIs(parts, r.value)
  {
    match FirstWhere(parts, IsHwaddrPart)
    case None => None
    case Some(i) =>
      assert IsFirstHwaddr(parts, i);
      Some(HwaddrValue(parts[i]))
  }

  /** The comma-separated parts of a network configuration string. */
  function ConfigParts(config: string): seq<string>
  {
    Split(config, ',')
  }

  /** `parse_hwaddr_from_config`: the trimmed value of the first
      comma-separated part that is `hwaddr=<value>`; None when there is
      none. A part with more than one '=' never counts. */
  function ParseHwaddr(config: string): (r: Option<string>)
    ensures r.None? <==> forall i :: 0 <= i < |ConfigParts(config)| ==> !IsHwaddrPart(ConfigParts(config)[i])
    ensures r.Some? ==> FirstHwaddrIs(ConfigParts(config), r.value)
  {
    FirstHwaddr(ConfigParts(config))
  }

  /** Whatever string has a given first hardware-address part, the parse
      returns that part's value. */
  lemma ParseHwaddrOfFirst(config: string, k: int)
    requires IsFirstHwaddr(ConfigParts(config), k)
    ensures ParseHwaddr(config) == Some(HwaddrValue(ConfigParts(config)[k]))
  {
    var parts := ConfigParts(config);
    var r := ParseHwaddr(config);
    var i :| IsFirstHwaddr(parts, i) && r.value == HwaddrValue(parts[i]);
  }

  /** A `key=value` text with no other '=' splits into its key and value. */
  lemma KeyValueSplit(k: string, v: string)
    requires '=' !in k && '=' !in v
    ensures Split(k + "=" + v, '=') == [k, v]
  {
    SplitAfterWord(k, v, '=');
    SplitWord(v, '=');
  }

  /** A string with no whitespace at either end. */
  predicate IsTrimmed(s: string)
  {
    |s| > 0 ==> !IsWhitespace(s[0]) && !IsWhitespace(s[|s| - 1])
  }

  /** A `key=value` part whose trimmed key is not "hwaddr" is passed over. */
  lemma OtherKeyNotHwaddr(k: string, v: string)
    requires '=' !in k && '=' !in v && IsTrimmed(k) && k != "hwaddr"
    ensures !IsHwaddrPart(k + "=" + v)
  {
    KeyValueSplit(k, v);
    TrimNoOp(k);
  }

  lemma HwaddrKey(k: string)
    requires k == "hwaddr"
    ensures k + "=" == "hwaddr="
    ensures '=' !in k && IsTrimmed(k)
  {
  }

  /** `hwaddr=<v>` with a trimmed `v` names the address `v`. */
  lemma HwaddrPartValue(v: string)
    requires '=' !in v && IsTrimmed(v)
    ensures IsHwaddrPart("hwaddr=" + v) && HwaddrValue("hwaddr=" + v) == v
  {
    var k := "hwaddr";
    HwaddrKey(k);
    KeyValueSplit(k, v);
    assert k + "=" + v == "hwaddr=" + v;
    TrimNoOp(k);
    TrimNoOp(v);
  }

  /** Generating a configuration string: join any comma-free parts; if
      part `k` is `hwaddr=<v>` and no part before it is a hardware-address
      part, the parse returns `v`, whatever follows. */
  lemma ParseHwaddrOfJoin(parts: seq<string>, k: int, v: string)
    requires forall i :: 0 <= i < |parts| ==> ',' !in parts[i]
    requires 0 <= k < |parts| && parts[k] == "hwaddr=" + v
    requires forall j :: 0 <= j < k ==> !IsHwaddrPart(parts[j])
    requires '=' !in v && IsTrimmed(v)
    ensures ParseHwaddr(Join(parts, ',')) == Some(v)
  {
    HwaddrPartValue(v);
    ParseHwaddrOfParts(Join(parts, ','), parts, k);
  }

  /** The parse of a join of comma-free parts finds their first
      hardware-address part. */
  lemma ParseHwaddrOfParts(config: string, parts: seq<string>, k: int)
    requires config == Join(parts, ',')
    requires forall i :: 0 <= i < |parts| ==> ',' !in parts[i]
    requires IsFirstHwaddr(parts, k)
    ensures ParseHwaddr(config) == Some(HwaddrValue(parts[k]))
  {
    SplitJoin(parts, ',');
    ParseHwaddrOfFirst(config, k);
  }

  lemma NameNotHwaddr(p: string)
    requires p == "name=eth0"
    ensures ',' !in p && !IsHwaddrPart(p)
  {
    assert p == "name" + "=" + "eth0";
    OtherKeyNotHwaddr("name", "eth0");
  }

  lemma BridgeNotHwaddr(p: string)
    requires p == "bridge=vmbr0"
    ensures ',' !in p && !IsHwaddrPart(p)
  {
    assert p == "bridge" + "=" + "vmbr0";
    OtherKeyNotHwaddr("bridge", "vmbr0");
  }

  lemma ExampleTail(t: string)
    requires t == "ip=dhcp,type=veth"
    ensures t == "ip=dhcp" + "," + "type=veth"
  {
  }

  lemma ExampleFromHwaddr(t: string)
    requires t == "hwaddr=BC:24:11:36:2D:6E,ip=dhcp,type=veth"
    ensures t == "hwaddr=BC:24:11:36:2D:6E" + "," + "ip=dhcp,type=veth"
  {
  }

  lemma ExampleHead(t: string)
    requires t == "name=eth0,bridge=vmbr0,"
    ensures t == "name=eth0" + "," + "bridge=vmbr0" + ","
  {
  }

  lemma JoinCons(x: string, rest: seq<string>, sep: char)
    requires |rest| >= 1
    ensures Join([x] + rest, sep) == x + [sep] + Join(rest, sep)
  {
    assert ([x] + rest)[1..] == rest;
  }

  /** Joining five parts puts the separator between neighbours. */
  lemma JoinFive(a: string, b: string, c: string, d: string, e: string, sep: char)
    ensures Join([a, b, c, d, e], sep) == a + [sep] + (b + [sep] + (c + [sep] + (d + [sep] + e)))
  {
    JoinCons(d, [e], sep);
    assert [d, e] == [d] + [e];
    JoinCons(c, [d, e], sep);
    assert [c, d, e] == [c] + [d, e];
    JoinCons(b, [c, d, e], sep);
    assert [b, c, d, e] == [b] + [c, d, e];
    JoinCons(a, [b, c, d, e], sep);
    assert [a, b, c, d, e] == [a] + [b, c, d, e];
  }

  /** Regrouping a concatenation of two halves. */
  lemma RegroupHalves(a: string, b: string, c: string, d: string, e: string, s: string,
                      front: string, back: string, config: string)
    requires front == a + s + b + s
    requires back == c + s + (d + s + e)
    requires config == front + back
    ensures config == a + s + (b + s + (c + s + (d + s + e)))
  {
  }

  /** The documented configuration string, written in two halves, is the
      comma-join of its five parts. */
  lemma ExampleConfigIsJoin(config: string, parts: seq<string>)
    requires config == "name=eth0,bridge=vmbr0," + "hwaddr=BC:24:11:36:2D:6E,ip=dhcp,type=veth"
    requires parts == ["name=eth0", "bridge=vmbr0", "hwaddr=BC:24:11:36:2D:6E", "ip=dhcp", "type=veth"]
    ensures config == Join(parts, ',')
  {
    var front := "name=eth0,bridge=vmbr0,";
    var back := "hwaddr=BC:24:11:36:2D:6E,ip=dhcp,type=veth";
    ExampleHead(front);
    ExampleBack(back);
    RegroupHalves(parts[0], parts[1], parts[2], parts[3], parts[4], ",", front, back, config);
    JoinFive(parts[0], parts[1], parts[2], parts[3], parts[4], ',');
  }

  lemma ExampleBack(t: string)
    requires t == "hwaddr=BC:24:11:36:2D:6E,ip=dhcp,type=veth"
    ensures t == "hwaddr=BC:24:11:36:2D:6E" + "," + ("ip=dhcp" + "," + "type=veth")
  {
    ExampleFromHwaddr(t);
    ExampleTail("ip=dhcp,type=veth");
  }

  lemma ExampleHwaddrPart(p: string, v: string)
    requires p == "hwaddr=BC:24:11:36:2D:6E" && v == "BC:24:11:36:2D:6E"
    ensures p == "hwaddr=" + v && ',' !in p && '=' !in v && IsTrimmed(v)
  {
  }

  lemma ExampleCommaFree(parts: seq<string>)
    requires parts == ["name=eth0", "bridge=vmbr0", "hwaddr=BC:24:11:36:2D:6E", "ip=dhcp", "type=veth"]
    ensures forall i :: 0 <= i < |parts| ==> ',' !in parts[i]
  {
  }

  lemma ExampleFacts(parts: seq<string>)
    requires parts == ["name=eth0", "bridge=vmbr0", "hwaddr=BC:24:11:36:2D:6E", "ip=dhcp", "type=veth"]
    ensures forall i :: 0 <= i < |parts| ==> ',' !in parts[i]
    ensures 2 < |parts| && parts[2] == "hwaddr=" + "BC:24:11:36:2D:6E"
    ensures forall j :: 0 <= j < 2 ==> !IsHwaddrPart(parts[j])
    ensures '=' !in "BC:24:11:36:2D:6E" && IsTrimmed("BC:24:11:36:2D:6E")
  {
    ExampleCommaFree(parts);
    NameNotHwaddr(parts[0]);
    BridgeNotHwaddr(parts[1]);
    ExampleHwaddrPart(parts[2], "BC:24:11:36:2D:6E");
  }

  lemma ParseExampleParts(parts: seq<string>)
    requires parts == ["name=eth0", "bridge=vmbr0", "hwaddr=BC:24:11:36:2D:6E", "ip=dhcp", "type=veth"]
    ensures ParseHwaddr(Join(parts, ',')) == Some("BC:24:11:36:2D:6E")
  {
    ExampleFacts(parts);
    ParseHwaddrOfJoin(parts, 2, "BC:24:11:36:2D:6E");
  }

  lemma ParseExampleConfig(config: string, parts: seq<string>)
    requires config == "name=eth0,bridge=vmbr0," + "hwaddr=BC:24:11:36:2D:6E,ip=dhcp,type=veth"
    requires parts == ["name=eth0", "bridge=vmbr0", "hwaddr=BC:24:11:36:2D:6E", "ip=dhcp", "type=veth"]
    ensures ParseHwaddr(config) == Some("BC:24:11:36:2D:6E")
  {
    ExampleConfigIsJoin(config, parts);
    ParseExampleParts(parts);
  }

  /** The documented container configuration yields its hardware address. */
  lemma ExampleParseHwaddr()
    ensures ParseHwaddr("name=eth0,bridge=vmbr0," + "hwaddr=BC:24:11:36:2D:6E,ip=dhcp,type=veth") == Some("BC:24:11:36:2D:6E")
  {
    ParseExampleConfig("name=eth0,bridge=vmbr0," + "hwaddr=BC:24:11:36:2D:6E,ip=dhcp,type=veth",
      ["name=eth0", "bridge=vmbr0", "hwaddr=BC:24:11:36:2D:6E", "ip=dhcp", "type=veth"]);
  }

  /** The inserts the mapping loader performs: each entry's IP with its
      normalised real MAC, in file order. */
  function MappingInserts(ms: seq<MacMapping>): (ps: seq<(string, string)>)
    ensures |ps| == |ms|
    ensures forall i :: 0 <= i < |ms| ==> ps[i] == (ms[i].ip, NormalizeMac(ms[i].realMac))
  {
    seq(|ms|, i requires 0 <= i < |ms| => (ms[i].ip, NormalizeMac(ms[i].realMac)))
  }

  /** `load_mac_mappings`' fold: the keys are exactly the listed IPs, an IP
      listed more than once keeps its last entry's MAC, and every value is
      the normalised form of some listed MAC for that IP. */
  function LoadMappings(ms: seq<MacMapping>): (m: map<string, string>)
    ensures m.Keys == set i | 0 <= i < |ms| :: ms[i].ip
    ensures forall i :: 0 <= i < |ms| && (forall j :: i < j < |ms| ==> ms[j].ip != ms[i].ip)
              ==> m[ms[i].ip] == NormalizeMac(ms[i].realMac)
  {
    var ps := MappingInserts(ms);
    assert KeysOf(ps) == set i | 0 <= i < |ms| :: ms[i].ip by {
      forall k | k in KeysOf(ps) ensures k in set i | 0 <= i < |ms| :: ms[i].ip {
        var i :| 0 <= i < |ps| && ps[i].0 == k;
        assert ms[i].ip == k;
      }
    }
    assert forall i :: 0 <= i < |ms| && (forall j :: i < j < |ms| ==> ms[j].ip != ms[i].ip) ==> IsLastInsert(ps, i);
    FromInserts(ps)
  }

  /** Every mapped MAC is already in normal form. */
  lemma LoadMappingsNormalized(ms: seq<MacMapping>, ip: string)
    requires ip in LoadMappings(ms)
    ensures NormalizeMac(LoadMappings(ms)[ip]) == LoadMappings(ms)[ip]
  {
    var m := LoadMappings(ms);
    var i :| 0 <= i < |ms| && ms[i].ip == ip;
    var last := LastIndexOf(ms, ip, i);
    NormalizeMacIdempotent(ms[last].realMac);
  }

  /** The last entry listing `ip`, at or after `i`. */
  function LastIndexOf(ms: seq<MacMapping>, ip: string, i: nat): (k: nat)
    requires i < |ms| && ms[i].ip == ip
    ensures i <= k < |ms| && ms[k].ip == ip
    ensures forall j :: k < j < |ms| ==> ms[j].ip != ip
    decreases |ms| - i
  {
    if exists j :: i < j < |ms| && ms[j].ip == ip then
      var j :| i < j < |ms| && ms[j].ip == ip;
      LastIndexOf(ms, ip, j)
    else
      i
  }
}
