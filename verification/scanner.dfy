/** The pure parts of the ARP scanner: the 42-byte request frame it sends,
    the filter its receiver applies to incoming frames, the MAC-keyed
    de-duplication of the devices it records, the order of the requests,
    and the choice of the default interface. Frames are byte sequences
    laid out as pnet's `EthernetPacket` and `ArpPacket` read them. */
module Scanner {
  import opened Common
  import opened Inet
  import opened Models

  type Frame = seq<Octet>

  const EthernetHeaderLength := 14
  const ArpLength := 28
  const FrameLength := EthernetHeaderLength + ArpLength

  /** EtherType values (IEEE 802 numbers). */
  const EtherTypeIpv4 := 0x0800
  const EtherTypeArp := 0x0806

  /** ARP hardware type Ethernet and the two operations (RFC 826). */
  const HardwareEthernet := 1
  const OpRequest := 1
  const OpReply := 2

  const BroadcastMac: seq<Octet> := [0xff, 0xff, 0xff, 0xff, 0xff, 0xff]
  const ZeroMac: seq<Octet> := [0, 0, 0, 0, 0, 0]

  /** A big-endian 16-bit field. */
  function Word(f: Frame, at: nat): nat
    requires at + 2 <= |f|
  {
    f[at] as int * 256 + f[at + 1] as int
  }

  // ---------------------------------------------------------------------
  // Field access, at the offsets pnet uses
  // ---------------------------------------------------------------------

  /** The six octets of a hardware address starting at `at`. */
  function MacAt(f: Frame, at: nat): (r: seq<Octet>)
    requires at + 6 <= |f|
    ensures IsMacBytes(r)
  {
    [f[at], f[at + 1], f[at + 2], f[at + 3], f[at + 4], f[at + 5]]
  }

  /** The four octets of an IPv4 address starting at `at`. */
  function Ipv4At(f: Frame, at: nat): Ipv4
    requires at + 4 <= |f|
  {
    Ipv4(f[at], f[at + 1], f[at + 2], f[at + 3])
  }

  function Destination(f: Frame): seq<Octet>
    requires |f| >= EthernetHeaderLength
  {
    MacAt(f, 0)
  }

  function Source(f: Frame): seq<Octet>
    requires |f| >= EthernetHeaderLength
  {
    MacAt(f, 6)
  }

  function EtherType(f: Frame): nat
    requires |f| >= EthernetHeaderLength
  {
    Word(f, 12)
  }

  /** An Ethernet frame long enough to hold an ARP body after its header. */
  predicate HasArpBody(f: Frame)
  {
    |f| >= FrameLength
  }

  function HardwareType(f: Frame): nat
    requires HasArpBody(f)
  {
    Word(f, 14)
  }

  function ProtocolType(f: Frame): nat
    requires HasArpBody(f)
  {
    Word(f, 16)
  }

  function HardwareLength(f: Frame): Octet
    requires HasArpBody(f)
  {
    f[18]
  }

  function ProtocolLength(f: Frame): Octet
    requires HasArpBody(f)
  {
    f[19]
  }

  function Operation(f: Frame): nat
    requires HasArpBody(f)
  {
    Word(f, 20)
  }

  function SenderHw(f: Frame): seq<Octet>
    requires HasArpBody(f)
  {
    MacAt(f, 22)
  }

  function SenderProto(f: Frame): Ipv4
    requires HasArpBody(f)
  {
    Ipv4At(f, 28)
  }

  function TargetHw(f: Frame): seq<Octet>
    requires HasArpBody(f)
  {
    MacAt(f, 32)
  }

  function TargetProto(f: Frame): Ipv4
    requires HasArpBody(f)
  {
    Ipv4At(f, 38)
  }

  // ---------------------------------------------------------------------
  // The request frame
  // ---------------------------------------------------------------------

  /** Octet `j` of an IPv4 address, most significant first. */
  function Ipv4Octet(ip: Ipv4, j: nat): Octet
    requires j < 4
  {
    if j == 0 then ip.a else if j == 1 then ip.b else if j == 2 then ip.c else ip.d
  }

  /** Octet `i` of the request frame, by the Ethernet II and ARP layouts
      (RFC 826): destination, source and EtherType; then hardware type,
      protocol type, the two lengths, the operation, and the sender and
      target address pairs. */
  function RequestOctet(mac: seq<Octet>, source: Ipv4, target: Ipv4, i: nat): Octet
    requires IsMacBytes(mac) && i < FrameLength
  {
    if i < 6 then 0xff
    else if i < 12 then mac[i - 6]
    else if i == 12 then 0x08
    else if i == 13 then 0x06
    else if i == 14 then 0x00
    else if i == 15 then 0x01
    else if i == 16 then 0x08
    else if i == 17 then 0x00
    else if i == 18 then 6
    else if i == 19 then 4
    else if i == 20 then 0x00
    else if i == 21 then 0x01
    else if i < 28 then mac[i - 22]
    else if i < 32 then Ipv4Octet(source, i - 28)
    else if i < 38 then 0
    else Ipv4Octet(target, i - 38)
  }

  /** `send_arp_request`'s frame: a 14-byte Ethernet header addressed to
      the broadcast MAC from the interface's MAC with EtherType ARP,
      followed by a 28-byte ARP request (Ethernet hardware, IPv4 protocol,
      lengths 6 and 4) asking who has `target`, sent from the interface's
      MAC and `source` with an all-zero target hardware address. Each
      field reads back, at pnet's offsets, as the value written. */
  function ArpRequestFrame(mac: seq<Octet>, source: Ipv4, target: Ipv4): (f: Frame)
    requires IsMacBytes(mac)
    ensures |f| == FrameLength
    ensures Destination(f) == BroadcastMac && Source(f) == mac && EtherType(f) == EtherTypeArp
    ensures HardwareType(f) == HardwareEthernet && ProtocolType(f) == EtherTypeIpv4
    ensures HardwareLength(f) == 6 && ProtocolLength(f) == 4 && Operation(f) == OpRequest
    ensures SenderHw(f) == mac && SenderProto(f) == source
    ensures TargetHw(f) == ZeroMac && TargetProto(f) == target
  {
    var f := seq(FrameLength, i requires 0 <= i < FrameLength => RequestOctet(mac, source, target, i));
    assert [mac[0], mac[1], mac[2], mac[3], mac[4], mac[5]] == mac;
    f
  }

  /** A request frame determines the interface MAC and both addresses. */
  lemma ArpRequestFrameInjective(m1: seq<Octet>, s1: Ipv4, t1: Ipv4, m2: seq<Octet>, s2: Ipv4, t2: Ipv4)
    requires IsMacBytes(m1) && IsMacBytes(m2)
    requires ArpRequestFrame(m1, s1, t1) == ArpRequestFrame(m2, s2, t2)
    ensures m1 == m2 && s1 == s2 && t1 == t2
  {
    var f := ArpRequestFrame(m1, s1, t1);
    assert SenderHw(f) == m1 && SenderHw(f) == m2;
  }

  /** `send_arp_request` over the target list: one request per target,
      in the order of the list. */
  function Requests(mac: seq<Octet>, source: Ipv4, targets: seq<Ipv4>): (r: seq<Frame>)
    requires IsMacBytes(mac)
    ensures |r| == |targets|
    ensures forall i :: 0 <= i < |targets| ==> r[i] == ArpRequestFrame(mac, source, targets[i])
  {
    seq(|targets|, i requires 0 <= i < |targets| => ArpRequestFrame(mac, source, targets[i]))
  }

  /** Reading the target addresses off the sent frames gives back the
      target list, in order, and nothing else. */
  lemma RequestsTargets(mac: seq<Octet>, source: Ipv4, targets: seq<Ipv4>)
    requires IsMacBytes(mac)
    ensures var r := Requests(mac, source, targets);
      seq(|r|, i requires 0 <= i < |r| => TargetProto(r[i])) == targets
  {
  }

  // ---------------------------------------------------------------------
  // The receiver
  // ---------------------------------------------------------------------

  /** A frame the receiver records: EtherType ARP, operation Reply, and
      asking for the scanner's own address. A frame too short for its
      declared kind makes the source panic on `unwrap`, so it is excluded
      here. */
  predicate IsReplyTo(f: Frame, own: Ipv4)
    requires IsReadable(f)
  {
    EtherType(f) == EtherTypeArp && Operation(f) == OpReply && TargetProto(f) == own
  }

  /** A frame the receiver can read without panicking. */
  predicate IsReadable(f: Frame)
  {
    |f| >= EthernetHeaderLength && (EtherType(f) == EtherTypeArp ==> HasArpBody(f))
  }

  /** The scanner never records its own request: a request frame is not a
      reply, whatever address it asks for. */
  lemma RequestIsNotReply(mac: seq<Octet>, source: Ipv4, target: Ipv4, own: Ipv4)
    requires IsMacBytes(mac)
    ensures IsReadable(ArpRequestFrame(mac, source, target))
    ensures !IsReplyTo(ArpRequestFrame(mac, source, target), own)
  {
  }

  /** The device the receiver builds from a recorded reply: `Device::new`
      with the sender's MAC and IP in display form, the resolved
      hostname, no vendor, seen at `now`. */
  function DeviceOf(f: Frame, resolve: Ipv4 -> Option<string>, now: int): (d: Device)
    requires HasArpBody(f)
    ensures d.mac == MacText(SenderHw(f)) && d.ip == Ipv4Text(SenderProto(f))
    ensures d.hostname == resolve(SenderProto(f)) && d.vendor == None
    ensures d.status == Online && d.lastSeen == now && d.virtualMac == None
  {
    NewDevice(MacText(SenderHw(f)), Ipv4Text(SenderProto(f)), resolve(SenderProto(f)), None, now)
  }

  /** The devices built from the recorded replies, in arrival order,
      before de-duplication. */
  function Observations(frames: seq<Frame>, own: Ipv4, resolve: Ipv4 -> Option<string>, now: int): seq<Device>
    requires forall i :: 0 <= i < |frames| ==> IsReadable(frames[i])
  {
    if |frames| == 0 then []
    else
      var init := Observations(frames[..|frames| - 1], own, resolve, now);
      var f := frames[|frames| - 1];
      assert IsReadable(f);
      if IsReplyTo(f, own) then init + [DeviceOf(f, resolve, now)] else init
  }

  /** `d` is the device built from some reply to the scanner. */
  predicate FromReply(frames: seq<Frame>, own: Ipv4, resolve: Ipv4 -> Option<string>, now: int, d: Device)
  {
    exists k :: 0 <= k < |frames| && IsReadable(frames[k]) && IsReplyTo(frames[k], own) && d == DeviceOf(frames[k], resolve, now)
  }

  /** A device built from a reply among the first frames is built from a
      reply among all of them. */
  lemma FromReplyPrefix(frames: seq<Frame>, n: nat, own: Ipv4, resolve: Ipv4 -> Option<string>, now: int, d: Device)
    requires n <= |frames|
    requires FromReply(frames[..n], own, resolve, now, d)
    ensures FromReply(frames, own, resolve, now, d)
  {
    var k :| 0 <= k < n && IsReadable(frames[..n][k]) && IsReplyTo(frames[..n][k], own) && d == DeviceOf(frames[..n][k], resolve, now);
    assert frames[..n][k] == frames[k];
  }

  /** The observations of a non-empty frame list are those of all but
      its last frame, plus the last frame's device if it is a reply. */
  lemma ObservationsSnoc(frames: seq<Frame>, own: Ipv4, resolve: Ipv4 -> Option<string>, now: int)
    requires |frames| > 0 && forall i :: 0 <= i < |frames| ==> IsReadable(frames[i])
    ensures var n := |frames| - 1;
      var prev := Observations(frames[..n], own, resolve, now);
      Observations(frames, own, resolve, now)
        == if IsReplyTo(frames[n], own) then prev + [DeviceOf(frames[n], resolve, now)] else prev
  {
  }

  /** Every recorded device comes from a reply to the scanner. */
  lemma {:induction false} ObservationsFromReplies(frames: seq<Frame>, own: Ipv4, resolve: Ipv4 -> Option<string>, now: int)
    requires forall i :: 0 <= i < |frames| ==> IsReadable(frames[i])
    ensures var obs := Observations(frames, own, resolve, now);
      && |obs| <= |frames|
      && forall i :: 0 <= i < |obs| ==> FromReply(frames, own, resolve, now, obs[i])
  {
    if |frames| == 0 {
      assert Observations(frames, own, resolve, now) == [];
    } else {
      var n := |frames| - 1;
      var init := frames[..n];
      ObservationsFromReplies(init, own, resolve, now);
      ObservationsSnoc(frames, own, resolve, now);
      var prev := Observations(init, own, resolve, now);
      var obs := Observations(frames, own, resolve, now);
      forall i | 0 <= i < |obs|
        ensures FromReply(frames, own, resolve, now, obs[i])
      {
        if i < |prev| {
          assert obs[i] == prev[i];
          FromReplyPrefix(frames, n, own, resolve, now, prev[i]);
        } else {
          assert obs[i] == DeviceOf(frames[n], resolve, now);
        }
      }
    }
  }

  /** Every reply to the scanner is recorded. */
  lemma {:induction false} RepliesObserved(frames: seq<Frame>, own: Ipv4, resolve: Ipv4 -> Option<string>, now: int)
    requires forall i :: 0 <= i < |frames| ==> IsReadable(frames[i])
    ensures forall k :: 0 <= k < |frames| && IsReplyTo(frames[k], own) ==>
      DeviceOf(frames[k], resolve, now) in Observations(frames, own, resolve, now)
  {
    if |frames| > 0 {
      var n := |frames| - 1;
      var init := frames[..n];
      assert forall k :: 0 <= k < n ==> init[k] == frames[k];
      RepliesObserved(init, own, resolve, now);
      var prev := Observations(init, own, resolve, now);
      var obs := Observations(frames, own, resolve, now);
      assert forall x :: x in prev ==> x in obs;
    }
  }

  /** Some device in `ds` has MAC `mac`. */
  predicate HasMac(ds: seq<Device>, mac: string)
  {
    exists i :: 0 <= i < |ds| && ds[i].mac == mac
  }

  /** No two devices share a MAC. */
  predicate DistinctMacs(ds: seq<Device>)
  {
    forall i, j :: 0 <= i < j < |ds| ==> ds[i].mac != ds[j].mac
  }

  /** `ds[k]` is the first device of `ds` with its MAC. */
  predicate IsFirstWithMac(ds: seq<Device>, k: int)
  {
    0 <= k < |ds| && forall j :: 0 <= j < k ==> ds[j].mac != ds[k].mac
  }

  /** The receiver's insertion: a device is appended only when no
      recorded device has its MAC. */
  function Record(r: seq<Device>, d: Device): seq<Device>
  {
    if HasMac(r, d.mac) then r else r + [d]
  }

  /** Recording a device only when no recorded device has its MAC:
      distinct MACs, every MAC seen is kept, and each kept device is the
      first one seen with its MAC, in order of first appearance. */
  function FirstByMac(ds: seq<Device>): (r: seq<Device>)
    ensures DistinctMacs(r)
    ensures forall i :: 0 <= i < |ds| ==> HasMac(r, ds[i].mac)
    ensures forall i :: 0 <= i < |r| ==> exists k :: IsFirstWithMac(ds, k) && ds[k] == r[i]
  {
    if |ds| == 0 then []
    else
      var init := ds[..|ds| - 1];
      var last := ds[|ds| - 1];
      var r := FirstByMac(init);
      assert init + [last] == ds;
      RecordDistinct(r, last);
      RecordCovers(init, last, r);
      RecordFirst(init, last, r);
      Record(r, last)
  }

  /** Recording keeps the MACs distinct. */
  lemma RecordDistinct(r: seq<Device>, d: Device)
    requires DistinctMacs(r)
    ensures DistinctMacs(Record(r, d))
  {
    if !HasMac(r, d.mac) {
      var r' := r + [d];
      assert forall i :: 0 <= i < |r| ==> r'[i] == r[i] && r[i].mac != d.mac;
    }
  }

  /** Recording keeps every MAC seen so far and adds the new one. */
  lemma RecordCovers(init: seq<Device>, d: Device, r: seq<Device>)
    requires forall i :: 0 <= i < |init| ==> HasMac(r, init[i].mac)
    ensures forall i :: 0 <= i < |init + [d]| ==> HasMac(Record(r, d), (init + [d])[i].mac)
  {
    var ds := init + [d];
    var r' := Record(r, d);
    assert forall i :: 0 <= i < |r| ==> r'[i] == r[i];
    assert forall m :: HasMac(r, m) ==> HasMac(r', m);
    assert HasMac(r', d.mac) by {
      if !HasMac(r, d.mac) {
        assert r'[|r|] == d;
      }
    }
    assert forall i :: 0 <= i < |init| ==> ds[i] == init[i];
  }

  /** Every recorded device stays the first one seen with its MAC, and a
      newly recorded one is the first with its MAC. */
  lemma RecordFirst(init: seq<Device>, d: Device, r: seq<Device>)
    requires forall i :: 0 <= i < |init| ==> HasMac(r, init[i].mac)
    requires forall i :: 0 <= i < |r| ==> exists k :: IsFirstWithMac(init, k) && init[k] == r[i]
    ensures var r' := Record(r, d);
      forall i :: 0 <= i < |r'| ==> exists k :: IsFirstWithMac(init + [d], k) && (init + [d])[k] == r'[i]
  {
    var ds := init + [d];
    var r' := Record(r, d);
    assert forall i :: 0 <= i < |init| ==> ds[i] == init[i];
    assert forall k :: IsFirstWithMac(init, k) ==> IsFirstWithMac(ds, k);
    if !HasMac(r, d.mac) {
      assert forall j :: 0 <= j < |init| ==> init[j].mac != d.mac;
      assert IsFirstWithMac(ds, |init|);
      assert forall i :: 0 <= i < |r| ==> r'[i] == r[i];
      assert r'[|r|] == ds[|init|];
    }
  }

  /** One more frame adds its device, if it is a reply to the scanner. */
  lemma ObservationsStep(frames: seq<Frame>, n: nat, own: Ipv4, resolve: Ipv4 -> Option<string>, now: int)
    requires n < |frames| && forall i :: 0 <= i < |frames| ==> IsReadable(frames[i])
    ensures IsReplyTo(frames[n], own) ==>
      Observations(frames[..n + 1], own, resolve, now) == Observations(frames[..n], own, resolve, now) + [DeviceOf(frames[n], resolve, now)]
    ensures !IsReplyTo(frames[n], own) ==>
      Observations(frames[..n + 1], own, resolve, now) == Observations(frames[..n], own, resolve, now)
  {
    assert frames[..n + 1][..n] == frames[..n];
  }

  /** One more device is recorded exactly when its MAC is new. */
  lemma FirstByMacStep(ds: seq<Device>, d: Device)
    ensures FirstByMac(ds + [d]) == Record(FirstByMac(ds), d)
  {
    assert (ds + [d])[..|ds|] == ds;
  }

  /** `devs.iter().any(|d| d.mac == mac)`. */
  method AnyWithMac(devs: seq<Device>, mac: string) returns (seen: bool)
    ensures seen <==> HasMac(devs, mac)
  {
    seen := false;
    var k := 0;
    while k < |devs|
      invariant 0 <= k <= |devs|
      invariant seen <==> exists j :: 0 <= j < k && devs[j].mac == mac
    {
      if devs[k].mac == mac {
        seen := true;
      }
      k := k + 1;
    }
  }

  /** The receiver loop: each readable frame in arrival order; a reply to
      the scanner's own address becomes a device, which is appended unless
      a recorded device already has its MAC. */
  method Capture(frames: seq<Frame>, own: Ipv4, resolve: Ipv4 -> Option<string>, now: int) returns (devs: seq<Device>)
    requires forall i :: 0 <= i < |frames| ==> IsReadable(frames[i])
    ensures devs == FirstByMac(Observations(frames, own, resolve, now))
    ensures DistinctMacs(devs)
    ensures forall k :: 0 <= k < |frames| && IsReplyTo(frames[k], own) ==> HasMac(devs, MacText(SenderHw(frames[k])))
    ensures forall i :: 0 <= i < |devs| ==>
      FromReply(frames, own, resolve, now, devs[i])
  {
    devs := [];
    var n := 0;
    while n < |frames|
      invariant 0 <= n <= |frames|
      invariant devs == FirstByMac(Observations(frames[..n], own, resolve, now))
    {
      ObservationsStep(frames, n, own, resolve, now);
      if IsReplyTo(frames[n], own) {
        var device := DeviceOf(frames[n], resolve, now);
        var seen := AnyWithMac(devs, device.mac);
        FirstByMacStep(Observations(frames[..n], own, resolve, now), device);
        if !seen {
          devs := devs + [device];
        }
      }
      n := n + 1;
    }
    assert frames[..n] == frames;
    CapturedCoversReplies(frames, own, resolve, now);
    CapturedFromReplies(frames, own, resolve, now);
  }

  /** Every MAC that replied to the scanner is captured. */
  lemma CapturedCoversReplies(frames: seq<Frame>, own: Ipv4, resolve: Ipv4 -> Option<string>, now: int)
    requires forall i :: 0 <= i < |frames| ==> IsReadable(frames[i])
    ensures forall k :: 0 <= k < |frames| && IsReplyTo(frames[k], own) ==>
      HasMac(FirstByMac(Observations(frames, own, resolve, now)), MacText(SenderHw(frames[k])))
  {
    var obs := Observations(frames, own, resolve, now);
    RepliesObserved(frames, own, resolve, now);
    forall k | 0 <= k < |frames| && IsReplyTo(frames[k], own)
      ensures HasMac(FirstByMac(obs), MacText(SenderHw(frames[k])))
    {
      var i :| 0 <= i < |obs| && obs[i] == DeviceOf(frames[k], resolve, now);
      assert obs[i].mac == MacText(SenderHw(frames[k]));
    }
  }

  /** Every captured device is built from a reply to the scanner. */
  lemma CapturedFromReplies(frames: seq<Frame>, own: Ipv4, resolve: Ipv4 -> Option<string>, now: int)
    requires forall i :: 0 <= i < |frames| ==> IsReadable(frames[i])
    ensures var devs := FirstByMac(Observations(frames, own, resolve, now));
      forall i :: 0 <= i < |devs| ==>
        FromReply(frames, own, resolve, now, devs[i])
  {
    var obs := Observations(frames, own, resolve, now);
    var devs := FirstByMac(obs);
    ObservationsFromReplies(frames, own, resolve, now);
    forall i | 0 <= i < |devs|
      ensures FromReply(frames, own, resolve, now, devs[i])
    {
      var j :| IsFirstWithMac(obs, j) && obs[j] == devs[i];
      var k :| 0 <= k < |frames| && IsReplyTo(frames[k], own) && obs[j] == DeviceOf(frames[k], resolve, now);
    }
  }

  // ---------------------------------------------------------------------
  // Interfaces
  // ---------------------------------------------------------------------

  /** An address configured on an interface. */
  datatype IfAddr = V4(v4: Ipv4) | V6(v6: seq<int>)

  /** The parts of pnet's `NetworkInterface` the scanner reads. */
  datatype Interface = Interface(name: string, mac: Option<seq<Octet>>, ips: seq<IfAddr>, up: bool, loopback: bool)

  /** The condition `get_default_interface` looks for. */
  predicate IsSuitable(iface: Interface)
  {
    !iface.loopback && iface.up && |iface.ips| > 0
  }

  /** `get_default_interface`: the first interface in the system's list
      that is not loopback, is up and has at least one address; None when
      there is none. */
  method DefaultInterface(ifaces: seq<Interface>) returns (r: Option<Interface>)
    ensures r.None? <==> forall i :: 0 <= i < |ifaces| ==> !IsSuitable(ifaces[i])
    ensures r.Some? ==> exists k :: 0 <= k < |ifaces| && r.value == ifaces[k] && IsSuitable(ifaces[k])
                          && forall j :: 0 <= j < k ==> !IsSuitable(ifaces[j])
  {
    var k := 0;
    while k < |ifaces|
      invariant 0 <= k <= |ifaces|
      invariant forall j :: 0 <= j < k ==> !IsSuitable(ifaces[j])
    {
      if IsSuitable(ifaces[k]) {
        return Some(ifaces[k]);
      }
      k := k + 1;
    }
    return None;
  }

  /** The interface named on the command line: the first with that name,
      None when there is none (the source then panics). */
  method NamedInterface(ifaces: seq<Interface>, name: string) returns (r: Option<Interface>)
    ensures r.None? <==> forall i :: 0 <= i < |ifaces| ==> ifaces[i].name != name
    ensures r.Some? ==> exists k :: 0 <= k < |ifaces| && r.value == ifaces[k] && ifaces[k].name == name
                          && forall j :: 0 <= j < k ==> ifaces[j].name != name
  {
    var k := 0;
    while k < |ifaces|
      invariant 0 <= k <= |ifaces|
      invariant forall j :: 0 <= j < k ==> ifaces[j].name != name
    {
      if ifaces[k].name == name {
        return Some(ifaces[k]);
      }
      k := k + 1;
    }
    return None;
  }

  /** The scanner's own IPv4 address: the first IPv4 entry in the
      interface's address list. */
  function SourceIpv4(ips: seq<IfAddr>): (r: Option<Ipv4>)
    ensures r.None? <==> forall i :: 0 <= i < |ips| ==> !ips[i].V4?
    ensures r.Some? ==> exists k :: 0 <= k < |ips| && ips[k] == V4(r.value) && forall j :: 0 <= j < k ==> !ips[j].V4?
  {
    if |ips| == 0 then None
    else if ips[0].V4? then Some(ips[0].v4)
    else
      var r := SourceIpv4(ips[1..]);
      assert forall i :: 1 <= i < |ips| ==> ips[i] == ips[1..][i - 1];
      if r.Some? then
        var k :| 0 <= k < |ips[1..]| && ips[1..][k] == V4(r.value) && forall j :: 0 <= j < k ==> !ips[1..][j].V4?;
        assert ips[k + 1] == V4(r.value);
        r
      else
        r
  }
}
