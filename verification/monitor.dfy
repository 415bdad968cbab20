/** One cycle of the monitor loop: correcting the scanned MAC addresses
    with the manual mapping and the virtual-MAC heuristic, merging the
    scanned devices into the IP-keyed registry, and the offline pass.
    Desktop notifications are modelled as events; the `changes` flag,
    which decides whether the registry is saved, is returned with them. */
module Monitor {
  import opened Common
  import opened Models
  import opened Vendor

  /** The in-memory device map, keyed by IP address. */
  type Registry = map<string, Device>

  /** The MAC addresses listed in the blacklist file. */
  type Blacklist = seq<string>

  /** The manual IP → real-MAC mapping. */
  type Mappings = map<string, string>

  /** The notifications a cycle sends. */
  datatype Event = Detected(ip: string, mac: string) | BackOnline(ip: string) | WentOffline(ip: string)

  /** Every device is stored under its own IP. */
  predicate WellKeyed(reg: Registry)
  {
    forall ip :: ip in reg ==> reg[ip].ip == ip
  }

  // ---------------------------------------------------------------------
  // MAC correction of scanned devices
  // ---------------------------------------------------------------------

  /** The correction applied to each scanned device. With a manual mapping
      for its IP the device takes the real MAC, keeps the MAC seen on the
      wire as its virtual MAC and is looked up again; without one, a MAC
      that looks virtual is recorded as the device's own virtual MAC and
      kept. Nothing else changes. */
  function CorrectMac(d: Device, mappings: Mappings, table: Table): (r: Device)
    ensures r.ip == d.ip && r.hostname == d.hostname && r.lastSeen == d.lastSeen && r.status == d.status
    ensures d.ip in mappings ==>
      r.mac == mappings[d.ip] && r.virtualMac == Some(d.mac) && r.vendor == Lookup(table, mappings[d.ip])
    ensures d.ip !in mappings ==> r.mac == d.mac && r.vendor == d.vendor
    ensures d.ip !in mappings ==> r.virtualMac == (if IsVirtual(table, d.mac) then Some(d.mac) else d.virtualMac)
  {
    if d.ip in mappings then
      var realMac := mappings[d.ip];
      d.(virtualMac := Some(d.mac), mac := realMac, vendor := Lookup(table, realMac))
    else if IsVirtual(table, d.mac) then
      d.(virtualMac := Some(d.mac))
    else
      d
  }

  /** The documented correction: a device seen at a mapped IP with a
      virtual MAC is stored under the real MAC, with the MAC seen on the
      wire as its virtual MAC, both when the IP is new and when the stored
      entry holds the real MAC or the wire MAC. */
  lemma ExampleCorrection(reg: Registry, d: Device, table: Table, bl: Blacklist, valid: Device -> bool, now: int)
    requires d.ip == "192.168.1.31" && d.mac == "BC:24:11:AA:BB:CC"
    requires d.ip in reg ==> reg[d.ip].mac == "BC:24:11:36:2D:6E" || reg[d.ip].mac == d.mac
    requires valid(CorrectMac(d, map["192.168.1.31" := "BC:24:11:36:2D:6E"], table))
    ensures var c := CorrectMac(d, map["192.168.1.31" := "BC:24:11:36:2D:6E"], table);
      var stored := MergeOne(reg, c, bl, valid, now).reg[d.ip];
      stored.mac == "BC:24:11:36:2D:6E" && stored.virtualMac == Some("BC:24:11:AA:BB:CC")
  {
  }

  /** The same scan at an IP whose stored entry holds a third MAC: the
      stored MAC is kept, and only the virtual MAC is recorded. */
  lemma ExampleCorrectionKeepsThirdMac(reg: Registry, d: Device, table: Table, bl: Blacklist, valid: Device -> bool, now: int)
    requires d.ip == "192.168.1.31" && d.mac == "BC:24:11:AA:BB:CC"
    requires d.ip in reg && reg[d.ip].mac == "00:11:22:33:44:55"
    requires valid(CorrectMac(d, map["192.168.1.31" := "BC:24:11:36:2D:6E"], table))
    ensures var c := CorrectMac(d, map["192.168.1.31" := "BC:24:11:36:2D:6E"], table);
      var stored := MergeOne(reg, c, bl, valid, now).reg[d.ip];
      stored.mac == "00:11:22:33:44:55" && stored.virtualMac == Some("BC:24:11:AA:BB:CC")
  {
  }

  /** Whenever the correction replaces the MAC, the MAC seen on the wire
      is kept as the virtual MAC. */
  lemma CorrectMacKeepsWireMac(d: Device, mappings: Mappings, table: Table)
    ensures CorrectMac(d, mappings, table).mac != d.mac ==> CorrectMac(d, mappings, table).virtualMac == Some(d.mac)
    ensures CorrectMac(d, mappings, table).virtualMac != d.virtualMac ==> CorrectMac(d, mappings, table).virtualMac == Some(d.mac)
  {
  }

  /** The correction of the whole scan, device by device, in order. */
  function CorrectAll(found: seq<Device>, mappings: Mappings, table: Table): (r: seq<Device>)
    ensures |r| == |found|
    ensures forall i :: 0 <= i < |found| ==> r[i] == CorrectMac(found[i], mappings, table)
  {
    seq(|found|, i requires 0 <= i < |found| => CorrectMac(found[i], mappings, table))
  }

  // ---------------------------------------------------------------------
  // Merging one observation into a known device
  // ---------------------------------------------------------------------

  /** The status update of a known device that answered, with its
      `changes` flag, branch by branch as the source writes it. */
  function ObservedStatus(s: DeviceStatus, blocked: bool): (DeviceStatus, bool)
  {
    if s == Offline then (if blocked then Block else Online, true)
    else if blocked && s != Block then (Block, true)
    else if !blocked && s == Block then (Online, true)
    else (s, false)
  }

  /** The status table collapses: a device that answers is Block when
      blacklisted and Online otherwise, whatever it was, and the flag is
      set exactly when the status moves. */
  lemma ObservedStatusTable(s: DeviceStatus, blocked: bool)
    ensures ObservedStatus(s, blocked).0 == if blocked then Block else Online
    ensures ObservedStatus(s, blocked).1 <==> ObservedStatus(s, blocked).0 != s
  {
  }

  /** The result of merging an observation into a known device. */
  datatype Updated = Updated(device: Device, changed: bool, backOnline: bool)

  /** The field updates of a known device at monitor.rs 172-223. The MAC
      branch runs only when the scanned MAC differs from the stored one:
      a scanned virtual MAC is recorded, and the stored MAC is replaced
      only if that virtual MAC is the stored MAC itself; a scan without a
      virtual MAC replaces the stored MAC. Vendor and hostname are
      overwritten only by a present, different value. */
  function UpdateExisting(e: Device, f: Device, blocked: bool, now: int): (u: Updated)
    ensures u.device.ip == e.ip && u.device.lastSeen == now
    ensures u.device.status == if blocked then Block else Online
    ensures u.backOnline <==> e.status == Offline
    ensures u.device.vendor == if f.vendor.Some? then f.vendor else e.vendor
    ensures u.device.hostname == if f.hostname.Some? then f.hostname else e.hostname
    ensures u.device.virtualMac == if f.virtualMac.Some? then f.virtualMac else e.virtualMac
    ensures e.mac == f.mac ==> u.device.mac == e.mac
    ensures e.mac != f.mac && f.virtualMac.Some? && f.virtualMac != Some(e.mac) ==> u.device.mac == e.mac
    ensures e.mac != f.mac && (f.virtualMac.None? || f.virtualMac == Some(e.mac)) ==> u.device.mac == f.mac
    ensures u.device.(lastSeen := e.lastSeen) != e ==> u.changed
  {
    var (status, statusChanged) := ObservedStatus(e.status, blocked);
    ObservedStatusTable(e.status, blocked);
    var (mac, vm, macChanged) :=
      if e.mac != f.mac then
        if f.virtualMac.Some? then
          (if f.virtualMac != Some(e.mac) then e.mac else f.mac, f.virtualMac, true)
        else
          (f.mac, e.virtualMac, true)
      else
        (e.mac, e.virtualMac, false);
    var vmChanged := f.virtualMac.Some? && vm != f.virtualMac;
    var vendorChanged := f.vendor.Some? && e.vendor != f.vendor;
    var hostChanged := f.hostname.Some? && e.hostname != f.hostname;
    var d := Device(
      mac, e.ip,
      if hostChanged then f.hostname else e.hostname,
      if vendorChanged then f.vendor else e.vendor,
      now, status,
      if vmChanged then f.virtualMac else vm);
    Updated(d, statusChanged || macChanged || vmChanged || vendorChanged || hostChanged, e.status == Offline)
  }

  /** The flag is exact but for one case: a scan carrying a virtual MAC
      that differs from the stored MAC, is not the stored MAC, and was
      already recorded sets the flag although nothing but the timestamp
      changes. */
  lemma UpdateChangedExact(e: Device, f: Device, blocked: bool, now: int)
    ensures UpdateExisting(e, f, blocked, now).changed
        <==> UpdateExisting(e, f, blocked, now).device.(lastSeen := e.lastSeen) != e
             || (e.mac != f.mac && f.virtualMac.Some? && f.virtualMac != Some(e.mac))
  {
    ObservedStatusTable(e.status, blocked);
  }

  /** The merge is not idempotent in that one case: a stored real MAC
      that a scan with a different virtual MAC cannot replace sets the
      flag, and the stored device it leaves sets it again on every later
      cycle. */
  lemma KeptRealMacChangesAgain(e: Device, f: Device, blocked: bool, now: int, later: int)
    requires e.mac != f.mac && f.virtualMac.Some? && f.virtualMac != Some(e.mac)
    ensures UpdateExisting(e, f, blocked, now).changed
    ensures UpdateExisting(e, f, blocked, now).device.mac == e.mac
    ensures UpdateExisting(UpdateExisting(e, f, blocked, now).device, f, blocked, later).changed
  {
  }

  /** Re-merging an observation identical to a stored, non-blacklisted,
      Online device sets no change and only refreshes the timestamp. */
  lemma RemergeIdenticalNoChange(e: Device, now: int)
    requires e.status == Online
    ensures !UpdateExisting(e, e, false, now).changed
    ensures UpdateExisting(e, e, false, now).device == e.(lastSeen := now)
  {
    UpdateChangedExact(e, e, false, now);
  }

  // ---------------------------------------------------------------------
  // Merging a scan into the registry
  // ---------------------------------------------------------------------

  /** The registry, the `changes` flag and the notifications after some
      observations. */
  datatype Step = Step(reg: Registry, changed: bool, events: seq<Event>)

  /** A new device as stored: the scanned device, put into Block when its
      MAC is blacklisted. */
  function Admitted(f: Device, blocked: bool): (d: Device)
    ensures d.(status := f.status) == f
    ensures d.status == if blocked then Block else f.status
  {
    if blocked then f.(status := Block) else f
  }

  /** One scanned device: skipped when invalid; merged into the device
      stored under its IP; or stored as new, with a "new device"
      notification. A known device that was Offline notifies "back
      online", blacklisted or not. */
  function MergeOne(reg: Registry, f: Device, bl: Blacklist, valid: Device -> bool, now: int): (s: Step)
    ensures s.reg.Keys == reg.Keys + (if valid(f) then {f.ip} else {})
    ensures forall ip :: ip in reg && ip != f.ip ==> s.reg[ip] == reg[ip]
    ensures !valid(f) ==> s == Step(reg, false, [])
    ensures valid(f) && f.ip !in reg ==>
      s.reg[f.ip] == Admitted(f, f.mac in bl) && s.changed && s.events == [Detected(f.ip, f.mac)]
    ensures valid(f) && f.ip in reg ==>
      var u := UpdateExisting(reg[f.ip], f, f.mac in bl, now);
      s.reg[f.ip] == u.device && s.changed == u.changed && s.events == (if u.backOnline then [BackOnline(f.ip)] else [])
  {
    if !valid(f) then Step(reg, false, [])
    else if f.ip in reg then
      var u := UpdateExisting(reg[f.ip], f, f.mac in bl, now);
      Step(reg[f.ip := u.device], u.changed, if u.backOnline then [BackOnline(f.ip)] else [])
    else
      Step(reg[f.ip := Admitted(f, f.mac in bl)], true, [Detected(f.ip, f.mac)])
  }

  /** The IPs of the valid devices of a scan. */
  function ValidIps(found: seq<Device>, valid: Device -> bool): set<string>
  {
    set i | 0 <= i < |found| && valid(found[i]) :: found[i].ip
  }

  /** Processing the scan front to back; the flag is set when any step sets
      it, and the notifications accumulate in order. No entry is removed,
      the valid scanned IPs are added, and a device whose IP was not
      scanned is left exactly as it was. */
  function MergeAll(reg: Registry, found: seq<Device>, bl: Blacklist, valid: Device -> bool, now: int): (s: Step)
    ensures s.reg.Keys == reg.Keys + ValidIps(found, valid)
    ensures forall ip :: ip in reg && ip !in ValidIps(found, valid) ==> s.reg[ip] == reg[ip]
  {
    if |found| == 0 then Step(reg, false, [])
    else
      var init := found[..|found| - 1];
      var f := found[|found| - 1];
      var m := MergeAll(reg, init, bl, valid, now);
      var s := MergeOne(m.reg, f, bl, valid, now);
      assert init + [f] == found;
      ValidIpsSnoc(init, f, valid);
      Step(s.reg, m.changed || s.changed, m.events + s.events)
  }

  lemma ValidIpsSnoc(init: seq<Device>, f: Device, valid: Device -> bool)
    ensures ValidIps(init + [f], valid) == ValidIps(init, valid) + (if valid(f) then {f.ip} else {})
  {
    var all := init + [f];
    assert forall i :: 0 <= i < |init| ==> all[i] == init[i];
    assert all[|init|] == f;
  }

  /** The merge keeps every device under its own IP. */
  lemma MergeAllWellKeyed(reg: Registry, found: seq<Device>, bl: Blacklist, valid: Device -> bool, now: int)
    requires WellKeyed(reg)
    ensures WellKeyed(MergeAll(reg, found, bl, valid, now).reg)
    decreases |found|
  {
    if |found| > 0 {
      MergeAllWellKeyed(reg, found[..|found| - 1], bl, valid, now);
    }
  }

  /** A valid scanned device whose IP is scanned once is merged against
      the registry as it was before the scan: the rest of the scan does not
      touch its entry. */
  lemma {:induction false} MergeAllAt(reg: Registry, found: seq<Device>, bl: Blacklist, valid: Device -> bool, now: int, i: int)
    requires 0 <= i < |found| && valid(found[i])
    requires forall j :: 0 <= j < |found| && j != i && valid(found[j]) ==> found[j].ip != found[i].ip
    ensures MergeAll(reg, found, bl, valid, now).reg[found[i].ip] == MergeOne(reg, found[i], bl, valid, now).reg[found[i].ip]
    decreases |found|
  {
    var init := found[..|found| - 1];
    var f := found[|found| - 1];
    var ip := found[i].ip;
    var m := MergeAll(reg, init, bl, valid, now);
    if i == |found| - 1 {
      assert forall j :: 0 <= j < |init| ==> init[j] == found[j];
      assert ip !in ValidIps(init, valid);
      assert (ip in m.reg) == (ip in reg);
      assert ip in reg ==> m.reg[ip] == reg[ip];
    } else {
      assert init[i] == found[i];
      MergeAllAt(reg, init, bl, valid, now, i);
    }
  }

  /** Merging a scan into a registry where no valid scanned device causes
      a change sets no change, provided each valid IP is scanned once. */
  lemma {:induction false} MergeAllNoChange(reg: Registry, found: seq<Device>, bl: Blacklist, valid: Device -> bool, now: int)
    requires forall i, j :: 0 <= i < j < |found| && valid(found[i]) && valid(found[j]) ==> found[i].ip != found[j].ip
    requires forall i :: 0 <= i < |found| && valid(found[i]) ==>
      found[i].ip in reg && !UpdateExisting(reg[found[i].ip], found[i], found[i].mac in bl, now).changed
    ensures !MergeAll(reg, found, bl, valid, now).changed
    decreases |found|
  {
    if |found| > 0 {
      var init := found[..|found| - 1];
      var f := found[|found| - 1];
      assert forall i :: 0 <= i < |init| ==> init[i] == found[i];
      MergeAllNoChange(reg, init, bl, valid, now);
      assert valid(f) ==> f.ip !in ValidIps(init, valid);
    }
  }

  /** Merging a stored device's own observation again, at any later time,
      sets no change, once the merge has settled its MAC. */
  lemma UpdateAgainNoChange(e: Device, f: Device, blocked: bool, now: int, later: int)
    requires UpdateExisting(e, f, blocked, now).device.mac == f.mac
    ensures !UpdateExisting(UpdateExisting(e, f, blocked, now).device, f, blocked, later).changed
  {
    var d := UpdateExisting(e, f, blocked, now).device;
    UpdateChangedExact(d, f, blocked, later);
    ObservedStatusTable(d.status, blocked);
  }

  /** A newly stored device observed again sets no change. */
  lemma AdmittedAgainNoChange(f: Device, blocked: bool, later: int)
    requires f.status == Online
    ensures !UpdateExisting(Admitted(f, blocked), f, blocked, later).changed
  {
    var d := Admitted(f, blocked);
    UpdateChangedExact(d, f, blocked, later);
    ObservedStatusTable(d.status, blocked);
  }

  /** Merging a scan into a registry that already holds every valid
      scanned IP, none of them Offline, sends no notification, provided
      each valid IP is scanned once. */
  lemma {:induction false} MergeAllNoEvents(reg: Registry, found: seq<Device>, bl: Blacklist, valid: Device -> bool, now: int)
    requires forall i, j :: 0 <= i < j < |found| && valid(found[i]) && valid(found[j]) ==> found[i].ip != found[j].ip
    requires forall i :: 0 <= i < |found| && valid(found[i]) ==>
      found[i].ip in reg && reg[found[i].ip].status != Offline
    ensures MergeAll(reg, found, bl, valid, now).events == []
    decreases |found|
  {
    if |found| > 0 {
      var init := found[..|found| - 1];
      var f := found[|found| - 1];
      assert forall i :: 0 <= i < |init| ==> init[i] == found[i];
      MergeAllNoEvents(reg, init, bl, valid, now);
      if valid(f) {
        assert f.ip !in ValidIps(init, valid);
      }
    }
  }

  /** Merging the same scan twice: when every scanned IP is scanned once,
      the scanned devices are Online (as the scanner makes them) and the
      first merge settles each scanned device's MAC, the second merge sets
      no change, so it triggers no save. Even without the MAC condition it
      sends no notification. */
  lemma MergeAgainNoChange(reg: Registry, found: seq<Device>, bl: Blacklist, valid: Device -> bool, now: int, later: int)
    requires forall i, j :: 0 <= i < j < |found| && valid(found[i]) && valid(found[j]) ==> found[i].ip != found[j].ip
    requires forall i :: 0 <= i < |found| ==> found[i].status == Online
    requires forall i :: 0 <= i < |found| && valid(found[i]) ==>
      MergeAll(reg, found, bl, valid, now).reg[found[i].ip].mac == found[i].mac
    ensures !MergeAll(MergeAll(reg, found, bl, valid, now).reg, found, bl, valid, later).changed
    ensures MergeAll(MergeAll(reg, found, bl, valid, now).reg, found, bl, valid, later).events == []
  {
    var r1 := MergeAll(reg, found, bl, valid, now).reg;
    forall i | 0 <= i < |found| && valid(found[i])
      ensures found[i].ip in r1 && !UpdateExisting(r1[found[i].ip], found[i], found[i].mac in bl, later).changed
    {
      var f := found[i];
      assert f.ip in ValidIps(found, valid);
      MergeAllAt(reg, found, bl, valid, now, i);
      if f.ip in reg {
        UpdateAgainNoChange(reg[f.ip], f, f.mac in bl, now, later);
      } else {
        AdmittedAgainNoChange(f, f.mac in bl, later);
      }
    }
    MergeAllNoChange(r1, found, bl, valid, later);
    MergeTwiceNoEvents(reg, found, bl, valid, now, later);
  }

  /** The second merge of the same scan sends no notification: after the
      first, every valid scanned IP is stored and none is Offline. */
  lemma MergeTwiceNoEvents(reg: Registry, found: seq<Device>, bl: Blacklist, valid: Device -> bool, now: int, later: int)
    requires forall i, j :: 0 <= i < j < |found| && valid(found[i]) && valid(found[j]) ==> found[i].ip != found[j].ip
    requires forall i :: 0 <= i < |found| ==> found[i].status == Online
    ensures MergeAll(MergeAll(reg, found, bl, valid, now).reg, found, bl, valid, later).events == []
  {
    var r1 := MergeAll(reg, found, bl, valid, now).reg;
    forall i | 0 <= i < |found| && valid(found[i])
      ensures found[i].ip in r1 && r1[found[i].ip].status != Offline
    {
      assert found[i].ip in ValidIps(found, valid);
      MergeAllAt(reg, found, bl, valid, now, i);
    }
    MergeAllNoEvents(r1, found, bl, valid, later);
  }

  // ---------------------------------------------------------------------
  // The offline pass
  // ---------------------------------------------------------------------

  /** `(interval * 2) + (interval / 2)` seconds. */
  function Threshold(interval: nat): (t: nat)
    ensures t == 5 * interval / 2
    ensures 2 * interval <= t <= 3 * interval
  {
    interval * 2 + interval / 2
  }

  /** One device in the offline pass. A blacklisted device is put into
      Block and skips the offline check; an Online device not seen for
      longer than the threshold goes Offline; nothing else changes. */
  function PassDevice(d: Device, bl: Blacklist, interval: nat, now: int): (r: Device)
    ensures r.(status := d.status) == d
    ensures d.mac in bl ==> r.status == Block
    ensures d.mac !in bl ==> (r.status != d.status <==> d.status == Online && now - d.lastSeen > Threshold(interval))
    ensures r.status != d.status ==> r.status == Block || (d.status == Online && r.status == Offline)
  {
    if d.mac in bl then d.(status := Block)
    else if d.status == Online && now - d.lastSeen > Threshold(interval) then d.(status := Offline)
    else d
  }

  /** The registry, the pass's `changes` flag and the IPs reported offline
      after the offline pass. */
  datatype Pass = Pass(reg: Registry, changed: bool, wentOffline: set<string>)

  /** The offline pass over every stored device. The source visits the
      map in an unspecified order; each device is handled on its own, so
      the order does not matter, and the notifications are a set. */
  function OfflinePass(reg: Registry, bl: Blacklist, interval: nat, now: int): (p: Pass)
    ensures p.reg.Keys == reg.Keys
    ensures forall ip :: ip in reg ==> p.reg[ip] == PassDevice(reg[ip], bl, interval, now)
    ensures p.changed <==> exists ip :: ip in reg && p.reg[ip].status != reg[ip].status
    ensures forall ip :: ip in p.wentOffline <==> ip in reg && reg[ip].status == Online && p.reg[ip].status == Offline
  {
    var r := map ip | ip in reg :: PassDevice(reg[ip], bl, interval, now);
    Pass(
      r,
      exists ip :: ip in reg && r[ip].status != reg[ip].status,
      set ip | ip in reg && reg[ip].status == Online && r[ip].status == Offline)
  }

  /** After the pass every blacklisted device is in Block, and every other
      device keeps its status unless it went from Online to Offline. */
  lemma OfflinePassStatus(reg: Registry, bl: Blacklist, interval: nat, now: int, ip: string)
    requires ip in reg
    ensures reg[ip].mac in bl ==> OfflinePass(reg, bl, interval, now).reg[ip].status == Block
    ensures reg[ip].mac !in bl && reg[ip].status != Online ==> OfflinePass(reg, bl, interval, now).reg[ip] == reg[ip]
  {
  }

  /** A second pass at the same moment changes nothing and reports
      nothing: Offline and Block are never re-fired. */
  lemma OfflinePassIdempotent(reg: Registry, bl: Blacklist, interval: nat, now: int)
    ensures var p := OfflinePass(reg, bl, interval, now);
      OfflinePass(p.reg, bl, interval, now) == Pass(p.reg, false, {})
  {
    var p := OfflinePass(reg, bl, interval, now);
    var q := OfflinePass(p.reg, bl, interval, now);
    forall ip | ip in p.reg ensures q.reg[ip] == p.reg[ip] {
    }
    assert q.reg == p.reg;
    assert q.wentOffline == {} by {
      forall ip | ip in q.wentOffline ensures false {
      }
    }
  }

  /** The pass keeps every device under its own IP. */
  lemma OfflinePassWellKeyed(reg: Registry, bl: Blacklist, interval: nat, now: int)
    requires WellKeyed(reg)
    ensures WellKeyed(OfflinePass(reg, bl, interval, now).reg)
  {
  }

  /** The documented edge trigger: with a 30-second interval a device
      unseen for 76 seconds goes offline, and a later pass, however late,
      does not report it again while it stays unseen. */
  lemma ExampleOfflineOnce(reg: Registry, bl: Blacklist, ip: string, now: int, later: int)
    requires ip in reg && reg[ip].status == Online && reg[ip].mac !in bl
    requires now - reg[ip].lastSeen == 76
    ensures ip in OfflinePass(reg, bl, 30, now).wentOffline
    ensures ip !in OfflinePass(OfflinePass(reg, bl, 30, now).reg, bl, 30, later).wentOffline
  {
    assert Threshold(30) == 75;
  }

  // ---------------------------------------------------------------------
  // A whole cycle
  // ---------------------------------------------------------------------

  /** The registry after a cycle, whether it is saved, and the
      notifications sent. */
  datatype Outcome = Outcome(reg: Registry, save: bool, events: seq<Event>, wentOffline: set<string>)

  /** One cycle (monitor.rs 142-270) at time `now`: correct the scan, merge
      it, run the offline pass, and save when either part set the flag. */
  function Cycle(reg: Registry, found: seq<Device>, mappings: Mappings, table: Table, bl: Blacklist,
                 valid: Device -> bool, interval: nat, now: int): (o: Outcome)
    ensures reg.Keys <= o.reg.Keys
    ensures forall ip :: ip in o.reg && o.reg[ip].mac in bl ==> o.reg[ip].status == Block
  {
    var corrected := CorrectAll(found, mappings, table);
    var m := MergeAll(reg, corrected, bl, valid, now);
    var p := OfflinePass(m.reg, bl, interval, now);
    Outcome(p.reg, m.changed || p.changed, m.events, p.wentOffline)
  }

  /** A known device that answers in a cycle is not reported offline in
      the same cycle: its timestamp is the cycle's own. */
  lemma AnsweredNotOffline(reg: Registry, found: seq<Device>, bl: Blacklist, valid: Device -> bool, interval: nat, now: int, i: int)
    requires 0 <= i < |found| && valid(found[i]) && found[i].ip in reg
    requires forall j :: 0 <= j < |found| && j != i && valid(found[j]) ==> found[j].ip != found[i].ip
    ensures found[i].ip !in OfflinePass(MergeAll(reg, found, bl, valid, now).reg, bl, interval, now).wentOffline
  {
    MergeAllAt(reg, found, bl, valid, now, i);
  }

  /** A cycle keeps every device under its own IP. */
  lemma CycleWellKeyed(reg: Registry, found: seq<Device>, mappings: Mappings, table: Table, bl: Blacklist,
                       valid: Device -> bool, interval: nat, now: int)
    requires WellKeyed(reg)
    ensures WellKeyed(Cycle(reg, found, mappings, table, bl, valid, interval, now).reg)
  {
    var corrected := CorrectAll(found, mappings, table);
    MergeAllWellKeyed(reg, corrected, bl, valid, now);
    OfflinePassWellKeyed(MergeAll(reg, corrected, bl, valid, now).reg, bl, interval, now);
  }
}
