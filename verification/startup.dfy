/** What the monitor does with the stored device list before its first
    cycle: `load_devices` drops the records that fail validation, and the
    start-up pass applies the manual MAC mapping, the virtual-MAC
    heuristic and the vendor lookup to each stored device, then keeps one
    device per IP. */
module Startup {
  import opened Common
  import opened Models
  import opened Vendor
  import opened Monitor

  // ---------------------------------------------------------------------
  // load_devices
  // ---------------------------------------------------------------------

  /** The loaded list: the valid records in file order, and how many were
      dropped. */
  datatype Loaded = Loaded(kept: seq<Device>, filtered: nat)

  /** The records that pass `validate`, in file order. */
  function Kept(ds: seq<Device>, valid: Device -> bool): (r: seq<Device>)
    ensures |r| <= |ds|
  {
    if |ds| == 0 then []
    else
      var r := Kept(ds[..|ds| - 1], valid);
      if valid(ds[|ds| - 1]) then r + [ds[|ds| - 1]] else r
  }

  /** The kept records are exactly the valid ones. */
  lemma {:induction false} KeptMembers(ds: seq<Device>, valid: Device -> bool)
    ensures forall i :: 0 <= i < |Kept(ds, valid)| ==> valid(Kept(ds, valid)[i])
    ensures forall d :: d in Kept(ds, valid) <==> d in ds && valid(d)
    decreases |ds|
  {
    if |ds| > 0 {
      var init := ds[..|ds| - 1];
      var last := ds[|ds| - 1];
      KeptMembers(init, valid);
      assert ds == init + [last];
      var r := Kept(init, valid);
      assert Kept(ds, valid) == if valid(last) then r + [last] else r;
    }
  }

  /** `load_devices`' filter: keep the records that pass `validate`, in
      order, and report as dropped the total minus the kept count. Every
      kept record is valid and every valid record is kept. */
  function FilterValid(ds: seq<Device>, valid: Device -> bool): (l: Loaded)
    ensures |l.kept| + l.filtered == |ds|
    ensures forall i :: 0 <= i < |l.kept| ==> valid(l.kept[i])
    ensures forall d :: d in l.kept <==> d in ds && valid(d)
  {
    KeptMembers(ds, valid);
    var kept := Kept(ds, valid);
    Loaded(kept, |ds| - |kept|)
  }

  /** The filter works record by record. */
  lemma {:induction false} KeptAppend(a: seq<Device>, b: seq<Device>, valid: Device -> bool)
    ensures Kept(a + b, valid) == Kept(a, valid) + Kept(b, valid)
    decreases |b|
  {
    if |b| == 0 {
      assert a + b == a;
    } else {
      var b' := b[..|b| - 1];
      var x := b[|b| - 1];
      KeptAppend(a, b', valid);
      assert (a + b)[..|a + b| - 1] == a + b';
      assert (a + b)[|a + b| - 1] == x;
      var l := Kept(a + b', valid);
      assert Kept(a + b, valid) == if valid(x) then l + [x] else l;
      var lb := Kept(b', valid);
      assert Kept(b, valid) == if valid(x) then lb + [x] else lb;
    }
  }

  /** The filter keeps the file order: filtering a concatenation is
      concatenating the filtered parts, and the dropped counts add up. */
  lemma FilterValidAppend(a: seq<Device>, b: seq<Device>, valid: Device -> bool)
    ensures FilterValid(a + b, valid).kept == FilterValid(a, valid).kept + FilterValid(b, valid).kept
    ensures FilterValid(a + b, valid).filtered == FilterValid(a, valid).filtered + FilterValid(b, valid).filtered
  {
    KeptAppend(a, b, valid);
  }

  /** A list of valid records is kept whole. */
  lemma {:induction false} KeptAllValid(ds: seq<Device>, valid: Device -> bool)
    requires forall i :: 0 <= i < |ds| ==> valid(ds[i])
    ensures Kept(ds, valid) == ds
    decreases |ds|
  {
    if |ds| > 0 {
      var init := ds[..|ds| - 1];
      KeptAllValid(init, valid);
      assert init + [ds[|ds| - 1]] == ds;
    }
  }

  /** An invalid record makes the kept list shorter than the input. */
  lemma {:induction false} KeptDropsInvalid(ds: seq<Device>, valid: Device -> bool, j: int)
    requires 0 <= j < |ds| && !valid(ds[j])
    ensures |Kept(ds, valid)| < |ds|
    decreases |ds|
  {
    var init := ds[..|ds| - 1];
    if j < |ds| - 1 {
      assert init[j] == ds[j];
      KeptDropsInvalid(init, valid, j);
    }
  }

  /** Nothing is dropped exactly when every record is valid, and then the
      list is returned whole. */
  lemma FilterValidNoneDropped(ds: seq<Device>, valid: Device -> bool)
    ensures FilterValid(ds, valid).filtered == 0 <==> forall i :: 0 <= i < |ds| ==> valid(ds[i])
    ensures FilterValid(ds, valid).filtered == 0 ==> FilterValid(ds, valid).kept == ds
  {
    if forall i :: 0 <= i < |ds| ==> valid(ds[i]) {
      KeptAllValid(ds, valid);
    } else {
      var j :| 0 <= j < |ds| && !valid(ds[j]);
      KeptDropsInvalid(ds, valid, j);
    }
  }

  /** One corrupted record among valid ones: loading returns the others,
      in order, and reports one record dropped. */
  lemma OneCorruptedDropped(a: seq<Device>, x: Device, b: seq<Device>, valid: Device -> bool)
    requires forall i :: 0 <= i < |a| ==> valid(a[i])
    requires forall i :: 0 <= i < |b| ==> valid(b[i])
    requires !valid(x)
    ensures FilterValid(a + [x] + b, valid) == Loaded(a + b, 1)
  {
    FilterValidAppend(a + [x], b, valid);
    FilterValidAppend(a, [x], valid);
    FilterValidNoneDropped(a, valid);
    FilterValidNoneDropped(b, valid);
    assert [x][..0] == [];
  }

  // ---------------------------------------------------------------------
  // Start-up normalisation of one stored device
  // ---------------------------------------------------------------------

  /** The start-up treatment of one stored device (monitor.rs 79-97) and
      whether it set the `mapping_applied` flag. With a manual mapping
      that disagrees with the stored MAC, the stored MAC becomes the real
      one and is kept as the virtual MAC unless one is already recorded.
      Without a mapping, a MAC that looks virtual and has no virtual MAC
      recorded becomes its own virtual MAC. A missing vendor is looked up
      from the resulting MAC. The flag is set exactly when the device
      changes or had no vendor. */
  function NormalizeStored(d: Device, mappings: Mappings, table: Table): (r: (Device, bool))
    ensures r.0.ip == d.ip && r.0.hostname == d.hostname && r.0.lastSeen == d.lastSeen && r.0.status == d.status
    ensures d.ip in mappings && d.mac != mappings[d.ip] ==>
      r.0.mac == mappings[d.ip] && r.0.virtualMac == (if d.virtualMac.None? then Some(d.mac) else d.virtualMac)
    ensures d.ip in mappings && d.mac == mappings[d.ip] ==> r.0.mac == d.mac && r.0.virtualMac == d.virtualMac
    ensures d.ip !in mappings ==> r.0.mac == d.mac
    ensures d.ip !in mappings ==>
      r.0.virtualMac == (if d.virtualMac.None? && IsVirtual(table, d.mac) then Some(d.mac) else d.virtualMac)
    ensures r.0.vendor == if d.vendor.None? then Lookup(table, r.0.mac) else d.vendor
    ensures r.1 <==> r.0 != d || d.vendor.None?
  {
    var (m, a1) :=
      if d.ip in mappings then
        var realMac := mappings[d.ip];
        if d.mac != realMac then
          (d.(virtualMac := if d.virtualMac.None? then Some(d.mac) else d.virtualMac, mac := realMac), true)
        else
          (d, false)
      else if d.virtualMac.None? && IsVirtual(table, d.mac) then
        (d.(virtualMac := Some(d.mac)), true)
      else
        (d, false);
    if m.vendor.None? then (m.(vendor := Lookup(table, m.mac)), true) else (m, a1)
  }

  /** A normalised device is a fixed point: normalising it again changes
      nothing, and sets the flag only when the lookup found no vendor. */
  lemma NormalizeStoredIdempotent(d: Device, mappings: Mappings, table: Table)
    ensures var n := NormalizeStored(d, mappings, table).0;
      NormalizeStored(n, mappings, table).0 == n
      && (NormalizeStored(n, mappings, table).1 <==> n.vendor.None?)
  {
  }

  // ---------------------------------------------------------------------
  // Start-up de-duplication
  // ---------------------------------------------------------------------

  /** Among the valid devices of `ns` with its IP, `ns[k]` is the one
      start-up keeps: every earlier one was seen strictly before it, and
      no later one was seen after it. */
  predicate IsPreferred(ns: seq<Device>, valid: Device -> bool, k: int)
  {
    0 <= k < |ns| && valid(ns[k])
    && forall j :: 0 <= j < |ns| && valid(ns[j]) && ns[j].ip == ns[k].ip ==>
         (j < k ==> ns[j].lastSeen < ns[k].lastSeen) && (k < j ==> ns[j].lastSeen <= ns[k].lastSeen)
  }

  /** `ns[k]` displaces an earlier device with its IP: there is one, and
      every earlier one was seen strictly before it. */
  predicate Displaces(ns: seq<Device>, valid: Device -> bool, k: int)
  {
    0 <= k < |ns| && valid(ns[k])
    && (exists j :: 0 <= j < k && valid(ns[j]) && ns[j].ip == ns[k].ip)
    && forall j :: 0 <= j < k && valid(ns[j]) && ns[j].ip == ns[k].ip ==> ns[j].lastSeen < ns[k].lastSeen
  }

  /** The IPs of the valid devices. */
  function IpsOf(ns: seq<Device>, valid: Device -> bool): set<string>
  {
    set i | 0 <= i < |ns| && valid(ns[i]) :: ns[i].ip
  }

  /** The registry start-up builds and its `mapping_applied` flag. */
  datatype Built = Built(reg: Registry, applied: bool)

  /** One insertion of start-up's loop: an invalid device is skipped; a
      device whose IP is taken replaces the stored one only when seen
      strictly later, and the replacement sets the flag. */
  function Insert(b: Built, d: Device, valid: Device -> bool): Built
  {
    if !valid(d) then b
    else if d.ip in b.reg then
      if d.lastSeen > b.reg[d.ip].lastSeen then Built(b.reg[d.ip := d], true) else b
    else
      Built(b.reg[d.ip := d], b.applied)
  }

  /** Inserting normalised devices one after another into an empty map.
      The registry holds exactly the valid IPs, each with its preferred
      device, and the flag is set exactly when a replacement happened. */
  function Dedupe(ns: seq<Device>, valid: Device -> bool): (b: Built)
    ensures b.reg.Keys == IpsOf(ns, valid)
    ensures forall ip :: ip in b.reg ==> exists k :: IsPreferred(ns, valid, k) && ns[k] == b.reg[ip] && ns[k].ip == ip
    ensures b.applied <==> exists k :: Displaces(ns, valid, k)
    decreases |ns|
  {
    if |ns| == 0 then Built(map[], false)
    else
      var init := ns[..|ns| - 1];
      var d := ns[|ns| - 1];
      var b := Dedupe(init, valid);
      assert init + [d] == ns;
      InsertKeys(init, d, valid, b);
      InsertPreferred(init, d, valid, b);
      InsertDisplaces(init, d, valid, b);
      Insert(b, d, valid)
  }

  /** Inserting one more device adds its IP when it is valid. */
  lemma InsertKeys(init: seq<Device>, d: Device, valid: Device -> bool, b: Built)
    requires b.reg.Keys == IpsOf(init, valid)
    ensures Insert(b, d, valid).reg.Keys == IpsOf(init + [d], valid)
  {
    var ns := init + [d];
    assert forall i :: 0 <= i < |init| ==> ns[i] == init[i];
    assert ns[|init|] == d;
    assert IpsOf(ns, valid) == IpsOf(init, valid) + (if valid(d) then {d.ip} else {});
  }

  /** Inserting one more device keeps every stored device preferred. */
  lemma InsertPreferred(init: seq<Device>, d: Device, valid: Device -> bool, b: Built)
    requires b.reg.Keys == IpsOf(init, valid)
    requires forall ip :: ip in b.reg ==> exists k :: IsPreferred(init, valid, k) && init[k] == b.reg[ip] && init[k].ip == ip
    ensures var r := Insert(b, d, valid);
      forall ip :: ip in r.reg ==> exists k :: IsPreferred(init + [d], valid, k) && (init + [d])[k] == r.reg[ip] && (init + [d])[k].ip == ip
  {
    var ns := init + [d];
    var n := |init|;
    var r := Insert(b, d, valid);
    assert forall i :: 0 <= i < n ==> ns[i] == init[i];
    assert ns[n] == d;
    forall ip | ip in r.reg ensures exists k :: IsPreferred(ns, valid, k) && ns[k] == r.reg[ip] && ns[k].ip == ip {
      if valid(d) && ip == d.ip && (d.ip !in b.reg || d.lastSeen > b.reg[d.ip].lastSeen) {
        if d.ip in b.reg {
          var k :| IsPreferred(init, valid, k) && init[k] == b.reg[ip] && init[k].ip == ip;
        }
        assert IsPreferred(ns, valid, n);
      } else {
        var k :| IsPreferred(init, valid, k) && init[k] == b.reg[ip] && init[k].ip == ip;
        assert IsPreferred(ns, valid, k);
      }
    }
  }

  /** Inserting one more device sets the flag exactly when it displaces
      an earlier one. */
  lemma InsertDisplaces(init: seq<Device>, d: Device, valid: Device -> bool, b: Built)
    requires b.reg.Keys == IpsOf(init, valid)
    requires forall ip :: ip in b.reg ==> exists k :: IsPreferred(init, valid, k) && init[k] == b.reg[ip] && init[k].ip == ip
    requires b.applied <==> exists k :: Displaces(init, valid, k)
    ensures Insert(b, d, valid).applied <==> exists k :: Displaces(init + [d], valid, k)
  {
    var ns := init + [d];
    var n := |init|;
    assert forall i :: 0 <= i < n ==> ns[i] == init[i];
    assert ns[n] == d;
    assert forall k :: Displaces(init, valid, k) ==> Displaces(ns, valid, k);
    assert forall k :: Displaces(ns, valid, k) && k < n ==> Displaces(init, valid, k);
    if valid(d) && d.ip in b.reg {
      var k :| IsPreferred(init, valid, k) && init[k] == b.reg[d.ip] && init[k].ip == d.ip;
      assert Displaces(ns, valid, n) <==> d.lastSeen > b.reg[d.ip].lastSeen;
    } else {
      assert !Displaces(ns, valid, n);
    }
  }

  /** The device start-up keeps for an IP is unique. */
  lemma PreferredUnique(ns: seq<Device>, valid: Device -> bool, k1: int, k2: int)
    requires IsPreferred(ns, valid, k1) && IsPreferred(ns, valid, k2) && ns[k1].ip == ns[k2].ip
    ensures k1 == k2
  {
  }

  /** The stored devices after normalisation, in file order. */
  function Normalized(known: seq<Device>, mappings: Mappings, table: Table): seq<Device>
  {
    seq(|known|, i requires 0 <= i < |known| => NormalizeStored(known[i], mappings, table).0)
  }

  /** Normalisation changed at least one stored device. */
  predicate AnyNormalized(known: seq<Device>, mappings: Mappings, table: Table)
  {
    exists i :: 0 <= i < |known| && NormalizeStored(known[i], mappings, table).1
  }

  lemma NormalizedSnoc(known: seq<Device>, mappings: Mappings, table: Table)
    requires |known| > 0
    ensures var init := known[..|known| - 1];
      var n := NormalizeStored(known[|known| - 1], mappings, table);
      && Normalized(known, mappings, table) == Normalized(init, mappings, table) + [n.0]
      && (AnyNormalized(known, mappings, table) <==> AnyNormalized(init, mappings, table) || n.1)
  {
    var init := known[..|known| - 1];
    assert forall i :: 0 <= i < |init| ==> init[i] == known[i];
  }

  /** The flag `Insert` starts from only ever survives or is set. */
  lemma InsertFlag(b: Built, x: bool, d: Device, valid: Device -> bool)
    ensures Insert(Built(b.reg, b.applied || x), d, valid)
         == Built(Insert(b, d, valid).reg, Insert(b, d, valid).applied || x)
  {
  }

  /** The start-up pass (monitor.rs 77-115): normalise each stored device,
      then insert it as `Insert` does. The registry is that of `Dedupe` on
      the normalised devices; the flag is set when some device was
      normalised or displaced another, even one that then fails
      validation. */
  function Start(known: seq<Device>, mappings: Mappings, table: Table, valid: Device -> bool): (b: Built)
    ensures var ns := Normalized(known, mappings, table);
      b == Built(Dedupe(ns, valid).reg, Dedupe(ns, valid).applied || AnyNormalized(known, mappings, table))
  {
    if |known| == 0 then Built(map[], false)
    else
      var init := known[..|known| - 1];
      var n := NormalizeStored(known[|known| - 1], mappings, table);
      var b := Start(init, mappings, table, valid);
      NormalizedSnoc(known, mappings, table);
      var ns := Normalized(known, mappings, table);
      assert ns[..|ns| - 1] == Normalized(init, mappings, table);
      InsertFlag(Built(b.reg, Dedupe(Normalized(init, mappings, table), valid).applied), AnyNormalized(init, mappings, table) || n.1, n.0, valid);
      Insert(Built(b.reg, b.applied || n.1), n.0, valid)
  }

  /** Start-up stores every device under its own IP. */
  lemma StartWellKeyed(known: seq<Device>, mappings: Mappings, table: Table, valid: Device -> bool)
    ensures WellKeyed(Start(known, mappings, table, valid).reg)
  {
    var ns := Normalized(known, mappings, table);
    var reg := Start(known, mappings, table, valid).reg;
    forall ip | ip in reg ensures reg[ip].ip == ip {
      var k :| IsPreferred(ns, valid, k) && ns[k] == reg[ip] && ns[k].ip == ip;
    }
  }
}
