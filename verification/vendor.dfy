/** Vendor lookup by OUI (the first three octets of a MAC address), with
    the locally-administered-bit fallback, and the virtual-MAC
    classification built on it. */
module Vendor {
  import opened Common
  import opened Strings
  import opened Inet

  /** OUI text ("XX:XX:XX", upper case) to vendor name. */
  type Table = map<string, string>

  /** The built-in table of `VendorDb::new`, restricted to the whole
      virtualisation block, the keys inserted twice and the keys the
      documented examples use. The entries are listed in the order the
      constructor inserts them; as with successive `HashMap::insert`
      calls, a key listed twice keeps its later value. */
  const BuiltinTable: Table := map[
    "00:15:5D" := "Microsoft Hyper-V",
    "00:50:56" := "VMware",
    "00:0C:29" := "VMware",
    "00:05:69" := "VMware",
    "00:1C:14" := "VMware",
    "52:54:00" := "QEMU/KVM Virtual NIC",
    "BC:24:11" := "Proxmox Virtual Machine",
    "00:16:3E" := "Xen Virtual Machine",
    "08:00:27" := "Oracle VirtualBox",
    "00:21:F6" := "Oracle VirtualBox",
    "00:1B:21" := "Dell",
    "00:26:55" := "Hewlett Packard",
    "00:1E:0B" := "Hewlett Packard",
    "52:54:00" := "Realtek (or QEMU)",
    "00:1B:21" := "Intel",
    "68:5B:35" := "Intel",
    "00:1E:0B" := "Hewlett Packard",
    "00:26:55" := "Hewlett Packard",
    "CA:4E:2B" := "Unknown (Private/Virtual)"
  ]

  /** The label given to an unknown address whose Local bit is set. */
  const LocalLabel: string := "Virtual/Private MAC"

  /** The OUI key of a MAC text: the first three ':'-separated groups of
      the normalised text, re-joined with ':'; none when there are fewer
      than three groups. */
  function OuiKey(mac: string): (k: Option<string>)
    ensures k.None? <==> |Split(NormalizeMac(mac), ':')| < 3
  {
    var parts := Split(NormalizeMac(mac), ':');
    if |parts| < 3 then None else Some(parts[0] + ":" + parts[1] + ":" + parts[2])
  }

  /** The Local bit (0x02 of the first octet, section 2.1 of RFC 7042)
      read from the first group of a MAC text with `u8::from_str_radix(_, 16)`;
      a group that does not read as an octet has no Local bit. */
  predicate LocalBitSet(group: string)
  {
    var b := ParseByte(group, 16);
    b.Some? && (b.value as bv8) & 0x02 != 0
  }

  /** `VendorDb::lookup`. A table hit on the OUI key gives the table's
      vendor; a miss gives the Local label when the first group's Local
      bit is set, and nothing otherwise; fewer than three groups give
      nothing. */
  function Lookup(table: Table, mac: string): (r: Option<string>)
    ensures OuiKey(mac).None? ==> r == None
    ensures OuiKey(mac).Some? && OuiKey(mac).value in table ==> r == Some(table[OuiKey(mac).value])
    ensures OuiKey(mac).Some? && OuiKey(mac).value !in table ==>
      r == (if LocalBitSet(Split(NormalizeMac(mac), ':')[0]) then Some(LocalLabel) else None)
  {
    var parts := Split(NormalizeMac(mac), ':');
    if |parts| < 3 then None
    else
      var oui := parts[0] + ":" + parts[1] + ":" + parts[2];
      if oui in table then Some(table[oui])
      else if LocalBitSet(parts[0]) then Some(LocalLabel)
      else None
  }

  /** The lookup sees only the normalised text, so it ignores ASCII letter
      case and treats '-' and ':' alike. */
  lemma LookupIgnoresCaseAndSeparator(table: Table, m1: string, m2: string)
    requires |m1| == |m2|
    requires forall i :: 0 <= i < |m1| ==> MacChar(m1[i]) == MacChar(m2[i])
    ensures Lookup(table, m1) == Lookup(table, m2)
  {
    NormalizeMacEqual(m1, m2);
  }

  /** Looking up a normalised text is looking up the original. */
  lemma LookupNormalized(table: Table, mac: string)
    ensures Lookup(table, NormalizeMac(mac)) == Lookup(table, mac)
  {
    NormalizeMacIdempotent(mac);
  }

  /** Every answer is either a vendor from the table or the Local label. */
  lemma LookupRange(table: Table, mac: string)
    ensures Lookup(table, mac).Some? ==>
      Lookup(table, mac).value in table.Values || Lookup(table, mac).value == LocalLabel
  {
  }

  /** The lower-case keywords that mark a vendor name as virtual. */
  const VirtualKeywords: seq<string> :=
    ["virtual", "vmware", "qemu", "kvm", "proxmox", "hyper-v", "xen", "virtualbox", "private"]

  /** `VendorDb::is_virtual`: the lookup found a vendor and its lower-cased
      name contains one of the keywords. An unknown address is never
      virtual. */
  function IsVirtual(table: Table, mac: string): (r: bool)
    ensures Lookup(table, mac).None? ==> !r
    ensures r <==> (Lookup(table, mac).Some?
      && exists i :: 0 <= i < |VirtualKeywords| && Contains(ToLower(Lookup(table, mac).value), VirtualKeywords[i]))
  {
    match Lookup(table, mac)
    case None => false
    case Some(vendor) =>
      var lower := ToLower(vendor);
      exists i | 0 <= i < |VirtualKeywords| :: Contains(lower, VirtualKeywords[i])
  }

  /** An unknown address whose Local bit is set is always virtual: the
      Local label itself holds the keywords "virtual" and "private". */
  lemma LocalLabelIsVirtual(table: Table, mac: string)
    requires Lookup(table, mac) == Some(LocalLabel)
    ensures IsVirtual(table, mac)
  {
    assert ToLower(LocalLabel) == "virtual/private mac";
    assert OccursAt(ToLower(LocalLabel), VirtualKeywords[0], 0);
  }

  // ---------------------------------------------------------------------
  // The built-in table and the documented examples
  // ---------------------------------------------------------------------

  /** A key inserted twice keeps its last value. */
  lemma BuiltinLastInsertWins()
    ensures BuiltinTable["52:54:00"] == "Realtek (or QEMU)"
    ensures BuiltinTable["00:1B:21"] == "Intel"
    ensures BuiltinTable["BC:24:11"] == "Proxmox Virtual Machine"
    ensures BuiltinTable["68:5B:35"] == "Intel"
  {
  }

  /** The OUI key of a normalised text made of three colon-free groups
      followed by more text. */
  lemma {:induction false} OuiKeyOfGroups(g0: string, g1: string, g2: string, rest: string)
    requires ':' !in g0 && ':' !in g1 && ':' !in g2
    requires NormalizeMac(g0 + ":" + g1 + ":" + g2 + ":" + rest) == g0 + ":" + g1 + ":" + g2 + ":" + rest
    ensures OuiKey(g0 + ":" + g1 + ":" + g2 + ":" + rest) == Some(g0 + ":" + g1 + ":" + g2)
    ensures Split(NormalizeMac(g0 + ":" + g1 + ":" + g2 + ":" + rest), ':')[0] == g0
  {
    var mac := g0 + ":" + g1 + ":" + g2 + ":" + rest;
    assert mac == g0 + [':'] + (g1 + [':'] + (g2 + [':'] + rest));
    SplitAfterWord(g2, rest, ':');
    SplitAfterWord(g1, g2 + [':'] + rest, ':');
    SplitAfterWord(g0, g1 + [':'] + (g2 + [':'] + rest), ':');
  }

  /** A text with no '-' and no lower-case ASCII letter is already
      normalised. */
  lemma NormalizedAlready(mac: string)
    requires '-' !in mac
    requires forall i :: 0 <= i < |mac| ==> !IsAsciiLower(mac[i])
    ensures NormalizeMac(mac) == mac
  {
  }

  /** `needle` cannot occur in a text that lacks its first character. */
  lemma NotContainedWithoutFirstChar(s: string, needle: string)
    requires |needle| > 0 && needle[0] !in s
    ensures !Contains(s, needle)
  {
  }

  /** Looking up a normalised text made of three groups and more: the
      table entry of the first three groups. */
  lemma LookupOfGroups(table: Table, g0: string, g1: string, g2: string, rest: string)
    requires ':' !in g0 && ':' !in g1 && ':' !in g2 && '-' !in g0 + ":" + g1 + ":" + g2 + ":" + rest
    requires forall i :: 0 <= i < |g0 + ":" + g1 + ":" + g2 + ":" + rest| ==> !IsAsciiLower((g0 + ":" + g1 + ":" + g2 + ":" + rest)[i])
    requires g0 + ":" + g1 + ":" + g2 in table
    ensures Lookup(table, g0 + ":" + g1 + ":" + g2 + ":" + rest) == Some(table[g0 + ":" + g1 + ":" + g2])
  {
    NormalizedAlready(g0 + ":" + g1 + ":" + g2 + ":" + rest);
    OuiKeyOfGroups(g0, g1, g2, rest);
  }

  /** The documented lookups: a Proxmox address, an Intel address, and a
      QEMU address whose prefix was inserted twice. */
  lemma ExampleLookupProxmox()
    ensures Lookup(BuiltinTable, "BC:24:11:36:2D:6E") == Some("Proxmox Virtual Machine")
  {
    BuiltinLastInsertWins();
    assert "BC:24:11:36:2D:6E" == "BC" + ":" + "24" + ":" + "11" + ":" + "36:2D:6E";
    assert "BC" + ":" + "24" + ":" + "11" == "BC:24:11";
    LookupOfGroups(BuiltinTable, "BC", "24", "11", "36:2D:6E");
  }

  lemma ExampleLookupIntel()
    ensures Lookup(BuiltinTable, "68:5B:35:8D:89:41") == Some("Intel")
  {
    BuiltinLastInsertWins();
    assert "68:5B:35:8D:89:41" == "68" + ":" + "5B" + ":" + "35" + ":" + "8D:89:41";
    assert "68" + ":" + "5B" + ":" + "35" == "68:5B:35";
    LookupOfGroups(BuiltinTable, "68", "5B", "35", "8D:89:41");
  }

  lemma ExampleLookupQemu()
    ensures Lookup(BuiltinTable, "52:54:00:12:34:56") == Some("Realtek (or QEMU)")
  {
    BuiltinLastInsertWins();
    assert "52:54:00:12:34:56" == "52" + ":" + "54" + ":" + "00" + ":" + "12:34:56";
    assert "52" + ":" + "54" + ":" + "00" == "52:54:00";
    LookupOfGroups(BuiltinTable, "52", "54", "00", "12:34:56");
  }

  /** A vendor name without the first letter of any keyword is not
      virtual. */
  lemma NoKeywordWithoutLetters(vendor: string)
    requires forall i :: 0 <= i < |VirtualKeywords| ==> VirtualKeywords[i][0] !in ToLower(vendor)
    ensures forall i :: 0 <= i < |VirtualKeywords| ==> !Contains(ToLower(vendor), VirtualKeywords[i])
  {
    forall i | 0 <= i < |VirtualKeywords| ensures !Contains(ToLower(vendor), VirtualKeywords[i]) {
      NotContainedWithoutFirstChar(ToLower(vendor), VirtualKeywords[i]);
    }
  }

  lemma ProxmoxNameIsVirtual(vendor: string)
    requires vendor == "Proxmox Virtual Machine"
    ensures Contains(ToLower(vendor), VirtualKeywords[0])
  {
    assert ToLower(vendor) == "proxmox virtual machine";
    assert OccursAt(ToLower(vendor), "virtual", 8);
  }

  lemma QemuNameIsVirtual(vendor: string)
    requires vendor == "Realtek (or QEMU)"
    ensures Contains(ToLower(vendor), VirtualKeywords[2])
  {
    assert ToLower(vendor) == "realtek (or qemu)";
    assert OccursAt(ToLower(vendor), "qemu", 12);
  }

  lemma IntelNameIsPhysical(vendor: string)
    requires vendor == "Intel"
    ensures forall i :: 0 <= i < |VirtualKeywords| ==> !Contains(ToLower(vendor), VirtualKeywords[i])
  {
    assert ToLower(vendor) == "intel";
    NoKeywordWithoutLetters(vendor);
  }

  /** The documented classification: Proxmox and QEMU addresses are
      virtual, the Intel address is not. */
  lemma ExampleProxmoxIsVirtual()
    ensures IsVirtual(BuiltinTable, "BC:24:11:36:2D:6E")
  {
    ExampleLookupProxmox();
    ProxmoxNameIsVirtual("Proxmox Virtual Machine");
  }

  lemma ExampleQemuIsVirtual()
    ensures IsVirtual(BuiltinTable, "52:54:00:12:34:56")
  {
    ExampleLookupQemu();
    QemuNameIsVirtual("Realtek (or QEMU)");
  }

  lemma ExampleIntelIsPhysical()
    ensures !IsVirtual(BuiltinTable, "68:5B:35:8D:89:41")
  {
    ExampleLookupIntel();
    IntelNameIsPhysical("Intel");
  }
}
