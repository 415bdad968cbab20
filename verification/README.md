# getmacrede in Dafny

A model of the core of getmacrede, a LAN device monitor written in Rust.
The monitor probes an IPv4 range with ARP requests, records the devices
that answer, keeps an IP-keyed registry of them with an
Online/Offline/Block status, corrects virtualised MAC addresses through a
manual mapping and an OUI vendor table, and saves the registry when a
cycle changed it.

The model is pure functions over sequences and maps. Its modules follow
the program's source files:

- `Common` holds `Option`, `Result` and the last-insert-wins fold that builds a map from a list of insertions.
- `Strings` models the standard-library string operations the code relies on: `split`, trimming, ASCII case mapping, `contains` and `u8` parsing.
- `Inet` models the display and parsing of `Ipv4Addr`, the display of pnet's `MacAddr`, and MAC normalisation.
- `Models` models `DeviceStatus`, its `Display`, `Device` and `Device::new`.
- `IpRange` models `parse_ip_range`.
- `Vendor` models `VendorDb::lookup` and `VendorDb::is_virtual`.
- `Proxmox` models:
  - `parse_hwaddr_from_config`;
  - `normalize_mac`;
  - `MacMapping`;
  - the mapping fold of `load_mac_mappings`.
- `Scanner` models the ARP request frame, the send order, the reply filter, the receiver's MAC de-duplication, `get_default_interface` and the interface lookup by name.
- `Monitor` models one cycle of the monitor loop. A cycle has three parts:
  1. MAC correction.
  2. Merging the scan into the registry, with the status table and the notifications.
  3. The offline pass.

  A cycle ends with the save decision.
- `Startup` models the validation filter of `load_devices` and the start-up normalisation and de-duplication by IP.

Time is an integer number of seconds, given as the parameter `now`; one
cycle uses one `now`. Notifications are returned as events. Several
things become parameters:

- `Device::validate` is the predicate `valid`, because its body is not part of this model.
- Reverse DNS is the function `resolve`.
- The vendor table is a map. `Vendor.BuiltinTable` holds the entries of `VendorDb::new` that the model's lemmas use.

## Model

| member | source | states |
|---|---|---|
| Models.StatusText | src/models.rs:12-19 | Each status renders as its own name, and reading that name back gives the status. |
| Models.StatusFromTextSound | src/models.rs:14-18 | Exactly the three rendered names "Online", "Offline" and "Block" read back, each to the status that renders as it. |
| Models.StatusTextInjective | src/models.rs:14-18 | Two statuses render alike exactly when they are equal. |
| Models.NewDevice | src/models.rs:33-42 | A new device is Online and holds the given MAC, IP, hostname and vendor unchanged. It is last seen at the creation time and has no virtual MAC. |
| Strings.Split | src/utils.rs:24 | The number of pieces is one more than the number of separators. No piece holds the separator. Joining the pieces with the separator gives back the text. |
| Strings.SplitJoin | src/utils.rs:24 | Splitting a join of separator-free pieces gives back the pieces. |
| Strings.Trim | src/proxmox.rs:239-240 | The result is a contiguous core of the text. Only whitespace is removed, from both ends. The result neither starts nor ends with whitespace. |
| Strings.TrimNoOp | src/proxmox.rs:240 | A text without whitespace at its ends trims to itself. |
| Strings.ToUpper | src/vendor.rs:151 | Same length, no lower-case ASCII letter left, and other characters are kept. Each character keeps its letter identity. |
| Strings.ToLower | src/vendor.rs:178 | Same length, no upper-case ASCII letter left, and other characters are kept. Each character keeps its letter identity. |
| Strings.ReplaceChar | src/vendor.rs:151 | Each occurrence of one character is replaced by another and nothing else changes. When the two differ, the first no longer occurs. |
| Strings.Contains | src/vendor.rs:179-187 | True exactly when the needle occurs at some position. |
| Strings.ParseByte | src/utils.rs:35 | Parsing a `u8` accepts exactly an optional '+' followed by one or more digits of the radix, with a value below 256. The result is the value of those digits. |
| Strings.ParseByteOfText | src/utils.rs:35 | Reading the decimal text of an octet gives back the octet, with or without a leading '+'. |
| Strings.NatText | src/scanner.rs:74 | The decimal text of a number is one or more digits with no leading zero, and its value is the number. |
| Strings.NatTextOfDigits | src/scanner.rs:74 | A digit string without a leading zero is the decimal text of its own value. |
| Inet.Ipv4Text | src/scanner.rs:74 | The dotted-quad display of an address consists of digits and dots only. |
| Inet.ParseIpv4 | src/utils.rs:32 | Parsing succeeds exactly when the text is four '.'-separated canonical octet texts. A parsed address displays as the input text. |
| Inet.ParseIpv4Text | src/utils.rs:32 | Parsing the display of an address gives back the address. |
| Inet.OctetHex | src/scanner.rs:73 | An octet's field is two hexadecimal digits whose value is the octet. |
| Inet.MacText | src/scanner.rs:73 | A hardware address displays as six two-digit fields separated by ':', field i being octet i. |
| Inet.MacTextInjective | src/scanner.rs:73 | Two hardware addresses display alike only when they are equal. |
| Inet.NormalizeMac | src/proxmox.rs:246-251 | Each character is normalised on its own: upper case, with '-' turned into ':'. The length is preserved, and no '-' or lower-case ASCII letter is left. |
| Inet.NormalizeMacIdempotent | src/proxmox.rs:246-251 | Normalising twice is normalising once. |
| Inet.NormalizeMacEqual | src/vendor.rs:151 | Two texts normalise alike exactly when they agree position by position up to ASCII case and the choice of '-' or ':'. |
| IpRange.Hosts | src/utils.rs:42-45 | The result has `count` addresses. Element k shares the base's first three octets and has last octet base + k. |
| IpRange.ParseIpRange | src/utils.rs:22-48 | Each error is characterised in both directions. InvalidFormat is returned exactly when the text is not two '-'-separated parts. InvalidIp is returned exactly when the first part is not an address. InvalidRange is returned exactly when the suffix is not a `u8`, or when it is below the start octet. On success the result has end − start + 1 elements, and element k is A.B.C.(start + k). |
| IpRange.ParseIpRangeAscending | src/utils.rs:33-45 | The addresses are strictly ascending and all share the base's first three octets. |
| IpRange.NoDashIsFormatError | src/utils.rs:24-27 | A text without '-' is a format error. |
| IpRange.ParsePrintedRange | src/utils.rs:22-48 | Parsing a printed base address followed by "-" and an end octet at or above its last octet gives the whole range. |
| IpRange.RefusedInverted | src/utils.rs:38-40 | A printed range whose start octet is above its end is refused with InvalidRange. |
| IpRange.ExampleRange | src/utils.rs:56-59 | "192.168.1.1-5" gives five addresses, from 192.168.1.1 to 192.168.1.5. |
| IpRange.ExampleRefusals | src/utils.rs:64 | "192.168.1.1" is a format error and "192.168.1.200-50" is a range error. |
| Vendor.OuiKey | src/vendor.rs:151-160 | There is no key exactly when the normalised text has fewer than three ':'-separated groups. |
| Vendor.Lookup | src/vendor.rs:149-173 | The result is decided as follows. Fewer than three groups give nothing. A table hit on the first three groups gives that vendor. A miss gives the Local label when the first group reads as a hexadecimal octet with bit 0x02 set, and nothing otherwise. |
| Vendor.LookupIgnoresCaseAndSeparator | src/vendor.rs:151 | Texts that differ only in ASCII case or in '-' versus ':' look up alike. |
| Vendor.LookupNormalized | src/vendor.rs:151 | Looking up the normalised text is looking up the original. |
| Vendor.LookupRange | src/vendor.rs:161-172 | Every answer is a vendor from the table or the Local label. |
| Vendor.IsVirtual | src/vendor.rs:176-191 | An address is virtual exactly when the lookup finds a vendor whose lower-cased name contains one of the nine keywords. An unknown address is never virtual. |
| Vendor.LocalLabelIsVirtual | src/vendor.rs:166-190 | An address that gets the Local label is always virtual. |
| Vendor.BuiltinLastInsertWins | src/vendor.rs:20-116 | Keys inserted twice keep their later value: 52:54:00 gives "Realtek (or QEMU)" and 00:1B:21 gives "Intel". |
| Vendor.ExampleLookupProxmox | src/vendor.rs:205-208 | BC:24:11:36:2D:6E looks up as "Proxmox Virtual Machine". |
| Vendor.ExampleLookupIntel | src/vendor.rs:211-214 | 68:5B:35:8D:89:41 looks up as "Intel". |
| Vendor.ExampleLookupQemu | src/vendor.rs:106 | 52:54:00:12:34:56 looks up as the later insert, "Realtek (or QEMU)". |
| Vendor.ExampleProxmoxIsVirtual | src/vendor.rs:219 | The Proxmox address is virtual. |
| Vendor.ExampleQemuIsVirtual | src/vendor.rs:220 | The QEMU address is virtual, through the keyword "qemu" of its later vendor name. |
| Vendor.ExampleIntelIsPhysical | src/vendor.rs:221 | The Intel address is not virtual. |
| Proxmox.FirstWhere | src/proxmox.rs:237-243 | The scan finds nothing exactly when no part matches. Otherwise it returns a matching position with no match before it. |
| Proxmox.FirstHwaddr | src/proxmox.rs:237-243 | There is no result exactly when no part is an hwaddr part. Otherwise the result is the value of the first such part. |
| Proxmox.ParseHwaddr | src/proxmox.rs:236-244 | The same over the comma-separated parts of the configuration. An hwaddr part splits on '=' into exactly two pieces and its trimmed key is "hwaddr". |
| Proxmox.ParseHwaddrOfFirst | src/proxmox.rs:236-244 | When part k is the first hwaddr part, the result is its trimmed value. |
| Proxmox.OtherKeyNotHwaddr | src/proxmox.rs:239 | A key=value part whose trimmed key is not "hwaddr" is passed over. |
| Proxmox.HwaddrPartValue | src/proxmox.rs:239-240 | "hwaddr=" followed by a value without '=' is an hwaddr part whose result is the trimmed value. |
| Proxmox.ParseHwaddrOfJoin | src/proxmox.rs:236-244 | Joining comma-free parts whose first hwaddr part is "hwaddr=v" parses to v, when v is trimmed and has no '='. |
| Proxmox.ExampleParseHwaddr | src/proxmox.rs:182-183 | The documented configuration line gives "BC:24:11:36:2D:6E". |
| Proxmox.MappingInserts | src/proxmox.rs:290-291 | One insertion per mapping, in order: its IP and its normalised real MAC. |
| Proxmox.LoadMappings | src/proxmox.rs:289-292 | The keys are exactly the IPs of the list. Each IP maps to the normalised real MAC of its last entry. |
| Proxmox.LoadMappingsNormalized | src/proxmox.rs:289-292 | Every stored MAC is already normalised. |
| Scanner.ArpRequestFrame | src/scanner.rs:111-140 | The frame is 42 octets. The Ethernet header has broadcast destination, the interface MAC as source, and EtherType ARP. The ARP body has hardware type Ethernet, protocol IPv4, lengths 6 and 4, operation Request, sender = interface MAC and source IP, target = all-zero MAC and target IP. |
| Scanner.ArpRequestFrameInjective | src/scanner.rs:111-140 | Two request frames are equal only when built from the same MAC, source and target. |
| Scanner.Requests | src/scanner.rs:93-94 | One request is sent per target, in the order of the target list. |
| Scanner.RequestsTargets | src/scanner.rs:93-94 | Reading the target addresses off the sent frames gives back the target list. |
| Scanner.RequestIsNotReply | src/scanner.rs:60-63 | The scanner's own request frames are readable and never recorded as replies. |
| Scanner.DeviceOf | src/scanner.rs:64-77 | A reply becomes a device whose MAC and IP are the sender fields in display form. The device has the resolved hostname and no vendor, and is Online as of `now`. |
| Scanner.ObservationsFromReplies | src/scanner.rs:57-85 | Every observed device is built from a frame that is an ARP reply aimed at the scanner's own address. |
| Scanner.RepliesObserved | src/scanner.rs:57-85 | Every such reply yields an observed device. |
| Scanner.FirstByMac | src/scanner.rs:79-82 | The recorded list has distinct MACs and covers every observed MAC. Each entry is the first observation with its MAC. |
| Scanner.FirstByMacStep | src/scanner.rs:79-82 | An observation is appended exactly when no recorded device has its MAC. |
| Scanner.AnyWithMac | src/scanner.rs:80 | True exactly when some recorded device has the MAC. |
| Scanner.Capture | src/scanner.rs:51-90 | The receiver loop records the first-by-MAC de-duplication of the observations. The result has distinct MACs and includes every replying MAC. Each result entry is built from a reply to the scanner. |
| Scanner.CapturedCoversReplies | src/scanner.rs:51-90 | Every MAC that replied to the scanner is captured. |
| Scanner.CapturedFromReplies | src/scanner.rs:51-90 | Every captured device is built from a reply to the scanner. |
| Scanner.DefaultInterface | src/scanner.rs:105-109 | Returns the first interface that is up, not loopback and has an address. Returns none when no interface qualifies. |
| Scanner.NamedInterface | src/scanner.rs:17-21 | Returns the first interface with the given name. Returns none when no interface has it. |
| Scanner.SourceIpv4 | src/scanner.rs:27-36 | Returns the interface's first IPv4 address. Returns none when it has none. |
| Monitor.CorrectMac | src/monitor.rs:142-156 | With a manual mapping for the device's IP, the MAC becomes the real MAC, the virtual MAC becomes the MAC seen, and the vendor is the real MAC's. Without one, the MAC and vendor are kept, and a virtual-looking MAC becomes its own virtual MAC. |
| Monitor.CorrectMacKeepsWireMac | src/monitor.rs:143-155 | Whenever the correction changes the MAC or the virtual MAC, the virtual MAC is the MAC seen on the wire. |
| Monitor.ExampleCorrection | src/monitor.rs:143-205 | A device seen at 192.168.1.31 with MAC BC:24:11:AA:BB:CC and mapped to BC:24:11:36:2D:6E is stored with the real MAC and the wire MAC as its virtual MAC. This holds when the IP is new, and when the stored entry already holds the real MAC or the wire MAC. |
| Monitor.ExampleCorrectionKeepsThirdMac | src/monitor.rs:143-205 | When the stored entry at that IP holds a third MAC, that MAC is kept and only the wire MAC is recorded as the virtual MAC. |
| Monitor.CorrectAll | src/monitor.rs:142-156 | Every scanned device is corrected, in order. |
| Monitor.ObservedStatusTable | src/monitor.rs:172-186 | A device that answers becomes Block when blacklisted and Online otherwise, whatever its status was. The flag is set exactly when the status moves. |
| Monitor.UpdateExisting | src/monitor.rs:170-223 | The known device is updated field by field. Its IP is kept, it is last seen `now`, and its status follows the table. "Back online" fires exactly when it was Offline. Vendor, hostname and virtual MAC are replaced only by present values. A scan carrying a virtual MAC other than the stored MAC keeps a learned MAC. Any change besides the timestamp sets the flag. |
| Monitor.UpdateChangedExact | src/monitor.rs:188-222 | The flag is set exactly when something besides the timestamp changed, or in the one case of a kept MAC differing from the scanned MAC. |
| Monitor.KeptRealMacChangesAgain | src/monitor.rs:189-205 | In that case the stored MAC is kept and the flag is set, and it is set again on every later cycle with the same scan. |
| Monitor.RemergeIdenticalNoChange | src/monitor.rs:172-223 | Re-merging an observation identical to a stored, Online, non-blacklisted device sets no change and only refreshes the timestamp. |
| Monitor.Admitted | src/monitor.rs:231-235 | A new device is stored as scanned, except that its status is Block when its MAC is blacklisted. |
| Monitor.MergeOne | src/monitor.rs:161-237 | An invalid device changes nothing. A new IP is stored, with a "new device" event, and sets the flag. A known IP takes the update of the stored device. No other entry changes. |
| Monitor.MergeAll | src/monitor.rs:158-238 | The fold over the scan keeps every entry and adds the valid scanned IPs. Entries the scan does not name are unchanged. |
| Monitor.MergeAllWellKeyed | src/monitor.rs:170-235 | The merge keeps every device under its own IP. |
| Monitor.MergeAllAt | src/monitor.rs:161-238 | When an IP is scanned once, its entry after the fold is the single-step merge of that observation. |
| Monitor.MergeAllNoChange | src/monitor.rs:158-238 | When every scanned IP is known and its update sets no change, the fold sets no change. |
| Monitor.UpdateAgainNoChange | src/monitor.rs:172-223 | Merging the same observation again, later, sets no change once the first merge has taken the scanned MAC. |
| Monitor.AdmittedAgainNoChange | src/monitor.rs:170-235 | A newly stored device observed again sets no change. |
| Monitor.MergeAgainNoChange | src/monitor.rs:158-238 | Merging the same scan twice sets no change and sends no notification the second time. This needs three conditions: each IP is scanned once, the scanned devices are Online, and the first merge took each scanned MAC. |
| Monitor.MergeAllNoEvents | src/monitor.rs:170-236 | A scan whose valid IPs are all stored, none of them Offline, sends neither "new device" nor "back online", provided each IP is scanned once. |
| Monitor.MergeTwiceNoEvents | src/monitor.rs:158-238 | The second merge of the same scan sends no notification, whatever the MACs, when each IP is scanned once and the scanned devices are Online. |
| Monitor.Threshold | src/monitor.rs:255-256 | The offline threshold is 2.5 intervals rounded down, so it lies between two and three intervals. |
| Monitor.PassDevice | src/monitor.rs:242-263 | Only the status can change. A blacklisted device becomes Block. Otherwise the status changes exactly when an Online device has been unseen for longer than the threshold, and then it becomes Offline. |
| Monitor.OfflinePass | src/monitor.rs:240-263 | The keys are kept and every device is passed. The flag is set exactly when some status moved. The offline events are exactly the devices that went from Online to Offline. |
| Monitor.OfflinePassStatus | src/monitor.rs:243-262 | A blacklisted device is Block after the pass. A non-blacklisted device that is not Online is untouched. |
| Monitor.OfflinePassIdempotent | src/monitor.rs:240-263 | A second pass at the same moment changes nothing and reports nothing. |
| Monitor.ExampleOfflineOnce | src/monitor.rs:254-262 | With a 30-second interval, a device unseen for 76 seconds goes offline once and is not reported again by a later pass. |
| Monitor.OfflinePassWellKeyed | src/monitor.rs:240-263 | The pass keeps every device under its own IP. |
| Monitor.Cycle | src/monitor.rs:142-270 | No entry is ever removed, and after a cycle every device with a blacklisted MAC is Block. |
| Monitor.AnsweredNotOffline | src/monitor.rs:223-261 | A known device that answers once in a cycle is not reported offline in that cycle. |
| Monitor.CycleWellKeyed | src/monitor.rs:142-270 | A cycle keeps every device under its own IP. |
| Startup.KeptMembers | src/monitor.rs:470-482 | The records that survive the filter are exactly the valid ones. |
| Startup.KeptAppend | src/monitor.rs:470-482 | The filter decides record by record: filtering a concatenation is concatenating the filtered parts. |
| Startup.KeptAllValid | src/monitor.rs:470-482 | When every record is valid, the filter returns the list unchanged. |
| Startup.KeptDropsInvalid | src/monitor.rs:470-484 | One invalid record makes the kept list strictly shorter, so the dropped count is positive. |
| Startup.FilterValid | src/monitor.rs:469-484 | Every kept record is valid and every valid record is kept. The kept and dropped counts add up to the total. |
| Startup.FilterValidAppend | src/monitor.rs:469-482 | Filtering a concatenation is concatenating the filtered parts, so the file order is kept. |
| Startup.FilterValidNoneDropped | src/monitor.rs:484-490 | Nothing is dropped exactly when every record is valid, and then the list is returned as it is. |
| Startup.OneCorruptedDropped | src/monitor.rs:469-484 | One invalid record among valid ones is dropped alone: the others come back in order and the count is one. |
| Startup.NormalizeStored | src/monitor.rs:77-97 | One stored device is normalised as follows. A disagreeing mapping replaces the MAC and records the old MAC as the virtual MAC unless one exists. An unmapped virtual-looking MAC with no virtual MAC is recorded as such. A missing vendor is looked up. The flag is set exactly when the device changed or had no vendor. |
| Startup.NormalizeStoredIdempotent | src/monitor.rs:77-97 | Normalising a normalised device changes nothing. |
| Startup.Dedupe | src/monitor.rs:99-115 | Start-up keeps one device per valid IP. The kept device is the earliest of those with the latest timestamp. The flag is set exactly when a later-seen device displaced an earlier one. |
| Startup.InsertDisplaces | src/monitor.rs:105-112 | One insertion sets the flag exactly when the device displaces an earlier one with its IP. |
| Startup.PreferredUnique | src/monitor.rs:105-114 | The kept device for an IP is unique. |
| Startup.Start | src/monitor.rs:77-115 | The start-up registry is the de-duplication of the normalised devices. Its flag is set when some device was normalised or displaced another. |
| Startup.StartWellKeyed | src/monitor.rs:105-114 | Start-up stores every device under its own IP. |

## Left out

- File I/O is not modelled: `devices.json`, `blacklist.json` and `mac_mapping.json`, the fs2 locks, serde (de)serialisation and the file-existence checks. The loaded lists and maps are parameters.
- The tokio timer loop, the ARP-cache flush and desktop notifications are not modelled. Notifications are returned as events.
- Wall-clock time is not modelled. `now` is an integer number of seconds, and both clock reads of a cycle share it, so sub-second timestamps are not modelled.
- The terminal table, the statistics header and `pad_colored` are left out, as is the command line in `main.rs`.
- The datalink channel, the receiver thread, its mutex, the 3-second window and the sleeps between requests are left out. Replies are the frames the receiver is given, in arrival order.
- Reverse DNS (`lookup_addr`) is the parameter `resolve`.
- The body of `Device::validate` is the parameter `valid`, because it is not part of this model.
- `ProxmoxClient` and its HTTP calls are network clients and are left out. `get_mac_correction_map` is a placeholder that returns an empty map.
- Scanner.IsReadable: a frame too short for the fields the receiver reads makes the source panic on `unwrap`. Such frames are excluded by precondition.
- Scanner.SourceIpv4: an interface without an IPv4 address makes the source panic. The model returns none instead.
- Scanner.NamedInterface: an unknown interface name makes the source panic. The model returns none instead.
- The call of `scan_network` with three arguments, against its two-parameter declaration, is not modelled; hostnames are always resolved.
- Vendor.BuiltinTable: only the virtualisation block, the keys inserted twice and the keys the lemmas use are listed. Every lemma except the examples takes the table as a parameter.
- Strings.ToUpper, Strings.ToLower: only ASCII letters change case. Rust's Unicode case mapping of other letters is not modelled.
- Monitor.Threshold: `interval` is unbounded, so the `i64` conversion of a huge `u64` interval is not modelled.
- Notification order in the offline pass follows the map's iteration order, which is unspecified. The events are a set.

## Notes on the source

- Requirement versus code on notifications: a blacklisted device that was Offline and answers again is described as going to Block silently. The code sends "back online" for it as well (`src/monitor.rs:172-178`). The model follows the code.
- Requirement versus code on idempotence: merging the same scan twice is described as never setting the change flag the second time. In the code this holds only under the conditions of `Monitor.MergeAgainNoChange`. `Monitor.KeptRealMacChangesAgain` shows a scan that sets the flag on every cycle.
- Requirement versus code on mapped MACs: a device at a mapped IP is described as always stored under its real MAC. When the stored entry holds a MAC that is neither the real MAC nor the wire MAC, the code keeps the stored MAC (`src/monitor.rs:189-196`). `Monitor.ExampleCorrectionKeepsThirdMac` shows this case, and `Monitor.KeptRealMacChangesAgain` shows that it sets the change flag on every cycle.
- Requirement versus code on order: validation of a scanned device is described as coming before MAC correction. The code corrects first and validates the corrected device (`src/monitor.rs:142-166`). The model follows the code.
- Requirement versus code on the offline pass: it is described as visiting only devices not seen in the cycle. The code visits every device. A device seen in the cycle has just been stamped `now`, so it cannot time out (`Monitor.AnsweredNotOffline`).
- `Device` in `src/models.rs` has neither a `virtual_mac` field nor `validate`, yet the monitor uses both. The model adds the field as an optional string and takes `validate` as a parameter.
