/** The device record and its presence status. */
module Models {
  import opened Common

  /** A device's presence: answering, silent for too long, or blacklisted. */
  datatype DeviceStatus = Online | Offline | Block

  /** The status's `Display` text, which is also its name in the stored
      device list. */
  function StatusText(s: DeviceStatus): (r: string)
    ensures StatusFromText(r) == Some(s)
  {
    match s
    case Online => "Online"
    case Offline => "Offline"
    case Block => "Block"
  }

  /** Reading a status name back; anything but the three names is refused. */
  function StatusFromText(t: string): (r: Option<DeviceStatus>)
  {
    if t == "Online" then Some(Online)
    else if t == "Offline" then Some(Offline)
    else if t == "Block" then Some(Block)
    else None
  }

  /** Only the three names are read, each as the status it names. */
  lemma StatusFromTextSound(t: string)
    ensures StatusFromText(t).Some? <==> t in {"Online", "Offline", "Block"}
    ensures StatusFromText(t).Some? ==> StatusText(StatusFromText(t).value) == t
  {
  }

  /** Distinct statuses render differently: the three texts are pairwise
      distinct. */
  lemma StatusTextInjective(s1: DeviceStatus, s2: DeviceStatus)
    ensures StatusText(s1) == StatusText(s2) <==> s1 == s2
  {
  }

  /** One device as the registry and the stored list hold it. Timestamps are
      whole seconds. `virtualMac` holds the address seen on the wire when it
      is known to be a virtualisation layer's. */
  datatype Device = Device(
    mac: string,
    ip: string,
    hostname: Option<string>,
    vendor: Option<string>,
    lastSeen: int,
    status: DeviceStatus,
    virtualMac: Option<string>)

  /** `Device::new`: the given identity, seen at `now`, status Online, and
      no virtual address recorded. */
  function NewDevice(mac: string, ip: string, hostname: Option<string>, vendor: Option<string>, now: int): (d: Device)
    ensures d.status == Online
    ensures d.mac == mac && d.ip == ip && d.hostname == hostname && d.vendor == vendor
    ensures d.lastSeen == now && d.virtualMac == None
  {
    Device(mac, ip, hostname, vendor, now, Online, None)
  }
}
