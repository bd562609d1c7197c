/** HID device discovery: the vid/pid filter of `enumerateDevices`, the
  * first-match rule of `findDeviceByUsage`, and the RGB-endpoint search of the
  * stand-alone tool. What the operating system lists is an input. */
module Devices {
  import opened Bytes

  /** `unsigned short`. */
  type u16 = x: int | 0 <= x < 65536

  const CorsairVid: u16 := 0x1B1C
  const Hs80WirelessPid: u16 := 0x0A6B
  const RgbUsagePage: u16 := 0xFF42
  const RgbUsage: u16 := 0x0001
  const EventUsage: u16 := 0x0002

  /** `DeviceInfo`: one HID interface as the library reports it. */
  datatype DeviceInfo = DeviceInfo(
    path: string, vendorId: u16, productId: u16, usagePage: u16, usage: u16,
    manufacturer: string, product: string)

  /** One HID interface the operating system lists, with the outcome of each
    * query the enumeration makes on it: whether its detail data could be read
    * and it could be opened, whether its attributes could be read, and whether
    * its capabilities could be read. `info` holds what those queries return. */
  datatype SystemDevice = SystemDevice(info: DeviceInfo, opens: bool, attributesOk: bool, capsOk: bool)

  /** A default-constructed `DeviceInfo`: what a caller's `outInfo` holds
    * before a search. */
  const NoDevice := DeviceInfo("", 0, 0, 0, 0, "", "")

  /** The vid/pid filter; 0 is a wildcard. */
  predicate MatchesIds(vid: u16, pid: u16, d: DeviceInfo)
  {
    (vid == 0 || d.vendorId == vid) && (pid == 0 || d.productId == pid)
  }

  /** Whether `enumerateDevices(vid, pid)` lists a system device. */
  predicate Listed(vid: u16, pid: u16, s: SystemDevice)
  {
    s.opens && s.attributesOk && MatchesIds(vid, pid, s.info) && s.capsOk
  }

  /** What `enumerateDevices(vid, pid)` returns, in system order. */
  function Enumerated(system: seq<SystemDevice>, vid: u16, pid: u16): seq<DeviceInfo>
  {
    if |system| == 0 then []
    else
      var last := system[|system| - 1];
      Enumerated(system[..|system| - 1], vid, pid) + (if Listed(vid, pid, last) then [last.info] else [])
  }

  /** `enumerateDevices`: walks the system list and pushes every interface
    * that opens, answers its queries and passes the filter. */
  method EnumerateDevices(system: seq<SystemDevice>, vid: u16, pid: u16) returns (devices: seq<DeviceInfo>)
    ensures devices == Enumerated(system, vid, pid)
  {
    devices := [];
    var i := 0;
    while i < |system|
      invariant 0 <= i <= |system|
      invariant devices == Enumerated(system[..i], vid, pid)
    {
      var s := system[i];
      assert system[..i + 1][..i] == system[..i];
      if s.opens && s.attributesOk {
        if MatchesIds(vid, pid, s.info) {
          if s.capsOk {
            devices := devices + [s.info];
          }
        }
      }
      i := i + 1;
    }
    assert system[..|system|] == system;
  }

  /** The listed devices are exactly those of the listed system entries, in
    * system order, and each passes the filter. */
  lemma {:induction false} EnumeratedMembers(system: seq<SystemDevice>, vid: u16, pid: u16)
    ensures forall d :: d in Enumerated(system, vid, pid) ==> MatchesIds(vid, pid, d)
    ensures forall d :: d in Enumerated(system, vid, pid) <==>
      exists i :: 0 <= i < |system| && Listed(vid, pid, system[i]) && system[i].info == d
    ensures |Enumerated(system, vid, pid)| <= |system|
  {
    if |system| > 0 {
      var init := system[..|system| - 1];
      EnumeratedMembers(init, vid, pid);
      forall d | (exists i :: 0 <= i < |system| && Listed(vid, pid, system[i]) && system[i].info == d)
        ensures d in Enumerated(system, vid, pid)
      {
        var i :| 0 <= i < |system| && Listed(vid, pid, system[i]) && system[i].info == d;
        if i < |system| - 1 {
          assert init[i] == system[i];
        }
      }
    }
  }

  /** With both ids 0 nothing is filtered out by id. */
  lemma {:induction false} WildcardKeepsEveryReachable(system: seq<SystemDevice>)
    ensures forall i :: 0 <= i < |system| && system[i].opens && system[i].attributesOk && system[i].capsOk ==>
      system[i].info in Enumerated(system, 0, 0)
  {
    EnumeratedMembers(system, 0, 0);
    forall i | 0 <= i < |system| && system[i].opens && system[i].attributesOk && system[i].capsOk
      ensures system[i].info in Enumerated(system, 0, 0)
    {
      assert Listed(0, 0, system[i]);
    }
  }

  predicate HasUsage(d: DeviceInfo, usagePage: u16, usage: u16)
  {
    d.usagePage == usagePage && d.usage == usage
  }

  /** The first device with the given usage page and usage. */
  function FirstWithUsage(devices: seq<DeviceInfo>, usagePage: u16, usage: u16): Option<DeviceInfo>
  {
    if |devices| == 0 then None
    else if HasUsage(devices[0], usagePage, usage) then Some(devices[0])
    else FirstWithUsage(devices[1..], usagePage, usage)
  }

  /** `FirstWithUsage` finds a device with the usage that no earlier device
    * has, and finds nothing exactly when no device has the usage. */
  lemma {:induction false} FirstWithUsageIsFirst(devices: seq<DeviceInfo>, usagePage: u16, usage: u16)
    ensures FirstWithUsage(devices, usagePage, usage).None? <==>
      forall d :: d in devices ==> !HasUsage(d, usagePage, usage)
    ensures FirstWithUsage(devices, usagePage, usage).Some? ==>
      exists k :: 0 <= k < |devices| && devices[k] == FirstWithUsage(devices, usagePage, usage).value
        && HasUsage(devices[k], usagePage, usage)
        && forall j :: 0 <= j < k ==> !HasUsage(devices[j], usagePage, usage)
  {
    if |devices| > 0 && !HasUsage(devices[0], usagePage, usage) {
      FirstWithUsageIsFirst(devices[1..], usagePage, usage);
      assert forall d :: d in devices ==> d == devices[0] || d in devices[1..];
      if FirstWithUsage(devices, usagePage, usage).Some? {
        var k :| 0 <= k < |devices[1..]| && devices[1..][k] == FirstWithUsage(devices, usagePage, usage).value
          && HasUsage(devices[1..][k], usagePage, usage)
          && forall j :: 0 <= j < k ==> !HasUsage(devices[1..][j], usagePage, usage);
        assert devices[k + 1] == devices[1..][k];
        assert forall j :: 1 <= j < k + 1 ==> devices[j] == devices[1..][j - 1];
      }
    } else if |devices| > 0 {
      assert devices[0] in devices;
    }
  }

  /** `findDeviceByUsage`: the first enumerated device with the usage page and
    * usage. `outInfo` is the caller's variable; it keeps its value when no
    * device has the usage. */
  method FindDeviceByUsage(system: seq<SystemDevice>, vid: u16, pid: u16, usagePage: u16, usage: u16,
                           outInfo: DeviceInfo)
    returns (found: bool, info: DeviceInfo)
    ensures var first := FirstWithUsage(Enumerated(system, vid, pid), usagePage, usage);
      found == first.Some? && info == (if found then first.value else outInfo)
  {
    var devices := EnumerateDevices(system, vid, pid);
    info := outInfo;
    var i := 0;
    while i < |devices|
      invariant 0 <= i <= |devices|
      invariant FirstWithUsage(devices, usagePage, usage) == FirstWithUsage(devices[i..], usagePage, usage)
    {
      var dev := devices[i];
      assert devices[i..][1..] == devices[i + 1..];
      if dev.usagePage == usagePage && dev.usage == usage {
        info := dev;
        return true, info;
      }
      i := i + 1;
    }
    return false, info;
  }

  /** The interface the stand-alone tool writes colours to: Corsair, HS80
    * wireless, usage page 0xFF42, usage 0x0001. */
  predicate IsRgbEndpoint(d: DeviceInfo)
  {
    d.vendorId == CorsairVid && d.productId == Hs80WirelessPid && d.usagePage == RgbUsagePage && d.usage == RgbUsage
  }

  /** The RGB-endpoint search in `main` of the stand-alone tool: tries to open
    * every RGB endpoint in list order and keeps the first that opens.
    * `openSucceeds[i]` is what opening `devices[i]` would do. The result is
    * that index, or -1 when none opened; `tried` lists the indices it tried
    * to open, in order. */
  method SelectRgbEndpoint(devices: seq<DeviceInfo>, openSucceeds: seq<bool>) returns (k: int, ghost tried: seq<nat>)
    requires |openSucceeds| == |devices|
    ensures -1 <= k < |devices|
    ensures k >= 0 ==> IsRgbEndpoint(devices[k]) && openSucceeds[k]
    ensures forall j :: 0 <= j < |devices| && (k == -1 || j < k) ==> !(IsRgbEndpoint(devices[j]) && openSucceeds[j])
    ensures forall t :: t in tried <==> 0 <= t < |devices| && IsRgbEndpoint(devices[t]) && (k == -1 || t <= k)
    ensures forall a, b :: 0 <= a < b < |tried| ==> tried[a] < tried[b]
  {
    k := -1;
    tried := [];
    var i := 0;
    while i < |devices|
      invariant 0 <= i <= |devices|
      invariant forall j :: 0 <= j < i ==> !(IsRgbEndpoint(devices[j]) && openSucceeds[j])
      invariant forall t :: t in tried <==> 0 <= t < i && IsRgbEndpoint(devices[t])
      invariant forall a, b :: 0 <= a < b < |tried| ==> tried[a] < tried[b]
      invariant forall a :: 0 <= a < |tried| ==> tried[a] < i
    {
      var dev := devices[i];
      if dev.vendorId == CorsairVid && dev.productId == Hs80WirelessPid &&
         dev.usagePage == 0xFF42 && dev.usage == 0x0001 {
        tried := tried + [i];
        if openSucceeds[i] {
          k := i;
          return;
        }
      }
      i := i + 1;
    }
  }
}
