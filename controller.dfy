/** `RGBController` of the HS80 library: connection, lazy switch to software
  * lighting mode, colour and brightness caches, hardware-mode restore and
  * the keep-alive flag. */
module RgbControl {
  import opened Bytes
  import opened Lighting
  import opened Packets
  import opened Devices
  import opened Hid

  // ---------------------------------------------------------------------
  // Reports, filled byte by byte into a zeroed local `unsigned char[64]`
  // ---------------------------------------------------------------------

  /** Packet 1 of `initialize`: enable software mode. */
  method SoftwareModeReport(mode: byte) returns (r: Report)
    ensures r == Encode(Packet(mode, SoftwareMode))
  {
    var packet := new byte[ReportSize](i => 0);
    packet[0] := 0x02;
    packet[1] := mode;
    packet[2] := 0x01;
    packet[3] := 0x03;
    packet[4] := 0x00;
    packet[5] := 0x02;
    r := packet[..];
    ghost var pre := Prefix(Packet(mode, SoftwareMode));
    assert r[..6] == pre;
    Padded(r, pre);
  }

  /** Packet 2 of `initialize`: open the lighting endpoint. */
  method OpenLightingReport(mode: byte) returns (r: Report)
    ensures r == Encode(Packet(mode, OpenLighting))
  {
    var packet := new byte[ReportSize](i => 0);
    packet[0] := 0x02;
    packet[1] := mode;
    packet[2] := 0x0D;
    packet[3] := 0x00;
    packet[4] := 0x01;
    r := packet[..];
    ghost var pre := Prefix(Packet(mode, OpenLighting));
    assert r[..5] == pre;
    Padded(r, pre);
  }

  /** Packet 3 of `initialize` (level 1000, bytes E8 03) and the packet of
    * `sendBrightnessInternal`: `brightness & 0xFF`, `(brightness >> 8) & 0xFF`. */
  method BrightnessReport(mode: byte, brightness: nat) returns (r: Report)
    ensures r == Encode(Packet(mode, Brightness(brightness)))
  {
    var packet := new byte[ReportSize](i => 0);
    packet[0] := 0x02;
    packet[1] := mode;
    packet[2] := 0x01;
    packet[3] := 0x02;
    packet[4] := 0x00;
    packet[5] := LowByte(brightness);
    packet[6] := HighByte(brightness);
    r := packet[..];
    ghost var pre := Prefix(Packet(mode, Brightness(brightness)));
    assert r[..7] == pre;
    Padded(r, pre);
  }

  /** The packet of `sendColorsInternal`. */
  method ColorsReport(mode: byte, zones: LedZones) returns (r: Report)
    ensures r == Encode(Packet(mode, Colors(zones)))
  {
    var packet := new byte[ReportSize](i => 0);
    packet[0] := 0x02;
    packet[1] := mode;
    packet[2] := 0x06;
    packet[3] := 0x00;
    packet[4] := 0x09;
    packet[5] := 0x00;
    packet[6] := 0x00;
    packet[7] := 0x00;
    ghost var header: Report := packet[..];
    Padded(header, [0x02, mode, 0x06, 0x00, 0x09, 0x00, 0x00, 0x00]);
    // red of logo, power, mic; then green; then blue
    packet[8] := zones.logo.r;
    packet[9] := zones.power.r;
    packet[10] := zones.mic.r;
    packet[11] := zones.logo.g;
    packet[12] := zones.power.g;
    packet[13] := zones.mic.g;
    packet[14] := zones.logo.b;
    packet[15] := zones.power.b;
    packet[16] := zones.mic.b;
    r := packet[..];
    assert r == header[8 := zones.logo.r][9 := zones.power.r][10 := zones.mic.r]
                      [11 := zones.logo.g][12 := zones.power.g][13 := zones.mic.g]
                      [14 := zones.logo.b][15 := zones.power.b][16 := zones.mic.b];
    ColorsAfterHeader(header, mode, zones);
  }

  /** Writing the nine colour bytes into the zero-padded colour header gives
    * the colour report. */
  lemma ColorsAfterHeader(header: Report, mode: byte, zones: LedZones)
    requires header == Pad([0x02, mode, 0x06, 0x00, 0x09, 0x00, 0x00, 0x00])
    ensures header[8 := zones.logo.r][9 := zones.power.r][10 := zones.mic.r]
                  [11 := zones.logo.g][12 := zones.power.g][13 := zones.mic.g]
                  [14 := zones.logo.b][15 := zones.power.b][16 := zones.mic.b]
            == Encode(Packet(mode, Colors(zones)))
  {
    var r := header[8 := zones.logo.r][9 := zones.power.r][10 := zones.mic.r]
                   [11 := zones.logo.g][12 := zones.power.g][13 := zones.mic.g]
                   [14 := zones.logo.b][15 := zones.power.b][16 := zones.mic.b];
    var pre := Prefix(Packet(mode, Colors(zones)));
    assert header[..8] == pre[..8];
    assert r[..17] == pre;
    Padded(r, pre);
  }

  /** The packet of `setHardwareMode`. */
  method HardwareModeReport(mode: byte) returns (r: Report)
    ensures r == Encode(Packet(mode, HardwareMode))
  {
    var packet := new byte[ReportSize](i => 0);
    packet[0] := 0x02;
    packet[1] := mode;
    packet[2] := 0x01;
    packet[3] := 0x03;
    packet[4] := 0x00;
    packet[5] := 0x01;
    r := packet[..];
    ghost var pre := Prefix(Packet(mode, HardwareMode));
    assert r[..6] == pre;
    Padded(r, pre);
  }

  /** A report whose first bytes are `pre` and whose other bytes are zero is
    * `pre` padded. */
  lemma Padded(r: Report, pre: seq<byte>)
    requires |pre| <= ReportSize && r[..|pre|] == pre
    requires forall i :: |pre| <= i < ReportSize ==> r[i] == 0
    ensures r == Pad(pre)
  {
    assert r == r[..|pre|] + r[|pre|..];
    assert r[|pre|..] == Zeros(ReportSize - |pre|);
  }

  // ---------------------------------------------------------------------
  // Brightness conversions
  // ---------------------------------------------------------------------

  /** Bounds `v` to `[lo, hi]`, as the two `if`s at the top of
    * `setBrightness` and `setBrightnessRaw` do. */
  function Clamp(v: int, lo: int, hi: int): (c: int)
    requires lo <= hi
    ensures lo <= c <= hi
    ensures lo <= v <= hi ==> c == v
    ensures v < lo ==> c == lo
    ensures v > hi ==> c == hi
  {
    if v < lo then lo else if v > hi then hi else v
  }

  /** `(percent * 1000) / 100`. Both operands are non-negative once the
    * percent is clamped, so C++'s truncating division is Dafny's division,
    * and the product (at most 100000) cannot overflow an `int`. */
  function PercentToRaw(percent: int): int
    requires 0 <= percent <= 100
  {
    (percent * 1000) / 100
  }

  /** `(m_currentBrightness * 100) / 1000`. */
  function RawToPercent(raw: int): int
    requires 0 <= raw <= 1000
  {
    (raw * 100) / 1000
  }

  /** A percent converted to the raw scale and back is the same percent; a
    * raw value converted to percent and back loses at most the last nine
    * steps (it is rounded down to a multiple of ten). */
  lemma BrightnessConversions(percent: int, raw: int)
    requires 0 <= percent <= 100 && 0 <= raw <= 1000
    ensures 0 <= PercentToRaw(percent) <= 1000 && PercentToRaw(percent) == 10 * percent
    ensures RawToPercent(PercentToRaw(percent)) == percent
    ensures 0 <= RawToPercent(raw) <= 100
    ensures PercentToRaw(RawToPercent(raw)) <= raw < PercentToRaw(RawToPercent(raw)) + 10
  {
  }

  // ---------------------------------------------------------------------
  // The controller
  // ---------------------------------------------------------------------

  /** The three reports of `initialize`, in the order they are sent:
    * software mode, open lighting endpoint, brightness 1000. */
  function InitReports(mode: byte): seq<Report>
  {
    [Encode(Packet(mode, SoftwareMode)), Encode(Packet(mode, OpenLighting)), Encode(Packet(mode, Brightness(1000)))]
  }

  /** A run of `initialize` on an open device, between the logs `before`
    * and `after` (reports) and `beforeOk` and `afterOk` (outcomes): the
    * initialisation reports in order, up to and including the first refused
    * one, with success exactly when all three were accepted. */
  ghost predicate InitRun(mode: byte, before: seq<Report>, after: seq<Report>,
                          beforeOk: seq<bool>, afterOk: seq<bool>, r: bool)
  {
    |beforeOk| <= |afterOk|
    && var outcomes := NewOutcomes(beforeOk, afterOk);
    StopsAtFirstFailure(outcomes, 3, r) && after == before + InitReports(mode)[..|outcomes|]
  }

  /** What a send helper (`sendColorsInternal`, `sendBrightnessInternal`)
    * asked to send `payload` does to the logs, given the connection state at
    * the call: nothing and `false` when not connected; the payload alone
    * when already initialised; otherwise a run of `initialize` that, when it
    * fails, ends the call with `false`, and when it succeeds is followed by
    * the payload. The result is the outcome of the payload's write. */
  ghost predicate LazySend(wasConnected: bool, wasInitialized: bool, mode: byte, payload: Report,
                           before: seq<Report>, after: seq<Report>,
                           beforeOk: seq<bool>, afterOk: seq<bool>, r: bool)
  {
    |beforeOk| <= |afterOk|
    && var outcomes := NewOutcomes(beforeOk, afterOk);
    if !wasConnected then after == before && outcomes == [] && !r
    else if wasInitialized then after == before + [payload] && outcomes == [r]
    else if |outcomes| == 4 then after == before + InitReports(mode) + [payload] && outcomes == [true, true, true, r]
    else !r && InitRun(mode, before, after, beforeOk, afterOk, false)
  }

  /** The writes of `initialize` once the device is known to be open:
    * each packet filled and sent in turn, returning at the first refused
    * write. */
  method SendInitReports(link: HidLink, mode: byte) returns (r: bool)
    modifies link
    ensures InitRun(mode, old(link.written), link.written, old(link.accepted), link.accepted, r)
  {
    ghost var reports := InitReports(mode);
    var p1 := SoftwareModeReport(mode);
    r := link.Write(p1);
    if !r {
      assert NewOutcomes(old(link.accepted), link.accepted) == [false];
      assert link.written == old(link.written) + reports[..1];
      return;
    }
    var p2 := OpenLightingReport(mode);
    r := link.Write(p2);
    if !r {
      assert NewOutcomes(old(link.accepted), link.accepted) == [true, false];
      assert link.written == old(link.written) + reports[..2];
      return;
    }
    var p3 := BrightnessReport(mode, 1000);
    r := link.Write(p3);
    assert NewOutcomes(old(link.accepted), link.accepted) == [true, true, r];
    assert link.written == old(link.written) + reports[..3];
  }

  class RgbController {
    /** The RGB interface of the headset; `connected` says whether it is open. */
    const link: HidLink
    /** `m_device != INVALID_HANDLE_VALUE`. */
    var connected: bool
    var isWireless: bool
    var initialized: bool
    var keepAliveRunning: bool
    /** The colours the keep-alive re-sends. */
    var currentZones: LedZones
    /** Raw brightness, 0-1000. */
    var currentBrightness: int

    /** Only an open device can be in software mode or have a keep-alive
      * running, and the cached brightness is in range. */
    ghost predicate Valid()
      reads this
    {
      (initialized ==> connected) && (keepAliveRunning ==> connected) && 0 <= currentBrightness <= 1000
    }

    /** `m_isWireless ? 0x09 : 0x08`. */
    function Mode(): byte
      reads this
    {
      HeadsetMode(isWireless)
    }

    constructor(link: HidLink)
      ensures Valid() && this.link == link
      ensures !connected && !isWireless && !initialized && !keepAliveRunning
      ensures currentZones == DefaultZones() && currentBrightness == 1000
    {
      this.link := link;
      connected := false;
      isWireless := false;
      initialized := false;
      keepAliveRunning := false;
      currentZones := DefaultZones();
      currentBrightness := 1000;
    }

    /** `getBrightness`: the cached brightness in percent. */
    function BrightnessPercent(): (percent: int)
      reads this
      requires Valid()
      ensures 0 <= percent <= 100
      ensures PercentToRaw(percent) <= currentBrightness < PercentToRaw(percent) + 10
    {
      RawToPercent(currentBrightness)
    }

    /** `connect`: closes a previous connection, looks for the RGB interface
      * (usage page 0xFF42, usage 0x0001) among the devices `enumerateDevices`
      * lists for `vid`/`pid`, and opens it. The mode follows the requested
      * `pid`, not the product id of the device found. `openOk` is whether
      * `OpenHIDDevice` succeeds on the interface found. */
    method Connect(system: seq<SystemDevice>, vid: u16, pid: u16, openOk: bool) returns (r: bool)
      requires Valid()
      modifies this, link
      ensures Valid()
      ensures r == connected && !initialized && !keepAliveRunning
      ensures r == (FirstWithUsage(Enumerated(system, vid, pid), RgbUsagePage, RgbUsage).Some? && openOk)
      ensures r ==> isWireless == (pid == Hs80WirelessPid)
      ensures link.written == old(link.written) +
        (if old(initialized) then [Encode(Packet(old(Mode()), HardwareMode))] else [])
      ensures currentZones == old(currentZones) && currentBrightness == old(currentBrightness)
    {
      if connected {
        Disconnect();
      }
      var found, info := FindDeviceByUsage(system, vid, pid, RgbUsagePage, RgbUsage, NoDevice);
      if !found {
        return false;
      }
      if !openOk {
        connected := false;
        return false;
      }
      connected := true;
      isWireless := pid == Hs80WirelessPid;
      return true;
    }

    /** `disconnect`: stops the keep-alive, restores hardware mode if software
      * mode is on, and closes the device. A second call sends nothing and
      * changes nothing. */
    method Disconnect()
      requires Valid()
      modifies this, link
      ensures Valid() && !connected && !initialized && !keepAliveRunning
      ensures link.written == old(link.written) +
        (if old(initialized) then [Encode(Packet(old(Mode()), HardwareMode))] else [])
      ensures isWireless == old(isWireless)
      ensures currentZones == old(currentZones) && currentBrightness == old(currentBrightness)
    {
      StopKeepAlive();
      if initialized {
        var _ := SetHardwareMode();
      }
      if connected {
        connected := false;
        initialized := false;
      }
    }

    /** `initialize`: sends software mode, open lighting endpoint and
      * brightness 1000, in that order, stopping at the first failed write;
      * only when all three were accepted is the controller initialised. */
    method Initialize() returns (r: bool)
      requires Valid()
      modifies this, link
      ensures Valid()
      ensures !old(connected) ==> !r && link.written == old(link.written) && link.accepted == old(link.accepted)
      ensures old(connected) ==>
        InitRun(Mode(), old(link.written), link.written, old(link.accepted), link.accepted, r)
      ensures initialized == (r || old(initialized))
      ensures connected == old(connected) && isWireless == old(isWireless) && keepAliveRunning == old(keepAliveRunning)
      ensures currentZones == old(currentZones) && currentBrightness == old(currentBrightness)
    {
      if !connected {
        return false;
      }
      r := SendInitReports(link, HeadsetMode(isWireless));
      if r {
        initialized := true;
      }
    }

    /** The shared body of the send helpers: not connected gives `false`;
      * not initialised runs `initialize` first and gives `false` if that
      * fails; otherwise the payload is written. */
    method SendLazily(payload: Report) returns (r: bool)
      requires Valid()
      modifies this, link
      ensures Valid()
      ensures LazySend(old(connected), old(initialized), Mode(), payload, old(link.written), link.written, old(link.accepted), link.accepted, r)
      ensures initialized == (old(initialized) || (old(connected) &&
        link.written == old(link.written) + InitReports(Mode()) + [payload]))
      ensures connected == old(connected) && isWireless == old(isWireless) && keepAliveRunning == old(keepAliveRunning)
      ensures currentZones == old(currentZones) && currentBrightness == old(currentBrightness)
    {
      if !connected {
        return false;
      }
      if !initialized {
        var ok := Initialize();
        if !ok {
          assert |link.written| <= |old(link.written)| + 3;
          return false;
        }
      }
      r := link.Write(payload);
    }

    /** `sendColorsInternal`. */
    method SendColorsInternal(zones: LedZones) returns (r: bool)
      requires Valid()
      modifies this, link
      ensures Valid()
      ensures LazySend(old(connected), old(initialized), Mode(), Encode(Packet(Mode(), Colors(zones))),
                       old(link.written), link.written, old(link.accepted), link.accepted, r)
      ensures initialized == (old(initialized) || (old(connected) &&
        link.written == old(link.written) + InitReports(Mode()) + [Encode(Packet(Mode(), Colors(zones)))]))
      ensures connected == old(connected) && isWireless == old(isWireless) && keepAliveRunning == old(keepAliveRunning)
      ensures currentZones == old(currentZones) && currentBrightness == old(currentBrightness)
    {
      var packet := ColorsReport(HeadsetMode(isWireless), zones);
      r := SendLazily(packet);
    }

    /** `sendBrightnessInternal`. */
    method SendBrightnessInternal(brightness: int) returns (r: bool)
      requires Valid() && 0 <= brightness <= 1000
      modifies this, link
      ensures Valid()
      ensures LazySend(old(connected), old(initialized), Mode(), Encode(Packet(Mode(), Brightness(brightness))),
                       old(link.written), link.written, old(link.accepted), link.accepted, r)
      ensures initialized == (old(initialized) || (old(connected) &&
        link.written == old(link.written) + InitReports(Mode()) + [Encode(Packet(Mode(), Brightness(brightness)))]))
      ensures connected == old(connected) && isWireless == old(isWireless) && keepAliveRunning == old(keepAliveRunning)
      ensures currentZones == old(currentZones) && currentBrightness == old(currentBrightness)
    {
      var packet := BrightnessReport(HeadsetMode(isWireless), brightness);
      r := SendLazily(packet);
    }

    /** `setColors`: caches the zones first, then sends them; the cache
      * holds the new zones whether or not the send succeeded. */
    method SetColors(zones: LedZones) returns (r: bool)
      requires Valid()
      modifies this, link
      ensures Valid()
      ensures currentZones == zones
      ensures LazySend(old(connected), old(initialized), Mode(), Encode(Packet(Mode(), Colors(zones))),
                       old(link.written), link.written, old(link.accepted), link.accepted, r)
      ensures connected == old(connected) && isWireless == old(isWireless) && keepAliveRunning == old(keepAliveRunning)
      ensures currentBrightness == old(currentBrightness)
    {
      currentZones := zones;
      r := SendColorsInternal(zones);
    }

    /** `setColor`: every LED the same colour. */
    method SetColor(color: RgbColor) returns (r: bool)
      requires Valid()
      modifies this, link
      ensures Valid()
      ensures currentZones == UniformZones(color)
      ensures LazySend(old(connected), old(initialized), Mode(), Encode(Packet(Mode(), Colors(UniformZones(color)))),
                       old(link.written), link.written, old(link.accepted), link.accepted, r)
      ensures connected == old(connected) && isWireless == old(isWireless) && keepAliveRunning == old(keepAliveRunning)
      ensures currentBrightness == old(currentBrightness)
    {
      r := SetColors(UniformZones(color));
    }

    /** `off`: every LED black. */
    method Off() returns (r: bool)
      requires Valid()
      modifies this, link
      ensures Valid()
      ensures currentZones == UniformZones(RgbColor(0, 0, 0))
      ensures LazySend(old(connected), old(initialized), Mode(), Encode(Packet(Mode(), Colors(UniformZones(RgbColor(0, 0, 0))))),
                       old(link.written), link.written, old(link.accepted), link.accepted, r)
      ensures connected == old(connected) && isWireless == old(isWireless) && keepAliveRunning == old(keepAliveRunning)
      ensures currentBrightness == old(currentBrightness)
    {
      r := SetColor(RgbColor(0, 0, 0));
    }

    /** `setZone`: changes the named LED (every LED for `All`) in the cache,
      * leaves the others, and sends the whole cached set. */
    method SetZone(zone: LedZone, color: RgbColor) returns (r: bool)
      requires Valid()
      modifies this, link
      ensures Valid()
      ensures currentZones == WithZone(old(currentZones), zone, color)
      ensures forall q: LedZone :: q != All && q != zone && zone != All ==>
        ZoneColor(currentZones, q) == ZoneColor(old(currentZones), q)
      ensures LazySend(old(connected), old(initialized), Mode(), Encode(Packet(Mode(), Colors(currentZones))),
                       old(link.written), link.written, old(link.accepted), link.accepted, r)
      ensures connected == old(connected) && isWireless == old(isWireless) && keepAliveRunning == old(keepAliveRunning)
      ensures currentBrightness == old(currentBrightness)
    {
      match zone {
        case Logo => currentZones := currentZones.(logo := color);
        case Power => currentZones := currentZones.(power := color);
        case Mic => currentZones := currentZones.(mic := color);
        case All =>
          currentZones := currentZones.(logo := color);
          currentZones := currentZones.(power := color);
          currentZones := currentZones.(mic := color);
      }
      var zones := currentZones;
      r := SendColorsInternal(zones);
    }

    /** `setLogoColor`. */
    method SetLogoColor(color: RgbColor) returns (r: bool)
      requires Valid()
      modifies this, link
      ensures Valid()
      ensures currentZones == old(currentZones).(logo := color)
      ensures LazySend(old(connected), old(initialized), Mode(), Encode(Packet(Mode(), Colors(currentZones))),
                       old(link.written), link.written, old(link.accepted), link.accepted, r)
      ensures connected == old(connected) && isWireless == old(isWireless) && keepAliveRunning == old(keepAliveRunning)
      ensures currentBrightness == old(currentBrightness)
    {
      r := SetZone(Logo, color);
    }

    /** `setPowerColor`. */
    method SetPowerColor(color: RgbColor) returns (r: bool)
      requires Valid()
      modifies this, link
      ensures Valid()
      ensures currentZones == old(currentZones).(power := color)
      ensures LazySend(old(connected), old(initialized), Mode(), Encode(Packet(Mode(), Colors(currentZones))),
                       old(link.written), link.written, old(link.accepted), link.accepted, r)
      ensures connected == old(connected) && isWireless == old(isWireless) && keepAliveRunning == old(keepAliveRunning)
      ensures currentBrightness == old(currentBrightness)
    {
      r := SetZone(Power, color);
    }

    /** `setMicColor`. */
    method SetMicColor(color: RgbColor) returns (r: bool)
      requires Valid()
      modifies this, link
      ensures Valid()
      ensures currentZones == old(currentZones).(mic := color)
      ensures LazySend(old(connected), old(initialized), Mode(), Encode(Packet(Mode(), Colors(currentZones))),
                       old(link.written), link.written, old(link.accepted), link.accepted, r)
      ensures connected == old(connected) && isWireless == old(isWireless) && keepAliveRunning == old(keepAliveRunning)
      ensures currentBrightness == old(currentBrightness)
    {
      r := SetZone(Mic, color);
    }

    /** `setBrightnessRaw`: clamps to 0-1000, caches, then sends; the cache
      * holds the clamped value whether or not the send succeeded. */
    method SetBrightnessRaw(brightness: int) returns (r: bool)
      requires Valid()
      modifies this, link
      ensures Valid()
      ensures currentBrightness == Clamp(brightness, 0, 1000)
      ensures LazySend(old(connected), old(initialized), Mode(), Encode(Packet(Mode(), Brightness(currentBrightness))),
                       old(link.written), link.written, old(link.accepted), link.accepted, r)
      ensures connected == old(connected) && isWireless == old(isWireless) && keepAliveRunning == old(keepAliveRunning)
      ensures currentZones == old(currentZones)
    {
      var b := brightness;
      if b < 0 {
        b := 0;
      }
      if b > 1000 {
        b := 1000;
      }
      currentBrightness := b;
      r := SendBrightnessInternal(b);
    }

    /** `setBrightness`: clamps the percent to 0-100 and sets the raw level
      * `percent * 10`; `getBrightness` then returns the clamped percent. */
    method SetBrightness(percent: int) returns (r: bool)
      requires Valid()
      modifies this, link
      ensures Valid()
      ensures currentBrightness == PercentToRaw(Clamp(percent, 0, 100))
      ensures BrightnessPercent() == Clamp(percent, 0, 100)
      ensures LazySend(old(connected), old(initialized), Mode(), Encode(Packet(Mode(), Brightness(currentBrightness))),
                       old(link.written), link.written, old(link.accepted), link.accepted, r)
      ensures connected == old(connected) && isWireless == old(isWireless) && keepAliveRunning == old(keepAliveRunning)
      ensures currentZones == old(currentZones)
    {
      var p := percent;
      if p < 0 {
        p := 0;
      }
      if p > 100 {
        p := 100;
      }
      var brightness := (p * 1000) / 100;
      BrightnessConversions(p, 0);
      r := SetBrightnessRaw(brightness);
    }

    /** `setHardwareMode`: when connected, sends the hardware-mode report and
      * leaves software mode whatever the write's outcome. */
    method SetHardwareMode() returns (r: bool)
      requires Valid()
      modifies this, link
      ensures Valid()
      ensures !old(connected) ==> !r && link.written == old(link.written) && initialized == old(initialized)
      ensures old(connected) ==> link.written == old(link.written) + [Encode(Packet(Mode(), HardwareMode))] && !initialized
      ensures old(connected) ==> link.accepted == old(link.accepted) + [r]
      ensures connected == old(connected) && isWireless == old(isWireless) && keepAliveRunning == old(keepAliveRunning)
      ensures currentZones == old(currentZones) && currentBrightness == old(currentBrightness)
    {
      if !connected {
        return false;
      }
      var packet := HardwareModeReport(HeadsetMode(isWireless));
      r := link.Write(packet);
      initialized := false;
    }

    /** `startKeepAlive`: already running is success with no change; it needs
      * an open, initialised device; `threadCreated` is whether `CreateThread`
      * succeeds. */
    method StartKeepAlive(intervalMs: int, threadCreated: bool) returns (r: bool)
      requires Valid()
      modifies this
      ensures Valid()
      ensures old(keepAliveRunning) ==> r && keepAliveRunning
      ensures !old(keepAliveRunning) && !(connected && initialized) ==> !r && !keepAliveRunning
      ensures !old(keepAliveRunning) && connected && initialized ==> keepAliveRunning == r == threadCreated
      ensures connected == old(connected) && initialized == old(initialized) && isWireless == old(isWireless)
      ensures currentZones == old(currentZones) && currentBrightness == old(currentBrightness)
    {
      if keepAliveRunning {
        return true;
      }
      if !connected || !initialized {
        return false;
      }
      keepAliveRunning := true;
      if !threadCreated {
        keepAliveRunning := false;
        return false;
      }
      return true;
    }

    /** `stopKeepAlive`: clears the flag; does nothing when not running. */
    method StopKeepAlive()
      requires Valid()
      modifies this
      ensures Valid() && !keepAliveRunning
      ensures connected == old(connected) && initialized == old(initialized) && isWireless == old(isWireless)
      ensures currentZones == old(currentZones) && currentBrightness == old(currentBrightness)
    {
      if !keepAliveRunning {
        return;
      }
      keepAliveRunning := false;
    }

    /** One pass of the keep-alive thread after its sleep: while the flag is
      * set it re-sends a snapshot of the cached zones, re-initialising if
      * needed; once the flag is cleared it sends nothing. */
    method KeepAliveTick() returns (r: bool)
      requires Valid()
      modifies this, link
      ensures Valid()
      ensures !old(keepAliveRunning) ==> !r && link.written == old(link.written)
      ensures old(keepAliveRunning) ==> LazySend(old(connected), old(initialized), Mode(),
        Encode(Packet(Mode(), Colors(old(currentZones)))), old(link.written), link.written, old(link.accepted), link.accepted, r)
      ensures connected == old(connected) && isWireless == old(isWireless) && keepAliveRunning == old(keepAliveRunning)
      ensures currentZones == old(currentZones) && currentBrightness == old(currentBrightness)
    {
      if !keepAliveRunning {
        return false;
      }
      var zones := currentZones;
      r := SendColorsInternal(zones);
    }
  }
}
