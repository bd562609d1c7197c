/** `HeadsetManager`: one RGB controller and one event monitor behind a
  * single connect/disconnect, with the lighting calls passed through. */
module Manager {
  import opened Bytes
  import opened Lighting
  import opened Packets
  import opened Devices
  import opened Hid
  import opened RgbControl
  import opened EventMonitoring

  class HeadsetManager {
    const rgb: RgbController
    const events: EventMonitor
    var autoReconnect: bool

    ghost predicate Valid()
      reads this, rgb, events
    {
      rgb.Valid() && events.Valid()
    }

    constructor(link: HidLink)
      ensures Valid() && fresh(rgb) && fresh(events) && rgb.link == link
      ensures !rgb.connected && !events.connected && !events.running && !autoReconnect
    {
      rgb := new RgbController(link);
      events := new EventMonitor();
      autoReconnect := false;
    }

    /** `isConnected`: both interfaces are open. */
    predicate IsConnected()
      reads this, rgb, events
    {
      rgb.connected && events.connected
    }

    /** `connect`: tries the RGB interface and then the event interface of
      * the HS80 wireless (vid 0x1B1C, pid 0x0A6B), the second even when the
      * first failed, and succeeds only when both are open. `rgbOpens` and
      * `eventOpens` are whether each interface found opens, `eventCreated`
      * whether the event interface's wait event can be created. */
    method Connect(system: seq<SystemDevice>, autoReconnect: bool, rgbOpens: bool, eventOpens: bool,
                   eventCreated: bool) returns (r: bool)
      requires Valid()
      modifies this, rgb, rgb.link, events
      ensures Valid() && this.autoReconnect == autoReconnect
      ensures r == IsConnected()
      ensures !rgb.initialized && !rgb.keepAliveRunning && !events.running
      ensures rgb.connected ==> rgb.isWireless
      ensures rgb.connected ==
        (FirstWithUsage(Enumerated(system, CorsairVid, Hs80WirelessPid), RgbUsagePage, RgbUsage).Some? && rgbOpens)
      ensures events.connected ==
        (FirstWithUsage(Enumerated(system, CorsairVid, Hs80WirelessPid), RgbUsagePage, EventUsage).Some?
         && eventOpens && eventCreated)
      ensures rgb.link.written == old(rgb.link.written) +
        (if old(rgb.initialized) then [Encode(Packet(old(rgb.Mode()), HardwareMode))] else [])
      ensures rgb.currentZones == old(rgb.currentZones) && rgb.currentBrightness == old(rgb.currentBrightness)
    {
      this.autoReconnect := autoReconnect;
      var rgbOk := rgb.Connect(system, CorsairVid, Hs80WirelessPid, rgbOpens);
      var eventOk := events.Connect(system, CorsairVid, Hs80WirelessPid, eventOpens, eventCreated);
      if !rgbOk || !eventOk {
        return false;
      }
      return true;
    }

    /** `disconnect`: stops monitoring, closes the event interface, then
      * restores hardware mode (if software mode was on) and closes the RGB
      * interface. */
    method Disconnect()
      requires Valid()
      modifies rgb, rgb.link, events
      ensures Valid() && !IsConnected()
      ensures !rgb.connected && !events.connected && !events.running && !rgb.keepAliveRunning
      ensures rgb.link.written == old(rgb.link.written) +
        (if old(rgb.initialized) then [Encode(Packet(old(rgb.Mode()), HardwareMode))] else [])
      ensures rgb.currentZones == old(rgb.currentZones) && rgb.currentBrightness == old(rgb.currentBrightness)
    {
      events.StopMonitoring();
      events.Disconnect();
      rgb.Disconnect();
    }

    /** `setLEDs(RGBColor)`. */
    method SetLeds(color: RgbColor) returns (r: bool)
      requires Valid()
      modifies rgb, rgb.link
      ensures Valid() && rgb.currentZones == UniformZones(color)
      ensures LazySend(old(rgb.connected), old(rgb.initialized), rgb.Mode(),
        Encode(Packet(rgb.Mode(), Colors(UniformZones(color)))), old(rgb.link.written), rgb.link.written,
        old(rgb.link.accepted), rgb.link.accepted, r)
      ensures rgb.connected == old(rgb.connected) && rgb.isWireless == old(rgb.isWireless)
      ensures rgb.keepAliveRunning == old(rgb.keepAliveRunning)
      ensures rgb.currentBrightness == old(rgb.currentBrightness)
    {
      r := rgb.SetColor(color);
    }

    /** `setLEDs(const LEDZones&)`. */
    method SetLedZones(zones: LedZones) returns (r: bool)
      requires Valid()
      modifies rgb, rgb.link
      ensures Valid() && rgb.currentZones == zones
      ensures LazySend(old(rgb.connected), old(rgb.initialized), rgb.Mode(),
        Encode(Packet(rgb.Mode(), Colors(zones))), old(rgb.link.written), rgb.link.written,
        old(rgb.link.accepted), rgb.link.accepted, r)
      ensures rgb.connected == old(rgb.connected) && rgb.isWireless == old(rgb.isWireless)
      ensures rgb.keepAliveRunning == old(rgb.keepAliveRunning)
      ensures rgb.currentBrightness == old(rgb.currentBrightness)
    {
      r := rgb.SetColors(zones);
    }

    /** `setZone`. */
    method SetZone(zone: LedZone, color: RgbColor) returns (r: bool)
      requires Valid()
      modifies rgb, rgb.link
      ensures Valid() && rgb.currentZones == WithZone(old(rgb.currentZones), zone, color)
      ensures LazySend(old(rgb.connected), old(rgb.initialized), rgb.Mode(),
        Encode(Packet(rgb.Mode(), Colors(rgb.currentZones))), old(rgb.link.written), rgb.link.written,
        old(rgb.link.accepted), rgb.link.accepted, r)
      ensures rgb.connected == old(rgb.connected) && rgb.isWireless == old(rgb.isWireless)
      ensures rgb.keepAliveRunning == old(rgb.keepAliveRunning)
      ensures rgb.currentBrightness == old(rgb.currentBrightness)
    {
      r := rgb.SetZone(zone, color);
    }

    /** `setBrightness`. */
    method SetBrightness(percent: int) returns (r: bool)
      requires Valid()
      modifies rgb, rgb.link
      ensures Valid() && rgb.BrightnessPercent() == Clamp(percent, 0, 100)
      ensures rgb.currentBrightness == PercentToRaw(Clamp(percent, 0, 100))
      ensures LazySend(old(rgb.connected), old(rgb.initialized), rgb.Mode(),
        Encode(Packet(rgb.Mode(), Brightness(rgb.currentBrightness))), old(rgb.link.written), rgb.link.written,
        old(rgb.link.accepted), rgb.link.accepted, r)
      ensures rgb.connected == old(rgb.connected) && rgb.isWireless == old(rgb.isWireless)
      ensures rgb.keepAliveRunning == old(rgb.keepAliveRunning)
      ensures rgb.currentZones == old(rgb.currentZones)
    {
      r := rgb.SetBrightness(percent);
    }

    /** `startEventMonitoring`. */
    method StartEventMonitoring(withCallback: bool, threadCreated: bool) returns (r: bool)
      requires Valid()
      modifies events
      ensures Valid()
      ensures !old(events.connected) || old(events.running) ==> !r && events.running == old(events.running)
      ensures old(events.connected) && !old(events.running) ==>
        events.running == r == threadCreated && events.hasCallback == withCallback
      ensures events.connected == old(events.connected)
    {
      r := events.StartMonitoring(withCallback, threadCreated);
    }
  }
}
