/** `CORSAIR_Device_Protocol`, the SignalRGB plugin object: its `Config`
  * fields, the endpoint search, the idle-timeout and colour writes, and the
  * mic, sleep and battery polling. The host's `device.write` is a `HidLink`
  * write; each `device.read` reply and the time `Date.now()` reports are
  * parameters. */
module Plugin {
  import opened Bytes
  import opened Hid
  import opened Packets
  import opened Hex
  import opened Lighting
  import opened PluginCodec

  /** A HID endpoint as the plugin compares them. */
  datatype Endpoint = Endpoint(iface: int, usage: int, usagePage: int, collection: int)

  /** `Config.DeviceEndpoint` before the search. */
  const DefaultEndpoint := Endpoint(0, 0, 0, 0)

  /** The endpoint `detectDeviceEndpoint` settles on: the first endpoint of
    * the device table, in table order, that the device also exposes. */
  function FirstShared(library: seq<Endpoint>, available: seq<Endpoint>): Option<Endpoint>
  {
    if |library| == 0 then None
    else if library[0] in available then Some(library[0])
    else FirstShared(library[1..], available)
  }

  /** `FirstShared` finds a shared endpoint exactly when there is one, and
    * the one it finds comes before every other shared endpoint. */
  lemma {:induction false} FirstSharedIsFirst(library: seq<Endpoint>, available: seq<Endpoint>)
    ensures FirstShared(library, available).None? <==>
      forall k :: 0 <= k < |library| ==> library[k] !in available
    ensures FirstShared(library, available).Some? ==>
      exists k :: 0 <= k < |library| && library[k] == FirstShared(library, available).value
        && library[k] in available
        && forall j :: 0 <= j < k ==> library[j] !in available
  {
    if |library| > 0 && library[0] !in available {
      FirstSharedIsFirst(library[1..], available);
      if FirstShared(library, available).Some? {
        var k :| 0 <= k < |library[1..]| && library[1..][k] == FirstShared(library, available).value
          && library[1..][k] in available
          && forall j :: 0 <= j < k ==> library[1..][j] !in available;
        assert library[k + 1] == library[1..][k];
        assert forall j :: 1 <= j < k + 1 ==> library[j] == library[1..][j - 1];
      } else {
        assert forall k :: 1 <= k < |library| ==> library[k] == library[1..][k - 1];
      }
    } else if |library| > 0 {
      assert library[0] == FirstShared(library, available).value;
    }
  }

  /** The timeout report as `setIdleTimeout` builds it: bytes set one by
    * one in an empty array, byte 4 left out. */
  method TimeoutPacket(mode: byte, b5: byte, b6: byte, b7: byte) returns (r: Report)
    ensures r == Pad([ReportId, mode, 0x01, 0x0E, 0x00, b5, b6, b7])
  {
    var packet := new byte[ReportSize](_ => 0);
    packet[0] := ReportId;
    packet[1] := mode;
    packet[2] := 0x01;
    packet[3] := 0x0E;
    packet[5] := b5;
    packet[6] := b6;
    packet[7] := b7;
    var pre := [ReportId, mode, 0x01, 0x0E, 0x00, b5, b6, b7];
    forall i | 0 <= i < ReportSize ensures packet[i] == Pad(pre)[i] {
      if i < 8 { assert Pad(pre)[..8][i] == pre[i]; }
    }
    r := packet[..];
  }

  /** The third report of `setIdleTimeout`: the timeout in milliseconds as
    * six hex digits, cut into pairs, reversed, and each pair read back into
    * bytes 5-7. */
  method TimeoutReport(mode: byte, minutes: nat) returns (r: Report)
    ensures r == IdleTimeoutReports(mode, Minutes(minutes))[2]
  {
    var timeoutValue := minutes * 60000;
    var littleEndianHex := LittleEndianHex(timeoutValue);
    r := TimeoutPacket(mode, PairValue(littleEndianHex[0]), PairValue(littleEndianHex[1]),
                       PairValue(littleEndianHex[2]));
  }

  /** The writes of `setIdleTimeout` on the link of a device in `mode`. */
  method WriteIdleTimeout(link: HidLink, mode: byte, t: IdleTimeout)
    modifies link
    ensures link.written == old(link.written) + IdleTimeoutReports(mode, t)
  {
    match t {
      case Off =>
        var _ := link.Write(Pad([ReportId, mode, 0x01, 0x0D]));
      case Minutes(n) =>
        ghost var before := link.written;
        var enable := Pad([ReportId, mode, 0x01, 0x0D, 0x01]);
        var _ := link.Write(enable);
        var noSleep := Pad([ReportId, mode, 0x01, 0x0D, 0x00, 0x01]);
        var _ := link.Write(noSleep);
        assert link.written == before + [enable, noSleep];
        var packet := TimeoutReport(mode, n);
        var _ := link.Write(packet);
        assert link.written == before + [enable, noSleep, packet];
        TimeoutReportsSplit(mode, n, enable, noSleep, packet);
    }
  }

  /** The reports of a timeout in minutes are the two enabling reports
    * followed by the timeout report. */
  lemma TimeoutReportsSplit(mode: byte, n: nat, enable: Report, noSleep: Report, packet: Report)
    requires enable == Pad([ReportId, mode, 0x01, 0x0D, 0x01])
    requires noSleep == Pad([ReportId, mode, 0x01, 0x0D, 0x00, 0x01])
    requires packet == IdleTimeoutReports(mode, Minutes(n))[2]
    ensures IdleTimeoutReports(mode, Minutes(n)) == [enable, noSleep, packet]
  {
  }

  /** The three writes of one LED into `RGBData`. */
  method PlaceColor(data: array<byte>, ghost leds: seq<nat>, ghost colors: seq<RgbColor>, led: nat, color: RgbColor)
    requires data.Length == 9 && |colors| == |leds| && led < 3
    requires data[..] == RgbData(leds, colors)
    modifies data
    ensures data[..] == RgbData(leds + [led], colors + [color])
  {
    ghost var before := data[..];
    data[led] := color.r;
    data[led + 3] := color.g;
    data[led + 6] := color.b;
    RgbDataAppend(leds, colors, led, color);
    forall p | 0 <= p < 9
      ensures data[p] == RgbData(leds + [led], colors + [color])[p]
    {
      if p % 3 == led {
        assert p == led + 3 * (p / 3);
      }
    }
  }

  class DeviceProtocol {
    const link: HidLink
    const deviceName: string
    const wireless: bool
    const leds: seq<nat>
    const ledNames: seq<string>
    var endpoint: Endpoint
    var lastMicStatePolling: int
    var lastMicState: int
    var lastBatteryPolling: int
    var batteryLevel: int
    var batteryStatus: int
    var isSleeping: bool
    var wasSleeping: bool

    /** The polled fields of `Config`. */
    function Polled(): PollState
      reads this
    {
      PollState(lastMicStatePolling, lastMicState, lastBatteryPolling, batteryLevel, batteryStatus,
                isSleeping, wasSleeping)
    }

    /** `getWirelessSupport() === true ? 0x09 : 0x08`. */
    function Mode(): byte
    {
      HeadsetMode(wireless)
    }

    /** The plugin object with its default `Config`, given the name, LED
      * layout and wireless flag `Initialize` copies from the device table. */
    constructor(link: HidLink, deviceName: string, wireless: bool, leds: seq<nat>, ledNames: seq<string>)
      ensures this.link == link && this.deviceName == deviceName && this.wireless == wireless
      ensures this.leds == leds && this.ledNames == ledNames
      ensures endpoint == DefaultEndpoint && Polled() == InitialPollState
    {
      this.link := link;
      this.deviceName := deviceName;
      this.wireless := wireless;
      this.leds := leds;
      this.ledNames := ledNames;
      endpoint := DefaultEndpoint;
      lastMicStatePolling := 0;
      lastMicState := 0;
      lastBatteryPolling := 0;
      batteryLevel := 0;
      batteryStatus := 0;
      isSleeping := false;
      wasSleeping := false;
    }

    /** `detectDeviceEndpoint`: for each endpoint of the device table, in
      * order, looks for a device endpoint equal in all four fields and keeps
      * the first one found; without a match the endpoint stays as it was. */
    method DetectDeviceEndpoint(library: seq<Endpoint>, deviceEndpoints: seq<Endpoint>)
      modifies this
      ensures endpoint == match FirstShared(library, deviceEndpoints)
                          case Some(e) => e
                          case None => old(endpoint)
      ensures Polled() == old(Polled())
    {
      var i := 0;
      while i < |library|
        invariant 0 <= i <= |library|
        invariant FirstShared(library, deviceEndpoints) == FirstShared(library[i..], deviceEndpoints)
        invariant endpoint == old(endpoint) && Polled() == old(Polled())
      {
        var candidate := library[i];
        var j := 0;
        while j < |deviceEndpoints|
          invariant 0 <= j <= |deviceEndpoints|
          invariant candidate !in deviceEndpoints[..j]
          invariant endpoint == old(endpoint) && Polled() == old(Polled())
        {
          var current := deviceEndpoints[j];
          if candidate.iface == current.iface && candidate.usage == current.usage
             && candidate.usagePage == current.usagePage && candidate.collection == current.collection
          {
            endpoint := current;
            return;
          }
          assert deviceEndpoints[..j + 1] == deviceEndpoints[..j] + [current];
          j := j + 1;
        }
        assert deviceEndpoints[..j] == deviceEndpoints;
        assert library[i..][1..] == library[i + 1..];
        i := i + 1;
      }
    }

    /** `setIdleTimeout`: writes the reports of the chosen timeout. */
    method SetIdleTimeout(t: IdleTimeout)
      modifies link
      ensures link.written == old(link.written) + IdleTimeoutReports(Mode(), t)
    {
      WriteIdleTimeout(link, Mode(), t);
    }

    /** `modernDirectLightingMode`, given the reply `device.read` returns to
      * the brightness query. */
    method ModernDirectLightingMode(reply: seq<byte>)
      modifies link
      ensures link.written == old(link.written) + DirectLightingReports(Mode(), reply)
    {
      var mode := Mode();
      var _ := link.Write(Pad([ReportId, mode, 0x01, 0x03, 0x00, 0x02]));
      var _ := link.Write(Pad([ReportId, mode, 0x0D, 0x00, 0x01]));
      var _ := link.Write(BrightnessQuery(mode));
      if !FullBrightnessReply(reply) {
        var _ := link.Write(Pad([ReportId, mode, 0x01, 0x02, 0x00, 0xE8, 0x03]));
      }
    }

    /** `writeRGB`: the colour report for `RGBData`. */
    method WriteRgb(data: seq<byte>)
      requires |data| == 9
      modifies link
      ensures link.written == old(link.written) + [RgbReport(Mode(), data)]
    {
      var _ := link.Write(RgbReport(Mode(), data));
    }

    /** `fetchBattery(force)`. */
    method FetchBattery(now: int, force: bool, rp: Replies)
      modifies this, link
      ensures Polled() == BatteryPoll(old(Polled()), Mode(), now, force, rp).state
      ensures link.written == old(link.written) + BatteryPoll(old(Polled()), Mode(), now, force, rp).sent
      ensures endpoint == old(endpoint)
    {
      if !force && now - lastBatteryPolling < BatteryPollingInterval {
        return;
      }
      var mode := Mode();
      var _ := link.Write(LevelQuery(mode));
      var _ := link.Write(StatusQuery(mode));
      var level := ReadInt32LittleEndian(rp.level[4..7]);
      var status := rp.charge[4];
      lastBatteryPolling := now;
      batteryLevel := level;
      batteryStatus := status;
    }

    /** `fetchSleepStatus`. */
    method FetchSleepStatus(now: int, rp: Replies)
      modifies this, link
      ensures Polled() == SleepPoll(old(Polled()), Mode(), now, rp).state
      ensures link.written == old(link.written) + SleepPoll(old(Polled()), Mode(), now, rp).sent
      ensures endpoint == old(endpoint)
    {
      var _ := link.Write(StatusQuery(Mode()));
      var wasAsleep := isSleeping;
      isSleeping := rp.sleep[0] == 2;
      if !isSleeping && wasAsleep {
        FetchBattery(now, true, rp);
      }
      wasSleeping := wasAsleep;
    }

    /** `fetchMicStatus`: the mic state, polled at most once per interval. */
    method FetchMicStatus(now: int, rp: Replies) returns (state: int)
      modifies this, link
      ensures state == lastMicState
      ensures Polled() == MicPoll(old(Polled()), Mode(), deviceName, now, rp).state
      ensures link.written == old(link.written) + MicPoll(old(Polled()), Mode(), deviceName, now, rp).sent
      ensures endpoint == old(endpoint)
    {
      if now - lastMicStatePolling < MicPollingInterval {
        return lastMicState;
      }
      var code := MicReadCode(deviceName);
      var _ := link.Write(MicQuery(Mode(), code));
      lastMicStatePolling := now;
      if rp.mic[3] == code {
        FetchSleepStatus(now, rp);
        return lastMicState;
      }
      lastMicState := rp.mic[4];
      return rp.mic[4];
    }

    /** The polling `sendColors` does: one mic poll when a Mic LED follows
      * the mute state, none otherwise. */
    function ColorPoll(p: PollState, s: LedSettings, now: int, rp: Replies): Poll
    {
      PollBefore(p, s, now, rp, |ledNames|)
    }

    /** The polling done by the time the loop of `sendColors` reaches LED
      * `i`. */
    function PollBefore(p: PollState, s: LedSettings, now: int, rp: Replies, i: nat): Poll
      requires i <= |ledNames|
    {
      if s.muteStateMode && "Mic" in ledNames[..i] then MicPoll(p, Mode(), deviceName, now, rp) else Poll(p, [])
    }

    /** The colour of LED `i` in the loop of `sendColors`, polling the mic
      * state for a Mic LED in MuteState mode; the colours already chosen stay
      * what they were under the new mic state. */
    method PickColor(i: nat, now: int, rp: Replies, canvas: seq<RgbColor>, s: LedSettings,
                     overrideColor: Option<string>, ghost p0: PollState, ghost w0: seq<Report>)
      returns (color: RgbColor)
      requires i < |ledNames| && |canvas| == |ledNames|
      requires SettingsValid(s) && (overrideColor.Some? ==> IsColorText(overrideColor.value))
      requires Polled() == PollBefore(p0, s, now, rp, i).state
      requires link.written == w0 + PollBefore(p0, s, now, rp, i).sent
      modifies this, link
      ensures Polled() == PollBefore(p0, s, now, rp, i + 1).state
      ensures link.written == w0 + PollBefore(p0, s, now, rp, i + 1).sent
      ensures color == LedColor(ledNames[i], canvas[i], s, lastMicState, overrideColor)
      ensures LedColors(ledNames[..i], canvas[..i], s, lastMicState, overrideColor)
           == LedColors(ledNames[..i], canvas[..i], s, old(lastMicState), overrideColor)
      ensures endpoint == old(endpoint)
    {
      assert ledNames[..i + 1] == ledNames[..i] + [ledNames[i]];
      if ledNames[i] == "Mic" && s.muteStateMode {
        ghost var m0 := lastMicState;
        var micState := FetchMicStatus(now, rp);
        if micState == 1 {
          color := HexToRgb(s.micMuteColor).value;
        } else {
          color := canvas[i];
        }
        if "Mic" in ledNames[..i] {
          MicPollOncePerInterval(p0, Mode(), deviceName, now, rp, rp);
        } else {
          LedColorsIgnoreMicState(ledNames[..i], canvas[..i], s, m0, lastMicState, overrideColor);
        }
      } else if overrideColor.Some? {
        color := HexToRgb(overrideColor.value).value;
      } else if s.forced {
        color := HexToRgb(s.forcedColor).value;
      } else {
        color := canvas[i];
      }
    }

    /** `sendColors(overrideColor)`: picks each LED's colour, polling the mic
      * state for a Mic LED in MuteState mode, places the channels in
      * `RGBData` and writes the colour report. */
    method SendColors(now: int, rp: Replies, canvas: seq<RgbColor>, s: LedSettings,
                      overrideColor: Option<string>)
      requires |canvas| == |leds| && |ledNames| == |leds|
      requires forall i :: 0 <= i < |leds| ==> leds[i] < 3
      requires SettingsValid(s) && (overrideColor.Some? ==> IsColorText(overrideColor.value))
      modifies this, link
      ensures Polled() == ColorPoll(old(Polled()), s, now, rp).state
      ensures link.written == old(link.written) + ColorPoll(old(Polled()), s, now, rp).sent
        + [RgbReport(Mode(), RgbData(leds, LedColors(ledNames, canvas, s, lastMicState, overrideColor)))]
      ensures endpoint == old(endpoint)
    {
      ghost var p0 := Polled();
      ghost var w0 := link.written;
      var data := new byte[9](_ => 0);
      assert data[..] == RgbData([], []);
      assert ledNames[..0] == [];
      var i := 0;
      while i < |leds|
        invariant 0 <= i <= |leds|
        invariant endpoint == old(endpoint)
        invariant Polled() == PollBefore(p0, s, now, rp, i).state
        invariant link.written == w0 + PollBefore(p0, s, now, rp, i).sent
        invariant data[..] == RgbData(leds[..i], LedColors(ledNames[..i], canvas[..i], s, lastMicState, overrideColor))
      {
        var color := PickColor(i, now, rp, canvas, s, overrideColor, p0, w0);
        ghost var colors := LedColors(ledNames[..i], canvas[..i], s, lastMicState, overrideColor);
        PlaceColor(data, leds[..i], colors, leds[i], color);
        assert leds[..i + 1] == leds[..i] + [leds[i]];
        LedColorsStep(ledNames, canvas, s, lastMicState, overrideColor, i);
        i := i + 1;
      }
      assert leds[..i] == leds && ledNames[..i] == ledNames && canvas[..i] == canvas;
      WriteRgb(data[..]);
    }
  }
}
