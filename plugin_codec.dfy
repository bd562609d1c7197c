/** The pure parts of the SignalRGB plugin for Corsair headsets: colour text,
  * the 32-bit little-endian reader, the idle-timeout reports, the colour
  * each LED shows and the colour report, and the status polling of the
  * plugin's `Config` as a function of the device's replies. */
module PluginCodec {
  import opened Bytes
  import opened Hex
  import opened Text
  import opened Lighting
  import opened Packets

  // ---------------------------------------------------------------------
  // hexToRgb
  // ---------------------------------------------------------------------

  /** The optional leading `#` of the colour regex. */
  function StripHash(s: string): string
  {
    if |s| > 0 && s[0] == '#' then s[1..] else s
  }

  /** Text the regex `^#?([a-f\d]{2})([a-f\d]{2})([a-f\d]{2})$` (case
    * insensitive) matches. */
  predicate IsColorText(s: string)
  {
    var t := StripHash(s);
    |t| == 6 && IsHexString(t)
  }

  /** `hexToRgb`: the three channels of `#rrggbb` (or `rrggbb`), each read
    * as a hexadecimal pair; `None` where the plugin throws because the regex
    * did not match. */
  function HexToRgb(s: string): (c: Option<RgbColor>)
    ensures c.Some? <==> IsColorText(s)
    ensures c.Some? ==>
      var t := StripHash(s);
      IsHexString(t[0..2]) && IsHexString(t[2..4]) && IsHexString(t[4..6])
      && c.value.r == HexValue(t[0..2]) && c.value.g == HexValue(t[2..4]) && c.value.b == HexValue(t[4..6])
  {
    var t := StripHash(s);
    if |t| == 6 && IsHexString(t) then
      assert IsHexString(t[0..2]) && IsHexString(t[2..4]) && IsHexString(t[4..6]);
      Some(RgbColor(PairValue(t[0..2]), PairValue(t[2..4]), PairValue(t[4..6])))
    else
      None
  }

  /** The text a colour picker gives for a colour: `#` and two hex digits per
    * channel, in either case. */
  function ColorText(c: RgbColor, upper: bool): (s: string)
    ensures |s| == 7 && s[0] == '#'
  {
    "#" + ByteHex(c.r, upper) + ByteHex(c.g, upper) + ByteHex(c.b, upper)
  }

  /** Every colour written as `#rrggbb`, in either case and with or without
    * the `#`, reads back as itself. */
  lemma HexToRgbRoundTrip(c: RgbColor, upper: bool, withHash: bool)
    ensures HexToRgb(ColorText(c, upper)) == Some(c)
    ensures HexToRgb(ColorText(c, upper)[1..]) == Some(c)
  {
    var r, g, b := ByteHex(c.r, upper), ByteHex(c.g, upper), ByteHex(c.b, upper);
    ByteHexRoundTrip(c.r, upper);
    ByteHexRoundTrip(c.g, upper);
    ByteHexRoundTrip(c.b, upper);
    var t := r + g + b;
    assert ColorText(c, upper) == "#" + t;
    assert ColorText(c, upper)[1..] == t;
    assert StripHash("#" + t) == t;
    assert t[0..2] == r && t[2..4] == g && t[4..6] == b;
    assert IsHexString(t) by {
      forall i | 0 <= i < 6 ensures IsHexDigit(t[i]) {
        if i < 2 { assert t[i] == r[i]; }
        else if i < 4 { assert t[i] == g[i - 2]; }
        else { assert t[i] == b[i - 4]; }
      }
    }
  }

  /** The defaults of the plugin's colour settings: the forced colour
    * `#009bde` is the factory colour of the C++ library, the mute colour
    * `#ff0000` is red, and the suspend colour `#000000` is black. */
  lemma DefaultColors()
    ensures HexToRgb("#009bde") == Some(FactoryColor)
    ensures HexToRgb("#ff0000") == Some(RgbColor(255, 0, 0))
    ensures HexToRgb("#000000") == Some(RgbColor(0, 0, 0))
  {
    ColorOfDigits("#009bde");
    ColorOfDigits("#ff0000");
    ColorOfDigits("#000000");
  }

  /** `#` and six digits read as the colour whose channels the digit pairs
    * spell, high digit first. */
  lemma ColorOfDigits(s: string)
    requires |s| == 7 && s[0] == '#'
    requires forall i :: 1 <= i < 7 ==> IsHexDigit(s[i])
    ensures HexToRgb(s) == Some(RgbColor(DigitValue(s[1]) * 16 + DigitValue(s[2]),
                                         DigitValue(s[3]) * 16 + DigitValue(s[4]),
                                         DigitValue(s[5]) * 16 + DigitValue(s[6])))
  {
    var t := StripHash(s);
    assert t == s[1..];
    assert t[0..2][0] == s[1] && t[0..2][1] == s[2];
    assert t[2..4][0] == s[3] && t[2..4][1] == s[4];
    assert t[4..6][0] == s[5] && t[4..6][1] == s[6];
  }

  /** Five or seven digits are refused, with or without the `#`. */
  lemma ColorTextLength()
    ensures HexToRgb("#09bde") == None && HexToRgb("009bde0") == None
  {
    assert StripHash("#09bde") == "09bde";
  }

  // ---------------------------------------------------------------------
  // ReadInt32LittleEndian
  // ---------------------------------------------------------------------

  const Two24: int := 0x100_0000
  const Two31: int := 0x8000_0000
  const Two32: int := 0x1_0000_0000

  /** `array[i]` in a JS bitwise expression: a missing element is 0. */
  function ByteAt(a: seq<byte>, i: nat): byte
  {
    if i < |a| then a[i] else 0
  }

  /** `ReadInt32LittleEndian`: the four bytes as a little-endian unsigned
    * number, reinterpreted as the signed 32-bit value JS bitwise operators
    * produce. */
  function ReadInt32LittleEndian(a: seq<byte>): (v: int)
    ensures -Two31 <= v < Two31
    ensures v % Two32 == ByteAt(a, 0) + 0x100 * ByteAt(a, 1) + 0x1_0000 * ByteAt(a, 2) + Two24 * ByteAt(a, 3)
  {
    var u := ByteAt(a, 0) + 0x100 * ByteAt(a, 1) + 0x1_0000 * ByteAt(a, 2) + Two24 * ByteAt(a, 3);
    if u >= Two31 then u - Two32 else u
  }

  /** The value is negative exactly when the fourth byte has its top bit set;
    * a slice of at most three bytes (the battery level is read from
    * `slice(4, 7)`) is a non-negative 24-bit little-endian number. */
  lemma ReadInt32Sign(a: seq<byte>)
    ensures ReadInt32LittleEndian(a) < 0 <==> |a| >= 4 && a[3] >= 0x80
    ensures |a| <= 3 ==>
      ReadInt32LittleEndian(a) == ByteAt(a, 0) + 0x100 * ByteAt(a, 1) + 0x1_0000 * ByteAt(a, 2)
      && 0 <= ReadInt32LittleEndian(a) < Two24
  {
  }

  // ---------------------------------------------------------------------
  // setIdleTimeout
  // ---------------------------------------------------------------------

  /** `s.match(/../g)`: consecutive two-character pieces, a trailing odd
    * character dropped. */
  function Pairs(s: string): (r: seq<string>)
    ensures |r| == |s| / 2
    ensures forall k :: 0 <= k < |r| ==> 2 * k + 2 <= |s| && r[k] == s[2 * k..2 * k + 2]
    decreases |s|
  {
    if |s| < 2 then []
    else
      var rest := Pairs(s[2..]);
      assert forall j :: 0 <= j < |rest| ==> rest[j] == s[2 * j + 2..2 * j + 4];
      [s[..2]] + rest
  }

  /** `Array.prototype.reverse`. */
  function Reversed<T>(xs: seq<T>): (r: seq<T>)
    ensures |r| == |xs|
    ensures forall k :: 0 <= k < |xs| ==> r[k] == xs[|xs| - 1 - k]
  {
    if |xs| == 0 then [] else Reversed(xs[1..]) + [xs[0]]
  }

  /** `value.toString(16).padStart(6, '0').match(/../g).reverse()`. */
  function LittleEndianHex(value: nat): (r: seq<string>)
    ensures |r| >= 3
    ensures forall k :: 0 <= k < |r| ==> |r[k]| == 2 && IsHexString(r[k])
  {
    var s := PadStartZeros(ToHex(value), 6);
    var p := Pairs(s);
    assert forall k :: 0 <= k < |p| ==> IsHexString(p[k]);
    Reversed(p)
  }

  /** The idle-timeout setting: "Off" or a number of minutes. */
  datatype IdleTimeout = Off | Minutes(n: nat)

  /** The minutes the plugin offers (`"1"` … `"30"`). */
  const TimeoutChoices: seq<nat> := [1, 2, 3, 4, 5, 10, 15, 20, 25, 30]

  /** The reports `setIdleTimeout` writes: one disabling report for "Off";
    * otherwise two enabling reports and the timeout in milliseconds, whose
    * three low bytes go to bytes 5-7 (byte 4 is a hole and goes out as 0). */
  function IdleTimeoutReports(mode: byte, t: IdleTimeout): seq<Report>
  {
    match t
    case Off => [Pad([ReportId, mode, 0x01, 0x0D])]
    case Minutes(n) =>
      var le := LittleEndianHex(n * 60000);
      [Pad([ReportId, mode, 0x01, 0x0D, 0x01]),
       Pad([ReportId, mode, 0x01, 0x0D, 0x00, 0x01]),
       Pad([ReportId, mode, 0x01, 0x0E, 0x00, PairValue(le[0]), PairValue(le[1]), PairValue(le[2])])]
  }

  /** Six hex digits read as three pairs, high pair first. */
  lemma SixDigits(s: string)
    requires |s| == 6 && IsHexString(s)
    ensures IsHexString(s[0..2]) && IsHexString(s[2..4]) && IsHexString(s[4..6])
    ensures HexValue(s) == HexValue(s[0..2]) * 0x1_0000 + HexValue(s[2..4]) * 0x100 + HexValue(s[4..6])
  {
    var a, b, c := s[0..2], s[2..4], s[4..6];
    assert s == (a + b) + c;
    assert Pow16(2) == 0x100;
    HexValueConcat(a, b);
    var ab := HexValue(a + b);
    assert ab == HexValue(a) * 0x100 + HexValue(b);
    HexValueConcat(a + b, c);
    assert HexValue(s) == ab * 0x100 + HexValue(c);
  }

  /** For every timeout below 2^24 ms (every minute count up to 279, so
    * every choice the plugin offers) the timeout report carries the
    * milliseconds little-endian in bytes 5-7: reading them back gives
    * `n * 60000`. */
  lemma IdleTimeoutRoundTrip(mode: byte, n: nat)
    requires n * 60000 < Two24
    ensures var rs := IdleTimeoutReports(mode, Minutes(n));
      |rs| == 3 && rs[2][..5] == [ReportId, mode, 0x01, 0x0E, 0x00]
      && ReadInt32LittleEndian(rs[2][5..8]) == n * 60000
      && (forall i :: 8 <= i < ReportSize ==> rs[2][i] == 0)
  {
    var v := n * 60000;
    LittleEndianHexValue(v);
    var le := LittleEndianHex(v);
    var r := IdleTimeoutReports(mode, Minutes(n))[2];
    var pre := [ReportId, mode, 0x01, 0x0E, 0x00, PairValue(le[0]), PairValue(le[1]), PairValue(le[2])];
    assert r[..8] == pre;
    assert r[5..8] == pre[5..8];
  }

  /** A value below 2^24 comes out of `LittleEndianHex` as three pairs,
    * lowest byte first. */
  lemma LittleEndianHexValue(v: nat)
    requires v < Two24
    ensures var le := LittleEndianHex(v);
      |le| == 3 && HexValue(le[0]) + 0x100 * HexValue(le[1]) + 0x1_0000 * HexValue(le[2]) == v
  {
    var h := ToHex(v);
    assert Pow16(6) == Two24;
    ToHexLength(v, 6);
    var s := PadStartZeros(h, 6);
    assert |s| == 6;
    PadStartValue(h, 6);
    ToHexValue(v);
    SixDigits(s);
    var p := Pairs(s);
    var le := LittleEndianHex(v);
    assert le == Reversed(p);
    assert le[0] == s[4..6] && le[1] == s[2..4] && le[2] == s[0..2];
  }

  /** Every minute count the plugin offers is within that bound. */
  lemma TimeoutChoicesFit()
    ensures forall k :: 0 <= k < |TimeoutChoices| ==> TimeoutChoices[k] * 60000 < Two24
  {
  }

  // ---------------------------------------------------------------------
  // sendColors / writeRGB
  // ---------------------------------------------------------------------

  /** The user settings `sendColors` consults. */
  datatype LedSettings = LedSettings(
    forced: bool,            // LightingMode === "Forced"
    forcedColor: string,
    muteStateMode: bool,     // micLedMode === "MuteState"
    micMuteColor: string)

  /** Both colour settings are colour text (the colour pickers make them so). */
  predicate SettingsValid(s: LedSettings)
  {
    IsColorText(s.forcedColor) && IsColorText(s.micMuteColor)
  }

  /** The colour of one LED: a Mic LED in MuteState mode shows the mute
    * colour while muted (mic state 1) and the canvas otherwise; every other
    * LED shows the override colour if there is one, else the forced colour
    * in Forced mode, else the canvas. */
  function LedColor(name: string, canvas: RgbColor, s: LedSettings, micState: int,
                    overrideColor: Option<string>): RgbColor
    requires SettingsValid(s)
    requires overrideColor.Some? ==> IsColorText(overrideColor.value)
  {
    if name == "Mic" && s.muteStateMode then
      (if micState == 1 then HexToRgb(s.micMuteColor).value else canvas)
    else if overrideColor.Some? then HexToRgb(overrideColor.value).value
    else if s.forced then HexToRgb(s.forcedColor).value
    else canvas
  }

  /** What decides an LED's colour: the mic state matters only to a Mic LED
    * in MuteState mode, and then neither the override nor the forced colour
    * does; elsewhere an override beats the Forced setting; and an LED falls
    * back to the canvas exactly when no rule applies. */
  lemma LedColorPriority(name: string, canvas: RgbColor, s: LedSettings, m1: int, m2: int,
                         o1: Option<string>, o2: Option<string>)
    requires SettingsValid(s)
    requires o1.Some? ==> IsColorText(o1.value)
    requires o2.Some? ==> IsColorText(o2.value)
    ensures !(name == "Mic" && s.muteStateMode) ==>
      LedColor(name, canvas, s, m1, o1) == LedColor(name, canvas, s, m2, o1)
    ensures name == "Mic" && s.muteStateMode ==>
      LedColor(name, canvas, s, m1, o1) == LedColor(name, canvas, s.(forced := !s.forced), m1, o2)
    ensures !(name == "Mic" && s.muteStateMode) && o1.Some? ==>
      LedColor(name, canvas, s, m1, o1) == LedColor(name, canvas, s.(forced := !s.forced), m1, o1)
      && LedColor(name, canvas, s, m1, o1) == HexToRgb(o1.value).value
    ensures (forall c: RgbColor :: LedColor(name, c, s, m1, o1) == c) <==>
      (if name == "Mic" && s.muteStateMode then m1 != 1 else o1.None? && !s.forced)
  {
    if !(if name == "Mic" && s.muteStateMode then m1 != 1 else o1.None? && !s.forced) {
      var fixed := LedColor(name, canvas, s, m1, o1);
      var other := RgbColor(if fixed.r == 0 then 1 else 0, 0, 0);
      assert LedColor(name, other, s, m1, o1) == fixed != other;
    }
  }

  /** The colours `sendColors` computes for the LEDs, in LED order. */
  function LedColors(names: seq<string>, canvas: seq<RgbColor>, s: LedSettings, micState: int,
                     overrideColor: Option<string>): (cs: seq<RgbColor>)
    requires |canvas| == |names| && SettingsValid(s)
    requires overrideColor.Some? ==> IsColorText(overrideColor.value)
    ensures |cs| == |names|
    ensures forall i :: 0 <= i < |names| ==> cs[i] == LedColor(names[i], canvas[i], s, micState, overrideColor)
  {
    seq(|names|, i requires 0 <= i < |names| => LedColor(names[i], canvas[i], s, micState, overrideColor))
  }

  /** The colours of the first `i + 1` LEDs are those of the first `i` and
    * the colour of LED `i`. */
  lemma LedColorsStep(names: seq<string>, canvas: seq<RgbColor>, s: LedSettings, micState: int,
                      overrideColor: Option<string>, i: nat)
    requires |canvas| == |names| && SettingsValid(s) && i < |names|
    requires overrideColor.Some? ==> IsColorText(overrideColor.value)
    ensures LedColors(names[..i + 1], canvas[..i + 1], s, micState, overrideColor)
         == LedColors(names[..i], canvas[..i], s, micState, overrideColor)
            + [LedColor(names[i], canvas[i], s, micState, overrideColor)]
  {
    var a := LedColors(names[..i + 1], canvas[..i + 1], s, micState, overrideColor);
    var b := LedColors(names[..i], canvas[..i], s, micState, overrideColor);
    assert forall k :: 0 <= k < i ==> a[k] == b[k];
  }

  /** The position of the last LED that targets slot `k`, or -1. */
  function LastIndex(leds: seq<nat>, k: nat): (r: int)
    ensures -1 <= r < |leds|
    ensures r >= 0 ==> leds[r] == k && forall j :: r < j < |leds| ==> leds[j] != k
    ensures r == -1 ==> forall j :: 0 <= j < |leds| ==> leds[j] != k
  {
    if |leds| == 0 then -1
    else if leds[|leds| - 1] == k then |leds| - 1
    else LastIndex(leds[..|leds| - 1], k)
  }

  function Channel(c: RgbColor, ch: nat): byte
  {
    if ch == 0 then c.r else if ch == 1 then c.g else c.b
  }

  /** `RGBData` after the loop of `sendColors`: byte `slot + 3 * ch` holds
    * channel `ch` of the last LED whose index is `slot`; a byte no LED
    * wrote is a hole, sent as 0. */
  function RgbData(leds: seq<nat>, colors: seq<RgbColor>): (d: seq<byte>)
    requires |colors| == |leds|
    ensures |d| == 9
  {
    seq(9, p requires 0 <= p < 9 =>
      var i := LastIndex(leds, p % 3);
      if i >= 0 then Channel(colors[i], p / 3) else 0)
  }

  /** The mic state matters to no LED unless one is a Mic LED in MuteState
    * mode. */
  lemma LedColorsIgnoreMicState(names: seq<string>, canvas: seq<RgbColor>, s: LedSettings, m1: int, m2: int,
                                overrideColor: Option<string>)
    requires |canvas| == |names| && SettingsValid(s)
    requires overrideColor.Some? ==> IsColorText(overrideColor.value)
    requires !(s.muteStateMode && "Mic" in names)
    ensures LedColors(names, canvas, s, m1, overrideColor) == LedColors(names, canvas, s, m2, overrideColor)
  {
    forall i | 0 <= i < |names|
      ensures LedColor(names[i], canvas[i], s, m1, overrideColor) == LedColor(names[i], canvas[i], s, m2, overrideColor)
    {
      assert !(names[i] == "Mic" && s.muteStateMode);
    }
  }

  /** One more LED written into `RGBData`: its slot's three bytes take its
    * channels, every other byte keeps its value. */
  lemma RgbDataAppend(leds: seq<nat>, colors: seq<RgbColor>, k: nat, c: RgbColor)
    requires |colors| == |leds| && k < 3
    ensures forall p :: 0 <= p < 9 ==>
      RgbData(leds + [k], colors + [c])[p] == if p % 3 == k then Channel(c, p / 3) else RgbData(leds, colors)[p]
  {
    var l := leds + [k];
    assert l[..|l| - 1] == leds;
    forall p | 0 <= p < 9
      ensures RgbData(l, colors + [c])[p] == if p % 3 == k then Channel(c, p / 3) else RgbData(leds, colors)[p]
    {
      if p % 3 != k {
        assert LastIndex(l, p % 3) == LastIndex(leds, p % 3);
      }
    }
  }

  /** `writeRGB`: the colour report with `RGBData` after the header. */
  function RgbReport(mode: byte, data: seq<byte>): Report
    requires |data| == 9
  {
    Pad([ReportId, mode, 0x06, 0x00, 0x09, 0x00, 0x00, 0x00] + data)
  }

  /** With the LED indices every headset of the device table uses
    * (`[0, 1, 2]` for logo, power and mic), the plugin's colour report is
    * the C++ library's `Colors` report for the same three colours. */
  lemma RgbReportMatchesLibrary(mode: byte, logo: RgbColor, power: RgbColor, mic: RgbColor)
    ensures RgbReport(mode, RgbData([0, 1, 2], [logo, power, mic]))
         == Encode(Packet(mode, Colors(LedZones(logo, power, mic))))
  {
    var leds: seq<nat> := [0, 1, 2];
    assert LastIndex(leds, 0) == 0 by { assert leds[..2][..1] == [0]; }
    assert LastIndex(leds, 1) == 1 by { assert leds[..2] == [0, 1]; }
    assert LastIndex(leds, 2) == 2;
    assert RgbData(leds, [logo, power, mic]) == ColorBytes(LedZones(logo, power, mic));
  }

  // ---------------------------------------------------------------------
  // Direct lighting mode (modernDirectLightingMode)
  // ---------------------------------------------------------------------

  /** The hardware-brightness query `02 m 02 02 00`. */
  function BrightnessQuery(mode: byte): Report
  {
    Pad([ReportId, mode, 0x02, 0x02, 0x00])
  }

  /** The query's reply already reports full brightness: bytes 4-5 are
    * `E8 03`. A reply too short to hold them reads `undefined` there, which
    * differs from both. */
  predicate FullBrightnessReply(reply: seq<byte>)
  {
    |reply| > 5 && reply[4] == 0xE8 && reply[5] == 0x03
  }

  /** The reports `modernDirectLightingMode` writes, given the reply to its
    * brightness query: software mode, open lighting, the query, then the
    * full-brightness report only when the reply is not already full. */
  function DirectLightingReports(mode: byte, reply: seq<byte>): seq<Report>
  {
    [Pad([ReportId, mode, 0x01, 0x03, 0x00, 0x02]),
     Pad([ReportId, mode, 0x0D, 0x00, 0x01]),
     BrightnessQuery(mode)]
    + (if FullBrightnessReply(reply) then [] else [Pad([ReportId, mode, 0x01, 0x02, 0x00, 0xE8, 0x03])])
  }

  /** The plugin's start-up against the library's `initialize`: the first
    * two reports are the library's software-mode and open-lighting reports;
    * the third is a query that is none of the lighting commands; and the
    * library's brightness-1000 report follows exactly when the reply is not
    * already full brightness. */
  lemma DirectLightingMatchesLibrary(mode: byte, reply: seq<byte>)
    ensures var rs := DirectLightingReports(mode, reply);
      && rs[0] == Encode(Packet(mode, SoftwareMode))
      && rs[1] == Encode(Packet(mode, OpenLighting))
      && Decode(rs[2]) == None
      && (|rs| == 4 <==> !FullBrightnessReply(reply))
      && (|rs| == 4 ==> rs[3] == Encode(Packet(mode, Brightness(1000))))
  {
    var q := BrightnessQuery(mode);
    assert q[..5] == [ReportId, mode, 0x02, 0x02, 0x00];
    assert q[0] == ReportId && q[2] == 0x02;
    assert Prefix(Packet(mode, Brightness(1000))) == [ReportId, mode, 0x01, 0x02, 0x00, 0xE8, 0x03];
  }

  // ---------------------------------------------------------------------
  // Status polling (fetchMicStatus, fetchSleepStatus, fetchBattery)
  // ---------------------------------------------------------------------

  /** `Config.pollingInterval` and `Config.pollingBatteryInterval` (ms). */
  const MicPollingInterval: int := 1000
  const BatteryPollingInterval: int := 60000

  /** The polled part of the plugin's `Config`. */
  datatype PollState = PollState(
    lastMicStatePolling: int,
    lastMicState: int,
    lastBatteryPolling: int,
    batteryLevel: int,       // the value read from the level reply, in tenths of a percent
    batteryStatus: int,      // byte 4 of the status reply
    isSleeping: bool,
    wasSleeping: bool)

  /** The state the plugin object starts in. */
  const InitialPollState := PollState(0, 0, 0, 0, 0, false, false)

  /** What the device answers to each query of one poll. */
  datatype Replies = Replies(mic: Report, sleep: Report, level: Report, charge: Report)

  /** A poll's effect: the new state and the reports it wrote. */
  datatype Poll = Poll(state: PollState, sent: seq<Report>)

  /** The mic query code: 0xA6 for an HS80, 0x46 for the other headsets. */
  function MicReadCode(name: string): byte
  {
    if Contains(name, "HS80") then 0xA6 else 0x46
  }

  function MicQuery(mode: byte, code: byte): Report
  {
    Pad([ReportId, mode, 0x02, code, 0x00])
  }

  function LevelQuery(mode: byte): Report
  {
    Pad([ReportId, mode, 0x02, 0x0F, 0x00])
  }

  function StatusQuery(mode: byte): Report
  {
    Pad([ReportId, mode, 0x02, 0x10, 0x00])
  }

  /** `fetchBattery(force)`: unless forced, at most once per battery
    * interval; queries level and status and keeps the level (bytes 4-6 of
    * the level reply) and the status (byte 4 of the status reply). */
  function BatteryPoll(p: PollState, mode: byte, now: int, force: bool, rp: Replies): (q: Poll)
    ensures q.sent == [] || q.sent == [LevelQuery(mode), StatusQuery(mode)]
    ensures q.sent == [] <==> !force && now - p.lastBatteryPolling < BatteryPollingInterval
    ensures q.sent == [] ==> q.state == p
    ensures q.sent != [] ==> 0 <= q.state.batteryLevel < Two24 && q.state.lastBatteryPolling == now
  {
    if !force && now - p.lastBatteryPolling < BatteryPollingInterval then Poll(p, [])
    else
      ReadInt32Sign(rp.level[4..7]);
      Poll(p.(lastBatteryPolling := now,
              batteryLevel := ReadInt32LittleEndian(rp.level[4..7]),
              batteryStatus := rp.charge[4]),
           [LevelQuery(mode), StatusQuery(mode)])
  }

  /** `fetchSleepStatus`: queries the status; the headset sleeps when byte 0
    * of the reply is 2, and waking up forces a battery poll. */
  function SleepPoll(p: PollState, mode: byte, now: int, rp: Replies): Poll
  {
    var asleep := rp.sleep[0] == 2;
    var q := p.(isSleeping := asleep);
    var b := if !asleep && p.isSleeping then BatteryPoll(q, mode, now, true, rp) else Poll(q, []);
    Poll(b.state.(wasSleeping := p.isSleeping), [StatusQuery(mode)] + b.sent)
  }

  /** `fetchMicStatus`: at most once per mic interval, queries the mic
    * state; a reply that echoes the query code carries no state and triggers
    * a sleep poll instead, any other reply's byte 4 is the new mic state. The
    * function's result is the state's `lastMicState`. */
  function MicPoll(p: PollState, mode: byte, name: string, now: int, rp: Replies): Poll
  {
    if now - p.lastMicStatePolling < MicPollingInterval then Poll(p, [])
    else
      var code := MicReadCode(name);
      var q := p.(lastMicStatePolling := now);
      if rp.mic[3] == code then
        var s := SleepPoll(q, mode, now, rp);
        Poll(s.state, [MicQuery(mode, code)] + s.sent)
      else
        Poll(q.(lastMicState := rp.mic[4]), [MicQuery(mode, code)])
  }

  /** A sleep poll records whether the headset slept before and sleeps now,
    * and forces a battery poll exactly when the headset woke up. */
  lemma SleepPollWakeUp(p: PollState, mode: byte, now: int, rp: Replies)
    ensures var s := SleepPoll(p, mode, now, rp);
      s.state.wasSleeping == p.isSleeping && s.state.isSleeping == (rp.sleep[0] == 2)
      && s.state.lastMicState == p.lastMicState && s.state.lastMicStatePolling == p.lastMicStatePolling
      && (s.sent == [StatusQuery(mode), LevelQuery(mode), StatusQuery(mode)] <==> p.isSleeping && rp.sleep[0] != 2)
      && (s.sent == [StatusQuery(mode)] <==> !(p.isSleeping && rp.sleep[0] != 2))
  {
    var asleep := rp.sleep[0] == 2;
    var q := p.(isSleeping := asleep);
    if !asleep && p.isSleeping {
      var b := BatteryPoll(q, mode, now, true, rp);
      assert [StatusQuery(mode)] + b.sent != [StatusQuery(mode)];
    }
  }

  /** The mic state is polled at most once per interval: a second poll at the
    * same time writes nothing and changes nothing, whatever the device would
    * answer. */
  lemma MicPollOncePerInterval(p: PollState, mode: byte, name: string, now: int, rp: Replies, rp2: Replies)
    ensures var a := MicPoll(p, mode, name, now, rp);
      MicPoll(a.state, mode, name, now, rp2) == Poll(a.state, [])
  {
    var a := MicPoll(p, mode, name, now, rp);
    if now - p.lastMicStatePolling >= MicPollingInterval {
      var code := MicReadCode(name);
      var q := p.(lastMicStatePolling := now);
      if rp.mic[3] == code {
        SleepPollWakeUp(q, mode, now, rp);
      }
      assert a.state.lastMicStatePolling == now;
    }
  }

  /** The mic state a poll reports: unchanged within the interval or on an
    * echoed reply, otherwise byte 4 of the reply; a query goes out exactly
    * when the interval has elapsed, and it is the HS80 query for an HS80. */
  lemma MicPollReading(p: PollState, mode: byte, name: string, now: int, rp: Replies)
    ensures var a := MicPoll(p, mode, name, now, rp);
      var due := now - p.lastMicStatePolling >= MicPollingInterval;
      (a.state.lastMicState == if due && rp.mic[3] != MicReadCode(name) then rp.mic[4] else p.lastMicState)
      && (a.sent == [] <==> !due)
      && (due ==> a.sent[0] == MicQuery(mode, MicReadCode(name)) && a.state.lastMicStatePolling == now)
  {
    var due := now - p.lastMicStatePolling >= MicPollingInterval;
    if due && rp.mic[3] == MicReadCode(name) {
      SleepPollWakeUp(p.(lastMicStatePolling := now), mode, now, rp);
    }
  }

  /** The device names of the table: an HS80 gets the 0xA6 query, a
    * Virtuoso the 0x46 one. */
  lemma MicReadCodes()
    ensures MicReadCode("HS80 RGB Wireless") == 0xA6
    ensures MicReadCode("Virtuoso") == 0x46
  {
    assert OccursAt("HS80 RGB Wireless", "HS80", 0);
    forall k | 0 <= k <= |"Virtuoso"| ensures !OccursAt("Virtuoso", "HS80", k) {
      if 0 <= k <= |"Virtuoso"| - 4 {
        assert "Virtuoso"[k..k + 4][0] == "Virtuoso"[k];
      }
    }
  }
}
