# Corsair HS80 headset protocol: a verified model

This project models the device-protocol core of a small set of tools for the
Corsair HS80 RGB Wireless headset and proves properties of it:

- **Lighting commands**: the zero-padded 64-byte reports `[0x02, mode, cmd, …]`.
  The mode byte is 0x09 for a wireless headset and 0x08 for a wired one. The
  commands are software mode, open lighting endpoint, brightness, colours
  (grouped by channel, R R R G G G B B B) and hardware mode. The model proves
  that the C++ library and the stand-alone C++ console tool build the same
  initialisation, colour and hardware-mode reports. Of the SignalRGB
  JavaScript plugin's reports, the colour report is proved equal to the
  library's. Its start-up writes the library's software-mode and
  open-lighting reports, then a brightness query, and the library's
  brightness report only when the reply is not already full brightness.
- **Event reports**: the `HeadsetEvent` accessors of the library (mute,
  battery, charging, description), the stricter classifier of the console tool,
  and the copy of each read into the event. That copy can overflow; see
  Findings.
- **Controller state**: `RGBController` (connection, lazy switch to software
  mode, colour and brightness caches, keep-alive flag), `EventMonitor`
  (connection, monitoring flag, read loop) and `HeadsetManager`. They are
  classes whose methods update their fields. The device write is a method that
  may succeed or fail and records each report and its outcome in ghost logs.
- **Selection and parsing helpers**:
  - the vid/pid filter of `enumerateDevices` and `findDeviceByUsage`;
  - the console tool's RGB-endpoint search;
  - the plugin's `detectDeviceEndpoint`, `hexToRgb`, `ReadInt32LittleEndian`,
    `sendColors`/`writeRGB`, `setIdleTimeout` and its mic, sleep and battery
    polling;
  - the Python tool's `find_corsair_devices` filter and the `parse_report`
    byte heuristic.

Files and modules:

| file | module | models |
|---|---|---|
| `bytes.dfy` | `Bytes` | bytes, the 64-byte report, 16-bit little-endian split |
| `hex.dfy` | `Hex` | hexadecimal text (`%02X`, `toString(16)`, `parseInt(…, 16)`, `bytes.hex()`) |
| `text.dfy` | `Text` | decimal numerals, ASCII lower-casing, substring search |
| `lighting.dfy` | `Lighting` | `RGBColor`, `LEDZones`, `LEDZone` |
| `packets.dfy` | `Packets` | the lighting command reports and their decoder |
| `headset_event.dfy` | `HeadsetEvents` | `HeadsetEvent` and its accessors |
| `devices.dfy` | `Devices` | `enumerateDevices`, `findDeviceByUsage`, RGB-endpoint search |
| `hid.dfy` | `Hid` | the write side of an open HID interface |
| `controller.dfy` | `RgbControl` | `RGBController` |
| `monitor.dfy` | `EventMonitoring` | `EventMonitor` and the event capture |
| `manager.dfy` | `Manager` | `HeadsetManager` |
| `standalone.dfy` | `Standalone` | the packet builders and read-loop classifier of the console tool |
| `plugin_codec.dfy` | `PluginCodec` | the pure parts of the plugin: colour text, integer reader, idle timeout, LED colours, polling |
| `plugin.dfy` | `Plugin` | the plugin object `CORSAIR_Device_Protocol` |
| `cli.dfy` | `CorsairCli` | the Python command-line tool |

Where the library and the console tool disagree, the model follows each
program's own code and proves the disagreement as a lemma:

- The library's accessors test only byte 0 of the `03 01 01` event header;
  the console tool tests all three bytes (`Standalone.HeaderDisagreement`).
- For the charging byte, the tool tells 0x02 ("charging ended") apart; the
  library reads every byte but 0x01 as "not charging"
  (`Standalone.ChargingEndDisagreement`).

## Model

| member | source | states |
|---|---|---|
| Bytes.Zeros | HS80/HS80.cpp:245 | a run of `n` zero bytes, as `std::fill` leaves the buffer |
| Bytes.Pad | HS80/HS80_Library.cpp:283 | a report holding the assigned prefix, then zeros, in exactly 64 bytes |
| Bytes.Le16OfSplit | HS80/HS80_Library.cpp:404-405 | splitting a 16-bit value into `v & 0xFF` and `(v >> 8) & 0xFF` and joining them again gives `v` |
| Bytes.SplitOfLe16 | HS80/HS80_Library.h:90-106 | `lo \| hi << 8` of two bytes is below 65536 and splits back into the same two bytes |
| Hex.DigitValue | HS80/Corsair_Headset_Controller.js:659 | a hex digit is worth less than 16 |
| Hex.DigitChar | HS80/HS80_Library.h:151-155 | the digit printed for a value below 16, in either case, reads back as that value |
| Hex.HexValueConcat | HS80/Corsair_Headset_Controller.js:294-296 | reading a concatenation of hex strings: the digits of the left part are worth `16^|right|` each |
| Hex.HexValueBound | HS80/Corsair_Headset_Controller.js:294-296 | `k` hex digits read as a value below `16^k` |
| Hex.PairValue | HS80/Corsair_Headset_Controller.js:661-663 | two hex digits read as a byte equal to their hexadecimal value |
| Hex.ByteHex | HS80/HS80_Library.h:151-155 | `%02X` of a byte is two hex digits |
| Hex.ByteHexRoundTrip | HS80/HS80_Library.h:151-155 | a byte printed as two hex digits, in either case, reads back as the byte |
| Hex.ToHex | HS80/Corsair_Headset_Controller.js:285 | `toString(16)` is a non-empty string of hex digits |
| Hex.ToHexValue | HS80/Corsair_Headset_Controller.js:285 | `parseInt(n.toString(16), 16) == n` |
| Hex.ToHexLength | HS80/Corsair_Headset_Controller.js:285 | a value below `16^k` needs at most `k` digits |
| Hex.PadStartZeros | HS80/Corsair_Headset_Controller.js:285 | `padStart(width, '0')` reaches the width, keeps a longer string's length, and keeps hex text hex |
| Hex.PadStartValue | HS80/Corsair_Headset_Controller.js:285 | leading zeros do not change the value read |
| Hex.ZerosValue | HS80/Corsair_Headset_Controller.js:285 | a string of zeros reads as 0 |
| Text.DecimalDigit | HS80/HS80_Library.h:135 | the digit character of a value below 10 is `'0'`..`'9'` |
| Text.Decimal | HS80/HS80_Library.h:135 | `std::to_string` of a non-negative number is a non-empty string of digits |
| Text.DecimalRoundTrip | HS80/HS80_Library.h:135 | the numeral written for `n` reads back as `n` |
| Text.DecimalInjective | HS80/HS80_Library.h:135 | distinct numbers are written differently |
| Text.Lower | corsair_cli.py:44-45 | lower-cases each ASCII letter and keeps every other character and the length (ASCII only; see Left out) |
| Lighting.WithZone | HS80/HS80_Library.cpp:322-346 | the `setZone` cache update: the named LED takes the colour, `All` sets every LED, every other LED keeps its colour |
| Lighting.UniformZonesAreUniform | HS80/HS80_Library.h:35-41 | `LEDZones()` gives all three LEDs (0, 155, 222); `LEDZones(all)` gives all three `all`; a uniform set is `LEDZones` of its colour |
| Lighting.AllZoneIsSetColor | HS80/HS80_Library.cpp:314-346 | `setZone(All, c)` leaves the same cache as `setColor(c)` |
| Lighting.WithZoneOverwrite | HS80/HS80_Library.cpp:322-346 | a second update of one LED overrides the first; updates of two different LEDs commute |
| Packets.DecodeEncode | HS80/HS80_Library.cpp:201-312 | every command report decodes back to its command and mode, brightness included |
| Packets.EncodeInjective | HS80/HS80_Library.cpp:201-442 | no two distinct commands share a report |
| Packets.ColorReportLayout | HS80/HS80_Library.cpp:281-311 | colour report: header `02 m 06 00 09 00 00 00`, red of the logo, power and mic LEDs at bytes 8-10, green at 11-13, blue at 14-16, zero from byte 17 |
| Packets.BrightnessReportLayout | HS80/HS80_Library.cpp:384-408 | brightness report `02 m 01 02 00 lo hi`, bytes 5-6 read back little-endian as the level, zero from byte 7 |
| Packets.ModeSwitchReports | HS80/HS80_Library.cpp:211-218 | software and hardware mode differ only in byte 5 (0x02 against 0x01) |
| HeadsetEvents.ActualEventTypeIgnoresBytes1And2 | HS80/HS80_Library.h:68-74 | the type is byte 3 when at least 4 bytes were read and byte 0 is 0x03, whatever bytes 1-2 hold; otherwise the stored type |
| HeadsetEvents.MuteStates | HS80/HS80_Library.h:76-88 | muted iff at least 6 bytes, header 0x03, code 0xA6 and byte 5 = 1; unmuted likewise with 0; never both; neither for any other byte 5 |
| HeadsetEvents.BatteryLevels | HS80/HS80_Library.h:90-106 | raw and percent are -1 under the same condition (not a complete battery report); otherwise raw is 16-bit and percent is raw / 10 |
| HeadsetEvents.BatteryExample | HS80/HS80_Library.h:90-98 | `03 01 01 0F 00 B2 02` gives raw 690, 69 % and the text "Akku: 69%" |
| HeadsetEvents.ChargingState | HS80/HS80_Library.h:108-113 | charging iff at least 6 bytes, header, code 0x10 and byte 5 = 1; byte 5 = 0x02 is not charging |
| HeadsetEvents.DescriptionUnknownFormat | HS80/HS80_Library.h:116-119 | the "unknown format" text is given exactly to reports shorter than 4 bytes or without the 0x03 header |
| HeadsetEvents.DescriptionShowsBatteryLevel | HS80/HS80_Library.h:130-137 | for a complete battery report the text is "Akku: " + `getBatteryLevel` in decimal + "%" |
| HeadsetEvents.DescriptionOfMuteReport | HS80/HS80_Library.h:124-128 | a mute report is described as muted iff `isMuted`; any byte 5 above 1 is described as active although `isUnmuted` is false |
| HeadsetEvents.DescriptionOfUnknownCode | HS80/HS80_Library.h:145-155 | an unknown code is shown as two upper-case hex digits that read back as the code |
| Devices.EnumerateDevices | HS80/HS80_Library.cpp:49-121 | the loop pushes exactly the interfaces that open, answer their queries and pass the vid/pid filter, in system order |
| Devices.EnumeratedMembers | HS80/HS80_Library.cpp:85-86 | every listed device passes the filter (0 is a wildcard), a device is listed iff it comes from a listed system entry, and there are no more devices than entries |
| Devices.WildcardKeepsEveryReachable | HS80/HS80_Library.cpp:85-86 | with both ids 0 every interface that opens and answers is listed |
| Devices.FirstWithUsageIsFirst | HS80/HS80_Library.cpp:123-136 | the device found has the usage page and usage and no earlier device has them; nothing is found iff no device has them |
| Devices.FindDeviceByUsage | HS80/HS80_Library.cpp:123-136 | returns true and the first matching enumerated device, or false with `outInfo` untouched |
| Devices.SelectRgbEndpoint | HS80/HS80.cpp:444-461 | the endpoint kept is the first Corsair HS80 wireless interface with usage page 0xFF42 and usage 1 that opens; every earlier one failed to open; only such interfaces are tried, in order |
| Hid.HidLink.constructor | HS80/HS80_Library.cpp:26-47 | a link starts with empty write and outcome logs |
| Hid.HidLink.Write | HS80/HS80_Library.cpp:26-47 | a write appends the report and its outcome to the logs |
| RgbControl.SoftwareModeReport | HS80/HS80_Library.cpp:211-218 | the array filled for packet 1 is the software-mode report |
| RgbControl.OpenLightingReport | HS80/HS80_Library.cpp:228-233 | the array filled for packet 2 is the open-lighting report |
| RgbControl.BrightnessReport | HS80/HS80_Library.cpp:396-405 | the array filled by `sendBrightnessInternal` is the brightness report of the level |
| RgbControl.ColorsReport | HS80/HS80_Library.cpp:281-309 | the array filled by `sendColorsInternal` is the colour report of the zones |
| RgbControl.ColorsAfterHeader | HS80/HS80_Library.cpp:293-309 | the nine bytes after the colour header are the channel-grouped colours |
| RgbControl.HardwareModeReport | HS80/HS80_Library.cpp:428-434 | the array filled by `setHardwareMode` is the hardware-mode report |
| RgbControl.Clamp | HS80/HS80_Library.cpp:364-382 | the clamped value lies in the range, equals the input inside it and the nearer bound outside |
| RgbControl.BrightnessConversions | HS80/HS80_Library.cpp:364-371 | percent → raw is `10 * percent` and converts back to the same percent; raw → percent loses at most the last nine raw steps |
| RgbControl.RgbController.constructor | HS80/HS80_Library.cpp:142-150 | a new controller is closed and not initialised, with the default zones and brightness 1000 |
| RgbControl.RgbController.BrightnessPercent | HS80/HS80_Library.cpp:410-413 | `getBrightness` is a percent in [0, 100] whose raw value is the cache rounded down to ten |
| RgbControl.RgbController.Connect | HS80/HS80_Library.cpp:157-184 | closes a previous connection (hardware mode first if it was initialised); connected exactly when the RGB interface (usage 1) is found and opens; the mode follows the requested pid; caches are kept |
| RgbControl.RgbController.Disconnect | HS80/HS80_Library.cpp:186-199 | stops the keep-alive, sends hardware mode only if initialised, and closes; a second call sends nothing |
| RgbControl.RgbController.Initialize | HS80/HS80_Library.cpp:201-262 | not connected: false, no write; otherwise software mode, open lighting and brightness 1000 in order, stopping at the first refused write; initialised only when all three were accepted |
| RgbControl.SendInitReports | HS80/HS80_Library.cpp:209-261 | on an open device, software mode, open lighting and brightness 1000 are written in order, stopping at the first refused write; success iff all three were accepted |
| RgbControl.RgbController.SendLazily | HS80/HS80_Library.cpp:272-279 | not connected gives false; not initialised runs `initialize` first and gives false if it fails; then the payload is written |
| RgbControl.RgbController.SendColorsInternal | HS80/HS80_Library.cpp:272-312 | the colour report is sent under the lazy-initialisation rule; caches unchanged |
| RgbControl.RgbController.SendBrightnessInternal | HS80/HS80_Library.cpp:384-408 | the brightness report is sent under the lazy-initialisation rule; caches unchanged |
| RgbControl.RgbController.SetColors | HS80/HS80_Library.cpp:264-270 | the cache holds the new zones whatever the send's outcome, and their colour report is sent lazily |
| RgbControl.RgbController.SetColor | HS80/HS80_Library.cpp:314-320 | the cache holds the uniform zones of the colour, and they are sent |
| RgbControl.RgbController.Off | HS80/HS80_Library.cpp:507-513 | the cache holds all-black zones, and they are sent |
| RgbControl.RgbController.SetZone | HS80/HS80_Library.cpp:322-346 | only the named zone changes in the cache (all three for `All`), and the whole cached set is sent |
| RgbControl.RgbController.SetLogoColor | HS80/HS80_Library.cpp:348-350 | only the logo colour changes, and the cached set is sent in the unchanged mode; connection, mode, keep-alive and brightness are kept |
| RgbControl.RgbController.SetPowerColor | HS80/HS80_Library.cpp:352-354 | only the power colour changes, and the cached set is sent in the unchanged mode; connection, mode, keep-alive and brightness are kept |
| RgbControl.RgbController.SetMicColor | HS80/HS80_Library.cpp:356-358 | only the mic colour changes, and the cached set is sent in the unchanged mode; connection, mode, keep-alive and brightness are kept |
| RgbControl.RgbController.SetBrightnessRaw | HS80/HS80_Library.cpp:373-382 | the cache holds the value clamped to [0, 1000] whatever the send's outcome, and that level is sent |
| RgbControl.RgbController.SetBrightness | HS80/HS80_Library.cpp:364-371 | the cache holds 10 × the percent clamped to [0, 100], `getBrightness` then returns the clamped percent, and that level is sent |
| RgbControl.RgbController.SetHardwareMode | HS80/HS80_Library.cpp:419-442 | not connected: false, nothing sent; otherwise the hardware-mode report is sent and software mode ends whatever the outcome |
| RgbControl.RgbController.StartKeepAlive | HS80/HS80_Library.cpp:515-572 | already running: true, no change; not connected or not initialised: false; otherwise running, and success, exactly when the thread is created |
| RgbControl.RgbController.StopKeepAlive | HS80/HS80_Library.cpp:574-589 | the keep-alive is stopped and nothing else changes, also when it was not running |
| RgbControl.RgbController.KeepAliveTick | HS80/HS80_Library.cpp:538-556 | while running, one pass re-sends the cached zones lazily; once stopped it sends nothing |
| EventMonitoring.FullReadOverflows | HS80/HS80_Library.cpp:724-728 | a 65-byte read fits the read buffer but the copy as written overruns the 64-byte `data` |
| EventMonitoring.Capture | HS80/HS80_Library.cpp:724-728 | the bounded copy: type is byte 0, `dataSize` = min(read, 64), `data` holds the bytes read, zeros after |
| EventMonitoring.CaptureFrom | HS80/HS80_Library.cpp:724-728 | the event built from the buffer after a read is the bounded capture of the bytes read |
| EventMonitoring.CaptureAgreesWithinBounds | HS80/HS80_Library.cpp:724-728 | the copy as written is defined iff at most 64 bytes were read, and then equals the bounded copy |
| EventMonitoring.AccessorsIgnoreBytesPastRead | HS80/HS80_Library.h:68-149 | no accessor depends on `data` past `dataSize` |
| EventMonitoring.DeliveriesAreCaptures | HS80/HS80_Library.cpp:700-735 | every delivered event fits `data` and is the capture of a completed read; never more events than reads; none without a callback |
| EventMonitoring.EventMonitor.constructor | HS80/HS80_Library.cpp:595-601 | a new monitor is closed, not running, without callback and with a zeroed buffer |
| EventMonitoring.EventMonitor.Connect | HS80/HS80_Library.cpp:607-639 | success exactly when the event interface (usage 2) is found, opens and its wait event is created; never running afterwards |
| EventMonitoring.EventMonitor.Disconnect | HS80/HS80_Library.cpp:641-654 | stops monitoring and closes the wait event and the device |
| EventMonitoring.EventMonitor.StartMonitoring | HS80/HS80_Library.cpp:656-678 | refused when not connected or already running; otherwise stores the callback and runs, and succeeds, exactly when the thread is created |
| EventMonitoring.EventMonitor.StopMonitoring | HS80/HS80_Library.cpp:680-692 | not running afterwards; nothing else changes, also when it was not running |
| EventMonitoring.EventMonitor.ReadStep | HS80/HS80_Library.cpp:700-735 | one pass: a completed read fills the buffer and its bounded capture is delivered to a callback; a failed wait ends the loop |
| EventMonitoring.EventMonitor.ReadLoop | HS80/HS80_Library.cpp:700-735 | the loop delivers exactly the captures of the completed reads, up to a failed wait |
| Manager.HeadsetManager.constructor | HS80/HS80_Library.cpp:741-743 | a new manager owns a closed controller and a closed, idle monitor |
| Manager.HeadsetManager.Connect | HS80/HS80_Library.cpp:749-766 | each interface of the HS80 wireless ends connected exactly by its own lookup and open outcomes, whatever the other's outcome (both are tried); success exactly when both are open; caches kept |
| Manager.HeadsetManager.Disconnect | HS80/HS80_Library.cpp:768-772 | stops monitoring, closes both interfaces, restores hardware mode only if software mode was on |
| Manager.HeadsetManager.SetLeds | HS80/HS80_Library.cpp:778-784 | every LED takes the colour and the colour report is sent lazily; connection, mode, keep-alive and brightness kept |
| Manager.HeadsetManager.SetLedZones | HS80/HS80_Library.cpp:778-784 | the cache holds the zones and they are sent lazily; connection, mode, keep-alive and brightness kept |
| Manager.HeadsetManager.SetZone | HS80/HS80_Library.cpp:786-788 | one zone updated, the cached set sent; connection, mode, keep-alive and brightness kept |
| Manager.HeadsetManager.SetBrightness | HS80/HS80_Library.cpp:790-792 | the raw level is exactly 10 × the clamped percent, `getBrightness` returns the clamped percent, the level is sent; zones, connection, mode and keep-alive kept |
| Manager.HeadsetManager.StartEventMonitoring | HS80/HS80_Library.cpp:794-796 | the monitor's start guards and thread outcome, passed through; the connection is kept |
| Standalone.FillZero | HS80/HS80.cpp:245 | `std::fill` zeroes the whole buffer |
| Standalone.FillSoftwareMode | HS80/HS80.cpp:230-236 | the zeroed buffer becomes the software-mode report |
| Standalone.FillOpenLighting | HS80/HS80.cpp:244-250 | the zeroed buffer becomes the open-lighting report |
| Standalone.FillFullBrightness | HS80/HS80.cpp:258-266 | the zeroed buffer becomes the brightness-1000 report |
| Standalone.InitializeRgbMode | HS80/HS80.cpp:223-276 | the same three reports, in the same order and with the same stop-at-first-failure rule, as the library's `initialize` |
| Standalone.SendInitStage | HS80/HS80.cpp:230-271 | each stage rezeroes the shared buffer (after the first), fills one initialisation report and writes exactly that report |
| Standalone.InitRunAfter | HS80/HS80.cpp:238-275 | returning after the first refused write, or after three accepted ones, leaves a run of `initialize` |
| Standalone.SendRgbColors | HS80/HS80.cpp:279-316 | one report, identical to the library's colour report for the same three colours |
| Standalone.SetHardwareMode | HS80/HS80.cpp:319-335 | one report, identical to the library's hardware-mode report |
| Standalone.ClassifyShapes | HS80/HS80.cpp:589-642 | a read is a volume update iff it is 2 bytes long, and a structured event iff it carries `03 01 01` and a code; the kind follows the code |
| Standalone.ClassifierAgreesWithLibrary | HS80/HS80.cpp:589-642 | on reports with the full header the tool and the library accessors agree on code, battery, mute and charging |
| Standalone.HeaderDisagreement | HS80/HS80.cpp:593-594 | `03 00 00 A6 00 01` is muted for the library and not classified by the tool |
| Standalone.ChargingEndDisagreement | HS80/HS80.cpp:608-620 | charging byte 0x02 is "charging ended" for the tool and only "not charging" for the library |
| Standalone.ReadsAfterFailureIgnored | HS80/HS80.cpp:555-650 | nothing after the first failed read is classified |
| Standalone.ReadAndClassify | HS80/HS80.cpp:555-650 | the loop classifies every non-empty read up to the first failure and counts them |
| PluginCodec.HexToRgb | HS80/Corsair_Headset_Controller.js:658-666 | a colour iff the text is six hex digits with an optional `#`, in either case; each channel is the value of its digit pair |
| PluginCodec.ColorText | HS80/Corsair_Headset_Controller.js:658-666 | `#rrggbb` text is seven characters starting with `#` |
| PluginCodec.HexToRgbRoundTrip | HS80/Corsair_Headset_Controller.js:658-666 | every colour written as `#rrggbb` or `rrggbb`, in either case, reads back as itself |
| PluginCodec.DefaultColors | HS80/Corsair_Headset_Controller.js:20-22 | the default forced colour `#009bde` is the library's factory colour, the default mute colour is red, and the suspend colour `#000000` (line 50) is black |
| PluginCodec.ColorOfDigits | HS80/Corsair_Headset_Controller.js:658-666 | `#` and six hex digits read as the colour whose channels are the digit pairs, high digit first |
| PluginCodec.ColorTextLength | HS80/Corsair_Headset_Controller.js:658-666 | five digits after `#`, or seven without one, are refused |
| PluginCodec.ReadInt32LittleEndian | HS80/Corsair_Headset_Controller.js:422-424 | the result is a signed 32-bit value congruent modulo 2^32 to the little-endian sum of the four bytes, a missing byte counting 0 |
| PluginCodec.ReadInt32Sign | HS80/Corsair_Headset_Controller.js:422-424 | negative iff the fourth byte exists and has its top bit set; the three-byte battery slice reads as `b0 \| b1 << 8 \| b2 << 16` |
| PluginCodec.Pairs | HS80/Corsair_Headset_Controller.js:286 | `match(/../g)` cuts the text into consecutive two-character pieces |
| PluginCodec.Reversed | HS80/Corsair_Headset_Controller.js:286 | `reverse()` mirrors the positions |
| PluginCodec.LittleEndianHex | HS80/Corsair_Headset_Controller.js:285-286 | at least three pieces, each two hex digits |
| PluginCodec.LittleEndianHexValue | HS80/Corsair_Headset_Controller.js:284-286 | a value below 2^24 gives three pairs, lowest byte first, that spell the value |
| PluginCodec.SixDigits | HS80/Corsair_Headset_Controller.js:285-296 | six hex digits read as three pairs, high pair first |
| PluginCodec.IdleTimeoutRoundTrip | HS80/Corsair_Headset_Controller.js:269-300 | "n minutes" sends two enabling reports, then a timeout report whose bytes 5-7 read back little-endian as `n * 60000` |
| PluginCodec.TimeoutChoicesFit | HS80/Corsair_Headset_Controller.js:140 | every minute count offered fits the three bytes |
| PluginCodec.LedColorPriority | HS80/Corsair_Headset_Controller.js:189-203 | a Mic LED in MuteState mode shows the mute colour iff muted, ignoring override and forced colour; elsewhere the override beats Forced; the canvas shows iff no rule applies |
| PluginCodec.LedColors | HS80/Corsair_Headset_Controller.js:184-208 | one colour per LED, each by the priority rule |
| PluginCodec.LastIndex | HS80/Corsair_Headset_Controller.js:205-207 | the last LED written to a slot, or none |
| PluginCodec.RgbData | HS80/Corsair_Headset_Controller.js:205-207 | `RGBData` holds nine bytes after the loop |
| PluginCodec.LedColorsIgnoreMicState | HS80/Corsair_Headset_Controller.js:189-203 | without a Mic LED in MuteState mode the mic state changes no colour |
| PluginCodec.RgbDataAppend | HS80/Corsair_Headset_Controller.js:205-207 | one more LED sets its slot's three channel bytes (`led`, `led+3`, `led+6`) and no other byte |
| PluginCodec.RgbReportMatchesLibrary | HS80/Corsair_Headset_Controller.js:213-219 | with LEDs `[0, 1, 2]` the plugin's colour report equals the library's colour report of the same colours |
| PluginCodec.BatteryPoll | HS80/Corsair_Headset_Controller.js:303-336 | unforced and within the battery interval: nothing sent or changed; otherwise level and status queries, a 24-bit level and the poll time recorded |
| PluginCodec.SleepPollWakeUp | HS80/Corsair_Headset_Controller.js:339-363 | sleeping iff reply byte 0 is 2; a forced battery poll happens iff the headset woke up |
| PluginCodec.MicPollOncePerInterval | HS80/Corsair_Headset_Controller.js:223-225 | a second poll at the same time writes and changes nothing, whatever the device answers |
| PluginCodec.MicPollReading | HS80/Corsair_Headset_Controller.js:221-254 | within the interval or on an echoed reply the state is unchanged, otherwise byte 4; a query is sent iff the interval elapsed |
| PluginCodec.MicReadCodes | HS80/Corsair_Headset_Controller.js:228 | an HS80 is queried with 0xA6, a Virtuoso with 0x46 |
| Plugin.FirstSharedIsFirst | HS80/Corsair_Headset_Controller.js:386-420 | the endpoint found is the first table endpoint, in table order, that the device exposes; none iff there is no shared endpoint |
| Plugin.TimeoutPacket | HS80/Corsair_Headset_Controller.js:288-296 | bytes 0-3 and 5-7 as set, byte 4 a hole sent as 0, zeros after |
| Plugin.PlaceColor | HS80/Corsair_Headset_Controller.js:205-207 | one LED's three writes turn `RGBData` of the LEDs so far into `RGBData` with that LED added |
| Plugin.DeviceProtocol.constructor | HS80/Corsair_Headset_Controller.js:68-84 | the default `Config`: zero endpoint, zero poll times and mic state |
| Plugin.DeviceProtocol.DetectDeviceEndpoint | HS80/Corsair_Headset_Controller.js:386-420 | the nested loops settle on the first shared endpoint; without one the endpoint is unchanged |
| Plugin.DeviceProtocol.SetIdleTimeout | HS80/Corsair_Headset_Controller.js:269-300 | exactly the idle-timeout reports of the setting are written |
| Plugin.WriteIdleTimeout | HS80/Corsair_Headset_Controller.js:274-298 | the writes on the link are exactly the idle-timeout reports of the setting for the mode |
| Plugin.TimeoutReport | HS80/Corsair_Headset_Controller.js:284-296 | the packet built from `idleTimeout * 60000` is the third idle-timeout report |
| PluginCodec.DirectLightingMatchesLibrary | HS80/Corsair_Headset_Controller.js:153-175 | the start-up's first two reports are the library's software-mode and open-lighting reports, the third (`02 m 02 02 00`) is no lighting command, and the library's brightness-1000 report follows iff the reply's bytes 4-5 are not `E8 03` |
| Plugin.DeviceProtocol.ModernDirectLightingMode | HS80/Corsair_Headset_Controller.js:153-175 | exactly the start-up reports for the mode and the query's reply are written |
| Plugin.DeviceProtocol.WriteRgb | HS80/Corsair_Headset_Controller.js:213-219 | the colour header followed by `RGBData`, zero-padded |
| Plugin.DeviceProtocol.FetchBattery | HS80/Corsair_Headset_Controller.js:303-336 | state and writes are those of the battery poll |
| Plugin.DeviceProtocol.FetchSleepStatus | HS80/Corsair_Headset_Controller.js:339-363 | state and writes are those of the sleep poll |
| Plugin.DeviceProtocol.FetchMicStatus | HS80/Corsair_Headset_Controller.js:221-254 | state and writes are those of the mic poll, and the result is the cached mic state afterwards |
| Plugin.DeviceProtocol.PickColor | HS80/Corsair_Headset_Controller.js:189-203 | one loop step: the LED's colour by the priority rule, polling the mic only for a Mic LED in MuteState mode |
| Plugin.DeviceProtocol.SendColors | HS80/Corsair_Headset_Controller.js:177-211 | at most one mic poll, then exactly one colour report of the LEDs' priority colours placed in `RGBData` |
| CorsairCli.CorsairOnlyKeeps | corsair_cli.py:38-48 | the filter keeps exactly the Corsair devices |
| CorsairCli.CorsairOnlyAppend | corsair_cli.py:38-48 | the filter keeps enumeration order |
| CorsairCli.CorsairExamples | corsair_cli.py:43-46 | strings match in any letter case; vendor id 0x1B1C alone suffices; an entry with no fields is not Corsair |
| CorsairCli.FindCorsairDevices | corsair_cli.py:38-48 | no `hid` module: no devices; otherwise the Corsair devices in order |
| CorsairCli.RawHex | corsair_cli.py:101 | `bytes.hex()`: two lower-case digits per byte |
| CorsairCli.RawHexRoundTrip | corsair_cli.py:101 | every digit pair of `raw_hex` reads back as its byte |
| CorsairCli.Candidates | corsair_cli.py:107 | the candidates are the bytes of at most 100 |
| CorsairCli.FirstBattery | corsair_cli.py:108-113 | the first byte in [10, 100], or none when there is none |
| CorsairCli.FirstBatteryAppend | corsair_cli.py:108-113 | the battery scan stops at the first hit |
| CorsairCli.FirstBatteryOfCandidates | corsair_cli.py:107-113 | scanning the candidates finds the first battery-like byte of the report |
| CorsairCli.LastSmall | corsair_cli.py:136-140 | the last byte of at most 100, or none |
| CorsairCli.LastSmallOfCandidates | corsair_cli.py:107-140 | the last candidate is the last byte of at most 100 |
| CorsairCli.FirstFlagPair | corsair_cli.py:116-133 | the first flag pair at or after a position, or none after it |
| CorsairCli.ParseBounds | corsair_cli.py:107-140 | every percentage lies in [0, 100], a battery found by the battery scan is at least 10, and a report with a byte of at most 100 yields a volume |
| CorsairCli.ParseShape | corsair_cli.py:96-140 | no data gives every field absent; `charging` and `muted` are present iff a charging or mute pair exists |
| CorsairCli.ParseBatteryEvent | corsair_cli.py:93-142 | the HS80 battery event reads as 15 %, charging, volume 1 and muted |
| CorsairCli.ScanBattery | corsair_cli.py:108-113 | the loop with `break` sets the battery to the first battery-like candidate |
| CorsairCli.ScanCharging | corsair_cli.py:116-124 | the loop sets charging from the first charging pair and fills a missing battery from its second byte |
| CorsairCli.ScanMute | corsair_cli.py:127-133 | the loop sets muted and volume from the first mute pair |
| CorsairCli.ScanVolume | corsair_cli.py:136-140 | the backward loop sets the volume to the last candidate |
| CorsairCli.ParseReport | corsair_cli.py:93-142 | `parse_report` returns exactly the result the scans define |

## Left out

- Windows API calls are not modelled: SetupAPI enumeration, `CreateFileA`, `WriteFile`, overlapped `ReadFile`, `CancelIo` and closing handles. The model takes the enumeration as an input list and each open, `CreateEvent`, read and thread-creation outcome as an input; a write's success is left unknown.
- Threads, critical sections, `WaitForSingleObject` timeouts and `Sleep` are not modelled. The keep-alive is its flag and one tick; the read loop is a run over a given list of read outcomes.
- `rainbow`, `pulse`, the console tool's rainbow loop and the battery `double` display are left out: they are floating-point colour and display code.
- The analyzer and demo programs and the older copy of the console tool are left out: they are console menus, logging and a duplicate of the classifier.
- The Python tool's `try_read_feature`, its system-volume code and `main` are left out: they are hidapi and COM I/O and JSON printing.
- The plugin's host calls (`device.set_endpoint`, `pause`, `clearReadBuffer`, logging, `battery.setBatteryLevel`/`setBatteryState`, `device.color`) are left out. Replies of `device.read` and canvas colours are parameters. Only the raw battery level and status are kept.
- The plugin's `Initialize`, `fetchStatus`, `ControllableParameters` and `Render` are host glue and are left out.
- The plugin's `Shutdown` (HS80/Corsair_Headset_Controller.js:46-55) is not modelled: it sends black colours on suspend and otherwise the hardware-mode report `02 m 01 03 00 01`.
- Plugin.DeviceProtocol.ModernDirectLightingMode: the endpoint selection (`set_endpoint`), the pauses and `clearReadBuffer` are left out; the reply to the brightness query is an input. The device table is constant data; the model takes the LED layout and endpoints as inputs.
- Plugin.DeviceProtocol.FetchMicStatus: every `Date.now()` within one call reads the same time `now`. The source reads the clock again after the query.
- Plugin.DeviceProtocol.SendColors: requires both colour settings and any override to be valid colour text, and every LED index below 3. The plugin throws on invalid text, and the device table uses only indices 0-2.
- PluginCodec.LedColor: requires valid colour text, as above; the throw of `hexToRgb` is not modelled.
- EventMonitoring.Capture: the bytes of `data` past `dataSize` are uninitialised in the source and zero in the model; `AccessorsIgnoreBytesPastRead` shows no accessor can observe them.
- Text.Lower: lowers ASCII letters only. Python's `str.lower()` also lowers other cased letters and can lengthen a string (`'İ'.lower()` has two characters); the model does not capture that.
- Hid.HidLink.Write: the outcome of a write is left arbitrary, so the model covers both the library's `SendHIDReport`, which also fails a short write (`bytesWritten != size`), and the console tool, which checks only `WriteFile`'s result; it does not record how many bytes were accepted.

## Findings

| source | as written | input that shows it | evidently intended | confidence | as-written member | corrected member |
|---|---|---|---|---|---|---|
| HS80/HS80_Library.cpp:728 | `memcpy(event.data, m_buffer, bytesRead)` copies up to 65 bytes (`m_buffer` is 65 bytes, HS80/HS80_Library.h:230) into the 64-byte `data` (HS80/HS80_Library.h:63) | a read that fills the whole 65-byte buffer, e.g. a battery report followed by 58 padding bytes | copy at most 64 bytes and record that count in `dataSize` | not executed | EventMonitoring.FullReadOverflows | EventMonitoring.Capture |
