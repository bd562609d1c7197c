/** The stand-alone console tool: its own copies of the lighting packet
  * builders, and the classification of every report its read loop
  * receives. Its classification is stricter than the library's accessors
  * about the header and finer about the charging byte; the lemmas at the end
  * compare the two. */
module Standalone {
  import opened Bytes
  import opened Lighting
  import opened Packets
  import opened Hid
  import opened RgbControl
  import opened HeadsetEvents
  import opened EventMonitoring

  /** `std::fill(packet.begin(), packet.end(), 0)`. */
  method FillZero(a: array<byte>)
    modifies a
    ensures a[..] == Zeros(a.Length)
  {
    var i := 0;
    while i < a.Length
      invariant 0 <= i <= a.Length
      invariant forall j :: 0 <= j < i ==> a[j] == 0
    {
      a[i] := 0;
      i := i + 1;
    }
  }

  /** Packet 1 of `InitializeRGBMode`, written into the zeroed buffer. */
  method FillSoftwareMode(packet: array<byte>, mode: byte)
    requires packet[..] == Zeros(ReportSize)
    modifies packet
    ensures packet[..] == Encode(Packet(mode, SoftwareMode))
  {
    packet[0] := 0x02;
    packet[1] := mode;
    packet[2] := 0x01;
    packet[3] := 0x03;
    packet[4] := 0x00;
    packet[5] := 0x02;
    assert packet[..] == Pad(Prefix(Packet(mode, SoftwareMode)));
  }

  /** Packet 2 of `InitializeRGBMode`, written into the zeroed buffer. */
  method FillOpenLighting(packet: array<byte>, mode: byte)
    requires packet[..] == Zeros(ReportSize)
    modifies packet
    ensures packet[..] == Encode(Packet(mode, OpenLighting))
  {
    packet[0] := 0x02;
    packet[1] := mode;
    packet[2] := 0x0D;
    packet[3] := 0x00;
    packet[4] := 0x01;
    assert packet[..] == Pad(Prefix(Packet(mode, OpenLighting)));
  }

  /** Packet 3 of `InitializeRGBMode` (brightness 1000 as `E8 03`), written
    * into the zeroed buffer. */
  method FillFullBrightness(packet: array<byte>, mode: byte)
    requires packet[..] == Zeros(ReportSize)
    modifies packet
    ensures packet[..] == Encode(Packet(mode, Brightness(1000)))
  {
    packet[0] := 0x02;
    packet[1] := mode;
    packet[2] := 0x01;
    packet[3] := 0x02;
    packet[4] := 0x00;
    packet[5] := 0xE8;
    packet[6] := 0x03;
    ghost var pre := Prefix(Packet(mode, Brightness(1000)));
    assert pre == [0x02, mode, 0x01, 0x02, 0x00, 0xE8, 0x03];
    assert packet[..][..7] == pre;
    Padded(packet[..], pre);
  }

  /** `InitializeRGBMode`: the three initialisation reports through one
    * 64-byte buffer that is zeroed again before the second and the third,
    * stopping at the first refused write. It sends the same reports, in the
    * same order and with the same failure rule, as the library's
    * `initialize`. */
  method InitializeRgbMode(link: HidLink, isWireless: bool) returns (r: bool)
    modifies link
    ensures InitRun(HeadsetMode(isWireless), old(link.written), link.written, old(link.accepted), link.accepted, r)
  {
    var mode := HeadsetMode(isWireless);
    ghost var reports := InitReports(mode);
    var packet := new byte[ReportSize](_ => 0);
    assert packet[..] == Zeros(ReportSize);
    var ok := SendInitStage(link, packet, mode, 0);
    assert reports[..1] == [reports[0]];
    if !ok {
      InitRunAfter(mode, old(link.written), link.written, old(link.accepted), link.accepted, 1, false);
      return false;
    }

    ok := SendInitStage(link, packet, mode, 1);
    assert reports[..2] == reports[..1] + [reports[1]];
    assert link.accepted == old(link.accepted) + [true, ok];
    if !ok {
      InitRunAfter(mode, old(link.written), link.written, old(link.accepted), link.accepted, 2, false);
      return false;
    }

    ok := SendInitStage(link, packet, mode, 2);
    assert reports[..3] == reports[..2] + [reports[2]];
    assert link.accepted == old(link.accepted) + [true, true, ok];
    InitRunAfter(mode, old(link.written), link.written, old(link.accepted), link.accepted, 3, ok);
    return ok;
  }

  /** One write of `InitializeRGBMode`: the buffer, zeroed again unless it
    * is the first report, filled with initialisation report `k` and sent. */
  method SendInitStage(link: HidLink, packet: array<byte>, mode: byte, k: nat) returns (ok: bool)
    requires k < 3 && packet.Length == ReportSize
    requires k == 0 ==> packet[..] == Zeros(ReportSize)
    modifies link, packet
    ensures link.written == old(link.written) + [InitReports(mode)[k]]
    ensures link.accepted == old(link.accepted) + [ok]
  {
    if k > 0 {
      FillZero(packet);
    }
    if k == 0 {
      FillSoftwareMode(packet, mode);
    } else if k == 1 {
      FillOpenLighting(packet, mode);
    } else {
      FillFullBrightness(packet, mode);
    }
    ok := link.Write(packet[..]);
  }

  /** The logs after `k` initialisation writes, the first `k - 1` accepted
    * and the last with outcome `r`, form a run of `initialize` when the run
    * is complete or ends with a refusal. */
  lemma InitRunAfter(mode: byte, w0: seq<Report>, w1: seq<Report>, a0: seq<bool>, a1: seq<bool>, k: nat, r: bool)
    requires 1 <= k <= 3 && (k < 3 ==> !r)
    requires w1 == w0 + InitReports(mode)[..k]
    requires a1 == a0 + [true, true, r][3 - k..]
    ensures InitRun(mode, w0, w1, a0, a1, r)
  {
    var outcomes := NewOutcomes(a0, a1);
    assert outcomes == [true, true, r][3 - k..];
  }

  /** `SendRGBColors`: one colour report, the same 17 bytes the library's
    * `sendColorsInternal` fills, in a fresh zeroed buffer. */
  method SendRgbColors(link: HidLink, isWireless: bool, logo: RgbColor, power: RgbColor, mic: RgbColor)
    returns (r: bool)
    modifies link
    ensures link.written == old(link.written) + [Encode(Packet(HeadsetMode(isWireless), Colors(LedZones(logo, power, mic))))]
    ensures link.accepted == old(link.accepted) + [r]
  {
    var packet := ColorsReport(HeadsetMode(isWireless), LedZones(logo, power, mic));
    r := link.Write(packet);
  }

  /** `SetHardwareMode` of the tool: one hardware-mode report. */
  method SetHardwareMode(link: HidLink, isWireless: bool) returns (r: bool)
    modifies link
    ensures link.written == old(link.written) + [Encode(Packet(HeadsetMode(isWireless), HardwareMode))]
    ensures link.accepted == old(link.accepted) + [r]
  {
    var packet := HardwareModeReport(HeadsetMode(isWireless));
    r := link.Write(packet);
  }

  // ---------------------------------------------------------------------
  // Classification of received reports
  // ---------------------------------------------------------------------

  /** The charging byte: 0x01 start, 0x02 end, anything else prints nothing. */
  datatype ChargeChange = ChargeStart | ChargeEnd | ChargeSilent

  /** The mute byte: 0x00 unmuted, 0x01 muted, anything else unknown. */
  datatype MuteChange = Unmuted | Muted | MuteUnknown(value: byte)

  /** What the tool makes of one received report. The optional parts are
    * absent when the report is too short to carry them. */
  datatype Classified =
    | Volume(level: byte)
    | Battery(raw: Option<nat>)
    | Charging(charge: Option<ChargeChange>)
    | MuteStatus(mute: Option<MuteChange>)
    | UnknownEvent(code: byte)
    | Unstructured

  /** Bytes 0-2 are `03 01 01` and there is a code in byte 3. */
  predicate HasFullHeader(bytes: seq<byte>)
  {
    |bytes| >= 4 && bytes[0] == 0x03 && bytes[1] == 0x01 && bytes[2] == 0x01
  }

  predicate IsStructured(c: Classified)
  {
    c.Battery? || c.Charging? || c.MuteStatus? || c.UnknownEvent?
  }

  /** The classification in the read loop of the tool, over the bytes of
    * one non-empty read. The length test for a volume report comes first. */
  function Classify(bytes: seq<byte>): Classified
    requires 0 < |bytes|
  {
    if |bytes| == 2 then Volume(bytes[1])
    else if HasFullHeader(bytes) then
      var code := bytes[3];
      if code == 0x0F then
        Battery(if |bytes| >= 7 then Some(Le16(bytes[5], bytes[6])) else None)
      else if code == 0x10 then
        Charging(if |bytes| >= 6 then
                   Some(if bytes[5] == 0x01 then ChargeStart else if bytes[5] == 0x02 then ChargeEnd else ChargeSilent)
                 else None)
      else if code == 0xA6 then
        MuteStatus(if |bytes| >= 6 then
                     Some(if bytes[5] == 0x00 then Unmuted else if bytes[5] == 0x01 then Muted else MuteUnknown(bytes[5]))
                   else None)
      else UnknownEvent(code)
    else Unstructured
  }

  /** A report is a volume update exactly when it is two bytes long, and a
    * structured event exactly when it carries the full `03 01 01` header;
    * a structured event's kind follows its code in byte 3. */
  lemma ClassifyShapes(bytes: seq<byte>)
    requires 0 < |bytes|
    ensures Classify(bytes).Volume? <==> |bytes| == 2
    ensures IsStructured(Classify(bytes)) <==> HasFullHeader(bytes)
    ensures HasFullHeader(bytes) ==>
      (Classify(bytes).Battery? <==> bytes[3] == BatteryCode)
      && (Classify(bytes).Charging? <==> bytes[3] == ChargingCode)
      && (Classify(bytes).MuteStatus? <==> bytes[3] == MuteCode)
      && (Classify(bytes) == UnknownEvent(bytes[3]) <==> bytes[3] !in {BatteryCode, ChargingCode, MuteCode})
  {
  }

  /** On reports with the full header the tool and the library's accessors
    * (applied to the event the library's read loop would build) agree: the
    * code, the battery value, muted, unmuted and charging. */
  lemma ClassifierAgreesWithLibrary(bytes: seq<byte>)
    requires 0 < |bytes| <= ReportSize && HasFullHeader(bytes)
    ensures var e, c := Capture(bytes), Classify(bytes);
      ActualEventType(e) == bytes[3]
      && BatteryLevelRaw(e) == (if c.Battery? && c.raw.Some? then c.raw.value else -1)
      && (IsMuted(e) <==> c == MuteStatus(Some(Muted)))
      && (IsUnmuted(e) <==> c == MuteStatus(Some(Unmuted)))
      && (IsCharging(e) <==> c == Charging(Some(ChargeStart)))
  {
    var e := Capture(bytes);
    assert e.dataSize == |bytes|;
    assert forall i :: 0 <= i < |bytes| ==> e.data[i] == e.data[..e.dataSize][i];
  }

  /** The library's accessors test only byte 0 of the header: a mute report
    * `03 00 00 A6 00 01` counts as muted for the library, while the tool
    * does not classify it at all. */
  lemma HeaderDisagreement()
    ensures var bytes: seq<byte> := [0x03, 0x00, 0x00, 0xA6, 0x00, 0x01];
      IsMuted(Capture(bytes)) && Classify(bytes) == Unstructured
  {
    var bytes: seq<byte> := [0x03, 0x00, 0x00, 0xA6, 0x00, 0x01];
    var e := Capture(bytes);
    assert e.data[..6] == bytes;
    assert e.data[0] == 0x03 && e.data[3] == 0xA6 && e.data[5] == 0x01;
  }

  /** Charging byte 0x02 is "charging ended" for the tool; the library only
    * says "not charging", as it does for any byte but 0x01. */
  lemma ChargingEndDisagreement()
    ensures var bytes: seq<byte> := [0x03, 0x01, 0x01, 0x10, 0x00, 0x02];
      Classify(bytes) == Charging(Some(ChargeEnd))
      && !IsCharging(Capture(bytes))
      && Description(Capture(bytes)) == "Nicht am Laden"
  {
    var bytes: seq<byte> := [0x03, 0x01, 0x01, 0x10, 0x00, 0x02];
    var e := Capture(bytes);
    assert e.data[..6] == bytes;
    assert e.data[0] == 0x03 && e.data[3] == 0x10 && e.data[5] == 0x02;
  }

  // ---------------------------------------------------------------------
  // The read loop
  // ---------------------------------------------------------------------

  /** One pass of the tool's read loop: the read completed with these bytes,
    * or the read, the wait or fetching the result failed. */
  datatype ToolRead = Done(bytes: seq<byte>) | Failed

  predicate ReadsFit(passes: seq<ToolRead>)
  {
    forall k :: 0 <= k < |passes| ==> passes[k].Done? ==> |passes[k].bytes| <= ReadBufferSize
  }

  /** The classifications the loop prints: one per non-empty read, up to the
    * first failure, which ends the loop. */
  function Classifications(passes: seq<ToolRead>): seq<Classified>
    requires ReadsFit(passes)
  {
    if |passes| == 0 then []
    else
      match passes[0]
      case Failed => []
      case Done(bytes) =>
        (if |bytes| > 0 then [Classify(bytes)] else []) + Classifications(passes[1..])
  }

  /** Nothing after a failure is classified. */
  lemma {:induction false} ReadsAfterFailureIgnored(before: seq<ToolRead>, after: seq<ToolRead>)
    requires ReadsFit(before + [Failed] + after)
    requires forall k :: 0 <= k < |before| ==> before[k].Done?
    ensures ReadsFit(before)
    ensures Classifications(before + [Failed] + after) == Classifications(before)
  {
    var all := before + [Failed] + after;
    assert forall k :: 0 <= k < |before| ==> before[k] == all[k];
    if |before| > 0 {
      assert all[1..] == before[1..] + [Failed] + after;
      assert forall k :: 0 <= k < |before[1..]| ==> before[1..][k] == before[k + 1];
      ReadsAfterFailureIgnored(before[1..], after);
    }
  }

  /** The read loop of `main`: counts and classifies every non-empty read
    * and stops at the first failure. */
  method ReadAndClassify(passes: seq<ToolRead>) returns (readCount: nat, log: seq<Classified>)
    requires ReadsFit(passes)
    ensures log == Classifications(passes)
    ensures readCount == |log|
  {
    readCount := 0;
    log := [];
    var i := 0;
    while i < |passes|
      invariant 0 <= i <= |passes|
      invariant ReadsFit(passes[i..])
      invariant Classifications(passes) == log + Classifications(passes[i..])
      invariant readCount == |log|
    {
      assert passes[i..][1..] == passes[i + 1..];
      match passes[i] {
        case Failed =>
          return;
        case Done(bytes) =>
          if |bytes| > 0 {
            readCount := readCount + 1;
            log := log + [Classify(bytes)];
          }
      }
      i := i + 1;
    }
  }
}
