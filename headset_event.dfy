/** `HeadsetEvent`: one input report of the event interface and the accessors
  * that read it. HS80 event reports have the form
  * `[0x03, 0x01, 0x01, code, 0x00, value-low, value-high, …]`; the accessors
  * test only byte 0 of that header. */
module HeadsetEvents {
  import opened Bytes
  import Text
  import Hex

  /** `EventType` values. */
  const UnknownType: byte := 0x00
  const EventPacket: byte := 0x03
  const MuteCode: byte := 0xA6
  const BatteryCode: byte := 0x0F
  const ChargingCode: byte := 0x10

  /** The report as delivered: `type` (the first byte read), the 64-byte
    * `data` array and the number of bytes read, `dataSize`. */
  datatype HeadsetEvent = HeadsetEvent(eventType: byte, data: Report, dataSize: nat)

  /** Byte 0 is the event header and at least `n` bytes were read. */
  predicate HasHeader(e: HeadsetEvent, n: nat)
  {
    e.dataSize >= n && e.data[0] == EventPacket
  }

  /** `getActualEventType`: the code in byte 3 of an event report, otherwise
    * the stored type. */
  function ActualEventType(e: HeadsetEvent): byte
  {
    if HasHeader(e, 4) then e.data[3] else e.eventType
  }

  /** `isMuted`. */
  predicate IsMuted(e: HeadsetEvent)
  {
    if HasHeader(e, 6) && e.data[3] == MuteCode then e.data[5] == 0x01 else false
  }

  /** `isUnmuted`. */
  predicate IsUnmuted(e: HeadsetEvent)
  {
    if HasHeader(e, 6) && e.data[3] == MuteCode then e.data[5] == 0x00 else false
  }

  /** Bytes 5-6 as the little-endian 16-bit value `data[5] | data[6] << 8`. */
  function Value16(e: HeadsetEvent): nat
  {
    Le16(e.data[5], e.data[6])
  }

  /** `getBatteryLevelRaw`: the 16-bit battery value (1000 is 100 %), -1 when
    * the report is not a complete battery report. */
  function BatteryLevelRaw(e: HeadsetEvent): int
  {
    if HasHeader(e, 7) && e.data[3] == BatteryCode then Value16(e) else -1
  }

  /** `getBatteryLevel`: the battery value in percent, by integer division,
    * -1 when the report is not a complete battery report. */
  function BatteryLevel(e: HeadsetEvent): int
  {
    if HasHeader(e, 7) && e.data[3] == BatteryCode then Value16(e) / 10 else -1
  }

  /** `isCharging`. */
  predicate IsCharging(e: HeadsetEvent)
  {
    if HasHeader(e, 6) && e.data[3] == ChargingCode then e.data[5] == 0x01 else false
  }

  const UnknownFormatText := "Unbekanntes Event-Format"

  /** `getDescription`: the German text the library logs for an event. */
  function Description(e: HeadsetEvent): string
  {
    if e.dataSize < 4 || e.data[0] != EventPacket then UnknownFormatText
    else
      var code := e.data[3];
      if code == MuteCode then
        (if e.dataSize >= 6 then (if e.data[5] == 0x01 then "Mikrofon STUMM" else "Mikrofon AKTIV")
         else "Mikrofon-Status")
      else if code == BatteryCode then
        (if e.dataSize >= 7 then "Akku: " + Text.Decimal(Value16(e) / 10) + "%" else "Akku-Status")
      else if code == ChargingCode then
        (if e.dataSize >= 6 then (if e.data[5] == 0x01 then "Wird geladen" else "Nicht am Laden")
         else "Lade-Status")
      else "Unbekannter Event-Typ: 0x" + Hex.ByteHex(code, true)
  }

  /** The type code is byte 3 whenever at least four bytes were read and byte
    * 0 is 0x03, whatever bytes 1 and 2 hold; otherwise it is the stored type. */
  lemma ActualEventTypeIgnoresBytes1And2(e: HeadsetEvent, x: byte, y: byte)
    ensures HasHeader(e, 4) ==> ActualEventType(e) == e.data[3]
    ensures !HasHeader(e, 4) ==> ActualEventType(e) == e.eventType
    ensures var e' := e.(data := e.data[1 := x][2 := y]);
      ActualEventType(e') == ActualEventType(e)
      && (IsMuted(e') <==> IsMuted(e)) && (IsUnmuted(e') <==> IsUnmuted(e))
      && BatteryLevelRaw(e') == BatteryLevelRaw(e) && (IsCharging(e') <==> IsCharging(e))
  {
  }

  /** A complete mute report: at least six bytes, header 0x03, code 0xA6. */
  predicate IsMuteReport(e: HeadsetEvent)
  {
    HasHeader(e, 6) && ActualEventType(e) == MuteCode
  }

  /** Muted and unmuted exclude each other. Exactly the mute reports whose
    * byte 5 is 0 or 1 are one of them; a short or non-mute report, and a mute
    * report with any other byte 5, is neither. */
  lemma MuteStates(e: HeadsetEvent)
    ensures !(IsMuted(e) && IsUnmuted(e))
    ensures IsMuted(e) <==> IsMuteReport(e) && e.data[5] == 0x01
    ensures IsUnmuted(e) <==> IsMuteReport(e) && e.data[5] == 0x00
    ensures IsMuted(e) || IsUnmuted(e) <==> IsMuteReport(e) && e.data[5] <= 0x01
  {
  }

  /** The raw and the percent battery value are -1 under the same condition;
    * otherwise the raw value is a 16-bit number and the percent is its tenth,
    * rounded down. */
  lemma BatteryLevels(e: HeadsetEvent)
    ensures BatteryLevelRaw(e) == -1 <==> BatteryLevel(e) == -1
    ensures BatteryLevelRaw(e) == -1 <==> !(HasHeader(e, 7) && ActualEventType(e) == BatteryCode)
    ensures BatteryLevelRaw(e) != -1 ==>
      0 <= BatteryLevelRaw(e) <= 65535 && BatteryLevel(e) == BatteryLevelRaw(e) / 10
      && 10 * BatteryLevel(e) <= BatteryLevelRaw(e) < 10 * BatteryLevel(e) + 10
  {
    if HasHeader(e, 7) && e.data[3] == BatteryCode {
      SplitOfLe16(e.data[5], e.data[6]);
    }
  }

  /** The report `03 01 01 0F 00 B2 02` holds raw value 0x02B2 = 690, which is
    * 69 %. */
  lemma BatteryExample(e: HeadsetEvent)
    requires e.dataSize == 7
    requires e.data[..7] == [0x03, 0x01, 0x01, 0x0F, 0x00, 0xB2, 0x02]
    ensures BatteryLevelRaw(e) == 690 && BatteryLevel(e) == 69
    ensures Description(e) == "Akku: 69%"
  {
    assert e.data[0] == 0x03 && e.data[3] == 0x0F && e.data[5] == 0xB2 && e.data[6] == 0x02;
    assert Text.Decimal(6) == "6";
  }

  /** Only byte 5 equal to 1 counts as charging; in particular 0x02 (the
    * value the stand-alone tool reads as "charging ended") does not. */
  lemma ChargingState(e: HeadsetEvent)
    ensures IsCharging(e) <==> HasHeader(e, 6) && ActualEventType(e) == ChargingCode && e.data[5] == 0x01
    ensures e.data[5] == 0x02 ==> !IsCharging(e)
  {
  }

  /** The "unknown format" text is given exactly to reports shorter than four
    * bytes or without the 0x03 header. */
  lemma DescriptionUnknownFormat(e: HeadsetEvent)
    ensures Description(e) == UnknownFormatText <==> e.dataSize < 4 || e.data[0] != EventPacket
  {
    if !(e.dataSize < 4 || e.data[0] != EventPacket) {
      var d := Description(e);
      assert d[..2] != UnknownFormatText[..2] || |d| != |UnknownFormatText| || d[9] != UnknownFormatText[9];
    }
  }

  /** The percent shown for a complete battery report is the number
    * `getBatteryLevel` returns: the text is `"Akku: "`, that number in
    * decimal, then `"%"`. */
  lemma DescriptionShowsBatteryLevel(e: HeadsetEvent)
    requires HasHeader(e, 7) && e.data[3] == BatteryCode
    ensures var d := Description(e);
      |d| >= 8 && d[..6] == "Akku: " && d[|d| - 1] == '%'
      && Text.ParseDecimal(d[6..|d| - 1]) == Some(BatteryLevel(e) as nat)
  {
    var d := Description(e);
    var n := Text.Decimal(Value16(e) / 10);
    assert d == "Akku: " + n + "%";
    assert d[6..|d| - 1] == n;
    Text.DecimalRoundTrip(Value16(e) / 10);
  }

  /** For a mute report the text follows `isMuted`, but a byte 5 other than 0
    * or 1 is described as "active" although `isUnmuted` is false. */
  lemma DescriptionOfMuteReport(e: HeadsetEvent)
    requires IsMuteReport(e)
    ensures Description(e) == "Mikrofon STUMM" <==> IsMuted(e)
    ensures Description(e) == "Mikrofon AKTIV" <==> !IsMuted(e)
    ensures e.data[5] > 0x01 ==> Description(e) == "Mikrofon AKTIV" && !IsUnmuted(e)
  {
  }

  /** An unknown code is shown as two upper-case hex digits that read back as
    * the code. */
  lemma DescriptionOfUnknownCode(e: HeadsetEvent)
    requires HasHeader(e, 4)
    requires e.data[3] !in {MuteCode, BatteryCode, ChargingCode}
    ensures var d := Description(e);
      |d| == 27 && d[..25] == "Unbekannter Event-Typ: 0x"
      && Hex.IsHexString(d[25..]) && Hex.PairValue(d[25..]) == e.data[3]
  {
    Hex.ByteHexRoundTrip(e.data[3], true);
    var d := Description(e);
    assert d[25..] == Hex.ByteHex(e.data[3], true);
  }
}
