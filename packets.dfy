/** The lighting command reports of the HS80. Every command is a zero-padded
  * 64-byte report `[0x02, mode, cmd, …]`; `mode` tells a wireless headset
  * (0x09) from a wired one (0x08). The C++ library, the stand-alone C++ tool
  * and the JS plugin all send these same byte layouts. */
module Packets {
  import opened Bytes
  import opened Lighting

  const ReportId: byte := 0x02
  const WirelessMode: byte := 0x09
  const WiredMode: byte := 0x08

  /** `isWireless ? 0x09 : 0x08`. */
  function HeadsetMode(isWireless: bool): byte
  {
    if isWireless then WirelessMode else WiredMode
  }

  /** The lighting commands. `Brightness` carries the raw level (1000 is
    * 100 %). */
  datatype Command =
    | SoftwareMode
    | OpenLighting
    | Brightness(level: nat)
    | Colors(zones: LedZones)
    | HardwareMode

  /** A command with the mode byte it is sent with. */
  datatype Packet = Packet(mode: byte, cmd: Command)

  /** The raw brightness fits the two bytes the report has for it. */
  predicate Encodable(p: Packet)
  {
    p.cmd.Brightness? ==> p.cmd.level < 65536
  }

  /** The nine colour bytes, grouped by channel: the three red bytes (logo,
    * power, mic), then the three green bytes, then the three blue bytes. */
  function ColorBytes(z: LedZones): seq<byte>
  {
    [z.logo.r, z.power.r, z.mic.r, z.logo.g, z.power.g, z.mic.g, z.logo.b, z.power.b, z.mic.b]
  }

  /** The bytes a command assigns before the zero padding. */
  function Prefix(p: Packet): seq<byte>
  {
    match p.cmd
    case SoftwareMode => [ReportId, p.mode, 0x01, 0x03, 0x00, 0x02]
    case OpenLighting => [ReportId, p.mode, 0x0D, 0x00, 0x01]
    case Brightness(level) => [ReportId, p.mode, 0x01, 0x02, 0x00, LowByte(level), HighByte(level)]
    case Colors(z) => [ReportId, p.mode, 0x06, 0x00, 0x09, 0x00, 0x00, 0x00] + ColorBytes(z)
    case HardwareMode => [ReportId, p.mode, 0x01, 0x03, 0x00, 0x01]
  }

  /** The 64-byte report a command is sent as. */
  function Encode(p: Packet): Report
  {
    Pad(Prefix(p))
  }

  /** Reads a report back into the command it carries, `None` for a report
    * that is none of the lighting commands. */
  function Decode(r: Report): Option<Packet>
  {
    if r[0] != ReportId then None
    else if r[2] == 0x01 && r[3] == 0x03 && r[4] == 0x00 && r[5] == 0x02 then Some(Packet(r[1], SoftwareMode))
    else if r[2] == 0x01 && r[3] == 0x03 && r[4] == 0x00 && r[5] == 0x01 then Some(Packet(r[1], HardwareMode))
    else if r[2] == 0x0D && r[3] == 0x00 && r[4] == 0x01 then Some(Packet(r[1], OpenLighting))
    else if r[2] == 0x01 && r[3] == 0x02 && r[4] == 0x00 then Some(Packet(r[1], Brightness(Le16(r[5], r[6]))))
    else if r[2] == 0x06 && r[3] == 0x00 && r[4] == 0x09 then
      Some(Packet(r[1], Colors(LedZones(RgbColor(r[8], r[11], r[14]),
                                        RgbColor(r[9], r[12], r[15]),
                                        RgbColor(r[10], r[13], r[16])))))
    else None
  }

  /** Every command report reads back as the command and mode it encodes, so
    * no two commands share a report and brightness bytes 5-6 are the level in
    * little-endian order. */
  lemma DecodeEncode(p: Packet)
    requires Encodable(p)
    ensures Decode(Encode(p)) == Some(p)
  {
    var r := Encode(p);
    var pre := Prefix(p);
    assert r[..|pre|] == pre;
    assert forall i :: 0 <= i < |pre| ==> r[i] == pre[i];
    if p.cmd.Brightness? {
      Le16OfSplit(p.cmd.level);
    }
  }

  /** Encoding is injective on encodable packets. */
  lemma EncodeInjective(p: Packet, q: Packet)
    requires Encodable(p) && Encodable(q) && Encode(p) == Encode(q)
    ensures p == q
  {
    DecodeEncode(p);
    DecodeEncode(q);
  }

  /** Index of a named LED within a colour channel. */
  function ZoneIndex(zone: LedZone): nat
    requires zone != All
  {
    match zone
    case Logo => 0
    case Power => 1
    case Mic => 2
  }

  /** The layout of a colour report: header `[0x02, mode, 0x06, 0x00, 0x09,
    * 0, 0, 0]`, red of LED k at byte 8 + k, green at 11 + k, blue at 14 + k,
    * zero from byte 17 on. */
  lemma ColorReportLayout(mode: byte, z: LedZones)
    ensures var r := Encode(Packet(mode, Colors(z)));
      r[..8] == [ReportId, mode, 0x06, 0x00, 0x09, 0x00, 0x00, 0x00]
      && (forall q: LedZone :: q != All ==>
            r[8 + ZoneIndex(q)] == ZoneColor(z, q).r
            && r[11 + ZoneIndex(q)] == ZoneColor(z, q).g
            && r[14 + ZoneIndex(q)] == ZoneColor(z, q).b)
      && (forall i :: 17 <= i < ReportSize ==> r[i] == 0)
  {
    var r := Encode(Packet(mode, Colors(z)));
    var pre := Prefix(Packet(mode, Colors(z)));
    assert r[..|pre|] == pre;
    assert r[..8] == pre[..8];
  }

  /** The brightness report carries the level in bytes 5 (low) and 6 (high)
    * and is zero from byte 7 on. */
  lemma BrightnessReportLayout(mode: byte, level: nat)
    requires level < 65536
    ensures var r := Encode(Packet(mode, Brightness(level)));
      r[..5] == [ReportId, mode, 0x01, 0x02, 0x00]
      && Le16(r[5], r[6]) == level
      && (forall i :: 7 <= i < ReportSize ==> r[i] == 0)
  {
    var r := Encode(Packet(mode, Brightness(level)));
    var pre := Prefix(Packet(mode, Brightness(level)));
    assert r[..|pre|] == pre;
    assert r[..5] == pre[..5];
    Le16OfSplit(level);
  }

  /** Software mode and hardware mode differ only in byte 5 (0x02 against
    * 0x01); both carry command 0x01, sub-command 0x03. */
  lemma ModeSwitchReports(mode: byte)
    ensures var s, h := Encode(Packet(mode, SoftwareMode)), Encode(Packet(mode, HardwareMode));
      s[5] == 0x02 && h[5] == 0x01
      && (forall i :: 0 <= i < ReportSize && i != 5 ==> s[i] == h[i])
  {
    var s, h := Encode(Packet(mode, SoftwareMode)), Encode(Packet(mode, HardwareMode));
    assert s[..6] == Prefix(Packet(mode, SoftwareMode));
    assert h[..6] == Prefix(Packet(mode, HardwareMode));
  }
}
