/** The Python command-line tool: the filter that picks Corsair devices out
  * of the HID enumeration, and the heuristic scan that reads battery,
  * charging, volume and mute values out of a raw report. */
module CorsairCli {
  import opened Bytes
  import opened Hex
  import opened Text

  // ---------------------------------------------------------------------
  // find_corsair_devices
  // ---------------------------------------------------------------------

  /** The fields of one `hid.enumerate()` entry the filter looks at; a
    * missing key is `None`. */
  datatype HidInfo = HidInfo(manufacturer: Option<string>, product: Option<string>, vendorId: Option<int>)

  /** `(d.get(key) or '')`. */
  function OrEmpty(s: Option<string>): string
  {
    if s.Some? then s.value else ""
  }

  /** A device the tool treats as a Corsair device: "corsair" in its
    * lower-cased manufacturer or product string, or vendor id 0x1B1C. */
  predicate IsCorsair(d: HidInfo)
  {
    Contains(Lower(OrEmpty(d.manufacturer)), "corsair")
    || Contains(Lower(OrEmpty(d.product)), "corsair")
    || d.vendorId == Some(0x1B1C)
  }

  /** The Corsair devices of an enumeration, in enumeration order. */
  function CorsairOnly(devices: seq<HidInfo>): seq<HidInfo>
  {
    if |devices| == 0 then []
    else
      var last := devices[|devices| - 1];
      CorsairOnly(devices[..|devices| - 1]) + (if IsCorsair(last) then [last] else [])
  }

  /** The filter keeps exactly the Corsair devices, and never more than
    * there were. */
  lemma {:induction false} CorsairOnlyKeeps(devices: seq<HidInfo>)
    ensures forall d :: d in CorsairOnly(devices) <==> d in devices && IsCorsair(d)
    ensures |CorsairOnly(devices)| <= |devices|
  {
    if |devices| > 0 {
      var init := devices[..|devices| - 1];
      CorsairOnlyKeeps(init);
      assert devices == init + [devices[|devices| - 1]];
    }
  }

  /** The filter keeps the enumeration order: filtering a concatenation
    * concatenates the filtered parts. */
  lemma {:induction false} CorsairOnlyAppend(a: seq<HidInfo>, b: seq<HidInfo>)
    ensures CorsairOnly(a + b) == CorsairOnly(a) + CorsairOnly(b)
    decreases |b|
  {
    if |b| > 0 {
      var init := b[..|b| - 1];
      assert (a + b)[..|a + b| - 1] == a + init;
      CorsairOnlyAppend(a, init);
    } else {
      assert a + b == a;
    }
  }

  /** A device is recognised by its strings in any letter case or by its
    * vendor id alone. */
  lemma CorsairExamples()
    ensures IsCorsair(HidInfo(Some("CORSAIR Components, Inc."), None, Some(0x046D)))
    ensures IsCorsair(HidInfo(None, None, Some(0x1B1C)))
    ensures !IsCorsair(HidInfo(None, None, None))
  {
    var s := Lower("CORSAIR Components, Inc.");
    assert s[0..7] == "corsair";
    assert OccursAt(s, "corsair", 0);
    assert !Contains(Lower(""), "corsair") by {
      assert Lower("") == "";
    }
  }

  /** `find_corsair_devices`: no devices without the `hid` module, otherwise
    * the Corsair devices of the enumeration. */
  method FindCorsairDevices(hidAvailable: bool, devices: seq<HidInfo>) returns (corsair: seq<HidInfo>)
    ensures !hidAvailable ==> corsair == []
    ensures hidAvailable ==> corsair == CorsairOnly(devices)
  {
    if !hidAvailable {
      return [];
    }
    corsair := [];
    var i := 0;
    while i < |devices|
      invariant 0 <= i <= |devices|
      invariant corsair == CorsairOnly(devices[..i])
    {
      var d := devices[i];
      var vendor := Lower(OrEmpty(d.manufacturer));
      var product := Lower(OrEmpty(d.product));
      if Contains(vendor, "corsair") || Contains(product, "corsair") || d.vendorId == Some(0x1B1C) {
        corsair := corsair + [d];
      }
      assert devices[..i + 1][..i] == devices[..i];
      i := i + 1;
    }
    assert devices[..i] == devices;
  }

  // ---------------------------------------------------------------------
  // parse_report
  // ---------------------------------------------------------------------

  /** The result dictionary of `parse_report`. */
  datatype ParsedReport = ParsedReport(
    batteryPercent: Option<nat>,
    charging: Option<bool>,
    volumePercent: Option<nat>,
    muted: Option<bool>,
    rawHex: Option<string>)

  /** `bytes.hex()`: two lower-case digits per byte. */
  function RawHex(data: seq<byte>): (s: string)
    ensures |s| == 2 * |data|
    ensures forall i :: 0 <= i < |data| ==> s[2 * i..2 * i + 2] == ByteHex(data[i], false)
  {
    if |data| == 0 then ""
    else
      var rest := RawHex(data[1..]);
      var s := ByteHex(data[0], false) + rest;
      assert forall i :: 1 <= i < |data| ==> s[2 * i..2 * i + 2] == rest[2 * (i - 1)..2 * (i - 1) + 2];
      s
  }

  /** Reading `raw_hex` back two digits at a time gives the report. */
  lemma RawHexRoundTrip(data: seq<byte>, i: nat)
    requires i < |data|
    ensures IsHexString(RawHex(data)[2 * i..2 * i + 2])
    ensures PairValue(RawHex(data)[2 * i..2 * i + 2]) == data[i]
  {
    ByteHexRoundTrip(data[i], false);
  }

  /** `[b for b in data if 0 <= b <= 100]`. */
  function Candidates(data: seq<byte>): (c: seq<byte>)
    ensures forall x :: x in c <==> x in data && x <= 100
  {
    if |data| == 0 then []
    else
      var last := data[|data| - 1];
      var init := data[..|data| - 1];
      assert data == init + [last];
      Candidates(init) + (if last <= 100 then [last] else [])
  }

  /** A plausible battery percentage. */
  predicate BatteryLike(b: byte)
  {
    10 <= b <= 100
  }

  /** The first battery-like byte. */
  function FirstBattery(data: seq<byte>): (r: Option<byte>)
    ensures r.Some? ==> exists i :: 0 <= i < |data| && data[i] == r.value && BatteryLike(data[i])
                          && forall j :: 0 <= j < i ==> !BatteryLike(data[j])
    ensures r.None? ==> forall i :: 0 <= i < |data| ==> !BatteryLike(data[i])
  {
    if |data| == 0 then None
    else if BatteryLike(data[0]) then Some(data[0])
    else
      var r := FirstBattery(data[1..]);
      if r.Some? then
        var i :| 0 <= i < |data[1..]| && data[1..][i] == r.value && BatteryLike(data[1..][i])
                 && forall j :: 0 <= j < i ==> !BatteryLike(data[1..][j]);
        assert data[i + 1] == r.value;
        assert forall j :: 1 <= j < i + 1 ==> data[j] == data[1..][j - 1];
        r
      else
        assert forall i :: 1 <= i < |data| ==> data[i] == data[1..][i - 1];
        r
  }

  lemma {:induction false} FirstBatteryAppend(a: seq<byte>, b: seq<byte>)
    ensures FirstBattery(a + b) == if FirstBattery(a).Some? then FirstBattery(a) else FirstBattery(b)
  {
    if |a| > 0 {
      assert (a + b)[1..] == a[1..] + b;
      FirstBatteryAppend(a[1..], b);
    } else {
      assert a + b == b;
    }
  }

  /** Scanning the candidates finds the first battery-like byte of the
    * report itself. */
  lemma {:induction false} FirstBatteryOfCandidates(data: seq<byte>)
    ensures FirstBattery(Candidates(data)) == FirstBattery(data)
  {
    if |data| > 0 {
      var last := data[|data| - 1];
      var init := data[..|data| - 1];
      assert data == init + [last];
      FirstBatteryOfCandidates(init);
      FirstBatteryAppend(init, [last]);
      FirstBatteryAppend(Candidates(init), if last <= 100 then [last] else []);
    }
  }

  /** The last byte of at most 100. */
  function LastSmall(data: seq<byte>): (r: Option<byte>)
    ensures r.Some? ==> exists i :: 0 <= i < |data| && data[i] == r.value && data[i] <= 100
                          && forall j :: i < j < |data| ==> data[j] > 100
    ensures r.None? ==> forall i :: 0 <= i < |data| ==> data[i] > 100
  {
    if |data| == 0 then None
    else if data[|data| - 1] <= 100 then Some(data[|data| - 1])
    else LastSmall(data[..|data| - 1])
  }

  /** The last candidate is the last byte of at most 100. */
  lemma {:induction false} LastSmallOfCandidates(data: seq<byte>)
    ensures LastSmall(Candidates(data)) == LastSmall(data)
  {
    if |data| > 0 {
      var init := data[..|data| - 1];
      var c := Candidates(data);
      LastSmallOfCandidates(init);
      if data[|data| - 1] > 100 {
        assert c == Candidates(init);
      } else {
        assert c[..|c| - 1] == Candidates(init);
      }
    }
  }

  /** A flag byte `lo` or `lo + 1` at `i` followed by a byte of at most
    * 100: charging flags have `lo` = 1 (bytes 1, 2), mute flags `lo` = 0
    * (bytes 0, 1). */
  predicate FlagPairAt(data: seq<byte>, i: int, lo: nat)
  {
    0 <= i < |data| - 1 && lo <= data[i] <= lo + 1 && data[i + 1] <= 100
  }

  /** The first flag pair at or after `from`. */
  function FirstFlagPair(data: seq<byte>, lo: nat, from: nat): (r: Option<nat>)
    ensures r.Some? ==> from <= r.value && FlagPairAt(data, r.value, lo)
                        && forall j :: from <= j < r.value ==> !FlagPairAt(data, j, lo)
    ensures r.None? ==> forall j :: from <= j ==> !FlagPairAt(data, j, lo)
    decreases |data| - from
  {
    if from + 1 >= |data| then None
    else if FlagPairAt(data, from, lo) then Some(from)
    else FirstFlagPair(data, lo, from + 1)
  }

  const ChargingFlag: nat := 1
  const MuteFlag: nat := 0

  /** What `parse_report` returns: nothing for no data; otherwise the hex
    * text, the first battery-like byte as battery, charging from the first
    * charging pair (whose second byte is the battery when none was found),
    * mute and volume from the first mute pair, and else the last byte of at
    * most 100 as volume. */
  function Parse(data: Option<seq<byte>>): ParsedReport
  {
    if data.None? || |data.value| == 0 then ParsedReport(None, None, None, None, None)
    else
      var d := data.value;
      var battery := FirstBattery(d);
      var charge := FirstFlagPair(d, ChargingFlag, 0);
      var mute := FirstFlagPair(d, MuteFlag, 0);
      var small := LastSmall(d);
      ParsedReport(
        if battery.Some? then Some(battery.value as nat)
        else if charge.Some? then Some(d[charge.value + 1] as nat)
        else None,
        if charge.Some? then Some(d[charge.value] == 1) else None,
        if mute.Some? then Some(d[mute.value + 1] as nat)
        else if small.Some? then Some(small.value as nat)
        else None,
        if mute.Some? then Some(d[mute.value] == 1) else None,
        Some(RawHex(d)))
  }

  /** Every percentage `parse_report` reports lies in [0, 100], the battery
    * percentage reported without a charging pair is at least 10, and a
    * report with any byte of at most 100 always yields a volume. */
  lemma ParseBounds(data: Option<seq<byte>>)
    ensures var r := Parse(data);
      (r.batteryPercent.Some? ==> r.batteryPercent.value <= 100)
      && (r.volumePercent.Some? ==> r.volumePercent.value <= 100)
      && (r.batteryPercent.Some? && r.charging.None? ==> r.batteryPercent.value >= 10)
      && (data.Some? && (exists i :: 0 <= i < |data.value| && data.value[i] <= 100) ==> r.volumePercent.Some?)
  {
    if data.Some? && |data.value| > 0 {
      var d := data.value;
      var battery := FirstBattery(d);
      var charge := FirstFlagPair(d, ChargingFlag, 0);
      var mute := FirstFlagPair(d, MuteFlag, 0);
      var small := LastSmall(d);
      if battery.Some? {
        var i :| 0 <= i < |d| && d[i] == battery.value && BatteryLike(d[i]);
      }
      if mute.None? && exists i :: 0 <= i < |d| && d[i] <= 100 {
        var i :| 0 <= i < |d| && d[i] <= 100;
        assert small.Some?;
      }
    }
  }

  /** The fields of the result are tied to each other: `charging` and
    * `muted` are present exactly when the report has a charging pair or a
    * mute pair, and every field is absent exactly when there is no data. */
  lemma ParseShape(data: Option<seq<byte>>)
    ensures var r := Parse(data);
      (r.rawHex.None? <==> data.None? || |data.value| == 0)
      && (r.rawHex.None? ==> r.batteryPercent.None? && r.charging.None? && r.volumePercent.None? && r.muted.None?)
      && (r.rawHex.Some? ==>
            (r.charging.Some? <==> exists i :: FlagPairAt(data.value, i, ChargingFlag))
            && (r.muted.Some? <==> exists i :: FlagPairAt(data.value, i, MuteFlag)))
  {
    if data.Some? && |data.value| > 0 {
      var d := data.value;
      var charge := FirstFlagPair(d, ChargingFlag, 0);
      var mute := FirstFlagPair(d, MuteFlag, 0);
      if charge.None? {
        assert forall i :: !FlagPairAt(d, i, ChargingFlag) by {
          forall i ensures !FlagPairAt(d, i, ChargingFlag) {
            if i >= 0 { assert !FlagPairAt(d, i, ChargingFlag); }
          }
        }
      }
      if mute.None? {
        assert forall i :: !FlagPairAt(d, i, MuteFlag) by {
          forall i ensures !FlagPairAt(d, i, MuteFlag) {
            if i >= 0 { assert !FlagPairAt(d, i, MuteFlag); }
          }
        }
      }
    }
  }

  /** The heuristic on the HS80's battery event `03 01 01 0F 00 B2 02`
    * (0x02B2 = 690, i.e. 69.0 %): it reports 15 % from the event code,
    * "charging" from the mode byte and "muted" at volume 1. */
  lemma ParseBatteryEvent()
    ensures var r := Parse(Some([0x03, 0x01, 0x01, 0x0F, 0x00, 0xB2, 0x02]));
      r.batteryPercent == Some(15) && r.charging == Some(true)
      && r.volumePercent == Some(1) && r.muted == Some(true)
  {
    var d: seq<byte> := [0x03, 0x01, 0x01, 0x0F, 0x00, 0xB2, 0x02];
    assert d[1..][1..][1..] == [0x0F, 0x00, 0xB2, 0x02];
    assert FirstBattery(d) == Some(15);
    assert FlagPairAt(d, 1, ChargingFlag) && !FlagPairAt(d, 0, ChargingFlag);
    assert FirstFlagPair(d, ChargingFlag, 0) == Some(1);
    assert FlagPairAt(d, 1, MuteFlag) && !FlagPairAt(d, 0, MuteFlag);
    assert FirstFlagPair(d, MuteFlag, 0) == Some(1);
  }

  /** The battery scan over the candidates: the first of them in
    * [10, 100]. */
  method ScanBattery(candidates: seq<byte>, res: ParsedReport) returns (out: ParsedReport)
    ensures out == res.(batteryPercent := if FirstBattery(candidates).Some? then Some(FirstBattery(candidates).value as nat)
                                          else res.batteryPercent)
  {
    out := res;
    var k := 0;
    while k < |candidates|
      invariant 0 <= k <= |candidates|
      invariant FirstBattery(candidates) == FirstBattery(candidates[k..])
      invariant out == res
    {
      var c := candidates[k];
      if 10 <= c <= 100 {
        out := out.(batteryPercent := Some(c as nat));
        break;
      }
      assert candidates[k..][1..] == candidates[k + 1..];
      k := k + 1;
    }
  }

  /** The charging scan: the first charging pair sets `charging`, and its
    * second byte the battery when none was found. */
  method ScanCharging(d: seq<byte>, res: ParsedReport) returns (out: ParsedReport)
    ensures var charge := FirstFlagPair(d, ChargingFlag, 0);
      out == if charge.None? then res
             else res.(charging := Some(d[charge.value] == 1),
                       batteryPercent := if res.batteryPercent.None? then Some(d[charge.value + 1] as nat)
                                         else res.batteryPercent)
  {
    out := res;
    if |d| >= 2 {
      var i := 0;
      while i < |d| - 1
        invariant 0 <= i <= |d| - 1
        invariant FirstFlagPair(d, ChargingFlag, 0) == FirstFlagPair(d, ChargingFlag, i)
        invariant out == res
      {
        if (d[i] == 1 || d[i] == 2) && d[i + 1] <= 100 {
          out := out.(charging := Some(d[i] == 1));
          if out.batteryPercent.None? {
            out := out.(batteryPercent := Some(d[i + 1] as nat));
          }
          break;
        }
        i := i + 1;
      }
    }
  }

  /** The mute scan: the first mute pair sets `muted` and `volume`. */
  method ScanMute(d: seq<byte>, res: ParsedReport) returns (out: ParsedReport)
    ensures var mute := FirstFlagPair(d, MuteFlag, 0);
      out == if mute.None? then res
             else res.(muted := Some(d[mute.value] == 1), volumePercent := Some(d[mute.value + 1] as nat))
  {
    out := res;
    var i := 0;
    while i < |d| - 1
      invariant 0 <= i <= |d|
      invariant FirstFlagPair(d, MuteFlag, 0) == FirstFlagPair(d, MuteFlag, i)
      invariant out == res
    {
      var a, b := d[i], d[i + 1];
      if (a == 0 || a == 1) && b <= 100 {
        out := out.(muted := Some(a == 1), volumePercent := Some(b as nat));
        break;
      }
      i := i + 1;
    }
  }

  /** The volume fallback: the candidates from the back, the first of at
    * most 100. */
  method ScanVolume(candidates: seq<byte>, res: ParsedReport) returns (out: ParsedReport)
    ensures out == res.(volumePercent := if LastSmall(candidates).Some? then Some(LastSmall(candidates).value as nat)
                                         else res.volumePercent)
  {
    out := res;
    var k := |candidates|;
    while k > 0
      invariant 0 <= k <= |candidates|
      invariant LastSmall(candidates) == LastSmall(candidates[..k])
      invariant out == res
    {
      var c := candidates[k - 1];
      if c <= 100 {
        out := out.(volumePercent := Some(c as nat));
        break;
      }
      assert candidates[..k][..k - 1] == candidates[..k - 1];
      k := k - 1;
    }
  }

  /** `parse_report`: the scans of the tool, each stopping at its first hit. */
  method ParseReport(data: Option<seq<byte>>) returns (res: ParsedReport)
    ensures res == Parse(data)
  {
    res := ParsedReport(None, None, None, None,
                        if data.Some? && |data.value| > 0 then Some(RawHex(data.value)) else None);
    if data.None? || |data.value| == 0 {
      return;
    }
    var d := data.value;
    var candidates := Candidates(d);
    if |candidates| > 0 {
      res := ScanBattery(candidates, res);
    }
    FirstBatteryOfCandidates(d);
    res := ScanCharging(d, res);
    res := ScanMute(d, res);
    if res.volumePercent.None? {
      res := ScanVolume(candidates, res);
      LastSmallOfCandidates(d);
    }
  }
}
