/** Colours and LED zones of the HS80 (`RGBColor`, `LEDZones`, `LEDZone`). */
module Lighting {
  import opened Bytes

  /** One LED colour, one byte per channel. */
  datatype RgbColor = RgbColor(r: byte, g: byte, b: byte)

  /** The three LEDs of the headset. */
  datatype LedZones = LedZones(logo: RgbColor, power: RgbColor, mic: RgbColor)

  /** Which LED a zone update targets; `All` targets every LED. */
  datatype LedZone = Logo | Power | Mic | All

  /** The colour the default-constructed `LEDZones` gives every LED. */
  const FactoryColor := RgbColor(0, 155, 222)

  /** `LEDZones()`. */
  function DefaultZones(): LedZones
  {
    LedZones(FactoryColor, FactoryColor, FactoryColor)
  }

  /** `LEDZones(all)`. */
  function UniformZones(all: RgbColor): LedZones
  {
    LedZones(all, all, all)
  }

  /** The colour of one named LED. */
  function ZoneColor(zones: LedZones, zone: LedZone): RgbColor
    requires zone != All
  {
    match zone
    case Logo => zones.logo
    case Power => zones.power
    case Mic => zones.mic
  }

  /** A zone set is uniform when every LED shows the same colour. */
  predicate Uniform(zones: LedZones)
  {
    zones.logo == zones.power == zones.mic
  }

  /** The cache update `setZone` makes under its lock: the named LED takes
    * `color`, `All` gives every LED `color`, and every other LED keeps its
    * colour. */
  function WithZone(zones: LedZones, zone: LedZone, color: RgbColor): (r: LedZones)
    ensures forall q: LedZone :: q != All ==>
      ZoneColor(r, q) == (if zone == All || zone == q then color else ZoneColor(zones, q))
  {
    match zone
    case Logo => zones.(logo := color)
    case Power => zones.(power := color)
    case Mic => zones.(mic := color)
    case All => zones.(logo := color, power := color, mic := color)
  }

  /** Every LED of the default set and of `LEDZones(all)` has the same colour,
    * and a uniform set is `LEDZones(c)` for its one colour. */
  lemma UniformZonesAreUniform(all: RgbColor, zones: LedZones)
    ensures Uniform(DefaultZones()) && DefaultZones() == UniformZones(FactoryColor)
    ensures Uniform(UniformZones(all))
    ensures forall q: LedZone :: q != All ==> ZoneColor(UniformZones(all), q) == all
    ensures Uniform(zones) <==> zones == UniformZones(zones.logo)
  {
  }

  /** `setZone(All, c)` leaves the same cache as `setColor(c)`, whatever the
    * cache held before. */
  lemma AllZoneIsSetColor(zones: LedZones, color: RgbColor)
    ensures WithZone(zones, All, color) == UniformZones(color)
  {
  }

  /** Updating a single LED twice keeps only the second colour; updating two
    * different LEDs commutes. */
  lemma WithZoneOverwrite(zones: LedZones, p: LedZone, q: LedZone, c: RgbColor, d: RgbColor)
    requires p != All && q != All
    ensures WithZone(WithZone(zones, p, c), p, d) == WithZone(zones, p, d)
    ensures p != q ==> WithZone(WithZone(zones, p, c), q, d) == WithZone(WithZone(zones, q, d), p, c)
  {
  }
}
