/** Bytes, optional values and the fixed 64-byte HID report shared by every
  * part of the HS80 protocol. */
module Bytes {

  /** `unsigned char` / `uint8_t`: one byte of a report. */
  type byte = x: int | 0 <= x < 256

  datatype Option<T> = None | Some(value: T)

  /** Every command the headset accepts, and every input report it delivers,
    * is 64 bytes long. */
  const ReportSize: nat := 64

  function Zeros(n: nat): (r: seq<byte>)
    ensures |r| == n
    ensures forall i :: 0 <= i < n ==> r[i] == 0
  {
    seq(n, i => 0)
  }

  /** A whole report: exactly 64 bytes. */
  type Report = s: seq<byte> | |s| == ReportSize witness Zeros(ReportSize)

  /** The report a C++ `unsigned char packet[64] = {0}` holds after its first
    * bytes were assigned, and what `device.write(prefix, 64)` of the JS plugin
    * puts on the wire: `prefix` followed by zeros. */
  function Pad(prefix: seq<byte>): (r: Report)
    requires |prefix| <= ReportSize
    ensures r[..|prefix|] == prefix
    ensures forall i :: |prefix| <= i < ReportSize ==> r[i] == 0
  {
    prefix + Zeros(ReportSize - |prefix|)
  }

  /** `lo | (hi << 8)`: for two bytes the OR of the non-overlapping halves is
    * their sum `lo + 256 * hi`. */
  function Le16(lo: byte, hi: byte): nat
  {
    lo + 256 * hi
  }

  /** `v & 0xFF` for a non-negative `v`. */
  function LowByte(v: nat): byte
  {
    v % 256
  }

  /** `(v >> 8) & 0xFF` for a non-negative `v`. */
  function HighByte(v: nat): byte
  {
    (v / 256) % 256
  }

  /** Splitting a 16-bit value into its low and high byte and joining them
    * again is the identity. */
  lemma Le16OfSplit(v: nat)
    requires v < 65536
    ensures Le16(LowByte(v), HighByte(v)) == v
  {
  }

  /** Joining two bytes gives a 16-bit value whose split is the two bytes. */
  lemma SplitOfLe16(lo: byte, hi: byte)
    ensures Le16(lo, hi) < 65536
    ensures LowByte(Le16(lo, hi)) == lo && HighByte(Le16(lo, hi)) == hi
  {
  }
}
