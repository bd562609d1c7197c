/** Hexadecimal text as the three code bases produce and read it: `%02X` in
  * the C++ library, `toString(16)` / `parseInt(…, 16)` and the colour regex in
  * the JS plugin, `bytes.hex()` in the Python tool. */
module Hex {
  import opened Bytes

  /** A character the JS regex class `[a-f\d]` with flag `i` accepts. */
  predicate IsHexDigit(c: char)
  {
    ('0' <= c <= '9') || ('a' <= c <= 'f') || ('A' <= c <= 'F')
  }

  predicate IsHexString(s: string)
  {
    forall i :: 0 <= i < |s| ==> IsHexDigit(s[i])
  }

  function DigitValue(c: char): (d: nat)
    requires IsHexDigit(c)
    ensures d < 16
  {
    if '0' <= c <= '9' then c as int - '0' as int
    else if 'a' <= c <= 'f' then c as int - 'a' as int + 10
    else c as int - 'A' as int + 10
  }

  /** The digit for `d`, upper-case (`%X`) or lower-case (`toString(16)`,
    * `bytes.hex()`). */
  function DigitChar(d: nat, upper: bool): (c: char)
    requires d < 16
    ensures IsHexDigit(c) && DigitValue(c) == d
  {
    if d < 10 then ('0' as int + d) as char
    else if upper then ('A' as int + d - 10) as char
    else ('a' as int + d - 10) as char
  }

  /** `parseInt(s, 16)` of a string made only of hex digits. */
  function HexValue(s: string): nat
    requires IsHexString(s)
  {
    if |s| == 0 then 0 else HexValue(s[..|s| - 1]) * 16 + DigitValue(s[|s| - 1])
  }

  function Pow16(n: nat): (p: nat)
    ensures p >= 1
  {
    if n == 0 then 1 else 16 * Pow16(n - 1)
  }

  /** Reading a concatenation: the digits of `a` are worth `16^|b|` each. */
  lemma {:induction false} HexValueConcat(a: string, b: string)
    requires IsHexString(a) && IsHexString(b)
    ensures IsHexString(a + b)
    ensures HexValue(a + b) == HexValue(a) * Pow16(|b|) + HexValue(b)
    decreases |b|
  {
    assert IsHexString(a + b) by {
      forall i | 0 <= i < |a + b| ensures IsHexDigit((a + b)[i]) {
        if i >= |a| { assert (a + b)[i] == b[i - |a|]; }
      }
    }
    if |b| == 0 {
      assert a + b == a;
    } else {
      var b' := b[..|b| - 1];
      var c := b[|b| - 1];
      assert (a + b)[..|a + b| - 1] == a + b';
      HexValueConcat(a, b');
      var x, p, y := HexValue(a), Pow16(|b'|), HexValue(b');
      assert HexValue(a + b) == HexValue(a + b') * 16 + DigitValue(c);
      ShiftDigit(x, p, y, DigitValue(c));
    }
  }

  lemma ShiftDigit(x: int, p: int, y: int, d: int)
    ensures (x * p + y) * 16 + d == x * (p * 16) + (y * 16 + d)
  {
  }

  lemma {:induction false} HexValueBound(s: string)
    requires IsHexString(s)
    ensures HexValue(s) < Pow16(|s|)
  {
    if |s| > 0 {
      HexValueBound(s[..|s| - 1]);
    }
  }

  /** Two hex digits: one byte. */
  function PairValue(s: string): (b: byte)
    requires |s| == 2 && IsHexString(s)
    ensures b == HexValue(s)
  {
    assert s[..1][..0] == [];
    assert HexValue(s[..1]) == DigitValue(s[0]);
    DigitValue(s[0]) * 16 + DigitValue(s[1])
  }

  /** `%02X` (upper) or the two characters `bytes.hex()` emits (lower). */
  function ByteHex(b: byte, upper: bool): (s: string)
    ensures |s| == 2 && IsHexString(s)
  {
    [DigitChar(b / 16, upper), DigitChar(b % 16, upper)]
  }

  /** Printing a byte as two hex digits and reading them back gives the byte,
    * whichever case was printed. */
  lemma ByteHexRoundTrip(b: byte, upper: bool)
    ensures PairValue(ByteHex(b, upper)) == b
  {
  }

  /** `n.toString(16)`: lower-case, no leading zeros, `"0"` for zero. */
  function ToHex(n: nat): (s: string)
    ensures |s| >= 1 && IsHexString(s)
    decreases n
  {
    if n < 16 then [DigitChar(n, false)] else ToHex(n / 16) + [DigitChar(n % 16, false)]
  }

  /** `toString(16)` followed by `parseInt(…, 16)` is the identity. */
  lemma {:induction false} ToHexValue(n: nat)
    ensures HexValue(ToHex(n)) == n
    decreases n
  {
    if n >= 16 {
      var s := ToHex(n);
      assert s[..|s| - 1] == ToHex(n / 16);
      ToHexValue(n / 16);
    }
  }

  /** At most `k` digits are needed for a value below `16^k`. */
  lemma {:induction false} ToHexLength(n: nat, k: nat)
    requires 1 <= k && n < Pow16(k)
    ensures |ToHex(n)| <= k
    decreases n
  {
    if n >= 16 {
      assert k >= 2;
      ToHexLength(n / 16, k - 1);
    }
  }

  /** `s.padStart(width, '0')`. */
  function PadStartZeros(s: string, width: nat): (r: string)
    ensures |r| == if |s| >= width then |s| else width
    ensures IsHexString(s) ==> IsHexString(r)
  {
    if |s| >= width then s else seq(width - |s|, i => '0') + s
  }

  /** Leading zeros do not change the value `parseInt(…, 16)` reads. */
  lemma PadStartValue(s: string, width: nat)
    requires IsHexString(s)
    ensures HexValue(PadStartZeros(s, width)) == HexValue(s)
  {
    if |s| < width {
      var z := seq(width - |s|, i => '0');
      ZerosValue(width - |s|);
      HexValueConcat(z, s);
    }
  }

  lemma {:induction false} ZerosValue(n: nat)
    ensures IsHexString(seq(n, i => '0'))
    ensures HexValue(seq(n, i => '0')) == 0
  {
    if n > 0 {
      assert seq(n, i => '0')[..n - 1] == seq(n - 1, i => '0');
      ZerosValue(n - 1);
    }
  }
}
