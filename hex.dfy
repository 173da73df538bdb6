/** Hexadecimal rendering of checksums: `Number.prototype.toString(16)` on
    non-negative integers and the zero padding applied for display. */
module Hex {
  import opened Bits

  /** The lowercase hexadecimal digit for `d`. */
  function HexDigit(d: nat): char
    requires d < 16
  {
    if d < 10 then ('0' as int + d) as char else ('a' as int + d - 10) as char
  }

  predicate IsHexDigit(ch: char) {
    '0' <= ch <= '9' || 'a' <= ch <= 'f'
  }

  predicate IsHex(s: string) {
    forall i :: 0 <= i < |s| ==> IsHexDigit(s[i])
  }

  /** The value of a lowercase hexadecimal digit. */
  function DigitValue(ch: char): (d: nat)
    requires IsHexDigit(ch)
    ensures d < 16 && HexDigit(d) == ch
  {
    if ch <= '9' then ch as int - '0' as int else ch as int - 'a' as int + 10
  }

  /** The number a string of lowercase hexadecimal digits denotes, most
      significant digit first; leading zeros add nothing. */
  function HexValue(s: string): nat
    requires IsHex(s)
  {
    if s == [] then 0 else 16 * HexValue(s[..|s| - 1]) + DigitValue(s[|s| - 1])
  }

  /** `v.toString(16)`: lowercase digits, most significant first, without
      leading zeros, and "0" for zero. */
  function ToHex(v: nat): string {
    if v < 16 then [HexDigit(v)] else ToHex(v / 16) + [HexDigit(v % 16)]
  }

  /** `k` characters '0'. */
  function Zeros(k: nat): string {
    if k == 0 then [] else Zeros(k - 1) + ['0']
  }

  function Max(a: int, b: int): int {
    if a < b then b else a
  }

  function Pow16(n: nat): (p: nat)
    ensures p >= 1
  {
    if n == 0 then 1 else 16 * Pow16(n - 1)
  }

  /** How many zeros `padZeroes` puts in front of `v`'s digits to reach
      `2 * nBytes` characters. */
  function PadCount(v: nat, nBytes: int): nat {
    if |ToHex(v)| < 2 * nBytes then 2 * nBytes - |ToHex(v)| else 0
  }

  /** The string `padZeroes(v, nBytes)` returns: the digits of `v` with
      zeros in front up to `2 * nBytes` characters. */
  function Padded(v: nat, nBytes: int): string {
    Zeros(PadCount(v, nBytes)) + ToHex(v)
  }

  /** Render `intVal` in hexadecimal, then prepend '0' until the string is
      at least two characters per byte of `nBytes`. */
  method PadZeroes(intVal: nat, nBytes: int) returns (hexString: string)
    ensures hexString == Padded(intVal, nBytes)
    ensures |hexString| == Max(|ToHex(intVal)|, 2 * nBytes)
    ensures IsHex(hexString) && HexValue(hexString) == intVal
  {
    var digits := ToHex(intVal);
    hexString := digits;
    while |hexString| < nBytes * 2
      invariant |digits| <= |hexString| <= Max(|digits|, 2 * nBytes)
      invariant hexString == Zeros(|hexString| - |digits|) + digits
      decreases nBytes * 2 - |hexString|
    {
      hexString := "0" + hexString;
      ZerosFront(|hexString| - 1 - |digits|, digits);
    }
    PaddedDigits(intVal, nBytes);
  }

  /** Prepending a zero to zeros and digits is one more zero. */
  lemma ZerosFront(k: nat, s: string)
    ensures "0" + (Zeros(k) + s) == Zeros(k + 1) + s
  {
    ZerosCons(k);
  }

  lemma {:induction false} ZerosCons(k: nat)
    ensures ['0'] + Zeros(k) == Zeros(k + 1)
  {
    if k > 0 {
      ZerosCons(k - 1);
    }
  }

  lemma {:induction false} ZerosZero(k: nat)
    ensures IsHex(Zeros(k)) && HexValue(Zeros(k)) == 0
  {
    if k > 0 {
      ZerosZero(k - 1);
    }
  }

  /** Zeros denote zero, so leading zeros leave the value unchanged. */
  lemma {:induction false} ZerosValue(k: nat, s: string)
    requires IsHex(s)
    ensures IsHex(Zeros(k) + s) && HexValue(Zeros(k) + s) == HexValue(s)
    decreases |s|
  {
    ZerosZero(k);
    if s == [] {
      assert Zeros(k) + s == Zeros(k);
    } else {
      var front := s[..|s| - 1];
      var z := Zeros(k) + s;
      assert z[..|z| - 1] == Zeros(k) + front;
      ZerosValue(k, front);
    }
  }

  /** `toString(16)` round-trips: its digits are lowercase hexadecimal,
      denote `v`, and start with a non-zero digit unless `v` is 0. */
  lemma {:induction false} ToHexValue(v: nat)
    ensures |ToHex(v)| >= 1
    ensures IsHex(ToHex(v)) && HexValue(ToHex(v)) == v
    ensures ToHex(v)[0] == '0' <==> v == 0
  {
    if v >= 16 {
      ToHexValue(v / 16);
      var s := ToHex(v);
      assert s[..|s| - 1] == ToHex(v / 16);
    }
  }

  /** `v` has at most `n` hexadecimal digits exactly when it is below
      16^n. */
  lemma {:induction false} ToHexLength(v: nat, n: nat)
    requires n >= 1
    ensures |ToHex(v)| <= n <==> v < Pow16(n)
  {
    if v >= 16 && n > 1 {
      ToHexLength(v / 16, n - 1);
    } else if v >= 16 {
      ToHexLength(v / 16, 1);
    } else if n > 1 {
      assert Pow16(n) == 16 * Pow16(n - 1);
    }
  }

  /** What `padZeroes` returns: `max(|digits|, 2 * nBytes)` characters,
      lowercase hexadecimal, denoting `v`; a string already long enough
      comes back unchanged. */
  lemma PaddedDigits(v: nat, nBytes: int)
    ensures |Padded(v, nBytes)| == Max(|ToHex(v)|, 2 * nBytes)
    ensures IsHex(Padded(v, nBytes)) && HexValue(Padded(v, nBytes)) == v
    ensures |ToHex(v)| >= 2 * nBytes ==> Padded(v, nBytes) == ToHex(v)
  {
    ToHexValue(v);
    ZerosValue(PadCount(v, nBytes), ToHex(v));
    ZerosLength(PadCount(v, nBytes));
    if |ToHex(v)| >= 2 * nBytes {
      assert Zeros(0) + ToHex(v) == ToHex(v);
    }
  }

  lemma {:induction false} ZerosLength(k: nat)
    ensures |Zeros(k)| == k
  {
    if k > 0 {
      ZerosLength(k - 1);
    }
  }

  /** The string with its leading '0' characters removed. */
  function StripLeadingZeros(s: string): string {
    if s != [] && s[0] == '0' then StripLeadingZeros(s[1..]) else s
  }

  lemma {:induction false} StripZeros(k: nat, s: string)
    requires s == [] || s[0] != '0'
    ensures StripLeadingZeros(Zeros(k) + s) == s
  {
    if k > 0 {
      ZerosCons(k - 1);
      assert (Zeros(k) + s)[1..] == Zeros(k - 1) + s;
      StripZeros(k - 1, s);
    }
  }

  /** Only zeros are prepended: removing the leading zeros of the padded
      string gives `v.toString(16)` back for `v > 0`; for 0 the padded
      string is nothing but zeros. */
  lemma PaddedStrip(v: nat, nBytes: int)
    ensures v > 0 ==> StripLeadingZeros(Padded(v, nBytes)) == ToHex(v)
    ensures v == 0 ==> Padded(v, nBytes) == Zeros(Max(1, 2 * nBytes))
  {
    ToHexValue(v);
    if v > 0 {
      StripZeros(PadCount(v, nBytes), ToHex(v));
    } else {
      assert ToHex(0) == "0";
      assert Zeros(PadCount(v, nBytes)) + "0" == Zeros(PadCount(v, nBytes) + 1);
    }
  }

  /** A checksum, a 32-bit word, has at most eight hexadecimal digits, so
      padding it to four bytes always gives exactly eight characters. */
  lemma WordPadding(v: nat)
    requires IsWord(v)
    ensures |ToHex(v)| <= 8
    ensures |Padded(v, 4)| == 8
  {
    assert Pow16(8) == WordLimit;
    ToHexLength(v, 8);
    PaddedDigits(v, 4);
  }
}
