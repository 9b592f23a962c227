/**
 * The printf conversions the text writer uses for integers (`%d`, `%u`, `%x`
 * with a zero-padded minimum width) and the parsers that invert them.  The
 * parsers are the reading side of the text format: each rendering is proved
 * to parse back to the value it was rendered from.
 */
module NumericText {
  import opened Common

  predicate IsDigit(c: char) { '0' <= c <= '9' }

  predicate AllDigits(s: string) { forall i :: 0 <= i < |s| ==> IsDigit(s[i]) }

  function DigitChar(d: nat): (c: char)
    requires d < 10
    ensures IsDigit(c)
  {
    ('0' as int + d) as char
  }

  function DigitValue(c: char): (d: nat)
    requires IsDigit(c)
    ensures d < 10 && DigitChar(d) == c
  {
    c as int - '0' as int
  }

  /** `%u`: the decimal digits of `n`, most significant first, without leading zeros. */
  function Decimal(n: nat): (s: string)
    ensures 1 <= |s| && AllDigits(s)
    ensures s[0] == '0' ==> n == 0 && |s| == 1
  {
    if n < 10 then [DigitChar(n)] else Decimal(n / 10) + [DigitChar(n % 10)]
  }

  /** Reads a run of decimal digits back (leading zeros allowed). */
  function DecimalValue(s: string): nat
    requires AllDigits(s)
  {
    if s == [] then 0 else 10 * DecimalValue(s[..|s| - 1]) + DigitValue(s[|s| - 1])
  }

  lemma {:induction false} DecimalRoundTrip(n: nat)
    ensures DecimalValue(Decimal(n)) == n
  {
    if n >= 10 {
      var s := Decimal(n);
      assert s[..|s| - 1] == Decimal(n / 10);
      DecimalRoundTrip(n / 10);
    }
  }

  /** `%d`: an optional minus sign followed by the decimal digits of the magnitude. */
  function SignedDecimal(x: int): string
  {
    if x < 0 then "-" + Decimal(-x) else Decimal(x)
  }

  function ParseSigned(s: string): Option<int>
  {
    if |s| >= 2 && s[0] == '-' && AllDigits(s[1..]) then Some(0 - DecimalValue(s[1..]))
    else if |s| >= 1 && AllDigits(s) then Some(DecimalValue(s))
    else None
  }

  lemma SignedRoundTrip(x: int)
    ensures ParseSigned(SignedDecimal(x)) == Some(x)
  {
    if x < 0 {
      NegativeRoundTrip(x);
    } else {
      var s := Decimal(x);
      assert IsDigit(s[0]);
      DecimalRoundTrip(x);
    }
  }

  lemma NegativeRoundTrip(x: int)
    requires x < 0
    ensures ParseSigned(SignedDecimal(x)) == Some(x)
  {
    var n: nat := -x;
    var d := Decimal(n);
    assert SignedDecimal(x) == "-" + d;
    ParseMinus(d);
    DecimalRoundTrip(n);
    assert 0 - DecimalValue(d) == x;
  }

  /** A minus sign before a digit run reads back as the negated value. */
  lemma ParseMinus(d: string)
    requires |d| >= 1 && AllDigits(d)
    ensures ParseSigned("-" + d) == Some(0 - DecimalValue(d))
  {
    var s := "-" + d;
    assert s[1..] == d;
  }

  predicate IsHexDigit(c: char) { IsDigit(c) || 'a' <= c <= 'f' }

  predicate AllHex(s: string) { forall i :: 0 <= i < |s| ==> IsHexDigit(s[i]) }

  function HexDigitValue(c: char): (d: nat)
    requires IsHexDigit(c)
    ensures d < 16
  {
    if IsDigit(c) then DigitValue(c) else c as int - 'a' as int + 10
  }

  /** The lower-case hexadecimal digit of `%x`. */
  function HexDigit(d: nat): (c: char)
    requires d < 16
    ensures IsHexDigit(c) && HexDigitValue(c) == d
  {
    if d < 10 then DigitChar(d) else ('a' as int + d - 10) as char
  }

  /** `%x`: lower-case hexadecimal digits of `n` without leading zeros. */
  function Hex(n: nat): (s: string)
    ensures 1 <= |s| && AllHex(s)
  {
    if n < 16 then [HexDigit(n)] else Hex(n / 16) + [HexDigit(n % 16)]
  }

  function HexValue(s: string): nat
    requires AllHex(s)
  {
    if s == [] then 0 else 16 * HexValue(s[..|s| - 1]) + HexDigitValue(s[|s| - 1])
  }

  function Zeros(k: nat): (z: string)
    ensures |z| == k && forall i :: 0 <= i < k ==> z[i] == '0'
  {
    if k == 0 then [] else Zeros(k - 1) + ['0']
  }

  /** The `0` flag with a minimum field width: pad on the left with zeros. */
  function ZeroPadded(s: string, width: nat): string
  {
    if |s| >= width then s else Zeros(width - |s|) + s
  }

  /** `%0<width>x` */
  function HexPadded(n: nat, width: nat): (s: string)
    ensures AllHex(s) && |s| == Max(width, |Hex(n)|)
  {
    ZeroPadded(Hex(n), width)
  }

  function Pow16(k: nat): nat
  {
    if k == 0 then 1 else 16 * Pow16(k - 1)
  }

  lemma {:induction false} HexRoundTrip(n: nat)
    ensures HexValue(Hex(n)) == n
  {
    if n >= 16 {
      var s := Hex(n);
      assert s[..|s| - 1] == Hex(n / 16);
      HexRoundTrip(n / 16);
    }
  }

  lemma {:induction false} ZerosValue(k: nat)
    ensures AllHex(Zeros(k)) && HexValue(Zeros(k)) == 0
  {
    if k > 0 {
      assert Zeros(k)[..k - 1] == Zeros(k - 1);
      ZerosValue(k - 1);
    }
  }

  /** Leading zeros do not change the value that is read back. */
  lemma {:induction false} LeadingZerosValue(k: nat, s: string)
    requires AllHex(s)
    ensures AllHex(Zeros(k) + s) && HexValue(Zeros(k) + s) == HexValue(s)
    decreases |s|
  {
    ZerosValue(k);
    if s == [] {
      assert Zeros(k) + s == Zeros(k);
    } else {
      var t := Zeros(k) + s;
      assert t[..|t| - 1] == Zeros(k) + s[..|s| - 1];
      LeadingZerosValue(k, s[..|s| - 1]);
    }
  }

  lemma HexPaddedRoundTrip(n: nat, width: nat)
    ensures HexValue(HexPadded(n, width)) == n
  {
    HexRoundTrip(n);
    if |Hex(n)| < width {
      LeadingZerosValue(width - |Hex(n)|, Hex(n));
    }
  }

  /** A value below 16^k needs at most k hexadecimal digits. */
  lemma {:induction false} HexLength(n: nat, k: nat)
    requires 1 <= k && n < Pow16(k)
    ensures |Hex(n)| <= k
  {
    if n >= 16 {
      assert Pow16(k) == 16 * Pow16(k - 1);
      assert n / 16 < Pow16(k - 1);
      HexLength(n / 16, k - 1);
    }
  }

  /** `%0<width>x` of a value below 16^width is exactly `width` characters long. */
  lemma HexPaddedWidth(n: nat, width: nat)
    requires 1 <= width && n < Pow16(width)
    ensures |HexPadded(n, width)| == width
  {
    HexLength(n, width);
  }
}
