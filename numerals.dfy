/** Decimal conversions the date parser relies on: Python's `int(s)` on a
    string of digits, `str(n)`, and the zero-padded format `f"{n:02d}"`. */
module Numerals {
  import opened Wrappers

  predicate IsDigit(c: char)
  {
    '0' <= c <= '9'
  }

  predicate AllDigits(s: string)
  {
    forall k :: 0 <= k < |s| ==> IsDigit(s[k])
  }

  function DigitValue(c: char): nat
    requires IsDigit(c)
  {
    c as int - '0' as int
  }

  function DigitChar(d: nat): (c: char)
    requires d < 10
    ensures IsDigit(c) && DigitValue(c) == d
  {
    ('0' as int + d) as char
  }

  /** The value of a string of decimal digits, most significant digit first. */
  function DecimalValue(s: string): nat
    requires AllDigits(s)
  {
    if s == [] then 0 else 10 * DecimalValue(s[..|s| - 1]) + DigitValue(s[|s| - 1])
  }

  /** Python's `int(s)`: a non-empty run of ASCII digits parses, anything
      else raises ValueError (None here). */
  function ParseInt(s: string): Option<nat>
  {
    if s != [] && AllDigits(s) then Some(DecimalValue(s)) else None
  }

  function Pow10(n: nat): (p: nat)
    ensures p >= 1
  {
    if n == 0 then 1 else 10 * Pow10(n - 1)
  }

  /** The last `width` decimal digits of `n`, leading zeros included. */
  function Digits(n: nat, width: nat): (s: string)
    ensures |s| == width && AllDigits(s)
  {
    if width == 0 then [] else Digits(n / 10, width - 1) + [DigitChar(n % 10)]
  }

  /** How many decimal digits `n` has (one for zero). */
  function Width(n: nat): (w: nat)
    ensures 1 <= w && n < Pow10(w)
    ensures w == 1 || Pow10(w - 1) <= n
  {
    if n < 10 then 1 else 1 + Width(n / 10)
  }

  /** Python's `f"{n:0<width>d}"` for a non-negative `n`: the digits of `n`,
      padded on the left with zeros to at least `width` characters. It reads
      back as `n`, and it is exactly `width` long when `n` fits. */
  function ZeroPadded(n: nat, width: nat): (s: string)
    ensures |s| == (if width < Width(n) then Width(n) else width)
    ensures 0 < width && n < Pow10(width) ==> |s| == width
    ensures ParseInt(s) == Some(n)
  {
    var w := if width < Width(n) then Width(n) else width;
    Pow10Monotone(Width(n), w);
    WidthFits(n, width);
    DigitsValue(n, w);
    Digits(n, w)
  }

  /** Python's `str(n)` for a non-negative `n`. */
  function NatToString(n: nat): string
  {
    ZeroPadded(n, 0)
  }

  /** Python's `str(i)`. */
  function IntToString(i: int): string
  {
    if i < 0 then "-" + NatToString(-i) else NatToString(i)
  }

  /** Python's `f"{n:02d}"`. */
  function Pad2(n: nat): string
  {
    ZeroPadded(n, 2)
  }

  lemma {:induction false} Pow10Monotone(a: nat, b: nat)
    requires a <= b
    ensures Pow10(a) <= Pow10(b)
  {
    if a < b {
      Pow10Monotone(a, b - 1);
    }
  }

  /** A number below 10^width has at most `width` digits, for a positive width. */
  lemma WidthFits(n: nat, width: nat)
    ensures 0 < width && n < Pow10(width) ==> Width(n) <= width
  {
    if 0 < width && n < Pow10(width) && width < Width(n) {
      Pow10Monotone(width, Width(n) - 1);
    }
  }

  /** A year from 1000 to 9999 has four digits. */
  lemma WidthFour(y: nat)
    requires 1000 <= y <= 9999
    ensures Width(y) == 4
  {
    assert Width(y / 1000) == 1;
    assert Width(y / 100) == 1 + Width(y / 1000);
    assert Width(y / 10) == 1 + Width(y / 100);
  }

  /** Digits of a number that fits in `width` places read back as the number. */
  lemma {:induction false} DigitsValue(n: nat, width: nat)
    requires n < Pow10(width)
    ensures DecimalValue(Digits(n, width)) == n
  {
    if width > 0 {
      var q, r := n / 10, n % 10;
      assert n == 10 * q + r && Pow10(width) == 10 * Pow10(width - 1);
      DigitsValue(q, width - 1);
      var s := Digits(n, width);
      assert s == Digits(q, width - 1) + [DigitChar(r)];
      assert s[..|s| - 1] == Digits(q, width - 1);
    }
  }

  /** A digit string is the fixed-width rendering of its own value. */
  lemma {:induction false} ValueDigits(s: string)
    requires AllDigits(s)
    ensures Digits(DecimalValue(s), |s|) == s
  {
    if s != [] {
      var init := s[..|s| - 1];
      ValueDigits(init);
      assert s == init + [s[|s| - 1]];
    }
  }

  /** Formatting then parsing gives the number back. */
  lemma NatToStringRoundTrip(n: nat)
    ensures ParseInt(NatToString(n)) == Some(n)
    ensures Pad2(n) == (if n < 10 then "0" + NatToString(n) else NatToString(n))
  {
    if n < 10 {
      assert Width(n) == 1;
      assert NatToString(n) == Digits(n, 1) == Digits(0, 0) + [DigitChar(n)];
      assert Pad2(n) == Digits(n, 2) == Digits(0, 1) + [DigitChar(n)];
      assert Digits(0, 1) == "0";
    }
  }

  lemma {:induction false} DecimalBound(s: string)
    requires AllDigits(s)
    ensures DecimalValue(s) < Pow10(|s|)
  {
    if s != [] {
      DecimalBound(s[..|s| - 1]);
    }
  }

  lemma PadOneDigit(n: nat)
    requires n < 10
    ensures Pad2(n) == ['0', DigitChar(n)]
  {
    assert Width(n) == 1;
    assert Digits(n, 2) == Digits(0, 1) + [DigitChar(n)];
    assert Digits(0, 1) == "0";
  }

  lemma {:induction false} OneDigitValue(s: string)
    requires |s| == 1 && AllDigits(s)
    ensures DecimalValue(s) == DigitValue(s[0])
  {
    assert s[..0] == [];
  }

  /** A one-digit string is what `int()` reads and `f"{n:02d}"` pads with a
      zero. */
  lemma OneDigitText(s: string)
    requires |s| == 1 && AllDigits(s)
    ensures ParseInt(s) == Some(DecimalValue(s)) && Pad2(DecimalValue(s)) == ['0', s[0]]
  {
    var c := s[0];
    OneDigitValue(s);
    PadOneDigit(DigitValue(c));
    DigitRoundTrip(c);
  }

  lemma DigitRoundTrip(c: char)
    requires IsDigit(c)
    ensures DigitChar(DigitValue(c)) == c
  {
  }

  /** A two-digit string is what `int()` reads and `f"{n:02d}"` writes back. */
  lemma TwoDigitText(s: string)
    requires |s| == 2 && AllDigits(s)
    ensures ParseInt(s) == Some(DecimalValue(s)) && Pad2(DecimalValue(s)) == s
  {
    var v := DecimalValue(s);
    DecimalBound(s);
    WidthFits(v, 2);
    ValueDigits(s);
  }

  /** A four-digit string without a leading zero is `str()` of its value. */
  lemma FourDigitText(s: string)
    requires |s| == 4 && AllDigits(s) && DecimalValue(s) >= 1000
    ensures NatToString(DecimalValue(s)) == s
  {
    var v := DecimalValue(s);
    DecimalBound(s);
    WidthFits(v, 4);
    var w := Width(v);
    if w < 4 {
      Pow10Monotone(w, 3);
    }
    ValueDigits(s);
  }

  lemma {:induction false} TwoDigitValue(s: string)
    requires |s| == 2 && AllDigits(s)
    ensures DecimalValue(s) == 10 * DigitValue(s[0]) + DigitValue(s[1])
  {
    OneDigitValue(s[..1]);
  }

  lemma {:induction false} FourDigitValue(s: string)
    requires |s| == 4 && AllDigits(s)
    ensures DecimalValue(s) == 1000 * DigitValue(s[0]) + 100 * DigitValue(s[1]) + 10 * DigitValue(s[2]) + DigitValue(s[3])
  {
    var t := s[..2];
    TwoDigitValue(t);
    assert s[..3][..2] == t;
  }
}
