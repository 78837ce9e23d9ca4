// Numbers as text: decimal numerals and fixed-width hexadecimal.
module Numerals {

  function Decimal(n: nat): string
  {
    if n < 10 then [Digit(n)] else Decimal(n / 10) + [Digit(n % 10)]
  }

  function Digit(d: nat): (c: char)
    requires d < 16
    ensures '0' <= c <= '9' || 'a' <= c <= 'f'
  {
    if d < 10 then (d + 48) as char else (d + 87) as char
  }

  function DigitValue(c: char): nat
  {
    if '0' <= c <= '9' then c as int - 48 else if 'a' <= c <= 'f' then c as int - 87 else 0
  }

  // What a decimal numeral denotes.
  function ValueOf(text: string): nat
  {
    if text == "" then 0 else 10 * ValueOf(text[..|text| - 1]) + DigitValue(text[|text| - 1])
  }

  // A numeral denotes its number and has no leading zero.
  lemma {:induction false} DecimalValue(n: nat)
    ensures Decimal(n) != "" && ValueOf(Decimal(n)) == n && (n > 0 ==> Decimal(n)[0] != '0')
    decreases n
  {
    var text := Decimal(n);
    if n < 10 {
      assert text[..0] == "";
    } else {
      DecimalValue(n / 10);
      assert text[..|text| - 1] == Decimal(n / 10);
    }
  }

  // Length of the decimal numeral.
  function Digits(n: nat): (count: nat)
    ensures n < 10 ==> count == 1
    ensures n < 10000 ==> count <= 4
  {
    if n < 10 then 1
    else if n < 100 then 2
    else if n < 1000 then 3
    else 1 + Digits(n / 10)
  }

  lemma {:induction false} DecimalLength(n: nat)
    ensures |Decimal(n)| == Digits(n)
    decreases n
  {
    if n >= 10 {
      DecimalLength(n / 10);
    }
  }

  lemma {:induction false} DecimalChars(n: nat)
    ensures forall k :: 0 <= k < |Decimal(n)| ==> '0' <= Decimal(n)[k] <= '9'
    decreases n
  {
    if n >= 10 {
      DecimalChars(n / 10);
    }
  }

  lemma {:induction false} DecimalInjective(m: nat, n: nat)
    requires Decimal(m) == Decimal(n)
    ensures m == n
    decreases m
  {
    var text := Decimal(m);
    assert DigitValue(text[|text| - 1]) == m % 10 == n % 10;
    if m >= 10 || n >= 10 {
      DecimalShort(m);
      DecimalShort(n);
      assert text[..|text| - 1] == Decimal(m / 10) == Decimal(n / 10);
      DecimalInjective(m / 10, n / 10);
    }
  }

  lemma DecimalShort(n: nat)
    ensures |Decimal(n)| == 1 <==> n < 10
    ensures Decimal(n) != ""
  {
    if n >= 10 {
      DecimalLength(n / 10);
      DecimalLength(n);
    }
  }

  function Power16(width: nat): (p: nat)
    ensures p > 0
  {
    if width == 0 then 1 else 16 * Power16(width - 1)
  }

  function Hex(n: nat, width: nat): (text: string)
    ensures |text| == width
  {
    if width == 0 then "" else Hex(n / 16, width - 1) + [Digit(n % 16)]
  }

  lemma {:induction false} HexChars(n: nat, width: nat)
    ensures forall k :: 0 <= k < width ==> '0' <= Hex(n, width)[k] <= '9' || 'a' <= Hex(n, width)[k] <= 'f'
  {
    if width > 0 {
      HexChars(n / 16, width - 1);
    }
  }

  lemma {:induction false} HexInjective(m: nat, n: nat, width: nat)
    requires m < Power16(width) && n < Power16(width) && Hex(m, width) == Hex(n, width)
    ensures m == n
  {
    if width > 0 {
      var a, b := Hex(m, width), Hex(n, width);
      assert DigitValue(a[width - 1]) == m % 16 && DigitValue(b[width - 1]) == n % 16;
      assert a[..width - 1] == Hex(m / 16, width - 1) && b[..width - 1] == Hex(n / 16, width - 1);
      HexInjective(m / 16, n / 16, width - 1);
    }
  }
}
