// Decimal text and dotted-quad addresses, as the Rust and PowerShell sides read them.
module Numerals {
  import opened Text

  function DigitValue(c: char): nat
    requires IsDigit(c)
  {
    c as int - 48
  }

  predicate AllDigits(s: string) {
    forall c | c in s :: IsDigit(c)
  }

  function Number(digits: string): nat
    requires AllDigits(digits)
  {
    if digits == [] then 0
    else
      var last := digits[|digits| - 1];
      assert last in digits;
      Number(digits[..|digits| - 1]) * 10 + DigitValue(last)
  }

  function Decimal(n: nat): string {
    if n < 10 then [(48 + n) as char] else Decimal(n / 10) + [(48 + n % 10) as char]
  }

  // Digits without a leading zero.
  predicate Canonical(s: string) {
    s != [] && AllDigits(s) && (s[0] == '0' ==> |s| == 1)
  }

  lemma {:induction false} DecimalOfNumber(s: string)
    requires Canonical(s)
    ensures Decimal(Number(s)) == s
    ensures |s| > 1 ==> Number(s) >= 10
  {
    var n := |s| - 1;
    assert s == s[..n] + [s[n]];
    assert s[n] in s && s[0] in s;
    if n > 0 {
      assert AllDigits(s[..n]);
      DecimalOfNumber(s[..n]);
      assert n == 1 ==> s[..n] == [s[0]] && Number(s[..n]) == DigitValue(s[0]) by {
        if n == 1 {
          assert s[..1][..0] == [];
        }
      }
      assert Number(s[..n]) >= 1;
    } else {
      assert s[..0] == [];
    }
  }

  lemma {:induction false} NumberOfDecimal(n: nat)
    ensures Canonical(Decimal(n)) && Number(Decimal(n)) == n
    ensures n > 0 ==> Decimal(n)[0] != '0'
  {
    if n < 10 {
      assert Decimal(n)[..0] == [];
    } else {
      NumberOfDecimal(n / 10);
      var front := Decimal(n / 10);
      assert Decimal(n)[..|front|] == front;
    }
  }

  // Two spellings of one number are equal if both are canonical.
  lemma CanonicalIsUnique(a: string, b: string)
    requires Canonical(a) && Canonical(b) && Number(a) == Number(b)
    ensures a == b
  {
    DecimalOfNumber(a);
    DecimalOfNumber(b);
  }

  // Four octets in canonical decimal.
  predicate ValidAddress(text: string) {
    var octets := Split(text, '.');
    |octets| == 4 && forall octet | octet in octets :: Canonical(octet) && Number(octet) <= 255
  }

  // The dotted-quad text of a 32-bit number.
  function Dotted(value: nat): string {
    Join([Decimal(value / 0x100_0000), Decimal(value / 0x1_0000 % 0x100),
          Decimal(value / 0x100 % 0x100), Decimal(value % 0x100)], ".")
  }

  function Reverse(s: seq<string>): (r: seq<string>)
    ensures |r| == |s|
    ensures forall i | 0 <= i < |s| :: r[i] == s[|s| - 1 - i]
  {
    seq(|s|, i requires 0 <= i < |s| => s[|s| - 1 - i])
  }
}
