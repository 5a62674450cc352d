// C strings and decimal numbers.  A char is a byte, and a string holds the bytes of a C string before its terminator.
module CStrings {
  type Int32 = n: int | -0x8000_0000 <= n < 0x8000_0000

  predicate NulFree(s: string) {
    forall i | 0 <= i < |s| :: s[i] != '\0'
  }

  // The byte a pointer into the text points at.
  function At(s: string, i: nat): char {
    if i < |s| then s[i] else '\0'
  }

  function Digit(d: nat): char
    requires d < 10
  {
    ('0' as int + d) as char
  }

  function Decimal(n: nat): string {
    if n < 10 then [Digit(n)] else Decimal(n / 10) + [Digit(n % 10)]
  }

  function Magnitude(n: int): nat {
    if n < 0 then -n else n
  }

  function Signed(n: int): string {
    if n < 0 then "-" + Decimal(Magnitude(n)) else Decimal(n)
  }

  predicate IsDigit(c: char) {
    '0' <= c <= '9'
  }

  function DigitValue(c: char): nat
    requires IsDigit(c)
  {
    c as int - '0' as int
  }

  // The digits at the front of the text, read onto a number already begun.
  function Digits(s: string, n: nat): (r: (nat, string))
    ensures |r.1| <= |s|
  {
    if IsDigit(At(s, 0)) then Digits(s[1..], n * 10 + DigitValue(s[0])) else (n, s)
  }

  lemma {:induction false} DigitsOfDecimal(n: nat, t: string)
    ensures Digits(Decimal(n) + t, 0) == Digits(t, n)
  {
    if n < 10 {
      assert (Decimal(n) + t)[1..] == t;
      assert DigitValue(Digit(n)) == n;
    } else {
      var d := [Digit(n % 10)];
      assert Decimal(n) + t == Decimal(n / 10) + (d + t);
      DigitsOfDecimal(n / 10, d + t);
      assert (d + t)[1..] == t && DigitValue(d[0]) == n % 10;
    }
  }

  // The digit with this value, small or capital.
  predicate Means(c: char, v: nat)
    requires v < 16
  {
    c == "0123456789abcdef"[v] || c == "0123456789ABCDEF"[v]
  }

  // The number that digits write in base ten.
  function Tens(s: string): int {
    if s == [] then 0 else Tens(s[..|s| - 1]) * 10 + (s[|s| - 1] as int - 48)
  }

  // A number is printed in base ten, without a 0 in front.
  lemma {:induction false} DecimalIsTens(n: nat)
    ensures Tens(Decimal(n)) == n && (|Decimal(n)| > 1 ==> Decimal(n)[0] != '0')
    ensures forall i | 0 <= i < |Decimal(n)| :: 48 <= Decimal(n)[i] as int < 58
  {
    if n >= 10 {
      DecimalIsTens(n / 10);
      DecimalStarts(n / 10);
      assert Decimal(n)[..|Decimal(n)| - 1] == Decimal(n / 10);
    }
  }

  lemma {:induction false} DecimalStarts(n: nat)
    ensures Decimal(n) != []
    ensures if n == 0 then Decimal(n) == "0" else '1' <= Decimal(n)[0] <= '9'
  {
    if n >= 10 {
      DecimalStarts(n / 10);
    }
  }

  lemma {:induction false} DecimalChars(n: nat)
    ensures forall i | 0 <= i < |Decimal(n)| :: IsDigit(Decimal(n)[i])
  {
    if n >= 10 {
      DecimalChars(n / 10);
    }
  }

  lemma {:induction false} DecimalLength(n: nat, digits: nat, bound: nat)
    requires digits >= 1 && n < bound && bound == Power10(digits)
    ensures |Decimal(n)| <= digits
    decreases digits
  {
    if n >= 10 {
      DecimalLength(n / 10, digits - 1, Power10(digits - 1));
    }
  }

  function Power10(n: nat): nat {
    if n == 0 then 1 else 10 * Power10(n - 1)
  }

  lemma NumberFits(n: Int32)
    ensures |Signed(n)| <= 11 && NulFree(Signed(n))
  {
    assert Power10(5) == 10_0000 && Power10(10) == 100_0000_0000;
    DecimalLength(Magnitude(n), 10, Power10(10));
    DecimalChars(Magnitude(n));
  }
}
