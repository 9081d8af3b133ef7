/**
  The pieces of the Java platform that the tile-grid editor relies on:
  the range of `int`, integer division as Java defines it (the quotient is
  rounded toward zero), `Integer.parseInt` in radix 10 and the decimal
  text that `String.valueOf(Object)` gives for a non-null `Integer`.
*/
module JavaLang {

  datatype Option<+T> = None | Some(value: T)

  const IntMin: int := -0x8000_0000
  const IntMax: int := 0x7fff_ffff

  /** The values a Java `int` can hold. */
  predicate IsInt(n: int) {
    IntMin <= n <= IntMax
  }

  /**
    Java's `n / d` on `int` for a positive divisor: the quotient is rounded
    toward zero, so for a negative dividend it is the ceiling of n/d, not the
    floor that Dafny's Euclidean `/` gives.
  */
  function Div(n: int, d: int): (q: int)
    requires d > 0
    ensures 0 <= n ==> q * d <= n < q * d + d
    ensures n < 0 ==> q * d - d < n <= q * d
  {
    if n >= 0 then n / d else -((-n) / d)
  }

  /** The quotient of a multiple of d is exact, whatever its sign. */
  lemma DivMultiple(t: int, d: int)
    requires d > 0
    ensures Div(t * d, d) == t
  {
    var q := Div(t * d, d);
    if q < t {
      MulMonotone(q + 1, t, d);
    } else if q > t {
      MulMonotone(t + 1, q, d);
    }
  }

  /** Division by a positive divisor never decreases as the dividend grows. */
  lemma DivMonotone(a: int, b: int, d: int)
    requires a <= b && d > 0
    ensures Div(a, d) <= Div(b, d)
  {
    if 0 <= a {
      NatDivMonotone(a, b, d);
    } else if b < 0 {
      NatDivMonotone(-b, -a, d);
    } else {
      NatDivMonotone(0, -a, d);
      NatDivMonotone(0, b, d);
    }
  }

  /** Dafny's `/` on naturals is monotone in the dividend. */
  lemma NatDivMonotone(a: int, b: int, d: int)
    requires 0 <= a <= b && d > 0
    ensures a / d <= b / d
  {
    var qa, qb := a / d, b / d;
    if qa > qb {
      MulMonotone(qb + 1, qa, d);
    }
  }

  lemma MulMonotone(x: int, y: int, d: int)
    requires x <= y && d > 0
    ensures x * d <= y * d
  {
  }

  predicate IsDigit(c: char) {
    '0' <= c <= '9'
  }

  predicate AllDigits(s: string) {
    forall i :: 0 <= i < |s| ==> IsDigit(s[i])
  }

  function DigitChar(d: nat): (c: char)
    requires d < 10
  {
    ('0' as int + d) as char
  }

  /** The value of a string of decimal digits, most significant first. */
  function DigitsValue(s: string): nat
    requires AllDigits(s)
  {
    if s == [] then 0 else DigitsValue(s[..|s| - 1]) * 10 + (s[|s| - 1] as int - '0' as int)
  }

  /**
    `Integer.parseInt(s)`: an optional '+' or '-' sign followed by at least
    one decimal digit, whose value must fit in an `int`. None stands for the
    NumberFormatException the Java method throws on any other string.
  */
  function ParseInt(s: string): (r: Option<int>)
    ensures r.Some? ==> IsInt(r.value)
    ensures r.Some? ==> |s| > 0 && (IsDigit(s[0]) || s[0] == '-' || s[0] == '+')
    ensures r.Some? ==> forall i :: 0 < i < |s| ==> IsDigit(s[i])
    ensures r.Some? ==> exists i :: 0 <= i < |s| && IsDigit(s[i])
  {
    if s == [] then None
    else
      var signed := s[0] == '-' || s[0] == '+';
      var digits := if signed then s[1..] else s;
      if digits == [] || !AllDigits(digits) then None
      else
        assert IsDigit(s[|s| - 1]) by { assert s[|s| - 1] == digits[|digits| - 1]; }
        var n: int := if s[0] == '-' then 0 - DigitsValue(digits) else DigitsValue(digits);
        if IsInt(n) then Some(n) else None
  }

  /** The value `Integer.parseInt` gives for a sign ("", "+" or "-") and a digit string. */
  function SignedValue(sign: string, d: string): int
    requires AllDigits(d)
  {
    if sign == "-" then 0 - DigitsValue(d) else DigitsValue(d)
  }

  /**
    An optional sign followed by at least one digit parses to its value
    when that value fits in an `int`, and is a NumberFormatException
    otherwise. Leading zeros and a '+' sign are allowed, and "-0" is 0.
  */
  lemma ParseSigned(sign: string, d: string)
    requires sign == "" || sign == "+" || sign == "-"
    requires |d| > 0 && AllDigits(d)
    ensures ParseInt(sign + d) == if IsInt(SignedValue(sign, d)) then Some(SignedValue(sign, d)) else None
  {
    var s := sign + d;
    if sign == "" {
      assert s == d;
      assert IsDigit(d[0]);
    } else {
      assert s[1..] == d;
    }
  }

  /** A leading zero does not change the value of a digit string. */
  lemma {:induction false} LeadingZero(d: string)
    requires AllDigits(d)
    ensures AllDigits("0" + d) && DigitsValue("0" + d) == DigitsValue(d)
  {
    var z := "0" + d;
    assert AllDigits(z) by {
      forall i | 0 <= i < |z| ensures IsDigit(z[i]) {
        if i > 0 { assert z[i] == d[i - 1]; }
      }
    }
    if d != [] {
      assert z[..|z| - 1] == "0" + d[..|d| - 1];
      LeadingZero(d[..|d| - 1]);
    }
  }

  /** Texts with a '+' sign, leading zeros or a negative zero are legal `int`s. */
  lemma ParseExamples()
    ensures ParseInt("+5") == Some(5)
    ensures ParseInt("007") == Some(7)
    ensures ParseInt("-0") == Some(0)
  {
    ParseSigned("+", "5");
    assert "+5" == "+" + "5";
    assert "07" == "0" + "7" && "007" == "0" + "07";
    LeadingZero("7");
    LeadingZero("07");
    ParseSigned("", "007");
    assert "007" == "" + "007";
    ParseSigned("-", "0");
    assert "-0" == "-" + "0";
  }

  /** The decimal digits of n, with no leading zero. */
  function NatDigits(n: nat): (s: string)
    ensures |s| > 0 && AllDigits(s)
    ensures |s| > 1 ==> s[0] != '0'
  {
    if n < 10 then [DigitChar(n)] else NatDigits(n / 10) + [DigitChar(n % 10)]
  }

  /**
    The text `String.valueOf(Object)` gives for a non-null `Integer` n: a '-'
    sign for a negative n, then the digits of |n|.
  */
  function FormatInt(n: int): string {
    if n < 0 then "-" + NatDigits(-n) else NatDigits(n)
  }

  lemma {:induction false} NatDigitsValue(n: nat)
    ensures DigitsValue(NatDigits(n)) == n
  {
    var s := NatDigits(n);
    if n >= 10 {
      NatDigitsValue(n / 10);
      assert s[..|s| - 1] == NatDigits(n / 10);
    }
  }

  /** The decimal text of an int reads back as that int. */
  lemma ParseFormat(n: int)
    requires IsInt(n)
    ensures ParseInt(FormatInt(n)) == Some(n)
  {
    if n < 0 {
      NatDigitsValue(-n);
      assert FormatInt(n)[1..] == NatDigits(-n);
    } else {
      NatDigitsValue(n);
    }
  }
}
