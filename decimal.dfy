/** Decimal text of numbers, as the platforms the application runs on
    write and read it: `String(n)` and `Int.toString()` (shortest form),
    fixed-width zero-padded fields (`padStart(2, "0")`, `LocalDate`'s
    four-digit year), and the digit strings parsers accept. */
module Decimal {
  import opened Common

  predicate IsDigit(c: char) { '0' <= c <= '9' }

  predicate AllDigits(s: string) { forall i :: 0 <= i < |s| ==> IsDigit(s[i]) }

  function DigitChar(d: nat): (c: char)
    requires d < 10
    ensures IsDigit(c)
  {
    (d + '0' as int) as char
  }

  function DigitValue(c: char): (d: nat)
    requires IsDigit(c)
    ensures d < 10 && DigitChar(d) == c
  {
    (c as int - '0' as int) as nat
  }

  function Pow10(w: nat): (p: nat)
    ensures p >= 1
  {
    if w == 0 then 1 else 10 * Pow10(w - 1)
  }

  /** The number a string of decimal digits denotes (leading zeros allowed). */
  function DecimalValue(s: string): (v: nat)
    requires AllDigits(s)
    ensures v < Pow10(|s|)
  {
    if s == [] then 0
    else DecimalValue(s[..|s| - 1]) * 10 + DigitValue(s[|s| - 1])
  }

  /** The shortest decimal text of `n`: JavaScript's `String(n)` and
      Kotlin's `toString()` on a non-negative integer. */
  function NatToDecimal(n: nat): (s: string)
    ensures |s| >= 1 && AllDigits(s)
    ensures s[0] == '0' ==> n == 0
  {
    if n < 10 then [DigitChar(n)] else NatToDecimal(n / 10) + [DigitChar(n % 10)]
  }

  /** The text of any integer, with a leading minus sign when negative. */
  function IntToDecimal(i: int): (s: string)
    ensures |s| >= 1
    ensures s[0] == '-' <==> i < 0
    ensures i >= 0 ==> s == NatToDecimal(i)
  {
    if i < 0 then "-" + NatToDecimal(-i) else NatToDecimal(i)
  }

  /** The last `w` decimal digits of `n`, zero-padded to exactly `w` characters. */
  function Digits(n: nat, w: nat): (s: string)
    ensures |s| == w && AllDigits(s)
  {
    if w == 0 then [] else Digits(n / 10, w - 1) + [DigitChar(n % 10)]
  }

  /** JavaScript's `s.padStart(width, c)` with a one-character pad. */
  function PadStart(s: string, width: nat, c: char): (r: string)
    ensures |r| == if |s| >= width then |s| else width
    ensures r[|r| - |s|..] == s
    ensures forall i :: 0 <= i < |r| - |s| ==> r[i] == c
  {
    if |s| >= width then s else seq(width - |s|, _ => c) + s
  }

  /** Reading back the shortest form gives the number. */
  lemma {:induction false} NatToDecimalValue(n: nat)
    ensures DecimalValue(NatToDecimal(n)) == n
  {
    var s := NatToDecimal(n);
    if n >= 10 {
      NatToDecimalValue(n / 10);
      assert s[..|s| - 1] == NatToDecimal(n / 10);
    }
  }

  /** Reading back a fixed-width field gives the number when it fits. */
  lemma {:induction false} DigitsValue(n: nat, w: nat)
    requires n < Pow10(w)
    ensures DecimalValue(Digits(n, w)) == n
  {
    if w > 0 {
      var s := Digits(n, w);
      assert n / 10 < Pow10(w - 1);
      DigitsValue(n / 10, w - 1);
      assert s[..|s| - 1] == Digits(n / 10, w - 1);
    }
  }

  /** Writing the value of a digit string back at its width gives the string. */
  lemma {:induction false} ValueDigits(s: string)
    requires AllDigits(s)
    ensures Digits(DecimalValue(s), |s|) == s
  {
    if s != [] {
      var init := s[..|s| - 1];
      var d := DigitValue(s[|s| - 1]);
      var v := DecimalValue(s);
      assert v == DecimalValue(init) * 10 + d;
      assert v / 10 == DecimalValue(init) && v % 10 == d;
      ValueDigits(init);
      assert s == init + [s[|s| - 1]];
    }
  }

  /** A number with exactly `w` digits is written the same in shortest and
      in fixed-width form: for a four-digit year `String(year)` is the ISO
      year field. */
  lemma {:induction false} ShortestIsFixedWidth(n: nat, w: nat)
    requires w >= 1 && Pow10(w - 1) <= n < Pow10(w)
    ensures NatToDecimal(n) == Digits(n, w)
  {
    if w > 1 {
      assert Pow10(w - 2) <= n / 10 < Pow10(w - 1);
      ShortestIsFixedWidth(n / 10, w - 1);
    }
  }

  /** `String(n).padStart(2, "0")` is the two-digit field of any `n < 100`. */
  lemma PadStartTwoDigits(n: nat)
    requires n < 100
    ensures PadStart(NatToDecimal(n), 2, '0') == Digits(n, 2)
  {
    if n < 10 {
      assert PadStart(NatToDecimal(n), 2, '0') == ['0', DigitChar(n)];
      assert Digits(n, 2) == Digits(0, 1) + [DigitChar(n)];
    } else {
      ShortestIsFixedWidth(n, 2);
    }
  }

  /** The range of a Kotlin `Int` and of a 32-bit `integer` column. */
  const IntMin := -0x8000_0000
  const IntMax := 0x7FFF_FFFF

  // ---------------------------------------------------------------------
  // Kotlin's `String.toIntOrNull()` and JavaScript's `parseInt`
  // ---------------------------------------------------------------------

  predicate IsSign(c: char) { c == '-' || c == '+' }

  /** The text after an optional leading sign. */
  function Magnitude(s: string): string {
    if |s| > 0 && IsSign(s[0]) then s[1..] else s
  }

  /** An optional sign followed by at least one decimal digit. */
  predicate IsIntText(s: string) {
    |Magnitude(s)| >= 1 && AllDigits(Magnitude(s))
  }

  function TextValue(s: string): int
    requires IsIntText(s)
  {
    var m: int := DecimalValue(Magnitude(s));
    if s[0] == '-' then -m else m
  }

  /** `s.toIntOrNull()`: the integer an optionally signed digit string
      denotes when it fits in 32 bits, `None` otherwise. */
  function ToIntOrNull(s: string): (r: Option<int>)
    ensures r.Some? ==> IntMin <= r.value <= IntMax
    ensures r.Some? ==> IsIntText(s) && r.value == TextValue(s)
  {
    if IsIntText(s) && IntMin <= TextValue(s) <= IntMax then Some(TextValue(s)) else None
  }

  /** Every 32-bit integer's text reads back as that integer, so every
      32-bit integer can be addressed by its text. */
  lemma ToIntOrNullOfDecimal(i: int)
    requires IntMin <= i <= IntMax
    ensures ToIntOrNull(IntToDecimal(i)) == Some(i)
  {
    var s := IntToDecimal(i);
    if i < 0 {
      assert Magnitude(s) == NatToDecimal(-i);
      NatToDecimalValue(-i);
    } else {
      assert Magnitude(s) == NatToDecimal(i);
      NatToDecimalValue(i);
    }
  }

  /** A character that is neither a digit nor a leading sign makes the
      text no integer. */
  lemma ToIntOrNullRejects(s: string, k: nat)
    requires k < |s| && !IsDigit(s[k]) && !(k == 0 && IsSign(s[k]))
    ensures ToIntOrNull(s) == None
  {
    if |s| > 0 && IsSign(s[0]) {
      assert k >= 1 && Magnitude(s)[k - 1] == s[k];
    } else {
      assert Magnitude(s)[k] == s[k];
    }
  }

  /** Some texts that are not integers, and some that are. */
  lemma ToIntOrNullExamples()
    ensures ToIntOrNull("") == None && ToIntOrNull("-") == None && ToIntOrNull("+") == None
    ensures ToIntOrNull("abc") == None && ToIntOrNull("1.5") == None && ToIntOrNull(" 7") == None
    ensures ToIntOrNull("007") == Some(7) && ToIntOrNull("+7") == Some(7) && ToIntOrNull("-12") == Some(-12)
  {
    ToIntOrNullRejects("abc", 0);
    ToIntOrNullRejects("1.5", 1);
    ToIntOrNullRejects(" 7", 0);
    assert Magnitude("-") == [] && Magnitude("+") == [];
    assert Magnitude("007") == "007";
    assert DecimalValue("007") == 7 by { assert "007"[..2] == "00"; assert "00"[..1] == "0"; }
    assert Magnitude("+7") == "7";
    assert Magnitude("-12") == "12";
    assert DecimalValue("12") == 12 by { assert "12"[..1] == "1"; }
  }

  /** The longest prefix of `s` made of decimal digits. */
  function DigitPrefix(s: string): (p: string)
    ensures |p| <= |s| && p == s[..|p|] && AllDigits(p)
    ensures |p| < |s| ==> !IsDigit(s[|p|])
  {
    if s != [] && IsDigit(s[0]) then [s[0]] + DigitPrefix(s[1..]) else []
  }

  /** `parseInt(s)` on text without leading blanks or a `0x` prefix: an
      optional sign and the digits that follow it, up to the first
      non-digit; `None` stands for `NaN`, when no digit follows. */
  function ParseIntJs(s: string): (r: Option<int>)
    ensures r.None? <==> DigitPrefix(Magnitude(s)) == []
    ensures r.Some? && (s == [] || s[0] != '-') ==> r.value >= 0
  {
    var digits := DigitPrefix(Magnitude(s));
    if digits == [] then None
    else if s[0] == '-' then Some(-(DecimalValue(digits) as int))
    else Some(DecimalValue(digits))
  }

  /** `parseInt` reads back the text of any integer, and ignores what
      follows the digits (a fraction, an exponent). */
  lemma ParseIntJsOfDecimal(i: int, rest: string)
    requires rest == [] || !IsDigit(rest[0])
    ensures ParseIntJs(IntToDecimal(i) + rest) == Some(i)
  {
    var n: nat := if i < 0 then -i else i;
    var digits := NatToDecimal(n);
    var s := IntToDecimal(i) + rest;
    MagnitudeOfDecimal(i, rest);
    DigitPrefixOf(digits, rest);
    NatToDecimalValue(n);
    assert s[0] == '-' <==> i < 0;
  }

  lemma MagnitudeOfDecimal(i: int, rest: string)
    ensures var s := IntToDecimal(i) + rest;
            |s| >= 1 && (s[0] == '-' <==> i < 0) &&
            Magnitude(s) == NatToDecimal(if i < 0 then -i else i) + rest
  {
    var n: nat := if i < 0 then -i else i;
    var digits := NatToDecimal(n);
    if i < 0 {
      assert IntToDecimal(i) + rest == "-" + (digits + rest);
    } else {
      assert IsDigit(digits[0]);
    }
  }

  lemma {:induction false} DigitPrefixOf(digits: string, rest: string)
    requires AllDigits(digits)
    requires rest == [] || !IsDigit(rest[0])
    ensures DigitPrefix(digits + rest) == digits
  {
    if digits != [] {
      assert (digits + rest)[1..] == digits[1..] + rest;
      DigitPrefixOf(digits[1..], rest);
      assert digits == [digits[0]] + digits[1..];
    } else {
      assert digits + rest == rest;
    }
  }
}
