/** Numbers as text: how they are printed, and what `strtoull` and `std::stoull` make of a text. */
module NumberText {
  import opened CStrings
  import opened PluginTypes

  const DIGITS := "0123456789abcdef"

  // ---- printing (the conversions `%u`, `%lu` and `%lx`) ----

  function Numeral(n: nat, base: nat): (s: CString)
    requires 2 <= base <= 16
    ensures s != ""
    decreases n
  {
    if n < base then [DIGITS[n]] else QuotientSmaller(n, base); Numeral(n / base, base) + [DIGITS[n % base]]
  }

  lemma QuotientSmaller(n: nat, base: nat)
    requires 2 <= base <= n
    ensures n / base < n && n == base * (n / base) + n % base
  {
    HalfAtMost(n / base, base, n);
  }

  lemma HalfAtMost(q: nat, base: nat, n: nat)
    requires 2 <= base && base * q <= n && 0 < n
    ensures q < n
  {
    assert base * q == 2 * q + (base - 2) * q;
    assert (base - 2) * q >= 0;
  }

  function Decimal(n: nat): CString {
    Numeral(n, 10)
  }

  function Hexadecimal(n: nat): CString {
    Numeral(n, 16)
  }

  // ---- digits ----

  /** The value of a digit in either case, and 36 for any other character. */
  function DigitValue(c: char): nat {
    if '0' <= c <= '9' then c as int - '0' as int
    else if 'a' <= c <= 'z' then c as int - 'a' as int + 10
    else if 'A' <= c <= 'Z' then c as int - 'A' as int + 10
    else 36
  }

  predicate IsDigit(c: char, base: nat) {
    DigitValue(c) < base
  }

  function DigitsLength(s: string, base: nat): (n: nat)
    ensures n <= |s|
  {
    if s == "" || !IsDigit(s[0], base) then 0 else 1 + DigitsLength(s[1..], base)
  }

  function Magnitude(s: string, base: nat): nat {
    if s == "" then 0 else base * Magnitude(s[..|s| - 1], base) + DigitValue(s[|s| - 1])
  }

  function Power(base: nat, d: nat): (p: nat)
    requires base > 0
    ensures p > 0
  {
    if d == 0 then 1 else base * Power(base, d - 1)
  }

  lemma DigitOf(d: nat)
    requires d < 16
    ensures DigitValue(DIGITS[d]) == d
  {
  }

  lemma {:induction false} NumeralMagnitude(n: nat, base: nat)
    requires 2 <= base <= 16
    ensures Magnitude(Numeral(n, base), base) == n
    ensures forall i :: 0 <= i < |Numeral(n, base)| ==> IsDigit(Numeral(n, base)[i], base)
    decreases n
  {
    hide DigitValue;
    var s, last := Numeral(n, base), if n < base then n else n % base;
    DigitOf(last);
    if n < base {
      assert s[..0] == "";
    } else {
      QuotientSmaller(n, base);
      NumeralMagnitude(n / base, base);
      assert s[..|s| - 1] == Numeral(n / base, base);
    }
  }

  /** Different numbers are printed differently. */
  lemma DecimalInjective(m: nat, n: nat)
    ensures Decimal(m) == Decimal(n) <==> m == n
  {
    NumeralMagnitude(m, 10);
    NumeralMagnitude(n, 10);
  }

  lemma NumeralStep(n: nat, base: nat)
    requires 2 <= base <= 16
    ensures |Numeral(n, base)| == if n < base then 1 else |Numeral(n / base, base)| + 1
  {
  }

  /** A number has at most `d` digits exactly when it is below the base to the `d`. */
  lemma {:induction false} NumeralLength(n: nat, base: nat, d: nat)
    requires 2 <= base <= 16 && 0 < d
    ensures |Numeral(n, base)| <= d <==> n < Power(base, d)
  {
    hide Numeral;
    NumeralStep(n, base);
    var p := Power(base, d - 1);
    if d == 1 {
      assert base * p == base;
    } else if n < base {
      assert base * p >= base;
    } else {
      QuotientSmaller(n, base);
      NumeralLength(n / base, base, d - 1);
      QuotientBelow(n, base, p);
    }
  }

  lemma QuotientBelow(n: nat, base: nat, p: nat)
    requires 0 < base
    ensures n / base < p <==> n < base * p
  {
    var q, r := n / base, n % base;
    assert n == base * q + r;
    assert q < p ==> base * q + base <= base * p by {
      if q < p {
        assert base * (q + 1) <= base * p;
      }
    }
    assert q >= p ==> base * q >= base * p;
  }

  lemma {:induction false} AllDigits(s: string, rest: string, base: nat)
    requires forall i :: 0 <= i < |s| ==> IsDigit(s[i], base)
    requires rest == "" || !IsDigit(rest[0], base)
    ensures DigitsLength(s + rest, base) == |s|
  {
    if s != "" {
      assert (s + rest)[1..] == s[1..] + rest;
      AllDigits(s[1..], rest, base);
    }
  }

  /** A text of `d` digits is below the base to the `d`. */
  lemma {:induction false} MagnitudeBelow(s: string, base: nat)
    requires 0 < base && forall i :: 0 <= i < |s| ==> IsDigit(s[i], base)
    ensures Magnitude(s, base) < Power(base, |s|)
  {
    if s != "" {
      var m, p := Magnitude(s[..|s| - 1], base), Power(base, |s| - 1);
      MagnitudeBelow(s[..|s| - 1], base);
      Horner(base, m, p, DigitValue(s[|s| - 1]));
    }
  }

  lemma Horner(base: nat, m: nat, p: nat, digit: nat)
    requires m < p && digit < base
    ensures base * m + digit < base * p
  {
    assert base * (m + 1) <= base * p;
  }

  // ---- reading ----

  /** A tab, line feed, vertical tab, form feed or carriage return, or a blank. */
  predicate IsSpace(c: char) {
    c == ' ' || '\t' <= c <= '\r'
  }

  function SkipSpaces(s: string): string {
    if s != "" && IsSpace(s[0]) then SkipSpaces(s[1..]) else s
  }

  function SkipSign(s: string): string {
    if s != "" && (s[0] == '+' || s[0] == '-') then s[1..] else s
  }

  /** The prefix counts only when a digit follows it. */
  function SkipPrefix(s: string, base: nat): string {
    if base == 16 && |s| >= 3 && s[0] == '0' && (s[1] == 'x' || s[1] == 'X') && IsDigit(s[2], 16) then s[2..] else s
  }

  datatype Conversion = NoDigits | TooBig | Number(value: uint64)

  /** The conversion behind `strtoull`.  A minus sign negates modulo 2^64. */
  function Convert(s: string, base: nat): Conversion {
    var signed := SkipSpaces(s);
    var digits := SkipPrefix(SkipSign(signed), base);
    var n := DigitsLength(digits, base);
    var magnitude := Magnitude(digits[..n], base);
    if n == 0 then NoDigits
    else if magnitude > UINT64_MAX then TooBig
    else Number(if signed[0] == '-' then ToUint64(UINT64_MAX + 1 - magnitude) else magnitude)
  }

  /** `strtoull` itself, which saturates and reports nothing. */
  function Strtoull(s: string, base: nat): uint64 {
    match Convert(s, base)
    case NoDigits => 0
    case TooBig => UINT64_MAX
    case Number(value) => value
  }

  lemma ConvertDigits(s: string, base: nat)
    requires base <= 16 && s != "" && IsDigit(s[0], base)
    requires SkipPrefix(s, base) == s
    ensures var m := Magnitude(s[..DigitsLength(s, base)], base);
            Convert(s, base) == if m > UINT64_MAX then TooBig else Number(m)
  {
    assert SkipSpaces(s) == s && SkipSign(s) == s;
  }

  /** A printed number is read as itself, and as too big from 2^64 on. */
  lemma ReadsDecimal(n: nat)
    ensures Convert(Decimal(n), 10) == if n > UINT64_MAX then TooBig else Number(n)
  {
    var s := Decimal(n);
    NumeralMagnitude(n, 10);
    AllDigits(s, "", 10);
    assert s + "" == s && s[..|s|] == s;
    ConvertDigits(s, 10);
  }

  lemma ReadsHexadecimal(n: nat)
    ensures Convert(Hexadecimal(n), 16) == Convert("0x" + Hexadecimal(n), 16) == Convert("0X" + Hexadecimal(n), 16)
    ensures Convert(Hexadecimal(n), 16) == if n > UINT64_MAX then TooBig else Number(n)
    ensures Strtoull(Hexadecimal(n), 16) == if n > UINT64_MAX then UINT64_MAX else n
  {
    var s := Hexadecimal(n);
    NumeralMagnitude(n, 16);
    AllDigits(s, "", 16);
    assert s + "" == s && s[..|s|] == s;
    assert !IsDigit('x', 16) && !IsDigit('X', 16);
    ConvertDigits(s, 16);
    PrefixSkipped("0x", s);
    PrefixSkipped("0X", s);
  }

  lemma PrefixSkipped(prefix: string, s: string)
    requires prefix == "0x" || prefix == "0X"
    requires s != "" && IsDigit(s[0], 16) && SkipPrefix(s, 16) == s
    ensures Convert(prefix + s, 16) == Convert(s, 16)
  {
    hide Magnitude, DigitsLength;
    var t := prefix + s;
    assert t[2..] == s && SkipPrefix(t, 16) == s;
    assert SkipSpaces(t) == t && SkipSign(t) == t && SkipSpaces(s) == s && SkipSign(s) == s;
  }

  /** The characters that may stand in front: tab, line feed, vertical tab, form feed, carriage return, blank. */
  predicate AllBlank(s: string) {
    forall i :: 0 <= i < |s| ==> s[i] == ' ' || 9 <= s[i] as int <= 13
  }

  lemma {:induction false} BlanksSkipped(blanks: string, s: string)
    requires AllBlank(blanks) && (s == "" || !IsSpace(s[0]))
    ensures SkipSpaces(blanks + s) == s
  {
    if blanks != "" {
      assert (blanks + s)[1..] == blanks[1..] + s;
      BlanksSkipped(blanks[1..], s);
    } else {
      assert blanks + s == s;
    }
  }

  /** Blanks and a sign in front: they are skipped, and a minus sign negates modulo 2^64. */
  lemma ReadsSigned(blanks: string, n: nat)
    requires AllBlank(blanks)
    ensures Convert(blanks + Decimal(n), 10) == Convert(blanks + ("+" + Decimal(n)), 10) ==
            if n > UINT64_MAX then TooBig else Number(n)
    ensures Convert(blanks + ("-" + Decimal(n)), 10) ==
            if n > UINT64_MAX then TooBig else Number(if n == 0 then 0 else 0x1_0000_0000_0000_0000 - n)
  {
    hide Convert, Numeral;
    ReadsAfterSign(blanks, "", n);
    ReadsAfterSign(blanks, "+", n);
    ReadsAfterSign(blanks, "-", n);
    assert "" + Decimal(n) == Decimal(n);
    if n <= UINT64_MAX {
      Remainder(UINT64_MAX + 1 - n, UINT64_MAX + 1, if n == 0 then 1 else 0, if n == 0 then 0 else UINT64_MAX + 1 - n);
    }
  }

  lemma ReadsAfterSign(blanks: string, sign: string, n: nat)
    requires AllBlank(blanks) && (sign == "" || sign == "+" || sign == "-")
    ensures Convert(blanks + (sign + Decimal(n)), 10) ==
            if n > UINT64_MAX then TooBig else Number(if sign == "-" then ToUint64(UINT64_MAX + 1 - n) else n)
  {
    hide Numeral, Magnitude, ToUint64;
    var s := Decimal(n);
    NumeralMagnitude(n, 10);
    AllDigits(s, "", 10);
    assert s + "" == s && s[..|s|] == s && (sign + s)[|sign|..] == s;
    BlanksSkipped(blanks, sign + s);
    assert SkipSign(sign + s) == s && SkipPrefix(s, 10) == s;
  }

  /** A text that starts with anything but a blank, a sign or a digit is no number. */
  lemma ReadsNothing(s: string)
    requires s != "" && !AllBlank(s[..1]) && s[0] != '+' && s[0] != '-'
    ensures !('0' <= s[0] <= '9') ==> Convert(s, 10) == NoDigits
    ensures !('0' <= s[0] <= '9') && !('a' <= s[0] <= 'f') && !('A' <= s[0] <= 'F') ==>
              Convert(s, 16) == NoDigits && Strtoull(s, 16) == 0
  {
    assert !IsSpace(s[0]) by {
      assert s[..1][0] == s[0];
    }
  }

  /** The letters of a hexadecimal number may be capital. */
  function Capital(c: char): char {
    if 'a' <= c <= 'f' then c - 32 as char else c
  }

  lemma CapitalDigits(c: char)
    ensures IsDigit(c, 16) ==> DigitValue(Capital(c)) == DigitValue(c)
  {
  }

  /** Read as a decimal, the text of a 64-bit hexadecimal number is a number exactly when it does not begin with a
      letter; with the prefix it always is one, namely 0. */
  lemma HexadecimalAsDecimalIff(n: uint64)
    ensures Convert(Hexadecimal(n), 10).Number? <==> '0' <= Hexadecimal(n)[0] <= '9'
    ensures Convert(Hexadecimal(n), 10).NoDigits? <==> !('0' <= Hexadecimal(n)[0] <= '9')
    ensures Convert("0x" + Hexadecimal(n), 10) == Number(0)
  {
    hide Numeral, Magnitude;
    var s := Hexadecimal(n);
    NumeralMagnitude(n, 16);
    HexadecimalLength(n);
    if IsDigit(s[0], 10) {
      ShortDecimalsFit(s);
      ConvertDigits(s, 10);
    } else {
      assert SkipSpaces(s) == s && SkipSign(s) == s && SkipPrefix(s, 10) == s;
    }
    PrefixIsZero(s);
  }

  lemma ShortDecimalsFit(s: string)
    requires |s| <= 16
    ensures Magnitude(s[..DigitsLength(s, 10)], 10) <= UINT64_MAX
  {
    var k := DigitsLength(s, 10);
    DigitsAreDigits(s, 10);
    MagnitudeBelow(s[..k], 10);
    PowerGrows(10, k, 16);
    PowersUsed();
  }

  lemma PrefixIsZero(s: string)
    ensures Convert("0x" + s, 10) == Number(0)
  {
    var t := "0x" + s;
    AllDigits("0", "x" + s, 10);
    assert t == "0" + ("x" + s) && t[..1] == "0" && "0"[..0] == "";
    ConvertDigits(t, 10);
    assert Magnitude("0", 10) == 0;
  }

  lemma {:induction false} DigitsAreDigits(s: string, base: nat)
    ensures forall i :: 0 <= i < DigitsLength(s, base) ==> IsDigit(s[i], base)
  {
    if s != "" && IsDigit(s[0], base) {
      DigitsAreDigits(s[1..], base);
      assert forall i :: 0 < i < |s| ==> s[i] == s[1..][i - 1];
    }
  }

  lemma HexadecimalLength(n: uint64)
    ensures |Hexadecimal(n)| <= 16
  {
    PowersUsed();
    NumeralLength(n, 16, 16);
  }

  lemma {:induction false} PowerGrows(base: nat, d: nat, e: nat)
    requires 0 < base && d <= e
    ensures Power(base, d) <= Power(base, e)
    decreases e - d
  {
    if d < e {
      PowerGrows(base, d, e - 1);
      assert base * Power(base, e - 1) >= Power(base, e - 1);
    }
  }

  lemma PowersUsed()
    ensures Power(10, 9) == 1_000_000_000 && Power(10, 10) == 10_000_000_000
    ensures Power(10, 16) == 10_000_000_000_000_000
    ensures Power(16, 16) == UINT64_MAX + 1
  {
    assert Power(10, 4) == 10_000 && Power(10, 8) == 100_000_000 && Power(10, 12) == 1_000_000_000_000;
    assert Power(16, 4) == 0x1_0000 && Power(16, 8) == 0x1_0000_0000 && Power(16, 12) == 0x1_0000_0000_0000;
  }
}
