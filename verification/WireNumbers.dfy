/** Reading numbers back: the parts of std::stoll, std::stoull and hexadecimal stream input that the parser uses. */
module WireNumbers {
  import opened WireFormat
  import opened Words

  const I64_MIN: int := -0x8000_0000_0000_0000
  const I64_MAX: int := 0x7fff_ffff_ffff_ffff

  predicate IsSpace(c: char) {
    c in " \t\n\r\U{0B}\U{0C}"
  }

  function SkipSpaces(s: string): string {
    if s != "" && IsSpace(s[0]) then SkipSpaces(s[1..]) else s
  }

  /** The value of a digit character, 16 when it is none. */
  function DigitValue(c: char): nat {
    if '0' <= c <= '9' then c as int - '0' as int
    else if 'a' <= c <= 'f' then c as int - 'a' as int + 10
    else if 'A' <= c <= 'F' then c as int - 'A' as int + 10
    else 16
  }

  /** The longest run of digits at the front. */
  function DigitRun(s: string, base: nat): string
    requires base <= 16
  {
    if s != "" && DigitValue(s[0]) < base then [s[0]] + DigitRun(s[1..], base) else ""
  }

  /** A number with one more digit behind it. */
  function Shifted(high: nat, base: nat, digit: nat): nat {
    high * base + digit
  }

  function NumberOf(digits: string, base: nat): nat {
    if digits == "" then 0
    else Shifted(NumberOf(digits[..|digits| - 1], base), base, DigitValue(digits[|digits| - 1]))
  }

  /** The digits behind the sign; hexadecimal input may carry a 0x. None when there is no digit. */
  function ReadDigits(s: string, base: nat): Option<nat>
    requires base <= 16
  {
    var t := if base == 16 && |s| >= 2 && s[0] == '0' && (s[1] == 'x' || s[1] == 'X') then s[2..] else s;
    var run := DigitRun(t, base);
    if run == "" then None else Some(NumberOf(run, base))
  }

  /** Spaces, an optional sign and digits: whether there was a minus, and the magnitude. */
  function ReadNumber(s: string, base: nat): (bool, Option<nat>)
    requires base <= 16
  {
    var t := SkipSpaces(s);
    if t != "" && (t[0] == '-' || t[0] == '+') then (t[0] == '-', ReadDigits(t[1..], base))
    else (false, ReadDigits(t, base))
  }

  predicate AllDigits(s: string, base: nat) {
    forall i :: 0 <= i < |s| ==> DigitValue(s[i]) < base
  }

  lemma {:induction false} DigitCharValue(d: nat)
    requires d < 16
    ensures DigitValue(DigitChar(d)) == d
  {
  }

  lemma {:induction false} DivideAndShift(n: nat, base: nat)
    requires 0 < base
    ensures Shifted(n / base, base, n % base) == n
  {
  }

  lemma {:induction false} OneMoreDigit(digits: string, c: char, base: nat)
    ensures NumberOf(digits + [c], base) == Shifted(NumberOf(digits, base), base, DigitValue(c))
  {
    assert (digits + [c])[..|digits|] == digits;
  }

  lemma {:induction false} QuotientIsSmaller(n: nat, base: nat)
    requires 2 <= base <= n
    ensures n / base < n && n % base < base
  {
  }

  lemma {:induction false} OneMoreIsDigits(digits: string, c: char, base: nat)
    requires AllDigits(digits, base) && DigitValue(c) < base
    ensures AllDigits(digits + [c], base)
  {
  }

  /** Printed digits are digits, and stand for the number. */
  lemma {:induction false} DigitsStandFor(n: nat, base: nat)
    requires 2 <= base <= 16
    ensures AllDigits(Digits(n, base), base) && NumberOf(Digits(n, base), base) == n
    decreases n
  {
    hide DigitValue, DigitChar, Shifted, AllDigits, NumberOf;
    if n < base {
      DigitCharValue(n);
      SingleDigit(DigitChar(n), base);
    } else {
      QuotientIsSmaller(n, base);
      DigitsStandFor(n / base, base);
      DigitCharValue(n % base);
      OneMoreIsDigits(Digits(n / base, base), DigitChar(n % base), base);
      OneMoreDigit(Digits(n / base, base), DigitChar(n % base), base);
      DivideAndShift(n, base);
    }
  }

  lemma {:induction false} SingleDigit(c: char, base: nat)
    requires DigitValue(c) < base
    ensures AllDigits([c], base) && NumberOf([c], base) == DigitValue(c)
  {
    assert [c][..0] == "";
  }

  lemma {:induction false} RunOfDigits(s: string, base: nat)
    requires base <= 16
    requires AllDigits(s, base)
    ensures DigitRun(s, base) == s
  {
    if s == "" {
    } else {
      RunOfDigits(s[1..], base);
    }
  }

  /** Printed digits read back as the number they were printed from. */
  lemma {:induction false} DigitsReadBack(n: nat, base: nat)
    requires 2 <= base <= 16
    ensures ReadNumber(Digits(n, base), base) == (false, Some(n))
    ensures ReadNumber("-" + Digits(n, base), base) == (true, Some(n))
  {
    hide NumberOf, DigitRun, Digits, DigitValue, AllDigits;
    var d := Digits(n, base);
    DigitsStandFor(n, base);
    RunOfDigits(d, base);
    NoPrefix(d, base);
    assert ReadDigits(d, base) == Some(n);
    hide ReadDigits;
    var s := "-" + d;
    assert SkipSpaces(s) == s && s[1..] == d;
  }

  /** A digit is neither space, sign nor the x of a hexadecimal prefix. */
  lemma {:induction false} NoPrefix(s: string, base: nat)
    requires base <= 16 && AllDigits(s, base) && s != ""
    ensures SkipSpaces(s) == s && s[0] != '-' && s[0] != '+'
    ensures |s| >= 2 ==> s[1] != 'x' && s[1] != 'X'
  {
    assert DigitValue(s[0]) < base;
    if |s| >= 2 {
      assert DigitValue(s[1]) < base;
    }
  }
}
