/** What the parser reads from numbers that were not printed by it, and the characters that it prints. */
module WireReading {
  import opened WireFormat
  import opened WireNumbers
  import opened WireParser
  import opened WireRoundTrip
  import opened Words

  const UPPER_DIGITS := "0123456789ABCDEF"
  const LOWER_DIGITS := "0123456789abcdef"

  /** The text spells the number in this base, in capital or small digits, and with any leading zeros. */
  predicate Spells(text: string, base: nat, n: nat)
    requires 2 <= base <= 16
    decreases |text|
  {
    if text == "" then n == 0
    else
      var c := text[|text| - 1];
      (c == UPPER_DIGITS[n % base] || c == LOWER_DIGITS[n % base]) && Spells(text[..|text| - 1], base, n / base)
  }

  /** The character is no digit of the base. */
  predicate NoDigit(c: char, base: nat)
    requires 2 <= base <= 16
  {
    forall d :: 0 <= d < base ==> c != UPPER_DIGITS[d] && c != LOWER_DIGITS[d]
  }

  predicate Blank(s: string) {
    forall i :: 0 <= i < |s| ==> s[i] == ' ' || 9 <= s[i] as int <= 13
  }

  /** A number as the standard library reads it: blanks, a sign, 0x if hexadecimal, digits, and no digit behind. */
  predicate Readable(blanks: string, sign: string, prefix: string, digits: string, rest: string, base: nat, n: nat)
    requires 2 <= base <= 16
  {
    && Blank(blanks) && (sign == "" || sign == "+" || sign == "-")
    && (prefix == "" || (base == 16 && (prefix == "0x" || prefix == "0X")))
    && digits != "" && Spells(digits, base, n)
    && (rest != "" ==> NoDigit(rest[0], base))
    && (rest != "" && base == 16 && prefix == "" && digits == "0" ==> rest[0] != 'x' && rest[0] != 'X')
  }

  lemma {:induction false} TableDigits(d: nat)
    requires d < 16
    ensures DigitValue(UPPER_DIGITS[d]) == d == DigitValue(LOWER_DIGITS[d])
    ensures DigitChar(d) == LOWER_DIGITS[d]
  {
  }

  lemma {:induction false} ValueIsInTable(c: char)
    ensures DigitValue(c) < 16 ==> c == UPPER_DIGITS[DigitValue(c)] || c == LOWER_DIGITS[DigitValue(c)]
  {
  }

  lemma {:induction false} NoDigitHasNoValue(c: char, base: nat)
    requires 2 <= base <= 16 && NoDigit(c, base)
    ensures DigitValue(c) >= base
  {
    hide DigitValue;
    ValueIsInTable(c);
  }

  lemma {:induction false} SpellsEnd(text: string, base: nat, n: nat)
    requires 2 <= base <= 16 && text != "" && Spells(text, base, n)
    ensures text[|text| - 1] == UPPER_DIGITS[n % base] || text[|text| - 1] == LOWER_DIGITS[n % base]
    ensures Spells(text[..|text| - 1], base, n / base)
  {
  }

  /** Spelled digits are digits, and stand for the number. */
  lemma {:induction false} SpelledStandsFor(text: string, base: nat, n: nat)
    requires 2 <= base <= 16 && Spells(text, base, n)
    ensures AllDigits(text, base) && NumberOf(text, base) == n
    decreases |text|
  {
    if text == "" {
    } else {
      hide Spells, AllDigits, NumberOf, DigitValue, DigitChar;
      var front, c := text[..|text| - 1], text[|text| - 1];
      SpellsEnd(text, base, n);
      SpelledStandsFor(front, base, n / base);
      TableDigits(n % base);
      assert text == front + [c];
      OneMoreIsDigits(front, c, base);
      OneMoreDigit(front, c, base);
      DivideAndShift(n, base);
    }
  }

  /** The run of digits ends where something else stands. */
  lemma {:induction false} RunEnds(digits: string, rest: string, base: nat)
    requires base <= 16 && AllDigits(digits, base) && (rest != "" ==> DigitValue(rest[0]) >= base)
    ensures DigitRun(digits + rest, base) == digits
    decreases |digits|
  {
    hide DigitValue;
    if digits == "" {
      assert digits + rest == rest;
    } else {
      assert (digits + rest)[1..] == digits[1..] + rest;
      RunEnds(digits[1..], rest, base);
    }
  }

  lemma {:induction false} BlanksAreSkipped(blanks: string, s: string)
    requires Blank(blanks) && s != "" && !IsSpace(s[0])
    ensures SkipSpaces(blanks + s) == s
    decreases |blanks|
  {
    if blanks == "" {
      assert blanks + s == s;
    } else {
      assert (blanks + s)[1..] == blanks[1..] + s;
      BlanksAreSkipped(blanks[1..], s);
    }
  }

  lemma {:induction false} DigitsAreRead(prefix: string, digits: string, rest: string, base: nat, n: nat)
    requires 2 <= base <= 16 && Readable("", "", prefix, digits, rest, base, n)
    ensures ReadDigits(prefix + digits + rest, base) == Some(n)
  {
    var s := prefix + digits + rest;
    SpelledStandsFor(digits, base, n);
    if rest != "" {
      NoDigitHasNoValue(rest[0], base);
    }
    RunEnds(digits, rest, base);
    if prefix == "" {
      assert s == digits + rest;
      NoPrefixHere(digits, rest, base);
    } else {
      assert s[2..] == digits + rest;
    }
  }

  /** Digits alone do not look like a hexadecimal prefix. */
  lemma {:induction false} NoPrefixHere(digits: string, rest: string, base: nat)
    requires base <= 16 && AllDigits(digits, base) && digits != ""
    requires rest != "" && digits == "0" ==> base != 16 || (rest[0] != 'x' && rest[0] != 'X')
    ensures
      var s := digits + rest;
      !(base == 16 && |s| >= 2 && s[0] == '0' && (s[1] == 'x' || s[1] == 'X'))
  {
    if |digits| >= 2 {
      assert DigitValue(digits[1]) < base;
    } else {
      assert digits == [digits[0]];
    }
  }

  lemma {:induction false} FirstIsNoSign(prefix: string, digits: string, rest: string, base: nat, n: nat)
    requires 2 <= base <= 16 && Readable("", "", prefix, digits, rest, base, n)
    ensures
      var s := prefix + digits + rest;
      s != "" && !IsSpace(s[0]) && s[0] != '-' && s[0] != '+'
  {
    SpelledStandsFor(digits, base, n);
    assert DigitValue(digits[0]) < base;
  }

  /** Blanks, a sign, a prefix and what follows the digits do not matter to the magnitude. */
  lemma {:induction false} NumberIsRead(blanks: string, sign: string, prefix: string, digits: string, rest: string,
                                        base: nat, n: nat)
    requires 2 <= base <= 16 && Readable(blanks, sign, prefix, digits, rest, base, n)
    ensures ReadNumber(blanks + (sign + (prefix + digits + rest)), base) == (sign == "-", Some(n))
  {
    hide Spells, NoDigit, ReadDigits;
    var s := prefix + digits + rest;
    assert Readable("", "", prefix, digits, rest, base, n);
    DigitsAreRead(prefix, digits, rest, base, n);
    FirstIsNoSign(prefix, digits, rest, base, n);
    var t := sign + s;
    BlanksAreSkipped(blanks, t);
    if sign == "" {
      assert t == s;
    } else {
      assert t[1..] == s;
    }
  }

  /** A signed number of 64 bits is read whatever its spelling; any other throws. */
  lemma {:induction false} SignedIsRead(blanks: string, sign: string, digits: string, rest: string, n: nat)
    requires Readable(blanks, sign, "", digits, rest, 10, n)
    ensures
      var v: int := if sign == "-" then -(n as int) else n;
      Build("-" + (blanks + (sign + ("" + digits + rest)))) ==
      if -0x8000_0000_0000_0000 <= v <= 0x7fff_ffff_ffff_ffff then Done(Signed(v)) else Thrown
  {
    hide ReadNumber, Readable;
    var s := blanks + (sign + ("" + digits + rest));
    NumberIsRead(blanks, sign, "", digits, rest, 10, n);
    assert ("-" + s)[1..] == s && s != "" by { NotEmpty(blanks, sign, "", digits, rest, 10, n); }
  }

  /** An unsigned number of 64 bits is read whatever its spelling, and wraps around behind a minus; any other throws. */
  lemma {:induction false} UnsignedIsRead(blanks: string, sign: string, digits: string, rest: string, n: nat)
    requires Readable(blanks, sign, "", digits, rest, 10, n)
    ensures
      Build("+" + (blanks + (sign + ("" + digits + rest)))) ==
      if n >= 0x1_0000_0000_0000_0000 then Thrown
      else if sign == "-" && n > 0 then Done(Unsigned(0x1_0000_0000_0000_0000 - n))
      else Done(Unsigned(n))
  {
    hide ReadNumber, Readable;
    var s := blanks + (sign + ("" + digits + rest));
    NumberIsRead(blanks, sign, "", digits, rest, 10, n);
    assert ("+" + s)[1..] == s && s != "" by { NotEmpty(blanks, sign, "", digits, rest, 10, n); }
  }

  /** An address is read whatever its spelling, capital digits and leading zeros included; too large a one is cut. */
  lemma {:induction false} AddressIsRead(blanks: string, sign: string, prefix: string, digits: string, rest: string, n: nat)
    requires Readable(blanks, sign, prefix, digits, rest, 16, n)
    ensures
      Build("*" + (blanks + (sign + (prefix + digits + rest)))) ==
      if n >= 0x1_0000_0000_0000_0000 then Done(Address(0xffff_ffff_ffff_ffff))
      else if sign == "-" && n > 0 then Done(Address(0x1_0000_0000_0000_0000 - n))
      else Done(Address(n))
  {
    hide ReadNumber, Readable;
    var s := blanks + (sign + (prefix + digits + rest));
    NumberIsRead(blanks, sign, prefix, digits, rest, 16, n);
    assert ("*" + s)[1..] == s && s != "" by { NotEmpty(blanks, sign, prefix, digits, rest, 16, n); }
  }

  lemma {:induction false} NotEmpty(blanks: string, sign: string, prefix: string, digits: string, rest: string,
                                    base: nat, n: nat)
    requires 2 <= base <= 16 && Readable(blanks, sign, prefix, digits, rest, base, n)
    ensures blanks + (sign + (prefix + digits + rest)) != ""
  {
  }

  /** Where no digit follows blanks and a sign, integers throw and an address is 0. */
  lemma {:induction false} NothingIsRead(blanks: string, sign: string, rest: string)
    requires Blank(blanks) && (sign == "" || sign == "+" || sign == "-")
    requires rest != "" && NoDigit(rest[0], 16) && !Blank([rest[0]]) && rest[0] != '+' && rest[0] != '-'
    ensures Build("-" + (blanks + (sign + rest))) == Build("+" + (blanks + (sign + rest))) == Thrown
    ensures Build("*" + (blanks + (sign + rest))) == Done(Address(0))
  {
    var s, t := blanks + (sign + rest), sign + rest;
    assert !IsSpace(rest[0]) by { assert [rest[0]][0] == rest[0]; }
    assert t[0] == rest[0] || t[0] == '+' || t[0] == '-';
    BlanksAreSkipped(blanks, t);
    NoDigitHasNoValue(rest[0], 16);
    RunEnds("", rest, 10);
    RunEnds("", rest, 16);
    assert "" + rest == rest && t[|sign|..] == rest;
    assert ("-" + s)[1..] == s && ("+" + s)[1..] == s && ("*" + s)[1..] == s;
  }

  // ---------- Elements of an array ----------

  function Commas(texts: seq<string>): string {
    if texts == [] then ""
    else if |texts| == 1 then texts[0]
    else texts[0] + "," + Commas(texts[1..])
  }

  /** Plain texts that parse on their own parse as the elements of an array, in order. */
  lemma {:induction false} PlainElementsAreRead(text: string, pos: nat, done: seq<Value>, texts: seq<string>, vs: seq<Value>)
    requires 2 <= pos && texts != [] && |texts| == |vs|
    requires forall i :: 0 <= i < |texts| ==> texts[i] != "" && AllPlain(texts[i]) && Element(texts[i]) == Done(vs[i])
    requires At(text, pos, Commas(texts) + "]")
    ensures pos < |text| && Scalars(text, pos, false, "", done) == Done(Array(done + vs))
    decreases |texts|
  {
    hide *;
    var first, others := texts[0], texts[1..];
    var more := Commas(others) + "]";
    var post := if others == [] then "]" else "," + more;
    CommasSplit(texts);
    PlainScalar(first, text, pos, "", done, post);
    assert "" + first == first;
    var next := pos + |first|;
    NextIs(text, next, post);
    AfterScalar(text, next, first, done, Done(vs[0]));
    if others == [] {
      assert done + [vs[0]] == done + vs;
    } else {
      MoveOne(text, next, ',', more);
      NextIs(text, next + 1, more);
      PlainElementsAreRead(text, next + 1, done + [vs[0]], others, vs[1..]);
      assert done + [vs[0]] + vs[1..] == done + vs;
    }
  }

  lemma {:induction false} CommasSplit(texts: seq<string>)
    requires texts != []
    ensures
      var more := Commas(texts[1..]) + "]";
      var post := if texts[1..] == [] then "]" else "," + more;
      Commas(texts) + "]" == texts[0] + post && EndsElement(post) && more != ""
    ensures AD_SEPERATOR == ',' && AD_AS_RIGHT == ']'
  {
  }

  lemma {:induction false} PlainArrayIsRead(texts: seq<string>, vs: seq<Value>)
    requires texts != [] && |texts| == |vs|
    requires forall i :: 0 <= i < |texts| ==> texts[i] != "" && AllPlain(texts[i]) && Element(texts[i]) == Done(vs[i])
    ensures Parse("@[" + (Commas(texts) + "]")) == Done(Array(vs))
  {
    hide Scalars, Element, Elements, Build;
    var text := "@[" + (Commas(texts) + "]");
    assert text[2..] == Commas(texts) + "]";
    PlainElementsAreRead(text, 2, [], texts, vs);
    assert [] + vs == vs;
    ParseOfArray(text);
    ElementsStep(text, 2, []);
  }

  /** Addresses in any spelling parse as the elements of an array: what the game hands back of two hives. */
  lemma {:induction false} AddressesAreRead(spellings: seq<string>, ps: seq<U64>)
    requires spellings != [] && |spellings| == |ps|
    requires forall i :: 0 <= i < |ps| ==> spellings[i] != "" && Spells(spellings[i], 16, ps[i])
    ensures
      var texts := seq(|ps|, i requires 0 <= i < |ps| => "*" + spellings[i]);
      var vs := seq(|ps|, i requires 0 <= i < |ps| => Address(ps[i]));
      Parse("@[" + (Commas(texts) + "]")) == Done(Array(vs))
  {
    var texts := seq(|ps|, i requires 0 <= i < |ps| => "*" + spellings[i]);
    var vs := seq(|ps|, i requires 0 <= i < |ps| => Address(ps[i]));
    forall i | 0 <= i < |ps| ensures texts[i] != "" && AllPlain(texts[i]) && Element(texts[i]) == Done(vs[i]) {
      SpelledElement(spellings[i], ps[i]);
    }
    PlainArrayIsRead(texts, vs);
  }

  lemma {:induction false} SpelledElement(digits: string, p: U64)
    requires digits != "" && Spells(digits, 16, p)
    ensures AllPlain("*" + digits) && Element("*" + digits) == Done(Address(p)) && Build("*" + digits) == Done(Address(p))
  {
    hide Build, Element, Spells, DigitValue;
    AddressIsRead("", "", "", digits, "", p);
    assert "" + ("" + ("" + digits + "")) == digits;
    ElementIsBuilt("*" + digits);
    SpelledStandsFor(digits, 16, p);
    forall i | 0 <= i < |digits| ensures Plain(digits[i]) {
      DigitsHaveNoMeaning(digits[i]);
    }
    TaggedDigitsArePlain('*', digits);
  }

  lemma {:induction false} DigitsHaveNoMeaning(c: char)
    ensures DigitValue(c) < 16 ==> Plain(c)
  {
  }

  // ---------- The characters printed ----------

  /** Printed digits are small, and the first is no zero unless it is the only one. */
  lemma {:induction false} DigitsAreSmall(n: nat, base: nat)
    requires 2 <= base <= 16
    ensures Spells(Digits(n, base), base, n) && AllSmall(Digits(n, base))
    ensures |Digits(n, base)| == 1 || Digits(n, base)[0] != '0'
    decreases n
  {
    hide Spells, AllSmall;
    DigitsEnd(n, base);
    if n < base {
      OneDigit(n, base);
    } else {
      QuotientIsSmaller(n, base);
      DigitsAreSmall(n / base, base);
      TopDigit(n, base);
      OneMoreSmall(Digits(n / base, base), base, n);
    }
  }

  predicate AllSmall(digits: string) {
    forall i :: 0 <= i < |digits| ==> digits[i] in LOWER_DIGITS
  }

  lemma {:induction false} DigitsEnd(n: nat, base: nat)
    requires 2 <= base <= 16
    ensures Digits(n, base) == if n < base then [LOWER_DIGITS[n]] else Digits(n / base, base) + [LOWER_DIGITS[n % base]]
  {
    TableDigits(n % base);
    if n < base {
      TableDigits(n);
    }
  }

  lemma {:induction false} OneDigit(n: nat, base: nat)
    requires n < base && 2 <= base <= 16
    ensures Spells([LOWER_DIGITS[n]], base, n) && AllSmall([LOWER_DIGITS[n]])
  {
    assert n % base == n && n / base == 0 && [LOWER_DIGITS[n]][..0] == "";
  }

  lemma {:induction false} OneMoreSmall(front: string, base: nat, n: nat)
    requires 2 <= base <= 16 && Spells(front, base, n / base) && AllSmall(front)
    ensures Spells(front + [LOWER_DIGITS[n % base]], base, n) && AllSmall(front + [LOWER_DIGITS[n % base]])
  {
    var digits := front + [LOWER_DIGITS[n % base]];
    assert digits[..|digits| - 1] == front;
  }

  lemma {:induction false} TopDigit(n: nat, base: nat)
    requires 2 <= base <= 16 && 0 < n
    ensures Digits(n, base)[0] != '0'
    decreases n
  {
    if n < base {
    } else {
      QuotientIsSmaller(n, base);
      assert 0 < n / base;
      TopDigit(n / base, base);
    }
  }

  /** The tags and marks of the text that the game reads. */
  lemma {:induction false} PrintedCharacters(s: string, n: I64, u: U64, p: U64)
    ensures Print(Str(s)) == "$\U{1F}" + s + "\U{1F}"
    ensures Print(Signed(n)) == "-" + if n < 0 then "-" + Digits(-(n as int), 10) else Digits(n, 10)
    ensures Print(Unsigned(u)) == "+" + Digits(u, 10)
    ensures Print(Address(p)) == "*" + Digits(p, 16)
    ensures Print(Array([])) == "@[]" && Print(Null) == ""
  {
    assert Print(Array([])) == "@[" + "]";
  }

  /** A printed array: its tag, brackets, and the elements with commas between them. */
  lemma {:induction false} PrintedArray(items: seq<Value>)
    requires AllLegible(items)
    ensures Print(Array(items)) == "@[" + Commas(seq(|items|, i requires 0 <= i < |items| => Print(items[i]))) + "]"
  {
    ArrayText(items);
    JoinIsCommas(items);
  }

  lemma {:induction false} JoinIsCommas(items: seq<Value>)
    ensures Join(items) == Commas(seq(|items|, i requires 0 <= i < |items| => Print(items[i])))
    decreases |items|
  {
    hide Print;
    var texts := seq(|items|, i requires 0 <= i < |items| => Print(items[i]));
    if |items| <= 1 {
    } else {
      var others := items[1..];
      JoinIsCommas(others);
      assert texts[1..] == seq(|others|, i requires 0 <= i < |others| => Print(others[i]));
    }
  }
}
