/** The numbers that JavaScript reads from the parts of an id
    (sections 7.1.4.1 and 19.2.5 of ECMA-262), as far as they are integers. */
module JsNumbers {
  import opened Options
  import opened Decimals

  // White space and line terminators.
  predicate Blank(c: char) {
    || '\U{0009}' <= c <= '\U{000D}' || c == ' ' || c == '\U{00A0}' || c == '\U{1680}'
    || '\U{2000}' <= c <= '\U{200A}' || c == '\U{2028}' || c == '\U{2029}' || c == '\U{202F}'
    || c == '\U{205F}' || c == '\U{3000}' || c == '\U{FEFF}'
  }

  function TrimLeft(s: string): string {
    if s != "" && Blank(s[0]) then TrimLeft(s[1..]) else s
  }

  function TrimRight(s: string): string {
    if s != "" && Blank(s[|s| - 1]) then TrimRight(s[..|s| - 1]) else s
  }

  function DigitValue(c: char): nat {
    if '0' <= c <= '9' then c as int - '0' as int
    else if 'a' <= c <= 'z' then c as int - 'a' as int + 10
    else if 'A' <= c <= 'Z' then c as int - 'A' as int + 10
    else 36
  }

  function ValueIn(radix: nat, s: string): nat {
    if s == "" then 0 else radix * ValueIn(radix, s[..|s| - 1]) + DigitValue(s[|s| - 1])
  }

  // The leading digits.
  function DigitsIn(radix: nat, s: string): (digits: string)
    ensures digits <= s && forall i :: 0 <= i < |digits| ==> DigitValue(digits[i]) < radix
    ensures |digits| < |s| ==> DigitValue(s[|digits|]) >= radix
  {
    if s == "" || DigitValue(s[0]) >= radix then "" else [s[0]] + DigitsIn(radix, s[1..])
  }

  function Signed(s: string): (int, string) {
    if s != "" && s[0] == '-' then (-1, s[1..])
    else if s != "" && s[0] == '+' then (1, s[1..])
    else (1, s)
  }

  predicate HasPrefix(s: string, lower: char, upper: char) {
    |s| >= 2 && s[0] == '0' && (s[1] == lower || s[1] == upper)
  }

  // parseInt: the leading digits after blanks, a sign and perhaps a hexadecimal prefix.
  function ParseInt(s: string): Option<int> {
    var (sign, t) := Signed(TrimLeft(s));
    var (radix, rest) := if HasPrefix(t, 'x', 'X') then (16, t[2..]) else (10, t);
    var digits := DigitsIn(radix, rest);
    if digits == "" then None else Some(sign * ValueIn(radix, digits))
  }

  // A string of nothing but digits.
  function Whole(radix: nat, s: string): Option<int> {
    if s != "" && DigitsIn(radix, s) == s then Some(ValueIn(radix, s)) else None
  }

  function Pow10(e: nat): nat {
    if e == 0 then 1 else 10 * Pow10(e - 1)
  }

  // A numeral times a power of ten, if that is an integer.
  function Scaled(m: int, e: int): Option<int> {
    if e >= 0 then Some(m * Pow10(e))
    else if Pow10(-e) != 0 && m % Pow10(-e) == 0 then Some(m / Pow10(-e))
    else None
  }

  // A decimal literal without a point: parts of ids have none.
  function DecimalLiteral(s: string): Option<int> {
    var digits := DigitsIn(10, s);
    var rest := s[|digits|..];
    if digits == "" then None
    else if rest == "" then Some(ValueIn(10, digits))
    else if rest[0] != 'e' && rest[0] != 'E' then None
    else
      var (sign, t) := Signed(rest[1..]);
      match Whole(10, t)
      case None => None
      case Some(e) => Scaled(ValueIn(10, digits), sign * e)
  }

  // The integer that a whole part is converted to.
  function ToNumber(s: string): Option<int> {
    var t := TrimRight(TrimLeft(s));
    if t == "" then Some(0)
    else if HasPrefix(t, 'x', 'X') then Whole(16, t[2..])
    else if HasPrefix(t, 'o', 'O') then Whole(8, t[2..])
    else if HasPrefix(t, 'b', 'B') then Whole(2, t[2..])
    else
      var (sign, u) := Signed(t);
      match DecimalLiteral(u)
      case None => None
      case Some(n) => Some(sign * n)
  }

  // ---- Both read printed numbers back ----

  lemma {:induction false} DigitsOfNumeral(s: string)
    requires forall i :: 0 <= i < |s| ==> '0' <= s[i] <= '9'
    ensures DigitsIn(10, s) == s
  {
    if s != "" {
      DigitsOfNumeral(s[1..]);
    }
  }

  lemma {:induction false} ValueOfNumeral(s: string)
    requires forall i :: 0 <= i < |s| ==> '0' <= s[i] <= '9'
    ensures ValueIn(10, s) == Value(s)
  {
    if s != "" {
      ValueOfNumeral(s[..|s| - 1]);
    }
  }

  // A string of digits is not trimmed and has no sign and no prefix.
  lemma NumeralIsPlain(s: string)
    requires IsNumeral(s)
    ensures TrimLeft(s) == s && TrimRight(s) == s && Signed(s) == (1, s)
    ensures !HasPrefix(s, 'x', 'X') && !HasPrefix(s, 'o', 'O') && !HasPrefix(s, 'b', 'B')
  {
  }

  lemma NumbersOfNumeral(s: string)
    requires IsNumeral(s)
    ensures ParseInt(s) == Some(Value(s)) && ToNumber(s) == Some(Value(s))
  {
    NumeralIsPlain(s);
    DigitsOfNumeral(s);
    ValueOfNumeral(s);
    assert DecimalLiteral(s) == Some(ValueIn(10, s)) by {
      assert s[|s|..] == "";
    }
  }

  lemma NumbersOfDecimal(n: nat)
    ensures ParseInt(Decimal(n)) == Some(n) && ToNumber(Decimal(n)) == Some(n)
  {
    DecimalIsNumeral(n);
    ValueOfDecimal(n);
    NumbersOfNumeral(Decimal(n));
  }

  // ---- What else they read ----

  lemma {:induction false} TrimsLeft(blanks: string, s: string)
    requires (forall i :: 0 <= i < |blanks| ==> Blank(blanks[i])) && (s == "" || !Blank(s[0]))
    ensures TrimLeft(blanks + s) == s
  {
    if blanks == "" {
      assert blanks + s == s;
    } else {
      assert (blanks + s)[1..] == blanks[1..] + s;
      TrimsLeft(blanks[1..], s);
    }
  }

  lemma {:induction false} TrimsRight(s: string, blanks: string)
    requires (forall i :: 0 <= i < |blanks| ==> Blank(blanks[i])) && (s == "" || !Blank(s[|s| - 1]))
    ensures TrimRight(s + blanks) == s
  {
    if blanks == "" {
      assert s + blanks == s;
    } else {
      assert (s + blanks)[..|s + blanks| - 1] == s + blanks[..|blanks| - 1];
      TrimsRight(s, blanks[..|blanks| - 1]);
    }
  }

  lemma {:induction false} TakesDigits(radix: nat, digits: string, rest: string)
    requires forall i :: 0 <= i < |digits| ==> DigitValue(digits[i]) < radix
    requires rest == "" || DigitValue(rest[0]) >= radix
    ensures DigitsIn(radix, digits + rest) == digits
  {
    if digits == "" {
      assert digits + rest == rest;
    } else {
      assert (digits + rest)[1..] == digits[1..] + rest;
      TakesDigits(radix, digits[1..], rest);
    }
  }

  // No sign, or one of the two.
  ghost predicate IsSign(sign: string) {
    |sign| <= 1 && (sign != "" ==> sign[0] == '+' || sign[0] == '-')
  }

  // The value with its sign.
  ghost function Negated(sign: string, value: int): int {
    if sign != "" && sign[0] == '-' then -value else value
  }

  ghost function Factor(sign: string): int {
    if sign != "" && sign[0] == '-' then -1 else 1
  }

  // What comes first is neither blank nor a sign.
  ghost predicate Starts(s: string) {
    s != "" && !Blank(s[0]) && s[0] != '+' && s[0] != '-'
  }

  lemma SignIsRead(blanks: string, sign: string, s: string)
    requires (forall i :: 0 <= i < |blanks| ==> Blank(blanks[i])) && IsSign(sign) && Starts(s)
    ensures TrimLeft(blanks + (sign + s)) == sign + s
    ensures Signed(sign + s) == (Factor(sign), s)
  {
    TrimsLeft(blanks, sign + s);
    if sign == "" {
      assert sign + s == s;
    } else {
      assert (sign + s)[1..] == s;
    }
  }

  lemma NumeralStarts(numeral: string, rest: string)
    requires IsNumeral(numeral) && (rest == "" || (rest[0] != 'x' && rest[0] != 'X'))
    ensures Starts(numeral + rest) && !HasPrefix(numeral + rest, 'x', 'X')
  {
    var s := numeral + rest;
    assert s[0] == numeral[0];
    if |numeral| > 1 {
      assert s[1] == numeral[1];
    } else if rest != "" {
      assert s[1] == rest[0];
    }
  }

  lemma ParseIntBy(s: string, sign: string, t: string, radix: nat, rest: string, digits: string)
    requires Signed(TrimLeft(s)) == (Factor(sign), t)
    requires if HasPrefix(t, 'x', 'X') then radix == 16 && rest == t[2..] else radix == 10 && rest == t
    requires DigitsIn(radix, rest) == digits != ""
    ensures ParseInt(s) == Some(Negated(sign, ValueIn(radix, digits)))
  {
    SignedValue(sign, ValueIn(radix, digits));
  }

  // parseInt: blanks and a sign before a numeral, and anything after it that does not go on with digits,
  // or make it hexadecimal.
  lemma ParseIntReads(blanks: string, sign: string, numeral: string, rest: string)
    requires (forall i :: 0 <= i < |blanks| ==> Blank(blanks[i])) && IsSign(sign) && IsNumeral(numeral)
    requires rest == "" || (DigitValue(rest[0]) >= 10 && rest[0] != 'x' && rest[0] != 'X')
    ensures ParseInt(blanks + (sign + (numeral + rest))) == Some(Negated(sign, Value(numeral)))
  {
    var s := numeral + rest;
    NumeralStarts(numeral, rest);
    SignIsRead(blanks, sign, s);
    NumeralDigits(numeral, rest);
    ValueOfNumeral(numeral);
    ParseIntBy(blanks + (sign + s), sign, s, 10, s, numeral);
  }

  lemma NumeralDigits(numeral: string, rest: string)
    requires IsNumeral(numeral) && (rest == "" || DigitValue(rest[0]) >= 10)
    ensures DigitsIn(10, numeral + rest) == numeral
  {
    forall i | 0 <= i < |numeral|
      ensures DigitValue(numeral[i]) < 10
    {
    }
    TakesDigits(10, numeral, rest);
  }

  // After "0x" the digits are hexadecimal.
  lemma ParseIntReadsHex(blanks: string, sign: string, digits: string, rest: string)
    requires (forall i :: 0 <= i < |blanks| ==> Blank(blanks[i])) && IsSign(sign) && digits != ""
    requires forall i :: 0 <= i < |digits| ==> DigitValue(digits[i]) < 16
    requires rest == "" || DigitValue(rest[0]) >= 16
    ensures ParseInt(blanks + (sign + (['0', 'x'] + (digits + rest)))) == Some(Negated(sign, ValueIn(16, digits)))
  {
    var s := ['0', 'x'] + (digits + rest);
    assert s[0] == '0' && s[1] == 'x' && s[2..] == digits + rest;
    SignIsRead(blanks, sign, s);
    TakesDigits(16, digits, rest);
    ParseIntBy(blanks + (sign + s), sign, s, 16, digits + rest, digits);
  }

  lemma BlanksAround(blanks: string, s: string, more: string)
    requires (forall i :: 0 <= i < |blanks| ==> Blank(blanks[i])) && forall i :: 0 <= i < |more| ==> Blank(more[i])
    requires s != "" && !Blank(s[0]) && !Blank(s[|s| - 1])
    ensures TrimRight(TrimLeft(blanks + (s + more))) == s
  {
    assert (s + more)[0] == s[0];
    TrimsLeft(blanks, s + more);
    TrimsRight(s, more);
  }

  lemma ToNumberBy(s: string, t: string, sign: string, u: string, value: int)
    requires TrimRight(TrimLeft(s)) == t && t != "" && t[0] != '0' && Signed(t) == (Factor(sign), u)
    requires DecimalLiteral(u) == Some(value)
    ensures ToNumber(s) == Some(Negated(sign, value))
  {
    assert !HasPrefix(t, 'x', 'X') && !HasPrefix(t, 'o', 'O') && !HasPrefix(t, 'b', 'B');
    SignedValue(sign, value);
  }

  lemma SignedValue(sign: string, value: int)
    ensures Factor(sign) * value == Negated(sign, value)
  {
  }

  // Number: only blanks around the numeral and its sign.
  lemma ToNumberReads(blanks: string, sign: string, numeral: string, more: string)
    requires (forall i :: 0 <= i < |blanks| ==> Blank(blanks[i])) && IsSign(sign) && sign != "" && IsNumeral(numeral)
    requires forall i :: 0 <= i < |more| ==> Blank(more[i])
    ensures ToNumber(blanks + ((sign + numeral) + more)) == Some(Negated(sign, Value(numeral)))
  {
    var s := sign + numeral;
    assert s[0] == sign[0] && s[|s| - 1] == numeral[|numeral| - 1] && s[1..] == numeral;
    BlanksAround(blanks, s, more);
    LiteralOfNumeral(numeral);
    ToNumberBy(blanks + (s + more), s, sign, numeral, Value(numeral));
  }

  lemma LiteralOfNumeral(numeral: string)
    requires IsNumeral(numeral)
    ensures DecimalLiteral(numeral) == Some(Value(numeral))
  {
    DigitsOfNumeral(numeral);
    ValueOfNumeral(numeral);
    assert numeral[|numeral|..] == "";
  }

  lemma {:induction false} ValueNotNegative(s: string)
    requires forall i :: 0 <= i < |s| ==> '0' <= s[i] <= '9'
    ensures Value(s) >= 0
  {
    if s != "" {
      ValueNotNegative(s[..|s| - 1]);
    }
  }

  // And a power of ten after it.
  lemma LiteralWithExponent(numeral: string, exponent: string)
    requires IsNumeral(numeral) && IsNumeral(exponent)
    ensures Value(exponent) >= 0
    ensures DecimalLiteral(numeral + (['e'] + exponent)) == Some(Value(numeral) * Pow10(Value(exponent)))
  {
    var rest := ['e'] + exponent;
    ValueNotNegative(exponent);
    NumeralDigits(numeral, rest);
    ValueOfNumeral(numeral);
    WholeNumeral(exponent);
    LiteralByPower(numeral + rest, numeral, rest, exponent, Value(exponent));
  }

  lemma LiteralByPower(s: string, digits: string, rest: string, exponent: string, e: int)
    requires DigitsIn(10, s) == digits != "" && digits + rest == s && rest != "" && rest[0] == 'e'
    requires rest[1..] == exponent && IsNumeral(exponent) && Whole(10, exponent) == Some(e)
    ensures DecimalLiteral(s) == Scaled(ValueIn(10, digits), e)
  {
    assert s[|digits|..] == rest && Signed(exponent) == (1, exponent);
    assert 1 * e == e;
  }

  // Zeros after a numeral multiply it by that power of ten.
  lemma {:induction false} ZerosArePowers(numeral: string, zeros: string)
    requires forall i :: 0 <= i < |zeros| ==> zeros[i] == '0'
    ensures Value(numeral + zeros) == Value(numeral) * Pow10(|zeros|)
  {
    if zeros == "" {
      assert numeral + zeros == numeral;
    } else {
      ZerosArePowers(numeral, zeros[..|zeros| - 1]);
      assert (numeral + zeros)[..|numeral + zeros| - 1] == numeral + zeros[..|zeros| - 1];
      assert Value(numeral) * Pow10(|zeros|) == 10 * (Value(numeral) * Pow10(|zeros| - 1));
    }
  }

  lemma {:induction false} PowersArePositive(e: nat)
    ensures Pow10(e) > 0
  {
    if e > 0 {
      PowersArePositive(e - 1);
    }
  }

  lemma LiteralBy(s: string, digits: string, rest: string, exponent: string, e: int)
    requires DigitsIn(10, s) == digits != "" && digits + rest == s && |rest| >= 2 && rest[0] == 'e' && rest[1] == '-'
    requires rest[2..] == exponent && Whole(10, exponent) == Some(e)
    ensures DecimalLiteral(s) == Scaled(ValueIn(10, digits), 0 - e)
  {
    assert s[|digits|..] == rest && rest[1..][1..] == exponent;
    assert Signed(rest[1..]) == (-1, exponent);
    assert -1 * e == 0 - e;
  }

  lemma WholeNumeral(numeral: string)
    requires IsNumeral(numeral)
    ensures Whole(10, numeral) == Some(Value(numeral))
  {
    DigitsOfNumeral(numeral);
    ValueOfNumeral(numeral);
  }

  // A negative exponent takes zeros away. If there are not enough of them, the number is no integer.
  lemma LiteralWithNegativeExponent(numeral: string, exponent: string)
    requires IsNumeral(numeral) && IsNumeral(exponent) && Value(exponent) > 0
    ensures var r, power := DecimalLiteral(numeral + (['e', '-'] + exponent)), Pow10(Value(exponent));
            power > 0 && if r.Some? then r.value * power == Value(numeral) else Value(numeral) % power != 0
  {
    var rest := ['e', '-'] + exponent;
    NumeralDigits(numeral, rest);
    ValueOfNumeral(numeral);
    WholeNumeral(exponent);
    LiteralBy(numeral + rest, numeral, rest, exponent, Value(exponent));
    ScaledDown(Value(numeral), Value(exponent));
  }

  lemma ScaledDown(m: int, e: int)
    requires e > 0
    ensures var r, power := Scaled(m, 0 - e), Pow10(e);
            power > 0 && if r.Some? then r.value * power == m else m % power != 0
  {
    PowersArePositive(e);
    assert -(0 - e) == e;
    DivisionIsExact(m, Pow10(e));
  }

  lemma DivisionIsExact(m: int, power: nat)
    requires power > 0
    ensures m % power == 0 ==> m / power * power == m
  {
  }

  // The digits of a radix that a character announces after a zero.
  ghost predicate Announces(mark: char, radix: nat) {
    (mark == 'x' && radix == 16) || (mark == 'o' && radix == 8) || (mark == 'b' && radix == 2)
  }

  // Such a part is a number exactly if it goes on with digits of that radix only.
  lemma ToNumberReadsPrefixed(mark: char, radix: nat, digits: string)
    requires Announces(mark, radix) && digits != "" && !Blank(digits[|digits| - 1])
    ensures ToNumber(['0', mark] + digits) ==
            if forall i :: 0 <= i < |digits| ==> DigitValue(digits[i]) < radix then Some(ValueIn(radix, digits))
            else None
  {
    var s := ['0', mark] + digits;
    NoBlanksAround(s);
    assert s[2..] == digits;
    if forall i :: 0 <= i < |digits| ==> DigitValue(digits[i]) < radix {
      TakesDigits(radix, digits, "");
      assert digits + "" == digits;
    }
    ToNumberByPrefix(s, mark, radix);
  }

  lemma NoBlanksAround(s: string)
    requires s != "" && !Blank(s[0]) && !Blank(s[|s| - 1])
    ensures TrimRight(TrimLeft(s)) == s
  {
  }

  lemma ToNumberByPrefix(s: string, mark: char, radix: nat)
    requires Announces(mark, radix) && TrimRight(TrimLeft(s)) == s && |s| > 2 && s[0] == '0' && s[1] == mark
    ensures ToNumber(s) == Whole(radix, s[2..])
  {
  }

  // Letters are digits from ten on, in either case.
  lemma LettersAreDigits(i: nat)
    requires i < 6
    ensures DigitValue("abcdef"[i]) == 10 + i && DigitValue("ABCDEF"[i]) == 10 + i
  {
  }

  // Blanks alone are zero for the one and no number for the other.
  lemma BlanksAreRead(blanks: string)
    requires forall i :: 0 <= i < |blanks| ==> Blank(blanks[i])
    ensures ToNumber(blanks) == Some(0) && ParseInt(blanks) == None
  {
    TrimsLeft(blanks, "");
    assert blanks + "" == blanks;
  }
}
