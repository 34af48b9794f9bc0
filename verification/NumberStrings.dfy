/**
 Integers as text: printing into a fixed buffer from the back, parsing with a bounds check before
 each digit, and bytes as pairs of hexadecimal digits.
 */
module NumberStrings {
  import opened CheckedMath
  import opened Prelude

  // -------------------------------------------------------------- digits

  /** `CharToDigit`; the letters in both cases serve the bases above ten. */
  function CharToDigit(c: char, base: nat): (r: Option<nat>)
    requires 2 <= base <= 36
    ensures r.Some? ==> r.value < base
  {
    var n := c as int;
    if base <= 10 then
      if '0' as int <= n < '0' as int + base then Some(n - '0' as int) else None
    else if '0' as int <= n <= '9' as int then Some(n - '0' as int)
    else if 'a' as int <= n < 'a' as int + base - 10 then Some(n - 'a' as int + 10)
    else if 'A' as int <= n < 'A' as int + base - 10 then Some(n - 'A' as int + 10)
    else None
  }

  /** How many digits `s` starts with. */
  function DigitCount(s: string, base: nat): (n: nat)
    requires 2 <= base <= 36
    ensures n <= |s|
    ensures forall i :: 0 <= i < n ==> CharToDigit(s[i], base).Some?
    ensures n < |s| ==> CharToDigit(s[n], base).None?
  {
    if s == [] || CharToDigit(s[0], base).None? then 0 else 1 + DigitCount(s[1..], base)
  }

  /** The number `digits` stand for. */
  function ValueOf(digits: string, base: nat): nat
    requires 2 <= base <= 36
  {
    if digits == [] then 0
    else
      var d := CharToDigit(digits[|digits| - 1], base);
      var front := ValueOf(digits[..|digits| - 1], base);
      TimesGrows(front, base);
      front * base + if d.Some? then d.value else 0
  }

  /** The nearest value of the type. */
  function Clamp(t: IntType, v: int): int
    requires t.bits > 0
  {
    if v < Min(t) then Min(t) else if v > Max(t) then Max(t) else v
  }

  // -------------------------------------------------------------- parsing

  /** `Positive::CheckBounds`: one more digit would exceed the maximum. */
  predicate ExceedsMax(t: IntType, base: nat, output: int, digit: nat)
    requires t.bits > 0 && base > 0
  {
    output > Div(Max(t), base) || (output == Div(Max(t), base) && digit > Remainder(Max(t), base))
  }

  /** `Negative::CheckBounds`: one more digit would fall below the minimum. */
  predicate ExceedsMin(t: IntType, base: nat, output: int, digit: nat)
    requires t.bits > 0 && base > 0
  {
    output < Div(Min(t), base) || (output == Div(Min(t), base) && digit > 0 - Remainder(Min(t), base))
  }

  /** C's `%`, which goes with the truncating division. */
  function Remainder(a: int, b: int): int
    requires b != 0
  {
    a - b * Div(a, b)
  }

  lemma ExceedsIsExact(output: nat, base: nat, digit: nat, max: nat)
    requires base > 0 && digit < base
    ensures output > max / base || (output == max / base && digit > max - base * (max / base))
            <==> output * base + digit > max
  {
    var q := max / base;
    assert max == q * base + max % base;
    if output > q {
      assert output * base >= (q + 1) * base;
    } else if output < q {
      assert output * base <= (q - 1) * base;
    }
  }

  /** The check before the digit says whether the number would leave the type after it. */
  lemma ExceedsMaxIsExact(t: IntType, base: nat, output: nat, digit: nat)
    requires t.bits > 0 && base > 0 && digit < base
    ensures ExceedsMax(t, base, output, digit) <==> output * base + digit > Max(t)
  {
    ExceedsIsExact(output, base, digit, Max(t));
  }

  lemma ExceedsMinIsExact(t: IntType, base: nat, output: int, digit: nat)
    requires t.bits > 0 && base > 0 && digit < base && output <= 0
    ensures ExceedsMin(t, base, output, digit) <==> output * base - digit < Min(t)
  {
    ExceedsIsExact(-output, base, digit, -Min(t));
    MinusTimes(output, base);
    DivOfMinus(Min(t), base);
    MinusTimes(Div(Min(t), base), base);
  }

  lemma MinusTimes(a: int, b: int)
    ensures -a * b == -(a * b) && b * a == a * b
  {
  }

  lemma DivOfMinus(a: int, b: int)
    requires a <= 0 && b > 0
    ensures Div(a, b) == -(-a / b)
  {
  }

  /** Two places the hexadecimal prefix takes, in front of at least one more character. */
  function PrefixOf(s: string, base: nat): (n: nat)
    ensures n <= |s| && (s != [] ==> n < |s|)
  {
    if base == 16 && |s| > 2 && s[0] == '0' && (s[1] == 'x' || s[1] == 'X') then 2 else 0
  }

  function Signed(negative: bool, v: nat): int {
    if negative then 0 - v else v
  }

  datatype Parse = Parse(valid: bool, output: int)

  /** What the digits behind the sign amount to, whatever the text is. */
  function ParsedDigits(t: IntType, base: nat, negative: bool, s: string): Parse
    requires t.bits > 0 && 2 <= base <= 36
  {
    var body := s[PrefixOf(s, base)..];
    var n := DigitCount(body, base);
    var v := Signed(negative, ValueOf(body[..n], base));
    Parse(s != [] && n == |body| && InRange(t, v), Clamp(t, v))
  }

  /** The number read so far: the value of the first `k` digits. */
  ghost predicate HasRead(t: IntType, base: nat, negative: bool, body: string, k: nat, output: int)
    requires t.bits > 0 && 2 <= base <= 36
  {
    && k <= DigitCount(body, base) && output == Signed(negative, ValueOf(body[..k], base))
    && InRange(t, output)
  }

  /** `Base<Sign>::Invoke`. */
  method ParseDigits(t: IntType, base: nat, negative: bool, s: string) returns (r: Parse)
    requires Supported(t) && (base == 10 || base == 16) && (negative ==> t.signed)
    ensures r == ParsedDigits(t, base, negative, s)
  {
    hide Pow2, ValueOf, CharToDigit, ExceedsMax, ExceedsMin, ParsedDigits, HasRead, InRange, Min, Max;
    if s == [] {
      Nothing(t, base, negative);
      return Parse(false, 0);
    }
    var begin := PrefixOf(s, base);
    ghost var body := s[begin..];
    var output := 0;
    var current: nat := begin;
    NothingRead(t, base, negative, body);
    while current != |s|
      invariant begin <= current <= |s| && HasRead(t, base, negative, body, current - begin, output)
      decreases |s| - current
    {
      ghost var k: nat := current - begin;
      assert s[current] == body[k];
      var digit := CharToDigit(s[current], base);
      if digit.None? {
        StoppedAt(t, base, negative, s, k, output);
        return Parse(false, output);
      }
      if current != begin {
        var exceeds :=
          if negative then ExceedsMin(t, base, output, digit.value)
          else ExceedsMax(t, base, output, digit.value);
        if exceeds {
          Exceeded(t, base, negative, s, k, output);
          return Parse(false, if negative then Min(t) else Max(t));
        }
        Appended(t, base, negative, body, k, output);
        output := output * base;
      } else {
        AppendedFirst(t, base, negative, body, output);
      }
      output := if negative then output - digit.value else output + digit.value;
      current := current + 1;
    }
    StoppedAt(t, base, negative, s, current - begin, output);
    return Parse(true, output);
  }

  lemma Nothing(t: IntType, base: nat, negative: bool)
    requires Supported(t) && 2 <= base <= 36
    ensures ParsedDigits(t, base, negative, []) == Parse(false, 0)
  {
    hide Pow2;
  }

  lemma NothingRead(t: IntType, base: nat, negative: bool, body: string)
    requires Supported(t) && 2 <= base <= 36
    ensures HasRead(t, base, negative, body, 0, 0)
  {
    hide Pow2;
    assert body[..0] == [];
  }

  /** The digits end, at a bad character or with the text: the number read is the result. */
  lemma StoppedAt(t: IntType, base: nat, negative: bool, s: string, k: nat, output: int)
    requires t.bits > 0 && 2 <= base <= 36 && s != []
    requires HasRead(t, base, negative, s[PrefixOf(s, base)..], k, output)
    requires PrefixOf(s, base) + k < |s| ==> CharToDigit(s[PrefixOf(s, base) + k], base).None?
    ensures ParsedDigits(t, base, negative, s) == Parse(PrefixOf(s, base) + k == |s|, output)
  {
    hide Pow2, ValueOf, CharToDigit;
    var body := s[PrefixOf(s, base)..];
    assert k < |body| ==> body[k] == s[PrefixOf(s, base) + k];
    assert DigitCount(body, base) == k;
  }

  ghost predicate IsDigitAt(body: string, k: nat, base: nat)
    requires 2 <= base <= 36
  {
    k < |body| && CharToDigit(body[k], base).Some?
  }

  lemma DigitAt(body: string, k: nat, base: nat)
    requires 2 <= base <= 36 && k <= DigitCount(body, base) && IsDigitAt(body, k, base)
    ensures k + 1 <= DigitCount(body, base)
  {
  }

  /** The check fails: the whole number lies outside the type, on that side. */
  lemma Exceeded(t: IntType, base: nat, negative: bool, s: string, k: nat, output: int)
    requires t.bits > 0 && 2 <= base <= 36 && s != []
    requires IsDigitAt(s[PrefixOf(s, base)..], k, base)
    requires HasRead(t, base, negative, s[PrefixOf(s, base)..], k, output)
    requires
      var digit := CharToDigit(s[PrefixOf(s, base)..][k], base).value;
      if negative then ExceedsMin(t, base, output, digit) else ExceedsMax(t, base, output, digit)
    ensures ParsedDigits(t, base, negative, s) == Parse(false, if negative then Min(t) else Max(t))
  {
    hide Pow2, ValueOf, CharToDigit, ExceedsMax, ExceedsMin;
    var body := s[PrefixOf(s, base)..];
    DigitAt(body, k, base);
    OneMoreDigit(body, k, base);
    CheckIsExact(t, base, negative, ValueOf(body[..k], base), CharToDigit(body[k], base).value);
    MoreDigitsMoreValue(body, k + 1, DigitCount(body, base), base);
    assert Min(t) <= Max(t);
  }

  /** The check succeeds: nothing overflows, and the digit is appended. */
  lemma Appended(t: IntType, base: nat, negative: bool, body: string, k: nat, output: int)
    requires t.bits > 0 && 2 <= base <= 36
    requires IsDigitAt(body, k, base) && HasRead(t, base, negative, body, k, output)
    requires
      var digit := CharToDigit(body[k], base).value;
      !if negative then ExceedsMin(t, base, output, digit) else ExceedsMax(t, base, output, digit)
    ensures
      var digit := CharToDigit(body[k], base).value;
      && InRange(t, output * base)
      && HasRead(t, base, negative, body, k + 1, if negative then output * base - digit else output * base + digit)
  {
    hide Pow2, ValueOf, CharToDigit, ExceedsMax, ExceedsMin;
    DigitAt(body, k, base);
    OneMoreDigit(body, k, base);
    var v := ValueOf(body[..k], base);
    CheckIsExact(t, base, negative, v, CharToDigit(body[k], base).value);
    MinusTimes(v, base);
    TimesGrows(v, base);
  }

  /** The first digit needs no check. */
  lemma AppendedFirst(t: IntType, base: nat, negative: bool, body: string, output: int)
    requires Supported(t) && 2 <= base <= 36 && (negative ==> t.signed)
    requires IsDigitAt(body, 0, base) && HasRead(t, base, negative, body, 0, output)
    ensures
      var digit := CharToDigit(body[0], base).value;
      HasRead(t, base, negative, body, 1, if negative then output - digit else output + digit)
  {
    hide Pow2, CharToDigit;
    RangeHoldsDigits(t);
    assert body[..0] == [];
    DigitAt(body, 0, base);
    OneMoreDigit(body, 0, base);
  }

  /** Every supported type holds any single digit. */
  lemma RangeHoldsDigits(t: IntType)
    requires Supported(t)
    ensures Max(t) >= 36 && Min(t) <= 0 && (t.signed ==> Min(t) <= -36)
  {
    Pow2Grows(6, t.bits - 1);
    assert Pow2(6) == 64;
  }

  lemma {:induction false} Pow2Grows(a: nat, b: nat)
    requires a <= b
    ensures Pow2(a) <= Pow2(b)
  {
    if a < b {
      Pow2Grows(a, b - 1);
    }
  }

  lemma OneMoreDigit(s: string, k: nat, base: nat)
    requires 2 <= base <= 36 && k < |s| && CharToDigit(s[k], base).Some?
    ensures ValueOf(s[..k + 1], base) == ValueOf(s[..k], base) * base + CharToDigit(s[k], base).value
  {
    assert s[..k + 1][..k] == s[..k];
  }

  lemma {:induction false} MoreDigitsMoreValue(s: string, k: nat, n: nat, base: nat)
    requires 2 <= base <= 36 && k <= n <= |s|
    ensures ValueOf(s[..k], base) <= ValueOf(s[..n], base)
  {
    hide CharToDigit;
    if k < n {
      MoreDigitsMoreValue(s, k, n - 1, base);
      assert s[..n][..n - 1] == s[..n - 1];
      TimesGrows(ValueOf(s[..n - 1], base), base);
    }
  }

  lemma TimesGrows(v: nat, base: nat)
    requires base >= 1
    ensures v * base >= v
  {
  }

  lemma CheckIsExact(t: IntType, base: nat, negative: bool, v: nat, digit: nat)
    requires t.bits > 0 && base > 0 && digit < base
    ensures (if negative then ExceedsMin(t, base, 0 - v, digit) else ExceedsMax(t, base, v, digit))
            <==> if negative then 0 - (v * base + digit) < Min(t) else v * base + digit > Max(t)
  {
    if negative {
      ExceedsMinIsExact(t, base, 0 - v, digit);
      MinusTimes(v, base);
    } else {
      ExceedsMaxIsExact(t, base, v, digit);
    }
  }

  function SpaceCount(s: string, isSpace: char -> bool): (n: nat)
    ensures n <= |s|
    ensures n < |s| ==> !isSpace(s[n])
  {
    if s == [] || !isSpace(s[0]) then 0 else 1 + SpaceCount(s[1..], isSpace)
  }

  /** Behind white space, which already makes the text invalid. */
  function ParsedSigned(t: IntType, base: nat, s: string): Parse
    requires t.bits > 0 && 2 <= base <= 36
  {
    if s != [] && s[0] == '-' then
      if t.signed then ParsedDigits(t, base, true, s[1..]) else Parse(false, 0)
    else ParsedDigits(t, base, false, if s != [] && s[0] == '+' then s[1..] else s)
  }

  function ParsedNumber(t: IntType, base: nat, s: string, isSpace: char -> bool): Parse
    requires t.bits > 0 && 2 <= base <= 36
  {
    var k := SpaceCount(s, isSpace);
    var r := ParsedSigned(t, base, s[k..]);
    Parse(r.valid && k == 0, r.output)
  }

  /** `IteratorRangeToNumber::Invoke`; what is white space depends on the locale. */
  method ToNumber(t: IntType, base: nat, s: string, isSpace: char -> bool) returns (r: Parse)
    requires Supported(t) && (base == 10 || base == 16)
    ensures r == ParsedNumber(t, base, s, isSpace)
  {
    hide ParsedDigits, SpaceCount;
    var valid := true;
    var begin := 0;
    assert s[0..] == s;
    while begin != |s| && isSpace(s[begin])
      invariant begin <= |s| && valid == (begin == 0)
      invariant SpaceCount(s, isSpace) == begin + SpaceCount(s[begin..], isSpace)
      decreases |s| - begin
    {
      OneMoreSpace(s, begin, isSpace);
      valid := false;
      begin := begin + 1;
    }
    NoMoreSpaces(s, begin, isSpace);
    ghost var rest := s[begin..];
    assert rest != [] ==> rest[0] == s[begin] && rest[1..] == s[begin + 1..];
    var output: int;
    if begin != |s| && s[begin] == '-' {
      if !t.signed {
        valid, output := false, 0;
      } else {
        var p := ParseDigits(t, base, true, s[begin + 1..]);
        valid, output := valid && p.valid, p.output;
      }
    } else {
      if begin != |s| && s[begin] == '+' {
        begin := begin + 1;
      }
      var p := ParseDigits(t, base, false, s[begin..]);
      valid, output := valid && p.valid, p.output;
    }
    return Parse(valid, output);
  }

  lemma OneMoreSpace(s: string, i: nat, isSpace: char -> bool)
    requires i < |s| && isSpace(s[i])
    ensures SpaceCount(s[i..], isSpace) == 1 + SpaceCount(s[i + 1..], isSpace)
  {
    assert s[i..][1..] == s[i + 1..];
  }

  lemma NoMoreSpaces(s: string, i: nat, isSpace: char -> bool)
    requires i <= |s| && (i == |s| || !isSpace(s[i]))
    ensures SpaceCount(s[i..], isSpace) == 0
  {
  }

  /** A numeral: digits, and no hexadecimal prefix. */
  predicate IsNumeral(s: string, base: nat)
    requires 2 <= base <= 36
  {
    s != [] && DigitCount(s, base) == |s| && PrefixOf(s, base) == 0
  }

  datatype Sign = NoSign | Plus | Minus

  function SignText(sign: Sign): string {
    match sign
    case NoSign => ""
    case Plus => "+"
    case Minus => "-"
  }

  /** The digits of a numeral are all of it. */
  lemma NumeralDigits(t: IntType, base: nat, negative: bool, numeral: string)
    requires t.bits > 0 && 2 <= base <= 36 && IsNumeral(numeral, base)
    ensures
      var v := Signed(negative, ValueOf(numeral, base));
      ParsedDigits(t, base, negative, numeral) == Parse(InRange(t, v), Clamp(t, v))
  {
    hide ValueOf, Clamp, InRange, CharToDigit;
    assert numeral[..|numeral|] == numeral && numeral[0..] == numeral;
  }

  /** A sign in front of a numeral is read as that sign, and no sign as none. */
  lemma SignInFront(t: IntType, base: nat, sign: Sign, numeral: string)
    requires t.bits > 0 && 2 <= base <= 36 && IsNumeral(numeral, base) && (sign == Minus ==> t.signed)
    ensures ParsedSigned(t, base, SignText(sign) + numeral) == ParsedDigits(t, base, sign == Minus, numeral)
  {
    hide ParsedDigits;
    var s := SignText(sign) + numeral;
    assert sign == NoSign ==> s == numeral && CharToDigit(numeral[0], base).Some?;
    assert sign != NoSign ==> s[1..] == numeral;
  }

  /**
   A numeral with an optional sign parses successfully if and only if its value fits, and saturates
   at the bound of the type if not.
   */
  lemma ParsingIsExact(t: IntType, base: nat, sign: Sign, numeral: string, isSpace: char -> bool)
    requires Supported(t) && (base == 10 || base == 16) && IsNumeral(numeral, base)
    requires sign == Minus ==> t.signed
    requires !isSpace((SignText(sign) + numeral)[0])
    ensures
      var v := Signed(sign == Minus, ValueOf(numeral, base));
      ParsedNumber(t, base, SignText(sign) + numeral, isSpace) == Parse(InRange(t, v), Clamp(t, v))
  {
    hide ValueOf, ParsedDigits, ParsedSigned, Clamp, InRange, IsNumeral;
    var s := SignText(sign) + numeral;
    assert SpaceCount(s, isSpace) == 0 && s[0..] == s;
    SignInFront(t, base, sign, numeral);
    NumeralDigits(t, base, sign == Minus, numeral);
  }

  // -------------------------------------------------------------- printing

  function DigitChar(d: nat): (c: char)
    requires d < 10
    ensures CharToDigit(c, 10) == Some(d)
  {
    d as char + '0'
  }

  /** The decimal digits, without leading zeros. */
  function Digits(v: nat): (s: string)
    ensures s != []
  {
    if v < 10 then [DigitChar(v)] else Digits(v / 10) + [DigitChar(v % 10)]
  }

  function Printed(v: int): string {
    if v < 0 then "-" + Digits(-v) else Digits(v)
  }

  function Pow10(n: nat): nat {
    if n == 0 then 1 else 10 * Pow10(n - 1)
  }

  lemma {:induction false} DigitsAreFew(v: nat, k: nat)
    requires v < Pow10(k) && k > 0
    ensures |Digits(v)| <= k
  {
    if v >= 10 {
      DigitsAreFew(v / 10, k - 1);
    }
  }

  /** Three digits a byte, less one, are enough from two bytes on. */
  lemma {:induction false} BytesNeedFewDigits(n: nat)
    requires n >= 2
    ensures Pow2(8 * n) < Pow10(3 * n - 1)
  {
    if n == 2 {
      assert Pow2(16) == 65536 by { assert Pow2(8) == 256; }
      assert Pow10(5) == 100000;
    } else {
      BytesNeedFewDigits(n - 1);
      EightBitsMore(8 * n - 8);
      ThreeDigitsMore(3 * n - 4);
    }
  }

  lemma EightBitsMore(n: nat)
    ensures Pow2(n + 8) == 256 * Pow2(n)
  {
    Pow2Sum(n, 8);
    assert Pow2(8) == 256;
  }

  lemma ThreeDigitsMore(n: nat)
    ensures Pow10(n + 3) == 1000 * Pow10(n)
  {
    assert Pow10(n + 3) == 10 * Pow10(n + 2) && Pow10(n + 2) == 10 * Pow10(n + 1);
  }

  /** `CheckedNumeric<INT>(value).UnsignedAbs()`. */
  function UnsignedAbs(t: IntType, v: int): Checked
    requires t.bits > 0
  {
    Numeric(IntType(t.bits, false),
            if !t.signed then v
            else if v == Min(t) then ToUnsigned(t, Max(t)) + 1
            else ToUnsigned(t, if v < 0 then -v else v),
            Numeric(t, v, RANGE_VALID).validity)
  }

  /** It is valid for every value of the type, the signed minimum included. */
  lemma UnsignedAbsIsExact(t: IntType, v: int)
    requires Supported(t) && InRange(t, v)
    ensures UnsignedAbs(t, v) == Checked(if v < 0 then -v else v, RANGE_VALID)
    ensures UnsignedAbs(t, v).value <= Max(IntType(t.bits, false))
  {
    NumberIsExact(t, v);
    WrapInRange(t, Max(t));
    if v != Min(t) { WrapInRange(t, if v < 0 then -v else v); }
    NumberIsExact(IntType(t.bits, false), if v < 0 then -v else v);
  }

  /** Writes the buffer from the back; the characters written start at `i`, which never reaches the front. */
  method IntToString(t: IntType, value: int) returns (s: string)
    requires Supported(t) && InRange(t, value)
    ensures s == Printed(value)
  {
    hide Pow2, Pow10, InRange, Min, Max;
    var outputBufSize: nat := 3 * (t.bits / 8) + if t.signed then 1 else 0;
    var outbuf := new char[outputBufSize];
    UnsignedAbsIsExact(t, value);
    BufferIsLargeEnough(t, value);
    hide UnsignedAbs, Digits;
    var res: nat := UnsignedAbs(t, value).value;
    ghost var whole := res;
    var i, more := outbuf.Length, true;
    while more
      invariant 0 <= i <= outbuf.Length
      invariant more ==> Digits(res) + outbuf[i..] == Digits(whole)
      invariant !more ==> outbuf[i..] == Digits(whole)
      decreases more, res
    {
      ghost var was := outbuf[i..];
      DigitsStep(res, was);
      i := i - 1;
      assert i != 0;
      outbuf[i] := DigitChar(res % 10);
      assert outbuf[i..] == [DigitChar(res % 10)] + was;
      res := res / 10;
      more := res != 0;
    }
    if value < 0 {
      ghost var was := outbuf[i..];
      i := i - 1;
      assert i != 0;
      outbuf[i] := '-';
      assert outbuf[i..] == "-" + was;
    }
    return outbuf[i..];
  }

  lemma DigitsStep(res: nat, behind: string)
    ensures Digits(res) + behind ==
            (if res / 10 == 0 then [] else Digits(res / 10)) + ([DigitChar(res % 10)] + behind)
  {
  }

  lemma BufferIsLargeEnough(t: IntType, value: int)
    requires Supported(t) && InRange(t, value)
    ensures |Digits(if value < 0 then -value else value)| < 3 * (t.bits / 8)
    ensures value < 0 ==> t.signed
  {
    hide Pow2, Pow10, Digits, UnsignedAbs;
    BytesNeedFewDigits(t.bits / 8);
    UnsignedAbsIsExact(t, value);
    assert 8 * (t.bits / 8) == t.bits;
    DigitsAreFew(if value < 0 then -value else value, 3 * (t.bits / 8) - 1);
  }

  // -------------------------------------------------------------- there and back

  lemma {:induction false} DigitsAreDigits(v: nat)
    ensures DigitCount(Digits(v), 10) == |Digits(v)|
    ensures ValueOf(Digits(v), 10) == v
  {
    if v >= 10 {
      var front, last := Digits(v / 10), DigitChar(v % 10);
      DigitsAreDigits(v / 10);
      assert (front + [last])[..|front|] == front;
      CountAppended(front, last);
    }
  }

  lemma {:induction false} CountAppended(s: string, c: char)
    requires DigitCount(s, 10) == |s| && CharToDigit(c, 10).Some?
    ensures DigitCount(s + [c], 10) == |s| + 1
  {
    if s != [] {
      assert (s + [c])[1..] == s[1..] + [c];
      CountAppended(s[1..], c);
    }
  }

  /** Parsing undoes printing, for every value of the type. */
  lemma ParsingUndoesPrinting(t: IntType, v: int, isSpace: char -> bool)
    requires Supported(t) && InRange(t, v)
    requires forall c :: isSpace(c) ==> c != '-' && CharToDigit(c, 10).None?
    ensures ParsedNumber(t, 10, Printed(v), isSpace) == Parse(true, v)
  {
    hide ParsedNumber, Digits, ValueOf, CharToDigit;
    var sign, size: nat := if v < 0 then Minus else NoSign, if v < 0 then -v else v;
    DigitsAreDigits(size);
    var numeral := Digits(size);
    assert CharToDigit(numeral[0], 10).Some?;
    assert SignText(sign) + numeral == Printed(v);
    ParsingIsExact(t, 10, sign, numeral, isSpace);
  }

  // -------------------------------------------------------------- bytes

  const HEX_CHARS: string := "0123456789ABCDEF"

  function HexOf(b: byte): (s: string)
    ensures |s| == 2
  {
    [HEX_CHARS[b as int / 16], HEX_CHARS[b as int % 16]]
  }

  function Encoded(bytes: seq<byte>): string {
    if bytes == [] then [] else HexOf(bytes[0]) + Encoded(bytes[1..])
  }

  method HexEncode(bytes: seq<byte>) returns (s: string)
    ensures s == Encoded(bytes)
  {
    var ret := new char[2 * |bytes|];
    var i := 0;
    while i < |bytes|
      invariant i <= |bytes|
      invariant ret[..2 * i] + Encoded(bytes[i..]) == Encoded(bytes)
    {
      ghost var was := ret[..2 * i];
      assert bytes[i..][1..] == bytes[i + 1..];
      ret[2 * i] := HEX_CHARS[bytes[i] as int / 16];
      ret[2 * i + 1] := HEX_CHARS[bytes[i] as int % 16];
      i := i + 1;
      assert ret[..2 * i] == was + HexOf(bytes[i - 1]);
      Associative(was, HexOf(bytes[i - 1]), Encoded(bytes[i..]));
    }
    assert bytes[i..] == [];
    return ret[..];
  }

  function PairValue(a: char, b: char): Option<byte> {
    match (CharToDigit(a, 16), CharToDigit(b, 16))
    case (Some(msb), Some(lsb)) => Some((16 * msb + lsb) as byte)
    case _ => None
  }

  /** The bytes of the pairs in front of the first bad one, and whether there is none. */
  function Decoded(s: string): (seq<byte>, bool) {
    if |s| < 2 then ([], s == [])
    else
      match PairValue(s[0], s[1])
      case None => ([], false)
      case Some(b) => var (bytes, valid) := Decoded(s[2..]); ([b] + bytes, valid)
  }

  method HexStringToBytes(input: string) returns (valid: bool, output: seq<byte>)
    ensures valid <==> input != [] && |input| % 2 == 0 && Decoded(input).1
    ensures |input| % 2 == 0 ==> output == Decoded(input).0
    ensures |input| % 2 != 0 ==> output == []
  {
    hide Decoded, CharToDigit;
    output := [];
    var count := |input|;
    NothingDecoded();
    if count == 0 || count % 2 != 0 {
      return false, [];
    }
    var i := 0;
    assert input[0..] == input;
    while i < count / 2
      invariant i <= count / 2
      invariant Decoded(input).0 == output + Decoded(input[2 * i..]).0
      invariant Decoded(input).1 == Decoded(input[2 * i..]).1
    {
      DecodedStep(input, i);
      var msb, lsb := CharToDigit(input[i * 2], 16), CharToDigit(input[i * 2 + 1], 16);
      if msb.None? || lsb.None? {
        return false, output;
      }
      output := output + [(16 * msb.value + lsb.value) as byte];
      i := i + 1;
    }
    assert input[2 * i..] == [];
    return true, output;
  }

  lemma DecodedStep(input: string, i: nat)
    requires 2 * i + 2 <= |input|
    ensures
      match PairValue(input[2 * i], input[2 * i + 1])
      case None => Decoded(input[2 * i..]) == ([], false)
      case Some(b) =>
        var (bytes, valid) := Decoded(input[2 * (i + 1)..]);
        Decoded(input[2 * i..]) == ([b] + bytes, valid)
  {
    hide PairValue;
    assert input[2 * i..][2..] == input[2 * (i + 1)..];
  }

  lemma NothingDecoded()
    ensures Decoded([]) == ([], true)
  {
  }

  lemma HexPairReadsBack(b: byte)
    ensures PairValue(HexOf(b)[0], HexOf(b)[1]) == Some(b)
  {
    HexCharReadsBack(b as int / 16);
    HexCharReadsBack(b as int % 16);
  }

  lemma HexCharReadsBack(d: nat)
    requires d < 16
    ensures CharToDigit(HEX_CHARS[d], 16) == Some(d)
  {
  }

  lemma DecodedPair(pair: string, rest: string)
    requires |pair| == 2 && PairValue(pair[0], pair[1]).Some?
    ensures Decoded(pair + rest) == ([PairValue(pair[0], pair[1]).value] + Decoded(rest).0, Decoded(rest).1)
  {
    hide PairValue;
    assert (pair + rest)[2..] == rest && (pair + rest)[0] == pair[0] && (pair + rest)[1] == pair[1];
  }

  /** Decoding undoes encoding. */
  lemma {:induction false} DecodingUndoesEncoding(bytes: seq<byte>)
    ensures Decoded(Encoded(bytes)) == (bytes, true)
    ensures |Encoded(bytes)| == 2 * |bytes|
  {
    if bytes != [] {
      hide PairValue, HexOf;
      HexPairReadsBack(bytes[0]);
      DecodingUndoesEncoding(bytes[1..]);
      DecodedPair(HexOf(bytes[0]), Encoded(bytes[1..]));
      hide Decoded;
      assert [bytes[0]] + bytes[1..] == bytes;
    }
  }
}
