/** Numerals and hexadecimal text by tables of digits, and the whole grammar that the number parser accepts. */
module NumeralTables {
  import opened Prelude
  import opened CheckedMath
  import opened NumberStrings

  const LOWER_DIGITS: string := "0123456789abcdefghijklmnopqrstuvwxyz"
  const UPPER_DIGITS: string := "0123456789ABCDEFGHIJKLMNOPQRSTUVWXYZ"

  /** `c` stands for the digit `d`, in either case. */
  predicate IsDigit(c: char, d: nat) {
    d < 36 && (c == LOWER_DIGITS[d] || c == UPPER_DIGITS[d])
  }

  lemma TableIs(d: nat)
    requires d < 36
    ensures LOWER_DIGITS[d] as int == if d < 10 then 48 + d else 87 + d
    ensures UPPER_DIGITS[d] as int == if d < 10 then 48 + d else 55 + d
  {
  }

  lemma IsDigitMeans(c: char, d: nat)
    ensures IsDigit(c, d) <==> d < 36 && if d < 10 then c as int == 48 + d else c as int - d in {87, 55}
  {
    if d < 36 {
      TableIs(d);
      hide LOWER_DIGITS, UPPER_DIGITS;
    }
  }

  // ------------------------------------------------------------------ digits

  /** A character is a digit of a base exactly if a table has it, and it stands for its place there. */
  lemma DigitsByTable(c: char, d: nat, base: nat)
    requires 2 <= base <= 36 && d < base
    ensures CharToDigit(c, base) == Some(d) <==> IsDigit(c, d)
  {
    hide IsDigit;
    IsDigitMeans(c, d);
  }

  lemma NoDigitByTable(c: char, base: nat)
    requires 2 <= base <= 36
    ensures CharToDigit(c, base).None? <==> forall d: nat :: d < base ==> !IsDigit(c, d)
  {
    hide IsDigit, CharToDigit;
    if CharToDigit(c, base).Some? {
      DigitsByTable(c, CharToDigit(c, base).value, base);
    }
    forall d: nat | d < base && IsDigit(c, d)
      ensures CharToDigit(c, base).Some?
    {
      DigitsByTable(c, d, base);
    }
  }

  /** `text` spells the digits `ds`, each in either case. */
  ghost predicate Spells(text: string, ds: seq<nat>, base: nat) {
    |text| == |ds| && forall i :: 0 <= i < |ds| ==> ds[i] < base && IsDigit(text[i], ds[i])
  }

  function NumberOf(ds: seq<nat>, base: nat): nat {
    if ds == [] then 0 else NumberOf(ds[..|ds| - 1], base) * base + ds[|ds| - 1]
  }

  /** No character of the tables, so the digits end here. */
  ghost predicate EndsDigits(tail: string, base: nat) {
    tail == [] || forall d: nat :: d < base ==> !IsDigit(tail[0], d)
  }

  lemma {:induction false} SpelledDigitsCount(text: string, ds: seq<nat>, base: nat, tail: string)
    requires 2 <= base <= 36 && Spells(text, ds, base) && EndsDigits(tail, base)
    ensures DigitCount(text + tail, base) == |text|
    decreases |text|
  {
    hide IsDigit, CharToDigit;
    if text == [] {
      assert text + tail == tail;
      if tail != [] {
        NoDigitByTable(tail[0], base);
      }
    } else {
      DigitsByTable(text[0], ds[0], base);
      assert (text + tail)[1..] == text[1..] + tail;
      SpelledDigitsCount(text[1..], ds[1..], base, tail);
    }
  }

  lemma {:induction false} SpelledValue(text: string, ds: seq<nat>, base: nat)
    requires 2 <= base <= 36 && Spells(text, ds, base)
    ensures ValueOf(text, base) == NumberOf(ds, base)
    decreases |text|
  {
    hide IsDigit, CharToDigit;
    if text != [] {
      var n := |text| - 1;
      SpelledValue(text[..n], ds[..n], base);
      DigitsByTable(text[n], ds[n], base);
    }
  }

  // ---------------------------------------------------------------- the grammar

  /** The first two characters that base 16 skips, if a third follows. */
  datatype Prefix = NoPrefix | LowerX | UpperX

  function PrefixText(prefix: Prefix): string {
    match prefix
    case NoPrefix => ""
    case LowerX => "0x"
    case UpperX => "0X"
  }

  /** Base 16 reads these texts as a prefix with something behind it. */
  predicate StartsWithPrefix(s: string) {
    |s| > 2 && ("0x" <= s || "0X" <= s)
  }

  /** What is behind the sign, taken apart: there is a prefix exactly where one is read. */
  ghost predicate IsBody(s: string, base: nat, prefix: Prefix, text: string, ds: seq<nat>, tail: string) {
    && s == PrefixText(prefix) + (text + tail)
    && (base == 16 && StartsWithPrefix(s) <==> prefix != NoPrefix)
    && Spells(text, ds, base) && EndsDigits(tail, base)
  }

  lemma PrefixIsSkipped(s: string, base: nat, prefix: Prefix, rest: string)
    requires s == PrefixText(prefix) + rest && (base == 16 && StartsWithPrefix(s) <==> prefix != NoPrefix)
    ensures s[PrefixOf(s, base)..] == rest
  {
    if prefix != NoPrefix {
      assert s[0] == '0' && (s[1] == 'x' || s[1] == 'X');
    } else if base == 16 && |s| > 2 {
      assert "0x" <= s <==> s[0] == '0' && s[1] == 'x';
      assert "0X" <= s <==> s[0] == '0' && s[1] == 'X';
    }
  }

  lemma DigitsMean(
      t: IntType, base: nat, negative: bool, s: string, prefix: Prefix, text: string, ds: seq<nat>, tail: string)
    requires Supported(t) && (base == 10 || base == 16) && IsBody(s, base, prefix, text, ds, tail)
    ensures
      var v := Signed(negative, NumberOf(ds, base));
      ParsedDigits(t, base, negative, s) == Parse(s != [] && tail == [] && InRange(t, v), Clamp(t, v))
  {
    hide Spells, EndsDigits, PrefixOf, PrefixText, StartsWithPrefix, ValueOf, DigitCount, Clamp, InRange;
    PrefixIsSkipped(s, base, prefix, text + tail);
    SpelledDigitsCount(text, ds, base, tail);
    SpelledValue(text, ds, base);
    assert (text + tail)[..|text|] == text;
  }

  lemma {:induction false} SpacesCount(spaces: string, rest: string, isSpace: char -> bool)
    requires forall i :: 0 <= i < |spaces| ==> isSpace(spaces[i])
    requires rest == [] || !isSpace(rest[0])
    ensures SpaceCount(spaces + rest, isSpace) == |spaces| && (spaces + rest)[|spaces|..] == rest
    decreases |spaces|
  {
    if spaces == [] {
      assert spaces + rest == rest;
    } else {
      assert (spaces + rest)[1..] == spaces[1..] + rest;
      SpacesCount(spaces[1..], rest, isSpace);
    }
  }

  /**
   What any text parses as: its white space, sign, prefix, digits and the rest, each as long as it can be.
   White space in front and anything behind the digits make it invalid, but the number is still read.
   */
  lemma ParsingMeans(
      t: IntType, base: nat, isSpace: char -> bool, spaces: string, sign: Sign, body: string, prefix: Prefix,
      text: string, ds: seq<nat>, tail: string)
    requires Supported(t) && (base == 10 || base == 16) && IsBody(body, base, prefix, text, ds, tail)
    requires forall i :: 0 <= i < |spaces| ==> isSpace(spaces[i])
    requires SignText(sign) + body == [] || !isSpace((SignText(sign) + body)[0])
    requires sign == NoSign && body != [] ==> body[0] != '-' && body[0] != '+'
    ensures
      var v := Signed(sign == Minus, NumberOf(ds, base));
      ParsedNumber(t, base, spaces + (SignText(sign) + body), isSpace) ==
        if sign == Minus && !t.signed then Parse(false, 0)
        else Parse(spaces == [] && body != [] && tail == [] && InRange(t, v), Clamp(t, v))
  {
    hide ParsedDigits, IsBody, InRange, Clamp, NumberOf, SpaceCount;
    var s := SignText(sign) + body;
    SpacesCount(spaces, s, isSpace);
    DigitsMean(t, base, sign == Minus, body, prefix, text, ds, tail);
    assert sign == NoSign ==> s == body;
    assert sign != NoSign ==> s[1..] == body;
  }

  // ---------------------------------------------------------------- bytes

  /** `text` spells each byte as two digits, in either case, the high one first. */
  ghost predicate SpellsBytes(text: string, bytes: seq<byte>) {
    && |text| == 2 * |bytes|
    && forall i :: 0 <= i < |bytes| ==> SpellsByte(text[2 * i], text[2 * i + 1], bytes[i])
  }

  predicate SpellsByte(a: char, b: char, x: byte) {
    IsDigit(a, x as nat / 16) && IsDigit(b, x as nat % 16)
  }

  /** Not two digits, where there are two characters. */
  ghost predicate EndsBytes(tail: string) {
    |tail| >= 2 ==> EndsDigits(tail, 16) || EndsDigits(tail[1..], 16)
  }

  lemma SpelledPair(a: char, b: char, x: byte)
    requires SpellsByte(a, b, x)
    ensures PairValue(a, b) == Some(x)
  {
    hide IsDigit, CharToDigit;
    DigitsByTable(a, x as nat / 16, 16);
    DigitsByTable(b, x as nat % 16, 16);
  }

  lemma SpellsRest(text: string, bytes: seq<byte>)
    requires SpellsBytes(text, bytes) && bytes != []
    ensures SpellsByte(text[0], text[1], bytes[0]) && SpellsBytes(text[2..], bytes[1..])
  {
    hide SpellsByte;
    assert SpellsByte(text[2 * 0], text[2 * 0 + 1], bytes[0]);
    forall i | 0 <= i < |bytes[1..]|
      ensures SpellsByte(text[2..][2 * i], text[2..][2 * i + 1], bytes[1..][i])
    {
      assert SpellsByte(text[2 * (i + 1)], text[2 * (i + 1) + 1], bytes[i + 1]);
    }
  }

  lemma {:induction false} SpelledBytesDecode(text: string, bytes: seq<byte>, tail: string)
    requires SpellsBytes(text, bytes) && EndsBytes(tail)
    ensures Decoded(text + tail) == (bytes, tail == [])
    decreases |text|
  {
    if bytes == [] {
      assert text + tail == tail;
      TailDecodesToNothing(tail);
    } else {
      hide Decoded, PairValue, SpellsByte, EndsBytes;
      SpellsRest(text, bytes);
      hide SpellsBytes;
      SpelledPair(text[0], text[1], bytes[0]);
      SpelledBytesDecode(text[2..], bytes[1..], tail);
      FrontPair(text, tail);
      DecodedPair(text[..2], text[2..] + tail);
      assert bytes == [bytes[0]] + bytes[1..];
    }
  }

  lemma FrontPair(text: string, tail: string)
    requires |text| >= 2
    ensures text + tail == text[..2] + (text[2..] + tail) && text[..2] == [text[0], text[1]]
  {
  }

  lemma TailDecodesToNothing(tail: string)
    requires EndsBytes(tail)
    ensures Decoded(tail) == ([], tail == [])
  {
    hide IsDigit, CharToDigit;
    if |tail| >= 2 {
      NoDigitByTable(tail[0], 16);
      NoDigitByTable(tail[1], 16);
    }
  }

  lemma HexOfIs(x: byte)
    ensures HexOf(x) == ["0123456789ABCDEF"[x as nat / 16], "0123456789ABCDEF"[x as nat % 16]]
  {
  }

  lemma Shifted(pair: string, rest: string, i: nat)
    requires |pair| == 2 && 0 < i && 2 * i + 1 < 2 + |rest|
    ensures (pair + rest)[2 * i] == rest[2 * (i - 1)] && (pair + rest)[2 * i + 1] == rest[2 * (i - 1) + 1]
  {
  }

  /** Encoding uses the upper-case digits, the high one of a byte first. */
  lemma {:induction false} EncodedIsSpelled(bytes: seq<byte>, i: nat)
    requires i < |bytes|
    ensures |Encoded(bytes)| == 2 * |bytes|
    ensures Encoded(bytes)[2 * i] == "0123456789ABCDEF"[bytes[i] as nat / 16]
    ensures Encoded(bytes)[2 * i + 1] == "0123456789ABCDEF"[bytes[i] as nat % 16]
  {
    hide HexOf, Decoded;
    DecodingUndoesEncoding(bytes);
    DecodingUndoesEncoding(bytes[1..]);
    if i == 0 {
      HexOfIs(bytes[0]);
    } else {
      EncodedIsSpelled(bytes[1..], i - 1);
      Shifted(HexOf(bytes[0]), Encoded(bytes[1..]), i);
    }
  }
}
