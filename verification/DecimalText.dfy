/**
 Printing a decimal at four places with trailing zeros removed, and parsing such
 text.  A decimal is a sign and a magnitude: Python keeps the sign of zero.
 */
module DecimalText {
  import opened Prelude
  import opened TextTools
  import opened RealMath

  datatype SignedDecimal = SignedDecimal(negative: bool, magnitude: real)

  type Decimal = d: SignedDecimal | d.magnitude >= 0.0 witness SignedDecimal(false, 0.0)

  function ValueOf(d: Decimal): real { if d.negative then -d.magnitude else d.magnitude }

  /** Rounds to the nearest integer, a tie to the even one. */
  function RoundHalfEven(x: real): (n: nat)
    requires x >= 0.0
    ensures n as real - x <= 0.5 && x - n as real <= 0.5
    ensures n as real - x == 0.5 || x - n as real == 0.5 ==> n % 2 == 0
  {
    var floor := x.Floor;
    var rest := x - floor as real;
    if rest < 0.5 || (rest == 0.5 && floor % 2 == 0) then floor else floor + 1
  }

  /** The value in units of 0.0001 after `quantize`. */
  function Units(d: Decimal): nat { RoundHalfEven(d.magnitude * 10000.0) }

  // ----- digits -----

  function DigitChar(n: nat): char
    requires n < 10
  {
    '0' + n as char
  }

  predicate IsDigit(c: char) { '0' <= c <= '9' }

  predicate AllDigits(s: string) { forall i :: 0 <= i < |s| ==> IsDigit(s[i]) }

  function Digits(n: nat): (r: string)
    ensures r != [] && AllDigits(r)
  {
    if n < 10 then [DigitChar(n)] else Digits(n / 10) + [DigitChar(n % 10)]
  }

  /** `n` with exactly `width` digits. */
  function Padded(n: nat, width: nat): (r: string)
    ensures |r| == width && AllDigits(r)
  {
    if width == 0 then [] else Padded(n / 10, width - 1) + [DigitChar(n % 10)]
  }

  function ParseNat(s: string): nat
    requires AllDigits(s)
  {
    if s == [] then 0 else 10 * ParseNat(s[..|s| - 1]) + (s[|s| - 1] - '0') as nat
  }

  function Pow10(n: nat): (r: nat)
    ensures r >= 1
  {
    if n == 0 then 1 else 10 * Pow10(n - 1)
  }

  /** Digits after the point. */
  function FractionOf(s: string): (r: real)
    requires AllDigits(s)
    ensures r >= 0.0
  {
    ParseNat(s) as real / Pow10(|s|) as real
  }

  /** `Decimal(text)`: blanks around the text and underscores in it are ignored. */
  function ParseDecimal(text: string): Option<Decimal> { ParseBare(Without(Strip(text), '_')) }

  /** With an exponent after the first 'e' or 'E', if there is one. */
  function ParseBare(text: string): Option<Decimal> {
    if 'e' in text then ParseScaled(Before(text, 'e'), After(text, 'e'))
    else if 'E' in text then ParseScaled(Before(text, 'E'), After(text, 'E'))
    else ParseSigned(text)
  }

  function ParseScaled(mantissa: string, exponent: string): Option<Decimal> {
    var digits := if exponent != [] && exponent[0] in {'-', '+'} then exponent[1..] else exponent;
    if ParseSigned(mantissa).None? || digits == [] || !AllDigits(digits) then None
    else
      var d, places := ParseSigned(mantissa).value, ParseNat(digits);
      Some(SignedDecimal(d.negative, if exponent[0] == '-' then d.magnitude / Pow10(places) as real else Raised(d.magnitude, places)))
  }

  function Raised(x: real, places: nat): (r: real)
    requires x >= 0.0
    ensures r >= 0.0
  {
    x * Pow10(places) as real
  }

  function ParseSigned(text: string): Option<Decimal> {
    var negative := text != [] && text[0] == '-';
    var body := if text != [] && text[0] in {'-', '+'} then text[1..] else text;
    var whole, fraction := Before(body, '.'), After(body, '.');
    if AllDigits(whole) && AllDigits(fraction) && whole + fraction != [] then
      Some(SignedDecimal(negative, ParseNat(whole) as real + FractionOf(fraction)))
    else None
  }

  function DropTrailing(s: string, c: char): string {
    if s != [] && s[|s| - 1] == c then DropTrailing(s[..|s| - 1], c) else s
  }

  /** `format(value.quantize(Decimal("0.0001")), "f")`. */
  function FixedText(negative: bool, units: nat): string {
    (if negative then ['-'] else []) + Digits(units / 10000) + ['.'] + Padded(units % 10000, 4)
  }

  function ToText(d: Decimal): string {
    var text := DropTrailing(DropTrailing(FixedText(d.negative, Units(d)), '0'), '.');
    if text == [] then "0" else text
  }

  // ----- digits read back -----

  lemma {:induction false} DigitsParse(n: nat)
    ensures ParseNat(Digits(n)) == n
  {
    if n >= 10 {
      DigitsParse(n / 10);
      assert Digits(n)[..|Digits(n)| - 1] == Digits(n / 10);
    }
  }

  lemma {:induction false} PaddedParse(n: nat, width: nat)
    requires n < Pow10(width)
    ensures ParseNat(Padded(n, width)) == n
  {
    if width > 0 {
      PaddedParse(n / 10, width - 1);
      assert Padded(n, width)[..width - 1] == Padded(n / 10, width - 1);
    }
  }

  lemma {:induction false} DropZeros(s: string)
    requires AllDigits(s)
    ensures AllDigits(DropTrailing(s, '0')) && FractionOf(DropTrailing(s, '0')) == FractionOf(s)
  {
    if s != [] && s[|s| - 1] == '0' {
      var front := s[..|s| - 1];
      DropZeros(front);
      TenfoldQuotient(ParseNat(front) as real, Pow10(|front|) as real);
    }
  }

  lemma TenfoldQuotient(x: real, y: real)
    requires y > 0.0
    ensures (10.0 * x) / (10.0 * y) == x / y
  {
    var q := x / y;
    assert q * (10.0 * y) == 10.0 * (q * y);
    Cancel((10.0 * x) / (10.0 * y), q, 10.0 * y);
  }

  lemma {:induction false} DropInside(head: string, tail: string, c: char)
    requires DropTrailing(tail, c) != []
    ensures DropTrailing(head + tail, c) == head + DropTrailing(tail, c)
  {
    if tail[|tail| - 1] == c {
      assert (head + tail)[..|head + tail| - 1] == head + tail[..|tail| - 1];
      DropInside(head, tail[..|tail| - 1], c);
    }
  }

  lemma {:induction false} DropAll(head: string, tail: string, c: char)
    requires DropTrailing(tail, c) == []
    ensures DropTrailing(head + tail, c) == DropTrailing(head, c)
  {
    if tail == [] {
      assert head + tail == head;
    } else {
      assert (head + tail)[..|head + tail| - 1] == head + tail[..|tail| - 1];
      DropAll(head, tail[..|tail| - 1], c);
    }
  }

  lemma {:induction false} DroppedEnd(s: string, c: char)
    ensures var r := DropTrailing(s, c); r != [] ==> r[|r| - 1] != c
  {
    if s != [] && s[|s| - 1] == c { DroppedEnd(s[..|s| - 1], c); }
  }

  /** The text in closed form: sign, whole part, and the fraction without trailing zeros, if any. */
  lemma TextForm(d: Decimal)
    ensures var units := Units(d);
      var head := (if d.negative then ['-'] else []) + Digits(units / 10000);
      var fraction := DropTrailing(Padded(units % 10000, 4), '0');
      ToText(d) == if fraction == [] then head else head + ['.'] + fraction
  {
    hide Units;
    hide Digits;
    hide Padded;
    var units := Units(d);
    var head := (if d.negative then ['-'] else []) + Digits(units / 10000);
    var padded := Padded(units % 10000, 4);
    var fraction := DropTrailing(padded, '0');
    assert IsDigit(Digits(units / 10000)[|Digits(units / 10000)| - 1]);
    assert FixedText(d.negative, units) == (head + ['.']) + padded;
    if fraction == [] {
      DropAll(head + ['.'], padded, '0');
      assert DropTrailing(head + ['.'], '0') == head + ['.'];
      assert (head + ['.'])[..|head|] == head;
      assert DropTrailing(head, '.') == head;
      assert DropTrailing(head + ['.'], '.') == head;
    } else {
      DropInside(head + ['.'], padded, '0');
      DropZeros(padded);
      assert IsDigit(fraction[|fraction| - 1]);
      var text := head + ['.'] + fraction;
      assert text[|text| - 1] == fraction[|fraction| - 1];
    }
  }

  lemma UnitsSplit(units: nat)
    ensures (units / 10000) as real + (units % 10000) as real / 10000.0 == units as real / 10000.0
  {
    assert units == 10000 * (units / 10000) + units % 10000;
  }

  /** Plain decimal text: an optional sign, digits, and a fraction unless it is empty. */
  function PlainText(negative: bool, whole: string, fraction: string): string {
    (if negative then ['-'] else []) + if fraction == [] then whole else whole + ['.'] + fraction
  }

  lemma ParsePlain(negative: bool, whole: string, fraction: string)
    requires AllDigits(whole) && AllDigits(fraction) && whole != []
    ensures ParseSigned(PlainText(negative, whole, fraction))
         == Some(SignedDecimal(negative, ParseNat(whole) as real + FractionOf(fraction)))
  {
    hide ParseNat;
    hide FractionOf;
    PrintedBody(whole, fraction);
    var body, text := if fraction == [] then whole else whole + ['.'] + fraction, PlainText(negative, whole, fraction);
    assert IsDigit(body[0]) by { assert body[0] == whole[0]; }
    assert negative ==> text[1..] == body;
    assert !negative ==> text == body;
  }

  /** Plain decimal text has nothing to ignore. */
  lemma PlainIsBare(negative: bool, whole: string, fraction: string)
    requires AllDigits(whole) && AllDigits(fraction) && whole != []
    ensures ParseDecimal(PlainText(negative, whole, fraction)) == ParseSigned(PlainText(negative, whole, fraction))
  {
    hide ParseSigned;
    hide ParseScaled;
    hide Strip;
    hide Without;
    hide PlainText;
    var text := PlainText(negative, whole, fraction);
    PlainCharacters(negative, whole, fraction);
    assert '_' !in text && 'e' !in text && 'E' !in text;
    assert !IsSpace(text[0]) && !IsSpace(text[|text| - 1]) by { assert text[0] in text && text[|text| - 1] in text; }
    StripFixed(text);
    WithoutAbsent(text, '_');
  }

  lemma PlainCharacters(negative: bool, whole: string, fraction: string)
    requires AllDigits(whole) && AllDigits(fraction) && whole != []
    ensures PlainText(negative, whole, fraction) != []
    ensures forall c :: c in PlainText(negative, whole, fraction) ==> IsDigit(c) || c == '-' || c == '.'
  {}

  function WholeDigits(units: nat): (r: string)
    ensures r != [] && AllDigits(r)
  {
    Digits(units / 10000)
  }

  function FractionDigits(units: nat): (r: string)
    ensures AllDigits(r)
  {
    DropZeros(Padded(units % 10000, 4));
    DropTrailing(Padded(units % 10000, 4), '0')
  }

  lemma TextIsPlain(d: Decimal)
    ensures ToText(d) == PlainText(d.negative, WholeDigits(Units(d)), FractionDigits(Units(d)))
  {
    hide Units;
    hide ToText;
    hide Digits;
    hide Padded;
    hide DropTrailing;
    TextForm(d);
    var head := (if d.negative then ['-'] else []) + WholeDigits(Units(d));
    assert head + ['.'] + FractionDigits(Units(d))
        == (if d.negative then ['-'] else []) + (WholeDigits(Units(d)) + ['.'] + FractionDigits(Units(d)));
  }

  lemma DigitsValue(units: nat)
    ensures ParseNat(WholeDigits(units)) as real + FractionOf(FractionDigits(units)) == units as real / 10000.0
  {
    hide FractionOf;
    hide ParseNat;
    hide Digits;
    hide Padded;
    DigitsParse(units / 10000);
    DropZeros(Padded(units % 10000, 4));
    FourPlaces(units % 10000);
    UnitsSplit(units);
  }

  /** Parsing the printed text gives the value rounded to four places, with its sign. */
  lemma ParsePrinted(d: Decimal)
    ensures ParseDecimal(ToText(d)) == Some(SignedDecimal(d.negative, Units(d) as real / 10000.0))
  {
    hide Units;
    hide ToText;
    hide PlainText;
    hide ParseDecimal;
    hide ParseBare;
    hide ParseSigned;
    hide WholeDigits;
    hide FractionDigits;
    hide ParseNat;
    hide FractionOf;
    TextIsPlain(d);
    PlainIsBare(d.negative, WholeDigits(Units(d)), FractionDigits(Units(d)));
    ParsePlain(d.negative, WholeDigits(Units(d)), FractionDigits(Units(d)));
    DigitsValue(Units(d));
  }

  lemma FourPlaces(n: nat)
    requires n < 10000
    ensures FractionOf(Padded(n, 4)) == n as real / 10000.0
  {
    assert Pow10(4) == 10000;
    PaddedParse(n, 4);
  }

  lemma PrintedBody(whole: string, fraction: string)
    requires AllDigits(whole) && whole != []
    ensures var body := if fraction == [] then whole else whole + ['.'] + fraction;
      Before(body, '.') == whole && After(body, '.') == fraction
  {
    assert '.' !in whole;
    if fraction == [] {
      BeforeAbsent(whole, '.');
      NothingAfter(whole, '.');
    } else {
      SplitAt(whole, '.', fraction);
    }
  }

  lemma {:induction false} NothingAfter(s: string, c: char)
    requires c !in s
    ensures After(s, c) == []
  {
    if s != [] { NothingAfter(s[1..], c); }
  }

  // ----- what else is read -----

  /** The parts of a number without exponent: one sign or none, and digits on at least one side of the point. */
  ghost predicate IsNumber(text: string, sign: string, whole: string, fraction: string) {
    && sign in ["", "-", "+"] && AllDigits(whole) && AllDigits(fraction) && whole + fraction != []
    && (text == sign + (whole + ['.'] + fraction) || (fraction == [] && text == sign + whole))
  }

  /** Every such text is read, as that number. */
  lemma NumberIsRead(text: string, sign: string, whole: string, fraction: string)
    requires IsNumber(text, sign, whole, fraction)
    ensures ParseSigned(text) == Some(SignedDecimal(sign == "-", ParseNat(whole) as real + FractionOf(fraction)))
  {
    hide ParseNat;
    hide FractionOf;
    var body := text[|sign|..];
    assert '.' !in whole;
    if text == sign + (whole + ['.'] + fraction) {
      assert body == whole + ['.'] + fraction;
      SplitAt(whole, '.', fraction);
    } else {
      assert body == whole;
      BeforeAbsent(whole, '.');
      NothingAfter(whole, '.');
    }
    assert text == sign + body && body != [] && body[0] != '-' && body[0] != '+';
  }

  /** And nothing else is. */
  lemma OnlyNumbersAreRead(text: string) returns (sign: string, whole: string, fraction: string)
    requires ParseSigned(text).Some?
    ensures IsNumber(text, sign, whole, fraction)
  {
    hide ParseNat;
    hide FractionOf;
    hide Before;
    hide After;
    var body := if text != [] && text[0] in {'-', '+'} then text[1..] else text;
    sign := if text != [] && text[0] in {'-', '+'} then [text[0]] else [];
    whole, fraction := Before(body, '.'), After(body, '.');
    assert AllDigits(whole) && AllDigits(fraction) && whole + fraction != [];
    hide AllDigits;
    assert text == sign + body;
    BeforeMeaning(body, '.');
  }

  lemma PlusIsRead(text: string)
    requires text != [] && text[0] != '-' && text[0] != '+'
    ensures ParseSigned(['+'] + text) == ParseSigned(text)
  {
    assert (['+'] + text)[1..] == text;
  }

  /** Digits and points, perhaps with a sign in front: nothing to ignore and no exponent. */
  ghost predicate IsBareNumber(text: string) {
    text != [] && (forall c :: c in text ==> IsDigit(c) || c == '.' || c == '-' || c == '+')
  }

  lemma BareNumber(text: string)
    requires IsBareNumber(text)
    ensures text != [] && ParseDecimal(text) == ParseSigned(text)
    ensures !IsSpace(text[0]) && !IsSpace(text[|text| - 1]) && '_' !in text && 'e' !in text && 'E' !in text
  {
    hide ParseSigned;
    hide ParseScaled;
    hide Strip;
    hide Without;
    assert text[0] in text && text[|text| - 1] in text;
    StripFixed(text);
    WithoutAbsent(text, '_');
  }

  lemma BlanksAreIgnored(text: string)
    requires IsBareNumber(text)
    ensures ParseDecimal([' '] + text + [' ']) == ParseSigned(text)
  {
    hide ParseBare;
    hide ParseSigned;
    hide Strip;
    hide IsBareNumber;
    BareNumber(text);
    StripOneBlank(text);
    StripFixed(text);
  }

  lemma UnderscoreIsIgnored(text: string)
    requires IsBareNumber(text)
    ensures ParseDecimal(text + ['_']) == ParseSigned(text)
  {
    hide ParseBare;
    hide ParseSigned;
    hide Strip;
    hide IsBareNumber;
    BareNumber(text);
    StripFixed(text);
    StripFixed(text + ['_']);
    WithoutLast(text, '_');
    WithoutAbsent(text, '_');
  }

  lemma PlusIsBare(text: string)
    requires IsBareNumber(text)
    ensures IsBareNumber(['+'] + text)
  {}

  /** Blanks around a number, a plus sign before it, and underscores in it do not matter. */
  lemma ReadLeniently(text: string)
    requires IsBareNumber(text) && text[0] != '-' && text[0] != '+'
    ensures ParseDecimal([' '] + text + [' ']) == ParseDecimal(text)
    ensures ParseDecimal(text + ['_']) == ParseDecimal(text)
    ensures ParseDecimal(['+'] + text) == ParseDecimal(text)
  {
    hide ParseDecimal;
    hide ParseSigned;
    BareNumber(text);
    BlanksAreIgnored(text);
    UnderscoreIsIgnored(text);
    PlusIsBare(text);
    BareNumber(['+'] + text);
    PlusIsRead(text);
  }

  lemma StripOneBlank(text: string)
    requires text != [] && !IsSpace(text[0]) && !IsSpace(text[|text| - 1])
    ensures Strip([' '] + text + [' ']) == text
  {
    hide IsSpace;
    var padded := [' '] + text + [' '];
    assert IsSpace(' ') by { BlankIsSpace(); }
    assert padded[..|padded| - 1] == [' '] + text;
    var left := [' '] + text;
    assert left[|left| - 1] == text[|text| - 1];
    assert RStrip(left) == left && RStrip(padded) == left;
    assert left[1..] == text && LStrip(text) == text;
  }

  lemma BlankIsSpace()
    ensures IsSpace(' ')
  {}

  lemma {:induction false} WithoutLast(text: string, c: char)
    requires c !in text
    ensures Without(text + [c], c) == text
  {
    if text == [] {
      assert text + [c] == [c];
    } else {
      assert (text + [c])[1..] == text[1..] + [c];
      WithoutLast(text[1..], c);
      assert text == [text[0]] + text[1..];
    }
  }

  lemma ExponentSplit(text: string, marker: char, exponent: string)
    requires marker in {'e', 'E'} && 'e' !in text && 'E' !in text && 'e' !in exponent
    ensures ParseBare(text + [marker] + exponent) == ParseScaled(text, exponent)
  {
    hide ParseScaled;
    hide ParseSigned;
    SplitAt(text, marker, exponent);
    var all := text + [marker] + exponent;
    assert all[|text|] == marker;
    if marker == 'E' { assert 'e' !in all; }
  }

  lemma ScaledBy(mantissa: string, digits: string)
    requires ParseSigned(mantissa).Some? && digits != [] && AllDigits(digits)
    ensures var d, places := ParseSigned(mantissa).value, ParseNat(digits);
      && ParseScaled(mantissa, digits) == Some(SignedDecimal(d.negative, Raised(d.magnitude, places)))
      && ParseScaled(mantissa, ['-'] + digits) == Some(SignedDecimal(d.negative, d.magnitude / Pow10(places) as real))
  {
    hide ParseSigned;
    hide ParseNat;
    hide Pow10;
    hide Raised;
    assert IsDigit(digits[0]) && (['-'] + digits)[1..] == digits;
  }

  /** An exponent moves the decimal point. */
  lemma ExponentShifts(text: string, places: nat, marker: char)
    requires IsBareNumber(text) && ParseSigned(text).Some? && marker in {'e', 'E'}
    ensures var d := ParseSigned(text).value;
      && ParseBare(text + [marker] + Digits(places)) == Some(SignedDecimal(d.negative, Raised(d.magnitude, places)))
      && ParseBare(text + [marker] + (['-'] + Digits(places))) == Some(SignedDecimal(d.negative, d.magnitude / Pow10(places) as real))
  {
    hide ParseBare;
    hide ParseSigned;
    hide ParseScaled;
    hide IsBareNumber;
    hide Pow10;
    hide Raised;
    BareNumber(text);
    DigitsParse(places);
    var digits := Digits(places);
    assert forall c :: c in digits ==> IsDigit(c);
    assert 'e' !in ['-'] + digits;
    ExponentSplit(text, marker, digits);
    ExponentSplit(text, marker, ['-'] + digits);
    ScaledBy(text, digits);
  }

  /** A marker without digits after it is no number. */
  lemma ExponentNeedsDigits(text: string, marker: char)
    requires IsBareNumber(text) && marker in {'e', 'E'}
    ensures ParseBare(text + [marker]) == None
  {
    hide ParseSigned;
    hide IsBareNumber;
    BareNumber(text);
    ExponentSplit(text, marker, []);
    assert text + [marker] + [] == text + [marker];
  }

  // ----- the fixed point -----

  function Reread(d: Decimal): Decimal { SignedDecimal(d.negative, Units(d) as real / 10000.0) }

  lemma RoundWhole(n: nat)
    ensures RoundHalfEven(n as real) == n
  {}

  /** Printing and parsing changes a value by at most 0.00005, and printing again gives the same text. */
  lemma PrintParseFixedPoint(d: Decimal)
    ensures ParseDecimal(ToText(d)) == Some(Reread(d))
    ensures -0.00005 <= ValueOf(Reread(d)) - ValueOf(d) <= 0.00005
    ensures Units(Reread(d)) == Units(d) && ToText(Reread(d)) == ToText(d)
  {
    ParsePrinted(d);
    assert (Units(d) as real / 10000.0) * 10000.0 == Units(d) as real;
    RoundWhole(Units(d));
  }

  /** Two decimals print alike exactly when they have the same sign and round to the same value. */
  lemma TextDeterminesValue(a: Decimal, b: Decimal)
    ensures ToText(a) == ToText(b) <==> a.negative == b.negative && Units(a) == Units(b)
  {
    hide Units;
    ParsePrinted(a);
    ParsePrinted(b);
    if ToText(a) == ToText(b) {
      assert Units(a) as real / 10000.0 == Units(b) as real / 10000.0;
    }
  }

  /** A percentage stays within 0..100 when it is printed and parsed. */
  lemma PercentStays(d: Decimal)
    requires !d.negative && d.magnitude <= 100.0
    ensures !Reread(d).negative && 0.0 <= Reread(d).magnitude <= 100.0
  {
    assert d.magnitude * 10000.0 <= 1000000.0;
    assert Units(d) <= 1000000;
  }
}
