/**
  The two checks a message text goes through: the lexical check `IsValidDate` (a .NET
  regular expression) and the strict parse `DateTime.TryParseExact(s, "dd.MM.yyyy",
  InvariantCulture, DateTimeStyles.None)`, together with the canonical rendering of a
  date in that format.
 */
module DateText {
  import opened Wrappers
  import opened Gregorian

  // ---------------------------------------------------------------- digits

  /** An ASCII digit: the only digits `TryParseExact` reads. */
  predicate IsAsciiDigit(c: char) {
    '0' <= c <= '9'
  }

  function DigitValue(c: char): (v: int)
    requires IsAsciiDigit(c)
    ensures 0 <= v <= 9
  {
    c as int - '0' as int
  }

  function DigitChar(v: int): (c: char)
    requires 0 <= v <= 9
    ensures IsAsciiDigit(c) && DigitValue(c) == v
  {
    ('0' as int + v) as char
  }

  /**
    The code point of the digit zero of every run of ten decimal digits (Unicode general
    category Nd, Unicode 15) in the Basic Multilingual Plane. .NET strings are UTF-16, so
    a digit outside that plane is two surrogate code units, neither of which is a digit.
   */
  const DecimalDigitZeros: seq<int> := [
    0x0030, 0x0660, 0x06F0, 0x07C0, 0x0966, 0x09E6, 0x0A66, 0x0AE6, 0x0B66, 0x0BE6,
    0x0C66, 0x0CE6, 0x0D66, 0x0DE6, 0x0E50, 0x0ED0, 0x0F20, 0x1040, 0x1090, 0x17E0,
    0x1810, 0x1946, 0x19D0, 0x1A80, 0x1A90, 0x1B50, 0x1BB0, 0x1C40, 0x1C50, 0xA620,
    0xA8D0, 0xA900, 0xA9D0, 0xA9F0, 0xAA50, 0xABF0, 0xFF10]

  /** What the regular-expression class `\d` matches: any Unicode decimal digit. */
  predicate IsDecimalDigit(c: char) {
    exists i :: 0 <= i < |DecimalDigitZeros| && DecimalDigitZeros[i] <= c as int < DecimalDigitZeros[i] + 10
  }

  lemma AsciiDigitIsDecimal(c: char)
    requires IsAsciiDigit(c)
    ensures IsDecimalDigit(c)
  {
    assert DecimalDigitZeros[0] <= c as int < DecimalDigitZeros[0] + 10;
  }

  predicate AllDigits(ds: string) {
    forall i :: 0 <= i < |ds| ==> IsAsciiDigit(ds[i])
  }

  function Pow10(n: nat): (p: nat)
    ensures p >= 1
  {
    if n == 0 then 1 else 10 * Pow10(n - 1)
  }

  /** The value of a string of ASCII digits, read most significant first. */
  function Number(ds: string): (n: int)
    requires AllDigits(ds)
    ensures 0 <= n < Pow10(|ds|)
  {
    if ds == [] then 0 else 10 * Number(ds[..|ds| - 1]) + DigitValue(ds[|ds| - 1])
  }

  /** `n` written with exactly `w` digits, padded with leading zeros. */
  function Pad(n: int, w: nat): (s: string)
    requires 0 <= n < Pow10(w)
    ensures |s| == w && AllDigits(s) && Number(s) == n
  {
    if w == 0 then []
    else
      var s := Pad(n / 10, w - 1) + [DigitChar(n % 10)];
      assert s[..|s| - 1] == Pad(n / 10, w - 1);
      s
  }

  /** Every string of `w` ASCII digits is the padding of its own value. */
  lemma {:induction false} PadNumber(ds: string)
    requires AllDigits(ds)
    ensures Pad(Number(ds), |ds|) == ds
  {
    if ds != [] {
      var init, last := ds[..|ds| - 1], ds[|ds| - 1];
      PadNumber(init);
      var n := Number(ds);
      assert n == 10 * Number(init) + DigitValue(last);
      assert n / 10 == Number(init) && n % 10 == DigitValue(last);
      assert DigitChar(DigitValue(last)) == last;
      assert Pad(n, |ds|) == Pad(Number(init), |init|) + [last];
      assert ds == init + [last];
    }
  }

  lemma AllDigitsAppend(a: string, b: string)
    requires AllDigits(a) && AllDigits(b)
    ensures AllDigits(a + b)
  {
    forall i | 0 <= i < |a + b| ensures IsAsciiDigit((a + b)[i]) {
      if i >= |a| { assert (a + b)[i] == b[i - |a|]; }
    }
  }

  lemma ScaleByTen(x: int, y: int)
    ensures x * (10 * y) == 10 * (x * y)
  {
  }

  /** Reading a concatenation of digit strings. */
  lemma {:induction false} NumberAppend(a: string, b: string)
    requires AllDigits(a) && AllDigits(b)
    ensures AllDigits(a + b) && Number(a + b) == Number(a) * Pow10(|b|) + Number(b)
  {
    AllDigitsAppend(a, b);
    if b == [] {
      assert a + b == a;
    } else {
      var init, last := b[..|b| - 1], b[|b| - 1];
      assert (a + b)[..|a + b| - 1] == a + init;
      assert (a + b)[|a + b| - 1] == last;
      NumberAppend(a, init);
      var na, p := Number(a), Pow10(|init|);
      assert Pow10(|b|) == 10 * p;
      assert Number(a + b) == 10 * Number(a + init) + DigitValue(last);
      assert Number(b) == 10 * Number(init) + DigitValue(last);
      ScaleByTen(na, p);
    }
  }

  // ---------------------------------------------------------------- the lexical check

  /** `(0[1-9]|[12][0-9]|3[01])`: a day 01 to 31. */
  predicate DayAlternatives(a: char, b: char) {
    || (a == '0' && '1' <= b <= '9')
    || ((a == '1' || a == '2') && '0' <= b <= '9')
    || (a == '3' && (b == '0' || b == '1'))
  }

  /** `(0[1-9]|1[0-2])`: a month 01 to 12. */
  predicate MonthAlternatives(a: char, b: char) {
    || (a == '0' && '1' <= b <= '9')
    || (a == '1' && '0' <= b <= '2')
  }

  /** `(19|20)`: the century of the year. */
  predicate CenturyAlternatives(a: char, b: char) {
    (a == '1' && b == '9') || (a == '2' && b == '0')
  }

  /** The ten characters of the pattern between its anchors, matched from the start of `s`. */
  predicate PatternBody(s: string)
    requires |s| >= 10
  {
    && DayAlternatives(s[0], s[1])
    && s[2] == '.'
    && MonthAlternatives(s[3], s[4])
    && s[5] == '.'
    && CenturyAlternatives(s[6], s[7])
    && IsDecimalDigit(s[8])
    && IsDecimalDigit(s[9])
  }

  /** `$` without the multiline option: the end of the text, or just before a final line feed. */
  predicate EndAnchor(s: string, pos: int) {
    pos == |s| || (0 <= pos == |s| - 1 && s[pos] == '\n')
  }

  /**
    `Regex.IsMatch(input, @"^(0[1-9]|[12][0-9]|3[01])\.(0[1-9]|1[0-2])\.(19|20)\d{2}$")`.
    `^` pins the match to position 0 and every part of the pattern has a fixed width,
    so the only candidate match is the first ten characters.
   */
  predicate IsValidDate(s: string)
    ensures IsValidDate(s) ==> (|s| == 10 || (|s| == 11 && s[10] == '\n')) && s[2] == '.' && s[5] == '.'
    ensures IsValidDate(s) ==> AllDigits(s[0..2]) && AllDigits(s[3..5]) && AllDigits(s[6..8])
  {
    |s| >= 10 && PatternBody(s) && EndAnchor(s, 10)
  }

  /**
    The language `IsValidDate` accepts, stated by value: an optional single trailing
    line feed, ASCII digits for day, month and century, any decimal digits for the last
    two year digits, day 1..31, month 1..12, century 19 or 20.
   */
  lemma AcceptedShape(s: string)
    ensures IsValidDate(s) <==>
      && (|s| == 10 || (|s| == 11 && s[10] == '\n'))
      && s[2] == '.' && s[5] == '.'
      && AllDigits(s[0..2]) && AllDigits(s[3..5]) && AllDigits(s[6..8])
      && IsDecimalDigit(s[8]) && IsDecimalDigit(s[9])
      && 1 <= Number(s[0..2]) <= 31
      && 1 <= Number(s[3..5]) <= 12
      && 19 <= Number(s[6..8]) <= 20
  {
    if |s| >= 10 {
      NumberTwo(s[0..2]);
      NumberTwo(s[3..5]);
      NumberTwo(s[6..8]);
    }
  }

  lemma NumberTwo(ds: string)
    requires |ds| == 2
    ensures AllDigits(ds) <==> IsAsciiDigit(ds[0]) && IsAsciiDigit(ds[1])
    ensures AllDigits(ds) ==> Number(ds) == 10 * DigitValue(ds[0]) + DigitValue(ds[1])
  {
    if AllDigits(ds) {
      assert ds[..1][..0] == [];
    }
  }

  /** The day an accepted text names: 1..31. */
  function DayOf(s: string): (d: int)
    requires IsValidDate(s)
    ensures AllDigits(s[0..2]) && d == Number(s[0..2])
    ensures 1 <= d <= 31
  {
    AcceptedShape(s);
    Number(s[0..2])
  }

  /** The month an accepted text names: 1..12. */
  function MonthOf(s: string): (m: int)
    requires IsValidDate(s)
    ensures AllDigits(s[3..5]) && m == Number(s[3..5])
    ensures 1 <= m <= 12
  {
    AcceptedShape(s);
    Number(s[3..5])
  }

  /** The year an accepted text names when its last two digits are ASCII: 1900..2099. */
  function YearOf(s: string): (y: int)
    requires IsValidDate(s) && AllDigits(s[8..10])
    ensures AllDigits(s[6..10]) && y == Number(s[6..10])
    ensures 1900 <= y <= 2099
  {
    AcceptedShape(s);
    var century, rest := s[6..8], s[8..10];
    assert s[6..10] == century + rest;
    NumberAppend(century, rest);
    assert Pow10(|rest|) == 100;
    assert Number(s[6..10]) == Number(century) * 100 + Number(rest);
    Number(s[6..10])
  }

  // ---------------------------------------------------------------- the strict parse

  /**
    `DateTime.TryParseExact(s, "dd.MM.yyyy", InvariantCulture, DateTimeStyles.None)`:
    exactly two ASCII digits of day, a dot, two of month, a dot, four of year and nothing
    after them (no surrounding white space is allowed); then the date must exist in the
    calendar. `None` is the `false` return, after which the source returns `null`.
   */
  function ParseExact(s: string): (r: Option<Date>)
    ensures r.Some? ==> IsValid(r.value)
  {
    if |s| == 10 && AllDigits(s[0..2]) && s[2] == '.' && AllDigits(s[3..5]) && s[5] == '.' && AllDigits(s[6..10]) then
      var d := Date(Number(s[6..10]), Number(s[3..5]), Number(s[0..2]));
      if IsValid(d) then Some(d) else None
    else None
  }

  /** A date written in the format `dd.MM.yyyy`. */
  function Render(d: Date): (s: string)
    requires 0 <= d.day < 100 && 0 <= d.month < 100 && 0 <= d.year < 10000
    ensures |s| == 10
  {
    Pad(d.day, 2) + "." + Pad(d.month, 2) + "." + Pad(d.year, 4)
  }

  lemma RenderParts(d: Date)
    requires 0 <= d.day < 100 && 0 <= d.month < 100 && 0 <= d.year < 10000
    ensures var s := Render(d);
      s[0..2] == Pad(d.day, 2) && s[2] == '.' && s[3..5] == Pad(d.month, 2) && s[5] == '.'
      && s[6..10] == Pad(d.year, 4)
  {
  }

  /**
    The strict parse reads back the rendering of every date with two-digit day and month
    and four-digit year, and returns it exactly when the calendar holds that date.
   */
  lemma ParseRender(d: Date)
    requires 0 <= d.day < 100 && 0 <= d.month < 100 && 0 <= d.year < 10000
    ensures ParseExact(Render(d)) == if IsValid(d) then Some(d) else None
  {
    RenderParts(d);
  }

  /** What a successful strict parse has read. */
  lemma ParsedFields(s: string)
    requires ParseExact(s).Some?
    ensures |s| == 10 && s[2] == '.' && s[5] == '.'
    ensures AllDigits(s[0..2]) && AllDigits(s[3..5]) && AllDigits(s[6..10])
    ensures ParseExact(s).value == Date(Number(s[6..10]), Number(s[3..5]), Number(s[0..2]))
  {
  }

  lemma TenCharsEqual(r: string, s: string)
    requires |r| == 10 && |s| == 10
    requires r[0..2] == s[0..2] && r[2] == s[2] && r[3..5] == s[3..5] && r[5] == s[5] && r[6..10] == s[6..10]
    ensures r == s
  {
    assert r == r[0..2] + [r[2]] + r[3..5] + [r[5]] + r[6..10];
    assert s == s[0..2] + [s[2]] + s[3..5] + [s[5]] + s[6..10];
  }

  /** The strict parse accepts only the canonical rendering of the date it returns. */
  lemma RenderParse(s: string)
    requires ParseExact(s).Some?
    ensures Render(ParseExact(s).value) == s
  {
    ParsedFields(s);
    var d := ParseExact(s).value;
    RenderParts(d);
    PadNumber(s[0..2]);
    PadNumber(s[3..5]);
    PadNumber(s[6..10]);
    TenCharsEqual(Render(d), s);
  }

  /** Every date of the years 1900..2099 the calendar holds, rendered, passes the lexical check. */
  lemma RenderAccepted(d: Date)
    requires IsValid(d) && 1900 <= d.year <= 2099
    ensures IsValidDate(Render(d))
  {
    var s := Render(d);
    RenderParts(d);
    var year, century, rest := s[6..10], s[6..8], s[8..10];
    assert year == century + rest;
    assert AllDigits(century) && AllDigits(rest) by {
      assert century == year[0..2] && rest == year[2..4];
    }
    AsciiDigitIsDecimal(s[8]);
    AsciiDigitIsDecimal(s[9]);
    NumberAppend(century, rest);
    assert Pow10(|rest|) == 100;
    assert d.year == Number(century) * 100 + Number(rest);
    AcceptedShape(s);
  }

  /**
    The gap between the two checks: a text that passes the lexical check fails the strict
    parse exactly when it ends in a line feed, when one of its last two year digits is a
    non-ASCII decimal digit, or when its day does not exist in that month of that year.
    When it parses, the date is the one the text spells.
   */
  lemma AcceptedButUnparsable(s: string)
    requires IsValidDate(s)
    ensures ParseExact(s).None? <==>
      || |s| == 11
      || !AllDigits(s[8..10])
      || DayOf(s) > DaysInMonth(YearOf(s), MonthOf(s))
    ensures ParseExact(s).Some? ==> ParseExact(s) == Some(Date(YearOf(s), MonthOf(s), DayOf(s)))
  {
    if AllDigits(s[8..10]) {
      var y := YearOf(s);
    }
  }

  /** A date that passes both checks lies in the years 1900..2099. */
  lemma AcceptedAndParsedYear(s: string)
    requires IsValidDate(s) && ParseExact(s).Some?
    ensures 1900 <= ParseExact(s).value.year <= 2099
  {
    AcceptedButUnparsable(s);
  }

  // ---------------------------------------------------------------- examples

  /** The values of the three fields of a text with ASCII digits in all eight digit places. */
  lemma SpelledFields(s: string)
    requires |s| >= 10
    requires IsAsciiDigit(s[0]) && IsAsciiDigit(s[1]) && IsAsciiDigit(s[3]) && IsAsciiDigit(s[4])
    requires IsAsciiDigit(s[6]) && IsAsciiDigit(s[7]) && IsAsciiDigit(s[8]) && IsAsciiDigit(s[9])
    ensures AllDigits(s[0..2]) && Number(s[0..2]) == 10 * DigitValue(s[0]) + DigitValue(s[1])
    ensures AllDigits(s[3..5]) && Number(s[3..5]) == 10 * DigitValue(s[3]) + DigitValue(s[4])
    ensures AllDigits(s[6..10]) && Number(s[6..10])
      == 1000 * DigitValue(s[6]) + 100 * DigitValue(s[7]) + 10 * DigitValue(s[8]) + DigitValue(s[9])
  {
    NumberTwo(s[0..2]);
    NumberTwo(s[3..5]);
    var century, rest := s[6..8], s[8..10];
    NumberTwo(century);
    NumberTwo(rest);
    assert s[6..10] == century + rest;
    NumberAppend(century, rest);
    assert Pow10(|rest|) == 100;
  }

  /** `31.02.2020` passes the lexical check but names a day February 2020 does not have. */
  lemma ThirtyFirstFebruaryAccepted()
    ensures IsValidDate("31.02.2020") && ParseExact("31.02.2020") == None
  {
    var s := "31.02.2020";
    AsciiDigitIsDecimal(s[8]);
    AsciiDigitIsDecimal(s[9]);
    SpelledFields(s);
  }

  /** `31.04.2021` passes the lexical check but April has 30 days. */
  lemma ThirtyFirstAprilAccepted()
    ensures IsValidDate("31.04.2021") && ParseExact("31.04.2021") == None
  {
    var s := "31.04.2021";
    AsciiDigitIsDecimal(s[8]);
    AsciiDigitIsDecimal(s[9]);
    SpelledFields(s);
  }

  /** 29 February parses in the leap year 2024. */
  lemma LeapDayParse()
    ensures ParseExact("29.02.2024") == Some(Date(2024, 2, 29))
  {
    SpelledFields("29.02.2024");
  }

  /** 29 February fails in 2023 and in 1900, a century not divisible by 400. */
  lemma NonLeapDayRejected()
    ensures ParseExact("29.02.2023") == None
    ensures ParseExact("29.02.1900") == None
  {
    SpelledFields("29.02.2023");
    SpelledFields("29.02.1900");
  }

  /** A trailing line feed passes the lexical check and fails the strict parse. */
  lemma TrailingLineFeed()
    ensures IsValidDate("10.11.2010\n") && ParseExact("10.11.2010\n") == None
  {
    assert IsDecimalDigit('1') by { AsciiDigitIsDecimal('1'); }
    assert IsDecimalDigit('0') by { AsciiDigitIsDecimal('0'); }
  }

  /** Arabic-Indic digits in the last two year places pass `\d` but not the strict parse. */
  lemma NonAsciiYearDigits()
    ensures IsValidDate("10.11.20١٠") && ParseExact("10.11.20١٠") == None
  {
    assert IsDecimalDigit('١') by { assert DecimalDigitZeros[1] == 0x0660; }
    assert IsDecimalDigit('٠') by { assert DecimalDigitZeros[1] == 0x0660; }
  }

  /** Year-first with dashes fails the lexical check. */
  lemma IsoOrderRejected()
    ensures !IsValidDate("2010-11-10")
  {
  }
}
