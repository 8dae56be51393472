/** `java.time.LocalDate`: calendar dates, their order, and their ISO-8601 text. */
module Dates {
  import opened Wrappers
  import opened Decimal
  import opened Sequences

  /** Year, month (1-12) and day of month, as `LocalDate.of(year, month, day)` takes them. */
  datatype Date = Date(year: int, month: int, day: int)

  /** The year range `LocalDate` accepts. */
  const MinYear: int := -999_999_999
  const MaxYear: int := 999_999_999

  /** Proleptic Gregorian leap years, as `IsoChronology.isLeapYear` decides them. */
  predicate IsLeapYear(y: int) {
    y % 4 == 0 && (y % 100 != 0 || y % 400 == 0)
  }

  function DaysInMonth(y: int, m: int): (n: int)
    requires 1 <= m <= 12
    ensures 28 <= n <= 31
  {
    if m == 2 then (if IsLeapYear(y) then 29 else 28)
    else if m == 4 || m == 6 || m == 9 || m == 11 then 30
    else 31
  }

  /** The dates `LocalDate.of` accepts without throwing `DateTimeException`. */
  predicate IsValidDate(d: Date) {
    && MinYear <= d.year <= MaxYear
    && 1 <= d.month <= 12
    && 1 <= d.day <= DaysInMonth(d.year, d.month)
  }

  type LocalDate = d: Date | IsValidDate(d) witness Date(1970, 1, 1)

  /** `a.isBefore(b)`: `compareTo` is by year, then month, then day. */
  predicate IsBefore(a: Date, b: Date) {
    || a.year < b.year
    || (a.year == b.year && a.month < b.month)
    || (a.year == b.year && a.month == b.month && a.day < b.day)
  }

  /** `a.isAfter(b)`: strictly later; a date is never after itself. */
  predicate IsAfter(a: Date, b: Date) {
    IsBefore(b, a)
  }

  /**
   * The year part of `LocalDate.toString`: exactly four digits, zero-padded, for years 0 to 9999;
   * '+' and the digits above 9999; '-' and at least four digits below zero.
   */
  function YearText(y: int): (s: string)
    ensures |s| >= 4
    ensures 0 <= y <= 9999 ==> |s| == 4 && AllDigits(s)
    ensures y > 9999 <==> s[0] == '+'
    ensures y < 0 <==> s[0] == '-'
    ensures s[0] == '+' || s[0] == '-' ==> AllDigits(s[1..])
    ensures y < 0 ==> |s| >= 5
    ensures y > 9999 ==> |s| >= 6
    ensures (s[0] == '+' || s[0] == '-') && |s| > 5 ==> s[1] != '0'
  {
    if y > 9999 then
      var digits := NatToString(y);
      NatToStringAtLeastFive(y);
      assert ("+" + digits)[1..] == digits;
      "+" + digits
    else if y < 0 then
      var digits := PadLeft(NatToString(-y), 4);
      assert ("-" + digits)[1..] == digits;
      "-" + digits
    else
      NatToStringAtMostFour(y);
      var digits := PadLeft(NatToString(y), 4);
      assert IsDigit(digits[0]);
      digits
  }

  /**
   * `LocalDate.toString`: the year text, then the month and the day as two digits each, all
   * separated by '-'.
   */
  function IsoText(d: LocalDate): (s: string)
    ensures |s| >= 10
    ensures 0 <= d.year <= 9999 ==> |s| == 10
    ensures s[..|s| - 6] == YearText(d.year)
    ensures s[|s| - 6] == '-' && s[|s| - 3] == '-'
    ensures AllDigits(s[|s| - 5..|s| - 3]) && AllDigits(s[|s| - 2..])
  {
    var yt := YearText(d.year);
    var mm := PadLeft(NatToString(d.month), 2);
    var dd := PadLeft(NatToString(d.day), 2);
    IsoTextOfParts(yt, mm, dd);
    yt + "-" + mm + "-" + dd
  }

  /** Where the year text, the month and the day sit in `yt + "-" + mm + "-" + dd`. */
  lemma IsoTextOfParts(yt: string, mm: string, dd: string)
    requires |mm| == 2 && |dd| == 2
    ensures var s := yt + "-" + mm + "-" + dd;
      && |s| == |yt| + 6
      && s[..|s| - 6] == yt && s[|s| - 6] == '-' && s[|s| - 3] == '-'
      && s[|s| - 5..|s| - 3] == mm && s[|s| - 2..] == dd
  {
    var s := yt + "-" + mm + "-" + dd;
    var tail := "-" + mm + "-" + dd;
    AppendAssociates(yt, "-", mm);
    AppendAssociates(yt, "-" + mm, "-");
    AppendAssociates(yt, "-" + mm + "-", dd);
    assert s == yt + tail;
    SplitAtSeam(yt, tail);
    assert tail[1..3] == mm;
    assert tail[4..] == dd;
  }

  /** The hire date of the records in the integration tests: `2020-01-01`. */
  lemma IsoTextExample()
    ensures IsoText(Date(2020, 1, 1)) == "2020-01-01"
  {
    var d: LocalDate := Date(2020, 1, 1);
    var yt, mm := YearText(2020), PadLeft(NatToString(1), 2);
    assert IsoText(d) == yt + "-" + mm + "-" + mm;
    YearTextOf2020();
    TwoDigitsOfOne();
    JoinIsoExample(yt, mm);
  }

  /** The year "2020" and the month and day "01" joined by dashes. */
  lemma JoinIsoExample(yt: string, mm: string)
    requires yt == "2020" && mm == "01"
    ensures yt + "-" + mm + "-" + mm == "2020-01-01"
  {
  }

  lemma TwoDigitsOfOne()
    ensures PadLeft(NatToString(1), 2) == "01"
  {
    assert NatToString(1) == "1";
    assert Zeros(1) == "0";
  }

  lemma YearTextOf2020()
    ensures YearText(2020) == "2020"
  {
    assert NatToString(2020) == "2020" by {
      assert NatToString(20) == "20";
      assert NatToString(202) == "202";
    }
  }

  function ParseYear(s: string): Option<int> {
    if |s| > 1 && s[0] == '+' && AllDigits(s[1..]) then Some(ParseDigits(s[1..]))
    else if |s| > 1 && s[0] == '-' && AllDigits(s[1..]) then Some(0 - ParseDigits(s[1..]) as int)
    else if |s| > 0 && AllDigits(s) then Some(ParseDigits(s))
    else None
  }

  /** Reads back the text `IsoText` writes: a year, then `-MM-dd`. */
  function ParseIso(s: string): Option<Date> {
    if |s| < 10 then None
    else
      var tail := s[|s| - 6..];
      if tail[0] == '-' && tail[3] == '-' && AllDigits(tail[1..3]) && AllDigits(tail[4..]) then
        match ParseYear(s[..|s| - 6])
        case Some(y) => Some(Date(y, ParseDigits(tail[1..3]), ParseDigits(tail[4..])))
        case None => None
      else None
  }

  lemma ParseYearOfYearText(y: int)
    ensures ParseYear(YearText(y)) == Some(y)
  {
    if y > 9999 {
      ParsePositiveYear(y);
    } else if y < 0 {
      ParseNegativeYear(y);
    } else {
      ParsePlainYear(y);
    }
  }

  lemma ParsePositiveYear(y: int)
    requires y > 9999
    ensures ParseYear("+" + NatToString(y)) == Some(y)
  {
    ParseDigitsOfNatToString(y);
    ParseYearOfSigned(NatToString(y));
  }

  lemma ParseNegativeYear(y: int)
    requires y < 0
    ensures ParseYear("-" + PadLeft(NatToString(-y), 4)) == Some(y)
  {
    var n: nat := -y;
    var digits := PadLeft(NatToString(n), 4);
    assert |digits| >= 4;
    ParseDigitsOfPadded(n, 4);
    assert AllDigits(digits) && ParseDigits(digits) == n;
    ParseYearOfNegated(digits, y);
  }

  /** '+' and then digits read as the value of those digits. */
  lemma ParseYearOfSigned(digits: string)
    requires |digits| > 0 && AllDigits(digits)
    ensures ParseYear("+" + digits) == Some(ParseDigits(digits))
  {
    assert ("+" + digits)[1..] == digits;
  }

  /** '-' and then digits worth `-y` read as `y`. */
  lemma ParseYearOfNegated(digits: string, y: int)
    requires |digits| > 0 && AllDigits(digits) && ParseDigits(digits) == -y
    ensures ParseYear("-" + digits) == Some(y)
  {
    assert ("-" + digits)[1..] == digits;
  }

  lemma ParsePlainYear(y: nat)
    ensures ParseYear(PadLeft(NatToString(y), 4)) == Some(y)
  {
    var digits := PadLeft(NatToString(y), 4);
    ParseDigitsOfPadded(y, 4);
    ParseYearOfDigits(digits);
  }

  /** Digits alone, with no sign, read as a year. */
  lemma ParseYearOfDigits(s: string)
    requires |s| > 0 && AllDigits(s)
    ensures ParseYear(s) == Some(ParseDigits(s))
  {
    assert IsDigit(s[0]);
  }

  /** The ISO text of a date is lossless: it reads back as the same date. */
  lemma IsoTextRoundTrip(d: LocalDate)
    ensures ParseIso(IsoText(d)) == Some(d)
  {
    var mm := PadLeft(NatToString(d.month), 2);
    var dd := PadLeft(NatToString(d.day), 2);
    ParseDigitsOfPadded(d.month, 2);
    ParseDigitsOfPadded(d.day, 2);
    ParseYearOfYearText(d.year);
    ParseIsoOfParts(YearText(d.year), mm, dd);
  }

  /** `ParseIso` splits its input into the year text and two two-digit fields. */
  lemma ParseIsoOfParts(yt: string, mm: string, dd: string)
    requires |yt| >= 4 && |mm| == 2 && |dd| == 2 && AllDigits(mm) && AllDigits(dd)
    requires ParseYear(yt).Some?
    ensures ParseIso(yt + "-" + mm + "-" + dd)
         == Some(Date(ParseYear(yt).value, ParseDigits(mm), ParseDigits(dd)))
  {
    var s := yt + "-" + mm + "-" + dd;
    var x := "-" + mm + "-";
    var tail := x + dd;
    AppendAssociates(yt, "-", mm);
    AppendAssociates(yt, "-" + mm, "-");
    AppendAssociates(yt, x, dd);
    assert s == yt + tail;
    assert |tail| == 6 && |s| - 6 == |yt|;
    SplitAtSeam(yt, tail);
    assert tail[0] == '-' && tail[3] == '-';
    assert tail[1..3] == mm;
    assert tail[4..] == dd;
  }

  /** Two dates with the same ISO text are the same date. */
  lemma IsoTextInjective(a: LocalDate, b: LocalDate)
    requires IsoText(a) == IsoText(b)
    ensures a == b
  {
    IsoTextRoundTrip(a);
    IsoTextRoundTrip(b);
  }
}
