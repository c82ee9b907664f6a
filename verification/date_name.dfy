/**
  The file name a recorded video is stored under: the selected day written
  with the pattern `yyyy-MM-dd` of a Gregorian date formatter, followed by
  `.mov`. `ParseFileName` reads such a name back; together the two are a
  bijection between calendar days and well-formed names.
 */
module DateName {
  import opened Wrappers
  import opened Decimal
  import opened SeqRegroup

  /** A day of the Gregorian calendar; `year` is the year of the Common Era. */
  datatype Date = Date(year: int, month: int, day: int)

  predicate IsLeapYear(y: int) {
    y % 4 == 0 && (y % 100 != 0 || y % 400 == 0)
  }

  function DaysInMonth(year: int, month: int): int {
    if month == 2 then (if IsLeapYear(year) then 29 else 28)
    else if month == 4 || month == 6 || month == 9 || month == 11 then 30
    else 31
  }

  predicate IsCalendarDay(d: Date) {
    1 <= d.year && 1 <= d.month <= 12 && 1 <= d.day <= DaysInMonth(d.year, d.month)
  }

  /** What a date picker can hold, with the time of day dropped. */
  type CalendarDate = d: Date | IsCalendarDay(d) witness Date(2024, 3, 1)

  const Extension: string := ".mov"

  /** The characters a video file name is made of. */
  predicate FileNameChar(c: char) {
    IsDigit(c) || c == '-' || c == '.' || c == 'm' || c == 'o' || c == 'v'
  }

  /** `yyyy-MM-dd`: year with at least four digits, month and day with exactly two. */
  function FormatDate(d: CalendarDate): string {
    Pad(d.year, 4) + "-" + Pad(d.month, 2) + "-" + Pad(d.day, 2)
  }

  function FileName(d: CalendarDate): (r: string)
    ensures |r| >= 14 && r[|r| - 4..] == Extension
    ensures |r| == 14 <==> d.year < 10000
    ensures forall i :: 0 <= i < |r| ==> FileNameChar(r[i])
  {
    TwoDigits(d.month);
    TwoDigits(d.day);
    YearWidth(d.year);
    FormatDate(d) + Extension
  }

  lemma YearWidth(year: nat)
    ensures |Pad(year, 4)| == 4 <==> year < 10000
  {
    if year < 10000 {
      DigitsLength(year, 4);
    } else {
      ValueBound(Pad(year, 4));
    }
  }

  lemma TwoDigits(n: nat)
    requires n < 100
    ensures |Pad(n, 2)| == 2
  {
    DigitsLength(n, 2);
  }

  /** Reads a name of the shape `<year>-<MM>-<dd>.mov` back into the day it names. */
  function ParseFileName(name: string): Option<CalendarDate> {
    if |name| < 14 || name[|name| - 4..] != Extension then None
    else ParseStem(name[..|name| - 4])
  }

  function ParseStem(stem: string): Option<CalendarDate>
    requires |stem| >= 10
  {
    var k := |stem|;
    if stem[k - 6] != '-' || stem[k - 3] != '-' then None
    else ParseFields(stem[..k - 6], stem[k - 5..k - 3], stem[k - 2..])
  }

  /** A year field longer than four digits may not start with '0', so that every day has one spelling. */
  function ParseFields(y: string, m: string, dd: string): Option<CalendarDate> {
    if !AllDigits(y) || !AllDigits(m) || !AllDigits(dd) then None
    else if |y| > 4 && y[0] == '0' then None
    else
      var d := Date(DigitsToNat(y), DigitsToNat(m), DigitsToNat(dd));
      if IsCalendarDay(d) then Some(d) else None
  }

  /** The name of a day reads back as that day. */
  lemma FileNameRoundTrip(d: CalendarDate)
    ensures ParseFileName(FileName(d)) == Some(d)
  {
    StemRoundTrip(d);
    NameParts(FormatDate(d), Extension);
  }

  lemma StemRoundTrip(d: CalendarDate)
    ensures |FormatDate(d)| >= 10 && ParseStem(FormatDate(d)) == Some(d)
  {
    var y, m, dd := Pad(d.year, 4), Pad(d.month, 2), Pad(d.day, 2);
    TwoDigits(d.month);
    TwoDigits(d.day);
    assert ParseFields(y, m, dd) == Some(d);
    StemParts(y, "-", m, "-", dd);
  }

  /** A name that reads as a day is exactly that day's name: no other spelling is accepted. */
  lemma ParsedNameIsFileName(name: string)
    requires ParseFileName(name).Some?
    ensures FileName(ParseFileName(name).value) == name
  {
    var d := ParseFileName(name).value;
    var stem := name[..|name| - 4];
    assert ParseStem(stem) == Some(d);
    var k := |stem|;
    var y := stem[..k - 6];
    var m := stem[k - 5..k - 3];
    var dd := stem[k - 2..];
    PadOfValue(y, 4);
    PadOfValue(m, 2);
    PadOfValue(dd, 2);
    Rejoin(stem);
    assert stem == y + "-" + m + "-" + dd;
    assert name == stem + name[|name| - 4..];
  }

  /** Well-formed names and calendar days correspond one to one. */
  lemma FileNameBijection(d: CalendarDate, name: string)
    ensures ParseFileName(name) == Some(d) <==> FileName(d) == name
  {
    if ParseFileName(name) == Some(d) {
      ParsedNameIsFileName(name);
    }
    if FileName(d) == name {
      FileNameRoundTrip(d);
    }
  }

  /** Two different days never share a video file. */
  lemma FileNameInjective(d1: CalendarDate, d2: CalendarDate)
    ensures FileName(d1) == FileName(d2) ==> d1 == d2
  {
    FileNameRoundTrip(d1);
    FileNameRoundTrip(d2);
  }
}
