/** Calendar dates, the EXIF `DateTime` text form, and the order the date
    filter compares dates by. */
module Dates {
  import opened Wrappers

  /** A `datetime.date`. */
  datatype Date = Date(year: int, month: int, day: int)

  /** A `datetime.datetime` without fractions of a second or time zone. */
  datatype DateTime = DateTime(date: Date, hour: int, minute: int, second: int)

  const MinYear: int := 1
  const MaxYear: int := 9999

  predicate IsLeapYear(y: int) {
    y % 4 == 0 && (y % 100 != 0 || y % 400 == 0)
  }

  function DaysInMonth(year: int, month: int): (n: int)
    requires 1 <= month <= 12
    ensures 28 <= n <= 31
    ensures n == 29 <==> month == 2 && IsLeapYear(year)
  {
    if month == 2 then (if IsLeapYear(year) then 29 else 28)
    else if month == 4 || month == 6 || month == 9 || month == 11 then 30
    else 31
  }

  /** The dates `datetime.date` can represent. */
  predicate ValidDate(d: Date) {
    && MinYear <= d.year <= MaxYear
    && 1 <= d.month <= 12
    && 1 <= d.day <= DaysInMonth(d.year, d.month)
  }

  predicate ValidDateTime(dt: DateTime) {
    && ValidDate(dt.date)
    && 0 <= dt.hour <= 23
    && 0 <= dt.minute <= 59
    && 0 <= dt.second <= 59
  }

  /** `a <= b` on dates: year, then month, then day. */
  predicate DateLe(a: Date, b: Date) {
    || a.year < b.year
    || (a.year == b.year && (a.month < b.month || (a.month == b.month && a.day <= b.day)))
  }

  // ---------------------------------------------------------------------
  // Decimal digits

  predicate IsDigit(c: char) {
    '0' <= c <= '9'
  }

  predicate AllDigits(s: string) {
    forall i :: 0 <= i < |s| ==> IsDigit(s[i])
  }

  function DigitValue(c: char): (d: int)
    requires IsDigit(c)
    ensures 0 <= d <= 9
  {
    c as int - '0' as int
  }

  function DigitChar(d: int): (c: char)
    requires 0 <= d <= 9
    ensures IsDigit(c) && DigitValue(c) == d
  {
    ('0' as int + d) as char
  }

  function Pow10(n: nat): (p: nat)
    ensures p >= 1
  {
    if n == 0 then 1 else 10 * Pow10(n - 1)
  }

  /** The value of a string of decimal digits, most significant first. */
  function ParseDigits(s: string): (n: int)
    requires AllDigits(s)
    ensures 0 <= n < Pow10(|s|)
  {
    if |s| == 0 then 0
    else ParseDigits(s[..|s| - 1]) * 10 + DigitValue(s[|s| - 1])
  }

  /** `n` written with exactly `width` digits, zero-padded on the left. */
  function PadDigits(n: int, width: nat): (s: string)
    requires 0 <= n < Pow10(width)
    ensures |s| == width && AllDigits(s)
  {
    if width == 0 then []
    else PadDigits(n / 10, width - 1) + [DigitChar(n % 10)]
  }

  lemma {:induction false} ParsePad(n: int, width: nat)
    requires 0 <= n < Pow10(width)
    ensures ParseDigits(PadDigits(n, width)) == n
  {
    if width > 0 {
      var s := PadDigits(n, width);
      assert s[..|s| - 1] == PadDigits(n / 10, width - 1);
      ParsePad(n / 10, width - 1);
    }
  }

  lemma {:induction false} PadParse(s: string)
    requires AllDigits(s)
    ensures PadDigits(ParseDigits(s), |s|) == s
  {
    if |s| > 0 {
      var init, d := s[..|s| - 1], DigitValue(s[|s| - 1]);
      var n := ParseDigits(s);
      assert n / 10 == ParseDigits(init) && n % 10 == d;
      PadParse(init);
      assert init + [s[|s| - 1]] == s;
    }
  }

  // ---------------------------------------------------------------------
  // The EXIF DateTime text form "YYYY:MM:DD HH:MM:SS"

  /** The character layout the format "%Y:%m:%d %H:%M:%S" asks for, read
      with fixed-width fields. */
  predicate HasExifLayout(s: string) {
    && |s| == 19
    && s[4] == ':' && s[7] == ':' && s[10] == ' ' && s[13] == ':' && s[16] == ':'
    && AllDigits(s[0..4]) && AllDigits(s[5..7]) && AllDigits(s[8..10])
    && AllDigits(s[11..13]) && AllDigits(s[14..16]) && AllDigits(s[17..19])
  }

  /** `datetime.strptime(s, "%Y:%m:%d %H:%M:%S")`: the fields are read by
      position, and the result exists only when they name a real instant
      (month 1..12, a day the month has, hour 0..23, minute and second 0..59,
      year 1..9999). */
  function ParseExifDateTime(s: string): (r: Option<DateTime>)
    ensures r.Some? ==> ValidDateTime(r.value) && HasExifLayout(s)
  {
    if !HasExifLayout(s) then None
    else
      var dt := DateTime(Date(ParseDigits(s[0..4]), ParseDigits(s[5..7]), ParseDigits(s[8..10])),
                         ParseDigits(s[11..13]), ParseDigits(s[14..16]), ParseDigits(s[17..19]));
      if ValidDateTime(dt) then Some(dt) else None
  }

  /** Six fields written in the fixed-width layout, whether or not they name
      a real instant. */
  function ExifText(year: int, month: int, day: int, hour: int, minute: int, second: int): (s: string)
    requires 0 <= year < 10000
    requires 0 <= month < 100 && 0 <= day < 100
    requires 0 <= hour < 100 && 0 <= minute < 100 && 0 <= second < 100
    ensures HasExifLayout(s)
  {
    var y, mo, d := PadDigits(year, 4), PadDigits(month, 2), PadDigits(day, 2);
    var h, mi, se := PadDigits(hour, 2), PadDigits(minute, 2), PadDigits(second, 2);
    JoinedLayout(y, mo, d, h, mi, se);
    y + ":" + mo + ":" + d + " " + h + ":" + mi + ":" + se
  }

  /** Six digit fields of the right widths, joined with the separators,
      have the layout. */
  lemma JoinedLayout(y: string, mo: string, d: string, h: string, mi: string, se: string)
    requires |y| == 4 && |mo| == 2 && |d| == 2 && |h| == 2 && |mi| == 2 && |se| == 2
    requires AllDigits(y) && AllDigits(mo) && AllDigits(d)
    requires AllDigits(h) && AllDigits(mi) && AllDigits(se)
    ensures HasExifLayout(y + ":" + mo + ":" + d + " " + h + ":" + mi + ":" + se)
  {
    var s := y + ":" + mo + ":" + d + " " + h + ":" + mi + ":" + se;
    assert s[0..4] == y && s[5..7] == mo && s[8..10] == d;
    assert s[11..13] == h && s[14..16] == mi && s[17..19] == se;
  }

  /** `dt.strftime("%Y:%m:%d %H:%M:%S")`, the form cameras write. */
  function FormatExifDateTime(dt: DateTime): (s: string)
    requires ValidDateTime(dt)
    ensures HasExifLayout(s)
  {
    ExifText(dt.date.year, dt.date.month, dt.date.day, dt.hour, dt.minute, dt.second)
  }

  /** A text in the fixed-width layout is accepted exactly when its fields
      name a valid instant, and then the parse returns those fields. */
  lemma ParseExifText(year: int, month: int, day: int, hour: int, minute: int, second: int)
    requires 0 <= year < 10000
    requires 0 <= month < 100 && 0 <= day < 100
    requires 0 <= hour < 100 && 0 <= minute < 100 && 0 <= second < 100
    ensures var dt := DateTime(Date(year, month, day), hour, minute, second);
      ParseExifDateTime(ExifText(year, month, day, hour, minute, second))
        == if ValidDateTime(dt) then Some(dt) else None
  {
    var s := ExifText(year, month, day, hour, minute, second);
    assert s[0..4] == PadDigits(year, 4);
    assert s[5..7] == PadDigits(month, 2);
    assert s[8..10] == PadDigits(day, 2);
    assert s[11..13] == PadDigits(hour, 2);
    assert s[14..16] == PadDigits(minute, 2);
    assert s[17..19] == PadDigits(second, 2);
    ParsePad(year, 4);
    ParsePad(month, 2);
    ParsePad(day, 2);
    ParsePad(hour, 2);
    ParsePad(minute, 2);
    ParsePad(second, 2);
  }

  /** Every valid instant written in the EXIF form reads back unchanged. */
  lemma ParseFormatRoundTrip(dt: DateTime)
    requires ValidDateTime(dt)
    ensures ParseExifDateTime(FormatExifDateTime(dt)) == Some(dt)
  {
    ParseExifText(dt.date.year, dt.date.month, dt.date.day, dt.hour, dt.minute, dt.second);
  }

  /** Every string the parse accepts is exactly the EXIF form of what it
      returns: the parse accepts nothing but the fixed-width layout. */
  lemma FormatParseRoundTrip(s: string)
    requires ParseExifDateTime(s).Some?
    ensures FormatExifDateTime(ParseExifDateTime(s).value) == s
  {
    var dt := ParseExifDateTime(s).value;
    assert dt.date.year == ParseDigits(s[0..4]) && dt.date.month == ParseDigits(s[5..7]);
    assert dt.date.day == ParseDigits(s[8..10]) && dt.hour == ParseDigits(s[11..13]);
    assert dt.minute == ParseDigits(s[14..16]) && dt.second == ParseDigits(s[17..19]);
    PadParse(s[0..4]);
    PadParse(s[5..7]);
    PadParse(s[8..10]);
    PadParse(s[11..13]);
    PadParse(s[14..16]);
    PadParse(s[17..19]);
    SplitExifLayout(s);
  }

  /** A string in the layout is its six fields joined by the separators. */
  lemma SplitExifLayout(s: string)
    requires HasExifLayout(s)
    ensures s == s[0..4] + ":" + s[5..7] + ":" + s[8..10] + " " + s[11..13] + ":" + s[14..16] + ":" + s[17..19]
  {
    var t := s[0..4] + ":" + s[5..7] + ":" + s[8..10] + " " + s[11..13] + ":" + s[14..16] + ":" + s[17..19];
    assert |t| == |s|;
    forall i | 0 <= i < |s| ensures t[i] == s[i] {
    }
  }

  /** "YYYY:02:29 00:00:00" is accepted exactly in leap years. */
  lemma LeapDayAcceptedOnlyInLeapYears(year: int)
    requires MinYear <= year <= MaxYear
    ensures ParseExifDateTime(ExifText(year, 2, 29, 0, 0, 0)).Some? <==> IsLeapYear(year)
  {
    ParseExifText(year, 2, 29, 0, 0, 0);
  }

  /** Day 31 of a thirty-day month, year 0, month 13, hour 24 and second 60
      are all refused although they fit the layout. */
  lemma OutOfRangeFieldsRejected(year: int)
    requires MinYear <= year <= MaxYear
    ensures ParseExifDateTime(ExifText(year, 4, 31, 12, 0, 0)) == None
    ensures ParseExifDateTime(ExifText(0, 1, 1, 12, 0, 0)) == None
    ensures ParseExifDateTime(ExifText(year, 13, 1, 12, 0, 0)) == None
    ensures ParseExifDateTime(ExifText(year, 1, 1, 24, 0, 0)) == None
    ensures ParseExifDateTime(ExifText(year, 1, 1, 12, 0, 60)) == None
  {
    ParseExifText(year, 4, 31, 12, 0, 0);
    ParseExifText(0, 1, 1, 12, 0, 0);
    ParseExifText(year, 13, 1, 12, 0, 0);
    ParseExifText(year, 1, 1, 24, 0, 0);
    ParseExifText(year, 1, 1, 12, 0, 60);
  }
}
