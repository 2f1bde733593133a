/** `parseNullableDate` and `createParseNullableDate` of
    src/transformation/parseNullableDate.ts. The two anchored patterns
    `YYYY-MM-DD` and `YYYY-MM-DDTHH:MM` are checked character by character;
    building a `TZDate` is left to the host and appears here as the values
    handed to its constructor. */
module DateParsing {
  import opened Wrappers
  import opened JsTypes
  import opened JsText
  import opened IntParsing

  /** The arguments of `new TZDate(year, month, day, hours, minutes, zone)`;
      `month` counts from 0. The date-only form passes no time, which the
      constructor reads as midnight. */
  datatype Fields = Fields(year: int, month: int, day: int, hours: int, minutes: int)

  /** A `TZDate`: one converted from a plain `Date` by `TZDate.tz`, or one
      built from calendar fields. */
  datatype TzDate = AtInstant(instant: JsDate, zone: string) | FromFields(fields: Fields, zone: string)

  /** What `parseNullableDate` accepts. */
  datatype DateInput = Tz(value: TzDate) | PlainDate(instant: JsDate) | Str(s: string) | Null | Undefined

  /** Number of days in a month of the Gregorian calendar; `month` counts
      from 0, so February is 1. */
  function MaxDaysInMonth(year: int, month: int): (days: int)
    requires 0 <= month < 12
    ensures month == 1 ==> (days == 29 <==> IsLeapYear(year)) && (days == 28 || days == 29)
    ensures month == 3 || month == 5 || month == 8 || month == 10 ==> days == 30
    ensures month != 1 && month != 3 && month != 5 && month != 8 && month != 10 ==> days == 31
  {
    LeapYearByRemainders(year);
    if month == 1 then
      var isLeapYear := (year % 4 == 0 && year % 100 != 0) || year % 400 == 0;
      if isLeapYear then 29 else 28
    else
      [31, -1, 31, 30, 31, 30, 31, 31, 30, 31, 30, 31][month]
  }

  /** Gregorian leap years: multiples of 4 that are not multiples of 100,
      and multiples of 400. */
  ghost predicate IsLeapYear(year: int) {
    ((exists k :: year == 4 * k) && !(exists k :: year == 100 * k)) || (exists k :: year == 400 * k)
  }

  lemma LeapYearByRemainders(year: int)
    ensures IsLeapYear(year) <==> (year % 4 == 0 && year % 100 != 0) || year % 400 == 0
  {
    if year % 4 == 0 { assert year == 4 * (year / 4); }
    if year % 100 == 0 { assert year == 100 * (year / 100); }
    if year % 400 == 0 { assert year == 400 * (year / 400); }
    forall k ensures (4 * k) % 4 == 0 && (100 * k) % 100 == 0 && (400 * k) % 400 == 0 { }
  }

  predicate DigitsAt(s: string, from: nat, to: nat)
    requires from <= to <= |s|
  {
    forall i :: from <= i < to ==> IsDigit(s[i])
  }

  /** `/^(\d{4})-(\d{2})-(\d{2})$/`: `\d` is an ASCII digit and `$`
      without the multiline flag is the end of the input. */
  predicate IsDateShape(s: string) {
    |s| == 10 && DigitsAt(s, 0, 4) && s[4] == '-' && DigitsAt(s, 5, 7) && s[7] == '-' && DigitsAt(s, 8, 10)
  }

  /** `/^(\d{4})-(\d{2})-(\d{2})T(\d{2}):(\d{2})$/` */
  predicate IsDateTimeShape(s: string) {
    |s| == 16 && DigitsAt(s, 0, 4) && s[4] == '-' && DigitsAt(s, 5, 7) && s[7] == '-' && DigitsAt(s, 8, 10) &&
    s[10] == 'T' && DigitsAt(s, 11, 13) && s[13] == ':' && DigitsAt(s, 14, 16)
  }

  /** The date-only branch: the groups are read with `parseInt`, then the
      month and the day are range-checked. */
  function ParseDateOnly(s: string): (r: Option<Fields>)
    requires IsDateShape(s)
    ensures r.Some? ==> 0 <= r.value.month <= 11 && 1 <= r.value.day <= MaxDaysInMonth(r.value.year, r.value.month)
    ensures r.Some? ==> r.value.hours == 0 && r.value.minutes == 0
  {
    var year := ParseInt(s[0..4]);
    var month := match ParseInt(s[5..7]) case Some(m) => Some(m - 1) case None => None;
    var day := ParseInt(s[8..10]);
    if year.None? || month.None? || day.None? then None
    else if month.value < 0 || month.value > 11 then None
    else if day.value < 1 || day.value > MaxDaysInMonth(year.value, month.value) then None
    else Some(Fields(year.value, month.value, day.value, 0, 0))
  }

  /** The date-time branch: the same checks, then the hour and the minute. */
  function ParseDateTime(s: string): (r: Option<Fields>)
    requires IsDateTimeShape(s)
    ensures r.Some? ==> 0 <= r.value.month <= 11 && 1 <= r.value.day <= MaxDaysInMonth(r.value.year, r.value.month)
    ensures r.Some? ==> 0 <= r.value.hours <= 23 && 0 <= r.value.minutes <= 59
  {
    var year := ParseInt(s[0..4]);
    var month := match ParseInt(s[5..7]) case Some(m) => Some(m - 1) case None => None;
    var day := ParseInt(s[8..10]);
    var hours := ParseInt(s[11..13]);
    var minutes := ParseInt(s[14..16]);
    if year.None? || month.None? || day.None? || hours.None? || minutes.None? then None
    else if month.value < 0 || month.value > 11 then None
    else if day.value < 1 || day.value > MaxDaysInMonth(year.value, month.value) then None
    else if hours.value < 0 || hours.value > 23 then None
    else if minutes.value < 0 || minutes.value > 59 then None
    else Some(Fields(year.value, month.value, day.value, hours.value, minutes.value))
  }

  /** `parseNullableDate(timeZone, value)`; `None` is `null`. */
  function ParseNullableDate(timeZone: string, value: DateInput): (r: Option<TzDate>)
    ensures value.Tz? ==> r == Some(value.value)
    ensures value.Null? || value.Undefined? ==> r == None
    ensures value.Str? && r.Some? ==>
      (IsDateShape(value.s) || IsDateTimeShape(value.s)) && r.value.FromFields? && r.value.zone == timeZone
  {
    match value
    case Tz(v) => Some(v)
    case PlainDate(d) => Some(AtInstant(d, timeZone))
    case Str(s) =>
      if !HasNonWhitespace(s) then None
      else if IsDateShape(s) then
        match ParseDateOnly(s)
        case Some(f) => Some(FromFields(f, timeZone))
        case None => None
      else if IsDateTimeShape(s) then
        match ParseDateTime(s)
        case Some(f) => Some(FromFields(f, timeZone))
        case None => None
      else None
    case Null => None
    case Undefined => None
  }

  /** `createParseNullableDate(timeZone)` */
  function CreateParseNullableDate(timeZone: string): (parse: DateInput -> Option<TzDate>)
    ensures forall value :: parse(value) == ParseNullableDate(timeZone, value)
  {
    value => ParseNullableDate(timeZone, value)
  }

  /** The value of the digits in `s[from..to]`. */
  function GroupValue(s: string, from: nat, to: nat): nat
    requires from <= to <= |s| && DigitsAt(s, from, to)
  {
    DecimalValue(s[from..to])
  }

  /** Every digit group parses, so the NaN guards never fire. */
  lemma GroupParses(s: string, from: nat, to: nat)
    requires from < to <= |s| && DigitsAt(s, from, to)
    ensures ParseInt(s[from..to]) == Some(GroupValue(s, from, to) as int)
  {
    ParseIntOfDigits(s[from..to]);
  }

  /** The calendar check of both patterns: month 01-12, day within it. */
  predicate ValidDate(year: int, month: int, day: int) {
    1 <= month <= 12 && 1 <= day <= MaxDaysInMonth(year, month - 1)
  }

  lemma ParseDateOnlyValue(s: string)
    requires IsDateShape(s)
    ensures
      var year, month, day := GroupValue(s, 0, 4), GroupValue(s, 5, 7), GroupValue(s, 8, 10);
      ParseDateOnly(s) == if ValidDate(year, month, day) then Some(Fields(year, month - 1, day, 0, 0)) else None
  {
    GroupParses(s, 0, 4);
    GroupParses(s, 5, 7);
    GroupParses(s, 8, 10);
  }

  lemma ParseDateTimeValue(s: string)
    requires IsDateTimeShape(s)
    ensures
      var year, month, day := GroupValue(s, 0, 4), GroupValue(s, 5, 7), GroupValue(s, 8, 10);
      var hours, minutes := GroupValue(s, 11, 13), GroupValue(s, 14, 16);
      ParseDateTime(s) ==
        if ValidDate(year, month, day) && hours <= 23 && minutes <= 59 then
          Some(Fields(year, month - 1, day, hours, minutes))
        else None
  {
    GroupParses(s, 0, 4);
    GroupParses(s, 5, 7);
    GroupParses(s, 8, 10);
    GroupParses(s, 11, 13);
    GroupParses(s, 14, 16);
  }

  /** A `YYYY-MM-DD` string is accepted exactly when its month and day are
      in range, and gives year, month − 1 and day. */
  lemma ParseDateOnlyIff(timeZone: string, s: string)
    requires IsDateShape(s)
    ensures
      var year, month, day := GroupValue(s, 0, 4), GroupValue(s, 5, 7), GroupValue(s, 8, 10);
      ParseNullableDate(timeZone, Str(s)) ==
        if ValidDate(year, month, day) then Some(FromFields(Fields(year, month - 1, day, 0, 0), timeZone))
        else None
  {
    ParseDateOnlyValue(s);
    assert !IsWhitespace(s[0]);
  }

  /** A `YYYY-MM-DDTHH:MM` string is accepted exactly when its date part is
      valid, the hour is 00-23 and the minute 00-59. */
  lemma ParseDateTimeIff(timeZone: string, s: string)
    requires IsDateTimeShape(s)
    ensures
      var year, month, day := GroupValue(s, 0, 4), GroupValue(s, 5, 7), GroupValue(s, 8, 10);
      var hours, minutes := GroupValue(s, 11, 13), GroupValue(s, 14, 16);
      ParseNullableDate(timeZone, Str(s)) ==
        if ValidDate(year, month, day) && hours <= 23 && minutes <= 59 then
          Some(FromFields(Fields(year, month - 1, day, hours, minutes), timeZone))
        else None
  {
    assert HasNonWhitespace(s) by {
      assert !IsWhitespace(s[0]);
    }
    assert !IsDateShape(s);
    assert ParseNullableDate(timeZone, Str(s)) ==
      match ParseDateTime(s) case Some(f) => Some(FromFields(f, timeZone)) case None => None;
    ParseDateTimeValue(s);
  }

  /** Empty and white-space-only strings give `null`. */
  lemma BlankIsNull(timeZone: string, s: string)
    requires AllWhitespace(s)
    ensures ParseNullableDate(timeZone, Str(s)) == None
  {
  }
}
