/**
 * The three `DateTime.ToString` custom formats the integration uses, with
 * parsers that read them back. The culture is taken to use the Gregorian
 * calendar and ':' as its time separator.
 */
module DateFormat {
  import opened Wrappers
  import opened Decimal
  import opened Calendar

  /** "yyyyMMdd", the Nebim document date. */
  function FormatDocDate(dt: DateTime): string {
    Digits(dt.year, 4) + Digits(dt.month, 2) + Digits(dt.day, 2)
  }

  /** "HHmmss", the Nebim document time. */
  function FormatDocTime(dt: DateTime): string {
    Digits(dt.hour, 2) + Digits(dt.minute, 2) + Digits(dt.second, 2)
  }

  /** "yyyy-MM-dd HH:mm:ss", the Pronet query bounds. */
  function FormatTimestamp(dt: DateTime): string {
    Digits(dt.year, 4) + "-" + Digits(dt.month, 2) + "-" + Digits(dt.day, 2) + " " +
    Digits(dt.hour, 2) + ":" + Digits(dt.minute, 2) + ":" + Digits(dt.second, 2)
  }

  /** Reads an 8-digit document date as (year, month, day). */
  function ParseDocDate(s: string): Option<(nat, nat, nat)> {
    if |s| == 8 && AllDigits(s) then
      Some((ParseDigits(s[..4]), ParseDigits(s[4..6]), ParseDigits(s[6..])))
    else None
  }

  /** Reads a 6-digit document time as (hour, minute, second). */
  function ParseDocTime(s: string): Option<(nat, nat, nat)> {
    if |s| == 6 && AllDigits(s) then
      Some((ParseDigits(s[..2]), ParseDigits(s[2..4]), ParseDigits(s[4..])))
    else None
  }

  predicate IsTimestampShape(s: string) {
    && |s| == 19
    && AllDigits(s[..4]) && s[4] == '-' && AllDigits(s[5..7]) && s[7] == '-'
    && AllDigits(s[8..10]) && s[10] == ' ' && AllDigits(s[11..13]) && s[13] == ':'
    && AllDigits(s[14..16]) && s[16] == ':' && AllDigits(s[17..])
  }

  /** Reads a "yyyy-MM-dd HH:mm:ss" string back as a DateTime on a whole second. */
  function ParseTimestamp(s: string): Option<DateTime> {
    if IsTimestampShape(s) then
      Some(DateTime(ParseDigits(s[..4]), ParseDigits(s[5..7]), ParseDigits(s[8..10]),
                    ParseDigits(s[11..13]), ParseDigits(s[14..16]), ParseDigits(s[17..]), 0))
    else None
  }

  lemma FieldsFit(dt: DateTime)
    requires dt.Valid()
    ensures dt.year < Pow10(4) && dt.month < Pow10(2) && dt.day < Pow10(2)
    ensures dt.hour < Pow10(2) && dt.minute < Pow10(2) && dt.second < Pow10(2)
  {
    assert Pow10(2) == 100;
    assert Pow10(4) == 10000;
  }

  /** The document date has eight digits and reads back as the date's year, month and day. */
  lemma DocDateRoundTrip(dt: DateTime)
    requires dt.Valid()
    ensures |FormatDocDate(dt)| == 8 && AllDigits(FormatDocDate(dt))
    ensures ParseDocDate(FormatDocDate(dt)) == Some((dt.year, dt.month, dt.day))
  {
    var y, m, d := Digits(dt.year, 4), Digits(dt.month, 2), Digits(dt.day, 2);
    var s := FormatDocDate(dt);
    assert s[..4] == y && s[4..6] == m && s[6..] == d;
    FieldsFit(dt);
    DigitsRoundTrip(dt.year, 4);
    DigitsRoundTrip(dt.month, 2);
    DigitsRoundTrip(dt.day, 2);
  }

  /** The document time has six digits and reads back as the hour, minute and second. */
  lemma DocTimeRoundTrip(dt: DateTime)
    requires dt.Valid()
    ensures |FormatDocTime(dt)| == 6 && AllDigits(FormatDocTime(dt))
    ensures ParseDocTime(FormatDocTime(dt)) == Some((dt.hour, dt.minute, dt.second))
  {
    var h, m, sec := Digits(dt.hour, 2), Digits(dt.minute, 2), Digits(dt.second, 2);
    var s := FormatDocTime(dt);
    assert s[..2] == h && s[2..4] == m && s[4..] == sec;
    FieldsFit(dt);
    DigitsRoundTrip(dt.hour, 2);
    DigitsRoundTrip(dt.minute, 2);
    DigitsRoundTrip(dt.second, 2);
  }

  /** The timestamp format loses only the sub-second ticks. */
  lemma TimestampRoundTrip(dt: DateTime)
    requires dt.Valid()
    ensures |FormatTimestamp(dt)| == 19
    ensures ParseTimestamp(FormatTimestamp(dt)) == Some(dt.(fraction := 0))
  {
    var s := FormatTimestamp(dt);
    assert s[..4] == Digits(dt.year, 4);
    assert s[5..7] == Digits(dt.month, 2);
    assert s[8..10] == Digits(dt.day, 2);
    assert s[11..13] == Digits(dt.hour, 2);
    assert s[14..16] == Digits(dt.minute, 2);
    assert s[17..] == Digits(dt.second, 2);
    FieldsFit(dt);
    DigitsRoundTrip(dt.year, 4);
    DigitsRoundTrip(dt.month, 2);
    DigitsRoundTrip(dt.day, 2);
    DigitsRoundTrip(dt.hour, 2);
    DigitsRoundTrip(dt.minute, 2);
    DigitsRoundTrip(dt.second, 2);
  }
}
