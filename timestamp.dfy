/**
 * Timestamps of transactions and of the history filters. A transaction's
 * creation time carries microseconds; the text form `YYYY-MM-DD HH:MM:SS`
 * is used both to render it and to read the `date_from`/`date_to` bounds.
 */
module Timestamp {
  import opened Results
  import opened Text

  datatype DateTime = DateTime(year: nat, month: nat, day: nat,
                               hour: nat, minute: nat, second: nat, micro: nat)

  predicate IsLeapYear(y: nat)
  {
    y % 4 == 0 && (y % 100 != 0 || y % 400 == 0)
  }

  function DaysInMonth(y: nat, m: nat): nat
  {
    if m == 2 then (if IsLeapYear(y) then 29 else 28)
    else if m == 4 || m == 6 || m == 9 || m == 11 then 30
    else 31
  }

  /** A calendar date and time of day that a datetime value can hold. */
  predicate Valid(d: DateTime)
  {
    && 1 <= d.year <= 9999
    && 1 <= d.month <= 12
    && 1 <= d.day <= DaysInMonth(d.year, d.month)
    && d.hour < 24 && d.minute < 60 && d.second < 60
    && d.micro < 1_000_000
  }

  /** Chronological order: field by field, from the year down to the microsecond. */
  predicate Before(a: DateTime, b: DateTime)
  {
    if a.year != b.year then a.year < b.year
    else if a.month != b.month then a.month < b.month
    else if a.day != b.day then a.day < b.day
    else if a.hour != b.hour then a.hour < b.hour
    else if a.minute != b.minute then a.minute < b.minute
    else if a.second != b.second then a.second < b.second
    else a.micro < b.micro
  }

  /** The instant truncated to the second, which is all the text form shows. */
  function WholeSeconds(d: DateTime): DateTime
  {
    d.(micro := 0)
  }

  /** The `%Y-%m-%d %H:%M:%S` rendering. */
  function Format(d: DateTime): (s: string)
  {
    Padded(d.year, 4) + "-" + Padded(d.month, 2) + "-" + Padded(d.day, 2) + " "
      + Padded(d.hour, 2) + ":" + Padded(d.minute, 2) + ":" + Padded(d.second, 2)
  }

  /** The fixed layout of the text form: separators at their places, digits elsewhere. */
  predicate WellShaped(s: string)
  {
    && |s| == 19
    && s[4] == '-' && s[7] == '-' && s[10] == ' ' && s[13] == ':' && s[16] == ':'
    && AllDigits(s[0..4]) && AllDigits(s[5..7]) && AllDigits(s[8..10])
    && AllDigits(s[11..13]) && AllDigits(s[14..16]) && AllDigits(s[17..19])
  }

  /**
   * Reads `YYYY-MM-DD HH:MM:SS`; a string of another shape, or one naming a
   * day or time that does not exist, does not parse.
   */
  function Parse(s: string): (r: Option<DateTime>)
    ensures r.Some? ==> Valid(r.value) && r.value.micro == 0
  {
    if WellShaped(s) then
      var d := DateTime(ValueOf(s[0..4]), ValueOf(s[5..7]), ValueOf(s[8..10]),
                        ValueOf(s[11..13]), ValueOf(s[14..16]), ValueOf(s[17..19]), 0);
      if Valid(d) then Some(d) else None
    else None
  }

  /** Slicing the rendering recovers its fields. */
  lemma FormatFields(d: DateTime)
    ensures var s := Format(d);
      && WellShaped(s)
      && s[0..4] == Padded(d.year, 4) && s[5..7] == Padded(d.month, 2)
      && s[8..10] == Padded(d.day, 2) && s[11..13] == Padded(d.hour, 2)
      && s[14..16] == Padded(d.minute, 2) && s[17..19] == Padded(d.second, 2)
  {
  }

  /** A rendered instant reads back as that instant, truncated to the second. */
  lemma ParseFormat(d: DateTime)
    requires Valid(d)
    ensures Parse(Format(d)) == Some(WholeSeconds(d))
  {
    var s := Format(d);
    FormatFields(d);
    PaddedValue(d.year, 4);
    PaddedValue(d.month, 2);
    PaddedValue(d.day, 2);
    PaddedValue(d.hour, 2);
    PaddedValue(d.minute, 2);
    PaddedValue(d.second, 2);
    ParseFields(s, WholeSeconds(d));
  }

  /** A well-shaped text whose six fields hold the values of a valid whole-second instant reads as it. */
  lemma ParseFields(s: string, d: DateTime)
    requires WellShaped(s) && Valid(d) && d.micro == 0
    requires ValueOf(s[0..4]) == d.year && ValueOf(s[5..7]) == d.month && ValueOf(s[8..10]) == d.day
    requires ValueOf(s[11..13]) == d.hour && ValueOf(s[14..16]) == d.minute && ValueOf(s[17..19]) == d.second
    ensures Parse(s) == Some(d)
  {
  }

  /** Only the canonical text parses: a parsed string is the rendering of its value. */
  lemma {:induction false} FormatParse(s: string)
    requires Parse(s).Some?
    ensures Format(Parse(s).value) == s
  {
    var d := Parse(s).value;
    ValuePadded(s[0..4]);
    ValuePadded(s[5..7]);
    ValuePadded(s[8..10]);
    ValuePadded(s[11..13]);
    ValuePadded(s[14..16]);
    ValuePadded(s[17..19]);
    assert s == s[0..4] + "-" + s[5..7] + "-" + s[8..10] + " " + s[11..13] + ":" + s[14..16] + ":" + s[17..19];
  }

  /**
   * Against a bound given in whole seconds, an instant compares exactly as its
   * truncation does: filtering at second precision loses nothing.
   */
  lemma BeforeWholeSecondBound(a: DateTime, b: DateTime)
    requires b.micro == 0
    ensures Before(a, b) <==> Before(WholeSeconds(a), b)
  {
  }
}
