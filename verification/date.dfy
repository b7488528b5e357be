/** The calendar date used to tell nightly compilers apart: a year, month
    and day with no timezone, ordered field by field. */
module Dates {
  import opened Primitives
  import Lex
  import Text

  datatype Date = Date(year: u16, month: u8, day: u8)

  /** The fields in order of significance. */
  function Key(d: Date): seq<int> {
    [d.year, d.month, d.day]
  }

  /** What the validating constructor accepts: no calendar check beyond
      these ranges. */
  predicate Valid(year: u16, month: u8, day: u8) {
    year >= 1 && 1 <= month <= 12 && 1 <= day <= 31
  }

  /** The assertion a validating `Date::new` fails on, checked year first. */
  datatype DateError = InvalidYear | InvalidMonth | InvalidDayOfMonth

  function Violation(year: u16, month: u8, day: u8): (r: Option<DateError>)
    ensures r == None <==> Valid(year, month, day)
    ensures r == Some(InvalidYear) <==> year == 0
    ensures r == Some(InvalidMonth) <==> year >= 1 && (month == 0 || month > 12)
  {
    if year < 1 then Some(InvalidYear)
    else if month < 1 || month > 12 then Some(InvalidMonth)
    else if day < 1 || day > 31 then Some(InvalidDayOfMonth)
    else None
  }

  /** `Date::new` with validation on: only in-range fields are accepted, and
      they are kept as given. */
  function New(year: u16, month: u8, day: u8): (d: Date)
    requires Valid(year, month, day)
    ensures Key(d) == [year, month, day]
    ensures Valid(d.year, d.month, d.day)
  {
    Date(year, month, day)
  }

  /** `self.is_since(start)`: this date is `start` or later. */
  function IsSince(d: Date, start: Date): (r: bool)
    ensures r <==> Lex.LexGe(Key(d), Key(start))
  {
    Lex.LexGeTriple(d.year, d.month, d.day, start.year, start.month, start.day);
    d.year > start.year
    || (d.year == start.year
        && (d.month > start.month
            || (d.month == start.month && d.day >= start.day)))
  }

  /** `self.is_before(end)`: this date is strictly earlier than `end`. */
  function IsBefore(d: Date, end: Date): (r: bool)
    ensures r <==> !Lex.LexGe(Key(d), Key(end))
    ensures r ==> d != end
  {
    !IsSince(d, end)
  }

  /** Every date is since itself and never before itself. */
  lemma IsSinceReflexive(d: Date)
    ensures IsSince(d, d) && !IsBefore(d, d)
  {
    Lex.LexGeReflexive(Key(d));
  }

  /** Any two dates are ordered one way or the other, and both ways only when equal. */
  lemma IsSinceTotal(a: Date, b: Date)
    ensures IsSince(a, b) || IsSince(b, a)
    ensures IsSince(a, b) && IsSince(b, a) <==> a == b
  {
    Lex.LexGeTotal(Key(a), Key(b));
    Lex.LexGeAntisymmetric(Key(a), Key(b));
  }

  lemma IsSinceTransitive(a: Date, b: Date, c: Date)
    requires IsSince(a, b) && IsSince(b, c)
    ensures IsSince(a, c)
  {
    Lex.LexGeTransitive(Key(a), Key(b), Key(c));
  }

  /** `is_before` is the strict order: before one way means since the other, but not both. */
  lemma IsBeforeStrict(a: Date, b: Date)
    ensures IsBefore(a, b) <==> IsSince(b, a) && a != b
  {
    IsSinceTotal(a, b);
  }

  /** The pairs the crate's tests and examples order. */
  lemma DocumentedOrderings()
    ensures IsBefore(New(2018, 12, 14), New(2022, 8, 16))
    ensures IsBefore(New(2024, 11, 14), New(2024, 12, 7))
    ensures IsBefore(New(2024, 11, 14), New(2024, 11, 17))
    ensures IsSince(New(2022, 8, 16), New(2018, 12, 14))
    ensures IsSince(New(2024, 12, 7), New(2024, 11, 14))
    ensures IsSince(New(2024, 11, 17), New(2024, 11, 14))
    ensures IsSince(New(2024, 11, 16), New(2024, 7, 28))
  {
  }

  /** The dates the crate's tests expect the validating constructor to reject. */
  lemma RejectedDates()
    ensures Violation(0, 7, 18) == Some(InvalidYear)
    ensures Violation(2014, 13, 18) == Some(InvalidMonth)
    ensures Violation(2014, 7, 36) == Some(InvalidDayOfMonth)
  {
  }

  /** `Display`: `{:04}-{:02}-{:02}`, the calendar-date form of ISO 8601. */
  function Format(d: Date): string {
    Text.PadDecimal(d.year, 4) + "-" + Text.PadDecimal(d.month, 2) + "-" + Text.PadDecimal(d.day, 2)
  }

  /** The three fields of the text, in order. */
  function FormatFields(d: Date): seq<string> {
    [Text.PadDecimal(d.year, 4), Text.PadDecimal(d.month, 2), Text.PadDecimal(d.day, 2)]
  }

  /** The text is the fields joined by dashes. */
  lemma FormatJoinsFields(d: Date)
    ensures Format(d) == Text.Join(FormatFields(d), '-')
  {
    Text.JoinThree(Text.PadDecimal(d.year, 4), Text.PadDecimal(d.month, 2), Text.PadDecimal(d.day, 2), '-');
  }

  /** The text is three dash-separated decimal fields, of at least four,
      two and two digits, that read back as the year, month and day. */
  lemma FormatFieldsRoundTrip(d: Date)
    ensures Text.Split(Format(d), '-') == FormatFields(d)
    ensures |FormatFields(d)[0]| >= 4 && |FormatFields(d)[1]| >= 2 && |FormatFields(d)[2]| >= 2
    ensures forall i :: 0 <= i < 3 ==> Text.AllDigits(FormatFields(d)[i])
    ensures forall i :: 0 <= i < 3 ==> Text.Value(FormatFields(d)[i]) == Key(d)[i]
  {
    var f := FormatFields(d);
    assert Text.Split(Format(d), '-') == f by {
      forall i | 0 <= i < 3
        ensures '-' !in f[i]
      {
        Text.NotInDigits('-', f[i]);
      }
      FormatJoinsFields(d);
      Text.SplitJoin(f, '-');
    }
    Text.PadDecimalValue(d.year, 4);
    Text.PadDecimalValue(d.month, 2);
    Text.PadDecimalValue(d.day, 2);
  }

  /** A four-digit year with a month and day below 100 (every valid date up
      to year 9999) renders as exactly `YYYY-MM-DD`. */
  lemma FormatLength(d: Date)
    requires d.year <= 9999 && d.month <= 99 && d.day <= 99
    ensures |Format(d)| == 10
    ensures Format(d)[4] == '-' && Format(d)[7] == '-'
  {
    Text.DecimalWidth(d.year, 4);
    Text.DecimalWidth(d.month, 2);
    Text.DecimalWidth(d.day, 2);
  }
}
