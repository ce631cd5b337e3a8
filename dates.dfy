/** Calendar dates, the validation `strptime(.., '%Y-%m-%d')` applies once the
    text has been split into year, month and day, and the age formula of the
    enrollment form. */
module Dates {
  import opened Wrappers

  datatype Date = Date(year: int, month: int, day: int)

  /** Gregorian leap-year rule, as Python's `datetime` uses it. */
  predicate IsLeapYear(y: int) {
    y % 4 == 0 && (y % 100 != 0 || y % 400 == 0)
  }

  function DaysInMonth(y: int, m: int): (n: int)
    requires 1 <= m <= 12
    ensures 28 <= n <= 31
    ensures n == 29 <==> m == 2 && IsLeapYear(y)
  {
    if m == 2 then (if IsLeapYear(y) then 29 else 28)
    else if m == 4 || m == 6 || m == 9 || m == 11 then 30
    else 31
  }

  /** A date Python's `datetime.date` accepts: years 1 to 9999 and a day that
      exists in its month. */
  predicate ValidDate(d: Date) {
    1 <= d.year <= 9999 && 1 <= d.month <= 12 && 1 <= d.day <= DaysInMonth(d.year, d.month)
  }

  /** What the `%Y-%m-%d` lexer makes of the birth-date form field: the field was
      not sent, the text does not have the shape, or it yields three numbers. */
  datatype DateText = Absent | Malformed | Fields(year: int, month: int, day: int)

  /** `strptime(text, '%Y-%m-%d').date()`: `None` stands for the `TypeError`
      (absent field) or `ValueError` (bad shape, impossible calendar date). */
  function ParseDate(t: DateText): (r: Option<Date>)
    ensures r.Some? <==> t.Fields? && ValidDate(Date(t.year, t.month, t.day))
    ensures r.Some? ==> ValidDate(r.value) && r.value == Date(t.year, t.month, t.day)
  {
    match t
    case Fields(y, m, d) => if ValidDate(Date(y, m, d)) then Some(Date(y, m, d)) else None
    case _ => None
  }

  /** Python's tuple comparison `(a.month, a.day) < (b.month, b.day)`. */
  predicate MonthDayBefore(a: Date, b: Date) {
    a.month < b.month || (a.month == b.month && a.day < b.day)
  }

  /** Lexicographic order on (year, month, day): `a` is on or before `b`. */
  predicate OnOrBefore(a: Date, b: Date) {
    a.year < b.year || (a.year == b.year && !MonthDayBefore(b, a))
  }

  /** The age the enrollment form derives: the difference of the years, less
      one when this year's (month, day) has not reached the birth (month, day).
      The result is not clamped: a birth date after `today` gives a negative age.
      It is the number of whole years: its anniversary has been reached and the
      next one has not. */
  function AgeOn(birth: Date, today: Date): (age: int)
    ensures ReachedAnniversary(birth, today, age)
    ensures !ReachedAnniversary(birth, today, age + 1)
  {
    today.year - birth.year - (if MonthDayBefore(today, birth) then 1 else 0)
  }

  /** The k-th anniversary of `birth` (same month and day, year moved by k)
      falls on or before `today`. An independent reading of "whole years". */
  predicate ReachedAnniversary(birth: Date, today: Date, k: int) {
    OnOrBefore(Date(birth.year + k, birth.month, birth.day), today)
  }

  /** Anniversaries are reached exactly up to the age and never after it, so the
      whole-years reading determines the age uniquely. */
  lemma AnniversariesUpToAge(birth: Date, today: Date, k: int)
    ensures ReachedAnniversary(birth, today, k) <==> k <= AgeOn(birth, today)
  {
  }

  /** The age is negative exactly when the birth date lies after `today`. */
  lemma AgeNegativeIffFutureBirth(birth: Date, today: Date)
    ensures AgeOn(birth, today) < 0 <==> !OnOrBefore(birth, today)
  {
  }

  /** The age never decreases as `today` moves forward. */
  lemma AgeMonotoneInToday(birth: Date, t1: Date, t2: Date)
    requires OnOrBefore(t1, t2)
    ensures AgeOn(birth, t1) <= AgeOn(birth, t2)
  {
  }

  /** Between two calendar dates the age stays within the span of the years
      `datetime.date` allows. */
  lemma AgeBetweenValidDates(birth: Date, today: Date)
    requires ValidDate(birth) && ValidDate(today)
    ensures -9999 <= AgeOn(birth, today) <= 9998
  {
  }

  /** Two worked cases: a birthday already passed this year, and a birthday one
      day in the future. */
  lemma AgeExamples()
    ensures AgeOn(Date(1970, 1, 1), Date(2024, 6, 15)) == 54
    ensures AgeOn(Date(2010, 6, 15), Date(2024, 6, 14)) == 13
    ensures AgeOn(Date(2024, 6, 15), Date(2024, 6, 14)) == -1
  {
  }

  /** February 29 parses only in leap years; months past 12 never parse. */
  lemma ParseDateExamples()
    ensures ParseDate(Fields(2024, 2, 29)) == Some(Date(2024, 2, 29))
    ensures ParseDate(Fields(2023, 2, 29)) == None
    ensures ParseDate(Fields(1900, 2, 29)) == None
    ensures ParseDate(Fields(2000, 2, 29)) == Some(Date(2000, 2, 29))
    ensures ParseDate(Fields(2024, 13, 1)) == None
    ensures ParseDate(Fields(0, 1, 1)) == None
    ensures ParseDate(Absent) == None
  {
  }
}
