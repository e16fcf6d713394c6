/**
 * Calendar dates and minutes of the day as Python's datetime has them: the proleptic Gregorian
 * calendar, weekday() counting from Monday = 0, and isoformat() (full-date, section 5.6 of
 * RFC 3339).
 */
module Calendar {
  import opened Arithmetic

  datatype Date = Date(year: int, month: int, day: int)

  // notification_time is a TIME column with microseconds.
  datatype TimeOfDay = TimeOfDay(hour: int, minute: int, second: int, microsecond: int)

  predicate IsLeap(year: int) { year % 4 == 0 && (year % 100 != 0 || year % 400 == 0) }

  function DaysIn(year: int, month: int): int {
    if month == 2 then if IsLeap(year) then 29 else 28
    else if month in {4, 6, 9, 11} then 30
    else 31
  }

  predicate IsDate(d: Date) { d.year >= 1 && 1 <= d.month <= 12 && 1 <= d.day <= DaysIn(d.year, d.month) }

  type CalendarDate = d: Date | IsDate(d) witness Date(1, 1, 1)

  function DaysBeforeYear(year: int): int {
    if year <= 1 then 0 else DaysBeforeYear(year - 1) + if IsLeap(year - 1) then 366 else 365
  }

  function DaysBeforeMonth(year: int, month: int): int
    requires 1 <= month <= 13
    decreases month
  {
    if month == 1 then 0 else DaysBeforeMonth(year, month - 1) + DaysIn(year, month - 1)
  }

  // toordinal()
  function Ordinal(d: CalendarDate): int {
    DaysBeforeYear(d.year) + DaysBeforeMonth(d.year, d.month) + d.day
  }

  // weekday()
  function Weekday(d: CalendarDate): int {
    (Ordinal(d) + 6) % 7
  }

  function NextDay(d: CalendarDate): CalendarDate {
    if d.day < DaysIn(d.year, d.month) then d.(day := d.day + 1)
    else if d.month < 12 then Date(d.year, d.month + 1, 1)
    else Date(d.year + 1, 1, 1)
  }

  // The date n days later.
  function Later(d: CalendarDate, n: nat): CalendarDate {
    if n == 0 then d else NextDay(Later(d, n - 1))
  }

  function NextMonth(year: int, month: int): (int, int) {
    if month < 12 then (year, month + 1) else (year + 1, 1)
  }

  // The closed form toordinal() uses.
  lemma {:induction false} DaysBeforeYearClosed(year: int)
    requires year >= 1
    ensures var past := year - 1; DaysBeforeYear(year) == past * 365 + past / 4 - past / 100 + past / 400
  {
    if year == 1 {
    } else {
      DaysBeforeYearClosed(year - 1);
      var past := year - 1;
      QuotientStep(past, 4);
      QuotientStep(past, 100);
      QuotientStep(past, 400);
      if past % 400 == 0 { DivisionIsUnique(past, 100, 4 * (past / 400), 0); }
      if past % 100 == 0 { DivisionIsUnique(past, 4, 25 * (past / 100), 0); }
    }
  }

  lemma EpochOrdinal()
    ensures Ordinal(Date(1970, 1, 1)) == 719163
  {
    DaysBeforeYearClosed(1970);
    assert DaysBeforeMonth(1970, 1) == 0;
  }

  // Days of a common year before each month.
  const DAYS_BEFORE := [0, 31, 59, 90, 120, 151, 181, 212, 243, 273, 304, 334, 365]

  lemma {:induction false} DaysBeforeMonthTable(year: int, month: int)
    requires 1 <= month <= 13
    ensures DaysBeforeMonth(year, month) == DAYS_BEFORE[month - 1] + if month > 2 && IsLeap(year) then 1 else 0
  {
    if month == 1 {
    } else {
      DaysBeforeMonthTable(year, month - 1);
    }
  }

  lemma MonthsFillTheYear(year: int)
    ensures DaysBeforeMonth(year, 13) == if IsLeap(year) then 366 else 365
  {
    DaysBeforeMonthTable(year, 13);
  }

  // The ordinal of a date in closed form: days of whole years, of whole months, and of the month.
  lemma OrdinalClosed(d: CalendarDate)
    ensures var past := d.year - 1;
            var leap := d.year % 4 == 0 && (d.year % 100 != 0 || d.year % 400 == 0);
            Ordinal(d) == past * 365 + past / 4 - past / 100 + past / 400
                          + DAYS_BEFORE[d.month - 1] + (if d.month > 2 && leap then 1 else 0) + d.day
  {
    DaysBeforeYearClosed(d.year);
    DaysBeforeMonthTable(d.year, d.month);
  }

  lemma OrdinalOfNextDay(d: CalendarDate)
    ensures Ordinal(NextDay(d)) == Ordinal(d) + 1
  {
    if d.day == DaysIn(d.year, d.month) && d.month == 12 {
      MonthsFillTheYear(d.year);
      assert DaysBeforeMonth(d.year, 13) == DaysBeforeMonth(d.year, 12) + 31;
    }
  }

  lemma {:induction false} OrdinalOfLater(d: CalendarDate, n: nat)
    ensures Ordinal(Later(d, n)) == Ordinal(d) + n
  {
    if n == 0 {
    } else {
      OrdinalOfLater(d, n - 1);
      OrdinalOfNextDay(Later(d, n - 1));
    }
  }

  lemma {:induction false} WithinMonth(year: int, month: int, n: nat)
    requires year >= 1 && 1 <= month <= 12 && n < DaysIn(year, month)
    ensures Later(Date(year, month, 1), n) == Date(year, month, n + 1)
  {
    if n == 0 {
    } else {
      WithinMonth(year, month, n - 1);
    }
  }

  lemma MonthEnds(year: int, month: int)
    requires year >= 1 && 1 <= month <= 12
    ensures var (y, m) := NextMonth(year, month);
            Later(Date(year, month, 1), DaysIn(year, month)) == Date(y, m, 1)
  {
    WithinMonth(year, month, DaysIn(year, month) - 1);
  }

  lemma {:induction false} LaterAdds(d: CalendarDate, a: nat, b: nat)
    ensures Later(d, a + b) == Later(Later(d, a), b)
  {
    if b == 0 {
    } else {
      LaterAdds(d, a, b - 1);
    }
  }

  // ---------------------------------------------------------------- isoformat

  function Padded(n: int, width: nat): (s: string)
    requires n >= 0
    ensures |s| == width
  {
    if width == 0 then "" else Padded(n / 10, width - 1) + [Digit(n % 10)]
  }

  function IsoFormat(d: CalendarDate): string {
    Padded(d.year, 4) + "-" + Padded(d.month, 2) + "-" + Padded(d.day, 2)
  }

  function PowerOfTen(width: nat): nat { if width == 0 then 1 else 10 * PowerOfTen(width - 1) }

  lemma {:induction false} PaddedReads(n: int, width: nat)
    requires 0 <= n < PowerOfTen(width)
    ensures ParseDigits(Padded(n, width)) == n && AllDigits(Padded(n, width))
  {
    if width == 0 {
    } else {
      PaddedReads(n / 10, width - 1);
      AppendDigit(Padded(n / 10, width - 1), n % 10);
    }
  }

  lemma IsoFormatParts(d: CalendarDate)
    ensures var s := IsoFormat(d);
            && |s| == 10 && s[4] == '-' && s[7] == '-'
            && s[..4] == Padded(d.year, 4) && s[5..7] == Padded(d.month, 2) && s[8..] == Padded(d.day, 2)
  {}

  // The text is YYYY-MM-DD: four digits of the year, two of the month, two of the day.
  lemma IsoFormatReads(d: CalendarDate)
    requires d.year <= 9999
    ensures var s := IsoFormat(d);
            && |s| == 10 && s[4] == '-' && s[7] == '-'
            && AllDigits(s[..4]) && AllDigits(s[5..7]) && AllDigits(s[8..])
            && ParseDigits(s[..4]) == d.year && ParseDigits(s[5..7]) == d.month && ParseDigits(s[8..]) == d.day
  {
    assert PowerOfTen(2) == 100 && PowerOfTen(4) == 10000;
    IsoFormatParts(d);
    PaddedReads(d.year, 4);
    PaddedReads(d.month, 2);
    PaddedReads(d.day, 2);
  }

  // Distinct dates of the years datetime supports never render alike.
  lemma IsoFormatIsInjective(d: CalendarDate, e: CalendarDate)
    requires d.year <= 9999 && e.year <= 9999
    requires IsoFormat(d) == IsoFormat(e)
    ensures d == e
  {
    IsoFormatReads(d);
    IsoFormatReads(e);
  }

  // ---------------------------------------------------------------- residues in a run of integers

  // How many of q, q + 1, ..., q + n - 1 leave remainder r when divided by p.
  function CountResidue(q: int, n: nat, p: int, r: int): nat
    requires p > 0
  {
    if n == 0 then 0 else CountResidue(q, n - 1, p, r) + if (q + n - 1) % p == r then 1 else 0
  }

  // The count is a difference of quotients.
  lemma {:induction false} CountResidueClosed(q: int, n: nat, p: int, r: int)
    requires p > 0 && 0 <= r < p
    ensures CountResidue(q, n, p, r) == (q + n - 1 - r) / p - (q - 1 - r) / p
  {
    if n == 0 {
    } else {
      CountResidueClosed(q, n - 1, p, r);
      QuotientStep(q + n - 1 - r, p);
      SameRemainder(q + n - 1, p, r);
    }
  }

  // Every remainder occurs exactly k times in k * p consecutive integers.
  lemma EachResidueOncePerPeriod(q: int, k: nat, p: int, r: int)
    requires p > 0 && 0 <= r < p
    ensures k * p >= 0 && CountResidue(q, k * p, p, r) == k
  {
    assert k * p >= 0;
    CountResidueClosed(q, k * p, p, r);
    QuotientShift(q - 1 - r, k, p);
  }

  lemma {:induction false} OtherResiduesNever(q: int, n: nat, p: int, r: int)
    requires p > 0 && !(0 <= r < p)
    ensures CountResidue(q, n, p, r) == 0
  {
    if n == 0 {
    } else {
      OtherResiduesNever(q, n - 1, p, r);
    }
  }
}
