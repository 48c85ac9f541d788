/** Calendar dates as integer day numbers.

    Day 0 is 1970-01-01, a Thursday; day 20332 is Monday 2025-09-01. The
    model needs only two things from a date library: the weekday of a day
    number (for weekend skipping) and its day-of-month and month (for the
    header labels). */
module Civil {

  /** Monday = 0, ..., Saturday = 5, Sunday = 6. */
  function Weekday(d: int): (w: int)
    ensures 0 <= w < 7
  {
    (d + 3) % 7
  }

  /** Weekdays follow each other in order and repeat every seven days. */
  lemma WeekdaySuccessor(d: int)
    ensures Weekday(d + 1) == (Weekday(d) + 1) % 7
    ensures Weekday(d + 7) == Weekday(d)
  {
  }

  datatype CivilDate = CivilDate(year: int, month: int, day: int)

  /** Proleptic Gregorian calendar date of a day number.

      The count is split into 400-year eras of 146097 days, each era into
      centuries of 36524 days (the last one a day longer), each century into
      4-year cycles of 1461 days (the last one a day shorter), and each
      cycle into years of 365 days (the last one a day longer). Years are
      counted from March, so that the leap day falls at the end of a year
      and the month lengths from March on follow the 153-days-per-5-months
      pattern. */
  function CivilFromDays(z: int): (c: CivilDate)
    ensures 1 <= c.month <= 12
    ensures 1 <= c.day <= 31
  {
    var shifted := z + 719468;  // days from 0000-03-01
    var era := shifted / 146097;
    var doe := shifted - era * 146097;
    var cen := if doe / 36524 < 3 then doe / 36524 else 3;
    var doc := doe - cen * 36524;
    var quad := doc / 1461;
    var doq := doc - quad * 1461;
    var y4 := if doq / 365 < 3 then doq / 365 else 3;
    var doy := doq - y4 * 365;  // day of the March-based year, 0..365
    var mp := (5 * doy + 2) / 153;  // month counted from March, 0..11
    var d := doy - (153 * mp + 2) / 5 + 1;
    var m := if mp < 10 then mp + 3 else mp - 9;
    var y := era * 400 + cen * 100 + quad * 4 + y4;
    CivilDate(if m <= 2 then y + 1 else y, m, d)
  }

  /** Day of the month, 1..31 (chrono's `day()`). */
  function DayOfMonth(z: int): (d: int)
    ensures 1 <= d <= 31
  {
    CivilFromDays(z).day
  }

  /** Month, 1..12 (chrono's `month()`). */
  function MonthOf(z: int): (m: int)
    ensures 1 <= m <= 12
  {
    CivilFromDays(z).month
  }

  // The day numbers the examples use, checked against the calendar.

  lemma EpochIsThursday()
    ensures CivilFromDays(0) == CivilDate(1970, 1, 1) && Weekday(0) == 3
  {
    assert 719468 / 146097 == 4;
    assert 135080 / 36524 == 3;
    assert 25508 / 1461 == 17;
    assert 671 / 365 == 1;
    assert 1532 / 153 == 10;
    assert 1532 / 5 == 306;
  }

  lemma LeapDay2000()
    ensures CivilFromDays(11016) == CivilDate(2000, 2, 29)
  {
    assert 730484 / 146097 == 4;
    assert 146096 / 36524 == 4;
    assert 36524 / 1461 == 24;
    assert 1460 / 365 == 4;
    assert 1827 / 153 == 11;
    assert 1685 / 5 == 337;
  }

  lemma September2025()
    ensures CivilFromDays(20332) == CivilDate(2025, 9, 1) && Weekday(20332) == 0
    ensures CivilFromDays(20336) == CivilDate(2025, 9, 5) && Weekday(20336) == 4
  {
    assert 739800 / 146097 == 5;
    assert 9315 / 36524 == 0;
    assert 9315 / 1461 == 6;
    assert 549 / 365 == 1;
    assert 922 / 153 == 6;
    assert 920 / 5 == 184;
    assert 739804 / 146097 == 5;
    assert 9319 / 36524 == 0;
    assert 9319 / 1461 == 6;
    assert 553 / 365 == 1;
    assert 942 / 153 == 6;
    assert 920 / 5 == 184;
  }

  lemma Saturday20250906()
    ensures CivilFromDays(20337) == CivilDate(2025, 9, 6) && Weekday(20337) == 5
  {
    assert 739805 / 146097 == 5;
    assert 9320 / 36524 == 0;
    assert 9320 / 1461 == 6;
    assert 554 / 365 == 1;
    assert 947 / 153 == 6;
    assert 920 / 5 == 184;
  }

  lemma MonthBoundaryWeek()
    ensures CivilFromDays(20360) == CivilDate(2025, 9, 29) && Weekday(20360) == 0
    ensures CivilFromDays(20364) == CivilDate(2025, 10, 3)
  {
    assert 739828 / 146097 == 5;
    assert 9343 / 36524 == 0;
    assert 9343 / 1461 == 6;
    assert 577 / 365 == 1;
    assert 1062 / 153 == 6;
    assert 920 / 5 == 184;
    assert 739832 / 146097 == 5;
    assert 9347 / 36524 == 0;
    assert 9347 / 1461 == 6;
    assert 581 / 365 == 1;
    assert 1082 / 153 == 7;
    assert 1073 / 5 == 214;
  }
}
