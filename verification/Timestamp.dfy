/** The SBOM timestamp: from seconds since the epoch to `YYYY-MM-DDThh:mm:ssZ`, the form of
    section 5.6 of RFC 3339. */
module Timestamp {
  import opened Arith
  import opened Civil
  import opened Decimal
  import opened Results
  import opened Words

  // ---------- Counting days the ordinary way ----------

  function DaysBeforeYear(y: int): int {
    365 * (y - 1) + (y - 1) / 4 - (y - 1) / 100 + (y - 1) / 400
  }

  function DaysBeforeMonth(y: int, m: int): int
    decreases m
  {
    if m <= 1 then 0 else DaysBeforeMonth(y, m - 1) + DaysInMonth(y, m - 1)
  }

  /** Days from the epoch to a date. */
  function DaysFromCivil(d: Date): int {
    DaysBeforeYear(d.year) + DaysBeforeMonth(d.year, d.month) + d.day - 1 - 719_162
  }

  lemma StepDivision(y: int, k: int)
    requires k > 0
    ensures y / k - (y - 1) / k == if y % k == 0 then 1 else 0
  {
    assert y == y / k * k + y % k;
    if y % k == 0 {
      assert (y / k - 1) * k == y / k * k - k;
      DivMod(y - 1, k, y / k - 1, k - 1);
    } else {
      DivMod(y - 1, k, y / k, y % k - 1);
    }
  }

  lemma CenturiesDivide(y: int)
    ensures y % 400 == 0 ==> y % 100 == 0
    ensures y % 100 == 0 ==> y % 4 == 0
  {
  }

  lemma YearStep(y: int)
    ensures DaysBeforeYear(y + 1) == DaysBeforeYear(y) + if IsLeap(y) then 366 else 365
  {
    StepDivision(y, 4);
    StepDivision(y, 100);
    StepDivision(y, 400);
    CenturiesDivide(y);
  }

  lemma WholeYear(y: int)
    ensures DaysBeforeMonth(y, 13) == if IsLeap(y) then 366 else 365
  {
    hide IsLeap;
    assert DaysBeforeMonth(y, 3) == 31 + DaysInMonth(y, 2);
    assert DaysBeforeMonth(y, 5) == 92 + DaysInMonth(y, 2);
    assert DaysBeforeMonth(y, 7) == DaysBeforeMonth(y, 5) + 61;
    assert DaysBeforeMonth(y, 9) == DaysBeforeMonth(y, 7) + 62;
    assert DaysBeforeMonth(y, 11) == DaysBeforeMonth(y, 9) + 61;
    assert DaysBeforeMonth(y, 13) == DaysBeforeMonth(y, 11) + 61;
  }

  lemma CountStep(d: Date)
    requires IsDate(d)
    ensures DaysFromCivil(NextDay(d)) == DaysFromCivil(d) + 1
  {
    hide DaysBeforeYear, IsLeap, DaysInMonth;
    YearStep(d.year);
    WholeYear(d.year);
    assert DaysBeforeMonth(d.year + 1, 1) == 0;
    assert DaysBeforeMonth(d.year, d.month + 1) == DaysBeforeMonth(d.year, d.month) + DaysInMonth(d.year, d.month);
  }

  lemma CountEpoch()
    ensures DaysFromCivil(EPOCH) == 0
  {
  }

  /** The date of a day count is the one whose ordinary count it is. */
  lemma {:induction false} CountInvertsCivil(days: int)
    ensures DaysFromCivil(CivilFromDays(days)) == days
    decreases if days < 0 then -days else days
  {
    hide CivilFromDays, DaysFromCivil, IsDate, NextDay;
    CountEpoch();
    CivilFollowsCalendar(0);
    if days > 0 {
      CountInvertsCivil(days - 1);
      CivilFollowsCalendar(days - 1);
      CountStep(CivilFromDays(days - 1));
    } else if days < 0 {
      CountInvertsCivil(days + 1);
      CivilFollowsCalendar(days);
      CountStep(CivilFromDays(days));
    }
  }

  predicate Before(d: Date, e: Date) {
    d.year < e.year || (d.year == e.year && (d.month < e.month || (d.month == e.month && d.day < e.day)))
  }

  lemma {:induction false} YearsOrdered(y: int, z: int)
    requires y <= z
    ensures DaysBeforeYear(z) >= DaysBeforeYear(y) + 365 * (z - y)
    decreases z - y
  {
    hide DaysBeforeYear;
    if y < z {
      YearsOrdered(y, z - 1);
      YearStep(z - 1);
    }
  }

  lemma {:induction false} MonthsOrdered(y: int, m: int, n: int)
    requires 1 <= m < n <= 13
    ensures DaysBeforeMonth(y, n) >= DaysBeforeMonth(y, m) + DaysInMonth(y, m)
    decreases n
  {
    hide IsLeap;
    if m + 1 < n {
      MonthsOrdered(y, m, n - 1);
    }
  }

  lemma InsideYear(d: Date)
    requires IsDate(d)
    ensures 0 <= DaysBeforeMonth(d.year, d.month) + d.day - 1 < if IsLeap(d.year) then 366 else 365
  {
    hide IsLeap, DaysInMonth;
    WholeYear(d.year);
    MonthsOrdered(d.year, d.month, 13);
    MonthsPositive(d.year, d.month);
  }

  lemma {:induction false} MonthsPositive(y: int, m: int)
    ensures DaysBeforeMonth(y, m) >= 0
    decreases m
  {
    if m > 1 {
      MonthsPositive(y, m - 1);
    }
  }

  lemma CountOrdered(d: Date, e: Date)
    requires IsDate(d) && IsDate(e) && Before(d, e)
    ensures DaysFromCivil(d) < DaysFromCivil(e)
  {
    hide DaysBeforeYear, DaysBeforeMonth, DaysInMonth, IsLeap;
    if d.year < e.year {
      YearStep(d.year);
      YearsOrdered(d.year + 1, e.year);
      InsideYear(d);
      InsideYear(e);
    } else if d.month < e.month {
      MonthsOrdered(d.year, d.month, e.month);
    }
  }

  /** Every real date comes from its own day count, and dates are ordered as their counts are. */
  lemma CivilInvertsCount(d: Date)
    requires IsDate(d)
    ensures CivilFromDays(DaysFromCivil(d)) == d
  {
    hide CivilFromDays, DaysFromCivil, IsDate;
    var e := CivilFromDays(DaysFromCivil(d));
    CountInvertsCivil(DaysFromCivil(d));
    CivilFollowsCalendar(DaysFromCivil(d));
    if Before(d, e) {
      CountOrdered(d, e);
    } else if Before(e, d) {
      CountOrdered(e, d);
    }
  }

  lemma CivilOrdered(a: int, b: int)
    ensures a < b <==> Before(CivilFromDays(a), CivilFromDays(b))
  {
    hide CivilFromDays, DaysFromCivil, IsDate;
    CountInvertsCivil(a);
    CountInvertsCivil(b);
    CivilFollowsCalendar(a);
    CivilFollowsCalendar(b);
    if Before(CivilFromDays(a), CivilFromDays(b)) {
      CountOrdered(CivilFromDays(a), CivilFromDays(b));
    } else if Before(CivilFromDays(b), CivilFromDays(a)) {
      CountOrdered(CivilFromDays(b), CivilFromDays(a));
    }
  }

  // ---------- Formatting ----------

  /** The date, when its year fits an i32; months and days always fit. */
  function DateOfDay(days: int): Result<Date, string> {
    var d := CivilFromDays(days);
    if -0x8000_0000 <= d.year < 0x8000_0000 then Ok(d) else Err("year overflow")
  }

  function Clock(second: nat): string {
    "T" + Padded(second / 3_600, 2) + ":" + Padded(second % 3_600 / 60, 2) + ":" + Padded(second % 60, 2) + "Z"
  }

  function Calendar(d: Date): string
    requires d.year >= 0 && d.month >= 0 && d.day >= 0
  {
    Padded(d.year, 4) + ("-" + Padded(d.month, 2) + "-" + Padded(d.day, 2))
  }

  function FormatTimestamp(epoch: u64): Result<string, string> {
    var days, second := epoch / 86_400, epoch % 86_400;
    var d :- DateOfDay(days);
    SinceEpoch(days);
    Ok(Calendar(d) + Clock(second))
  }

  lemma SinceEpoch(days: nat)
    ensures IsDate(CivilFromDays(days)) && CivilFromDays(days).year >= 1970
  {
    hide CivilFromDays;
    CivilOrdered(0, days);
    CivilFollowsCalendar(days);
    CivilFollowsCalendar(0);
  }

  /** What a reader of the text takes it to mean: fixed-width fields after the year. */
  function ReadTimestamp(s: string): int
    requires |s| >= 16
  {
    var y := |s| - 16;
    DaysFromCivil(ReadCalendar(s[..y + 6])) * 86_400 + ReadClock(s[y + 6..])
  }

  function ReadCalendar(s: string): Date
    requires |s| >= 6
  {
    var y := |s| - 6;
    Date(Value(s[..y]), Value(s[y + 1..y + 3]), Value(s[y + 4..]))
  }

  function ReadClock(s: string): int
    requires |s| == 10
  {
    Value(s[1..3]) * 3_600 + Value(s[4..6]) * 60 + Value(s[7..9])
  }

  lemma ClockReads(second: nat)
    requires second < 86_400
    ensures |Clock(second)| == 10 && ReadClock(Clock(second)) == second
    ensures var s := Clock(second); s[0] == 'T' && s[3] == ':' && s[6] == ':' && s[9] == 'Z'
  {
    hide Padded, Value;
    var h, m, s := Padded(second / 3_600, 2), Padded(second % 3_600 / 60, 2), Padded(second % 60, 2);
    TwoDigits(second / 3_600);
    TwoDigits(second % 3_600 / 60);
    TwoDigits(second % 60);
    PaddedReads(second / 3_600, 2);
    PaddedReads(second % 3_600 / 60, 2);
    PaddedReads(second % 60, 2);
    ClockSlices(h, m, s);
  }

  lemma ClockSlices(h: string, m: string, s: string)
    requires |h| == 2 && |m| == 2 && |s| == 2
    ensures var t := "T" + h + ":" + m + ":" + s + "Z";
      |t| == 10 && t[1..3] == h && t[4..6] == m && t[7..9] == s
  {
  }

  lemma CalendarSlices(y: string, m: string, n: string)
    requires |m| == 2 && |n| == 2
    ensures var t := y + ("-" + m + "-" + n);
      |t| == |y| + 6 && t[..|y|] == y && t[|y| + 1..|y| + 3] == m && t[|y| + 4..] == n
  {
    var back := "-" + m + "-" + n;
    var t := y + back;
    assert t[|y| + 1..|y| + 3] == back[1..3] == m;
    assert t[|y| + 4..] == back[4..] == n;
  }

  lemma CalendarReads(d: Date)
    requires d.year >= 0 && 0 <= d.month < 100 && 0 <= d.day < 100
    ensures |Calendar(d)| >= 10 && ReadCalendar(Calendar(d)) == d
    ensures |Calendar(d)| == 10 <==> d.year < 10_000
    ensures var s := Calendar(d); s[|s| - 6] == '-' && s[|s| - 3] == '-'
  {
    hide Padded, Value;
    var y, m, n := Padded(d.year, 4), Padded(d.month, 2), Padded(d.day, 2);
    FourDigits(d.year);
    TwoDigits(d.month);
    TwoDigits(d.day);
    PaddedReads(d.year, 4);
    PaddedReads(d.month, 2);
    PaddedReads(d.day, 2);
    CalendarSlices(y, m, n);
  }

  /** Formatting fails exactly from the first day of year 2^31 on. */
  lemma FormatFailsExactly(epoch: u64)
    ensures FormatTimestamp(epoch).Err? <==> epoch / 86_400 >= DaysFromCivil(Date(0x8000_0000, 1, 1))
  {
    hide CivilFromDays, DaysFromCivil;
    var far := Date(0x8000_0000, 1, 1);
    var days := epoch / 86_400;
    SinceEpoch(days);
    CivilInvertsCount(far);
    CivilOrdered(days, DaysFromCivil(far));
    CivilOrdered(DaysFromCivil(far), days);
  }

  /** The text reads back as the instant it was made from, and has the twenty characters of
      RFC 3339 exactly while the year has four digits. */
  lemma TimestampReads(epoch: u64)
    requires FormatTimestamp(epoch).Ok?
    ensures var s := FormatTimestamp(epoch).value;
      && |s| >= 20 && ReadTimestamp(s) == epoch
      && (|s| == 20 <==> CivilFromDays(epoch / 86_400).year < 10_000)
      && (|s| == 20 ==> s[4] == '-' && s[7] == '-' && s[10] == 'T' && s[13] == ':' && s[16] == ':' && s[19] == 'Z')
  {
    hide CivilFromDays, DaysFromCivil, Calendar, Clock, ReadCalendar, ReadClock, IsLeap;
    var days, second := epoch / 86_400, epoch % 86_400;
    var d := CivilFromDays(days);
    SinceEpoch(days);
    CountInvertsCivil(days);
    CalendarReads(d);
    ClockReads(second);
    var s := FormatTimestamp(epoch).value;
    assert s == Calendar(d) + Clock(second);
    assert s[..|s| - 10] == Calendar(d) && s[|s| - 10..] == Clock(second);
  }

  lemma TimestampsDistinct(a: u64, b: u64)
    requires FormatTimestamp(a).Ok? && FormatTimestamp(a) == FormatTimestamp(b)
    ensures a == b
  {
    hide FormatTimestamp;
    TimestampReads(a);
    TimestampReads(b);
  }
}
