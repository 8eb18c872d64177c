/** Calendar arithmetic of the SBOM timestamp: the closed-form conversion from a day count to a
    proleptic Gregorian date, against the calendar itself. */
module Civil {
  import opened Arith

  // ---------- The calendar ----------

  datatype Date = Date(year: int, month: int, day: int)

  predicate IsLeap(y: int) {
    y % 4 == 0 && (y % 100 != 0 || y % 400 == 0)
  }

  function DaysInMonth(y: int, m: int): int {
    if m == 2 then (if IsLeap(y) then 29 else 28)
    else if m == 4 || m == 6 || m == 9 || m == 11 then 30
    else 31
  }

  predicate IsDate(d: Date) {
    1 <= d.month <= 12 && 1 <= d.day <= DaysInMonth(d.year, d.month)
  }

  function NextDay(d: Date): Date {
    if d.day < DaysInMonth(d.year, d.month) then d.(day := d.day + 1)
    else if d.month < 12 then Date(d.year, d.month + 1, 1)
    else Date(d.year + 1, 1, 1)
  }

  const EPOCH := Date(1970, 1, 1)

  // ---------- The closed form ----------

  /** Division that truncates toward zero. */
  function Quot(a: int, b: int): int
    requires b > 0
  {
    if a >= 0 then a / b else -(-a / b)
  }

  function EraOf(z: int): int {
    Quot(if z >= 0 then z else z - 146_096, 146_097)
  }

  function YearOfEra(doe: int): int {
    (doe - doe / 1_460 + doe / 36_524 - doe / 146_096) / 365
  }

  /** Days before March 1 of year `yoe` of an era. */
  function YearStart(yoe: int): int {
    365 * yoe + yoe / 4 - yoe / 100
  }

  function MonthStart(mp: int): int {
    (153 * mp + 2) / 5
  }

  function MonthIndex(doy: int): int {
    (5 * doy + 2) / 153
  }

  function ToDate(era: int, yoe: int, doy: int): Date {
    var mp := MonthIndex(doy);
    var day := doy - MonthStart(mp) + 1;
    var month := mp + if mp < 10 then 3 else -9;
    var year := yoe + era * 400 + if month <= 2 then 1 else 0;
    Date(year, month, day)
  }

  function CivilFromDays(days: int): Date {
    var z := days + 719_468;
    var era := EraOf(z);
    var doe := z - era * 146_097;
    var yoe := YearOfEra(doe);
    ToDate(era, yoe, doe - YearStart(yoe))
  }

  // ---------- Years ----------

  /** Length of the year that starts on March 1 of year `yoe` of an era. */
  function YearLength(yoe: int): int {
    if IsLeap(yoe + 1) then 366 else 365
  }

  lemma EraFloor(z: int)
    ensures EraOf(z) == z / 146_097
  {
    if z < 0 {
      var n := 146_096 - z;
      DivMod(z, 146_097, -(n / 146_097), 146_096 - n % 146_097);
    }
  }

  /** Day `doy` of year `100c + 4q + k` of an era, counted from March. */
  predicate InYear(c: int, q: int, k: int, doy: int) {
    && 0 <= c <= 3 && 0 <= q <= 24 && 0 <= k <= 3
    && 0 <= doy < 365 + if k == 3 && (q < 24 || c == 3) then 1 else 0
  }

  function DayOfEra(c: int, q: int, k: int, doy: int): int {
    36_524 * c + 1_461 * q + 365 * k + doy
  }

  lemma Decompose(doe: int) returns (c: int, q: int, k: int, doy: int)
    requires 0 <= doe < 146_097
    ensures InYear(c, q, k, doy) && doe == DayOfEra(c, q, k, doy)
  {
    c := if doe == 146_096 then 3 else doe / 36_524;
    var r := doe - 36_524 * c;
    q := r / 1_461;
    var s := r - 1_461 * q;
    k := if s == 1_460 then 3 else s / 365;
    doy := s - 365 * k;
  }

  lemma YearFields(c: int, q: int, k: int)
    requires 0 <= c <= 3 && 0 <= q <= 24 && 0 <= k <= 3
    ensures var yoe := 100 * c + 4 * q + k;
      && YearStart(yoe) == 36_524 * c + 1_461 * q + 365 * k
      && (IsLeap(yoe + 1) <==> k == 3 && (q < 24 || c == 3))
  {
    var yoe := 100 * c + 4 * q + k;
    DivMod(yoe, 4, 25 * c + q, k);
    DivMod(yoe, 100, c, 4 * q + k);
  }

  lemma CenturyPart(c: int, q: int, k: int, doy: int)
    requires InYear(c, q, k, doy)
    ensures var doe := DayOfEra(c, q, k, doy); 0 <= doe < 146_097 && doe / 36_524 - doe / 146_096 == c
  {
    var doe, r := DayOfEra(c, q, k, doy), 1_461 * q + 365 * k + doy;
    if r < 36_524 {
      DivMod(doe, 36_524, c, r);
      DivMod(doe, 146_096, 0, doe);
    } else {
      DivMod(doe, 36_524, 4, 0);
      DivMod(doe, 146_096, 1, 0);
    }
  }

  lemma FourYearPart(c: int, q: int, k: int, doy: int)
    requires InYear(c, q, k, doy)
    ensures var t := 24 * c + q + 365 * k + doy;
      DayOfEra(c, q, k, doy) / 1_460 == 25 * c + q + if t >= 1_460 then 1 else 0
  {
    var t := 24 * c + q + 365 * k + doy;
    var late := if t >= 1_460 then 1 else 0;
    DivMod(DayOfEra(c, q, k, doy), 1_460, 25 * c + q + late, t - 1_460 * late);
  }

  lemma YearFormula(c: int, q: int, k: int, doy: int)
    requires InYear(c, q, k, doy)
    ensures YearOfEra(DayOfEra(c, q, k, doy)) == 100 * c + 4 * q + k
  {
    var doe := DayOfEra(c, q, k, doy);
    CenturyPart(c, q, k, doy);
    FourYearPart(c, q, k, doy);
    var late := if 24 * c + q + 365 * k + doy >= 1_460 then 1 else 0;
    DivMod(doe - doe / 1_460 + doe / 36_524 - doe / 146_096, 365, 100 * c + 4 * q + k, doy - late);
  }

  lemma YearOfEraRight(doe: int)
    requires 0 <= doe < 146_097
    ensures 0 <= YearOfEra(doe) < 400
    ensures YearStart(YearOfEra(doe)) <= doe < YearStart(YearOfEra(doe)) + YearLength(YearOfEra(doe))
  {
    hide YearOfEra, YearStart;
    var c, q, k, doy := Decompose(doe);
    YearFormula(c, q, k, doy);
    YearFields(c, q, k);
  }

  lemma YearUnique(yoe: int, doy: int)
    requires 0 <= yoe < 400 && 0 <= doy < YearLength(yoe)
    ensures YearOfEra(YearStart(yoe) + doy) == yoe
    ensures 0 <= YearStart(yoe) + doy < 146_097
  {
    hide YearOfEra, YearStart, IsLeap;
    var c, q, k := yoe / 100, yoe % 100 / 4, yoe % 4;
    assert yoe == 100 * c + 4 * q + k;
    YearFields(c, q, k);
    YearFormula(c, q, k, doy);
    CenturyPart(c, q, k, doy);
  }

  // ---------- Locating a day ----------

  predicate IsDay(yoe: int, doy: int) {
    0 <= yoe < 400 && 0 <= doy < YearLength(yoe)
  }

  function DayCount(era: int, yoe: int, doy: int): int {
    era * 146_097 + YearStart(yoe) + doy - 719_468
  }

  lemma Locate(days: int) returns (era: int, yoe: int, doy: int)
    ensures IsDay(yoe, doy) && days == DayCount(era, yoe, doy)
    ensures CivilFromDays(days) == ToDate(era, yoe, doy)
  {
    hide YearOfEra, YearStart, YearLength, EraOf, ToDate;
    var z := days + 719_468;
    EraFloor(z);
    era := z / 146_097;
    var doe := z - era * 146_097;
    assert 0 <= doe < 146_097;
    YearOfEraRight(doe);
    yoe := YearOfEra(doe);
    doy := doe - YearStart(yoe);
  }

  lemma CivilAt(era: int, yoe: int, doy: int)
    requires IsDay(yoe, doy)
    ensures CivilFromDays(DayCount(era, yoe, doy)) == ToDate(era, yoe, doy)
  {
    hide YearOfEra, YearStart, YearLength, EraOf, ToDate;
    var z := DayCount(era, yoe, doy) + 719_468;
    EraFloor(z);
    YearUnique(yoe, doy);
    DivMod(z, 146_097, era, YearStart(yoe) + doy);
  }

  // ---------- Months ----------

  lemma LeapPeriod(y: int, era: int)
    ensures IsLeap(y + era * 400) == IsLeap(y)
  {
    DivMod(y + era * 400, 400, y / 400 + era, y % 400);
    DivMod(y + era * 400, 100, y / 100 + 4 * era, y % 100);
    DivMod(y + era * 400, 4, y / 4 + 100 * era, y % 4);
  }

  lemma MonthRight(doy: int)
    requires 0 <= doy <= 365
    ensures 0 <= MonthIndex(doy) <= 11
    ensures MonthStart(MonthIndex(doy)) <= doy < MonthStart(MonthIndex(doy) + 1)
  {
  }

  lemma MonthUnique(mp: int, doy: int)
    requires 0 <= mp <= 11 && MonthStart(mp) <= doy < MonthStart(mp + 1)
    ensures MonthIndex(doy) == mp
  {
  }

  lemma MonthGap(mp: int)
    requires 0 <= mp <= 10
    ensures MonthStart(mp + 1) - MonthStart(mp) == if mp == 1 || mp == 3 || mp == 6 || mp == 8 then 30 else 31
  {
  }

  lemma MonthEnds()
    ensures MonthStart(11) == 337 && MonthStart(12) == 367
  {
  }

  lemma MonthStarts(mp: int)
    requires 0 <= mp <= 11
    ensures MonthIndex(MonthStart(mp)) == mp
  {
  }

  /** How far a month of the March-based year reaches, and its civil length. */
  lemma MonthLengths(era: int, yoe: int, mp: int)
    requires 0 <= mp <= 11
    ensures var d := ToDate(era, yoe, MonthStart(mp));
      && d.day == 1 && 1 <= d.month <= 12
      && (mp < 11 ==> DaysInMonth(d.year, d.month) == MonthStart(mp + 1) - MonthStart(mp))
      && (mp == 11 ==> d.month == 2 && DaysInMonth(d.year, d.month) == YearLength(yoe) - MonthStart(11))
  {
    hide IsLeap, MonthStart, MonthIndex;
    MonthStarts(mp);
    MonthEnds();
    if mp < 11 {
      MonthGap(mp);
    } else {
      LeapPeriod(yoe + 1, era);
      assert yoe + 1 + era * 400 == yoe + era * 400 + 1;
    }
  }

  lemma SameMonth(era: int, yoe: int, doy: int)
    requires IsDay(yoe, doy)
    ensures var mp := MonthIndex(doy); var first := ToDate(era, yoe, MonthStart(mp));
      ToDate(era, yoe, doy) == first.(day := doy - MonthStart(mp) + 1)
  {
    hide MonthIndex, MonthStart;
    MonthRight(doy);
    MonthStarts(MonthIndex(doy));
    MonthLengths(era, yoe, MonthIndex(doy));
  }

  lemma DateIsValid(era: int, yoe: int, doy: int)
    requires IsDay(yoe, doy)
    ensures IsDate(ToDate(era, yoe, doy))
  {
    hide MonthIndex, MonthStart, ToDate, DaysInMonth, YearLength;
    YearLengths(yoe);
    MonthRight(doy);
    SameMonth(era, yoe, doy);
    MonthLengths(era, yoe, MonthIndex(doy));
  }

  lemma YearLengths(yoe: int)
    ensures 365 <= YearLength(yoe) <= 366
  {
  }

  // ---------- Stepping from day to day ----------

  lemma StepWithinMonth(era: int, yoe: int, doy: int)
    requires IsDay(yoe, doy) && doy + 1 < YearLength(yoe)
    ensures ToDate(era, yoe, doy + 1) == NextDay(ToDate(era, yoe, doy))
  {
    hide MonthIndex, MonthStart, ToDate, DaysInMonth, YearLength;
    YearLengths(yoe);
    var mp := MonthIndex(doy);
    MonthRight(doy);
    MonthRight(doy + 1);
    SameMonth(era, yoe, doy);
    SameMonth(era, yoe, doy + 1);
    MonthLengths(era, yoe, mp);
    MonthEnds();
    if doy + 1 < MonthStart(mp + 1) {
      MonthUnique(mp, doy + 1);
    } else {
      NextMonth(era, yoe, mp);
      MonthStarts(mp + 1);
    }
  }

  lemma NextMonth(era: int, yoe: int, mp: int)
    requires 0 <= mp < 11
    ensures var d, e := ToDate(era, yoe, MonthStart(mp)), ToDate(era, yoe, MonthStart(mp + 1));
      e == if d.month < 12 then Date(d.year, d.month + 1, 1) else Date(d.year + 1, 1, 1)
  {
    hide MonthStart, MonthIndex;
    MonthStarts(mp);
    MonthStarts(mp + 1);
  }

  lemma StepAcrossYear(era: int, yoe: int)
    requires 0 <= yoe < 400
    ensures var last := YearLength(yoe) - 1;
      NextDay(ToDate(era, yoe, last)) == if yoe < 399 then ToDate(era, yoe + 1, 0) else ToDate(era + 1, 0, 0)
  {
    hide IsLeap, MonthStart, MonthIndex, DaysInMonth;
    var last := YearLength(yoe) - 1;
    MonthEnds();
    MonthUnique(11, last);
    SameMonth(era, yoe, last);
    MonthLengths(era, yoe, 11);
    MonthStarts(11);
    FirstOfMarch();
  }

  lemma FirstOfMarch()
    ensures MonthIndex(0) == 0 && MonthStart(0) == 0
  {
  }

  lemma YearChain(yoe: int)
    requires 0 <= yoe < 400
    ensures YearStart(yoe) + YearLength(yoe) == if yoe < 399 then YearStart(yoe + 1) else 146_097
  {
    hide YearStart, IsLeap;
    var c, q, k := Digits(yoe);
    YearFields(c, q, k);
    if k < 3 {
      YearFields(c, q, k + 1);
    } else if q < 24 {
      YearFields(c, q + 1, 0);
    } else if c < 3 {
      YearFields(c + 1, 0, 0);
    }
  }

  lemma Digits(yoe: int) returns (c: int, q: int, k: int)
    requires 0 <= yoe < 400
    ensures 0 <= c <= 3 && 0 <= q <= 24 && 0 <= k <= 3 && yoe == 100 * c + 4 * q + k
  {
    c := yoe / 100;
    q := yoe % 100 / 4;
    k := yoe % 4;
    assert yoe == c * 100 + yoe % 100;
    DivMod(yoe, 4, 25 * c + q, yoe % 100 % 4);
  }

  /** Main result: day zero is the epoch, every day is a real date, and each day count gives the
      calendar day after the one before it, over all of time in both directions. */
  lemma CivilFollowsCalendar(days: int)
    ensures CivilFromDays(0) == EPOCH
    ensures IsDate(CivilFromDays(days))
    ensures CivilFromDays(days + 1) == NextDay(CivilFromDays(days))
  {
    hide CivilFromDays, ToDate, YearStart, YearLength, IsDate, NextDay;
    var era, yoe, doy := Locate(days);
    DateIsValid(era, yoe, doy);
    YearLengths(yoe);
    if doy + 1 < YearLength(yoe) {
      StepWithinMonth(era, yoe, doy);
      CivilAt(era, yoe, doy + 1);
    } else {
      StepAcrossYear(era, yoe);
      YearChain(yoe);
      if yoe < 399 {
        YearLengths(yoe + 1);
        CivilAt(era, yoe + 1, 0);
      } else {
        YearLengths(0);
        EraBegins();
        CivilAt(era + 1, 0, 0);
      }
    }
    EpochIsZero();
  }

  lemma EraBegins()
    ensures YearStart(0) == 0
  {
  }

  lemma EpochIsZero()
    ensures CivilFromDays(0) == EPOCH
  {
    hide CivilFromDays, YearStart, IsLeap, MonthIndex, MonthStart;
    YearFields(3, 17, 1);
    MonthLast();
    CivilAt(4, 369, 306);
  }

  lemma MonthLast()
    ensures MonthIndex(306) == 10 && MonthStart(10) == 306
  {
  }
}
