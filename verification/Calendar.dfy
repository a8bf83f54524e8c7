/** The ordinary Gregorian calendar: month lengths, leap years, days counted from 1970-01-01. */
module Calendar {
  predicate IsLeap(y: nat) {
    y % 4 == 0 && (y % 100 != 0 || y % 400 == 0)
  }

  function YearLength(y: nat): nat {
    if IsLeap(y) then 366 else 365
  }

  function MonthLength(y: nat, m: nat): nat {
    match m
    case 2 => if IsLeap(y) then 29 else 28
    case 4 => 30
    case 6 => 30
    case 9 => 30
    case 11 => 30
    case _ => 31
  }

  datatype Date = Date(year: nat, month: nat, day: nat)

  predicate IsDate(x: Date) {
    x.year >= 1970 && 1 <= x.month <= 12 && 1 <= x.day <= MonthLength(x.year, x.month)
  }

  /** Days of the years before `y`, from 1970 on. */
  function DaysBeforeYear(y: nat): nat
    requires y >= 1970
  {
    if y == 1970 then 0 else DaysBeforeYear(y - 1) + YearLength(y - 1)
  }

  /** Days of the months before `m`. */
  function DaysBeforeMonth(y: nat, m: nat): nat
    requires m >= 1
  {
    if m == 1 then 0 else DaysBeforeMonth(y, m - 1) + MonthLength(y, m - 1)
  }

  function DayNumber(x: Date): nat
    requires IsDate(x)
  {
    DaysBeforeYear(x.year) + DaysBeforeMonth(x.year, x.month) + x.day - 1
  }

  function NextDay(x: Date): (n: Date)
    requires IsDate(x)
    ensures IsDate(n)
  {
    if x.day < MonthLength(x.year, x.month) then Date(x.year, x.month, x.day + 1)
    else if x.month < 12 then Date(x.year, x.month + 1, 1)
    else Date(x.year + 1, 1, 1)
  }

  lemma DaysOfYear(y: nat)
    ensures DaysBeforeMonth(y, 12) + MonthLength(y, 12) == YearLength(y)
  {
    MonthStarts(y);
  }

  lemma MonthStarts(y: nat)
    ensures
      var leap := if IsLeap(y) then 1 else 0;
      && DaysBeforeMonth(y, 1) == 0 && DaysBeforeMonth(y, 2) == 31 && DaysBeforeMonth(y, 3) == 59 + leap
      && DaysBeforeMonth(y, 4) == 90 + leap && DaysBeforeMonth(y, 5) == 120 + leap
      && DaysBeforeMonth(y, 6) == 151 + leap
      && DaysBeforeMonth(y, 7) == 181 + leap && DaysBeforeMonth(y, 8) == 212 + leap
      && DaysBeforeMonth(y, 9) == 243 + leap
      && DaysBeforeMonth(y, 10) == 273 + leap && DaysBeforeMonth(y, 11) == 304 + leap
      && DaysBeforeMonth(y, 12) == 334 + leap
  {
    hide IsLeap;
    assert DaysBeforeMonth(y, 2) == 31;
    var leap := if IsLeap(y) then 1 else 0;
    assert DaysBeforeMonth(y, 3) == 59 + leap;
    assert DaysBeforeMonth(y, 5) == 120 + leap;
    assert DaysBeforeMonth(y, 7) == 181 + leap;
    assert DaysBeforeMonth(y, 9) == 243 + leap;
    assert DaysBeforeMonth(y, 11) == 304 + leap;
  }

  /** The next calendar day has the next day number. */
  lemma NextDayCounts(x: Date)
    requires IsDate(x)
    ensures DayNumber(NextDay(x)) == DayNumber(x) + 1
  {
    hide IsLeap, DaysBeforeMonth;
    NextMonth(x.year, x.month);
    NextMonth(x.year + 1, 1);
    DaysOfYear(x.year);
  }

  lemma NextMonth(y: nat, m: nat)
    requires m >= 1
    ensures DaysBeforeMonth(y, m + 1) == DaysBeforeMonth(y, m) + MonthLength(y, m) && DaysBeforeMonth(y, 1) == 0
  {
  }

  lemma {:induction false} MonthsMonotone(y: nat, m: nat, n: nat)
    requires 1 <= m < n
    ensures DaysBeforeMonth(y, m) + MonthLength(y, m) <= DaysBeforeMonth(y, n)
    decreases n
  {
    hide MonthLength;
    if n > m + 1 {
      MonthsMonotone(y, m, n - 1);
    }
  }

  lemma {:induction false} YearsMonotone(y: nat, z: nat)
    requires 1970 <= y < z
    ensures DaysBeforeYear(y) + YearLength(y) <= DaysBeforeYear(z)
    decreases z
  {
    hide YearLength;
    if z > y + 1 {
      YearsMonotone(y, z - 1);
    }
  }

  lemma WithinYear(x: Date)
    requires IsDate(x)
    ensures DaysBeforeMonth(x.year, x.month) + x.day <= YearLength(x.year)
  {
    hide MonthLength, IsLeap;
    DaysOfYear(x.year);
    if x.month < 12 {
      MonthsMonotone(x.year, x.month, 12);
    }
  }

  lemma Earlier(a: Date, b: Date)
    requires IsDate(a) && IsDate(b)
    requires a.year < b.year || (a.year == b.year && (a.month < b.month || (a.month == b.month && a.day < b.day)))
    ensures DayNumber(a) < DayNumber(b)
  {
    hide MonthLength, IsLeap;
    WithinYear(a);
    if a.year < b.year {
      YearsMonotone(a.year, b.year);
    } else if a.month < b.month {
      MonthsMonotone(a.year, a.month, b.month);
    }
  }

  /** A day number belongs to one date only. */
  lemma DayNumberUnique(a: Date, b: Date)
    requires IsDate(a) && IsDate(b) && DayNumber(a) == DayNumber(b)
    ensures a == b
  {
    hide DayNumber, IsDate;
    if a.year < b.year || (a.year == b.year && (a.month < b.month || (a.month == b.month && a.day < b.day))) {
      Earlier(a, b);
    } else if a != b {
      Earlier(b, a);
    }
  }
}
