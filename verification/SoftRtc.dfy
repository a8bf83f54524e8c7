/** The clock: seconds counted since a set time, and their breakdown into a date and a time of day. */
module SoftRtc {
  import opened Arithmetic
  import opened Calendar

  const WORD: nat := 0x1_0000_0000
  const DAY: nat := 86400
  const ERA: nat := 146097

  datatype DateTime = DateTime(date: Date, hour: nat, minute: nat, second: nat)

  /** Years of 365 days, as the code scales the day of an era. */
  function Scaled(doe: nat): int {
    doe - doe / 1460 + doe / 36524 - doe / 146096
  }

  function YearOfEra(doe: nat): int {
    Scaled(doe) / 365
  }

  /** Days of the years of an era that begin on 1 March, before year `k`. */
  function Start(k: nat): nat {
    365 * k + k / 4 - k / 100
  }

  // ---- The year of an era ----

  /** The years of an era by century, leap cycle and rest. */
  lemma StartParts(c: nat, q: nat, r: nat)
    requires c < 4 && q < 25 && r < 4
    ensures Start(100 * c + 4 * q + r) == 36524 * c + 1461 * q + 365 * r
  {
    var k := 100 * c + 4 * q + r;
    assert k / 4 == 25 * c + q;
    assert k / 100 == c;
  }

  predicate LongYear(k: nat) {
    (k + 1) % 4 == 0 && ((k + 1) % 100 != 0 || k + 1 == 400)
  }

  function Last(k: nat): nat {
    Start(k) + if LongYear(k) then 365 else 364
  }

  lemma ScaledFirst(c: nat, q: nat, r: nat)
    requires c < 4 && q < 25 && r < 4
    ensures Scaled(36524 * c + 1461 * q + 365 * r) == 365 * (100 * c + 4 * q + r)
  {
    var x := 36524 * c + 1461 * q + 365 * r;
    assert x == 1460 * (25 * c + q) + (24 * c + q + 365 * r);
    assert x / 1460 == 25 * c + q;
    assert x / 36524 == c;
    assert x / 146096 == 0;
  }

  lemma ScaledLastShort(c: nat, q: nat, r: nat)
    requires c < 4 && q < 25 && r < 4 && (r < 3 || (q == 24 && c < 3))
    ensures Scaled(36524 * c + 1461 * q + 365 * r + 364) < 365 * (100 * c + 4 * q + r + 1)
  {
    var x := 36524 * c + 1461 * q + 365 * r + 364;
    assert x == 1460 * (25 * c + q) + (24 * c + q + 365 * r + 364);
    assert x / 36524 == c;
    assert x / 146096 == 0;
    assert x / 1460 >= 25 * c + q + if r < 3 then 0 else 1;
  }

  lemma ScaledLastLong(c: nat, q: nat)
    requires c < 4 && q < 25 && (q < 24 || c == 3)
    ensures Scaled(36524 * c + 1461 * q + 365 * 3 + 365) < 365 * (100 * c + 4 * q + 3 + 1)
  {
    var x := 36524 * c + 1461 * q + 365 * 3 + 365;
    if q < 24 {
      assert x == 1460 * (25 * c + q + 1) + (24 * c + q);
      assert x / 1460 == 25 * c + q + 1;
      assert x / 36524 == c;
    } else {
      assert x == 146096;
    }
  }

  lemma ScaledStep(x: nat)
    ensures Scaled(x) <= Scaled(x + 1)
  {
    DivStep(x, 1460);
    DivStep(x, 36524);
    DivStep(x, 146096);
    if (x + 1) % 146096 == 0 {
      var k := (x + 1) / 146096;
      DivMod(x + 1, 146096);
      AddMultiple(4 * k, 0, 36524);
    }
  }

  lemma DivStep(x: nat, n: nat)
    requires n > 0
    ensures (x + 1) / n == x / n + if (x + 1) % n == 0 then 1 else 0
  {
    var q, r := x / n, x % n;
    DivMod(x, n);
    if r + 1 == n {
      assert (q + 1) * n == q * n + n;
      DivModUnique(x + 1, q + 1, n, 0);
    } else {
      DivModUnique(x + 1, q, n, r + 1);
    }
  }

  lemma {:induction false} ScaledMonotone(x: nat, y: nat)
    requires x <= y
    ensures Scaled(x) <= Scaled(y)
    decreases y - x
  {
    hide Scaled;
    if x < y {
      ScaledStep(x);
      ScaledMonotone(x + 1, y);
    }
  }

  /** A day between the first and the last day of year `k` gets year `k`. */
  lemma YearIs(k: nat, doe: nat)
    requires k < 400 && Start(k) <= doe <= Last(k)
    ensures YearOfEra(doe) == k
  {
    hide Scaled;
    var c, q, r := k / 100, k % 100 / 4, k % 4;
    assert k == 100 * c + 4 * q + r;
    StartParts(c, q, r);
    ScaledFirst(c, q, r);
    LongIs(c, q, r);
    if LongYear(k) {
      ScaledLastLong(c, q);
    } else {
      ScaledLastShort(c, q, r);
    }
    ScaledMonotone(Start(k), doe);
    ScaledMonotone(doe, Last(k));
  }

  lemma LongIs(c: nat, q: nat, r: nat)
    requires c < 4 && q < 25 && r < 4
    ensures LongYear(100 * c + 4 * q + r) <==> r == 3 && (q < 24 || c == 3)
  {
    var k := 100 * c + 4 * q + r;
    assert (k + 1) % 4 == (r + 1) % 4;
    assert k + 1 == 100 * c + (4 * q + r + 1);
  }

  /** The next year begins on the day after the last one. */
  lemma NextStart(k: nat)
    requires k < 400
    ensures Last(k) + 1 == if k == 399 then ERA else Start(k + 1)
  {
    DivStep(k, 4);
    DivStep(k, 100);
    LeapParts(k + 1);
  }

  lemma WhichYear(doe: nat) returns (k: nat)
    requires doe < ERA
    ensures k < 400 && Start(k) <= doe <= Last(k)
  {
    hide Start, Last;
    StartZero();
    k := 0;
    NextStart(0);
    while k < 399 && Last(k) < doe
      invariant k < 400 && Start(k) <= doe && Last(k) + 1 == if k == 399 then ERA else Start(k + 1)
    {
      k := k + 1;
      NextStart(k);
    }
  }

  lemma StartZero()
    ensures Start(0) == 0
  {
  }

  // ---- The month of a year ----

  /** Days of the months before the `mp`-th, counted from March. */
  function MarchStart(mp: nat): nat {
    (153 * mp + 2) / 5
  }

  function MonthOfYear(doy: nat): nat {
    (5 * doy + 2) / 153
  }

  lemma MonthIs(doy: nat)
    requires doy <= 365
    ensures MonthOfYear(doy) < 12 && MarchStart(MonthOfYear(doy)) <= doy < MarchStart(MonthOfYear(doy) + 1)
  {
  }

  // ---- Years and leap days ----

  /** Days before 1 March of year `y`, counted from 1 March of year 0. */
  function MarchDays(y: nat): nat {
    365 * y + y / 4 - y / 100 + y / 400
  }

  lemma EraDays(era: nat, k: nat)
    requires k < 400
    ensures era * ERA + Start(k) == MarchDays(400 * era + k)
    ensures LongYear(k) <==> IsLeap(400 * era + k + 1)
  {
    var y := 400 * era + k;
    AddMultiple(100 * era, k, 4);
    AddMultiple(4 * era, k, 100);
    AddMultiple(era, k, 400);
    AddMultiple(100 * era, k + 1, 4);
    AddMultiple(4 * era, k + 1, 100);
    AddMultiple(era, k + 1, 400);
    assert y == 100 * era * 4 + k == 4 * era * 100 + k == era * 400 + k;
    LeapParts(k + 1);
  }

  lemma {:induction false} YearsCounted(y: nat)
    requires y >= 1970
    ensures DaysBeforeYear(y) == MarchDays(y - 1) - 719162
  {
    if y > 1970 {
      YearsCounted(y - 1);
      MarchYear(y - 1);
    }
  }

  /** From one 1 March to the next lies the length of the calendar year whose February is passed. */
  lemma MarchYear(y: nat)
    requires y > 0
    ensures MarchDays(y) == MarchDays(y - 1) + YearLength(y)
  {
    DivStep(y - 1, 4);
    DivStep(y - 1, 100);
    DivStep(y - 1, 400);
    LeapParts(y);
  }

  lemma LeapParts(y: nat)
    ensures y % 400 == 0 ==> y % 100 == 0
    ensures y % 100 == 0 ==> y % 4 == 0
  {
    DivMod(y, 400);
    DivMod(y, 100);
    AddMultiple(4 * (y / 400), 0, 100);
    AddMultiple(25 * (y / 100), 0, 4);
  }

  // ---- The date ----

  /** The day of the year, in a year that begins on 1 March. */
  lemma InYear(era: nat, doe: nat)
    requires doe < ERA
    ensures
      var yoe := YearOfEra(doe);
      && 0 <= yoe < 400 && Start(yoe) <= doe && doe - Start(yoe) <= 365
      && era * ERA + doe == MarchDays(400 * era + yoe) + (doe - Start(yoe))
      && (doe - Start(yoe) == 365 ==> IsLeap(400 * era + yoe + 1))
  {
    hide Start, IsLeap, MarchDays, YearOfEra;
    var k := WhichYear(doe);
    YearIs(k, doe);
    EraDays(era, k);
  }

  lemma LateEnough(y: nat, doy: nat, days: nat)
    requires days + 719468 == MarchDays(y) + doy && doy <= 365
    ensures y >= 1969 && (y == 1969 ==> doy >= 306)
  {
  }

  function MonthNumber(mp: nat): nat
    requires mp < 12
  {
    mp + if mp < 10 then 3 else -9
  }

  function Assembled(y: nat, doy: nat): Date
    requires doy <= 365
  {
    MonthIs(doy);
    var mp := MonthOfYear(doy);
    var m := MonthNumber(mp);
    Date(y + (if m <= 2 then 1 else 0), m, doy - MarchStart(mp) + 1)
  }

  /** Month and day within a year that begins on 1 March, in the calendar year they fall in. */
  lemma AssembledCounts(y: nat, doy: nat)
    requires doy <= 365 && (doy == 365 ==> IsLeap(y + 1))
    ensures
      var x := Assembled(y, doy);
      var leap := if IsLeap(y) then 1 else 0;
      && 1 <= x.month <= 12 && 1 <= x.day <= MonthLength(x.year, x.month)
      && x.year == (if doy < 306 then y else y + 1)
      && DaysBeforeMonth(x.year, x.month) + x.day - 1 == if doy < 306 then doy + 59 + leap else doy - 306
  {
    hide IsLeap, DaysBeforeMonth;
    MonthIs(doy);
    MonthStarts(y);
    MonthStarts(y + 1);
  }

  lemma AssembledIs(y: nat, doy: nat, days: nat)
    requires days + 719468 == MarchDays(y) + doy && doy <= 365 && (doy == 365 ==> IsLeap(y + 1))
    ensures IsDate(Assembled(y, doy)) && DayNumber(Assembled(y, doy)) == days
  {
    hide IsLeap, DaysBeforeMonth, MarchDays, Assembled;
    LateEnough(y, doy, days);
    AssembledCounts(y, doy);
    if doy < 306 {
      YearsCounted(y);
      MarchYear(y);
    } else {
      YearsCounted(y + 1);
    }
  }

  /** civil_from_days: a real date, whose day number is the number of days. */
  function CivilDate(days: nat): (x: Date)
    ensures IsDate(x) && DayNumber(x) == days
  {
    var z := days + 719468;
    var era := z / ERA;
    var doe := z - era * ERA;
    InYear(era, doe);
    var yoe := YearOfEra(doe);
    var doy := doe - (365 * yoe + yoe / 4 - yoe / 100);
    AssembledIs(400 * era + yoe, doy, days);
    Assembled(yoe + era * 400, doy)
  }

  function TimeToDateTime(unix: nat): DateTime {
    var days, secs := unix / DAY, unix % DAY;
    DateTime(CivilDate(days), secs / 3600, secs % 3600 / 60, secs % 60)
  }

  lemma ClockParts(secs: nat)
    requires secs < DAY
    ensures secs / 3600 < 24 && secs % 3600 / 60 < 60 && secs == secs / 3600 * 3600 + secs % 3600 / 60 * 60 + secs % 60
  {
    var h, r := secs / 3600, secs % 3600;
    assert secs == h * 60 * 60 + r;
    AddMultiple(h * 60, r, 60);
    assert r == r / 60 * 60 + r % 60;
  }

  /** Every time shows a real date and time of day, and counting them by the ordinary calendar gives the time back. */
  lemma TimeIsCounted(unix: nat)
    ensures
      var x := TimeToDateTime(unix);
      && IsDate(x.date) && x.hour < 24 && x.minute < 60 && x.second < 60
      && DayNumber(x.date) == unix / DAY
      && unix == DayNumber(x.date) * DAY + x.hour * 3600 + x.minute * 60 + x.second
  {
    hide CivilDate, DayNumber, IsDate;
    ClockParts(unix % DAY);
  }

  /** The year of a 32-bit time fits the field it is stored in. */
  lemma YearFits(unix: nat)
    requires unix < WORD
    ensures TimeToDateTime(unix).date.year <= 2106
  {
    hide TimeToDateTime, IsDate, DaysBeforeYear, DaysBeforeMonth;
    TimeIsCounted(unix);
    var y := TimeToDateTime(unix).date.year;
    if y > 2106 {
      YearsCounted(y);
    }
  }

  /** A day later the clock shows the next calendar day and the same time of day. */
  lemma DayLater(unix: nat)
    ensures
      var x := TimeToDateTime(unix);
      TimeToDateTime(unix + DAY) == x.(date := NextDay(x.date))
  {
    hide NextDay, CivilDate, DayNumber, IsDate;
    var a, b := CivilDate(unix / DAY), CivilDate((unix + DAY) / DAY);
    assert (unix + DAY) / DAY == unix / DAY + 1 && (unix + DAY) % DAY == unix % DAY;
    NextDayCounts(a);
    DayNumberUnique(NextDay(a), b);
  }

  /** Every real date and time of day is shown at exactly the time that counts it. */
  lemma EveryDateShown(x: DateTime)
    requires IsDate(x.date) && x.hour < 24 && x.minute < 60 && x.second < 60
    ensures TimeToDateTime(DayNumber(x.date) * DAY + x.hour * 3600 + x.minute * 60 + x.second) == x
  {
    hide CivilDate, DayNumber, IsDate;
    var secs := x.hour * 3600 + x.minute * 60 + x.second;
    var unix := DayNumber(x.date) * DAY + secs;
    assert unix / DAY == DayNumber(x.date) && unix % DAY == secs;
    DayNumberUnique(CivilDate(DayNumber(x.date)), x.date);
  }

  // ---- The counters ----

  class Rtc {
    var uptime: nat
    var offset: nat

    ghost predicate Valid()
      reads this
    {
      uptime < WORD && offset < WORD
    }

    /** The wall-clock time. */
    function Now(): nat
      reads this
    {
      (offset + uptime) % WORD
    }

    constructor ()
      ensures Valid() && uptime == 0
    {
      uptime, offset := 0, 0;
    }

    method Tick()
      requires Valid()
      modifies this`uptime
      ensures Valid() && Now() == (old(Now()) + 1) % WORD
    {
      uptime := (uptime + 1) % WORD;
    }

    method SetTime(unix: nat)
      requires Valid() && unix < WORD
      modifies this`offset
      ensures Valid() && Now() == unix
    {
      offset := (unix - uptime) % WORD;
    }

    method GetDateTime() returns (x: DateTime)
      requires Valid()
      ensures x == TimeToDateTime(Now())
    {
      x := TimeToDateTime(Now());
    }
  }
}
