/** The Gregorian calendar in UTC: day numbers counted from 1 January 1970, a Thursday. */
module Calendar {
  import opened Arithmetic

  datatype Date = Date(year: int, month: int, day: int)

  predicate Leap(y: int) { y % 4 == 0 && (y % 100 != 0 || y % 400 == 0) }

  function DaysIn(y: int, m: int): int
    requires 1 <= m <= 12
  {
    if m == 2 then (if Leap(y) then 29 else 28)
    else if m == 4 || m == 6 || m == 9 || m == 11 then 30 else 31
  }

  predicate Valid(d: Date) { 1 <= d.month <= 12 && 1 <= d.day <= DaysIn(d.year, d.month) }

  function Tomorrow(d: Date): (r: Date)
    requires Valid(d)
    ensures Valid(r)
  {
    if d.day < DaysIn(d.year, d.month) then d.(day := d.day + 1)
    else if d.month < 12 then Date(d.year, d.month + 1, 1)
    else Date(d.year + 1, 1, 1)
  }

  function Yesterday(d: Date): (r: Date)
    requires Valid(d)
    ensures Valid(r)
  {
    if d.day > 1 then d.(day := d.day - 1)
    else if d.month > 1 then Date(d.year, d.month - 1, DaysIn(d.year, d.month - 1))
    else Date(d.year - 1, 12, 31)
  }

  /** The date of a day number. */
  function DateOf(n: int): (d: Date)
    ensures Valid(d)
    decreases if n >= 0 then n else -n
  {
    if n == 0 then Date(1970, 1, 1)
    else if n > 0 then Tomorrow(DateOf(n - 1))
    else Yesterday(DateOf(n + 1))
  }

  /** Sunday is 0. */
  function Weekday(n: int): int { (n + 4) % 7 }

  // ---------------------------------------------------------------- the closed form

  function DaysBeforeYear(y: int): int {
    365 * (y - 1) + (y - 1) / 4 - (y - 1) / 100 + (y - 1) / 400
  }

  function DaysBeforeMonth(y: int, m: int): int
    requires 1 <= m <= 12
    decreases m
  {
    if m == 1 then 0 else DaysBeforeMonth(y, m - 1) + DaysIn(y, m - 1)
  }

  const EPOCH_DAYS := 719162

  /** The day number of a date. */
  function DayNumber(d: Date): int
    requires Valid(d)
  {
    DaysBeforeYear(d.year) + DaysBeforeMonth(d.year, d.month) + d.day - 1 - EPOCH_DAYS
  }

  lemma YearLength(y: int)
    ensures DaysBeforeYear(y + 1) == DaysBeforeYear(y) + if Leap(y) then 366 else 365
  {
    Carry(y, 4);
    Carry(y, 100);
    Carry(y, 400);
    Divides(y, 100, 4, 25);
    Divides(y, 400, 100, 4);
  }

  /** A multiple of `n == m * k` is a multiple of `m`. */
  lemma Divides(y: int, n: int, m: int, k: int)
    requires n > 0 && m > 0 && n == m * k
    ensures y % n == 0 ==> y % m == 0
  {
    if y % n == 0 {
      var q := y / n;
      assert y == (q * k) * m;
      MultipleMod(q * k, m);
    }
  }

  lemma Carry(y: int, n: int)
    requires n > 1
    ensures y / n == (y - 1) / n + if y % n == 0 then 1 else 0
  {
    var q, r := y / n, y % n;
    var q', r' := (y - 1) / n, (y - 1) % n;
    assert y == q * n + r && y - 1 == q' * n + r';
    if r == 0 {
      assert (q - 1 - q') * n == q * n - n - q' * n;
      SmallMultiple(q - 1 - q', n);
    } else {
      assert (q - q') * n == q * n - q' * n;
      SmallMultiple(q - q', n);
    }
  }

  lemma MonthTable(y: int)
    ensures var l := if Leap(y) then 1 else 0;
            && DaysBeforeMonth(y, 1) == 0 && DaysBeforeMonth(y, 2) == 31 && DaysBeforeMonth(y, 3) == 59 + l
            && DaysBeforeMonth(y, 4) == 90 + l && DaysBeforeMonth(y, 5) == 120 + l && DaysBeforeMonth(y, 6) == 151 + l
            && DaysBeforeMonth(y, 7) == 181 + l && DaysBeforeMonth(y, 8) == 212 + l && DaysBeforeMonth(y, 9) == 243 + l
            && DaysBeforeMonth(y, 10) == 273 + l
            && DaysBeforeMonth(y, 11) == 304 + l && DaysBeforeMonth(y, 12) == 334 + l
  {
    hide Leap;
    assert DaysBeforeMonth(y, 4) == DaysBeforeMonth(y, 3) + 31;
    assert DaysBeforeMonth(y, 7) == DaysBeforeMonth(y, 6) + 30;
    assert DaysBeforeMonth(y, 10) == DaysBeforeMonth(y, 9) + 30;
  }

  lemma NextNumber(d: Date)
    requires Valid(d)
    ensures DayNumber(Tomorrow(d)) == DayNumber(d) + 1
  {
    hide Leap, DaysBeforeYear;
    if d.day == DaysIn(d.year, d.month) && d.month == 12 {
      YearLength(d.year);
      MonthTable(d.year);
    }
  }

  lemma PreviousNumber(d: Date)
    requires Valid(d)
    ensures DayNumber(Yesterday(d)) == DayNumber(d) - 1
  {
    hide Leap, DaysBeforeYear;
    if d.day == 1 && d.month == 1 {
      YearLength(d.year - 1);
      MonthTable(d.year - 1);
    }
  }

  /** The closed form numbers the dates the calendar walks through. */
  lemma {:induction false} NumberOfDate(n: int)
    ensures DayNumber(DateOf(n)) == n
    decreases if n >= 0 then n else -n
  {
    hide DayNumber, Tomorrow, Yesterday;
    if n == 0 {
      FirstNumber();
    } else if n > 0 {
      NumberOfDate(n - 1);
      NextNumber(DateOf(n - 1));
    } else {
      NumberOfDate(n + 1);
      PreviousNumber(DateOf(n + 1));
    }
  }

  lemma FirstNumber()
    ensures DayNumber(Date(1970, 1, 1)) == 0
  {
  }

  lemma DayOfYear(d: Date)
    requires Valid(d)
    ensures 0 <= DaysBeforeMonth(d.year, d.month) + d.day - 1 < if Leap(d.year) then 366 else 365
  {
    hide Leap;
    MonthTable(d.year);
  }

  lemma YearsOrdered(a: int, b: int)
    requires a < b
    ensures DaysBeforeYear(a + 1) <= DaysBeforeYear(b)
  {
  }

  lemma MonthsOrdered(y: int, a: int, b: int)
    requires 1 <= a < b <= 12
    ensures DaysBeforeMonth(y, a) + DaysIn(y, a) <= DaysBeforeMonth(y, b)
    decreases b
  {
    hide Leap;
    if a + 1 < b { MonthsOrdered(y, a, b - 1); }
  }

  predicate Before(a: Date, b: Date) {
    a.year < b.year || (a.year == b.year && (a.month < b.month || (a.month == b.month && a.day < b.day)))
  }

  lemma NumbersOrdered(a: Date, b: Date)
    requires Valid(a) && Valid(b) && Before(a, b)
    ensures DayNumber(a) < DayNumber(b)
  {
    hide Leap, DaysBeforeYear, DaysBeforeMonth, DaysIn;
    DayOfYear(a);
    DayOfYear(b);
    if a.year < b.year {
      YearLength(a.year);
      YearsOrdered(a.year, b.year);
    } else if a.month < b.month {
      MonthsOrdered(a.year, a.month, b.month);
    }
  }

  /** The closed form and the calendar are inverse to each other. */
  lemma DateOfNumber(d: Date)
    requires Valid(d)
    ensures DateOf(DayNumber(d)) == d
  {
    hide DayNumber, DateOf, Valid;
    var e := DateOf(DayNumber(d));
    NumberOfDate(DayNumber(d));
    if Before(d, e) { NumbersOrdered(d, e); }
    if Before(e, d) { NumbersOrdered(e, d); }
  }

  /** The weekday of a date: 1 January 1970 was a Thursday, and every day is one weekday on. */
  function WeekdayOf(d: Date): (w: int)
    requires Valid(d)
    ensures 0 <= w <= 6
    decreases if DayNumber(d) >= 0 then DayNumber(d) else -DayNumber(d)
  {
    if d == Date(1970, 1, 1) then 4
    else if DayNumber(d) > 0 then
      PreviousNumber(d);
      (WeekdayOf(Yesterday(d)) + 1) % 7
    else
      NextNumber(d);
      NumberIsZero(d);
      (WeekdayOf(Tomorrow(d)) + 6) % 7
  }

  lemma NumberIsZero(d: Date)
    requires Valid(d)
    ensures DayNumber(d) == 0 ==> d == Date(1970, 1, 1)
  {
    hide DayNumber;
    DateOfNumber(d);
  }

  lemma DayBefore(n: int)
    ensures Yesterday(DateOf(n)) == DateOf(n - 1) && Tomorrow(DateOf(n)) == DateOf(n + 1)
  {
    hide DayNumber, DateOf, Tomorrow, Yesterday, Valid;
    NumberOfDate(n);
    PreviousNumber(DateOf(n));
    NextNumber(DateOf(n));
    DateOfNumber(Yesterday(DateOf(n)));
    DateOfNumber(Tomorrow(DateOf(n)));
  }

  lemma WeekdayStep(d: Date)
    requires Valid(d)
    ensures WeekdayOf(d) ==
            if d == Date(1970, 1, 1) then 4
            else if DayNumber(d) > 0 then (WeekdayOf(Yesterday(d)) + 1) % 7 else (WeekdayOf(Tomorrow(d)) + 6) % 7
  {
    hide DayNumber, Tomorrow, Yesterday;
  }

  lemma NextWeekday(n: int)
    ensures (Weekday(n - 1) + 1) % 7 == Weekday(n) == (Weekday(n + 1) + 6) % 7 && Weekday(0) == 4
  {
    var q, w := (n + 4) / 7, (n + 4) % 7;
    assert n + 4 == 7 * q + w;
  }

  lemma {:induction false} WeekdayIs(n: int)
    ensures WeekdayOf(DateOf(n)) == Weekday(n)
    decreases if n >= 0 then n else -n
  {
    hide DayNumber, Tomorrow, Yesterday, Valid, DateOf, WeekdayOf, Weekday;
    NumberOfDate(n);
    FirstNumber();
    DayBefore(n);
    WeekdayStep(DateOf(n));
    NextWeekday(n);
    if n > 0 {
      WeekdayIs(n - 1);
    } else if n < 0 {
      WeekdayIs(n + 1);
    } else {
      NumberIsZero(DateOf(n));
    }
  }

  // ---------------------------------------------------------------- anniversaries

  /** A month and day that every year has. */
  predicate EveryYear(month: int, day: int) {
    1 <= month <= 12 && 1 <= day <= DaysIn(1970, month)
  }

  lemma EveryYearValid(y: int, month: int, day: int)
    requires EveryYear(month, day)
    ensures Valid(Date(y, month, day))
  {
  }

  lemma YearApart(y: int, month: int, day: int)
    requires EveryYear(month, day) && Valid(Date(y, month, day)) && Valid(Date(y + 1, month, day))
    ensures 365 <= DayNumber(Date(y + 1, month, day)) - DayNumber(Date(y, month, day)) <= 366
  {
    hide DaysBeforeYear, DaysBeforeMonth;
    assert Leap(y) ==> !Leap(y + 1);
    YearLength(y);
    MonthTable(y);
    MonthTable(y + 1);
  }

  /** From any day, each such date comes round within 366 days; when it takes the full 366, the day itself
      is the date. */
  lemma NextAnniversary(n: int, month: int, day: int) returns (k: int)
    requires EveryYear(month, day)
    ensures n < k <= n + 366 && DateOf(k).month == month && DateOf(k).day == day
    ensures k == n + 366 ==> DateOf(n).month == month && DateOf(n).day == day
  {
    hide DaysBeforeYear, DaysBeforeMonth, DaysIn, DateOf, Leap;
    var y := DateOf(n).year;
    NumberOfDate(n);
    EveryYearValid(y, month, day);
    EveryYearValid(y + 1, month, day);
    YearApart(y, month, day);
    DateOfNumber(Date(y, month, day));
    DateOfNumber(Date(y + 1, month, day));
    var thisYear := DayNumber(Date(y, month, day));
    DayOfYear(DateOf(n));
    DayOfYear(Date(y, month, day));
    k := if thisYear > n then thisYear else DayNumber(Date(y + 1, month, day));
  }

  /** The year that starts at a common date is the one that holds a 29 February. */
  predicate LeapAhead(y: int, month: int) { if month <= 2 then Leap(y) else Leap(y + 1) }

  lemma YearApartIff(y: int, month: int, day: int)
    requires EveryYear(month, day) && Valid(Date(y, month, day)) && Valid(Date(y + 1, month, day))
    ensures DayNumber(Date(y + 1, month, day)) - DayNumber(Date(y, month, day)) ==
            if LeapAhead(y, month) then 366 else 365
  {
    hide DaysBeforeYear, DaysBeforeMonth;
    assert Leap(y) ==> !Leap(y + 1);
    YearLength(y);
    MonthTable(y);
    MonthTable(y + 1);
  }

  /** A month and day that leap years have. */
  predicate LeapDate(month: int, day: int) { 1 <= month <= 12 && 1 <= day <= DaysIn(1972, month) }

  lemma ValidIsLeapDate(d: Date)
    requires Valid(d)
    ensures LeapDate(d.month, d.day)
  {
  }

  /** The year in which another date comes up before the next anniversary. */
  function YearOf(y: int, month: int, day: int, mo: int, da: int): int {
    if mo == 2 && da == 29 then (if month <= 2 then y else y + 1)
    else if mo > month || (mo == month && da > day) then y else y + 1
  }

  lemma OtherDateBetween(y: int, month: int, day: int, mo: int, da: int)
    requires EveryYear(month, day) && LeapDate(mo, da) && LeapAhead(y, month) && !(mo == month && da == day)
    ensures var x := Date(YearOf(y, month, day, mo, da), mo, da);
            Valid(x) && Before(Date(y, month, day), x) && Before(x, Date(y + 1, month, day))
  {
  }

  /** In a year with a 29 February every other date comes up before the anniversary. */
  lemma OtherDate(n: int, month: int, day: int, mo: int, da: int) returns (q: int)
    requires EveryYear(month, day) && DateOf(n).month == month && DateOf(n).day == day
             && LeapAhead(DateOf(n).year, month)
    requires LeapDate(mo, da) && !(mo == month && da == day)
    ensures n < q < n + 366 && DateOf(q).month == mo && DateOf(q).day == da
  {
    hide DayNumber, DateOf, Before, LeapAhead, LeapDate, YearOf, EveryYear, Valid;
    var y := DateOf(n).year;
    var x := Date(YearOf(y, month, day, mo, da), mo, da);
    OtherDateBetween(y, month, day, mo, da);
    EveryYearValid(y, month, day);
    EveryYearValid(y + 1, month, day);
    NumberOfDate(n);
    YearApartIff(y, month, day);
    NumbersOrdered(Date(y, month, day), x);
    NumbersOrdered(x, Date(y + 1, month, day));
    DateOfNumber(x);
    q := DayNumber(x);
  }

  /** And the date itself does not. */
  lemma SameDateNotBetween(n: int, month: int, day: int, k: int)
    requires EveryYear(month, day) && DateOf(n).month == month && DateOf(n).day == day
             && LeapAhead(DateOf(n).year, month)
    requires n < k < n + 366
    ensures !(DateOf(k).month == month && DateOf(k).day == day)
  {
    hide DayNumber, DateOf, LeapAhead, EveryYear, Valid;
    var y, z := DateOf(n).year, DateOf(k).year;
    EveryYearValid(y, month, day);
    EveryYearValid(y + 1, month, day);
    EveryYearValid(z, month, day);
    NumberOfDate(n);
    NumberOfDate(k);
    YearApartIff(y, month, day);
    if z < y { NumbersOrdered(Date(z, month, day), Date(y, month, day)); }
    if z > y + 1 { NumbersOrdered(Date(y + 1, month, day), Date(z, month, day)); }
  }
}
