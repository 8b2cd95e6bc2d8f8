/** The proleptic Gregorian calendar: days since 1970 and months since year 0. */
module Calendar {

  predicate Leap(y: int) { y % 4 == 0 && (y % 100 != 0 || y % 400 == 0) }

  /** Length of month `m` (January is 0). */
  function TableLength(m: nat, leap: bool): (n: nat)
    requires m < 12
    ensures 28 <= n <= 31
  {
    if m == 1 then if leap then 29 else 28
    else if m == 3 || m == 5 || m == 8 || m == 10 then 30 else 31
  }

  /** Length of month `i`, counted from January of year 0. */
  function MonthLength(i: int): (n: nat)
    ensures 28 <= n <= 31
  {
    TableLength(i % 12, Leap(i / 12))
  }

  const EPOCH: int := 719528  // days from 1 January of year 0 to 1 January 1970

  /** First day of month `i`, in days since 1970. */
  function MonthStart(i: int): int
    decreases if i >= 0 then i else -i
  {
    if i == 0 then -EPOCH
    else if i > 0 then MonthStart(i - 1) + MonthLength(i - 1)
    else MonthStart(i + 1) - MonthLength(i)
  }

  lemma NextMonth(i: int)
    ensures MonthStart(i + 1) == MonthStart(i) + MonthLength(i)
  {
  }

  lemma {:induction false} MonthsIncrease(i: int, j: int)
    requires i <= j
    ensures MonthStart(i) + 28 * (j - i) <= MonthStart(j) <= MonthStart(i) + 31 * (j - i)
    decreases j - i
  {
    if i < j {
      MonthsIncrease(i, j - 1);
      NextMonth(j - 1);
    }
  }

  ghost predicate InMonth(day: int, i: int)
  {
    MonthStart(i) <= day < MonthStart(i) + MonthLength(i)
  }

  /** A month at or before the day, from which to search upwards. */
  function Guess(day: int): int
  {
    var d := day + EPOCH;
    if d >= 0 then d / 31 else d / 28
  }

  lemma GuessIsEarly(day: int)
    ensures MonthStart(Guess(day)) <= day
  {
    var d, g := day + EPOCH, Guess(day);
    assert MonthStart(0) == -EPOCH;
    if d >= 0 {
      MonthsIncrease(0, g);
    } else {
      MonthsIncrease(g, 0);
    }
  }

  /** The month that contains a day. */
  function MonthOf(day: int): (i: int)
    ensures InMonth(day, i)
  {
    GuessIsEarly(day);
    MonthFrom(day, Guess(day))
  }

  function MonthFrom(day: int, from: int): (i: int)
    requires MonthStart(from) <= day
    ensures InMonth(day, i)
    decreases day - MonthStart(from)
  {
    NextMonth(from);
    if day < MonthStart(from) + MonthLength(from) then from else MonthFrom(day, from + 1)
  }

  /** A day lies in one month only. */
  lemma MonthUnique(day: int, i: int, j: int)
    requires InMonth(day, i) && InMonth(day, j)
    ensures i == j
  {
    NextMonth(i);
    NextMonth(j);
    if i < j {
      MonthsIncrease(i + 1, j);
    } else if j < i {
      MonthsIncrease(j + 1, i);
    }
  }

  /** Day of the month, from 1. */
  function DayOfMonth(day: int): (d: int)
    ensures 1 <= d <= MonthLength(MonthOf(day))
  {
    day - MonthStart(MonthOf(day)) + 1
  }

  // ---- The closed form of the year's first day ----

  /** Days from 1 January of year 0 to 1 January of year `y`. */
  function YearDays(y: int): int
  {
    365 * y + (y + 3) / 4 - (y + 99) / 100 + (y + 399) / 400
  }

  /** Counting multiples: one more is passed exactly when `y` is one. */
  lemma Carry(y: int, n: int)
    requires n == 4 || n == 100 || n == 400
    ensures (y + n) / n - (y + n - 1) / n == if y % n == 0 then 1 else 0
  {
  }

  lemma HundredTimes(q: int)
    ensures (100 * q) % 100 == 0
  {
  }

  lemma FourTimes(q: int)
    ensures (4 * q) % 4 == 0
  {
  }

  lemma Hundreds(y: int)
    ensures y % 400 == 0 ==> y % 100 == 0
    ensures y % 100 == 0 ==> y % 4 == 0
  {
    HundredTimes(4 * (y / 400));
    FourTimes(25 * (y / 100));
  }

  lemma YearLength(y: int)
    ensures YearDays(y + 1) - YearDays(y) == if Leap(y) then 366 else 365
  {
    Hundreds(y);
    YearStep(y);
  }

  lemma YearStep(y: int)
    ensures YearDays(y + 1) - YearDays(y) ==
            365 + (if y % 4 == 0 then 1 else 0) - (if y % 100 == 0 then 1 else 0) + (if y % 400 == 0 then 1 else 0)
  {
    Carry(y, 4);
    Carry(y, 100);
    Carry(y, 400);
  }

  lemma MonthInYear(y: int, m: nat)
    requires m < 12
    ensures MonthStart(12 * y + m + 1) == MonthStart(12 * y + m) + TableLength(m, Leap(y))
  {
    NextMonth(12 * y + m);
    assert (12 * y + m) / 12 == y && (12 * y + m) % 12 == m;
  }

  function DaysBefore(m: nat, leap: bool): nat
    requires m <= 12
  {
    if m == 0 then 0 else DaysBefore(m - 1, leap) + TableLength(m - 1, leap)
  }

  lemma {:induction false} MonthsOfYear(y: int, m: nat)
    requires m <= 12
    ensures MonthStart(12 * y + m) == MonthStart(12 * y) + DaysBefore(m, Leap(y))
  {
    if m > 0 {
      MonthsOfYear(y, m - 1);
      MonthInYear(y, m - 1);
    }
  }

  /** The days before each month by a closed form: every month but February
      is where 367/12 days a month put it. */
  lemma DaysBeforeClosed(m: nat, leap: bool)
    requires m <= 12
    ensures DaysBefore(m, leap) == (367 * (m + 1) - 362) / 12 - (if m < 2 then 0 else if leap then 1 else 2)
  {
    if m > 0 {
      DaysBeforeClosed(m - 1, leap);
    }
  }

  lemma DaysOfYear(leap: bool)
    ensures DaysBefore(12, leap) == if leap then 366 else 365
  {
    assert DaysBefore(12, false) == 365 && DaysBefore(12, true) == 366;
  }

  lemma TwelveMonths(y: int)
    ensures MonthStart(12 * y + 12) - MonthStart(12 * y) == if Leap(y) then 366 else 365
  {
    MonthsOfYear(y, 12);
    DaysOfYear(Leap(y));
  }

  lemma YearForward(y: int)
    ensures MonthStart(12 * (y + 1)) - MonthStart(12 * y) == YearDays(y + 1) - YearDays(y)
  {
    TwelveMonths(y);
    YearLength(y);
    assert 12 * (y + 1) == 12 * y + 12;
  }

  /** The month table adds up to the closed form: 1 January of every year is
      where the leap-year rule puts it, and 1 January 1970 is day 0. */
  lemma {:induction false} JanuaryFirst(y: int)
    ensures MonthStart(12 * y) == YearDays(y) - EPOCH
    decreases if y >= 0 then y else -y
  {
    if y > 0 {
      JanuaryFirst(y - 1);
      YearForward(y - 1);
    } else if y < 0 {
      JanuaryFirst(y + 1);
      YearForward(y);
    }
  }
}
