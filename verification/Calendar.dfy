/**
 The proleptic Gregorian calendar of section 21.4.1 of ECMA-262: day numbers from
 1970-01-01, years, and months counted through the years (12 * year + month).
 */
module Calendar {
  import opened Arith

  function DayFromYear(y: int): int {
    365 * (y - 1970) + (y - 1969) / 4 - (y - 1901) / 100 + (y - 1601) / 400
  }

  predicate IsLeap(y: int) {
    y % 4 == 0 && (y % 100 != 0 || y % 400 == 0)
  }

  /** Days of the year before the month, 0 for January to 12 for the whole year. */
  function DaysBefore(month: nat, leap: bool): nat
    requires month <= 12
  {
    [0, 31, 59, 90, 120, 151, 181, 212, 243, 273, 304, 334, 365][month] + if leap && month >= 2 then 1 else 0
  }

  /** The day number of the first of a month. */
  function FirstDay(month: int): int {
    DayFromYear(month / 12) + DaysBefore(month % 12, IsLeap(month / 12))
  }

  /** Counting multiples of n after k * n: the count grows by one exactly past the multiples of n. */
  lemma Carry(y: int, k: int, n: nat)
    requires n > 1
    ensures (y - k * n) / n == (y - (k * n + 1)) / n + if y % n == 0 then 1 else 0
  {
    var a := y - (k * n + 1);
    var q, r := a / n, a % n;
    DivMod(a, n);
    Distribute(q, k, n);
    if r == n - 1 {
      Distribute(q, 1, n);
      Distribute(q + k, 1, n);
      DivModUnique(a + 1, n, q + 1, 0);
      DivModUnique(y, n, q + k + 1, 0);
    } else {
      DivModUnique(a + 1, n, q, r + 1);
      DivModUnique(y, n, q + k, r + 1);
    }
  }

  lemma YearLength(y: int)
    ensures DayFromYear(y + 1) == DayFromYear(y) + DaysBefore(12, IsLeap(y))
  {
    hide IsLeap;
    Carry(y, 492, 4);
    Carry(y, 19, 100);
    Carry(y, 4, 400);
    LeapCount(y);
  }

  lemma LeapCount(y: int)
    ensures (if IsLeap(y) then 1 else 0)
      == (if y % 4 == 0 then 1 else 0) - (if y % 100 == 0 then 1 else 0) + (if y % 400 == 0 then 1 else 0)
  {
    if y % 400 == 0 {
      DivModUnique(y, 100, 4 * (y / 400), 0);
    }
    if y % 100 == 0 {
      DivModUnique(y, 4, 25 * (y / 100), 0);
    }
  }

  /** Month m of year y, and the month after it. */
  lemma MonthInYearIndex(y: int, m: nat)
    requires m <= 11
    ensures (12 * y + m) / 12 == y && (12 * y + m) % 12 == m
    ensures FirstDay(12 * y + m) == DayFromYear(y) + DaysBefore(m, IsLeap(y))
    ensures FirstDay(12 * y + m + 1) == DayFromYear(y) + DaysBefore(m + 1, IsLeap(y))
  {
    hide DayFromYear, IsLeap;
    YearLength(y);
    assert m < 11 ==> (12 * y + m + 1) / 12 == y && (12 * y + m + 1) % 12 == m + 1;
    assert m == 11 ==> (12 * y + m + 1) / 12 == y + 1 && (12 * y + m + 1) % 12 == 0;
  }

  /** Thirty days hath September. */
  function DaysInMonth(month: int): nat {
    match month % 12
    case 1 => if IsLeap(month / 12) then 29 else 28
    case 3 => 30
    case 5 => 30
    case 8 => 30
    case 10 => 30
    case _ => 31
  }

  /** The first of January 1970 is day 0, and each month begins where the one before it ends. */
  lemma MonthLength(month: int)
    ensures FirstDay(month + 1) == FirstDay(month) + DaysInMonth(month) && 28 <= DaysInMonth(month) <= 31
    ensures FirstDay(12 * 1970) == 0
  {
    hide DayFromYear, IsLeap, FirstDay;
    assert month == 12 * (month / 12) + month % 12;
    MonthInYearIndex(month / 12, month % 12);
    MonthInYearIndex(1970, 0);
    Epoch();
  }

  lemma Epoch()
    ensures DayFromYear(1970) == 0
  {
  }

  lemma {:induction false} FirstDayMonotone(i: int, j: int)
    requires i < j
    ensures FirstDay(i) < FirstDay(j)
    decreases j - i
  {
    hide FirstDay;
    MonthLength(j - 1);
    if i < j - 1 {
      FirstDayMonotone(i, j - 1);
    }
  }

  /** The year whose first day is the last one up to the given day. */
  function YearOfDay(day: int): (y: int)
    ensures DayFromYear(y) <= day < DayFromYear(y + 1)
  {
    var y := 1970 + (400 * day) / 146097;
    YearEstimate(day);
    if DayFromYear(y) > day then y - 1
    else if DayFromYear(y + 1) <= day then y + 1
    else y
  }

  lemma YearEstimate(day: int)
    ensures var y := 1970 + (400 * day) / 146097; DayFromYear(y - 1) <= day < DayFromYear(y + 2)
  {
    var y := 1970 + (400 * day) / 146097;
    AverageYear(y - 1);
    AverageYear(y + 2);
  }

  /** A year starts within two days of the average pace of 365.2425 days a year. */
  lemma AverageYear(y: int)
    ensures 146097 * (y - 1970) - 506 <= 400 * DayFromYear(y) <= 146097 * (y - 1970) + 589
  {
  }

  /** The month of a day. */
  function MonthOfDay(day: int): int {
    var y := YearOfDay(day);
    YearLength(y);
    12 * y + MonthInYear(day - DayFromYear(y), IsLeap(y), 11)
  }

  lemma MonthOfDayBounds(day: int)
    ensures var month := MonthOfDay(day); FirstDay(month) <= day < FirstDay(month + 1) && month / 12 == YearOfDay(day)
  {
    hide DayFromYear, IsLeap, FirstDay, DaysBefore, YearOfDay;
    var y := YearOfDay(day);
    YearLength(y);
    MonthInYearIndex(y, MonthInYear(day - DayFromYear(y), IsLeap(y), 11));
  }

  /** The last month up to the given one that has started on that day of the year. */
  function MonthInYear(dayInYear: nat, leap: bool, last: nat): (m: nat)
    requires last <= 11 && dayInYear < DaysBefore(last + 1, leap)
    ensures m <= last && DaysBefore(m, leap) <= dayInYear < DaysBefore(m + 1, leap)
  {
    if DaysBefore(last, leap) <= dayInYear then last else MonthInYear(dayInYear, leap, last - 1)
  }

  function DateOfDay(day: int): int {
    day - FirstDay(MonthOfDay(day)) + 1
  }

  lemma DateBounds(day: int)
    ensures 1 <= DateOfDay(day) <= 31
  {
    hide FirstDay, MonthOfDay;
    MonthOfDayBounds(day);
    MonthLength(MonthOfDay(day));
  }

  /** A day lies in exactly one month. */
  lemma MonthUnique(day: int, month: int)
    requires FirstDay(month) <= day < FirstDay(month + 1)
    ensures MonthOfDay(day) == month
  {
    hide FirstDay, MonthOfDay;
    MonthOfDayBounds(day);
    var k := MonthOfDay(day);
    if k < month {
      if k + 1 < month {
        FirstDayMonotone(k + 1, month);
      }
    } else if month < k {
      if month + 1 < k {
        FirstDayMonotone(month + 1, k);
      }
    }
  }

  /** A date of a month names a day of that month. */
  lemma DayOfDate(month: int, date: int)
    requires 1 <= date <= DaysInMonth(month)
    ensures MonthOfDay(FirstDay(month) + date - 1) == month && DateOfDay(FirstDay(month) + date - 1) == date
  {
    hide FirstDay, MonthOfDay;
    MonthLength(month);
    MonthUnique(FirstDay(month) + date - 1, month);
  }

  /** The month of a day never goes back as days go on. */
  lemma MonthMonotone(day: int, later: int)
    requires day <= later
    ensures MonthOfDay(day) <= MonthOfDay(later)
  {
    hide FirstDay, MonthOfDay;
    MonthOfDayBounds(day);
    MonthOfDayBounds(later);
    var k, k' := MonthOfDay(day), MonthOfDay(later);
    if k' < k && k' + 1 < k {
      FirstDayMonotone(k' + 1, k);
    }
  }

  /** Year, month and date name a day: they are all it takes to find it again. */
  lemma DateDeterminesDay(day: int, other: int)
    requires MonthOfDay(day) == MonthOfDay(other) && DateOfDay(day) == DateOfDay(other)
    ensures day == other
  {
    hide FirstDay, MonthOfDay;
  }
}
