// The dates and times that Python's datetime accepts.
module Calendar {
  import opened Binary
  import opened DecimalText

  function DaysIn(year: int, month: int): int {
    if month == 2 then if year % 4 == 0 && (year % 100 != 0 || year % 400 == 0) then 29 else 28
    else if month == 4 || month == 6 || month == 9 || month == 11 then 30
    else 31
  }

  // The days before a year of the Gregorian calendar, counted from its year 1.
  function DaysBefore(year: int): int {
    365 * (year - 1) + (year - 1) / 4 - (year - 1) / 100 + (year - 1) / 400
  }

  // April, June, September and November have 30 days and all others but February 31, 337 in all, and
  // February has what is then missing of the year.
  lemma MonthLengths(year: int)
    requires year >= 1
    ensures forall month :: 1 <= month <= 12 && month != 2 ==>
              DaysIn(year, month) == if month in {4, 6, 9, 11} then 30 else 31
    ensures 337 + DaysIn(year, 2) == DaysBefore(year + 1) - DaysBefore(year)
  {
    NextMultiple(year, 4);
    NextMultiple(year, 100);
    NextMultiple(year, 400);
    Multiples(year);
  }

  lemma Multiples(year: nat)
    ensures (year % 100 == 0 ==> year % 4 == 0) && (year % 400 == 0 ==> year % 100 == 0)
  {
    if year % 100 == 0 {
      QuotientIs(year, 4, 25 * (year / 100), 0);
    }
    if year % 400 == 0 {
      QuotientIs(year, 100, 4 * (year / 400), 0);
    }
  }

  lemma NextMultiple(n: nat, k: nat)
    requires n >= 1 && k > 1
    ensures n / k - (n - 1) / k == if n % k == 0 then 1 else 0
  {
    var q, r := (n - 1) / k, (n - 1) % k;
    assert n == q * k + (r + 1);
    if r + 1 == k {
      assert (q + 1) * k == q * k + k;
      QuotientIs(n, k, q + 1, 0);
    } else {
      QuotientIs(n, k, q, r + 1);
    }
  }

  // datetime.date raises ValueError for anything else.
  predicate IsDate(year: int, month: int, day: int) {
    1 <= year <= 9999 && 1 <= month <= 12 && 1 <= day <= DaysIn(year, month)
  }

  // The calendar has the years 1 to 9999, all their months and all the days of those, and nothing else.
  lemma DateLimits(year: int, month: int, day: int)
    ensures IsDate(1, 1, 1) && IsDate(9999, 12, 31) && !IsDate(0, month, day) && !IsDate(10000, month, day)
    ensures !IsDate(year, 0, day) && !IsDate(year, 13, day) && !IsDate(year, month, 0) && !IsDate(year, month, 32)
    ensures IsDate(year, month, day) ==> IsDate(year, 1, 1) && IsDate(year, 12, 31) && IsDate(year, month, 1)
                                         && IsDate(year, month, DaysIn(year, month))
                                         && !IsDate(year, month, DaysIn(year, month) + 1)
    ensures IsDate(year, month, day) && day > 1 ==> IsDate(year, month, day - 1)
    ensures IsDate(year, month, day) && month > 1 ==> IsDate(year, month - 1, 1)
    ensures IsDate(year, month, day) && year > 1 ==> IsDate(year - 1, month, 1)
  {
  }

  // Dates the server stores: zero in any part, and up to 31 days in any month with ALLOW_INVALID_DATES.
  predicate Storable(year: nat, month: nat, day: nat) {
    year <= 9999 && month <= 12 && day <= 31
  }

  // What the driver promises of a date: a zero in one of its parts is None.
  predicate ZeroPart(year: nat, month: nat, day: nat) {
    year == 0 || month == 0 || day == 0
  }

  predicate IsTime(hour: int, minute: int, second: int) {
    0 <= hour < 24 && 0 <= minute < 60 && 0 <= second < 60
  }

  // Every second of a day has one time and every time is one.
  lemma TimesOfDay(hour: int, minute: int, second: int, t: int)
    ensures IsTime(hour, minute, second) && t == (hour * 60 + minute) * 60 + second
       <==> 0 <= t < 86400 && hour == t / 3600 && minute == t / 60 % 60 && second == t % 60
  {
  }

  // Microseconds with at most k digits behind the point of the second.
  ghost predicate FractionFits(k: nat, micros: nat) {
    k <= 6 && micros < 1000000 && micros % Pow10(6 - k) == 0
  }

  // A duration in microseconds.
  function TotalMicros(days: int, seconds: int, micros: int): int {
    (days * 86400 + seconds) * 1000000 + micros
  }
}
