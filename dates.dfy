/** Calendar dates as .NET's `DateTime` treats them at midnight, the `AddYears`
    arithmetic the age filter uses, and `CalculateAge` from Helpers/Extensions.cs.
    "Today" is always an explicit argument instead of the ambient clock. */
module Dates {

  datatype CalendarDate = CalendarDate(year: int, month: int, day: int)

  /** Gregorian leap years. */
  predicate IsLeapYear(y: int)
  {
    y % 4 == 0 && (y % 100 != 0 || y % 400 == 0)
  }

  function DaysInMonth(year: int, month: int): (n: int)
    requires 1 <= month <= 12
    ensures 28 <= n <= 31
    ensures n == 29 <==> month == 2 && IsLeapYear(year)
    ensures n == 28 <==> month == 2 && !IsLeapYear(year)
  {
    if month == 2 then (if IsLeapYear(year) then 29 else 28)
    else if month == 4 || month == 6 || month == 9 || month == 11 then 30
    else 31
  }

  predicate IsValidDate(d: CalendarDate)
  {
    1 <= d.month <= 12 && 1 <= d.day <= DaysInMonth(d.year, d.month)
  }

  /** A day that exists in the calendar. */
  type Date = d: CalendarDate | IsValidDate(d) witness CalendarDate(1, 1, 1)

  predicate IsLeapDay(d: Date)
  {
    d.month == 2 && d.day == 29
  }

  /** `a < b` on dates. */
  predicate Before(a: Date, b: Date)
  {
    a.year < b.year ||
    (a.year == b.year && (a.month < b.month || (a.month == b.month && a.day < b.day)))
  }

  /** `a <= b` on dates. */
  predicate NotAfter(a: Date, b: Date)
  {
    !Before(b, a)
  }

  /** `DateTime.AddYears`: the same month and day `n` years on (or back); 29 February
      becomes 28 February when the target year is not a leap year. */
  function AddYears(d: Date, n: int): (r: Date)
    ensures r.year == d.year + n && r.month == d.month
    ensures r.day == d.day || (IsLeapDay(d) && !IsLeapYear(d.year + n) && r.day == 28)
  {
    var y := d.year + n;
    var last := DaysInMonth(y, d.month);
    CalendarDate(y, d.month, if d.day > last then last else d.day)
  }

  /** `CalculateAge`: the difference of the years, less one when the birthday has
      not yet come round this year. */
  function CalculateAge(dob: Date, today: Date): (age: int)
    ensures age == today.year - dob.year || age == today.year - dob.year - 1
  {
    var age := today.year - dob.year;
    if Before(today, AddYears(dob, age)) then age - 1 else age
  }

  /** Being at least `k` years old means that the `k`-th birthday, as AddYears
      computes it, is not after today. */
  lemma AgeAtLeast(dob: Date, today: Date, k: int)
    ensures CalculateAge(dob, today) >= k <==> NotAfter(AddYears(dob, k), today)
  {
  }

  /** On the birthday itself the comparison is strict, so no year is taken off. */
  lemma AgeOnBirthday(dob: Date, today: Date)
    requires dob.month == today.month && dob.day == today.day
    ensures CalculateAge(dob, today) == today.year - dob.year
  {
    assert AddYears(dob, today.year - dob.year) == today;
  }

  /** Someone born on or before today has a non-negative age. */
  lemma AgeNonNegative(dob: Date, today: Date)
    requires NotAfter(dob, today)
    ensures CalculateAge(dob, today) >= 0
  {
  }

  /** AddYears keeps the order of two dates of the same year. */
  lemma AddYearsMonotone(a: Date, b: Date, n: int)
    requires a.year == b.year && NotAfter(a, b)
    ensures NotAfter(AddYears(a, n), AddYears(b, n))
  {
  }

  /** A later birth date never gives a greater age. */
  lemma AgeMonotone(earlier: Date, later: Date, today: Date)
    requires NotAfter(earlier, later)
    ensures CalculateAge(later, today) <= CalculateAge(earlier, today)
  {
    if earlier.year == later.year {
      AddYearsMonotone(earlier, later, today.year - earlier.year);
    }
  }

  /** Moving `k` years from a birth date forward, or from today back, decides the
      same non-strict comparison, for every birth date except 29 February. */
  lemma ShiftNotAfter(dob: Date, today: Date, k: int)
    requires !IsLeapDay(dob)
    ensures NotAfter(dob, AddYears(today, -k)) <==> NotAfter(AddYears(dob, k), today)
  {
  }

  /** The same for the strict comparison, which also needs today not to be
      29 February (AddYears would clamp it to the 28th, equal to a 28 February birth). */
  lemma ShiftBefore(dob: Date, today: Date, k: int)
    requires !IsLeapDay(dob) && !IsLeapDay(today)
    ensures Before(dob, AddYears(today, -k)) <==> Before(AddYears(dob, k), today)
  {
  }
}
