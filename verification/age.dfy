/**
 The age shown on the page: whole years elapsed since the fixed birth date
 1998-08-21, computed against a "today" that is passed in rather than read
 from the clock.
 */
module Age {

  /** A calendar date. `month` runs from 1 to 12; JavaScript's `getMonth()`
      counts from 0, but only the difference of two months is ever used, and
      that is the same in both conventions. */
  datatype Date = Date(year: int, month: int, day: int)

  const Birth: Date := Date(1998, 8, 21)

  /** Chronological order on dates: year, then month, then day. */
  predicate Before(a: Date, b: Date) {
    || a.year < b.year
    || (a.year == b.year && a.month < b.month)
    || (a.year == b.year && a.month == b.month && a.day < b.day)
  }

  predicate OnOrBefore(a: Date, b: Date) {
    Before(a, b) || a == b
  }

  /** The date of the `n`-th birthday. */
  function Birthday(n: int): Date {
    Date(Birth.year + n, Birth.month, Birth.day)
  }

  /** `getAge()`: the year difference, less one while this year's birthday is
      still ahead. The result is the number of completed years: the
      `age`-th birthday has been reached and the next one has not. */
  function GetAge(today: Date): (age: int)
    ensures OnOrBefore(Birthday(age), today)
    ensures Before(today, Birthday(age + 1))
  {
    var age := today.year - Birth.year;
    var m := today.month - Birth.month;
    if m < 0 || (m == 0 && today.day < Birth.day) then age - 1 else age
  }

  /** The completed-years reading pins the age down: any `n` whose birthday
      has been reached while birthday `n + 1` has not is the age. */
  lemma AgeIsCompletedYears(today: Date, n: int)
    requires OnOrBefore(Birthday(n), today) && Before(today, Birthday(n + 1))
    ensures GetAge(today) == n
  {
  }

  /** The age is the year difference from this year's birthday on, and one
      less before it. */
  lemma AgeAroundBirthday(today: Date)
    ensures OnOrBefore(Date(today.year, 8, 21), today) ==> GetAge(today) == today.year - 1998
    ensures Before(today, Date(today.year, 8, 21)) ==> GetAge(today) == today.year - 1999
  {
  }

  /** The age never decreases as the date advances. */
  lemma AgeMonotone(a: Date, b: Date)
    requires OnOrBefore(a, b)
    ensures GetAge(a) <= GetAge(b)
  {
  }

  /** From the day before a birthday to the birthday the age rises by one. */
  lemma AgeRisesOnBirthday(year: int)
    ensures GetAge(Date(year, 8, 21)) == GetAge(Date(year, 8, 20)) + 1
  {
  }

  /** Between two consecutive birthdays the age is constant. */
  lemma AgeConstantBetweenBirthdays(n: int, a: Date, b: Date)
    requires OnOrBefore(Birthday(n), a) && Before(a, Birthday(n + 1))
    requires OnOrBefore(Birthday(n), b) && Before(b, Birthday(n + 1))
    ensures GetAge(a) == GetAge(b) == n
  {
    AgeIsCompletedYears(a, n);
    AgeIsCompletedYears(b, n);
  }

  /** Gregorian leap years. */
  predicate IsLeapYear(y: int) {
    (y % 4 == 0 && y % 100 != 0) || y % 400 == 0
  }

  function DaysInMonth(y: int, m: int): (n: int)
    requires 1 <= m <= 12
    ensures 28 <= n <= 31
  {
    if m == 2 then (if IsLeapYear(y) then 29 else 28)
    else if m == 4 || m == 6 || m == 9 || m == 11 then 30
    else 31
  }

  /** A date that exists in the Gregorian calendar. */
  predicate ValidDate(d: Date) {
    1 <= d.month <= 12 && 1 <= d.day <= DaysInMonth(d.year, d.month)
  }

  /** The calendar day after `d`; no valid date lies strictly between them. */
  function NextDay(d: Date): (r: Date)
    requires ValidDate(d)
    ensures ValidDate(r) && Before(d, r)
    ensures forall e :: ValidDate(e) && Before(d, e) ==> OnOrBefore(r, e)
  {
    if d.day < DaysInMonth(d.year, d.month) then Date(d.year, d.month, d.day + 1)
    else if d.month < 12 then Date(d.year, d.month + 1, 1)
    else Date(d.year + 1, 1, 1)
  }

  /** Day by day, the age changes only on a birthday, and then by one. */
  lemma AgeNextDay(d: Date)
    requires ValidDate(d)
    ensures var r := NextDay(d);
      GetAge(r) == GetAge(d) + (if r.month == 8 && r.day == 21 then 1 else 0)
  {
  }

  /** The dates around the 2024 birthday. */
  lemma AgeExamples()
    ensures GetAge(Date(2024, 8, 20)) == 25
    ensures GetAge(Date(2024, 8, 21)) == 26
    ensures GetAge(Date(2024, 8, 22)) == 26
    ensures GetAge(Date(2025, 1, 1)) == 26
  {
  }
}
