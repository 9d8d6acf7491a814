/** Calendar age: whole years between a birth date and a reference date ("today"),
    counted as a person counts birthdays. The clock is not read: "today" is a parameter. */
module Calendar {

  /** A calendar date as a (year, month, day) triple. Months are numbered 1 to 12; the
      age computation only compares them, so any consistent numbering gives the same ages. */
  datatype Date = Date(year: int, month: int, day: int)

  /** `d1` is the same day as `d2` or an earlier one, in calendar order. */
  predicate OnOrBefore(d1: Date, d2: Date)
  {
    d1.year < d2.year
    || (d1.year == d2.year && (d1.month < d2.month || (d1.month == d2.month && d1.day <= d2.day)))
  }

  /** Within a year, the month and day of `today` come before the month and day of `birth`:
      this year's birthday has not arrived yet. */
  predicate BirthdayStillAhead(birth: Date, today: Date)
  {
    today.month < birth.month || (today.month == birth.month && today.day < birth.day)
  }

  /** The date on which someone born on `birth` turns `n`. */
  function Anniversary(birth: Date, n: int): Date
  {
    Date(birth.year + n, birth.month, birth.day)
  }

  /** The age, in whole years, on `today` of someone born on `birth`: the difference of the
      years, less one while this year's birthday is still ahead. */
  function CalculateAge(birth: Date, today: Date): (age: int)
    ensures age == today.year - birth.year || age == today.year - birth.year - 1
    ensures age == today.year - birth.year - 1 <==> BirthdayStillAhead(birth, today)
  {
    var age := today.year - birth.year;
    var m := today.month - birth.month;
    if m < 0 || (m == 0 && today.day < birth.day) then age - 1 else age
  }

  /** The age is the number of the last anniversary on or before `today`: that one has
      passed and the next has not. */
  lemma AgeIsLastAnniversary(birth: Date, today: Date)
    ensures OnOrBefore(Anniversary(birth, CalculateAge(birth, today)), today)
    ensures !OnOrBefore(Anniversary(birth, CalculateAge(birth, today) + 1), today)
  {
  }

  /** Someone has turned `n` on `today` exactly when `n` is at most their age. */
  lemma AgeCharacterization(birth: Date, today: Date, n: int)
    ensures OnOrBefore(Anniversary(birth, n), today) <==> n <= CalculateAge(birth, today)
  {
  }

  /** On the `n`-th anniversary itself the age is exactly `n`. */
  lemma AgeOnAnniversary(birth: Date, n: int)
    ensures CalculateAge(birth, Anniversary(birth, n)) == n
  {
  }

  /** Age never decreases as the reference date moves forward. */
  lemma AgeMonotone(birth: Date, earlier: Date, later: Date)
    requires OnOrBefore(earlier, later)
    ensures CalculateAge(birth, earlier) <= CalculateAge(birth, later)
  {
  }

  /** A reference date on or after the birth date gives an age of at least zero. */
  lemma AgeNonNegative(birth: Date, today: Date)
    requires OnOrBefore(birth, today)
    ensures CalculateAge(birth, today) >= 0
  {
  }

  /** Someone born on 15 March 1960 is 64 on 14 March 2025 and 65 on 15 March 2025. */
  lemma AgeAroundBirthday()
    ensures CalculateAge(Date(1960, 3, 15), Date(2025, 3, 14)) == 64
    ensures CalculateAge(Date(1960, 3, 15), Date(2025, 3, 15)) == 65
  {
  }
}
