/**
 * Naive calendar dates of the proleptic Gregorian calendar (ISO 8601), as
 * java.time.LocalDate and YearMonth provide them to the calendar: leap years,
 * month lengths, the epoch day and the day of the week, and the ISO-8601
 * text form YYYY-MM-DD used as the key of the entry file.
 *
 * The model's dates have a four-digit year (0 to 9999). That covers every
 * date the dials can select and every key the model's ISO parser accepts.
 */
module Calendar {
  import opened Wrappers
  import opened Arith

  datatype Date = Date(year: int, month: int, day: int)

  const MinYear: int := 0
  const MaxYear: int := 9999

  /** IsoChronology.isLeapYear: divisible by 4 and not by 100, or divisible by 400. */
  predicate IsLeapYear(year: int) {
    year % 4 == 0 && (year % 100 != 0 || year % 400 == 0)
  }

  /** YearMonth.lengthOfMonth. */
  function LengthOfMonth(year: int, month: int): (n: int)
    requires 1 <= month <= 12
    ensures 28 <= n <= 31
    ensures n == 28 <==> month == 2 && !IsLeapYear(year)
    ensures n == 29 <==> month == 2 && IsLeapYear(year)
    ensures n == 30 <==> month in {4, 6, 9, 11}
  {
    if month == 2 then (if IsLeapYear(year) then 29 else 28)
    else if month == 4 || month == 6 || month == 9 || month == 11 then 30
    else 31
  }

  predicate IsValidDate(d: Date) {
    MinYear <= d.year <= MaxYear && 1 <= d.month <= 12 && 1 <= d.day <= LengthOfMonth(d.year, d.month)
  }

  /** A date LocalDate.of accepts (restricted to four-digit years). */
  type LocalDate = d: Date | IsValidDate(d) witness Date(1970, 1, 1)

  /** Days from 0000-01-01 to 1970-01-01 (LocalDate.DAYS_0000_TO_1970). */
  const Days0000To1970: int := 719528

  /** Days before 1 January of `year`, counted from 0000-01-01 (first half of LocalDate.toEpochDay). */
  function DaysBeforeYear(year: int): int
    requires year >= 0
  {
    365 * year + (year + 3) / 4 - (year + 99) / 100 + (year + 399) / 400
  }

  /** Days of `year` before the first of `month` (second half of LocalDate.toEpochDay). */
  function DaysBeforeMonth(year: int, month: int): int
    requires 1 <= month <= 12
  {
    (367 * month - 362) / 12 - (if month > 2 then (if IsLeapYear(year) then 1 else 2) else 0)
  }

  /** LocalDate.toEpochDay, for non-negative years. */
  function EpochDay(d: LocalDate): int {
    DaysBeforeYear(d.year) + DaysBeforeMonth(d.year, d.month) + d.day - 1 - Days0000To1970
  }

  datatype DayOfWeek = Monday | Tuesday | Wednesday | Thursday | Friday | Saturday | Sunday

  function DayOfWeekOf0(index: int): DayOfWeek
    requires 0 <= index < 7
  {
    [Monday, Tuesday, Wednesday, Thursday, Friday, Saturday, Sunday][index]
  }

  /** Zero-based weekday index, Monday = 0 (floorMod(toEpochDay() + 3, 7)). */
  function WeekdayIndex(d: LocalDate): (i: int)
    ensures 0 <= i < 7
  {
    (EpochDay(d) + 3) % 7
  }

  /** LocalDate.getDayOfWeek. */
  function GetDayOfWeek(d: LocalDate): DayOfWeek {
    DayOfWeekOf0(WeekdayIndex(d))
  }

  predicate IsWeekend(d: LocalDate) {
    GetDayOfWeek(d) == Saturday || GetDayOfWeek(d) == Sunday
  }

  /** The last date the model represents. */
  predicate IsLastDate(d: LocalDate) {
    d.year == MaxYear && d.month == 12 && d.day == 31
  }

  /** LocalDate.plusDays(1), below the end of year 9999. */
  function Tomorrow(d: LocalDate): (t: LocalDate)
    requires !IsLastDate(d)
    ensures t.year == d.year || (t.year == d.year + 1 && t.month == 1 && t.day == 1)
  {
    if d.day < LengthOfMonth(d.year, d.month) then Date(d.year, d.month, d.day + 1)
    else if d.month < 12 then Date(d.year, d.month + 1, 1)
    else Date(d.year + 1, 1, 1)
  }

  /** The epoch day counts days: the next date is one day later. */
  lemma TomorrowIsNextEpochDay(d: LocalDate)
    requires !IsLastDate(d)
    ensures EpochDay(Tomorrow(d)) == EpochDay(d) + 1
  {
    if d.day < LengthOfMonth(d.year, d.month) {
    } else if d.month < 12 {
      MonthStep(d.year, d.month);
    } else {
      YearStep(d.year);
    }
  }

  /** A month's first day follows the previous month's last. */
  lemma MonthStep(year: int, month: int)
    requires 1 <= month < 12
    ensures DaysBeforeMonth(year, month + 1) == DaysBeforeMonth(year, month) + LengthOfMonth(year, month)
  {
    match month
    case 1 => case 2 => case 3 => case 4 => case 5 => case 6 =>
    case 7 => case 8 => case 9 => case 10 => case 11 =>
  }

  /** A year has 365 days, 366 in a leap year, and the next year starts after its last. */
  lemma YearStep(year: int)
    requires year >= 0
    ensures DaysBeforeYear(year + 1) == DaysBeforeYear(year) + DaysBeforeMonth(year, 12) + 31
    ensures DaysBeforeMonth(year, 12) + 31 == (if IsLeapYear(year) then 366 else 365)
  {
    DivStep(year, 4);
    DivStep(year, 100);
    DivStep(year, 400);
    CenturyDivisors(year);
  }

  /** A multiple of m is passed exactly when the count of multiples below x + m goes up by one. */
  lemma DivStep(x: int, m: int)
    requires x >= 0 && m > 0
    ensures (x + m) / m - (x + m - 1) / m == (if x % m == 0 then 1 else 0)
  {
    var q, r := x / m, x % m;
    DivModUnique(x + m, m, q + 1, r);
    if r == 0 {
      DivModUnique(x + m - 1, m, q, m - 1);
    } else {
      DivModUnique(x + m - 1, m, q + 1, r - 1);
    }
  }

  /** Multiples of 400 are multiples of 100, and those are multiples of 4. */
  lemma CenturyDivisors(year: int)
    ensures year % 400 == 0 ==> year % 100 == 0
    ensures year % 100 == 0 ==> year % 4 == 0
  {
    if year % 400 == 0 {
      DivModUnique(year, 100, 4 * (year / 400), 0);
    }
    if year % 100 == 0 {
      DivModUnique(year, 4, 25 * (year / 100), 0);
    }
  }

  /** The weekday moves on by one each day, Sunday wrapping to Monday. */
  lemma TomorrowWeekday(d: LocalDate)
    requires !IsLastDate(d)
    ensures WeekdayIndex(Tomorrow(d)) == (WeekdayIndex(d) + 1) % 7
  {
    TomorrowIsNextEpochDay(d);
    ModSucc(EpochDay(d) + 3, 7);
  }

  /** A date and the date seven days later fall on the same weekday. */
  lemma SameWeekdayAWeekLater(d: LocalDate, later: LocalDate)
    requires EpochDay(later) == EpochDay(d) + 7
    ensures WeekdayIndex(later) == WeekdayIndex(d)
  {
    var x := EpochDay(d) + 3;
    DivModUnique(x + 7, 7, x / 7 + 1, x % 7);
  }

  /** 1970-01-01, epoch day 0, was a Thursday. */
  lemma EpochIsThursday()
    ensures EpochDay(Date(1970, 1, 1)) == 0
    ensures GetDayOfWeek(Date(1970, 1, 1)) == Thursday
  {
  }

  // ----- ISO-8601 text (LocalDate.toString and LocalDate.parse) -----

  predicate IsDigit(c: char) {
    '0' <= c <= '9'
  }

  predicate AllDigits(s: string) {
    forall i | 0 <= i < |s| :: IsDigit(s[i])
  }

  function Pow10(n: nat): (p: nat)
    ensures p >= 1
  {
    if n == 0 then 1 else 10 * Pow10(n - 1)
  }

  /** The decimal digits of n, left-padded with zeros to `width` characters. */
  function PadDigits(n: nat, width: nat): (s: string)
    ensures |s| == width && AllDigits(s)
  {
    if width == 0 then "" else PadDigits(n / 10, width - 1) + [('0' as int + n % 10) as char]
  }

  /** The number a string of decimal digits denotes. */
  function DigitsValue(s: string): (n: nat)
    requires AllDigits(s)
    ensures n < Pow10(|s|)
  {
    if s == [] then 0
    else DigitsValue(s[..|s| - 1]) * 10 + (s[|s| - 1] as int - '0' as int)
  }

  lemma {:induction false} DigitsOfPad(n: nat, width: nat)
    requires n < Pow10(width)
    ensures DigitsValue(PadDigits(n, width)) == n
  {
    if width > 0 {
      DigitsOfPad(n / 10, width - 1);
      var s := PadDigits(n, width);
      assert s[..|s| - 1] == PadDigits(n / 10, width - 1);
    }
  }

  lemma {:induction false} PadOfDigits(s: string)
    requires AllDigits(s)
    ensures PadDigits(DigitsValue(s), |s|) == s
  {
    if s != [] {
      var init := s[..|s| - 1];
      PadOfDigits(init);
      LastDigit(s);
      assert s == init + [s[|s| - 1]];
    }
  }

  /** The last digit of a digit string is its value's remainder by ten, the rest its quotient. */
  lemma LastDigit(s: string)
    requires AllDigits(s) && s != []
    ensures DigitsValue(s) / 10 == DigitsValue(s[..|s| - 1])
    ensures ('0' as int + DigitsValue(s) % 10) as char == s[|s| - 1]
  {
    var c := s[|s| - 1];
    var d := c as int - '0' as int;
    assert 0 <= d < 10 && ('0' as int + d) as char == c;
    var n, q := DigitsValue(s), DigitsValue(s[..|s| - 1]);
    assert n == q * 10 + d;
    DivModUnique(n, 10, q, d);
  }

  /** LocalDate.toString for a four-digit year: YYYY-MM-DD. */
  function FormatIso(d: LocalDate): (s: string)
    ensures |s| == 10 && s[4] == '-' && s[7] == '-'
  {
    PadDigits(d.year, 4) + "-" + PadDigits(d.month, 2) + "-" + PadDigits(d.day, 2)
  }

  /**
   * LocalDate.parse with the strict ISO_LOCAL_DATE format, for unsigned
   * four-digit years: anything else, and any date that does not exist
   * (month 13, 30 February), gives None.
   */
  function ParseIso(s: string): (r: Option<LocalDate>)
    ensures r.Some? ==> |s| == 10 && IsValidDate(r.value)
  {
    if |s| == 10 && s[4] == '-' && s[7] == '-'
       && AllDigits(s[..4]) && AllDigits(s[5..7]) && AllDigits(s[8..])
    then
      var d := Date(DigitsValue(s[..4]), DigitsValue(s[5..7]), DigitsValue(s[8..]));
      if IsValidDate(d) then Some(d) else None
    else None
  }

  /** Parsing reads back every date's ISO text. */
  lemma ParseFormat(d: LocalDate)
    ensures ParseIso(FormatIso(d)) == Some(d)
  {
    var s := FormatIso(d);
    assert s[..4] == PadDigits(d.year, 4);
    assert s[5..7] == PadDigits(d.month, 2);
    assert s[8..] == PadDigits(d.day, 2);
    DigitsOfPad(d.year, 4);
    DigitsOfPad(d.month, 2);
    DigitsOfPad(d.day, 2);
  }

  /** A key that parses is the ISO text of its date, so two keys never parse to one date. */
  lemma FormatParse(s: string)
    requires ParseIso(s).Some?
    ensures FormatIso(ParseIso(s).value) == s
  {
    PadOfDigits(s[..4]);
    PadOfDigits(s[5..7]);
    PadOfDigits(s[8..]);
    assert s == s[..4] + "-" + s[5..7] + "-" + s[8..];
  }
}
