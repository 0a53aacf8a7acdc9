/**
 * The calendar machine's date selection (CalendarMachinePanel): three
 * dials (year, month, day), each a bounded counter, the renormalisation that
 * pulls the day dial down to the length of the selected month, and the
 * conversion of the dial triple into a date when the lever opens a day
 * window.
 *
 * A dial step adds the step to the dial's counter and only then runs the
 * dial's step callback (BullaugeControl.applyStep), so renormalisation
 * always sees the new value. The gear rotation those callbacks also perform
 * is floating-point animation and is not modelled.
 */
module CalendarMachine {
  import opened Calendar
  import opened Arith
  import opened FlipNumber

  /** Math.max(lo, Math.min(hi, v)). */
  function ClampInt(v: int, lo: int, hi: int): (r: int)
    requires lo <= hi
    ensures lo <= r <= hi
    ensures lo <= v <= hi ==> r == v
    ensures v < lo ==> r == lo
    ensures v > hi ==> r == hi
  {
    Max(lo, Min(hi, v))
  }

  /**
   * The largest day normalizeDayToMonth allows: the length of the month
   * after clamping the year to [0, 9999] and the month to [1, 12]. Both
   * clamped values are always accepted by YearMonth.of, so its YearMonth.now()
   * fallback is never taken and has no counterpart here.
   */
  function DayLimit(year: int, month: int): (n: int)
    ensures 28 <= n <= 31
  {
    LengthOfMonth(ClampInt(year, 0, 9999), ClampInt(month, 1, 12))
  }

  /** The day value normalizeDayToMonth leaves on the day dial. */
  function NormalizedDay(year: int, month: int, day: int): (r: int)
    ensures 1 <= r <= DayLimit(year, month)
    ensures 1 <= day <= DayLimit(year, month) <==> r == day
    ensures day > DayLimit(year, month) ==> r == DayLimit(year, month)
    ensures day < 1 ==> r == 1
  {
    ClampInt(day, 1, DayLimit(year, month))
  }

  /** getSelectedDateFromBullauges: the dials as a date, with year 0 read as year 1. */
  function SelectedDateOf(year: int, month: int, day: int): (d: LocalDate)
    ensures d.year == ClampInt(year, 1, 9999)
    ensures d.month == ClampInt(month, 1, 12)
    ensures 1 <= d.day <= LengthOfMonth(d.year, d.month)
  {
    var y := ClampInt(year, 1, 9999);
    var m := ClampInt(month, 1, 12);
    Date(y, m, ClampInt(day, 1, LengthOfMonth(y, m)))
  }

  /** Renormalising a second time changes nothing. */
  lemma NormalizedDayIdempotent(year: int, month: int, day: int)
    ensures NormalizedDay(year, month, NormalizedDay(year, month, day)) == NormalizedDay(year, month, day)
  {
  }

  /** A triple that already is a date with a year from 1 is selected as exactly that date. */
  lemma SelectedDateOfValid(d: LocalDate)
    requires d.year >= 1
    ensures SelectedDateOf(d.year, d.month, d.day) == d
  {
  }

  /**
   * Year 0 is a leap year but is selected as year 1, which is not: the day
   * dial may keep 29 February of year 0, and the date selected from it is
   * 28 February of year 1.
   */
  lemma YearZeroSelectsYearOne()
    ensures IsLeapYear(0) && !IsLeapYear(1)
    ensures NormalizedDay(0, 2, 29) == 29
    ensures SelectedDateOf(0, 2, 29) == Date(1, 2, 28)
  {
  }

  /** The three dials of the calendar machine. */
  class CalendarMachinePanel {
    const yearDial: FlipNumberDisplay
    const monthDial: FlipNumberDisplay
    const dayDial: FlipNumberDisplay

    /** Year CLAMP [0, 9999], month WRAP [1, 12], day WRAP [1, 31], three separate counters. */
    predicate Valid() {
      && yearDial != monthDial && yearDial != dayDial && monthDial != dayDial
      && yearDial.min == 0 && yearDial.max == 9999 && yearDial.wrapMode == Clamp
      && monthDial.min == 1 && monthDial.max == 12 && monthDial.wrapMode == Wrap
      && dayDial.min == 1 && dayDial.max == 31 && dayDial.wrapMode == Wrap
    }

    /** Every dial holds a value within its bounds. */
    predicate DialsInRange()
      reads yearDial, monthDial, dayDial
    {
      yearDial.InRange() && monthDial.InRange() && dayDial.InRange()
    }

    /** The day dial lies within the selected month, as it does after every renormalisation. */
    predicate DayFitsMonth()
      reads yearDial, monthDial, dayDial
    {
      1 <= dayDial.value <= DayLimit(yearDial.value, monthDial.value)
    }

    /** The dials start on today's date, then the day is renormalised once. */
    constructor (now: LocalDate)
      ensures Valid()
      ensures fresh(yearDial) && fresh(monthDial) && fresh(dayDial)
      ensures yearDial.value == now.year && monthDial.value == now.month && dayDial.value == now.day
      ensures DayFitsMonth() && DialsInRange()
    {
      var y := new FlipNumberDisplay(now.year, 0, 9999, Clamp);
      var m := new FlipNumberDisplay(now.month, 1, 12, Wrap);
      var d := new FlipNumberDisplay(now.day, 1, 31, Wrap);
      yearDial := y;
      monthDial := m;
      dayDial := d;
      new;
      NormalizeDayToMonth();
    }

    /**
     * normalizeDayToMonth: clamps the day dial to the month length and writes
     * it only when the clamped day differs from the current one.
     */
    method NormalizeDayToMonth()
      requires Valid()
      modifies dayDial`value
      ensures dayDial.value == NormalizedDay(yearDial.value, monthDial.value, old(dayDial.value))
      ensures DayFitsMonth()
      ensures old(DayFitsMonth()) ==> dayDial.value == old(dayDial.value)
      ensures old(DialsInRange()) ==> DialsInRange()
    {
      var year := yearDial.GetValue();
      var month := monthDial.GetValue();
      var day := dayDial.GetValue();
      month := Max(1, Min(12, month));
      var maxDay := LengthOfMonth(Max(0, Min(9999, year)), month);
      var clampedDay := Max(1, Min(maxDay, day));
      if clampedDay != day {
        dayDial.SetValue(clampedDay);
        NormalizeInRange(clampedDay, 1, 31, Wrap);
      }
    }

    /** One step of the year dial: add, then renormalise the day. */
    method StepYear(step: int)
      requires Valid()
      modifies yearDial`value, dayDial`value
      ensures yearDial.value == Normalize(old(yearDial.value) + step, 0, 9999, Clamp)
      ensures dayDial.value == NormalizedDay(yearDial.value, monthDial.value, old(dayDial.value))
      ensures DayFitsMonth()
      ensures old(DialsInRange()) ==> DialsInRange()
    {
      yearDial.Add(step);
      NormalizeDayToMonth();
    }

    /** One step of the month dial: add, then renormalise the day. */
    method StepMonth(step: int)
      requires Valid()
      modifies monthDial`value, dayDial`value
      ensures monthDial.value == Normalize(old(monthDial.value) + step, 1, 12, Wrap)
      ensures dayDial.value == NormalizedDay(yearDial.value, monthDial.value, old(dayDial.value))
      ensures DayFitsMonth()
      ensures old(DialsInRange()) ==> DialsInRange()
    {
      monthDial.Add(step);
      NormalizeDayToMonth();
    }

    /** One step of the day dial: add only; the day is not renormalised. */
    method StepDay(step: int)
      requires Valid()
      modifies dayDial`value
      ensures dayDial.value == Normalize(old(dayDial.value) + step, 1, 31, Wrap)
      ensures old(DialsInRange()) ==> DialsInRange()
    {
      dayDial.Add(step);
    }

    /** getSelectedDateFromBullauges over the current dial values. */
    function SelectedDate(): (d: LocalDate)
      reads yearDial, monthDial, dayDial
      ensures Valid() && DialsInRange() && DayFitsMonth() && yearDial.value >= 1 ==>
                d == Date(yearDial.value, monthDial.value, dayDial.value)
    {
      SelectedDateOf(yearDial.value, monthDial.value, dayDial.value)
    }

    /**
     * The date the lever sequence opens a day window for: renormalise, then
     * read the dials (openDayWindowTopRightNextToOwner, before the window is
     * created and placed).
     */
    method DateForDayWindow() returns (d: LocalDate)
      requires Valid()
      modifies dayDial`value
      ensures dayDial.value == NormalizedDay(yearDial.value, monthDial.value, old(dayDial.value))
      ensures d == SelectedDate()
      ensures DayFitsMonth()
      ensures old(DialsInRange()) && yearDial.value >= 1 ==> d == Date(yearDial.value, monthDial.value, dayDial.value)
    {
      NormalizeDayToMonth();
      d := SelectedDate();
    }
  }

  /** Turning the month dial from January 2023 on day 31 leaves 28 February 2023. */
  lemma JanuaryThirtyFirstToFebruary()
    ensures Normalize(1 + 1, 1, 12, Wrap) == 2
    ensures NormalizedDay(2023, Normalize(1 + 1, 1, 12, Wrap), 31) == 28
  {
    NormalizeInRange(2, 1, 12, Wrap);
  }

  /** A day step alone can leave the day dial past the end of the month: 28 February + 3 shows 31. */
  lemma DayStepMayExceedMonth()
    ensures Normalize(28 + 3, 1, 31, Wrap) == 31
    ensures 31 > DayLimit(2023, 2)
  {
    NormalizeInRange(31, 1, 31, Wrap);
  }
}
