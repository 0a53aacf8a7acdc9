/**
 * Recurring entries of the day window (DayEntriesWindow): an entry's rule is
 * stored inline, as a tag prefix of the stored text ("[R:YEAR]", "[R:WKD]" or
 * "[R:MON]" followed by a space), and an entry with a rule is also shown on
 * every other date the rule applies to.
 */
module Recurrence {
  import opened Calendar
  import opened Text

  /** RepeatMode; NoRepeat is the mode the source calls NONE. */
  datatype RepeatMode = NoRepeat | Yearly | Weekdays | Monthly

  /** RepeatMode.values(), in declaration order. */
  const AllModes: seq<RepeatMode> := [NoRepeat, Yearly, Weekdays, Monthly]

  /** The tag each mode stores in front of the text; NONE stores none. */
  function Prefix(m: RepeatMode): (p: string)
    ensures p == [] <==> m == NoRepeat
    ensures p != [] ==> |p| >= 7 && p[..3] == "[R:" && !IsWhitespace(p[0])
  {
    match m
    case NoRepeat => ""
    case Yearly => "[R:YEAR]"
    case Weekdays => "[R:WKD]"
    case Monthly => "[R:MON]"
  }

  /** Two tags are told apart by their fourth character, so no tag starts with another. */
  lemma PrefixesDistinct(m: RepeatMode, k: RepeatMode)
    requires m != NoRepeat && k != NoRepeat && m != k
    ensures Prefix(m)[3] != Prefix(k)[3]
  {
  }

  /** String.startsWith. */
  predicate StartsWith(s: string, p: string) {
    |p| <= |s| && s[..|p|] == p
  }

  /** applyRepeatPrefixForStorage: the trimmed text, tagged unless it is empty or the mode is NONE. */
  function ApplyRepeatPrefixForStorage(text: string, mode: RepeatMode): (r: string)
    ensures Strip(text) == [] || mode == NoRepeat ==> r == Strip(text)
    ensures Strip(text) != [] && mode != NoRepeat ==> StartsWith(r, Prefix(mode)) && |r| == |Prefix(mode)| + 1 + |Strip(text)|
  {
    var t := Strip(text);
    if t == [] || mode == NoRepeat then t else Prefix(mode) + " " + t
  }

  /**
   * detectRepeatModeFromStored: after dropping leading whitespace, the first
   * of YEAR, WKD, MON whose tag starts the text; NONE when there is none.
   */
  function DetectRepeatModeFromStored(stored: string): (m: RepeatMode)
    ensures m != NoRepeat ==> StartsWith(StripLeading(stored), Prefix(m))
  {
    var s := StripLeading(stored);
    if StartsWith(s, Prefix(Yearly)) then Yearly
    else if StartsWith(s, Prefix(Weekdays)) then Weekdays
    else if StartsWith(s, Prefix(Monthly)) then Monthly
    else NoRepeat
  }

  /**
   * What stripRepeatPrefixForDisplay returns: for a tagged text, what follows
   * the tag with leading whitespace dropped; an untagged text is returned as
   * it is, leading whitespace included.
   */
  function DisplayText(stored: string): (r: string)
    ensures DetectRepeatModeFromStored(stored) == NoRepeat ==> r == stored
    ensures |r| <= |stored|
  {
    var m := DetectRepeatModeFromStored(stored);
    if m == NoRepeat then stored
    else
      var s := StripLeading(stored);
      StripLeading(s[|Prefix(m)|..])
  }

  /** stripRepeatPrefixForDisplay: tries the modes in declaration order and strips the first tag found. */
  method StripRepeatPrefixForDisplay(stored: string) returns (r: string)
    ensures r == DisplayText(stored)
  {
    var s := StripLeading(stored);
    var i := 0;
    while i < |AllModes|
      invariant 0 <= i <= |AllModes|
      invariant forall j | 0 <= j < i :: Prefix(AllModes[j]) == [] || !StartsWith(s, Prefix(AllModes[j]))
    {
      var m := AllModes[i];
      if Prefix(m) != [] && StartsWith(s, Prefix(m)) {
        assert DetectRepeatModeFromStored(stored) == m by {
          if i >= 2 { assert !StartsWith(s, Prefix(AllModes[1])); }
          if i == 3 { assert !StartsWith(s, Prefix(AllModes[2])); }
        }
        return StripLeading(s[|Prefix(m)|..]);
      }
      i := i + 1;
    }
    assert AllModes[1] == Yearly && AllModes[2] == Weekdays && AllModes[3] == Monthly;
    return stored;
  }

  /**
   * appliesToDate: NONE never applies; YEARLY on the same month and day;
   * MONTHLY on the same day of the month; WEEKDAYS on every Monday to
   * Friday, whatever the origin.
   */
  predicate AppliesToDate(mode: RepeatMode, origin: LocalDate, date: LocalDate) {
    match mode
    case NoRepeat => false
    case Yearly => origin.month == date.month && origin.day == date.day
    case Monthly => origin.day == date.day
    case Weekdays => GetDayOfWeek(date) != Saturday && GetDayOfWeek(date) != Sunday
  }

  // ----- properties of the tags -----

  /** Detection finds NONE exactly when no tag starts the text after its leading whitespace. */
  lemma DetectNoneIffUntagged(stored: string)
    ensures DetectRepeatModeFromStored(stored) == NoRepeat
            <==> forall k: RepeatMode :: k != NoRepeat ==> !StartsWith(StripLeading(stored), Prefix(k))
  {
    if DetectRepeatModeFromStored(stored) == NoRepeat {
      forall k: RepeatMode | k != NoRepeat
        ensures !StartsWith(StripLeading(stored), Prefix(k))
      {
        match k
        case Yearly =>
        case Weekdays =>
        case Monthly =>
      }
    }
  }

  /** The detected rule is the one tag that starts the text after its leading whitespace. */
  lemma DetectIffTag(stored: string, k: RepeatMode)
    requires k != NoRepeat
    ensures DetectRepeatModeFromStored(stored) == k <==> StartsWith(StripLeading(stored), Prefix(k))
  {
    var m := DetectRepeatModeFromStored(stored);
    if StartsWith(StripLeading(stored), Prefix(k)) {
      DetectNoneIffUntagged(stored);
      TagDecides(StripLeading(stored), m, k);
    }
  }

  /** A tagged text has no leading whitespace to drop. */
  lemma TaggedKeepsStart(t: string, m: RepeatMode)
    requires m != NoRepeat
    ensures StripLeading(Prefix(m) + " " + t) == Prefix(m) + " " + t
  {
    StripLeadingOfTrimmed(Prefix(m) + " " + t);
  }

  /** A tagged text starts with its tag. */
  lemma TaggedStartsWithTag(t: string, m: RepeatMode)
    requires m != NoRepeat
    ensures StartsWith(Prefix(m) + " " + t, Prefix(m))
  {
    var s := Prefix(m) + " " + t;
    assert s[..|Prefix(m)|] == Prefix(m);
  }

  /** A text that starts with one tag starts with no other. */
  lemma TagDecides(s: string, m: RepeatMode, k: RepeatMode)
    requires m != NoRepeat && k != NoRepeat && StartsWith(s, Prefix(m))
    ensures StartsWith(s, Prefix(k)) <==> k == m
  {
    if k != m {
      PrefixesDistinct(m, k);
      assert s[..|Prefix(m)|][3] == s[3];
      if |Prefix(k)| <= |s| {
        assert s[..|Prefix(k)|][3] == s[3];
      }
    }
  }

  /** The tagged text is detected with the mode it was tagged with. */
  lemma DetectTagged(t: string, m: RepeatMode)
    requires m != NoRepeat
    ensures DetectRepeatModeFromStored(Prefix(m) + " " + t) == m
  {
    var s := Prefix(m) + " " + t;
    TaggedKeepsStart(t, m);
    TaggedStartsWithTag(t, m);
    TagDecides(s, m, Yearly);
    TagDecides(s, m, Weekdays);
    TagDecides(s, m, Monthly);
  }

  /** A tagged text displays as the text after the tag and its space. */
  lemma DisplayTagged(t: string, m: RepeatMode)
    requires m != NoRepeat && (t == [] || !IsWhitespace(t[0]))
    ensures DisplayText(Prefix(m) + " " + t) == t
  {
    var s := Prefix(m) + " " + t;
    DetectTagged(t, m);
    TaggedKeepsStart(t, m);
    assert s[|Prefix(m)|..] == " " + t;
    StripLeadingAfterSpace(t);
  }

  /**
   * Round trip: any text with something left after trimming, tagged with a
   * mode other than NONE, is detected with that mode and displays as the
   * trimmed text.
   */
  lemma TagRoundTrip(text: string, m: RepeatMode)
    requires m != NoRepeat && Strip(text) != []
    ensures DetectRepeatModeFromStored(ApplyRepeatPrefixForStorage(text, m)) == m
    ensures DisplayText(ApplyRepeatPrefixForStorage(text, m)) == Strip(text)
  {
    var t := Strip(text);
    assert ApplyRepeatPrefixForStorage(text, m) == Prefix(m) + " " + t;
    DetectTagged(t, m);
    DisplayTagged(t, m);
  }

  /** A text without surrounding whitespace, stored with NONE, is stored and shown as it is unless it starts with a tag. */
  lemma UntaggedRoundTrip(text: string)
    requires DetectRepeatModeFromStored(Strip(text)) == NoRepeat
    ensures ApplyRepeatPrefixForStorage(text, NoRepeat) == Strip(text)
    ensures DisplayText(ApplyRepeatPrefixForStorage(text, NoRepeat)) == Strip(text)
  {
  }

  /**
   * The rule lives in the text: typing a tag at the start of an entry stored
   * with NONE makes it a repeating entry all the same.
   */
  lemma TypedTagBecomesRule()
    ensures ApplyRepeatPrefixForStorage("[R:MON] rent", NoRepeat) == "[R:MON] rent"
    ensures DetectRepeatModeFromStored(ApplyRepeatPrefixForStorage("[R:MON] rent", NoRepeat)) == Monthly
  {
    var s := "[R:MON] rent";
    StripLeadingOfTrimmed(s);
    assert Strip(s) == s by {
      assert StripTrailing(s) == s;
    }
    assert !StartsWith(s, Prefix(Yearly)) by {
      assert s[..8][3] == 'M';
    }
    assert !StartsWith(s, Prefix(Weekdays)) by {
      assert s[..7][3] == 'M';
    }
    assert StartsWith(s, Prefix(Monthly)) by {
      assert s[..7] == "[R:MON]";
    }
  }

  /**
   * Changing the mode of a tagged entry (changeRepeatModeOfSelected) keeps its
   * text: re-tagging the displayed text with the new mode gives what tagging
   * the original text with the new mode gives.
   */
  lemma ChangeRepeatModeKeepsText(text: string, m: RepeatMode, newMode: RepeatMode)
    requires m != NoRepeat && Strip(text) != []
    ensures ApplyRepeatPrefixForStorage(DisplayText(ApplyRepeatPrefixForStorage(text, m)), newMode)
            == ApplyRepeatPrefixForStorage(text, newMode)
  {
    TagRoundTrip(text, m);
    StripIdempotent(text);
  }

  // ----- properties of the matcher -----

  /** A yearly rule applies only where a monthly rule from the same origin does. */
  lemma YearlyImpliesMonthly(origin: LocalDate, date: LocalDate)
    ensures AppliesToDate(Yearly, origin, date) ==> AppliesToDate(Monthly, origin, date)
  {
  }

  /** A weekday rule ignores its origin and applies exactly on dates that are not weekend days. */
  lemma WeekdaysIgnoresOrigin(origin1: LocalDate, origin2: LocalDate, date: LocalDate)
    ensures AppliesToDate(Weekdays, origin1, date) == AppliesToDate(Weekdays, origin2, date)
    ensures AppliesToDate(Weekdays, origin1, date) <==> !IsWeekend(date)
  {
  }

  /** WEEKDAYS repeats every week: a date and the date seven days later agree. */
  lemma WeekdaysWeekly(origin: LocalDate, date: LocalDate, later: LocalDate)
    requires EpochDay(later) == EpochDay(date) + 7
    ensures AppliesToDate(Weekdays, origin, date) <==> AppliesToDate(Weekdays, origin, later)
  {
    SameWeekdayAWeekLater(date, later);
  }

  /** A MONTHLY entry from the 31st only shows in months with 31 days; the source does not move it to the month's end. */
  lemma MonthlyFromThirtyFirst(origin: LocalDate, date: LocalDate)
    requires origin.day == 31 && AppliesToDate(Monthly, origin, date)
    ensures LengthOfMonth(date.year, date.month) == 31
  {
  }

  /** A YEARLY entry from 29 February only shows in leap years. */
  lemma YearlyLeapDay(origin: LocalDate, date: LocalDate)
    requires origin.month == 2 && origin.day == 29 && AppliesToDate(Yearly, origin, date)
    ensures IsLeapYear(date.year)
  {
  }

  /** A weekday entry made on 1970-01-01 (a Thursday) applies to the next day, a Friday, but not to the Saturday after. */
  lemma WeekdaysSkipsWeekend()
    ensures AppliesToDate(Weekdays, Date(1970, 1, 1), Date(1970, 1, 2))
    ensures !AppliesToDate(Weekdays, Date(1970, 1, 1), Date(1970, 1, 3))
  {
    assert EpochDay(Date(1970, 1, 2)) == 1 && EpochDay(Date(1970, 1, 3)) == 2;
  }
}
