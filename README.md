# Zeitmaschine Kalender — a verified model of the calendar's core

The Zeitmaschine Kalender is a Swing desktop calendar dressed up as a
steampunk time machine. Three porthole dials select a year, a month and a
day; pulling a lever opens a day window whose entries are shown on a
six-row split-flap board; entries can repeat yearly, monthly or on
weekdays; and the whole entry store is saved to a properties file as
Base64 text.

This project models that core in Dafny and proves what it promises:

- `FlipNumber` (flip_number_display.dfy): the bounded counter behind every
  dial, in WRAP (modular) and CLAMP (saturating) mode, with Java's
  truncating `%` written out.
- `Calendar` (calendar.dfy): the proleptic Gregorian calendar as
  `java.time` provides it — leap years, month lengths, the epoch day, the
  day of the week, and the ISO-8601 `YYYY-MM-DD` text of a date.
- `CalendarMachine` (calendar_machine.dfy): the three dials, the step
  wiring, `normalizeDayToMonth` and `getSelectedDateFromBullauges`.
- `Recurrence` (recurrence.dfy): the inline repeat tags `[R:YEAR]`,
  `[R:WKD]`, `[R:MON]` and the rule matcher `appliesToDate`.
- `DayEntries` (day_entries_window.dfy): the visibility resolver, the
  store edits, and the day window as a class whose methods add, edit,
  delete and re-tag entries and refresh the board.
- `SplitFlap` (split_flap.dfy): the character wheel, the word wrapper, the
  `char[][]` grids of the board and its animation step, and hit-testing.
- `Lever` (lever_control.dfy): the lever's drag, snap and fire-once latch.
- `EntryStoreIO` (entry_store_io.dfy): the save and load codec between
  the store and its properties, over `Text`, `Utf8` and `Base64`.
- `Text`, `Utf8`, `Base64` (text.dfy, utf8.dfy, base64.dfy): the Java
  library behaviour the codec and the window rely on — stripping, split
  and join, UTF-8 (section 3.9 of the Unicode Standard, RFC 3629) and
  Base64 with the basic alphabet of section 4 of RFC 4648.
- `Arith`, `Wrappers` (arith.dfy, wrappers.dfy): `Min`, `Max`, Euclidean
  division facts, and `Option`.

Mutable objects of the source are classes: `FlipNumberDisplay`,
`CalendarMachinePanel`, `SplitFlapDisplay` (its grids are `array2<char>`),
`DayEntriesWindow` and `LeverControl`. Every loop of the source is a method
with invariants, proved against a function that states what the loop
computes. Those functions are what the lemmas are about.

Choices the model makes where the source leaves something open:

- The store is a `HashMap`, and the resolver visits its dates in an order
  Java does not specify. The model lets the loop pick any order and
  records it as a ghost sequence. Every property of the resolver holds for
  all orders.
- The window's `onStoreChanged.run()` is modelled as a counter,
  `storeChanges`. The model raises it before the board is refreshed,
  where the source calls it last. Nothing in the window reads the counter,
  so the order changes nothing the model can observe.
- In the source a dial step first calls `display.add(step)` and only then
  its `onStep` callback (src/BullaugeControl.java:111-116). `StepYear`,
  `StepMonth` and `StepDay` do the same.
- Rows of the board do not correspond to entries. The six texts are
  joined with line feeds, but the wrapper turns line feeds into spaces, so
  the board shows one running text. Row numbers still index the listed
  references. `RowsAreNotEntries` proves an instance of this.

## Model

| member | source | states |
|---|---|---|
| FlipNumber.JavaRem | src/FlipNumberDisplay.java:27 | Java's int `%` for a positive divisor: truncated toward zero, with the sign of the dividend, and its exact relation to the Euclidean remainder |
| FlipNumber.Normalize | src/FlipNumberDisplay.java:24-33 | the value setValue stores always lies in [min, max]; in WRAP it is min plus the non-negative remainder of v - min by the range, in CLAMP it is v held between min and max |
| FlipNumber.NormalizeInRange | src/FlipNumberDisplay.java:24-33 | a value already in range is stored unchanged, in both modes |
| FlipNumber.NormalizeIdempotent | src/FlipNumberDisplay.java:24-33 | writing a stored value again changes nothing |
| FlipNumber.WrapPeriodic | src/FlipNumberDisplay.java:25-29 | in WRAP, v and v + k·range store the same value |
| FlipNumber.WrapAround | src/FlipNumberDisplay.java:25-29 | in WRAP, one past max stores min and one below min stores max |
| FlipNumber.FlipNumberDisplay.constructor | src/FlipNumberDisplay.java:9-14 | the initial value is stored without normalising; the bounds and the mode are fixed |
| FlipNumber.FlipNumberDisplay.GetValue | src/FlipNumberDisplay.java:16-18 | returns the stored value |
| FlipNumber.FlipNumberDisplay.SetValue | src/FlipNumberDisplay.java:24-33 | stores Normalize of the new value, so the range invariant holds afterwards; writing the current in-range value keeps it |
| FlipNumber.FlipNumberDisplay.Add | src/FlipNumberDisplay.java:20-22 | add(delta) stores exactly what setValue(value + delta) stores, and the value is in range afterwards |
| Calendar.LengthOfMonth | src/CalendarMachinePanel.java:175 | month lengths by the Gregorian leap-year rule: 28 or 29 for February as the year is a leap year, 30 for April, June, September and November, 31 otherwise |
| Calendar.WeekdayIndex | src/DayEntriesWindow/DayEntriesWindow.java:337 | the day of the week as an index in [0, 7), Monday = 0 |
| Calendar.Tomorrow | src/DayEntriesWindow/DayEntriesWindow.java:337 | the next date stays in the year or starts the next one on 1 January (used only to state weekday facts) |
| Calendar.TomorrowIsNextEpochDay | src/DayEntriesWindow/DayEntriesWindow.java:337 | the epoch day of the next date is one more: the day count behind getDayOfWeek has no gaps |
| Calendar.TomorrowWeekday | src/DayEntriesWindow/DayEntriesWindow.java:337 | the weekday moves on by one each day, Sunday wrapping to Monday |
| Calendar.EpochIsThursday | src/DayEntriesWindow/DayEntriesWindow.java:337 | 1970-01-01 is epoch day 0 and a Thursday, which anchors the weekday count |
| Calendar.SameWeekdayAWeekLater | src/DayEntriesWindow/DayEntriesWindow.java:337 | a date and the date seven epoch days later have the same weekday |
| Calendar.EpochDay | src/DayEntriesWindow/DayEntriesWindow.java:337 | the count of days since 1970-01-01 in the proleptic Gregorian calendar, the count LocalDate.getDayOfWeek works from: 1970-01-01 is day 0 (EpochIsThursday) and each next date is one day more (TomorrowIsNextEpochDay) |
| Calendar.GetDayOfWeek | src/DayEntriesWindow/DayEntriesWindow.java:337 | the weekday of a date, anchored at Thursday 1970-01-01 and moving on by one each day, Sunday wrapping to Monday (TomorrowWeekday) |
| Calendar.ParseIso | src/EntryStoreIO.java:43 | only a ten-character text naming a date that exists parses; it inverts the ISO format both ways (ParseFormat, FormatParse) |
| Calendar.FormatIso | src/EntryStoreIO.java:84 | LocalDate.toString of a four-digit-year date is ten characters with dashes at positions 4 and 7 |
| Calendar.ParseFormat | src/EntryStoreIO.java:43 | parsing reads back the ISO text of every date (also line 84) |
| Calendar.FormatParse | src/EntryStoreIO.java:43 | a key that parses is exactly the ISO text of its date |
| CalendarMachine.ClampInt | src/CalendarMachinePanel.java:166-176 | Math.max(lo, Math.min(hi, v)) lies in [lo, hi], is v inside and the nearer bound outside |
| CalendarMachine.DayLimit | src/CalendarMachinePanel.java:166-175 | the month length after clamping year to [0, 9999] and month to [1, 12], always a valid month, so it is between 28 and 31 |
| CalendarMachine.NormalizedDay | src/CalendarMachinePanel.java:175-176 | the renormalised day lies in [1, month length]; it equals the old day exactly when that was valid, and is the month's last day above it |
| CalendarMachine.SelectedDateOf | src/CalendarMachinePanel.java:264-281 | the selected date has year in [1, 9999] (year 0 becomes year 1), month in [1, 12] and a day within its month |
| CalendarMachine.NormalizedDayIdempotent | src/CalendarMachinePanel.java:161-182 | renormalising a second time changes nothing |
| CalendarMachine.SelectedDateOfValid | src/CalendarMachinePanel.java:264-281 | dials that already show a date from year 1 on select exactly that date |
| CalendarMachine.YearZeroSelectsYearOne | src/CalendarMachinePanel.java:170 | year 0 is clamped differently by the two methods: 29 February of year 0 survives renormalisation but is selected as 28 February of year 1 (also line 272) |
| CalendarMachine.CalendarMachinePanel.constructor | src/CalendarMachinePanel.java:87-98 | year CLAMP [0, 9999], month WRAP [1, 12], day WRAP [1, 31] start on today, then one renormalisation leaves the day within its month (also line 158) |
| CalendarMachine.CalendarMachinePanel.NormalizeDayToMonth | src/CalendarMachinePanel.java:161-182 | the day dial becomes NormalizedDay of the dials and fits its month; it is written only when that differs, so a valid day is kept |
| CalendarMachine.CalendarMachinePanel.StepYear | src/CalendarMachinePanel.java:141-144 | a year step adds with CLAMP, then renormalises the day |
| CalendarMachine.CalendarMachinePanel.StepMonth | src/CalendarMachinePanel.java:146-151 | a month step adds with WRAP, then renormalises the day |
| CalendarMachine.CalendarMachinePanel.StepDay | src/CalendarMachinePanel.java:153 | a day step adds with WRAP and does not renormalise |
| CalendarMachine.CalendarMachinePanel.SelectedDate | src/CalendarMachinePanel.java:264-281 | for dials in range, with the day fitting the month and a year from 1, the selected date is the dials' own date |
| CalendarMachine.CalendarMachinePanel.DateForDayWindow | src/CalendarMachinePanel.java:234-237 | the lever sequence renormalises and then reads the dials, so their date is opened as it is |
| CalendarMachine.JanuaryThirtyFirstToFebruary | src/CalendarMachinePanel.java:146-151 | in 2023, stepping the month from January on day 31 leaves 28 February (example) |
| CalendarMachine.DayStepMayExceedMonth | src/CalendarMachinePanel.java:153 | a day step alone can leave a day past the month's end (28 February + 3 shows 31) (example) |
| Recurrence.Prefix | src/DayEntriesWindow/DayEntriesWindow.java:46-50 | NONE has no tag; every other tag starts with `[R:` |
| Recurrence.PrefixesDistinct | src/DayEntriesWindow/DayEntriesWindow.java:48-50 | two different tags differ in their fourth character, so no tag is a prefix of another |
| Recurrence.ApplyRepeatPrefixForStorage | src/DayEntriesWindow/DayEntriesWindow.java:302-306 | the trimmed text when it is empty or the mode is NONE, otherwise the tag, a space and the trimmed text |
| Recurrence.DetectRepeatModeFromStored | src/DayEntriesWindow/DayEntriesWindow.java:308-315 | a detected rule's tag starts the text after its leading whitespace |
| Recurrence.DisplayText | src/DayEntriesWindow/DayEntriesWindow.java:317-327 | an untagged text is shown as it is, leading whitespace included, and display never lengthens a text |
| Recurrence.StripRepeatPrefixForDisplay | src/DayEntriesWindow/DayEntriesWindow.java:317-327 | the loop over RepeatMode.values() returns DisplayText |
| Recurrence.DetectNoneIffUntagged | src/DayEntriesWindow/DayEntriesWindow.java:308-315 | NONE is detected exactly when no tag starts the text after its leading whitespace |
| Recurrence.DetectIffTag | src/DayEntriesWindow/DayEntriesWindow.java:308-315 | for each rule other than NONE: the rule is detected exactly when its tag starts the text after its leading whitespace |
| Recurrence.TagDecides | src/DayEntriesWindow/DayEntriesWindow.java:311-313 | a text that starts with one tag starts with no other, so the order YEAR, WKD, MON decides nothing |
| Recurrence.DetectTagged | src/DayEntriesWindow/DayEntriesWindow.java:305 | a tagged text is detected with its tag's mode (also lines 308-315) |
| Recurrence.DisplayTagged | src/DayEntriesWindow/DayEntriesWindow.java:305 | a tagged text displays as what follows the tag and its space, when that does not begin with whitespace (also lines 317-327) |
| Recurrence.TagRoundTrip | src/DayEntriesWindow/DayEntriesWindow.java:302-327 | tagging a non-blank text with a mode other than NONE is detected as that mode and displays as the trimmed text |
| Recurrence.UntaggedRoundTrip | src/DayEntriesWindow/DayEntriesWindow.java:302-327 | a text stored with NONE that does not start with a tag is stored and shown as its trimmed self |
| Recurrence.TypedTagBecomesRule | src/DayEntriesWindow/DayEntriesWindow.java:302-315 | a tag typed into the text of a NONE entry makes it a repeating entry |
| Recurrence.ChangeRepeatModeKeepsText | src/DayEntriesWindow/DayEntriesWindow.java:260-261 | re-tagging a tagged entry's display text gives what tagging the original text with the new mode gives |
| Recurrence.YearlyImpliesMonthly | src/DayEntriesWindow/DayEntriesWindow.java:334-335 | a yearly rule applies only where the monthly rule of the same origin does |
| Recurrence.WeekdaysIgnoresOrigin | src/DayEntriesWindow/DayEntriesWindow.java:336-339 | a weekday rule ignores its origin and applies exactly on dates that are not Saturday or Sunday |
| Recurrence.AppliesToDate | src/DayEntriesWindow/DayEntriesWindow.java:329-341 | NONE never applies; YEARLY applies on the origin's month and day, MONTHLY on its day of the month, WEEKDAYS on Monday to Friday whatever the origin (YearlyImpliesMonthly, WeekdaysIgnoresOrigin, WeekdaysWeekly, MonthlyFromThirtyFirst, YearlyLeapDay) |
| Recurrence.WeekdaysWeekly | src/DayEntriesWindow/DayEntriesWindow.java:336-339 | a weekday rule repeats every seven days: a date and the date whose epoch day is seven more agree |
| Recurrence.MonthlyFromThirtyFirst | src/DayEntriesWindow/DayEntriesWindow.java:335 | a monthly entry from the 31st shows only in months of 31 days; it is not moved to a shorter month's end |
| Recurrence.YearlyLeapDay | src/DayEntriesWindow/DayEntriesWindow.java:334 | a yearly entry from 29 February shows only in leap years |
| Recurrence.WeekdaysSkipsWeekend | src/DayEntriesWindow/DayEntriesWindow.java:336-339 | a weekday entry applies on Friday 1970-01-02 and not on Saturday 1970-01-03 (example) |
| DayEntries.LastN | src/DayEntriesWindow/DayEntriesWindow.java:402-408 | the cut keeps min(6, n) elements and drops only from the front |
| DayEntries.DirectRefs | src/DayEntriesWindow/DayEntriesWindow.java:378-381 | a reference to every slot of the date's own list, in order (DirectMembers) |
| DayEntries.Repeaters | src/DayEntriesWindow/DayEntriesWindow.java:391-399 | the slots of one list whose text has a rule other than NONE that applies to the date, in order (RepeatersMembers) |
| DayEntries.OriginRepeaters | src/DayEntriesWindow/DayEntriesWindow.java:384-390 | nothing from the current date itself; otherwise the repeaters of the origin's list (OriginMembers) |
| DayEntries.RepeaterRefs | src/DayEntriesWindow/DayEntriesWindow.java:384-400 | the repeaters of every date in visiting order: exactly the applying references from other dates (RepeaterRefsMembers) |
| DayEntries.DirectMembers | src/DayEntriesWindow/DayEntriesWindow.java:378-381 | the direct part is exactly the valid references into the date's own list |
| DayEntries.RepeatersMembers | src/DayEntriesWindow/DayEntriesWindow.java:391-399 | one list contributes exactly its slots whose text has a rule that applies to the date |
| DayEntries.OriginMembers | src/DayEntriesWindow/DayEntriesWindow.java:384-400 | a date contributes nothing when it is the current date; otherwise its repeaters |
| DayEntries.Candidates | src/DayEntriesWindow/DayEntriesWindow.java:376-400 | the list before the cut: the date's own entries in order (DirectMembers), then the repeaters of the other dates in visiting order (RepeaterRefsMembers) |
| DayEntries.Resolved | src/DayEntriesWindow/DayEntriesWindow.java:402-408 | what rebuildLastShownForCurrentDate lists: the last min(6, n) of the n candidates, cut only at the front |
| DayEntries.ResolvedRepeatersApply | src/DayEntriesWindow/DayEntriesWindow.java:384-400 | every listed entry from another date has a rule other than NONE that applies to the date: YEARLY on the same month and day, MONTHLY on the same day of the month, WEEKDAYS only on a weekday |
| DayEntries.RepeaterRefsMembers | src/DayEntriesWindow/DayEntriesWindow.java:384-400 | the repeater part holds exactly valid references from other dates of the order whose rule is not NONE and applies |
| DayEntries.CandidatesMembers | src/DayEntriesWindow/DayEntriesWindow.java:373-400 | whatever the visiting order, the list before the cut holds exactly the date's direct entries and the repeaters of other dates |
| DayEntries.ResolvedValid | src/DayEntriesWindow/DayEntriesWindow.java:373-409 | every listed reference points at an existing slot that holds its stored text, for every order |
| DayEntries.CandidatesOrigins | src/DayEntriesWindow/DayEntriesWindow.java:378-399 | before the cut, the entries of the date itself are exactly the first ones |
| DayEntries.DirectBeforeRepeaters | src/DayEntriesWindow/DayEntriesWindow.java:373-409 | after the cut, a listed entry of the date is preceded only by entries of the date |
| DayEntries.RepeatersCrowdOut | src/DayEntriesWindow/DayEntriesWindow.java:402-408 | six or more repeaters crowd every direct entry out: the list is the last six repeaters |
| DayEntries.AddSelectsLastRow | src/DayEntriesWindow/DayEntriesWindow.java:447-456 | after an add the list is not empty, and the last row, which the add selects, holds the new entry exactly when no repeater applies |
| DayEntries.BuildFlapText | src/DayEntriesWindow/DayEntriesWindow.java:414-422 | the StringBuilder loop yields the six display texts joined by line feeds |
| DayEntries.DisplayPieces | src/DayEntriesWindow/DayEntriesWindow.java:415-421 | one display text per board row, six in all, empty past the end of the list; BuildFlapText computes it with its loop |
| DayEntries.FlapText | src/DayEntriesWindow/DayEntriesWindow.java:414-425 | the six display texts joined by line feeds, which the board wraps as one running text (BoardShowsRunningText) |
| DayEntries.BoardShowsRunningText | src/DayEntriesWindow/DayEntriesWindow.java:414-425 | the wrapper sees the six texts joined by spaces: the board shows one running text, not one entry per row (also src/DayEntriesWindow/SplitFlapDisplay.java:280) |
| DayEntries.RowsAreNotEntries | src/DayEntriesWindow/DayEntriesWindow.java:182-186 | two entries "A" and "B" share the top row while the blank second row selects "B" (also lines 362-365) (example) |
| DayEntries.Appended | src/DayEntriesWindow/DayEntriesWindow.java:447 | computeIfAbsent(...).add: the text goes at the end of the date's list, created if needed; no other date changes |
| DayEntries.Replaced | src/DayEntriesWindow/DayEntriesWindow.java:475 | items.set: one slot replaced, the length and every other slot and date kept |
| DayEntries.Removed | src/DayEntriesWindow/DayEntriesWindow.java:492-493 | one slot removed, and the date's key removed exactly when its list is left empty; no empty list appears |
| DayEntries.RemoveUndoesAppend | src/DayEntriesWindow/DayEntriesWindow.java:447 | deleting the entry just added gives the store back (also lines 492-493) |
| DayEntries.ReplaceUndoesReplace | src/DayEntriesWindow/DayEntriesWindow.java:475 | putting the old text back undoes a replacement |
| DayEntries.EditKeepsRule | src/DayEntriesWindow/DayEntriesWindow.java:465-470 | an edit keeps the rule of the selected text and shows the trimmed new text |
| DayEntries.RetagSetsRule | src/DayEntriesWindow/DayEntriesWindow.java:260-261 | re-tagging a non-blank entry makes the new mode its detected rule |
| DayEntries.CollectDirect | src/DayEntriesWindow/DayEntriesWindow.java:378-381 | the direct loop lists one reference per entry of the date, in order |
| DayEntries.CollectRepeaters | src/DayEntriesWindow/DayEntriesWindow.java:391-399 | the inner loop appends one list's applying repeaters, in list order |
| DayEntries.RepeaterAt | src/DayEntriesWindow/DayEntriesWindow.java:392-398 | one slot is listed exactly when its text has a rule that applies |
| DayEntries.CollectAllRepeaters | src/DayEntriesWindow/DayEntriesWindow.java:384-400 | the loop over the map visits every date once, in some order, and appends each date's repeaters |
| DayEntries.DayEntriesWindow.SelectedRef | src/DayEntriesWindow/DayEntriesWindow.java:362-365 | the reference of the selected row exactly when that row is listed, else none |
| DayEntries.DayEntriesWindow.SelectedRefInStore | src/DayEntriesWindow/DayEntriesWindow.java:472-473 | while the list is the resolver's, a selected reference is valid, so the guards against a missing list or index never fire (also lines 489-490) |
| DayEntries.DayEntriesWindow.RepeatMenuState | src/DayEntriesWindow/DayEntriesWindow.java:238-251 | the menu is enabled exactly with a selection; without one NONE is checked; with one, each rule other than NONE is checked exactly when its tag starts the selected text after leading whitespace, and NONE exactly when no tag does |
| DayEntries.DayEntriesWindow.constructor | src/DayEntriesWindow/DayEntriesWindow.java:27-38 | the shared store, no date, nothing listed or selected, and a blank 6×16 board with the window's timing and cell size (also lines 73-76, lines 163-166) |
| DayEntries.DayEntriesWindow.SelectRow | src/DayEntriesWindow/DayEntriesWindow.java:345-360 | the row is selected here and on the board (where out of range means -1), and the entry's text without its tag fills the input |
| DayEntries.DayEntriesWindow.SelectedText | src/DayEntriesWindow/DayEntriesWindow.java:348-349 | the untagged display text of the selected entry, or empty without a selection; SelectRow and every refresh leave it in the input field |
| DayEntries.DayEntriesWindow.HandleFlapMouse | src/DayEntriesWindow/DayEntriesWindow.java:181-187 | a press or release on a row selects it; off the rows nothing changes |
| DayEntries.DayEntriesWindow.RebuildLastShown | src/DayEntriesWindow/DayEntriesWindow.java:373-409 | the list becomes the resolver's for the current date under some order of the store's dates, at most six long |
| DayEntries.DayEntriesWindow.UpdateFlapFromStore | src/DayEntriesWindow/DayEntriesWindow.java:411-434 | the list rebuilt and its six texts on the target grid, what the wheels show untouched, and the selection dropped when its row is no longer listed |
| DayEntries.DayEntriesWindow.DropStaleSelection | src/DayEntriesWindow/DayEntriesWindow.java:427-432 | a selection at or past the end of the list becomes -1 here and on the board, with its text cleared |
| DayEntries.DayEntriesWindow.ShowForDate | src/DayEntriesWindow/DayEntriesWindow.java:514-523 | the date's list on the board, nothing selected, the input empty, the store unchanged |
| DayEntries.DayEntriesWindow.AddEntryFromInput | src/DayEntriesWindow/DayEntriesWindow.java:438-459 | nothing without a date or with a blank input; otherwise the trimmed, tagged text is appended to the date's list and nothing else in the store changes |
| DayEntries.DayEntriesWindow.AppendEntry | src/DayEntriesWindow/DayEntriesWindow.java:445-458 | the store gains the entry at the end of the date's list, the board is updated, and the last listed row is selected |
| DayEntries.DayEntriesWindow.SelectLastRow | src/DayEntriesWindow/DayEntriesWindow.java:453-456 | with a non-empty list, row min(5, n - 1) is selected with its text; with an empty one nothing changes |
| DayEntries.DayEntriesWindow.EditSelectedInline | src/DayEntriesWindow/DayEntriesWindow.java:461-483 | nothing without a selection, with a blank input or a gone slot; otherwise the slot takes the trimmed input tagged with the selected text's rule |
| DayEntries.DayEntriesWindow.ReplaceSelected | src/DayEntriesWindow/DayEntriesWindow.java:475-482 | one slot replaced in place, the new text kept as the selection's text, the board updated with the selection kept while listed |
| DayEntries.DayEntriesWindow.RefreshKeepingSelection | src/DayEntriesWindow/DayEntriesWindow.java:479-480 | the board updated, then told the selected row again |
| DayEntries.DayEntriesWindow.DeleteSelectedInline | src/DayEntriesWindow/DayEntriesWindow.java:485-510 | nothing without a selection or with a gone slot; otherwise the slot is removed (the date too when left empty), and the selection stays on its row while listed, with that row's text in the input |
| DayEntries.DayEntriesWindow.RemoveSelected | src/DayEntriesWindow/DayEntriesWindow.java:492-509 | the slot removed, the board updated, and the selection kept on its row while listed, otherwise none |
| DayEntries.DayEntriesWindow.RefreshAfterDelete | src/DayEntriesWindow/DayEntriesWindow.java:498-507 | the board updated, then the selection settled on a listed row or none |
| DayEntries.DayEntriesWindow.SelectAfterDelete | src/DayEntriesWindow/DayEntriesWindow.java:500-507 | with an empty list nothing is selected; otherwise the row min(selectedRow, n - 1) is selected again with its text |
| DayEntries.DayEntriesWindow.ChangeRepeatModeOfSelected | src/DayEntriesWindow/DayEntriesWindow.java:253-271 | nothing without a selection or with a gone slot; otherwise the slot's untagged text is stored with the new rule and put in the input |
| DayEntries.DayEntriesWindow.RetagSelected | src/DayEntriesWindow/DayEntriesWindow.java:262-270 | one slot replaced by the re-tagged text, its base text in the input and as the selection's text, the board updated |
| SplitFlap.CharsetSize | src/DayEntriesWindow/SplitFlapDisplay.java:25 | CHARSET has 57 characters |
| SplitFlap.IndexOf | src/DayEntriesWindow/SplitFlapDisplay.java:255 | CHARSET.indexOf is -1 or a wheel position |
| SplitFlap.IndexOfFound | src/DayEntriesWindow/SplitFlapDisplay.java:25 | wheel characters are exactly the characters of CHARSET, each found at its own position (also line 315) |
| SplitFlap.ToUpperOnWheel | src/DayEntriesWindow/SplitFlapDisplay.java:314 | characters of the wheel are their own upper case |
| SplitFlap.ToUpper | src/DayEntriesWindow/SplitFlapDisplay.java:314 | Character.toUpperCase on the characters whose upper case the wheel can show; it is the identity on wheel characters (ToUpperOnWheel) |
| SplitFlap.NormalizeIsUpperCase | src/DayEntriesWindow/SplitFlapDisplay.java:313-316 | normalize is the upper case when CHARSET holds it, otherwise a space |
| SplitFlap.NormalizeIsWheelChar | src/DayEntriesWindow/SplitFlapDisplay.java:313-316 | normalize always gives a character of the wheel |
| SplitFlap.Normalize | src/DayEntriesWindow/SplitFlapDisplay.java:313-316 | the character shown is the character itself, its upper case or a space; it is always on the wheel (NormalizeIsWheelChar), keeps wheel characters (NormalizeOnWheel) and is idempotent (NormalizeIdempotent) |
| SplitFlap.NormalizeInCharset | src/DayEntriesWindow/SplitFlapDisplay.java:313-316 | normalize in terms of CHARSET membership of the upper case |
| SplitFlap.NormalizeOnWheel | src/DayEntriesWindow/SplitFlapDisplay.java:313-316 | wheel characters normalize to themselves |
| SplitFlap.NormalizeIdempotent | src/DayEntriesWindow/SplitFlapDisplay.java:313-316 | normalizing twice is normalizing once |
| SplitFlap.NormalizeLowerCase | src/DayEntriesWindow/SplitFlapDisplay.java:313-316 | lower-case letters and umlauts show as capitals; ß shows as itself (example) |
| SplitFlap.NormalizeOffWheel | src/DayEntriesWindow/SplitFlapDisplay.java:313-316 | characters without an upper case on the wheel show as a space |
| SplitFlap.NextChar | src/DayEntriesWindow/SplitFlapDisplay.java:319-324 | nextChar always lands on the wheel |
| SplitFlap.NextCharStep | src/DayEntriesWindow/SplitFlapDisplay.java:319-324 | one turn moves a wheel character to the next position, the last wrapping to the first |
| SplitFlap.NextCharWraps | src/DayEntriesWindow/SplitFlapDisplay.java:319-324 | `'` turns to the space, z and Z to Ä (example) |
| SplitFlap.AdvanceIsWheelChar | src/DayEntriesWindow/SplitFlapDisplay.java:225-227 | any number of turns stays on the wheel |
| SplitFlap.Advance | src/DayEntriesWindow/SplitFlapDisplay.java:225-227 | k turns of nextChar: from a wheel character, for fewer than a full turn, it moves k positions on, wrapping (AdvanceIndex), and it stays on the wheel (AdvanceIsWheelChar) |
| SplitFlap.DistanceForward | src/DayEntriesWindow/SplitFlapDisplay.java:254-265 | the forward distance lies in [0, 56] |
| SplitFlap.DistanceZeroIff | src/DayEntriesWindow/SplitFlapDisplay.java:254-265 | the distance is 0 exactly when both characters normalize alike |
| SplitFlap.DistanceReaches | src/DayEntriesWindow/SplitFlapDisplay.java:254-265 | turning normalize(a) the distance times reaches normalize(b) (also lines 319-324) |
| SplitFlap.DistanceAfterAdvance | src/DayEntriesWindow/SplitFlapDisplay.java:220-227 | fewer turns than the distance leave exactly the rest of it: a wheel never passes its target |
| SplitFlap.Flatten | src/DayEntriesWindow/SplitFlapDisplay.java:280 | CR and LF become spaces, every other character is kept |
| SplitFlap.Prepare | src/DayEntriesWindow/SplitFlapDisplay.java:280 | the text the wrapper works on has no line breaks |
| SplitFlap.LastIndexOf | src/DayEntriesWindow/SplitFlapDisplay.java:294 | chunk.lastIndexOf(' '): -1 when there is no space, otherwise the position of the last one |
| SplitFlap.SkipSpaces | src/DayEntriesWindow/SplitFlapDisplay.java:307 | the index moves past exactly the spaces at i and stops at the end or at a non-space |
| SplitFlap.NextChunk | src/DayEntriesWindow/SplitFlapDisplay.java:290-301 | a chunk is at most the line width and ends no earlier than it starts |
| SplitFlap.WrapFrom | src/DayEntriesWindow/SplitFlapDisplay.java:287-308 | the loop yields at most the lines left, and at least one while text remains |
| SplitFlap.WrapLines | src/DayEntriesWindow/SplitFlapDisplay.java:279-310 | a blank text gives [""]; otherwise 1 to maxLines lines (for maxLines ≥ 1) |
| SplitFlap.WrapLinesFit | src/DayEntriesWindow/SplitFlapDisplay.java:290-303 | every line is at most lineWidth long, with no trailing whitespace and no line feed |
| SplitFlap.WrapShortText | src/DayEntriesWindow/SplitFlapDisplay.java:279-310 | a text that fits one line is shown as it is, flattened and stripped |
| SplitFlap.WrapToLines | src/DayEntriesWindow/SplitFlapDisplay.java:279-310 | the method computes WrapLines |
| SplitFlap.CutLines | src/DayEntriesWindow/SplitFlapDisplay.java:287-308 | the while loop computes WrapFrom; it ends because i or the line count grows |
| SplitFlap.SkipSpacesAt | src/DayEntriesWindow/SplitFlapDisplay.java:307 | the spaces that would lead the next line are skipped |
| SplitFlap.ChunkAt | src/DayEntriesWindow/SplitFlapDisplay.java:290-301 | the chunk is cut back to the last space when the text goes on and that space is at least half a line in |
| SplitFlap.StepCellOnWheel | src/DayEntriesWindow/SplitFlapDisplay.java:213-229 | a stepped cell stays on the wheel |
| SplitFlap.StepCellCloser | src/DayEntriesWindow/SplitFlapDisplay.java:217-229 | one step takes min(distance, maxAdvancesPerTick) off the distance and never passes the target |
| SplitFlap.StepCellArrives | src/DayEntriesWindow/SplitFlapDisplay.java:217-229 | a cell within maxAdvancesPerTick of its target lands on it |
| SplitFlap.StepCell | src/DayEntriesWindow/SplitFlapDisplay.java:217-229 | one tick of one cell: it stays on the wheel (StepCellOnWheel), takes min(distance, maxAdvancesPerTick) off the distance (StepCellCloser) and lands on its target when that close (StepCellArrives) |
| SplitFlap.SettledIffZero | src/DayEntriesWindow/SplitFlapDisplay.java:217 | wheel characters are at distance 0 exactly when equal (also lines 254-265) |
| SplitFlap.Remaining | src/DayEntriesWindow/SplitFlapDisplay.java:222 | the distance left after n steps never grows |
| SplitFlap.StepsToSettleBounds | src/DayEntriesWindow/SplitFlapDisplay.java:222 | the steps a cell needs are the distance divided by the turns per step, rounded up |
| SplitFlap.StepsToSettle | src/DayEntriesWindow/SplitFlapDisplay.java:217-229 | the number of ticks a cell at distance d needs when each tick turns it at most m times: the ceiling of d/m (StepsToSettleBounds), after which it shows its target (RemainingSettles) and before which it does not (RemainingBeforeSettled) |
| SplitFlap.RemainingSettles | src/DayEntriesWindow/SplitFlapDisplay.java:217-229 | after that many steps, or more, the cell shows its target |
| SplitFlap.RemainingBeforeSettled | src/DayEntriesWindow/SplitFlapDisplay.java:217-229 | and not before |
| SplitFlap.Turn | src/DayEntriesWindow/SplitFlapDisplay.java:225-227 | the for loop applies nextChar `steps` times |
| SplitFlap.ActiveCols | src/DayEntriesWindow/SplitFlapDisplay.java:210 | a started row moves between 1 and cols columns |
| SplitFlap.ActiveColsReachAll | src/DayEntriesWindow/SplitFlapDisplay.java:210 | the wave reaches the last column after (cols - 1)·ticksPerChar ticks |
| SplitFlap.OnlyFirstRowStarted | src/DayEntriesWindow/SplitFlapDisplay.java:203-204 | before the first stagger only row 0 takes part |
| SplitFlap.CellText | src/DayEntriesWindow/SplitFlapDisplay.java:166-168 | a cell holds the line's character, or a space past the line's end or the last line |
| SplitFlap.RowAt | src/DayEntriesWindow/SplitFlapDisplay.java:118-134 | the hit row is -1 or a row whose cells (not its gap) contain the height |
| SplitFlap.RowAtFinds | src/DayEntriesWindow/SplitFlapDisplay.java:118-134 | every height on a row's cells hits exactly that row |
| SplitFlap.RowAtMisses | src/DayEntriesWindow/SplitFlapDisplay.java:118-134 | -1 exactly when the height is on no row's cells: above the board, below it, or in a gap |
| SplitFlap.Fill | src/DayEntriesWindow/SplitFlapDisplay.java:268-274 | every cell of the grid set to the character |
| SplitFlap.WriteLines | src/DayEntriesWindow/SplitFlapDisplay.java:165-171 | cell (r, c) becomes normalize of character c of line r, or of a space |
| SplitFlap.BoardChar | src/DayEntriesWindow/SplitFlapDisplay.java:161-171 | the character a cell shows for a text is always on the wheel |
| SplitFlap.ShowLines | src/DayEntriesWindow/SplitFlapDisplay.java:161-171 | the target grid shows the wrapped, normalized text, every cell on the wheel |
| SplitFlap.StepOneCell | src/DayEntriesWindow/SplitFlapDisplay.java:213-229 | one cell of step computes StepCell |
| SplitFlap.RowDiffers | src/DayEntriesWindow/SplitFlapDisplay.java:235-240 | the check is true exactly when some cell of the row differs from its target |
| SplitFlap.StepCellAt | src/DayEntriesWindow/SplitFlapDisplay.java:212-231 | one cell steps, every other cell is untouched, and it reports whether it was off target |
| SplitFlap.StepCells | src/DayEntriesWindow/SplitFlapDisplay.java:212-231 | the first activeCols cells of the row step, every other cell is untouched |
| SplitFlap.StepRow | src/DayEntriesWindow/SplitFlapDisplay.java:207-240 | a started row steps its active cells and reports a change exactly when any of its cells was off target |
| SplitFlap.StepRowAt | src/DayEntriesWindow/SplitFlapDisplay.java:201-240 | a row that has not started is skipped and reports nothing |
| SplitFlap.StepRows | src/DayEntriesWindow/SplitFlapDisplay.java:201-241 | every active cell steps, the rest keep their characters, and the change flag comes only from started rows |
| SplitFlap.SplitFlapDisplay.constructor | src/DayEntriesWindow/SplitFlapDisplay.java:28-83 | both grids blank, no timer, no selection, and the default cell size and timing |
| SplitFlap.SplitFlapDisplay.SetSelectedRow | src/DayEntriesWindow/SplitFlapDisplay.java:93-102 | an existing row is selected, any other becomes -1; nothing else changes |
| SplitFlap.SplitFlapDisplay.RowAtPoint | src/DayEntriesWindow/SplitFlapDisplay.java:114-135 | -1 for no point; otherwise the row under the point's height, or -1 off the rows or in a gap |
| SplitFlap.SplitFlapDisplay.SetCellSize | src/DayEntriesWindow/SplitFlapDisplay.java:138-143 | cells at least 8 by 10 pixels |
| SplitFlap.SplitFlapDisplay.SetTiming | src/DayEntriesWindow/SplitFlapDisplay.java:146-149 | at least one tick per character and no negative stagger |
| SplitFlap.SplitFlapDisplay.SetMaxAdvancesPerTick | src/DayEntriesWindow/SplitFlapDisplay.java:151-153 | at least one turn per step |
| SplitFlap.SplitFlapDisplay.StartTimer | src/DayEntriesWindow/SplitFlapDisplay.java:184-192 | the tick back to 0 and a timer running |
| SplitFlap.SplitFlapDisplay.ShowTextRattle | src/DayEntriesWindow/SplitFlapDisplay.java:159-173 | the target grid shows the wrapped text (null as empty), the wheels' current grid is untouched, and the animation restarts |
| SplitFlap.SplitFlapDisplay.ClearRattle | src/DayEntriesWindow/SplitFlapDisplay.java:178-181 | every target cell blank and the animation restarted |
| SplitFlap.SplitFlapDisplay.Step | src/DayEntriesWindow/SplitFlapDisplay.java:198-251 | each active cell steps towards its target, the rest keep their character, the tick advances, and the timer stops exactly when no started row had a cell off its target |
| Lever.Clamp | src/LeverControl.java:48 | the position held in [dragMinY, dragMaxY], kept inside, the nearer bound outside (also line 84) |
| Lever.SnapTarget | src/LeverControl.java:92-95 | the lever snaps to an end: the top exactly when y is at most the middle (rounded down) or the range is a point |
| Lever.DragLatch | src/LeverControl.java:54-68 | a drag fires exactly when it reaches the bottom unlatched; the bottom always leaves the latch set; the latch clears only at or above dragMaxY - 12 |
| Lever.SnapLatch | src/LeverControl.java:100-113 | a snap fires exactly when it reaches the bottom unlatched; snapping to the top clears the latch |
| Lever.LatchedStaysSilent | src/LeverControl.java:54-68 | once latched, drags that stay within the deadband fire nothing and keep the latch |
| Lever.FiresAtMostOnce | src/LeverControl.java:54-68 | without a pass through the deadband, a run of drags fires at most once |
| Lever.RearmFiresAgain | src/LeverControl.java:54-68 | down, up 12 pixels, and down again fires twice (example) |
| Lever.LeverControl.constructor | src/LeverControl.java:10-17 | range [0, 0], not dragging, not latched |
| Lever.LeverControl.SetDragYRange | src/LeverControl.java:80-86 | the range in either order, and the lever moved into it |
| Lever.LeverControl.MousePressed | src/LeverControl.java:29-32 | dragging starts and the grab offset is the event's y |
| Lever.LeverControl.MouseDragged | src/LeverControl.java:41-69 | ignored unless dragging with a parent; otherwise y follows the pointer clamped into the range and the latch updates as DragLatch |
| Lever.LeverControl.MouseReleased | src/LeverControl.java:35-38 | dragging ends and, with a parent, the lever ends at dragMinY or dragMaxY |
| Lever.LeverControl.SnapToEnd | src/LeverControl.java:88-114 | nothing without a parent; otherwise y becomes SnapTarget and the latch updates as SnapLatch |
| Text.StripLeading | src/DayEntriesWindow/DayEntriesWindow.java:310 | the result has no leading whitespace (also line 319) |
| Text.StripLeadingSuffix | src/DayEntriesWindow/DayEntriesWindow.java:310 | stripLeading keeps a suffix and drops only whitespace |
| Text.StripTrailing | src/DayEntriesWindow/SplitFlapDisplay.java:303 | the result has no trailing whitespace |
| Text.Strip | src/EntryStoreIO.java:55 | the result has whitespace at neither end (also src/DayEntriesWindow/DayEntriesWindow.java:303) |
| Text.StripEmptyIffBlank | src/EntryStoreIO.java:45 | a string strips to nothing exactly when it is blank (also line 51) |
| Text.StripOfTrimmed | src/EntryStoreIO.java:55 | a string without whitespace at its ends strips to itself |
| Text.StripIdempotent | src/EntryStoreIO.java:55 | stripping twice is stripping once |
| Text.Replace | src/DayEntriesWindow/SplitFlapDisplay.java:280 | every occurrence replaced, every other character kept |
| Text.ReplaceRemoves | src/DayEntriesWindow/SplitFlapDisplay.java:280 | after replacing a character by another, it no longer occurs |
| Text.StripKeepsAbsent | src/EntryStoreIO.java:55 | stripping adds no character, so a stripped line of a text without line feeds has none |
| Text.Split | src/EntryStoreIO.java:54 | split("\n", -1) gives at least one piece and no piece holds the separator |
| Text.Join | src/EntryStoreIO.java:80 | joining one item gives the item |
| Text.SplitJoin | src/EntryStoreIO.java:54 | splitting undoes joining when no item holds the separator (also line 80) |
| Text.JoinSplit | src/EntryStoreIO.java:54 | joining undoes splitting (also line 80) |
| Utf8.EncodeChar | src/EntryStoreIO.java:82 | one to four bytes per scalar value, one exactly for ASCII |
| Utf8.Encode | src/EntryStoreIO.java:82 | getBytes(UTF_8) gives between one and four bytes per character |
| Utf8.DecodeFirst | src/EntryStoreIO.java:47-50 | each decoding step takes one to four bytes: a well-formed sequence gives its scalar value; the three bytes of an encoded surrogate give one U+FFFD, as the JDK decoder does; any other ill-formed part gives one U+FFFD for its longest prefix that could still begin a sequence (DecodeFirstOfEncoded, DecodeReplaces) |
| Utf8.Decode | src/EntryStoreIO.java:47-50 | decoding never fails and never gives more characters than bytes |
| Utf8.DecodeFirstOfEncoded | src/EntryStoreIO.java:47-50 | the bytes of a character, whatever follows them, decode first to that character and take exactly its bytes (also line 82) |
| Utf8.DecodeEncode | src/EntryStoreIO.java:47-50 | decoding inverts encoding for every string (also line 82) |
| Utf8.DecodeReplaces | src/EntryStoreIO.java:47-50 | ill-formed bytes become U+FFFD rather than an error: a lone continuation byte, a truncated sequence and a byte that starts none each give one; ED A0 80 gives one, ED A0 41 gives U+FFFD then A, and ED A0 at the end gives one (example) |
| Base64.EncodeDigit | src/EntryStoreIO.java:81-83 | digits are never the pad character |
| Base64.DecodeDigit | src/EntryStoreIO.java:48 | an alphabet character decodes to the value that encodes to it, any other to -1 |
| Base64.DecodeEncodeDigit | src/EntryStoreIO.java:48 | the alphabet round-trips (also lines 81-83) |
| Base64.EncodeTriple | src/EntryStoreIO.java:81-83 | three bytes give four alphabet characters |
| Base64.Encode | src/EntryStoreIO.java:81-83 | the padded encoding is 4·⌈n/3⌉ characters |
| Base64.Decode | src/EntryStoreIO.java:48 | the empty text decodes to no bytes |
| Base64.DecodeEncode | src/EntryStoreIO.java:48 | decoding inverts encoding for every byte sequence (also lines 81-83) |
| Base64.DecodeRejects | src/EntryStoreIO.java:48 | a lone character, leading padding, a single pad after two characters, text after the padding and a character outside the alphabet fail to decode (also lines 59-61) |
| Base64.DecodeLenientTrailingBits | src/EntryStoreIO.java:48 | unused low bits of the last character are ignored |
| Base64.DecodeLoop | src/EntryStoreIO.java:48 | decoding digit by digit with a 24-bit accumulator: the encoding of any bytes, read after any bytes already out, appends exactly those bytes (DecodeEncodeFrom); a lone digit, padding out of place, text after the padding or a foreign character fails (DecodeRejects) |
| Base64.Finish | src/EntryStoreIO.java:48 | the end of the input: no pending digit gives the bytes so far; two or three pending digits give one or two further bytes (TwoPadEnd, OnePadEnd); one pending digit, or any text after the padding, fails |
| EntryStoreIO.NonEmptyLists | src/EntryStoreIO.java:78 | the store without its empty lists, every other list kept |
| EntryStoreIO.FormatIsoInjective | src/EntryStoreIO.java:84 | no two dates share a key |
| EntryStoreIO.EncodeDatesKeys | src/EntryStoreIO.java:75-85 | the keys written for a set of dates are the ISO texts of those with entries |
| EntryStoreIO.EncodeDatesValue | src/EntryStoreIO.java:80-84 | the value written for a date is the Base64 of the UTF-8 of its entries joined by line feeds |
| EntryStoreIO.EncodeStore | src/EntryStoreIO.java:74-85 | exactly one property per date with a non-empty list, keyed by its ISO text, valued by its encoding |
| EntryStoreIO.EncodeDates | src/EntryStoreIO.java:75-85 | the properties written for a set of dates: keys of the dates with entries (EncodeDatesKeys) and their encoded values (EncodeDatesValue) |
| EntryStoreIO.EncodeEntries | src/EntryStoreIO.java:80-83 | the value of a date: the Base64 of the UTF-8 of its entries joined by line feeds, which DecodeEntries inverts for clean entries (DecodeEncodeEntries) |
| EntryStoreIO.Save | src/EntryStoreIO.java:74-85 | the loop over the entries fills exactly the properties EncodeStore describes |
| EntryStoreIO.CleanLines | src/EntryStoreIO.java:53-57 | no empty entry and never more entries than lines |
| EntryStoreIO.DecodeEntries | src/EntryStoreIO.java:47-57 | a blank value, invalid Base64 or blank text gives nothing; otherwise at least one clean entry (DecodeEntriesClean) |
| EntryStoreIO.DecodeKeys | src/EntryStoreIO.java:41-62 | the store loaded from a set of keys: exactly the dates of the keys that parse and decode (DecodeKeysKeys), each with its decoded entries (DecodeKeysValue) |
| EntryStoreIO.DecodeProperties | src/EntryStoreIO.java:41-62 | the store load builds from all properties: DecodeKeys over every key, with no empty list and only clean entries (LoadedStoreIsClean) |
| EntryStoreIO.ParseIsoInjective | src/EntryStoreIO.java:43 | two keys that parse to the same date are the same key |
| EntryStoreIO.DecodeKeysKeys | src/EntryStoreIO.java:41-62 | the dates loaded are exactly those of the keys that parse and whose values decode |
| EntryStoreIO.DecodeKeysValue | src/EntryStoreIO.java:53-58 | a decoding key's date gets its decoded entries |
| EntryStoreIO.CollectItems | src/EntryStoreIO.java:53-57 | the inner loop keeps the stripped non-empty lines in order |
| EntryStoreIO.LoadProperty | src/EntryStoreIO.java:42-61 | a property loads exactly when its key parses and its value is neither blank, invalid Base64 nor blank text, and then as its decoded lines |
| EntryStoreIO.LoadOrEmpty | src/EntryStoreIO.java:29-64 | a missing or unreadable file gives the empty store; otherwise every property that decodes, and no other |
| EntryStoreIO.DecodeKeysSkip | src/EntryStoreIO.java:59-61 | a property that does not decode adds nothing |
| EntryStoreIO.CleanLinesAreClean | src/EntryStoreIO.java:53-57 | the kept lines are stripped, non-empty and free of line feeds |
| EntryStoreIO.DecodeEntriesClean | src/EntryStoreIO.java:47-58 | a value that decodes gives at least one clean entry |
| EntryStoreIO.LoadedStoreIsClean | src/EntryStoreIO.java:58 | a loaded store never holds an empty list, and all its entries are clean |
| EntryStoreIO.CleanLinesOfClean | src/EntryStoreIO.java:53-57 | clean lines pass through unchanged |
| EntryStoreIO.DecodeEncodeEntries | src/EntryStoreIO.java:47-57 | a date's clean entries round-trip through join, UTF-8 and Base64 (also lines 80-83) |
| EntryStoreIO.LoadSaveKeeps | src/EntryStoreIO.java:40-58 | every date with clean entries is loaded back with the same entries (also lines 75-85) |
| EntryStoreIO.LoadSaveAddsNothing | src/EntryStoreIO.java:40-58 | only dates with entries are loaded back (also lines 75-85) |
| EntryStoreIO.LoadSaveKeepsAll | src/EntryStoreIO.java:40-58 | for a store of clean entries, every date with entries is loaded back with exactly its entries (also lines 75-85) |
| EntryStoreIO.LoadSaveAddsNothingAll | src/EntryStoreIO.java:40-58 | loading what save writes yields no date that had no entries (also lines 75-85) |
| EntryStoreIO.LoadSave | src/EntryStoreIO.java:40-58 | loading what save writes gives back the store without its empty lists, when all entries are clean (also lines 75-85) |
| EntryStoreIO.LoadSaveClean | src/EntryStoreIO.java:40-58 | for a clean store, loading what save writes gives exactly the store (also lines 75-85) |
| EntryStoreIO.LoadSaveLoad | src/EntryStoreIO.java:40-58 | saving what was loaded and loading it again gives the same store (also lines 75-85) |

## Left out

- Painting, fonts, images, sizes and layout (`paintComponent`, `getPreferredSize`, `revalidate`, `repaint`), gear rotation and the flip animation of the dials: these are rendering and floating point.
- The Swing timers (the 33 ms animation timer, `startLeverSequence`): the model says whether the board's timer runs, and one call of `Step` stands for one tick.
- Mouse and key wiring: the double-click `focusEdit`, focus requests, `selectAll`, the popup menu's display, the key bindings and the Enter action. The model keeps only what the handlers change in the model's state.
- `updateButtonsEnabled`: the enabled state of the edit and delete buttons is UI state, derived from `SelectedRef`.
- `askRepeatMode`, a modal dialog: it is the `mode` parameter of `AddEntryFromInput`.
- `setTitle`, `setVisible`, `toFront` in `showForDate`, and `windowClosing` running `onStoreChanged`: window management.
- `onStoreChanged` is the counter `storeChanges`, raised before the board refresh rather than after it; nothing in the model reads it.
- The lever's `getParent() != null` is the field `attached`. The `onLatchedBottom` callback is the returned `fired`, and a null callback is not told apart. `setLocation`'s x coordinate and `parent.repaint()` are left out.
- Lever.LeverControl.MouseDragged: `y + (eventY - grabOffsetY)` is computed on unbounded integers; Java's int overflow is not modelled.
- FlipNumber.FlipNumberDisplay.Add: `value + delta` is computed on unbounded integers; Java's int overflow is not modelled.
- Several day windows sharing one store (CalendarMachinePanel opens a new one each time): the window has the store as its own field, and aliasing between windows is not modelled.
- The file system in `EntryStoreIO`: the path under `user.home`, creating its directory, streams, and the escaping of the properties format. A file is `Missing`, `Unreadable` or a map from keys to values, and `Save` returns the properties it would write.
- `LocalDate.parse` and `toString` for years outside 0 to 9999: the model's dates have four-digit years, which covers every date the dials select.
- Text.Strip: one whitespace predicate, the ASCII part of `Character.isWhitespace` (tab, line feed, vertical tab, form feed, carriage return, U+001C to U+001F and the space), stands for both `trim()` and `strip()`. `trim()` also drops the other control characters up to U+0020, and `strip()` also drops the Unicode space separators; those differences are not modelled.
- SplitFlap.ToUpperOnWheel: `Character.toUpperCase` is modelled only for the characters whose upper case is on the wheel (a to z, ä, ö, ü, the dotless ı and the long ſ). Every other character keeps its case in the model. `normalize` turns all of those into a space, in Java as in the model, since none of their upper cases is on the wheel.
- Utf8.Decode: characters are Unicode scalar values; Java's UTF-16 surrogates and unpaired surrogates are not modelled. A character outside the Basic Multilingual Plane (an emoji, say) is one character here but two Java chars: in Java it counts twice toward lineWidth in wrapToLines, `substring` may split it between two rows, and it fills two cells of the board, each a surrogate that normalize turns into a space; in the model it counts once and fills one cell.
- `null` arguments (`text == null`, `stored == null`, `mode == null`, a null point, null keys or lists in the map): the model's values are never null, except that `ShowTextRattle` and `RowAtPoint` take an `Option`.
- The `animate` parameter of `updateFlapFromStore`: the source ignores it.
- Getters such as `getRows`, `getCols`, `getSelectedRow`, `getDisplay` and `defaultFilePath`: these read fields and compute nothing.
- SplitFlap.Remaining: the settle lemmas are stated on wheel distances; they say how many steps one cell needs, not how many timer ticks the whole board needs.
- SplitFlap.Prepare: its contract states only that no line breaks remain; the stripped ends follow from `Text.Strip`.
- SplitFlap.Normalize: the function checks CHARSET membership before upper-casing; `NormalizeIsUpperCase` proves this equal to the source's order.
- The constructors of `FlipNumberDisplay` and `SplitFlapDisplay` require `min <= max` and non-negative sizes; the calendar only constructs them that way.
