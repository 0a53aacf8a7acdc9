/**
 * The day window (DayEntriesWindow): the entries of one date on a six-row
 * split-flap board. The window lists the date's own entries followed by the
 * repeating entries of other dates whose rule applies to it, keeps the last
 * six of that list, and adds, edits, deletes and re-tags entries of the
 * shared store through the list's references.
 */
module DayEntries {
  import opened Wrappers
  import opened Text
  import opened Calendar
  import opened Recurrence
  import opened SplitFlap
  import opened Arith
  import EntryStoreIO

  /** The shared entry store: each date's stored texts in order. */
  type Store = EntryStoreIO.Store

  /** The number of rows the window shows, and so the most entries it lists. */
  const MaxShown: nat := 6

  /** The columns of the window's board. */
  const FlapCols: nat := 16

  /** EntryRef: the list and slot a listed entry lives in, and its stored text. */
  datatype EntryRef = EntryRef(originDate: LocalDate, originIndex: int, storedText: string)

  /** getOrDefault(date, List.of()): the date's list, or none. */
  function ListOf(store: Store, d: LocalDate): seq<string> {
    if d in store then store[d] else []
  }

  /** A reference to an existing slot of the store (the guard of edit, delete and re-tag). */
  predicate InRange(store: Store, r: EntryRef) {
    r.originDate in store && 0 <= r.originIndex < |store[r.originDate]|
  }

  /** A reference to an existing slot that holds the reference's text. */
  predicate RefValid(store: Store, r: EntryRef) {
    InRange(store, r) && store[r.originDate][r.originIndex] == r.storedText
  }

  /** Whether a stored text of `origin` shows on `date` as a repeater: it has a rule, and the rule applies. */
  predicate RepeatsOn(origin: LocalDate, stored: string, date: LocalDate) {
    var mode := DetectRepeatModeFromStored(stored);
    mode != NoRepeat && AppliesToDate(mode, origin, date)
  }

  /** An entry the window may list for `date`: a valid reference to a direct entry, or to a repeater from another date. */
  predicate IsCandidate(store: Store, date: LocalDate, r: EntryRef) {
    RefValid(store, r) && (r.originDate == date || RepeatsOn(r.originDate, r.storedText, date))
  }

  // ----- the visibility resolver -----

  /** The direct entries of `date`, in list order. */
  function DirectRefs(store: Store, date: LocalDate): seq<EntryRef> {
    var items := ListOf(store, date);
    seq(|items|, k requires 0 <= k < |items| => EntryRef(date, k, items[k]))
  }

  /** The repeaters among the first n entries of origin's list, in list order. */
  function Repeaters(origin: LocalDate, items: seq<string>, date: LocalDate, n: nat): seq<EntryRef>
    requires n <= |items|
  {
    if n == 0 then []
    else
      Repeaters(origin, items, date, n - 1)
      + (if RepeatsOn(origin, items[n - 1], date) then [EntryRef(origin, n - 1, items[n - 1])] else [])
  }

  /** The repeaters one store entry contributes: none from `date` itself. */
  function OriginRepeaters(store: Store, origin: LocalDate, date: LocalDate): seq<EntryRef> {
    if origin == date || origin !in store then []
    else Repeaters(origin, store[origin], date, |store[origin]|)
  }

  /** The repeaters of every date of `order`, date after date. */
  function RepeaterRefs(store: Store, order: seq<LocalDate>, date: LocalDate): seq<EntryRef> {
    if order == [] then []
    else RepeaterRefs(store, order[..|order| - 1], date) + OriginRepeaters(store, order[|order| - 1], date)
  }

  /** The list before it is cut to six: direct entries, then repeaters. */
  function Candidates(store: Store, order: seq<LocalDate>, date: LocalDate): seq<EntryRef> {
    DirectRefs(store, date) + RepeaterRefs(store, order, date)
  }

  /** The last n elements: the list is cut only at its front. */
  function LastN<T>(s: seq<T>, n: nat): (r: seq<T>)
    ensures |r| == Min(n, |s|)
    ensures r == s[|s| - |r|..]
  {
    if |s| > n then s[|s| - n..] else s
  }

  /** What rebuildLastShownForCurrentDate lists when the store's dates are visited in `order`. */
  function Resolved(store: Store, order: seq<LocalDate>, date: LocalDate): (r: seq<EntryRef>)
    ensures |r| == Min(MaxShown, |Candidates(store, order, date)|)
    ensures r == Candidates(store, order, date)[|Candidates(store, order, date)| - |r|..]
  {
    LastN(Candidates(store, order, date), MaxShown)
  }

  /** An iteration order of a key set: every key exactly once (HashMap leaves the order open). */
  predicate Enumerates(order: seq<LocalDate>, keys: set<LocalDate>) {
    (forall k | 0 <= k < |order| :: order[k] in keys)
    && (forall d | d in keys :: d in order)
    && (forall i, j | 0 <= i < j < |order| :: order[i] != order[j])
  }

  /** What the window lists: nothing without a date, otherwise the resolution under some iteration order. */
  ghost predicate IsResolution(store: Store, date: Option<LocalDate>, shown: seq<EntryRef>) {
    if date.None? then shown == []
    else exists order | Enumerates(order, store.Keys) :: shown == Resolved(store, order, date.value)
  }

  /** The direct entries are exactly the valid references into the date's own list. */
  lemma DirectMembers(store: Store, date: LocalDate, r: EntryRef)
    ensures r in DirectRefs(store, date) <==> r.originDate == date && RefValid(store, r)
  {
    var d := DirectRefs(store, date);
    if r.originDate == date && RefValid(store, r) {
      assert d[r.originIndex] == r;
    }
  }

  /** The repeaters of one list are exactly its slots below n whose text has a rule that applies. */
  lemma {:induction false} RepeatersMembers(origin: LocalDate, items: seq<string>, date: LocalDate, n: nat, r: EntryRef)
    requires n <= |items|
    ensures r in Repeaters(origin, items, date, n) <==>
      r.originDate == origin && 0 <= r.originIndex < n && items[r.originIndex] == r.storedText
      && RepeatsOn(origin, r.storedText, date)
  {
    if n > 0 {
      var last := EntryRef(origin, n - 1, items[n - 1]);
      var tail := if RepeatsOn(origin, items[n - 1], date) then [last] else [];
      RepeatersMembers(origin, items, date, n - 1, r);
      assert r in Repeaters(origin, items, date, n) <==> r in Repeaters(origin, items, date, n - 1) || r in tail;
      assert r in tail <==> r == last && RepeatsOn(origin, items[n - 1], date);
    }
  }

  /** A date's contribution is every repeater of its list, unless it is `date` itself or absent. */
  lemma OriginMembers(store: Store, origin: LocalDate, date: LocalDate, r: EntryRef)
    ensures r in OriginRepeaters(store, origin, date) <==>
      origin != date && r.originDate == origin && RefValid(store, r) && RepeatsOn(origin, r.storedText, date)
  {
    if origin != date && origin in store {
      RepeatersMembers(origin, store[origin], date, |store[origin]|, r);
    }
  }

  /**
   * The repeater part holds exactly the valid references, from dates of the
   * order other than `date`, whose text has a rule (not NONE) that applies.
   */
  lemma {:induction false} RepeaterRefsMembers(store: Store, order: seq<LocalDate>, date: LocalDate, r: EntryRef)
    ensures r in RepeaterRefs(store, order, date) <==>
      r.originDate in order && r.originDate != date && RefValid(store, r)
      && DetectRepeatModeFromStored(r.storedText) != NoRepeat && RepeatsOn(r.originDate, r.storedText, date)
  {
    if order != [] {
      var init := order[..|order| - 1];
      var last := order[|order| - 1];
      RepeaterRefsMembers(store, init, date, r);
      OriginMembers(store, last, date, r);
      assert order == init + [last];
      assert r.originDate in order <==> r.originDate in init || r.originDate == last;
    }
  }

  /**
   * Whatever the order in which the store's dates are visited, the list
   * before the cut holds exactly the candidates of the date.
   */
  lemma CandidatesMembers(store: Store, order: seq<LocalDate>, date: LocalDate, r: EntryRef)
    requires Enumerates(order, store.Keys)
    ensures r in Candidates(store, order, date) <==> IsCandidate(store, date, r)
  {
    DirectMembers(store, date, r);
    RepeaterRefsMembers(store, order, date, r);
  }

  /** Every listed reference points at an existing slot holding its text, for every order. */
  lemma ResolvedValid(store: Store, order: seq<LocalDate>, date: LocalDate)
    ensures forall k | 0 <= k < |Resolved(store, order, date)| :: RefValid(store, Resolved(store, order, date)[k])
  {
    var c := Candidates(store, order, date);
    var s := Resolved(store, order, date);
    forall k | 0 <= k < |s|
      ensures RefValid(store, s[k])
    {
      assert s[k] == c[|c| - |s| + k];
      DirectMembers(store, date, s[k]);
      RepeaterRefsMembers(store, order, date, s[k]);
    }
  }

  /** Before the cut, the entries of the date itself are exactly the first |DirectRefs| ones. */
  lemma CandidatesOrigins(store: Store, order: seq<LocalDate>, date: LocalDate)
    ensures var c := Candidates(store, order, date);
            forall k | 0 <= k < |c| :: c[k].originDate == date <==> k < |DirectRefs(store, date)|
  {
    var d := DirectRefs(store, date);
    var rr := RepeaterRefs(store, order, date);
    var c := Candidates(store, order, date);
    forall k | 0 <= k < |c|
      ensures c[k].originDate == date <==> k < |d|
    {
      if k >= |d| {
        assert c[k] == rr[k - |d|];
        RepeaterRefsMembers(store, order, date, rr[k - |d|]);
      }
    }
  }

  /** Direct entries come first: a listed entry of the date itself is preceded only by entries of the date. */
  lemma DirectBeforeRepeaters(store: Store, order: seq<LocalDate>, date: LocalDate)
    ensures var s := Resolved(store, order, date);
            forall i, j | 0 <= i < j < |s| && s[j].originDate == date :: s[i].originDate == date
  {
    CandidatesOrigins(store, order, date);
    CutKeepsDirectFirst(Candidates(store, order, date), date, |DirectRefs(store, date)|, MaxShown);
  }

  /** A list whose entries of `date` are exactly its first n keeps them in front when it is cut to its last m. */
  lemma CutKeepsDirectFirst(c: seq<EntryRef>, date: LocalDate, n: nat, m: nat)
    requires forall k | 0 <= k < |c| :: c[k].originDate == date <==> k < n
    ensures var s := LastN(c, m);
            forall i, j | 0 <= i < j < |s| && s[j].originDate == date :: s[i].originDate == date
  {
    var s := LastN(c, m);
    forall i, j | 0 <= i < j < |s| && s[j].originDate == date
      ensures s[i].originDate == date
    {
      var off := |c| - |s|;
      assert s[i] == c[off + i] && s[j] == c[off + j];
    }
  }

  /** Six or more repeaters crowd every direct entry out of the list. */
  lemma RepeatersCrowdOut(store: Store, order: seq<LocalDate>, date: LocalDate)
    requires |RepeaterRefs(store, order, date)| >= MaxShown
    ensures Resolved(store, order, date) == RepeaterRefs(store, order, date)[|RepeaterRefs(store, order, date)| - MaxShown..]
    ensures forall k | 0 <= k < |Resolved(store, order, date)| :: Resolved(store, order, date)[k].originDate != date
  {
    var d := DirectRefs(store, date);
    var rr := RepeaterRefs(store, order, date);
    var c := Candidates(store, order, date);
    var s := Resolved(store, order, date);
    CutOfLongTail(d, rr, MaxShown);
    forall k | 0 <= k < |s|
      ensures s[k].originDate != date
    {
      assert s[k] == rr[|rr| - MaxShown + k];
      RepeaterRefsMembers(store, order, date, s[k]);
    }
  }

  /**
   * Every listed entry of another date is there by its rule: it is tagged,
   * and its rule applies to the date, YEARLY on the same month and day,
   * MONTHLY on the same day of the month, WEEKDAYS on Monday to Friday.
   */
  lemma ResolvedRepeatersApply(store: Store, order: seq<LocalDate>, date: LocalDate, k: int)
    requires 0 <= k < |Resolved(store, order, date)|
    requires Resolved(store, order, date)[k].originDate != date
    ensures var r := Resolved(store, order, date)[k];
            var m := DetectRepeatModeFromStored(r.storedText);
            && m != NoRepeat && AppliesToDate(m, r.originDate, date)
            && (m == Yearly ==> r.originDate.month == date.month && r.originDate.day == date.day)
            && (m == Monthly ==> r.originDate.day == date.day)
            && (m == Weekdays ==> !IsWeekend(date))
  {
    var d := DirectRefs(store, date);
    var rr := RepeaterRefs(store, order, date);
    var c := d + rr;
    var s := Resolved(store, order, date);
    var i := |c| - |s| + k;
    assert s[k] == c[i];
    if i >= |d| {
      assert c[i] == rr[i - |d|];
      RepeaterRefsMembers(store, order, date, s[k]);
    }
  }

  /** Cutting a list to its last n elements keeps only its tail when the tail is at least n long. */
  lemma CutOfLongTail<T>(d: seq<T>, rr: seq<T>, n: nat)
    requires |rr| >= n
    ensures LastN(d + rr, n) == rr[|rr| - n..]
  {
    var c := d + rr;
    assert c[|c| - n..] == rr[|rr| - n..];
  }

  /**
   * After an add, the list is not empty, and the row the add selects (the
   * last one) holds the new entry exactly when no repeater applies to the
   * date: otherwise a repeater is listed after it.
   */
  lemma AddSelectsLastRow(store: Store, order: seq<LocalDate>, date: LocalDate, stored: string)
    ensures var s := Resolved(Appended(store, date, stored), order, date);
            var added := EntryRef(date, |ListOf(store, date)|, stored);
            s != [] && (s[Min(MaxShown - 1, |s| - 1)] == added <==> RepeaterRefs(Appended(store, date, stored), order, date) == [])
  {
    var st := Appended(store, date, stored);
    var d := DirectRefs(st, date);
    var rr := RepeaterRefs(st, order, date);
    var s := Resolved(st, order, date);
    var added := EntryRef(date, |ListOf(store, date)|, stored);
    assert |d| >= 1 && d[|d| - 1] == added;
    LastAfterCut(d, rr, MaxShown);
    assert Min(MaxShown - 1, |s| - 1) == |s| - 1;
    if rr != [] {
      var last := rr[|rr| - 1];
      assert last in rr;
      RepeaterRefsMembers(st, order, date, last);
    }
  }

  /** Cutting a list to its last n >= 1 elements keeps its last element. */
  lemma LastAfterCut<T>(d: seq<T>, rr: seq<T>, n: nat)
    requires d != [] && n >= 1
    ensures var s := LastN(d + rr, n);
            s != [] && s[|s| - 1] == if rr == [] then d[|d| - 1] else rr[|rr| - 1]
  {
    var c := d + rr;
    var s := LastN(c, n);
    assert s[|s| - 1] == c[|c| - 1];
  }

  // ----- the board text -----

  /** The six texts updateFlapFromStore puts on the board: each listed entry without its tag, then empty texts. */
  function DisplayPieces(shown: seq<EntryRef>): seq<string> {
    seq(MaxShown, i requires 0 <= i < MaxShown => if i < |shown| then DisplayText(shown[i].storedText) else "")
  }

  /** The text updateFlapFromStore hands to showTextRattle: the six texts, one per line. */
  function FlapText(shown: seq<EntryRef>): string {
    Join(DisplayPieces(shown), '\n')
  }

  /** The StringBuilder loop of updateFlapFromStore. */
  method BuildFlapText(shown: seq<EntryRef>) returns (text: string)
    ensures text == FlapText(shown)
  {
    ghost var pieces := DisplayPieces(shown);
    text := "";
    for i := 0 to MaxShown
      invariant i > 0 ==> text == Join(pieces[..i], '\n')
      invariant i == 0 ==> text == ""
    {
      var piece := "";
      if i < |shown| {
        piece := StripRepeatPrefixForDisplay(shown[i].storedText);
      }
      assert piece == pieces[i];
      JoinNextPiece(pieces, i, text);
      if i > 0 {
        text := text + "\n";
      }
      text := text + piece;
    }
    assert pieces[..MaxShown] == pieces;
  }

  /** One round of that loop: a line feed after the first piece, then the next piece. */
  lemma JoinNextPiece(pieces: seq<string>, i: nat, text: string)
    requires i < |pieces|
    requires i > 0 ==> text == Join(pieces[..i], '\n')
    requires i == 0 ==> text == ""
    ensures (if i > 0 then text + "\n" else text) + pieces[i] == Join(pieces[..i + 1], '\n')
  {
    if i > 0 {
      JoinSnoc(pieces[..i], pieces[i], '\n');
      assert pieces[..i + 1] == pieces[..i] + [pieces[i]];
    } else {
      assert pieces[..1] == [pieces[i]];
    }
  }

  /** A display text holds no character its stored text lacks. */
  lemma DisplayTextKeepsAbsent(stored: string, ch: char)
    requires ch !in stored
    ensures ch !in DisplayText(stored)
  {
    var m := DetectRepeatModeFromStored(stored);
    if m != NoRepeat {
      var l := StripLeading(stored);
      StripLeadingKeepsAbsent(stored, ch);
      var t := l[|Prefix(m)|..];
      assert forall k | 0 <= k < |t| :: t[k] == l[|Prefix(m)| + k];
      StripLeadingKeepsAbsent(t, ch);
    }
  }

  /** Without line breaks in the pieces, flattening a line-per-piece text joins the pieces with spaces. */
  lemma {:induction false} FlattenJoin(items: seq<string>)
    requires forall k | 0 <= k < |items| :: '\n' !in items[k] && '\r' !in items[k]
    ensures Flatten(Join(items, '\n')) == Join(items, ' ')
  {
    if |items| == 1 {
      assert Flatten(items[0]) == items[0];
    } else if |items| > 1 {
      var rest := Join(items[1..], '\n');
      FlattenJoin(items[1..]);
      var a := Join(items, '\n');
      var b := Join(items, ' ');
      var n := |items[0]|;
      assert a == items[0] + ['\n'] + rest;
      assert b == items[0] + [' '] + Join(items[1..], ' ');
      assert |a| == |b|;
      forall i | 0 <= i < |a|
        ensures Flatten(a)[i] == b[i]
      {
        if i > n {
          assert a[i] == rest[i - n - 1];
          assert b[i] == Flatten(rest)[i - n - 1];
        }
      }
    }
  }

  /**
   * The board does not keep one entry per row: showTextRattle turns the
   * line breaks between the six texts into spaces, so the board shows the
   * texts as one running text, wrapped to its width.
   */
  lemma BoardShowsRunningText(shown: seq<EntryRef>)
    requires forall k | 0 <= k < |shown| :: '\n' !in shown[k].storedText && '\r' !in shown[k].storedText
    ensures Prepare(FlapText(shown)) == Strip(Join(DisplayPieces(shown), ' '))
  {
    var pieces := DisplayPieces(shown);
    forall k | 0 <= k < |pieces|
      ensures '\n' !in pieces[k] && '\r' !in pieces[k]
    {
      if k < |shown| {
        DisplayTextKeepsAbsent(shown[k].storedText, '\n');
        DisplayTextKeepsAbsent(shown[k].storedText, '\r');
      }
    }
    FlattenJoin(pieces);
  }

  /**
   * Two short entries "A" and "B" share the top row of the board, while the
   * second row, which selects "B" when clicked, stays blank.
   */
  lemma RowsAreNotEntries(d: LocalDate)
    ensures var shown := [EntryRef(d, 0, "A"), EntryRef(d, 1, "B")];
            WrapLines(FlapText(shown), MaxShown, FlapCols) == ["A B"]
            && CellText(WrapLines(FlapText(shown), MaxShown, FlapCols), 1, 0) == ' '
            && DisplayText(shown[1].storedText) == "B"
  {
    var shown := [EntryRef(d, 0, "A"), EntryRef(d, 1, "B")];
    var text := FlapText(shown);
    assert Prepare(text) == "A B" by {
      TwoEntriesPieces(d);
      BoardShowsRunningText(shown);
      TwoEntriesRunningText();
    }
    WrapShortText(text, MaxShown, FlapCols);
    assert WrapLines(text, MaxShown, FlapCols) == ["A B"];
  }

  /** The six texts of the two entries "A" and "B". */
  lemma TwoEntriesPieces(d: LocalDate)
    ensures DisplayPieces([EntryRef(d, 0, "A"), EntryRef(d, 1, "B")]) == ["A", "B", "", "", "", ""]
  {
    assert DisplayText("A") == "A";
    assert DisplayText("B") == "B";
  }

  /** Joined with spaces and stripped, the six texts of "A" and "B" are "A B". */
  lemma TwoEntriesRunningText()
    ensures Strip(Join(["A", "B", "", "", "", ""], ' ')) == "A B"
  {
    var j := "A B    ";
    TwoEntriesJoined();
    assert StripLeading(j) == j;
    assert TrimEnd(j, 7) == 3 by {
      assert TrimEnd(j, 7) == TrimEnd(j, 6) == TrimEnd(j, 5) == TrimEnd(j, 4) == TrimEnd(j, 3);
    }
    assert j[..3] == "A B";
  }

  /** The six texts of "A" and "B", joined with spaces. */
  lemma TwoEntriesJoined()
    ensures Join(["A", "B", "", "", "", ""], ' ') == "A B    "
  {
    var p: seq<string> := ["A", "B", "", "", "", ""];
    assert p[1..] == ["B", "", "", "", ""];
    assert p[1..][1..] == ["", "", "", ""];
    assert Join(["", "", "", ""], ' ') == "   " by {
      var q: seq<string> := ["", "", "", ""];
      assert q[1..] == ["", "", ""] && q[1..][1..] == ["", ""] && q[1..][1..][1..] == [""];
    }
  }

  // ----- the store edits -----

  /** No date maps to an empty list, as in a loaded store. */
  predicate NoEmptyLists(store: Store) {
    forall d | d in store :: store[d] != []
  }

  /** computeIfAbsent(date, new ArrayList).add(stored): the text goes at the end of the date's list, created if needed. */
  function Appended(store: Store, date: LocalDate, stored: string): (s: Store)
    ensures s.Keys == store.Keys + {date}
    ensures s[date] == ListOf(store, date) + [stored]
    ensures s - {date} == store - {date}
    ensures NoEmptyLists(store) ==> NoEmptyLists(s)
  {
    store[date := ListOf(store, date) + [stored]]
  }

  /** items.set(index, stored): one slot replaced, the length and every other slot and date kept. */
  function Replaced(store: Store, date: LocalDate, index: int, stored: string): (s: Store)
    requires date in store && 0 <= index < |store[date]|
    ensures s.Keys == store.Keys && |s[date]| == |store[date]| && s[date][index] == stored
    ensures forall k | 0 <= k < |store[date]| && k != index :: s[date][k] == store[date][k]
    ensures s - {date} == store - {date}
    ensures NoEmptyLists(store) ==> NoEmptyLists(s)
  {
    store[date := store[date][index := stored]]
  }

  /**
   * items.remove(index), then entryStore.remove(date) when the list is left
   * empty: one slot fewer, and the date gone exactly when it held one entry.
   */
  function Removed(store: Store, date: LocalDate, index: int): (s: Store)
    requires date in store && 0 <= index < |store[date]|
    ensures date in s <==> |store[date]| > 1
    ensures date in s ==> s[date] == store[date][..index] + store[date][index + 1..]
    ensures s - {date} == store - {date}
    ensures NoEmptyLists(store) ==> NoEmptyLists(s)
  {
    var items := store[date][..index] + store[date][index + 1..];
    if items == [] then store - {date} else store[date := items]
  }

  /** Deleting the entry just added gives the store back, when the date had no empty list. */
  lemma RemoveUndoesAppend(store: Store, date: LocalDate, stored: string)
    requires date in store ==> store[date] != []
    ensures Removed(Appended(store, date, stored), date, |ListOf(store, date)|) == store
  {
    var after := Appended(store, date, stored);
    var back := Removed(after, date, |ListOf(store, date)|);
    var n := |ListOf(store, date)|;
    assert after[date][..n] + after[date][n + 1..] == ListOf(store, date);
    if date in store {
      assert back == after[date := store[date]];
    } else {
      assert back == after - {date};
    }
    assert back.Keys == store.Keys;
    assert forall d | d in store :: back[d] == store[d];
  }

  /** Putting the old text back undoes a replacement. */
  lemma ReplaceUndoesReplace(store: Store, date: LocalDate, index: int, stored: string)
    requires date in store && 0 <= index < |store[date]|
    ensures Replaced(Replaced(store, date, index, stored), date, index, store[date][index]) == store
  {
    var back := Replaced(Replaced(store, date, index, stored), date, index, store[date][index]);
    assert back[date] == store[date];
  }

  /**
   * Editing a tagged entry keeps its rule and shows the new text; an entry
   * without a rule gets only the trimmed new text.
   */
  lemma EditKeepsRule(stored: string, newText: string)
    requires Strip(newText) != []
    ensures var m := DetectRepeatModeFromStored(stored);
            var e := ApplyRepeatPrefixForStorage(Strip(newText), m);
            (m != NoRepeat ==> DetectRepeatModeFromStored(e) == m && DisplayText(e) == Strip(newText))
            && (m == NoRepeat ==> e == Strip(newText))
  {
    var m := DetectRepeatModeFromStored(stored);
    StripIdempotent(newText);
    if m != NoRepeat {
      TagRoundTrip(Strip(newText), m);
    }
  }

  /** Re-tagging with a rule makes the entry's detected rule the new one, as long as its text is not blank. */
  lemma RetagSetsRule(stored: string, newMode: RepeatMode)
    requires newMode != NoRepeat && Strip(DisplayText(stored)) != []
    ensures DetectRepeatModeFromStored(ApplyRepeatPrefixForStorage(DisplayText(stored), newMode)) == newMode
  {
    TagRoundTrip(DisplayText(stored), newMode);
  }

  // ----- the window -----

  /** The board is up to date: the list is the resolver's for the store and date, and the board shows its six texts. */
  ghost predicate OnBoard(store: Store, date: Option<LocalDate>, shown: seq<EntryRef>, target: array2<char>)
    reads target
  {
    IsResolution(store, date, shown) && |shown| <= MaxShown && Shows(target, FlapText(shown))
  }

  /** The direct loop of rebuildLastShownForCurrentDate: one reference per entry of the date's list. */
  method CollectDirect(store: Store, date: LocalDate) returns (shown: seq<EntryRef>)
    ensures shown == DirectRefs(store, date)
  {
    var direct := ListOf(store, date);
    shown := [];
    for i := 0 to |direct|
      invariant |shown| == i
      invariant forall k | 0 <= k < i :: shown[k] == EntryRef(date, k, direct[k])
    {
      shown := shown + [EntryRef(date, i, direct[i])];
    }
  }

  /** The inner loop over one origin's list: its repeaters that apply to `date`, appended in list order. */
  method CollectRepeaters(shown: seq<EntryRef>, origin: LocalDate, items: seq<string>, date: LocalDate)
    returns (r: seq<EntryRef>)
    ensures r == shown + Repeaters(origin, items, date, |items|)
  {
    r := shown;
    for i := 0 to |items|
      invariant r == shown + Repeaters(origin, items, date, i)
    {
      var found := RepeaterAt(origin, i, items[i], date);
      r := r + found;
    }
  }

  /** One step of that loop: the slot's reference when its text carries a rule that applies to `date`, else nothing. */
  method RepeaterAt(origin: LocalDate, i: int, stored: string, date: LocalDate) returns (found: seq<EntryRef>)
    ensures found == (if RepeatsOn(origin, stored, date) then [EntryRef(origin, i, stored)] else [])
  {
    found := [];
    var mode := DetectRepeatModeFromStored(stored);
    if mode != NoRepeat {
      if AppliesToDate(mode, origin, date) {
        found := [EntryRef(origin, i, stored)];
      }
    }
  }

  /** Visiting one more date appends its repeaters to what the earlier dates gave. */
  lemma RepeaterRefsSnoc(store: Store, shown: seq<EntryRef>, before: seq<EntryRef>, r: seq<EntryRef>,
                         order: seq<LocalDate>, origin: LocalDate, date: LocalDate)
    requires before == shown + RepeaterRefs(store, order, date)
    requires r == before + OriginRepeaters(store, origin, date)
    ensures r == shown + RepeaterRefs(store, order + [origin], date)
  {
    var o := order + [origin];
    assert o[..|o| - 1] == order && o[|o| - 1] == origin;
    var rr := RepeaterRefs(store, order, date);
    var or := OriginRepeaters(store, origin, date);
    assert RepeaterRefs(store, o, date) == rr + or;
    assert (shown + rr) + or == shown + (rr + or);
  }

  /**
   * The loop over the store's entries: each other date's repeaters, appended
   * date after date in an order the loop picks; `order` records it.
   */
  method CollectAllRepeaters(store: Store, date: LocalDate, shown: seq<EntryRef>)
    returns (r: seq<EntryRef>, ghost order: seq<LocalDate>)
    ensures Enumerates(order, store.Keys)
    ensures r == shown + RepeaterRefs(store, order, date)
  {
    r := shown;
    order := [];
    var rest := store.Keys;
    while rest != {}
      invariant forall d :: d in store.Keys <==> d in rest || d in order
      invariant forall k | 0 <= k < |order| :: order[k] !in rest
      invariant forall i, j | 0 <= i < j < |order| :: order[i] != order[j]
      invariant r == shown + RepeaterRefs(store, order, date)
      decreases |rest|
    {
      var origin :| origin in rest;
      var before := r;
      if origin != date {
        r := CollectRepeaters(r, origin, store[origin], date);
      }
      assert r == before + OriginRepeaters(store, origin, date);
      RepeaterRefsSnoc(store, shown, before, r, order, origin, date);
      VisitStep(store.Keys, rest, order, origin);
      order := order + [origin];
      rest := rest - {origin};
    }
  }

  /** Moving one date from the unvisited set to the end of the order keeps each key visited or pending, exactly once. */
  lemma VisitStep(keys: set<LocalDate>, rest: set<LocalDate>, order: seq<LocalDate>, origin: LocalDate)
    requires origin in rest
    requires forall d :: d in keys <==> d in rest || d in order
    requires forall k | 0 <= k < |order| :: order[k] !in rest
    requires forall i, j | 0 <= i < j < |order| :: order[i] != order[j]
    ensures var o := order + [origin];
            (forall d :: d in keys <==> d in rest - {origin} || d in o)
            && (forall k | 0 <= k < |o| :: o[k] !in rest - {origin})
            && (forall i, j | 0 <= i < j < |o| :: o[i] != o[j])
  {
    var o := order + [origin];
    forall i, j | 0 <= i < j < |o|
      ensures o[i] != o[j]
    {
      if j == |order| {
        assert o[i] == order[i] && order[i] !in rest;
      }
    }
  }

  /**
   * DayEntriesWindow: the shared store, the date shown, the listed
   * references (row i of the list is lastShown[i]), the selection, the input
   * field's text and the board.
   */
  class DayEntriesWindow {
    /** entryStore, changed in place. */
    var store: Store
    var currentDate: Option<LocalDate>
    var lastShown: seq<EntryRef>
    var selectedRow: int
    var selectedOriginalText: string
    /** The text of the input field. */
    var input: string
    /** How many times onStoreChanged has run. */
    var storeChanges: nat
    /** The board: six rows of sixteen wheels. */
    const flap: SplitFlapDisplay

    /** The board's invariant, with the size and the timing the window gives it. */
    predicate Valid()
      reads flap, flap.current, flap.target
    {
      flap.Valid() && flap.rows == MaxShown && flap.cols == FlapCols
      && flap.ticksPerChar == 3 && flap.rowStaggerTicks == 3 && flap.maxAdvancesPerTick == 10
      && flap.cellW == 26 && flap.cellH == 32
    }

    /** getSelectedRef: the reference of the selected row, or none when no listed row is selected. */
    function SelectedRef(): (r: Option<EntryRef>)
      reads this`selectedRow, this`lastShown
      ensures r.Some? <==> 0 <= selectedRow < |lastShown|
      ensures r.Some? ==> r.value == lastShown[selectedRow]
    {
      if selectedRow < 0 || selectedRow >= |lastShown| then None else Some(lastShown[selectedRow])
    }

    /** The text selectRow shows in the input field: the selected entry without its tag, or nothing. */
    function SelectedText(): string
      reads this`selectedRow, this`lastShown
    {
      match SelectedRef()
      case None => ""
      case Some(ref) => DisplayText(ref.storedText)
    }

    /**
     * While the list is what the resolver gives, a selected reference points
     * at an existing slot holding its text, so the guards of edit, delete and
     * re-tag against a missing list or an index out of range never fire.
     */
    lemma SelectedRefInStore()
      requires IsResolution(store, currentDate, lastShown)
      ensures SelectedRef().Some? ==> RefValid(store, SelectedRef().value) && InRange(store, SelectedRef().value)
    {
      if SelectedRef().Some? {
        var order :| Enumerates(order, store.Keys) && lastShown == Resolved(store, order, currentDate.value);
        ResolvedValid(store, order, currentDate.value);
      }
    }

    /** updateRepeatMenuChecks: the menu is enabled exactly with a selection, and the checked rule is the tag the selected text starts with, or NONE. */
    function RepeatMenuState(): (r: (bool, RepeatMode))
      reads this`selectedRow, this`lastShown
      ensures r.0 <==> SelectedRef().Some?
      ensures r.1 != NoRepeat ==> r.0 && StartsWith(StripLeading(SelectedRef().value.storedText), Prefix(r.1))
      ensures !r.0 ==> r.1 == NoRepeat
      ensures r.0 ==> (r.1 == NoRepeat <==>
                forall k: RepeatMode :: k != NoRepeat ==> !StartsWith(StripLeading(SelectedRef().value.storedText), Prefix(k)))
      ensures r.0 ==> forall k: RepeatMode :: k != NoRepeat ==>
                (r.1 == k <==> StartsWith(StripLeading(SelectedRef().value.storedText), Prefix(k)))
    {
      match SelectedRef()
      case None => (false, NoRepeat)
      case Some(ref) =>
        DetectNoneIffUntagged(ref.storedText);
        DetectIffTag(ref.storedText, Yearly);
        DetectIffTag(ref.storedText, Weekdays);
        DetectIffTag(ref.storedText, Monthly);
        (true, DetectRepeatModeFromStored(ref.storedText))
    }

    /**
     * The constructor: no date, nothing listed or selected, and a blank
     * six-by-sixteen board set to three ticks per character and per row,
     * ten turns per tick and 26-by-32 pixel cells.
     */
    constructor(entryStore: Store)
      ensures Valid() && IsResolution(store, currentDate, lastShown)
      ensures store == entryStore && currentDate.None? && lastShown == [] && selectedRow == -1
      ensures selectedOriginalText == "" && input == "" && storeChanges == 0
      ensures fresh(flap) && fresh(flap.current) && fresh(flap.target)
      ensures flap.selectedRow == -1 && !flap.running
    {
      var f := new SplitFlapDisplay(MaxShown, FlapCols);
      f.SetTiming(3, 3);
      f.SetMaxAdvancesPerTick(10);
      f.SetCellSize(26, 32);
      store := entryStore;
      currentDate := None;
      lastShown := [];
      selectedRow := -1;
      selectedOriginalText := "";
      input := "";
      storeChanges := 0;
      flap := f;
    }

    /** selectRow: the row is selected here and on the board, and its entry's text (or nothing) fills the input field. */
    method SelectRow(row: int)
      requires Valid()
      modifies this, flap
      ensures Valid()
      ensures selectedRow == row && flap.selectedRow == (if 0 <= row < MaxShown then row else -1)
      ensures selectedOriginalText == SelectedText() && input == SelectedText()
      ensures store == old(store) && currentDate == old(currentDate) && lastShown == old(lastShown)
      ensures storeChanges == old(storeChanges) && flap.running == old(flap.running) && flap.tick == old(flap.tick)
    {
      selectedRow := row;
      flap.SetSelectedRow(row);
      var ref := SelectedRef();
      var display := "";
      if ref.Some? {
        display := StripRepeatPrefixForDisplay(ref.value.storedText);
      }
      selectedOriginalText := display;
      input := display;
    }

    /** handleFlapMouse: a press or release on a row selects it; elsewhere nothing happens. */
    method HandleFlapMouse(p: Option<Point>)
      requires Valid()
      modifies this, flap
      ensures Valid()
      ensures old(flap.RowAtPoint(p)) < 0 ==> unchanged(this) && unchanged(flap)
      ensures old(flap.RowAtPoint(p)) >= 0 ==>
        selectedRow == old(flap.RowAtPoint(p)) && flap.selectedRow == selectedRow
        && selectedOriginalText == SelectedText() && input == SelectedText()
      ensures store == old(store) && currentDate == old(currentDate) && lastShown == old(lastShown)
      ensures storeChanges == old(storeChanges)
    {
      var row := flap.RowAtPoint(p);
      if row >= 0 {
        SelectRow(row);
      }
    }

    /**
     * rebuildLastShownForCurrentDate: the list the resolver gives for the
     * current date, with the store's dates visited in an order left open.
     */
    method RebuildLastShown()
      modifies this
      ensures IsResolution(store, currentDate, lastShown) && |lastShown| <= MaxShown
      ensures store == old(store) && currentDate == old(currentDate) && selectedRow == old(selectedRow)
      ensures selectedOriginalText == old(selectedOriginalText) && input == old(input) && storeChanges == old(storeChanges)
    {
      if currentDate.Some? {
        var date := currentDate.value;
        var direct := CollectDirect(store, date);
        var shown, order := CollectAllRepeaters(store, date, direct);
        if |shown| > MaxShown {
          shown := shown[|shown| - MaxShown..];
        }
        lastShown := shown;
        assert Enumerates(order, store.Keys) && lastShown == Resolved(store, order, currentDate.value);
      } else {
        lastShown := [];
      }
    }

    /**
     * updateFlapFromStore: the list rebuilt, its six texts on the board, and
     * the selection dropped when its row is no longer listed.
     */
    method UpdateFlapFromStore()
      requires Valid()
      modifies this, flap, flap.target
      ensures Valid() && OnBoard(store, currentDate, lastShown, flap.target) && unchanged(flap.current)
      ensures store == old(store) && currentDate == old(currentDate) && input == old(input) && storeChanges == old(storeChanges)
      ensures selectedRow == (if old(selectedRow) < |lastShown| then old(selectedRow) else -1)
      ensures selectedOriginalText == (if old(selectedRow) < |lastShown| then old(selectedOriginalText) else "")
      ensures flap.selectedRow == (if old(selectedRow) < |lastShown| then old(flap.selectedRow) else -1)
    {
      RebuildLastShown();
      var text := BuildFlapText(lastShown);
      flap.ShowTextRattle(Some(text));
      DropStaleSelection();
    }

    /** The end of updateFlapFromStore: a selection whose row is no longer listed is dropped. */
    method DropStaleSelection()
      requires Valid()
      modifies this, flap
      ensures Valid()
      ensures store == old(store) && currentDate == old(currentDate) && lastShown == old(lastShown)
      ensures input == old(input) && storeChanges == old(storeChanges)
      ensures selectedRow == (if old(selectedRow) < |lastShown| then old(selectedRow) else -1)
      ensures selectedOriginalText == (if old(selectedRow) < |lastShown| then old(selectedOriginalText) else "")
      ensures flap.selectedRow == (if old(selectedRow) < |lastShown| then old(flap.selectedRow) else -1)
    {
      if selectedRow >= |lastShown| {
        selectedRow := -1;
        selectedOriginalText := "";
        flap.SetSelectedRow(-1);
      }
    }

    /** showForDate: the date's list on the board, with nothing selected and the input field empty. */
    method ShowForDate(selected: LocalDate)
      requires Valid()
      modifies this, flap, flap.target
      ensures Valid() && OnBoard(store, currentDate, lastShown, flap.target) && unchanged(flap.current)
      ensures currentDate == Some(selected) && store == old(store) && storeChanges == old(storeChanges)
      ensures selectedRow == -1 && selectedOriginalText == "" && input == "" && flap.selectedRow == -1
    {
      currentDate := Some(selected);
      selectedRow := -1;
      selectedOriginalText := "";
      flap.SetSelectedRow(-1);
      input := "";
      UpdateFlapFromStore();
    }

    /**
     * addEntryFromInput, with the rule the dialog would ask for as `mode`:
     * nothing without a date or with a blank input; otherwise the trimmed,
     * tagged text is appended to the date's list (AppendEntry).
     */
    method AddEntryFromInput(mode: RepeatMode)
      requires Valid()
      modifies this, flap, flap.target
      ensures Valid()
      ensures old(currentDate).None? || Strip(old(input)) == [] ==>
        unchanged(this) && unchanged(flap) && unchanged(flap.target)
      ensures old(currentDate).Some? && Strip(old(input)) != [] ==>
        store == Appended(old(store), old(currentDate).value, ApplyRepeatPrefixForStorage(Strip(old(input)), mode))
        && currentDate == old(currentDate) && storeChanges == old(storeChanges) + 1
        && OnBoard(store, currentDate, lastShown, flap.target) && unchanged(flap.current)
        && (lastShown == [] ==> input == "")
        && (lastShown != [] ==>
              selectedRow == |lastShown| - 1 && flap.selectedRow == selectedRow
              && input == SelectedText() && selectedOriginalText == SelectedText())
    {
      if currentDate.None? {
        return;
      }
      var text := Strip(input);
      if text == [] {
        return;
      }
      var stored := ApplyRepeatPrefixForStorage(text, mode);
      AppendEntry(stored);
    }

    /**
     * The rest of addEntryFromInput: the text appended to the date's list, the
     * input field emptied, the board updated, the last listed row selected
     * and the store reported changed.
     */
    method AppendEntry(stored: string)
      requires Valid() && currentDate.Some?
      modifies this, flap, flap.target
      ensures Valid() && OnBoard(store, currentDate, lastShown, flap.target) && unchanged(flap.current)
      ensures store == Appended(old(store), old(currentDate).value, stored)
      ensures currentDate == old(currentDate) && storeChanges == old(storeChanges) + 1
      ensures lastShown == [] ==> input == ""
      ensures lastShown != [] ==>
        selectedRow == |lastShown| - 1 && flap.selectedRow == selectedRow
        && input == SelectedText() && selectedOriginalText == SelectedText()
    {
      store := Appended(store, currentDate.value, stored);
      input := "";
      storeChanges := storeChanges + 1;
      UpdateFlapFromStore();
      SelectLastRow();
    }

    /** The end of addEntryFromInput: the last row of the board selected, when the list is not empty. */
    method SelectLastRow()
      requires Valid()
      modifies this, flap
      ensures Valid()
      ensures store == old(store) && currentDate == old(currentDate) && lastShown == old(lastShown) && storeChanges == old(storeChanges)
      ensures lastShown == [] ==> unchanged(this) && unchanged(flap)
      ensures lastShown != [] ==>
        selectedRow == Min(MaxShown - 1, |lastShown| - 1) && flap.selectedRow == selectedRow
        && input == SelectedText() && selectedOriginalText == SelectedText()
    {
      if lastShown != [] {
        SelectRow(Min(MaxShown - 1, |lastShown| - 1));
      }
    }

    /**
     * editSelectedInline: nothing without a selection, with a blank input or
     * when the selected slot is gone; otherwise the slot takes the trimmed
     * input, tagged with the rule of the selected text (ReplaceSelected).
     */
    method EditSelectedInline()
      requires Valid()
      modifies this, flap, flap.target
      ensures Valid()
      ensures old(SelectedRef()).None? || Strip(old(input)) == [] || !InRange(old(store), old(SelectedRef()).value) ==>
        unchanged(this) && unchanged(flap) && unchanged(flap.target)
      ensures old(SelectedRef()).Some? && Strip(old(input)) != [] && InRange(old(store), old(SelectedRef()).value) ==>
        var ref := old(SelectedRef()).value;
        store == Replaced(old(store), ref.originDate, ref.originIndex,
                          ApplyRepeatPrefixForStorage(Strip(old(input)), DetectRepeatModeFromStored(ref.storedText)))
        && currentDate == old(currentDate) && input == old(input) && storeChanges == old(storeChanges) + 1
        && OnBoard(store, currentDate, lastShown, flap.target) && unchanged(flap.current)
        && selectedRow == (if old(selectedRow) < |lastShown| then old(selectedRow) else -1)
        && flap.selectedRow == selectedRow
        && selectedOriginalText == (if old(selectedRow) < |lastShown| then Strip(old(input)) else "")
    {
      var ref := SelectedRef();
      if ref.None? {
        return;
      }
      var newText := Strip(input);
      if newText == [] {
        return;
      }
      var mode := DetectRepeatModeFromStored(ref.value.storedText);
      var newStored := ApplyRepeatPrefixForStorage(newText, mode);
      if ref.value.originDate !in store || ref.value.originIndex < 0 || ref.value.originIndex >= |store[ref.value.originDate]| {
        return;
      }
      ReplaceSelected(ref.value, newStored, newText);
    }

    /**
     * The rest of editSelectedInline: the slot replaced, the new text kept as
     * the selection's text, the board updated with the selection kept while
     * its row is listed, and the store reported changed.
     */
    method ReplaceSelected(ref: EntryRef, newStored: string, newText: string)
      requires Valid() && InRange(store, ref) && 0 <= selectedRow
      modifies this, flap, flap.target
      ensures Valid() && OnBoard(store, currentDate, lastShown, flap.target) && unchanged(flap.current)
      ensures store == Replaced(old(store), ref.originDate, ref.originIndex, newStored)
      ensures currentDate == old(currentDate) && input == old(input) && storeChanges == old(storeChanges) + 1
      ensures selectedRow == (if old(selectedRow) < |lastShown| then old(selectedRow) else -1)
      ensures flap.selectedRow == selectedRow
      ensures selectedOriginalText == (if old(selectedRow) < |lastShown| then newText else "")
    {
      store := Replaced(store, ref.originDate, ref.originIndex, newStored);
      selectedOriginalText := newText;
      storeChanges := storeChanges + 1;
      RefreshKeepingSelection();
    }

    /** The end of editSelectedInline: the board updated, then told the selected row again. */
    method RefreshKeepingSelection()
      requires Valid() && 0 <= selectedRow
      modifies this, flap, flap.target
      ensures Valid() && OnBoard(store, currentDate, lastShown, flap.target) && unchanged(flap.current)
      ensures store == old(store) && currentDate == old(currentDate) && input == old(input) && storeChanges == old(storeChanges)
      ensures selectedRow == (if old(selectedRow) < |lastShown| then old(selectedRow) else -1)
      ensures flap.selectedRow == selectedRow
      ensures selectedOriginalText == (if old(selectedRow) < |lastShown| then old(selectedOriginalText) else "")
    {
      UpdateFlapFromStore();
      flap.SetSelectedRow(selectedRow);
    }

    /**
     * deleteSelectedInline: nothing without a selection or when the selected
     * slot is gone; otherwise the slot is removed (RemoveSelected).
     */
    method DeleteSelectedInline()
      requires Valid()
      modifies this, flap, flap.target
      ensures Valid()
      ensures old(SelectedRef()).None? || !InRange(old(store), old(SelectedRef()).value) ==>
        unchanged(this) && unchanged(flap) && unchanged(flap.target)
      ensures old(SelectedRef()).Some? && InRange(old(store), old(SelectedRef()).value) ==>
        var ref := old(SelectedRef()).value;
        store == Removed(old(store), ref.originDate, ref.originIndex)
        && currentDate == old(currentDate) && storeChanges == old(storeChanges) + 1
        && OnBoard(store, currentDate, lastShown, flap.target) && unchanged(flap.current)
        && selectedRow == (if old(selectedRow) < |lastShown| then old(selectedRow) else -1)
        && flap.selectedRow == selectedRow && input == SelectedText() && selectedOriginalText == SelectedText()
    {
      var ref := SelectedRef();
      if ref.None? {
        return;
      }
      if ref.value.originDate !in store || ref.value.originIndex < 0 || ref.value.originIndex >= |store[ref.value.originDate]| {
        return;
      }
      RemoveSelected(ref.value);
    }

    /**
     * The rest of deleteSelectedInline: the slot removed (and the date with
     * it when its list is left empty), the input field emptied and the board
     * updated. The selection stays on its row while that row is listed;
     * otherwise nothing is selected.
     */
    method RemoveSelected(ref: EntryRef)
      requires Valid() && InRange(store, ref) && 0 <= selectedRow
      modifies this, flap, flap.target
      ensures Valid() && OnBoard(store, currentDate, lastShown, flap.target) && unchanged(flap.current)
      ensures store == Removed(old(store), ref.originDate, ref.originIndex)
      ensures currentDate == old(currentDate) && storeChanges == old(storeChanges) + 1
      ensures selectedRow == (if old(selectedRow) < |lastShown| then old(selectedRow) else -1)
      ensures flap.selectedRow == selectedRow && input == SelectedText() && selectedOriginalText == SelectedText()
    {
      store := Removed(store, ref.originDate, ref.originIndex);
      input := "";
      selectedOriginalText := "";
      storeChanges := storeChanges + 1;
      RefreshAfterDelete();
    }

    /** The end of deleteSelectedInline: the board updated, then the selection settled on a listed row. */
    method RefreshAfterDelete()
      requires Valid() && 0 <= selectedRow && selectedOriginalText == "" && input == ""
      modifies this, flap, flap.target
      ensures Valid() && OnBoard(store, currentDate, lastShown, flap.target) && unchanged(flap.current)
      ensures store == old(store) && currentDate == old(currentDate) && storeChanges == old(storeChanges)
      ensures selectedRow == (if old(selectedRow) < |lastShown| then old(selectedRow) else -1)
      ensures flap.selectedRow == selectedRow && input == SelectedText() && selectedOriginalText == SelectedText()
    {
      UpdateFlapFromStore();
      SelectAfterDelete();
    }

    /**
     * The end of deleteSelectedInline: nothing selected when the list is
     * empty, otherwise the selected row kept within the listed rows.
     */
    method SelectAfterDelete()
      requires Valid() && -1 <= selectedRow && selectedOriginalText == "" && input == ""
      requires selectedRow < |lastShown| || selectedRow == -1
      modifies this, flap
      ensures Valid()
      ensures store == old(store) && currentDate == old(currentDate) && lastShown == old(lastShown) && storeChanges == old(storeChanges)
      ensures selectedRow == old(selectedRow)
      ensures flap.selectedRow == (if 0 <= selectedRow < MaxShown then selectedRow else -1)
      ensures input == SelectedText() && selectedOriginalText == SelectedText()
    {
      if lastShown == [] {
        selectedRow := -1;
        flap.SetSelectedRow(-1);
      } else {
        var newRow := Min(selectedRow, |lastShown| - 1);
        SelectRow(newRow);
      }
    }

    /**
     * changeRepeatModeOfSelected: nothing without a selection or when the
     * selected slot is gone; otherwise the slot is stored again with the new
     * rule (RetagSelected).
     */
    method ChangeRepeatModeOfSelected(newMode: RepeatMode)
      requires Valid()
      modifies this, flap, flap.target
      ensures Valid()
      ensures old(SelectedRef()).None? || !InRange(old(store), old(SelectedRef()).value) ==>
        unchanged(this) && unchanged(flap) && unchanged(flap.target)
      ensures old(SelectedRef()).Some? && InRange(old(store), old(SelectedRef()).value) ==>
        var ref := old(SelectedRef()).value;
        var base := DisplayText(old(store)[ref.originDate][ref.originIndex]);
        store == Replaced(old(store), ref.originDate, ref.originIndex, ApplyRepeatPrefixForStorage(base, newMode))
        && input == base && currentDate == old(currentDate) && storeChanges == old(storeChanges) + 1
        && OnBoard(store, currentDate, lastShown, flap.target) && unchanged(flap.current)
        && selectedRow == (if old(selectedRow) < |lastShown| then old(selectedRow) else -1)
        && flap.selectedRow == (if old(selectedRow) < |lastShown| then old(flap.selectedRow) else -1)
        && selectedOriginalText == (if old(selectedRow) < |lastShown| then base else "")
    {
      var ref := SelectedRef();
      if ref.None? {
        return;
      }
      if ref.value.originDate !in store || ref.value.originIndex < 0 || ref.value.originIndex >= |store[ref.value.originDate]| {
        return;
      }
      var base := StripRepeatPrefixForDisplay(store[ref.value.originDate][ref.value.originIndex]);
      var updatedStored := ApplyRepeatPrefixForStorage(base, newMode);
      RetagSelected(ref.value, base, updatedStored);
    }

    /**
     * The rest of changeRepeatModeOfSelected: the re-tagged text written to
     * the slot, its untagged base put in the input field, the board updated
     * and the store reported changed.
     */
    method RetagSelected(ref: EntryRef, base: string, updatedStored: string)
      requires Valid() && InRange(store, ref)
      modifies this, flap, flap.target
      ensures Valid() && OnBoard(store, currentDate, lastShown, flap.target) && unchanged(flap.current)
      ensures store == Replaced(old(store), ref.originDate, ref.originIndex, updatedStored)
      ensures input == base && currentDate == old(currentDate) && storeChanges == old(storeChanges) + 1
      ensures selectedRow == (if old(selectedRow) < |lastShown| then old(selectedRow) else -1)
      ensures flap.selectedRow == (if old(selectedRow) < |lastShown| then old(flap.selectedRow) else -1)
      ensures selectedOriginalText == (if old(selectedRow) < |lastShown| then base else "")
    {
      store := Replaced(store, ref.originDate, ref.originIndex, updatedStored);
      selectedOriginalText := base;
      input := base;
      storeChanges := storeChanges + 1;
      UpdateFlapFromStore();
    }
  }
}
