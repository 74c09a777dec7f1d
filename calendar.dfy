/**
 * The calendar page: the month grid, today's highlight, the attendee avatars
 * of an event, and the text of a statistic's change. The month's first
 * weekday (0 = Sunday) and its length come from the `Date` object and are
 * parameters here.
 */
module CalendarPage {
  import opened Wrappers
  import Text

  /**
   * A month grid: `firstDayOfMonth` empty cells, then the days 1 to
   * `daysInMonth` in order.
   */
  ghost predicate IsMonthGrid(days: seq<Option<nat>>, firstDayOfMonth: nat, daysInMonth: nat) {
    && |days| == firstDayOfMonth + daysInMonth
    && (forall i :: 0 <= i < firstDayOfMonth ==> days[i] == None)
    && (forall i :: firstDayOfMonth <= i < |days| ==> days[i] == Some(i - firstDayOfMonth + 1))
  }

  /** `generateCalendarDays`: push the empty cells, then push each day. */
  method GenerateCalendarDays(firstDayOfMonth: nat, daysInMonth: nat) returns (days: seq<Option<nat>>)
    ensures IsMonthGrid(days, firstDayOfMonth, daysInMonth)
  {
    days := [];
    var i := 0;
    while i < firstDayOfMonth
      invariant i <= firstDayOfMonth
      invariant |days| == i
      invariant forall j :: 0 <= j < i ==> days[j] == None
    {
      days := days + [None];
      i := i + 1;
    }
    var day := 1;
    while day <= daysInMonth
      invariant 1 <= day <= daysInMonth + 1
      invariant |days| == firstDayOfMonth + day - 1
      invariant forall j :: 0 <= j < firstDayOfMonth ==> days[j] == None
      invariant forall j :: firstDayOfMonth <= j < |days| ==> days[j] == Some(j - firstDayOfMonth + 1)
    {
      days := days + [Some(day)];
      day := day + 1;
    }
  }

  /**
   * The filled cells hold exactly the days 1 to `daysInMonth`, in strictly
   * increasing order, so each day appears once.
   */
  lemma MonthGridDays(days: seq<Option<nat>>, firstDayOfMonth: nat, daysInMonth: nat)
    requires IsMonthGrid(days, firstDayOfMonth, daysInMonth)
    ensures forall d :: Some(d) in days <==> 1 <= d <= daysInMonth
    ensures forall i, j :: 0 <= i < j < |days| && days[i].Some? && days[j].Some? ==> days[i].value < days[j].value
    ensures forall i, j :: 0 <= i < |days| && 0 <= j < |days| && days[i].Some? && days[i] == days[j] ==> i == j
  {
    forall d | 1 <= d <= daysInMonth ensures Some(d) in days {
      var at := firstDayOfMonth + d - 1;
      assert days[at] == Some(d);
    }
  }

  /** A month starts on weekday 0 to 6 and has 28 to 31 days, so the grid has at most 37 cells. */
  lemma MonthGridSize(days: seq<Option<nat>>, firstDayOfMonth: nat, daysInMonth: nat)
    requires IsMonthGrid(days, firstDayOfMonth, daysInMonth)
    requires firstDayOfMonth <= 6 && 28 <= daysInMonth <= 31
    ensures 28 <= |days| <= 37
  {
  }

  /** `day === today`: an empty cell (`null`) is never today's, whatever the day. */
  function IsToday(cell: Option<nat>, today: int): (r: bool)
    ensures r ==> cell.Some?
    ensures cell.Some? ==> (r <==> cell.value == today)
  {
    cell.Some? && cell.value == today
  }

  /** The positions of the grid that get the highlight. */
  function HighlightedCells(days: seq<Option<nat>>, today: int): (r: set<nat>)
    ensures forall i: nat :: i in r <==> i < |days| && days[i] == Some(today)
  {
    set i: nat | i < |days| && IsToday(days[i], today)
  }

  /** Exactly one cell is highlighted when today falls within the month, none otherwise. */
  lemma OneCellIsToday(days: seq<Option<nat>>, firstDayOfMonth: nat, daysInMonth: nat, today: int)
    requires IsMonthGrid(days, firstDayOfMonth, daysInMonth)
    ensures 1 <= today <= daysInMonth ==> HighlightedCells(days, today) == {firstDayOfMonth + today - 1}
    ensures |HighlightedCells(days, today)| == if 1 <= today <= daysInMonth then 1 else 0
  {
    MonthGridDays(days, firstDayOfMonth, daysInMonth);
    if 1 <= today <= daysInMonth {
      var at: nat := firstDayOfMonth + today - 1;
      assert days[at] == Some(today);
      assert HighlightedCells(days, today) == {at};
    } else {
      assert HighlightedCells(days, today) == {};
    }
  }

  // ---------------------------------------------------------------------------
  // Attendees

  const MAX_AVATARS: nat := 3

  /** `attendees.slice(0, 3)`: the first three attendees, or all of them when there are fewer. */
  function ShownAttendees(attendees: seq<string>): (r: seq<string>)
    ensures r <= attendees
    ensures |r| == if |attendees| <= MAX_AVATARS then |attendees| else MAX_AVATARS
  {
    if |attendees| <= MAX_AVATARS then attendees else attendees[..MAX_AVATARS]
  }

  /** The "+N more" label, shown only when there are more than three attendees. */
  function OverflowLabel(attendees: seq<string>): (r: Option<string>)
    ensures r.Some? <==> |attendees| > MAX_AVATARS
  {
    if |attendees| > MAX_AVATARS then Some("+" + Text.DecimalString(|attendees| - MAX_AVATARS) + " more") else None
  }

  /** The avatars and the count in the label account for every attendee exactly once. */
  lemma AttendeesAccounted(attendees: seq<string>)
    ensures OverflowLabel(attendees).Some? ==>
      exists n: nat :: |ShownAttendees(attendees)| + n == |attendees| && n > 0
        && OverflowLabel(attendees).value == "+" + Text.DecimalString(n) + " more"
    ensures OverflowLabel(attendees).None? ==> ShownAttendees(attendees) == attendees
  {
    if |attendees| > MAX_AVATARS {
      var n: nat := |attendees| - MAX_AVATARS;
      assert |ShownAttendees(attendees)| + n == |attendees|;
    }
  }

  // ---------------------------------------------------------------------------
  // Change text

  /**
   * `{change !== "0" && (change.startsWith('+') ? '+' : '')}{change}`: a '+'
   * is put in front of a change that already starts with '+', so "+6" shows
   * as "++6"; "0" and other changes show as they are.
   */
  function ChangeText(change: string): (r: string)
    ensures r == change || r == "+" + change
    ensures r == "+" + change <==> change != "0" && |change| > 0 && change[0] == '+'
  {
    (if change != "0" && |change| > 0 && change[0] == '+' then "+" else "") + change
  }

  lemma ChangeTextExamples()
    ensures ChangeText("+2") == "++2" && ChangeText("+6") == "++6"
    ensures ChangeText("0") == "0" && ChangeText("-4") == "-4"
  {
  }

  /**
   * The change text as the stat cards evidently mean it: a sign is added
   * only to a non-zero change that has none, so a change never shows two
   * leading signs.
   */
  function ChangeTextIntended(change: string): (r: string)
    ensures r == change || r == "+" + change
    ensures change != "0" && change != "" ==> (r[0] == '+' || r[0] == '-')
    ensures |change| > 0 && (change[0] == '+' || change[0] == '-') ==> r == change
    ensures change != "0" && |change| > 0 && change[0] != '+' && change[0] != '-' ==> r == "+" + change
    ensures change == "0" || change == "" ==> r == change
  {
    if change != "0" && change != "" && change[0] != '+' && change[0] != '-' then "+" + change else change
  }

  /** As written, an already-signed positive change gets a second '+'; the intended text keeps one. */
  lemma ChangeTextDoubleSign()
    ensures ChangeText("+6") == "++6"
    ensures ChangeTextIntended("+6") == "+6"
  {
  }
}
