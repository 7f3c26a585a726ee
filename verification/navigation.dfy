/**
 * The previous/next month buttons. The page keeps the displayed month in a
 * full `Date` (initially "now") and moves it with `setMonth`, which keeps
 * the day of the month; a day the target month lacks overflows into the
 * month after it. Time of day is irrelevant to the grid and is left out.
 */
module Navigation {
  import opened Gregorian

  /** The calendar fields of the page's current `Date`; `month` is 1-based. */
  datatype ShownDate = ShownDate(year: int, month: int, day: int) {
    predicate Valid() {
      ValidDate(year, month, day)
    }

    /** The month the grid draws. */
    function Displayed(): YearMonth {
      YearMonth(year, month)
    }
  }

  /**
   * `date.setMonth(m0)` with a 0-based month `m0` that may be -1 or 12: the
   * month is normalised into the year, the day of the month is kept, and
   * MakeDay counts on past the end of a short month.
   */
  function SetMonth(s: ShownDate, m0: int): (r: ShownDate)
    requires s.Valid()
    ensures r.Valid()
    ensures DayNumber(r.year, r.month, r.day)
         == DayNumber(Normalize(s.year, m0).year, Normalize(s.year, m0).month, 1) + s.day - 1
  {
    var t := Normalize(s.year, m0);
    var n := DaysInMonth(t.year, t.month);
    if s.day <= n then ShownDate(t.year, t.month, s.day)
    else
      var u := NextMonth(t);
      FirstOfNextMonth(t);
      ShownDate(u.year, u.month, s.day - n)
  }

  /** SetMonth yields the one valid date that MakeDay's day number denotes. */
  lemma SetMonthIsTheOnlyDate(s: ShownDate, m0: int, r: ShownDate)
    requires s.Valid() && r.Valid()
    requires DayNumber(r.year, r.month, r.day)
          == DayNumber(Normalize(s.year, m0).year, Normalize(s.year, m0).month, 1) + s.day - 1
    ensures r == SetMonth(s, m0)
  {
    var q := SetMonth(s, m0);
    DayNumberInjective(r.year, r.month, r.day, q.year, q.month, q.day);
  }

  /** The next button as written: `setMonth(getMonth() + 1)`. */
  function NextClickAsWritten(s: ShownDate): (r: ShownDate)
    requires s.Valid()
    ensures r.Valid()
    ensures DayNumber(r.year, r.month, r.day)
         == DayNumber(NextMonth(s.Displayed()).year, NextMonth(s.Displayed()).month, 1) + s.day - 1
  {
    SetMonth(s, s.month)
  }

  /** The previous button as written: `setMonth(getMonth() - 1)`. */
  function PrevClickAsWritten(s: ShownDate): (r: ShownDate)
    requires s.Valid()
    ensures r.Valid()
    ensures DayNumber(r.year, r.month, r.day)
         == DayNumber(PrevMonth(s.Displayed()).year, PrevMonth(s.Displayed()).month, 1) + s.day - 1
  {
    SetMonth(s, s.month - 2)
  }

  /**
   * The next button shows the following month exactly when today's day of
   * the month exists in it; otherwise it shows the month after that.
   */
  lemma NextClickAsWrittenDisplays(s: ShownDate)
    requires s.Valid()
    ensures var target := NextMonth(s.Displayed());
            (NextClickAsWritten(s).Displayed() == target <==> s.day <= DaysInMonth(target.year, target.month))
    ensures var target := NextMonth(s.Displayed());
            s.day > DaysInMonth(target.year, target.month) ==> NextClickAsWritten(s).Displayed() == NextMonth(target)
  {
    var target := NextMonth(s.Displayed());
    assert Normalize(s.year, s.month) == target;
    if s.day > DaysInMonth(target.year, target.month) {
      MonthIndexInjective(NextClickAsWritten(s).Displayed(), NextMonth(target));
    }
  }

  /**
   * The previous button shows the preceding month exactly when today's day
   * of the month exists in it; otherwise it shows the month it started from.
   */
  lemma PrevClickAsWrittenDisplays(s: ShownDate)
    requires s.Valid()
    ensures var target := PrevMonth(s.Displayed());
            (PrevClickAsWritten(s).Displayed() == target <==> s.day <= DaysInMonth(target.year, target.month))
    ensures var target := PrevMonth(s.Displayed());
            s.day > DaysInMonth(target.year, target.month) ==> PrevClickAsWritten(s).Displayed() == s.Displayed()
  {
    var target := PrevMonth(s.Displayed());
    assert Normalize(s.year, s.month - 2) == target;
    if s.day > DaysInMonth(target.year, target.month) {
      PrevNextInverse(s.Displayed());
    }
  }

  /** On January 31 the next button skips February and shows March. */
  lemma NextClickSkipsFebruary()
    ensures ShownDate(2026, 1, 31).Valid()
    ensures NextClickAsWritten(ShownDate(2026, 1, 31)) == ShownDate(2026, 3, 3)
  {
    var s := ShownDate(2026, 1, 31);
    assert s.Valid();
    assert SetMonth(s, 1) == ShownDate(2026, 3, 3) by {
      var t := Normalize(2026, 1);
      assert t == YearMonth(2026, 2);
      assert DaysInMonth(2026, 2) == 28;
      NextPrevRollover(t);
    }
  }

  /** On March 31 the previous button lands on March 3 and keeps showing March. */
  lemma PrevClickStaysInMarch()
    ensures ShownDate(2026, 3, 31).Valid()
    ensures PrevClickAsWritten(ShownDate(2026, 3, 31)) == ShownDate(2026, 3, 3)
  {
    var s := ShownDate(2026, 3, 31);
    assert s.Valid();
    assert SetMonth(s, 1) == ShownDate(2026, 3, 3) by {
      var t := Normalize(2026, 1);
      assert t == YearMonth(2026, 2);
      assert DaysInMonth(2026, 2) == 28;
      NextPrevRollover(t);
    }
    assert PrevClickAsWritten(s) == SetMonth(s, 3 - 2);
  }

  /** The next button with the day reset first: `setDate(1)`, then `setMonth(getMonth() + 1)`. */
  function NextClick(s: ShownDate): (r: ShownDate)
    requires s.Valid()
    ensures r.Valid() && r.day == 1
    ensures r.Displayed() == NextMonth(s.Displayed())
  {
    SetMonth(s.(day := 1), s.month)
  }

  /** The previous button with the day reset first: `setDate(1)`, then `setMonth(getMonth() - 1)`. */
  function PrevClick(s: ShownDate): (r: ShownDate)
    requires s.Valid()
    ensures r.Valid() && r.day == 1
    ensures r.Displayed() == PrevMonth(s.Displayed())
  {
    SetMonth(s.(day := 1), s.month - 2)
  }

  /** With the day reset, previous undoes next and next undoes previous. */
  lemma PrevNextClicksInverse(s: ShownDate)
    requires s.Valid()
    ensures PrevClick(NextClick(s)) == s.(day := 1)
    ensures NextClick(PrevClick(s)) == s.(day := 1)
  {
    PrevNextInverse(s.Displayed());
  }
}
