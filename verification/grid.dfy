/**
 * The month grid drawn by `renderCalendar`: blank cells up to the weekday of
 * the first, then one cell per day carrying its key and its chips.
 */
module Grid {
  import opened Gregorian
  import opened DateKey
  import opened Wrappers
  import opened Posts

  datatype Cell = Blank | Day(day: int, key: string, chips: seq<Post>) {
    /** The chips drawn in the cell; a blank cell has none. */
    function Chips(): seq<Post> {
      if Blank? then [] else chips
    }
  }

  /**
   * A month the page can draw: `new Date(year, month, 1)` reads years 0..99
   * as 1900..1999, so the displayed year must have at least three digits.
   */
  predicate Drawable(ym: YearMonth) {
    ym.Valid() && ym.year >= 100
  }

  /** The cell of day `d`: its `YYYY-MM-DD` key and the posts dated with it. */
  function DayCell(ym: YearMonth, posts: seq<Post>, d: nat): (c: Cell)
    requires Drawable(ym)
    ensures c.Day? && c.day == d
  {
    var key := Key(ym.year, ym.month, d);
    Day(d, key, ChipsFor(posts, key))
  }

  /** Number of leading blank cells: the weekday (0 = Sunday) of the first of the month. */
  function LeadingBlanks(ym: YearMonth): (n: nat)
    requires ym.Valid()
    ensures n < 7
  {
    WeekDay(ym.year, ym.month, 1)
  }

  /** What `renderCalendar` draws for month `ym` and collection `posts`. */
  predicate IsCalendarGrid(cells: seq<Cell>, ym: YearMonth, posts: seq<Post>)
    requires Drawable(ym)
  {
    var lead := LeadingBlanks(ym);
    && |cells| == lead + DaysInMonth(ym.year, ym.month)
    && (forall j :: 0 <= j < lead ==> cells[j] == Blank)
    && (forall j :: lead <= j < |cells| ==> cells[j] == DayCell(ym, posts, j - lead + 1))
  }

  /** The first loop of `renderCalendar`: one blank cell per weekday before the first. */
  method BlankCells(firstDayIndex: nat) returns (cells: seq<Cell>)
    ensures |cells| == firstDayIndex
    ensures forall j :: 0 <= j < |cells| ==> cells[j] == Blank
  {
    cells := [];
    var i := 0;
    while i < firstDayIndex
      invariant 0 <= i <= firstDayIndex
      invariant |cells| == i
      invariant forall j :: 0 <= j < i ==> cells[j] == Blank
    {
      cells := cells + [Blank];
      i := i + 1;
    }
  }

  /** The second loop of `renderCalendar`: the cells of days 1..N, each with its key and chips. */
  method DayCells(ym: YearMonth, posts: seq<Post>) returns (cells: seq<Cell>)
    requires Drawable(ym)
    ensures |cells| == DaysInMonth(ym.year, ym.month)
    ensures forall j :: 0 <= j < |cells| ==> cells[j] == DayCell(ym, posts, j + 1)
  {
    var lastDayDate := DaysInMonth(ym.year, ym.month);
    cells := [];
    var day := 1;
    while day <= lastDayDate
      invariant 1 <= day <= lastDayDate + 1
      invariant |cells| == day - 1
      invariant forall j :: 0 <= j < |cells| ==> cells[j] == DayCell(ym, posts, j + 1)
    {
      var dateStr := Key(ym.year, ym.month, day);
      var dayPosts := ChipsFor(posts, dateStr);
      cells := cells + [Day(day, dateStr, dayPosts)];
      day := day + 1;
    }
  }

  /** `renderCalendar`: the blank cells, then the day cells. */
  method RenderCalendar(ym: YearMonth, posts: seq<Post>) returns (cells: seq<Cell>)
    requires Drawable(ym)
    ensures IsCalendarGrid(cells, ym, posts)
  {
    var firstDayIndex := WeekDay(ym.year, ym.month, 1);
    var blanks := BlankCells(firstDayIndex);
    var days := DayCells(ym, posts);
    cells := blanks + days;
    forall j | firstDayIndex <= j < |cells|
      ensures cells[j] == DayCell(ym, posts, j - firstDayIndex + 1)
    {
      assert cells[j] == days[j - firstDayIndex];
    }
  }

  /**
   * Shape of a grid: 0..6 blanks, 28..31 day cells numbered 1..N in order,
   * and February has 29 of them exactly in leap years.
   */
  lemma GridShape(cells: seq<Cell>, ym: YearMonth, posts: seq<Post>)
    requires Drawable(ym) && IsCalendarGrid(cells, ym, posts)
    ensures 0 <= LeadingBlanks(ym) <= 6
    ensures 28 <= |cells| - LeadingBlanks(ym) <= 31
    ensures ym.month == 2 ==> (|cells| - LeadingBlanks(ym) == 29 <==> IsLeapYear(ym.year))
    ensures forall j :: LeadingBlanks(ym) <= j < |cells| ==> cells[j].Day? && cells[j].day == j - LeadingBlanks(ym) + 1
    ensures cells[|cells| - 1] == DayCell(ym, posts, DaysInMonth(ym.year, ym.month))
  {
  }

  /** The blank count of next month's grid is this month's shifted by this month's length. */
  lemma NextGridBlanks(ym: YearMonth)
    requires Drawable(ym)
    ensures LeadingBlanks(NextMonth(ym)) == (LeadingBlanks(ym) + DaysInMonth(ym.year, ym.month)) % 7
  {
    WeekDayOfNextMonth(ym);
  }

  /** No post is drawn in two different cells of one grid. */
  lemma ChipsDisjoint(cells: seq<Cell>, ym: YearMonth, posts: seq<Post>, j: int, k: int)
    requires Drawable(ym) && IsCalendarGrid(cells, ym, posts)
    requires LeadingBlanks(ym) <= j < k < |cells|
    ensures forall p :: p in cells[j].chips ==> p !in cells[k].chips
  {
    var lead := LeadingBlanks(ym);
    var dj, dk := j - lead + 1, k - lead + 1;
    var kj, kk := Key(ym.year, ym.month, dj), Key(ym.year, ym.month, dk);
    assert cells[j].chips == ChipsFor(posts, kj);
    assert cells[k].chips == ChipsFor(posts, kk);
    assert kj != kk by {
      if kj == kk {
        KeyInjective(CalendarDate(ym.year, ym.month, dj), CalendarDate(ym.year, ym.month, dk));
      }
    }
    forall p | p in ChipsFor(posts, kj)
      ensures p !in ChipsFor(posts, kk)
    {
      ChipMatchesKey(posts, kj, p);
      if p in ChipsFor(posts, kk) {
        ChipMatchesKey(posts, kk, p);
      }
    }
  }

  /** A post dated with the key of day `d` is drawn in the cell of day `d`. */
  lemma PostLandsInItsCell(cells: seq<Cell>, ym: YearMonth, posts: seq<Post>, i: int, d: int)
    requires Drawable(ym) && IsCalendarGrid(cells, ym, posts)
    requires 0 <= i < |posts| && 1 <= d <= DaysInMonth(ym.year, ym.month)
    requires posts[i].date == Key(ym.year, ym.month, d)
    ensures posts[i] in cells[LeadingBlanks(ym) + d - 1].chips
  {
    assert cells[LeadingBlanks(ym) + d - 1].chips == ChipsFor(posts, Key(ym.year, ym.month, d));
  }

  /** A post whose date is the key of no day of the month is drawn in no cell. */
  lemma PostOutsideMonthNotDrawn(cells: seq<Cell>, ym: YearMonth, posts: seq<Post>, p: Post, j: int)
    requires Drawable(ym) && IsCalendarGrid(cells, ym, posts)
    requires forall d :: 1 <= d <= DaysInMonth(ym.year, ym.month) ==> p.date != Key(ym.year, ym.month, d)
    requires 0 <= j < |cells|
    ensures p !in cells[j].Chips()
  {
    var lead := LeadingBlanks(ym);
    if j >= lead {
      var key := Key(ym.year, ym.month, j - lead + 1);
      assert cells[j].Chips() == ChipsFor(posts, key);
      if p in ChipsFor(posts, key) {
        ChipMatchesKey(posts, key, p);
      }
    }
  }

  /** Reads the day cell at position `j` of a grid. */
  lemma DayCellAt(cells: seq<Cell>, ym: YearMonth, posts: seq<Post>, j: int)
    requires Drawable(ym) && IsCalendarGrid(cells, ym, posts)
    requires LeadingBlanks(ym) <= j < |cells|
    ensures cells[j] == Day(j - LeadingBlanks(ym) + 1, Key(ym.year, ym.month, j - LeadingBlanks(ym) + 1),
                            ChipsFor(posts, Key(ym.year, ym.month, j - LeadingBlanks(ym) + 1)))
  {
  }

  /**
   * After a successful save the grid of the same month has the same cells,
   * except that the cell of the saved date gains the new post as its last chip.
   */
  lemma SaveRedrawsOneCell(before: seq<Cell>, after: seq<Cell>, ym: YearMonth, posts: seq<Post>,
                           id: int, title: string, detail: string, date: string, saved: seq<Post>, j: int)
    requires Drawable(ym)
    requires SavePost(posts, id, title, detail, date) == Success(saved)
    requires IsCalendarGrid(before, ym, posts)
    requires IsCalendarGrid(after, ym, saved)
    requires 0 <= j < |before|
    ensures |after| == |before|
    ensures before[j].Blank? ==> after[j] == Blank
    ensures before[j].Day? && before[j].key != date ==> after[j] == before[j]
    ensures before[j].Day? && before[j].key == date ==>
              after[j] == before[j].(chips := before[j].chips + [Post(id, title, detail, date)])
  {
    var lead := LeadingBlanks(ym);
    if j >= lead {
      var key := Key(ym.year, ym.month, j - lead + 1);
      DayCellAt(before, ym, posts, j);
      DayCellAt(after, ym, saved, j);
      SaveAddsChip(posts, id, title, detail, date, key);
    }
  }
}
