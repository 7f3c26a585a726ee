# School calendar: month grid and post collection

This project models the calendar page of a small school event calendar
(`js/main.js`). The page shows one month as a grid of cells, one per day,
with blank cells in front so that day 1 sits under its weekday. Each day
cell carries a `YYYY-MM-DD` key and shows, as chips, the posts whose `date`
is that key. A post is a record `{id, title, detail, date}`. The user can
add a post to a day, delete a post after confirming, and step the displayed
month backwards and forwards.

The model is functional. The collection is an immutable `seq<Post>`. The
calendar arithmetic is that of JavaScript's `Date` (ECMA-262's DayFromYear,
DaysInYear and MakeDay, with floor division and day 0 = 1970-01-01, a
Thursday). Things the page reads from the browser become parameters: the
new post's id (`Date.now()`), the clicked day's key, the selected post's
id, and the answer to the confirmation prompt.

Modules:

- `Wrappers`: `Option` and `Result`.
- `Decimal`: `String(n)` for naturals, its inverse `Parse`, and `padStart(2, '0')`.
- `Gregorian`: leap years, month lengths, day numbers, weekdays, and month-level next/previous. Sakamoto's weekday formula serves as an independent check.
- `DateKey`: the cell key, and reading a key back into its date.
- `Seqs`: the order-preserving filter that `Array.prototype.filter` performs.
- `Posts`: chip selection, saving a post, deleting a post.
- `Grid`: what `renderCalendar` draws. Each of the source's two loops is a method, and `RenderCalendar` joins their cells.
- `Navigation`: the previous/next buttons, which call `setMonth` on a full date.

Delete removes every post whose id equals the selected
id, not just one post. Ids come from `Date.now()` and are not guaranteed
to be unique.

## Model

| member | source | states |
|---|---|---|
| Decimal.Show | js/main.js:68 | `String(n)` of a natural is never empty, and is one character exactly for 0..9; ShowDigits and ParseShow carry the digit and read-back properties |
| Decimal.ParseShow | js/main.js:68 | reading back the decimal text of the year gives the year |
| Decimal.Pad2 | js/main.js:68 | the month or day field; it has no contract of its own, and Pad2IsPadStart ties it to `padStart(2, '0')` while Pad2Reads states its digits |
| Decimal.PadStart | js/main.js:68 | `padStart(width, fill)` fills on the left up to the width and keeps the text as the suffix; text already that long is unchanged |
| Decimal.Pad2IsPadStart | js/main.js:68 | the two-digit field is `padStart(2, '0')` applied to the decimal text of the number |
| Decimal.Pad2Reads | js/main.js:68 | the padded month or day is its tens digit then its units digit below 100, all digits, starts with `0` exactly for 0..9, and reads back as the number |
| DateKey.Key | js/main.js:68 | the `${year}-MM-DD` cell key; its contract is left thin on purpose, so the grid proofs do not unfold it, and KeyFields, KeyLayout and KeyRoundTrip carry its properties |
| DateKey.KeyRoundTrip | js/main.js:68 | a key with two-digit month and day parses back to exactly its year, month and day |
| DateKey.KeyInjective | js/main.js:68 | distinct dates get distinct keys |
| DateKey.KeyLayout | js/main.js:68 | for a four-digit year the key is ten characters `YYYY-MM-DD`, with a leading `0` on month or day exactly when it is 1..9 |
| Gregorian.DaysInYear | js/main.js:54-56 | the four-case year length that `Date` uses is 366 exactly in Gregorian leap years |
| Gregorian.DaysInMonth | js/main.js:56 | a month has 28..31 days, and February has 29 exactly in leap years |
| Gregorian.DayFromYear | js/main.js:54-56 | the day number of New Year; it has no contract of its own, and DayFromYearStep and DayFromYearIsYearSum state what it counts |
| Gregorian.DayNumber | js/main.js:54-56 | the day number that `new Date(year, month, day)` denotes; it has no contract of its own, and DayNumberInjective, FirstOfNextMonth and LastDayOfMonth state its properties |
| Gregorian.WeekDay | js/main.js:54 | `getDay()` is in 0..6 and counts from Thursday at day 0; SakamotoAgrees checks it against an independent formula |
| Gregorian.DayFromYearStep | js/main.js:54 | the closed-form day of New Year advances by exactly the year's length from one year to the next |
| Gregorian.DayFromYearIsYearSum | js/main.js:54 | the closed form equals counting year lengths one by one from 1970, forwards and backwards |
| Gregorian.MonthsFillYear | js/main.js:56 | the twelve month lengths add up to the year's length |
| Gregorian.FirstOfNextMonth | js/main.js:54-56 | the first of the next month is one month length after the first of this month |
| Gregorian.LastDayOfMonth | js/main.js:56 | `new Date(year, month + 1, 0)` denotes the last valid day of this month, so `getDate()` is the month's length |
| Gregorian.DayNumberInjective | js/main.js:54-56 | distinct valid dates have distinct day numbers, so the date read back from a day is unique |
| Gregorian.WeekDayOfNextMonth | js/main.js:54 | the weekday of next month's first is this month's plus this month's length, modulo 7 |
| Gregorian.SakamotoAgrees | js/main.js:54 | Sakamoto's formula and the day-count weekday agree for every date |
| Gregorian.February2024 | js/main.js:54-56 | February 2024 has 29 days and starts on a Thursday |
| Gregorian.Normalize | js/main.js:112 | `setMonth` carries an out-of-range 0-based month into the year and lands on the month with that running index |
| Gregorian.NextMonth | js/main.js:118 | the next month has running month index one higher |
| Gregorian.PrevMonth | js/main.js:112 | the previous month has running month index one lower |
| Gregorian.NextPrevRollover | js/main.js:111-119 | December goes to January of the next year, January to December of the previous year, other months step by one |
| Gregorian.PrevNextInverse | js/main.js:111-119 | at month granularity, previous undoes next and next undoes previous |
| Seqs.Filter | js/main.js:89 | `Array.prototype.filter`, used here and again for delete at line 172, keeps only elements of the input that pass the test, every element that passes is kept, and the result is no longer than the input |
| Seqs.FilterAppend | js/main.js:89 | filtering a concatenation is concatenating the filtered parts, so survivors keep their order |
| Seqs.FilterPartition | js/main.js:172 | the elements kept by a predicate and by its negation add up to the whole sequence |
| Seqs.FilterIdempotent | js/main.js:172 | filtering twice by the same predicate is filtering once |
| Posts.ChipsFor | js/main.js:89-102 | a cell's chips are posts of the collection dated with the cell's key, and every such post is among them |
| Posts.ChipMatchesKey | js/main.js:89 | any chip of a key is a post of the collection whose date is that key |
| Posts.ChipsAppend | js/main.js:89-102 | chips follow collection order: the chips of a split collection are the chips of the first part, then those of the second |
| Posts.SavePost | js/main.js:135-151 | an empty title is refused; otherwise exactly one post with the given id, title, detail and date is appended after the unchanged earlier posts |
| Posts.SaveAddsChip | js/main.js:144-153 | after a save the new post is the last chip of its own date, and every other key's chips are unchanged |
| Posts.DeletePost | js/main.js:170-172 | without confirmation nothing changes; with it, exactly the posts carrying the selected id are removed and all others stay |
| Posts.DeleteMissingId | js/main.js:172 | deleting an id no post carries leaves the collection unchanged |
| Posts.DeleteAppend | js/main.js:172 | deletion acts on each part of a split collection separately, so the remaining posts keep their relative order |
| Posts.DeleteIdempotent | js/main.js:170-172 | a second confirmed delete of the same id changes nothing more |
| Posts.SaveThenDelete | js/main.js:144-172 | saving a post with a fresh id and then deleting that id restores the collection |
| Posts.DeleteCommutesWithChips | js/main.js:89-172 | the chips of a day after a delete are that day's earlier chips with the deleted id removed |
| Grid.DayCell | js/main.js:65-102 | the cell of day `d` is a day cell numbered `d`; it carries the key of `d` and the chips of that key |
| Grid.LeadingBlanks | js/main.js:54 | the number of leading blank cells is a weekday, 0..6 |
| Grid.BlankCells | js/main.js:59-62 | the first loop yields exactly `firstDayIndex` blank cells |
| Grid.DayCells | js/main.js:65-102 | the second loop yields one cell per day 1..N of the month, in order, each with its key and its chips |
| Grid.RenderCalendar | js/main.js:40-106 | the drawn grid is the weekday of day 1 in blanks, then one cell per day 1..N with its key and its chips |
| Grid.GridShape | js/main.js:54-65 | 0..6 blanks, 28..31 day cells numbered 1..N in order, 29 in February exactly in leap years, the last one day N |
| Grid.NextGridBlanks | js/main.js:54-56 | next month's blank count is this month's blanks plus this month's length, modulo 7 |
| Grid.ChipsDisjoint | js/main.js:65-102 | no post is drawn in two different cells of one grid |
| Grid.PostLandsInItsCell | js/main.js:89-102 | a post dated with day d's key is drawn in day d's cell |
| Grid.PostOutsideMonthNotDrawn | js/main.js:89-102 | a post whose date is no key of the month is drawn in no cell |
| Grid.SaveRedrawsOneCell | js/main.js:151-153 | after a save the redrawn grid differs only in the saved date's cell, which gains the new post as its last chip |
| Navigation.SetMonth | js/main.js:112-118 | `setMonth` gives a valid date whose day number is the first of the target month plus the kept day of the month minus one |
| Navigation.SetMonthIsTheOnlyDate | js/main.js:112-118 | any valid date with that day number is the result of `setMonth` |
| Navigation.NextClickAsWritten | js/main.js:117-119 | the next button as written gives a valid date whose day number is the first of the following month plus today's day of the month minus one |
| Navigation.PrevClickAsWritten | js/main.js:111-113 | the previous button as written gives a valid date whose day number is the first of the preceding month plus today's day of the month minus one |
| Navigation.NextClickAsWrittenDisplays | js/main.js:117-119 | the next button shows the following month exactly when today's day of the month exists in it, otherwise the month after |
| Navigation.PrevClickAsWrittenDisplays | js/main.js:111-113 | the previous button shows the preceding month exactly when today's day of the month exists in it, otherwise the starting month again |
| Navigation.NextClickSkipsFebruary | js/main.js:117-119 | from 2026-01-31 the next button lands on 2026-03-03 |
| Navigation.PrevClickStaysInMarch | js/main.js:111-113 | from 2026-03-31 the previous button lands on 2026-03-03 |
| Navigation.NextClick | js/main.js:117-119 | with the day reset to 1 first, the next button shows exactly the following month |
| Navigation.PrevClick | js/main.js:111-113 | with the day reset to 1 first, the previous button shows exactly the preceding month |
| Navigation.PrevNextClicksInverse | js/main.js:111-119 | with the day reset, previous undoes next and next undoes previous |

## Left out

- Reading and writing `localStorage` through `JSON.parse`/`JSON.stringify` (js/main.js:32-35, 180-182). The model holds the collection as a value. Storage is the browser's job, not this code's.
- DOM construction, CSS classes, `innerHTML`, click routing (`closest('.post-chip')`, `stopPropagation`). This is presentation only.
- The modal show/hide state and `openPostModal`/`openViewModal`. The date they capture (`selectedDateStr`) and the post id (`selectedPostId`) are parameters of `SavePost` and `DeletePost`.
- `alert` and `confirm`. The alert is the `EmptyTitle` failure, and the confirmation is a boolean parameter.
- `Date.now()` ids. The id is a parameter, and uniqueness is not assumed.
- The "today" highlight (js/main.js:71-72). It is cosmetic.
- The locale month name in the header (js/main.js:50-51).
- Time of day, time zones and daylight saving. The model keeps only the calendar fields of the current date.
- The list-view page. It is not part of this model.
- Grid.RenderCalendar: requires a year of at least 100, because `new Date(year, month, 1)` reads years 0..99 as 1900..1999. The model leaves that remapping out, along with `Date`'s range limit near year 275760.
- DateKey.Key: takes a non-negative year, so the `-` sign that `${year}` prints for negative years is not modelled.
- Posts.DeletePost: takes the selected id as a number. The source's initial `null` is never reached, because the delete button only exists in the view modal, which sets the id first.

## Findings

| source | as written | input that shows it | evidently intended | confidence | as-written member | corrected member |
|---|---|---|---|---|---|---|
| js/main.js:117-119 | `currentDate.setMonth(currentDate.getMonth() + 1)` keeps today's day of the month, which overflows out of a shorter target month | current date 2026-01-31, click next: the date becomes 2026-03-03 and March is drawn | show February, the following month | high; not executed | Navigation.NextClickSkipsFebruary | Navigation.NextClick |
| js/main.js:111-113 | `currentDate.setMonth(currentDate.getMonth() - 1)` has the same overflow | current date 2026-03-31, click previous: the date becomes 2026-03-03 and March is drawn again | show February, the preceding month | high; not executed | Navigation.PrevClickStaysInMarch | Navigation.PrevClick |
