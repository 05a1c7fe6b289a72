# momento-mori life calendar, modelled in Dafny

The program draws a "life calendar". The user lists phases: a name, a start
date, an end date, a colour and an enabled flag. The program turns them into
a grid with one row per calendar year and 52 weekly cells per row. Each cell
takes the colour of the last listed phase that covers its week. Each cell is
marked past or future. The container gets narrower as rows are added.

This project models that computation and proves what it promises:

- `options.dfy`: the `Options` module, for values that may be unset.
- `calendar.dfy`: the `Calendar` module, a
  proleptic Gregorian calendar on day ordinals (`Day`, counted from
  0000-01-01). It has January 1 of each year, the year of a day, civil dates
  and weeks of seven days. The current time is an `Instant` in milliseconds.
- `phases.dfy`: the `Phases` module, with the `Phase` record and its
  drawability predicate `ShouldRender`.
- `resolver.dfy`: the `Resolver` module. It keeps the drawable phases
  (`get_phases`) and folds them to the earliest start and the latest end
  (the two `reduce` calls in `render`).
- `weekgrid.dfy`: the `WeekGrid` module. It has the width formula, the
  overlay colour, the past/future rules and the cell layout. The class `Grid`
  holds the container's `cells` and `width`. Its method `GenerateWeeksGrid`
  clears the cells and appends them in nested loops. Its method `Render`
  returns early when nothing is drawable.

Dates are day ordinals, not strings. `Calendar.CivilOrder` proves that
ordinal order is the field-by-field order of `(year, month, day)`. That is
the order in which well-formed zero-padded `YYYY-MM-DD` strings compare
lexically (section 5.1 of RFC 3339). So the string comparisons in the folds
and the `Date` comparison in `should_render` are one total order here.

Details of the code that the model keeps:

- Week cells are anchored at January 1 plus `7 * i` days, whatever weekday
  January 1 is.
- `should_render` compares `Date` objects, while the folds compare the raw
  strings. They agree on well-formed dates.
- Source line 104 gives a width of 800 or more when the end lies in an
  earlier year than the start, and above 800 once the end year is two or more
  before the start year. `Width` keeps that: only `Render`'s ranges are known
  to have at least one row (`WeekGrid.RenderedWidth`).

## Model

| member | source | states |
|---|---|---|
| `Calendar.JanFirst` | momento-mori.js:111 | definition only, no contract: January 1 of year `y` is the sum of the lengths of years `0 .. y - 1`; `JanFirstNext`, `JanFirstClosedForm` and `JanFirstLess` state its properties |
| `Calendar.WeekStart` | momento-mori.js:116 | week `i < 52` of year `y` starts on or after January 1 and ends no later than January 1 of `y + 1` |
| `Calendar.YearOf` | momento-mori.js:101 | the year of a day is the unique `r` with `JanFirst(r) <= d < JanFirst(r + 1)` |
| `Calendar.YearFrom` | momento-mori.js:110 | searching upward from any year that starts on or before `d` finds the year containing `d` |
| `Calendar.Midnight` | momento-mori.js:138 | definition only, no contract: the millisecond value of a week start that is compared with `now`; `StatusOf` and `CellAt` state what that comparison decides |
| `Calendar.JanFirstNext` | momento-mori.js:111 | definitional (the recurrence of `JanFirst` at `y + 1`): consecutive January firsts are 365 days apart, or 366 after a leap year |
| `Calendar.JanFirstClosedForm` | momento-mori.js:111 | January 1 of year `y` is day `365 y` plus the leap days of the Gregorian rule (every fourth year, except centuries not divisible by 400) |
| `Calendar.JanFirstLess` | momento-mori.js:110 | a later year starts no earlier than the end of any earlier year |
| `Calendar.YearOfUnique` | momento-mori.js:101 | a day between `JanFirst(y)` and `JanFirst(y + 1)` has year `y` |
| `Calendar.YearOfMonotone` | momento-mori.js:101 | a later day never has an earlier year |
| `Calendar.WeekStartInYear` | momento-mori.js:115-116 | each of the 52 weeks `JanFirst(y) + 7 * i` starts in year `y`, a full week before year `y + 1` |
| `Calendar.CivilInYear` | momento-mori.js:93-94 | a valid civil date lies in its own year |
| `Calendar.FromCivil` | momento-mori.js:93-94 | definition only, no contract: the day ordinal of a well-formed `YYYY-MM-DD` date, as `DateTime.fromISO` and `new Date` parse it (also lines 15-16 and 123-124); `CivilInYear` and `CivilOrder` state its properties |
| `Calendar.CivilOrder` | momento-mori.js:86-87 | ordinal order agrees with `(year, month, day)` order, both directions, so with the lexical order of well-formed date strings |
| `Calendar.JanFirst2021` | momento-mori.js:111 | 2021-01-01 is January 1 of 2021, day 738156 counted from 0000-01-01 |
| `Phases.NewPhase` | momento-mori.js:6-9 | a new phase is black and enabled, and is not drawn until it has a name and dates |
| `Phases.Before` | momento-mori.js:15-17 | the comparison `d0 < d1` is false when either date is unset or unparseable |
| `Phases.ShouldRender` | momento-mori.js:11-18 | a drawn phase has a name, is enabled, and has both dates set with start strictly before end; `ShownIffOrdered` gives the converse |
| `Phases.HiddenWhenUnnamedOrDisabled` | momento-mori.js:11-13 | definitional (unfolds `ShouldRender`): a phase with no name, or disabled, is never drawn, whatever its dates |
| `Phases.ShownIffOrdered` | momento-mori.js:15-17 | definitional (unfolds `ShouldRender`): a named, enabled phase is drawn if and only if both dates are set and start < end |
| `Phases.HiddenWhenNotBefore` | momento-mori.js:15-17 | definitional (unfolds `ShouldRender`): a start on or after the end always hides a phase |
| `Resolver.Renderable` | momento-mori.js:74-79 | the kept phases are exactly the drawable phases of the list, and every kept phase is drawable |
| `Resolver.RenderableAppend` | momento-mori.js:74-79 | filtering distributes over concatenation, so the kept phases keep their list order |
| `Resolver.RenderableSingle` | momento-mori.js:78 | one phase is kept exactly when it is drawable |
| `Resolver.RenderableKeepsAll` | momento-mori.js:74-79 | a list of drawable phases is kept whole |
| `Resolver.RenderableIdempotent` | momento-mori.js:74-79 | filtering the kept phases again changes nothing |
| `Resolver.FoldMinStart` | momento-mori.js:86 | the min fold is at most its seed and every start, and is the seed or some phase's start |
| `Resolver.FoldMaxEnd` | momento-mori.js:87 | the max fold is at least its seed and every end, and is the seed or some phase's end |
| `Resolver.MinStart` | momento-mori.js:86 | the resolved start is the start of some drawable phase and no later than any of them |
| `Resolver.MaxEnd` | momento-mori.js:87 | the resolved end is the end of some drawable phase and no earlier than any of them |
| `Resolver.RangeOrdered` | momento-mori.js:84-89 | a resolved range starts strictly before it ends, and its end year is not before its start year |
| `Resolver.ResolveExample` | momento-mori.js:86-87 | phases 2020-01-01..2020-06-01 and 2019-05-01..2021-01-01 are both kept and resolve to 2019-05-01..2021-01-01 |
| `WeekGrid.Width` | momento-mori.js:101-104 | the width is at least 400 and at least `800 - 10 * years`, and equals one of them: their maximum |
| `WeekGrid.WidthBounds` | momento-mori.js:101-104 | with at least one row the width is between 400 and 790 |
| `WeekGrid.WidthClamped` | momento-mori.js:104 | the width is clamped to 400 exactly when there are 40 rows or more |
| `WeekGrid.WidthExamples` | momento-mori.js:104 | one row gives 790 pixels, fifty rows give 400 |
| `WeekGrid.WidthAntitone` | momento-mori.js:104 | more rows never give a wider container |
| `WeekGrid.Covers` | momento-mori.js:127 | a phase covers a week only when both its dates are set and its start is not after its end |
| `WeekGrid.LastCover` | momento-mori.js:121-131 | definition only, no contract: the colour of the last covering phase in list order; `LastCoverSpec` and `OverlayLaterOverrides` characterise it |
| `WeekGrid.LastCoverSpec` | momento-mori.js:121-131 | no colour exactly when no phase covers the day, inclusive at both ends; otherwise the colour of a covering phase with no covering phase after it |
| `WeekGrid.OverlayColor` | momento-mori.js:121-131 | the `forEach` overlay loop leaves the colour the last covering phase gives, or none |
| `WeekGrid.OverlayLastWins` | momento-mori.js:122-130 | when two phases cover a week, the one listed second gives the colour |
| `WeekGrid.OverlayLaterOverrides` | momento-mori.js:122-130 | a covering phase gives the colour unless a later phase also covers the week, which then decides |
| `WeekGrid.StatusOf` | momento-mori.js:134-142 | past only for weeks that started before `now`; a week before the range in the first row is future, as is a week after it in the last row |
| `WeekGrid.StatusInRange` | momento-mori.js:138-141 | inside the range a week is past exactly when it started before `now` |
| `WeekGrid.StatusByRange` | momento-mori.js:134-142 | for a week of a row from the start's year to the end's, a week outside the range is future, and one inside it is past exactly when it started before `now` |
| `WeekGrid.StatusInteriorRow` | momento-mori.js:134-142 | in a row that is neither first nor last, the range is ignored and only `now` decides |
| `WeekGrid.Rows` | momento-mori.js:101 | a range whose start is not after its end has at least one row |
| `WeekGrid.RowCount` | momento-mori.js:101-110 | no row is drawn exactly when the end lies in an earlier year than the start; otherwise, for an ordered range, the source's row count |
| `WeekGrid.CellAt` | momento-mori.js:114-142 | a cell is marked past only when its week started before `now` |
| `WeekGrid.Cells` | momento-mori.js:110-145 | the first `n` cells of the grid are `n` cells |
| `WeekGrid.GridCells` | momento-mori.js:110-145 | the grid holds 52 cells for every row |
| `WeekGrid.CellLayout` | momento-mori.js:110-116 | cell `52 * r + i` is week `i` of year `startYear + r`, starting `JanFirst + 7 * i`, and lies in that year |
| `WeekGrid.CellYearInRange` | momento-mori.js:110 | every cell's row is a year from the start's to the end's |
| `WeekGrid.CellsChronological` | momento-mori.js:110-116 | week starts strictly increase along the grid, across row boundaries too |
| `WeekGrid.CellsAt` | momento-mori.js:110-145 | the first `n` cells appended are `n` long and cell `k` is `CellAt(k)` |
| `WeekGrid.CellsWeekApart` | momento-mori.js:115-116 | consecutive cells of a row are exactly seven days apart |
| `WeekGrid.CellStatus` | momento-mori.js:134-142 | over the whole grid a week outside the range is future, and a week inside it is past exactly when it started before `now` |
| `WeekGrid.SingleYearGrid` | momento-mori.js:110-116 | a range within one year gives one row whose weeks start at January 1 plus `7 * k` |
| `WeekGrid.GridWholeYear` | momento-mori.js:110-116 | a range from January 1 to December 31 of one year (2021-01-01..2021-12-31, say) gives exactly 52 cells, each starting in that year, the first on January 1, seven days apart |
| `WeekGrid.Grid.Shows` | momento-mori.js:92-147 | a container that shows a grid holds exactly 52 cells per row |
| `WeekGrid.Grid.GenerateWeeksGrid` | momento-mori.js:92-147 | the container ends holding exactly `52 * rows` cells, cell `k` as `CellAt` gives it, and width `Width(rows)`; nothing of the old grid remains |
| `WeekGrid.Grid.AppendRow` | momento-mori.js:110-145 | one pass of the year loop appends exactly the 52 cells of the next row |
| `WeekGrid.Grid.Render` | momento-mori.js:81-90 | with no drawable phase the cells and width are unchanged; otherwise the container shows the grid for the resolved range over the drawable phases |
| `WeekGrid.RenderedWidth` | momento-mori.js:84-104 | a rendered grid has at least one row, so its width lies between 400 and 790 |

## Left out

- `add_phase` and the `onchange` handlers (lines 21-72) are form building and event wiring. They only set a field of a phase and call `render`. A `Phase` here is a value snapshot of one record.
- The DOM is not modelled: element lookup, creation, class lists and styles. The phase list is an input `seq<Phase>`. The container is the `Grid` object. Its output is a cell sequence (row, week start, status, optional colour) and a width in pixels, not a `px` string or CSS classes.
- Luxon and JavaScript `Date` are foreign code. Dates are day ordinals of a proleptic Gregorian calendar, and `plus({ weeks: i })` is `7 * i` days. Time zones and daylight-saving shifts are not modelled. Every date is local midnight, and years before 0000 are not modelled.
- `DateTime.now()` is clock input, so `now` is a parameter of `GenerateWeeksGrid` and `Render`.
- Malformed date strings are not modelled. An unset or unparseable date is `None`. Every comparison with `None` is false, so such a phase is never drawn and never covers a week. A well-formed date string is its ordinal (`Calendar.FromCivil`).
- `decLast` (line 112) is unused and is left out. The `inPhase` flag (lines 121, 129) is kept as a local of the overlay loop, which the source never reads.
- `get_phases` runs twice, at lines 82 and 107. Nothing changes the phases in between, so both calls see one snapshot: `Render` filters it once for the range, and `GenerateWeeksGrid` filters the same snapshot again for the colours.
