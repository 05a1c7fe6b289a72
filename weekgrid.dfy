/**
 * The life-calendar grid: one row per calendar year of the resolved range,
 * 52 weekly cells per row, each tinted by the last phase covering it and
 * marked past or future.
 */
module WeekGrid {
  import opened Options
  import opened Calendar
  import opened Phases
  import opened Resolver

  datatype Status = Past | Future

  /** One weekly cell: its row (year), the day it starts, its status and its tint, if any. */
  datatype Cell = Cell(year: nat, weekStart: Day, status: Status, color: Option<string>)

  // ---------------------------------------------------------------------
  // Container width
  // ---------------------------------------------------------------------

  /** Container width in pixels for `years` rows: 800 less 10 per row, but never under 400. */
  function Width(years: int): (w: int)
    ensures w >= 400 && w >= 800 - years * 10
    ensures w == 400 || w == 800 - years * 10
  {
    if 800 - years * 10 < 400 then 400
    else 800 - years * 10
  }

  /** With at least one row the width lies between 400 and 790 pixels. */
  lemma WidthBounds(years: int)
    requires years >= 1
    ensures 400 <= Width(years) <= 790
  {
  }

  /** The clamp is reached exactly at 40 rows. */
  lemma WidthClamped(years: int)
    ensures Width(years) == 400 <==> years >= 40
  {
  }

  lemma WidthExamples()
    ensures Width(1) == 790
    ensures Width(50) == 400
  {
  }

  /** Fewer rows never give a narrower container. */
  lemma WidthAntitone(a: int, b: int)
    requires a <= b
    ensures Width(b) <= Width(a)
  {
  }

  // ---------------------------------------------------------------------
  // Overlay colour
  // ---------------------------------------------------------------------

  /** Whether a phase's interval, inclusive at both ends, contains day `w`; false for a missing date. */
  predicate Covers(p: Phase, w: Day)
    ensures Covers(p, w) ==> p.d0.Some? && p.d1.Some? && p.d0.value <= p.d1.value
  {
    p.d0.Some? && p.d1.Some? && p.d0.value <= w && w <= p.d1.value
  }

  /** The colour of the last phase in list order that covers day `w`, if any phase does. */
  function LastCover(ps: seq<Phase>, w: Day): (r: Option<string>)
    decreases |ps|
  {
    if ps == [] then None
    else if Covers(ps[|ps| - 1], w) then Some(ps[|ps| - 1].color)
    else LastCover(ps[..|ps| - 1], w)
  }

  /**
   * No colour exactly when no phase covers the day; otherwise the colour is
   * that of a covering phase after which no phase covers the day.
   */
  lemma {:induction false} LastCoverSpec(ps: seq<Phase>, w: Day)
    ensures LastCover(ps, w).None? <==> forall k :: 0 <= k < |ps| ==> !Covers(ps[k], w)
    ensures LastCover(ps, w).Some? ==>
              exists k :: 0 <= k < |ps| && Covers(ps[k], w) && ps[k].color == LastCover(ps, w).value &&
                          forall j :: k < j < |ps| ==> !Covers(ps[j], w)
    decreases |ps|
  {
    if ps != [] {
      var n := |ps| - 1;
      if Covers(ps[n], w) {
        assert LastCover(ps, w) == Some(ps[n].color);
      } else {
        var init := ps[..n];
        assert LastCover(ps, w) == LastCover(init, w);
        LastCoverSpec(init, w);
        assert forall k :: 0 <= k < n ==> ps[k] == init[k];
        if LastCover(init, w).Some? {
          var k :| 0 <= k < |init| && Covers(init[k], w) && init[k].color == LastCover(init, w).value &&
                   forall j :: k < j < |init| ==> !Covers(init[j], w);
          assert ps[k] == init[k];
          assert forall j :: k < j < |ps| ==> !Covers(ps[j], w);
        } else {
          assert forall k :: 0 <= k < |ps| ==> !Covers(ps[k], w);
        }
      }
    }
  }

  /** Two phases covering the same week: the one listed second supplies the colour. */
  lemma OverlayLastWins(first: Phase, second: Phase, w: Day)
    requires Covers(first, w) && Covers(second, w)
    ensures LastCover([first, second], w) == Some(second.color)
  {
  }

  /** A covering phase decides the colour unless a later phase also covers the week. */
  lemma {:induction false} OverlayLaterOverrides(a: seq<Phase>, q: Phase, b: seq<Phase>, w: Day)
    requires Covers(q, w)
    ensures LastCover(a + [q] + b, w) == if LastCover(b, w).Some? then LastCover(b, w) else Some(q.color)
    decreases |b|
  {
    var s := a + [q] + b;
    if b == [] {
      assert s[|s| - 1] == q;
    } else {
      var n := |b| - 1;
      assert s[|s| - 1] == b[n];
      if !Covers(b[n], w) {
        assert s[..|s| - 1] == a + [q] + b[..n];
        OverlayLaterOverrides(a, q, b[..n], w);
      }
    }
  }

  /**
   * The `forEach` over the phases for one week: every covering phase
   * overwrites the colour, so the last one in list order remains.
   */
  method OverlayColor(phases: seq<Phase>, weekStart: Day) returns (color: Option<string>)
    ensures color == LastCover(phases, weekStart)
  {
    color := None;
    var inPhase := false;
    for j := 0 to |phases|
      invariant color == LastCover(phases[..j], weekStart)
      invariant inPhase <==> color.Some?
    {
      var phase := phases[j];
      if Covers(phase, weekStart) {
        color := Some(phase.color);
        inPhase := true;
      }
      assert phases[..j + 1][..j] == phases[..j];
    }
    assert phases[..|phases|] == phases;
  }

  // ---------------------------------------------------------------------
  // Past or future
  // ---------------------------------------------------------------------

  /**
   * The status rules, in order: before the range in the first row, or after
   * it in the last row, is future; otherwise a week that started before
   * `now` is past and any other is future.
   */
  function StatusOf(w: Day, year: nat, start: Day, end: Day, now: Instant): (s: Status)
    ensures s == Past ==> Midnight(w) < now
    ensures w < start && year == YearOf(start) ==> s == Future
    ensures w > end && year == YearOf(end) ==> s == Future
  {
    if w < start && year == YearOf(start) then Future
    else if w > end && year == YearOf(end) then Future
    else if Midnight(w) < now then Past
    else Future
  }

  /** Inside the range, the status depends on `now` alone. */
  lemma StatusInRange(w: Day, year: nat, start: Day, end: Day, now: Instant)
    requires start <= w <= end
    ensures StatusOf(w, year, start, end, now) == Past <==> Midnight(w) < now
  {
  }

  /** A row that is neither the first nor the last ignores the range and looks at `now` only. */
  lemma StatusInteriorRow(w: Day, year: nat, start: Day, end: Day, now: Instant)
    requires year != YearOf(start) && year != YearOf(end)
    ensures StatusOf(w, year, start, end, now) == Past <==> Midnight(w) < now
  {
  }

  /**
   * For a week in a row between the start's year and the end's, the
   * asymmetric rules amount to: outside the range it is future, inside it
   * it is past exactly when it started before `now`.
   */
  lemma StatusByRange(w: Day, year: nat, start: Day, end: Day, now: Instant)
    requires YearOf(w) == year && YearOf(start) <= year <= YearOf(end)
    ensures StatusOf(w, year, start, end, now) ==
            if w < start || w > end then Future
            else if Midnight(w) < now then Past
            else Future
  {
    if w < start {
      YearOfMonotone(w, start);
    } else if w > end {
      YearOfMonotone(end, w);
    }
  }

  // ---------------------------------------------------------------------
  // The cells of a grid
  // ---------------------------------------------------------------------

  /** Number of rows as the source counts them; zero or negative when `end` is in an earlier year. */
  function Rows(start: Day, end: Day): (n: int)
    ensures start <= end ==> n >= 1
  {
    var n := YearOf(end) - YearOf(start) + 1;
    if start <= end then YearOfMonotone(start, end); n else n
  }

  /** Rows actually drawn: none when `end` is in an earlier year than `start`. */
  function RowCount(start: Day, end: Day): (n: nat)
    ensures n == 0 <==> YearOf(end) < YearOf(start)
    ensures start <= end ==> n == Rows(start, end)
  {
    if Rows(start, end) > 0 then Rows(start, end) else 0
  }

  /** Cell `k` of the grid for range `[start, end]`: week `k % 52` of row `k / 52`. */
  function CellAt(start: Day, end: Day, phases: seq<Phase>, now: Instant, k: nat): (c: Cell)
    ensures c.status == Past ==> Midnight(c.weekStart) < now
  {
    var year := YearOf(start) + k / 52;
    var w := WeekStart(year, k % 52);
    Cell(year, w, StatusOf(w, year, start, end, now), LastCover(phases, w))
  }

  /** The first `n` cells of the grid, in order. */
  function Cells(start: Day, end: Day, phases: seq<Phase>, now: Instant, n: nat): (cs: seq<Cell>)
    ensures |cs| == n
  {
    if n == 0 then [] else Cells(start, end, phases, now, n - 1) + [CellAt(start, end, phases, now, n - 1)]
  }

  /** All cells of the grid for `[start, end]`: 52 per row. */
  function GridCells(start: Day, end: Day, phases: seq<Phase>, now: Instant): (cs: seq<Cell>)
    ensures |cs| == 52 * RowCount(start, end)
  {
    Cells(start, end, phases, now, 52 * RowCount(start, end))
  }

  /** The first `n` cells are `n` cells, and the `k`-th of them is `CellAt(k)`. */
  lemma {:induction false} CellsAt(start: Day, end: Day, phases: seq<Phase>, now: Instant, n: nat, k: nat)
    requires k < n
    ensures |Cells(start, end, phases, now, n)| == n
    ensures Cells(start, end, phases, now, n)[k] == CellAt(start, end, phases, now, k)
  {
    if k < n - 1 {
      CellsAt(start, end, phases, now, n - 1, k);
    }
  }

  /** Appending week `i` of row `r` to the first `52 * r + i` cells gives the first `52 * r + i + 1`. */
  lemma CellsExtend(start: Day, end: Day, phases: seq<Phase>, now: Instant, r: nat, i: nat, cells: seq<Cell>, cell: Cell)
    requires i < 52
    requires cells == Cells(start, end, phases, now, 52 * r + i)
    requires cell.year == YearOf(start) + r && cell.weekStart == WeekStart(cell.year, i)
    requires cell.status == StatusOf(cell.weekStart, cell.year, start, end, now)
    requires cell.color == LastCover(phases, cell.weekStart)
    ensures cells + [cell] == Cells(start, end, phases, now, 52 * r + i + 1)
  {
    CellAtRowWeek(start, end, phases, now, r, i);
  }

  lemma RowWeekIndex(r: nat, i: nat)
    requires i < 52
    ensures (52 * r + i) / 52 == r
    ensures (52 * r + i) % 52 == i
  {
  }

  /** Cell `52 * r + i` is built from week `i` of row `r`. */
  lemma CellAtRowWeek(start: Day, end: Day, phases: seq<Phase>, now: Instant, r: nat, i: nat)
    requires i < 52
    ensures CellAt(start, end, phases, now, 52 * r + i) ==
            var y := YearOf(start) + r;
            Cell(y, WeekStart(y, i), StatusOf(WeekStart(y, i), y, start, end, now), LastCover(phases, WeekStart(y, i)))
  {
    RowWeekIndex(r, i);
  }

  /** Cells run row by row: index `52 * r + i` is week `i` of year `YearOf(start) + r`, and lies in that year. */
  lemma CellLayout(start: Day, end: Day, phases: seq<Phase>, now: Instant, r: nat, i: nat)
    requires i < 52
    ensures CellAt(start, end, phases, now, 52 * r + i).year == YearOf(start) + r
    ensures CellAt(start, end, phases, now, 52 * r + i).weekStart == JanFirst(YearOf(start) + r) + 7 * i
    ensures YearOf(CellAt(start, end, phases, now, 52 * r + i).weekStart) == YearOf(start) + r
  {
    RowWeekIndex(r, i);
    WeekStartInYear(YearOf(start) + r, i);
  }

  /** Every cell of the grid belongs to a year between the start's and the end's. */
  lemma CellYearInRange(start: Day, end: Day, phases: seq<Phase>, now: Instant, k: nat)
    requires k < 52 * RowCount(start, end)
    ensures YearOf(start) <= CellAt(start, end, phases, now, k).year <= YearOf(end)
  {
  }

  /** Week starts strictly increase along the grid, across row boundaries too. */
  lemma CellsChronological(start: Day, end: Day, phases: seq<Phase>, now: Instant, k: nat, k': nat)
    requires k < k'
    ensures CellAt(start, end, phases, now, k).weekStart < CellAt(start, end, phases, now, k').weekStart
  {
    var y, y' := YearOf(start) + k / 52, YearOf(start) + k' / 52;
    var i, i' := k % 52, k' % 52;
    assert y <= y';
    if y < y' {
      WeekStartInYear(y, i);
      if y + 1 < y' {
        JanFirstLess(y + 1, y');
      }
    }
  }

  /** Inside a row consecutive cells are exactly seven days apart. */
  lemma CellsWeekApart(start: Day, end: Day, phases: seq<Phase>, now: Instant, r: nat, i: nat)
    requires i + 1 < 52
    ensures CellAt(start, end, phases, now, 52 * r + i + 1).weekStart ==
            CellAt(start, end, phases, now, 52 * r + i).weekStart + 7
  {
    RowWeekIndex(r, i);
    RowWeekIndex(r, i + 1);
  }

  /** Over the whole grid a week outside the range is future, and one inside it is past exactly when it started before `now`. */
  lemma CellStatus(start: Day, end: Day, phases: seq<Phase>, now: Instant, k: nat)
    requires k < 52 * RowCount(start, end)
    ensures CellAt(start, end, phases, now, k).status ==
            if CellAt(start, end, phases, now, k).weekStart < start || CellAt(start, end, phases, now, k).weekStart > end then Future
            else if Midnight(CellAt(start, end, phases, now, k).weekStart) < now then Past
            else Future
  {
    var c := CellAt(start, end, phases, now, k);
    CellLayout(start, end, phases, now, k / 52, k % 52);
    CellYearInRange(start, end, phases, now, k);
    StatusByRange(c.weekStart, c.year, start, end, now);
  }

  /** A range within one year gives one row of 52 weeks of that year, seven days apart from January 1. */
  lemma SingleYearGrid(start: Day, end: Day, phases: seq<Phase>, now: Instant, k: nat)
    requires YearOf(start) == YearOf(end) && k < 52
    ensures RowCount(start, end) == 1
    ensures CellAt(start, end, phases, now, k).year == YearOf(start)
    ensures CellAt(start, end, phases, now, k).weekStart == JanFirst(YearOf(start)) + 7 * k
  {
    CellLayout(start, end, phases, now, 0, k);
  }

  /** A range from January 1 to December 31 of one year (2021, say): 52 weeks of that year, the first on January 1. */
  lemma GridWholeYear(y: nat, start: Day, end: Day, phases: seq<Phase>, now: Instant, k: nat)
    requires start == FromCivil(y, 1, 1) && end == FromCivil(y, 12, 31) && k < 52
    ensures RowCount(start, end) == 1
    ensures CellAt(start, end, phases, now, k).year == y
    ensures CellAt(start, end, phases, now, k).weekStart == start + 7 * k
    ensures YearOf(CellAt(start, end, phases, now, k).weekStart) == y
    ensures |GridCells(start, end, phases, now)| == 52
  {
    CivilInYear(y, 1, 1);
    CivilInYear(y, 12, 31);
    SingleYearGrid(start, end, phases, now, k);
    assert |GridCells(start, end, phases, now)| == 52 * RowCount(start, end);
    CellLayout(start, end, phases, now, 0, k);
    assert 52 * 0 + k == k;
  }

  // ---------------------------------------------------------------------
  // The grid container
  // ---------------------------------------------------------------------

  /** The grid container: its cells in display order and its width (unset until the first grid). */
  class Grid {
    var cells: seq<Cell>
    var width: Option<int>

    constructor ()
      ensures cells == [] && width == None
    {
      cells := [];
      width := None;
    }

    /** The container shows exactly the grid for `[start, end]` over `phases` at `now`. */
    ghost predicate Shows(start: Day, end: Day, phases: seq<Phase>, now: Instant)
      reads this
      ensures Shows(start, end, phases, now) ==> |cells| == 52 * RowCount(start, end)
    {
      && width == Some(Width(Rows(start, end)))
      && cells == GridCells(start, end, phases, now)
    }

    /**
     * Clears the container, sets its width, and appends 52 cells for every
     * year from the start's to the end's; the drawable phases are read from
     * `snapshot`.
     */
    method GenerateWeeksGrid(start: Day, end: Day, snapshot: seq<Phase>, now: Instant)
      modifies this
      ensures Shows(start, end, Renderable(snapshot), now)
    {
      var startYear := YearOf(start);
      var endYear := YearOf(end);
      cells := [];
      var years := endYear - startYear + 1;
      width := Some(Width(years));
      var phases := Renderable(snapshot);
      var year: nat := startYear;
      while year <= endYear
        invariant startYear <= year
        invariant year <= endYear + 1 || year == startYear
        invariant cells == Cells(start, end, phases, now, 52 * (year - startYear))
        invariant width == Some(Width(years))
      {
        AppendRow(start, end, phases, now, year);
        year := year + 1;
      }
    }

    /** One row: the 52 weeks of `year`, each with its colour and status, appended in order. */
    method AppendRow(start: Day, end: Day, phases: seq<Phase>, now: Instant, year: nat)
      requires YearOf(start) <= year
      requires cells == Cells(start, end, phases, now, 52 * (year - YearOf(start)))
      modifies this`cells
      ensures cells == Cells(start, end, phases, now, 52 * (year - YearOf(start)) + 52)
    {
      var row := year - YearOf(start);
      var janFirst := JanFirst(year);
      for i := 0 to 52
        invariant cells == Cells(start, end, phases, now, 52 * row + i)
      {
        var weekStart := janFirst + 7 * i;
        var color := OverlayColor(phases, weekStart);
        var status := StatusOf(weekStart, year, start, end, now);
        var cell := Cell(year, weekStart, status, color);
        CellsExtend(start, end, phases, now, row, i, cells, cell);
        cells := cells + [cell];
      }
    }

    /**
     * Recomputes the grid from a snapshot of the phase list. With no
     * drawable phase it returns at once and the container keeps whatever it
     * showed before.
     */
    method Render(snapshot: seq<Phase>, now: Instant)
      modifies this
      ensures Renderable(snapshot) == [] ==> cells == old(cells) && width == old(width)
      ensures Renderable(snapshot) != [] ==>
                Shows(MinStart(Renderable(snapshot)), MaxEnd(Renderable(snapshot)), Renderable(snapshot), now)
    {
      var ps := Renderable(snapshot);
      if |ps| == 0 {
        return;
      }
      var minStartDate := MinStart(ps);
      var maxEndDate := MaxEnd(ps);
      GenerateWeeksGrid(minStartDate, maxEndDate, snapshot, now);
    }
  }

  /** A rendered grid has at least one row, so its width lies between 400 and 790 pixels. */
  lemma RenderedWidth(ps: seq<Phase>)
    requires ps != [] && AllRenderable(ps)
    ensures RowCount(MinStart(ps), MaxEnd(ps)) >= 1
    ensures 400 <= Width(Rows(MinStart(ps), MaxEnd(ps))) <= 790
  {
    RangeOrdered(ps);
  }
}
