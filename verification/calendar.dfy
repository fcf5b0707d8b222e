/** The month grid of the calendar view: one cell per day from the Sunday that
    starts the week of the 1st to the Saturday that ends the week of the last
    day, each cell carrying its flags and the reminders stored under its key. */
module Calendar {
  import opened Dates
  import opened Storage

  /** One cell of the grid (`ICell`). */
  datatype Cell = Cell(
    fullDate: Date,
    day: nat,
    isToday: bool,
    isWeekend: bool,
    isWithinCurrentMonth: bool,
    reminders: Option<seq<Reminder>>)

  /** A month the view can show. Years start at 1 so that the first week of
      the grid never reaches before 0000-01-01. */
  predicate ValidMonth(year: nat, month: nat)
  {
    year >= 1 && 1 <= month <= 12
  }

  /** `startOfMonth`. */
  function MonthStart(year: nat, month: nat): (d: Date)
    requires ValidMonth(year, month)
    ensures ValidDate(d)
  {
    Date(year, month, 1)
  }

  /** `endOfMonth`, as a day. */
  function MonthEnd(year: nat, month: nat): (d: Date)
    requires ValidMonth(year, month)
    ensures ValidDate(d)
    ensures Ordinal(d) == Ordinal(MonthStart(year, month)) + DaysInMonth(year, month) - 1
  {
    Date(year, month, DaysInMonth(year, month))
  }

  /** The first day of the grid: `startOfWeek(monthStart)`. */
  function GridStart(year: nat, month: nat): (d: Date)
    requires ValidMonth(year, month)
    ensures ValidDate(d)
  {
    StartOfWeek(MonthStart(year, month))
  }

  /** The last day of the grid: `endOfWeek(monthEnd)`. */
  function GridEnd(year: nat, month: nat): (d: Date)
    requires ValidMonth(year, month)
    ensures ValidDate(d)
  {
    EndOfWeek(MonthEnd(year, month))
  }

  /** Number of cells: days from GridStart to GridEnd, both included. */
  function GridSize(year: nat, month: nat): nat
    requires ValidMonth(year, month)
  {
    Ordinal(GridEnd(year, month)) + 1 - Ordinal(GridStart(year, month))
  }

  /** Number of leading cells from the previous month. */
  function Lead(year: nat, month: nat): nat
    requires ValidMonth(year, month)
  {
    Weekday(Ordinal(MonthStart(year, month)))
  }

  /** The cell the loop body builds for day `d`: its in-month flag holds
      exactly for the days of the reference month, its today flag exactly for
      today, and it lists what is stored under the day's key. */
  function CellFor(d: Date, year: nat, month: nat, today: Date, index: Index): (c: Cell)
    requires ValidMonth(year, month) && ValidDate(d)
    ensures c.fullDate == d && c.day == d.day
    ensures c.isWithinCurrentMonth <==> d.year == year && d.month == month
    ensures ValidDate(today) ==> (c.isToday <==> d == today)
    ensures c.reminders.Some? <==> KeyOf(d) in index
    ensures c.reminders.Some? ==> c.reminders.value == index[KeyOf(d)]
  {
    var formattedDay := KeyOf(d);
    var c := Cell(
      d,
      d.day,
      formattedDay == KeyOf(today),
      IsWeekend(d),
      Ordinal(MonthStart(year, month)) <= Ordinal(d) <= Ordinal(MonthEnd(year, month)),
      StorageByKey(index, formattedDay));
    MonthRange(d, year, month);
    if ValidDate(today) then
      KeyOfInjective(d, today);
      c
    else c
  }

  /** The cells hold consecutive days, the first one of ordinal `s`. */
  ghost predicate DaysFrom(days: seq<Cell>, s: nat)
  {
    forall i :: 0 <= i < |days| ==> ValidDate(days[i].fullDate) && Ordinal(days[i].fullDate) == s + i
  }

  /** Every cell is the one the loop body builds for its own day. */
  ghost predicate CellsBuilt(days: seq<Cell>, year: nat, month: nat, today: Date, index: Index)
    requires ValidMonth(year, month)
  {
    forall i :: 0 <= i < |days| ==>
      ValidDate(days[i].fullDate) && days[i] == CellFor(days[i].fullDate, year, month, today, index)
  }

  lemma DaysFromAppend(days: seq<Cell>, s: nat, c: Cell)
    requires DaysFrom(days, s)
    requires ValidDate(c.fullDate) && Ordinal(c.fullDate) == s + |days|
    ensures DaysFrom(days + [c], s)
  {
  }

  lemma CellsBuiltAppend(days: seq<Cell>, year: nat, month: nat, today: Date, index: Index, d: Date)
    requires ValidMonth(year, month) && ValidDate(d)
    requires CellsBuilt(days, year, month, today, index)
    ensures CellsBuilt(days + [CellFor(d, year, month, today, index)], year, month, today, index)
  {
  }

  /** `days` is the grid of the month: cell `i` is the cell of the day `i`
      days after GridStart, for every day up to GridEnd. */
  ghost predicate IsMonthGrid(days: seq<Cell>, year: nat, month: nat, today: Date, index: Index)
    requires ValidMonth(year, month)
  {
    && |days| == GridSize(year, month)
    && DaysFrom(days, Ordinal(GridStart(year, month)))
    && CellsBuilt(days, year, month, today, index)
  }

  /** `createCalendarRows`: walk day by day from GridStart while the day is
      not after GridEnd, pushing one cell per day. `today` stands for
      `new Date()` and `index` for the state `getStorageByKey` reads. */
  method CreateCalendarRows(year: nat, month: nat, today: Date, index: Index) returns (days: seq<Cell>)
    requires ValidMonth(year, month)
    ensures IsMonthGrid(days, year, month, today, index)
    ensures forall i :: 0 <= i < |days| ==>
      days[i].day == days[i].fullDate.day && days[i].reminders == StorageByKey(index, KeyOf(days[i].fullDate))
  {
    var monthStart := MonthStart(year, month);
    var monthEnd := MonthEnd(year, month);
    var startDate := StartOfWeek(monthStart);
    var endDate := EndOfWeek(monthEnd);

    days := [];
    var currentDay := startDate;

    while Ordinal(currentDay) <= Ordinal(endDate)
      invariant ValidDate(currentDay)
      invariant Ordinal(currentDay) == Ordinal(startDate) + |days| <= Ordinal(endDate) + 1
      invariant DaysFrom(days, Ordinal(startDate))
      invariant CellsBuilt(days, year, month, today, index)
      decreases Ordinal(endDate) + 1 - Ordinal(currentDay)
    {
      var dateObj := CellFor(currentDay, year, month, today, index);
      DaysFromAppend(days, Ordinal(startDate), dateObj);
      CellsBuiltAppend(days, year, month, today, index, currentDay);
      days := days + [dateObj];
      currentDay := NextDay(currentDay);
    }
  }

  // ---------------------------------------------------------------------
  // Properties of the grid

  /** Week arithmetic on plain ordinals: from the Sunday `s` on or before `f`
      to the Saturday `e` on or after `l = f + len - 1` lie whole weeks. */
  lemma WeeksBetween(s: nat, f: nat, l: nat, e: nat, len: nat)
    requires Weekday(s) == 0 && Weekday(e) == 6
    requires s <= f < s + 7 && l <= e < l + 7
    requires 28 <= len <= 31 && l + 1 == f + len
    ensures e + 1 >= s && (e + 1 - s) % 7 == 0 && 28 <= e + 1 - s <= 42
  {
    var qs, qe := (s + 6) / 7, (e + 6) / 7;
    assert s + 6 == 7 * qs;
    assert e == 7 * qe;
    assert e + 1 - s == 7 * (qe - qs + 1);
  }

  /** The same for a grid of `n` days, phrased without the ordinals. */
  lemma WholeWeeks(n: nat, s: nat, e: nat)
    requires n == e + 1 - s && e + 1 >= s && (e + 1 - s) % 7 == 0 && 28 <= e + 1 - s <= 42
    ensures n % 7 == 0 && 28 <= n <= 42
  {
  }

  /** `i` days after a Sunday is weekday `i % 7`. */
  lemma DaysAfterSunday(s: nat, i: nat)
    requires Weekday(s) == 0
    ensures Weekday(s + i) == i % 7
  {
    var q := (s + 6) / 7;
    assert s + i + 6 == 7 * q + i;
  }

  /** The grid starts on the Sunday of the week of the 1st, `Lead` days
      before it. */
  lemma GridStartShape(year: nat, month: nat)
    requires ValidMonth(year, month)
    ensures Weekday(Ordinal(GridStart(year, month))) == 0
    ensures Ordinal(GridStart(year, month)) + Lead(year, month) == Ordinal(MonthStart(year, month))
  {
  }

  /** The grid ends on the Saturday of the week of the last day. */
  lemma GridEndShape(year: nat, month: nat)
    requires ValidMonth(year, month)
    ensures Weekday(Ordinal(GridEnd(year, month))) == 6
    ensures Ordinal(MonthEnd(year, month)) <= Ordinal(GridEnd(year, month)) < Ordinal(MonthEnd(year, month)) + 7
  {
  }

  /** The ordinals of the grid's first day `s`, the month's first day `f`,
      the month's last day `l` and the grid's last day `e`, and how they
      relate. */
  lemma GridOrdinals(year: nat, month: nat) returns (s: nat, f: nat, l: nat, e: nat)
    requires ValidMonth(year, month)
    ensures s == Ordinal(GridStart(year, month)) && f == Ordinal(MonthStart(year, month))
    ensures l == Ordinal(MonthEnd(year, month)) && e == Ordinal(GridEnd(year, month))
    ensures Weekday(s) == 0 && Weekday(e) == 6
    ensures s + Lead(year, month) == f && s <= f < s + 7
    ensures l + 1 == f + DaysInMonth(year, month) && l <= e < l + 7
    ensures GridSize(year, month) == e + 1 - s
  {
    GridStartShape(year, month);
    GridEndShape(year, month);
    s, e := Ordinal(GridStart(year, month)), Ordinal(GridEnd(year, month));
    f, l := Ordinal(MonthStart(year, month)), Ordinal(MonthEnd(year, month));
  }

  /** The grid has a whole number of weeks: at least four, at most six. */
  lemma GridWholeWeeks(year: nat, month: nat)
    requires ValidMonth(year, month)
    ensures GridSize(year, month) % 7 == 0
    ensures 28 <= GridSize(year, month) <= 42
  {
    var s, f, l, e := GridOrdinals(year, month);
    WeeksBetween(s, f, l, e, DaysInMonth(year, month));
    WholeWeeks(GridSize(year, month), s, e);
  }

  /** A day lies between the month's first and last day exactly when it is
      a day of that month. */
  lemma MonthRange(d: Date, year: nat, month: nat)
    requires ValidMonth(year, month) && ValidDate(d)
    ensures Ordinal(MonthStart(year, month)) <= Ordinal(d) <= Ordinal(MonthEnd(year, month))
      <==> d.year == year && d.month == month
  {
    var first := MonthStart(year, month);
    var k := MonthIndex(first);
    OrdinalByMonth(first);
    OrdinalWithinMonth(d, k);
    assert MonthFirst(k) == Ordinal(first);
    assert MonthFirst(k) + MonthLength(k) == Ordinal(MonthEnd(year, month)) + 1;
    assert MonthIndex(d) == k <==> d.year == year && d.month == month;
  }

  /** Cells are consecutive days: each is the day after the one before, with
      GridStart first and GridEnd last. */
  lemma GridConsecutive(days: seq<Cell>, year: nat, month: nat, today: Date, index: Index)
    requires ValidMonth(year, month)
    requires IsMonthGrid(days, year, month, today, index)
    ensures |days| > 0
    ensures days[0].fullDate == GridStart(year, month)
    ensures days[|days| - 1].fullDate == GridEnd(year, month)
    ensures forall i :: 0 <= i < |days| - 1 ==> days[i + 1].fullDate == NextDay(days[i].fullDate)
  {
    GridWholeWeeks(year, month);
    OrdinalInjective(days[0].fullDate, GridStart(year, month));
    OrdinalInjective(days[|days| - 1].fullDate, GridEnd(year, month));
    forall i | 0 <= i < |days| - 1 ensures days[i + 1].fullDate == NextDay(days[i].fullDate) {
      OrdinalInjective(days[i + 1].fullDate, NextDay(days[i].fullDate));
    }
  }

  /** Distinct cells are distinct days. */
  lemma GridDistinctDays(days: seq<Cell>, year: nat, month: nat, today: Date, index: Index)
    requires ValidMonth(year, month)
    requires IsMonthGrid(days, year, month, today, index)
    ensures forall i, j :: 0 <= i < j < |days| ==> days[i].fullDate != days[j].fullDate
  {
  }

  /** The grid holds the first and the last day of the month, at the cells
      after the leading days of the previous month. */
  lemma GridCoversMonth(days: seq<Cell>, year: nat, month: nat, today: Date, index: Index)
    requires ValidMonth(year, month)
    requires IsMonthGrid(days, year, month, today, index)
    ensures Lead(year, month) + DaysInMonth(year, month) <= |days|
    ensures days[Lead(year, month)].fullDate == MonthStart(year, month)
    ensures days[Lead(year, month) + DaysInMonth(year, month) - 1].fullDate == MonthEnd(year, month)
  {
    var s, f, l, e := GridOrdinals(year, month);
    CellsAtOrdinals(days, s, Lead(year, month), DaysInMonth(year, month), MonthStart(year, month), MonthEnd(year, month));
  }

  /** In a run of cells holding consecutive days from ordinal `s`, the cells
      `a` and `a + n - 1` hold the days of ordinals `s + a` and `s + a + n - 1`. */
  lemma CellsAtOrdinals(days: seq<Cell>, s: nat, a: nat, n: nat, first: Date, last: Date)
    requires DaysFrom(days, s)
    requires 1 <= n && a + n <= |days|
    requires ValidDate(first) && Ordinal(first) == s + a
    requires ValidDate(last) && Ordinal(last) == s + a + n - 1
    ensures days[a].fullDate == first && days[a + n - 1].fullDate == last
  {
    OrdinalInjective(days[a].fullDate, first);
    OrdinalInjective(days[a + n - 1].fullDate, last);
  }

  /** The in-month flag marks exactly the month's days, which are the
      DaysInMonth cells after the lead. */
  lemma GridWithinMonth(days: seq<Cell>, year: nat, month: nat, today: Date, index: Index)
    requires ValidMonth(year, month)
    requires IsMonthGrid(days, year, month, today, index)
    ensures forall i :: 0 <= i < |days| ==>
      (days[i].isWithinCurrentMonth <==> days[i].fullDate.year == year && days[i].fullDate.month == month)
    ensures forall i :: 0 <= i < |days| ==>
      (days[i].isWithinCurrentMonth <==> Lead(year, month) <= i < Lead(year, month) + DaysInMonth(year, month))
  {
    GridStartShape(year, month);
    GridEndShape(year, month);
  }

  /** Number of cells flagged as inside the month. */
  function CountWithinMonth(days: seq<Cell>): nat
  {
    if days == [] then 0
    else CountWithinMonth(days[..|days| - 1]) + (if days[|days| - 1].isWithinCurrentMonth then 1 else 0)
  }

  lemma {:induction false} CountOfRange(days: seq<Cell>, a: nat, n: nat)
    requires forall i :: 0 <= i < |days| ==> (days[i].isWithinCurrentMonth <==> a <= i < a + n)
    requires a + n <= |days|
    ensures CountWithinMonth(days) == n
    decreases |days|
  {
    if days != [] {
      var m := |days| - 1;
      var init := days[..m];
      if n == 0 {
        CountOfRange(init, 0, 0);
      } else if m >= a + n {
        CountOfRange(init, a, n);
      } else {
        CountOfRange(init, a, n - 1);
      }
    }
  }

  /** As many cells are flagged inside the month as the month has days. */
  lemma GridCountWithinMonth(days: seq<Cell>, year: nat, month: nat, today: Date, index: Index)
    requires ValidMonth(year, month)
    requires IsMonthGrid(days, year, month, today, index)
    ensures CountWithinMonth(days) == DaysInMonth(year, month)
  {
    GridCoversMonth(days, year, month, today, index);
    GridWithinMonth(days, year, month, today, index);
    CountOfRange(days, Lead(year, month), DaysInMonth(year, month));
  }

  /** Weekend cells are Saturdays and Sundays: the first and the last cell of
      every week row. */
  lemma GridWeekends(days: seq<Cell>, year: nat, month: nat, today: Date, index: Index)
    requires ValidMonth(year, month)
    requires IsMonthGrid(days, year, month, today, index)
    ensures forall i :: 0 <= i < |days| ==> (days[i].isWeekend <==> i % 7 == 0 || i % 7 == 6)
  {
    var s, f, l, e := GridOrdinals(year, month);
    forall i | 0 <= i < |days| ensures days[i].isWeekend <==> i % 7 == 0 || i % 7 == 6 {
      CellWeekend(days[i], s, i, year, month, today, index);
    }
  }

  /** The cell `i` days after a Sunday is a weekend cell exactly when `i` is
      0 or 6 modulo 7. */
  lemma CellWeekend(c: Cell, s: nat, i: nat, year: nat, month: nat, today: Date, index: Index)
    requires ValidMonth(year, month) && ValidDate(c.fullDate)
    requires c == CellFor(c.fullDate, year, month, today, index)
    requires Weekday(s) == 0 && Ordinal(c.fullDate) == s + i
    ensures c.isWeekend <==> i % 7 == 0 || i % 7 == 6
  {
    DaysAfterSunday(s, i);
  }

  /** The today flag marks today's cell and no other, so at most one cell. */
  lemma GridToday(days: seq<Cell>, year: nat, month: nat, today: Date, index: Index)
    requires ValidMonth(year, month) && ValidDate(today)
    requires IsMonthGrid(days, year, month, today, index)
    ensures forall i :: 0 <= i < |days| ==> (days[i].isToday <==> days[i].fullDate == today)
    ensures forall i, j :: 0 <= i < |days| && 0 <= j < |days| && days[i].isToday && days[j].isToday ==> i == j
  {
  }

  // ---------------------------------------------------------------------
  // The reminder a click on a cell opens

  /** `format(cell.fullDate, 'HH:mm')`: cells sit at local midnight, since
      `startOfWeek` zeroes the time and `addDays` keeps it. */
  const CellTime: string := "00:00"

  /** `handleCreateNewReminder`: the default reminder for a clicked cell. */
  function DefaultNewReminder(cell: Cell): (r: Reminder)
    ensures r.id == "" && r.title == "" && r.city == "" && r.color == "#c8e9a0"
    ensures r.fullDate == Some(cell.fullDate) && r.time == CellTime
    ensures FormatDate(r.date) == KeyOf(cell.fullDate)
  {
    FormatIsoDate(cell.fullDate);
    Reminder(
      city := "",
      date := IsoDate(cell.fullDate),
      fullDate := Some(cell.fullDate),
      title := "",
      id := "",
      time := CellTime,
      color := "#c8e9a0")
  }
}
