/** Operating hours per weekday and the factory that validates them. */
module Schedules {
  import opened Calendar

  datatype RawWindow = TimeWindow(start: int, end: int)

  /** A span inside one day, in minutes from midnight. Its end is a clock time, so at most 23:59. */
  type TimeWindow = w: RawWindow | 0 <= w.start < w.end < 1440 witness TimeWindow(0, 1)

  datatype WeeklySchedule = WeeklySchedule(
    monday: seq<TimeWindow>,
    tuesday: seq<TimeWindow>,
    wednesday: seq<TimeWindow>,
    thursday: seq<TimeWindow>,
    friday: seq<TimeWindow>,
    saturday: seq<TimeWindow>,
    sunday: seq<TimeWindow>)
  {
    function ForWeekday(wd: Weekday): seq<TimeWindow> {
      match wd
      case Monday => monday
      case Tuesday => tuesday
      case Wednesday => wednesday
      case Thursday => thursday
      case Friday => friday
      case Saturday => saturday
      case Sunday => sunday
    }
  }

  predicate AlignedWindow(s: int, w: TimeWindow)
    requires s != 0
  {
    OnGrid(s, w.start) && (w.end - w.start) % s == 0
  }

  // Whether windows can be tested against a grid at all: a zero slot length divides nothing.
  predicate Testable(s: int, ws: seq<TimeWindow>) {
    s != 0 || ws == []
  }

  predicate WindowsOverlap(a: TimeWindow, b: TimeWindow) {
    a.start < b.end && b.start < a.end
  }

  // ---------- what a good day is ----------

  ghost predicate AllAligned(s: int, ws: seq<TimeWindow>)
    requires Testable(s, ws)
  {
    forall i :: 0 <= i < |ws| ==> AlignedWindow(s, ws[i])
  }

  ghost predicate SortedByStart(ws: seq<TimeWindow>) {
    forall i, j :: 0 <= i < j < |ws| ==> ws[i].start <= ws[j].start
  }

  ghost predicate PairwiseDisjoint(ws: seq<TimeWindow>) {
    forall i, j :: 0 <= i < j < |ws| ==> !WindowsOverlap(ws[i], ws[j])
  }

  ghost predicate DayOk(s: int, ws: seq<TimeWindow>)
    requires Testable(s, ws)
  {
    AllAligned(s, ws) && SortedByStart(ws) && PairwiseDisjoint(ws)
  }

  ghost predicate ScheduleOk(s: int, hours: WeeklySchedule)
    requires s != 0
  {
    forall wd :: DayOk(s, hours.ForWeekday(wd))
  }

  // ---------- what the factory reports ----------

  datatype ScheduleCode = NotOrdered | Overlapping | NotAligned

  datatype ScheduleError = ScheduleError(code: ScheduleCode, day: Weekday, idx: int)

  // The fault a window shows by itself or against the window just before it.
  predicate FaultAt(s: int, ws: seq<TimeWindow>, code: ScheduleCode, idx: int)
    requires Testable(s, ws)
  {
    0 <= idx < |ws| &&
    match code
    case NotAligned => !AlignedWindow(s, ws[idx])
    case NotOrdered => idx > 0 && ws[idx].start < ws[idx - 1].start
    case Overlapping => idx > 0 && ws[idx - 1].start <= ws[idx].start < ws[idx - 1].end
  }

  ghost predicate DayClean(s: int, ws: seq<TimeWindow>)
    requires Testable(s, ws)
  {
    forall code, idx :: !FaultAt(s, ws, code, idx)
  }

  lemma {:induction false} NeighboursInOrder(s: int, ws: seq<TimeWindow>, i: nat, j: nat)
    requires Testable(s, ws) && DayClean(s, ws) && i < j < |ws|
    ensures ws[i].end <= ws[j].start
    decreases j
  {
    assert !FaultAt(s, ws, NotOrdered, j) && !FaultAt(s, ws, Overlapping, j);
    if i < j - 1 {
      NeighboursInOrder(s, ws, i, j - 1);
    }
  }

  // Comparing each window with its predecessor only is enough for order and disjointness of all pairs.
  lemma NeighboursSuffice(s: int, ws: seq<TimeWindow>)
    requires Testable(s, ws)
    ensures DayClean(s, ws) <==> DayOk(s, ws)
  {
    if DayClean(s, ws) {
      forall i, j | 0 <= i < j < |ws| ensures ws[i].start <= ws[j].start && !WindowsOverlap(ws[i], ws[j]) {
        NeighboursInOrder(s, ws, i, j);
      }
      forall i | 0 <= i < |ws| ensures AlignedWindow(s, ws[i]) {
        assert !FaultAt(s, ws, NotAligned, i);
      }
    }
    if DayOk(s, ws) {
      forall code, idx ensures !FaultAt(s, ws, code, idx) {
        if 0 < idx < |ws| {
          assert ws[idx - 1].start <= ws[idx].start && !WindowsOverlap(ws[idx - 1], ws[idx]);
        }
      }
    }
  }

  ghost predicate GridPoint(s: int, t: int) {
    exists k :: IsMultiple(s, k, t)
  }

  lemma AlignedMeansGridPoints(s: int, w: TimeWindow)
    requires s > 0
    ensures AlignedWindow(s, w) <==> GridPoint(s, w.start) && GridPoint(s, w.end)
  {
    OnGridMeansMultiple(s, w.start);
    OnGridMeansMultiple(s, w.end);
    if OnGrid(s, w.start) {
      GridSteps(s, w.start, w.end);
    }
  }

  ghost predicate EachEndsFirst(ws: seq<TimeWindow>) {
    forall i, j :: 0 <= i < j < |ws| ==> ws[i].end <= ws[j].start
  }

  lemma SortedAndDisjointMeans(ws: seq<TimeWindow>)
    ensures SortedByStart(ws) && PairwiseDisjoint(ws) <==> EachEndsFirst(ws)
  {
    if SortedByStart(ws) && PairwiseDisjoint(ws) {
      forall i, j | 0 <= i < j < |ws| ensures ws[i].end <= ws[j].start {
        assert !WindowsOverlap(ws[i], ws[j]);
      }
    }
  }

  // A good day, spelled out: windows start and end on the grid, and each ends before the next starts.
  lemma GoodDayMeans(s: int, ws: seq<TimeWindow>)
    requires s > 0
    ensures DayOk(s, ws) <==>
      (forall i :: 0 <= i < |ws| ==> GridPoint(s, ws[i].start) && GridPoint(s, ws[i].end)) && EachEndsFirst(ws)
  {
    SortedAndDisjointMeans(ws);
    forall i | 0 <= i < |ws|
      ensures AlignedWindow(s, ws[i]) <==> GridPoint(s, ws[i].start) && GridPoint(s, ws[i].end)
    {
      AlignedMeansGridPoints(s, ws[i]);
    }
  }

  function DayOf(days: map<Weekday, seq<TimeWindow>>, wd: Weekday): seq<TimeWindow> {
    if wd in days then days[wd] else []
  }

  ghost predicate WeekTestable(s: int, days: map<Weekday, seq<TimeWindow>>) {
    forall wd :: Testable(s, DayOf(days, wd))
  }

  ghost predicate IsFault(s: int, days: map<Weekday, seq<TimeWindow>>, e: ScheduleError)
    requires WeekTestable(s, days)
  {
    FaultAt(s, DayOf(days, e.day), e.code, e.idx)
  }

  lemma NoFaultMeansOk(s: int, days: map<Weekday, seq<TimeWindow>>)
    requires WeekTestable(s, days)
    ensures (forall e :: !IsFault(s, days, e)) <==> (forall wd :: DayOk(s, DayOf(days, wd)))
  {
    forall wd ensures DayClean(s, DayOf(days, wd)) <==> DayOk(s, DayOf(days, wd)) {
      NeighboursSuffice(s, DayOf(days, wd));
    }
    if forall e :: !IsFault(s, days, e) {
      forall wd, code, idx ensures !FaultAt(s, DayOf(days, wd), code, idx) {
        assert !IsFault(s, days, ScheduleError(code, wd, idx));
      }
    }
    if forall wd :: DayOk(s, DayOf(days, wd)) {
      forall e ensures !IsFault(s, days, e) {
        assert DayClean(s, DayOf(days, e.day));
      }
    }
  }

  // The faults of the days listed so far.
  ghost predicate IsFaultAmong(s: int, days: map<Weekday, seq<TimeWindow>>, seen: seq<Weekday>, e: ScheduleError)
    requires WeekTestable(s, days)
  {
    e.day in seen && IsFault(s, days, e)
  }

  /** Builds a schedule, or returns every fault found, over all seven days. A zero slot length raises
      in the original as soon as some day has a window, a negative one divides like its absolute value. */
  method Create(s: int, days: map<Weekday, seq<TimeWindow>>)
    returns (r: Result<WeeklySchedule, seq<ScheduleError>>)
    requires WeekTestable(s, days)
    ensures r.Ok? <==> forall wd :: DayOk(s, DayOf(days, wd))
    ensures r.Ok? ==> forall wd :: r.value.ForWeekday(wd) == DayOf(days, wd)
    ensures r.Err? ==> r.error != [] && forall e :: e in r.error <==> IsFault(s, days, e)
  {
    var errors: seq<ScheduleError> := [];
    var perDay: map<Weekday, seq<TimeWindow>> := map[];
    for k := 0 to |ALL_WEEKDAYS|
      invariant forall e :: e in errors <==> IsFaultAmong(s, days, ALL_WEEKDAYS[..k], e)
      invariant forall i :: 0 <= i < k ==> ALL_WEEKDAYS[i] in perDay
      invariant forall wd :: wd in perDay ==> perDay[wd] == DayOf(days, wd)
    {
      var wd := ALL_WEEKDAYS[k];
      assert ALL_WEEKDAYS[..k + 1] == ALL_WEEKDAYS[..k] + [wd];
      var windows := DayOf(days, wd);
      var found := DayFaults(s, wd, windows);
      OneMoreDay(s, days, ALL_WEEKDAYS[..k], wd, errors, found);
      errors := errors + found;
      perDay := perDay[wd := windows];
    }
    AllFaultsSeen(s, days, errors);
    if errors != [] {
      return Err(errors);
    }
    AllDaysThere(perDay);
    r := Ok(WeeklySchedule(perDay[Monday], perDay[Tuesday], perDay[Wednesday], perDay[Thursday],
                           perDay[Friday], perDay[Saturday], perDay[Sunday]));
  }

  lemma AllDaysThere(perDay: map<Weekday, seq<TimeWindow>>)
    requires forall i :: 0 <= i < |ALL_WEEKDAYS| ==> ALL_WEEKDAYS[i] in perDay
    ensures forall wd :: wd in perDay
  {
    forall wd ensures wd in perDay {
      assert ALL_WEEKDAYS[DayIndex(wd)] == wd;
    }
  }

  lemma OneMoreDay(
      s: int, days: map<Weekday, seq<TimeWindow>>, seen: seq<Weekday>, wd: Weekday,
      errors: seq<ScheduleError>, found: seq<ScheduleError>)
    requires WeekTestable(s, days)
    requires forall e :: e in errors <==> IsFaultAmong(s, days, seen, e)
    requires forall e :: e in found <==> e.day == wd && FaultAt(s, DayOf(days, wd), e.code, e.idx)
    ensures forall e :: e in errors + found <==> IsFaultAmong(s, days, seen + [wd], e)
  {
    forall e ensures e in errors + found <==> e in errors || e in found {
    }
  }

  lemma AllFaultsSeen(s: int, days: map<Weekday, seq<TimeWindow>>, errors: seq<ScheduleError>)
    requires WeekTestable(s, days)
    requires forall e :: e in errors <==> IsFaultAmong(s, days, ALL_WEEKDAYS[..|ALL_WEEKDAYS|], e)
    ensures forall e :: e in errors <==> IsFault(s, days, e)
    ensures errors == [] <==> forall wd :: DayOk(s, DayOf(days, wd))
  {
    assert ALL_WEEKDAYS[..|ALL_WEEKDAYS|] == ALL_WEEKDAYS;
    forall wd ensures wd in ALL_WEEKDAYS {
      assert ALL_WEEKDAYS[DayIndex(wd)] == wd;
    }
    NoFaultMeansOk(s, days);
    if errors != [] {
      assert errors[0] in errors;
    }
  }

  // The inner loop of the factory: one day's windows, each against its predecessor.
  method DayFaults(s: int, wd: Weekday, windows: seq<TimeWindow>) returns (errors: seq<ScheduleError>)
    requires Testable(s, windows)
    ensures forall e :: e in errors <==> e.day == wd && FaultAt(s, windows, e.code, e.idx)
  {
    errors := [];
    for idx := 0 to |windows|
      invariant forall e :: e in errors <==> e.day == wd && e.idx < idx && FaultAt(s, windows, e.code, e.idx)
    {
      var w := windows[idx];
      if w.start % s != 0 || (w.end - w.start) % s != 0 {
        errors := errors + [ScheduleError(NotAligned, wd, idx)];
      }
      if idx > 0 {
        var prev := windows[idx - 1];
        if w.start < prev.start {
          errors := errors + [ScheduleError(NotOrdered, wd, idx)];
        } else if w.start < prev.end {
          errors := errors + [ScheduleError(Overlapping, wd, idx)];
        }
      }
    }
  }

  // ---------- being open ----------

  predicate OpenAt(hours: WeeklySchedule, local: int) {
    exists w :: w in hours.ForWeekday(WeekdayOf(local)) && w.start <= TimeOfDay(local) < w.end
  }

  // An aligned window that holds a grid point holds the whole cell that starts there, so a cell is
  // open throughout or closed throughout, and no cell is open at the end of the day.
  lemma OpenCell(s: int, hours: WeeklySchedule, c: int, t: int)
    requires AllowedSlot(s) && ScheduleOk(s, hours) && OnGrid(s, c) && c <= t < c + s
    ensures OpenAt(hours, t) <==> OpenAt(hours, c)
    ensures OpenAt(hours, c) ==> TimeOfDay(c) + s < 1440
  {
    CellStaysInDay(s, c, t);
    GridRestartsAtMidnight(s, c);
    var ws := hours.ForWeekday(WeekdayOf(c));
    assert DayOk(s, ws);
    forall w | w in ws
      ensures w.start <= TimeOfDay(c) < w.end <==> w.start <= TimeOfDay(t) < w.end
      ensures w.start <= TimeOfDay(c) < w.end ==> TimeOfDay(c) + s <= w.end
    {
      WindowHoldsWholeCells(s, w, TimeOfDay(c), TimeOfDay(t));
    }
  }

  lemma WindowHoldsWholeCells(s: int, w: TimeWindow, c: int, t: int)
    requires s > 0 && AlignedWindow(s, w) && OnGrid(s, c) && c <= t < c + s
    ensures w.start <= c < w.end <==> w.start <= t < w.end
    ensures w.start <= c < w.end ==> c + s <= w.end
  {
    GridSteps(s, w.start, w.end);
    GridSteps(s, c, w.start);
    GridSteps(s, c, w.end);
  }
}
