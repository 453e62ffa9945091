/** The two walks over the slot grid: the check of a requested range, and the agenda. */
module Grid {
  import opened Calendar
  import opened Schedules
  import opened Pricing
  import opened Resources
  import B = Bookings

  // ---------- the check of a requested range ----------

  datatype AlignError = SlotNotAligned | OutsideOperatingHours

  // Every slot start of a range lies in some operating window of its weekday.
  ghost predicate StartsOpen(s: int, hours: WeeklySchedule, a: int, b: int)
    requires s > 0
  {
    forall t :: a <= t < b && (t - a) % s == 0 ==> OpenAt(hours, t)
  }

  ghost predicate WholeSlots(s: int, off: int, slot: DateTimeRange)
    requires s > 0
  {
    OnGrid(s, TimeOfDay(slot.start + off)) && (slot.end - slot.start) % s == 0
  }

  ghost predicate Accepts(s: int, hours: WeeklySchedule, off: int, slot: DateTimeRange)
    requires s > 0
  {
    WholeSlots(s, off, slot) && StartsOpen(s, hours, slot.start + off, slot.end + off)
  }

  // Alignment, spelled out: the local start is a grid point of its day, the length a number of slots.
  lemma WholeSlotsMeans(s: int, off: int, slot: DateTimeRange)
    requires s > 0
    ensures WholeSlots(s, off, slot)
       <==> GridPoint(s, TimeOfDay(slot.start + off)) && GridPoint(s, slot.end - slot.start)
  {
    OnGridMeansMultiple(s, TimeOfDay(slot.start + off));
    OnGridMeansMultiple(s, slot.end - slot.start);
  }

  method ValidateAlignmentAndHours(s: int, hours: WeeklySchedule, off: int, slot: DateTimeRange)
    returns (r: Result<(), AlignError>)
    requires s > 0
    ensures r.Ok? <==> Accepts(s, hours, off, slot)
    ensures r == Err(SlotNotAligned) <==> !WholeSlots(s, off, slot)
    ensures r == Err(OutsideOperatingHours) <==> WholeSlots(s, off, slot) && !Accepts(s, hours, off, slot)
  {
    var localStart, localEnd := slot.start + off, slot.end + off;
    if TimeOfDay(localStart) % s != 0 || (slot.end - slot.start) % s != 0 {
      return Err(SlotNotAligned);
    }
    var cursor := localStart;
    while cursor < localEnd
      invariant localStart <= cursor && (cursor - localStart) % s == 0
      invariant StartsOpen(s, hours, localStart, cursor)
      decreases localEnd - cursor
    {
      if !OpenAt(hours, cursor) {
        return Err(OutsideOperatingHours);
      }
      NextStart(s, hours, localStart, cursor);
      cursor := cursor + s;
    }
    return Ok(());
  }

  lemma NextStart(s: int, hours: WeeklySchedule, a: int, cursor: int)
    requires s > 0 && a <= cursor && (cursor - a) % s == 0
    requires StartsOpen(s, hours, a, cursor) && OpenAt(hours, cursor)
    ensures (cursor + s - a) % s == 0
    ensures StartsOpen(s, hours, a, cursor + s)
  {
    GridSteps(s, cursor - a, cursor - a);
    forall t | a <= t < cursor + s && (t - a) % s == 0 ensures OpenAt(hours, t) {
      GridSteps(s, cursor - a, t - a);
    }
  }

  ghost predicate OpenThroughout(hours: WeeklySchedule, a: int, b: int) {
    forall m :: a <= m < b ==> OpenAt(hours, m)
  }

  // The code looks at slot starts only, yet on a valid schedule it accepts exactly the aligned ranges
  // whose every local minute is open.
  lemma AcceptsMeansEveryMinuteOpen(s: int, hours: WeeklySchedule, off: int, slot: DateTimeRange)
    requires AllowedSlot(s) && ScheduleOk(s, hours)
    ensures Accepts(s, hours, off, slot)
       <==> WholeSlots(s, off, slot) && OpenThroughout(hours, slot.start + off, slot.end + off)
  {
    var a, b := slot.start + off, slot.end + off;
    if Accepts(s, hours, off, slot) {
      forall m | a <= m < b ensures OpenAt(hours, m) {
        var c := CellOf(s, m);
        GridRestartsAtMidnight(s, a);
        CellHolds(s, m);
        GridSteps(s, c, a);
        GridSteps(s, a, c);
        OpenCell(s, hours, c, m);
      }
    }
  }

  // The last cell of the day of a grid point, and the midnight after it.
  lemma LastCellOfDay(s: int, a: int) returns (last: int)
    requires AllowedSlot(s) && OnGrid(s, a)
    ensures OnGrid(s, last) && a <= last && TimeOfDay(last) == 1440 - s && last / 1440 == a / 1440
  {
    last := 1440 * (a / 1440) + (1440 - s);
    assert TimeOfDay(last) == 1440 - s;
    assert OnGrid(s, 1440 - s);
    GridRestartsAtMidnight(s, last);
    CellStaysInDay(s, a, a);
  }

  // An accepted range lies in one local day and ends at least one slot before midnight.
  lemma AcceptedStaysInOneDay(s: int, hours: WeeklySchedule, off: int, slot: DateTimeRange)
    requires AllowedSlot(s) && ScheduleOk(s, hours) && Accepts(s, hours, off, slot)
    ensures TimeOfDay(slot.start + off) + (slot.end - slot.start) <= 1440 - s
    ensures (slot.start + off) / 1440 == (slot.end + off) / 1440
  {
    var a, b := slot.start + off, slot.end + off;
    GridRestartsAtMidnight(s, a);
    var last := LastCellOfDay(s, a);
    GridSteps(s, a, last);
    if last < b {
      assert OpenAt(hours, last);
      OpenCell(s, hours, last, last);
      assert false;
    }
  }

  // ---------- the agenda ----------

  datatype AgendaStatus = Available | Pending | Approved

  datatype AgendaSlot = AgendaSlot(
    slot: DateTimeRange, status: AgendaStatus, price: Money, booking: Option<int>, customer: Option<int>)

  /** What an agenda is computed from: the resource, its bookings in repository order, who looks. */
  datatype AgendaView = AgendaView(res: ResourceData, bookings: seq<B.BookingData>, ownerView: bool)

  // The first booking of a given status, in list order, that overlaps a range.
  function FirstOverlapping(bs: seq<B.BookingData>, st: B.Status, slot: DateTimeRange): Option<B.BookingData> {
    if bs == [] then None
    else if bs[0].status == st && Overlaps(bs[0].slot, slot) then Some(bs[0])
    else FirstOverlapping(bs[1..], st, slot)
  }

  function WindowAt(windows: seq<TimeWindow>, tod: int): Option<TimeWindow> {
    if windows == [] then None
    else if windows[0].start <= tod < windows[0].end then Some(windows[0])
    else WindowAt(windows[1..], tod)
  }

  // Whether the walk turns the local instant c into a slot: a window holds c, and c + s does not pass
  // that window's end on the same date.
  predicate Emits(s: int, hours: WeeklySchedule, c: int) {
    match WindowAt(hours.ForWeekday(WeekdayOf(c)), TimeOfDay(c))
    case None => false
    case Some(w) => !(TimeOfDay(c + s) > w.end && (c + s) / 1440 == c / 1440)
  }

  // The whole content of the slot that starts at c.
  function SlotAt(v: AgendaView, c: int): AgendaSlot
    requires v.res.slot > 0
  {
    var slot: DateTimeRange := DateTimeRange(c, c + v.res.slot);
    var price := PriceAt(v.res.rules, v.res.base, c + v.res.off);
    var approved := FirstOverlapping(v.bookings, B.Approved, slot);
    var pending := FirstOverlapping(v.bookings, B.Pending, slot);
    var shown := if approved.Some? then approved else pending;
    AgendaSlot(
      slot,
      if approved.Some? then Approved else if pending.Some? then Pending else Available,
      price,
      if v.ownerView && shown.Some? then Some(shown.value.id) else None,
      if v.ownerView && shown.Some? then Some(shown.value.customer) else None)
  }

  // Emission as a function of the UTC instant.
  ghost function EmitsFrom(res: ResourceData): int -> bool {
    c => Emits(res.slot, res.hours, c + res.off)
  }

  // The walk's emitting instants among lo, lo + s, lo + 2s, ... before hi.
  ghost function Starts(emits: int -> bool, s: int, lo: int, hi: int): seq<int>
    requires s > 0
    decreases hi - lo
  {
    if lo >= hi then []
    else (if emits(lo) then [lo] else []) + Starts(emits, s, lo + s, hi)
  }

  // How often a loop that moves lo forward by s runs while lo < hi.
  ghost function Iterations(s: int, lo: int, hi: int): nat
    requires s > 0
    decreases hi - lo
  {
    if lo >= hi then 0 else 1 + Iterations(s, lo + s, hi)
  }

  /** out is the agenda of the range: one full slot for each emitting instant, in order. */
  ghost predicate IsAgenda(v: AgendaView, lo: int, hi: int, out: seq<AgendaSlot>)
    requires v.res.slot > 0
  {
    var starts := Starts(EmitsFrom(v.res), v.res.slot, lo, hi);
    |out| == |starts| && forall i :: 0 <= i < |out| ==> out[i] == SlotAt(v, starts[i])
  }

  /** Walks the local grid from the range start. The second result counts the iterations. */
  method GenerateSlots(v: AgendaView, rangeStart: int, rangeEnd: int)
    returns (out: seq<AgendaSlot>, steps: nat)
    requires v.res.slot > 0
    ensures IsAgenda(v, rangeStart, rangeEnd, out)
    ensures steps == Iterations(v.res.slot, rangeStart, rangeEnd)
  {
    var s, off, hours := v.res.slot, v.res.off, v.res.hours;
    var localEnd := rangeEnd + off;
    out := [];
    steps := 0;
    var cursor := rangeStart + off;
    ghost var emits := EmitsFrom(v.res);
    ghost var done: seq<int> := [];
    while cursor < localEnd
      invariant steps + Iterations(s, cursor - off, rangeEnd) == Iterations(s, rangeStart, rangeEnd)
      invariant done + Starts(emits, s, cursor - off, rangeEnd) == Starts(emits, s, rangeStart, rangeEnd)
      invariant |out| == |done| && forall i :: 0 <= i < |out| ==> out[i] == SlotAt(v, done[i])
      decreases localEnd - cursor
    {
      ghost var here := cursor - off;
      NextStep(emits, s, here, rangeEnd, done);
      assert emits(here) == Emits(s, hours, cursor);
      var window := WindowAt(hours.ForWeekday(WeekdayOf(cursor)), TimeOfDay(cursor));
      if window == None {
        cursor := cursor + s;
        steps := steps + 1;
        continue;
      }
      var slotEnd := cursor + s;
      if TimeOfDay(slotEnd) > window.value.end && slotEnd / 1440 == cursor / 1440 {
        cursor := slotEnd;
        steps := steps + 1;
        continue;
      }
      var sl := BuildSlot(v, cursor - off);
      out := out + [sl];
      done := done + [here];
      cursor := slotEnd;
      steps := steps + 1;
    }
    assert done + [] == done;
  }

  // The second half of the loop body: status, ids and price of the slot that starts at c.
  method BuildSlot(v: AgendaView, c: int) returns (sl: AgendaSlot)
    requires v.res.slot > 0
    ensures sl == SlotAt(v, c)
  {
    var slotUtc: DateTimeRange := DateTimeRange(c, c + v.res.slot);
    var approved := FirstOverlapping(v.bookings, B.Approved, slotUtc);
    var pending := FirstOverlapping(v.bookings, B.Pending, slotUtc);
    var status, booking, customer := Available, None, None;
    if approved.Some? {
      status := Approved;
      booking := if v.ownerView then Some(approved.value.id) else None;
      customer := if v.ownerView then Some(approved.value.customer) else None;
    } else if pending.Some? {
      status := Pending;
      booking := if v.ownerView then Some(pending.value.id) else None;
      customer := if v.ownerView then Some(pending.value.customer) else None;
    }
    var price := ComputePrice(v.res.rules, v.res.base, v.res.off, v.res.slot, slotUtc);
    OneSlotPrice(v.res.rules, v.res.base, v.res.off, v.res.slot, slotUtc);
    return AgendaSlot(slotUtc, status, price.value, booking, customer);
  }

  lemma NextStep(emits: int -> bool, s: int, here: int, hi: int, done: seq<int>)
    requires s > 0 && here < hi
    ensures emits(here) ==> done + [here] + Starts(emits, s, here + s, hi) == done + Starts(emits, s, here, hi)
    ensures !emits(here) ==> done + Starts(emits, s, here + s, hi) == done + Starts(emits, s, here, hi)
  {
    var rest := Starts(emits, s, here + s, hi);
    assert done + [here] + rest == done + ([here] + rest);
    assert [] + rest == rest;
  }

  // ---------- what the walk lists ----------

  lemma {:induction false} StartsAreExact(emits: int -> bool, s: int, lo: int, hi: int, c: int)
    requires s > 0
    ensures c in Starts(emits, s, lo, hi) <==> lo <= c < hi && (c - lo) % s == 0 && emits(c)
    decreases hi - lo
  {
    if lo < hi {
      StartsAreExact(emits, s, lo + s, hi, c);
      SameRemainder(s, c - lo, -1);
      assert c - (lo + s) == (c - lo) + s * -1;
      GridSteps(s, 0, c - lo);
    }
  }

  lemma {:induction false} StartsAreApart(emits: int -> bool, s: int, lo: int, hi: int, i: nat, j: nat)
    requires s > 0 && i < j < |Starts(emits, s, lo, hi)|
    ensures Starts(emits, s, lo, hi)[i] + s <= Starts(emits, s, lo, hi)[j]
    decreases hi - lo
  {
    var rest := Starts(emits, s, lo + s, hi);
    if !emits(lo) {
      assert Starts(emits, s, lo, hi) == rest;
      StartsAreApart(emits, s, lo + s, hi, i, j);
    } else {
      assert Starts(emits, s, lo, hi) == [lo] + rest;
      if i > 0 {
        StartsAreApart(emits, s, lo + s, hi, i - 1, j - 1);
      } else {
        LaterStart(emits, s, lo + s, hi, j - 1);
      }
    }
  }

  lemma LaterStart(emits: int -> bool, s: int, lo: int, hi: int, i: nat)
    requires s > 0 && i < |Starts(emits, s, lo, hi)|
    ensures lo <= Starts(emits, s, lo, hi)[i]
  {
    StartsAreExact(emits, s, lo, hi, Starts(emits, s, lo, hi)[i]);
  }

  // The walk from lo to hi turns the instant c into a slot.
  ghost predicate ListsAt(res: ResourceData, lo: int, hi: int, c: int)
    requires res.slot > 0
  {
    lo <= c < hi && (c - lo) % res.slot == 0 && Emits(res.slot, res.hours, c + res.off)
  }

  // A slot is listed exactly when its start is an emitting instant of the walk; nothing else is listed.
  lemma ListedExactly(v: AgendaView, lo: int, hi: int, out: seq<AgendaSlot>, c: int)
    requires v.res.slot > 0 && IsAgenda(v, lo, hi, out)
    ensures ListsAt(v.res, lo, hi, c) <==> SlotAt(v, c) in out
    ensures ListsAt(v.res, lo, hi, c) <==> exists sl :: sl in out && sl.slot.start == c
    ensures forall sl :: sl in out ==> sl == SlotAt(v, sl.slot.start)
  {
    var starts := Starts(EmitsFrom(v.res), v.res.slot, lo, hi);
    StartsAreExact(EmitsFrom(v.res), v.res.slot, lo, hi, c);
    assert EmitsFrom(v.res)(c) == Emits(v.res.slot, v.res.hours, c + v.res.off);
    if ListsAt(v.res, lo, hi, c) {
      var i :| 0 <= i < |starts| && starts[i] == c;
      assert out[i] == SlotAt(v, c);
    }
    assert SlotAt(v, c).slot.start == c;
    if sl :| sl in out && sl.slot.start == c {
      var i :| 0 <= i < |out| && out[i] == sl;
      assert starts[i] == c;
    }
  }

  // From any start, on the grid or off it: one slot long each, strictly increasing and disjoint, every
  // one inside a single operating window and on one local date.
  lemma SlotsAreOrderedAndInsideWindows(v: AgendaView, lo: int, hi: int, out: seq<AgendaSlot>)
    requires ResourceOk(v.res) && IsAgenda(v, lo, hi, out)
    ensures forall i, j :: 0 <= i < j < |out| ==> out[i].slot.end <= out[j].slot.start
    ensures forall sl :: sl in out ==>
              && sl.slot.end == sl.slot.start + v.res.slot
              && InsideOneWindow(v.res.slot, v.res.hours, sl.slot.start + v.res.off)
  {
    forall i, j | 0 <= i < j < |out| ensures out[i].slot.end <= out[j].slot.start {
      SlotsAreOrdered(v, lo, hi, out, i, j);
    }
    forall sl | sl in out
      ensures sl.slot.end == sl.slot.start + v.res.slot
      ensures InsideOneWindow(v.res.slot, v.res.hours, sl.slot.start + v.res.off)
    {
      SlotIsInsideOneWindow(v, lo, hi, out, sl);
    }
  }

  lemma SlotsAreOrdered(v: AgendaView, lo: int, hi: int, out: seq<AgendaSlot>, i: nat, j: nat)
    requires v.res.slot > 0 && IsAgenda(v, lo, hi, out) && i < j < |out|
    ensures out[i].slot.end <= out[j].slot.start
  {
    StartsAreApart(EmitsFrom(v.res), v.res.slot, lo, hi, i, j);
  }

  lemma SlotIsInsideOneWindow(v: AgendaView, lo: int, hi: int, out: seq<AgendaSlot>, sl: AgendaSlot)
    requires ResourceOk(v.res) && IsAgenda(v, lo, hi, out) && sl in out
    ensures sl.slot.end == sl.slot.start + v.res.slot
    ensures InsideOneWindow(v.res.slot, v.res.hours, sl.slot.start + v.res.off)
  {
    ListedExactly(v, lo, hi, out, sl.slot.start);
    EmittedInsideOneWindow(v.res.slot, v.res.hours, sl.slot.start + v.res.off);
  }

  lemma OneSlotPrice(rules: seq<PricingRule>, base: Money, off: int, s: int, slot: DateTimeRange)
    requires s > 0 && slot.end == slot.start + s
    ensures Walk(Tariff(rules, base, off), s, slot.start, slot.end) == PriceAt(rules, base, slot.start + off)
  {
    var f := Tariff(rules, base, off);
    assert f(slot.start) == PriceAt(rules, base, slot.start + off);
    assert Walk(f, s, slot.start + s, slot.end) == 0;
  }

  // The walk takes ceil(length / S) steps.
  lemma {:induction false} WalkLength(s: int, lo: int, hi: int)
    requires s > 0
    ensures lo < hi ==> Iterations(s, lo, hi) * s - s < hi - lo <= Iterations(s, lo, hi) * s
    decreases hi - lo
  {
    if lo < hi {
      var n := Iterations(s, lo + s, hi);
      WalkLength(s, lo + s, hi);
      assert (n + 1) * s == n * s + s;
      assert lo + s >= hi ==> n == 0;
    }
  }

  // A range has at most 31 days and a slot at least 30 minutes, so the walk has at most 1488 steps.
  lemma WalkIsBounded(s: int, lo: int, hi: int)
    requires AllowedSlot(s) && hi - lo <= 31 * 1440
    ensures Iterations(s, lo, hi) <= 1488
  {
    WalkLength(s, lo, hi);
    var n := Iterations(s, lo, hi);
    assert (n - 1) * s == n * s - s;
    assert n >= 1 ==> (n - 1) * s >= (n - 1) * 30;
  }

  // ---------- agenda and request agree ----------

  lemma {:induction false} WindowAtFindsOpen(windows: seq<TimeWindow>, tod: int)
    ensures WindowAt(windows, tod).Some? <==> exists w :: w in windows && w.start <= tod < w.end
    ensures WindowAt(windows, tod).Some?
        ==> var w := WindowAt(windows, tod).value; w in windows && w.start <= tod < w.end
  {
    if windows != [] {
      WindowAtFindsOpen(windows[1..], tod);
    }
  }

  ghost predicate InsideOneWindow(s: int, hours: WeeklySchedule, c: int) {
    && (exists w :: w in hours.ForWeekday(WeekdayOf(c)) && w.start <= TimeOfDay(c) && TimeOfDay(c) + s <= w.end)
    && (c + s) / 1440 == c / 1440
  }

  lemma EmittedInsideOneWindow(s: int, hours: WeeklySchedule, c: int)
    requires AllowedSlot(s) && ScheduleOk(s, hours) && Emits(s, hours, c)
    ensures InsideOneWindow(s, hours, c)
  {
    var ws := hours.ForWeekday(WeekdayOf(c));
    WindowAtFindsOpen(ws, TimeOfDay(c));
    var w := WindowAt(ws, TimeOfDay(c)).value;
    assert DayOk(s, ws);
    assert AlignedWindow(s, w);
    GridSteps(s, w.start, w.end);
    GridRestartsAtMidnight(s, 1440);
    GridSteps(s, w.end, 1440);
  }

  // Under good hours the walk turns an instant into a slot, on the grid or off it, exactly when one window
  // of its day holds the whole slot: nothing is listed that does not fit, and nothing that fits is left out.
  lemma EmitsExactly(s: int, hours: WeeklySchedule, c: int)
    requires AllowedSlot(s) && ScheduleOk(s, hours)
    ensures Emits(s, hours, c) <==> InsideOneWindow(s, hours, c)
  {
    if Emits(s, hours, c) {
      EmittedInsideOneWindow(s, hours, c);
    }
    if InsideOneWindow(s, hours, c) {
      var ws := hours.ForWeekday(WeekdayOf(c));
      var w :| w in ws && w.start <= TimeOfDay(c) && TimeOfDay(c) + s <= w.end;
      WindowAtFindsOpen(ws, TimeOfDay(c));
      assert DayOk(s, ws);
      OneWindowHolds(ws, w, WindowAt(ws, TimeOfDay(c)).value, TimeOfDay(c));
    }
  }

  // Disjoint windows do not share a minute.
  lemma OneWindowHolds(ws: seq<TimeWindow>, w: TimeWindow, other: TimeWindow, tod: int)
    requires PairwiseDisjoint(ws) && w in ws && other in ws
    requires w.start <= tod < w.end && other.start <= tod < other.end
    ensures w == other
  {
    var i :| 0 <= i < |ws| && ws[i] == w;
    var j :| 0 <= j < |ws| && ws[j] == other;
  }

  // On the grid the walk's window test amounts to the slot start being open.
  lemma EmitsIffOpen(s: int, hours: WeeklySchedule, c: int)
    requires AllowedSlot(s) && ScheduleOk(s, hours) && OnGrid(s, c)
    ensures Emits(s, hours, c) <==> OpenAt(hours, c)
  {
    var ws := hours.ForWeekday(WeekdayOf(c));
    WindowAtFindsOpen(ws, TimeOfDay(c));
    if OpenAt(hours, c) {
      var w := WindowAt(ws, TimeOfDay(c)).value;
      assert DayOk(s, ws);
      GridRestartsAtMidnight(s, c);
      WindowHoldsWholeCells(s, w, TimeOfDay(c), TimeOfDay(c));
    }
  }

  // So does the request's test of a single slot.
  lemma OneSlotAccepted(s: int, hours: WeeklySchedule, off: int, slot: DateTimeRange)
    requires AllowedSlot(s) && slot.end == slot.start + s && OnGrid(s, slot.start + off)
    ensures Accepts(s, hours, off, slot) <==> OpenAt(hours, slot.start + off)
  {
    var c := slot.start + off;
    GridRestartsAtMidnight(s, c);
    SameRemainder(s, 0, 1);
    if OpenAt(hours, c) {
      assert StartsOpen(s, hours, c, c);
      NextStart(s, hours, c, c);
    } else {
      assert (c - c) % s == 0;
    }
  }

  lemma EmitsMeansAccepted(s: int, hours: WeeklySchedule, off: int, slot: DateTimeRange)
    requires AllowedSlot(s) && ScheduleOk(s, hours)
    requires slot.end == slot.start + s && OnGrid(s, slot.start + off)
    ensures Emits(s, hours, slot.start + off) <==> Accepts(s, hours, off, slot)
  {
    EmitsIffOpen(s, hours, slot.start + off);
    OneSlotAccepted(s, hours, off, slot);
  }

  // The agenda of a range that starts on the local grid lists [c, c + S) exactly when c is a grid
  // point of the range and a request for that slot passes the check.
  lemma AgendaListsTheRequestableSlots(v: AgendaView, lo: int, hi: int, out: seq<AgendaSlot>, c: int)
    requires ResourceOk(v.res) && OnGrid(v.res.slot, lo + v.res.off) && IsAgenda(v, lo, hi, out)
    ensures SlotAt(v, c).slot == DateTimeRange(c, c + v.res.slot)
    ensures SlotAt(v, c) in out
       <==> lo <= c < hi && OnGrid(v.res.slot, c + v.res.off)
            && Accepts(v.res.slot, v.res.hours, v.res.off, DateTimeRange(c, c + v.res.slot))
  {
    var s := v.res.slot;
    assert SlotAt(v, c) in out <==> ListsAt(v.res, lo, hi, c) by {
      ListedExactly(v, lo, hi, out, c);
    }
    GridSteps(s, lo + v.res.off, c + v.res.off);
    if OnGrid(s, c + v.res.off) {
      EmitsMeansAccepted(s, v.res.hours, v.res.off, DateTimeRange(c, c + s));
    }
  }

  lemma ListsIffOpen(res: ResourceData, lo: int, hi: int, c: int)
    requires ResourceOk(res) && OnGrid(res.slot, lo + res.off)
    requires lo <= c < hi && OnGrid(res.slot, c + res.off)
    ensures ListsAt(res, lo, hi, c) <==> OpenAt(res.hours, c + res.off)
  {
    assert (c - lo) % res.slot == 0 by {
      GridSteps(res.slot, lo + res.off, c + res.off);
      assert c + res.off - (lo + res.off) == c - lo;
    }
    EmitsIffOpen(res.slot, res.hours, c + res.off);
  }

  lemma ListedIffOpen(v: AgendaView, lo: int, hi: int, out: seq<AgendaSlot>, c: int)
    requires ResourceOk(v.res) && OnGrid(v.res.slot, lo + v.res.off) && IsAgenda(v, lo, hi, out)
    requires lo <= c < hi && OnGrid(v.res.slot, c + v.res.off)
    ensures SlotAt(v, c) in out <==> OpenAt(v.res.hours, c + v.res.off)
  {
    ListsIffOpen(v.res, lo, hi, c);
    ListedExactly(v, lo, hi, out, c);
  }

  ghost predicate AllCellsListed(v: AgendaView, out: seq<AgendaSlot>, slot: DateTimeRange)
    requires v.res.slot > 0
  {
    forall c :: slot.start <= c < slot.end && OnGrid(v.res.slot, c + v.res.off) ==> SlotAt(v, c) in out
  }

  // A request of several slots inside the range passes exactly when it starts on the grid, has whole
  // slots, and the agenda lists every one of its cells.
  lemma RequestIsAUnionOfListedSlots(
      v: AgendaView, lo: int, hi: int, out: seq<AgendaSlot>, slot: DateTimeRange)
    requires ResourceOk(v.res) && OnGrid(v.res.slot, lo + v.res.off) && IsAgenda(v, lo, hi, out)
    requires lo <= slot.start && slot.end <= hi
    ensures Accepts(v.res.slot, v.res.hours, v.res.off, slot)
       <==> WholeSlots(v.res.slot, v.res.off, slot) && AllCellsListed(v, out, slot)
  {
    if Accepts(v.res.slot, v.res.hours, v.res.off, slot) {
      AcceptedCellsAreListed(v, lo, hi, out, slot);
    }
    if WholeSlots(v.res.slot, v.res.off, slot) && AllCellsListed(v, out, slot) {
      ListedCellsAreAccepted(v, lo, hi, out, slot);
    }
  }

  lemma AcceptedCellsAreListed(
      v: AgendaView, lo: int, hi: int, out: seq<AgendaSlot>, slot: DateTimeRange)
    requires ResourceOk(v.res) && OnGrid(v.res.slot, lo + v.res.off) && IsAgenda(v, lo, hi, out)
    requires lo <= slot.start && slot.end <= hi && Accepts(v.res.slot, v.res.hours, v.res.off, slot)
    ensures AllCellsListed(v, out, slot)
  {
    var s, off := v.res.slot, v.res.off;
    GridRestartsAtMidnight(s, slot.start + off);
    forall c | slot.start <= c < slot.end && OnGrid(s, c + off) ensures SlotAt(v, c) in out {
      GridSteps(s, slot.start + off, c + off);
      assert OpenAt(v.res.hours, c + off);
      ListedIffOpen(v, lo, hi, out, c);
    }
  }

  lemma ListedCellsAreAccepted(
      v: AgendaView, lo: int, hi: int, out: seq<AgendaSlot>, slot: DateTimeRange)
    requires ResourceOk(v.res) && OnGrid(v.res.slot, lo + v.res.off) && IsAgenda(v, lo, hi, out)
    requires lo <= slot.start && slot.end <= hi
    requires WholeSlots(v.res.slot, v.res.off, slot) && AllCellsListed(v, out, slot)
    ensures Accepts(v.res.slot, v.res.hours, v.res.off, slot)
  {
    var s, off := v.res.slot, v.res.off;
    var a := slot.start + off;
    GridRestartsAtMidnight(s, a);
    forall t | a <= t < slot.end + off && (t - a) % s == 0 ensures OpenAt(v.res.hours, t) {
      GridSteps(s, a, t);
      assert SlotAt(v, t - off) in out;
      ListedIffOpen(v, lo, hi, out, t - off);
    }
  }

  lemma CoveredCellsAreListed(v: AgendaView, out: seq<AgendaSlot>, slot: DateTimeRange)
    requires ResourceOk(v.res) && WholeSlots(v.res.slot, v.res.off, slot) && AllCellsListed(v, out, slot)
    ensures forall c :: slot.start <= c < slot.end && (c - slot.start) % v.res.slot == 0 ==> SlotAt(v, c) in out
  {
    var s, off := v.res.slot, v.res.off;
    GridRestartsAtMidnight(s, slot.start + off);
    forall c | slot.start <= c < slot.end && (c - slot.start) % s == 0 ensures SlotAt(v, c) in out {
      GridSteps(s, slot.start + off, c + off);
    }
  }

  // ---------- prices ----------

  // The price the agenda shows for the slot that starts at t; 0 when it lists none.
  ghost function ListedPrice(out: seq<AgendaSlot>): int -> Money {
    t => if exists sl :: sl in out && sl.slot.start == t then
      var sl :| sl in out && sl.slot.start == t; sl.price
    else 0
  }

  lemma ListedPriceIsTariff(v: AgendaView, lo: int, hi: int, out: seq<AgendaSlot>, a: int)
    requires v.res.slot > 0 && IsAgenda(v, lo, hi, out) && SlotAt(v, a) in out
    ensures ListedPrice(out)(a) == Tariff(v.res.rules, v.res.base, v.res.off)(a)
  {
    ListedExactly(v, lo, hi, out, a);
    assert SlotAt(v, a).slot.start == a;
    assert forall sl :: sl in out && sl.slot.start == a ==> sl == SlotAt(v, a);
    assert ListedPrice(out)(a) == PriceAt(v.res.rules, v.res.base, a + v.res.off);
  }

  // The agenda shows the price in force at the start of each slot.
  lemma SlotShowsPriceInForce(v: AgendaView, c: int, price: int)
    requires v.res.slot > 0 && NoClash(v.res.rules)
    ensures InForce(v.res.rules, v.res.base, c + v.res.off, price) <==> price == SlotAt(v, c).price
  {
    TariffIsInForce(v.res.rules, v.res.base, v.res.off, c, price);
    assert Tariff(v.res.rules, v.res.base, v.res.off)(c) == PriceAt(v.res.rules, v.res.base, c + v.res.off);
  }

  // A request's total is the sum of the prices of the agenda slots it covers.
  lemma {:induction false} TotalIsSumOfListedPrices(
      v: AgendaView, lo: int, hi: int, out: seq<AgendaSlot>, a: int, b: int)
    requires v.res.slot > 0 && IsAgenda(v, lo, hi, out)
    requires forall c :: a <= c < b && (c - a) % v.res.slot == 0 ==> SlotAt(v, c) in out
    ensures Walk(Tariff(v.res.rules, v.res.base, v.res.off), v.res.slot, a, b)
         == Walk(ListedPrice(out), v.res.slot, a, b)
    decreases b - a
  {
    if a < b {
      var s := v.res.slot;
      assert (a - a) % s == 0;
      ListedPriceIsTariff(v, lo, hi, out, a);
      forall c | a + s <= c < b && (c - (a + s)) % s == 0 ensures SlotAt(v, c) in out {
        SameRemainder(s, c - a, -1);
        assert c - (a + s) == (c - a) + s * -1;
      }
      TotalIsSumOfListedPrices(v, lo, hi, out, a + s, b);
    }
  }

  // ---------- slot status ----------

  // APPROVED over PENDING over AVAILABLE, each by overlap with some booking of that status.
  lemma StatusMeansOverlap(v: AgendaView, c: int)
    requires v.res.slot > 0
    ensures var sl := SlotAt(v, c);
            && (sl.status == Approved <==> SomeOverlap(v.bookings, B.Approved, sl.slot))
            && (sl.status == Available <==>
                !SomeOverlap(v.bookings, B.Approved, sl.slot) && !SomeOverlap(v.bookings, B.Pending, sl.slot))
            && (!v.ownerView || sl.status == Available ==> sl.booking == None && sl.customer == None)
            && (v.ownerView && sl.status != Available ==>
                exists b :: b in v.bookings && Overlaps(b.slot, sl.slot) && sl.booking == Some(b.id)
                         && sl.customer == Some(b.customer)
                         && b.status == (if sl.status == Approved then B.Approved else B.Pending))
  {
    var slot := SlotAt(v, c).slot;
    FirstOverlappingIsSome(v.bookings, B.Approved, slot);
    FirstOverlappingIsSome(v.bookings, B.Pending, slot);
  }

  ghost predicate SomeOverlap(bs: seq<B.BookingData>, st: B.Status, slot: DateTimeRange) {
    exists b :: b in bs && b.status == st && Overlaps(b.slot, slot)
  }

  lemma {:induction false} FirstOverlappingIsSome(bs: seq<B.BookingData>, st: B.Status, slot: DateTimeRange)
    ensures FirstOverlapping(bs, st, slot).Some? <==> SomeOverlap(bs, st, slot)
    ensures FirstOverlapping(bs, st, slot).Some? ==>
              var b := FirstOverlapping(bs, st, slot).value; b in bs && b.status == st && Overlaps(b.slot, slot)
  {
    if bs != [] {
      FirstOverlappingIsSome(bs[1..], st, slot);
    }
  }
}
