/** Which agendas are right in every store that a run can reach, changes of the slot length included. */
module AgendaRuns {
  import opened Calendar
  import opened Schedules
  import opened Resources
  import opened Bookings
  import opened Protocol
  import opened Runs
  import opened AgendaFilter
  import Grid

  // ---------- bookings that some slot length once admitted ----------

  ghost predicate AcceptedUnder(s: int, hours: WeeklySchedule, off: int, slot: DateTimeRange) {
    AllowedSlot(s) && ScheduleOk(s, hours) && Grid.Accepts(s, hours, off, slot)
  }

  // The range passed the request's check under some slot length and hours that its resource may have had.
  ghost predicate OnceAccepted(off: int, slot: DateTimeRange) {
    exists s, hours :: AcceptedUnder(s, hours, off, slot)
  }

  ghost predicate OnceBookable(off: int, rid: int, rows: seq<BookingData>) {
    forall b :: b in rows && b.resource == rid ==> OnceAccepted(off, b.slot) && ValidHistory(b)
  }

  // A slot of length s may start at g: g is on its grid, and the slot ends before midnight.
  predicate MayStart(s: int, off: int, g: int) {
    AllowedSlot(s) && OnGrid(s, g + off) && TimeOfDay(g + off) + s < 1440
  }

  lemma OnceAcceptedMayStart(off: int, slot: DateTimeRange) returns (s: int)
    requires OnceAccepted(off, slot)
    ensures MayStart(s, off, slot.start)
  {
    var len, hours :| AcceptedUnder(len, hours, off, slot);
    s := len;
    GridRestartsAtMidnight(s, slot.start + off);
    assert (slot.start - slot.start) % s == 0;
    assert OpenAt(hours, slot.start + off);
    OpenCell(s, hours, slot.start + off, slot.start + off);
  }

  // Hours of one slot a day, at the same time each day.
  function SlotADay(s: int, tod: int): WeeklySchedule
    requires 0 <= tod < tod + s < 1440
  {
    var day: seq<TimeWindow> := [TimeWindow(tod, tod + s)];
    WeeklySchedule(day, day, day, day, day, day, day)
  }

  lemma AnyStartIsAcceptable(s: int, off: int, g: int)
    requires MayStart(s, off, g)
    ensures AcceptedUnder(s, SlotADay(s, TimeOfDay(g + off)), off, DateTimeRange(g, g + s))
  {
    var tod := TimeOfDay(g + off);
    var hours, w := SlotADay(s, tod), TimeWindow(tod, tod + s);
    GridRestartsAtMidnight(s, g + off);
    SameRemainder(s, 0, 1);
    forall wd ensures hours.ForWeekday(wd) == [w] && DayOk(s, hours.ForWeekday(wd)) {
    }
    assert w in hours.ForWeekday(WeekdayOf(g + off));
    assert OpenAt(hours, g + off);
    Grid.OneSlotAccepted(s, hours, off, DateTimeRange(g, g + s));
  }

  // ---------- the exact condition ----------

  ghost predicate HiddenAt(res: ResourceData, lo: int, hi: int, c: int, g: int, s: int)
    requires res.slot > 0
  {
    Grid.ListsAt(res, lo, hi, c) && hi <= g < c + res.slot && MayStart(s, res.off, g)
  }

  // Some listed slot holds an instant after the range at which a slot of some allowed length may start.
  ghost predicate HidesAnyStart(res: ResourceData, lo: int, hi: int)
    requires res.slot > 0
  {
    exists c, g, s :: HiddenAt(res, lo, hi, c, g, s)
  }

  lemma NothingHiddenNothingWrong(
      res: ResourceData, rows: seq<BookingData>, rid: int, owner: bool, lo: int, hi: int)
    requires res.slot > 0 && OnceBookable(res.off, rid, rows) && !HidesAnyStart(res, lo, hi)
    ensures SameAgenda(res, rows, rid, owner, lo, hi)
  {
    forall c | Grid.ListsAt(res, lo, hi, c) ensures SameSlot(res, rows, rid, owner, lo, hi, c) {
      forall b | b in rows && b.resource == rid ensures !(hi <= b.slot.start < c + res.slot) {
        var s := OnceAcceptedMayStart(res.off, b.slot);
        assert !HiddenAt(res, lo, hi, c, b.slot.start, s);
      }
      SlotIgnoresFarBookings(res, rows, rid, owner, lo, hi, c);
    }
    SameSlotsSameAgenda(res, rows, rid, owner, lo, hi);
  }

  // A PENDING request for one slot at the hidden instant.
  function LoneBooking(rid: int, s: int, g: int): BookingData
    requires s > 0
  {
    BookingData(0, rid, 0, DateTimeRange(g, g + s), 0, None, Pending, [], g - 1, g - 1)
  }

  lemma LoneBookingIsOverlooked(
      res: ResourceData, rid: int, owner: bool, lo: int, hi: int, c: int, g: int, s: int)
    requires res.slot > 0 && HiddenAt(res, lo, hi, c, g, s)
    ensures OnceBookable(res.off, rid, [LoneBooking(rid, s, g)])
    ensures !SameAgenda(res, [LoneBooking(rid, s, g)], rid, owner, lo, hi)
  {
    var b := LoneBooking(rid, s, g);
    AnyStartIsAcceptable(s, res.off, g);
    OneOverlooked(res, b, owner, lo, hi, c);
    assert !SameSlot(res, [b], rid, owner, lo, hi, c);
    SameSlotsSameAgenda(res, [b], rid, owner, lo, hi);
  }

  // The agenda of a range is right for all stores of bookings that were each once admitted, under
  // whatever slot length, exactly when no listed slot hides such an instant.
  lemma AgendaIsExactForOnceBookable(res: ResourceData, rid: int, owner: bool, lo: int, hi: int)
    requires res.slot > 0
    ensures (forall rows :: OnceBookable(res.off, rid, rows) ==> SameAgenda(res, rows, rid, owner, lo, hi))
       <==> !HidesAnyStart(res, lo, hi)
  {
    if c, g, s :| HiddenAt(res, lo, hi, c, g, s) {
      LoneBookingIsOverlooked(res, rid, owner, lo, hi, c, g, s);
    } else {
      forall rows: seq<BookingData> | OnceBookable(res.off, rid, rows)
        ensures SameAgenda(res, rows, rid, owner, lo, hi)
      {
        NothingHiddenNothingWrong(res, rows, rid, owner, lo, hi);
      }
    }
  }

  // ---------- over runs ----------

  ghost predicate AllOnceAccepted(st: Store) {
    forall b :: b in st.rows ==> b.resource in st.resources && OnceAccepted(st.resources[b.resource].off, b.slot)
  }

  // Clocks never change, and rows keep their resource and slot.
  ghost predicate KeepsPlaces(st: Store, after: Store) {
    && (forall rid :: rid in st.resources ==>
          rid in after.resources && after.resources[rid].off == st.resources[rid].off)
    && forall i :: 0 <= i < |st.rows| ==>
         i < |after.rows| && after.rows[i].resource == st.rows[i].resource && after.rows[i].slot == st.rows[i].slot
  }

  lemma StepKeepsClocks(st: Store, cmd: Command)
    ensures forall rid :: rid in st.resources ==>
              rid in Next(st, cmd).resources && Next(st, cmd).resources[rid].off == st.resources[rid].off
  {
    var o := OutcomeOf(st, cmd);
    assert (o.Deletes? || o.Saves?) && o.resource in st.resources ==> o.data.off == st.resources[o.resource].off;
  }

  lemma StepKeepsPlaces(st: Store, cmd: Command)
    ensures KeepsPlaces(st, Next(st, cmd))
  {
    StepKeepsClocks(st, cmd);
    StepFollows(st, cmd);
  }

  lemma TakenIsOnceAccepted(st: Store, cmd: Command)
    requires cmd.Request? && RequestOutcome(st, cmd).Inserts?
    ensures var row := RequestOutcome(st, cmd).row;
            row.resource in st.resources && OnceAccepted(st.resources[row.resource].off, row.slot)
  {
    var res: GoodResource := st.resources[cmd.resource];
    assert AcceptedUnder(res.slot, res.hours, res.off, RequestOutcome(st, cmd).row.slot);
  }

  lemma StepKeepsAccepted(st: Store, cmd: Command)
    requires AllOnceAccepted(st)
    ensures AllOnceAccepted(Next(st, cmd))
  {
    var after := Next(st, cmd);
    StepKeepsPlaces(st, cmd);
    StepFollows(st, cmd);
    forall i | 0 <= i < |after.rows|
      ensures after.rows[i].resource in after.resources
      ensures OnceAccepted(after.resources[after.rows[i].resource].off, after.rows[i].slot)
    {
      if i < |st.rows| {
        assert st.rows[i] in st.rows;
      } else {
        NewRowIsTaken(st, cmd, i);
      }
    }
  }

  lemma NewRowIsTaken(st: Store, cmd: Command, i: nat)
    requires |st.rows| <= i < |Next(st, cmd).rows|
    ensures Next(st, cmd).resources == st.resources
    ensures Next(st, cmd).rows[i].resource in st.resources
    ensures OnceAccepted(st.resources[Next(st, cmd).rows[i].resource].off, Next(st, cmd).rows[i].slot)
  {
    assert cmd.Request? && OutcomeOf(st, cmd) == RequestOutcome(st, cmd);
    TakenIsOnceAccepted(st, cmd);
  }

  // In every reachable store each booking was once admitted at its resource's own clock.
  lemma {:induction false} RunKeepsAccepted(st: Store, cmds: seq<Command>)
    requires AllOnceAccepted(st)
    ensures AllOnceAccepted(Exec(st, cmds))
    decreases |cmds|
  {
    if cmds != [] {
      StepKeepsAccepted(st, cmds[0]);
      RunKeepsAccepted(Next(st, cmds[0]), cmds[1..]);
    }
  }

  lemma ReachableIsOnceBookable(k: bool, cmds: seq<Command>, rid: int)
    ensures var st := Exec(Empty(k), cmds);
            rid in st.resources ==> OnceBookable(st.resources[rid].off, rid, st.rows)
  {
    var st := Exec(Empty(k), cmds);
    RunKeepsAccepted(Empty(k), cmds);
    EveryRunKeepsInv(k, cmds);
    forall b | b in st.rows ensures ValidHistory(b) {
      var i :| 0 <= i < |st.rows| && st.rows[i] == b;
      assert ValidHistory(st.rows[i]);
    }
  }

  // A resource as it was when the hidden request was taken.
  function Earlier(res: GoodResource, s: int, tod: int): ResourceData
    requires AllowedSlot(s) && 0 <= tod < tod + s < 1440
  {
    ResourceData(res.owner, res.off, s, SlotADay(s, tod), 0, 0, [], map[], [], true, None)
  }

  // Add the resource, take one request, then give the resource its present slot length, hours and rules.
  function HidingRun(res: GoodResource, rid: int, s: int, g: int, earlier: GoodResource): seq<Command> {
    [AddResource(rid, earlier), Request(0, rid, g, g + s, None, g - 1, 0, true), EditResource(res.owner, rid, res)]
  }

  // The one request of that run is taken.
  lemma HiddenRequestIsTaken(st: Store, rid: int, s: int, g: int, earlier: GoodResource)
    requires st.rows == [] && st.resources == map[rid := earlier] && MayStart(s, earlier.off, g)
    requires earlier == Earlier(earlier, s, TimeOfDay(g + earlier.off))
    ensures var next := Next(st, Request(0, rid, g, g + s, None, g - 1, 0, true));
            next.resources == st.resources && next.rows == [LoneBooking(rid, s, g)]
  {
    var slot: DateTimeRange := DateTimeRange(g, g + s);
    AnyStartIsAcceptable(s, earlier.off, g);
    Grid.OneSlotPrice([], 0, earlier.off, s, slot);
    TakenIf(st, Request(0, rid, g, g + s, None, g - 1, 0, true), slot, 0);
  }

  lemma EditSaves(st: Store, rid: int, res: GoodResource)
    requires rid in st.resources && st.resources[rid].owner == res.owner && st.resources[rid].off == res.off
    requires st.resources[rid].deletedAt.None? && res.deletedAt.None?
    ensures Next(st, EditResource(res.owner, rid, res)) == st.(resources := st.resources[rid := res])
  {
  }

  lemma ThreeSteps(st: Store, a: Command, b: Command, c: Command)
    ensures Exec(st, [a, b, c]) == Next(Next(Next(st, a), b), c)
  {
    ExecThen(st, [], a);
    ExecThen(st, [a], b);
    ExecThen(st, [a, b], c);
    assert [] + [a] == [a] && [a] + [b] == [a, b] && [a, b] + [c] == [a, b, c];
  }

  lemma AfterHidingRun(k: bool, res: GoodResource, rid: int, s: int, g: int, earlier: GoodResource)
    requires MayStart(s, res.off, g) && earlier == Earlier(res, s, TimeOfDay(g + res.off)) && res.deletedAt.None?
    ensures var st := Exec(Empty(k), HidingRun(res, rid, s, g, earlier));
            st.resources == map[rid := res] && st.rows == [LoneBooking(rid, s, g)]
  {
    var run, st := HidingRun(res, rid, s, g, earlier), Store(k, map[rid := earlier], [], []);
    assert Next(Empty(k), run[0]) == st;
    HiddenRequestIsTaken(st, rid, s, g, earlier);
    EditSaves(Next(st, run[1]), rid, res);
    ThreeSteps(Empty(k), run[0], run[1], run[2]);
  }

  // A live resource's agenda of a range is right in every reachable store that holds the resource as it is
  // exactly when no listed slot hides an instant at which a slot of some allowed length may start.
  lemma AgendaIsExactOverRuns(k: bool, res: GoodResource, rid: int, owner: bool, lo: int, hi: int)
    requires res.deletedAt.None?
    ensures (forall cmds :: Holds(Exec(Empty(k), cmds), rid, res) ==>
               SameAgenda(res, Exec(Empty(k), cmds).rows, rid, owner, lo, hi))
       <==> !HidesAnyStart(res, lo, hi)
  {
    if c, g, s :| HiddenAt(res, lo, hi, c, g, s) {
      AnyStartIsAcceptable(s, res.off, g);
      var earlier: GoodResource := Earlier(res, s, TimeOfDay(g + res.off));
      var cmds := HidingRun(res, rid, s, g, earlier);
      AfterHidingRun(k, res, rid, s, g, earlier);
      LoneBookingIsOverlooked(res, rid, owner, lo, hi, c, g, s);
      assert Holds(Exec(Empty(k), cmds), rid, res);
      assert !SameAgenda(res, Exec(Empty(k), cmds).rows, rid, owner, lo, hi);
    } else {
      forall cmds | Holds(Exec(Empty(k), cmds), rid, res)
        ensures SameAgenda(res, Exec(Empty(k), cmds).rows, rid, owner, lo, hi)
      {
        ReachableIsOnceBookable(k, cmds, rid);
        NothingHiddenNothingWrong(res, Exec(Empty(k), cmds).rows, rid, owner, lo, hi);
      }
    }
  }

  ghost predicate Holds(st: Store, rid: int, res: GoodResource) {
    rid in st.resources && st.resources[rid] == res
  }
}
