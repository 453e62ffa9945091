/** The agenda is computed from the bookings that meet its range. When that is as good as computing it
    from the whole store. */
module AgendaFilter {
  import opened Calendar
  import opened Schedules
  import opened Resources
  import opened Grid
  import B = Bookings

  lemma FirstOfList(rows: seq<B.BookingData>, q: B.Query, st: B.Status, slot: DateTimeRange)
    requires rows != []
    ensures FirstOverlapping(B.List(rows, q), st, slot)
         == if B.Matches(q, rows[0]) && rows[0].status == st && Overlaps(rows[0].slot, slot) then Some(rows[0])
            else FirstOverlapping(B.List(rows[1..], q), st, slot)
  {
    var rest := B.List(rows[1..], q);
    if B.Matches(q, rows[0]) {
      assert B.List(rows, q)[1..] == rest;
    } else {
      assert B.List(rows, q) == rest;
    }
  }

  // What the agenda of a range is computed from, and what it would be computed from without the filter.
  function Near(res: ResourceData, rows: seq<B.BookingData>, rid: int, owner: bool, lo: int, hi: int): AgendaView {
    AgendaView(res, B.List(B.ByStart(rows), B.MeetingRange(rid, lo, hi)), owner)
  }

  function Whole(res: ResourceData, rows: seq<B.BookingData>, rid: int, owner: bool): AgendaView {
    AgendaView(res, B.List(B.ByStart(rows), B.AllOf(rid)), owner)
  }

  ghost predicate SameSlot(
      res: ResourceData, rows: seq<B.BookingData>, rid: int, owner: bool, lo: int, hi: int, c: int)
    requires res.slot > 0
  {
    SlotAt(Near(res, rows, rid, owner, lo, hi), c) == SlotAt(Whole(res, rows, rid, owner), c)
  }

  ghost predicate SameAgenda(res: ResourceData, rows: seq<B.BookingData>, rid: int, owner: bool, lo: int, hi: int)
    requires res.slot > 0
  {
    forall out :: IsAgenda(Near(res, rows, rid, owner, lo, hi), lo, hi, out)
             <==> IsAgenda(Whole(res, rows, rid, owner), lo, hi, out)
  }

  // Some booking of a status overlaps the slot and starts before the end of the range.
  ghost predicate Shown(rows: seq<B.BookingData>, rid: int, st: B.Status, slot: DateTimeRange, hi: int) {
    exists b :: b in rows && b.resource == rid && b.status == st && Overlaps(b.slot, slot) && b.slot.start < hi
  }

  // Some booking of a status overlaps the slot and starts after the range.
  ghost predicate Missed(rows: seq<B.BookingData>, rid: int, st: B.Status, slot: DateTimeRange, hi: int) {
    exists b :: b in rows && b.resource == rid && b.status == st && Overlaps(b.slot, slot) && hi <= b.slot.start
  }

  lemma {:induction false} NothingMeets(rows: seq<B.BookingData>, rid: int, lo: int, hi: int)
    requires forall b :: b in rows ==> hi <= b.slot.start
    ensures B.List(rows, B.MeetingRange(rid, lo, hi)) == []
  {
    if rows != [] {
      NothingMeets(rows[1..], rid, lo, hi);
    }
  }

  // In order of start, a booking that the filter keeps comes before any that it drops from a slot.
  lemma {:induction false} KeptComeFirst(
      rows: seq<B.BookingData>, rid: int, st: B.Status, slot: DateTimeRange, lo: int, hi: int)
    requires lo <= slot.start && B.SortedByStart(rows)
    ensures var near := FirstOverlapping(B.List(rows, B.MeetingRange(rid, lo, hi)), st, slot);
            near.Some? ==> FirstOverlapping(B.List(rows, B.AllOf(rid)), st, slot) == near
  {
    if rows != [] {
      if rows[0].slot.start < hi {
        KeptComeFirst(rows[1..], rid, st, slot, lo, hi);
        FirstOfList(rows, B.MeetingRange(rid, lo, hi), st, slot);
        FirstOfList(rows, B.AllOf(rid), st, slot);
      } else {
        NothingMeets(rows, rid, lo, hi);
      }
    }
  }

  ghost predicate SomeMatch(rows: seq<B.BookingData>, q: B.Query, st: B.Status, slot: DateTimeRange) {
    exists b :: b in rows && B.Matches(q, b) && b.status == st && Overlaps(b.slot, slot)
  }

  lemma FirstOfQuery(rows: seq<B.BookingData>, q: B.Query, st: B.Status, slot: DateTimeRange)
    ensures FirstOverlapping(B.List(B.ByStart(rows), q), st, slot).Some? <==> SomeMatch(rows, q, st, slot)
  {
    B.ByStartSorts(rows);
    B.ListIsExact(B.ByStart(rows), q);
    FirstOverlappingIsSome(B.List(B.ByStart(rows), q), st, slot);
  }

  lemma MatchesByStart(rows: seq<B.BookingData>, rid: int, st: B.Status, slot: DateTimeRange, lo: int, hi: int)
    requires lo <= slot.start
    ensures SomeMatch(rows, B.MeetingRange(rid, lo, hi), st, slot) <==> Shown(rows, rid, st, slot, hi)
    ensures SomeMatch(rows, B.AllOf(rid), st, slot)
       <==> Shown(rows, rid, st, slot, hi) || Missed(rows, rid, st, slot, hi)
  {
  }

  // The longer list shows what the shorter one shows, if that shows any.
  ghost predicate Extends(near: Option<B.BookingData>, all: Option<B.BookingData>) {
    near.Some? ==> all == near
  }

  lemma FirstMatchExactly(
      res: ResourceData, rows: seq<B.BookingData>, rid: int, owner: bool, lo: int, hi: int, st: B.Status,
      slot: DateTimeRange)
    requires lo <= slot.start
    ensures var near := FirstOverlapping(Near(res, rows, rid, owner, lo, hi).bookings, st, slot);
            var all := FirstOverlapping(Whole(res, rows, rid, owner).bookings, st, slot);
            && (near.Some? <==> Shown(rows, rid, st, slot, hi))
            && (all.Some? <==> Shown(rows, rid, st, slot, hi) || Missed(rows, rid, st, slot, hi))
            && Extends(near, all)
  {
    FirstOfQuery(rows, B.MeetingRange(rid, lo, hi), st, slot);
    FirstOfQuery(rows, B.AllOf(rid), st, slot);
    MatchesByStart(rows, rid, st, slot, lo, hi);
    B.ByStartSorts(rows);
    KeptComeFirst(B.ByStart(rows), rid, st, slot, lo, hi);
  }

  // A booking that starts after the range would change what the slot shows.
  ghost predicate Overlooked(rows: seq<B.BookingData>, rid: int, slot: DateTimeRange, hi: int) {
    && !Shown(rows, rid, B.Approved, slot, hi)
    && (Missed(rows, rid, B.Approved, slot, hi)
        || (!Shown(rows, rid, B.Pending, slot, hi) && Missed(rows, rid, B.Pending, slot, hi)))
  }

  // What a slot shows, by the first bookings of either status that overlap it.
  lemma SlotByMatches(v: AgendaView, u: AgendaView, c: int)
    requires v.res == u.res && v.res.slot > 0 && v.ownerView == u.ownerView
    requires var slot := DateTimeRange(c, c + v.res.slot);
      && Extends(FirstOverlapping(v.bookings, B.Approved, slot), FirstOverlapping(u.bookings, B.Approved, slot))
      && Extends(FirstOverlapping(v.bookings, B.Pending, slot), FirstOverlapping(u.bookings, B.Pending, slot))
    ensures var slot := DateTimeRange(c, c + v.res.slot);
            SlotAt(v, c) == SlotAt(u, c) <==>
              || FirstOverlapping(v.bookings, B.Approved, slot).Some?
              || (FirstOverlapping(u.bookings, B.Approved, slot).None?
                  && (FirstOverlapping(v.bookings, B.Pending, slot).Some?
                      || FirstOverlapping(u.bookings, B.Pending, slot).None?))
  {
  }

  // For every store, every range and every slot of it, on the grid or off it: the slot computed from the
  // range's bookings is right exactly when no booking is overlooked.
  lemma SlotIsRightExactly(
      res: ResourceData, rows: seq<B.BookingData>, rid: int, owner: bool, lo: int, hi: int, c: int)
    requires res.slot > 0 && lo <= c
    ensures SameSlot(res, rows, rid, owner, lo, hi, c) <==> !Overlooked(rows, rid, DateTimeRange(c, c + res.slot), hi)
  {
    var slot: DateTimeRange := DateTimeRange(c, c + res.slot);
    FirstMatchExactly(res, rows, rid, owner, lo, hi, B.Approved, slot);
    FirstMatchExactly(res, rows, rid, owner, lo, hi, B.Pending, slot);
    SlotByMatches(Near(res, rows, rid, owner, lo, hi), Whole(res, rows, rid, owner), c);
  }

  // So is the whole agenda.
  lemma AgendaIsRightExactly(res: ResourceData, rows: seq<B.BookingData>, rid: int, owner: bool, lo: int, hi: int)
    requires res.slot > 0
    ensures SameAgenda(res, rows, rid, owner, lo, hi)
       <==> forall c :: ListsAt(res, lo, hi, c) ==> !Overlooked(rows, rid, DateTimeRange(c, c + res.slot), hi)
  {
    SameSlotsSameAgenda(res, rows, rid, owner, lo, hi);
    forall c | ListsAt(res, lo, hi, c)
      ensures SameSlot(res, rows, rid, owner, lo, hi, c)
         <==> !Overlooked(rows, rid, DateTimeRange(c, c + res.slot), hi)
    {
      SlotIsRightExactly(res, rows, rid, owner, lo, hi, c);
    }
  }

  // Only a booking that starts after the range and inside the slot can make a difference.
  lemma SlotIgnoresFarBookings(
      res: ResourceData, rows: seq<B.BookingData>, rid: int, owner: bool, lo: int, hi: int, c: int)
    requires res.slot > 0 && lo <= c
    requires forall b :: b in rows && b.resource == rid ==> !(hi <= b.slot.start < c + res.slot)
    ensures SameSlot(res, rows, rid, owner, lo, hi, c)
  {
    SlotIsRightExactly(res, rows, rid, owner, lo, hi, c);
  }

  // The agenda of any view, from its starts.
  function AgendaOf(v: AgendaView, starts: seq<int>): seq<AgendaSlot>
    requires v.res.slot > 0
  {
    seq(|starts|, i requires 0 <= i < |starts| => SlotAt(v, starts[i]))
  }

  lemma StartsAreListed(res: ResourceData, lo: int, hi: int, c: int)
    requires res.slot > 0
    ensures c in Starts(EmitsFrom(res), res.slot, lo, hi) <==> ListsAt(res, lo, hi, c)
  {
    StartsAreExact(EmitsFrom(res), res.slot, lo, hi, c);
    assert EmitsFrom(res)(c) == Emits(res.slot, res.hours, c + res.off);
  }

  // Agendas are equal exactly when their slots are.
  lemma SameSlotsSameAgenda(
      res: ResourceData, rows: seq<B.BookingData>, rid: int, owner: bool, lo: int, hi: int)
    requires res.slot > 0
    ensures SameAgenda(res, rows, rid, owner, lo, hi)
       <==> forall c :: ListsAt(res, lo, hi, c) ==> SameSlot(res, rows, rid, owner, lo, hi, c)
  {
    var near, all := Near(res, rows, rid, owner, lo, hi), Whole(res, rows, rid, owner);
    var starts := Starts(EmitsFrom(res), res.slot, lo, hi);
    SameStartsSameAgenda(near, all, lo, hi);
    if SameAgenda(res, rows, rid, owner, lo, hi) {
      forall c | ListsAt(res, lo, hi, c) ensures SameSlot(res, rows, rid, owner, lo, hi, c) {
        StartsAreListed(res, lo, hi, c);
        assert SlotAt(near, c) == SlotAt(all, c);
      }
    } else {
      var c :| c in starts && SlotAt(near, c) != SlotAt(all, c);
      StartsAreListed(res, lo, hi, c);
      assert !SameSlot(res, rows, rid, owner, lo, hi, c);
    }
  }

  lemma SameStartsSameAgenda(v: AgendaView, u: AgendaView, lo: int, hi: int)
    requires v.res.slot > 0 && u.res == v.res
    ensures (forall out :: IsAgenda(v, lo, hi, out) <==> IsAgenda(u, lo, hi, out))
       <==> forall c :: c in Starts(EmitsFrom(v.res), v.res.slot, lo, hi) ==> SlotAt(v, c) == SlotAt(u, c)
  {
    var starts := Starts(EmitsFrom(v.res), v.res.slot, lo, hi);
    if forall out :: IsAgenda(v, lo, hi, out) <==> IsAgenda(u, lo, hi, out) {
      var out := AgendaOf(v, starts);
      assert IsAgenda(v, lo, hi, out);
      forall c | c in starts ensures SlotAt(v, c) == SlotAt(u, c) {
        var i :| 0 <= i < |starts| && starts[i] == c;
        assert out[i] == SlotAt(v, c);
      }
    }
  }

  // For a range of whole slots, filtering changes nothing in the agenda, whatever the store holds.
  lemma FilteredAgendaIsExact(
      res: ResourceData, rows: seq<B.BookingData>, rid: int, owner: bool, lo: int, hi: int)
    requires res.slot > 0 && (hi - lo) % res.slot == 0
    ensures SameAgenda(res, rows, rid, owner, lo, hi)
  {
    forall c | ListsAt(res, lo, hi, c) ensures SameSlot(res, rows, rid, owner, lo, hi, c) {
      GridSteps(res.slot, c - lo, hi - lo);
      SlotIgnoresFarBookings(res, rows, rid, owner, lo, hi, c);
    }
    SameSlotsSameAgenda(res, rows, rid, owner, lo, hi);
  }

  // For a range that starts on the grid it changes nothing either, whatever the range's length, as
  // long as the resource's bookings start on its present grid.
  lemma FilteredAgendaIsExactOnGrid(
      res: ResourceData, rows: seq<B.BookingData>, rid: int, owner: bool, lo: int, hi: int)
    requires res.slot > 0 && OnGrid(res.slot, lo + res.off)
    requires forall b :: b in rows && b.resource == rid ==> OnGrid(res.slot, b.slot.start + res.off)
    ensures SameAgenda(res, rows, rid, owner, lo, hi)
  {
    forall c | ListsAt(res, lo, hi, c) ensures SameSlot(res, rows, rid, owner, lo, hi, c) {
      GridSteps(res.slot, lo + res.off, c + res.off);
      forall b | b in rows && b.resource == rid ensures !(hi <= b.slot.start < c + res.slot) {
        GridSteps(res.slot, c + res.off, b.slot.start + res.off);
      }
      SlotIgnoresFarBookings(res, rows, rid, owner, lo, hi, c);
    }
    SameSlotsSameAgenda(res, rows, rid, owner, lo, hi);
  }

  // Stores whose bookings of the resource could be requested on its present grid and hours.
  ghost predicate Bookable(res: ResourceData, rid: int, rows: seq<B.BookingData>)
    requires res.slot > 0
  {
    forall b :: b in rows && b.resource == rid ==>
      Accepts(res.slot, res.hours, res.off, b.slot) && B.ValidHistory(b)
  }

  // Some open grid point lies after the range and inside the slot that starts at c.
  ghost predicate HidesAStart(res: ResourceData, hi: int, c: int)
    requires res.slot > 0
  {
    exists g :: HiddenStart(res, hi, c, g)
  }

  ghost predicate HiddenStart(res: ResourceData, hi: int, c: int, g: int)
    requires res.slot > 0
  {
    OnGrid(res.slot, g + res.off) && OpenAt(res.hours, g + res.off) && hi <= g < c + res.slot
  }

  // A slot computed from the range's bookings is right for every such store exactly when it hides no
  // open grid point that lies after the range.
  lemma FilteredSlotIsExact(res: ResourceData, rid: int, owner: bool, lo: int, hi: int, c: int)
    requires ResourceOk(res) && lo <= c < hi
    ensures (forall rows :: Bookable(res, rid, rows) ==> SameSlot(res, rows, rid, owner, lo, hi, c))
       <==> !HidesAStart(res, hi, c)
  {
    if g :| HiddenStart(res, hi, c, g) {
      HiddenBookingShows(res, rid, owner, lo, hi, c, g);
    } else {
      forall rows: seq<B.BookingData> | Bookable(res, rid, rows)
        ensures SameSlot(res, rows, rid, owner, lo, hi, c)
      {
        forall b | b in rows && b.resource == rid ensures !(hi <= b.slot.start < c + res.slot) {
          AcceptedStartIsOpen(res, b.slot);
          assert !HiddenStart(res, hi, c, b.slot.start);
        }
        SlotIgnoresFarBookings(res, rows, rid, owner, lo, hi, c);
      }
    }
  }

  lemma AcceptedStartIsOpen(res: ResourceData, slot: DateTimeRange)
    requires ResourceOk(res) && Accepts(res.slot, res.hours, res.off, slot)
    ensures OnGrid(res.slot, slot.start + res.off) && OpenAt(res.hours, slot.start + res.off)
  {
    GridRestartsAtMidnight(res.slot, slot.start + res.off);
    assert (slot.start - slot.start) % res.slot == 0;
  }

  // A request for one slot at the hidden grid point is what the filtered agenda overlooks.
  function HiddenBooking(res: ResourceData, rid: int, g: int): B.BookingData
    requires res.slot > 0
  {
    B.BookingData(0, rid, 0, DateTimeRange(g, g + res.slot), 0, None, B.Pending, [], 0, 0)
  }

  lemma HiddenBookingIsBookable(res: ResourceData, rid: int, g: int)
    requires ResourceOk(res) && OnGrid(res.slot, g + res.off) && OpenAt(res.hours, g + res.off)
    ensures Bookable(res, rid, [HiddenBooking(res, rid, g)])
  {
    OneSlotAccepted(res.slot, res.hours, res.off, HiddenBooking(res, rid, g).slot);
  }

  lemma HiddenBookingShows(res: ResourceData, rid: int, owner: bool, lo: int, hi: int, c: int, g: int)
    requires ResourceOk(res) && lo <= c < hi && HiddenStart(res, hi, c, g)
    ensures Bookable(res, rid, [HiddenBooking(res, rid, g)])
    ensures !SameSlot(res, [HiddenBooking(res, rid, g)], rid, owner, lo, hi, c)
  {
    var b := HiddenBooking(res, rid, g);
    HiddenBookingIsBookable(res, rid, g);
    OneOverlooked(res, b, owner, lo, hi, c);
  }

  // The only booking starts after the range and inside the slot.
  lemma OneOverlooked(res: ResourceData, b: B.BookingData, owner: bool, lo: int, hi: int, c: int)
    requires res.slot > 0 && B.IsActive(b.status) && c < hi <= b.slot.start < c + res.slot
    ensures SlotAt(Near(res, [b], b.resource, owner, lo, hi), c).status == Available
    ensures SlotAt(Whole(res, [b], b.resource, owner), c).status == if b.status.Approved? then Approved else Pending
  {
    OneRowFiltered(b, B.MeetingRange(b.resource, lo, hi));
    OneRowFiltered(b, B.AllOf(b.resource));
    StatusOfNone(Near(res, [b], b.resource, owner, lo, hi), c);
    StatusOfOne(Whole(res, [b], b.resource, owner), b, c);
  }

  lemma StatusOfNone(v: AgendaView, c: int)
    requires v.res.slot > 0 && v.bookings == []
    ensures SlotAt(v, c).status == Available
  {
  }

  lemma StatusOfOne(v: AgendaView, b: B.BookingData, c: int)
    requires v.res.slot > 0 && v.bookings == [b] && B.IsActive(b.status)
    requires Overlaps(b.slot, DateTimeRange(c, c + v.res.slot))
    ensures SlotAt(v, c).status == if b.status.Approved? then Approved else Pending
  {
    assert FirstOverlapping([b][1..], B.Approved, DateTimeRange(c, c + v.res.slot)) == None;
  }

  lemma OneRowFiltered(b: B.BookingData, q: B.Query)
    ensures B.List(B.ByStart([b]), q) == if B.Matches(q, b) then [b] else []
  {
    assert B.ByStart([b][1..]) == [];
    assert B.ByStart([b]) == [b];
    assert B.List([b][1..], q) == [];
  }

  // A whole agenda is right for every such store exactly when none of its slots hides such a point.
  lemma AgendaIsExactWithoutHiddenStarts(res: ResourceData, rid: int, owner: bool, lo: int, hi: int)
    requires ResourceOk(res)
    ensures (forall rows :: Bookable(res, rid, rows) ==> SameAgenda(res, rows, rid, owner, lo, hi))
       <==> forall c :: ListsAt(res, lo, hi, c) ==> !HidesAStart(res, hi, c)
  {
    if c, g :| ListsAt(res, lo, hi, c) && HiddenStart(res, hi, c, g) {
      HiddenBookingShows(res, rid, owner, lo, hi, c, g);
      SameSlotsSameAgenda(res, [HiddenBooking(res, rid, g)], rid, owner, lo, hi);
    } else {
      forall rows: seq<B.BookingData> | Bookable(res, rid, rows)
        ensures SameAgenda(res, rows, rid, owner, lo, hi)
      {
        forall c | ListsAt(res, lo, hi, c) ensures SameSlot(res, rows, rid, owner, lo, hi, c) {
          FilteredSlotIsExact(res, rid, owner, lo, hi, c);
        }
        SameSlotsSameAgenda(res, rows, rid, owner, lo, hi);
      }
    }
  }

  // ---------- which booking is shown ----------

  // Of several bookings that overlap a slot, the one shown is the first to start.
  lemma {:induction false} FirstOverlappingStartsFirst(bs: seq<B.BookingData>, st: B.Status, slot: DateTimeRange)
    requires B.SortedByStart(bs)
    ensures var first := FirstOverlapping(bs, st, slot);
            first.Some? ==> forall b :: b in bs && b.status == st && Overlaps(b.slot, slot) ==>
              first.value.slot.start <= b.slot.start
  {
    if bs != [] {
      FirstOverlappingStartsFirst(bs[1..], st, slot);
    }
  }

  lemma AgendaShowsFirstToStart(
      res: ResourceData, rows: seq<B.BookingData>, rid: int, lo: int, hi: int, st: B.Status, slot: DateTimeRange)
    ensures var first := FirstOverlapping(Near(res, rows, rid, true, lo, hi).bookings, st, slot);
            first.Some? ==>
              forall b :: b in rows && b.resource == rid && b.slot.start < hi && b.slot.end > lo && b.status == st ==>
                Overlaps(b.slot, slot) ==> first.value.slot.start <= b.slot.start
  {
    var q := B.MeetingRange(rid, lo, hi);
    B.ByStartSorts(rows);
    B.ListStaysSorted(B.ByStart(rows), q);
    B.ListIsExact(B.ByStart(rows), q);
    FirstOverlappingStartsFirst(B.List(B.ByStart(rows), q), st, slot);
  }
}
