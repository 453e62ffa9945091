/** When each command succeeds and what it then changes, stated without the handlers' gates: by who
    may do what, by minutes, and by rows. */
module Effects {
  import opened Calendar
  import opened Pricing
  import opened Bookings
  import opened Protocol
  import Grid

  // ---------- request ----------

  ghost predicate Free(st: Store, customer: int, resource: int, slot: DateTimeRange) {
    forall b :: b in st.rows && b.customer == customer && b.resource == resource && IsActive(b.status) ==>
      !ShareAMinute(b.slot, slot)
  }

  // The price of the range by the minute, which is slot length times its total.
  ghost function MinuteTotal(res: GoodResource, slot: DateTimeRange): nat {
    Walk(Tariff(res.rules, res.base, res.off), 1, slot.start, slot.end)
  }

  // A request is taken exactly when the range is a future one of a live, published resource of an
  // operational owner, whole slots, open in every minute, shares no minute with an active booking of
  // the same customer there, is payable, the note is short enough and the new id is new.
  lemma RequestTakenExactly(st: Store, cmd: Command)
    requires cmd.Request? && Inv(st)
    ensures OutcomeOf(st, cmd).Inserts? <==>
      && cmd.now < cmd.start < cmd.end
      && cmd.resource in st.resources
      && var res, slot := st.resources[cmd.resource], DateTimeRange(cmd.start, cmd.end);
         && res.deletedAt.None? && res.published && cmd.operational
         && Grid.WholeSlots(res.slot, res.off, slot)
         && Grid.OpenThroughout(res.hours, slot.start + res.off, slot.end + res.off)
         && Free(st, cmd.actor, cmd.resource, slot)
         && MinuteTotal(res, slot) <= res.slot * MAX_CENTS
         && NoteFits(cmd.note)
         && forall b :: b in st.rows ==> b.id != cmd.newId
    ensures OutcomeOf(st, cmd).Inserts? || Next(st, cmd) == st
  {
    if cmd.start < cmd.end && cmd.resource in st.resources {
      var res, slot: DateTimeRange := st.resources[cmd.resource], DateTimeRange(cmd.start, cmd.end);
      Grid.AcceptsMeansEveryMinuteOpen(res.slot, res.hours, res.off, slot);
      FreeMeansNothingListed(st, cmd.actor, cmd.resource, slot);
      FindIsNone(st.rows, cmd.newId);
      if Grid.WholeSlots(res.slot, res.off, slot) {
        PayableByTheMinute(res, slot);
      }
    }
  }

  lemma FreeMeansNothingListed(st: Store, customer: int, resource: int, slot: DateTimeRange)
    ensures List(st.rows, ActiveOf(customer, resource, slot)) == [] <==> Free(st, customer, resource, slot)
  {
    var q := ActiveOf(customer, resource, slot);
    ListIsExact(st.rows, q);
    forall b: BookingData ensures Overlaps(b.slot, slot) <==> ShareAMinute(b.slot, slot) {
      OverlapIsASharedMinute(b.slot, slot);
    }
    if List(st.rows, q) != [] {
      assert List(st.rows, q)[0] in List(st.rows, q);
    }
  }

  lemma FindIsNone(rows: seq<BookingData>, id: int)
    ensures Find(rows, id).None? <==> forall b :: b in rows ==> b.id != id
  {
  }

  lemma PayableByTheMinute(res: GoodResource, slot: DateTimeRange)
    requires Grid.WholeSlots(res.slot, res.off, slot)
    ensures Walk(Tariff(res.rules, res.base, res.off), res.slot, slot.start, slot.end) <= MAX_CENTS
       <==> MinuteTotal(res, slot) <= res.slot * MAX_CENTS
  {
    GridRestartsAtMidnight(res.slot, slot.start + res.off);
    PriceRefinesMinuteTariff(res.slot, res.rules, res.base, res.off, slot.start, slot.end);
  }

  // ---------- reject and cancel ----------

  // Rows that differ in one booking only, by one more change of its history.
  ghost predicate OnlyMoves(before: seq<BookingData>, after: seq<BookingData>, i: nat, to: Status,
                            actor: int, role: Role, now: int, reason: Option<string>)
    requires i < |before|
  {
    var b := before[i];
    after == before[i := b.(status := to, updatedAt := now,
                            history := b.history + [StatusChange(b.status, to, actor, role, now, reason)])]
  }

  ghost function OwnerOf(st: Store, b: BookingData): int
    requires b.resource in st.resources
  {
    st.resources[b.resource].owner
  }

  // Only the owner rejects, and only a PENDING booking.
  lemma RejectExactly(st: Store, cmd: Command, i: nat)
    requires cmd.Reject? && Inv(st) && i < |st.rows| && st.rows[i].id == cmd.booking
    ensures OutcomeOf(st, cmd).Changes? <==>
      OwnerOf(st, st.rows[i]) == cmd.actor && st.rows[i].status.Pending? && ReasonFits(cmd.reason)
    ensures OutcomeOf(st, cmd).Changes? ==>
      && OnlyMoves(st.rows, Next(st, cmd).rows, i, Rejected, cmd.actor, Owner, cmd.now, cmd.reason)
      && Next(st, cmd).resources == st.resources
      && Next(st, cmd).log == st.log + [Notice(st.rows[i].customer, BookingRejected)]
    ensures OutcomeOf(st, cmd).Changes? || Next(st, cmd) == st
  {
    assert Find(st.rows, cmd.booking) == Some(i);
    if OutcomeOf(st, cmd).Changes? {
      OneRowMoves(RejectOne(cmd.booking, cmd.actor, cmd.now, cmd.reason), st.rows, i);
    }
  }

  // The owner cancels an active booking at any time, its customer only while more than the cutoff
  // remains. Who cancels is recorded; the other party is told, unless both are the same person.
  lemma CancelExactly(st: Store, cmd: Command, i: nat)
    requires cmd.Cancel? && Inv(st) && i < |st.rows| && st.rows[i].id == cmd.booking
    ensures var b := st.rows[i];
      OutcomeOf(st, cmd).Changes? <==>
        && IsActive(b.status) && ReasonFits(cmd.reason)
        && (OwnerOf(st, b) == cmd.actor
            || (b.customer == cmd.actor && cmd.now + 60 * st.resources[b.resource].cutoffHours < b.slot.start))
    ensures OutcomeOf(st, cmd).Changes? ==>
      var b, owner := st.rows[i], OwnerOf(st, st.rows[i]);
      && OnlyMoves(st.rows, Next(st, cmd).rows, i, Cancelled, cmd.actor,
                   if owner == cmd.actor then Owner else Customer, cmd.now, cmd.reason)
      && Next(st, cmd).resources == st.resources
      && exists told :: Next(st, cmd).log == st.log + [Notice(told, BookingCancelled)]
                     && {told, cmd.actor} == {owner, b.customer}
    ensures OutcomeOf(st, cmd).Changes? || Next(st, cmd) == st
  {
    assert Find(st.rows, cmd.booking) == Some(i);
    if OutcomeOf(st, cmd).Changes? {
      var b, owner := st.rows[i], OwnerOf(st, st.rows[i]);
      var role := if owner == cmd.actor then Owner else Customer;
      OneRowMoves(CancelOne(cmd.booking, cmd.actor, role, cmd.now, cmd.reason), st.rows, i);
      var told := if b.customer == cmd.actor then owner else b.customer;
      assert Next(st, cmd).log == st.log + [Notice(told, BookingCancelled)];
    }
  }

  // ---------- expiry ----------

  // Exactly the PENDING bookings that have started expire, under their customer's name.
  lemma ExpireEffect(st: Store, now: int, i: nat)
    requires i < |st.rows|
    ensures |Next(st, Expire(now)).rows| == |st.rows| && Next(st, Expire(now)).resources == st.resources
    ensures var b := st.rows[i];
      Next(st, Expire(now)).rows[i] ==
        if b.status.Pending? && b.slot.start < now then
          b.(status := Expired, updatedAt := now,
             history := b.history + [StatusChange(Pending, Expired, b.customer, Customer, now, Some(EXPIRY_REASON))])
        else b
  {
    assert |EXPIRY_REASON| <= REASON_MAX_LENGTH;
  }

  // The handler, committed, is safe to retry: until a later booking starts, running it again changes
  // nothing, tells nobody and counts none.
  lemma ExpireIsIdempotent(st: Store, now: int, again: int)
    requires forall b :: b in st.rows && b.status.Pending? && b.slot.start < again ==> b.slot.start < now
    ensures var once := Next(st, Expire(now));
            Next(once, Expire(again)) == once && OutcomeOf(once, Expire(again)) == Changes(ExpireAll(again), [], 0)
  {
    var once := Next(st, Expire(now));
    var q := PendingStartingBefore(again);
    if List(once.rows, q) != [] {
      assert List(once.rows, q)[0] in List(once.rows, q);
    }
    forall i | 0 <= i < |once.rows| ensures !Matches(q, once.rows[i]) {
      ExpireEffect(st, now, i);
      assert st.rows[i] in st.rows;
    }
    ListIsExact(once.rows, q);
    assert Apply(ExpireAll(again), once.rows) == once.rows;
  }

  // What the job's entry point counts. It leaves its session before the commit, so the store it ran
  // on is also the store that its retry finds.
  function JobCount(st: Store, now: int): nat {
    |List(st.rows, PendingStartingBefore(now))|
  }

  ghost predicate SomeStarted(st: Store, now: int) {
    exists b :: b in st.rows && b.status.Pending? && b.slot.start < now
  }

  // A run of the job counts what the handler would expire, and its retry, on the same store, counts
  // all of that again: it counts none if and only if no PENDING booking has started.
  lemma JobRetryCounts(st: Store, now: int, again: int)
    requires now <= again
    ensures OutcomeOf(st, Expire(now)).result == JobCount(st, now) <= JobCount(st, again)
    ensures JobCount(st, again) == 0 <==> !SomeStarted(st, again)
  {
    LaterListsMore(st.rows, now, again);
    var q := PendingStartingBefore(again);
    if List(st.rows, q) != [] {
      assert List(st.rows, q)[0] in List(st.rows, q);
    }
    ListIsExact(st.rows, q);
  }

  lemma {:induction false} LaterListsMore(rows: seq<BookingData>, now: int, again: int)
    requires now <= again
    ensures |List(rows, PendingStartingBefore(now))| <= |List(rows, PendingStartingBefore(again))|
  {
    if rows != [] {
      LaterListsMore(rows[1..], now, again);
    }
  }

  // ---------- deletion ----------

  // Only the owner deletes, only once, and only when no APPROVED booking has yet to start.
  lemma DeleteExactly(st: Store, cmd: Command)
    requires cmd.SoftDelete?
    ensures OutcomeOf(st, cmd).Deletes? <==>
      && Owns(st, cmd.actor, cmd.resource)
      && forall b :: b in st.rows && b.resource == cmd.resource && b.status.Approved? ==> b.slot.start < cmd.now
    ensures OutcomeOf(st, cmd).Deletes? || Next(st, cmd) == st
  {
    var q := ApprovedStartingFrom(cmd.resource, cmd.now);
    ListIsExact(st.rows, q);
    if List(st.rows, q) != [] {
      assert List(st.rows, q)[0] in List(st.rows, q);
    }
  }

  // Exactly the PENDING bookings of the resource are cancelled; nothing else but the deletion time
  // changes.
  lemma DeleteEffect(st: Store, cmd: Command, i: nat)
    requires cmd.SoftDelete? && OutcomeOf(st, cmd).Deletes? && i < |st.rows|
    ensures Owns(st, cmd.actor, cmd.resource)
    ensures Next(st, cmd).resources
         == st.resources[cmd.resource := st.resources[cmd.resource].(deletedAt := Some(cmd.now))]
    ensures |Next(st, cmd).rows| == |st.rows| && Next(st, cmd).rows[i] == DeletionOf(cmd, st.rows[i])
  {
    DeletionMoves(cmd, st.rows[i]);
  }

  lemma DeletionMoves(cmd: Command, b: BookingData)
    requires cmd.SoftDelete?
    ensures RowAfter(CancelAll(cmd.resource, cmd.actor, cmd.now), b) == DeletionOf(cmd, b)
  {
    assert |DELETED_REASON| <= REASON_MAX_LENGTH;
  }

  ghost function DeletionOf(cmd: Command, b: BookingData): BookingData
    requires cmd.SoftDelete?
  {
    if b.resource == cmd.resource && b.status.Pending? then
      b.(status := Cancelled, updatedAt := cmd.now,
         history := b.history + [StatusChange(Pending, Cancelled, cmd.actor, Owner, cmd.now, Some(DELETED_REASON))])
    else b
  }

  // ---------- who is told of an expiry or a deletion ----------

  ghost predicate Started(b: BookingData, now: int) {
    b.status.Pending? && b.slot.start < now
  }

  // The customer of each booking that expires is told once that it is rejected, and nobody else is; the
  // answer is how many there are.
  lemma ExpiryNotices(st: Store, now: int)
    requires Inv(st)
    ensures exists late: seq<BookingData> ::
      && Next(st, Expire(now)).log == st.log + NoticesTo(late, BookingRejected)
      && OutcomeOf(st, Expire(now)).result == |late|
      && UniqueIds(late)
      && forall b :: b in late <==> b in st.rows && Started(b, now)
  {
    var q := PendingStartingBefore(now);
    ListIsExact(st.rows, q);
    ListHasUniqueIds(st.rows, q);
    assert Next(st, Expire(now)).log == st.log + NoticesTo(List(st.rows, q), BookingRejected);
  }

  // The customer of each booking that a deletion cancels is told once that it is cancelled, and nobody
  // else is.
  lemma DeletionNotices(st: Store, cmd: Command)
    requires cmd.SoftDelete? && Inv(st) && OutcomeOf(st, cmd).Deletes?
    ensures exists gone: seq<BookingData> ::
      && Next(st, cmd).log == st.log + NoticesTo(gone, BookingCancelled)
      && UniqueIds(gone)
      && forall b :: b in gone <==> b in st.rows && b.resource == cmd.resource && b.status.Pending?
  {
    var q := PendingOf(cmd.resource);
    ListIsExact(st.rows, q);
    ListHasUniqueIds(st.rows, q);
    assert Next(st, cmd).log == st.log + NoticesTo(List(st.rows, q), BookingCancelled);
  }

  // One notice of a kind to the customer of each booking, in order.
  lemma NoticesAre(bs: seq<BookingData>, kind: Kind, i: nat)
    requires i < |bs|
    ensures |NoticesTo(bs, kind)| == |bs|
    ensures NoticesTo(bs, kind)[i].recipient == bs[i].customer && NoticesTo(bs, kind)[i].kind == kind
  {
  }

  // ---------- which failure ----------

  // The first reason against a request, by the minutes and rows concerned.
  ghost function ReasonAgainst(st: Store, cmd: Command): Option<Failure>
    requires cmd.Request?
  {
    var badRange, badNote := cmd.start >= cmd.end, KeptNote(cmd.note).Some? && |KeptNote(cmd.note).value| > 500;
    if badRange || badNote then Some(InvalidInput(badRange, badNote))
    else if cmd.resource !in st.resources then Some(ResourceNotFound)
    else
      var res, slot: DateTimeRange := st.resources[cmd.resource], DateTimeRange(cmd.start, cmd.end);
      if res.deletedAt.Some? then Some(ResourceNotFound)
      else if !(res.published && cmd.operational) then Some(ResourceNotPublished)
      else if cmd.start <= cmd.now then Some(BookingSlotInPast)
      else if !Grid.WholeSlots(res.slot, res.off, slot) then Some(Misplaced(Grid.SlotNotAligned))
      else if !Grid.OpenThroughout(res.hours, slot.start + res.off, slot.end + res.off) then
        Some(Misplaced(Grid.OutsideOperatingHours))
      else if !Free(st, cmd.actor, cmd.resource, slot) then Some(BookingAlreadyExists)
      else if MinuteTotal(res, slot) > res.slot * MAX_CENTS then Some(PriceTooLarge)
      else if exists b :: b in st.rows && b.id == cmd.newId then Some(DuplicateId)
      else None
  }

  // A request is refused with exactly the first reason against it.
  lemma RequestFailsWith(st: Store, cmd: Command, why: Failure)
    requires cmd.Request?
    ensures OutcomeOf(st, cmd) == Refused(why) <==> ReasonAgainst(st, cmd) == Some(why)
  {
    assert OutcomeOf(st, cmd) == RequestOutcome(st, cmd);
    ReasonIsFound(st, cmd);
  }

  lemma ReasonIsFound(st: Store, cmd: Command)
    requires cmd.Request?
    ensures RequestOutcome(st, cmd).Inserts? || RequestOutcome(st, cmd).Refused?
    ensures RequestOutcome(st, cmd).Inserts? <==> ReasonAgainst(st, cmd) == None
    ensures RequestOutcome(st, cmd).Refused? ==> ReasonAgainst(st, cmd) == Some(RequestOutcome(st, cmd).failure)
  {
    if cmd.start < cmd.end && cmd.resource in st.resources {
      var res, slot: DateTimeRange := st.resources[cmd.resource], DateTimeRange(cmd.start, cmd.end);
      Grid.AcceptsMeansEveryMinuteOpen(res.slot, res.hours, res.off, slot);
      FreeMeansNothingListed(st, cmd.actor, cmd.resource, slot);
      FindIsNone(st.rows, cmd.newId);
      if Grid.WholeSlots(res.slot, res.off, slot) {
        PayableByTheMinute(res, slot);
      }
    }
  }

  ghost predicate Exists(st: Store, id: int) {
    exists b :: b in st.rows && b.id == id
  }

  // No booking, or somebody else's; a deleted resource; an owner without a subscription; a booking that is
  // not PENDING; an APPROVED booking in the way, in this order.
  lemma ApproveFailsWith(st: Store, cmd: Command, i: nat)
    requires cmd.Approve? && Inv(st)
    ensures !Exists(st, cmd.booking) ==> OutcomeOf(st, cmd) == Refused(BookingNotFound)
    ensures i < |st.rows| && st.rows[i].id == cmd.booking ==>
      var b, o := st.rows[i], OutcomeOf(st, cmd);
      && (o == Refused(BookingNotFound) <==> !Owns(st, cmd.actor, b.resource))
      && (o == Refused(OwnerSubscriptionInactive) <==> Owns(st, cmd.actor, b.resource) && !cmd.operational)
      && (o == Refused(BookingInvalidStateTransition) <==>
            Owns(st, cmd.actor, b.resource) && cmd.operational && !b.status.Pending?)
      && (o == Refused(ApprovedOverlapConstraint) <==>
            Owns(st, cmd.actor, b.resource) && cmd.operational && b.status.Pending? && st.constrained
            && exists j :: 0 <= j < |st.rows| && InTheWay(b, st.rows[j]))
      && (o.Refused? ==> o.failure in {BookingNotFound, OwnerSubscriptionInactive, BookingInvalidStateTransition,
                                       ApprovedOverlapConstraint})
  {
    FindIsNone(st.rows, cmd.booking);
    if i < |st.rows| && st.rows[i].id == cmd.booking {
      FindUnique(st.rows, i);
      BlockedByMinutes(st.rows, st.rows[i]);
    }
  }

  ghost predicate InTheWay(t: BookingData, b: BookingData) {
    b.id != t.id && b.resource == t.resource && b.status.Approved? && ShareAMinute(b.slot, t.slot)
  }

  lemma BlockedByMinutes(rows: seq<BookingData>, t: BookingData)
    ensures Blocked(rows, t) <==> exists j :: 0 <= j < |rows| && InTheWay(t, rows[j])
  {
    forall b: BookingData ensures BlocksApproval(t, b) <==> InTheWay(t, b) {
      OverlapIsASharedMinute(b.slot, t.slot);
    }
    if Blocked(rows, t) {
      var b :| b in rows && BlocksApproval(t, b);
      var j :| 0 <= j < |rows| && rows[j] == b;
      assert InTheWay(t, rows[j]);
    }
  }

  // No booking, or an owner who is somebody else; then a booking that is not PENDING or a reason too long.
  lemma RejectFailsWith(st: Store, cmd: Command, i: nat)
    requires cmd.Reject? && Inv(st)
    ensures !Exists(st, cmd.booking) ==> OutcomeOf(st, cmd) == Refused(BookingNotFound)
    ensures i < |st.rows| && st.rows[i].id == cmd.booking ==>
      var b, o := st.rows[i], OutcomeOf(st, cmd);
      && (o == Refused(BookingNotFound) <==> OwnerOf(st, b) != cmd.actor)
      && (o == Refused(BookingInvalidStateTransition) <==>
            OwnerOf(st, b) == cmd.actor && !(b.status.Pending? && ReasonFits(cmd.reason)))
  {
    FindIsNone(st.rows, cmd.booking);
    if i < |st.rows| && st.rows[i].id == cmd.booking {
      FindUnique(st.rows, i);
    }
  }

  // No booking, or a third party; a customer who is not the owner once the cutoff is reached; then a
  // settled booking or a reason too long.
  lemma CancelFailsWith(st: Store, cmd: Command, i: nat)
    requires cmd.Cancel? && Inv(st)
    ensures !Exists(st, cmd.booking) ==> OutcomeOf(st, cmd) == Refused(BookingNotFound)
    ensures i < |st.rows| && st.rows[i].id == cmd.booking ==>
      var b, o := st.rows[i], OutcomeOf(st, cmd);
      var late := OwnerOf(st, b) != cmd.actor
        && cmd.now + 60 * st.resources[b.resource].cutoffHours >= b.slot.start;
      && (o == Refused(BookingNotFound) <==> cmd.actor !in {OwnerOf(st, b), b.customer})
      && (o == Refused(BookingCancellationPastCutoff) <==> cmd.actor == b.customer && late)
      && (o == Refused(BookingInvalidStateTransition) <==>
            cmd.actor in {OwnerOf(st, b), b.customer} && !late && !(IsActive(b.status) && ReasonFits(cmd.reason)))
  {
    FindIsNone(st.rows, cmd.booking);
    if i < |st.rows| && st.rows[i].id == cmd.booking {
      FindUnique(st.rows, i);
    }
  }

  // Somebody else's resource, a deleted or a missing one; then an APPROVED booking that has yet to start.
  lemma DeleteFailsWith(st: Store, cmd: Command)
    requires cmd.SoftDelete?
    ensures OutcomeOf(st, cmd) == Refused(ResourceNotFound) <==> !Owns(st, cmd.actor, cmd.resource)
    ensures OutcomeOf(st, cmd) == Refused(ResourceHasFutureApprovedBookings) <==>
      Owns(st, cmd.actor, cmd.resource) && exists b ::
        b in st.rows && b.resource == cmd.resource && b.status.Approved? && b.slot.start >= cmd.now
  {
    DeleteExactly(st, cmd);
  }

  // ---------- one notice for each booking that changes ----------

  // The rows that are not what they were, the new ones included.
  ghost function Changed(before: seq<BookingData>, after: seq<BookingData>): nat
    requires |before| <= |after|
  {
    if before == [] then |after|
    else (if after[0] == before[0] then 0 else 1) + Changed(before[1..], after[1..])
  }

  lemma {:induction false} ChangedNone(rows: seq<BookingData>)
    ensures Changed(rows, rows) == 0
  {
    if rows != [] {
      ChangedNone(rows[1..]);
    }
  }

  lemma {:induction false} ChangedByAppending(rows: seq<BookingData>, row: BookingData)
    ensures Changed(rows, rows + [row]) == 1
  {
    if rows != [] {
      assert (rows + [row])[1..] == rows[1..] + [row];
      ChangedByAppending(rows[1..], row);
    }
  }

  lemma {:induction false} ChangedByOne(rows: seq<BookingData>, i: nat, b: BookingData)
    requires i < |rows| && rows[i] != b
    ensures Changed(rows, rows[i := b]) == 1
  {
    if i == 0 {
      assert rows[0 := b][1..] == rows[1..];
      ChangedNone(rows[1..]);
    } else {
      assert rows[i := b][1..] == rows[1..][i - 1 := b];
      ChangedByOne(rows[1..], i - 1, b);
    }
  }

  // A row moves exactly when the change sweeps it up or is an approval of it.
  lemma MovesExactly(ch: Change, b: BookingData)
    requires Sweep(ch).Some?
    ensures RowAfter(ch, b) != b <==> Matches(Sweep(ch).value, b) || Approves(ch, b)
    ensures !(Matches(Sweep(ch).value, b) && Approves(ch, b))
  {
    RowFollows(ch, b);
  }

  ghost function ApprovedBy(ch: Change, rows: seq<BookingData>): nat {
    if rows == [] then 0 else (if Approves(ch, rows[0]) then 1 else 0) + ApprovedBy(ch, rows[1..])
  }

  lemma {:induction false} ChangedBySweep(ch: Change, rows: seq<BookingData>)
    requires Sweep(ch).Some?
    ensures Changed(rows, Apply(ch, rows)) == |List(rows, Sweep(ch).value)| + ApprovedBy(ch, rows)
  {
    if rows != [] {
      MovesExactly(ch, rows[0]);
      ChangedBySweep(ch, rows[1..]);
      assert Apply(ch, rows)[1..] == Apply(ch, rows[1..]);
    }
  }

  lemma {:induction false} ApprovedOnce(ch: Change, rows: seq<BookingData>, i: nat)
    requires UniqueIds(rows) && i < |rows| && Approves(ch, rows[i])
    ensures ApprovedBy(ch, rows) == 1
  {
    if i == 0 {
      ApprovedNone(ch, rows[1..]);
    } else {
      assert rows[0].id != rows[i].id;
      ApprovedOnce(ch, rows[1..], i - 1);
    }
  }

  lemma {:induction false} ApprovedNone(ch: Change, rows: seq<BookingData>)
    requires forall i :: 0 <= i < |rows| ==> !Approves(ch, rows[i])
    ensures ApprovedBy(ch, rows) == 0
  {
    if rows != [] {
      ApprovedNone(ch, rows[1..]);
    }
  }

  // As many new notices as changed rows.
  ghost predicate NoticesMatch(st: Store, after: Store) {
    |st.rows| <= |after.rows| && |after.log| - |st.log| == Changed(st.rows, after.rows)
  }

  // Every command sends as many notices as it changes or adds bookings; a refused one sends none.
  lemma OneNoticePerChangedBooking(st: Store, cmd: Command)
    requires Inv(st)
    ensures NoticesMatch(st, Next(st, cmd))
  {
    match cmd
    case Request(_, _, _, _, _, _, _, _) => RequestNotices(st, RequestOutcome(st, cmd));
    case Approve(_, _, _, _) => ApprovalNoticesMatch(st, cmd);
    case Reject(_, _, _, _) => MoveNotices(st, cmd);
    case Cancel(_, _, _, _) => MoveNotices(st, cmd);
    case Expire(_) => SweepOutcomeNotices(st, ExpireOutcome(st, cmd));
    case SoftDelete(_, _, _) => DeletionNoticesMatch(st, cmd);
    case AddResource(_, _) => ChangedNone(st.rows);
    case EditResource(_, _, _) => ChangedNone(st.rows);
  }

  lemma ApprovalNoticesMatch(st: Store, cmd: Command)
    requires cmd.Approve? && UniqueIds(st.rows)
    ensures NoticesMatch(st, Commit(st, ApproveOutcome(st, cmd)))
  {
    SweepOutcomeNotices(st, ApproveOutcome(st, cmd));
  }

  lemma DeletionNoticesMatch(st: Store, cmd: Command)
    requires cmd.SoftDelete? && UniqueIds(st.rows)
    ensures NoticesMatch(st, Commit(st, SoftDeleteOutcome(st, cmd)))
  {
    SweepOutcomeNotices(st, SoftDeleteOutcome(st, cmd));
  }

  lemma RequestNotices(st: Store, o: Outcome)
    requires o.Refused? || (o.Inserts? && |o.notices| == 1)
    ensures NoticesMatch(st, Commit(st, o))
  {
    ChangedNone(st.rows);
    if o.Inserts? {
      ChangedByAppending(st.rows, o.row);
    }
  }

  lemma MoveNotices(st: Store, cmd: Command)
    requires (cmd.Reject? || cmd.Cancel?) && Inv(st)
    ensures NoticesMatch(st, Next(st, cmd))
  {
    ChangedNone(st.rows);
    if OutcomeOf(st, cmd).Changes? {
      OneRowChanges(st, cmd, Find(st.rows, cmd.booking).value);
    }
  }

  lemma SweepOutcomeNotices(st: Store, o: Outcome)
    requires UniqueIds(st.rows) && (o.Refused? || o.Changes? || o.Deletes?)
    requires !o.Refused? ==>
      && Sweep(o.change).Some?
      && (o.change.ApproveOne? ==> o.change.target in st.rows && o.change.target.status.Pending?)
      && |o.notices| == |List(st.rows, Sweep(o.change).value)| + if o.change.ApproveOne? then 1 else 0
    ensures NoticesMatch(st, Commit(st, o))
  {
    ChangedNone(st.rows);
    if !o.Refused? {
      SweepNotices(o.change, st.rows);
    }
  }

  lemma OneRowChanges(st: Store, cmd: Command, i: nat)
    requires (cmd.Reject? || cmd.Cancel?) && Inv(st) && OutcomeOf(st, cmd).Changes?
    requires i < |st.rows| && st.rows[i].id == cmd.booking
    ensures Changed(st.rows, Next(st, cmd).rows) == 1 && |Next(st, cmd).log| == |st.log| + 1
  {
    if cmd.Reject? {
      RejectExactly(st, cmd, i);
    } else {
      CancelExactly(st, cmd, i);
    }
    ChangedByOne(st.rows, i, Next(st, cmd).rows[i]);
  }

  lemma SweepNotices(ch: Change, rows: seq<BookingData>)
    requires UniqueIds(rows) && Sweep(ch).Some?
    requires ch.ApproveOne? ==> ch.target in rows && ch.target.status.Pending?
    ensures Changed(rows, Apply(ch, rows))
         == |List(rows, Sweep(ch).value)| + if ch.ApproveOne? then 1 else 0
  {
    ChangedBySweep(ch, rows);
    if ch.ApproveOne? {
      var i :| 0 <= i < |rows| && rows[i] == ch.target;
      ApprovedOnce(ch, rows, i);
    } else {
      ApprovedNone(ch, rows);
    }
  }
}
