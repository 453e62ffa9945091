/** The handlers as they run: they load entities, change them, write them back one by one and log
    notices. Each is proved equal to its one-step description in the protocol. */
module Handlers {
  import opened Calendar
  import opened Pricing
  import opened Resources
  import opened Bookings
  import opened Protocol
  import AgendaFilter
  import Effects
  import Grid

  ghost function ResultOf(o: Outcome): Result<int, Failure> {
    match o
    case Refused(failure) => Err(failure)
    case Changes(_, _, result) => Ok(result)
    case Inserts(row, _) => Ok(row.id)
    case Deletes(resource, _, _, _) => Ok(resource)
    case Saves(resource, _) => Ok(resource)
  }

  // A handler that starts in st and whose step has outcome o ends in after with result r.
  ghost predicate Performs(st: Store, o: Outcome, after: Store, r: Result<int, Failure>) {
    after == Commit(st, o) && r == ResultOf(o)
  }

  // ---------- a sweep in progress ----------

  // The rows whose ids are in written hold their final value, the others their first one.
  ghost predicate PartlyWritten(
      before: seq<BookingData>, after: seq<BookingData>, rows: seq<BookingData>, written: set<int>)
  {
    && |rows| == |before| == |after|
    && (forall i :: 0 <= i < |before| ==> after[i].id == before[i].id)
    && forall i :: 0 <= i < |rows| ==> rows[i] == if before[i].id in written then after[i] else before[i]
  }

  // Writing one more row back.
  lemma WriteOne(
      before: seq<BookingData>, after: seq<BookingData>, rows: seq<BookingData>, written: set<int>, b: BookingData)
    requires UniqueIds(before) && PartlyWritten(before, after, rows, written) && b in before
    ensures Find(rows, b.id).Some? && before[Find(rows, b.id).value] == b
    ensures var j := Find(rows, b.id).value;
            PartlyWritten(before, after, rows[j := after[j]], written + {b.id})
  {
    var i :| 0 <= i < |before| && before[i] == b;
    assert forall k :: 0 <= k < |rows| ==> rows[k].id == before[k].id;
    FindUnique(rows, i);
  }

  lemma SweepStarts(ch: Change, before: seq<BookingData>)
    requires UniqueIds(before)
    ensures PartlyWritten(before, Apply(ch, before), before, {})
    ensures UniqueIds(Apply(ch, before))
  {
    ApplyKeepsRowFacts(ch, before);
  }

  // When the target and every listed row are written, the whole change is.
  lemma SweepEnds(ch: Change, before: seq<BookingData>, rows: seq<BookingData>, written: set<int>)
    requires Sweep(ch).Some? && PartlyWritten(before, Apply(ch, before), rows, written)
    requires forall b :: b in List(before, Sweep(ch).value) ==> b.id in written
    requires ch.ApproveOne? ==> ch.target.id in written
    ensures rows == Apply(ch, before)
  {
    ListIsExact(before, Sweep(ch).value);
    forall i | 0 <= i < |rows| && before[i].id !in written ensures RowAfter(ch, before[i]) == before[i] {
      assert before[i] in before;
    }
  }

  ghost function Ids(bs: seq<BookingData>): set<int> {
    set b | b in bs :: b.id
  }

  lemma OneMoreId(bs: seq<BookingData>, k: nat)
    requires k < |bs|
    ensures bs[k] in bs
    ensures Ids(bs[..k + 1]) == Ids(bs[..k]) + {bs[k].id}
  {
    assert bs[..k + 1] == bs[..k] + [bs[k]];
  }

  // The final value of every row that the change sweeps up.
  lemma SweptIs(ch: Change, before: seq<BookingData>)
    requires Sweep(ch).Some?
    ensures forall j :: 0 <= j < |before| && before[j] in List(before, Sweep(ch).value) ==>
              Apply(ch, before)[j] == Swept(ch, before[j])
  {
    ListIsExact(before, Sweep(ch).value);
  }

  // What blocks an approval depends on the target's identity and slot only.
  lemma SameBlockers(rows: seq<BookingData>, t: BookingData, u: BookingData)
    requires t.id == u.id && t.resource == u.resource && t.slot == u.slot
    ensures Blocked(rows, t) <==> Blocked(rows, u)
  {
    forall b ensures BlocksApproval(t, b) <==> BlocksApproval(u, b) {
    }
  }

  lemma NoticeAdded(bs: seq<BookingData>, k: nat, kind: Kind)
    requires k < |bs|
    ensures bs[..k + 1] == bs[..k] + [bs[k]]
    ensures NoticesTo(bs[..k + 1], kind) == NoticesTo(bs[..k], kind) + [Notice(bs[k].customer, kind)]
  {
  }

  datatype AgendaFailure = AgendaRangeTooWide | AgendaResourceNotFound

  class BookingService {
    const constrained: bool
    var resources: map<int, GoodResource>
    var rows: seq<BookingData>
    var log: seq<Notice>

    function State(): Store
      reads this
    {
      Store(constrained, resources, rows, log)
    }

    // Ids are the primary key of the table.
    ghost predicate Valid()
      reads this
    {
      UniqueIds(rows)
    }

    constructor (constrained: bool)
      ensures Valid() && State() == Empty(constrained)
    {
      this.constrained := constrained;
      resources, rows, log := map[], [], [];
    }

    // ---------- the repository ----------

    /** Writes one row back. The exclusion constraint refuses a row that would become APPROVED over
        another APPROVED row of its resource. */
    method Update(b: BookingData) returns (r: Result<(), Failure>)
      modifies this`rows
      ensures match Find(old(rows), b.id)
              case None => r == Err(BookingNotFound) && rows == old(rows)
              case Some(i) =>
                if constrained && b.status.Approved? && Blocked(old(rows), b)
                then r == Err(ApprovedOverlapConstraint) && rows == old(rows)
                else r.Ok? && rows == old(rows)[i := b]
    {
      var i := Find(rows, b.id);
      if i == None {
        return Err(BookingNotFound);
      }
      if constrained && b.status.Approved? && Blocked(rows, b) {
        return Err(ApprovedOverlapConstraint);
      }
      rows := rows[i.value := b];
      return Ok(());
    }

    /** Inserts a row; the primary key refuses an id already in use. */
    method Add(b: BookingData) returns (r: Result<(), Failure>)
      requires Valid()
      modifies this`rows
      ensures Valid()
      ensures r.Ok? <==> Find(old(rows), b.id).None?
      ensures if r.Ok? then rows == old(rows) + [b] else r.error == DuplicateId && rows == old(rows)
    {
      if Find(rows, b.id).Some? {
        return Err(DuplicateId);
      }
      rows := rows + [b];
      return Ok(());
    }

    method Notify(recipient: int, kind: Kind)
      modifies this`log
      ensures log == old(log) + [Notice(recipient, kind)]
    {
      log := log + [Notice(recipient, kind)];
    }

    method NotifyAll(bs: seq<BookingData>, kind: Kind)
      modifies this`log
      ensures log == old(log) + NoticesTo(bs, kind)
    {
      for k := 0 to |bs|
        invariant log == old(log) + NoticesTo(bs[..k], kind)
      {
        NoticeAdded(bs, k, kind);
        Notify(bs[k].customer, kind);
      }
      assert bs[..|bs|] == bs;
    }

    // ---------- the command handlers ----------

    method Request(
        actor: int, resource: int, start: int, end: int, note: Option<string>, now: int, newId: int, operational: bool)
      returns (r: Result<int, Failure>)
      requires Valid()
      modifies this
      ensures Valid()
      ensures var cmd := Command.Request(actor, resource, start, end, note, now, newId, operational);
              Performs(old(State()), RequestOutcome(old(State()), cmd), State(), r)
    {
      if start >= end || !NoteFits(note) {
        return Err(InvalidInput(start >= end, !NoteFits(note)));
      }
      var slot: DateTimeRange := DateTimeRange(start, end);
      if resource !in resources || resources[resource].deletedAt.Some? {
        return Err(ResourceNotFound);
      }
      var res: ResourceData := resources[resource];
      if !res.published {
        return Err(ResourceNotPublished);
      }
      if !operational {
        return Err(ResourceNotPublished);
      }
      if slot.start <= now {
        return Err(BookingSlotInPast);
      }
      var aligned := Grid.ValidateAlignmentAndHours(res.slot, res.hours, res.off, slot);
      if aligned.Err? {
        return Err(Misplaced(aligned.error));
      }
      var actives := List(rows, ActiveOf(actor, resource, slot));
      if actives != [] {
        return Err(BookingAlreadyExists);
      }
      var price := ComputePrice(res.rules, res.base, res.off, res.slot, slot);
      if price == None {
        return Err(PriceTooLarge);
      }
      var booking := new Booking.CreatePending(newId, resource, actor, slot, price.value, KeptNote(note), now);
      var added := Add(booking.Data());
      if added.Err? {
        return Err(added.error);
      }
      Notify(res.owner, BookingRequested);
      return Ok(newId);
    }

    method Approve(actor: int, booking: int, now: int, operational: bool) returns (r: Result<int, Failure>)
      requires Valid()
      modifies this
      ensures Valid()
      ensures var cmd := Command.Approve(actor, booking, now, operational);
              Performs(old(State()), ApproveOutcome(old(State()), cmd), State(), r)
    {
      var found := Find(rows, booking);
      if found == None {
        return Err(BookingNotFound);
      }
      var target := rows[found.value];
      if target.resource !in resources || resources[target.resource].deletedAt.Some? {
        return Err(BookingNotFound);
      }
      if resources[target.resource].owner != actor {
        return Err(BookingNotFound);
      }
      if !operational {
        return Err(OwnerSubscriptionInactive);
      }
      var done := ApproveUnderLock(booking, actor, now);
      if done.Err? {
        return Err(done.error);
      }
      AnnounceApproval(target.customer, done.value);
      return Ok(booking);
    }

    method AnnounceApproval(winner: int, losers: seq<BookingData>)
      modifies this`log
      ensures log == old(log) + ([Notice(winner, BookingApproved)] + NoticesTo(losers, BookingRejected))
    {
      Notify(winner, BookingApproved);
      NotifyAll(losers, BookingRejected);
    }

    /** The critical section: read again, approve the target, reject each competitor. Returns those
        competitors. A failure leaves the rows as they were. */
    method ApproveUnderLock(booking: int, actor: int, now: int)
      returns (r: Result<seq<BookingData>, Failure>)
      requires Valid() && Find(rows, booking).Some?
      modifies this`rows
      ensures Valid()
      ensures var t := old(rows)[Find(old(rows), booking).value];
              && (!t.status.Pending? ==> r == Err(BookingInvalidStateTransition))
              && (t.status.Pending? && constrained && Blocked(old(rows), t) ==> r == Err(ApprovedOverlapConstraint))
              && (t.status.Pending? && !(constrained && Blocked(old(rows), t)) ==>
                  r == Ok(List(old(rows), PendingOverlapping(t.resource, t.slot, t.id))))
              && rows == if r.Ok? then Apply(ApproveOne(t, actor, now), old(rows)) else old(rows)
    {
      var at := Find(rows, booking).value;
      ghost var before, ch := rows, ApproveOne(rows[at], actor, now);
      SweepStarts(ch, before);
      WriteOne(before, Apply(ch, before), rows, {}, rows[at]);
      var target := new Booking.FromRow(rows[at]);
      if !target.status.Pending? {
        return Err(BookingInvalidStateTransition);
      }
      var competitors := List(rows, PendingOverlapping(target.resource, target.slot, target.id));
      ListIsExact(before, PendingOverlapping(target.resource, target.slot, target.id));
      var approved := target.Approve(actor, now);
      if approved.Err? {
        return Err(BookingInvalidStateTransition);
      }
      SameBlockers(before, before[at], target.Data());
      var updated := Update(target.Data());
      if updated.Err? {
        return Err(updated.error);
      }
      SweptIs(ch, before);
      RejectEach(competitors, actor, now, before, Apply(ch, before), {booking});
      SweepEnds(ch, before, rows, {booking} + Ids(competitors));
      return Ok(competitors);
    }

    // The loop over the competitors of an approved booking.
    method RejectEach(competitors: seq<BookingData>, actor: int, now: int,
                      ghost before: seq<BookingData>, ghost after: seq<BookingData>, ghost done: set<int>)
      requires UniqueIds(before) && PartlyWritten(before, after, rows, done)
      requires forall c :: c in competitors ==> c in before && c.status.Pending?
      requires forall j :: 0 <= j < |before| && before[j] in competitors ==>
                 after[j] == Moved(before[j], Rejected, actor, Owner, now, Some(AUTO_REASON))
      modifies this`rows
      ensures PartlyWritten(before, after, rows, done + Ids(competitors))
    {
      ghost var written := done;
      for k := 0 to |competitors|
        invariant PartlyWritten(before, after, rows, written) && written == done + Ids(competitors[..k])
      {
        WriteOne(before, after, rows, written, competitors[k]);
        written := written + {competitors[k].id};
        OneMoreId(competitors, k);
        MovedFollows(competitors[k], Rejected, actor, Owner, now, Some(AUTO_REASON));
        var comp := new Booking.FromRow(competitors[k]);
        var _ := comp.Reject(actor, now, Some(AUTO_REASON));
        var updated := Update(comp.Data());
        if updated.Err? {
          assert false;
        }
      }
      assert competitors[..|competitors|] == competitors;
    }

    // Writes a transitioned row back. Nothing can refuse it: the row is there, and it is not APPROVED.
    method SaveMoved(b: BookingData, ghost ch: Change, ghost at: nat)
      requires Valid() && at < |rows| && b == RowAfter(ch, rows[at]) && !b.status.Approved?
      requires (ch.RejectOne? && ch.id == rows[at].id) || (ch.CancelOne? && ch.id == rows[at].id)
      modifies this`rows
      ensures Valid() && rows == Apply(ch, old(rows))
    {
      OneRowMoves(ch, rows, at);
      RowFollows(ch, rows[at]);
      var updated := Update(b);
      if updated.Err? {
        assert false;
      }
    }

    method Reject(actor: int, booking: int, now: int, reason: Option<string>) returns (r: Result<int, Failure>)
      requires Valid()
      modifies this
      ensures Valid()
      ensures var cmd := Command.Reject(actor, booking, now, reason);
              Performs(old(State()), RejectOutcome(old(State()), cmd), State(), r)
    {
      var found := Find(rows, booking);
      if found == None {
        return Err(BookingNotFound);
      }
      var b := new Booking.FromRow(rows[found.value]);
      if b.resource !in resources || resources[b.resource].owner != actor {
        return Err(BookingNotFound);
      }
      var moved := b.Reject(actor, now, reason);
      if moved.Err? {
        return Err(BookingInvalidStateTransition);
      }
      SaveMoved(b.Data(), RejectOne(booking, actor, now, reason), found.value);
      Notify(b.customer, BookingRejected);
      return Ok(booking);
    }

    method Cancel(actor: int, booking: int, now: int, reason: Option<string>) returns (r: Result<int, Failure>)
      requires Valid()
      modifies this
      ensures Valid()
      ensures var cmd := Command.Cancel(actor, booking, now, reason);
              Performs(old(State()), CancelOutcome(old(State()), cmd), State(), r)
    {
      var found := Find(rows, booking);
      if found == None {
        return Err(BookingNotFound);
      }
      var b := new Booking.FromRow(rows[found.value]);
      if b.resource !in resources {
        return Err(BookingNotFound);
      }
      var res: ResourceData := resources[b.resource];
      var isCustomer, isOwner := b.customer == actor, res.owner == actor;
      if !(isCustomer || isOwner) {
        return Err(BookingNotFound);
      }
      if isCustomer && !isOwner {
        if now >= b.slot.start - 60 * res.cutoffHours {
          return Err(BookingCancellationPastCutoff);
        }
      }
      var role := if isOwner then Role.Owner else Role.Customer;
      var moved := b.Cancel(actor, role, now, reason);
      if moved.Err? {
        return Err(BookingInvalidStateTransition);
      }
      SaveMoved(b.Data(), CancelOne(booking, actor, role, now, reason), found.value);
      Notify(if isCustomer then res.owner else b.customer, BookingCancelled);
      return Ok(booking);
    }

    // The loop of the expiry job. Returns how many bookings it expired.
    method ExpireEach(late: seq<BookingData>, now: int, ghost before: seq<BookingData>, ghost after: seq<BookingData>)
      returns (count: nat)
      requires UniqueIds(before) && PartlyWritten(before, after, rows, {})
      requires forall c :: c in late ==> c in before && c.status.Pending?
      requires forall j :: 0 <= j < |before| && before[j] in late ==>
                 after[j] == Moved(before[j], Expired, before[j].customer, Customer, now, Some(EXPIRY_REASON))
      modifies this`rows, this`log
      ensures PartlyWritten(before, after, rows, Ids(late))
      ensures log == old(log) + NoticesTo(late, BookingRejected)
      ensures count == |late|
    {
      ghost var written: set<int> := {};
      count := 0;
      for k := 0 to |late|
        invariant PartlyWritten(before, after, rows, written) && written == Ids(late[..k])
        invariant count == k && log == old(log) + NoticesTo(late[..k], BookingRejected)
      {
        WriteOne(before, after, rows, written, late[k]);
        written := written + {late[k].id};
        OneMoreId(late, k);
        NoticeAdded(late, k, BookingRejected);
        MovedFollows(late[k], Expired, late[k].customer, Customer, now, Some(EXPIRY_REASON));
        var booking := new Booking.FromRow(late[k]);
        var moved := booking.Expire(now);
        if moved.Err? {
          continue;
        }
        var updated := Update(booking.Data());
        if updated.Err? {
          continue;
        }
        Notify(booking.customer, BookingRejected);
        count := count + 1;
      }
      assert late[..|late|] == late;
    }

    /** Expires every PENDING booking whose start has passed; the result counts them. */
    method Expire(now: int) returns (r: Result<int, Failure>)
      requires Valid()
      modifies this
      ensures Valid()
      ensures Performs(old(State()), ExpireOutcome(old(State()), Command.Expire(now)), State(), r)
    {
      var late := List(rows, PendingStartingBefore(now));
      ghost var before, ch := rows, ExpireAll(now);
      SweepStarts(ch, before);
      ListIsExact(before, PendingStartingBefore(now));
      SweptIs(ch, before);
      var count := ExpireEach(late, now, before, Apply(ch, before));
      SweepEnds(ch, before, rows, Ids(late));
      return Ok(count);
    }

    /** The scheduled job: runs the handler in a session that is closed without a commit, so all that
        is left of the run is the count. */
    method ExpireJob(now: int) returns (count: int)
      requires Valid()
      modifies this
      ensures Valid() && State() == old(State())
      ensures count == Effects.JobCount(old(State()), now)
    {
      var committedRows, committedLog := rows, log;
      var r := Expire(now);
      count := if r.Ok? then r.value else 0;
      rows, log := committedRows, committedLog;
    }

    // The cascade of a deletion. Returns the bookings it cancelled.
    method CancelEach(pending: seq<BookingData>, actor: int, now: int,
                      ghost before: seq<BookingData>, ghost after: seq<BookingData>)
      returns (targets: seq<BookingData>)
      requires UniqueIds(before) && PartlyWritten(before, after, rows, {})
      requires forall c :: c in pending ==> c in before && c.status.Pending?
      requires forall j :: 0 <= j < |before| && before[j] in pending ==>
                 after[j] == Moved(before[j], Cancelled, actor, Owner, now, Some(DELETED_REASON))
      modifies this`rows
      ensures PartlyWritten(before, after, rows, Ids(pending))
      ensures targets == pending
    {
      ghost var written: set<int> := {};
      targets := [];
      for k := 0 to |pending|
        invariant PartlyWritten(before, after, rows, written) && written == Ids(pending[..k])
        invariant targets == pending[..k]
      {
        WriteOne(before, after, rows, written, pending[k]);
        written := written + {pending[k].id};
        OneMoreId(pending, k);
        MovedFollows(pending[k], Cancelled, actor, Owner, now, Some(DELETED_REASON));
        var booking := new Booking.FromRow(pending[k]);
        var moved := booking.Cancel(actor, Owner, now, Some(DELETED_REASON));
        if moved.Err? {
          continue;
        }
        var updated := Update(booking.Data());
        if updated.Err? {
          assert false;
        }
        targets := targets + [pending[k]];
      }
      assert pending[..|pending|] == pending;
    }

    /** Blocked by an APPROVED booking that has not started; cancels every PENDING one. */
    method SoftDelete(actor: int, resource: int, now: int) returns (r: Result<int, Failure>)
      requires Valid()
      modifies this
      ensures Valid()
      ensures var cmd := Command.SoftDelete(actor, resource, now);
              Performs(old(State()), SoftDeleteOutcome(old(State()), cmd), State(), r)
    {
      if !Owns(State(), actor, resource) {
        return Err(ResourceNotFound);
      }
      var approvedFuture := List(rows, ApprovedStartingFrom(resource, now));
      if approvedFuture != [] {
        return Err(ResourceHasFutureApprovedBookings);
      }
      var pending := List(rows, PendingOf(resource));
      ghost var before, ch := rows, CancelAll(resource, actor, now);
      SweepStarts(ch, before);
      ListIsExact(before, PendingOf(resource));
      SweptIs(ch, before);
      var targets := CancelEach(pending, actor, now, before, Apply(ch, before));
      SweepEnds(ch, before, rows, Ids(pending));
      var res := new Resource.FromData(resources[resource], now);
      var deleted := res.SoftDelete(now);
      resources := resources[resource := res.Data()];
      NotifyAll(targets, BookingCancelled);
      return Ok(resource);
    }

    // ---------- the agenda query ----------

    /** A read: the agenda of a live resource over at most 31 days, from the bookings that meet the range. */
    method GetAgenda(resource: int, rangeStart: int, rangeEnd: int, actor: Option<int>)
      returns (r: Result<seq<Grid.AgendaSlot>, AgendaFailure>, steps: nat)
      ensures r == Err(AgendaRangeTooWide) <==> rangeEnd - rangeStart > 31 * 1440
      ensures r == Err(AgendaResourceNotFound) <==>
                && rangeEnd - rangeStart <= 31 * 1440
                && (resource !in resources || resources[resource].deletedAt.Some?)
      ensures r.Ok? ==>
                && resource in resources
                && var owner := actor == Some(resources[resource].owner);
                   Grid.IsAgenda(AgendaFilter.Near(resources[resource], rows, resource, owner, rangeStart, rangeEnd),
                                 rangeStart, rangeEnd, r.value)
      ensures steps <= 1488
    {
      steps := 0;
      if rangeEnd - rangeStart > 31 * 1440 {
        return Err(AgendaRangeTooWide), steps;
      }
      if resource !in resources || resources[resource].deletedAt.Some? {
        return Err(AgendaResourceNotFound), steps;
      }
      var res: ResourceData := resources[resource];
      var isOwnerView := actor.Some? && res.owner == actor.value;
      var bookings := List(ByStart(rows), MeetingRange(resource, rangeStart, rangeEnd));
      var slots;
      slots, steps := Grid.GenerateSlots(Grid.AgendaView(res, bookings, isOwnerView), rangeStart, rangeEnd);
      Grid.WalkIsBounded(res.slot, rangeStart, rangeEnd);
      return Ok(slots), steps;
    }
  }
}
