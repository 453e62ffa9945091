/** The booking protocol: every command as a step over a store, and what all runs keep. */
module Protocol {
  import opened Calendar
  import opened Pricing
  import opened Resources
  import opened Bookings
  import Grid
  import Schedules

  datatype Kind = BookingRequested | BookingApproved | BookingRejected | BookingCancelled

  datatype Notice = Notice(recipient: int, kind: Kind)

  const CLOSED := Schedules.WeeklySchedule([], [], [], [], [], [], [])

  /** A resource row is only ever written by the aggregate, which keeps its invariant. */
  type GoodResource = d: ResourceData | ResourceOk(d)
    witness ResourceData(0, 0, 30, CLOSED, 0, 0, [], map[], [], false, None)

  /** Committed state. constrained says whether the exclusion constraint on overlapping APPROVED rows
      exists, which is the case on Postgres only. */
  datatype Store = Store(
    constrained: bool, resources: map<int, GoodResource>, rows: seq<BookingData>, log: seq<Notice>)

  datatype Failure =
    | BookingNotFound | ResourceNotFound | ResourceNotPublished | OwnerSubscriptionInactive
    | InvalidInput(range: bool, note: bool) | BookingSlotInPast | Misplaced(why: Grid.AlignError) | BookingAlreadyExists
    | PriceTooLarge | DuplicateId | BookingInvalidStateTransition | ApprovedOverlapConstraint
    | BookingCancellationPastCutoff | ResourceHasFutureApprovedBookings

  /** Inputs of the handlers. now is the clock reading, operational the state of the owner's
      subscription, newId the generated id. */
  datatype Command =
    | Request(actor: int, resource: int, start: int, end: int, note: Option<string>, now: int, newId: int,
              operational: bool)
    | Approve(actor: int, booking: int, now: int, operational: bool)
    | Reject(actor: int, booking: int, now: int, reason: Option<string>)
    | Cancel(actor: int, booking: int, now: int, reason: Option<string>)
    | Expire(now: int)
    | SoftDelete(actor: int, resource: int, now: int)
    | AddResource(resource: int, data: GoodResource)
    | EditResource(actor: int, resource: int, data: GoodResource)

  const AUTO_REASON := "auto_rejected_competing_request"
  const DELETED_REASON := "resource_deleted"

  // ---------- what a step does to the booking rows ----------

  datatype Change =
    | ApproveOne(target: BookingData, actor: int, now: int)
    | RejectOne(id: int, actor: int, now: int, reason: Option<string>)
    | CancelOne(id: int, actor: int, role: Role, now: int, reason: Option<string>)
    | ExpireAll(now: int)
    | CancelAll(resource: int, actor: int, now: int)

  // The pending rows a change sweeps up.
  function Sweep(ch: Change): Option<Query> {
    match ch
    case ApproveOne(t, _, _) => Some(PendingOverlapping(t.resource, t.slot, t.id))
    case ExpireAll(now) => Some(PendingStartingBefore(now))
    case CancelAll(resource, _, _) => Some(PendingOf(resource))
    case _ => None
  }

  function Moved(b: BookingData, to: Status, actor: int, role: Role, now: int, reason: Option<string>): BookingData {
    match Transitioned(b, to, actor, role, now, reason)
    case Ok(after) => after
    case Err(_) => b
  }

  // What happens to a row that the change sweeps up.
  function Swept(ch: Change, b: BookingData): BookingData {
    match ch
    case ApproveOne(_, actor, now) => Moved(b, Rejected, actor, Owner, now, Some(AUTO_REASON))
    case ExpireAll(now) => Moved(b, Expired, b.customer, Customer, now, Some(EXPIRY_REASON))
    case CancelAll(_, actor, now) => Moved(b, Cancelled, actor, Owner, now, Some(DELETED_REASON))
    case _ => b
  }

  function RowAfter(ch: Change, b: BookingData): BookingData {
    if Sweep(ch).Some? && Matches(Sweep(ch).value, b) then Swept(ch, b)
    else match ch
      case ApproveOne(t, actor, now) => if b.id == t.id then Moved(b, Approved, actor, Owner, now, None) else b
      case RejectOne(id, actor, now, reason) => if b.id == id then Moved(b, Rejected, actor, Owner, now, reason) else b
      case CancelOne(id, actor, role, now, reason) =>
        if b.id == id then Moved(b, Cancelled, actor, role, now, reason) else b
      case _ => b
  }

  function Apply(ch: Change, rows: seq<BookingData>): seq<BookingData> {
    seq(|rows|, i requires 0 <= i < |rows| => RowAfter(ch, rows[i]))
  }

  function NoticesTo(bs: seq<BookingData>, kind: Kind): seq<Notice> {
    seq(|bs|, i requires 0 <= i < |bs| => Notice(bs[i].customer, kind))
  }

  // ---------- the steps ----------

  datatype Outcome =
    | Refused(failure: Failure)
    | Changes(change: Change, notices: seq<Notice>, result: int)
    | Inserts(row: BookingData, notices: seq<Notice>)
    | Deletes(resource: int, data: GoodResource, change: Change, notices: seq<Notice>)
    | Saves(resource: int, data: GoodResource)

  ghost function RequestOutcome(st: Store, cmd: Command): Outcome
    requires cmd.Request?
  {
    if cmd.start >= cmd.end || !NoteFits(cmd.note) then Refused(InvalidInput(cmd.start >= cmd.end, !NoteFits(cmd.note)))
    else if cmd.resource !in st.resources || st.resources[cmd.resource].deletedAt.Some? then Refused(ResourceNotFound)
    else
      var res: GoodResource := st.resources[cmd.resource];
      var slot: DateTimeRange := DateTimeRange(cmd.start, cmd.end);
      if !res.published || !cmd.operational then Refused(ResourceNotPublished)
      else if slot.start <= cmd.now then Refused(BookingSlotInPast)
      else if !Grid.WholeSlots(res.slot, res.off, slot) then Refused(Misplaced(Grid.SlotNotAligned))
      else if !Grid.Accepts(res.slot, res.hours, res.off, slot) then Refused(Misplaced(Grid.OutsideOperatingHours))
      else if List(st.rows, ActiveOf(cmd.actor, cmd.resource, slot)) != [] then Refused(BookingAlreadyExists)
      else
        var total := Walk(Tariff(res.rules, res.base, res.off), res.slot, slot.start, slot.end);
        if total > MAX_CENTS then Refused(PriceTooLarge)
        else if Find(st.rows, cmd.newId).Some? then Refused(DuplicateId)
        else Inserts(
          BookingData(cmd.newId, cmd.resource, cmd.actor, slot, total, KeptNote(cmd.note),
                      Pending, [], cmd.now, cmd.now),
          [Notice(res.owner, BookingRequested)])
  }

  // The approved rows that the constraint would compare with an approval of t.
  predicate BlocksApproval(t: BookingData, b: BookingData) {
    b.resource == t.resource && b.status.Approved? && b.id != t.id && Overlaps(b.slot, t.slot)
  }

  predicate Blocked(rows: seq<BookingData>, t: BookingData) {
    exists b :: b in rows && BlocksApproval(t, b)
  }

  ghost function ApproveOutcome(st: Store, cmd: Command): Outcome
    requires cmd.Approve?
  {
    match Find(st.rows, cmd.booking)
    case None => Refused(BookingNotFound)
    case Some(i) =>
      var t := st.rows[i];
      if t.resource !in st.resources || st.resources[t.resource].deletedAt.Some?
         || st.resources[t.resource].owner != cmd.actor then Refused(BookingNotFound)
      else if !cmd.operational then Refused(OwnerSubscriptionInactive)
      else if !t.status.Pending? then Refused(BookingInvalidStateTransition)
      else if st.constrained && Blocked(st.rows, t) then Refused(ApprovedOverlapConstraint)
      else
        var losers := List(st.rows, PendingOverlapping(t.resource, t.slot, t.id));
        Changes(ApproveOne(t, cmd.actor, cmd.now),
                [Notice(t.customer, BookingApproved)] + NoticesTo(losers, BookingRejected), t.id)
  }

  ghost function RejectOutcome(st: Store, cmd: Command): Outcome
    requires cmd.Reject?
  {
    match Find(st.rows, cmd.booking)
    case None => Refused(BookingNotFound)
    case Some(i) =>
      var b := st.rows[i];
      if b.resource !in st.resources || st.resources[b.resource].owner != cmd.actor then Refused(BookingNotFound)
      else if Transitioned(b, Rejected, cmd.actor, Owner, cmd.now, cmd.reason).Err? then
        Refused(BookingInvalidStateTransition)
      else Changes(RejectOne(b.id, cmd.actor, cmd.now, cmd.reason), [Notice(b.customer, BookingRejected)], b.id)
  }

  ghost function CancelOutcome(st: Store, cmd: Command): Outcome
    requires cmd.Cancel?
  {
    match Find(st.rows, cmd.booking)
    case None => Refused(BookingNotFound)
    case Some(i) =>
      var b := st.rows[i];
      if b.resource !in st.resources then Refused(BookingNotFound)
      else
        var res: GoodResource := st.resources[b.resource];
        var isCustomer, isOwner := b.customer == cmd.actor, res.owner == cmd.actor;
        if !isCustomer && !isOwner then Refused(BookingNotFound)
        else if isCustomer && !isOwner && cmd.now >= b.slot.start - 60 * res.cutoffHours then
          Refused(BookingCancellationPastCutoff)
        else
          var role := if isOwner then Owner else Customer;
          if Transitioned(b, Cancelled, cmd.actor, role, cmd.now, cmd.reason).Err? then
            Refused(BookingInvalidStateTransition)
          else Changes(CancelOne(b.id, cmd.actor, role, cmd.now, cmd.reason),
                       [Notice(if isCustomer then res.owner else b.customer, BookingCancelled)], b.id)
  }

  ghost function ExpireOutcome(st: Store, cmd: Command): Outcome
    requires cmd.Expire?
  {
    var late := List(st.rows, PendingStartingBefore(cmd.now));
    Changes(ExpireAll(cmd.now), NoticesTo(late, BookingRejected), |late|)
  }

  predicate Owns(st: Store, actor: int, resource: int) {
    resource in st.resources && st.resources[resource].owner == actor && st.resources[resource].deletedAt.None?
  }

  ghost function SoftDeleteOutcome(st: Store, cmd: Command): Outcome
    requires cmd.SoftDelete?
  {
    if !Owns(st, cmd.actor, cmd.resource) then Refused(ResourceNotFound)
    else if List(st.rows, ApprovedStartingFrom(cmd.resource, cmd.now)) != [] then
      Refused(ResourceHasFutureApprovedBookings)
    else Deletes(
      cmd.resource, st.resources[cmd.resource].(deletedAt := Some(cmd.now)),
      CancelAll(cmd.resource, cmd.actor, cmd.now),
      NoticesTo(List(st.rows, PendingOf(cmd.resource)), BookingCancelled))
  }

  ghost function OutcomeOf(st: Store, cmd: Command): Outcome {
    match cmd
    case Request(_, _, _, _, _, _, _, _) => RequestOutcome(st, cmd)
    case Approve(_, _, _, _) => ApproveOutcome(st, cmd)
    case Reject(_, _, _, _) => RejectOutcome(st, cmd)
    case Cancel(_, _, _, _) => CancelOutcome(st, cmd)
    case Expire(_) => ExpireOutcome(st, cmd)
    case SoftDelete(_, _, _) => SoftDeleteOutcome(st, cmd)
    case AddResource(resource, data) =>
      if resource in st.resources || data.deletedAt.Some? then Refused(ResourceNotFound) else Saves(resource, data)
    case EditResource(actor, resource, data) =>
      if !Owns(st, actor, resource) || data.owner != actor || data.off != st.resources[resource].off
         || data.deletedAt.Some? then Refused(ResourceNotFound)
      else Saves(resource, data)
  }

  // A refused step is rolled back; any other commits as a whole.
  ghost function Commit(st: Store, o: Outcome): Store {
    match o
    case Refused(_) => st
    case Changes(ch, notices, _) => st.(rows := Apply(ch, st.rows), log := st.log + notices)
    case Inserts(row, notices) => st.(rows := st.rows + [row], log := st.log + notices)
    case Deletes(rid, data, ch, notices) =>
      st.(resources := st.resources[rid := data], rows := Apply(ch, st.rows), log := st.log + notices)
    case Saves(rid, data) => st.(resources := st.resources[rid := data])
  }

  ghost function Next(st: Store, cmd: Command): Store {
    Commit(st, OutcomeOf(st, cmd))
  }

  ghost function Exec(st: Store, cmds: seq<Command>): Store
    decreases |cmds|
  {
    if cmds == [] then st else Exec(Next(st, cmds[0]), cmds[1..])
  }

  function Empty(constrained: bool): Store {
    Store(constrained, map[], [], [])
  }

  // ---------- what one row can go through ----------

  ghost predicate SameBooking(b: BookingData, c: BookingData) {
    c == b.(status := c.status, history := c.history, updatedAt := c.updatedAt)
  }

  // A later version of the same booking.
  ghost predicate Follows(b: BookingData, c: BookingData) {
    && SameBooking(b, c)
    && b.history <= c.history
    && (c == b || Rank(c.status) < Rank(b.status))
    && (ValidHistory(b) ==> ValidHistory(c))
  }

  lemma MovedFollows(b: BookingData, to: Status, actor: int, role: Role, now: int, reason: Option<string>)
    ensures Follows(b, Moved(b, to, actor, role, now, reason))
    ensures Moved(b, to, actor, role, now, reason).status
         == if ValidTransition(b.status, to) && ReasonFits(reason) then to else b.status
  {
    TransitionExtendsHistory(b, to, actor, role, now, reason);
  }

  ghost predicate Approves(ch: Change, b: BookingData) {
    ch.ApproveOne? && b.id == ch.target.id && b.status.Pending?
  }

  // The only row a change can newly approve is its target, and only from PENDING.
  lemma RowFollows(ch: Change, b: BookingData)
    ensures Follows(b, RowAfter(ch, b))
    ensures IsActive(RowAfter(ch, b).status) ==> IsActive(b.status)
    ensures RowAfter(ch, b).status.Pending? ==> RowAfter(ch, b) == b
    ensures RowAfter(ch, b).status.Approved? <==> (b.status.Approved? && RowAfter(ch, b) == b) || Approves(ch, b)
    ensures Sweep(ch).Some? && Matches(Sweep(ch).value, b) ==> Rank(RowAfter(ch, b).status) == 0
  {
    match ch
    case ApproveOne(t, actor, now) =>
      MovedFollows(b, Approved, actor, Owner, now, None);
      MovedFollows(b, Rejected, actor, Owner, now, Some(AUTO_REASON));
    case RejectOne(id, actor, now, reason) => MovedFollows(b, Rejected, actor, Owner, now, reason);
    case CancelOne(id, actor, role, now, reason) => MovedFollows(b, Cancelled, actor, role, now, reason);
    case ExpireAll(now) => MovedFollows(b, Expired, b.customer, Customer, now, Some(EXPIRY_REASON));
    case CancelAll(_, actor, now) => MovedFollows(b, Cancelled, actor, Owner, now, Some(DELETED_REASON));
  }

  // ---------- the invariant ----------

  predicate BothApproved(a: BookingData, b: BookingData) {
    a.resource == b.resource && a.status.Approved? && b.status.Approved?
  }

  predicate SameHolder(a: BookingData, b: BookingData) {
    a.resource == b.resource && a.customer == b.customer && IsActive(a.status) && IsActive(b.status)
  }

  // No two APPROVED bookings of one resource overlap.
  ghost predicate NoApprovedOverlap(rows: seq<BookingData>) {
    forall i, j :: 0 <= i < j < |rows| ==> !(BothApproved(rows[i], rows[j]) && Overlaps(rows[i].slot, rows[j].slot))
  }

  // The active bookings of one customer on one resource are pairwise disjoint.
  ghost predicate CustomersDisjoint(rows: seq<BookingData>) {
    forall i, j :: 0 <= i < j < |rows| ==> !(SameHolder(rows[i], rows[j]) && Overlaps(rows[i].slot, rows[j].slot))
  }

  ghost predicate HistoriesValid(rows: seq<BookingData>) {
    forall i :: 0 <= i < |rows| ==> ValidHistory(rows[i])
  }

  ghost predicate Quiet(res: GoodResource, b: BookingData) {
    res.deletedAt.Some? ==>
      !b.status.Pending? && (b.status.Approved? ==> b.slot.start < res.deletedAt.value)
  }

  // A deleted resource has no PENDING booking and no APPROVED one that starts at or after its deletion.
  ghost predicate QuietAfterDeletion(resources: map<int, GoodResource>, rows: seq<BookingData>) {
    forall i :: 0 <= i < |rows| && rows[i].resource in resources ==> Quiet(resources[rows[i].resource], rows[i])
  }

  ghost predicate Inv(st: Store) {
    && UniqueIds(st.rows)
    && (forall i :: 0 <= i < |st.rows| ==> st.rows[i].resource in st.resources)
    && HistoriesValid(st.rows)
    && (st.constrained ==> NoApprovedOverlap(st.rows))
    && CustomersDisjoint(st.rows)
    && QuietAfterDeletion(st.resources, st.rows)
  }

  lemma ApplyKeepsRowFacts(ch: Change, rows: seq<BookingData>)
    ensures |Apply(ch, rows)| == |rows|
    ensures forall i :: 0 <= i < |rows| ==> Follows(rows[i], Apply(ch, rows)[i])
    ensures UniqueIds(rows) ==> UniqueIds(Apply(ch, rows))
    ensures HistoriesValid(rows) ==> HistoriesValid(Apply(ch, rows))
    ensures CustomersDisjoint(rows) ==> CustomersDisjoint(Apply(ch, rows))
  {
    forall i | 0 <= i < |rows|
      ensures Follows(rows[i], Apply(ch, rows)[i])
      ensures IsActive(Apply(ch, rows)[i].status) ==> IsActive(rows[i].status)
    {
      RowFollows(ch, rows[i]);
    }
  }

  lemma OtherRowsStay(ch: Change, rows: seq<BookingData>, i: nat, j: nat)
    requires UniqueIds(rows) && i < |rows| && j < |rows| && i != j
    requires (ch.RejectOne? && ch.id == rows[i].id) || (ch.CancelOne? && ch.id == rows[i].id)
    ensures RowAfter(ch, rows[j]) == rows[j]
  {
    assert rows[j].id != rows[i].id;
  }

  // A step on one row is the whole change.
  lemma OneRowMoves(ch: Change, rows: seq<BookingData>, i: nat)
    requires UniqueIds(rows) && i < |rows|
    requires (ch.RejectOne? && ch.id == rows[i].id) || (ch.CancelOne? && ch.id == rows[i].id)
    ensures Apply(ch, rows) == rows[i := RowAfter(ch, rows[i])]
    ensures UniqueIds(Apply(ch, rows)) && Find(rows, rows[i].id) == Some(i)
  {
    assert UniqueIds(Apply(ch, rows)) by {
      ApplyKeepsRowFacts(ch, rows);
    }
    FindUnique(rows, i);
    var after := Apply(ch, rows);
    forall j | 0 <= j < |rows| && j != i ensures after[j] == rows[j] {
      OtherRowsStay(ch, rows, i, j);
    }
    OnlyOneDiffers(rows, after, i);
  }

  lemma OnlyOneDiffers(rows: seq<BookingData>, after: seq<BookingData>, i: nat)
    requires i < |rows| == |after| && forall j :: 0 <= j < |rows| && j != i ==> after[j] == rows[j]
    ensures after == rows[i := after[i]]
  {
  }

  lemma ApplyKeepsApprovedDisjoint(ch: Change, rows: seq<BookingData>)
    requires UniqueIds(rows) && NoApprovedOverlap(rows)
    requires ch.ApproveOne? ==> ch.target in rows && !Blocked(rows, ch.target)
    ensures NoApprovedOverlap(Apply(ch, rows))
  {
    forall i | 0 <= i < |rows|
      ensures SameBooking(rows[i], Apply(ch, rows)[i])
      ensures Apply(ch, rows)[i].status.Approved? ==> rows[i].status.Approved? || Approves(ch, rows[i])
    {
      RowFollows(ch, rows[i]);
    }
    forall i, j | 0 <= i < |rows| && 0 <= j < |rows| && i != j
      && Approves(ch, rows[i]) && rows[j].status.Approved? && rows[i].resource == rows[j].resource
      ensures !Overlaps(rows[i].slot, rows[j].slot)
    {
      assert rows[i] == ch.target;
      assert rows[j] in rows && !BlocksApproval(ch.target, rows[j]);
    }
  }

  lemma ApplyKeepsQuiet(ch: Change, resources: map<int, GoodResource>, rows: seq<BookingData>)
    requires UniqueIds(rows) && QuietAfterDeletion(resources, rows)
    requires ch.ApproveOne? ==>
      ch.target in rows && ch.target.resource in resources && resources[ch.target.resource].deletedAt.None?
    ensures QuietAfterDeletion(resources, Apply(ch, rows))
  {
    forall i | 0 <= i < |rows|
      ensures SameBooking(rows[i], Apply(ch, rows)[i])
      ensures Apply(ch, rows)[i].status.Pending? ==> rows[i].status.Pending?
      ensures Apply(ch, rows)[i].status.Approved? ==> rows[i].status.Approved? || Approves(ch, rows[i])
    {
      RowFollows(ch, rows[i]);
    }
  }

  lemma DeletionIsQuiet(st: Store, cmd: Command)
    requires cmd.SoftDelete? && Inv(st) && SoftDeleteOutcome(st, cmd).Deletes?
    ensures QuietAfterDeletion(Next(st, cmd).resources, Next(st, cmd).rows)
  {
    var ch := CancelAll(cmd.resource, cmd.actor, cmd.now);
    var later := Apply(ch, st.rows);
    ApplyKeepsQuiet(ch, st.resources, st.rows);
    ListIsExact(st.rows, ApprovedStartingFrom(cmd.resource, cmd.now));
    forall i | 0 <= i < |later|
      ensures later[i].resource == st.rows[i].resource
      ensures later[i].resource == cmd.resource ==>
        !later[i].status.Pending? && (later[i].status.Approved? ==> later[i].slot.start < cmd.now)
    {
      RowFollows(ch, st.rows[i]);
      assert st.rows[i] in st.rows;
    }
  }

  // A PENDING row of a live resource, apart from every other active row of the same customer there.
  ghost predicate MayJoin(st: Store, row: BookingData) {
    && row.status.Pending? && ValidHistory(row)
    && row.resource in st.resources && st.resources[row.resource].deletedAt.None?
    && forall i :: 0 <= i < |st.rows| ==>
         st.rows[i].id != row.id && !(SameHolder(st.rows[i], row) && Overlaps(st.rows[i].slot, row.slot))
  }

  lemma RequestMayJoin(st: Store, cmd: Command)
    requires cmd.Request? && RequestOutcome(st, cmd).Inserts?
    ensures MayJoin(st, RequestOutcome(st, cmd).row)
  {
    var row := RequestOutcome(st, cmd).row;
    var q := ActiveOf(cmd.actor, cmd.resource, row.slot);
    ListIsExact(st.rows, q);
    forall i | 0 <= i < |st.rows| ensures st.rows[i].id != row.id && !Matches(q, st.rows[i]) {
      assert st.rows[i] in st.rows;
    }
  }

  lemma JoinKeepsInv(st: Store, row: BookingData, notices: seq<Notice>)
    requires Inv(st) && MayJoin(st, row)
    ensures Inv(st.(rows := st.rows + [row], log := st.log + notices))
  {
    var next := st.rows + [row];
    assert CustomersDisjoint(next);
    assert st.constrained ==> NoApprovedOverlap(next);
    assert QuietAfterDeletion(st.resources, next);
  }

  // A change of rows in place: enough of the target is known from the guards of its command.
  lemma ChangeKeepsInv(st: Store, ch: Change, notices: seq<Notice>)
    requires Inv(st)
    requires ch.ApproveOne? ==>
      && ch.target in st.rows && (st.constrained ==> !Blocked(st.rows, ch.target))
      && st.resources[ch.target.resource].deletedAt.None?
    ensures Inv(st.(rows := Apply(ch, st.rows), log := st.log + notices))
  {
    ApplyKeepsRowFacts(ch, st.rows);
    if st.constrained {
      ApplyKeepsApprovedDisjoint(ch, st.rows);
    }
    ApplyKeepsQuiet(ch, st.resources, st.rows);
  }

  lemma DeleteKeepsInv(st: Store, cmd: Command)
    requires cmd.SoftDelete? && Inv(st) && SoftDeleteOutcome(st, cmd).Deletes?
    ensures Inv(Next(st, cmd))
  {
    ChangeKeepsInv(st, CancelAll(cmd.resource, cmd.actor, cmd.now), []);
    DeletionIsQuiet(st, cmd);
  }

  lemma RequestKeepsInv(st: Store, cmd: Command)
    requires cmd.Request? && Inv(st)
    ensures Inv(Commit(st, RequestOutcome(st, cmd)))
  {
    var o := RequestOutcome(st, cmd);
    if o.Inserts? {
      RequestMayJoin(st, cmd);
    }
    JoinOutcomeKeepsInv(st, o);
  }

  lemma JoinOutcomeKeepsInv(st: Store, o: Outcome)
    requires Inv(st) && (o.Refused? || (o.Inserts? && MayJoin(st, o.row)))
    ensures Inv(Commit(st, o))
  {
    if o.Inserts? {
      JoinKeepsInv(st, o.row, o.notices);
    }
  }

  lemma ApproveKeepsInv(st: Store, cmd: Command)
    requires cmd.Approve? && Inv(st)
    ensures Inv(Commit(st, ApproveOutcome(st, cmd)))
  {
    var o := ApproveOutcome(st, cmd);
    if o.Changes? {
      ChangeKeepsInv(st, o.change, o.notices);
    }
  }

  // Refused, saved, or a change that approves nothing.
  lemma MildOutcomeKeepsInv(st: Store, o: Outcome)
    requires Inv(st) && !o.Inserts? && !o.Deletes?
    requires o.Changes? ==> !o.change.ApproveOne?
    requires o.Saves? ==> o.data.deletedAt.None?
    ensures Inv(Commit(st, o))
  {
    if o.Changes? {
      ChangeKeepsInv(st, o.change, o.notices);
    }
  }

  lemma SoftDeleteKeepsInv(st: Store, cmd: Command)
    requires cmd.SoftDelete? && Inv(st)
    ensures Inv(Commit(st, SoftDeleteOutcome(st, cmd)))
  {
    if SoftDeleteOutcome(st, cmd).Deletes? {
      assert OutcomeOf(st, cmd) == SoftDeleteOutcome(st, cmd);
      DeleteKeepsInv(st, cmd);
    } else {
      assert SoftDeleteOutcome(st, cmd).Refused?;
    }
  }

  // Every step, taken or refused, from any store that satisfies the invariant.
  lemma StepKeepsInv(st: Store, cmd: Command)
    requires Inv(st)
    ensures Inv(Next(st, cmd))
  {
    match cmd
    case Request(_, _, _, _, _, _, _, _) => RequestKeepsInv(st, cmd);
    case Approve(_, _, _, _) => ApproveKeepsInv(st, cmd);
    case Reject(_, _, _, _) => MildOutcomeKeepsInv(st, RejectOutcome(st, cmd));
    case Cancel(_, _, _, _) => MildOutcomeKeepsInv(st, CancelOutcome(st, cmd));
    case Expire(_) => MildOutcomeKeepsInv(st, ExpireOutcome(st, cmd));
    case SoftDelete(_, _, _) => SoftDeleteKeepsInv(st, cmd);
    case AddResource(_, _) => MildOutcomeKeepsInv(st, OutcomeOf(st, cmd));
    case EditResource(_, _, _) => MildOutcomeKeepsInv(st, OutcomeOf(st, cmd));
  }

  // The invariant holds after every run of every command, from the empty store.
  lemma EveryRunKeepsInv(constrained: bool, cmds: seq<Command>)
    ensures Inv(Exec(Empty(constrained), cmds))
  {
    RunKeepsInv(Empty(constrained), cmds);
  }

  lemma {:induction false} RunKeepsInv(st: Store, cmds: seq<Command>)
    requires Inv(st)
    ensures Inv(Exec(st, cmds))
    decreases |cmds|
  {
    if cmds != [] {
      StepKeepsInv(st, cmds[0]);
      RunKeepsInv(Next(st, cmds[0]), cmds[1..]);
    }
  }
}
