/** The booking entity: its lifecycle and its audit history. */
module Bookings {
  import opened Calendar
  import opened Pricing

  datatype Status = Pending | Approved | Rejected | Cancelled | Expired

  datatype Role = Customer | Owner | Admin

  const REASON_MAX_LENGTH := 500

  predicate IsActive(st: Status) {
    st.Pending? || st.Approved?
  }

  predicate ValidTransition(from: Status, to: Status) {
    match from
    case Pending => !to.Pending?
    case Approved => to.Cancelled?
    case _ => false
  }

  datatype StatusChange = StatusChange(
    from: Status, to: Status, actor: int, role: Role, at: int, reason: Option<string>)

  datatype ChangeError = ReasonTooLong | InvalidTransition

  predicate ReasonFits(reason: Option<string>) {
    reason.Some? ==> |reason.value| <= REASON_MAX_LENGTH
  }

  function CreateChange(from: Status, to: Status, actor: int, role: Role, at: int, reason: Option<string>)
    : Result<StatusChange, ChangeError>
  {
    if !ReasonFits(reason) then Err(ReasonTooLong)
    else if !ValidTransition(from, to) then Err(InvalidTransition)
    else Ok(StatusChange(from, to, actor, role, at, reason))
  }

  // ---------- the customer's note ----------

  const NOTE_MAX_LENGTH := 500

  // What Python strips: the characters of its str.isspace.
  predicate IsSpace(c: char) {
    var n := c as int;
    9 <= n <= 13 || 28 <= n <= 32 || n in {133, 160, 5760, 8239, 8287, 12288} || 8192 <= n <= 8202 || 8232 <= n <= 8233
  }

  function StripLeft(s: string): string {
    if s != "" && IsSpace(s[0]) then StripLeft(s[1..]) else s
  }

  function StripRight(s: string): string {
    if s != "" && IsSpace(s[|s| - 1]) then StripRight(s[..|s| - 1]) else s
  }

  // An empty note is no note; any other is kept without its outer blanks.
  function KeptNote(raw: Option<string>): Option<string> {
    if raw == None || raw.value == "" then None else Some(StripRight(StripLeft(raw.value)))
  }

  predicate NoteFits(raw: Option<string>) {
    KeptNote(raw).Some? ==> |KeptNote(raw).value| <= NOTE_MAX_LENGTH
  }

  ghost predicate Blank(s: string) {
    forall i :: 0 <= i < |s| ==> IsSpace(s[i])
  }

  // s without its outer blanks.
  ghost predicate IsCore(s: string, core: string, left: string, right: string) {
    && s == left + core + right && Blank(left) && Blank(right)
    && (core != "" ==> !IsSpace(core[0]) && !IsSpace(core[|core| - 1]))
  }

  lemma {:induction false} StripLeftCuts(s: string) returns (left: string)
    ensures s == left + StripLeft(s) && Blank(left)
    ensures StripLeft(s) != "" ==> !IsSpace(StripLeft(s)[0])
  {
    if s != "" && IsSpace(s[0]) {
      var rest := StripLeftCuts(s[1..]);
      left := [s[0]] + rest;
    } else {
      left := "";
    }
  }

  lemma {:induction false} StripRightCuts(s: string) returns (right: string)
    ensures s == StripRight(s) + right && Blank(right)
    ensures StripRight(s) != "" ==> !IsSpace(StripRight(s)[|StripRight(s)| - 1])
  {
    if s != "" && IsSpace(s[|s| - 1]) {
      var rest := StripRightCuts(s[..|s| - 1]);
      right := rest + [s[|s| - 1]];
      assert s == s[..|s| - 1] + [s[|s| - 1]];
    } else {
      right := "";
    }
  }

  // A note that is given and not empty is kept, less its outer blanks and nothing else.
  lemma KeptNoteIsCore(raw: Option<string>) returns (left: string, right: string)
    ensures KeptNote(raw).Some? <==> raw.Some? && raw.value != ""
    ensures KeptNote(raw).Some? ==> IsCore(raw.value, KeptNote(raw).value, left, right)
  {
    left, right := "", "";
    if raw.Some? && raw.value != "" {
      left := StripLeftCuts(raw.value);
      right := StripRightCuts(StripLeft(raw.value));
      var core := KeptNote(raw).value;
      assert raw.value == left + core + right;
      if core != "" {
        assert StripLeft(raw.value)[0] == core[0];
      }
    }
  }

  /** The persisted value of a booking, as one row of the table. */
  datatype BookingData = BookingData(
    id: int, resource: int, customer: int, slot: DateTimeRange, price: Money, note: Option<string>,
    status: Status, history: seq<StatusChange>, createdAt: int, updatedAt: int)

  // The row after a transition, or why there is none.
  function Transitioned(b: BookingData, to: Status, actor: int, role: Role, now: int, reason: Option<string>)
    : Result<BookingData, ChangeError>
  {
    match CreateChange(b.status, to, actor, role, now, reason)
    case Err(e) => Err(e)
    case Ok(change) => Ok(b.(status := to, history := b.history + [change], updatedAt := now))
  }

  /** The mutable entity a handler loads, changes and writes back. */
  class Booking {
    const id: int
    const resource: int
    const customer: int
    const slot: DateTimeRange
    const price: Money
    const note: Option<string>
    const createdAt: int
    var status: Status
    var history: seq<StatusChange>
    var updatedAt: int

    function Data(): BookingData
      reads this
    {
      BookingData(id, resource, customer, slot, price, note, status, history, createdAt, updatedAt)
    }

    constructor FromRow(b: BookingData)
      ensures Data() == b
    {
      id, resource, customer, slot, price, note := b.id, b.resource, b.customer, b.slot, b.price, b.note;
      status, history, createdAt, updatedAt := b.status, b.history, b.createdAt, b.updatedAt;
    }

    constructor CreatePending(
        id: int, resource: int, customer: int, slot: DateTimeRange, price: Money, note: Option<string>, now: int)
      ensures Data() == BookingData(id, resource, customer, slot, price, note, Pending, [], now, now)
    {
      this.id, this.resource, this.customer, this.slot := id, resource, customer, slot;
      this.price, this.note := price, note;
      createdAt, updatedAt, status, history := now, now, Pending, [];
    }

    method Transition(to: Status, actor: int, role: Role, now: int, reason: Option<string>)
      returns (r: Result<(), ChangeError>)
      modifies this
      ensures match Transitioned(old(Data()), to, actor, role, now, reason)
              case Ok(b) => r.Ok? && Data() == b
              case Err(e) => r == Err(e) && Data() == old(Data())
    {
      var change := CreateChange(status, to, actor, role, now, reason);
      if change.Err? {
        return Err(change.error);
      }
      status := to;
      history := history + [change.value];
      updatedAt := now;
      r := Ok(());
    }

    method Approve(actor: int, now: int) returns (r: Result<(), ChangeError>)
      modifies this
      ensures match Transitioned(old(Data()), Approved, actor, Owner, now, None)
              case Ok(b) => r.Ok? && Data() == b
              case Err(e) => r == Err(e) && Data() == old(Data())
    {
      r := Transition(Approved, actor, Owner, now, None);
    }

    method Reject(actor: int, now: int, reason: Option<string>) returns (r: Result<(), ChangeError>)
      modifies this
      ensures match Transitioned(old(Data()), Rejected, actor, Owner, now, reason)
              case Ok(b) => r.Ok? && Data() == b
              case Err(e) => r == Err(e) && Data() == old(Data())
    {
      r := Transition(Rejected, actor, Owner, now, reason);
    }

    method Cancel(actor: int, role: Role, now: int, reason: Option<string>) returns (r: Result<(), ChangeError>)
      modifies this
      ensures match Transitioned(old(Data()), Cancelled, actor, role, now, reason)
              case Ok(b) => r.Ok? && Data() == b
              case Err(e) => r == Err(e) && Data() == old(Data())
    {
      r := Transition(Cancelled, actor, role, now, reason);
    }

    // An expiry is recorded under the customer's own name.
    method Expire(now: int) returns (r: Result<(), ChangeError>)
      modifies this
      ensures match Transitioned(old(Data()), Expired, customer, Role.Customer, now, Some(EXPIRY_REASON))
              case Ok(b) => r.Ok? && Data() == b
              case Err(e) => r == Err(e) && Data() == old(Data())
    {
      r := Transition(Expired, customer, Role.Customer, now, Some(EXPIRY_REASON));
    }
  }

  const EXPIRY_REASON := "slot_start_passed_with_no_decision"

  // ---------- histories ----------

  ghost predicate GoodLink(h: seq<StatusChange>, i: int)
    requires 0 <= i < |h|
  {
    && ValidTransition(h[i].from, h[i].to)
    && ReasonFits(h[i].reason)
    && h[i].from == (if i == 0 then Pending else h[i - 1].to)
  }

  // A chain of valid changes that starts at Pending and ends at the booking's status.
  ghost predicate ValidHistory(b: BookingData) {
    && (forall i :: 0 <= i < |b.history| ==> GoodLink(b.history, i))
    && b.status == (if b.history == [] then Pending else b.history[|b.history| - 1].to)
  }

  function Rank(st: Status): nat {
    match st
    case Pending => 2
    case Approved => 1
    case _ => 0
  }

  lemma ThreeLinksNeverFit(h: seq<StatusChange>)
    requires |h| >= 3
    ensures !(GoodLink(h, 0) && GoodLink(h, 1) && GoodLink(h, 2))
  {
  }

  // A booking has at most two changes in its life, and none is left to a booking of rank 0.
  lemma HistoryIsShort(b: BookingData)
    requires ValidHistory(b)
    ensures |b.history| + Rank(b.status) <= 2
  {
    var h := b.history;
    if |h| >= 3 {
      ThreeLinksNeverFit(h);
      assert false;
    }
    assert |h| >= 1 ==> GoodLink(h, 0);
    assert |h| >= 2 ==> GoodLink(h, 1);
  }

  // A transition succeeds exactly on a listed pair with a reason that fits. It appends one change,
  // strictly lowers the rank, keeps the chain valid and touches nothing else.
  lemma TransitionExtendsHistory(
      b: BookingData, to: Status, actor: int, role: Role, now: int, reason: Option<string>)
    ensures Transitioned(b, to, actor, role, now, reason).Ok?
       <==> ValidTransition(b.status, to) && ReasonFits(reason)
    ensures var r := Transitioned(b, to, actor, role, now, reason);
            r.Ok? ==>
              && r.value == b.(status := to, history := r.value.history, updatedAt := now)
              && r.value.history == b.history + [StatusChange(b.status, to, actor, role, now, reason)]
              && Rank(r.value.status) < Rank(b.status)
              && (ValidHistory(b) ==> ValidHistory(r.value))
  {
    var r := Transitioned(b, to, actor, role, now, reason);
    if r.Ok? && ValidHistory(b) {
      var h := r.value.history;
      forall i | 0 <= i < |h| ensures GoodLink(h, i) {
        if i < |b.history| {
          assert GoodLink(b.history, i);
        }
      }
    }
  }

  // The table of transitions: a PENDING booking may become anything else, an APPROVED one may only be
  // cancelled, and nothing becomes PENDING or leaves a settled status.
  lemma TransitionTable(from: Status, to: Status)
    ensures ValidTransition(from, to) <==>
      (from, to) in {(Pending, Approved), (Pending, Rejected), (Pending, Cancelled), (Pending, Expired),
                     (Approved, Cancelled)}
  {
  }

  // Why a transition fails: the reason is looked at first.
  lemma TransitionFailsWith(b: BookingData, to: Status, actor: int, role: Role, now: int, reason: Option<string>)
    ensures Transitioned(b, to, actor, role, now, reason) == Err(ReasonTooLong)
       <==> reason.Some? && |reason.value| > REASON_MAX_LENGTH
    ensures Transitioned(b, to, actor, role, now, reason) == Err(InvalidTransition)
       <==> !(reason.Some? && |reason.value| > REASON_MAX_LENGTH) && !ValidTransition(b.status, to)
  {
  }

  // ---------- the repository's queries ----------

  datatype Query =
    | ActiveOf(customer: int, resource: int, slot: DateTimeRange)
    | PendingOverlapping(resource: int, slot: DateTimeRange, exclude: int)
    | PendingStartingBefore(cutoff: int)
    | PendingOf(resource: int)
    | ApprovedStartingFrom(resource: int, cutoff: int)
    | MeetingRange(resource: int, lo: int, hi: int)
    | AllOf(resource: int)

  predicate Matches(q: Query, b: BookingData) {
    match q
    case ActiveOf(customer, resource, slot) =>
      b.customer == customer && b.resource == resource && IsActive(b.status) && Overlaps(b.slot, slot)
    case PendingOverlapping(resource, slot, exclude) =>
      b.resource == resource && b.status.Pending? && Overlaps(b.slot, slot) && b.id != exclude
    case PendingStartingBefore(cutoff) => b.status.Pending? && b.slot.start < cutoff
    case PendingOf(resource) => b.resource == resource && b.status.Pending?
    case ApprovedStartingFrom(resource, cutoff) =>
      b.resource == resource && b.status.Approved? && b.slot.start >= cutoff
    case MeetingRange(resource, lo, hi) => b.resource == resource && b.slot.start < hi && b.slot.end > lo
    case AllOf(resource) => b.resource == resource
  }

  // The matching rows, in the order they are stored.
  function List(rows: seq<BookingData>, q: Query): seq<BookingData> {
    if rows == [] then []
    else (if Matches(q, rows[0]) then [rows[0]] else []) + List(rows[1..], q)
  }

  lemma {:induction false} ListIsExact(rows: seq<BookingData>, q: Query)
    ensures forall b :: b in List(rows, q) <==> b in rows && Matches(q, b)
  {
    if rows != [] {
      ListIsExact(rows[1..], q);
      assert forall b :: b in rows <==> b == rows[0] || b in rows[1..];
    }
  }

  // Rows in order of their start; equal starts keep their order.
  function InsertByStart(b: BookingData, rows: seq<BookingData>): seq<BookingData> {
    if rows == [] || b.slot.start <= rows[0].slot.start then [b] + rows
    else [rows[0]] + InsertByStart(b, rows[1..])
  }

  function ByStart(rows: seq<BookingData>): seq<BookingData> {
    if rows == [] then [] else InsertByStart(rows[0], ByStart(rows[1..]))
  }

  ghost predicate SortedByStart(rows: seq<BookingData>) {
    forall i, j :: 0 <= i < j < |rows| ==> rows[i].slot.start <= rows[j].slot.start
  }

  lemma {:induction false} InsertByStartKeeps(b: BookingData, rows: seq<BookingData>)
    ensures multiset(InsertByStart(b, rows)) == multiset(rows) + multiset{b}
    ensures forall c :: c in InsertByStart(b, rows) <==> c == b || c in rows
  {
    if !(rows == [] || b.slot.start <= rows[0].slot.start) {
      InsertByStartKeeps(b, rows[1..]);
      assert rows == [rows[0]] + rows[1..];
    }
  }

  // Putting a row that starts no later than any other in front.
  lemma EarliestInFront(b: BookingData, rows: seq<BookingData>)
    requires SortedByStart(rows) && forall c :: c in rows ==> b.slot.start <= c.slot.start
    ensures SortedByStart([b] + rows)
  {
  }

  lemma {:induction false} InsertByStartSorts(b: BookingData, rows: seq<BookingData>)
    requires SortedByStart(rows)
    ensures SortedByStart(InsertByStart(b, rows))
  {
    if rows == [] || b.slot.start <= rows[0].slot.start {
      EarliestInFront(b, rows);
    } else {
      InsertByStartSorts(b, rows[1..]);
      InsertByStartKeeps(b, rows[1..]);
      EarliestInFront(rows[0], InsertByStart(b, rows[1..]));
    }
  }

  // The order of the agenda's query: a permutation of the rows, sorted.
  lemma {:induction false} ByStartSorts(rows: seq<BookingData>)
    ensures SortedByStart(ByStart(rows))
    ensures multiset(ByStart(rows)) == multiset(rows)
    ensures forall b :: b in ByStart(rows) <==> b in rows
  {
    if rows != [] {
      ByStartSorts(rows[1..]);
      InsertByStartSorts(rows[0], ByStart(rows[1..]));
      InsertByStartKeeps(rows[0], ByStart(rows[1..]));
      assert rows == [rows[0]] + rows[1..];
    }
  }

  lemma {:induction false} ListStaysSorted(rows: seq<BookingData>, q: Query)
    requires SortedByStart(rows)
    ensures SortedByStart(List(rows, q))
  {
    if rows != [] {
      ListStaysSorted(rows[1..], q);
      ListIsExact(rows[1..], q);
      EarliestInFront(rows[0], List(rows[1..], q));
    }
  }

  ghost predicate UniqueIds(rows: seq<BookingData>) {
    forall i, j :: 0 <= i < j < |rows| ==> rows[i].id != rows[j].id
  }

  // A query lists no row twice.
  lemma {:induction false} ListHasUniqueIds(rows: seq<BookingData>, q: Query)
    requires UniqueIds(rows)
    ensures UniqueIds(List(rows, q))
  {
    if rows != [] {
      ListHasUniqueIds(rows[1..], q);
      ListIsExact(rows[1..], q);
      assert forall b :: b in rows[1..] ==> b.id != rows[0].id;
    }
  }

  // The position of the row with a given id.
  function Find(rows: seq<BookingData>, id: int): (r: Option<nat>)
    ensures r.Some? ==> r.value < |rows| && rows[r.value].id == id
    ensures r.None? ==> forall i :: 0 <= i < |rows| ==> rows[i].id != id
  {
    if rows == [] then None
    else if rows[0].id == id then Some(0)
    else match Find(rows[1..], id)
      case None =>
        assert forall i :: 0 < i < |rows| ==> rows[i] == rows[1..][i - 1];
        None
      case Some(i) => Some(i + 1)
  }

  lemma FindUnique(rows: seq<BookingData>, i: nat)
    requires UniqueIds(rows) && i < |rows|
    ensures Find(rows, rows[i].id) == Some(i)
  {
  }
}
