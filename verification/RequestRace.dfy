/** Concurrent Request calls, interleaved at two points: the gates with their duplicate check, and the
    insert with its commit. The handler takes no lock between them. */
module RequestRace {
  import opened Calendar
  import opened Bookings
  import opened Protocol

  /** readAt is the number of rows a call has read, doneAt the position of the row it has inserted. Rows
      are only appended here, so these also tell what happened before what. */
  datatype Phase =
    | Waiting
    | Checked(row: BookingData, notices: seq<Notice>, readAt: nat)
    | Taken(readAt: nat, doneAt: nat)
    | Failed(failure: Failure)

  datatype Call = Call(actor: int, resource: int, start: int, end: int, note: Option<string>, now: int, newId: int,
                       operational: bool, phase: Phase)
  {
    function Cmd(): (cmd: Command)
      ensures cmd.Request?
    {
      Request(actor, resource, start, end, note, now, newId, operational)
    }
  }

  datatype World = World(store: Store, calls: seq<Call>)

  ghost function To(w: World, p: nat, phase: Phase): World
    requires p < |w.calls|
  {
    w.(calls := w.calls[p := w.calls[p].(phase := phase)])
  }

  ghost function Check(w: World, p: nat): World
    requires p < |w.calls|
  {
    match RequestOutcome(w.store, w.calls[p].Cmd())
    case Inserts(row, notices) => To(w, p, Checked(row, notices, |w.store.rows|))
    case Refused(failure) => To(w, p, Failed(failure))
    case _ => w
  }

  // The insert compares ids only.
  ghost function Insert(w: World, p: nat): World
    requires p < |w.calls| && w.calls[p].phase.Checked?
  {
    var ph, st := w.calls[p].phase, w.store;
    if Find(st.rows, ph.row.id).Some? then To(w, p, Failed(DuplicateId))
    else To(w, p, Taken(ph.readAt, |st.rows|)).(
      store := st.(rows := st.rows + [ph.row], log := st.log + ph.notices))
  }

  ghost function Step(w: World, p: nat): World {
    if p >= |w.calls| then w
    else match w.calls[p].phase
      case Waiting => Check(w, p)
      case Checked(_, _, _) => Insert(w, p)
      case _ => w
  }

  ghost function Run(w: World, schedule: seq<nat>): World
    decreases |schedule|
  {
    if schedule == [] then w else Run(Step(w, schedule[0]), schedule[1..])
  }

  ghost predicate Fresh(w: World) {
    Inv(w.store) && forall p :: 0 <= p < |w.calls| ==> w.calls[p].phase == Waiting
  }

  // ---------- what interleaving keeps ----------

  // The row a call asks for.
  ghost predicate RowOf(c: Call, row: BookingData) {
    && row.resource == c.resource && row.customer == c.actor && row.status.Pending?
    && row.slot.start == c.start && row.slot.end == c.end
  }

  // None of the first n rows is an active booking of the same customer that overlaps the row.
  ghost predicate FreeAmong(rows: seq<BookingData>, n: nat, row: BookingData)
    requires n <= |rows|
  {
    forall i :: 0 <= i < n ==> !(SameHolder(rows[i], row) && Overlaps(rows[i].slot, row.slot))
  }

  ghost predicate CallOk(w: World, n: nat, p: nat)
    requires p < |w.calls|
  {
    var c := w.calls[p];
    match c.phase
    case Checked(row, _, readAt) =>
      RowOf(c, row) && n <= readAt <= |w.store.rows| && FreeAmong(w.store.rows, readAt, row)
    case Taken(readAt, doneAt) =>
      && n <= readAt <= doneAt < |w.store.rows|
      && RowOf(c, w.store.rows[doneAt]) && FreeAmong(w.store.rows, readAt, w.store.rows[doneAt])
    case _ => true
  }

  // The call that inserted the row at position i.
  ghost predicate InsertedBy(w: World, i: int, p: int) {
    0 <= p < |w.calls| && w.calls[p].phase.Taken? && w.calls[p].phase.doneAt == i
  }

  ghost predicate Inserted(w: World, i: int) {
    exists p :: InsertedBy(w, i, p)
  }

  // n is the number of rows before the race.
  ghost predicate RaceInv(w: World, n: nat) {
    && n <= |w.store.rows|
    && CustomersDisjoint(w.store.rows[..n])
    && (forall p :: 0 <= p < |w.calls| ==> CallOk(w, n, p))
    && (forall i :: n <= i < |w.store.rows| ==> Inserted(w, i))
    && forall p, q :: SamePlace(w, p, q) ==> p == q
  }

  ghost predicate SamePlace(w: World, p: int, q: int) {
    && 0 <= p < |w.calls| && 0 <= q < |w.calls| && w.calls[p].phase.Taken? && w.calls[q].phase.Taken?
    && w.calls[p].phase.doneAt == w.calls[q].phase.doneAt
  }

  lemma CheckedIsFree(st: Store, c: Call)
    requires RequestOutcome(st, c.Cmd()).Inserts?
    ensures RowOf(c, RequestOutcome(st, c.Cmd()).row)
    ensures FreeAmong(st.rows, |st.rows|, RequestOutcome(st, c.Cmd()).row)
  {
    RequestMayJoin(st, c.Cmd());
  }

  lemma CheckKeepsInv(w: World, n: nat, p: nat)
    requires RaceInv(w, n) && p < |w.calls| && w.calls[p].phase.Waiting?
    ensures RaceInv(Step(w, p), n)
  {
    var v := Step(w, p);
    if RequestOutcome(w.store, w.calls[p].Cmd()).Inserts? {
      CheckedIsFree(w.store, w.calls[p]);
    }
    assert v.store == w.store && !v.calls[p].phase.Taken?;
    assert forall q, r :: SamePlace(v, q, r) ==> SamePlace(w, q, r);
    forall i | n <= i < |v.store.rows| ensures Inserted(v, i) {
      assert Inserted(w, i);
      var q :| InsertedBy(w, i, q);
      assert InsertedBy(v, i, q);
    }
    forall q | 0 <= q < |v.calls| ensures CallOk(v, n, q) {
      assert CallOk(w, n, q);
    }
  }

  lemma InsertKeepsCall(w: World, n: nat, p: nat, q: nat)
    requires p < |w.calls| && w.calls[p].phase.Checked? && CallOk(w, n, p) && q < |w.calls| && CallOk(w, n, q)
    ensures q < |Step(w, p).calls| && CallOk(Step(w, p), n, q)
  {
    assert w.store.rows <= Step(w, p).store.rows;
  }

  lemma InsertKeepsInv(w: World, n: nat, p: nat)
    requires RaceInv(w, n) && p < |w.calls| && w.calls[p].phase.Checked?
    ensures RaceInv(Step(w, p), n)
  {
    var v := Step(w, p);
    assert CallOk(w, n, p);
    assert w.store.rows <= v.store.rows;
    assert v.store.rows[..n] == w.store.rows[..n];
    forall q | 0 <= q < |v.calls| ensures CallOk(v, n, q) {
      InsertKeepsCall(w, n, p, q);
    }
    forall i | n <= i < |v.store.rows| ensures Inserted(v, i) {
      if i < |w.store.rows| {
        assert Inserted(w, i);
        var q :| InsertedBy(w, i, q);
        assert InsertedBy(v, i, q);
      } else {
        assert InsertedBy(v, i, p);
      }
    }
    forall q, r | SamePlace(v, q, r) ensures q == r {
      assert CallOk(w, n, q) && CallOk(w, n, r);
      if q != p && r != p {
        assert SamePlace(w, q, r);
      }
    }
  }

  lemma {:induction false} RunKeepsInv(w: World, n: nat, schedule: seq<nat>)
    requires RaceInv(w, n)
    ensures RaceInv(Run(w, schedule), n)
    decreases |schedule|
  {
    if schedule != [] {
      var p := schedule[0];
      if p < |w.calls| && w.calls[p].phase.Waiting? {
        CheckKeepsInv(w, n, p);
      } else if p < |w.calls| && w.calls[p].phase.Checked? {
        InsertKeepsInv(w, n, p);
      }
      RunKeepsInv(Step(w, p), n, schedule[1..]);
    }
  }

  // ---------- the exact condition ----------

  // Requests of one customer for overlapping ranges of one resource.
  ghost predicate Rivals(a: Call, b: Call) {
    a.actor == b.actor && a.resource == b.resource && a.start < b.end && b.start < a.end
  }

  // Both succeed, and each had read before the other committed.
  ghost predicate BothTaken(w: World, p: int, q: int) {
    && 0 <= p < |w.calls| && 0 <= q < |w.calls| && p != q && Rivals(w.calls[p], w.calls[q])
    && w.calls[p].phase.Taken? && w.calls[q].phase.Taken?
    && w.calls[p].phase.readAt <= w.calls[q].phase.doneAt && w.calls[q].phase.readAt <= w.calls[p].phase.doneAt
  }

  ghost predicate Collide(rows: seq<BookingData>, i: int, j: int) {
    0 <= i < |rows| && 0 <= j < |rows| && SameHolder(rows[i], rows[j]) && Overlaps(rows[i].slot, rows[j].slot)
  }

  // Rivals that both succeed have each read before the other committed.
  lemma TakenRivalsCross(w: World, n: nat, p: nat, q: nat)
    requires RaceInv(w, n) && p < |w.calls| && q < |w.calls| && p != q && Rivals(w.calls[p], w.calls[q])
    requires w.calls[p].phase.Taken? && w.calls[q].phase.Taken?
    ensures BothTaken(w, p, q)
    ensures w.calls[p].phase.doneAt != w.calls[q].phase.doneAt
    ensures Collide(w.store.rows, w.calls[p].phase.doneAt, w.calls[q].phase.doneAt)
    ensures Collide(w.store.rows, w.calls[q].phase.doneAt, w.calls[p].phase.doneAt)
  {
    assert CallOk(w, n, p) && CallOk(w, n, q);
    assert !SamePlace(w, p, q);
    var i, j := w.calls[p].phase.doneAt, w.calls[q].phase.doneAt;
    assert Collide(w.store.rows, i, j) && Collide(w.store.rows, j, i);
  }

  lemma CollidersAreTakenRivals(w: World, n: nat, i: nat, j: nat) returns (p: int, q: int)
    requires RaceInv(w, n) && i < j < |w.store.rows| && Collide(w.store.rows, i, j)
    ensures BothTaken(w, p, q)
  {
    if j < n {
      assert false;
    }
    assert Inserted(w, j);
    q :| InsertedBy(w, j, q);
    assert CallOk(w, n, q);
    if i < n {
      assert false;
    }
    assert Inserted(w, i);
    p :| InsertedBy(w, i, p);
    assert CallOk(w, n, p);
    TakenRivalsCross(w, n, p, q);
  }

  // After any schedule of any requests, the active bookings of each customer on each resource are
  // pairwise disjoint exactly when no two rival requests have both succeeded after reading before the
  // other committed.
  lemma DisjointExactly(w: World, schedule: seq<nat>)
    requires Fresh(w)
    ensures CustomersDisjoint(Run(w, schedule).store.rows)
       <==> !exists p, q :: BothTaken(Run(w, schedule), p, q)
  {
    var n, v := |w.store.rows|, Run(w, schedule);
    FreshIsInv(w);
    RunKeepsInv(w, n, schedule);
    if p, q :| BothTaken(v, p, q) {
      TakenRivalsCross(v, n, p, q);
      var i, j := v.calls[p].phase.doneAt, v.calls[q].phase.doneAt;
      assert CallOk(v, n, p) && CallOk(v, n, q);
      assert Collide(v.store.rows, if i < j then i else j, if i < j then j else i);
    }
    if !CustomersDisjoint(v.store.rows) {
      var i, j :| 0 <= i < j < |v.store.rows| && SameHolder(v.store.rows[i], v.store.rows[j])
               && Overlaps(v.store.rows[i].slot, v.store.rows[j].slot);
      assert Collide(v.store.rows, i, j);
      var p, q := CollidersAreTakenRivals(v, n, i, j);
      assert BothTaken(v, p, q);
    }
  }

  lemma FreshIsInv(w: World)
    requires Fresh(w)
    ensures RaceInv(w, |w.store.rows|)
  {
    assert w.store.rows[..|w.store.rows|] == w.store.rows;
  }

  // ---------- when it happens ----------

  // A call that is not interrupted between its two steps is the atomic Request.
  lemma UninterruptedIsAtomic(w: World, p: nat)
    requires p < |w.calls| && w.calls[p].phase.Waiting?
    ensures Run(w, [p, p]).store == Next(w.store, w.calls[p].Cmd())
  {
    var v := Step(w, p);
    assert [p, p][1..] == [p] && [p][1..] == [];
    assert Run(v, [p]) == Step(v, p);
  }

  // What the first step does to a call that would be taken alone, and to nothing else.
  lemma CheckTurn(w: World, p: nat)
    requires p < |w.calls| && w.calls[p].phase.Waiting? && RequestOutcome(w.store, w.calls[p].Cmd()).Inserts?
    ensures var o := RequestOutcome(w.store, w.calls[p].Cmd());
            Step(w, p) == To(w, p, Checked(o.row, o.notices, |w.store.rows|))
    ensures RequestOutcome(w.store, w.calls[p].Cmd()).row.id == w.calls[p].newId
    ensures Find(w.store.rows, w.calls[p].newId) == None
  {
  }

  // The insert asks no more than whether the id is free.
  lemma InsertTurn(w: World, p: nat)
    requires p < |w.calls| && w.calls[p].phase.Checked? && Find(w.store.rows, w.calls[p].phase.row.id) == None
    ensures var v, ph := Step(w, p), w.calls[p].phase;
            && v.store.rows == w.store.rows + [ph.row]
            && v.calls == w.calls[p := w.calls[p].(phase := Taken(ph.readAt, |w.store.rows|))]
  {
  }

  lemma FourSteps(w: World, p: nat, q: nat)
    ensures Run(w, [p, q, p, q]) == Step(Step(Step(Step(w, p), q), p), q)
  {
    var c := Step(Step(Step(w, p), q), p);
    assert [p, q, p, q][1..] == [q, p, q] && [q, p, q][1..] == [p, q] && [p, q][1..] == [q] && [q][1..] == [];
    assert Run(c, [q]) == Step(c, q);
    assert Run(Step(Step(w, p), q), [p, q]) == Run(c, [q]);
    assert Run(Step(w, p), [q, p, q]) == Run(c, [q]);
  }

  // Two rivals that each would be taken alone are both taken when both read before either commits.
  lemma BothReadBothTaken(w: World, p: nat, q: nat)
    requires Fresh(w) && p < |w.calls| && q < |w.calls| && p != q && Rivals(w.calls[p], w.calls[q])
    requires RequestOutcome(w.store, w.calls[p].Cmd()).Inserts? && RequestOutcome(w.store, w.calls[q].Cmd()).Inserts?
    requires w.calls[p].newId != w.calls[q].newId
    ensures BothTaken(Run(w, [p, q, p, q]), p, q)
    ensures !CustomersDisjoint(Run(w, [p, q, p, q]).store.rows)
  {
    FourSteps(w, p, q);
    var b := BothChecked(w, p, q);
    BothInserted(b, p, q);
    DisjointExactly(w, [p, q, p, q]);
  }

  lemma BothChecked(w: World, p: nat, q: nat) returns (b: World)
    requires p < |w.calls| && q < |w.calls| && p != q && w.calls[p].phase.Waiting? && w.calls[q].phase.Waiting?
    requires RequestOutcome(w.store, w.calls[p].Cmd()).Inserts? && RequestOutcome(w.store, w.calls[q].Cmd()).Inserts?
    ensures b == Step(Step(w, p), q) && b.store == w.store && |b.calls| == |w.calls|
    ensures b.calls[p].phase.Checked? && b.calls[q].phase.Checked?
    ensures b.calls[p] == w.calls[p].(phase := b.calls[p].phase) && b.calls[q] == w.calls[q].(phase := b.calls[q].phase)
    ensures b.calls[p].phase.readAt == b.calls[q].phase.readAt == |w.store.rows|
    ensures b.calls[p].phase.row.id == w.calls[p].newId && b.calls[q].phase.row.id == w.calls[q].newId
    ensures Find(w.store.rows, w.calls[p].newId) == None && Find(w.store.rows, w.calls[q].newId) == None
  {
    CheckTurn(w, p);
    CheckTurn(w, q);
    var a := Step(w, p);
    assert a.store == w.store && a.calls[q] == w.calls[q];
    CheckTurn(a, q);
    b := Step(a, q);
  }

  lemma BothInserted(b: World, p: nat, q: nat)
    requires p < |b.calls| && q < |b.calls| && p != q && Rivals(b.calls[p], b.calls[q])
    requires b.calls[p].phase.Checked? && b.calls[q].phase.Checked?
    requires b.calls[p].phase.readAt == b.calls[q].phase.readAt == |b.store.rows|
    requires b.calls[p].phase.row.id != b.calls[q].phase.row.id
    requires Find(b.store.rows, b.calls[p].phase.row.id) == None && Find(b.store.rows, b.calls[q].phase.row.id) == None
    ensures BothTaken(Step(Step(b, p), q), p, q)
  {
    InsertTurn(b, p);
    IdStaysFree(b.store.rows, b.calls[p].phase.row, b.calls[q].phase.row.id);
    InsertTurn(Step(b, p), q);
  }

  lemma IdStaysFree(rows: seq<BookingData>, row: BookingData, id: int)
    requires Find(rows, id) == None && row.id != id
    ensures Find(rows + [row], id) == None
  {
    assert forall i :: 0 <= i < |rows| ==> (rows + [row])[i] == rows[i];
  }
}
