/** Concurrent Approve calls, interleaved at four points: load, lock, re-read and write, commit.

    A transaction sees committed rows only, and its own writes reach the store at commit. */
module ApproveRace {
  import opened Bookings
  import opened Protocol

  /** Where the lock is released: with the transaction, or at the end of the locked block. */
  datatype Lock = HeldToCommit | HeldInBlock

  datatype Phase =
    | Started
    | Loaded(resource: int)
    | Holding(resource: int)
    | Written(resource: int, writes: map<nat, BookingData>, notices: seq<Notice>)
    | Done
    | Failed(failure: Failure)

  datatype Call = Call(actor: int, booking: int, now: int, operational: bool, phase: Phase)
  {
    function Cmd(): (cmd: Command)
      ensures cmd.Approve?
    {
      Approve(actor, booking, now, operational)
    }
  }

  /** Committed store, the calls in flight, and which call holds each lock. */
  datatype World = World(store: Store, calls: seq<Call>, locks: map<int, nat>)

  // ---------- one scheduled step of one call ----------

  function Touches(t: BookingData, b: BookingData): bool {
    b.id == t.id || Matches(PendingOverlapping(t.resource, t.slot, t.id), b)
  }

  // The rows a transaction has changed but not yet committed, by position.
  function WritesOf(rows: seq<BookingData>, t: BookingData, c: Call): map<nat, BookingData> {
    map i: nat | i < |rows| && Touches(t, rows[i]) :: RowAfter(ApproveOne(t, c.actor, c.now), rows[i])
  }

  function NoticesOf(rows: seq<BookingData>, t: BookingData): seq<Notice> {
    [Notice(t.customer, BookingApproved)]
    + NoticesTo(List(rows, PendingOverlapping(t.resource, t.slot, t.id)), BookingRejected)
  }

  function Merge(rows: seq<BookingData>, writes: map<nat, BookingData>): seq<BookingData> {
    seq(|rows|, i requires 0 <= i < |rows| => if i in writes then writes[i] else rows[i])
  }

  function To(w: World, p: nat, phase: Phase): World
    requires p < |w.calls|
  {
    w.(calls := w.calls[p := w.calls[p].(phase := phase)])
  }

  function Release(w: World, k: int): World {
    w.(locks := w.locks - {k})
  }

  function Load(w: World, p: nat): World
    requires p < |w.calls|
  {
    var c, st := w.calls[p], w.store;
    match Find(st.rows, c.booking)
    case None => To(w, p, Failed(BookingNotFound))
    case Some(i) =>
      var rid := st.rows[i].resource;
      if !Owns(st, c.actor, rid) then To(w, p, Failed(BookingNotFound))
      else if !c.operational then To(w, p, Failed(OwnerSubscriptionInactive))
      else To(w, p, Loaded(rid))
  }

  function Acquire(w: World, p: nat, k: int): World
    requires p < |w.calls| && w.calls[p].phase.Loaded?
  {
    if k in w.locks then w
    else To(w, p, Holding(w.calls[p].phase.resource)).(locks := w.locks[k := p])
  }

  function ReadAndWrite(lock: Lock, w: World, p: nat, k: int): World
    requires p < |w.calls| && w.calls[p].phase.Holding?
  {
    var c, st := w.calls[p], w.store;
    match Find(st.rows, c.booking)
    case None => Release(To(w, p, Failed(BookingInvalidStateTransition)), k)
    case Some(i) =>
      var t := st.rows[i];
      if !t.status.Pending? then Release(To(w, p, Failed(BookingInvalidStateTransition)), k)
      else if st.constrained && Blocked(st.rows, t) then Release(To(w, p, Failed(ApprovedOverlapConstraint)), k)
      else
        var next := To(w, p, Written(c.phase.resource, WritesOf(st.rows, t, c), NoticesOf(st.rows, t)));
        if lock.HeldInBlock? then Release(next, k) else next
  }

  function CommitCall(lock: Lock, w: World, p: nat, k: int): World
    requires p < |w.calls| && w.calls[p].phase.Written?
  {
    var ph := w.calls[p].phase;
    var next := To(w, p, Done).(
      store := w.store.(rows := Merge(w.store.rows, ph.writes), log := w.store.log + ph.notices));
    if lock.HeldToCommit? then Release(next, k) else next
  }

  // key maps a resource to its lock; distinct resources may share one.
  function Step(lock: Lock, key: int -> int, w: World, p: nat): World {
    if p >= |w.calls| then w
    else match w.calls[p].phase
      case Started => Load(w, p)
      case Loaded(rid) => Acquire(w, p, key(rid))
      case Holding(rid) => ReadAndWrite(lock, w, p, key(rid))
      case Written(rid, _, _) => CommitCall(lock, w, p, key(rid))
      case Done => w
      case Failed(_) => w
  }

  ghost function Run(lock: Lock, key: int -> int, w: World, schedule: seq<nat>): World
    decreases |schedule|
  {
    if schedule == [] then w else Run(lock, key, Step(lock, key, w, schedule[0]), schedule[1..])
  }

  ghost predicate Fresh(w: World) {
    UniqueIds(w.store.rows) && w.locks == map[] && forall p :: 0 <= p < |w.calls| ==> w.calls[p].phase == Started
  }

  // ---------- the invariant of a lock held to commit ----------

  ghost predicate Holds(key: int -> int, w: World, p: nat)
    requires p < |w.calls|
  {
    var ph := w.calls[p].phase;
    ph.Holding? || ph.Written? ==> key(ph.resource) in w.locks && w.locks[key(ph.resource)] == p
  }

  // The gates passed at load still stand: resources, owners and ids never change here.
  ghost predicate Gated(w: World, p: nat)
    requires p < |w.calls|
  {
    var c := w.calls[p];
    c.phase.Loaded? || c.phase.Holding? || c.phase.Written? ==>
      && c.operational
      && Find(w.store.rows, c.booking).Some?
      && w.store.rows[Find(w.store.rows, c.booking).value].resource == c.phase.resource
      && Owns(w.store, c.actor, c.phase.resource)
  }

  // What a call has written is what it would write if it read the committed rows now.
  ghost predicate UpToDate(w: World, p: nat)
    requires p < |w.calls|
  {
    var c, rows := w.calls[p], w.store.rows;
    c.phase.Written? ==>
      && Find(rows, c.booking).Some?
      && var t := rows[Find(rows, c.booking).value];
         && t.status.Pending?
         && !(w.store.constrained && Blocked(rows, t))
         && c.phase.writes == WritesOf(rows, t, c)
         && c.phase.notices == NoticesOf(rows, t)
  }

  ghost predicate RaceInv(key: int -> int, w: World) {
    && UniqueIds(w.store.rows)
    && (forall p :: 0 <= p < |w.calls| ==> Holds(key, w, p) && Gated(w, p) && UpToDate(w, p))
    && (forall k :: k in w.locks ==> HeldBy(key, w, k))
  }

  ghost predicate HeldBy(key: int -> int, w: World, k: int)
    requires k in w.locks
  {
    && w.locks[k] < |w.calls|
    && var ph := w.calls[w.locks[k]].phase; (ph.Holding? || ph.Written?) && key(ph.resource) == k
  }

  // ---------- a commit is one atomic Approve ----------

  lemma MergeIsApply(rows: seq<BookingData>, t: BookingData, c: Call)
    ensures Merge(rows, WritesOf(rows, t, c)) == Apply(ApproveOne(t, c.actor, c.now), rows)
  {
    var ch := ApproveOne(t, c.actor, c.now);
    forall i | 0 <= i < |rows| && !Touches(t, rows[i]) ensures RowAfter(ch, rows[i]) == rows[i] {
    }
  }

  // Under either lock: the commit of a call whose writes are up to date.
  lemma CommitIsAtomic(lock: Lock, key: int -> int, w: World, p: nat)
    requires p < |w.calls| && w.calls[p].phase.Written? && Gated(w, p) && UpToDate(w, p)
    ensures Step(lock, key, w, p).store == Next(w.store, w.calls[p].Cmd())
    ensures OutcomeOf(w.store, w.calls[p].Cmd()).Changes?
  {
    var c := w.calls[p];
    MergeIsApply(w.store.rows, w.store.rows[Find(w.store.rows, c.booking).value], c);
  }

  lemma CommitIsAtomicApprove(key: int -> int, w: World, p: nat)
    requires RaceInv(key, w) && p < |w.calls| && w.calls[p].phase.Written?
    ensures Step(HeldToCommit, key, w, p).store == Next(w.store, w.calls[p].Cmd())
    ensures OutcomeOf(w.store, w.calls[p].Cmd()).Changes?
  {
    CommitIsAtomic(HeldToCommit, key, w, p);
  }

  // A step that fails a call fails it with what the atomic approval would answer at that moment.
  lemma FailuresAreAtomic(lock: Lock, key: int -> int, w: World, p: nat)
    requires p < |w.calls| && Gated(w, p) && !w.calls[p].phase.Failed?
    ensures var v := Step(lock, key, w, p);
            && p < |v.calls|
            && (v.calls[p].phase.Failed? ==> OutcomeOf(w.store, w.calls[p].Cmd()) == Refused(v.calls[p].phase.failure))
  {
  }

  // Two stores that agree on the rows of one resource, row by row.
  ghost predicate AgreeOn(rid: int, rows: seq<BookingData>, later: seq<BookingData>) {
    && |rows| == |later|
    && forall i :: 0 <= i < |rows| ==>
         SameBooking(rows[i], later[i]) && (rows[i].resource == rid ==> rows[i] == later[i])
  }

  lemma {:induction false} AgreeOnList(rid: int, rows: seq<BookingData>, later: seq<BookingData>, q: Query)
    requires AgreeOn(rid, rows, later) && q.PendingOverlapping? && q.resource == rid
    ensures List(rows, q) == List(later, q)
  {
    if rows != [] {
      AgreeOnList(rid, rows[1..], later[1..], q);
    }
  }

  lemma {:induction false} AgreeOnFind(rid: int, rows: seq<BookingData>, later: seq<BookingData>, id: int)
    requires AgreeOn(rid, rows, later)
    ensures Find(rows, id) == Find(later, id)
  {
    if rows != [] {
      AgreeOnFind(rid, rows[1..], later[1..], id);
    }
  }

  lemma AgreeOnWrites(rid: int, rows: seq<BookingData>, later: seq<BookingData>, t: BookingData, c: Call)
    requires AgreeOn(rid, rows, later) && t in rows && t.resource == rid && UniqueIds(rows)
    ensures WritesOf(rows, t, c) == WritesOf(later, t, c)
    ensures NoticesOf(rows, t) == NoticesOf(later, t)
    ensures Blocked(rows, t) <==> Blocked(later, t)
  {
    AgreeOnList(rid, rows, later, PendingOverlapping(t.resource, t.slot, t.id));
    forall i | 0 <= i < |rows| && (Touches(t, rows[i]) || Touches(t, later[i])) ensures rows[i] == later[i] {
    }
    forall i | 0 <= i < |rows| ensures BlocksApproval(t, rows[i]) <==> BlocksApproval(t, later[i]) {
    }
    if Blocked(rows, t) {
      var i :| 0 <= i < |rows| && BlocksApproval(t, rows[i]);
      assert later[i] in later;
    }
    if Blocked(later, t) {
      var i :| 0 <= i < |later| && BlocksApproval(t, later[i]);
      assert rows[i] in rows;
    }
  }

  // An approval changes rows of its own resource only.
  lemma ApprovalStaysInResource(rid: int, rows: seq<BookingData>, t: BookingData, c: Call)
    requires UniqueIds(rows) && t in rows && t.resource != rid
    ensures AgreeOn(rid, rows, Apply(ApproveOne(t, c.actor, c.now), rows))
    ensures UniqueIds(Apply(ApproveOne(t, c.actor, c.now), rows))
  {
    var ch := ApproveOne(t, c.actor, c.now);
    ApplyKeepsRowFacts(ch, rows);
    forall i | 0 <= i < |rows| && rows[i].resource == rid ensures RowAfter(ch, rows[i]) == rows[i] {
    }
  }

  lemma ApprovalSettlesAll(rows: seq<BookingData>, t: BookingData, c: Call)
    requires UniqueIds(rows) && t in rows && t.id == c.booking && t.status.Pending?
    ensures var later := Apply(ApproveOne(t, c.actor, c.now), rows);
            && AgreeOn(t.resource + 1, rows, later)
            && (forall i :: 0 <= i < |rows| && rows[i].status.Approved? ==> later[i] == rows[i])
            && (forall i :: 0 <= i < |rows| && later[i].status.Pending? ==> rows[i] == later[i] && !Touches(t, rows[i]))
            && (forall i :: 0 <= i < |rows| && rows[i].id == c.booking ==> later[i].status.Approved?)
            && (forall i :: 0 <= i < |rows| && later[i].status.Approved? ==> rows[i].status.Approved? || rows[i] == t)
            && UniqueIds(later)
  {
    var ch := ApproveOne(t, c.actor, c.now);
    ApprovalStaysInResource(t.resource + 1, rows, t, c);
    forall i | 0 <= i < |rows|
      ensures rows[i].status.Approved? ==> RowAfter(ch, rows[i]) == rows[i]
      ensures RowAfter(ch, rows[i]).status.Pending? ==> rows[i] == RowAfter(ch, rows[i]) && !Touches(t, rows[i])
      ensures rows[i].id == c.booking ==> RowAfter(ch, rows[i]).status.Approved?
      ensures RowAfter(ch, rows[i]).status.Approved? ==> rows[i].status.Approved? || rows[i] == t
    {
      RowFollows(ch, rows[i]);
    }
  }

  // ---------- every step keeps the invariant ----------

  // A call that neither commits nor holds a lock in another's way leaves the others' facts alone.
  lemma OthersKeep(key: int -> int, w: World, v: World, p: nat, q: nat)
    requires RaceInv(key, w) && p < |w.calls| && q < |w.calls| && p != q
    requires |v.calls| == |w.calls| && v.calls[q] == w.calls[q] && v.store == w.store
    requires forall k :: k in w.locks && w.locks[k] != p ==> k in v.locks && v.locks[k] == w.locks[k]
    ensures Holds(key, v, q) && Gated(v, q) && UpToDate(v, q)
  {
    assert Holds(key, w, q) && Gated(w, q) && UpToDate(w, q);
    var ph := w.calls[q].phase;
    if ph.Holding? || ph.Written? {
      assert key(ph.resource) in w.locks && w.locks[key(ph.resource)] == q;
    }
  }

  // Enough for a step of call p that leaves the store alone.
  lemma OnlyCallChanges(key: int -> int, w: World, v: World, p: nat)
    requires RaceInv(key, w) && p < |w.calls| && v.store == w.store
    requires |v.calls| == |w.calls| && forall q :: 0 <= q < |w.calls| && q != p ==> v.calls[q] == w.calls[q]
    requires forall k :: k in w.locks && w.locks[k] != p ==> k in v.locks && v.locks[k] == w.locks[k]
    requires forall k :: k in v.locks && v.locks[k] != p ==> k in w.locks && v.locks[k] == w.locks[k]
    requires forall k :: k in v.locks && v.locks[k] == p ==> HeldBy(key, v, k)
    requires Holds(key, v, p) && Gated(v, p) && UpToDate(v, p)
    ensures RaceInv(key, v)
  {
    forall q | 0 <= q < |v.calls| ensures Holds(key, v, q) && Gated(v, q) && UpToDate(v, q) {
      if q != p {
        OthersKeep(key, w, v, p, q);
      }
    }
    forall k | k in v.locks ensures HeldBy(key, v, k) {
      if v.locks[k] != p {
        assert HeldBy(key, w, k);
      }
    }
  }

  lemma LoadKeepsInv(key: int -> int, w: World, p: nat)
    requires RaceInv(key, w) && p < |w.calls| && w.calls[p].phase.Started?
    ensures RaceInv(key, Load(w, p)) && Load(w, p).store == w.store
  {
    forall k | k in w.locks ensures w.locks[k] != p {
      assert HeldBy(key, w, k);
    }
    OnlyCallChanges(key, w, Load(w, p), p);
  }

  lemma AcquireKeepsInv(key: int -> int, w: World, p: nat)
    requires RaceInv(key, w) && p < |w.calls| && w.calls[p].phase.Loaded?
    ensures var v := Acquire(w, p, key(w.calls[p].phase.resource)); RaceInv(key, v) && v.store == w.store
  {
    var k0 := key(w.calls[p].phase.resource);
    if k0 !in w.locks {
      assert Gated(w, p);
      forall k | k in w.locks && w.locks[k] == p ensures k == k0 {
        assert HeldBy(key, w, k);
      }
      OnlyCallChanges(key, w, Acquire(w, p, k0), p);
    }
  }

  lemma ReadAndWriteKeepsInv(key: int -> int, w: World, p: nat)
    requires RaceInv(key, w) && p < |w.calls| && w.calls[p].phase.Holding?
    ensures var v := ReadAndWrite(HeldToCommit, w, p, key(w.calls[p].phase.resource));
            RaceInv(key, v) && v.store == w.store
  {
    var k0 := key(w.calls[p].phase.resource);
    assert Holds(key, w, p) && Gated(w, p);
    forall k | k in w.locks && w.locks[k] == p ensures k == k0 {
      assert HeldBy(key, w, k);
    }
    OnlyCallChanges(key, w, ReadAndWrite(HeldToCommit, w, p, k0), p);
  }

  lemma QuietStepKeepsInv(key: int -> int, w: World, p: nat)
    requires RaceInv(key, w) && p < |w.calls| && !w.calls[p].phase.Written?
    ensures RaceInv(key, Step(HeldToCommit, key, w, p))
    ensures Step(HeldToCommit, key, w, p).store == w.store
  {
    match w.calls[p].phase
    case Started => LoadKeepsInv(key, w, p);
    case Loaded(_) => AcquireKeepsInv(key, w, p);
    case Holding(_) => ReadAndWriteKeepsInv(key, w, p);
    case _ =>
  }

  lemma CommitKeepsInv(key: int -> int, w: World, p: nat)
    requires RaceInv(key, w) && p < |w.calls| && w.calls[p].phase.Written?
    ensures RaceInv(key, Step(HeldToCommit, key, w, p))
  {
    var v, c := Step(HeldToCommit, key, w, p), w.calls[p];
    var rows := w.store.rows;
    assert Holds(key, w, p) && Gated(w, p) && UpToDate(w, p);
    var t := rows[Find(rows, c.booking).value];
    MergeIsApply(rows, t, c);
    ApprovalStaysInResource(t.resource + 1, rows, t, c);
    forall q | 0 <= q < |v.calls| ensures Holds(key, v, q) && Gated(v, q) && UpToDate(v, q) {
      if q != p {
        CommitSparesOthers(key, w, p, q);
      }
    }
    forall k | k in v.locks ensures HeldBy(key, v, k) {
      assert HeldBy(key, w, k);
    }
  }

  // The rows after a commit: those of other resources are untouched, and no identity moves.
  lemma CommitEffect(key: int -> int, w: World, p: nat)
    requires RaceInv(key, w) && p < |w.calls| && w.calls[p].phase.Written?
    ensures var v, rid := Step(HeldToCommit, key, w, p), w.calls[p].phase.resource;
            && AgreeOn(rid + 1, w.store.rows, v.store.rows)
            && (forall other :: other != rid ==> AgreeOn(other, w.store.rows, v.store.rows))
            && v.store == w.store.(rows := v.store.rows, log := v.store.log)
            && v.calls == w.calls[p := w.calls[p].(phase := Done)]
            && v.locks == w.locks - {key(rid)}
  {
    var c, rows := w.calls[p], w.store.rows;
    assert Gated(w, p) && UpToDate(w, p);
    var t := rows[Find(rows, c.booking).value];
    MergeIsApply(rows, t, c);
    forall other | other != t.resource ensures AgreeOn(other, rows, Apply(ApproveOne(t, c.actor, c.now), rows)) {
      ApprovalStaysInResource(other, rows, t, c);
    }
  }

  lemma CommitSparesOthers(key: int -> int, w: World, p: nat, q: nat)
    requires RaceInv(key, w) && p < |w.calls| && q < |w.calls| && p != q && w.calls[p].phase.Written?
    ensures var v := Step(HeldToCommit, key, w, p); Holds(key, v, q) && Gated(v, q) && UpToDate(v, q)
  {
    var v, c, d := Step(HeldToCommit, key, w, p), w.calls[p], w.calls[q];
    var rows := w.store.rows;
    CommitEffect(key, w, p);
    assert Holds(key, w, p) && Holds(key, w, q) && Gated(w, q) && UpToDate(w, q);
    AgreeOnFind(c.phase.resource + 1, rows, v.store.rows, d.booking);
    if d.phase.Written? {
      assert key(d.phase.resource) != key(c.phase.resource);
      AgreeOnWrites(d.phase.resource, rows, v.store.rows, rows[Find(rows, d.booking).value], d);
    }
  }

  lemma StepKeepsRaceInv(key: int -> int, w: World, p: nat)
    requires RaceInv(key, w)
    ensures RaceInv(key, Step(HeldToCommit, key, w, p))
  {
    if p < |w.calls| {
      if w.calls[p].phase.Written? {
        CommitKeepsInv(key, w, p);
      } else {
        QuietStepKeepsInv(key, w, p);
      }
    }
  }

  // ---------- refinement: every interleaving is a serial run ----------

  // The commands of the calls that commit, in the order in which they commit.
  ghost function Serial(lock: Lock, key: int -> int, w: World, schedule: seq<nat>): seq<Command>
    decreases |schedule|
  {
    if schedule == [] then []
    else
      var p := schedule[0];
      (if p < |w.calls| && w.calls[p].phase.Written? then [w.calls[p].Cmd()] else [])
      + Serial(lock, key, Step(lock, key, w, p), schedule[1..])
  }

  // However the calls interleave, the committed store is what the atomic protocol reaches by running
  // those Approve commands one after the other.
  lemma {:induction false} RaceRefinesProtocol(key: int -> int, w: World, schedule: seq<nat>)
    requires RaceInv(key, w)
    ensures Run(HeldToCommit, key, w, schedule).store == Exec(w.store, Serial(HeldToCommit, key, w, schedule))
    ensures RaceInv(key, Run(HeldToCommit, key, w, schedule))
    decreases |schedule|
  {
    if schedule != [] {
      var p := schedule[0];
      var v := Step(HeldToCommit, key, w, p);
      StepKeepsRaceInv(key, w, p);
      RaceRefinesProtocol(key, v, schedule[1..]);
      if p < |w.calls| && w.calls[p].phase.Written? {
        CommitIsAtomicApprove(key, w, p);
        var rest := Serial(HeldToCommit, key, v, schedule[1..]);
        assert ([w.calls[p].Cmd()] + rest)[1..] == rest;
      } else {
        assert [] + Serial(HeldToCommit, key, v, schedule[1..]) == Serial(HeldToCommit, key, v, schedule[1..]);
        if p < |w.calls| {
          QuietStepKeepsInv(key, w, p);
        }
      }
    }
  }

  lemma FreshIsInv(key: int -> int, w: World)
    requires Fresh(w)
    ensures RaceInv(key, w)
  {
  }
}
