/** A lock released at the end of its block, before the transaction commits: which schedules are safe
    under it, and how the others fail. */
module BlockLock {
  import opened Calendar
  import opened Bookings
  import opened Protocol
  import opened ApproveRace
  import opened RaceOutcomes

  // ---------- schedules that are safe ----------

  // The call re-reads while another call with the same lock has written and not committed.
  ghost predicate Intrudes(key: int -> int, w: World, p: nat) {
    p < |w.calls| && w.calls[p].phase.Holding? && exists q :: 0 <= q < |w.calls| && WritesUnder(key, w, p, q)
  }

  ghost predicate WritesUnder(key: int -> int, w: World, p: nat, q: nat)
    requires p < |w.calls| && q < |w.calls| && w.calls[p].phase.Holding?
  {
    w.calls[q].phase.Written? && key(w.calls[q].phase.resource) == key(w.calls[p].phase.resource)
  }

  // No call of the schedule re-reads between another's write and its commit under the same lock.
  ghost predicate Polite(key: int -> int, w: World, schedule: seq<nat>)
    decreases |schedule|
  {
    schedule == []
    || (!Intrudes(key, w, schedule[0]) && Polite(key, Step(HeldInBlock, key, w, schedule[0]), schedule[1..]))
  }

  // What the lock gives for the whole transaction, the schedule gives here: one writer for each lock.
  ghost predicate WriterInv(key: int -> int, w: World) {
    && UniqueIds(w.store.rows)
    && (forall p :: 0 <= p < |w.calls| ==> Gated(w, p) && UpToDate(w, p))
    && forall p, q :: 0 <= p < |w.calls| && 0 <= q < |w.calls| && p != q ==> WritersApart(key, w, p, q)
  }

  ghost predicate WritersApart(key: int -> int, w: World, p: nat, q: nat)
    requires p < |w.calls| && q < |w.calls|
  {
    w.calls[p].phase.Written? && w.calls[q].phase.Written? ==>
      key(w.calls[p].phase.resource) != key(w.calls[q].phase.resource)
  }

  lemma SameStoreSameFacts(w: World, v: World, q: nat)
    requires q < |w.calls| && q < |v.calls| && v.calls[q] == w.calls[q] && v.store == w.store
    requires Gated(w, q) && UpToDate(w, q)
    ensures Gated(v, q) && UpToDate(v, q)
  {
  }

  // A step that commits nothing.
  lemma QuietShape(key: int -> int, w: World, p: nat)
    requires p < |w.calls| && !w.calls[p].phase.Written?
    ensures var v := Step(HeldInBlock, key, w, p);
            && v.store == w.store && |v.calls| == |w.calls|
            && forall q :: 0 <= q < |w.calls| && q != p ==> v.calls[q] == w.calls[q]
  {
  }

  lemma OwnStepKeepsFacts(key: int -> int, w: World, p: nat)
    requires p < |w.calls| && !w.calls[p].phase.Written? && Gated(w, p) && UpToDate(w, p)
    ensures var v := Step(HeldInBlock, key, w, p);
            && |v.calls| == |w.calls| && Gated(v, p) && UpToDate(v, p)
            && (v.calls[p].phase.Written? ==>
                w.calls[p].phase.Holding? && v.calls[p].phase.resource == w.calls[p].phase.resource)
  {
  }

  lemma QuietStepKeepsWriters(key: int -> int, w: World, p: nat)
    requires WriterInv(key, w) && p < |w.calls| && !w.calls[p].phase.Written? && !Intrudes(key, w, p)
    ensures WriterInv(key, Step(HeldInBlock, key, w, p)) && Step(HeldInBlock, key, w, p).store == w.store
  {
    var v := Step(HeldInBlock, key, w, p);
    QuietShape(key, w, p);
    OwnStepKeepsFacts(key, w, p);
    forall q | 0 <= q < |v.calls| ensures Gated(v, q) && UpToDate(v, q) {
      if q != p {
        SameStoreSameFacts(w, v, q);
      }
    }
    forall q | 0 <= q < |v.calls| && q != p ensures WritersApart(key, v, p, q) && WritersApart(key, v, q, p) {
      if v.calls[p].phase.Written? {
        assert !WritesUnder(key, w, p, q);
      }
    }
    forall q, r | 0 <= q < |v.calls| && 0 <= r < |v.calls| && q != r && q != p && r != p
      ensures WritersApart(key, v, q, r)
    {
      assert WritersApart(key, w, q, r);
    }
  }

  lemma CommitSparesOther(rows: seq<BookingData>, t: BookingData, c: Call, w: World, v: World, q: nat)
    requires UniqueIds(rows) && w.store.rows == rows && t in rows && q < |w.calls| == |v.calls|
    requires v.store == w.store.(rows := Apply(ApproveOne(t, c.actor, c.now), rows), log := v.store.log)
    requires v.calls[q] == w.calls[q] && Gated(w, q) && UpToDate(w, q)
    requires w.calls[q].phase.Written? ==> w.calls[q].phase.resource != t.resource
    ensures Gated(v, q) && UpToDate(v, q)
  {
    var d := w.calls[q];
    ApprovalStaysInResource(t.resource + 1, rows, t, c);
    AgreeOnFind(t.resource + 1, rows, v.store.rows, d.booking);
    if d.phase.Written? {
      ApprovalStaysInResource(d.phase.resource, rows, t, c);
      AgreeOnWrites(d.phase.resource, rows, v.store.rows, rows[Find(rows, d.booking).value], d);
    }
  }

  lemma CommitKeepsWriters(key: int -> int, w: World, p: nat)
    requires WriterInv(key, w) && p < |w.calls| && w.calls[p].phase.Written?
    ensures WriterInv(key, Step(HeldInBlock, key, w, p))
  {
    var v, c, rows := Step(HeldInBlock, key, w, p), w.calls[p], w.store.rows;
    assert Gated(w, p) && UpToDate(w, p);
    var t := rows[Find(rows, c.booking).value];
    CommitShape(key, w, p);
    assert UniqueIds(v.store.rows) by {
      ApplyKeepsRowFacts(ApproveOne(t, c.actor, c.now), rows);
    }
    forall q | 0 <= q < |v.calls| ensures Gated(v, q) && UpToDate(v, q) {
      if q != p {
        assert WritersApart(key, w, p, q);
        CommitSparesOther(rows, t, c, w, v, q);
      }
    }
    forall q, r | 0 <= q < |v.calls| && 0 <= r < |v.calls| && q != r ensures WritersApart(key, v, q, r) {
      assert WritersApart(key, w, q, r);
    }
  }

  lemma CommitShape(key: int -> int, w: World, p: nat)
    requires p < |w.calls| && w.calls[p].phase.Written? && Gated(w, p) && UpToDate(w, p)
    ensures var v, c := Step(HeldInBlock, key, w, p), w.calls[p];
            var t := w.store.rows[Find(w.store.rows, c.booking).value];
            && v.calls == w.calls[p := c.(phase := Done)]
            && v.store == w.store.(rows := Apply(ApproveOne(t, c.actor, c.now), w.store.rows), log := v.store.log)
  {
    MergeIsApply(w.store.rows, w.store.rows[Find(w.store.rows, w.calls[p].booking).value], w.calls[p]);
  }

  // In a polite schedule that lock is as good as one held to commit: the committed store is what running
  // the committed approvals one after the other gives.
  lemma {:induction false} PoliteRaceRefinesProtocol(key: int -> int, w: World, schedule: seq<nat>)
    requires WriterInv(key, w) && Polite(key, w, schedule)
    ensures Run(HeldInBlock, key, w, schedule).store == Exec(w.store, Serial(HeldInBlock, key, w, schedule))
    decreases |schedule|
  {
    if schedule != [] {
      var p := schedule[0];
      var v := Step(HeldInBlock, key, w, p);
      var rest := Serial(HeldInBlock, key, v, schedule[1..]);
      if p < |w.calls| && w.calls[p].phase.Written? {
        CommitKeepsWriters(key, w, p);
        CommitIsAtomic(HeldInBlock, key, w, p);
        assert ([w.calls[p].Cmd()] + rest)[1..] == rest;
      } else {
        assert [] + rest == rest;
        if p < |w.calls| {
          QuietStepKeepsWriters(key, w, p);
        }
      }
      PoliteRaceRefinesProtocol(key, v, schedule[1..]);
    }
  }

  // So two overlapping PENDING bookings never both end APPROVED in such a schedule.
  lemma PoliteRivalsNeverBothApproved(key: int -> int, w: World, schedule: seq<nat>, i: nat, j: nat)
    requires Fresh(w) && Polite(key, w, schedule)
    requires i < |w.store.rows| && j < |w.store.rows| && Rivals(w.store.rows, i, j)
    requires w.store.rows[i].status.Pending? && w.store.rows[j].status.Pending?
    ensures var rows := Run(HeldInBlock, key, w, schedule).store.rows;
            |rows| == |w.store.rows| && !(rows[i].status.Approved? && rows[j].status.Approved?)
  {
    PoliteRaceRefinesProtocol(key, w, schedule);
    SerialIsApprovals(HeldInBlock, key, w, schedule);
    SerialKeepsSettled(w.store, Serial(HeldInBlock, key, w, schedule), i, j);
  }

  // ---------- schedules that fail ----------

  // One fresh call of its owner for each row, and no constraint.
  ghost predicate CallPerRow(w: World) {
    && Fresh(w) && !w.store.constrained && |w.calls| == |w.store.rows|
    && (forall p :: 0 <= p < |w.calls| ==>
          && w.calls[p].operational && w.calls[p].booking == w.store.rows[p].id
          && w.store.rows[p].status.Pending? && Owns(w.store, w.calls[p].actor, w.store.rows[p].resource))
  }

  // Load, lock, re-read and write, with nobody else in the way. The lock is free again afterwards.
  lemma WriteTurn(key: int -> int, w: World, p: nat)
    requires p < |w.calls| && w.calls[p].phase.Started? && w.locks == map[]
    requires w.calls[p].operational && Find(w.store.rows, w.calls[p].booking).Some?
    requires var t := w.store.rows[Find(w.store.rows, w.calls[p].booking).value];
             t.status.Pending? && !w.store.constrained && Owns(w.store, w.calls[p].actor, t.resource)
    ensures var t := w.store.rows[Find(w.store.rows, w.calls[p].booking).value];
            Run(HeldInBlock, key, w, [p, p, p]) == w.(calls := w.calls[p := w.calls[p].(phase :=
              Written(t.resource, WritesOf(w.store.rows, t, w.calls[p]), NoticesOf(w.store.rows, t)))])
  {
    var w1 := Step(HeldInBlock, key, w, p);
    var w2 := Step(HeldInBlock, key, w1, p);
    var w3 := Step(HeldInBlock, key, w2, p);
    assert w1.calls[p].phase.Loaded? && w2.calls[p].phase.Holding? && w3.calls[p].phase.Written?;
    assert [p, p, p][1..] == [p, p] && [p, p][1..] == [p] && [p][1..] == [];
    assert Run(HeldInBlock, key, w2, [p]) == w3;
    assert Run(HeldInBlock, key, w1, [p, p]) == w3;
    assert w3.calls == w.calls[p := w3.calls[p]];
    assert w3.locks == map[];
  }

  // Its phase after such a turn.
  function WrittenBy(w: World, p: nat): Phase
    requires p < |w.calls| == |w.store.rows|
  {
    Written(w.store.rows[p].resource, WritesOf(w.store.rows, w.store.rows[p], w.calls[p]),
            NoticesOf(w.store.rows, w.store.rows[p]))
  }

  // Two such turns, of which the second does not see what the first has written.
  lemma TwoWriteTurns(key: int -> int, w: World, p: nat, q: nat)
    requires CallPerRow(w) && p < |w.calls| && q < |w.calls| && p != q
    ensures Run(HeldInBlock, key, w, [p, p, p] + [q, q, q])
         == w.(calls := w.calls[p := w.calls[p].(phase := WrittenBy(w, p))][q := w.calls[q].(phase := WrittenBy(w, q))])
  {
    FindUnique(w.store.rows, p);
    FindUnique(w.store.rows, q);
    RunInTwoParts(HeldInBlock, key, w, [p, p, p], [q, q, q]);
    WriteTurn(key, w, p);
    WriteTurn(key, Run(HeldInBlock, key, w, [p, p, p]), q);
  }

  lemma CommitTurn(key: int -> int, w: World, p: nat)
    requires p < |w.calls| && w.calls[p].phase.Written?
    ensures var ph := w.calls[p].phase;
            Run(HeldInBlock, key, w, [p]) == w.(
              store := w.store.(rows := Merge(w.store.rows, ph.writes), log := w.store.log + ph.notices),
              calls := w.calls[p := w.calls[p].(phase := Done)])
  {
    assert [p][1..] == [];
    assert Run(HeldInBlock, key, w, [p]) == Step(HeldInBlock, key, w, p);
  }

  lemma {:induction false} RunInTwoParts(lock: Lock, key: int -> int, w: World, a: seq<nat>, b: seq<nat>)
    ensures Run(lock, key, w, a + b) == Run(lock, key, Run(lock, key, w, a), b)
    decreases |a|
  {
    if a == [] {
      assert a + b == b;
    } else {
      assert (a + b)[1..] == a[1..] + b;
      RunInTwoParts(lock, key, Step(lock, key, w, a[0]), a[1..], b);
    }
  }

  // What one approval writes: its target and the PENDING rows that overlap it.
  lemma WritesAre(rows: seq<BookingData>, i: nat, c: Call)
    requires UniqueIds(rows) && i < |rows| && rows[i].status.Pending?
    ensures forall j :: j in WritesOf(rows, rows[i], c) <==>
              0 <= j < |rows| && (j == i || (Rivals(rows, i, j) && rows[j].status.Pending?))
    ensures forall j :: j in WritesOf(rows, rows[i], c) ==>
              && SameBooking(rows[j], WritesOf(rows, rows[i], c)[j])
              && WritesOf(rows, rows[i], c)[j].status == if j == i then Approved else Rejected
  {
    var ch := ApproveOne(rows[i], c.actor, c.now);
    forall j | 0 <= j < |rows| && Touches(rows[i], rows[j])
      ensures SameBooking(rows[j], RowAfter(ch, rows[j]))
      ensures RowAfter(ch, rows[j]).status == if j == i then Approved else Rejected
    {
      MovedFollows(rows[j], Approved, c.actor, Owner, c.now, None);
      MovedFollows(rows[j], Rejected, c.actor, Owner, c.now, Some(AUTO_REASON));
    }
  }

  // With the lock of a block, which ends before the commit, and no exclusion constraint behind it, two
  // rival calls can both succeed: the second reads rows that the first has written but not committed.
  // The first winner is told so, and then its booking is overwritten as rejected.
  lemma BlockLockLetsBothSucceed(key: int -> int, w: World)
    requires CallPerRow(w) && |w.calls| == 2 && Rivals(w.store.rows, 0, 1)
    ensures var v := Run(HeldInBlock, key, w, ([0, 0, 0] + [1, 1, 1]) + ([0] + [1]));
            && |v.calls| == 2 && v.calls[0].phase.Done? && v.calls[1].phase.Done?
            && |v.store.rows| == 2 && v.store.rows[0].status.Rejected? && v.store.rows[1].status.Approved?
            && Notice(w.store.rows[0].customer, BookingApproved) in v.store.log
  {
    var rows := w.store.rows;
    WritesAre(rows, 0, w.calls[0]);
    WritesAre(rows, 1, w.calls[1]);
    RunInTwoParts(HeldInBlock, key, w, [0, 0, 0] + [1, 1, 1], [0] + [1]);
    TwoWriteTurns(key, w, 0, 1);
    var b := Run(HeldInBlock, key, w, [0, 0, 0] + [1, 1, 1]);
    RunInTwoParts(HeldInBlock, key, b, [0], [1]);
    CommitTurn(key, b, 0);
    var c := Run(HeldInBlock, key, b, [0]);
    assert NoticesOf(rows, rows[0])[0] == Notice(rows[0].customer, BookingApproved);
    assert NoticesOf(rows, rows[0])[0] in c.store.log;
    CommitTurn(key, c, 1);
  }

  // A chain of three: the middle booking overlaps both others, which do not overlap.
  ghost predicate Chain(w: World) {
    && CallPerRow(w) && |w.calls| == 3
    && Rivals(w.store.rows, 0, 1) && Rivals(w.store.rows, 1, 2) && !Rivals(w.store.rows, 0, 2)
  }

  // The first and then the middle call write; the first commits, which rejects the middle booking; the
  // last writes, with no rival in sight; then the middle and the last commit. Calls that write the same
  // row commit in the order in which they write, as they do where a write waits for an earlier one.
  const CHAIN_SCHEDULE: seq<nat> := ([0, 0, 0] + [1, 1, 1]) + ([0] + ([2, 2, 2] + ([1] + [2])))

  // With three calls that same lock lets two overlapping PENDING bookings both end APPROVED.
  lemma BlockLockLetsRivalsBothBeApproved(key: int -> int, w: World)
    requires Chain(w)
    ensures var rows := Run(HeldInBlock, key, w, CHAIN_SCHEDULE).store.rows;
            |rows| == 3 && Rivals(rows, 1, 2) && rows[1].status.Approved? && rows[2].status.Approved?
  {
    RunInTwoParts(HeldInBlock, key, w, [0, 0, 0] + [1, 1, 1], [0] + ([2, 2, 2] + ([1] + [2])));
    TwoWriteTurns(key, w, 0, 1);
    var b := Run(HeldInBlock, key, w, [0, 0, 0] + [1, 1, 1]);
    RunInTwoParts(HeldInBlock, key, b, [0], [2, 2, 2] + ([1] + [2]));
    CommitTurn(key, b, 0);
    FirstCommitOfChain(w.store.rows, w.calls[0], w.calls[1]);
    ChainEnds(key, Run(HeldInBlock, key, b, [0]), w.store.rows);
  }

  lemma FirstCommitOfChain(rows: seq<BookingData>, first: Call, middle: Call)
    requires UniqueIds(rows) && |rows| == 3 && forall i :: 0 <= i < 3 ==> rows[i].status.Pending?
    requires Rivals(rows, 0, 1) && Rivals(rows, 1, 2) && !Rivals(rows, 0, 2)
    ensures var after := Merge(rows, WritesOf(rows, rows[0], first));
            && |after| == 3 && (forall i :: 0 <= i < 3 ==> SameBooking(rows[i], after[i]))
            && after[1].status.Rejected? && after[2] == rows[2]
    ensures var writes := WritesOf(rows, rows[1], middle);
            && (forall j :: j in writes ==> 0 <= j < 3 && SameBooking(rows[j], writes[j]))
            && 1 in writes && writes[1].status.Approved?
  {
    WritesAre(rows, 0, first);
    WritesAre(rows, 1, middle);
  }

  // After the first commit: the middle booking is rejected, the last untouched.
  lemma ChainEnds(key: int -> int, w: World, was: seq<BookingData>)
    requires |w.calls| == 3 && |w.store.rows| == |was| == 3 && UniqueIds(was)
    requires forall i :: 0 <= i < 3 ==> SameBooking(was[i], w.store.rows[i])
    requires w.store.rows[1].status.Rejected? && w.store.rows[2].status.Pending? && Rivals(was, 1, 2)
    requires !w.store.constrained && w.locks == map[] && !Rivals(was, 0, 2)
    requires w.calls[2].phase.Started? && w.calls[2].operational && w.calls[2].booking == was[2].id
    requires Owns(w.store, w.calls[2].actor, was[2].resource)
    requires w.calls[1].phase.Written?
    requires forall j :: j in w.calls[1].phase.writes ==> 0 <= j < 3 && SameBooking(was[j], w.calls[1].phase.writes[j])
    requires 1 in w.calls[1].phase.writes && w.calls[1].phase.writes[1].status.Approved?
    ensures var rows := Run(HeldInBlock, key, w, [2, 2, 2] + ([1] + [2])).store.rows;
            |rows| == 3 && Rivals(rows, 1, 2) && rows[1].status.Approved? && rows[2].status.Approved?
  {
    FindUnique(w.store.rows, 2);
    WritesAre(w.store.rows, 2, w.calls[2]);
    RunInTwoParts(HeldInBlock, key, w, [2, 2, 2], [1] + [2]);
    WriteTurn(key, w, 2);
    var a := Run(HeldInBlock, key, w, [2, 2, 2]);
    RunInTwoParts(HeldInBlock, key, a, [1], [2]);
    CommitTurn(key, a, 1);
    CommitTurn(key, Run(HeldInBlock, key, a, [1]), 2);
  }
}
